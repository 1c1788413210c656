/**
 What becomes of a single segment and of segments with one name, and of characters inside the
 JSON text.
 */
module UrlNames {
  import opened Texts
  import opened UrlParams
  import opened UrlLaws
  import opened UrlExact
  import opened UrlSegments
  import opened UrlAgain

  // --- One segment ------------------------------------------------------------------------

  // The name ends at the first equals sign, the value at the second; the rest is dropped.
  lemma {:induction false} SegmentParts(n: string, v: string, rest: string)
    requires '=' !in n && '=' !in v
    ensures ParsePart(n) == Param(n, Undefined)
    ensures ParsePart(n + "=" + v) == Param(n, Text(v))
    ensures ParsePart(n + "=" + v + "=" + rest) == Param(n, Text(v))
  {
    SplitNone(n, '=');
    SplitFirst(n, '=', v);
    SplitNone(v, '=');
    SplitFirst(v, '=', rest);
    SplitFirst(n, '=', v + "=" + rest);
    assert n + "=" + v + "=" + rest == n + ['='] + (v + "=" + rest);
  }

  // --- Repeated names ---------------------------------------------------------------------

  function NameOf(segs: seq<string>, i: nat): string
    requires i < |segs|
  {
    ParsePart(segs[i]).name
  }

  ghost predicate IsFirst(segs: seq<string>, i: nat, name: string) {
    i < |segs| && NameOf(segs, i) == name && forall j :: 0 <= j < i ==> NameOf(segs, j) != name
  }

  ghost predicate IsLast(segs: seq<string>, i: nat, name: string) {
    i < |segs| && NameOf(segs, i) == name && forall j :: i < j < |segs| ==> NameOf(segs, j) != name
  }

  ghost predicate Named(segs: seq<string>, name: string) {
    exists i :: 0 <= i < |segs| && NameOf(segs, i) == name
  }

  ghost predicate HasName(ps: PropList, name: string) {
    exists p :: p in ps && p.name == name
  }

  // Every property has the value of the last segment of its name.
  ghost predicate LastValues(ps: PropList, segs: seq<string>) {
    forall p, i: nat :: p in ps && IsLast(segs, i, p.name) ==> p.value == ParsePart(segs[i]).value
  }

  // Properties stand in the order of the first segments of their names.
  ghost predicate FirstRanks(ps: PropList, segs: seq<string>) {
    forall a, b, i: nat, j: nat ::
      0 <= a < b < |ps| && IsFirst(segs, i, ps[a].name) && IsFirst(segs, j, ps[b].name) ==> i < j
  }

  lemma {:induction false} CollectAppend(obj: PropList, segs: seq<string>, s: string)
    ensures Collect(obj, segs + [s]) == Assign(Collect(obj, segs), ParsePart(s))
    decreases segs
  {
    if segs == [] {
      assert segs + [s] == [s] && [s][1..] == [];
    } else {
      assert (segs + [s])[1..] == segs[1..] + [s];
      CollectAppend(Assign(obj, ParsePart(segs[0])), segs[1..], s);
    }
  }

  // Assigning to a name that is there replaces its value where it stands; a new one goes last.
  lemma {:induction false} AssignPlaces(obj: PropList, p: Param)
    requires Properties(obj)
    ensures p.name == "__proto__" ==> Assign(obj, p) == obj
    ensures p.name != "__proto__" && !HasName(obj, p.name) ==> Assign(obj, p) == obj + [p]
    ensures p.name != "__proto__" && HasName(obj, p.name) ==>
      && |Assign(obj, p)| == |obj|
      && forall i :: 0 <= i < |obj| ==> Assign(obj, p)[i] == if obj[i].name == p.name then p else obj[i]
  {
    if p.name != "__proto__" && obj != [] {
      var rest := obj[1..];
      assert obj == [obj[0]] + rest;
      DistinctCons(obj[0], rest);
      if obj[0].name != p.name {
        AssignPlaces(rest, p);
        if HasName(obj, p.name) {
          var q :| q in obj && q.name == p.name;
          assert q in rest;
        } else {
          forall q | q in rest ensures q.name != p.name {
            assert q in obj;
          }
        }
      }
    }
  }

  // The collected object holds each name but __proto__ once, at the rank of its first segment and
  // with the value of its last.
  lemma {:induction false} CollectExactly(segs: seq<string>)
    ensures var obj := Collect([], segs);
      && Properties(obj)
      && (forall name :: HasName(obj, name) <==> name != "__proto__" && Named(segs, name))
      && LastValues(obj, segs) && FirstRanks(obj, segs)
  {
    CollectEffect([], segs);
    if segs != [] {
      var n := |segs| - 1;
      var front, s := segs[..n], segs[n];
      assert segs == front + [s];
      CollectExactly(front);
      CollectEffect([], front);
      CollectAppend([], front, s);
      var obj, p := Collect([], front), ParsePart(s);
      AssignPlaces(obj, p);
      NamesGrow(obj, front, s);
      ValuesGrow(obj, front, s);
      RanksGrow(obj, front, s);
    }
  }

  lemma {:induction false} NamedGrows(front: seq<string>, s: string, name: string)
    ensures Named(front + [s], name) <==> Named(front, name) || ParsePart(s).name == name
  {
    var segs := front + [s];
    if i :| 0 <= i < |front| && NameOf(front, i) == name {
      assert NameOf(segs, i) == name;
    }
    if ParsePart(s).name == name {
      assert NameOf(segs, |front|) == name;
    }
    if i :| 0 <= i < |segs| && NameOf(segs, i) == name {
      assert i < |front| ==> NameOf(front, i) == name;
    }
  }

  lemma {:induction false} NamesGrow(obj: PropList, front: seq<string>, s: string)
    requires Properties(obj) && forall name :: HasName(obj, name) <==> name != "__proto__" && Named(front, name)
    ensures forall name :: HasName(Assign(obj, ParsePart(s)), name) <==> name != "__proto__" && Named(front + [s], name)
  {
    var p := ParsePart(s);
    var after := Assign(obj, p);
    AssignPlaces(obj, p);
    forall name ensures HasName(after, name) <==> name != "__proto__" && Named(front + [s], name) {
      NamedGrows(front, s, name);
      if HasName(obj, name) {
        var q :| q in obj && q.name == name;
        var i :| 0 <= i < |obj| && obj[i] == q;
        assert after[i] in after && after[i].name == name;
      }
      if name == p.name && name != "__proto__" && !HasName(obj, name) {
        assert after[|obj|] == p;
      }
      if HasName(after, name) {
        var q :| q in after && q.name == name;
        var i :| 0 <= i < |after| && after[i] == q;
        assert i < |obj| ==> obj[i] in obj && obj[i].name == name;
      }
    }
  }

  lemma {:induction false} LastGrows(front: seq<string>, s: string, i: nat, name: string)
    requires IsLast(front + [s], i, name)
    ensures if ParsePart(s).name == name then i == |front| else IsLast(front, i, name)
  {
    var segs := front + [s];
    assert NameOf(segs, |front|) == ParsePart(s).name;
    if ParsePart(s).name != name {
      forall j | i < j < |front| ensures NameOf(front, j) != name {
        assert NameOf(segs, j) != name;
      }
    }
  }

  lemma {:induction false} ValuesGrow(obj: PropList, front: seq<string>, s: string)
    requires Properties(obj) && LastValues(obj, front)
    requires forall name :: HasName(obj, name) <==> name != "__proto__" && Named(front, name)
    ensures LastValues(Assign(obj, ParsePart(s)), front + [s])
  {
    var p, segs := ParsePart(s), front + [s];
    var after := Assign(obj, p);
    AssignPlaces(obj, p);
    AssignEffect(obj, p);
    forall q, i: nat | q in after && IsLast(segs, i, q.name) ensures q.value == ParsePart(segs[i]).value {
      LastGrows(front, s, i, q.name);
      if p.name == q.name {
        var a :| 0 <= a < |after| && after[a] == q;
      } else {
        assert q in obj;
      }
    }
  }

  lemma {:induction false} FirstGrows(front: seq<string>, s: string, i: nat, name: string)
    requires IsFirst(front + [s], i, name)
    ensures if i < |front| then IsFirst(front, i, name) else !Named(front, name)
  {
    var segs := front + [s];
    forall j | 0 <= j < i && j < |front| ensures NameOf(front, j) != name {
      assert NameOf(segs, j) != name;
    }
  }

  lemma {:induction false} RanksGrow(obj: PropList, front: seq<string>, s: string)
    requires Properties(obj) && FirstRanks(obj, front)
    requires forall name :: HasName(obj, name) <==> name != "__proto__" && Named(front, name)
    ensures FirstRanks(Assign(obj, ParsePart(s)), front + [s])
  {
    var p, segs := ParsePart(s), front + [s];
    var after := Assign(obj, p);
    AssignPlaces(obj, p);
    forall a, b, i: nat, j: nat |
      0 <= a < b < |after| && IsFirst(segs, i, after[a].name) && IsFirst(segs, j, after[b].name)
      ensures i < j
    {
      FirstGrows(front, s, i, after[a].name);
      FirstGrows(front, s, j, after[b].name);
      assert after[a].name == obj[a].name && HasName(obj, obj[a].name);
      if b < |obj| {
        assert after[b].name == obj[b].name && HasName(obj, obj[b].name);
      }
    }
  }

  ghost predicate IsParam(p: Param) {
    p.value.Text? && p.name != "__proto__" && Plain(p.name) && Plain(p.value.s)
  }

  // Deleting k from base?n=x&n=y&k=z leaves base?n=y.
  lemma {:induction false} LastValueStays(base: string, p: Param, q: Param, r: Param)
    requires '?' !in base && IsParam(p) && IsParam(q) && IsParam(r)
    requires p.name == q.name != r.name && Safe(ParamText(q))
    ensures DelParam(WithSegments(base, [ParamText(p), ParamText(q), ParamText(r)]), r.name) ==
            base + "?" + ParamText(q)
  {
    var url := WithSegments(base, [ParamText(p), ParamText(q), ParamText(r)]);
    ParsePrinted(p);
    ParsePrinted(q);
    ParsePrinted(r);
    ThreeSegments(base, ParamText(p), ParamText(q), ParamText(r));
    TwoCollected(ParamText(p), ParamText(q));
    OneLeftPrinted(url, r.name, ParamText(p), ParamText(q), q);
  }

  lemma {:induction false} OneLeftPrinted(url: string, key: string, s: string, t: string, q: Param)
    requires '?' in url && Contains(QueryOf(url), key) && Left(url, key) == [s, t]
    requires Collect([], [s, t]) == [q] && q.value.Text? && Safe(ParamText(q))
    ensures DelParam(url, key) == Split(url, '?')[0] + "?" + ParamText(q)
  {
    FirstDeletion(url, key);
    OnlyShown(s, t, q);
    FewTexts(q, q);
    PrintedExactly(ParamText(q));
  }

  lemma {:induction false} OnlyShown(s: string, t: string, q: Param)
    requires Collect([], [s, t]) == [q] && q.value.Text?
    ensures Shown([s, t]) == [q]
  {
    assert InOrder([q]);
    EnumerateExactly([q]);
    assert [q][1..] == [];
  }

  lemma {:induction false} TwoCollected(s: string, t: string)
    requires ParsePart(s).name == ParsePart(t).name != "__proto__"
    ensures Collect([], [s, t]) == [ParsePart(t)]
  {
    var p, q := ParsePart(s), ParsePart(t);
    assert [s] + [t] == [s, t] && [] + [s] == [s];
    CollectAppend([], [s], t);
    CollectAppend([], [], s);
    assert Assign([], p) == [p];
    assert [q] + [p][1..] == [q];
  }

  lemma {:induction false} ThreeSegments(base: string, s: string, t: string, u: string)
    requires '?' !in base && Free([s, t, u], '?') && Free([s, t, u], '&')
    requires ParsePart(s).name != ParsePart(u).name && ParsePart(t).name != ParsePart(u).name
    ensures var url := WithSegments(base, [s, t, u]);
      && '?' in url && Split(url, '?')[0] == base && Contains(QueryOf(url), ParsePart(u).name)
      && Left(url, ParsePart(u).name) == [s, t]
  {
    var segs, key := [s, t, u], ParsePart(u).name;
    WithMark(base, segs);
    JoinFree(segs, '&', '?');
    OneMark(WithSegments(base, segs));
    SegmentNameOccurs(segs, 2);
    assert segs == [s] + [t, u] && [t, u] == [t] + [u] && [u] == [u] + [];
    KeptCons(s, [t, u], key);
    KeptCons(t, [u], key);
    KeptCons(u, [], key);
    assert [t] + [] == [t] && [s] + [t] == [s, t];
  }

  // --- Inside the JSON text ---------------------------------------------------------------

  function HexValue(c: char): int {
    if '0' <= c <= '9' then c as int - '0' as int
    else if 'a' <= c <= 'f' then c as int - 'a' as int + 10
    else -1
  }

  // A reader of the inside of a JSON string (section 7 of RFC 8259): the two-character escapes, and
  // \u with four hexadecimal digits below 256.
  function Unescape(s: string): string {
    if s == "" then ""
    else if s[0] != '\\' then [s[0]] + Unescape(s[1..])
    else if |s| >= 6 && s[1] == 'u' then
      var d := 16 * HexValue(s[4]) + HexValue(s[5]);
      (if s[2..4] == "00" && 0 <= d < 256 then [d as char] else "") + Unescape(s[6..])
    else if |s| >= 2 then ShortEscape(s[1]) + Unescape(s[2..])
    else ""
  }

  function ShortEscape(c: char): string {
    match c
    case '\"' => "\""
    case '\\' => "\\"
    case 'b' => [8 as char]
    case 't' => [9 as char]
    case 'n' => [10 as char]
    case 'f' => [12 as char]
    case 'r' => [13 as char]
    case _ => ""
  }

  lemma {:induction false} HexReadsBack(d: nat)
    requires d < 16
    ensures HexValue(Hex(d)) == d
  {
  }

  lemma {:induction false} EscapeCharReadsBack(c: char, rest: string)
    ensures Unescape(EscapeChar(c) + rest) == [c] + Unescape(rest)
  {
    var e := EscapeChar(c);
    var s := e + rest;
    if |e| == 1 {
      assert s[1..] == rest;
    } else if |e| == 2 {
      assert s[1] == e[1] && s[2..] == rest;
    } else {
      var d := c as int;
      HexReadsBack(d / 16);
      HexReadsBack(d % 16);
      assert s[1] == 'u' && s[2..4] == "00" && s[4] == Hex(d / 16) && s[5] == Hex(d % 16) && s[6..] == rest;
    }
  }

  // What the printer puts inside the quotes reads back as the text.
  lemma {:induction false} EscapeReadsBack(s: string)
    ensures Unescape(Escape(s)) == s
  {
    if s != "" {
      EscapeReadsBack(s[1..]);
      EscapeCharReadsBack(s[0], Escape(s[1..]));
      assert [s[0]] + s[1..] == s;
    }
  }
}
