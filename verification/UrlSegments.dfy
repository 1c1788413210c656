/**
 delUrlParam on every text. The reference deletes the segments of one name and keeps all other
 text as it is; the function is compared with it.
 */
module UrlSegments {
  import opened Texts
  import opened UrlParams
  import opened UrlLaws
  import opened UrlExact

  // The segments of another name than key.
  function Kept(segs: seq<string>, key: string): seq<string> {
    if segs == [] then []
    else if ParsePart(segs[0]).name == key then Kept(segs[1..], key)
    else [segs[0]] + Kept(segs[1..], key)
  }

  // All text after the first question mark.
  function AfterMark(url: string): string
    requires '?' in url
  {
    JoinSplit(url, '?');
    Join(Split(url, '?')[1..], '?')
  }

  function Segments(url: string): seq<string>
    requires '?' in url
  {
    Split(AfterMark(url), '&')
  }

  function WithSegments(base: string, segs: seq<string>): string {
    if segs == [] then base else base + "?" + Join(segs, '&')
  }

  // The URL without the segments named key, and otherwise unchanged.
  function Deleted(url: string, key: string): string {
    if '?' !in url then url else WithSegments(Split(url, '?')[0], Kept(Segments(url), key))
  }

  // --- What is parsed ---------------------------------------------------------------------

  function Parsed(segs: seq<string>): (ps: PropList)
    ensures |ps| == |segs| && forall i :: 0 <= i < |ps| ==> ps[i] == ParsePart(segs[i])
  {
    if segs == [] then [] else [ParsePart(segs[0])] + Parsed(segs[1..])
  }

  lemma {:induction false} WithoutAssign(obj: PropList, p: Param, key: string)
    ensures Without(Assign(obj, p), key) ==
            if p.name == key then Without(obj, key) else Assign(Without(obj, key), p)
  {
    if obj != [] && p.name != "__proto__" && obj[0].name != p.name {
      WithoutAssign(obj[1..], p, key);
    }
  }

  // Deleting from the object is deleting from the segments.
  lemma {:induction false} WithoutCollect(obj: PropList, segs: seq<string>, key: string)
    ensures Without(Collect(obj, segs), key) == Collect(Without(obj, key), Kept(segs, key))
    decreases segs
  {
    if segs != [] {
      var p := ParsePart(segs[0]);
      WithoutAssign(obj, p, key);
      WithoutCollect(Assign(obj, p), segs[1..], key);
    }
  }

  // Distinct names, and none of them __proto__.
  ghost predicate Properties(obj: PropList) {
    DistinctNames(obj) && forall q :: q in obj ==> q.name != "__proto__"
  }

  lemma {:induction false} AssignEffect(obj: PropList, p: Param)
    requires Properties(obj)
    ensures Properties(Assign(obj, p))
    ensures forall q :: q in Assign(obj, p) ==> q in obj || q == p
    ensures |Assign(obj, p)| <= |obj| + 1
    ensures |Assign(obj, p)| == |obj| + 1 ==> Assign(obj, p) == obj + [p]
  {
    if p.name != "__proto__" && obj != [] {
      var rest := obj[1..];
      assert obj == [obj[0]] + rest;
      DistinctCons(obj[0], rest);
      if obj[0].name == p.name {
        DistinctCons(p, rest);
      } else {
        AssignEffect(rest, p);
        DistinctCons(obj[0], Assign(rest, p));
      }
    }
  }

  // The object has at most one property per segment, and exactly then all of them in order.
  lemma {:induction false} CollectEffect(obj: PropList, segs: seq<string>)
    requires Properties(obj)
    ensures Properties(Collect(obj, segs)) && |Collect(obj, segs)| <= |obj| + |segs|
    ensures |Collect(obj, segs)| == |obj| + |segs| ==> Collect(obj, segs) == obj + Parsed(segs)
    decreases segs
  {
    if segs != [] {
      var p, rest := ParsePart(segs[0]), segs[1..];
      AssignEffect(obj, p);
      CollectEffect(Assign(obj, p), rest);
      Regrouped(obj, p, Parsed(rest));
    }
  }

  lemma {:induction false} Regrouped(obj: PropList, p: Param, ps: PropList)
    ensures (obj + [p]) + ps == obj + ([p] + ps)
  {
  }

  // p is what some segment says.
  ghost predicate Said(p: Param, segs: seq<string>) {
    exists i :: 0 <= i < |segs| && ParsePart(segs[i]) == p
  }

  lemma {:induction false} CollectMembers(obj: PropList, segs: seq<string>)
    requires Properties(obj)
    ensures forall q :: q in Collect(obj, segs) ==> q in obj || Said(q, segs)
    decreases segs
  {
    if segs != [] {
      var p, rest := ParsePart(segs[0]), segs[1..];
      AssignEffect(obj, p);
      CollectMembers(Assign(obj, p), rest);
      forall q | Said(q, rest) ensures Said(q, segs) {
        var i :| 0 <= i < |rest| && ParsePart(rest[i]) == q;
        assert segs[i + 1] == rest[i];
      }
    }
  }

  // --- What is printed --------------------------------------------------------------------

  // The properties that JSON shows.
  function Valued(ps: PropList): (vs: PropList)
    ensures AllText(vs) && |vs| <= |ps| && (|vs| == |ps| ==> vs == ps) && forall p :: p in vs ==> p in ps
  {
    if ps == [] then []
    else if ps[0].value.Undefined? then Valued(ps[1..])
    else [ps[0]] + Valued(ps[1..])
  }

  lemma {:induction false} MembersValued(ps: PropList)
    ensures Members(Valued(ps)) == Members(ps)
  {
    if ps != [] {
      MembersValued(ps[1..]);
    }
  }

  // What the code prints for these segments.
  function Printout(segs: seq<string>): string {
    Rewrite(Stringify(Enumerate(Collect([], segs))))
  }

  // The shown properties, in the order of printing.
  function Shown(segs: seq<string>): (vs: PropList)
    ensures AllText(vs)
  {
    Valued(Enumerate(Collect([], segs)))
  }

  lemma {:induction false} ShownMembers(segs: seq<string>)
    ensures |Shown(segs)| <= |segs| && forall p :: p in Shown(segs) ==> Said(p, segs)
    ensures |Shown(segs)| == |segs| ==>
              && Collect([], segs) == Parsed(segs) && Properties(Parsed(segs))
              && AllText(Parsed(segs)) && Shown(segs) == Enumerate(Parsed(segs))
  {
    var obj := Collect([], segs);
    CollectEffect([], segs);
    CollectMembers([], segs);
    EnumerateMembers(obj);
    assert [] + Parsed(segs) == Parsed(segs);
    forall p | p in obj ensures p in Enumerate(obj) {
      assert p in Indices(obj) || p in Others(obj);
    }
  }

  lemma {:induction false} PrintoutShown(segs: seq<string>)
    ensures Printout(segs) == Printed(Query(Shown(segs)))
  {
    MembersValued(Enumerate(Collect([], segs)));
    StringifyPrinted(Shown(segs));
  }

  // On text that the printer keeps but for backslashes, the other characters keep their number.
  lemma {:induction false} PrintedCount(s: string, d: char)
    requires (forall c :: c in s ==> !Unprintable(c)) && d != '\\'
    ensures Count(Printed(s), d) == Count(s, d)
  {
    if s != "" {
      var c, rest := s[0], s[1..];
      assert [c] + rest == s;
      assert c in s && forall d :: d in rest ==> d in s;
      PrintedCount(rest, d);
      PrintedConcat([c], rest);
      PrintedChar(c);
      CountConcat(Printed([c]), Printed(rest), d);
      assert [c][1..] == "" && "\\\\"[1..] == "\\" && "\\"[1..] == "";
    }
  }

  // A segment's name and value are its parts around the first equals signs.
  lemma {:induction false} ParsedText(s: string)
    ensures var p := ParsePart(s);
      && (forall c :: c in p.name ==> c in s && c != '=')
      && (p.value.Text? <==> Count(s, '=') >= 1)
      && (p.value.Text? ==> forall c :: c in p.value.s ==> c in s && c != '=')
      && (Count(s, '=') == 1 <==> |Split(s, '=')| == 2)
      && (Count(s, '=') == 1 ==> ParamText(p) == s)
  {
    var pair := Split(s, '=');
    JoinSplit(s, '=');
    CountJoin(pair, '=', '=');
    CountFree(pair, '=');
    forall i, c | 0 <= i < |pair| && c in pair[i] ensures c in s && c != '=' {
      assert pair[i] in pair;
      JoinMember(pair, '=', i, c);
    }
    if |pair| == 2 {
      assert pair[1..] == [pair[1]];
    }
  }

  // The printed text of n parameters has n - 1 ampersands and n equals signs.
  lemma {:induction false} QueryCounts(vs: PropList)
    requires AllText(vs) && vs != [] && forall p :: p in vs ==> Single(p)
    ensures Count(Query(vs), '&') == |vs| - 1 && Count(Query(vs), '=') == |vs|
  {
    TextsLength(vs);
    TextsCounts(vs);
    CountJoin(ParamTexts(vs), '&', '&');
    CountJoin(ParamTexts(vs), '&', '=');
  }

  // Neither name nor value holds a separator.
  predicate Single(p: Param) {
    p.value.Text? && '&' !in p.name && '=' !in p.name && '&' !in p.value.s && '=' !in p.value.s
  }

  lemma {:induction false} TextsCounts(vs: PropList)
    requires AllText(vs) && forall p :: p in vs ==> Single(p)
    ensures CountIn(ParamTexts(vs), '&') == 0 && CountIn(ParamTexts(vs), '=') == |vs|
  {
    if vs != [] {
      var p := vs[0];
      assert p in vs;
      forall d ensures Count(ParamText(p), d) == Count(p.name, d) + (if d == '=' then 1 else 0) + Count(p.value.s, d) {
        CountConcat(p.name + "=", p.value.s, d);
        CountConcat(p.name, "=", d);
        assert "="[1..] == "";
      }
      CountNone(p.name, '&');
      CountNone(p.name, '=');
      CountNone(p.value.s, '&');
      CountNone(p.value.s, '=');
      TextsCounts(vs[1..]);
    }
  }

  lemma {:induction false} ShownSingle(segs: seq<string>)
    requires Free(segs, '&')
    ensures forall p :: p in Shown(segs) ==> Single(p)
  {
    ShownMembers(segs);
    forall p | p in Shown(segs) ensures Single(p) {
      var i :| 0 <= i < |segs| && ParsePart(segs[i]) == p;
      assert segs[i] in segs;
      ParsedText(segs[i]);
    }
  }

  ghost predicate Avoids(s: string, bad: char -> bool) {
    forall c :: c in s ==> !bad(c)
  }

  // What is shown has no other characters than the segments and the separators.
  lemma {:induction false} ShownAvoids(segs: seq<string>, bad: char -> bool)
    requires !bad('&') && !bad('=') && forall s :: s in segs ==> Avoids(s, bad)
    ensures Avoids(Query(Shown(segs)), bad)
  {
    var vs := Shown(segs);
    ShownMembers(segs);
    forall p | p in vs ensures Avoids(ParamText(p), bad) {
      var i :| 0 <= i < |segs| && ParsePart(segs[i]) == p;
      SegmentAvoids(segs[i], bad);
    }
    QueryWithout(vs, bad);
  }

  lemma {:induction false} SegmentAvoids(s: string, bad: char -> bool)
    requires !bad('=') && Avoids(s, bad) && ParsePart(s).value.Text?
    ensures Avoids(ParamText(ParsePart(s)), bad)
  {
    ParsedText(s);
  }

  lemma {:induction false} PrintedNoMark(s: string)
    requires '?' !in s
    ensures '?' !in Printed(s)
  {
    if s != "" {
      var c, rest := s[0], s[1..];
      assert [c] + rest == s && c in s;
      PrintedNoMark(rest);
      PrintedConcat([c], rest);
      assert [c][1..] == "" && Escape([c]) == EscapeChar(c);
      EscapeNoMark(c);
      RewriteNoMark(EscapeChar(c));
    }
  }

  lemma {:induction false} EscapeNoMark(c: char)
    requires c != '?'
    ensures '?' !in EscapeChar(c)
  {
    assert forall i :: 0 <= i < 16 ==> "0123456789abcdef"[i] != '?';
  }

  lemma {:induction false} RewriteNoMark(s: string)
    requires '?' !in s
    ensures '?' !in Rewrite(s)
  {
    if s != "" {
      var c, rest := s[0], s[1..];
      assert [c] + rest == s && c in s;
      RewriteNoMark(rest);
      RewriteConcat([c], rest);
      RewriteChar(c);
    }
  }

  lemma {:induction false} PrintoutNoMark(segs: seq<string>)
    requires Free(segs, '?')
    ensures '?' !in Printout(segs)
  {
    PrintoutShown(segs);
    ShownAvoids(segs, c => c == '?');
    PrintedNoMark(Query(Shown(segs)));
  }

  // Every segment is one name and one value, names are distinct, and the printer leaves text and
  // order alone.
  ghost predicate Clean(segs: seq<string>) {
    OneEach(segs) && Properties(Parsed(segs)) && Safe(Join(segs, '&')) && InOrder(Parsed(segs))
  }

  ghost predicate OneEach(segs: seq<string>) {
    forall s :: s in segs ==> Count(s, '=') == 1
  }

  lemma {:induction false} ParsedPrints(segs: seq<string>)
    requires OneEach(segs)
    ensures AllText(Parsed(segs)) && ParamTexts(Parsed(segs)) == segs
  {
    if segs != [] {
      assert segs[0] in segs;
      ParsedText(segs[0]);
      ParsedPrints(segs[1..]);
      assert Parsed(segs) == [ParsePart(segs[0])] + Parsed(segs[1..]);
    }
  }

  lemma {:induction false} ParsedWellFormed(segs: seq<string>)
    requires OneEach(segs) && Properties(Parsed(segs)) && Free(segs, '&') && Free(segs, '?')
    ensures WellFormed(Parsed(segs))
  {
    ParsedPrints(segs);
    forall p | p in Parsed(segs) ensures Plain(p.name) && Plain(p.value.s) {
      var i :| 0 <= i < |segs| && Parsed(segs)[i] == p;
      assert segs[i] in segs;
      ParsedText(segs[i]);
    }
  }

  // Segments that print as a text that holds them have no character the printer would change,
  // backslashes excepted.
  lemma {:induction false} PrintoutPrintable(segs: seq<string>, target: seq<string>)
    requires forall s :: s in segs ==> s in target
    requires Printout(segs) == Join(target, '&')
    ensures Avoids(Query(Shown(segs)), Unprintable)
  {
    PrintoutShown(segs);
    PrintedOutput(Query(Shown(segs)));
    forall s | s in segs ensures Avoids(s, Unprintable) {
      var i :| 0 <= i < |target| && target[i] == s;
      forall c | c in s ensures !Unprintable(c) {
        JoinMember(target, '&', i, c);
      }
    }
    ShownAvoids(segs, Unprintable);
  }

  // Segments that print as at least as many segments, themselves among them, are all shown.
  lemma {:induction false} PrintoutSize(segs: seq<string>, target: seq<string>)
    requires target != [] && Free(target, '&') && |segs| <= |target|
    requires forall s :: s in segs ==> s in target
    requires Printout(segs) == Join(target, '&')
    ensures target == [""] || (|Shown(segs)| == |segs| == |target| && Avoids(Query(Shown(segs)), Unprintable))
  {
    var vs := Shown(segs);
    PrintoutPrintable(segs, target);
    PrintoutShown(segs);
    ShownMembers(segs);
    PrintedCount(Query(vs), '&');
    CountFree(target, '&');
    CountJoin(target, '&', '&');
    if vs == [] {
      assert Join(target, '&') == "";
    } else {
      ShownSingle(segs);
      QueryCounts(vs);
    }
  }

  // The printout is the segments' own text exactly for clean segments and for no text at all.
  lemma {:induction false} PrintoutClean(segs: seq<string>)
    requires segs != [] && Free(segs, '&') && Free(segs, '?')
    ensures Printout(segs) == Join(segs, '&') <==> segs == [""] || Clean(segs)
  {
    if segs == [""] {
      assert Collect([], segs) == [Param("", Undefined)];
      PrintoutShown(segs);
    } else if Printout(segs) == Join(segs, '&') {
      PrintoutOneEach(segs);
      PrintoutOfParsed(segs);
    } else if Clean(segs) {
      PrintoutOfParsed(segs);
    }
  }

  // Distinct one-to-one segments print as their query does.
  lemma {:induction false} PrintoutOfParsed(segs: seq<string>)
    requires segs != [] && Free(segs, '&') && Free(segs, '?') && OneEach(segs) && Properties(Parsed(segs))
    ensures Collect([], segs) == Parsed(segs) != []
    ensures Printout(segs) == Join(segs, '&') <==> Safe(Join(segs, '&')) && InOrder(Parsed(segs))
  {
    var ps := Parsed(segs);
    ParsedPrints(segs);
    ParsedWellFormed(segs);
    assert [] + ps == ps;
    CollectPrinted([], ps);
    PrintoutExactly(ps);
  }

  // Text that prints as itself has one equals sign a segment: the printer shows one for each.
  lemma {:induction false} PrintoutOneEach(segs: seq<string>)
    requires segs != [] && segs != [""] && Free(segs, '&') && Printout(segs) == Join(segs, '&')
    ensures OneEach(segs) && Properties(Parsed(segs))
  {
    var vs := Shown(segs);
    PrintoutSize(segs, segs);
    ShownMembers(segs);
    PrintoutShown(segs);
    PrintedCount(Query(vs), '=');
    ShownSingle(segs);
    QueryCounts(vs);
    CountJoin(segs, '&', '=');
    forall s | s in segs ensures Count(s, '=') >= 1 {
      var i :| 0 <= i < |segs| && segs[i] == s;
      assert Parsed(segs)[i] in Parsed(segs);
      ParsedText(s);
    }
    CountOneEach(segs, '=');
  }

  // --- The segments that stay -------------------------------------------------------------

  lemma {:induction false} KeptMembers(segs: seq<string>, key: string)
    ensures |Kept(segs, key)| <= |segs|
    ensures |Kept(segs, key)| == |segs| ==> Kept(segs, key) == segs
    ensures forall s :: s in Kept(segs, key) <==> s in segs && ParsePart(s).name != key
  {
    if segs != [] {
      KeptMembers(segs[1..], key);
    }
  }

  // A second question mark glues its text to the last segment before it. If nothing that holds
  // a question mark stays, then that segment goes with it.
  lemma {:induction false} KeptGlue(xs: seq<string>, ys: seq<string>, key: string)
    requires xs != [] && ys != [] && ys[0] != "" && ys[0][0] == '?' && '?' !in key
    requires Free(Kept(Glue(xs, ys), key), '?')
    ensures Kept(Glue(xs, ys), key) == Kept(xs, key) + Kept(ys[1..], key)
  {
    var late := Kept(ys[1..], key);
    if |xs| == 1 {
      assert xs[1..] == [];
      LastGlued(xs[0], ys, key);
      assert [] + late == late;
    } else {
      var rest := Glue(xs[1..], ys);
      KeptCons(xs[0], rest, key);
      KeptGlue(xs[1..], ys, key);
      if ParsePart(xs[0]).name != key {
        assert [xs[0]] + (Kept(xs[1..], key) + late) == [xs[0]] + Kept(xs[1..], key) + late;
      }
    }
  }

  lemma {:induction false} KeptCons(s: string, segs: seq<string>, key: string)
    ensures Kept([s] + segs, key) == if ParsePart(s).name == key then Kept(segs, key) else [s] + Kept(segs, key)
    ensures Free(Kept([s] + segs, key), '?') ==> Free(Kept(segs, key), '?')
    ensures Free(Kept([s] + segs, key), '?') && '?' in s ==> ParsePart(s).name == key
  {
    assert ([s] + segs)[1..] == segs;
    if ParsePart(s).name != key {
      assert Kept([s] + segs, key)[0] == s;
    }
  }

  lemma {:induction false} LastGlued(x: string, ys: seq<string>, key: string)
    requires ys != [] && ys[0] != "" && ys[0][0] == '?' && '?' !in key
    requires Free(Kept([x + ys[0]] + ys[1..], key), '?')
    ensures Kept([x + ys[0]] + ys[1..], key) == Kept(ys[1..], key) && ParsePart(x).name == key
  {
    assert (x + ys[0])[|x|] == '?';
    KeptCons(x + ys[0], ys[1..], key);
    GluedName(x, ys[0]);
  }

  lemma {:induction false} GluedName(x: string, y: string)
    requires y != "" && y[0] == '?'
    ensures ParsePart(x + y).name == ParsePart(x).name || '?' in ParsePart(x + y).name
  {
    SplitConcat(x, y, '=');
    var xs, ys := Split(x, '='), Split(y, '=');
    if |xs| == 1 {
      assert ys[0] != "" && ys[0][0] == '?';
      assert (xs[0] + ys[0])[|xs[0]|] == '?';
    }
  }

  // --- Theorems ---------------------------------------------------------------------------

  // The part of the URL that the function looks at: up to the next question mark.
  function QueryOf(url: string): string
    requires '?' in url
  {
    JoinSplit(url, '?');
    Split(url, '?')[1]
  }

  lemma {:induction false} UrlParts(url: string)
    requires '?' in url
    ensures '?' !in Split(url, '?')[0] && '?' !in QueryOf(url)
    ensures url == Split(url, '?')[0] + "?" + AfterMark(url)
    ensures Join(Segments(url), '&') == AfterMark(url) && Free(Segments(url), '&')
    ensures Free(Split(QueryOf(url), '&'), '&') && Free(Split(QueryOf(url), '&'), '?')
  {
    var pieces := Split(url, '?');
    JoinSplit(url, '?');
    assert pieces[0] in pieces && pieces[1] in pieces;
    JoinSplit(AfterMark(url), '&');
    var segs := Split(QueryOf(url), '&');
    JoinSplit(QueryOf(url), '&');
    forall s | s in segs ensures '?' !in s {
      var i :| 0 <= i < |segs| && segs[i] == s;
      if '?' in s {
        JoinMember(segs, '&', i, '?');
      }
    }
  }

  // What the function returns when the key occurs in the query.
  lemma {:induction false} DelParamPrints(url: string, key: string)
    requires '?' in url && Contains(QueryOf(url), key)
    ensures var kept := Kept(Split(QueryOf(url), '&'), key);
      DelParam(url, key) ==
        if Collect([], kept) == [] then Split(url, '?')[0] else Split(url, '?')[0] + "?" + Printout(kept)
  {
    JoinSplit(url, '?');
    WithoutCollect([], Split(QueryOf(url), '&'), key);
  }

  // The text after the first mark is the query, or goes on at a second mark.
  lemma {:induction false} MarkAfterMark(url: string) returns (more: string)
    requires '?' in url
    ensures AfterMark(url) == QueryOf(url) + more && (more != "" ==> more[0] == '?')
  {
    var pieces := Split(url, '?');
    JoinSplit(url, '?');
    var later := pieces[1..];
    if |later| == 1 {
      more := "";
    } else {
      more := "?" + Join(later[1..], '?');
      assert later[0] + "?" + Join(later[1..], '?') == later[0] + more;
    }
  }

  // The query's segments are all there is, or a second question mark adds more.
  lemma {:induction false} SegmentsOfQuery(url: string, key: string)
    requires '?' in url && '?' !in key && Free(Kept(Segments(url), key), '?')
    ensures Kept(Split(QueryOf(url), '&'), key) <= Kept(Segments(url), key)
  {
    var more := MarkAfterMark(url);
    if more == "" {
      assert AfterMark(url) == QueryOf(url);
    } else {
      SplitConcat(QueryOf(url), more, '&');
      KeptGlue(Split(QueryOf(url), '&'), Split(more, '&'), key);
    }
  }

  // Where the function deletes the key's segments and nothing else: a key that it looks for
  // must leave no other text than clean segments of the query, and a key that it does not look
  // for must name no segment.
  ghost predicate Faithful(url: string, key: string) {
    '?' in url ==>
      var kept := Kept(Segments(url), key);
      if !Contains(QueryOf(url), key) then kept == Segments(url)
      else kept == Kept(Split(QueryOf(url), '&'), key) && (kept == [] || kept == [""] || Clean(kept))
  }

  lemma {:induction false} NotLookedFor(url: string, key: string)
    requires '?' in url && !Contains(QueryOf(url), key)
    ensures DelParam(url, key) == url
    ensures Deleted(url, key) == url <==> Kept(Segments(url), key) == Segments(url)
  {
    UrlParts(url);
    JoinSplit(url, '?');
    var segs, kept, base := Segments(url), Kept(Segments(url), key), Split(url, '?')[0];
    KeptMembers(segs, key);
    if Deleted(url, key) == url {
      assert kept != [];
      assert (base + "?" + Join(kept, '&'))[|base| + 1..] == Join(kept, '&');
      assert (base + "?" + Join(segs, '&'))[|base| + 1..] == Join(segs, '&');
      CountFree(segs, '&');
      CountFree(kept, '&');
      CountJoin(segs, '&', '&');
      CountJoin(kept, '&', '&');
    }
  }

  // Segments print as the text of a longer list only if they are that list, and clean.
  lemma {:induction false} PrintoutOfPrefix(read: seq<string>, kept: seq<string>)
    requires kept != [] && read <= kept && Free(kept, '&') && Free(kept, '?')
    ensures (Collect([], read) != [] && Printout(read) == Join(kept, '&'))
            <==> (read == kept && (kept == [""] || Clean(kept)))
  {
    PrintoutClean(kept);
    if Collect([], read) != [] && Printout(read) == Join(kept, '&') {
      assert read != [] && read == kept[..|read|];
      PrintoutSize(read, kept);
      assert |read| == |kept| && kept[..|kept|] == kept;
      assert Printout(kept) == Join(kept, '&');
    } else if Clean(kept) {
      PrintoutOfParsed(kept);
    }
  }

  // The printout of what is read of the query is the text of what should be kept.
  ghost predicate PrintsKept(url: string, key: string)
    requires '?' in url
  {
    var read := Kept(Split(QueryOf(url), '&'), key);
    Collect([], read) != [] && Printout(read) == Join(Kept(Segments(url), key), '&')
  }

  lemma {:induction false} KeptPrintout(url: string, key: string)
    requires '?' in url && Contains(QueryOf(url), key) && Kept(Segments(url), key) != []
    ensures PrintsKept(url, key) <==> Faithful(url, key)
  {
    var kept, read := Kept(Segments(url), key), Kept(Split(QueryOf(url), '&'), key);
    UrlParts(url);
    KeptMembers(Segments(url), key);
    KeptMembers(Split(QueryOf(url), '&'), key);
    if i :| 0 <= i < |kept| && '?' in kept[i] {
      JoinMember(kept, '&', i, '?');
      PrintoutNoMark(read);
      assert kept[i] in kept;
    } else {
      KeyWithoutMark(QueryOf(url), key);
      SegmentsOfQuery(url, key);
      PrintoutOfPrefix(read, kept);
    }
  }

  lemma {:induction false} KeyWithoutMark(s: string, key: string)
    requires Contains(s, key) && '?' !in s
    ensures '?' !in key
  {
    var k :| 0 <= k <= |s| - |key| && OccursAt(s, key, k);
    forall i | 0 <= i < |key| ensures key[i] != '?' {
      assert s[k..k + |key|][i] == s[k + i];
    }
  }

  // On every text, the function deletes exactly the key's segments precisely where it is faithful.
  lemma {:induction false} DeletesExactly(url: string, key: string)
    ensures DelParam(url, key) == Deleted(url, key) <==> Faithful(url, key)
  {
    if '?' in url {
      UrlParts(url);
      var base, kept := Split(url, '?')[0], Kept(Segments(url), key);
      if !Contains(QueryOf(url), key) {
        NotLookedFor(url, key);
      } else {
        var read := Kept(Split(QueryOf(url), '&'), key);
        DelParamPrints(url, key);
        assert (base + "?" + Printout(read))[|base| + 1..] == Printout(read);
        assert (base + "?" + Join(kept, '&'))[|base| + 1..] == Join(kept, '&');
        if kept != [] {
          KeptPrintout(url, key);
        } else {
          KeyWithoutMark(QueryOf(url), key);
          SegmentsOfQuery(url, key);
        }
      }
    }
  }

  lemma {:induction false} UrlOf(base: string, ps: PropList)
    requires '?' !in base && WellFormed(ps) && ps != []
    ensures var url := Url(base, ps);
      && '?' in url && Split(url, '?')[0] == base && QueryOf(url) == AfterMark(url) == Query(ps)
      && Segments(url) == Split(QueryOf(url), '&') == ParamTexts(ps)
  {
    var segs := ParamTexts(ps);
    TextsLength(ps);
    TextsFree(ps, '&');
    WithMark(base, segs);
    TextsFree(ps, '?');
    JoinFree(segs, '&', '?');
    OneMark(Url(base, ps));
  }

  lemma {:induction false} KeptTexts(ps: PropList, key: string)
    requires AllText(ps) && forall p :: p in ps ==> Plain(p.name) && Plain(p.value.s)
    ensures AllText(Without(ps, key)) && ParamTexts(Without(ps, key)) == Kept(ParamTexts(ps), key)
  {
    if ps != [] {
      var p, rest := ps[0], ps[1..];
      ParsePrinted(p);
      KeptTexts(rest, key);
      assert ParamTexts(ps)[1..] == ParamTexts(rest);
      if p.name != key {
        var left := Without(rest, key);
        assert ([p] + left)[1..] == left;
        assert ParamTexts([p] + left) == [ParamText(p)] + ParamTexts(left);
      }
    }
  }

  lemma {:induction false} TextsClean(ps: PropList)
    requires WellFormed(ps) && Safe(Query(ps)) && InOrder(ps)
    ensures Clean(ParamTexts(ps)) && Free(ParamTexts(ps), '&')
  {
    var segs := ParamTexts(ps);
    TextsLength(ps);
    TextsFree(ps, '&');
    forall i | 0 <= i < |segs| ensures Count(segs[i], '=') == 1 && ParsePart(segs[i]) == ps[i] {
      assert ps[i] in ps;
      ParsePrinted(ps[i]);
      SplitFirst(ps[i].name, '=', ps[i].value.s);
      SplitNone(ps[i].value.s, '=');
      ParsedText(segs[i]);
    }
    assert Parsed(segs) == ps;
  }

  // On parameters with safe text in enumeration order the key's parameter goes, the others stay,
  // and the substring test is moot.
  lemma {:induction false} DeletesOne(base: string, ps: PropList, key: string)
    requires '?' !in base && WellFormed(ps) && Safe(Query(ps)) && InOrder(ps)
    ensures AllText(Without(ps, key)) && DelParam(Url(base, ps), key) == Url(base, Without(ps, key))
  {
    var segs := ParamTexts(ps);
    TextsLength(ps);
    KeptTexts(ps, key);
    TextsLength(Without(ps, key));
    if ps != [] {
      TextsClean(ps);
      UrlOf(base, ps);
      CleanKept(segs, key);
      if !Contains(Join(segs, '&'), key) {
        AbsentNamesNothing(segs, key);
      }
      DeletesExactly(Url(base, ps), key);
    }
  }

  // --- Deleting again ---------------------------------------------------------------------

  // Where deleting key changes nothing: the function does not look for it, or it names no segment
  // and the one query is clean.
  ghost predicate Fixed(url: string, key: string) {
    '?' in url && Contains(QueryOf(url), key) ==>
      '?' !in AfterMark(url) && Kept(Segments(url), key) == Segments(url) && Clean(Segments(url))
  }

  lemma {:induction false} OneMark(url: string)
    requires '?' in url
    ensures '?' !in AfterMark(url) ==> QueryOf(url) == AfterMark(url)
  {
    var more := MarkAfterMark(url);
    if more != "" {
      assert AfterMark(url)[|QueryOf(url)|] == '?';
    } else {
      assert QueryOf(url) + more == QueryOf(url);
    }
  }

  lemma {:induction false} FixedExactly(url: string, key: string)
    ensures DelParam(url, key) == url <==> Fixed(url, key)
  {
    if '?' in url {
      if !Contains(QueryOf(url), key) {
        NotLookedFor(url, key);
      } else if DelParam(url, key) == url {
        UnchangedIsFixed(url, key);
      } else if Fixed(url, key) {
        FixedIsUnchanged(url, key);
      }
    }
  }

  lemma {:induction false} FixedIsUnchanged(url: string, key: string)
    requires '?' in url && Contains(QueryOf(url), key) && Fixed(url, key)
    ensures DelParam(url, key) == url
  {
    UrlParts(url);
    OneMark(url);
    DeletesExactly(url, key);
  }

  lemma {:induction false} UnchangedIsFixed(url: string, key: string)
    requires '?' in url && Contains(QueryOf(url), key) && DelParam(url, key) == url
    ensures Fixed(url, key)
  {
    var base, read := Split(url, '?')[0], Kept(Split(QueryOf(url), '&'), key);
    UrlParts(url);
    DelParamPrints(url, key);
    KeptMembers(Split(QueryOf(url), '&'), key);
    assert (base + "?" + Printout(read))[|base| + 1..] == Printout(read);
    assert (base + "?" + AfterMark(url))[|base| + 1..] == AfterMark(url);
    PrintoutNoMark(read);
    OneMark(url);
    ReadPrintsAll(read, Segments(url), key);
  }

  lemma {:induction false} ReadPrintsAll(read: seq<string>, segs: seq<string>, key: string)
    requires segs != [] && Free(segs, '&') && Free(segs, '?') && read == Kept(segs, key)
    requires Collect([], read) != [] && Printout(read) == Join(segs, '&') && (segs == [""] ==> key == "")
    ensures read == segs && Clean(segs)
  {
    KeptMembers(segs, key);
    if segs == [""] {
      assert false;
    }
    PrintoutSize(read, segs);
    PrintoutClean(segs);
  }

  lemma {:induction false} WithMark(base: string, segs: seq<string>)
    requires '?' !in base && segs != [] && Free(segs, '&')
    ensures var url := WithSegments(base, segs);
      '?' in url && Split(url, '?')[0] == base && AfterMark(url) == Join(segs, '&') && Segments(url) == segs
  {
    var t := Join(segs, '&');
    assert WithSegments(base, segs) == base + ['?'] + t;
    assert (base + ['?'] + t)[|base|] == '?';
    SplitFirst(base, '?', t);
    JoinSplit(t, '?');
    SplitJoin(segs, '&');
  }

  lemma {:induction false} KeptTwice(segs: seq<string>, k: string, l: string)
    ensures Kept(Kept(segs, k), l) == Kept(Kept(segs, l), k)
    ensures Kept(Kept(segs, k), k) == Kept(segs, k)
  {
    if segs != [] {
      KeptTwice(segs[1..], k, l);
    }
  }

  lemma {:induction false} DeletedAgain(url: string, k: string, l: string)
    requires '?' in url
    ensures Deleted(Deleted(url, k), l) == WithSegments(Split(url, '?')[0], Kept(Kept(Segments(url), k), l))
  {
    var base, kept := Split(url, '?')[0], Kept(Segments(url), k);
    UrlParts(url);
    KeptMembers(Segments(url), k);
    if kept != [] {
      WithMark(base, kept);
    }
  }

  lemma {:induction false} ParsedKept(segs: seq<string>, key: string)
    ensures Parsed(Kept(segs, key)) == Without(Parsed(segs), key)
  {
    if segs != [] {
      ParsedKept(segs[1..], key);
    }
  }

  lemma {:induction false} CleanKept(segs: seq<string>, key: string)
    requires Clean(segs)
    ensures Clean(Kept(segs, key))
  {
    var kept := Kept(segs, key);
    KeptMembers(segs, key);
    ParsedKept(segs, key);
    WithoutMembers(Parsed(segs), key);
    WithoutDistinct(Parsed(segs), key);
    InOrderWithout(Parsed(segs), key);
    ParsedPrints(segs);
    ParsedPrints(kept);
    QueryWithout(Parsed(segs), Unsafe);
    QueryWithout(Parsed(kept), Unsafe);
  }

  // Each segment's name occurs in the text.
  lemma {:induction false} SegmentNameOccurs(segs: seq<string>, i: nat)
    requires i < |segs|
    ensures Contains(Join(segs, '&'), ParsePart(segs[i]).name)
  {
    var k := JoinContains(segs, '&', i);
    var name, s := ParsePart(segs[i]).name, Join(segs, '&');
    JoinSplit(segs[i], '=');
    assert segs[i][..|name|] == name;
    assert s[k..k + |name|] == s[k..k + |segs[i]|][..|name|];
    assert OccursAt(s, name, k);
  }

  lemma {:induction false} AbsentNamesNothing(segs: seq<string>, key: string)
    requires !Contains(Join(segs, '&'), key)
    ensures Kept(segs, key) == segs
  {
    KeptMembers(segs, key);
    forall i: nat | i < |segs| ensures ParsePart(segs[i]).name != key {
      SegmentNameOccurs(segs, i);
    }
    AllKept(segs, key);
  }

  lemma {:induction false} AllKept(segs: seq<string>, key: string)
    requires forall s :: s in segs ==> ParsePart(s).name != key
    ensures Kept(segs, key) == segs
  {
    if segs != [] {
      AllKept(segs[1..], key);
    }
  }

  // What a faithful deletion leaves is as good for deleting another key.
  lemma {:induction false} FaithfulAgain(url: string, k: string, l: string)
    requires Faithful(url, k) && Faithful(url, l)
    ensures Faithful(Deleted(url, k), l)
  {
    if '?' in url {
      var base, kept := Split(url, '?')[0], Kept(Segments(url), k);
      UrlParts(url);
      KeptMembers(Segments(url), k);
      if kept != [] && Contains(QueryOf(url), k) {
        KeptMembers(Split(QueryOf(url), '&'), k);
        JoinFree(kept, '&', '?');
        WithMark(base, kept);
        OneMark(Deleted(url, k));
        if !Contains(Join(kept, '&'), l) {
          AbsentNamesNothing(kept, l);
        } else if Clean(kept) {
          CleanKept(kept, l);
        }
      }
    }
  }

  // Deletions that are faithful each commute, and can be repeated.
  lemma {:induction false} DeletionsCommute(url: string, k: string, l: string)
    requires Faithful(url, k) && Faithful(url, l)
    ensures DelParam(DelParam(url, k), l) == DelParam(DelParam(url, l), k)
    ensures DelParam(DelParam(url, k), k) == DelParam(url, k)
  {
    DeletesExactly(url, k);
    DeletesExactly(url, l);
    FaithfulAgain(url, k, l);
    FaithfulAgain(url, l, k);
    FaithfulAgain(url, k, k);
    DeletesExactly(Deleted(url, k), l);
    DeletesExactly(Deleted(url, l), k);
    DeletesExactly(Deleted(url, k), k);
    if '?' in url {
      DeletedAgain(url, k, l);
      DeletedAgain(url, l, k);
      DeletedAgain(url, k, k);
      KeptTwice(Segments(url), k, l);
    }
  }

  // The parameter with its value as the printer leaves it.
  function Reprinted(p: Param): Param
    requires p.value.Text?
  {
    Param(p.name, Text(Printed(p.value.s)))
  }

  // Outside them it can fail. A parameter p whose name contains the key, with a backslash in its
  // value, has its backslashes doubled by every deletion: b?ab=\&a=1 with the key a.
  lemma {:induction false} BackslashesGrow(base: string, p: Param, q: Param)
    requires '?' !in base && WellFormed([p, q]) && Contains(p.name, q.name) && Safe(p.name)
    requires Avoids(p.value.s, Unprintable) && '\\' in p.value.s
    ensures var once := DelParam(Url(base, [p, q]), q.name);
      once == Url(base, [Reprinted(p)]) && DelParam(once, q.name) != once
  {
    assert [p, q][0] == p && [p][0] == p;
    FirstOfTwo(base, p, q);
    PrintedOnce(p);
    BackslashesAgain(base, Reprinted(p), q.name);
  }

  lemma {:induction false} FirstOfTwo(base: string, p: Param, q: Param)
    requires '?' !in base && WellFormed([p, q]) && WellFormed([p])
    requires Safe(p.name) && Avoids(p.value.s, Unprintable) && '\\' in p.value.s
    ensures DelParam(Url(base, [p, q]), q.name) == Url(base, [Reprinted(p)])
  {
    var ps := [p, q];
    assert ps[1] == q;
    UrlOf(base, ps);
    OneLeft(p, q);
    PrintedOnce(p);
    ParsePrinted(q);
    TextsLength(ps);
    SegmentNameOccurs(ParamTexts(ps), 1);
    DelParamPrints(Url(base, ps), q.name);
  }

  lemma {:induction false} FewTexts(p: Param, q: Param)
    requires p.value.Text? && q.value.Text?
    ensures ParamTexts([p]) == [ParamText(p)] && Query([p]) == ParamText(p)
    ensures ParamTexts([p, q]) == [ParamText(p), ParamText(q)] && Query([p, q]) == ParamText(p) + "&" + ParamText(q)
  {
    assert [p][1..] == [] && [q][1..] == [] && [p, q][1..] == [q];
    assert ParamTexts([q]) == [ParamText(q)];
    var texts := [ParamText(p), ParamText(q)];
    assert texts[1..] == [ParamText(q)] && Join(texts[1..], '&') == ParamText(q);
  }

  lemma {:induction false} OneLeft(p: Param, q: Param)
    requires WellFormed([p, q])
    ensures Kept(ParamTexts([p, q]), q.name) == [ParamText(p)] == ParamTexts([p])
  {
    var ps := [p, q];
    assert ps[0] == p && ps[1] == q && ps[1..] == [q] && [q][1..] == [];
    KeptTexts(ps, q.name);
    FewTexts(p, q);
    assert ps[0].name != ps[1].name;
    assert Without([q], q.name) == [];
  }

  lemma {:induction false} BackslashesAgain(base: string, p: Param, key: string)
    requires '?' !in base && WellFormed([p]) && Contains(p.name, key) && '\\' in p.value.s
    ensures DelParam(Url(base, [p]), key) != Url(base, [p])
  {
    UrlOf(base, [p]);
    FewTexts(p, p);
    NameAndValue(p, key);
    FixedExactly(Url(base, [p]), key);
  }

  lemma {:induction false} NameAndValue(p: Param, key: string)
    requires p.value.Text? && Contains(p.name, key) && '\\' in p.value.s
    ensures Contains(ParamText(p), key) && !Safe(ParamText(p))
  {
    ContainsMore(p.name, "=" + p.value.s, key);
    assert ParamText(p) == p.name + ("=" + p.value.s);
    assert '\\' in ParamText(p);
  }

  lemma {:induction false} ContainsMore(s: string, more: string, part: string)
    requires Contains(s, part)
    ensures Contains(s + more, part)
  {
    var i :| 0 <= i <= |s| - |part| && OccursAt(s, part, i);
    assert (s + more)[i..i + |part|] == s[i..i + |part|];
    assert OccursAt(s + more, part, i);
  }

  lemma {:induction false} PrintedOnce(p: Param)
    requires WellFormed([p]) && Safe(p.name) && Avoids(p.value.s, Unprintable) && '\\' in p.value.s
    ensures Collect([], ParamTexts([p])) != [] && Printout(ParamTexts([p])) == Query([Reprinted(p)])
    ensures WellFormed([Reprinted(p)]) && '\\' in Reprinted(p).value.s
  {
    assert [p][0] == p && [] + [p] == [p];
    CollectPrinted([], [p]);
    EnumerateExactly([p]);
    StringifyPrinted([p]);
    FewTexts(p, p);
    FewTexts(Reprinted(p), p);
    PrintedText(p);
    PrintedGrown(p.value.s);
    assert Reprinted(p).name == [p][0].name;
  }

  lemma {:induction false} PrintedText(p: Param)
    requires p.value.Text? && Safe(p.name)
    ensures Printed(ParamText(p)) == ParamText(Reprinted(p))
  {
    PrintedConcat(p.name + "=", p.value.s);
    PrintedConcat(p.name, "=");
    PrintedExactly(p.name);
    PrintedSeparators();
  }

  lemma {:induction false} PrintedGrown(v: string)
    requires Avoids(v, Unprintable) && Plain(v) && '\\' in v
    ensures Plain(Printed(v)) && '\\' in Printed(v)
  {
    PrintedNoMark(v);
    PrintedCount(v, '&');
    PrintedCount(v, '=');
    CountNone(v, '&');
    CountNone(v, '=');
    CountNone(Printed(v), '&');
    CountNone(Printed(v), '=');
    BackslashStays(v);
  }

  lemma {:induction false} BackslashStays(v: string)
    requires Avoids(v, Unprintable) && '\\' in v
    ensures '\\' in Printed(v)
  {
    var c, rest := v[0], v[1..];
    assert [c] + rest == v;
    PrintedConcat([c], rest);
    PrintedChar(c);
    if c == '\\' {
      assert Printed([c])[0] == '\\';
    } else {
      BackslashStays(rest);
    }
  }
}
