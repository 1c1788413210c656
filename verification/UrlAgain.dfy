/**
 delUrlParam applied twice: to one key, where it should be idempotent, and to two keys, where
 the order should not matter. Both fail, and the conditions are on the input.
 */
module UrlAgain {
  import opened Decimals
  import opened Texts
  import opened UrlParams
  import opened UrlLaws
  import opened UrlExact
  import opened UrlSegments

  // --- Deleting commutes with parsing and ordering ----------------------------------------

  lemma {:induction false} WithoutConcat(ps: PropList, qs: PropList, key: string)
    ensures Without(ps + qs, key) == Without(ps, key) + Without(qs, key)
  {
    if ps == [] {
      assert ps + qs == qs;
    } else {
      assert (ps + qs)[1..] == ps[1..] + qs;
      WithoutConcat(ps[1..], qs, key);
    }
  }

  // What is inserted before all of ps stays before what is left of ps.
  lemma {:induction false} InsertFirst(p: Param, ps: PropList, key: string)
    requires forall q :: q in ps ==> NaturalLeq(p, q)
    ensures InsertIndex(p, Without(ps, key)) == [p] + Without(ps, key)
  {
    WithoutMembers(ps, key);
    var left := Without(ps, key);
    if left != [] {
      assert left[0] in left;
    }
  }

  predicate NaturalLeq(p: Param, q: Param) {
    NaturalValue(p.name) <= NaturalValue(q.name)
  }

  ghost predicate Ascending(ps: PropList) {
    forall i, j :: 0 <= i < j < |ps| ==> NaturalLeq(ps[i], ps[j])
  }

  lemma {:induction false} WithoutInsert(p: Param, ps: PropList, key: string)
    requires Ascending(ps)
    ensures Without(InsertIndex(p, ps), key) ==
            if p.name == key then Without(ps, key) else InsertIndex(p, Without(ps, key))
  {
    if ps == [] {
    } else if NaturalLeq(p, ps[0]) {
      assert ([p] + ps)[1..] == ps;
      forall q | q in ps ensures NaturalLeq(p, q) {
        var i :| 0 <= i < |ps| && ps[i] == q;
        assert i > 0 ==> NaturalLeq(ps[0], ps[i]);
      }
      InsertFirst(p, ps, key);
    } else {
      var q, rest := ps[0], ps[1..];
      forall i, j | 0 <= i < j < |rest| ensures NaturalLeq(rest[i], rest[j]) {
        assert NaturalLeq(ps[i + 1], ps[j + 1]);
      }
      WithoutInsert(p, rest, key);
      assert ([q] + InsertIndex(p, rest))[1..] == InsertIndex(p, rest);
      assert ([q] + Without(rest, key))[1..] == Without(rest, key);
    }
  }

  lemma {:induction false} IndicesAscend(ps: PropList)
    ensures Ascending(Indices(ps))
  {
    IndicesInOrder(ps);
    EnumerateMembers(ps);
    var xs := Indices(ps);
    forall i, j | 0 <= i < j < |xs| ensures NaturalLeq(xs[i], xs[j]) {
      assert xs[j] in xs && MayPrecede(xs[i], xs[j]);
    }
  }

  lemma {:induction false} WithoutIndices(ps: PropList, key: string)
    ensures Without(Indices(ps), key) == Indices(Without(ps, key))
    ensures Without(Others(ps), key) == Others(Without(ps, key))
  {
    if ps != [] {
      var p, rest := ps[0], ps[1..];
      WithoutIndices(rest, key);
      IndicesAscend(rest);
      WithoutInsert(p, Indices(rest), key);
      assert ([p] + Others(rest))[1..] == Others(rest);
      assert ([p] + Without(rest, key))[1..] == Without(rest, key);
    }
  }

  lemma {:induction false} WithoutValued(ps: PropList, key: string)
    ensures Without(Valued(ps), key) == Valued(Without(ps, key))
  {
    if ps != [] {
      var p, rest := ps[0], ps[1..];
      WithoutValued(rest, key);
      assert ([p] + Valued(rest))[1..] == Valued(rest);
      assert ([p] + Without(rest, key))[1..] == Without(rest, key);
    }
  }

  // The parameters shown of the segments that stay are those that stay of the shown ones.
  lemma {:induction false} ShownKept(segs: seq<string>, key: string)
    ensures Shown(Kept(segs, key)) == Without(Shown(segs), key)
  {
    var obj := Collect([], segs);
    WithoutCollect([], segs, key);
    WithoutIndices(obj, key);
    WithoutConcat(Indices(obj), Others(obj), key);
    WithoutValued(Enumerate(obj), key);
  }

  lemma {:induction false} ValuedDistinct(ps: PropList)
    requires DistinctNames(ps)
    ensures DistinctNames(Valued(ps))
  {
    if ps != [] {
      assert [ps[0]] + ps[1..] == ps;
      DistinctCons(ps[0], ps[1..]);
      ValuedDistinct(ps[1..]);
      DistinctCons(ps[0], Valued(ps[1..]));
    }
  }

  lemma {:induction false} ValuedInOrder(ps: PropList)
    requires InOrder(ps)
    ensures InOrder(Valued(ps))
  {
    if ps != [] {
      assert [ps[0]] + ps[1..] == ps;
      InOrderCons(ps[0], ps[1..]);
      ValuedInOrder(ps[1..]);
      InOrderCons(ps[0], Valued(ps[1..]));
    }
  }

  lemma {:induction false} ShownWellFormed(segs: seq<string>)
    requires Free(segs, '&') && Free(segs, '?')
    ensures WellFormed(Shown(segs)) && InOrder(Shown(segs))
  {
    var obj := Collect([], segs);
    CollectEffect([], segs);
    EnumerateDistinct(obj);
    EnumerateInOrder(obj);
    EnumerateMembers(obj);
    ValuedDistinct(Enumerate(obj));
    ValuedInOrder(Enumerate(obj));
    ShownMembers(segs);
    forall p | p in Shown(segs) ensures p.name != "__proto__" && Plain(p.name) && Plain(p.value.s) {
      assert p in Indices(obj) || p in Others(obj);
      var i :| 0 <= i < |segs| && ParsePart(segs[i]) == p;
      assert segs[i] in segs;
      ParsedText(segs[i]);
    }
  }

  // --- Text that the printer escapes ------------------------------------------------------

  // Characters that come out of the printer with a backslash.
  predicate Escapes(c: char) {
    c < ' ' || c == '\"' || c == '\\'
  }

  lemma {:induction false} RewriteBackslash(s: string)
    ensures '\\' in Rewrite(s) <==> '\\' in s
  {
    if s != "" {
      var c, rest := s[0], s[1..];
      assert [c] + rest == s;
      RewriteBackslash(rest);
      RewriteConcat([c], rest);
      RewriteChar(c);
      assert '\\' in s <==> c == '\\' || '\\' in rest;
    }
  }

  lemma {:induction false} EscapeBackslash(s: string)
    ensures '\\' in Escape(s) <==> !Avoids(s, Escapes)
  {
    if s != "" {
      var c, rest := s[0], s[1..];
      EscapeBackslash(rest);
      assert Escapes(c) ==> EscapeChar(c)[0] == '\\';
      assert !Escapes(c) ==> EscapeChar(c) == [c];
      assert forall d :: d in s <==> d == c || d in rest;
    }
  }

  // The printed text is safe to print again exactly when nothing was escaped.
  lemma {:induction false} PrintedSafe(s: string)
    ensures Safe(Printed(s)) <==> Avoids(s, Escapes)
  {
    PrintedOutput(s);
    EscapeBackslash(s);
    RewriteBackslash(Escape(s));
  }

  // --- One key twice ----------------------------------------------------------------------

  // Deleting key changes nothing in what is printed of these segments: nothing is printed, the
  // key does not occur in it, or nothing was escaped and it consists of ordered parameters of
  // other names.
  ghost predicate Settled(segs: seq<string>, key: string) {
    var text := Printed(Query(Shown(segs)));
    var again := Split(text, '&');
    Collect([], segs) != [] && Contains(text, key) ==>
      && Avoids(Query(Shown(segs)), Escapes)
      && OneEach(again) && Properties(Parsed(again)) && InOrder(Parsed(again)) && Kept(again, key) == again
  }

  lemma {:induction false} TextAfterMark(base: string, t: string)
    requires '?' !in base && '?' !in t
    ensures var url := base + "?" + t;
      '?' in url && Split(url, '?')[0] == base && QueryOf(url) == AfterMark(url) == t && Segments(url) == Split(t, '&')
  {
    JoinSplit(t, '&');
    WithMark(base, Split(t, '&'));
    OneMark(base + "?" + t);
  }

  // What is left of the segments after deleting key, as the function reads them.
  function Left(url: string, key: string): seq<string>
    requires '?' in url
  {
    Kept(Split(QueryOf(url), '&'), key)
  }

  lemma {:induction false} FirstDeletion(url: string, key: string)
    requires '?' in url && Contains(QueryOf(url), key)
    ensures var (base, left) := (Split(url, '?')[0], Left(url, key));
      && '?' !in base && Free(left, '&') && Free(left, '?')
      && '?' !in Printed(Query(Shown(left)))
      && DelParam(url, key) == if Collect([], left) == [] then base else base + "?" + Printed(Query(Shown(left)))
  {
    UrlParts(url);
    DelParamPrints(url, key);
    KeptMembers(Split(QueryOf(url), '&'), key);
    PrintoutShown(Left(url, key));
    PrintoutNoMark(Left(url, key));
  }

  lemma {:induction false} SettledExactly(url: string, k: string, l: string)
    requires '?' in url && Contains(QueryOf(url), k)
    ensures Fixed(DelParam(url, k), l) <==> Settled(Left(url, k), l)
  {
    FirstDeletion(url, k);
    var base, left := Split(url, '?')[0], Left(url, k);
    if Collect([], left) != [] {
      var text := Printed(Query(Shown(left)));
      TextAfterMark(base, text);
      JoinSplit(text, '&');
      PrintedSafe(Query(Shown(left)));
    }
  }

  // On every text: deleting twice is deleting once exactly when the key is not looked for, or
  // what stays prints to a text that holds nothing more to delete or change.
  lemma {:induction false} DeletionIdempotentExactly(url: string, key: string)
    ensures DelParam(DelParam(url, key), key) == DelParam(url, key) <==>
            ('?' in url && Contains(QueryOf(url), key) ==> Settled(Left(url, key), key))
  {
    FixedExactly(url, key);
    FixedExactly(DelParam(url, key), key);
    if '?' in url && Contains(QueryOf(url), key) {
      SettledExactly(url, key, key);
    }
  }

  // A key that does not occur commutes with another exactly when that one is not looked for
  // either, or what it leaves prints to a text that holds nothing for the first.
  lemma {:induction false} AbsentCommutesExactly(url: string, k: string, l: string)
    requires '?' in url ==> !Contains(QueryOf(url), l)
    ensures DelParam(DelParam(url, k), l) == DelParam(DelParam(url, l), k) <==>
            ('?' in url && Contains(QueryOf(url), k) ==> Settled(Left(url, k), l))
  {
    FixedExactly(url, k);
    FixedExactly(url, l);
    FixedExactly(DelParam(url, k), l);
    if '?' in url && Contains(QueryOf(url), k) {
      SettledExactly(url, k, l);
    }
  }

  // --- Parameters that the printer rewrites one by one ------------------------------------

  function PrintedParam(p: Param): Param
    requires p.value.Text?
  {
    Param(Printed(p.name), Text(Printed(p.value.s)))
  }

  function PrintedParams(ps: PropList): (qs: PropList)
    requires AllText(ps)
    ensures AllText(qs) && |qs| == |ps| && forall i :: 0 <= i < |ps| ==> qs[i] == PrintedParam(ps[i])
  {
    if ps == [] then [] else [PrintedParam(ps[0])] + PrintedParams(ps[1..])
  }

  // Printed, the parameters are still parameters with distinct names in order, and the same ones
  // as before are named key.
  ghost predicate OneByOne(ps: PropList) {
    AllText(ps) && WellFormed(PrintedParams(ps)) && InOrder(PrintedParams(ps))
  }

  ghost predicate KeepsName(ps: PropList, key: string) {
    forall p :: p in ps ==> (Printed(p.name) == key <==> p.name == key)
  }

  lemma {:induction false} QueryPrinted(ps: PropList)
    requires AllText(ps)
    ensures Printed(Query(ps)) == Query(PrintedParams(ps))
  {
    if ps != [] {
      var p, rest := ps[0], ps[1..];
      TextPrinted(p);
      QueryPrinted(rest);
      TextsLength(rest);
      TextsLength(PrintedParams(rest));
      assert PrintedParams(ps)[1..] == PrintedParams(rest);
      if rest != [] {
        PrintedConcat(ParamText(p) + "&", Query(rest));
        PrintedConcat(ParamText(p), "&");
        PrintedSeparators();
      }
    }
  }

  lemma {:induction false} TextPrinted(p: Param)
    requires p.value.Text?
    ensures Printed(ParamText(p)) == ParamText(PrintedParam(p))
  {
    PrintedConcat(p.name + "=", p.value.s);
    PrintedConcat(p.name, "=");
    PrintedSeparators();
  }

  lemma {:induction false} PrintedWithout(ps: PropList, key: string)
    requires AllText(ps) && KeepsName(ps, key)
    ensures AllText(Without(ps, key)) && Without(PrintedParams(ps), key) == PrintedParams(Without(ps, key))
  {
    if ps != [] {
      var p, rest := ps[0], ps[1..];
      assert p in ps;
      PrintedWithout(rest, key);
      assert PrintedParams(ps)[1..] == PrintedParams(rest);
      if p.name != key {
        var left := Without(rest, key);
        assert ([p] + left)[1..] == left;
      }
    }
  }

  lemma {:induction false} OneByOneWithout(ps: PropList, key: string)
    requires OneByOne(ps) && KeepsName(ps, key)
    ensures OneByOne(Without(ps, key))
  {
    PrintedWithout(ps, key);
    WithoutMembers(PrintedParams(ps), key);
    WithoutDistinct(PrintedParams(ps), key);
    InOrderWithout(PrintedParams(ps), key);
  }

  // Deleting from a query of ordered parameters.
  lemma {:induction false} DeleteFrom(base: string, ps: PropList, key: string)
    requires '?' !in base && WellFormed(ps) && InOrder(ps) && Contains(Query(ps), key)
    ensures AllText(Without(ps, key))
    ensures DelParam(base + "?" + Query(ps), key) ==
            if Without(ps, key) == [] then base else base + "?" + Printed(Query(Without(ps, key)))
  {
    if ps == [] {
      assert key == "" && base + "?" + "" == base + "?";
      EmptyQuery(base, key);
    } else {
      WithoutMembers(ps, key);
      WithoutDistinct(ps, key);
      UrlOf(base, ps);
      KeptTexts(ps, key);
      DelParamPrints(Url(base, ps), key);
      InOrderWithout(ps, key);
      PrintoutOfOrdered(Without(ps, key));
    }
  }

  lemma {:induction false} PrintoutOfOrdered(ps: PropList)
    requires WellFormed(ps) && InOrder(ps)
    ensures Collect([], ParamTexts(ps)) == ps && Printout(ParamTexts(ps)) == Printed(Query(ps))
  {
    assert [] + ps == ps;
    CollectPrinted([], ps);
    EnumerateExactly(ps);
    StringifyPrinted(ps);
  }

  // The bare question mark goes with the empty key only.
  lemma {:induction false} EmptyQuery(base: string, key: string)
    requires '?' !in base
    ensures DelParam(base + "?", key) == if key == "" then base else base + "?"
  {
    TextAfterMark(base, "");
    assert base + "?" + "" == base + "?";
    assert Split("", '&') == [""] && [""][1..] == [];
    if key == "" {
      assert OccursAt("", "", 0);
      assert ParsePart("").name == "";
      DelParamPrints(base + "?", key);
    } else {
      assert !Contains("", key);
      NotLookedFor(base + "?", key);
    }
  }

  // --- Two keys ---------------------------------------------------------------------------

  // Parameters without values alone: nothing is printed, but the question mark stays.
  predicate Flags(segs: seq<string>) {
    Collect([], segs) != [] && Shown(segs) == []
  }

  // The question mark stays for good if the next key is not the empty one.
  predicate Stuck(segs: seq<string>, next: string) {
    Flags(segs) && next != ""
  }

  // What both deletions leave of the shown parameters.
  function LeftOfBoth(url: string, k: string, l: string): PropList
    requires '?' in url
  {
    Shown(Kept(Left(url, k), l))
  }

  // After a first deletion whose printout is one by one, the second one leaves this.
  function TwiceDeleted(url: string, k: string, l: string): string
    requires '?' in url
  {
    var base, text, both := Split(url, '?')[0], Printed(Query(Shown(Left(url, k)))), LeftOfBoth(url, k, l);
    if Collect([], Left(url, k)) == [] then base
    else if !Contains(text, l) then base + "?" + text
    else if both == [] then base
    else base + "?" + Printed(Printed(Query(both)))
  }

  // The printer rewrites the query's parameters one by one and turns none into k or l.
  ghost predicate Regular(url: string, k: string, l: string)
    requires '?' in url
  {
    var ps := Shown(Split(QueryOf(url), '&'));
    OneByOne(ps) && KeepsName(ps, k) && KeepsName(ps, l)
  }

  lemma {:induction false} RegularLeft(url: string, k: string, l: string)
    requires '?' in url && Regular(url, k, l)
    ensures OneByOne(Shown(Left(url, k))) && KeepsName(Shown(Left(url, k)), l)
    ensures OneByOne(LeftOfBoth(url, k, l)) && LeftOfBoth(url, k, l) == Without(Shown(Left(url, k)), l)
  {
    var ps := Shown(Split(QueryOf(url), '&'));
    ShownKept(Split(QueryOf(url), '&'), k);
    WithoutMembers(ps, k);
    OneByOneWithout(ps, k);
    ShownKept(Left(url, k), l);
    OneByOneWithout(Without(ps, k), l);
  }

  lemma {:induction false} SecondDeletion(url: string, k: string, l: string)
    requires '?' in url && Contains(QueryOf(url), k) && Regular(url, k, l)
    ensures DelParam(DelParam(url, k), l) == TwiceDeleted(url, k, l)
  {
    FirstDeletion(url, k);
    RegularLeft(url, k, l);
    var base, ps := Split(url, '?')[0], Shown(Left(url, k));
    if Collect([], Left(url, k)) != [] {
      QueryPrinted(ps);
      PrintedWithout(ps, l);
      var text := Query(PrintedParams(ps));
      if Contains(text, l) {
        DeleteFrom(base, PrintedParams(ps), l);
        QueryPrinted(Without(ps, l));
      } else {
        TextAfterMark(base, text);
        NotLookedFor(base + "?" + text, l);
      }
    }
  }

  // A name that is not in the printed text names no parameter of it.
  lemma {:induction false} AbsentFromText(ps: PropList, key: string)
    requires OneByOne(ps) && KeepsName(ps, key) && !Contains(Printed(Query(ps)), key)
    ensures Without(ps, key) == ps
  {
    var qs := PrintedParams(ps);
    QueryPrinted(ps);
    WithoutMembers(ps, key);
    forall p | p in ps ensures p.name != key {
      var i :| 0 <= i < |ps| && ps[i] == p;
      TextsLength(qs);
      assert qs[i] in qs;
      ParsePrinted(qs[i]);
      SegmentNameOccurs(ParamTexts(qs), i);
    }
  }

  // The outcome of two deletions that leave these parameters: with a bare question mark if stuck,
  // printed once more if the second deletion printed them too.
  function Outcome(base: string, both: PropList, stuck: bool, again: bool): string
    requires AllText(both)
  {
    var once := Printed(Query(both));
    if stuck then base + "?" else if both == [] then base else base + "?" + if again then Printed(once) else once
  }

  lemma {:induction false} OutcomesAgree(
    base: string, both: PropList, stuck: bool, again: bool, stuck': bool, again': bool)
    requires AllText(both) && (stuck || stuck' ==> both == [])
    ensures Outcome(base, both, stuck, again) == Outcome(base, both, stuck', again') <==>
            (stuck <==> stuck') && (Avoids(Query(both), Escapes) || (again <==> again'))
  {
    var once := Printed(Query(both));
    PrintedSafe(Query(both));
    PrintedExactly(once);
    if both == [] {
      assert Query(both) == "" && |base + "?"| > |base|;
    } else {
      assert (base + "?" + once)[|base| + 1..] == once;
      assert (base + "?" + Printed(once))[|base| + 1..] == Printed(once);
    }
  }

  lemma {:induction false} TwiceDeletedIs(url: string, k: string, l: string)
    requires '?' in url && Regular(url, k, l)
    ensures AllText(LeftOfBoth(url, k, l)) && (Stuck(Left(url, k), l) ==> LeftOfBoth(url, k, l) == [])
    ensures TwiceDeleted(url, k, l) ==
            Outcome(Split(url, '?')[0], LeftOfBoth(url, k, l), Stuck(Left(url, k), l), StillIn(url, k, l))
  {
    var ps, base := Shown(Left(url, k)), Split(url, '?')[0];
    RegularLeft(url, k, l);
    assert base + "?" + "" == base + "?";
    EmptyText(l);
    if ps != [] && !StillIn(url, k, l) {
      AbsentFromText(ps, l);
    }
  }

  lemma {:induction false} EmptyText(key: string)
    ensures Printed(Query([])) == "" && (Contains("", key) <==> key == "")
  {
    assert OccursAt("", "", 0);
  }

  // The key l still occurs in the text that deleting k prints.
  predicate StillIn(url: string, k: string, l: string)
    requires '?' in url
  {
    Contains(Printed(Query(Shown(Left(url, k)))), l)
  }

  // Where both keys occur and the printer rewrites parameters one by one, the two orders agree
  // exactly when the same question mark stays, and either nothing left was escaped or both second
  // deletions print it again.
  lemma {:induction false} DeletionsCommuteExactly(url: string, k: string, l: string)
    requires '?' in url && Contains(QueryOf(url), k) && Contains(QueryOf(url), l) && Regular(url, k, l)
    ensures DelParam(DelParam(url, k), l) == DelParam(DelParam(url, l), k) <==>
              && (Stuck(Left(url, k), l) <==> Stuck(Left(url, l), k))
              && (Avoids(Query(LeftOfBoth(url, k, l)), Escapes) || (StillIn(url, k, l) <==> StillIn(url, l, k)))
  {
    SecondDeletion(url, k, l);
    SecondDeletion(url, l, k);
    TwiceDeletedIs(url, k, l);
    TwiceDeletedIs(url, l, k);
    KeptTwice(Split(QueryOf(url), '&'), k, l);
    OutcomesAgree(Split(url, '?')[0], LeftOfBoth(url, k, l),
      Stuck(Left(url, k), l), StillIn(url, k, l), Stuck(Left(url, l), k), StillIn(url, l, k));
  }

  // --- Safe text --------------------------------------------------------------------------

  lemma {:induction false} SafeShown(segs: seq<string>)
    requires Safe(Join(segs, '&'))
    ensures Safe(Query(Shown(segs)))
  {
    forall s | s in segs ensures Avoids(s, Unsafe) {
      var i :| 0 <= i < |segs| && segs[i] == s;
      forall c | c in s ensures !Unsafe(c) {
        JoinMember(segs, '&', i, c);
      }
    }
    ShownAvoids(segs, Unsafe);
  }

  // Safe parameters are printed as they are.
  lemma {:induction false} SafePrinted(ps: PropList)
    requires AllText(ps) && Safe(Query(ps))
    ensures PrintedParams(ps) == ps && forall p :: p in ps ==> Printed(p.name) == p.name
  {
    QueryWithout(ps, Unsafe);
    forall p | p in ps ensures PrintedParam(p) == p {
      assert forall c :: c in p.name || c in p.value.s ==> c in ParamText(p);
      PrintedExactly(p.name);
      PrintedExactly(p.value.s);
    }
  }

  lemma {:induction false} SafeIsRegular(url: string, k: string, l: string)
    requires '?' in url && Safe(QueryOf(url))
    ensures Regular(url, k, l) && Avoids(Query(LeftOfBoth(url, k, l)), Escapes)
  {
    var segs := Split(QueryOf(url), '&');
    UrlParts(url);
    JoinSplit(QueryOf(url), '&');
    SafeShown(segs);
    ShownWellFormed(segs);
    SafePrinted(Shown(segs));
    LeftShown(url, k, l);
    FewerSafe(Shown(segs), LeftOfBoth(url, k, l));
  }

  lemma {:induction false} FewerSafe(ps: PropList, qs: PropList)
    requires AllText(ps) && AllText(qs) && Safe(Query(ps)) && forall q :: q in qs ==> q in ps
    ensures Avoids(Query(qs), Escapes)
  {
    QueryWithout(ps, Unsafe);
    QueryWithout(qs, Unsafe);
  }

  lemma {:induction false} LeftShown(url: string, k: string, l: string)
    requires '?' in url
    ensures forall p :: p in LeftOfBoth(url, k, l) ==> p in Shown(Split(QueryOf(url), '&'))
  {
    var segs := Split(QueryOf(url), '&');
    ShownKept(segs, k);
    ShownKept(Left(url, k), l);
    WithoutMembers(Shown(segs), k);
    WithoutMembers(Shown(Left(url, k)), l);
  }

  // On safe text the orders agree exactly when a key does not occur, or both orders leave the
  // question mark of valueless parameters or neither does.
  lemma {:induction false} SafeDeletionsCommuteExactly(url: string, k: string, l: string)
    requires '?' in url ==> Safe(QueryOf(url))
    ensures DelParam(DelParam(url, k), l) == DelParam(DelParam(url, l), k) <==>
            ('?' in url && Contains(QueryOf(url), k) && Contains(QueryOf(url), l) ==>
              (Stuck(Left(url, k), l) <==> Stuck(Left(url, l), k)))
  {
    if '?' in url {
      SafeIsRegular(url, k, l);
      if Contains(QueryOf(url), k) && Contains(QueryOf(url), l) {
        DeletionsCommuteExactly(url, k, l);
      } else if Contains(QueryOf(url), k) {
        SafeAbsent(url, k, l);
      } else {
        NotLookedFor(url, k);
        if Contains(QueryOf(url), l) {
          SafeAbsent(url, l, k);
        } else {
          NotLookedFor(url, l);
        }
      }
    }
  }

  lemma {:induction false} SafeAbsent(url: string, k: string, l: string)
    requires '?' in url && Safe(QueryOf(url)) && Contains(QueryOf(url), k) && !Contains(QueryOf(url), l)
    ensures DelParam(DelParam(url, k), l) == DelParam(url, k) == DelParam(DelParam(url, l), k)
  {
    var segs := Split(QueryOf(url), '&');
    JoinSplit(QueryOf(url), '&');
    AbsentNamesNothing(segs, l);
    KeptTwice(segs, k, l);
    assert OccursAt(QueryOf(url), "", 0);
    NotLookedFor(url, l);
    SafeSecond(url, k, l);
  }

  // On safe text a second deletion that names nothing left changes nothing, but for the empty key
  // and a bare question mark.
  lemma {:induction false} SafeSecond(url: string, k: string, l: string)
    requires '?' in url && Safe(QueryOf(url)) && Contains(QueryOf(url), k)
    requires Kept(Left(url, k), l) == Left(url, k)
    ensures DelParam(DelParam(url, k), l) == DelParam(url, k) <==> !(Flags(Left(url, k)) && l == "")
  {
    var base, both := Split(url, '?')[0], LeftOfBoth(url, k, l);
    SafeIsRegular(url, k, l);
    SecondDeletion(url, k, l);
    TwiceDeletedIs(url, k, l);
    FirstDeletion(url, k);
    PrintedSafe(Query(both));
    PrintedExactly(Printed(Query(both)));
    assert |base + "?"| > |base| && base + "?" + "" == base + "?";
    EmptyText(l);
  }

  // On safe text, deleting twice is deleting once but for the empty key, which takes the bare
  // question mark with its second deletion.
  lemma {:induction false} SafeDeletionIdempotentExactly(url: string, key: string)
    requires '?' in url ==> Safe(QueryOf(url))
    ensures DelParam(DelParam(url, key), key) == DelParam(url, key) <==>
            ('?' in url && Contains(QueryOf(url), key) ==> !(Flags(Left(url, key)) && key == ""))
  {
    if '?' in url {
      if Contains(QueryOf(url), key) {
        KeptTwice(Split(QueryOf(url), '&'), key, key);
        SafeSecond(url, key, key);
      } else {
        NotLookedFor(url, key);
      }
    }
  }

  // A parameter without a value makes the order matter: b?a=1&c without a and then c is b?, and
  // without c and then a it is b.
  lemma {:induction false} OrderMatters(url: string, a: string, c: string)
    requires url == "b?a=1&c" && a == "a" && c == "c"
    ensures DelParam(DelParam(url, a), c) == "b?" && DelParam(DelParam(url, c), a) == "b"
  {
    var p := Param(a, Text("1"));
    JoinCons(ParamText(p), [c], '&');
    assert [ParamText(p)] + [c] == [ParamText(p), c];
    assert url == "b" + "?" + (a + "=" + "1" + "&" + c);
    assert [p][0] == p && a[0] == 'a' && c[0] == 'c';
    assert Plain(a) && Plain("1") && Plain(c) && Safe(ParamText(p));
    BareNameStays("b", p, c);
  }

  lemma {:induction false} BareNameStays(base: string, p: Param, c: string)
    requires '?' !in base && WellFormed([p]) && Safe(ParamText(p))
    requires Plain(c) && c != p.name && c != "" && c != "__proto__"
    ensures var url := WithSegments(base, [ParamText(p), c]);
      && DelParam(DelParam(url, p.name), c) == base + "?"
      && DelParam(DelParam(url, c), p.name) == base
  {
    var url := WithSegments(base, [ParamText(p), c]);
    TwoSegments(base, p, c);
    FirstDeletion(url, p.name);
    FirstDeletion(url, c);
    assert base + "?" + "" == base + "?";
    EmptyQuery(base, c);
    FewTexts(p, p);
    PrintedExactly(ParamText(p));
    assert Without([p], p.name) == [] by {
      assert [p][1..] == [];
    }
    assert InOrder([p]);
    DeletesOne(base, [p], p.name);
  }

  lemma {:induction false} TwoSegments(base: string, p: Param, c: string)
    requires '?' !in base && WellFormed([p]) && Plain(c) && c != p.name && c != "__proto__"
    ensures var url := WithSegments(base, [ParamText(p), c]);
      && '?' in url && Split(url, '?')[0] == base && Contains(QueryOf(url), p.name) && Contains(QueryOf(url), c)
      && Left(url, p.name) == [c] && Left(url, c) == [ParamText(p)]
    ensures Collect([], [c]) != [] && Shown([c]) == []
    ensures Collect([], [ParamText(p)]) != [] && Shown([ParamText(p)]) == [p]
  {
    var s := ParamText(p);
    assert [p][0] == p;
    ParsePrinted(p);
    SplitNone(c, '=');
    KeptOfTwo(s, c);
    UrlOfTwo(base, s, c);
    OneShown(p, c);
  }

  lemma {:induction false} KeptOfTwo(s: string, t: string)
    requires ParsePart(s).name != ParsePart(t).name
    ensures Kept([s, t], ParsePart(s).name) == [t] && Kept([s, t], ParsePart(t).name) == [s]
  {
    assert [s] + [t] == [s, t] && [t] + [] == [t];
    forall key ensures Kept([s, t], key) == (if ParsePart(s).name == key then [] else [s]) +
                                           (if ParsePart(t).name == key then [] else [t])
    {
      KeptCons(s, [t], key);
      KeptCons(t, [], key);
    }
  }

  lemma {:induction false} UrlOfTwo(base: string, s: string, t: string)
    requires '?' !in base && '?' !in s && '?' !in t && '&' !in s && '&' !in t
    ensures var url := WithSegments(base, [s, t]);
      && '?' in url && Split(url, '?')[0] == base && Split(QueryOf(url), '&') == [s, t]
      && Contains(QueryOf(url), ParsePart(s).name) && Contains(QueryOf(url), ParsePart(t).name)
  {
    var segs := [s, t];
    WithMark(base, segs);
    JoinFree(segs, '&', '?');
    OneMark(WithSegments(base, segs));
    SegmentNameOccurs(segs, 0);
    SegmentNameOccurs(segs, 1);
  }

  lemma {:induction false} OneShown(p: Param, c: string)
    requires WellFormed([p]) && Plain(c) && c != "__proto__"
    ensures Collect([], [c]) == [Param(c, Undefined)] && Shown([c]) == []
    ensures Collect([], [ParamText(p)]) == [p] && Shown([ParamText(p)]) == [p]
  {
    SplitNone(c, '=');
    assert [c][1..] == [];
    EnumerateExactly([Param(c, Undefined)]);
    assert [Param(c, Undefined)][1..] == [];
    FewTexts(p, p);
    PrintoutOfOrdered([p]);
    EnumerateExactly([p]);
    assert [p][1..] == [];
  }

  // --- A regular class --------------------------------------------------------------------

  lemma {:induction false} RewritePlain(s: string)
    requires Plain(s) && ':' !in s && ',' !in s
    ensures Plain(Rewrite(s))
  {
    if s != "" {
      var c, rest := s[0], s[1..];
      assert [c] + rest == s && c in s;
      RewritePlain(rest);
      RewriteConcat([c], rest);
      RewriteChar(c);
    }
  }

  lemma {:induction false} EscapePlain(c: char)
    requires c !in "?&=:,"
    ensures Plain(EscapeChar(c)) && ':' !in EscapeChar(c) && ',' !in EscapeChar(c)
  {
    assert forall i :: 0 <= i < 16 ==> "0123456789abcdef"[i] !in "?&=:,";
  }

  lemma {:induction false} PrintedPlain(s: string)
    requires Plain(s) && ':' !in s && ',' !in s
    ensures Plain(Printed(s))
  {
    if s != "" {
      var c, rest := s[0], s[1..];
      assert [c] + rest == s && c in s;
      PrintedPlain(rest);
      PrintedConcat([c], rest);
      assert [c][1..] == "" && Escape([c]) == EscapeChar(c);
      EscapePlain(c);
      RewritePlain(EscapeChar(c));
    }
  }

  // Values may hold anything but a colon or a comma where the names are safe.
  lemma {:induction false} SafeNamesAreRegular(url: string, k: string, l: string)
    requires '?' in url
    requires forall p :: p in Shown(Split(QueryOf(url), '&')) ==>
               Safe(p.name) && ':' !in p.value.s && ',' !in p.value.s
    ensures Regular(url, k, l)
  {
    var segs := Split(QueryOf(url), '&');
    UrlParts(url);
    ShownWellFormed(segs);
    SafeNamesOneByOne(Shown(segs));
    forall p | p in Shown(segs) ensures Printed(p.name) == p.name {
      PrintedExactly(p.name);
    }
  }

  lemma {:induction false} SafeNamesOneByOne(ps: PropList)
    requires WellFormed(ps) && InOrder(ps)
    requires forall p :: p in ps ==> Safe(p.name) && ':' !in p.value.s && ',' !in p.value.s
    ensures OneByOne(ps)
  {
    var qs := PrintedParams(ps);
    forall i | 0 <= i < |ps| ensures qs[i].name == ps[i].name && Plain(qs[i].value.s) {
      assert ps[i] in ps;
      PrintedExactly(ps[i].name);
      PrintedPlain(ps[i].value.s);
    }
    forall q | q in qs ensures q.name != "__proto__" && Plain(q.name) && Plain(q.value.s) {
      var i :| 0 <= i < |qs| && qs[i] == q;
      assert ps[i] in ps;
    }
    forall i, j | 0 <= i < j < |qs| ensures MayPrecede(qs[i], qs[j]) && qs[i].name != qs[j].name {
      assert MayPrecede(ps[i], ps[j]) && ps[i].name != ps[j].name;
    }
  }

  // --- Other text -------------------------------------------------------------------------

  // Printing is injective on what it printed before.
  lemma {:induction false} PrintedInjective(s: string, t: string)
    requires Avoids(s, Unprintable) && Avoids(t, Unprintable) && Printed(s) == Printed(t)
    ensures s == t
  {
    PrintedLength(s);
    PrintedLength(t);
    if s != "" && t != "" {
      PrintedHead(s);
      PrintedHead(t);
      assert [s[0]] + s[1..] == s && [t[0]] + t[1..] == t;
      SameTail(Printed([s[0]]), Printed(s[1..]), Printed(t[1..]));
      PrintedInjective(s[1..], t[1..]);
    }
  }

  lemma {:induction false} SameTail(head: string, s: string, t: string)
    requires head + s == head + t
    ensures s == t
  {
    assert (head + s)[|head|..] == s && (head + t)[|head|..] == t;
  }

  lemma {:induction false} PrintedHead(s: string)
    requires s != "" && Avoids(s, Unprintable)
    ensures Printed(s) == Printed([s[0]]) + Printed(s[1..]) && Printed(s) != "" && Printed(s)[0] == s[0]
  {
    assert [s[0]] + s[1..] == s;
    PrintedConcat([s[0]], s[1..]);
    PrintedChar(s[0]);
  }

  // The segments that a second deletion keeps of what the first one printed.
  function LeftAgain(url: string, k: string, l: string): seq<string>
    requires '?' in url
  {
    Kept(Split(Printed(Query(Shown(Left(url, k)))), '&'), l)
  }

  lemma {:induction false} LeftAgainPrintable(url: string, k: string, l: string)
    requires '?' in url && '?' !in Printed(Query(Shown(Left(url, k))))
    ensures Avoids(Query(Shown(LeftAgain(url, k, l))), Unprintable)
    ensures WellFormed(Shown(LeftAgain(url, k, l)))
  {
    var text := Printed(Query(Shown(Left(url, k))));
    var segs := Split(text, '&');
    PrintedOutput(Query(Shown(Left(url, k))));
    JoinSplit(text, '&');
    KeptMembers(segs, l);
    forall s | s in segs ensures Avoids(s, Unprintable) && '?' !in s {
      var i :| 0 <= i < |segs| && segs[i] == s;
      forall c | c in s ensures c in text {
        JoinMember(segs, '&', i, c);
      }
    }
    ShownAvoids(LeftAgain(url, k, l), Unprintable);
    ShownWellFormed(LeftAgain(url, k, l));
  }

  // One of the deletions left the bare base.
  predicate Emptied(url: string, k: string, l: string)
    requires '?' in url
  {
    Collect([], Left(url, k)) == [] || (StillIn(url, k, l) && Collect([], LeftAgain(url, k, l)) == [])
  }

  // The parameters that are printed last.
  function LeftLast(url: string, k: string, l: string): (ps: PropList)
    requires '?' in url
    ensures AllText(ps)
  {
    Shown(if StillIn(url, k, l) then LeftAgain(url, k, l) else Left(url, k))
  }

  lemma {:induction false} SecondDeletionReads(url: string, k: string, l: string)
    requires '?' in url && Contains(QueryOf(url), k)
    ensures '?' !in Printed(Query(Shown(Left(url, k))))
    ensures DelParam(DelParam(url, k), l) ==
            if Emptied(url, k, l) then Split(url, '?')[0]
            else Split(url, '?')[0] + "?" + Printed(Query(LeftLast(url, k, l)))
  {
    FirstDeletion(url, k);
    if Collect([], Left(url, k)) != [] {
      var base, text := Split(url, '?')[0], Printed(Query(Shown(Left(url, k))));
      TextAfterMark(base, text);
      if StillIn(url, k, l) {
        DelParamPrints(base + "?" + text, l);
        PrintoutShown(LeftAgain(url, k, l));
      } else {
        NotLookedFor(base + "?" + text, l);
      }
    }
  }

  // On every text in which both keys occur, the orders agree exactly when both or neither leave
  // the bare base, and what is printed last comes out alike.
  lemma {:induction false} OrdersAgreeExactly(url: string, k: string, l: string)
    requires '?' in url && Contains(QueryOf(url), k) && Contains(QueryOf(url), l)
    ensures DelParam(DelParam(url, k), l) == DelParam(DelParam(url, l), k) <==>
            (Emptied(url, k, l) <==> Emptied(url, l, k)) &&
            (!Emptied(url, k, l) ==> Printed(Query(LeftLast(url, k, l))) == Printed(Query(LeftLast(url, l, k))))
  {
    SecondDeletionReads(url, k, l);
    SecondDeletionReads(url, l, k);
    SameText(Split(url, '?')[0], Printed(Query(LeftLast(url, k, l))), Printed(Query(LeftLast(url, l, k))));
  }

  lemma {:induction false} SameText(base: string, s: string, t: string)
    ensures base != base + "?" + s && base != base + "?" + t
    ensures base + "?" + s == base + "?" + t <==> s == t
  {
    assert |base + "?" + s| > |base| && |base + "?" + t| > |base|;
    assert (base + "?" + s)[|base| + 1..] == s && (base + "?" + t)[|base| + 1..] == t;
  }

  // Where each key survives the printing of the other's deletion, that is when the same parameters
  // are left.
  lemma {:induction false} SurvivorsCommuteExactly(url: string, k: string, l: string)
    requires '?' in url && Contains(QueryOf(url), k) && Contains(QueryOf(url), l)
    requires StillIn(url, k, l) && StillIn(url, l, k)
    ensures DelParam(DelParam(url, k), l) == DelParam(DelParam(url, l), k) <==>
            (Emptied(url, k, l) <==> Emptied(url, l, k)) &&
            (!Emptied(url, k, l) ==> Shown(LeftAgain(url, k, l)) == Shown(LeftAgain(url, l, k)))
  {
    OrdersAgreeExactly(url, k, l);
    SecondDeletionReads(url, k, l);
    SecondDeletionReads(url, l, k);
    LeftAgainPrintable(url, k, l);
    LeftAgainPrintable(url, l, k);
    SamePrintout(Shown(LeftAgain(url, k, l)), Shown(LeftAgain(url, l, k)));
  }

  lemma {:induction false} SamePrintout(ps: PropList, qs: PropList)
    requires WellFormed(ps) && WellFormed(qs)
    requires Avoids(Query(ps), Unprintable) && Avoids(Query(qs), Unprintable)
    ensures Printed(Query(ps)) == Printed(Query(qs)) <==> ps == qs
  {
    if Printed(Query(ps)) == Printed(Query(qs)) {
      PrintedInjective(Query(ps), Query(qs));
      SameQuery(ps, qs);
    }
  }

  lemma {:induction false} SameQuery(ps: PropList, qs: PropList)
    requires WellFormed(ps) && WellFormed(qs) && Query(ps) == Query(qs)
    ensures ps == qs
  {
    if ps != [] && qs != [] {
      QueryInjective(ps, qs);
    } else if ps != [] {
      QuerySize(ps);
    } else if qs != [] {
      QuerySize(qs);
    }
  }
}
