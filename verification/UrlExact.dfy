/**
 Enumeration order of the parsed parameters, and when the printout is the plain query.
 */
module UrlExact {
  import opened Decimals
  import opened Texts
  import opened UrlParams
  import opened UrlLaws

  // The names that an object enumerates first are the decimals below 2^32 - 1.
  lemma {:induction false} IndexExactly(name: string)
    ensures IsIndex(name) <==> exists n: nat :: n < 0xFFFF_FFFF && Natural(n) == name
  {
    if IsIndex(name) {
      CanonicalReads(name);
    }
    if n: nat :| n < 0xFFFF_FFFF && Natural(n) == name {
      NaturalDigits(n);
      assert forall i :: 0 <= i < |name| ==> name[i] in name;
      NaturalReadsBack(n);
      NaturalCanonical(n);
    }
  }

  ghost predicate MayPrecede(p: Param, q: Param) {
    IsIndex(q.name) ==> IsIndex(p.name) && NaturalValue(p.name) <= NaturalValue(q.name)
  }

  // Array-index names come first and ascend, as an object enumerates them.
  ghost predicate InOrder(ps: PropList) {
    forall i, j :: 0 <= i < j < |ps| ==> MayPrecede(ps[i], ps[j])
  }

  lemma {:induction false} InOrderCons(p: Param, ps: PropList)
    ensures InOrder([p] + ps) <==> InOrder(ps) && forall q :: q in ps ==> MayPrecede(p, q)
  {
    var all := [p] + ps;
    assert all[0] == p && all[1..] == ps;
    if InOrder(all) {
      forall i, j | 0 <= i < j < |ps| ensures MayPrecede(ps[i], ps[j]) {
        assert MayPrecede(all[i + 1], all[j + 1]);
      }
      forall q | q in ps ensures MayPrecede(p, q) {
        var j :| 0 <= j < |ps| && ps[j] == q;
        assert MayPrecede(all[0], all[j + 1]);
      }
    }
  }

  lemma {:induction false} InsertMembers(p: Param, ps: PropList)
    ensures forall q :: q in InsertIndex(p, ps) <==> q == p || q in ps
    ensures |InsertIndex(p, ps)| == |ps| + 1
  {
    if ps != [] {
      InsertMembers(p, ps[1..]);
    }
  }

  lemma {:induction false} EnumerateMembers(ps: PropList)
    ensures forall q :: q in Indices(ps) <==> q in ps && IsIndex(q.name)
    ensures forall q :: q in Others(ps) <==> q in ps && !IsIndex(q.name)
    ensures |Indices(ps)| + |Others(ps)| == |ps|
  {
    if ps != [] {
      EnumerateMembers(ps[1..]);
      if IsIndex(ps[0].name) {
        InsertMembers(ps[0], Indices(ps[1..]));
      }
    }
  }

  lemma {:induction false} InsertInOrder(p: Param, ps: PropList)
    requires IsIndex(p.name) && InOrder(ps) && forall q :: q in ps ==> IsIndex(q.name)
    ensures InOrder(InsertIndex(p, ps))
  {
    if ps == [] || NaturalValue(p.name) <= NaturalValue(ps[0].name) {
      forall q | q in ps ensures MayPrecede(p, q) {
        var j :| 0 <= j < |ps| && ps[j] == q;
      }
      InOrderCons(p, ps);
    } else {
      assert [ps[0]] + ps[1..] == ps;
      InOrderCons(ps[0], ps[1..]);
      InsertInOrder(p, ps[1..]);
      InsertMembers(p, ps[1..]);
      InOrderCons(ps[0], InsertIndex(p, ps[1..]));
    }
  }

  lemma {:induction false} IndicesInOrder(ps: PropList)
    ensures InOrder(Indices(ps))
  {
    if ps != [] {
      IndicesInOrder(ps[1..]);
      if IsIndex(ps[0].name) {
        EnumerateMembers(ps[1..]);
        InsertInOrder(ps[0], Indices(ps[1..]));
      }
    }
  }

  lemma {:induction false} EnumerateInOrder(ps: PropList)
    ensures InOrder(Enumerate(ps))
  {
    IndicesInOrder(ps);
    EnumerateMembers(ps);
    var xs, ys, all := Indices(ps), Others(ps), Enumerate(ps);
    forall j | 0 <= j < |all| ensures all[j] == if j < |xs| then xs[j] else ys[j - |xs|] {
    }
    forall j | |xs| <= j < |all| ensures !IsIndex(all[j].name) {
      assert all[j] in ys;
    }
  }

  lemma {:induction false} EnumerateKeepsOrder(ps: PropList)
    requires InOrder(ps)
    ensures Enumerate(ps) == ps
  {
    if ps != [] {
      var p, rest := ps[0], ps[1..];
      assert [p] + rest == ps;
      InOrderCons(p, rest);
      EnumerateKeepsOrder(rest);
      EnumerateMembers(rest);
      HeadStays(p, Indices(rest));
      EnumerateCons(p, rest);
    }
  }

  lemma {:induction false} EnumerateCons(p: Param, rest: PropList)
    requires IsIndex(p.name) ==> InsertIndex(p, Indices(rest)) == [p] + Indices(rest)
    requires !IsIndex(p.name) ==> Indices(rest) == []
    ensures Enumerate([p] + rest) == [p] + Enumerate(rest)
  {
    var ps := [p] + rest;
    assert ps[0] == p && ps[1..] == rest;
    var xs, ys := Indices(rest), Others(rest);
    if IsIndex(p.name) {
      assert Indices(ps) == [p] + xs && Others(ps) == ys;
    } else {
      assert Indices(ps) == [] && Others(ps) == [p] + ys;
    }
  }

  lemma {:induction false} HeadStays(p: Param, xs: PropList)
    requires forall q :: q in xs ==> IsIndex(q.name) && MayPrecede(p, q)
    ensures IsIndex(p.name) ==> InsertIndex(p, xs) == [p] + xs
    ensures !IsIndex(p.name) ==> xs == []
  {
    if xs != [] {
      assert xs[0] in xs;
    }
  }

  // Enumeration keeps the original order exactly when index names lead in ascending order.
  lemma {:induction false} EnumerateExactly(ps: PropList)
    ensures Enumerate(ps) == ps <==> InOrder(ps)
  {
    EnumerateInOrder(ps);
    if InOrder(ps) {
      EnumerateKeepsOrder(ps);
    }
  }

  // --- Sizes and characters survive reordering ------------------------------------------

  function TextsSize(ps: PropList): nat
    requires AllText(ps)
  {
    if ps == [] then 0 else |ParamText(ps[0])| + 1 + TextsSize(ps[1..])
  }

  lemma {:induction false} QuerySize(ps: PropList)
    requires AllText(ps) && ps != []
    ensures |Query(ps)| + 1 == TextsSize(ps)
  {
    TextsLength(ps);
    if |ps| > 1 {
      QuerySize(ps[1..]);
      TextsLength(ps[1..]);
      assert Query(ps) == ParamText(ps[0]) + "&" + Query(ps[1..]);
    }
  }

  lemma {:induction false} InsertSize(p: Param, ps: PropList)
    requires p.value.Text? && AllText(ps)
    ensures AllText(InsertIndex(p, ps))
    ensures TextsSize(InsertIndex(p, ps)) == |ParamText(p)| + 1 + TextsSize(ps)
  {
    if ps != [] && NaturalValue(p.name) > NaturalValue(ps[0].name) {
      InsertSize(p, ps[1..]);
    }
  }

  lemma {:induction false} SizeConcat(ps: PropList, qs: PropList)
    requires AllText(ps) && AllText(qs)
    ensures AllText(ps + qs) && TextsSize(ps + qs) == TextsSize(ps) + TextsSize(qs)
  {
    if ps == [] {
      assert ps + qs == qs;
    } else {
      assert (ps + qs)[1..] == ps[1..] + qs;
      SizeConcat(ps[1..], qs);
    }
  }

  lemma {:induction false} PartsSize(ps: PropList)
    requires AllText(ps)
    ensures AllText(Indices(ps)) && AllText(Others(ps))
    ensures TextsSize(Indices(ps)) + TextsSize(Others(ps)) == TextsSize(ps)
  {
    if ps != [] {
      PartsSize(ps[1..]);
      if IsIndex(ps[0].name) {
        InsertSize(ps[0], Indices(ps[1..]));
      }
    }
  }

  lemma {:induction false} EnumerateSize(ps: PropList)
    requires AllText(ps) && ps != []
    ensures AllText(Enumerate(ps)) && Enumerate(ps) != [] && |Query(Enumerate(ps))| == |Query(ps)|
  {
    PartsSize(ps);
    SizeConcat(Indices(ps), Others(ps));
    EnumerateMembers(ps);
    QuerySize(ps);
    QuerySize(Enumerate(ps));
  }

  ghost predicate TextsWithout(ps: PropList, bad: char -> bool)
    requires AllText(ps)
  {
    forall p, c :: p in ps && c in ParamText(p) ==> !bad(c)
  }

  lemma {:induction false} QueryWithout(ps: PropList, bad: char -> bool)
    requires AllText(ps) && !bad('&')
    ensures (forall c :: c in Query(ps) ==> !bad(c)) <==> TextsWithout(ps, bad)
  {
    if ps != [] {
      var rest := ps[1..];
      QueryWithout(rest, bad);
      TextsLength(rest);
      assert Query(ps) == if rest == [] then ParamText(ps[0]) else ParamText(ps[0]) + "&" + Query(rest);
      assert forall p :: p in ps <==> p == ps[0] || p in rest;
    }
  }

  // --- Theorems ---------------------------------------------------------------------------

  // The reordered printout equals the plain query only for safe text in enumeration order.
  lemma {:induction false} PrintoutExactly(ps: PropList)
    requires WellFormed(ps) && ps != []
    ensures Rewrite(Stringify(Enumerate(ps))) == Query(ps) <==> Safe(Query(ps)) && InOrder(ps)
  {
    EnumerateSize(ps);
    StringifyPrinted(Enumerate(ps));
    EnumerateExactly(ps);
    PrintedExactly(Query(ps));
    if Printed(Query(Enumerate(ps))) == Query(ps) {
      PrintoutSame(ps);
    }
  }

  lemma {:induction false} PrintoutSame(ps: PropList)
    requires WellFormed(ps) && ps != [] && AllText(Enumerate(ps))
    requires Printed(Query(Enumerate(ps))) == Query(ps)
    ensures Enumerate(ps) == ps
  {
    var es := Enumerate(ps);
    PrintedOutput(Query(es));
    EnumerateMembers(ps);
    QueryWithout(ps, Unprintable);
    QueryWithout(es, Unprintable);
    EnumerateSize(ps);
    PrintedLength(Query(es));
    EnumerateWellFormed(ps);
    QueryInjective(es, ps);
  }

  lemma {:induction false} EnumerateWellFormed(ps: PropList)
    requires WellFormed(ps)
    ensures WellFormed(Enumerate(ps))
  {
    EnumerateMembers(ps);
    EnumerateDistinct(ps);
  }

  lemma {:induction false} EnumerateDistinct(ps: PropList)
    requires DistinctNames(ps)
    ensures DistinctNames(Enumerate(ps))
  {
    if ps != [] {
      var p, rest := ps[0], ps[1..];
      assert [p] + rest == ps;
      DistinctCons(p, rest);
      EnumerateDistinct(rest);
      EnumerateMembers(rest);
      var xs, ys := Indices(rest), Others(rest);
      DistinctSplit(xs, ys);
      if IsIndex(p.name) {
        InsertDistinct(p, xs);
        InsertMembers(p, xs);
        DistinctSplit(InsertIndex(p, xs), ys);
      } else {
        DistinctCons(p, ys);
        DistinctSplit(xs, [p] + ys);
      }
    }
  }

  lemma {:induction false} DistinctSplit(xs: PropList, ys: PropList)
    ensures DistinctNames(xs + ys) <==>
            DistinctNames(xs) && DistinctNames(ys) && forall x, y :: x in xs && y in ys ==> x.name != y.name
  {
    var all := xs + ys;
    if DistinctNames(all) {
      forall i, j | 0 <= i < j < |ys| ensures ys[i].name != ys[j].name {
        assert all[|xs| + i] == ys[i] && all[|xs| + j] == ys[j];
      }
      forall i, j | 0 <= i < j < |xs| ensures xs[i].name != xs[j].name {
        assert all[i] == xs[i] && all[j] == xs[j];
      }
      forall x, y | x in xs && y in ys ensures x.name != y.name {
        var i :| 0 <= i < |xs| && xs[i] == x;
        var j :| 0 <= j < |ys| && ys[j] == y;
        assert all[i] == x && all[|xs| + j] == y;
      }
    }
  }

  lemma {:induction false} InsertDistinct(p: Param, ps: PropList)
    requires DistinctNames(ps) && forall q :: q in ps ==> q.name != p.name
    ensures DistinctNames(InsertIndex(p, ps))
  {
    if ps == [] || NaturalValue(p.name) <= NaturalValue(ps[0].name) {
      DistinctCons(p, ps);
    } else {
      assert [ps[0]] + ps[1..] == ps;
      DistinctCons(ps[0], ps[1..]);
      InsertDistinct(p, ps[1..]);
      InsertMembers(p, ps[1..]);
      DistinctCons(ps[0], InsertIndex(p, ps[1..]));
    }
  }

  lemma {:induction false} InOrderWithout(ps: PropList, key: string)
    requires InOrder(ps)
    ensures InOrder(Without(ps, key))
  {
    if ps != [] {
      assert [ps[0]] + ps[1..] == ps;
      InOrderCons(ps[0], ps[1..]);
      InOrderWithout(ps[1..], key);
      WithoutMembers(ps[1..], key);
      InOrderCons(ps[0], Without(ps[1..], key));
    }
  }
}
