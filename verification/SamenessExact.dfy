/**
 Consequences of SamenessLaws: isSameObject is an equivalence relation on tidy trees of one
 schema, and the array comparison decides permutation for exactly the repetition-free arrays.
 Scalars on their own and arrays in arrays are compared otherwise, as stated last; for null
 fields see SamenessNulls.
 */
module SamenessExact {
  import opened JsPrims
  import opened Counting
  import opened Sameness
  import opened SamenessLaws

  ghost predicate Plain(v: Value, s: Schema) {
    Conforms(v, s) && Tidy(v)
  }

  lemma {:induction false} SameIsEquivalenceRelation(a: Value, b: Value, c: Value, s: Schema, mixed: Coercion)
    requires Comparable(s) && Plain(a, s) && Plain(b, s) && Plain(c, s)
    ensures SameObject(a, a, mixed) == Same
    ensures SameObject(a, b, mixed) == SameObject(b, a, mixed) != Throws
    ensures SameObject(a, b, mixed) == Same && SameObject(b, c, mixed) == Same ==> SameObject(a, c, mixed) == Same
  {
    ObjectsSame(a, a, s, mixed);
    ObjectsSame(a, b, s, mixed);
    ObjectsSame(b, a, s, mixed);
    ObjectsSame(b, c, s, mixed);
    ObjectsSame(a, c, s, mixed);
    EquivReflexive(a);
    if Equiv(a, b) {
      EquivSymmetric(a, b);
      if Equiv(b, c) {
        EquivTransitive(a, b, c);
      }
    }
    if Equiv(b, a) {
      EquivSymmetric(b, a);
    }
  }

  ghost function Image(s: set<nat>, p: seq<nat>): set<nat>
    requires forall k :: k in s ==> k < |p|
  {
    set k | k in s :: p[k]
  }

  lemma {:induction false} ImageSize(s: set<nat>, p: seq<nat>, q: seq<nat>, n: nat)
    requires Inverse(p, q, n)
    requires forall k :: k in s ==> k < n
    ensures |Image(s, p)| == |s|
    decreases |s|
  {
    if s == {} {
      assert Image(s, p) == {};
    } else {
      var k :| k in s;
      ImageSize(s - {k}, p, q, n);
      assert p[k] !in Image(s - {k}, p);
      assert Image(s, p) == Image(s - {k}, p) + {p[k]};
    }
  }

  lemma {:induction false} InjectionBound(s: set<nat>, t: set<nat>, p: seq<nat>, q: seq<nat>, n: nat)
    requires Inverse(p, q, n)
    requires forall k :: k in s ==> k < n && p[k] in t
    ensures |s| <= |t|
  {
    ImageSize(s, p, q, n);
    SubsetSize(Image(s, p), t);
  }

  // The positions of xs that hold an item equivalent to x.
  ghost function Occurrences(xs: seq<Value>, x: Value): (s: set<nat>)
    ensures forall k :: k in s <==> 0 <= k < |xs| && Equiv(xs[k], x)
  {
    set k | k in Below(|xs|) && Equiv(xs[k], x)
  }

  // A permutation sends occurrences of x to occurrences of x.
  lemma {:induction false} OccurrencesKept(xs: seq<Value>, ys: seq<Value>, p: seq<nat>, x: Value, k: nat)
    requires |p| == |xs| && Matches(xs, ys, p) && k in Occurrences(xs, x)
    ensures p[k] in Occurrences(ys, x)
  {
    EquivSymmetric(xs[k], ys[p[k]]);
    EquivTransitive(ys[p[k]], xs[k], x);
  }

  lemma {:induction false} OverwriteLosesOne(xs: seq<Value>, j: nat, z: Value, x: Value)
    requires j < |xs| && Equiv(xs[j], x) && !Equiv(z, x)
    ensures |Occurrences(xs[j := z], x)| < |Occurrences(xs, x)|
  {
    var before, after := Occurrences(xs, x), Occurrences(xs[j := z], x);
    assert after <= before - {j};
    SubsetSize(after, before - {j});
  }

  // Overwriting one of two equivalent items with a different one is not a permutation.
  lemma {:induction false} OverwriteIsNoPermutation(xs: seq<Value>, i: nat, j: nat, z: Value)
    requires i < j < |xs| && Equiv(xs[i], xs[j]) && !Equiv(xs[i], z)
    ensures !Equiv(Arr(xs), Arr(xs[j := z]))
  {
    var ys, n, x := xs[j := z], |xs|, xs[i];
    if Equiv(z, x) {
      EquivSymmetric(z, x);
    }
    EquivSymmetric(x, xs[j]);
    OverwriteLosesOne(xs, j, z, x);
    if Equiv(Arr(xs), Arr(ys)) {
      var p, q :| Inverse(p, q, n) && Matches(xs, ys, p);
      forall k | k in Occurrences(xs, x) ensures p[k] in Occurrences(ys, x) {
        OccurrencesKept(xs, ys, p, x, k);
      }
      InjectionBound(Occurrences(xs, x), Occurrences(ys, x), p, q, n);
    }
  }

  // Yet the one-sided search accepts it.
  lemma {:induction false} OverwritePasses(xs: seq<Value>, i: nat, j: nat, z: Value, item: Schema, mixed: Coercion)
    requires i < j < |xs| && Equiv(xs[i], xs[j])
    requires Comparable(item) && Conforms(z, item) && forall x :: x in xs ==> Plain(x, item)
    ensures SameArray(Arr(xs), Arr(xs[j := z]), mixed) == Same
  {
    var ys := xs[j := z];
    var m := ItemVerdicts(xs, ys, mixed);
    forall k, l | 0 <= k < |xs| && 0 <= l < |xs| ensures m[k][l] == Yes(Equiv(xs[k], ys[l])) {
      assert Plain(xs[k], item) && (ys[l] == z || Plain(xs[l], item));
      ObjectsSame(xs[k], ys[l], item, mixed);
      assert m[k][l] == SameItem(xs, k, ys, l, mixed);
    }
    NoErrors(m, xs, ys);
    EquivSymmetric(xs[i], xs[j]);
    forall k | 0 <= k < |xs| ensures Same in m[k] {
      EquivReflexive(xs[k]);
      var l := if k == j then i else k;
      assert m[k][l] == Yes(Equiv(xs[k], ys[l]));
    }
    assert AllMatched(m);
  }

  ghost predicate DecidesPermutation(xs: seq<Value>, item: Schema, mixed: Coercion) {
    forall ys :: Conforms(Arr(ys), ArrS(item)) ==> (SameArray(Arr(xs), Arr(ys), mixed) == Same <==> Equiv(Arr(xs), Arr(ys)))
  }

  // isSameArrayValue(xs, ys) decides permutation for every ys exactly when xs has no two
  // equivalent items, provided the item schema has at least two different values.
  lemma {:induction false} PermutationExactly(xs: seq<Value>, item: Schema, z: Value, z': Value, mixed: Coercion)
    requires Comparable(item) && forall x :: x in xs ==> Plain(x, item)
    requires Conforms(z, item) && Conforms(z', item) && !Equiv(z, z')
    ensures DecidesPermutation(xs, item, mixed) <==> NoRepeats(xs)
  {
    if NoRepeats(xs) {
      forall ys | Conforms(Arr(ys), ArrS(item))
        ensures SameArray(Arr(xs), Arr(ys), mixed) == Same <==> Equiv(Arr(xs), Arr(ys))
      {
        ArraysSame(Arr(xs), Arr(ys), ArrS(item), mixed);
      }
    } else {
      var i, j :| 0 <= i < j < |xs| && Equiv(xs[i], xs[j]);
      if Equiv(xs[i], z) && Equiv(xs[i], z') {
        EquivSymmetric(xs[i], z);
        EquivTransitive(z, xs[i], z');
      }
      var y := if Equiv(xs[i], z) then z' else z;
      OverwritePasses(xs, i, j, y, item, mixed);
      OverwriteIsNoPermutation(xs, i, j, y);
      var ys := xs[j := y];
      forall x | x in ys ensures Conforms(x, item) {
        assert x == y || (x in xs && Plain(x, item));
      }
      assert Conforms(Arr(ys), ArrS(item));
    }
  }

  // Numbers and booleans have no keys to visit: only their truth is compared.
  lemma {:induction false} ScalarsCompareByTruth(p: Prim, q: Prim, mixed: Coercion)
    requires (p.Num? || p.Bool?) && (q.Num? || q.Bool?)
    ensures SameObject(Prim(p), Prim(q), mixed) == Yes(Truthy(p) == Truthy(q))
  {
    assert EntryVerdicts(Prim(q), Prim(p), Prim(q), mixed) == [];
  }

  ghost predicate AllOf(xs: seq<Value>, s: Schema) {
    forall x :: x in xs ==> Conforms(x, s)
  }

  predicate TruthOccurs(x: Value, ys: seq<Value>) {
    exists j :: 0 <= j < |ys| && IsTruthy(ys[j]) == IsTruthy(x)
  }

  predicate TruthsOccur(xs: seq<Value>, ys: seq<Value>) {
    forall i :: 0 <= i < |xs| ==> TruthOccurs(xs[i], ys)
  }

  predicate IsScalar(v: Value) {
    v.Prim? && (v.p.Num? || v.p.Bool?)
  }

  lemma {:induction false} ScalarVerdicts(xs: seq<Value>, ys: seq<Value>, mixed: Coercion)
    requires forall v :: v in xs || v in ys ==> IsScalar(v)
    ensures var m := ItemVerdicts(xs, ys, mixed);
      && |m| == |xs| && (forall i :: 0 <= i < |m| ==> |m[i]| == |ys|)
      && forall i, j :: 0 <= i < |xs| && 0 <= j < |ys| ==> m[i][j] == Yes(IsTruthy(xs[i]) == IsTruthy(ys[j]))
  {
    var m := ItemVerdicts(xs, ys, mixed);
    forall i, j | 0 <= i < |xs| && 0 <= j < |ys| ensures m[i][j] == Yes(IsTruthy(xs[i]) == IsTruthy(ys[j])) {
      assert xs[i] in xs && ys[j] in ys;
      ScalarsCompareByTruth(xs[i].p, ys[j].p, mixed);
      assert m[i][j] == SameItem(xs, i, ys, j, mixed);
    }
  }

  // Arrays of numbers and booleans are the same exactly when they are of one length and every
  // truth value of the first occurs in the second.
  lemma {:induction false} ScalarArraysExactly(xs: seq<Value>, ys: seq<Value>, mixed: Coercion)
    requires forall v :: v in xs || v in ys ==> IsScalar(v)
    ensures SameArray(Arr(xs), Arr(ys), mixed) == Yes(|xs| == |ys| && TruthsOccur(xs, ys))
  {
    if |xs| == |ys| {
      var m := ItemVerdicts(xs, ys, mixed);
      ScalarVerdicts(xs, ys, mixed);
      forall i | 0 <= i < |m| ensures Throws !in m[i] && (Same in m[i] <==> TruthOccurs(xs[i], ys)) {
        assert forall j :: 0 <= j < |ys| ==> m[i][j] == Yes(IsTruthy(xs[i]) == IsTruthy(ys[j]));
      }
      assert AllMatched(m) <==> TruthsOccur(xs, ys);
    }
  }

  ghost predicate ScalarsDecide(xs: seq<Value>, s: Schema, mixed: Coercion) {
    forall ys :: AllOf(ys, s) ==> (SameArray(Arr(xs), Arr(ys), mixed) == Same <==> Equiv(Arr(xs), Arr(ys)))
  }

  const ZERO: Value := Prim(Num(0.0))

  // That decides permutation for every second array exactly for booleans without repetitions, and
  // for numbers only if there are none or a single zero.
  lemma {:induction false} ScalarPermutationExactly(xs: seq<Value>, s: Schema, mixed: Coercion)
    requires (s.BoolS? || s.NumS?) && AllOf(xs, s)
    ensures ScalarsDecide(xs, s, mixed) <==> if s.BoolS? then NoRepeats(xs) else xs == [] || xs == [ZERO]
  {
    if |xs| == 1 && s.NumS? && !IsTruthy(xs[0]) {
      assert xs[0] in xs;
      assert xs == [ZERO];
    }
    if NoRepeats(xs) && (s.BoolS? || xs == [] || xs == [ZERO]) {
      forall ys | AllOf(ys, s) ensures SameArray(Arr(xs), Arr(ys), mixed) == Same <==> Equiv(Arr(xs), Arr(ys)) {
        TruthIsValue(xs, ys, s, mixed);
      }
    } else if s.BoolS? {
      var i, j :| 0 <= i < j < |xs| && Equiv(xs[i], xs[j]);
      assert xs[i] in xs;
      var z := Prim(Bool(!xs[i].p.b));
      OverwriteIsNoPermutation(xs, i, j, z);
      TruthKept(xs, i, j, z, s, mixed);
    } else if i: nat :| i < |xs| && IsTruthy(xs[i]) {
      var z := Prim(Num(Above(xs)));
      NewItem(xs, i, z);
      TruthKept(xs, i, i, z, s, mixed);
    } else if |xs| >= 2 {
      var z := Prim(Num(1.0));
      NewItem(xs, 1, z);
      TruthKept(xs, 0, 1, z, s, mixed);
    }
  }

  // Where a truth value has one value only, the search is for equality.
  lemma {:induction false} TruthIsValue(xs: seq<Value>, ys: seq<Value>, s: Schema, mixed: Coercion)
    requires AllOf(xs, s) && AllOf(ys, s) && NoRepeats(xs)
    requires s.BoolS? || (s.NumS? && (xs == [] || xs == [ZERO]))
    ensures SameArray(Arr(xs), Arr(ys), mixed) == Yes(Equiv(Arr(xs), Arr(ys)))
  {
    if |xs| == |ys| {
      var m := ItemVerdicts(xs, ys, mixed);
      ScalarVerdicts(xs, ys, mixed);
      forall i, j | 0 <= i < |xs| && 0 <= j < |ys| ensures m[i][j] == Yes(Equiv(xs[i], ys[j])) {
        assert xs[i] in xs && ys[j] in ys;
      }
      ItemsSame(m, xs, ys);
    }
  }

  // Replacing item j by z passes if z or the item at i keeps the replaced truth value.
  lemma {:induction false} TruthKept(xs: seq<Value>, i: nat, j: nat, z: Value, s: Schema, mixed: Coercion)
    requires (s.BoolS? || s.NumS?) && AllOf(xs, s) && Conforms(z, s) && i < |xs| && j < |xs|
    requires IsTruthy(xs[j]) == IsTruthy(if i == j then z else xs[i])
    requires !Equiv(Arr(xs), Arr(xs[j := z]))
    ensures !ScalarsDecide(xs, s, mixed)
  {
    var ys := xs[j := z];
    forall y | y in ys ensures Conforms(y, s) {
      assert y == z || y in xs;
    }
    forall k | 0 <= k < |xs| ensures TruthOccurs(xs[k], ys) {
      assert IsTruthy(ys[if k == j then i else k]) == IsTruthy(xs[k]);
    }
    ScalarArraysExactly(xs, ys, mixed);
    assert AllOf(ys, s);
  }

  // An item that xs does not have makes no permutation.
  lemma {:induction false} NewItem(xs: seq<Value>, i: nat, z: Value)
    requires i < |xs| && z.Prim? && z !in xs
    ensures !Equiv(Arr(xs), Arr(xs[i := z]))
  {
    var ys := xs[i := z];
    if Equiv(Arr(xs), Arr(ys)) {
      var p, q :| Inverse(p, q, |xs|) && Matches(xs, ys, p);
      EquivSymmetric(xs[q[i]], z);
      assert false;
    }
  }

  // A number above all those of xs, and above zero.
  function Above(xs: seq<Value>): (r: real)
    ensures r > 0.0 && Prim(Num(r)) !in xs
    ensures forall x :: x in xs && x.Prim? && x.p.Num? ==> x.p.n < r
  {
    if xs == [] then 1.0
    else
      var r := Above(xs[1..]);
      if xs[0].Prim? && xs[0].p.Num? && xs[0].p.n >= r then xs[0].p.n + 1.0 else r
  }

  // An array inside an array is found nowhere, so such an array is not even the same as itself.
  lemma {:induction false} NestedArraysNeverMatch(xs: seq<Value>, ys: seq<Value>, i: nat, mixed: Coercion)
    requires i < |xs| && xs[i].Arr?
    ensures SameArray(Arr(xs), Arr(ys), mixed) != Same
  {
    if |xs| == |ys| {
      var m := ItemVerdicts(xs, ys, mixed);
      forall l | 0 <= l < |ys| ensures m[i][l] == Different {
        assert SameObject(xs[i], ys[l], mixed) == Different;
        assert m[i][l] == SameItem(xs, i, ys, l, mixed);
      }
      assert m[i] in m && Same !in m[i];
    }
  }

  // isSameObject as it runs.
  method IsSameObject(a: Value, b: Value, mixed: Coercion) returns (r: Verdict)
    ensures r == SameObject(a, b, mixed)
    decreases Size(a) + Size(b), 2
  {
    if IsTruthy(a) && !IsTruthy(b) {
      return Different;
    }
    if IsTruthy(b) && !IsTruthy(a) {
      return Different;
    }
    if IsTruthy(a) && IsTruthy(b) {
      if a.Arr? || b.Arr? {
        return Different;
      }
      var c := if |Entries(a)| > |Entries(b)| then a else b;
      r := CompareEntries(Entries(c), c, a, b, mixed, EntryVerdicts(c, a, b, mixed));
      return;
    }
    return Same;
  }

  // Its for-in loop over the entries es of c, the value with more keys: it leaves at the first
  // fault. vs are the verdicts of all turns.
  method CompareEntries(es: seq<Entry>, c: Value, a: Value, b: Value, mixed: Coercion, ghost vs: seq<Verdict>)
    returns (r: Verdict)
    requires c == a || c == b
    requires |vs| == |es| && forall i :: 0 <= i < |es| ==> vs[i] == SameEntry(es[i].key, c, a, b, mixed)
    ensures r == FirstFault(vs)
    decreases Size(a) + Size(b), 1
  {
    for i := 0 to |es|
      invariant forall j :: 0 <= j < i ==> vs[j] == Same
    {
      r := CompareEntry(es[i].key, c, a, b, mixed);
      FirstFaultAt(vs, i);
      if r != Same {
        return r;
      }
    }
    FirstFaultAt(vs, |vs|);
    return Same;
  }

  // One turn of that loop: arrays, objects and everything else go separate ways.
  method CompareEntry(key: string, c: Value, a: Value, b: Value, mixed: Coercion) returns (r: Verdict)
    requires c == a || c == b
    ensures r == SameEntry(key, c, a, b, mixed)
    decreases Size(a) + Size(b), 0
  {
    GetSize(a, key);
    GetSize(b, key);
    var cv := Get(c, key);
    if IsTruthy(cv) && cv.Arr? {
      r := IsSameArrayValue(Get(a, key), Get(b, key), mixed);
    } else if IsTruthy(cv) && cv.Obj? {
      r := IsSameObject(Get(a, key), Get(b, key), mixed);
    } else {
      r := if LooseEq(Get(a, key), Get(b, key), mixed) then Same else Different;
    }
  }

  // isSameArrayValue as it runs: two full sweeps with a flag each; an error ends both.
  method IsSameArrayValue(a: Value, b: Value, mixed: Coercion) returns (r: Verdict)
    ensures r == SameArray(a, b, mixed)
    decreases Size(a) + Size(b), 3
  {
    if IsTruthy(a) && IsTruthy(b) && a.Arr? {
      var xs := a.items;
      if Get(b, "length") != Prim(Num(|xs| as real)) {
        return Different;
      }
      if !b.Arr? {
        return if xs == [] then Same else Throws;  // b.forEach is not a function
      }
      var ys := b.items;
      ghost var m := ItemVerdicts(xs, ys, mixed);
      var isSame := true;
      for i := 0 to |xs|
        invariant !AnyThrows(m[..i])
        invariant isSame <==> AllMatched(m[..i])
      {
        var found := SearchItem(xs, i, ys, mixed, m[i]);
        if found == Throws {
          assert m[i] in m;
          return Throws;
        }
        if found == Different {
          isSame := false;
        }
        assert m[..i + 1] == m[..i] + [m[i]];
      }
      assert m[..|xs|] == m;
      if isSame {
        return Same;
      }
    }
    return Different;
  }

  // The sweep of b.forEach for one item of a, with its flag hasItem; row holds the verdicts.
  method SearchItem(xs: seq<Value>, i: nat, ys: seq<Value>, mixed: Coercion, ghost row: seq<Verdict>)
    returns (found: Verdict)
    requires i < |xs| && |row| == |ys|
    requires forall j :: 0 <= j < |ys| ==> row[j] == SameItem(xs, i, ys, j, mixed)
    ensures found == if Throws in row then Throws else Yes(Same in row)
    decreases ItemsSize(xs) + ItemsSize(ys) + 1, 3
  {
    var hasItem := false;
    for j := 0 to |ys|
      invariant Throws !in row[..j]
      invariant hasItem <==> Same in row[..j]
    {
      ItemSize(xs, i);
      ItemSize(ys, j);
      var t := IsSameObject(xs[i], ys[j], mixed);
      assert row[j] == t && row[..j + 1] == row[..j] + [t];
      if t == Throws {
        return Throws;
      }
      if t == Same {
        hasItem := true;
      }
    }
    assert row[..|ys|] == row;
    return Yes(hasItem);
  }
}
