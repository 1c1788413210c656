/**
 Deep comparison across types: primitives of different types, objects against primitives,
 falsy values, things that only look like an array, and errors.
 */
module SamenessMixed {
  import opened JsPrims
  import opened Counting
  import opened Sameness
  import opened SamenessLaws
  import opened SamenessNulls

  // A boolean, a number or a string.
  predicate IsPlain(v: Value) {
    v.Prim? && (v.p.Bool? || v.p.Num? || v.p.Str?)
  }

  predicate OfOneType(v: Value, w: Value) {
    v.Prim? && w.Prim? && ((v.p.Bool? && w.p.Bool?) || (v.p.Num? && w.p.Num?) || (v.p.Str? && w.p.Str?))
  }

  // Equal if of one type, and otherwise related by the coercion rules.
  predicate Coerced(v: Value, w: Value, mixed: Coercion) {
    if OfOneType(v, w) then v == w else mixed(v, w)
  }

  ghost predicate PlainFields(v: Value) {
    v.Obj? && DistinctKeys(v.entries) && forall e :: e in v.entries ==> IsPlain(e.value)
  }

  // Any values but null, undefined and NaN.
  ghost predicate PresentFields(v: Value) {
    v.Obj? && DistinctKeys(v.entries) && forall e :: e in v.entries ==> IsPresent(e.value)
  }

  predicate IsPresent(v: Value) {
    IsPlain(v) || v.Obj? || v.Arr?
  }

  ghost predicate CoercedFields(a: Value, b: Value, mixed: Coercion) {
    Keys(a) == Keys(b) && forall k :: k in Keys(a) ==> Coerced(Get(a, k), Get(b, k), mixed)
  }

  lemma {:induction false} ReadPresent(v: Value, k: string)
    requires PresentFields(v)
    ensures k !in Keys(v) ==> Get(v, k) == MISSING
    ensures k in Keys(v) ==> IsPresent(Get(v, k)) && Entry(k, Get(v, k)) in v.entries
  {
    if k in Keys(v) {
      var e :| e in v.entries && e.key == k;
      var e' :| e' in v.entries && e'.key == k && e'.value == Find(v.entries, k);
    } else {
      assert forall e :: e in v.entries ==> e.key in Keys(v);
    }
  }

  lemma {:induction false} LooseCoerced(v: Value, w: Value, mixed: Coercion)
    ensures IsPresent(v) && IsPresent(w) ==> (IsPlain(v) || IsPlain(w) ==> LooseEq(v, w, mixed) == Coerced(v, w, mixed))
    ensures IsPresent(v) ==> !LooseEq(v, MISSING, mixed) && !LooseEq(MISSING, v, mixed)
  {
  }

  lemma {:induction false} PlainEntry(k: string, c: Value, a: Value, b: Value, mixed: Coercion)
    requires PresentFields(a) && PresentFields(b) && (c == a || c == b) && k in Keys(c) && IsPlain(Get(c, k))
    ensures SameEntry(k, c, a, b, mixed) == Yes(CoercedAt(a, b, k, mixed))
  {
    var x, y := Get(a, k), Get(b, k);
    ReadPresent(a, k);
    ReadPresent(b, k);
    TurnOf(k, c, a, b, mixed);
    LooseCoerced(x, y, mixed);
    LooseCoerced(y, x, mixed);
  }

  predicate CoercedAt(a: Value, b: Value, k: string, mixed: Coercion) {
    Get(a, k) != MISSING && Get(b, k) != MISSING && Coerced(Get(a, k), Get(b, k), mixed)
  }

  ghost predicate CoercedOn(keys: set<string>, a: Value, b: Value, mixed: Coercion) {
    forall k :: k in keys ==> CoercedAt(a, b, k, mixed)
  }

  // The verdict of a loop over c whose values are plain.
  lemma {:induction false} PlainLoop(c: Value, a: Value, b: Value, mixed: Coercion)
    requires PresentFields(a) && PresentFields(b) && (c == a || c == b) && PlainFields(c)
    ensures FirstFault(EntryVerdicts(c, a, b, mixed)) == Yes(CoercedOn(Keys(c), a, b, mixed))
  {
    var vs := EntryVerdicts(c, a, b, mixed);
    var ok := k => CoercedAt(a, b, k, mixed);
    forall j | 0 <= j < |vs| ensures vs[j] == Yes(ok(c.entries[j].key)) {
      var k := c.entries[j].key;
      assert c.entries[j] in c.entries && k in Keys(c);
      ReadPresent(c, k);
      PlainEntry(k, c, a, b, mixed);
    }
    EntriesVerdict(c, vs, ok);
  }

  // Objects of booleans, numbers and strings are the same exactly when they have the same keys,
  // with values that are equal if of one type and related by coercion if not.
  lemma {:induction false} CoercedExactly(a: Value, b: Value, mixed: Coercion)
    requires PlainFields(a) && PlainFields(b)
    ensures SameObject(a, b, mixed) == Yes(CoercedFields(a, b, mixed))
  {
    var c := Larger(a, b);
    PlainLoop(c, a, b, mixed);
    AllFields(a, b);
    if CoercedOn(Keys(c), a, b, mixed) {
      OneKeySet(a, b, mixed);
    }
  }

  lemma {:induction false} OneKeySet(a: Value, b: Value, mixed: Coercion)
    requires PresentFields(a) && PresentFields(b) && CoercedOn(Keys(Larger(a, b)), a, b, mixed)
    ensures Keys(a) == Keys(b)
  {
    var c, d := Larger(a, b), Smaller(a, b);
    forall k | k in Keys(c) ensures k in Keys(d) {
      assert CoercedAt(a, b, k, mixed);
      ReadPresent(d, k);
    }
    KeyCount(a);
    KeyCount(b);
    SubsetSize(Keys(c), Keys(d));
  }

  lemma {:induction false} AllFields(a: Value, b: Value)
    requires PresentFields(a) && PresentFields(b)
    ensures forall k :: k in Keys(a) <==> Get(a, k) != MISSING
    ensures forall k :: k in Keys(b) <==> Get(b, k) != MISSING
  {
    forall k ensures (k in Keys(a) <==> Get(a, k) != MISSING) && (k in Keys(b) <==> Get(b, k) != MISSING) {
      ReadPresent(a, k);
      ReadPresent(b, k);
    }
  }

  // With the same keys it is the second object whose values choose the comparison: against its
  // booleans, numbers and strings, objects and arrays of the first are coerced.
  lemma {:induction false} CoercedAgainstObjects(a: Value, b: Value, mixed: Coercion)
    requires PresentFields(a) && PlainFields(b) && Keys(a) == Keys(b)
    ensures SameObject(a, b, mixed) == Yes(CoercedFields(a, b, mixed))
  {
    KeyCount(a);
    KeyCount(b);
    PlainLoop(b, a, b, mixed);
    AllFields(a, b);
  }

  // The field n of 5 and of "5" is the same exactly if coercion relates the two.
  lemma {:induction false} NumberAgainstText(n: string, x: real, s: string, mixed: Coercion)
    ensures var (v, w) := (Prim(Num(x)), Prim(Str(s)));
      SameObject(Obj([Entry(n, v)]), Obj([Entry(n, w)]), mixed) == Yes(mixed(v, w))
  {
    var v, w := Prim(Num(x)), Prim(Str(s));
    var a, b := Obj([Entry(n, v)]), Obj([Entry(n, w)]);
    assert a.entries[0] in a.entries && b.entries[0] in b.entries;
    assert Keys(a) == {n} && Keys(b) == {n};
    CoercedExactly(a, b, mixed);
    assert Get(a, n) == v && Get(b, n) == w;
  }

  // NaN is the same as no field value, not even as NaN.
  lemma {:induction false} NaNIsNever(k: string, w: Value, mixed: Coercion)
    requires w.Prim?
    ensures SameObject(Obj([Entry(k, Prim(NaN))]), Obj([Entry(k, w)]), mixed) == Different
    ensures SameObject(Obj([Entry(k, w)]), Obj([Entry(k, Prim(NaN))]), mixed) == Different
  {
    var a, b := Obj([Entry(k, Prim(NaN))]), Obj([Entry(k, w)]);
    TurnOf(k, b, a, b, mixed);
    TurnOf(k, a, b, a, mixed);
    assert EntryVerdicts(b, a, b, mixed) == [Different];
    assert EntryVerdicts(a, b, a, mixed) == [Different];
  }

  // The other way round an object is asked for its keys: it is the same as a truthy number or
  // boolean exactly if all its fields are null or undefined.
  lemma {:induction false} ObjectAgainstScalar(x: Value, y: Value, mixed: Coercion)
    requires x.Obj? && DistinctKeys(x.entries) && IsBare(y)
    ensures var empty := forall e :: e in x.entries ==> Nullish(e.value);
      SameObject(x, y, mixed) == SameObject(y, x, mixed) == Yes(empty && y != Prim(Num(0.0)) && y != Prim(Bool(false)))
  {
    if IsTruthy(y) {
      KeysAgainstNone(x, x, y, mixed);
      KeysAgainstNone(x, y, x, mixed);
      if x.entries == [] {
        assert EntryVerdicts(y, x, y, mixed) == [];
      }
    }
  }

  lemma {:induction false} KeysAgainstNone(x: Value, a: Value, b: Value, mixed: Coercion)
    requires x.Obj? && DistinctKeys(x.entries)
    requires (x == a && IsBare(b)) || (x == b && IsBare(a))
    ensures FirstFault(EntryVerdicts(x, a, b, mixed)) == Yes(forall e :: e in x.entries ==> Nullish(e.value))
  {
    var vs := EntryVerdicts(x, a, b, mixed);
    var ok := k => Nullish(Get(x, k));
    forall j | 0 <= j < |vs| ensures vs[j] == Yes(ok(x.entries[j].key)) {
      AgainstNone(x.entries[j].key, x, a, b, mixed);
    }
    EntriesVerdict(x, vs, ok);
    forall e | e in x.entries ensures Get(x, e.key) == e.value && e.key in Keys(x) {
      FindDistinct(x.entries, e);
    }
  }

  // A number or boolean has no keys.
  predicate IsBare(y: Value) {
    y.Prim? && (y.p.Num? || y.p.Bool?)
  }

  lemma {:induction false} AgainstNone(k: string, x: Value, a: Value, b: Value, mixed: Coercion)
    requires x.Obj? && ((x == a && IsBare(b)) || (x == b && IsBare(a)))
    ensures SameEntry(k, x, a, b, mixed) == Yes(Nullish(Get(x, k)))
  {
    TurnOf(k, x, a, b, mixed);
  }

  lemma {:induction false} FindDistinct(es: seq<Entry>, e: Entry)
    requires DistinctKeys(es) && e in es
    ensures Find(es, e.key) == e.value
  {
    var e' :| e' in es && e'.key == e.key && e'.value == Find(es, e.key);
    var i :| 0 <= i < |es| && es[i] == e;
    var j :| 0 <= j < |es| && es[j] == e';
  }

  // --- Truth ------------------------------------------------------------------------------

  predicate IsFalsy(v: Value) {
    v.Prim? && v.p in {Undefined, Null, NaN, Bool(false), Num(0.0), Str("")}
  }

  // Two falsy values are the same, whatever they are, and a falsy one is never the same as another.
  lemma {:induction false} TruthDecides(a: Value, b: Value, mixed: Coercion)
    ensures IsFalsy(a) && IsFalsy(b) ==> SameObject(a, b, mixed) == Same
    ensures IsFalsy(a) != IsFalsy(b) ==> SameObject(a, b, mixed) == Different
    ensures IsFalsy(a) || IsFalsy(b) ==> SameArray(a, b, mixed) == Different
  {
  }

  // --- Errors -----------------------------------------------------------------------------

  // Against a non-empty array, text of its length is asked for forEach, which is an error; other
  // text, and anything but an array on the left, is different.
  lemma {:induction false} TextAgainstArray(xs: seq<Value>, s: string, mixed: Coercion)
    ensures SameArray(Arr(xs), Prim(Str(s)), mixed) == if s != "" && |s| == |xs| then Throws else Different
    ensures SameArray(Prim(Str(s)), Arr(xs), mixed) == Different
  {
  }

  // An object passes for an array by its length alone: an error unless both are empty.
  lemma {:induction false} LengthAgainstArray(xs: seq<Value>, es: seq<Entry>, n: real, mixed: Coercion)
    requires DistinctKeys(es) && Entry("length", Prim(Num(n))) in es
    ensures SameArray(Arr(xs), Obj(es), mixed) ==
            if n != |xs| as real then Different else if xs == [] then Same else Throws
    ensures SameArray(Obj(es), Arr(xs), mixed) == Different
  {
    FindDistinct(es, Entry("length", Prim(Num(n))));
  }

  ghost predicate SomePairThrows(xs: seq<Value>, ys: seq<Value>, mixed: Coercion) {
    exists i, j :: 0 <= i < |xs| && 0 <= j < |ys| && SameObject(xs[i], ys[j], mixed) == Throws
  }

  ghost predicate FoundIn(x: Value, ys: seq<Value>, mixed: Coercion) {
    exists j :: 0 <= j < |ys| && SameObject(x, ys[j], mixed) == Same
  }

  ghost predicate AllFoundIn(xs: seq<Value>, ys: seq<Value>, mixed: Coercion) {
    forall i :: 0 <= i < |xs| ==> FoundIn(xs[i], ys, mixed)
  }

  // Arrays of one length: no pair of items is skipped, so an error of any pair surfaces; without
  // errors they are the same exactly if every item of the first is the same as some of the second.
  lemma {:induction false} SearchExactly(xs: seq<Value>, ys: seq<Value>, mixed: Coercion)
    ensures SameArray(Arr(xs), Arr(ys), mixed) ==
            if |xs| != |ys| then Different
            else if SomePairThrows(xs, ys, mixed) then Throws
            else Yes(AllFoundIn(xs, ys, mixed))
  {
    if |xs| == |ys| {
      var m := ItemVerdicts(xs, ys, mixed);
      forall i, j | 0 <= i < |xs| && 0 <= j < |ys| ensures m[i][j] == SameObject(xs[i], ys[j], mixed) {
        assert m[i][j] == SameItem(xs, i, ys, j, mixed);
      }
      if SomePairThrows(xs, ys, mixed) {
        var i, j :| 0 <= i < |xs| && 0 <= j < |ys| && SameObject(xs[i], ys[j], mixed) == Throws;
        assert m[i][j] in m[i] && m[i] in m;
      } else {
        SearchWithoutErrors(m, xs, ys, mixed);
      }
    }
  }

  lemma {:induction false} SearchWithoutErrors(m: seq<seq<Verdict>>, xs: seq<Value>, ys: seq<Value>, mixed: Coercion)
    requires |m| == |xs| && forall i :: 0 <= i < |m| ==> |m[i]| == |ys|
    requires forall i, j :: 0 <= i < |xs| && 0 <= j < |ys| ==> m[i][j] == SameObject(xs[i], ys[j], mixed)
    requires !SomePairThrows(xs, ys, mixed)
    ensures Sweep(m) == Yes(AllFoundIn(xs, ys, mixed))
  {
    forall i | 0 <= i < |m| ensures Throws !in m[i] && (Same in m[i] <==> FoundIn(xs[i], ys, mixed)) {
      assert forall j :: 0 <= j < |ys| ==> m[i][j] == SameObject(xs[i], ys[j], mixed);
    }
    assert !AnyThrows(m);
    assert AllMatched(m) <==> AllFoundIn(xs, ys, mixed);
  }

  // An error in one field surfaces exactly if no field before it differs.
  lemma {:induction false} FirstFieldDecides(c: Value, a: Value, b: Value, i: nat, mixed: Coercion)
    requires a.Obj? && b.Obj? && c == Larger(a, b) && i < |c.entries|
    requires forall j :: 0 <= j < i ==> SameEntry(c.entries[j].key, c, a, b, mixed) == Same
    requires SameEntry(c.entries[i].key, c, a, b, mixed) != Same
    ensures SameObject(a, b, mixed) == SameEntry(c.entries[i].key, c, a, b, mixed)
  {
    var vs := EntryVerdicts(c, a, b, mixed);
    forall j | 0 <= j <= i ensures vs[j] == SameEntry(c.entries[j].key, c, a, b, mixed) {
    }
    FirstFaultAt(vs, i);
  }
}
