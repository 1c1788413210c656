/**
 Deep comparison when fields may be null or undefined. Absent, undefined and null fields are
 interchangeable, and only the keys of the object with more keys are visited, so null fields can
 hide values of the other object.
 */
module SamenessNulls {
  import opened JsPrims
  import opened Counting
  import opened Sameness
  import opened SamenessLaws

  predicate Nullish(v: Value) {
    v == MISSING || v == Prim(Null)
  }

  // A value of the schema whose fields, at every depth, may be null or undefined.
  ghost predicate Shaped(v: Value, s: Schema)
    decreases v
  {
    match s
    case BoolS => v.Prim? && v.p.Bool?
    case NumS => v.Prim? && v.p.Num?
    case StrS => v.Prim? && v.p.Str?
    case ArrS(item) => v.Arr? && Comparable(item) && forall x :: x in v.items ==> Shaped(x, item)
    case ObjS(fields) =>
      && v.Obj? && DistinctKeys(v.entries)
      && forall e :: e in v.entries ==> e.key in fields && (Nullish(e.value) || Shaped(e.value, fields[e.key]))
  }

  function Larger(x: Value, y: Value): Value {
    if |Entries(x)| > |Entries(y)| then x else y
  }

  function Smaller(x: Value, y: Value): Value {
    if |Entries(x)| > |Entries(y)| then y else x
  }

  // What the comparison decides: agreement modulo null on every key of the object with more
  // keys, and for arrays a partner for every item of the first.
  ghost predicate AgreeN(x: Value, y: Value)
    decreases x, 1
  {
    if Nullish(x) || Nullish(y) then Nullish(x) && Nullish(y)
    else
      match x
      case Prim(_) => y == x
      case Obj(_) => y.Obj? && forall k :: k in Keys(Larger(x, y)) ==> AgreeAt(x, y, k)
      case Arr(xs) => y.Arr? && |xs| == |y.items| && forall i :: 0 <= i < |xs| ==> HasPeer(xs[i], y.items)
  }

  ghost predicate AgreeAt(x: Value, y: Value, k: string)
    requires x.Obj?
    decreases x, 0
  {
    if k in Keys(x) && k in Keys(y) then AgreeN(Get(x, k), Get(y, k)) else Nullish(Get(x, k)) && Nullish(Get(y, k))
  }

  ghost predicate HasPeer(x: Value, ys: seq<Value>)
    decreases x, 2
  {
    exists j :: 0 <= j < |ys| && AgreeN(x, ys[j])
  }

  // Equivalence modulo null: agreement on every key of either object, and permuted arrays.
  ghost predicate EquivN(x: Value, y: Value)
    decreases x, 1
  {
    if Nullish(x) || Nullish(y) then Nullish(x) && Nullish(y)
    else
      match x
      case Prim(_) => y == x
      case Obj(_) => y.Obj? && forall k :: k in Keys(x) + Keys(y) ==> EquivAt(x, y, k)
      case Arr(xs) => y.Arr? && |xs| == |y.items| && exists p, q :: Inverse(p, q, |xs|) && MatchesN(xs, y.items, p)
  }

  ghost predicate EquivAt(x: Value, y: Value, k: string)
    requires x.Obj?
    decreases x, 0
  {
    if k in Keys(x) && k in Keys(y) then EquivN(Get(x, k), Get(y, k)) else Nullish(Get(x, k)) && Nullish(Get(y, k))
  }

  ghost predicate MatchesN(xs: seq<Value>, ys: seq<Value>, p: seq<nat>)
    requires |p| == |xs|
    decreases xs, 0
  {
    forall i :: 0 <= i < |xs| ==> p[i] < |ys| && EquivN(xs[i], ys[p[i]])
  }

  // --- The comparison decides AgreeN ------------------------------------------------------

  lemma {:induction false} ReadFieldN(v: Value, k: string, fields: map<string, Schema>)
    requires Shaped(v, ObjS(fields))
    ensures k !in Keys(v) ==> Get(v, k) == MISSING
    ensures k in Keys(v) ==> k in fields && (Nullish(Get(v, k)) || Shaped(Get(v, k), fields[k]))
    ensures k in Keys(v) ==> (v decreases to Get(v, k))
  {
    if k in Keys(v) {
      var e :| e in v.entries && e.key == k;
      var e' :| e' in v.entries && e'.key == k && e'.value == Find(v.entries, k);
    }
  }

  // A field against a null or absent one.
  lemma {:induction false} FieldAgainstNull(x: Value, n: Value, f: Schema, mixed: Coercion)
    requires Shaped(x, f) && Nullish(n)
    ensures f.ArrS? ==> SameArray(x, n, mixed) == SameArray(n, x, mixed) == Different
    ensures f.ObjS? ==> SameObject(x, n, mixed) == SameObject(n, x, mixed) == Different
    ensures !LooseEq(x, n, mixed) && !LooseEq(n, x, mixed)
  {
  }

  // The comparison that one turn of the loop makes.
  lemma {:induction false} TurnOf(k: string, c: Value, a: Value, b: Value, mixed: Coercion)
    requires c == a || c == b
    ensures Get(c, k).Arr? ==> SameEntry(k, c, a, b, mixed) == SameArray(Get(a, k), Get(b, k), mixed)
    ensures Get(c, k).Obj? ==> SameEntry(k, c, a, b, mixed) == SameObject(Get(a, k), Get(b, k), mixed)
    ensures Get(c, k).Prim? ==> SameEntry(k, c, a, b, mixed) == Yes(LooseEq(Get(a, k), Get(b, k), mixed))
  {
  }

  // Absent keys read as undefined, so agreement at a key is agreement of what is read there.
  lemma {:induction false} AgreeAtReads(a: Value, b: Value, k: string)
    requires a.Obj? && b.Obj?
    requires k !in Keys(a) ==> Get(a, k) == MISSING
    requires k !in Keys(b) ==> Get(b, k) == MISSING
    ensures AgreeAt(a, b, k) <==> AgreeN(Get(a, k), Get(b, k))
  {
  }

  lemma {:induction false} EntryAgrees(k: string, c: Value, a: Value, b: Value, s: Schema, mixed: Coercion)
    requires s.ObjS? && Shaped(a, s) && Shaped(b, s)
    requires c == a || c == b
    requires k in Keys(c)
    ensures SameEntry(k, c, a, b, mixed) == Yes(AgreeAt(a, b, k))
    decreases a, 0
  {
    ReadFieldN(a, k, s.fields);
    ReadFieldN(b, k, s.fields);
    TurnOf(k, c, a, b, mixed);
    AgreeAtReads(a, b, k);
    var x, y, f := Get(a, k), Get(b, k), s.fields[k];
    if Nullish(x) || Nullish(y) {
      NullReads(x, y, Get(c, k), f, mixed);
    } else {
      FieldsAgree(x, y, f, mixed);
    }
  }

  lemma {:induction false} NullReads(x: Value, y: Value, cv: Value, f: Schema, mixed: Coercion)
    requires (Nullish(x) || Shaped(x, f)) && (Nullish(y) || Shaped(y, f))
    requires (Nullish(x) || Nullish(y)) && (cv == x || cv == y)
    ensures cv.Arr? ==> SameArray(x, y, mixed) == Yes(AgreeN(x, y))
    ensures cv.Obj? ==> SameObject(x, y, mixed) == Yes(AgreeN(x, y))
    ensures cv.Prim? ==> LooseEq(x, y, mixed) == AgreeN(x, y)
  {
    if !Nullish(x) {
      FieldAgainstNull(x, y, f, mixed);
    } else if !Nullish(y) {
      FieldAgainstNull(y, x, f, mixed);
    }
  }

  lemma {:induction false} FieldsAgree(x: Value, y: Value, f: Schema, mixed: Coercion)
    requires Shaped(x, f) && Shaped(y, f)
    ensures f.ArrS? ==> SameArray(x, y, mixed) == Yes(AgreeN(x, y))
    ensures f.ObjS? ==> SameObject(x, y, mixed) == Yes(AgreeN(x, y))
    ensures !f.ArrS? && !f.ObjS? ==> LooseEq(x, y, mixed) == AgreeN(x, y)
    decreases x, 2
  {
    if f.ArrS? {
      ArraysAgree(x, y, f, mixed);
    } else if f.ObjS? {
      ObjectsAgree(x, y, f, mixed);
    }
  }

  // isSameObject says Same exactly for agreement modulo null on the keys of the larger object.
  lemma {:induction false} ObjectsAgree(a: Value, b: Value, s: Schema, mixed: Coercion)
    requires Comparable(s) && Shaped(a, s) && Shaped(b, s)
    ensures SameObject(a, b, mixed) == Yes(AgreeN(a, b))
    decreases a, 1
  {
    if s.StrS? {
      StringsSame(a.p.s, b.p.s, mixed);
    } else {
      var c := Larger(a, b);
      var vs := EntryVerdicts(c, a, b, mixed);
      forall j | 0 <= j < |vs| ensures vs[j] == Yes(AgreeAt(a, b, c.entries[j].key)) {
        assert c.entries[j] in c.entries;
        EntryAgrees(c.entries[j].key, c, a, b, s, mixed);
      }
      var ok := k => AgreeAt(a, b, k);
      EntriesVerdict(c, vs, ok);
      ObjectsAgreeOnKeys(a, b, ok);
    }
  }

  lemma {:induction false} ObjectsAgreeOnKeys(a: Value, b: Value, ok: string -> bool)
    requires a.Obj? && b.Obj? && forall k :: ok(k) <==> AgreeAt(a, b, k)
    ensures OnKeys(Larger(a, b), ok) <==> AgreeN(a, b)
  {
  }

  ghost predicate TellsN(m: seq<seq<Verdict>>, xs: seq<Value>, ys: seq<Value>) {
    && |m| == |xs|
    && (forall i :: 0 <= i < |m| ==> |m[i]| == |ys|)
    && (forall i, j :: 0 <= i < |m| && 0 <= j < |ys| ==> m[i][j] == Yes(AgreeN(xs[i], ys[j])))
  }

  lemma {:induction false} SweepFindsPeers(m: seq<seq<Verdict>>, xs: seq<Value>, ys: seq<Value>)
    requires TellsN(m, xs, ys) && |xs| == |ys|
    ensures Sweep(m) == Yes(AgreeN(Arr(xs), Arr(ys)))
  {
    forall i | 0 <= i < |m| ensures Throws !in m[i] && (Same in m[i] <==> HasPeer(xs[i], ys)) {
      assert forall j :: 0 <= j < |ys| ==> m[i][j] == Yes(AgreeN(xs[i], ys[j]));
    }
    assert !AnyThrows(m);
    assert AllMatched(m) <==> AgreeN(Arr(xs), Arr(ys));
  }

  lemma {:induction false} ArraysAgree(a: Value, b: Value, s: Schema, mixed: Coercion)
    requires s.ArrS? && Shaped(a, s) && Shaped(b, s)
    ensures SameArray(a, b, mixed) == Yes(AgreeN(a, b))
    decreases a, 0
  {
    if |a.items| == |b.items| {
      var m := ItemVerdicts(a.items, b.items, mixed);
      forall i, j | 0 <= i < |a.items| && 0 <= j < |b.items|
        ensures m[i][j] == Yes(AgreeN(a.items[i], b.items[j]))
      {
        ObjectsAgree(a.items[i], b.items[j], s.item, mixed);
        assert m[i][j] == SameItem(a.items, i, b.items, j, mixed);
      }
      SweepFindsPeers(m, a.items, b.items);
    }
  }

  // --- When it decides equivalence --------------------------------------------------------

  lemma {:induction false} ReadsAt(a: Value, b: Value, k: string)
    requires a.Obj? && b.Obj?
    ensures k in Keys(a) ==> (a decreases to Get(a, k))
    ensures k !in Keys(a) ==> Get(a, k) == MISSING
    ensures k !in Keys(b) ==> Get(b, k) == MISSING
  {
    if k in Keys(a) {
      var e :| e in a.entries && e.key == k;
      var e' :| e' in a.entries && e'.key == k && e'.value == Find(a.entries, k);
    } else {
      assert forall e :: e in a.entries ==> e.key in Keys(a);
    }
    if k !in Keys(b) {
      assert forall e :: e in b.entries ==> e.key in Keys(b);
    }
  }

  // A difference that the comparison sees is always real.
  lemma {:induction false} EquivAgrees(x: Value, y: Value)
    requires EquivN(x, y)
    ensures AgreeN(x, y)
    decreases x
  {
    if !Nullish(x) {
      match x
      case Prim(_) =>
      case Obj(_) =>
        forall k | k in Keys(Larger(x, y)) ensures AgreeAt(x, y, k) {
          assert EquivAt(x, y, k);
          ReadsAt(x, y, k);
          if k in Keys(x) && k in Keys(y) {
            EquivAgrees(Get(x, k), Get(y, k));
          }
        }
      case Arr(xs) =>
        var p, q :| Inverse(p, q, |xs|) && MatchesN(xs, y.items, p);
        forall i | 0 <= i < |xs| ensures HasPeer(xs[i], y.items) {
          EquivAgrees(xs[i], y.items[p[i]]);
        }
    }
  }

  lemma {:induction false} ConformsShaped(v: Value, s: Schema)
    requires Conforms(v, s)
    ensures Shaped(v, s) && !Nullish(v)
    decreases v
  {
    match v
    case Prim(_) =>
    case Arr(xs) =>
      forall x | x in xs ensures Shaped(x, s.item) {
        ConformsShaped(x, s.item);
      }
    case Obj(es) =>
      forall e | e in es ensures Shaped(e.value, s.fields[e.key]) {
        ConformsShaped(e.value, s.fields[e.key]);
      }
  }

  // Where nothing is null, equivalence modulo null is equivalence.
  lemma {:induction false} EquivWithoutNulls(x: Value, y: Value, s: Schema)
    requires Conforms(x, s) && Conforms(y, s)
    ensures EquivN(x, y) <==> Equiv(x, y)
    decreases x, 2
  {
    match x
    case Prim(_) =>
    case Arr(xs) => ItemsWithoutNulls(xs, y.items, s.item);
    case Obj(_) => FieldsWithoutNulls(x, y, s.fields);
  }

  lemma {:induction false} ItemsWithoutNulls(xs: seq<Value>, ys: seq<Value>, s: Schema)
    requires (forall x :: x in xs ==> Conforms(x, s)) && (forall y :: y in ys ==> Conforms(y, s))
    ensures EquivN(Arr(xs), Arr(ys)) <==> Equiv(Arr(xs), Arr(ys))
    decreases xs, 1
  {
    if EquivN(Arr(xs), Arr(ys)) {
      var p, q :| Inverse(p, q, |xs|) && MatchesN(xs, ys, p);
      MatchesWithoutNulls(xs, ys, p, s);
    }
    if Equiv(Arr(xs), Arr(ys)) {
      var p, q :| Inverse(p, q, |xs|) && Matches(xs, ys, p);
      MatchesWithoutNulls(xs, ys, p, s);
    }
  }

  lemma {:induction false} MatchesWithoutNulls(xs: seq<Value>, ys: seq<Value>, p: seq<nat>, s: Schema)
    requires (forall x :: x in xs ==> Conforms(x, s)) && (forall y :: y in ys ==> Conforms(y, s))
    requires |p| == |xs|
    ensures MatchesN(xs, ys, p) <==> Matches(xs, ys, p)
    decreases xs, 0
  {
    forall i | 0 <= i < |xs| && p[i] < |ys| ensures EquivN(xs[i], ys[p[i]]) <==> Equiv(xs[i], ys[p[i]]) {
      EquivWithoutNulls(xs[i], ys[p[i]], s);
    }
  }

  lemma {:induction false} FieldsWithoutNulls(x: Value, y: Value, fields: map<string, Schema>)
    requires Conforms(x, ObjS(fields)) && Conforms(y, ObjS(fields))
    ensures EquivN(x, y) <==> Equiv(x, y)
    decreases x, 1
  {
    forall k | k in Keys(x) + Keys(y)
      ensures EquivAt(x, y, k) <==> k in Keys(x) && k in Keys(y) && Equiv(Get(x, k), Get(y, k))
    {
      FieldWithoutNulls(x, y, k, fields);
    }
    if EquivN(x, y) {
      assert forall k :: k in Keys(x) + Keys(y) ==> EquivAt(x, y, k);
      assert Keys(x) == Keys(y);
    }
  }

  lemma {:induction false} FieldWithoutNulls(x: Value, y: Value, k: string, fields: map<string, Schema>)
    requires Conforms(x, ObjS(fields)) && Conforms(y, ObjS(fields)) && k in Keys(x) + Keys(y)
    ensures EquivAt(x, y, k) <==> k in Keys(x) && k in Keys(y) && Equiv(Get(x, k), Get(y, k))
    decreases x, 0
  {
    ReadsAt(x, y, k);
    FieldsPresent(x, k, fields);
    FieldsPresent(y, k, fields);
    if k in Keys(x) && k in Keys(y) {
      EquivWithoutNulls(Get(x, k), Get(y, k), fields[k]);
    }
  }

  lemma {:induction false} FieldsPresent(v: Value, k: string, fields: map<string, Schema>)
    requires Conforms(v, ObjS(fields))
    ensures k in Keys(v) ==> k in fields && Conforms(Get(v, k), fields[k]) && !Nullish(Get(v, k))
  {
    ReadField(v, k, fields);
  }

  // Arrays, wherever objects hold them, contain schema values without nulls.
  ghost predicate FullArrays(v: Value, s: Schema)
    decreases v
  {
    s.ObjS? && v.Obj? ==>
      forall e :: e in v.entries && e.key in s.fields ==>
        (e.value.Arr? ==> Conforms(e.value, s.fields[e.key])) && (e.value.Obj? ==> FullArrays(e.value, s.fields[e.key]))
  }

  // No value of the object with fewer keys lies outside the keys of the other, at any depth.
  ghost predicate NothingHidden(a: Value, b: Value)
    requires a.Obj? && b.Obj?
    decreases a
  {
    && (forall k :: k in Keys(Smaller(a, b)) && k !in Keys(Larger(a, b)) ==> Nullish(Get(Smaller(a, b), k)))
    && (forall k :: k in Keys(a) && k in Keys(b) && Get(a, k).Obj? && Get(b, k).Obj? ==>
      NothingHidden(Get(a, k), Get(b, k)))
  }

  lemma {:induction false} ReadFullArrays(v: Value, k: string, s: Schema)
    requires s.ObjS? && Shaped(v, s) && FullArrays(v, s) && Tidy(v) && k in Keys(v)
    ensures k in s.fields && Tidy(Get(v, k))
    ensures Get(v, k).Arr? ==> Conforms(Get(v, k), s.fields[k])
    ensures Get(v, k).Obj? ==> FullArrays(Get(v, k), s.fields[k])
  {
    var e :| e in v.entries && e.key == k;
    var e' :| e' in v.entries && e'.key == k && e'.value == Find(v.entries, k);
  }

  lemma {:induction false} FullArraysAgree(x: Value, y: Value, f: Schema)
    requires f.ArrS? && Conforms(x, f) && Conforms(y, f) && Tidy(x)
    ensures AgreeN(x, y) <==> EquivN(x, y)
  {
    var none: Coercion := (v, w) => false;
    ConformsShaped(x, f);
    ConformsShaped(y, f);
    ArraysAgree(x, y, f, none);
    ArraysSame(x, y, f, none);
    EquivWithoutNulls(x, y, f);
  }

  // Among objects that agree on the visited keys, the equivalent ones are those that hide nothing.
  lemma {:induction false} HiddenExactly(a: Value, b: Value, s: Schema)
    requires s.ObjS? && Shaped(a, s) && Shaped(b, s)
    requires FullArrays(a, s) && FullArrays(b, s) && Tidy(a) && Tidy(b)
    requires AgreeN(a, b)
    ensures EquivN(a, b) <==> NothingHidden(a, b)
    decreases a
  {
    forall k | k in Keys(a) && k in Keys(b)
      ensures EquivAt(a, b, k) <==> (Get(a, k).Obj? && Get(b, k).Obj? ==> NothingHidden(Get(a, k), Get(b, k)))
    {
      FieldHidden(a, b, k, s);
    }
    forall k | k in Keys(a) + Keys(b) && !(k in Keys(a) && k in Keys(b))
      ensures EquivAt(a, b, k) <==> (k !in Keys(Larger(a, b)) ==> Nullish(Get(Smaller(a, b), k)))
    {
      ReadsAt(a, b, k);
      assert k in Keys(Larger(a, b)) ==> AgreeAt(a, b, k);
    }
  }

  lemma {:induction false} FieldHidden(a: Value, b: Value, k: string, s: Schema)
    requires s.ObjS? && Shaped(a, s) && Shaped(b, s)
    requires FullArrays(a, s) && FullArrays(b, s) && Tidy(a) && Tidy(b)
    requires AgreeN(a, b) && k in Keys(a) && k in Keys(b)
    ensures EquivAt(a, b, k) <==> (Get(a, k).Obj? && Get(b, k).Obj? ==> NothingHidden(Get(a, k), Get(b, k)))
    decreases a, 0
  {
    var x, y := Get(a, k), Get(b, k);
    ReadFieldN(a, k, s.fields);
    AgreeAtVisited(a, b, k);
    assert EquivAt(a, b, k) <==> EquivN(x, y);
    if x.Obj? && y.Obj? {
      ReadFieldN(b, k, s.fields);
      ReadFullArrays(a, k, s);
      ReadFullArrays(b, k, s);
      HiddenExactly(x, y, s.fields[k]);
    } else {
      FlatFieldSettled(a, b, k, s);
    }
  }

  lemma {:induction false} AgreeAtVisited(a: Value, b: Value, k: string)
    requires a.Obj? && b.Obj? && AgreeN(a, b) && k in Keys(a) && k in Keys(b)
    ensures AgreeN(Get(a, k), Get(b, k))
  {
    assert k in Keys(Larger(a, b));
    assert AgreeAt(a, b, k);
  }

  // Where the fields are not both objects, agreement is equivalence.
  lemma {:induction false} FlatFieldSettled(a: Value, b: Value, k: string, s: Schema)
    requires s.ObjS? && Shaped(a, s) && Shaped(b, s)
    requires FullArrays(a, s) && FullArrays(b, s) && Tidy(a) && Tidy(b)
    requires k in Keys(a) && k in Keys(b) && AgreeN(Get(a, k), Get(b, k))
    requires !(Get(a, k).Obj? && Get(b, k).Obj?)
    ensures EquivN(Get(a, k), Get(b, k))
  {
    var x, y := Get(a, k), Get(b, k);
    if x.Arr? {
      ReadFieldN(a, k, s.fields);
      ReadFullArrays(a, k, s);
      ReadFullArrays(b, k, s);
      assert Shaped(x, s.fields[k]);
      FullArraysAgree(x, y, s.fields[k]);
    }
  }

  // isSameObject decides equivalence modulo null exactly when nothing is hidden, or the visited
  // keys differ anyway.
  lemma {:induction false} NullsDecideExactly(a: Value, b: Value, s: Schema, mixed: Coercion)
    requires s.ObjS? && Shaped(a, s) && Shaped(b, s)
    requires FullArrays(a, s) && FullArrays(b, s) && Tidy(a) && Tidy(b)
    ensures SameObject(a, b, mixed) == Yes(EquivN(a, b)) <==> NothingHidden(a, b) || !AgreeN(a, b)
  {
    ObjectsAgree(a, b, s, mixed);
    if AgreeN(a, b) {
      HiddenExactly(a, b, s);
    } else if EquivN(a, b) {
      EquivAgrees(a, b);
    }
  }

  // --- Arrays of objects with null fields -------------------------------------------------

  lemma {:induction false} EquivNSymmetric(x: Value, y: Value)
    requires EquivN(x, y)
    ensures EquivN(y, x)
    decreases x
  {
    if !Nullish(x) {
      match x
      case Prim(_) =>
      case Obj(_) =>
        forall k | k in Keys(x) + Keys(y) ensures EquivAt(y, x, k) {
          assert EquivAt(x, y, k);
          ReadsAt(x, y, k);
          if k in Keys(x) && k in Keys(y) {
            EquivNSymmetric(Get(x, k), Get(y, k));
          }
        }
      case Arr(xs) =>
        var p, q :| Inverse(p, q, |xs|) && MatchesN(xs, y.items, p);
        forall j | 0 <= j < |xs| ensures EquivN(y.items[j], xs[q[j]]) {
          EquivNSymmetric(xs[q[j]], y.items[j]);
        }
        assert Inverse(q, p, |xs|) && MatchesN(y.items, xs, q);
    }
  }

  lemma {:induction false} EquivNTransitive(x: Value, y: Value, z: Value)
    requires EquivN(x, y) && EquivN(y, z)
    ensures EquivN(x, z)
    decreases x, 1
  {
    if !Nullish(x) {
      match x
      case Prim(_) =>
      case Obj(_) =>
        forall k | k in Keys(x) + Keys(z) ensures EquivAt(x, z, k) {
          EquivAtTransitive(x, y, z, k);
        }
      case Arr(xs) =>
        var n := |xs|;
        var p, q :| Inverse(p, q, n) && MatchesN(xs, y.items, p);
        var p', q' :| Inverse(p', q', n) && MatchesN(y.items, z.items, p');
        var pp, qq := Compose(p, q, p', q', n);
        forall i | 0 <= i < n ensures pp[i] < n && EquivN(xs[i], z.items[pp[i]]) {
          EquivNTransitive(xs[i], y.items[p[i]], z.items[pp[i]]);
        }
        assert MatchesN(xs, z.items, pp);
    }
  }

  lemma {:induction false} EquivAtTransitive(x: Value, y: Value, z: Value, k: string)
    requires x.Obj? && y.Obj? && z.Obj? && EquivN(x, y) && EquivN(y, z)
    ensures EquivAt(x, z, k)
    decreases x, 0
  {
    EquivReads(x, y, k);
    EquivReads(y, z, k);
    ReadsAt(x, z, k);
    if k in Keys(x) && k in Keys(z) && !Nullish(Get(x, k)) {
      EquivNTransitive(Get(x, k), Get(y, k), Get(z, k));
    }
  }

  // Equivalent objects read equivalently at every key.
  lemma {:induction false} EquivReads(x: Value, y: Value, k: string)
    requires x.Obj? && y.Obj? && EquivN(x, y)
    ensures EquivN(Get(x, k), Get(y, k))
  {
    ReadsAt(x, y, k);
    if k in Keys(x) + Keys(y) {
      assert EquivAt(x, y, k);
    }
  }

  ghost predicate NoRepeatsN(xs: seq<Value>) {
    forall i, j :: 0 <= i < j < |xs| ==> !EquivN(xs[i], xs[j])
  }

  // Nothing is hidden between a and b at any depth, items of arrays against items included, and
  // no compared array of a repeats an item.
  ghost predicate Revealed(a: Value, b: Value)
    decreases a
  {
    && (a.Obj? && b.Obj? ==>
      && (forall k :: k in Keys(Smaller(a, b)) && k !in Keys(Larger(a, b)) ==> Nullish(Get(Smaller(a, b), k)))
      && (forall k :: k in Keys(a) && k in Keys(b) ==> (ReadsAt(a, b, k); Revealed(Get(a, k), Get(b, k)))))
    && (a.Arr? && b.Arr? ==>
      && NoRepeatsN(a.items)
      && (forall i, j :: 0 <= i < |a.items| && 0 <= j < |b.items| ==> Revealed(a.items[i], b.items[j])))
  }

  lemma {:induction false} RevealedAgree(a: Value, b: Value)
    requires Revealed(a, b) && AgreeN(a, b)
    ensures EquivN(a, b)
    decreases a, 1
  {
    if !Nullish(a) {
      match a
      case Prim(_) =>
      case Obj(_) =>
        forall k | k in Keys(a) + Keys(b) ensures EquivAt(a, b, k) {
          ReadsAt(a, b, k);
          if k in Keys(a) && k in Keys(b) {
            AgreeAtVisited(a, b, k);
            RevealedAgree(Get(a, k), Get(b, k));
          } else {
            assert k in Keys(Larger(a, b)) ==> AgreeAt(a, b, k);
          }
        }
      case Arr(xs) => RevealedItems(xs, b.items);
    }
  }

  lemma {:induction false} RevealedItems(xs: seq<Value>, ys: seq<Value>)
    requires |xs| == |ys| && NoRepeatsN(xs) && forall i :: 0 <= i < |xs| ==> HasPeer(xs[i], ys)
    requires forall i, j :: 0 <= i < |xs| && 0 <= j < |ys| ==> Revealed(xs[i], ys[j])
    ensures EquivN(Arr(xs), Arr(ys))
    decreases xs, 0
  {
    var p: seq<nat> := [];
    while |p| < |xs|
      invariant |p| <= |xs|
      invariant forall i :: 0 <= i < |p| ==> p[i] < |ys| && EquivN(xs[i], ys[p[i]])
    {
      var i := |p|;
      assert HasPeer(xs[i], ys);
      var j: nat :| j < |ys| && AgreeN(xs[i], ys[j]);
      RevealedAgree(xs[i], ys[j]);
      p := p + [j];
    }
    forall i, j | 0 <= i < j < |p| ensures p[i] != p[j] {
      if p[i] == p[j] {
        EquivNSymmetric(xs[j], ys[p[j]]);
        EquivNTransitive(xs[i], ys[p[i]], xs[j]);
      }
    }
    var q := InjectionIsPermutation(p, |xs|);
    assert Inverse(p, q, |xs|) && MatchesN(xs, ys, p);
  }

  // On all objects with null fields, arrays of such objects included, isSameObject decides
  // equivalence wherever nothing is hidden and no array repeats an item.
  lemma {:induction false} RevealedDecide(a: Value, b: Value, s: Schema, mixed: Coercion)
    requires Comparable(s) && Shaped(a, s) && Shaped(b, s) && Revealed(a, b)
    ensures SameObject(a, b, mixed) == Yes(EquivN(a, b))
  {
    ObjectsAgree(a, b, s, mixed);
    if AgreeN(a, b) {
      RevealedAgree(a, b);
    } else if EquivN(a, b) {
      EquivAgrees(a, b);
    }
  }

  lemma {:induction false} RevealedArraysDecide(a: Value, b: Value, s: Schema, mixed: Coercion)
    requires s.ArrS? && Shaped(a, s) && Shaped(b, s) && Revealed(a, b)
    ensures SameArray(a, b, mixed) == Yes(EquivN(a, b))
  {
    ArraysAgree(a, b, s, mixed);
    if AgreeN(a, b) {
      RevealedAgree(a, b);
    } else if EquivN(a, b) {
      EquivAgrees(a, b);
    }
  }

  // --- Witnesses --------------------------------------------------------------------------

  // Two null fields pass for any one field of another name, so sameness is not transitive.
  lemma {:induction false} TwoNullsHideOne(j: string, k: string, z: string, v: Prim, w: Prim, mixed: Coercion)
    requires j != k && z != j && z != k
    ensures var nulls := Obj([Entry(j, Prim(Null)), Entry(k, Prim(Null))]);
      var (one, two) := (Obj([Entry(z, Prim(v))]), Obj([Entry(z, Prim(w))]));
      && SameObject(one, nulls, mixed) == Same && SameObject(nulls, two, mixed) == Same
      && (v.Num? && w.Num? && v != w ==> SameObject(one, two, mixed) == Different)
  {
    var nulls := Obj([Entry(j, Prim(Null)), Entry(k, Prim(Null))]);
    var one, two := Obj([Entry(z, Prim(v))]), Obj([Entry(z, Prim(w))]);
    NullsPass(j, k, one, mixed);
    NullsPass(j, k, two, mixed);
    TurnOf(z, two, one, two, mixed);
    assert EntryVerdicts(two, one, two, mixed) == [SameEntry(z, two, one, two, mixed)];
  }

  lemma {:induction false} NullsPass(j: string, k: string, one: Value, mixed: Coercion)
    requires j != k && one.Obj? && |one.entries| == 1 && one.entries[0].key != j && one.entries[0].key != k
    ensures var nulls := Obj([Entry(j, Prim(Null)), Entry(k, Prim(Null))]);
      SameObject(one, nulls, mixed) == Same && SameObject(nulls, one, mixed) == Same
  {
    var nulls := Obj([Entry(j, Prim(Null)), Entry(k, Prim(Null))]);
    assert one.entries[1..] == [] && Get(one, j) == MISSING && Get(one, k) == MISSING;
    assert nulls.entries[1..] == [Entry(k, Prim(Null))];
    assert Get(nulls, j) == Prim(Null) && Get(nulls, k) == Prim(Null);
    TurnOf(j, nulls, one, nulls, mixed);
    TurnOf(k, nulls, one, nulls, mixed);
    TurnOf(j, nulls, nulls, one, mixed);
    TurnOf(k, nulls, nulls, one, mixed);
    assert EntryVerdicts(nulls, one, nulls, mixed) == [Same, Same];
    assert EntryVerdicts(nulls, nulls, one, mixed) == [Same, Same];
    FirstFaultAt([Same, Same], 2);
  }

  // A null or undefined field is as good as none: adding one changes no comparison with the
  // object itself.
  lemma {:induction false} NullIsMissing(es: seq<Entry>, k: string, n: Value, s: Schema, mixed: Coercion)
    requires s.ObjS? && Shaped(Obj(es), s) && Nullish(n) && k in s.fields && k !in Keys(Obj(es))
    ensures SameObject(Obj(es + [Entry(k, n)]), Obj(es), mixed) == Same
    ensures SameObject(Obj(es), Obj(es + [Entry(k, n)]), mixed) == Same
  {
    var a, b := Obj(es + [Entry(k, n)]), Obj(es);
    AddedFieldShaped(es, k, n, s);
    forall l ensures AgreeAt(a, b, l) && AgreeAt(b, a, l) {
      AddedFieldAgrees(es, k, n, l);
    }
    assert AgreeN(a, b) && AgreeN(b, a);
    ObjectsAgree(a, b, s, mixed);
    ObjectsAgree(b, a, s, mixed);
  }

  lemma {:induction false} AddedFieldShaped(es: seq<Entry>, k: string, n: Value, s: Schema)
    requires s.ObjS? && Shaped(Obj(es), s) && Nullish(n) && k in s.fields && k !in Keys(Obj(es))
    ensures Shaped(Obj(es + [Entry(k, n)]), s)
  {
    forall i | 0 <= i < |es| ensures es[i].key != k {
      assert es[i] in es;
    }
    assert DistinctKeys(es + [Entry(k, n)]);
  }

  lemma {:induction false} AddedFieldAgrees(es: seq<Entry>, k: string, n: Value, l: string)
    requires Nullish(n) && k !in Keys(Obj(es))
    ensures AgreeAt(Obj(es + [Entry(k, n)]), Obj(es), l) && AgreeAt(Obj(es), Obj(es + [Entry(k, n)]), l)
  {
    FindAdded(es, k, n, l);
    AgreeReflexive(Find(es, l));
    var a, b := Obj(es + [Entry(k, n)]), Obj(es);
    ReadsAt(a, b, l);
    ReadsAt(b, a, l);
    AgreeAtReads(a, b, l);
    AgreeAtReads(b, a, l);
  }

  lemma {:induction false} FindAdded(es: seq<Entry>, k: string, n: Value, l: string)
    requires k !in Keys(Obj(es))
    ensures Find(es + [Entry(k, n)], l) == if l == k then n else Find(es, l)
    ensures l == k ==> Find(es, l) == MISSING
  {
    if es != [] {
      assert es[0] in es;
      assert (es + [Entry(k, n)])[1..] == es[1..] + [Entry(k, n)];
      assert forall e :: e in es[1..] ==> e in es;
      FindAdded(es[1..], k, n, l);
    }
  }

  lemma {:induction false} AgreeReflexive(x: Value)
    ensures AgreeN(x, x)
    decreases x
  {
    match x
    case Prim(_) =>
    case Arr(xs) =>
      forall i | 0 <= i < |xs| ensures HasPeer(xs[i], xs) {
        AgreeReflexive(xs[i]);
      }
    case Obj(_) =>
      forall k | k in Keys(x) ensures AgreeAt(x, x, k) {
        ReadsAt(x, x, k);
        AgreeReflexive(Get(x, k));
      }
  }
}
