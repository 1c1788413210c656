/**
 What deep comparison decides. The reference is Equiv: equality of primitives, equal
 key sets with equivalent values, and arrays that are permutations of each other.
 */
module SamenessLaws {
  import opened JsPrims
  import opened Decimals
  import opened Counting
  import opened Sameness

  // The shape shared by the compared trees. Every field is optional.
  datatype Schema = BoolS | NumS | StrS | ArrS(item: Schema) | ObjS(fields: map<string, Schema>)

  ghost predicate DistinctKeys(es: seq<Entry>) {
    forall i, j :: 0 <= i < j < |es| ==> es[i].key != es[j].key
  }

  // No null, undefined or NaN; array items are objects or strings.
  ghost predicate Conforms(v: Value, s: Schema)
    decreases v
  {
    match s
    case BoolS => v.Prim? && v.p.Bool?
    case NumS => v.Prim? && v.p.Num?
    case StrS => v.Prim? && v.p.Str?
    case ArrS(item) => v.Arr? && (item.ObjS? || item.StrS?) && forall x :: x in v.items ==> Conforms(x, item)
    case ObjS(fields) =>
      v.Obj? && DistinctKeys(v.entries) && forall e :: e in v.entries ==> e.key in fields && Conforms(e.value, fields[e.key])
  }

  ghost function Keys(v: Value): set<string> {
    set e | e in Entries(v) :: e.key
  }

  ghost predicate Equiv(v: Value, w: Value)
    decreases v
  {
    match v
    case Prim(p) => w == v
    case Obj(es) => w.Obj? && Keys(v) == Keys(w) && forall k :: k in Keys(v) ==> Equiv(Get(v, k), Get(w, k))
    case Arr(xs) => w.Arr? && |xs| == |w.items| && exists p, q :: Inverse(p, q, |xs|) && Matches(xs, w.items, p)
  }

  ghost predicate Matches(xs: seq<Value>, ys: seq<Value>, p: seq<nat>)
    requires |p| == |xs|
    decreases xs
  {
    forall i :: 0 <= i < |xs| ==> p[i] < |ys| && Equiv(xs[i], ys[p[i]])
  }

  ghost predicate NoRepeats(xs: seq<Value>) {
    forall i, j :: 0 <= i < j < |xs| ==> !Equiv(xs[i], xs[j])
  }

  // No array anywhere in v holds two equivalent items.
  ghost predicate Tidy(v: Value) {
    match v
    case Prim(_) => true
    case Arr(xs) => NoRepeats(xs) && forall x :: x in xs ==> Tidy(x)
    case Obj(es) => forall e :: e in es ==> Tidy(e.value)
  }

  lemma {:induction false} EquivReflexive(v: Value)
    ensures Equiv(v, v)
  {
    match v
    case Prim(_) =>
    case Obj(es) =>
      forall k | k in Keys(v) ensures Equiv(Get(v, k), Get(v, k)) {
        EquivReflexive(Get(v, k));
      }
    case Arr(xs) =>
      var id := seq<nat>(|xs|, (i: nat) => i);
      forall i | 0 <= i < |xs| ensures Equiv(xs[i], xs[id[i]]) {
        EquivReflexive(xs[i]);
      }
      assert Inverse(id, id, |xs|) && Matches(xs, xs, id);
  }

  lemma {:induction false} EquivSymmetric(v: Value, w: Value)
    requires Equiv(v, w)
    ensures Equiv(w, v)
    decreases v
  {
    match v
    case Prim(_) =>
    case Obj(es) =>
      forall k | k in Keys(w) ensures Equiv(Get(w, k), Get(v, k)) {
        EquivSymmetric(Get(v, k), Get(w, k));
      }
    case Arr(xs) =>
      var p, q :| Inverse(p, q, |xs|) && Matches(xs, w.items, p);
      forall j | 0 <= j < |xs| ensures Equiv(w.items[j], xs[q[j]]) {
        EquivSymmetric(xs[q[j]], w.items[j]);
      }
      assert Inverse(q, p, |xs|) && Matches(w.items, xs, q);
  }

  lemma {:induction false} Compose(p: seq<nat>, q: seq<nat>, p': seq<nat>, q': seq<nat>, n: nat)
    returns (pp: seq<nat>, qq: seq<nat>)
    requires Inverse(p, q, n) && Inverse(p', q', n)
    ensures Inverse(pp, qq, n)
    ensures forall i :: 0 <= i < n ==> pp[i] == p'[p[i]]
  {
    pp := seq<nat>(n, (i: nat) requires i < n => p'[p[i]]);
    qq := seq<nat>(n, (i: nat) requires i < n => q[q'[i]]);
  }

  lemma {:induction false} EquivTransitive(u: Value, v: Value, w: Value)
    requires Equiv(u, v) && Equiv(v, w)
    ensures Equiv(u, w)
    decreases u
  {
    match u
    case Prim(_) =>
    case Obj(es) =>
      forall k | k in Keys(u) ensures Equiv(Get(u, k), Get(w, k)) {
        EquivTransitive(Get(u, k), Get(v, k), Get(w, k));
      }
    case Arr(xs) =>
      var n := |xs|;
      var p, q :| Inverse(p, q, n) && Matches(xs, v.items, p);
      var p', q' :| Inverse(p', q', n) && Matches(v.items, w.items, p');
      var pp, qq := Compose(p, q, p', q', n);
      forall i | 0 <= i < n ensures pp[i] < n && Equiv(xs[i], w.items[pp[i]]) {
        EquivTransitive(xs[i], v.items[p[i]], w.items[pp[i]]);
      }
      assert Matches(xs, w.items, pp);
  }

  function Yes(b: bool): Verdict {
    if b then Same else Different
  }

  ghost predicate AllSame(vs: seq<Verdict>) {
    forall j :: 0 <= j < |vs| ==> vs[j] == Same
  }

  // Without errors, the for-in loop accepts exactly when every key does.
  lemma {:induction false} LoopVerdict(vs: seq<Verdict>)
    requires Throws !in vs
    ensures FirstFault(vs) == Yes(AllSame(vs))
  {
    if vs != [] {
      LoopVerdict(vs[1..]);
      assert forall j :: 0 < j < |vs| ==> vs[j] == vs[1..][j - 1];
    }
  }

  lemma {:induction false} FirstFaultAt(vs: seq<Verdict>, i: nat)
    requires i <= |vs| && forall j :: 0 <= j < i ==> vs[j] == Same
    ensures i == |vs| ==> FirstFault(vs) == Same
    ensures i < |vs| && vs[i] != Same ==> FirstFault(vs) == vs[i]
  {
    if i > 0 {
      FirstFaultAt(vs[1..], i - 1);
    }
  }

  lemma {:induction false} CharAt(s: string, i: nat)
    ensures Get(Prim(Str(s)), Natural(i)) == if i < |s| then Prim(Str([s[i]])) else MISSING
  {
    NaturalDigits(i);
    assert Natural(i)[0] in Natural(i);
    assert "length"[0] == 'l';
    var es := CharEntries(s);
    if i < |s| {
      assert es[i] in es;
    }
    var v := Find(es, Natural(i));
    if e :| e in es && e.key == Natural(i) && e.value == v {
      var j: nat :| j < |es| && es[j] == e;
      NaturalInjective(i, j);
    }
  }

  lemma {:induction false} CharSame(s: string, t: string, i: nat, c: Value, mixed: Coercion)
    requires c == Prim(Str(s)) || c == Prim(Str(t))
    requires i < |c.p.s|
    ensures SameEntry(Natural(i), c, Prim(Str(s)), Prim(Str(t)), mixed) == Yes(i < |s| && i < |t| && s[i] == t[i])
  {
    CharAt(s, i);
    CharAt(t, i);
    assert i < |s| && i < |t| ==> ([s[i]] == [t[i]] <==> s[i] == t[i]);
  }

  // Strings, compared character by character, are the same exactly when equal.
  lemma {:induction false} StringsSame(s: string, t: string, mixed: Coercion)
    ensures SameObject(Prim(Str(s)), Prim(Str(t)), mixed) == Yes(s == t)
  {
    if s != "" && t != "" {
      var a, b := Prim(Str(s)), Prim(Str(t));
      var c := if |s| > |t| then a else b;
      var vs := EntryVerdicts(c, a, b, mixed);
      forall j | 0 <= j < |vs| ensures vs[j] == Yes(j < |s| && j < |t| && s[j] == t[j]) {
        CharSame(s, t, j, c, mixed);
      }
      LoopVerdict(vs);
      if s != t {
        var j := FirstDifference(s, t, |vs|);
        assert vs[j] == Different;
      }
    }
  }

  lemma {:induction false} FirstDifference(s: string, t: string, n: nat) returns (j: nat)
    requires s != t && |s| <= n && |t| <= n && (n == |s| || n == |t|)
    ensures j < n && !(j < |s| && j < |t| && s[j] == t[j])
  {
    j := 0;
    while j < |s| && j < |t| && s[j] == t[j]
      invariant j <= |s| && j <= |t| && s[..j] == t[..j]
    {
      j := j + 1;
    }
    assert j == |s| ==> s == t[..j];
    assert j == |t| ==> t == s[..j];
  }

  // Reading a key of an object that conforms to a schema.
  lemma {:induction false} ReadField(v: Value, k: string, fields: map<string, Schema>)
    requires Conforms(v, ObjS(fields))
    ensures k !in Keys(v) ==> Get(v, k) == MISSING
    ensures k in Keys(v) ==> k in fields && Conforms(Get(v, k), fields[k])
    ensures k in Keys(v) && Tidy(v) ==> Tidy(Get(v, k))
    ensures k in Keys(v) ==> (v decreases to Get(v, k))
  {
    if k in Keys(v) {
      var e :| e in v.entries && e.key == k;
      var e' :| e' in v.entries && e'.key == k && e'.value == Find(v.entries, k);
    }
  }

  lemma {:induction false} KeyCount(v: Value)
    requires v.Obj? && DistinctKeys(v.entries)
    ensures |Keys(v)| == |v.entries|
  {
    var names := seq(|v.entries|, i requires 0 <= i < |v.entries| => v.entries[i].key);
    DistinctCardinality(names);
    forall k | k in Keys(v) ensures k in Elements(names) {
      var e :| e in v.entries && e.key == k;
      var i :| 0 <= i < |v.entries| && v.entries[i] == e;
      assert names[i] == k;
    }
    assert Keys(v) == Elements(names);
  }

  // m tells which items of xs and ys are equivalent.
  ghost predicate Tells(m: seq<seq<Verdict>>, xs: seq<Value>, ys: seq<Value>) {
    && |m| == |xs|
    && (forall i :: 0 <= i < |m| ==> |m[i]| == |ys|)
    && (forall i, j :: 0 <= i < |m| && 0 <= j < |ys| ==> m[i][j] == Yes(Equiv(xs[i], ys[j])))
  }

  lemma {:induction false} NoErrors(m: seq<seq<Verdict>>, xs: seq<Value>, ys: seq<Value>)
    requires Tells(m, xs, ys)
    ensures !AnyThrows(m)
  {
    forall row | row in m ensures Throws !in row {
      var i :| 0 <= i < |m| && m[i] == row;
      assert forall j :: 0 <= j < |ys| ==> m[i][j] == Yes(Equiv(xs[i], ys[j]));
    }
  }

  // The two directions of the search through the second array.
  lemma {:induction false} ItemsSame(m: seq<seq<Verdict>>, xs: seq<Value>, ys: seq<Value>)
    requires |xs| == |ys| && NoRepeats(xs) && Tells(m, xs, ys)
    ensures Sweep(m) == Yes(Equiv(Arr(xs), Arr(ys)))
  {
    if Equiv(Arr(xs), Arr(ys)) {
      var p, q :| Inverse(p, q, |xs|) && Matches(xs, ys, p);
      forall i | 0 <= i < |m| ensures Same in m[i] {
        assert m[i][p[i]] == Yes(Equiv(xs[i], ys[p[i]]));
      }
    }
    NoErrors(m, xs, ys);
    if AllMatched(m) {
      var p := Partners(m, xs, ys);
      forall i, j | 0 <= i < j < |p| ensures p[i] != p[j] {
        if p[i] == p[j] {
          EquivSymmetric(xs[j], ys[p[j]]);
          EquivTransitive(xs[i], ys[p[i]], xs[j]);
        }
      }
      var q := InjectionIsPermutation(p, |xs|);
      assert Inverse(p, q, |xs|) && Matches(xs, ys, p);
    }
  }

  lemma {:induction false} Partners(m: seq<seq<Verdict>>, xs: seq<Value>, ys: seq<Value>) returns (p: seq<nat>)
    requires Tells(m, xs, ys) && AllMatched(m)
    ensures |p| == |xs|
    ensures forall i :: 0 <= i < |p| ==> p[i] < |ys| && Equiv(xs[i], ys[p[i]])
  {
    p := [];
    while |p| < |xs|
      invariant |p| <= |xs|
      invariant forall i :: 0 <= i < |p| ==> p[i] < |ys| && Equiv(xs[i], ys[p[i]])
    {
      assert m[|p|] in m;
      var j: nat :| j < |ys| && m[|p|][j] == Same;
      p := p + [j];
    }
  }

  ghost predicate Comparable(s: Schema) {
    s.ObjS? || s.StrS?
  }

  // isSameObject decides equivalence.
  lemma {:induction false} ObjectsSame(a: Value, b: Value, s: Schema, mixed: Coercion)
    requires Comparable(s)
    requires Conforms(a, s) && Conforms(b, s) && Tidy(a)
    ensures SameObject(a, b, mixed) == Yes(Equiv(a, b))
    decreases a, 1
  {
    if s.StrS? {
      StringsSame(a.p.s, b.p.s, mixed);
    } else {
      var c := if |Entries(a)| > |Entries(b)| then a else b;
      var vs := EntryVerdicts(c, a, b, mixed);
      forall j | 0 <= j < |vs| ensures vs[j] == Yes(Agree(a, b, c.entries[j].key)) {
        assert c.entries[j] in c.entries;
        EntrySame(c.entries[j].key, c, a, b, s, mixed);
      }
      var ok := k => Agree(a, b, k);
      EntriesVerdict(c, vs, ok);
      assert OnKeys(c, ok) <==> AgreeOnKeys(c, a, b);
      AgreementIsEquiv(c, a, b);
    }
  }

  ghost predicate Agree(a: Value, b: Value, k: string) {
    k in Keys(a) && k in Keys(b) && Equiv(Get(a, k), Get(b, k))
  }

  ghost predicate AgreeOnKeys(c: Value, a: Value, b: Value) {
    forall k :: k in Keys(c) ==> Agree(a, b, k)
  }

  ghost predicate OnKeys(c: Value, ok: string -> bool) {
    forall k :: k in Keys(c) ==> ok(k)
  }

  // The loop's verdict, when the turn for key k accepts exactly if ok(k).
  lemma {:induction false} EntriesVerdict(c: Value, vs: seq<Verdict>, ok: string -> bool)
    requires c.Obj? && |vs| == |c.entries|
    requires forall j :: 0 <= j < |vs| ==> vs[j] == Yes(ok(c.entries[j].key))
    ensures FirstFault(vs) == Yes(OnKeys(c, ok))
  {
    LoopVerdict(vs);
    if AllSame(vs) {
      forall k | k in Keys(c) ensures ok(k) {
        var e :| e in c.entries && e.key == k;
        var j :| 0 <= j < |vs| && c.entries[j] == e;
        assert vs[j] == Same;
      }
    } else {
      var j :| 0 <= j < |vs| && vs[j] != Same;
      assert c.entries[j] in c.entries;
      assert c.entries[j].key in Keys(c);
    }
  }

  // Checking only the keys of the larger object is enough.
  lemma {:induction false} AgreementIsEquiv(c: Value, a: Value, b: Value)
    requires a.Obj? && b.Obj? && DistinctKeys(a.entries) && DistinctKeys(b.entries)
    requires c == if |a.entries| > |b.entries| then a else b
    ensures AgreeOnKeys(c, a, b) <==> Equiv(a, b)
  {
    KeyCount(a);
    KeyCount(b);
    if AgreeOnKeys(c, a, b) {
      var d := if |a.entries| > |b.entries| then b else a;
      forall k | k in Keys(c) ensures k in Keys(d) {
        assert Agree(a, b, k);
      }
      SubsetSize(Keys(c), Keys(d));
      forall k | k in Keys(a) ensures Equiv(Get(a, k), Get(b, k)) {
        assert Agree(a, b, k);
      }
    }
  }

  lemma {:induction false} EntrySame(k: string, c: Value, a: Value, b: Value, s: Schema, mixed: Coercion)
    requires s.ObjS? && Conforms(a, s) && Conforms(b, s) && Tidy(a)
    requires c == a || c == b
    requires k in Keys(c)
    ensures SameEntry(k, c, a, b, mixed) == Yes(Agree(a, b, k))
    decreases a, 0
  {
    ReadField(a, k, s.fields);
    ReadField(b, k, s.fields);
    var x, y := Get(a, k), Get(b, k);
    if k in Keys(a) && k in Keys(b) {
      FieldSame(x, y, s.fields[k], mixed);
    } else {
      FieldMissing(if k in Keys(a) then x else y, s.fields[k], mixed);
    }
  }

  // A field against none.
  lemma {:induction false} FieldMissing(x: Value, f: Schema, mixed: Coercion)
    requires Conforms(x, f)
    ensures f.ArrS? ==> SameArray(x, MISSING, mixed) == SameArray(MISSING, x, mixed) == Different
    ensures f.ObjS? ==> SameObject(x, MISSING, mixed) == SameObject(MISSING, x, mixed) == Different
    ensures !f.ArrS? && !f.ObjS? ==> !LooseEq(x, MISSING, mixed) && !LooseEq(MISSING, x, mixed)
  {
  }

  // One pair of field values: each kind of field goes to its own comparison.
  lemma {:induction false} FieldSame(x: Value, y: Value, f: Schema, mixed: Coercion)
    requires Conforms(x, f) && Conforms(y, f) && Tidy(x)
    ensures f.ArrS? ==> SameArray(x, y, mixed) == Yes(Equiv(x, y))
    ensures f.ObjS? ==> SameObject(x, y, mixed) == Yes(Equiv(x, y))
    ensures !f.ArrS? && !f.ObjS? ==> LooseEq(x, y, mixed) == Equiv(x, y)
    decreases x, 2
  {
    if f.ArrS? {
      ArraysSame(x, y, f, mixed);
    } else if f.ObjS? {
      ObjectsSame(x, y, f, mixed);
    }
  }

  // isSameArrayValue decides whether one array is a permutation of the other.
  lemma {:induction false} ArraysSame(a: Value, b: Value, s: Schema, mixed: Coercion)
    requires s.ArrS?
    requires Conforms(a, s) && Conforms(b, s) && Tidy(a)
    ensures SameArray(a, b, mixed) == Yes(Equiv(a, b))
    decreases a, 0
  {
    if |a.items| == |b.items| {
      var m := ItemVerdicts(a.items, b.items, mixed);
      forall i, j | 0 <= i < |a.items| && 0 <= j < |b.items|
        ensures m[i][j] == Yes(Equiv(a.items[i], b.items[j]))
      {
        ObjectsSame(a.items[i], b.items[j], s.item, mixed);
        assert m[i][j] == SameItem(a.items, i, b.items, j, mixed);
      }
      ItemsSame(m, a.items, b.items);
    }
  }
}
