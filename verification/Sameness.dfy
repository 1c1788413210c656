/**
 Deep comparison of plain JavaScript data, as written: isSameObject and
 isSameArrayValue call each other, walk strings as indexed characters, fall back on
 loose equality for primitives, and may raise a TypeError.
 */
module Sameness {
  import opened JsPrims
  import opened Decimals

  datatype Value =
    | Prim(p: Prim)
    | Arr(items: seq<Value>)
    | Obj(entries: seq<Entry>)  // own enumerable properties, in enumeration order

  datatype Entry = Entry(key: string, value: Value)

  datatype Verdict = Same | Different | Throws

  // Loose equality of values of different types follows coercion rules that are not
  // modelled: it is an arbitrary relation.
  type Coercion = (Value, Value) -> bool

  const MISSING: Value := Prim(Undefined)

  predicate IsTruthy(v: Value) {
    v.Prim? ==> Truthy(v.p)
  }

  // The entry list's value at key, or undefined.
  function Find(es: seq<Entry>, key: string): (v: Value)
    ensures (exists e :: e in es && e.key == key && e.value == v) || (v == MISSING && forall e :: e in es ==> e.key != key)
  {
    if es == [] then MISSING
    else if es[0].key == key then es[0].value
    else Find(es[1..], key)
  }

  function CharEntries(s: string): seq<Entry> {
    seq(|s|, i requires 0 <= i < |s| => Entry(Natural(i), Prim(Str([s[i]]))))
  }

  // What Object.keys and for-in visit: object properties, the characters of a string,
  // nothing for other primitives.
  function Entries(v: Value): seq<Entry> {
    match v
    case Obj(es) => es
    case Prim(Str(s)) => CharEntries(s)
    case _ => []
  }

  // v[key]
  function Get(v: Value, key: string): Value {
    match v
    case Obj(es) => Find(es, key)
    case Prim(Str(s)) => if key == "length" then Prim(Num(|s| as real)) else Find(CharEntries(s), key)
    case Arr(items) => if key == "length" then Prim(Num(|items| as real)) else MISSING
    case _ => MISSING
  }

  // v == w in JavaScript.
  function LooseEq(v: Value, w: Value, mixed: Coercion): bool {
    if v.Prim? && w.Prim? then
      var p, q := v.p, w.p;
      if p.NaN? || q.NaN? then false
      else if p.Undefined? || p.Null? || q.Undefined? || q.Null? then (p.Undefined? || p.Null?) && (q.Undefined? || q.Null?)
      else if (p.Bool? && q.Bool?) || (p.Num? && q.Num?) || (p.Str? && q.Str?) then p == q
      else mixed(v, w)
    else if v == MISSING || v == Prim(Null) || w == MISSING || w == Prim(Null) then false
    else mixed(v, w)
  }

  function Size(v: Value): nat {
    match v
    case Prim(_) => 1
    case Arr(items) => 1 + ItemsSize(items)
    case Obj(es) => 1 + EntriesSize(es)
  }

  function ItemsSize(items: seq<Value>): nat {
    if items == [] then 0 else Size(items[0]) + ItemsSize(items[1..])
  }

  function EntriesSize(es: seq<Entry>): nat {
    if es == [] then 0 else Size(es[0].value) + EntriesSize(es[1..])
  }

  lemma {:induction false} ItemSize(items: seq<Value>, i: nat)
    requires i < |items|
    ensures Size(items[i]) <= ItemsSize(items)
  {
    if i > 0 {
      ItemSize(items[1..], i - 1);
    }
  }

  lemma {:induction false} FindSize(es: seq<Entry>, key: string)
    ensures Find(es, key) == MISSING || Size(Find(es, key)) <= EntriesSize(es)
  {
    if es != [] && es[0].key != key {
      FindSize(es[1..], key);
    }
  }

  lemma {:induction false} GetSize(v: Value, key: string)
    ensures Size(Get(v, key)) <= Size(v)
    ensures !Get(v, key).Prim? ==> Size(Get(v, key)) < Size(v)
  {
    match v
    case Obj(es) => FindSize(es, key);
    case _ =>
  }

  // isSameObject.
  ghost function SameObject(a: Value, b: Value, mixed: Coercion): Verdict
    decreases Size(a) + Size(b), 3, 0
  {
    if IsTruthy(a) && !IsTruthy(b) then Different
    else if IsTruthy(b) && !IsTruthy(a) then Different
    else if IsTruthy(a) && IsTruthy(b) then
      if a.Arr? || b.Arr? then Different
      else
        var c := if |Entries(a)| > |Entries(b)| then a else b;
        FirstFault(EntryVerdicts(c, a, b, mixed))
    else Same
  }

  // The for-in loop stops at the first key whose verdict is not Same.
  function FirstFault(vs: seq<Verdict>): Verdict {
    if vs == [] then Same
    else if vs[0] == Same then FirstFault(vs[1..])
    else vs[0]
  }

  // The verdicts of the turns of that loop over c, the value with more keys.
  ghost function EntryVerdicts(c: Value, a: Value, b: Value, mixed: Coercion): (vs: seq<Verdict>)
    requires c == a || c == b
    decreases Size(a) + Size(b), 2, 0
  {
    var es := Entries(c);
    seq(|es|, i requires 0 <= i < |es| => SameEntry(es[i].key, c, a, b, mixed))
  }

  // One turn of that loop.
  ghost function SameEntry(key: string, c: Value, a: Value, b: Value, mixed: Coercion): Verdict
    requires c == a || c == b
    decreases Size(a) + Size(b), 1, 0
  {
    GetSize(a, key);
    GetSize(b, key);
    var cv := Get(c, key);
    if IsTruthy(cv) && cv.Arr? then SameArray(Get(a, key), Get(b, key), mixed)
    else if IsTruthy(cv) && cv.Obj? then SameObject(Get(a, key), Get(b, key), mixed)
    else if LooseEq(Get(a, key), Get(b, key), mixed) then Same else Different
  }

  // isSameArrayValue. Only its first argument is checked to be an array, so a string or an
  // object with a matching length is asked for forEach, which it does not have.
  ghost function SameArray(a: Value, b: Value, mixed: Coercion): Verdict
    decreases Size(a) + Size(b), 4, 0
  {
    if IsTruthy(a) && IsTruthy(b) && a.Arr? then
      if Get(b, "length") != Prim(Num(|a.items| as real)) then Different
      else if b.Arr? then Sweep(ItemVerdicts(a.items, b.items, mixed))
      else if a.items == [] then Same
      else Throws
    else Different
  }

  // What isSameObject says of every item of xs against every item of ys.
  ghost function ItemVerdicts(xs: seq<Value>, ys: seq<Value>, mixed: Coercion): (m: seq<seq<Verdict>>)
    decreases ItemsSize(xs) + ItemsSize(ys) + 1, 5, 0
  {
    seq(|xs|, i requires 0 <= i < |xs| =>
      seq(|ys|, j requires 0 <= j < |ys| => SameItem(xs, i, ys, j, mixed)))
  }

  ghost function SameItem(xs: seq<Value>, i: nat, ys: seq<Value>, j: nat, mixed: Coercion): Verdict
    requires i < |xs| && j < |ys|
    decreases ItemsSize(xs) + ItemsSize(ys) + 1, 4, 0
  {
    ItemSize(xs, i);
    ItemSize(ys, j);
    SameObject(xs[i], ys[j], mixed)
  }

  // Every item of the first array is looked for in the second. No pair is skipped, so any
  // error surfaces.
  function Sweep(m: seq<seq<Verdict>>): Verdict {
    if AnyThrows(m) then Throws
    else if AllMatched(m) then Same
    else Different
  }

  predicate AnyThrows(m: seq<seq<Verdict>>) {
    exists row :: row in m && Throws in row
  }

  predicate AllMatched(m: seq<seq<Verdict>>) {
    forall row :: row in m ==> Same in row
  }
}
