/**
 Storage sizes: scaling by 1024 along a list of units that the recursion shifts, the ladder of
 closed conditions, and the way back to bytes. Amounts are exact rationals.
 */
module Units {

  const STORAGE_MULTIPLE := 1024.0

  const QUOTA_UNITS := ["Byte", "KiB", "MiB", "GiB", "TiB"]

  function Pow(n: nat): (r: real)
    ensures r >= 1.0
  {
    if n == 0 then 1.0 else STORAGE_MULTIPLE * Pow(n - 1)
  }

  // x brought k units up.
  function Scaled(x: real, k: nat): real
    decreases k
  {
    if k == 0 then x else Scaled(x / STORAGE_MULTIPLE, k - 1)
  }

  // x brought k units down.
  function Times(x: real, k: nat): real
    decreases k
  {
    if k == 0 then x else Times(x, k - 1) * STORAGE_MULTIPLE
  }

  lemma {:induction false} TimesIsPower(x: real, k: nat)
    ensures Times(x, k) == x * Pow(k)
    decreases k
  {
    if k > 0 {
      TimesIsPower(x, k - 1);
      assert x * Pow(k) == x * Pow(k - 1) * STORAGE_MULTIPLE;
    }
  }

  // Scaling conserves the amount.
  lemma {:induction false} ScaledConserves(x: real, k: nat)
    ensures Times(Scaled(x, k), k) == x
    decreases k
  {
    if k > 0 {
      ScaledConserves(x / STORAGE_MULTIPLE, k - 1);
    }
  }

  // Math.round: half up.
  function Round(x: real): int {
    (x + 0.5).Floor
  }

  // `${x}e${d}`: the decimal point moved d places.
  function ShiftUp(x: real, d: nat): real
    decreases d
  {
    if d == 0 then x else ShiftUp(x * 10.0, d - 1)
  }

  // `${x}e-${d}`
  function ShiftDown(x: real, d: nat): real
    decreases d
  {
    if d == 0 then x else ShiftDown(x, d - 1) / 10.0
  }

  // roundDecimals(count, decimals), and toFixed on the amounts below.
  function RoundDecimals(count: real, decimals: nat): real {
    ShiftDown(Round(ShiftUp(count, decimals)) as real, decimals)
  }

  // x % 1024 === 0
  predicate Divisible(x: real) {
    (x / STORAGE_MULTIPLE).Floor as real == x / STORAGE_MULTIPLE
  }

  class UnitList {
    var units: seq<string>

    constructor (units: seq<string>)
      ensures this.units == units
    {
      this.units := units;
    }

    method Shift()
      modifies this
      ensures units == if old(units) == [] then [] else old(units)[1..]
    {
      if units != [] {
        units := units[1..];
      }
    }
  }

  // A displayed amount with its unit.
  datatype Size = Size(amount: real, unit: string)

  // How often getSuitableUnit shifts when it starts with n units.
  function Steps(count: real, n: nat): (k: nat)
    ensures n > 0 ==> k < n
    ensures n == 0 ==> k == 0
    decreases n
  {
    if n > 1 && count / STORAGE_MULTIPLE >= 1.0 then 1 + Steps(count / STORAGE_MULTIPLE, n - 1) else 0
  }

  // getSuitableUnit. Shifting stops at the last unit; an empty list counts in bytes.
  method GetSuitableUnit(count: real, list: UnitList) returns (r: Size)
    modifies list
    ensures var k := Steps(count, |old(list.units)|);
      && list.units == old(list.units)[k..]
      && r == Size(RoundDecimals(Scaled(count, k), 2), if list.units == [] then QUOTA_UNITS[0] else list.units[0])
    decreases |list.units|
  {
    if |list.units| > 0 {
      var unit := list.units[0];
      if count / STORAGE_MULTIPLE >= 1.0 && |list.units| > 1 {
        list.Shift();
        r := GetSuitableUnit(count / STORAGE_MULTIPLE, list);
        return;
      }
      ZeroRounds();
      return if count != 0.0 then Size(RoundDecimals(count, 2), unit) else Size(0.0, unit);
    }
    return Size(RoundDecimals(count, 2), QUOTA_UNITS[0]);
  }

  lemma {:induction false} ZeroRounds()
    ensures RoundDecimals(0.0, 2) == 0.0
  {
  }

  // --- getByte and validateLimit --------------------------------------------------------

  datatype Flag = NotSet | Index(i: nat)

  // flagIndex after the first n units.
  function FlagAfter(unit: string, n: nat): (f: Flag)
    requires n <= |QUOTA_UNITS|
    ensures f.Index? ==> f.i < n && QUOTA_UNITS[f.i] == unit
    ensures f == NotSet ==> forall i :: 0 <= i < n ==> QUOTA_UNITS[i] != unit
  {
    if n == 0 then NotSet
    else if QUOTA_UNITS[n - 1] == unit then Index(n - 1)
    else FlagAfter(unit, n - 1)
  }

  // The power of 1024 that getByte multiplies by. Index 0 counts as "not found yet", so bytes
  // are multiplied once for every later unit, and an unknown unit for all five.
  function ByteExponent(unit: string): nat {
    match FlagAfter(unit, |QUOTA_UNITS|)
    case NotSet => |QUOTA_UNITS|
    case Index(i) => if i == 0 then |QUOTA_UNITS| - 1 else i
  }

  // The reduce over QuotaUnits, whose callback sets flagIndex and tests it with !flagIndex.
  method GetByte(count: real, unit: string) returns (r: real)
    ensures r == Times(count, ByteExponent(unit))
  {
    UnitNames();
    var flagIndex := NotSet;
    ghost var power: nat := 0;
    r := count;
    for index := 0 to |QUOTA_UNITS|
      invariant flagIndex == FlagAfter(unit, index)
      invariant power == if flagIndex == NotSet then index else if flagIndex.i == 0 then index - 1 else flagIndex.i
      invariant r == Times(count, power)
    {
      if QUOTA_UNITS[index] == unit {
        flagIndex := Index(index);
      } else if flagIndex == NotSet || flagIndex.i == 0 {
        r := r * STORAGE_MULTIPLE;
        power := power + 1;
      }
    }
  }

  lemma {:induction false} UnitNames()
    ensures forall i, j :: 0 <= i < j < |QUOTA_UNITS| ==> QUOTA_UNITS[i] != QUOTA_UNITS[j]
  {
    assert "Byte"[0] == 'B' && "KiB"[0] == 'K' && "MiB"[0] == 'M' && "GiB"[0] == 'G' && "TiB"[0] == 'T';
  }

  lemma {:induction false} ExponentOf(k: nat)
    requires k < |QUOTA_UNITS|
    ensures ByteExponent(QUOTA_UNITS[k]) == if k == 0 then 4 else k
  {
    UnitNames();
  }

  lemma {:induction false} PowIncreases(j: nat, k: nat)
    requires j < k
    ensures Pow(j) < Pow(k)
    decreases k
  {
    if j < k - 1 {
      PowIncreases(j, k - 1);
    }
  }

  lemma {:induction false} TimesGrows(x: real, j: nat, k: nat)
    requires x != 0.0 && j < k
    ensures Times(x, j) != 0.0
    ensures x > 0.0 ==> 0.0 < Times(x, j) < Times(x, k)
    ensures x < 0.0 ==> 0.0 > Times(x, j) > Times(x, k)
    decreases k
  {
    if j < k - 1 {
      TimesGrows(x, j, k - 1);
    } else if j > 0 {
      TimesGrows(x, j - 1, j);
    }
  }

  // getByte is right exactly for the units above bytes, and for nothing at all.
  lemma {:induction false} GetByteExactly(count: real, k: nat)
    requires k < |QUOTA_UNITS|
    ensures Times(count, ByteExponent(QUOTA_UNITS[k])) == Times(count, k) <==> k >= 1 || count == 0.0
  {
    ExponentOf(k);
    if count != 0.0 {
      TimesGrows(count, 0, 4);
    } else {
      TimesZero(4);
    }
  }

  lemma {:induction false} TimesZero(k: nat)
    ensures Times(0.0, k) == 0.0
  {
    if k > 0 {
      TimesZero(k - 1);
    }
  }

  // validateLimit: over 1024 TiB is an error.
  predicate RejectsLimit(count: real, unit: string) {
    Times(count, ByteExponent(unit)) > Pow(5)
  }

  lemma {:induction false} TimesCompares(count: real, m: nat, k: nat)
    ensures Times(count, k) > Pow(m + k) <==> count > Pow(m)
    decreases k
  {
    if k > 0 {
      TimesCompares(count, m, k - 1);
    }
  }

  // The limit in each unit: 1024 to the number of units left above it. Bytes are judged as TiB,
  // and an unknown unit may not exceed one.
  lemma {:induction false} LimitExactly(count: real, unit: string)
    ensures RejectsLimit(count, unit) <==> count > Pow(5 - ByteExponent(unit))
    ensures forall k :: 1 <= k < |QUOTA_UNITS| ==> ByteExponent(QUOTA_UNITS[k]) == k
    ensures ByteExponent("Byte") == 4
    ensures unit !in QUOTA_UNITS ==> ByteExponent(unit) == 5
  {
    TimesCompares(count, 5 - ByteExponent(unit), ByteExponent(unit));
    forall k | 1 <= k < |QUOTA_UNITS| ensures ByteExponent(QUOTA_UNITS[k]) == k {
      ExponentOf(k);
    }
    ExponentOf(0);
  }

  // --- GetIntegerAndUnit ----------------------------------------------------------------

  // How many units the recursion drops from the first and from the second list when it starts
  // with n units in the first.
  function Drops(hard: real, used: real, n: nat): (nat, nat)
    decreases n
  {
    if n > 1 && Divisible(hard) then
      if used / STORAGE_MULTIPLE >= 1.0 then
        var (k, j) := Drops(hard / STORAGE_MULTIPLE, used / STORAGE_MULTIPLE, n - 1);
        (k + 1, j + 1)
      else
        var (k, j) := Drops(hard / STORAGE_MULTIPLE, used, n - 1);
        (k + 1, j)
    else (0, 0)
  }

  // The returned record, or undefined when there are no units, or the TypeError raised by
  // reading the first unit of an empty second list.
  datatype Parts = Parts(hard: real, hardUnit: string, used: real, usedUnit: string) | NoParts | TypeErr

  function Rest(units: seq<string>, k: nat): seq<string> {
    if k <= |units| then units[k..] else []
  }

  function PartsOf(hard: real, units: seq<string>, used: real, others: seq<string>): Parts {
    var (k, j) := Drops(hard, used, |units|);
    var (us, os) := (Rest(units, k), Rest(others, j));
    if us == [] then NoParts
    else if os == [] then TypeErr
    else Parts(Scaled(hard, k), us[0], RoundDecimals(Scaled(used, j), 2), os[0])
  }

  // The same for one array passed as both lists: a step that shifts both shifts it twice.
  function SharedDrops(hard: real, used: real, n: nat): (nat, nat)
    decreases n
  {
    if n > 1 && Divisible(hard) then
      if used / STORAGE_MULTIPLE >= 1.0 then
        var (k, j) := SharedDrops(hard / STORAGE_MULTIPLE, used / STORAGE_MULTIPLE, n - 2);
        (k + 1, j + 1)
      else
        var (k, j) := SharedDrops(hard / STORAGE_MULTIPLE, used, n - 1);
        (k + 1, j)
    else (0, 0)
  }

  function SharedPartsOf(hard: real, units: seq<string>, used: real): Parts {
    var (k, j) := SharedDrops(hard, used, |units|);
    var us := Rest(units, k + j);
    if us == [] then NoParts else Parts(Scaled(hard, k), us[0], RoundDecimals(Scaled(used, j), 2), us[0])
  }

  lemma {:induction false} RestTwice(units: seq<string>, k: nat, j: nat)
    ensures Rest(Rest(units, k), j) == Rest(units, k + j)
  {
  }

  // What the calls return and what they leave in their lists.
  function Apart(hard: real, units: seq<string>, used: real, others: seq<string>): (Parts, seq<string>, seq<string>) {
    var (k, j) := Drops(hard, used, |units|);
    (PartsOf(hard, units, used, others), Rest(units, k), Rest(others, j))
  }

  function Shared(hard: real, units: seq<string>, used: real): (Parts, seq<string>) {
    var (k, j) := SharedDrops(hard, used, |units|);
    (SharedPartsOf(hard, units, used), Rest(units, k + j))
  }

  lemma {:induction false} ApartStep(hard: real, units: seq<string>, used: real, others: seq<string>)
    requires |units| > 1 && Divisible(hard)
    ensures Apart(hard, units, used, others) ==
            if used / STORAGE_MULTIPLE >= 1.0
            then Apart(hard / STORAGE_MULTIPLE, Rest(units, 1), used / STORAGE_MULTIPLE, Rest(others, 1))
            else Apart(hard / STORAGE_MULTIPLE, Rest(units, 1), used, others)
  {
    var less := if used / STORAGE_MULTIPLE >= 1.0 then used / STORAGE_MULTIPLE else used;
    var (k, j) := Drops(hard / STORAGE_MULTIPLE, less, |units| - 1);
    RestTwice(units, 1, k);
    RestTwice(others, 1, j);
  }

  lemma {:induction false} SharedStep(hard: real, units: seq<string>, used: real)
    requires |units| > 1 && Divisible(hard)
    ensures Shared(hard, units, used) ==
            if used / STORAGE_MULTIPLE >= 1.0
            then Shared(hard / STORAGE_MULTIPLE, Rest(units, 2), used / STORAGE_MULTIPLE)
            else Shared(hard / STORAGE_MULTIPLE, Rest(units, 1), used)
  {
    if used / STORAGE_MULTIPLE >= 1.0 {
      var (k, j) := SharedDrops(hard / STORAGE_MULTIPLE, used / STORAGE_MULTIPLE, |units| - 2);
      RestTwice(units, 2, k + j);
    } else {
      var (k, j) := SharedDrops(hard / STORAGE_MULTIPLE, used, |units| - 1);
      RestTwice(units, 1, k + j);
    }
  }

  method GetIntegerAndUnit(hard: real, list: UnitList, used: real, clone: UnitList) returns (r: Parts)
    modifies list, clone
    ensures list != clone ==>
      (r, list.units, clone.units) == Apart(hard, old(list.units), used, old(clone.units))
    ensures list == clone ==> (r, list.units) == Shared(hard, old(list.units), used)
    decreases |list.units|
  {
    if |list.units| > 0 {
      var unit := list.units[0];
      if Divisible(hard) && |list.units| > 1 {
        ApartStep(hard, list.units, used, clone.units);
        SharedStep(hard, list.units, used);
        list.Shift();
        if used / STORAGE_MULTIPLE >= 1.0 {
          clone.Shift();
          r := GetIntegerAndUnit(hard / STORAGE_MULTIPLE, list, used / STORAGE_MULTIPLE, clone);
        } else {
          r := GetIntegerAndUnit(hard / STORAGE_MULTIPLE, list, used, clone);
        }
        return;
      }
      if clone.units == [] {
        return TypeErr;
      }
      return Parts(hard, unit, RoundDecimals(used, 2), clone.units[0]);
    }
    return NoParts;
  }
}
