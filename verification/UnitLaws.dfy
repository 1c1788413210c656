/** What the scaling recursions, the ladder and the rounding have to do with each other. */
module UnitLaws {
  import opened Units

  // --- Which unit is chosen -------------------------------------------------------------

  lemma {:induction false} ScaledNext(x: real, k: nat)
    ensures Scaled(x, k + 1) == Scaled(x, k) / STORAGE_MULTIPLE
    decreases k
  {
    if k > 0 {
      ScaledNext(x / STORAGE_MULTIPLE, k - 1);
    }
  }

  // Among n units, the unit chosen is the largest one that the count reaches.
  lemma {:induction false} StepsMeaning(count: real, n: nat)
    requires n > 0
    ensures var k := Steps(count, n);
      (k > 0 ==> count >= Pow(k)) && (k < n - 1 ==> count < Pow(k + 1))
    decreases n
  {
    if n > 1 && count / STORAGE_MULTIPLE >= 1.0 {
      StepsMeaning(count / STORAGE_MULTIPLE, n - 1);
    }
  }

  lemma {:induction false} StepsUnique(count: real, n: nat, k: nat)
    requires k < n && (k > 0 ==> count >= Pow(k)) && (k < n - 1 ==> count < Pow(k + 1))
    ensures Steps(count, n) == k
  {
    StepsMeaning(count, n);
    var m := Steps(count, n);
    if m < k {
      if m + 1 < k {
        PowIncreases(m + 1, k);
      }
    } else if k < m {
      if k + 1 < m {
        PowIncreases(k + 1, m);
      }
    }
  }

  // --- The ladder -----------------------------------------------------------------------

  // getSizeUnit
  function GetSizeUnit(size: real): string {
    if Pow(1) <= size && size < Pow(2) then "KiB"
    else if Pow(2) <= size && size < Pow(3) then "MiB"
    else if Pow(3) <= size && size < Pow(4) then "GiB"
    else if Pow(4) <= size then "TiB"
    else "Byte"
  }

  // getSizeNumber
  function GetSizeNumber(size: real): real {
    if Pow(1) <= size && size < Pow(2) then RoundDecimals(size / Pow(1), 2)
    else if Pow(2) <= size && size < Pow(3) then RoundDecimals(size / Pow(2), 2)
    else if Pow(3) <= size && size < Pow(4) then RoundDecimals(size / Pow(3), 2)
    else if Pow(4) <= size then RoundDecimals(size / Pow(4), 2)
    else size
  }

  // formatSize, on the parsed integer
  function FormatSize(parsed: int): Size {
    var size := parsed as real;
    if Pow(1) <= size && size < Pow(2) then Size(RoundDecimals(size / Pow(1), 2), "KiB")
    else if Pow(2) <= size && size < Pow(3) then Size(RoundDecimals(size / Pow(2), 2), "MiB")
    else if Pow(3) <= size && size < Pow(4) then Size(RoundDecimals(size / Pow(3), 2), "GiB")
    else if Pow(4) <= size then Size(RoundDecimals(size / Pow(4), 2), "TiB")
    else Size(size, "B")
  }

  // The rung on which a size falls.
  ghost predicate OnRung(size: real, k: nat) {
    k < 5 && (k > 0 ==> size >= Pow(k)) && (k < 4 ==> size < Pow(k + 1))
  }

  lemma {:induction false} ScaledIsQuotient(x: real, k: nat)
    requires k <= 4
    ensures Scaled(x, k) == x / Pow(k)
  {
    assert Pow(0) == 1.0 && Pow(1) == 1024.0 && Pow(2) == 1048576.0;
    assert Pow(3) == 1073741824.0 && Pow(4) == 1099511627776.0;
    var y := x / 1024.0;
    assert k >= 2 ==> Scaled(x, k) == Scaled(y / 1024.0, k - 2);
    assert k >= 3 ==> Scaled(x, k) == Scaled(y / 1024.0 / 1024.0, k - 3);
  }

  // The shifting recursion and the three ladders choose the same power of 1024, for every size.
  lemma {:induction false} LadderAgrees(size: real)
    ensures var k := Steps(size, 5);
      && OnRung(size, k)
      && GetSizeUnit(size) == QUOTA_UNITS[k]
      && GetSizeNumber(size) == if k == 0 then size else RoundDecimals(Scaled(size, k), 2)
  {
    StepsMeaning(size, 5);
    var k := Steps(size, 5);
    ScaledIsQuotient(size, k);
    RungIsLadder(size, k);
  }

  lemma {:induction false} RungIsLadder(size: real, k: nat)
    requires OnRung(size, k)
    ensures GetSizeUnit(size) == QUOTA_UNITS[k]
    ensures GetSizeNumber(size) == if k == 0 then size else RoundDecimals(size / Pow(k), 2)
  {
    PowIncreases(1, 2);
    PowIncreases(2, 3);
    PowIncreases(3, 4);
  }

  // formatSize prints what the other two return, except that bytes read "B".
  lemma {:induction false} FormatSizeAgrees(parsed: int)
    ensures FormatSize(parsed).amount == GetSizeNumber(parsed as real)
    ensures FormatSize(parsed).unit == if GetSizeUnit(parsed as real) == "Byte" then "B" else GetSizeUnit(parsed as real)
  {
  }

  // --- Rounding -------------------------------------------------------------------------

  lemma {:induction false} ShiftBack(x: real, d: nat)
    ensures ShiftDown(ShiftUp(x, d), d) == x
    decreases d
  {
    if d > 0 {
      ShiftBack(x * 10.0, d - 1);
    }
  }

  lemma {:induction false} ShiftForth(x: real, d: nat)
    ensures ShiftUp(ShiftDown(x, d), d) == x
    decreases d
  {
    if d > 0 {
      assert ShiftDown(x, d) * 10.0 == ShiftDown(x, d - 1);
      ShiftForth(x, d - 1);
    }
  }

  lemma {:induction false} ShiftUpOrder(x: real, y: real, d: nat)
    requires x <= y
    ensures ShiftUp(x, d) <= ShiftUp(y, d)
    decreases d
  {
    if d > 0 {
      ShiftUpOrder(x * 10.0, y * 10.0, d - 1);
    }
  }

  lemma {:induction false} ShiftDownOrder(x: real, y: real, d: nat)
    requires x <= y
    ensures ShiftDown(x, d) <= ShiftDown(y, d)
    decreases d
  {
    if d > 0 {
      ShiftDownOrder(x, y, d - 1);
    }
  }

  lemma {:induction false} ShiftDownAdds(x: real, y: real, d: nat)
    ensures ShiftDown(x + y, d) == ShiftDown(x, d) + ShiftDown(y, d)
    decreases d
  {
    if d > 0 {
      ShiftDownAdds(x, y, d - 1);
    }
  }

  // Rounding stays within half a unit of the last kept decimal.
  lemma {:induction false} RoundWithinHalf(x: real, d: nat)
    ensures x - ShiftDown(0.5, d) <= RoundDecimals(x, d) <= x + ShiftDown(0.5, d)
  {
    var y := ShiftUp(x, d);
    var n := Round(y) as real;
    ShiftBack(x, d);
    ShiftDownOrder(n, y + 0.5, d);
    ShiftDownAdds(y, 0.5, d);
    ShiftDownOrder(y, n + 0.5, d);
    ShiftDownAdds(n, 0.5, d);
  }

  lemma {:induction false} RoundMonotone(x: real, y: real, d: nat)
    requires x <= y
    ensures RoundDecimals(x, d) <= RoundDecimals(y, d)
  {
    ShiftUpOrder(x, y, d);
    ShiftDownOrder(Round(ShiftUp(x, d)) as real, Round(ShiftUp(y, d)) as real, d);
  }

  lemma {:induction false} RoundIdempotent(x: real, d: nat)
    ensures RoundDecimals(RoundDecimals(x, d), d) == RoundDecimals(x, d)
  {
    var n := Round(ShiftUp(x, d));
    ShiftForth(n as real, d);
    RoundWhole(n);
    assert RoundDecimals(x, d) == ShiftDown(n as real, d);
  }

  lemma {:induction false} RoundWhole(n: int)
    ensures Round(n as real) == n
  {
  }

  lemma {:induction false} TimesOrder(x: real, y: real, k: nat)
    requires x <= y
    ensures Times(x, k) <= Times(y, k)
    decreases k
  {
    if k > 0 {
      TimesOrder(x, y, k - 1);
    }
  }

  lemma {:induction false} TimesAdds(x: real, y: real, k: nat)
    ensures Times(x + y, k) == Times(x, k) + Times(y, k)
    decreases k
  {
    if k > 0 {
      TimesAdds(x, y, k - 1);
    }
  }

  // The amount shown by getSuitableUnit, scaled back, is within 0.005 of its unit.
  lemma {:induction false} ShownIsNear(count: real, n: nat)
    ensures var k := Steps(count, n);
      var shown := Times(RoundDecimals(Scaled(count, k), 2), k);
      count - Times(0.005, k) <= shown <= count + Times(0.005, k)
  {
    var k := Steps(count, n);
    var x := Scaled(count, k);
    var r := RoundDecimals(x, 2);
    RoundWithinHalf(x, 2);
    assert ShiftDown(0.5, 1) == 0.05 && ShiftDown(0.5, 2) == 0.005;
    ScaledConserves(count, k);
    TimesOrder(r, x + 0.005, k);
    TimesAdds(x, 0.005, k);
    TimesOrder(x, r + 0.005, k);
    TimesAdds(r, 0.005, k);
  }

  // --- GetIntegerAndUnit ----------------------------------------------------------------

  // k units are dropped from the first list and at most as many from the second. The hard
  // amount divides by 1024 at every dropped unit and no longer at the one reached, unless that
  // is the last. The used amount stays at least 1 and below 1024, or followed all the way.
  lemma {:induction false} DropsMeaning(hard: real, used: real, n: nat)
    ensures var (k, j) := Drops(hard, used, n);
      && j <= k && (n > 0 ==> k < n)
      && (forall i :: 0 <= i < k ==> Divisible(Scaled(hard, i)))
      && (k < n - 1 ==> !Divisible(Scaled(hard, k)))
      && (j > 0 ==> Scaled(used, j) >= 1.0)
      && (j == k || Scaled(used, j) < STORAGE_MULTIPLE)
    decreases n
  {
    if n > 1 && Divisible(hard) {
      var (k, j) := Drops(hard, used, n);
      var h := hard / STORAGE_MULTIPLE;
      if used / STORAGE_MULTIPLE >= 1.0 {
        DropsMeaning(h, used / STORAGE_MULTIPLE, n - 1);
      } else {
        DropsMeaning(h, used, n - 1);
        SmallStays(h, used, n - 1);
      }
      forall i | 0 <= i < k ensures Divisible(Scaled(hard, i)) {
        if i > 0 {
          assert Scaled(hard, i) == Scaled(h, i - 1);
        }
      }
    }
  }

  lemma {:induction false} SmallStays(hard: real, used: real, n: nat)
    requires used < STORAGE_MULTIPLE
    ensures Drops(hard, used, n).1 == 0
    decreases n
  {
    if n > 1 && Divisible(hard) {
      SmallStays(hard / STORAGE_MULTIPLE, used, n - 1);
    }
  }

  // With a second list at least as long as the first, the record is always produced, and both
  // amounts are conserved before the final rounding.
  lemma {:induction false} PartsConserve(hard: real, units: seq<string>, used: real, others: seq<string>)
    requires 0 < |units| <= |others|
    ensures var (k, j) := Drops(hard, used, |units|);
      && k < |units| && j < |others|
      && PartsOf(hard, units, used, others) ==
         Parts(Scaled(hard, k), units[k], RoundDecimals(Scaled(used, j), 2), others[j])
    ensures var (k, j) := Drops(hard, used, |units|);
      Times(Scaled(hard, k), k) == hard && Times(Scaled(used, j), j) == used
  {
    PartsProduced(hard, units, used, others);
    var (k, j) := Drops(hard, used, |units|);
    ScaledConserves(hard, k);
    ScaledConserves(used, j);
  }

  lemma {:induction false} PartsProduced(hard: real, units: seq<string>, used: real, others: seq<string>)
    requires 0 < |units| <= |others|
    ensures var (k, j) := Drops(hard, used, |units|);
      && k < |units| && j < |others|
      && PartsOf(hard, units, used, others) ==
         Parts(Scaled(hard, k), units[k], RoundDecimals(Scaled(used, j), 2), others[j])
  {
    DropsMeaning(hard, used, |units|);
  }

  predicate IsWhole(x: real) {
    x.Floor as real == x
  }

  // For a whole number the chosen unit is the largest listed one in which it is still whole.
  lemma {:induction false} LargestWholeUnit(hard: real, used: real, n: nat, i: nat)
    requires IsWhole(hard) && i < n
    ensures i <= Drops(hard, used, n).0 <==> IsWhole(Scaled(hard, i))
    decreases i
  {
    DropsMeaning(hard, used, n);
    var k := Drops(hard, used, n).0;
    if i > 0 {
      LargestWholeUnit(hard, used, n, i - 1);
      ScaledNext(hard, i - 1);
      if IsWhole(Scaled(hard, i)) {
        WholeBelow(Scaled(hard, i - 1));
      }
    }
  }

  lemma {:induction false} WholeBelow(x: real)
    requires IsWhole(x / STORAGE_MULTIPLE)
    ensures IsWhole(x) && Divisible(x)
  {
    var m := (x / STORAGE_MULTIPLE).Floor;
    assert x == (1024 * m) as real;
  }

  // getByte brings the hard amount back exactly when it was divisible by 1024.
  lemma {:induction false} RoundTripExactly(hard: real, used: real)
    ensures var p := PartsOf(hard, QUOTA_UNITS, used, QUOTA_UNITS);
      p.Parts? && (Times(p.hard, ByteExponent(p.hardUnit)) == hard <==> Divisible(hard))
  {
    PartsProduced(hard, QUOTA_UNITS, used, QUOTA_UNITS);
    DropsMeaning(hard, used, 5);
    var k := Drops(hard, used, 5).0;
    ScaledConserves(hard, k);
    GetByteExactly(Scaled(hard, k), k);
    assert k == 0 ==> Scaled(hard, k) == hard;
    assert hard == 0.0 ==> Divisible(hard);
  }

  // With one array for both lists both amounts are shown in the unit that all shifts together
  // reach: the hard amount is right exactly when the used one was never scaled, that is below 1024
  // or with nothing shifted, and the used amount exactly when nothing was shifted, zero apart.
  lemma {:induction false} SharedExactly(hard: real, used: real, n: nat)
    ensures var (k, j) := SharedDrops(hard, used, n);
      var still := n <= 1 || !Divisible(hard);
      && (Times(Scaled(hard, k), k + j) == hard <==> still || used < STORAGE_MULTIPLE || hard == 0.0)
      && (Times(Scaled(used, j), k + j) == used <==> still || used == 0.0)
  {
    var (k, j) := SharedDrops(hard, used, n);
    ScaledTimes(hard, k, j);
    ScaledTimes(used, j, k);
    assert j + k == k + j;
    SharedStarts(hard, used, n);
  }

  lemma {:induction false} SharedStarts(hard: real, used: real, n: nat)
    ensures var (k, j) := SharedDrops(hard, used, n);
      && (k == 0 <==> n <= 1 || !Divisible(hard))
      && (j == 0 <==> n <= 1 || !Divisible(hard) || used < STORAGE_MULTIPLE)
    decreases n
  {
    if n > 1 && Divisible(hard) && used < STORAGE_MULTIPLE {
      SharedStarts(hard / STORAGE_MULTIPLE, used, n - 1);
    }
  }

  // A shared list runs out, and no record comes back, exactly when its length is even and every
  // step shifts twice: the hard amount divides all the way and the used one reaches the last unit.
  lemma {:induction false} SharedRunsOut(hard: real, units: seq<string>, used: real)
    ensures SharedPartsOf(hard, units, used) == NoParts <==> Doubles(hard, used, |units|)
  {
    SharedTotal(hard, used, |units|);
  }

  predicate Doubles(hard: real, used: real, n: nat) {
    n % 2 == 0 && (forall i :: 0 <= i < n / 2 ==> Divisible(Scaled(hard, i))) && (n == 0 || Scaled(used, n / 2) >= 1.0)
  }

  lemma {:induction false} SharedTotal(hard: real, used: real, n: nat)
    ensures var (k, j) := SharedDrops(hard, used, n); k + j <= n && (k + j == n <==> Doubles(hard, used, n))
    decreases n
  {
    if n > 1 {
      var h, u := hard / STORAGE_MULTIPLE, used / STORAGE_MULTIPLE;
      if used >= STORAGE_MULTIPLE {
        SharedTotal(h, u, n - 2);
        DoublesStep(hard, used, n);
      } else {
        SharedTotal(h, used, n - 1);
        SharedStarts(h, used, n - 1);
        ScaledSmall(used, n / 2);
      }
      if !Divisible(hard) {
        assert Scaled(hard, 0) == hard;
      }
    }
  }

  lemma {:induction false} DoublesStep(hard: real, used: real, n: nat)
    requires n > 1 && used >= STORAGE_MULTIPLE
    ensures Doubles(hard, used, n) <==>
            Divisible(hard) && Doubles(hard / STORAGE_MULTIPLE, used / STORAGE_MULTIPLE, n - 2)
  {
    var h, m := hard / STORAGE_MULTIPLE, n / 2;
    assert (n - 2) / 2 == m - 1;
    assert forall i :: 1 <= i < m ==> Scaled(hard, i) == Scaled(h, i - 1);
    if Divisible(hard) && Doubles(h, used / STORAGE_MULTIPLE, n - 2) {
      forall i | 0 <= i < m ensures Divisible(Scaled(hard, i)) {
        if i > 0 {
          assert Divisible(Scaled(h, i - 1));
        }
      }
    }
    if Doubles(hard, used, n) {
      forall i | 0 <= i < m - 1 ensures Divisible(Scaled(h, i)) {
        assert Scaled(hard, i + 1) == Scaled(h, i);
      }
      assert Divisible(Scaled(hard, 0));
    }
  }

  lemma {:induction false} ScaledSmall(x: real, m: nat)
    requires x < STORAGE_MULTIPLE && m > 0
    ensures Scaled(x, m) < 1.0
    decreases m
  {
    if m > 1 {
      ScaledSmall(x / STORAGE_MULTIPLE, m - 1);
    }
  }

  // Scaled k units up and m more units down than that, only zero is the same again.
  lemma {:induction false} ScaledTimes(x: real, k: nat, m: nat)
    ensures Times(Scaled(x, k), k + m) == x <==> m == 0 || x == 0.0
  {
    ScaledConserves(x, k);
    TimesTwice(Scaled(x, k), k, m);
    if m > 0 {
      if x != 0.0 {
        TimesGrows(x, 0, m);
      } else {
        TimesZero(m);
      }
    }
  }

  lemma {:induction false} TimesTwice(x: real, k: nat, m: nat)
    ensures Times(x, k + m) == Times(Times(x, k), m)
    decreases m
  {
    if m > 0 {
      TimesTwice(x, k, m - 1);
    }
  }

  // --- Constants and ties -----------------------------------------------------------------

  // Each unit is 1024 times the one before.
  lemma {:induction false} UnitsAre1024(k: nat)
    ensures Pow(0) == 1.0 && Pow(k + 1) == 1024.0 * Pow(k)
    ensures Pow(1) == 1024.0 && Pow(2) == 1048576.0 && Pow(3) == 1073741824.0 && Pow(4) == 1099511627776.0
  {
    assert Pow(2) == 1024.0 * Pow(1);
    assert Pow(3) == 1024.0 * Pow(2);
    assert Pow(4) == 1024.0 * Pow(3);
  }

  // Rounding to two decimals gives the whole number of hundredths nearest to x, and the greater
  // one of two equally near, for negative numbers too.
  lemma {:induction false} RoundsHalfUp(x: real, n: int)
    ensures RoundDecimals(x, 2) == n as real / 100.0 <==> n as real / 100.0 - 0.005 <= x < n as real / 100.0 + 0.005
  {
    TwoPlaces(x);
    TwoPlaces(Round(ShiftUp(x, 2)) as real);
    HalfUp(x * 100.0, n);
  }

  lemma {:induction false} TwoPlaces(x: real)
    ensures ShiftUp(x, 2) == x * 100.0 && ShiftDown(x, 2) == x / 100.0
  {
    assert ShiftUp(x * 10.0, 1) == ShiftUp(x * 10.0 * 10.0, 0);
    assert ShiftDown(x, 1) == x / 10.0;
  }

  lemma {:induction false} HalfUp(x: real, n: int)
    ensures Round(x) == n <==> n as real - 0.5 <= x < n as real + 0.5
  {
  }

  // The record is missing exactly without units, and the TypeError comes exactly from a second
  // list too short for what is dropped from it.
  lemma {:induction false} PartsExactly(hard: real, units: seq<string>, used: real, others: seq<string>)
    ensures PartsOf(hard, units, used, others) == NoParts <==> units == []
    ensures PartsOf(hard, units, used, others) == TypeErr <==>
            units != [] && |others| <= Drops(hard, used, |units|).1
  {
    DropsMeaning(hard, used, |units|);
  }
}
