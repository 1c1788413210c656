/** Primitive JavaScript values and the truth test that guards every comparison. */
module JsPrims {

  // Numbers are exact and finite; NaN has its own constructor.
  datatype Prim = Undefined | Null | NaN | Bool(b: bool) | Num(n: real) | Str(s: string)

  predicate Truthy(p: Prim) {
    match p
    case Undefined => false
    case Null => false
    case NaN => false
    case Bool(b) => b
    case Num(n) => n != 0.0
    case Str(s) => s != ""
  }
}

/** Decimal notation of whole numbers. */
module Decimals {

  function Digit(d: nat): char
    requires d < 10
  {
    '0' + d as char
  }

  predicate IsDigit(c: char) {
    '0' <= c <= '9'
  }

  // The canonical text of n: no leading zeros.
  function Natural(n: nat): string {
    if n < 10 then [Digit(n)] else Natural(n / 10) + [Digit(n % 10)]
  }

  // The text of a signed whole number.
  function Whole(n: int): string {
    if n < 0 then "-" + Natural(-n) else Natural(n)
  }

  function NaturalValue(s: string): int {
    if s == "" then 0 else 10 * NaturalValue(s[..|s| - 1]) + (s[|s| - 1] as int - '0' as int)
  }

  lemma {:induction false} NaturalDigits(n: nat)
    ensures Natural(n) != ""
    ensures forall c :: c in Natural(n) ==> IsDigit(c)
  {
    if n >= 10 {
      NaturalDigits(n / 10);
    }
  }

  // Reading the text back gives the number.
  lemma {:induction false} NaturalReadsBack(n: nat)
    ensures NaturalValue(Natural(n)) == n
  {
    if n < 10 {
      assert [Digit(n)][..0] == "";
    } else {
      NaturalReadsBack(n / 10);
      assert Natural(n)[..|Natural(n)| - 1] == Natural(n / 10);
    }
  }

  lemma {:induction false} TenTimes(v: nat, d: nat)
    requires v > 0 && d < 10
    ensures Natural(10 * v + d) == Natural(v) + [Digit(d)]
  {
  }

  // Non-empty digits without a leading zero.
  predicate Canonical(s: string) {
    s != "" && (forall i :: 0 <= i < |s| ==> IsDigit(s[i])) && (s[0] == '0' ==> |s| == 1)
  }

  // Canonical text is the text of its value.
  lemma {:induction false} CanonicalReads(s: string)
    requires Canonical(s)
    ensures NaturalValue(s) >= 0 && Natural(NaturalValue(s)) == s
  {
    var front, c := s[..|s| - 1], s[|s| - 1];
    assert s == front + [c] && IsDigit(c);
    var d := c as int - '0' as int;
    if front == "" {
      assert NaturalValue(s) == d;
    } else {
      assert front[0] == s[0];
      CanonicalReads(front);
      assert Natural(0)[0] == '0';
      TenTimes(NaturalValue(front), d);
    }
  }

  lemma {:induction false} NaturalCanonical(n: nat)
    ensures Natural(n) != "" && (Natural(n)[0] == '0' ==> n == 0)
  {
    if n >= 10 {
      NaturalCanonical(n / 10);
    }
  }

  lemma {:induction false} NaturalInjective(m: nat, n: nat)
    requires Natural(m) == Natural(n)
    ensures m == n
  {
    NaturalReadsBack(m);
    NaturalReadsBack(n);
  }

  lemma {:induction false} WholeShape(n: int)
    ensures Whole(n) != ""
    ensures forall c :: c in Whole(n) ==> IsDigit(c) || c == '-'
  {
    NaturalDigits(if n < 0 then -n else n);
  }

  lemma {:induction false} WholeInjective(m: int, n: int)
    requires Whole(m) == Whole(n)
    ensures m == n
  {
    NaturalDigits(if m < 0 then -m else m);
    NaturalDigits(if n < 0 then -n else n);
    assert m < 0 ==> Whole(m)[0] == '-' && Whole(m)[1..] == Natural(-m);
    assert n < 0 ==> Whole(n)[0] == '-' && Whole(n)[1..] == Natural(-n);
    assert m >= 0 ==> Whole(m)[0] in Natural(m);
    assert n >= 0 ==> Whole(n)[0] in Natural(n);
    NaturalInjective(if m < 0 then -m else m, if n < 0 then -n else n);
  }
}

/** Counting arguments on sequences without repetition. */
module Counting {

  ghost predicate Distinct<T>(xs: seq<T>) {
    forall i, j :: 0 <= i < j < |xs| ==> xs[i] != xs[j]
  }

  ghost function Elements<T>(xs: seq<T>): set<T> {
    set x | x in xs
  }

  lemma {:induction false} DistinctCardinality<T>(xs: seq<T>)
    requires Distinct(xs)
    ensures |Elements(xs)| == |xs|
  {
    if xs != [] {
      var front := xs[..|xs| - 1];
      DistinctCardinality(front);
      assert xs == front + [xs[|xs| - 1]];
      assert Elements(xs) == Elements(front) + {xs[|xs| - 1]};
    }
  }

  ghost function Below(n: nat): (s: set<nat>)
    ensures forall k :: k in s <==> 0 <= k < n
    ensures |s| == n
  {
    if n == 0 then {} else Below(n - 1) + {n - 1}
  }

  lemma {:induction false} SubsetSize<T>(s: set<T>, t: set<T>)
    requires s <= t
    ensures |s| <= |t|
    ensures |s| == |t| ==> s == t
  {
    assert t == s + (t - s);
    assert |t| == |s| + |t - s|;
  }

  // p and q are inverse permutations of 0..n-1.
  ghost predicate Inverse(p: seq<nat>, q: seq<nat>, n: nat) {
    && |p| == |q| == n
    && (forall i :: 0 <= i < n ==> p[i] < n && q[p[i]] == i)
    && (forall j :: 0 <= j < n ==> q[j] < n && p[q[j]] == j)
  }

  // An injection of a finite range into itself is a permutation.
  lemma {:induction false} InjectionIsPermutation(p: seq<nat>, n: nat) returns (q: seq<nat>)
    requires |p| == n
    requires forall i :: 0 <= i < n ==> p[i] < n
    requires Distinct(p)
    ensures Inverse(p, q, n)
  {
    DistinctCardinality(p);
    SubsetSize(Elements(p), Below(n));
    forall j: nat | j < n ensures j in p {
      assert j in Below(n);
      assert j in Elements(p);
    }
    q := seq<nat>(n, (j: nat) requires j in p => IndexOf(p, j));
  }

  ghost function IndexOf<T>(xs: seq<T>, x: T): (i: nat)
    requires x in xs
    ensures i < |xs| && xs[i] == x
  {
    var i :| 0 <= i < |xs| && xs[i] == x;
    i
  }
}

/** Splitting, joining and searching text. */
module Texts {

  // s.split(c): always at least one part.
  function Split(s: string, c: char): (parts: seq<string>)
    ensures parts != []
  {
    if s == "" then [""]
    else
      var rest := Split(s[1..], c);
      if s[0] == c then [""] + rest else [[s[0]] + rest[0]] + rest[1..]
  }

  function Join(parts: seq<string>, c: char): string {
    if parts == [] then ""
    else if |parts| == 1 then parts[0]
    else parts[0] + [c] + Join(parts[1..], c)
  }

  // s.indexOf(part) > -1
  predicate Contains(s: string, part: string) {
    exists i :: 0 <= i <= |s| - |part| && OccursAt(s, part, i)
  }

  predicate OccursAt(s: string, part: string, i: nat) {
    i + |part| <= |s| && s[i..i + |part|] == part
  }

  ghost predicate Free(parts: seq<string>, c: char) {
    forall p :: p in parts ==> c !in p
  }

  lemma {:induction false} SplitFirst(a: string, c: char, s: string)
    requires c !in a
    ensures Split(a + [c] + s, c) == [a] + Split(s, c)
  {
    var t := a + [c] + s;
    if a == "" {
      assert t[1..] == s;
    } else {
      assert t[1..] == a[1..] + [c] + s;
      SplitFirst(a[1..], c, s);
      assert [a[0]] + a[1..] == a;
    }
  }

  lemma {:induction false} SplitNone(a: string, c: char)
    requires c !in a
    ensures Split(a, c) == [a]
  {
    if a != "" {
      SplitNone(a[1..], c);
      assert [a[0]] + a[1..] == a;
    }
  }

  // Splitting undoes joining.
  lemma {:induction false} SplitJoin(parts: seq<string>, c: char)
    requires parts != [] && Free(parts, c)
    ensures Split(Join(parts, c), c) == parts
  {
    if |parts| == 1 {
      SplitNone(parts[0], c);
    } else {
      SplitJoin(parts[1..], c);
      SplitFirst(parts[0], c, Join(parts[1..], c));
    }
  }

  lemma {:induction false} JoinFree(parts: seq<string>, c: char, d: char)
    requires Free(parts, d) && c != d
    ensures d !in Join(parts, c)
  {
    if |parts| > 1 {
      JoinFree(parts[1..], c, d);
    }
  }

  lemma {:induction false} JoinAppend(parts: seq<string>, p: string, c: char)
    requires parts != []
    ensures Join(parts + [p], c) == Join(parts, c) + [c] + p
  {
    var all := parts + [p];
    if |parts| == 1 {
      assert all[1..] == [p];
    } else {
      var head, rest := parts[0] + [c], parts[1..];
      assert all[1..] == rest + [p];
      JoinAppend(rest, p, c);
      assert head + (Join(rest, c) + [c] + p) == head + Join(rest, c) + [c] + p;
    }
  }

  // Joining undoes splitting.
  lemma {:induction false} JoinSplit(s: string, c: char)
    ensures Join(Split(s, c), c) == s && Free(Split(s, c), c)
    ensures |Split(s, c)| > 1 <==> c in s
  {
    if s != "" {
      var rest := Split(s[1..], c);
      JoinSplit(s[1..], c);
      assert [s[0]] + s[1..] == s;
      if s[0] == c {
        JoinCons("", rest, c);
        assert "" + [c] + s[1..] == s;
      } else {
        JoinLonger([s[0]], rest, c);
      }
    }
  }

  lemma {:induction false} JoinCons(p: string, parts: seq<string>, c: char)
    requires parts != []
    ensures Join([p] + parts, c) == p + [c] + Join(parts, c)
  {
    assert ([p] + parts)[1..] == parts;
  }

  lemma {:induction false} JoinLonger(p: string, parts: seq<string>, c: char)
    requires parts != []
    ensures Join([p + parts[0]] + parts[1..], c) == p + Join(parts, c)
  {
    if |parts| > 1 {
      JoinCons(p + parts[0], parts[1..], c);
      assert p + parts[0] + [c] + Join(parts[1..], c) == p + (parts[0] + [c] + Join(parts[1..], c));
    }
  }

  // The last part of xs and the first of ys become one.
  function Glue(xs: seq<string>, ys: seq<string>): seq<string>
    requires xs != [] && ys != []
  {
    if |xs| == 1 then [xs[0] + ys[0]] + ys[1..] else [xs[0]] + Glue(xs[1..], ys)
  }

  lemma {:induction false} SplitConcat(a: string, b: string, c: char)
    ensures Split(a + b, c) == Glue(Split(a, c), Split(b, c))
  {
    var ys := Split(b, c);
    if a == "" {
      assert a + b == b && "" + ys[0] == ys[0];
    } else {
      assert (a + b)[1..] == a[1..] + b;
      SplitConcat(a[1..], b, c);
      var rest := Split(a[1..], c);
      if a[0] == c {
        assert ([""] + rest)[1..] == rest;
      } else {
        GlueHead([a[0]], rest, ys);
      }
    }
  }

  lemma {:induction false} GlueHead(s: string, xs: seq<string>, ys: seq<string>)
    requires xs != [] && ys != []
    ensures var g := Glue(xs, ys);
      g != [] && Glue([s + xs[0]] + xs[1..], ys) == [s + g[0]] + g[1..]
  {
    var all := [s + xs[0]] + xs[1..];
    assert all[1..] == xs[1..];
    if |xs| == 1 {
      assert s + (xs[0] + ys[0]) == s + xs[0] + ys[0];
    }
  }

  lemma {:induction false} JoinMember(parts: seq<string>, c: char, i: nat, d: char)
    requires i < |parts| && d in parts[i]
    ensures d in Join(parts, c)
  {
    var k := JoinContains(parts, c, i);
    var j :| 0 <= j < |parts[i]| && parts[i][j] == d;
    assert Join(parts, c)[k..k + |parts[i]|][j] == d;
  }

  function Count(s: string, c: char): nat {
    if s == "" then 0 else (if s[0] == c then 1 else 0) + Count(s[1..], c)
  }

  lemma {:induction false} CountConcat(a: string, b: string, c: char)
    ensures Count(a + b, c) == Count(a, c) + Count(b, c)
  {
    if a == "" {
      assert a + b == b;
    } else {
      assert (a + b)[1..] == a[1..] + b;
      CountConcat(a[1..], b, c);
    }
  }

  lemma {:induction false} CountNone(s: string, c: char)
    ensures Count(s, c) == 0 <==> c !in s
  {
    if s != "" {
      CountNone(s[1..], c);
    }
  }

  // The parts' own occurrences of c, together.
  function CountIn(parts: seq<string>, c: char): nat {
    if parts == [] then 0 else Count(parts[0], c) + CountIn(parts[1..], c)
  }

  lemma {:induction false} CountJoin(parts: seq<string>, c: char, d: char)
    requires parts != []
    ensures Count(Join(parts, c), d) == CountIn(parts, d) + if c == d then |parts| - 1 else 0
  {
    if |parts| == 1 {
      assert CountIn(parts[1..], d) == 0;
    } else {
      var rest := Join(parts[1..], c);
      CountJoin(parts[1..], c, d);
      CountConcat(parts[0] + [c], rest, d);
      CountConcat(parts[0], [c], d);
      assert [c][1..] == "";
    }
  }

  lemma {:induction false} CountFree(parts: seq<string>, c: char)
    requires Free(parts, c)
    ensures CountIn(parts, c) == 0
  {
    if parts != [] {
      CountNone(parts[0], c);
      CountFree(parts[1..], c);
    }
  }

  // Where every part has at least one c and together they have one each, each has exactly one.
  lemma {:induction false} CountOneEach(parts: seq<string>, c: char)
    requires forall p :: p in parts ==> Count(p, c) >= 1
    ensures CountIn(parts, c) >= |parts|
    ensures CountIn(parts, c) == |parts| ==> forall p :: p in parts ==> Count(p, c) == 1
  {
    if parts != [] {
      assert parts[0] in parts;
      CountOneEach(parts[1..], c);
    }
  }

  // Each part occurs in the joined text.
  lemma {:induction false} JoinContains(parts: seq<string>, c: char, i: nat) returns (k: nat)
    requires i < |parts|
    ensures OccursAt(Join(parts, c), parts[i], k)
  {
    if |parts| == 1 {
      k := 0;
    } else if i == 0 {
      k := 0;
    } else {
      var k' := JoinContains(parts[1..], c, i - 1);
      k := |parts[0]| + 1 + k';
      var s, t := Join(parts, c), Join(parts[1..], c);
      assert s[|parts[0]| + 1..] == t;
      assert s[k..k + |parts[i]|] == t[k'..k' + |parts[i]|];
    }
  }
}

/** Subsequences of the items that pass a test. */
module Filtering {

  function Filter<T>(xs: seq<T>, keep: T -> bool): seq<T> {
    if xs == [] then []
    else if keep(xs[0]) then [xs[0]] + Filter(xs[1..], keep)
    else Filter(xs[1..], keep)
  }

  // Filtering by one test and then by another is filtering by both.
  lemma {:induction false} FilterTwice<T>(xs: seq<T>, f: T -> bool, g: T -> bool, both: T -> bool)
    requires forall x :: x in xs ==> (both(x) <==> f(x) && g(x))
    ensures Filter(Filter(xs, f), g) == Filter(xs, both)
  {
    if xs != [] {
      assert xs[0] in xs;
      FilterTwice(xs[1..], f, g, both);
    }
  }

  lemma {:induction false} FilterAll<T>(xs: seq<T>, keep: T -> bool)
    requires forall x :: x in xs ==> keep(x)
    ensures Filter(xs, keep) == xs
  {
    if xs != [] {
      FilterAll(xs[1..], keep);
    }
  }

  lemma {:induction false} FilterShrinks<T>(xs: seq<T>, keep: T -> bool)
    ensures |Filter(xs, keep)| <= |xs|
  {
    if xs != [] {
      FilterShrinks(xs[1..], keep);
    }
  }

  // The result is in order, has no other items, and misses none that pass.
  lemma {:induction false} FilterPartition<T>(xs: seq<T>, ys: seq<T>, keep: T -> bool)
    ensures Filter(xs + ys, keep) == Filter(xs, keep) + Filter(ys, keep)
    ensures forall x :: x in Filter(xs, keep) <==> x in xs && keep(x)
  {
    if xs == [] {
      assert xs + ys == ys;
    } else {
      assert (xs + ys)[1..] == xs[1..] + ys;
      FilterPartition(xs[1..], ys, keep);
    }
  }
}
