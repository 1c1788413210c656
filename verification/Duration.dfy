/** durationStr: a duration in milliseconds as hours, minutes and seconds. */
module Duration {
  import opened Decimals
  import opened Texts

  function Sec(s: int): string {
    Whole(s) + "sec"
  }

  function MinSec(m: int, s: int): string {
    Whole(m) + ("min " + Sec(s))
  }

  function HrsMinSec(h: int, m: int, s: int): string {
    Whole(h) + ("hrs " + MinSec(m, s))
  }

  // What is printed for whole hours, minutes and seconds: leading zero fields are dropped.
  function Show(h: int, m: int, s: int): string {
    if h != 0 then HrsMinSec(h, m, s)
    else if m != 0 then MinSec(m, s)
    else if s != 0 then Sec(s)
    else "0"
  }

  // The whole seconds of a distance.
  function Seconds(distance: real): int {
    (distance / 1000.0).Floor
  }

  function Text(distance: real): string {
    var t := Seconds(distance);
    Show(t / 3600, t / 60 % 60, t % 60)
  }

  // durationStr as it runs, reassigning distance and result.
  method DurationStr(distance: real) returns (r: string)
    ensures r == Text(distance)
  {
    var rest := distance;
    var hours := (rest / 3600000.0).Floor;
    rest := rest - hours as real * 3600000.0;
    var minutes := (rest / 60000.0).Floor;
    rest := rest - minutes as real * 60000.0;
    var seconds := (rest / 1000.0).Floor;
    FieldsRecompose(distance, hours, minutes, seconds);
    r := "";
    if seconds != 0 {
      r := Sec(seconds);
    }
    if minutes != 0 {
      r := Whole(minutes) + "min " + Whole(seconds) + "sec";
      assert r == MinSec(minutes, seconds);
    }
    if hours != 0 {
      r := Whole(hours) + "hrs " + Whole(minutes) + "min " + Whole(seconds) + "sec";
      assert r == HrsMinSec(hours, minutes, seconds);
    }
    if r == "" {
      r := "0";
    }
  }

  // The three successive remainders are the base-60 digits of the whole seconds.
  lemma {:induction false} FieldsRecompose(distance: real, h: int, m: int, s: int)
    requires h == (distance / 3600000.0).Floor
    requires m == ((distance - h as real * 3600000.0) / 60000.0).Floor
    requires s == ((distance - h as real * 3600000.0 - m as real * 60000.0) / 1000.0).Floor
    ensures 0 <= m < 60 && 0 <= s < 60
    ensures 3600 * h + 60 * m + s == Seconds(distance)
    ensures h == Seconds(distance) / 3600 && m == Seconds(distance) / 60 % 60 && s == Seconds(distance) % 60
  {
    var t := 3600 * h + 60 * m + s;
    assert t as real <= distance / 1000.0 < t as real + 1.0;
    assert t / 60 == 60 * h + m;
  }

  predicate InNumber(c: char) {
    IsDigit(c) || c == '-'
  }

  // Text that cannot continue a number.
  predicate Breaks(x: string) {
    x != "" ==> !InNumber(x[0])
  }

  lemma {:induction false} NumberReaches(p: string, x: string, q: string, y: string)
    requires p + x == q + y && Breaks(x) && forall c :: c in q ==> InNumber(c)
    ensures |q| <= |p|
  {
    var k := |p|;
    var c := if k < |q + y| then (q + y)[k] else 'x';
    assert k < |p + x| ==> (p + x)[k] == c;
  }

  // A printed number ends where its unit begins.
  lemma {:induction false} NumberEnds(a: int, x: string, b: int, y: string)
    requires Whole(a) + x == Whole(b) + y && Breaks(x) && Breaks(y)
    ensures a == b && x == y
  {
    var p, q := Whole(a), Whole(b);
    WholeShape(a);
    WholeShape(b);
    NumberReaches(p, x, q, y);
    NumberReaches(q, y, p, x);
    assert p == (p + x)[..|p|] && q == (q + y)[..|q|];
    assert x == (p + x)[|p|..] && y == (q + y)[|q|..];
    WholeInjective(a, b);
  }

  lemma {:induction false} AfterUnit(unit: string, x: string, y: string)
    requires unit + x == unit + y
    ensures x == y
  {
    assert x == (unit + x)[|unit|..] && y == (unit + y)[|unit|..];
  }

  lemma {:induction false} MinSecInjective(m: int, s: int, m': int, s': int)
    requires MinSec(m, s) == MinSec(m', s')
    ensures m == m' && s == s'
  {
    NumberEnds(m, "min " + Sec(s), m', "min " + Sec(s'));
    AfterUnit("min ", Sec(s), Sec(s'));
    NumberEnds(s, "sec", s', "sec");
  }

  lemma {:induction false} HrsMinSecInjective(h: int, m: int, s: int, h': int, m': int, s': int)
    requires HrsMinSec(h, m, s) == HrsMinSec(h', m', s')
    ensures h == h' && m == m' && s == s'
  {
    NumberEnds(h, "hrs " + MinSec(m, s), h', "hrs " + MinSec(m', s'));
    AfterUnit("hrs ", MinSec(m, s), MinSec(m', s'));
    MinSecInjective(m, s, m', s');
  }

  // The leading number and the text after it, whose first letter tells which field leads.
  function Lead(h: int, m: int, s: int): (r: (int, string))
    ensures Breaks(r.1)
    ensures if h != 0 then r.1 != "" && r.1[0] == 'h'
            else if m != 0 then r.1 != "" && r.1[0] == 'm'
            else if s != 0 then r.1 != "" && r.1[0] == 's'
            else r.1 == ""
  {
    if h != 0 then (h, "hrs " + MinSec(m, s))
    else if m != 0 then (m, "min " + Sec(s))
    else if s != 0 then (s, "sec")
    else (0, "")
  }

  lemma {:induction false} ShowLead(h: int, m: int, s: int)
    ensures Show(h, m, s) == Whole(Lead(h, m, s).0) + Lead(h, m, s).1
  {
    assert Whole(0) == "0" && "0" + "" == "0";
  }

  lemma {:induction false} ShowInjective(h: int, m: int, s: int, h': int, m': int, s': int)
    requires Show(h, m, s) == Show(h', m', s')
    ensures h == h' && m == m' && s == s'
  {
    var (n, x) := Lead(h, m, s);
    var (n', x') := Lead(h', m', s');
    ShowLead(h, m, s);
    ShowLead(h', m', s');
    NumberEnds(n, x, n', x');
    if h != 0 {
      HrsMinSecInjective(h, m, s, h', m', s');
    } else if m != 0 {
      MinSecInjective(m, s, m', s');
    }
  }

  // Two durations print alike exactly when they have the same whole seconds, negative ones
  // included.
  lemma {:induction false} PrintsAlikeExactly(d: real, d': real)
    ensures Text(d) == Text(d') <==> Seconds(d) == Seconds(d')
  {
    var t, t' := Seconds(d), Seconds(d');
    if Text(d) == Text(d') {
      ShowInjective(t / 3600, t / 60 % 60, t % 60, t' / 3600, t' / 60 % 60, t' % 60);
      Recompose(t);
      Recompose(t');
    }
  }

  lemma {:induction false} Recompose(t: int)
    ensures 3600 * (t / 3600) + 60 * (t / 60 % 60) + t % 60 == t
  {
    assert t / 3600 == t / 60 / 60;
  }

  // --- Reading the text back --------------------------------------------------------------

  function ReadWhole(s: string): int {
    if s != "" && s[0] == '-' then -NaturalValue(s[1..]) else NaturalValue(s)
  }

  // The number before the unit in the first word that ends in it, or zero.
  function FieldOf(words: seq<string>, unit: string): int {
    if words == [] then 0
    else
      var n := |words[0]| - |unit|;
      if n >= 0 && words[0][n..] == unit then ReadWhole(words[0][..n]) else FieldOf(words[1..], unit)
  }

  lemma {:induction false} WholeReadsBack(n: int)
    ensures ReadWhole(Whole(n)) == n
  {
    var m := if n < 0 then -n else n;
    NaturalReadsBack(m);
    NaturalDigits(m);
    assert n >= 0 ==> Whole(n)[0] in Natural(m);
    assert n < 0 ==> Whole(n)[1..] == Natural(m);
  }

  // A word of a number and a unit gives that number for its unit and nothing for the others.
  lemma {:induction false} WordRead(n: int, unit: string, other: string, rest: seq<string>)
    requires |unit| == |other| == 3
    ensures FieldOf([Whole(n) + unit] + rest, other) == if unit == other then n else FieldOf(rest, other)
  {
    var words := [Whole(n) + unit] + rest;
    assert words[0][|Whole(n)|..] == unit && words[0][..|Whole(n)|] == Whole(n) && words[1..] == rest;
    WholeReadsBack(n);
  }

  lemma {:induction false} WordSplits(n: int, unit: string, rest: string)
    requires ' ' !in unit
    ensures Split(Whole(n) + unit, ' ') == [Whole(n) + unit]
    ensures Split(Whole(n) + unit + " " + rest, ' ') == [Whole(n) + unit] + Split(rest, ' ')
  {
    WholeShape(n);
    assert ' ' !in Whole(n) + unit;
    SplitNone(Whole(n) + unit, ' ');
    SplitFirst(Whole(n) + unit, ' ', rest);
  }

  lemma {:induction false} UnitsDiffer()
    ensures "sec" != "min" && "sec" != "hrs" && "min" != "hrs"
  {
    assert "sec"[0] == 's' && "min"[0] == 'm' && "hrs"[0] == 'h';
  }

  lemma {:induction false} SecReads(s: int)
    ensures Split(Sec(s), ' ') == [Sec(s)]
    ensures FieldOf([Sec(s)], "sec") == s && FieldOf([Sec(s)], "min") == 0 && FieldOf([Sec(s)], "hrs") == 0
  {
    WordSplits(s, "sec", "");
    assert [Sec(s)] == [Whole(s) + "sec"] + [];
    UnitsDiffer();
    WordRead(s, "sec", "sec", []);
    WordRead(s, "sec", "min", []);
    WordRead(s, "sec", "hrs", []);
  }

  lemma {:induction false} UnitAndSpace(n: string, unit: string, spaced: string, rest: string)
    requires spaced == unit + " "
    ensures n + unit + " " + rest == n + (spaced + rest)
  {
  }

  lemma {:induction false} MinSecReads(m: int, s: int)
    ensures var words := Split(MinSec(m, s), ' ');
      FieldOf(words, "sec") == s && FieldOf(words, "min") == m && FieldOf(words, "hrs") == 0
  {
    WordSplits(m, "min", Sec(s));
    UnitAndSpace(Whole(m), "min", "min ", Sec(s));
    SecReads(s);
    UnitsDiffer();
    WordRead(m, "min", "sec", [Sec(s)]);
    WordRead(m, "min", "min", [Sec(s)]);
    WordRead(m, "min", "hrs", [Sec(s)]);
  }

  lemma {:induction false} HrsMinSecReads(h: int, m: int, s: int)
    ensures var words := Split(HrsMinSec(h, m, s), ' ');
      FieldOf(words, "sec") == s && FieldOf(words, "min") == m && FieldOf(words, "hrs") == h
  {
    var rest := Split(MinSec(m, s), ' ');
    WordSplits(h, "hrs", MinSec(m, s));
    UnitAndSpace(Whole(h), "hrs", "hrs ", MinSec(m, s));
    MinSecReads(m, s);
    UnitsDiffer();
    WordRead(h, "hrs", "sec", rest);
    WordRead(h, "hrs", "min", rest);
    WordRead(h, "hrs", "hrs", rest);
  }

  lemma {:induction false} ShowReads(h: int, m: int, s: int)
    ensures var words := Split(Show(h, m, s), ' ');
      FieldOf(words, "sec") == s && FieldOf(words, "min") == m && FieldOf(words, "hrs") == h
  {
    if h != 0 {
      HrsMinSecReads(h, m, s);
    } else if m != 0 {
      MinSecReads(m, s);
    } else if s != 0 {
      SecReads(s);
    } else {
      SplitNone("0", ' ');
    }
  }

  // The number before each unit word is that field of the duration, and a missing word is zero.
  lemma {:induction false} TextReadsBack(distance: real)
    ensures var (words, t) := (Split(Text(distance), ' '), Seconds(distance));
      && FieldOf(words, "hrs") == t / 3600 && FieldOf(words, "min") == t / 60 % 60 && FieldOf(words, "sec") == t % 60
  {
    var t := Seconds(distance);
    ShowReads(t / 3600, t / 60 % 60, t % 60);
  }
}
