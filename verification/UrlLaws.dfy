/**
 How delUrlParam parses a query, and what its printer makes of a text.
 */
module UrlLaws {
  import opened Decimals
  import opened Texts
  import opened UrlParams

  ghost predicate AllText(ps: PropList) {
    forall p :: p in ps ==> p.value.Text?
  }

  function ParamText(p: Param): string
    requires p.value.Text?
  {
    p.name + "=" + p.value.s
  }

  function ParamTexts(ps: PropList): seq<string>
    requires AllText(ps)
  {
    if ps == [] then [] else [ParamText(ps[0])] + ParamTexts(ps[1..])
  }

  function Query(ps: PropList): string
    requires AllText(ps)
  {
    Join(ParamTexts(ps), '&')
  }

  // The URL with these parameters, or the bare base.
  function Url(base: string, ps: PropList): string
    requires AllText(ps)
  {
    if ps == [] then base else base + "?" + Query(ps)
  }

  ghost predicate Plain(s: string) {
    '?' !in s && '&' !in s && '=' !in s
  }

  ghost predicate DistinctNames(ps: PropList) {
    forall i, j :: 0 <= i < j < |ps| ==> ps[i].name != ps[j].name
  }

  // Parameters with an '=' each, whose names are distinct.
  ghost predicate WellFormed(ps: PropList) {
    && AllText(ps)
    && DistinctNames(ps)
    && forall p :: p in ps ==> p.name != "__proto__" && Plain(p.name) && Plain(p.value.s)
  }

  // --- Parsing -------------------------------------------------------------------------

  lemma {:induction false} AssignNew(obj: PropList, p: Param)
    requires p.name != "__proto__" && forall q :: q in obj ==> q.name != p.name
    ensures Assign(obj, p) == obj + [p]
  {
    if obj != [] {
      AssignNew(obj[1..], p);
    }
  }

  lemma {:induction false} ParsePrinted(p: Param)
    requires p.value.Text? && Plain(p.name) && Plain(p.value.s)
    ensures ParsePart(ParamText(p)) == p
  {
    SplitFirst(p.name, '=', p.value.s);
    SplitNone(p.value.s, '=');
  }

  lemma {:induction false} CollectPrinted(obj: PropList, ps: PropList)
    requires WellFormed(obj + ps) && AllText(ps)
    ensures Collect(obj, ParamTexts(ps)) == obj + ps
    decreases ps
  {
    if ps != [] {
      var p := ps[0];
      assert obj + ps == (obj + [p]) + ps[1..];
      assert (obj + ps)[|obj|] == p;
      forall q | q in obj ensures q.name != p.name {
        var i :| 0 <= i < |obj| && obj[i] == q;
        assert (obj + ps)[i] == q;
      }
      assert p in obj + ps;
      ParsePrinted(p);
      AssignNew(obj, p);
      CollectPrinted(obj + [p], ps[1..]);
    }
  }

  lemma {:induction false} TextsFree(ps: PropList, c: char)
    requires WellFormed(ps) && (c == '&' || c == '?')
    ensures Free(ParamTexts(ps), c)
  {
    if ps != [] {
      assert ps[0] in ps;
      TextsFree(ps[1..], c);
    }
  }

  lemma {:induction false} TextsLength(ps: PropList)
    requires AllText(ps)
    ensures |ParamTexts(ps)| == |ps|
    ensures forall i :: 0 <= i < |ps| ==> ParamTexts(ps)[i] == ParamText(ps[i])
  {
    if ps != [] {
      TextsLength(ps[1..]);
    }
  }

  // Parsing inverts printing, down to the base.
  lemma {:induction false} ParseUrl(base: string, ps: PropList)
    requires '?' !in base && WellFormed(ps) && ps != []
    ensures Split(Url(base, ps), '?') == [base, Query(ps)]
    ensures Collect([], Split(Query(ps), '&')) == ps
  {
    TextsLength(ps);
    TextsFree(ps, '?');
    JoinFree(ParamTexts(ps), '&', '?');
    SplitNone(Query(ps), '?');
    SplitFirst(base, '?', Query(ps));
    assert Url(base, ps) == base + ['?'] + Query(ps);
    TextsFree(ps, '&');
    SplitJoin(ParamTexts(ps), '&');
    assert [] + ps == ps;
    CollectPrinted([], ps);
  }

  lemma {:induction false} QueryInjective(ps: PropList, qs: PropList)
    requires WellFormed(ps) && WellFormed(qs) && ps != [] && qs != [] && Query(ps) == Query(qs)
    ensures ps == qs
  {
    ParseUrl("", ps);
    ParseUrl("", qs);
  }

  // --- Deleting ------------------------------------------------------------------------

  lemma {:induction false} WithoutMembers(ps: PropList, key: string)
    ensures forall p :: p in Without(ps, key) <==> p in ps && p.name != key
    ensures (forall p :: p in ps ==> p.name != key) ==> Without(ps, key) == ps
  {
    if ps != [] {
      WithoutMembers(ps[1..], key);
    }
  }

  lemma {:induction false} DistinctCons(p: Param, ps: PropList)
    ensures DistinctNames([p] + ps) <==> DistinctNames(ps) && forall q :: q in ps ==> q.name != p.name
  {
    var all := [p] + ps;
    if DistinctNames(all) {
      forall i, j | 0 <= i < j < |ps| ensures ps[i].name != ps[j].name {
        assert all[i + 1] == ps[i] && all[j + 1] == ps[j];
      }
      forall q | q in ps ensures q.name != p.name {
        var j :| 0 <= j < |ps| && ps[j] == q;
        assert all[0] == p && all[j + 1] == q;
      }
    }
  }

  lemma {:induction false} WithoutDistinct(ps: PropList, key: string)
    requires DistinctNames(ps)
    ensures DistinctNames(Without(ps, key))
  {
    if ps != [] {
      assert [ps[0]] + ps[1..] == ps;
      DistinctCons(ps[0], ps[1..]);
      WithoutDistinct(ps[1..], key);
      WithoutMembers(ps[1..], key);
      DistinctCons(ps[0], Without(ps[1..], key));
    }
  }

  // --- Printing ------------------------------------------------------------------------

  // The text s as it comes out of JSON quoting and the three replacements.
  function Printed(s: string): string {
    Rewrite(Escape(s))
  }

  lemma {:induction false} StripConcat(a: string, b: string)
    ensures Strip(a + b) == Strip(a) + Strip(b)
  {
    if a == "" {
      assert a + b == b;
    } else {
      assert (a + b)[1..] == a[1..] + b;
      StripConcat(a[1..], b);
    }
  }

  lemma {:induction false} SwapConcat(a: string, b: string, from: char, to: char)
    ensures Swap(a + b, from, to) == Swap(a, from, to) + Swap(b, from, to)
  {
    if a == "" {
      assert a + b == b;
    } else {
      assert (a + b)[1..] == a[1..] + b;
      SwapConcat(a[1..], b, from, to);
    }
  }

  lemma {:induction false} RewriteConcat(a: string, b: string)
    ensures Rewrite(a + b) == Rewrite(a) + Rewrite(b)
  {
    StripConcat(a, b);
    SwapConcat(Strip(a), Strip(b), ':', '=');
    SwapConcat(Swap(Strip(a), ':', '='), Swap(Strip(b), ':', '='), ',', '&');
  }

  lemma {:induction false} EscapeConcat(a: string, b: string)
    ensures Escape(a + b) == Escape(a) + Escape(b)
  {
    if a == "" {
      assert a + b == b;
    } else {
      assert (a + b)[1..] == a[1..] + b;
      EscapeConcat(a[1..], b);
    }
  }

  lemma {:induction false} PrintedConcat(a: string, b: string)
    ensures Printed(a + b) == Printed(a) + Printed(b)
  {
    EscapeConcat(a, b);
    RewriteConcat(Escape(a), Escape(b));
  }

  lemma {:induction false} RewriteChar(c: char)
    ensures Rewrite([c]) == if c in "\"{}" then "" else if c == ':' then "=" else if c == ',' then "&" else [c]
  {
    assert [c][1..] == "";
    assert Strip([c]) == if c in "\"{}" then "" else [c];
    var d := if c == ':' then '=' else c;
    assert Swap([c], ':', '=') == [d];
    assert [d][1..] == "";
    assert Swap([d], ',', '&') == [if d == ',' then '&' else d];
  }

  lemma {:induction false} PrintedSeparators()
    ensures Printed("=") == "=" && Printed("&") == "&"
  {
    assert Escape("=") == "=" && Escape("&") == "&";
    RewriteChar('=');
    RewriteChar('&');
  }

  lemma {:induction false} QuoteVanishes(s: string)
    ensures Rewrite(Quote(s)) == Printed(s)
  {
    RewriteChar('\"');
    RewriteConcat("\"" + Escape(s), "\"");
    RewriteConcat("\"", Escape(s));
  }

  lemma {:induction false} MemberPrinted(p: Param)
    requires p.value.Text?
    ensures Rewrite(Quote(p.name) + ":" + Quote(p.value.s)) == Printed(ParamText(p))
  {
    RewriteChar(':');
    RewriteConcat(Quote(p.name) + ":", Quote(p.value.s));
    RewriteConcat(Quote(p.name), ":");
    QuoteVanishes(p.name);
    QuoteVanishes(p.value.s);
    PrintedSeparators();
    PrintedConcat(p.name + "=", p.value.s);
    PrintedConcat(p.name, "=");
  }

  lemma {:induction false} ListPrinted(member: string, rest: string, text: string, tail: string)
    requires Rewrite(member) == Printed(text) && Rewrite(rest) == Printed(tail)
    ensures Rewrite(member + "," + rest) == Printed(text + "&" + tail)
  {
    RewriteChar(',');
    RewriteConcat(member + ",", rest);
    RewriteConcat(member, ",");
    PrintedSeparators();
    PrintedConcat(text + "&", tail);
    PrintedConcat(text, "&");
  }

  lemma {:induction false} MembersPrinted(ps: PropList)
    requires AllText(ps)
    ensures |Members(ps)| == |ps| && Rewrite(Join(Members(ps), ',')) == Printed(Query(ps))
  {
    if ps != [] {
      var p, rest := ps[0], ps[1..];
      var member := Quote(p.name) + ":" + Quote(p.value.s);
      MembersPrinted(rest);
      MemberPrinted(p);
      TextsLength(rest);
      assert Members(ps) == [member] + Members(rest);
      if rest != [] {
        JoinCons(member, Members(rest), ',');
        JoinCons(ParamText(p), ParamTexts(rest), '&');
        ListPrinted(member, Join(Members(rest), ','), ParamText(p), Query(rest));
      } else {
        assert Members(rest) == [] && ParamTexts(rest) == [];
      }
    }
  }

  // The whole printer is Printed applied to the query text.
  lemma {:induction false} StringifyPrinted(ps: PropList)
    requires AllText(ps)
    ensures Rewrite(Stringify(ps)) == Printed(Query(ps))
  {
    var body := Join(Members(ps), ',');
    MembersPrinted(ps);
    RewriteChar('{');
    RewriteChar('}');
    RewriteConcat("{" + body, "}");
    RewriteConcat("{", body);
  }

  // Characters that no step of the printer produces.
  predicate Unprintable(c: char) {
    c < ' ' || c in "\"{}:,"
  }

  // Characters that the printer strips or rewrites.
  predicate Unsafe(c: char) {
    Unprintable(c) || c == '\\'
  }

  predicate Safe(s: string) {
    forall c :: c in s ==> !Unsafe(c)
  }

  lemma {:induction false} RewriteOutput(s: string)
    requires forall c :: c in s ==> c >= ' '
    ensures forall c :: c in Rewrite(s) ==> !Unprintable(c)
  {
    if s != "" {
      var c, rest := s[0], s[1..];
      assert [c] + rest == s;
      assert c in s && forall d :: d in rest ==> d in s;
      RewriteOutput(rest);
      RewriteConcat([c], rest);
      RewriteChar(c);
    }
  }

  lemma {:induction false} EscapeOutput(s: string)
    ensures forall c :: c in Escape(s) ==> c >= ' '
  {
    if s != "" {
      EscapeOutput(s[1..]);
      assert forall i :: 0 <= i < 16 ==> "0123456789abcdef"[i] >= ' ';
    }
  }

  lemma {:induction false} PrintedOutput(s: string)
    ensures forall c :: c in Printed(s) ==> !Unprintable(c)
  {
    EscapeOutput(s);
    RewriteOutput(Escape(s));
  }

  lemma {:induction false} PrintedChar(c: char)
    requires !Unprintable(c)
    ensures Printed([c]) == if c == '\\' then "\\\\" else [c]
  {
    assert [c][1..] == "" && Escape([c]) == EscapeChar(c);
    RewriteChar(c);
    if c == '\\' {
      assert "\\\\" == "\\" + "\\";
      RewriteConcat("\\", "\\");
    }
  }

  // Backslashes are doubled, every other printable character is kept.
  lemma {:induction false} PrintedLength(s: string)
    requires forall c :: c in s ==> !Unprintable(c)
    ensures |Printed(s)| >= |s|
    ensures '\\' !in s ==> Printed(s) == s
    ensures '\\' in s ==> |Printed(s)| > |s|
  {
    if s != "" {
      var c, rest := s[0], s[1..];
      assert [c] + rest == s;
      assert c in s && forall d :: d in rest ==> d in s;
      PrintedLength(rest);
      PrintedConcat([c], rest);
      PrintedChar(c);
      assert '\\' in s <==> c == '\\' || '\\' in rest;
    }
  }

  // Printing keeps a text exactly when it is safe.
  lemma {:induction false} PrintedExactly(s: string)
    ensures Printed(s) == s <==> Safe(s)
  {
    PrintedOutput(s);
    if Printed(s) == s || Safe(s) {
      PrintedLength(s);
    }
  }
}
