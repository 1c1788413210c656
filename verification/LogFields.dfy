/** handleFields: turning loose key/value arguments into log fields. */
module LogFields {

  // An argument is a string, an already typed field (which is illegal here), or anything else.
  datatype Arg = Text(s: string) | TypedField(id: int) | Other(id: int)

  // zap.Any(key, value), or one of the additional fields.
  datatype Field = Any(key: string, value: Arg) | Extra(id: int)

  datatype Complaint = TypedFieldPassed(arg: Arg) | OddNumber(ignored: Arg) | KeyNotString(key: Arg)

  // The first n pairs have a key that is a string and a value.
  ghost predicate ValidPairs(args: seq<Arg>, n: nat) {
    2 * n <= |args| && forall j :: 0 <= j < n ==> args[2 * j].Text?
  }

  ghost predicate LongestValid(args: seq<Arg>, n: nat) {
    ValidPairs(args, n) && forall m: nat :: ValidPairs(args, m) ==> m <= n
  }

  function Pairs(args: seq<Arg>, n: nat): (fields: seq<Field>)
    requires 2 * n <= |args| && forall j :: 0 <= j < n ==> args[2 * j].Text?
    ensures |fields| == n && forall j :: 0 <= j < n ==> fields[j] == Any(args[2 * j].s, args[2 * j + 1])
  {
    seq(n, j requires 0 <= j < n => Any(args[2 * j].s, args[2 * j + 1]))
  }

  // What is wrong right after the n-th pair, if anything is left.
  function Complaints(args: seq<Arg>, n: nat): seq<Complaint>
    requires 2 * n <= |args|
  {
    if 2 * n == |args| then []
    else if args[2 * n].TypedField? then [TypedFieldPassed(args[2 * n])]
    else if 2 * n + 1 == |args| then [OddNumber(args[2 * n])]
    else [KeyNotString(args[2 * n])]
  }

  // The fields of the longest valid prefix, then the additional ones; at most one complaint,
  // and none exactly when the arguments are complete pairs with string keys.
  method HandleFields(args: seq<Arg>, additional: seq<Field>)
    returns (fields: seq<Field>, complaints: seq<Complaint>, ghost n: nat)
    ensures LongestValid(args, n)
    ensures fields == Pairs(args, n) + additional
    ensures complaints == Complaints(args, n)
    ensures |complaints| <= 1
    ensures complaints == [] <==> |args| % 2 == 0 && forall i :: 0 <= i < |args| && i % 2 == 0 ==> args[i].Text?
  {
    n := 0;
    if |args| == 0 {
      return additional, [], n;
    }
    fields, complaints := [], [];
    var i := 0;
    while i < |args|
      invariant i == 2 * n && ValidPairs(args, n)
      invariant fields == Pairs(args, n) && complaints == []
    {
      if args[i].TypedField? {
        complaints := complaints + [TypedFieldPassed(args[i])];
        break;
      }
      if i == |args| - 1 {
        complaints := complaints + [OddNumber(args[i])];
        break;
      }
      var key, val := args[i], args[i + 1];
      if !key.Text? {
        complaints := complaints + [KeyNotString(key)];
        break;
      }
      fields := fields + [Any(key.s, val)];
      i := i + 2;
      n := n + 1;
    }
    Stops(args, n);
    fields := fields + additional;
  }

  // A prefix after which something is wrong, or nothing is left, is the longest.
  lemma {:induction false} Stops(args: seq<Arg>, n: nat)
    requires ValidPairs(args, n)
    requires 2 * n == |args| || args[2 * n].TypedField? || 2 * n + 1 == |args| || !args[2 * n].Text?
    ensures LongestValid(args, n)
    ensures Complaints(args, n) == [] <==>
            |args| % 2 == 0 && forall i :: 0 <= i < |args| && i % 2 == 0 ==> args[i].Text?
  {
    forall m: nat | ValidPairs(args, m) ensures m <= n {
    }
    if 2 * n == |args| {
      forall i | 0 <= i < |args| && i % 2 == 0 ensures args[i].Text? {
        assert args[2 * (i / 2)].Text?;
      }
    } else if |args| % 2 == 0 {
      assert !args[2 * n].Text?;
    }
  }

  lemma {:induction false} LongestIsUnique(args: seq<Arg>, m: nat, n: nat)
    requires LongestValid(args, m) && LongestValid(args, n)
    ensures m == n
  {
  }

  // Right after the longest valid prefix, a typed field is reported as such wherever it stands, a
  // last argument as the odd one, and any other key as no string.
  lemma {:induction false} ComplaintsExactly(args: seq<Arg>, n: nat)
    requires LongestValid(args, n)
    ensures var left := args[2 * n..];
      && (left == [] ==> Complaints(args, n) == [])
      && (left != [] && left[0].TypedField? ==> Complaints(args, n) == [TypedFieldPassed(left[0])])
      && (|left| == 1 && !left[0].TypedField? ==> Complaints(args, n) == [OddNumber(left[0])])
      && (|left| >= 2 && !left[0].TypedField? ==> left[0].Other? && Complaints(args, n) == [KeyNotString(left[0])])
  {
    if 2 * n + 1 < |args| && args[2 * n].Text? {
      assert ValidPairs(args, n + 1);
    }
  }

  // The arguments that fields came from.
  function Unpaired(fields: seq<Field>): seq<Arg>
    requires forall f :: f in fields ==> f.Any?
  {
    if fields == [] then [] else [Text(fields[0].key), fields[0].value] + Unpaired(fields[1..])
  }

  // The fields read back as the arguments of the longest valid prefix, in order.
  lemma {:induction false} PairsReadBack(args: seq<Arg>, n: nat)
    requires ValidPairs(args, n)
    ensures (forall f :: f in Pairs(args, n) ==> f.Any?) && Unpaired(Pairs(args, n)) == args[..2 * n]
    decreases n
  {
    if n > 0 {
      var rest := args[2..];
      forall j | 0 <= j < n - 1 ensures rest[2 * j].Text? {
        assert args[2 * (j + 1)].Text?;
      }
      PairsReadBack(rest, n - 1);
      assert Pairs(args, n)[1..] == Pairs(rest, n - 1);
      assert args[2 * 0].Text? && args[..2 * n] == [args[0], args[1]] + rest[..2 * (n - 1)];
    }
  }
}
