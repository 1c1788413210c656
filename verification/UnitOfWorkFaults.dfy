/** Which faults make a call of the unit of work fail, and what it does when none comes. */
module UnitOfWorkFaults {
  import opened UnitOfWorkModel
  import opened UnitOfWorkLaws

  // No fault strikes the n calls from clock c on.
  ghost predicate Quiet(faults: Faults, c: nat, n: nat) {
    forall i :: c <= i < c + n ==> !faults(i)
  }

  predicate IsOpen(d: Db, id: nat) {
    id < |d.txs| && d.txs[id].status == Open
  }

  // Saving several entities works exactly in an open transaction without faults, or if there are
  // none; each save takes one tick of the clock.
  lemma {:induction false} SaveAllExactly(d: Db, faults: Faults, id: nat, es: seq<Entity>)
    requires id < |d.txs|
    ensures var (d', ok) := SaveAll(d, faults, id, es);
      && (ok <==> es == [] || (IsOpen(d, id) && Quiet(faults, d.clock, |es|)))
      && (ok ==> d'.clock == d.clock + |es|)
      && (es == [] ==> d' == d)
    decreases es
  {
    if es != [] && SaveWorks(d, faults, id) {
      var d1, rest := SaveTx(d, faults, id, es[0]), es[1..];
      SaveAllExactly(d1, faults, id, rest);
      assert Quiet(faults, d.clock, |es|) <==> Quiet(faults, d1.clock, |rest|) by {
        assert !faults(d.clock);
      }
    }
  }

  // --- SaveChange -------------------------------------------------------------------------

  // SaveChange works exactly if beginning and all saves meet no fault, or there is nothing to save.
  lemma {:induction false} SaveChangeExactly(s: State, faults: Faults, args: seq<Entity>)
    ensures SaveChangeOf(s, faults, args).1 <==>
            Flatten(args) == [] || Quiet(faults, s.db.clock, 1 + |Flatten(args)|)
  {
    var n, es := |s.db.txs|, Flatten(args);
    var d := BeginTx(s.db, faults, false);
    SaveAllExactly(d, faults, n, es);
    assert IsOpen(d, n) <==> !faults(s.db.clock);
    assert Quiet(faults, s.db.clock, 1 + |es|) <==> !faults(s.db.clock) && Quiet(faults, d.clock, |es|);
  }

  // What SaveChange leaves pending in its transaction.
  function Saved(s: State, faults: Faults, args: seq<Entity>): seq<Entity> {
    SaveChangeAllOrNothing(s, faults, args);
    SaveChangeOf(s, faults, args).0.db.txs[|s.db.txs|].pending
  }

  lemma {:induction false} FlattenConcat(xs: seq<Entity>, ys: seq<Entity>)
    ensures Flatten(xs + ys) == Flatten(xs) + Flatten(ys)
  {
    if xs == [] {
      assert xs + ys == ys;
    } else {
      assert (xs + ys)[1..] == xs[1..] + ys;
      FlattenConcat(xs[1..], ys);
    }
  }

  lemma {:induction false} FlattenPlain(xs: seq<Entity>)
    requires forall x :: x in xs ==> x.Row?
    ensures Flatten(xs) == xs
  {
    if xs != [] {
      assert xs[0] in xs;
      FlattenPlain(xs[1..]);
    }
  }

  lemma {:induction false} SavedIsFlat(s: State, faults: Faults, args: seq<Entity>)
    requires SaveChangeOf(s, faults, args).1
    ensures Saved(s, faults, args) == Flatten(args)
  {
    SaveChangeAllOrNothing(s, faults, args);
  }

  // Plain arguments are saved as they are, nil ones are skipped, the items of a list are saved one
  // by one.
  lemma {:induction false} SavedExactly(s: State, faults: Faults, args: seq<Entity>)
    requires SaveChangeOf(s, faults, args).1
    ensures (forall x :: x in args ==> x.Row?) ==> Saved(s, faults, args) == args
    ensures args == [Nil] ==> Saved(s, faults, args) == []
    ensures forall items :: args == [List(items)] ==> Saved(s, faults, args) == items
  {
    SavedIsFlat(s, faults, args);
    if forall x :: x in args ==> x.Row? {
      FlattenPlain(args);
    } else if |args| == 1 {
      assert args[1..] == [];
    }
  }

  // Several arguments are saved one after the other.
  lemma {:induction false} SavedInOrder(s: State, faults: Faults, args: seq<Entity>, more: seq<Entity>)
    requires SaveChangeOf(s, faults, args + more).1
    ensures SaveChangeOf(s, faults, args).1 && SaveChangeOf(s, faults, more).1
    ensures Saved(s, faults, args + more) == Saved(s, faults, args) + Saved(s, faults, more)
  {
    SaveChangeExactly(s, faults, args);
    SaveChangeExactly(s, faults, more);
    SaveChangeExactly(s, faults, args + more);
    FlattenConcat(args, more);
    SavedIsFlat(s, faults, args);
    SavedIsFlat(s, faults, more);
    SavedIsFlat(s, faults, args + more);
  }

  // --- Commit -----------------------------------------------------------------------------

  // Every outcome of Commit by its cause. Without a transaction the arguments are saved in one of
  // its own; a named one must be current; then the first fault decides, or nothing.
  lemma {:induction false} CommitOutcome(s: State, faults: Faults, tx: TxRef, args: seq<Entity>)
    requires Sound(s)
    ensures var o := CommitOf(s, faults, tx, args).1;
      match tx
      case NilRef => o == if args == [] || Quiet(faults, s.db.clock, 1 + |args|) then Done else SaveFailed
      case NilPointer => o == Panicked
      case Ref(id) =>
        o == if s.context == NoContext then Panicked
             else if s.context != Current(id) then NotCurrent
             else if args != [] && !(IsOpen(s.db, id) && Quiet(faults, s.db.clock, |args|)) then SaveFailed
             else if !IsOpen(s.db, id) || faults(s.db.clock + |args|) then CommitFailed
             else Done
  {
    match tx
    case NilRef =>
      assert Flatten([List(args)]) == args + Flatten([]);
      SaveChangeExactly(s, faults, [List(args)]);
    case NilPointer =>
    case Ref(id) =>
      if s.context == Current(id) {
        SaveAllExactly(s.db, faults, id, args);
        SaveAllEffect(s.db, faults, id, args);
      }
  }

  // The current transaction is committed exactly if it is open and no fault strikes the saves and
  // the commit; then what was pending and the arguments are durable.
  lemma {:induction false} CommitDoneExactly(s: State, faults: Faults, id: nat, args: seq<Entity>)
    requires Sound(s) && s.context == Current(id)
    ensures var (s', o) := CommitOf(s, faults, Ref(id), args);
      && (o == Done <==> IsOpen(s.db, id) && Quiet(faults, s.db.clock, |args| + 1))
      && (o == Done ==> s'.db.durable == s.db.durable + s.db.txs[id].pending + args)
  {
    CommitOutcome(s, faults, Ref(id), args);
    SaveAllExactly(s.db, faults, id, args);
    SaveAllEffect(s.db, faults, id, args);
    assert Quiet(faults, s.db.clock, |args| + 1) <==>
           Quiet(faults, s.db.clock, |args|) && !faults(s.db.clock + |args|);
    assert s.db.durable + (s.db.txs[id].pending + args) == s.db.durable + s.db.txs[id].pending + args;
    assert s.db.txs[id].pending + [] == s.db.txs[id].pending;
  }

  // --- Begin and the handles --------------------------------------------------------------

  // Begin opens a new transaction exactly if none is current and no fault strikes; if one strikes,
  // the new transaction is current but was never open.
  lemma {:induction false} BeginExactly(s: State, faults: Faults)
    ensures var (s', tx) := BeginOf(s, faults);
      var n := |s.db.txs|;
      if s.context.Current? then s' == s && tx == NilRef
      else
        && tx == Ref(n) && s'.context == Current(n) && s'.db.durable == s.db.durable
        && |s'.db.txs| == n + 1 && s'.db.txs[..n] == s.db.txs && s'.db.clock == s.db.clock + 1
        && s'.db.txs[n].session && s'.db.txs[n].pending == []
        && (OpenSession(s'.db, n) <==> !faults(s.db.clock))
  {
  }

  // Through a handle, a write and a commit work exactly in an open transaction without a fault.
  lemma {:induction false} HandleWorksExactly(s: State, faults: Faults, id: nat, e: Entity)
    ensures var (s', ok) := WriteOf(s, faults, id, e);
      && (ok <==> OpenSession(s.db, id) && !faults(s.db.clock))
      && s'.db.durable == s.db.durable && s'.context == s.context
      && (ok ==> OpenSession(s'.db, id) && s'.db.txs[id].pending == s.db.txs[id].pending + [e])
    ensures var (s', ok) := HandleCommitOf(s, faults, id);
      && (ok <==> OpenSession(s.db, id) && !faults(s.db.clock))
      && s'.db.durable == s.db.durable + if ok then s.db.txs[id].pending else []
  {
  }

  // Rollback clears the current transaction and ends it if it is open, dropping its writes; without
  // one it changes nothing. It costs no call that could fail.
  lemma {:induction false} RollbackExactly(s: State)
    requires Sound(s)
    ensures s.context == NoContext ==> RollbackOf(s) == s
    ensures s.context.Current? ==>
      var (s', id) := (RollbackOf(s), s.context.id);
      var tx := s.db.txs[id];
      && s'.context == NoContext && s'.db.durable == s.db.durable && s'.db.clock == s.db.clock
      && |s'.db.txs| == |s.db.txs| && SameExcept(s.db, s'.db, id)
      && s'.db.txs[id] == if tx.status == Open then Tx(tx.session, RolledBack, []) else tx
  {
  }

  // --- Runs without faults ----------------------------------------------------------------

  function Writes(id: nat, es: seq<Entity>): (ops: seq<Op>)
    ensures |ops| == |es|
  {
    seq(|es|, i requires 0 <= i < |es| => WriteOp(id, es[i]))
  }

  lemma {:induction false} RunLast(s: State, faults: Faults, ops: seq<Op>, op: Op)
    requires Sound(s)
    ensures Run(s, faults, ops + [op]).0 == Step(Run(s, faults, ops).0, faults, op).0
  {
    assert (ops + [op])[..|ops|] == ops;
  }

  // Transaction n is current and open with these pending writes, at this clock.
  ghost predicate Pends(s: State, n: nat, es: seq<Entity>, durable: seq<Entity>, clock: nat) {
    && s.context == Current(n) && OpenSession(s.db, n) && s.db.txs[n].pending == es
    && s.db.durable == durable && s.db.clock == clock
  }

  lemma {:induction false} WriteStep(
    s: State, faults: Faults, n: nat, es: seq<Entity>, e: Entity, durable: seq<Entity>, clock: nat)
    requires Sound(s) && Pends(s, n, es, durable, clock) && !faults(clock)
    ensures Pends(Step(s, faults, WriteOp(n, e)).0, n, es + [e], durable, clock + 1)
  {
    HandleWorksExactly(s, faults, n, e);
  }

  lemma {:induction false} WritesAppend(n: nat, es: seq<Entity>, e: Entity)
    ensures [BeginOp] + Writes(n, es + [e]) == [BeginOp] + Writes(n, es) + [WriteOp(n, e)]
  {
  }

  lemma {:induction false} BeginPends(s: State, faults: Faults)
    requires s.context == NoContext && Quiet(faults, s.db.clock, 1)
    ensures Pends(Run(s, faults, [BeginOp]).0, |s.db.txs|, [], s.db.durable, s.db.clock + 1)
  {
    assert [] + [BeginOp] == [BeginOp];
    RunLast(s, faults, [], BeginOp);
    assert !faults(s.db.clock);
    BeginExactly(s, faults);
  }

  // Beginning and writing es without faults.
  lemma {:induction false} WritesPend(s: State, faults: Faults, es: seq<Entity>)
    requires s.context == NoContext && Quiet(faults, s.db.clock, 1 + |es|)
    ensures var n := |s.db.txs|;
      Pends(Run(s, faults, [BeginOp] + Writes(n, es)).0, n, es, s.db.durable, s.db.clock + 1 + |es|)
    decreases |es|
  {
    var n := |s.db.txs|;
    if es == [] {
      assert [BeginOp] + Writes(n, es) == [BeginOp];
      BeginPends(s, faults);
    } else {
      var front, e := es[..|es| - 1], es[|es| - 1];
      WritesPend(s, faults, front);
      assert es == front + [e];
      var ops := [BeginOp] + Writes(n, front);
      WritesAppend(n, front, e);
      WritePends(s, faults, ops, n, front, e, s.db.durable, s.db.clock + |es|);
    }
  }

  lemma {:induction false} WritePends(s: State, faults: Faults, ops: seq<Op>, n: nat, es: seq<Entity>, e: Entity,
    durable: seq<Entity>, clock: nat)
    requires Sound(s) && Pends(Run(s, faults, ops).0, n, es, durable, clock) && !faults(clock)
    ensures Pends(Run(s, faults, ops + [WriteOp(n, e)]).0, n, es + [e], durable, clock + 1)
  {
    RunLast(s, faults, ops, WriteOp(n, e));
    WriteStep(Run(s, faults, ops).0, faults, n, es, e, durable, clock);
  }

  // Begin, writes through the handle, and a Commit of the same transaction: without faults exactly
  // these writes and the arguments of the Commit become durable, in order.
  lemma {:induction false} FaultlessRunCommits(s: State, faults: Faults, es: seq<Entity>, args: seq<Entity>)
    requires s.context == NoContext && Quiet(faults, s.db.clock, 2 + |es| + |args|)
    ensures var n := |s.db.txs|;
      var (s', trace) := Run(s, faults, [BeginOp] + Writes(n, es) + [CommitOp(Ref(n), args)]);
      s'.db.durable == s.db.durable + es + args && trace[|trace| - 1] == CommitRan(Ref(n), args, Done)
  {
    var n := |s.db.txs|;
    var ops, op := [BeginOp] + Writes(n, es), CommitOp(Ref(n), args);
    WritesPend(s, faults, es);
    assert (ops + [op])[..|ops|] == ops;
    CommitDoneExactly(Run(s, faults, ops).0, faults, n, args);
  }
}
