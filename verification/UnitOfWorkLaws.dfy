/** Safety of the unit of work over all runs and all fault schedules. */
module UnitOfWorkLaws {
  import opened UnitOfWorkModel

  datatype Op =
    | BeginOp
    | CommitOp(tx: TxRef, args: seq<Entity>)
    | RollbackOp
    | SaveChangeOp(args: seq<Entity>)
    | WriteOp(id: nat, e: Entity)
    | HandleCommitOp(id: nat)
    | HandleRollbackOp(id: nat)

  // What a caller sees of one call.
  datatype Event =
    | Began(ref: TxRef)
    | CommitRan(tx: TxRef, args: seq<Entity>, outcome: Outcome)
    | RolledBackAll
    | SaveChangeRan(args: seq<Entity>, ok: bool)
    | WriteRan(id: nat, e: Entity, ok: bool)
    | HandleCommitRan(id: nat, ok: bool)
    | HandleRolledBack(id: nat)

  function Step(s: State, faults: Faults, op: Op): (State, Event)
    requires Sound(s)
  {
    match op
    case BeginOp => var (s1, tx) := BeginOf(s, faults); (s1, Began(tx))
    case CommitOp(tx, args) => var (s1, o) := CommitOf(s, faults, tx, args); (s1, CommitRan(tx, args, o))
    case RollbackOp => (RollbackOf(s), RolledBackAll)
    case SaveChangeOp(args) => var (s1, ok) := SaveChangeOf(s, faults, args); (s1, SaveChangeRan(args, ok))
    case WriteOp(id, e) => var (s1, ok) := WriteOf(s, faults, id, e); (s1, WriteRan(id, e, ok))
    case HandleCommitOp(id) => var (s1, ok) := HandleCommitOf(s, faults, id); (s1, HandleCommitRan(id, ok))
    case HandleRollbackOp(id) => (HandleRollbackOf(s, id), HandleRolledBack(id))
  }

  // The transaction that a call may touch, if it is not a new one.
  ghost predicate SameExcept(d: Db, d': Db, id: nat) {
    && |d.txs| <= |d'.txs|
    && forall k :: 0 <= k < |d.txs| && k != id ==> d'.txs[k] == d.txs[k]
  }

  // --- What the store operations change -------------------------------------------------

  // All saves worked and are pending, or a prefix is and the transaction is as open as before.
  lemma {:induction false} SaveAllEffect(d: Db, faults: Faults, id: nat, es: seq<Entity>)
    requires id < |d.txs|
    ensures var (d', ok) := SaveAll(d, faults, id, es);
      && d'.durable == d.durable && |d'.txs| == |d.txs| && SameExcept(d, d', id)
      && d'.txs[id].session == d.txs[id].session && d'.txs[id].status == d.txs[id].status
      && (ok ==> d'.txs[id].pending == d.txs[id].pending + es)
    decreases es
  {
    if es == [] {
      assert d.txs[id].pending + es == d.txs[id].pending;
    } else if SaveWorks(d, faults, id) {
      SaveAllEffect(SaveTx(d, faults, id, es[0]), faults, id, es[1..]);
      assert d.txs[id].pending + [es[0]] + es[1..] == d.txs[id].pending + es;
    }
  }

  // SaveChange is all or nothing in a transaction of its own: success leaves the flattened
  // arguments pending in it, failure leaves it ended and empty. Nothing else moves.
  lemma {:induction false} SaveChangeAllOrNothing(s: State, faults: Faults, args: seq<Entity>)
    ensures var (s', ok) := SaveChangeOf(s, faults, args);
      var n := |s.db.txs|;
      && s'.context == s.context && s'.db.durable == s.db.durable
      && |s'.db.txs| == n + 1 && s'.db.txs[..n] == s.db.txs && !s'.db.txs[n].session
      && (ok ==> s'.db.txs[n].pending == Flatten(args) && (s'.db.txs[n].status == Open || Flatten(args) == []))
      && (!ok ==> s'.db.txs[n].pending == [] && s'.db.txs[n].status == RolledBack)
  {
    var n := |s.db.txs|;
    var d := BeginTx(s.db, faults, false);
    SaveAllEffect(d, faults, n, Flatten(args));
    var (d', ok) := SaveAll(d, faults, n, Flatten(args));
    assert d'.txs[..n] == s.db.txs;
    assert [] + Flatten(args) == Flatten(args);
    DeadTxSavesNothing(d, faults, n, Flatten(args));
  }

  lemma {:induction false} DeadTxSavesNothing(d: Db, faults: Faults, id: nat, es: seq<Entity>)
    requires id < |d.txs|
    ensures d.txs[id].status != Open ==> SaveAll(d, faults, id, es).0.txs == d.txs
    ensures d.txs[id].status != Open ==> (SaveAll(d, faults, id, es).1 <==> es == [])
  {
  }

  // --- Traces ---------------------------------------------------------------------------

  // The saves that one event makes in transaction id.
  function EventWrites(e: Event, id: nat): seq<Entity> {
    match e
    case WriteRan(id', x, ok) => if ok && id' == id then [x] else []
    case CommitRan(tx, args, o) => if tx == Ref(id) && o == Done then args else []
    case _ => []
  }

  // The complete batch of transaction id so far: repository writes and committed arguments.
  function Batch(trace: seq<Event>, id: nat): seq<Entity> {
    if trace == [] then [] else Batch(trace[..|trace| - 1], id) + EventWrites(trace[|trace| - 1], id)
  }

  // The transaction that an event makes durable, if any.
  function Settles(e: Event): TxRef {
    match e
    case CommitRan(tx, _, o) => if o == Done then tx else NilRef
    case HandleCommitRan(id, ok) => if ok then Ref(id) else NilRef
    case _ => NilRef
  }

  // The batches of the successful commits of transactions, in order.
  function Ledger(trace: seq<Event>): seq<Entity> {
    if trace == [] then []
    else
      var r := Settles(trace[|trace| - 1]);
      Ledger(trace[..|trace| - 1]) + if r.Ref? then Batch(trace, r.id) else []
  }

  // How often transaction id was committed.
  function Commits(trace: seq<Event>, id: nat): nat {
    if trace == [] then 0
    else Commits(trace[..|trace| - 1], id) + if Settles(trace[|trace| - 1]) == Ref(id) then 1 else 0
  }

  // t' is t followed by e, as far as the books are concerned.
  ghost predicate Extends(t': seq<Event>, t: seq<Event>, e: Event) {
    && (forall id: nat :: Batch(t', id) == Batch(t, id) + EventWrites(e, id))
    && (forall id: nat :: Commits(t', id) == Commits(t, id) + if Settles(e) == Ref(id) then 1 else 0)
    && Ledger(t') == Ledger(t) + if Settles(e).Ref? then Batch(t', Settles(e).id) else []
  }

  lemma {:induction false} TraceExtends(t: seq<Event>, e: Event)
    ensures Extends(t + [e], t, e)
  {
    assert (t + [e])[..|t|] == t;
  }

  function Run(s: State, faults: Faults, ops: seq<Op>): (r: (State, seq<Event>))
    requires Sound(s)
    ensures Sound(r.0)
  {
    if ops == [] then (s, [])
    else
      var (s1, trace) := Run(s, faults, ops[..|ops| - 1]);
      StepSound(s1, faults, ops[|ops| - 1]);
      var (s2, e) := Step(s1, faults, ops[|ops| - 1]);
      (s2, trace + [e])
  }

  lemma {:induction false} StepSound(s: State, faults: Faults, op: Op)
    requires Sound(s)
    ensures Sound(Step(s, faults, op).0) && |Step(s, faults, op).0.db.txs| >= |s.db.txs|
  {
    match op
    case CommitOp(tx, args) => SaveChangeAllOrNothing(s, faults, [List(args)]);
    case SaveChangeOp(args) => SaveChangeAllOrNothing(s, faults, args);
    case _ =>
  }

  // --- The invariant --------------------------------------------------------------------

  predicate OpenSession(d: Db, id: nat) {
    id < |d.txs| && d.txs[id].session && d.txs[id].status == Open
  }

  // At most the current transaction is open.
  ghost predicate OneOpen(s: State) {
    && (s.context.Current? ==> s.context.id < |s.db.txs| && s.db.txs[s.context.id].session)
    && forall id: nat :: OpenSession(s.db, id) ==> s.context == Current(id)
  }

  // An open transaction holds its batch and was never committed. Ids not yet handed out are new.
  ghost predicate Books(s: State, trace: seq<Event>) {
    && (forall id: nat :: OpenSession(s.db, id) ==> s.db.txs[id].pending == Batch(trace, id) && Commits(trace, id) == 0)
    && (forall id: nat :: id >= |s.db.txs| ==> Batch(trace, id) == [] && Commits(trace, id) == 0)
    && (forall id: nat :: Commits(trace, id) <= 1)
  }

  ghost predicate Inv(s: State, trace: seq<Event>, durable: seq<Entity>) {
    OneOpen(s) && Books(s, trace) && s.db.durable == durable + Ledger(trace)
  }

  ghost predicate Fresh(s: State) {
    s.context == NoContext && forall tx :: tx in s.db.txs ==> !tx.session
  }

  // A step that writes to no open session transaction keeps the books.
  lemma {:induction false} QuietStep(s: State, s': State, t: seq<Event>, t': seq<Event>, e: Event, durable: seq<Entity>)
    requires Inv(s, t, durable) && OneOpen(s') && Extends(t', t, e)
    requires s'.db.durable == s.db.durable && |s'.db.txs| >= |s.db.txs|
    requires forall id: nat :: OpenSession(s'.db, id) ==> OpenSession(s.db, id) && s'.db.txs[id] == s.db.txs[id]
    requires !Settles(e).Ref? && !(e.WriteRan? && e.ok)
    ensures Inv(s', t', durable)
  {
    forall id: nat ensures Batch(t', id) == Batch(t, id) && Commits(t', id) == Commits(t, id) {
      assert EventWrites(e, id) == [];
    }
  }

  lemma {:induction false} BeginKeepsInv(s: State, t: seq<Event>, durable: seq<Entity>, faults: Faults, t': seq<Event>)
    requires Inv(s, t, durable) && Extends(t', t, Step(s, faults, BeginOp).1)
    ensures Inv(Step(s, faults, BeginOp).0, t', durable)
  {
    var (s', e) := Step(s, faults, BeginOp);
    if s.context.Current? {
      QuietStep(s, s', t, t', e, durable);
    } else {
      forall id: nat | OpenSession(s'.db, id) ensures id == |s.db.txs| && s'.db.txs[id].pending == [] {
        assert id < |s.db.txs| ==> OpenSession(s.db, id);
      }
    }
  }

  lemma {:induction false} WriteBooks(s: State, s': State, t: seq<Event>, t': seq<Event>, id: nat, x: Entity)
    requires Books(s, t) && Extends(t', t, WriteRan(id, x, true)) && OpenSession(s.db, id)
    requires |s'.db.txs| == |s.db.txs| && s'.db.txs[id].pending == s.db.txs[id].pending + [x]
    requires forall k: nat :: OpenSession(s'.db, k) ==> k == id
    ensures Books(s', t')
  {
    forall k: nat ensures Commits(t', k) == Commits(t, k) && (k != id ==> Batch(t', k) == Batch(t, k)) {
      assert k != id ==> EventWrites(WriteRan(id, x, true), k) == [];
    }
    assert Batch(t', id) == Batch(t, id) + [x];
  }

  lemma {:induction false} WriteKeepsInv(
    s: State, t: seq<Event>, durable: seq<Entity>, faults: Faults, id: nat, x: Entity, t': seq<Event>)
    requires Inv(s, t, durable) && Extends(t', t, Step(s, faults, WriteOp(id, x)).1)
    ensures Inv(Step(s, faults, WriteOp(id, x)).0, t', durable)
  {
    var (s', e) := Step(s, faults, WriteOp(id, x));
    if e.ok {
      assert OpenSession(s.db, id);
      forall k: nat | OpenSession(s'.db, k) ensures k == id {
        assert OpenSession(s.db, k);
      }
      WriteBooks(s, s', t, t', id, x);
    } else {
      forall k: nat | OpenSession(s'.db, k) ensures OpenSession(s.db, k) && s'.db.txs[k] == s.db.txs[k] {
      }
      QuietStep(s, s', t, t', e, durable);
    }
  }

  lemma {:induction false} RollbackQuiet(s: State, s1: State)
    requires OneOpen(s) && s1.context == s.context && Sound(s1)
    requires |s1.db.txs| >= |s.db.txs| && s1.db.durable == s.db.durable
    requires forall id: nat :: OpenSession(s1.db, id) ==> OpenSession(s.db, id)
    ensures !(exists id: nat :: OpenSession(RollbackOf(s1).db, id)) && RollbackOf(s1).context == NoContext
    ensures RollbackOf(s1).db.durable == s.db.durable
    ensures |RollbackOf(s1).db.txs| == |s1.db.txs|
  {
    var s' := RollbackOf(s1);
    forall id: nat | OpenSession(s'.db, id) ensures false {
      assert OpenSession(s1.db, id);
    }
  }

  // Everything a Commit that names a transaction can do.
  lemma {:induction false} CommitEffect(s: State, faults: Faults, id: nat, args: seq<Entity>)
    requires OneOpen(s)
    ensures var (s', o) := CommitOf(s, faults, Ref(id), args);
      && OneOpen(s') && SameExcept(s.db, s'.db, id) && |s'.db.txs| == |s.db.txs|
      && (o == Done ==>
        && OpenSession(s.db, id) && s'.context == s.context == Current(id)
        && s'.db.durable == s.db.durable + (s.db.txs[id].pending + args))
      && (o != Done ==> s'.db.durable == s.db.durable)
      && (o == Done || o == SaveFailed || o == CommitFailed ==> !exists k: nat :: OpenSession(s'.db, k))
      && (o == SaveFailed || o == CommitFailed ==> s'.context == NoContext)
      && (o == NotCurrent || o == Panicked ==> s' == s)
  {
    if s.context == Current(id) {
      SaveAllEffect(s.db, faults, id, args);
      DeadTxSavesNothing(s.db, faults, id, args);
      var (d, ok) := SaveAll(s.db, faults, id, args);
      forall k: nat | OpenSession(d, k) ensures OpenSession(s.db, k) && k == id {
        assert OpenSession(s.db, k);
      }
      if !ok {
        RollbackQuiet(s, State(d, s.context));
      } else {
        var s' := CommitOf(s, faults, Ref(id), args).0;
        forall k: nat | OpenSession(s'.db, k) ensures false {
          assert OpenSession(d, k);
        }
      }
    }
  }

  lemma {:induction false} SaveChangeQuiet(s: State, faults: Faults, args: seq<Entity>)
    requires OneOpen(s)
    ensures var s' := SaveChangeOf(s, faults, args).0;
      && OneOpen(s') && s'.db.durable == s.db.durable && |s'.db.txs| >= |s.db.txs| && s'.context == s.context
      && forall id: nat :: OpenSession(s'.db, id) ==> OpenSession(s.db, id) && s'.db.txs[id] == s.db.txs[id]
  {
    SaveChangeAllOrNothing(s, faults, args);
    var s' := SaveChangeOf(s, faults, args).0;
    forall id: nat | id < |s.db.txs| ensures s'.db.txs[id] == s.db.txs[id] {
      assert s'.db.txs[..|s.db.txs|][id] == s.db.txs[id];
    }
  }

  // e commits transaction id after writing args to it.
  ghost predicate Settled(e: Event, id: nat, args: seq<Entity>) {
    Settles(e) == Ref(id) && EventWrites(e, id) == args && forall k: nat :: k != id ==> EventWrites(e, k) == []
  }

  lemma {:induction false} CommitStep(
    s: State, s': State, t: seq<Event>, t': seq<Event>, durable: seq<Entity>, e: Event, id: nat, args: seq<Entity>)
    requires Inv(s, t, durable) && OneOpen(s') && Extends(t', t, e) && Settled(e, id, args)
    requires OpenSession(s.db, id) && s'.db.durable == s.db.durable + (s.db.txs[id].pending + args)
    requires |s'.db.txs| == |s.db.txs| && !exists k: nat :: OpenSession(s'.db, k)
    ensures Inv(s', t', durable)
  {
    var batch := Batch(t, id);
    assert Batch(t', id) == batch + args;
    SeqAssociative(durable, Ledger(t), batch + args);
    CommitBooks(s, s', t, t', e, id, args);
  }

  lemma {:induction false} SeqAssociative<T>(a: seq<T>, b: seq<T>, c: seq<T>)
    ensures a + b + c == a + (b + c)
  {
  }

  lemma {:induction false} CommitBooks(
    s: State, s': State, t: seq<Event>, t': seq<Event>, e: Event, id: nat, args: seq<Entity>)
    requires Books(s, t) && Extends(t', t, e) && Settled(e, id, args)
    requires OpenSession(s.db, id) && |s'.db.txs| == |s.db.txs| && !exists k: nat :: OpenSession(s'.db, k)
    ensures Books(s', t')
  {
    forall k: nat ensures Commits(t', k) <= 1 {
      assert Commits(t', k) == Commits(t, k) + if k == id then 1 else 0;
    }
    forall k: nat | k >= |s'.db.txs| ensures Batch(t', k) == [] && Commits(t', k) == 0 {
      assert EventWrites(e, k) == [];
    }
  }

  lemma {:induction false} CommitNilQuiet(s: State, faults: Faults, args: seq<Entity>)
    requires OneOpen(s)
    ensures var s' := CommitOf(s, faults, NilRef, args).0;
      && OneOpen(s') && s'.db.durable == s.db.durable && |s'.db.txs| >= |s.db.txs|
      && forall id: nat :: OpenSession(s'.db, id) ==> OpenSession(s.db, id) && s'.db.txs[id] == s.db.txs[id]
  {
    SaveChangeQuiet(s, faults, [List(args)]);
    RollbackQuiet(s, SaveChangeOf(s, faults, [List(args)]).0);
  }

  lemma {:induction false} CommitKeepsInv(
    s: State, t: seq<Event>, durable: seq<Entity>, faults: Faults, tx: TxRef, args: seq<Entity>, t': seq<Event>)
    requires Inv(s, t, durable) && Extends(t', t, Step(s, faults, CommitOp(tx, args)).1)
    ensures Inv(Step(s, faults, CommitOp(tx, args)).0, t', durable)
  {
    var (s', e) := Step(s, faults, CommitOp(tx, args));
    match tx
    case NilRef =>
      CommitNilQuiet(s, faults, args);
      QuietStep(s, s', t, t', e, durable);
    case NilPointer => QuietStep(s, s', t, t', e, durable);
    case Ref(id) => CommitRefKeepsInv(s, t, durable, faults, id, args, t');
  }

  lemma {:induction false} CommitRefKeepsInv(
    s: State, t: seq<Event>, durable: seq<Entity>, faults: Faults, id: nat, args: seq<Entity>, t': seq<Event>)
    requires Inv(s, t, durable) && Extends(t', t, Step(s, faults, CommitOp(Ref(id), args)).1)
    ensures Inv(Step(s, faults, CommitOp(Ref(id), args)).0, t', durable)
  {
    var (s', e) := Step(s, faults, CommitOp(Ref(id), args));
    CommitEffect(s, faults, id, args);
    if e.outcome == Done {
      CommitStep(s, s', t, t', durable, e, id, args);
    } else {
      QuietStep(s, s', t, t', e, durable);
    }
  }

  lemma {:induction false} HandleCommitKeepsInv(
    s: State, t: seq<Event>, durable: seq<Entity>, faults: Faults, id: nat, t': seq<Event>)
    requires Inv(s, t, durable) && Extends(t', t, Step(s, faults, HandleCommitOp(id)).1)
    ensures Inv(Step(s, faults, HandleCommitOp(id)).0, t', durable)
  {
    var (s', e) := Step(s, faults, HandleCommitOp(id));
    HandleEffect(s, faults, id);
    if e.ok {
      assert s.db.txs[id].pending + [] == s.db.txs[id].pending;
      CommitStep(s, s', t, t', durable, e, id, []);
    } else {
      QuietStep(s, s', t, t', e, durable);
    }
  }

  // A handle ends its own transaction, if that is open, and leaves everything else alone; a
  // successful commit makes its pending writes durable.
  lemma {:induction false} HandleEffect(s: State, faults: Faults, id: nat)
    requires OneOpen(s)
    ensures var (s', ok) := HandleCommitOf(s, faults, id);
      && OneOpen(s') && s'.context == s.context && |s'.db.txs| == |s.db.txs| && SameExcept(s.db, s'.db, id)
      && !OpenSession(s'.db, id)
      && (ok ==> OpenSession(s.db, id) && s'.db.durable == s.db.durable + s.db.txs[id].pending)
      && (!ok ==> s'.db.durable == s.db.durable)
      && (ok ==> !exists k: nat :: OpenSession(s'.db, k))
      && (forall k: nat :: OpenSession(s'.db, k) ==> OpenSession(s.db, k) && s'.db.txs[k] == s.db.txs[k])
    ensures var s' := HandleRollbackOf(s, id);
      && OneOpen(s') && s'.context == s.context && |s'.db.txs| == |s.db.txs| && SameExcept(s.db, s'.db, id)
      && !OpenSession(s'.db, id) && s'.db.durable == s.db.durable
      && (forall k: nat :: OpenSession(s'.db, k) ==> OpenSession(s.db, k) && s'.db.txs[k] == s.db.txs[k])
  {
    var (c, ok) := HandleCommitOf(s, faults, id);
    forall k: nat | OpenSession(c.db, k) ensures OpenSession(s.db, k) && c.db.txs[k] == s.db.txs[k] && !ok {
      if ok {
        assert OpenSession(s.db, id) && OpenSession(s.db, k);
      }
    }
    var b := HandleRollbackOf(s, id);
    forall k: nat | OpenSession(b.db, k) ensures OpenSession(s.db, k) && b.db.txs[k] == s.db.txs[k] {
    }
  }

  lemma {:induction false} StepKeepsInv(s: State, t: seq<Event>, durable: seq<Entity>, faults: Faults, op: Op)
    requires Inv(s, t, durable)
    ensures Inv(Step(s, faults, op).0, t + [Step(s, faults, op).1], durable)
  {
    var (s', e) := Step(s, faults, op);
    var t' := t + [e];
    TraceExtends(t, e);
    match op
    case BeginOp => BeginKeepsInv(s, t, durable, faults, t');
    case CommitOp(tx, args) => CommitKeepsInv(s, t, durable, faults, tx, args, t');
    case WriteOp(id, x) => WriteKeepsInv(s, t, durable, faults, id, x, t');
    case HandleCommitOp(id) => HandleCommitKeepsInv(s, t, durable, faults, id, t');
    case HandleRollbackOp(id) =>
      HandleEffect(s, faults, id);
      QuietStep(s, s', t, t', e, durable);
    case RollbackOp =>
      RollbackQuiet(s, s);
      QuietStep(s, s', t, t', e, durable);
    case SaveChangeOp(args) =>
      SaveChangeQuiet(s, faults, args);
      QuietStep(s, s', t, t', e, durable);
  }

  // --- Theorems -------------------------------------------------------------------------

  // Over every run, what is durable grows by exactly the complete batches of the successful
  // Commit(tx) calls and of the commits on handles, in order; no transaction is committed twice;
  // and at most the current transaction is open.
  lemma {:induction false} RunsAreSafe(s: State, faults: Faults, ops: seq<Op>)
    requires Fresh(s)
    ensures var (s', trace) := Run(s, faults, ops);
      && s'.db.durable == s.db.durable + Ledger(trace)
      && (forall id: nat :: Commits(trace, id) <= 1)
      && OneOpen(s')
  {
    RunKeepsInv(s, faults, ops);
  }

  lemma {:induction false} RunKeepsInv(s: State, faults: Faults, ops: seq<Op>)
    requires Fresh(s)
    ensures var (s', trace) := Run(s, faults, ops); Inv(s', trace, s.db.durable)
  {
    if ops == [] {
      assert s.db.durable + [] == s.db.durable;
      forall id: nat | id < |s.db.txs| ensures !s.db.txs[id].session {
        assert s.db.txs[id] in s.db.txs;
      }
    } else {
      var front := ops[..|ops| - 1];
      RunKeepsInv(s, faults, front);
      var (s1, trace) := Run(s, faults, front);
      StepKeepsInv(s1, trace, s.db.durable, faults, ops[|ops| - 1]);
    }
  }

  // In every reachable state: a Rollback, and a Commit of the current transaction that fails,
  // leave no transaction of Begin open, no current transaction, and nothing written. IsHasActive
  // answers false then.
  lemma {:induction false} FailureEndsTheTransaction(s: State, faults: Faults, ops: seq<Op>, args: seq<Entity>)
    requires Fresh(s)
    ensures var s1 := Run(s, faults, ops).0;
      var back := RollbackOf(s1);
      && (!exists k: nat :: OpenSession(back.db, k)) && !HasActive(back) && back.db.durable == s1.db.durable
    ensures var s1 := Run(s, faults, ops).0;
      s1.context.Current? ==>
        var (s2, o) := CommitOf(s1, faults, Ref(s1.context.id), args);
        o == Done || ((!exists k: nat :: OpenSession(s2.db, k)) && !HasActive(s2) && s2.db.durable == s1.db.durable)
  {
    RunsAreSafe(s, faults, ops);
    var s1 := Run(s, faults, ops).0;
    RollbackQuiet(s1, s1);
    if s1.context.Current? {
      CommitEffect(s1, faults, s1.context.id, args);
    }
  }

  // A successful Commit leaves its ended transaction current: Begin is refused, and committing
  // it again fails, writes nothing and clears it.
  lemma {:induction false} CommittedStaysCurrent(
    s: State, faults: Faults, ops: seq<Op>, args: seq<Entity>, again: seq<Entity>)
    requires Fresh(s) && Run(s, faults, ops).0.context.Current?
    ensures var s1 := Run(s, faults, ops).0;
      var id := s1.context.id;
      var (s2, o) := CommitOf(s1, faults, Ref(id), args);
      o == Done ==>
        && s2.context == Current(id) && BeginOf(s2, faults) == (s2, NilRef)
        && var (s3, o') := CommitOf(s2, faults, Ref(id), again);
           o' != Done && s3.db.durable == s2.db.durable && s3.context == NoContext
  {
    RunsAreSafe(s, faults, ops);
    var s1 := Run(s, faults, ops).0;
    var id := s1.context.id;
    CommitEffect(s1, faults, id, args);
    var (s2, o) := CommitOf(s1, faults, Ref(id), args);
    if o == Done {
      SaveAllEffect(s1.db, faults, id, args);
      assert OneOpen(s2);
      CommitEffect(s2, faults, id, again);
    }
  }

  // Ending the current transaction through its handle leaves it current too: Begin is refused,
  // and a Commit of it fails, writes nothing and clears it.
  lemma {:induction false} EndedByHandleStaysCurrent(s: State, faults: Faults, ops: seq<Op>, args: seq<Entity>)
    requires Fresh(s) && Run(s, faults, ops).0.context.Current?
    ensures var s1 := Run(s, faults, ops).0;
      var id := s1.context.id;
      StuckOn(HandleCommitOf(s1, faults, id).0, faults, id, args) && StuckOn(HandleRollbackOf(s1, id), faults, id, args)
  {
    RunsAreSafe(s, faults, ops);
    var s1 := Run(s, faults, ops).0;
    var id := s1.context.id;
    HandleEffect(s1, faults, id);
    CommitEffect(HandleCommitOf(s1, faults, id).0, faults, id, args);
    CommitEffect(HandleRollbackOf(s1, id), faults, id, args);
  }

  ghost predicate StuckOn(s: State, faults: Faults, id: nat, args: seq<Entity>)
    requires Sound(s)
  {
    && s.context == Current(id) && BeginOf(s, faults) == (s, NilRef)
    && var (s', o) := CommitOf(s, faults, Ref(id), args);
       (o == SaveFailed || o == CommitFailed) && s'.db.durable == s.db.durable && s'.context == NoContext
  }

  // Commit without a transaction saves its arguments as they are, nil ones included, in a
  // transaction of its own that nobody commits.
  lemma {:induction false} CommitWithoutTransaction(s: State, faults: Faults, args: seq<Entity>)
    requires OneOpen(s)
    ensures var (s', o) := CommitOf(s, faults, NilRef, args);
      var n := |s.db.txs|;
      && s'.db.durable == s.db.durable && |s'.db.txs| == n + 1 && !s'.db.txs[n].session
      && (o == Done ==> s'.db.txs[n].pending == args && s'.context == s.context)
      && (o != Done ==> o == SaveFailed && s'.db.txs[n].pending == [] && s'.context == NoContext)
  {
    assert Flatten([List(args)]) == args + Flatten([]);
    SaveChangeAllOrNothing(s, faults, [List(args)]);
  }

  // No later call ever reaches a transaction that SaveChange opened.
  lemma {:induction false} PrivateTxFrozen(s: State, faults: Faults, ops: seq<Op>, id: nat)
    requires OneOpen(s) && id < |s.db.txs| && !s.db.txs[id].session
    ensures var s' := Run(s, faults, ops).0; OneOpen(s') && id < |s'.db.txs| && s'.db.txs[id] == s.db.txs[id]
  {
    if ops != [] {
      PrivateTxFrozen(s, faults, ops[..|ops| - 1], id);
      StepFreezes(Run(s, faults, ops[..|ops| - 1]).0, faults, ops[|ops| - 1], id);
    }
  }

  lemma {:induction false} StepFreezes(s: State, faults: Faults, op: Op, id: nat)
    requires OneOpen(s) && id < |s.db.txs| && !s.db.txs[id].session
    ensures var s' := Step(s, faults, op).0; OneOpen(s') && id < |s'.db.txs| && s'.db.txs[id] == s.db.txs[id]
  {
    var s' := Step(s, faults, op).0;
    match op
    case BeginOp =>
      forall k: nat | OpenSession(s'.db, k) ensures s'.context == Current(k) {
        assert k < |s.db.txs| ==> OpenSession(s.db, k);
      }
    case CommitOp(tx, args) =>
      SaveChangeFreezes(s, faults, [List(args)], id);
      SaveChangeQuiet(s, faults, [List(args)]);
      if tx.Ref? {
        CommitEffect(s, faults, tx.id, args);
      } else {
        RollbackQuiet(s, SaveChangeOf(s, faults, [List(args)]).0);
      }
    case WriteOp(k, x) =>
      forall j: nat | OpenSession(s'.db, j) ensures OpenSession(s.db, j) {
      }
    case RollbackOp => RollbackQuiet(s, s);
    case HandleCommitOp(k) => HandleEffect(s, faults, k);
    case HandleRollbackOp(k) => HandleEffect(s, faults, k);
    case SaveChangeOp(args) =>
      SaveChangeFreezes(s, faults, args, id);
      SaveChangeQuiet(s, faults, args);
  }

  lemma {:induction false} SaveChangeFreezes(s: State, faults: Faults, args: seq<Entity>, id: nat)
    requires id < |s.db.txs|
    ensures var s' := SaveChangeOf(s, faults, args).0; id < |s'.db.txs| && s'.db.txs[id] == s.db.txs[id]
  {
    SaveChangeAllOrNothing(s, faults, args);
    var s' := SaveChangeOf(s, faults, args).0;
    assert s'.db.txs[..|s.db.txs|][id] == s.db.txs[id];
  }
}
