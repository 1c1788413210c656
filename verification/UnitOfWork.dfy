/**
 The unit of work over a transactional store. Faults come from an arbitrary schedule: the
 n-th call that reaches the database fails when faults(n) says so.
 */
module UnitOfWorkModel {

  // A value handed to Save: nil, a row, or a []interface{}.
  datatype Entity = Nil | Row(key: string, value: string) | List(items: seq<Entity>)

  datatype Status = Open | Committed | RolledBack

  // session marks the transactions opened by UnitOfWork.Begin.
  datatype Tx = Tx(session: bool, status: Status, pending: seq<Entity>)

  // durable lists the saves made permanent, in order. Transaction ids are positions in txs.
  datatype Db = Db(durable: seq<Entity>, txs: seq<Tx>, clock: nat)

  type Faults = nat -> bool

  // --- The store ------------------------------------------------------------------------

  // A transaction that fails to begin is never open.
  function BeginTx(d: Db, faults: Faults, session: bool): Db {
    Db(d.durable, d.txs + [Tx(session, if faults(d.clock) then RolledBack else Open, [])], d.clock + 1)
  }

  predicate SaveWorks(d: Db, faults: Faults, id: nat)
    requires id < |d.txs|
  {
    d.txs[id].status == Open && !faults(d.clock)
  }

  function SaveTx(d: Db, faults: Faults, id: nat, e: Entity): Db
    requires id < |d.txs|
  {
    var tx := d.txs[id];
    Db(d.durable,
       if SaveWorks(d, faults, id) then d.txs[id := tx.(pending := tx.pending + [e])] else d.txs,
       d.clock + 1)
  }

  function RollbackTx(d: Db, id: nat): Db
    requires id < |d.txs|
  {
    if d.txs[id].status == Open then d.(txs := d.txs[id := d.txs[id].(status := RolledBack, pending := [])]) else d
  }

  // A commit that fails ends the transaction without writing.
  function CommitTx(d: Db, faults: Faults, id: nat): Db
    requires id < |d.txs|
  {
    if SaveWorks(d, faults, id) then
      Db(d.durable + d.txs[id].pending, d.txs[id := d.txs[id].(status := Committed, pending := [])], d.clock + 1)
    else RollbackTx(d, id).(clock := d.clock + 1)
  }

  // Saves in order, stopping at the first failure.
  function SaveAll(d: Db, faults: Faults, id: nat, es: seq<Entity>): (r: (Db, bool))
    requires id < |d.txs|
    ensures |r.0.txs| == |d.txs|
    decreases es
  {
    if es == [] then (d, true)
    else if !SaveWorks(d, faults, id) then (SaveTx(d, faults, id, es[0]), false)
    else SaveAll(SaveTx(d, faults, id, es[0]), faults, id, es[1..])
  }

  // One level of lists is opened; nil is skipped at the top level only.
  function Flatten(args: seq<Entity>): seq<Entity> {
    if args == [] then [] else Pieces(args[0]) + Flatten(args[1..])
  }

  function Pieces(e: Entity): seq<Entity> {
    match e
    case Nil => []
    case List(items) => items
    case Row(_, _) => [e]
  }

  // --- The unit of work -----------------------------------------------------------------

  datatype Context = NoContext | Current(id: nat)

  datatype State = State(db: Db, context: Context)

  // A transaction argument: the nil interface, a nil *DbContextTx inside an interface (what
  // Current returns when there is no transaction), or a transaction.
  datatype TxRef = NilRef | NilPointer | Ref(id: nat)

  datatype Outcome = Done | NotCurrent | SaveFailed | CommitFailed | Panicked

  predicate Sound(s: State) {
    s.context.Current? ==> s.context.id < |s.db.txs|
  }

  predicate HasActive(s: State) {
    s.context.Current?
  }

  function BeginOf(s: State, faults: Faults): (State, TxRef) {
    if s.context.Current? then (s, NilRef)
    else (State(BeginTx(s.db, faults, true), Current(|s.db.txs|)), Ref(|s.db.txs|))
  }

  function SaveChangeOf(s: State, faults: Faults, args: seq<Entity>): (State, bool) {
    var id := |s.db.txs|;
    var (d, ok) := SaveAll(BeginTx(s.db, faults, false), faults, id, Flatten(args));
    (s.(db := if ok then d else RollbackTx(d, id)), ok)
  }

  function RollbackOf(s: State): State
    requires Sound(s)
  {
    if s.context.NoContext? then s else State(RollbackTx(s.db, s.context.id), NoContext)
  }

  // The variadic arguments arrive as one list, so no nil among them is skipped.
  function CommitOf(s: State, faults: Faults, tx: TxRef, args: seq<Entity>): (State, Outcome)
    requires Sound(s)
  {
    match tx
    case NilRef =>
      var (s1, ok) := SaveChangeOf(s, faults, [List(args)]);
      if ok then (s1, Done) else (RollbackOf(s1), SaveFailed)
    case NilPointer => (s, Panicked)
    case Ref(id) =>
      if s.context.NoContext? then (s, Panicked)
      else if id != s.context.id then (s, NotCurrent)
      else
        var (d, ok) := SaveAll(s.db, faults, id, args);
        if !ok then (RollbackOf(State(d, s.context)), SaveFailed)
        else if SaveWorks(d, faults, id) then (State(CommitTx(d, faults, id), s.context), Done)
        else (State(CommitTx(d, faults, id), NoContext), CommitFailed)
  }

  // A repository's write through the database handle of a session transaction.
  function WriteOf(s: State, faults: Faults, id: nat, e: Entity): (State, bool) {
    if id < |s.db.txs| && s.db.txs[id].session then (s.(db := SaveTx(s.db, faults, id, e)), SaveWorks(s.db, faults, id))
    else (s, false)
  }

  // Commit and Rollback on the handle itself: the unit of work is not told.
  function HandleCommitOf(s: State, faults: Faults, id: nat): (State, bool) {
    if id < |s.db.txs| && s.db.txs[id].session then (s.(db := CommitTx(s.db, faults, id)), SaveWorks(s.db, faults, id))
    else (s, false)
  }

  function HandleRollbackOf(s: State, id: nat): State {
    if id < |s.db.txs| && s.db.txs[id].session then s.(db := RollbackTx(s.db, id)) else s
  }

  // --- The code -------------------------------------------------------------------------

  class Database {
    var durable: seq<Entity>
    var txs: seq<Tx>
    var clock: nat
    const faults: Faults

    constructor (faults: Faults, durable: seq<Entity>)
      ensures View() == Db(durable, [], 0) && this.faults == faults
    {
      this.faults, this.durable, txs, clock := faults, durable, [], 0;
    }

    function View(): Db
      reads this
    {
      Db(durable, txs, clock)
    }

    method Begin(session: bool) returns (id: nat)
      modifies this
      ensures View() == BeginTx(old(View()), faults, session) && id == |old(txs)|
    {
      id := |txs|;
      txs := txs + [Tx(session, if faults(clock) then RolledBack else Open, [])];
      clock := clock + 1;
    }

    method Save(id: nat, e: Entity) returns (ok: bool)
      requires id < |txs|
      modifies this
      ensures View() == SaveTx(old(View()), faults, id, e) && ok == SaveWorks(old(View()), faults, id)
    {
      ok := txs[id].status == Open && !faults(clock);
      if ok {
        txs := txs[id := txs[id].(pending := txs[id].pending + [e])];
      }
      clock := clock + 1;
    }

    method Rollback(id: nat)
      requires id < |txs|
      modifies this
      ensures View() == RollbackTx(old(View()), id)
    {
      if txs[id].status == Open {
        txs := txs[id := txs[id].(status := RolledBack, pending := [])];
      }
    }

    method Commit(id: nat) returns (ok: bool)
      requires id < |txs|
      modifies this
      ensures View() == CommitTx(old(View()), faults, id) && ok == SaveWorks(old(View()), faults, id)
    {
      ok := txs[id].status == Open && !faults(clock);
      if ok {
        durable := durable + txs[id].pending;
        txs := txs[id := txs[id].(status := Committed, pending := [])];
      } else {
        Rollback(id);
      }
      clock := clock + 1;
    }
  }

  class UnitOfWork {
    const db: Database
    var contextTx: Context

    constructor (db: Database)
      ensures this.db == db && contextTx == NoContext
    {
      this.db, contextTx := db, NoContext;
    }

    function View(): State
      reads this, db
    {
      State(db.View(), contextTx)
    }

    predicate Valid()
      reads this, db
    {
      Sound(View())
    }

    method Current() returns (tx: TxRef)
      ensures tx == if contextTx.Current? then Ref(contextTx.id) else NilPointer
    {
      tx := if contextTx.Current? then Ref(contextTx.id) else NilPointer;
    }

    method IsHasActive() returns (active: bool)
      ensures active == HasActive(View())
    {
      active := contextTx.Current?;
    }

    method Begin() returns (tx: TxRef)
      requires Valid()
      modifies this, db
      ensures Valid() && (View(), tx) == BeginOf(old(View()), db.faults)
    {
      if contextTx.Current? {
        return NilRef;
      }
      var id := db.Begin(true);
      contextTx := Context.Current(id);
      return Ref(id);
    }

    method SaveChange(args: seq<Entity>) returns (ok: bool)
      requires Valid()
      modifies db
      ensures Valid() && (View(), ok) == SaveChangeOf(old(View()), db.faults, args)
    {
      var tx := db.Begin(false);
      ok := SaveEach(tx, args);
      if !ok {
        db.Rollback(tx);
      }
    }

    // The two nested loops over the arguments and the items of a list argument, which leave at
    // the first error.
    method SaveEach(tx: nat, args: seq<Entity>) returns (ok: bool)
      requires tx < |db.txs|
      modifies db
      ensures (db.View(), ok) == SaveAll(old(db.View()), db.faults, tx, Flatten(args))
    {
      ghost var all := SaveAll(db.View(), db.faults, tx, Flatten(args));
      for i := 0 to |args|
        invariant |db.txs| == |old(db.txs)|
        invariant SaveAll(db.View(), db.faults, tx, Flatten(args[i..])) == all
      {
        var e := args[i];
        ghost var later := Flatten(args[i + 1..]);
        assert args[i..][1..] == args[i + 1..];
        if e.Nil? {
          assert [] + later == later;
          continue;
        }
        if e.List? {
          for j := 0 to |e.items|
            invariant |db.txs| == |old(db.txs)|
            invariant SaveAll(db.View(), db.faults, tx, e.items[j..] + later) == all
          {
            assert (e.items[j..] + later)[1..] == e.items[j + 1..] + later;
            ok := db.Save(tx, e.items[j]);
            if !ok {
              return false;
            }
          }
          assert [] + later == later;
        } else {
          assert ([e] + later)[1..] == later;
          ok := db.Save(tx, e);
          if !ok {
            return false;
          }
        }
      }
      return true;
    }

    method Rollback()
      requires Valid()
      modifies this, db
      ensures Valid() && View() == RollbackOf(old(View()))
    {
      if contextTx.NoContext? {
        return;
      }
      db.Rollback(contextTx.id);
      contextTx := NoContext;
    }

    method Commit(tx: TxRef, args: seq<Entity>) returns (r: Outcome)
      requires Valid()
      modifies this, db
      ensures Valid() && (View(), r) == CommitOf(old(View()), db.faults, tx, args)
    {
      if tx.NilRef? {
        var ok := SaveChange([List(args)]);
        if !ok {
          Rollback();
          return SaveFailed;
        }
        return Done;
      }
      if tx.NilPointer? || contextTx.NoContext? {
        return Panicked;  // nil pointer dereference
      }
      if tx.id != contextTx.id {
        return NotCurrent;
      }
      if args != [] {
        assert Flatten([List(args)]) == args;
        var ok := SaveEach(contextTx.id, [List(args)]);
        if !ok {
          Rollback();
          return SaveFailed;
        }
      }
      var ok := db.Commit(tx.id);
      if !ok {
        contextTx := NoContext;
        return CommitFailed;
      }
      return Done;
    }
  }
}
