/** A write transaction of the SQL-backed wallet database
    (pktwallet/walletdb/sql/transaction.go). It is open while it holds its
    backend transaction and ended once `Commit` or `Rollback` succeeded.
    Callbacks registered with `OnCommit` are kept in a list and run, in
    registration order, right after a successful commit; their effects are
    recorded as a log of the callback ids that ran.

    The backend transaction (a `database/sql` `Tx`) is done after its first
    commit or rollback attempt, whether that attempt succeeded or not; every
    later attempt fails. A transaction whose backend commit or rollback
    failed therefore stays open for good. */
module Transactions {
  import opened Common
  import opened BucketIds
  import opened Buckets

  // ---------------------------------------------------------------------
  // The transaction as a value: its life cycle as a state machine

  /** Open or ended, whether the backend transaction is done, the callbacks
      still waiting for a commit, and the callbacks that have run. */
  datatype TxState = TxState(open: bool, backendDone: bool, pending: seq<nat>, fired: seq<nat>)

  /** The calls a caller can make on a transaction; `backendOk` says whether
      the backend's own commit or rollback succeeds when it is not done yet
      (a done backend refuses whatever `backendOk` says). */
  datatype Op = Commit(backendOk: bool) | Rollback(backendOk: bool) | OnCommit(f: nat)

  /** A transaction as `beginTx` returns it. */
  const Begun: TxState := TxState(true, false, [], [])

  /** One call: the state after it and what it returns. */
  function Step(s: TxState, op: Op): (TxState, Outcome)
  {
    match op
    case Commit(ok) =>
      if !s.open then (s, Fail(AlreadyEnded))
      else if s.backendDone || !ok then (s.(backendDone := true), Fail(StorageError))
      else (TxState(false, true, [], s.fired + s.pending), Pass)
    case Rollback(ok) =>
      if !s.open then (s, Fail(AlreadyEnded))
      else if s.backendDone || !ok then (s.(backendDone := true), Fail(StorageError))
      else (s.(open := false, backendDone := true), Pass)
    case OnCommit(f) =>
      (s.(pending := s.pending + [f]), Pass)
  }

  /** The state after a series of calls. */
  function Run(s: TxState, ops: seq<Op>): TxState
    decreases |ops|
  {
    if ops == [] then s else Run(Step(s, ops[0]).0, ops[1..])
  }

  /** The callbacks the calls register, in order. */
  function Registered(ops: seq<Op>): seq<nat>
  {
    if ops == [] then []
    else (if ops[0].OnCommit? then [ops[0].f] else []) + Registered(ops[1..])
  }

  /** A call on an ended transaction is refused (or, for `OnCommit`, only
      queues the callback) and runs no callback; a failed backend call
      leaves the transaction open with its callbacks, its backend now done. */
  lemma StepRefused(s: TxState, op: Op)
    requires !s.open || (!op.OnCommit? && (s.backendDone || !op.backendOk))
    ensures !op.OnCommit? ==> Step(s, op).0 == s.(backendDone := s.backendDone || s.open)
    ensures !op.OnCommit? ==> Step(s, op).1 == Fail(if s.open then StorageError else AlreadyEnded)
    ensures Step(s, op).0.open == s.open && Step(s, op).0.fired == s.fired
  {
  }

  /** Callbacks run only on a successful commit of an open transaction, and
      then every pending one runs, in order, and none is left pending. */
  lemma StepFires(s: TxState, op: Op)
    ensures Step(s, op).0.fired != s.fired ==>
      op == Commit(true) && s.open && !s.backendDone && s.pending != []
    ensures op == Commit(true) && s.open && !s.backendDone ==>
      Step(s, op).0 == TxState(false, true, [], s.fired + s.pending) && Step(s, op).1 == Pass
  {
  }

  /** Nothing is lost or repeated: the callbacks that ran followed by the
      ones still pending are always those already there followed by every
      callback registered since, in registration order. */
  lemma {:induction false} RunKeepsOrder(s: TxState, ops: seq<Op>)
    ensures Run(s, ops).fired + Run(s, ops).pending == s.fired + s.pending + Registered(ops)
    decreases |ops|
  {
    if ops != [] {
      var t := Step(s, ops[0]).0;
      var head := if ops[0].OnCommit? then [ops[0].f] else [];
      RunKeepsOrder(t, ops[1..]);
      StepKeepsOrder(s, ops[0]);
      assert Registered(ops) == head + Registered(ops[1..]);
      assert t.fired + t.pending + Registered(ops[1..]) == s.fired + s.pending + Registered(ops);
    }
  }

  /** One call moves callbacks from pending to run, or queues one more. */
  lemma StepKeepsOrder(s: TxState, op: Op)
    ensures Step(s, op).0.fired + Step(s, op).0.pending ==
      s.fired + s.pending + (if op.OnCommit? then [op.f] else [])
  {
  }

  /** From a fresh transaction, the callbacks that ran are a prefix of the
      registered ones: each runs at most once, in registration order. */
  lemma FiredInOrder(ops: seq<Op>)
    ensures Run(Begun, ops).fired <= Registered(ops)
  {
    RunKeepsOrder(Begun, ops);
    var r := Run(Begun, ops);
    assert (r.fired + r.pending)[..|r.fired|] == r.fired;
  }

  /** Once ended, a transaction stays ended and runs no further callback,
      whatever is called on it. */
  lemma {:induction false} EndedStaysEnded(s: TxState, ops: seq<Op>)
    requires !s.open
    ensures !Run(s, ops).open && Run(s, ops).fired == s.fired
    decreases |ops|
  {
    if ops != [] {
      StepRefused(s, ops[0]);
      EndedStaysEnded(Step(s, ops[0]).0, ops[1..]);
    }
  }

  /** Once the backend is done, the transaction never changes between open
      and ended and runs no further callback, whatever is called on it. */
  lemma {:induction false} DoneStaysPut(s: TxState, ops: seq<Op>)
    requires s.backendDone
    ensures Run(s, ops).open == s.open && Run(s, ops).backendDone
    ensures Run(s, ops).fired == s.fired
    decreases |ops|
  {
    if ops != [] {
      if !ops[0].OnCommit? {
        StepRefused(s, ops[0]);
      }
      DoneStaysPut(Step(s, ops[0]).0, ops[1..]);
    }
  }

  /** After a failed backend commit the transaction stays open for good and
      no callback ever runs: neither the pending ones nor any registered
      later. */
  lemma FailedCommitRunsNothing(s: TxState, ops: seq<Op>)
    requires s.open
    ensures Run(Step(s, Commit(false)).0, ops).open
    ensures Run(Step(s, Commit(false)).0, ops).fired == s.fired
  {
    DoneStaysPut(Step(s, Commit(false)).0, ops);
  }

  /** Rolled back first, a transaction never runs a callback: the ones
      registered before are dropped and later commits fail. */
  lemma RollbackRunsNothing(ops: seq<Op>)
    ensures Run(Begun, [Rollback(true)] + ops).fired == []
  {
    var s := Step(Begun, Rollback(true)).0;
    assert ([Rollback(true)] + ops)[1..] == ops;
    EndedStaysEnded(s, ops);
  }

  /** Only registering callbacks keeps a transaction open with nothing run
      and every callback pending, in order. */
  lemma {:induction false} RegisterOnly(s: TxState, ops: seq<Op>)
    requires forall i :: 0 <= i < |ops| ==> ops[i].OnCommit?
    ensures Run(s, ops) == s.(pending := s.pending + Registered(ops))
    decreases |ops|
  {
    if ops != [] {
      RegisterOnly(Step(s, ops[0]).0, ops[1..]);
      assert s.pending + [ops[0].f] + Registered(ops[1..]) == s.pending + Registered(ops);
    }
  }

  /** Registering callbacks and then committing runs every one of them
      exactly once, in registration order. */
  lemma CommitRunsAll(ops: seq<Op>)
    requires forall i :: 0 <= i < |ops| ==> ops[i].OnCommit?
    ensures Run(Begun, ops + [Commit(true)]) == TxState(false, true, [], Registered(ops))
  {
    RunSnoc(Begun, ops, Commit(true));
    RegisterOnly(Begun, ops);
  }

  lemma {:induction false} RunSnoc(s: TxState, ops: seq<Op>, op: Op)
    ensures Run(s, ops + [op]) == Step(Run(s, ops), op).0
    decreases |ops|
  {
    if ops != [] {
      assert (ops + [op])[1..] == ops[1..] + [op];
      RunSnoc(Step(s, ops[0]).0, ops[1..], op);
    } else {
      assert [op][1..] == [];
    }
  }

  // ---------------------------------------------------------------------
  // The transaction object

  /** `transaction_t`: the backend transaction (null once ended) and the
      list of commit callbacks; `backendDone` is the done flag of the
      backend transaction, and `fired` records the callbacks that ran. */
  class Transaction {
    var sqltx: Store?
    var backendDone: bool
    var onCommit: seq<nat>
    var fired: seq<nat>

    /** The transaction as a value of the state machine. */
    function State(): TxState
      reads this
    {
      TxState(sqltx != null, backendDone, onCommit, fired)
    }

    /** `beginTx`: an open transaction over the backend transaction `store`
        with no callbacks. */
    constructor (store: Store)
      ensures sqltx == store && !backendDone && onCommit == [] && fired == []
      ensures State() == Begun
    {
      sqltx := store;
      backendDone := false;
      onCommit := [];
      fired := [];
    }

    /** `CreateTopLevelBucket`: the top-level bucket `key`, created if
        missing. A done backend refuses the catalog lookup, and nothing
        changes. */
    method CreateTopLevelBucket(key: Segment) returns (b: Bucket?, err: Outcome)
      requires sqltx != null && sqltx.Valid()
      modifies sqltx
      ensures sqltx.Valid()
      ensures backendDone ==>
        b == null && err == Fail(StorageError)
        && sqltx.rows == old(sqltx.rows) && sqltx.tables == old(sqltx.tables)
      ensures !backendDone ==>
        && (b != null ==> fresh(b) && b.sqltx == sqltx)
        && Opened(old(sqltx.rows), old(sqltx.tables), sqltx.rows, sqltx.tables,
                  MkRootBucketId(key), true, b, err)
    {
      if backendDone {
        return null, Fail(StorageError);
      }
      b, err := RootBucket(sqltx, key, true);
    }

    /** `Commit`: refused once ended; a backend failure (or a backend
        already done) leaves the transaction open with its callbacks and the
        backend done; otherwise the transaction ends, every callback runs
        once in registration order, and the list is cleared. */
    method Commit(backendOk: bool) returns (err: Outcome)
      modifies this
      ensures (State(), err) == Step(old(State()), Op.Commit(backendOk))
      ensures old(sqltx) == null || old(backendDone) || !backendOk ==> sqltx == old(sqltx)
      ensures old(sqltx) != null && !old(backendDone) && backendOk ==>
        sqltx == null && fired == old(fired) + old(onCommit) && onCommit == []
    {
      if sqltx == null {
        return Fail(AlreadyEnded);
      }
      if backendDone || !backendOk {
        backendDone := true;
        return Fail(StorageError);
      }
      backendDone := true;
      sqltx := null;
      for i := 0 to |onCommit|
        invariant sqltx == null && backendDone && onCommit == old(onCommit)
        invariant fired == old(fired) + onCommit[..i]
      {
        fired := fired + [onCommit[i]];
      }
      assert onCommit[..|onCommit|] == onCommit;
      onCommit := [];
      err := Pass;
    }

    /** `Rollback`: refused once ended; a backend failure (or a backend
        already done) leaves the transaction open with the backend done;
        otherwise it ends and no callback runs. */
    method Rollback(backendOk: bool) returns (err: Outcome)
      modifies this
      ensures (State(), err) == Step(old(State()), Op.Rollback(backendOk))
      ensures old(sqltx) == null || old(backendDone) || !backendOk ==> sqltx == old(sqltx)
    {
      if sqltx == null {
        return Fail(AlreadyEnded);
      }
      if backendDone || !backendOk {
        backendDone := true;
        return Fail(StorageError);
      }
      backendDone := true;
      sqltx := null;
      err := Pass;
    }

    /** `OnCommit`: `f` goes to the end of the callback list. */
    method OnCommit(f: nat)
      modifies this
      ensures State() == Step(old(State()), Op.OnCommit(f)).0
      ensures sqltx == old(sqltx) && backendDone == old(backendDone) && onCommit == old(onCommit) + [f]
    {
      onCommit := onCommit + [f];
    }
  }

  // ---------------------------------------------------------------------
  // Scenarios

  /** A callback registered before a rollback never runs: the rollback
      succeeds and the later commit is refused. */
  method RollbackThenCommit(store: Store, f: nat) returns (rolled: Outcome, committed: Outcome, ran: seq<nat>)
    ensures rolled == Pass && committed == Fail(AlreadyEnded) && ran == []
  {
    var tx := new Transaction(store);
    tx.OnCommit(f);
    rolled := tx.Rollback(true);
    committed := tx.Commit(true);
    ran := tx.fired;
  }

  /** Two callbacks run in registration order on commit, and a second
      commit neither succeeds nor runs them again. */
  method CommitTwice(store: Store, f: nat, g: nat) returns (first: Outcome, second: Outcome, ran: seq<nat>)
    ensures first == Pass && second == Fail(AlreadyEnded) && ran == [f, g]
  {
    var tx := new Transaction(store);
    tx.OnCommit(f);
    tx.OnCommit(g);
    first := tx.Commit(true);
    second := tx.Commit(true);
    ran := tx.fired;
  }

  /** A failed backend commit keeps the transaction open and runs nothing;
      a retried commit and a rollback are refused by the done backend, so
      the callback never runs. */
  method CommitAfterFailure(store: Store, f: nat)
    returns (first: Outcome, second: Outcome, rolled: Outcome, ran: seq<nat>)
    ensures first == Fail(StorageError) && second == Fail(StorageError)
    ensures rolled == Fail(StorageError) && ran == []
  {
    var tx := new Transaction(store);
    tx.OnCommit(f);
    first := tx.Commit(false);
    second := tx.Commit(true);
    rolled := tx.Rollback(true);
    ran := tx.fired;
  }

  /** Creating the same top-level bucket twice opens the same table and
      leaves the catalog as the first call left it. */
  method CreateTopLevelTwice(store: Store, key: Segment) returns (b1: Bucket?, b2: Bucket?)
    requires store.Valid() && |key| <= MaxSegment
    modifies store
    ensures b1 != null && b2 != null && b1.table == b2.table
  {
    var tx := new Transaction(store);
    DecodeEncode([key]);
    assert Encode([key]) == MkRootBucketId(key) + Encode([]);
    var err1, err2;
    b1, err1 := tx.CreateTopLevelBucket(key);
    b2, err2 := tx.CreateTopLevelBucket(key);
  }
}
