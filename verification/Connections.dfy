/**
 * Which connection owns which transaction (`pg_wire.rs`): BEGIN, COMMIT, ROLLBACK and transactional
 * statements of any number of connections, interleaved.
 */
module Connections {
  import opened Prelude
  import opened Values
  import opened Transactions
  import opened Rows
  import opened MvccStore
  import DatabaseLifecycle
  import MvccProofs
  import MvccTheorems

  type Address = nat

  /** A statement between its start and its end. `auto` statements run in a transaction of their own. */
  datatype Statement = Statement(txn: TransactionId, auto: bool)

  datatype Server = Server(db: Db, owned: map<Address, TransactionId>, running: map<Address, Statement>)

  datatype LifecycleError = AlreadyInProgress | NothingToCommit | NothingToRollback

  datatype RowWrite = NewRow(row: RowId, data: RowData) | ChangeRow(row: RowId, data: RowData) | DropRow(row: RowId)

  datatype Command =
    | BeginWork(at: Address)
    | CommitWork(at: Address)
    | RollbackWork(at: Address)
    | StartStatement(at: Address)
    | WriteRow(at: Address, write: RowWrite)
    | EndStatement(at: Address, ok: bool)

  /** A connection runs one statement at a time. */
  predicate Possible(s: Server, cmd: Command) {
    match cmd
    case BeginWork(a) => a !in s.running
    case CommitWork(a) => a !in s.running
    case RollbackWork(a) => a !in s.running
    case StartStatement(a) => a !in s.running
    case WriteRow(a, _) => a in s.running
    case EndStatement(a, _) => a in s.running
  }

  function WriteOp(t: TransactionId, write: RowWrite): Op {
    match write
    case NewRow(r, d) => Insert(t, r, d)
    case ChangeRow(r, d) => Update(t, r, d)
    case DropRow(r) => Delete(t, r)
  }

  /** The database operation a command issues; none if the command is refused. */
  function Issues(s: Server, cmd: Command): Option<Op>
    requires Possible(s, cmd)
  {
    match cmd
    case BeginWork(a) => if a in s.owned then None else Some(Begin)
    case CommitWork(a) => if a in s.owned then Some(Commit(s.owned[a])) else None
    case RollbackWork(a) => if a in s.owned then Some(Rollback(s.owned[a])) else None
    case StartStatement(a) => if a in s.owned then None else Some(Begin)
    case WriteRow(a, write) => Some(WriteOp(s.running[a].txn, write))
    case EndStatement(a, ok) =>
      var st := s.running[a];
      if ok && st.auto then Some(Commit(st.txn)) else if ok then None else Some(Rollback(st.txn))
  }

  function Ownership(s: Server, cmd: Command): map<Address, TransactionId>
    requires Possible(s, cmd)
  {
    match cmd
    case BeginWork(a) => if a in s.owned then s.owned else s.owned[a := s.db.next]
    case CommitWork(a) => s.owned - {a}
    case RollbackWork(a) => s.owned - {a}
    case EndStatement(a, ok) => if ok || s.running[a].auto then s.owned else s.owned - {a}
    case _ => s.owned
  }

  function Running(s: Server, cmd: Command): map<Address, Statement>
    requires Possible(s, cmd)
  {
    match cmd
    case StartStatement(a) =>
      s.running[a := if a in s.owned then Statement(s.owned[a], false) else Statement(s.db.next, true)]
    case EndStatement(a, _) => s.running - {a}
    case _ => s.running
  }

  ghost function Step(s: Server, cmd: Command): Server
    requires Possible(s, cmd)
  {
    var op := Issues(s, cmd);
    Server(if op.Some? then Apply(s.db, op.value) else s.db, Ownership(s, cmd), Running(s, cmd))
  }

  /** Who is responsible for ending transaction `t`. */
  predicate Holder(s: Server, a: Address, t: TransactionId) {
    (a in s.owned && s.owned[a] == t) || (a in s.running && s.running[a].auto && s.running[a].txn == t)
  }

  /**
   * The active ids are exactly those held by connections, each by one; a connection holds at most
   * one; a statement inside a transaction block uses the block's transaction.
   */
  ghost predicate Accounted(s: Server) {
    && (forall t: TransactionId :: t in s.db.snap.active <==> exists a :: Holder(s, a, t))
    && (forall a, b, t :: Holder(s, a, t) && Holder(s, b, t) ==> a == b)
    && (forall a :: a in s.running ==> if s.running[a].auto then a !in s.owned else Get(s.owned, a) == Some(s.running[a].txn))
    && (forall t: TransactionId :: t in s.db.snap.active ==> t < s.db.next)
  }

  // ---- Every step keeps the books -------------------------------------------------------------------

  /** A connection other than the one that acts keeps what it holds and what it runs. */
  lemma OthersUntouched(s: Server, cmd: Command, b: Address)
    requires Possible(s, cmd) && b != cmd.at
    ensures Get(Step(s, cmd).owned, b) == Get(s.owned, b) && Get(Step(s, cmd).running, b) == Get(s.running, b)
    ensures forall t: TransactionId :: Holder(Step(s, cmd), b, t) <==> Holder(s, b, t)
  {
  }

  /** What the acting connection holds afterwards. */
  ghost function HoldsAfter(s: Server, cmd: Command): Option<TransactionId>
    requires Possible(s, cmd)
  {
    match cmd
    case BeginWork(a) => if a in s.owned then Some(s.owned[a]) else Some(s.db.next)
    case CommitWork(_) => None
    case RollbackWork(_) => None
    case StartStatement(a) => if a in s.owned then Some(s.owned[a]) else Some(s.db.next)
    case WriteRow(a, _) => Some(s.running[a].txn)
    case EndStatement(a, ok) => if ok && !s.running[a].auto then Some(s.running[a].txn) else None
  }

  lemma HolderAfter(s: Server, cmd: Command, t: TransactionId)
    requires Accounted(s) && Possible(s, cmd)
    ensures Holder(Step(s, cmd), cmd.at, t) <==> HoldsAfter(s, cmd) == Some(t)
  {
  }

  /** The active set gains a begun id and loses an ended one. */
  lemma ActiveAfter(s: Server, cmd: Command, t: TransactionId)
    requires Accounted(s) && Possible(s, cmd)
    ensures t in Step(s, cmd).db.snap.active <==>
      HoldsAfter(s, cmd) == Some(t) || (t in s.db.snap.active && !Holder(s, cmd.at, t))
    ensures s.db.next <= Step(s, cmd).db.next <= s.db.next + 1 && (HoldsAfter(s, cmd) == Some(s.db.next) ==> Step(s, cmd).db.next == s.db.next + 1)
  {
    ActingHolder(s, cmd.at);
  }

  /** What a connection holds is active. */
  lemma ActingHolder(s: Server, a: Address)
    requires Accounted(s)
    ensures a in s.owned ==> Holder(s, a, s.owned[a]) && s.owned[a] in s.db.snap.active
    ensures a in s.running ==> Holder(s, a, s.running[a].txn) && s.running[a].txn in s.db.snap.active
  {
    assert a in s.owned ==> Holder(s, a, s.owned[a]);
    assert a in s.running ==> Holder(s, a, s.running[a].txn);
  }

  /** A held id is either new or was held before. */
  lemma HeldIsOldOrNew(s: Server, cmd: Command)
    requires Accounted(s) && Possible(s, cmd) && HoldsAfter(s, cmd).Some?
    ensures HoldsAfter(s, cmd).value == s.db.next || Holder(s, cmd.at, HoldsAfter(s, cmd).value)
  {
    ActingHolder(s, cmd.at);
  }

  lemma HeldIffActive(s: Server, cmd: Command, t: TransactionId)
    requires Accounted(s) && Possible(s, cmd)
    ensures t in Step(s, cmd).db.snap.active <==> exists a :: Holder(Step(s, cmd), a, t)
  {
    var s' := Step(s, cmd);
    ActiveAfter(s, cmd, t);
    HolderAfter(s, cmd, t);
    forall a | a != cmd.at ensures Holder(s', a, t) <==> Holder(s, a, t) { OthersUntouched(s, cmd, a); }
    if t in s'.db.snap.active && HoldsAfter(s, cmd) != Some(t) {
      var a :| Holder(s, a, t);
      assert Holder(s', a, t);
    }
    if a :| Holder(s', a, t) {
      assert a != cmd.at ==> Holder(s, a, t);
    }
  }

  lemma HeldOnce(s: Server, cmd: Command, a: Address, b: Address, t: TransactionId)
    requires Accounted(s) && Possible(s, cmd) && Holder(Step(s, cmd), a, t) && Holder(Step(s, cmd), b, t)
    ensures a == b
  {
    HolderAfter(s, cmd, t);
    if HoldsAfter(s, cmd).Some? { HeldIsOldOrNew(s, cmd); }
    forall x | x != cmd.at ensures Holder(Step(s, cmd), x, t) <==> Holder(s, x, t) { OthersUntouched(s, cmd, x); }
    forall x | Holder(s, x, t) ensures t < s.db.next { assert t in s.db.snap.active; }
  }

  lemma BlockStatements(s: Server, cmd: Command, a: Address)
    requires Accounted(s) && Possible(s, cmd)
    ensures var s' := Step(s, cmd);
      a in s'.running ==> if s'.running[a].auto then a !in s'.owned else Get(s'.owned, a) == Some(s'.running[a].txn)
  {
    if a != cmd.at { OthersUntouched(s, cmd, a); }
  }

  lemma StepKeepsAccounts(s: Server, cmd: Command)
    requires Accounted(s) && Possible(s, cmd)
    ensures Accounted(Step(s, cmd))
  {
    var s' := Step(s, cmd);
    forall t: TransactionId ensures t in s'.db.snap.active <==> exists a :: Holder(s', a, t) { HeldIffActive(s, cmd, t); }
    forall a, b, t | Holder(s', a, t) && Holder(s', b, t) ensures a == b { HeldOnce(s, cmd, a, b, t); }
    forall a | a in s'.running
      ensures if s'.running[a].auto then a !in s'.owned else Get(s'.owned, a) == Some(s'.running[a].txn)
    {
      BlockStatements(s, cmd, a);
    }
    forall t: TransactionId | t in s'.db.snap.active ensures t < s'.db.next {
      ActiveAfter(s, cmd, t);
      if HoldsAfter(s, cmd) == Some(t) { HeldIsOldOrNew(s, cmd); }
    }
  }

  // ---- Whole runs -----------------------------------------------------------------------------------

  const Idle: Server := Server(Init, map[], map[])

  ghost predicate PossibleRun(s: Server, cmds: seq<Command>)
    decreases |cmds|
  {
    cmds == [] || (Possible(s, cmds[0]) && PossibleRun(Step(s, cmds[0]), cmds[1..]))
  }

  ghost function Run(s: Server, cmds: seq<Command>): Server
    requires PossibleRun(s, cmds)
    decreases |cmds|
  {
    if cmds == [] then s else Run(Step(s, cmds[0]), cmds[1..])
  }

  lemma {:induction false} RunKeepsAccounts(s: Server, cmds: seq<Command>)
    requires Accounted(s) && PossibleRun(s, cmds)
    ensures Accounted(Run(s, cmds))
    decreases |cmds|
  {
    if cmds != [] {
      StepKeepsAccounts(s, cmds[0]);
      RunKeepsAccounts(Step(s, cmds[0]), cmds[1..]);
    }
  }

  /** Ids of statements running in a transaction of their own. */
  ghost function AutoIds(s: Server): set<TransactionId> {
    set a | a in s.running && s.running[a].auto :: s.running[a].txn
  }

  /**
   * After any interleaving the active set is exactly the connection-owned ids together with those of
   * running auto-commit statements, the two disjoint, and no id is owned twice.
   */
  lemma ActiveIsOwned(cmds: seq<Command>)
    requires PossibleRun(Idle, cmds)
    ensures var s := Run(Idle, cmds);
      && s.db.snap.active == s.owned.Values + AutoIds(s) && s.owned.Values !! AutoIds(s)
      && (forall a, b :: a in s.owned && b in s.owned && s.owned[a] == s.owned[b] ==> a == b)
      && (forall a, b :: a in s.running && b in s.running && s.running[a].txn == s.running[b].txn ==> a == b)
  {
    var s := Run(Idle, cmds);
    RunKeepsAccounts(Idle, cmds);
    forall t: TransactionId ensures t in s.db.snap.active <==> t in s.owned.Values + AutoIds(s) {
      if a :| Holder(s, a, t) { assert t in s.owned.Values + AutoIds(s); }
      if t in s.owned.Values { var a :| a in s.owned && s.owned[a] == t; assert Holder(s, a, t); }
      if t in AutoIds(s) { var a :| a in s.running && s.running[a].auto && s.running[a].txn == t; assert Holder(s, a, t); }
    }
    forall t | t in s.owned.Values ensures t !in AutoIds(s) {
      var a :| a in s.owned && s.owned[a] == t;
      assert Holder(s, a, t);
      assert forall b :: b in s.running && s.running[b].auto && s.running[b].txn == t ==> Holder(s, b, t);
    }
    forall a, b | a in s.owned && b in s.owned && s.owned[a] == s.owned[b] ensures a == b {
      assert Holder(s, a, s.owned[a]) && Holder(s, b, s.owned[a]);
    }
    forall a, b | a in s.running && b in s.running && s.running[a].txn == s.running[b].txn ensures a == b {
      ActingHolder(s, a);
      ActingHolder(s, b);
    }
  }

  /** Every write, commit and rollback names a transaction that is still active: none ends twice. */
  lemma OnlyActiveIdsAct(cmds: seq<Command>, cmd: Command)
    requires PossibleRun(Idle, cmds) && Possible(Run(Idle, cmds), cmd)
    ensures var s := Run(Idle, cmds);
      match Issues(s, cmd)
      case Some(Insert(t, _, _)) => t in s.db.snap.active
      case Some(Update(t, _, _)) => t in s.db.snap.active
      case Some(Delete(t, _)) => t in s.db.snap.active
      case Some(Commit(t)) => t in s.db.snap.active
      case Some(Rollback(t)) => t in s.db.snap.active
      case Some(Begin) => s.db.next !in s.db.snap.active
      case _ => true
  {
    RunKeepsAccounts(Idle, cmds);
    ActingHolder(Run(Idle, cmds), cmd.at);
  }

  /** A failed statement leaves its connection without a transaction and the id inactive. */
  lemma ErrorLeaksNothing(cmds: seq<Command>, a: Address)
    requires PossibleRun(Idle, cmds) && a in Run(Idle, cmds).running
    ensures var s := Run(Idle, cmds);
      var s' := Step(s, EndStatement(a, false));
      && a !in s'.owned && a !in s'.running && s'.db.snap.active == s.db.snap.active - {s.running[a].txn}
      && s'.db.rows == RollbackRows(s.db.rows, s.running[a].txn)
  {
    RunKeepsAccounts(Idle, cmds);
  }

  // ---- What is read afterwards ----------------------------------------------------------------------

  /** After `t` ended, `x` reads at row `r` what `t` read there, unless it has written the row itself. */
  ghost predicate PublishedTo(before: Db, after: Db, sp: Spec, t: TransactionId, x: TransactionId, r: RowId) {
    Reader(sp, x) && x != t ==>
      Read(after, x, r) == if x in sp.pending && r in sp.pending[x] then Read(before, x, r) else Read(before, t, r)
  }

  /** `t` ended with its writes in force: every other transaction, active or later, reads what `t` read. */
  ghost predicate Publishes(before: Db, after: Db, t: TransactionId) {
    && t !in after.snap.active
    && forall sp: Spec, x: TransactionId, r: RowId :: Rel(before, sp) && Legal(sp, Commit(t)) ==> PublishedTo(before, after, sp, t, x, r)
  }

  ghost predicate HiddenFrom(before: Db, after: Db, sp: Spec, t: TransactionId, x: TransactionId, r: RowId) {
    Reader(sp, x) && x != t ==> Read(after, x, r) == Read(before, x, r)
  }

  /** `t` ended without its writes: every other transaction, active or later, reads what it read before. */
  ghost predicate Withdraws(before: Db, after: Db, t: TransactionId) {
    && t !in after.snap.active
    && forall sp: Spec, x: TransactionId, r: RowId :: Rel(before, sp) && t in sp.pending ==> HiddenFrom(before, after, sp, t, x, r)
  }

  lemma CommitIsPublic(db: Db, t: TransactionId)
    ensures Publishes(db, Apply(db, Commit(t)), t)
  {
    var after := Apply(db, Commit(t));
    forall sp: Spec, x: TransactionId, r: RowId | Rel(db, sp) && Legal(sp, Commit(t)) && Reader(sp, x) && x != t
      ensures PublishedTo(db, after, sp, t, x, r)
    {
      MvccProofs.Step(db, sp, Commit(t));
      MvccProofs.ReadsAgree(db, sp, t, r);
      MvccProofs.ReadsAgree(db, sp, x, r);
      MvccProofs.ReadsAgree(after, SpecApply(sp, Commit(t), true), x, r);
    }
  }

  lemma RollbackIsHidden(db: Db, t: TransactionId)
    ensures Withdraws(db, Apply(db, Rollback(t)), t)
  {
    var after := Apply(db, Rollback(t));
    forall sp: Spec, x: TransactionId, r: RowId | Rel(db, sp) && t in sp.pending && Reader(sp, x) && x != t
      ensures HiddenFrom(db, after, sp, t, x, r)
    {
      MvccProofs.Step(db, sp, Rollback(t));
      MvccProofs.ReadsAgree(db, sp, x, r);
      MvccProofs.ReadsAgree(after, SpecApply(sp, Rollback(t), true), x, r);
    }
  }

  /** COMMIT makes the block's writes public. */
  lemma CommitPublishes(s: Server, a: Address)
    requires Possible(s, CommitWork(a)) && a in s.owned
    ensures Publishes(s.db, Step(s, CommitWork(a)).db, s.owned[a])
  {
    CommitIsPublic(s.db, s.owned[a]);
  }

  /** ROLLBACK leaves everyone else with what they read before. */
  lemma RollbackWithdraws(s: Server, a: Address)
    requires Possible(s, RollbackWork(a)) && a in s.owned
    ensures Withdraws(s.db, Step(s, RollbackWork(a)).db, s.owned[a])
  {
    RollbackIsHidden(s.db, s.owned[a]);
  }

  /**
   * The end of a statement: a successful one outside a block makes its writes public, a failed one
   * withdraws those of its whole transaction, and a successful one inside a block changes nothing yet.
   */
  lemma StatementEnds(s: Server, a: Address, ok: bool)
    requires Possible(s, EndStatement(a, ok))
    ensures ok && s.running[a].auto ==> Publishes(s.db, Step(s, EndStatement(a, ok)).db, s.running[a].txn)
    ensures !ok ==> Withdraws(s.db, Step(s, EndStatement(a, ok)).db, s.running[a].txn)
    ensures ok && !s.running[a].auto ==> Step(s, EndStatement(a, ok)).db == s.db
  {
    CommitIsPublic(s.db, s.running[a].txn);
    RollbackIsHidden(s.db, s.running[a].txn);
  }

  /** The row a write names. */
  function Target(write: RowWrite): RowId {
    match write case NewRow(r, _) => r case ChangeRow(r, _) => r case DropRow(r) => r
  }

  /** A new row has a new id; other rows are ones the transaction sees and no other active one has written. */
  predicate Proper(sp: Spec, db: Db, t: TransactionId, write: RowWrite) {
    t in sp.pending && if write.NewRow? then write.row > sp.lastRow else Read(db, t, Target(write)).Some? && SoleWriter(sp, t, Target(write))
  }

  /** A write inside a statement is read by its own transaction, at that row, and by nobody else. */
  lemma WriteIsOwn(s: Server, sp: Spec, a: Address, write: RowWrite, x: TransactionId, r: RowId)
    requires Possible(s, WriteRow(a, write)) && Rel(s.db, sp) && Proper(sp, s.db, s.running[a].txn, write) && Reader(sp, x)
    ensures Read(Step(s, WriteRow(a, write)).db, x, r) ==
      if x != s.running[a].txn || r != Target(write) then Read(s.db, x, r)
      else if write.DropRow? then None else Some(write.data)
  {
    var t := s.running[a].txn;
    var op := WriteOp(t, write);
    WriteRefines(s.db, sp, t, write);
    MvccProofs.ReadsAgree(s.db, sp, x, r);
    MvccProofs.ReadsAgree(Apply(s.db, op), SpecApply(sp, op, true), x, r);
  }

  lemma WriteRefines(db: Db, sp: Spec, t: TransactionId, write: RowWrite)
    requires Rel(db, sp) && Proper(sp, db, t, write)
    ensures var op := WriteOp(t, write);
      && Legal(sp, op) && Rel(Apply(db, op), SpecApply(sp, op, true))
      && (op.Delete? ==> SpecRead(sp, t, op.row).Some?)
  {
    var op := WriteOp(t, write);
    MvccProofs.ReadsAgree(db, sp, t, Target(write));
    assert Legal(sp, op);
    MvccProofs.Step(db, sp, op);
  }

  // ---- Writes that were never committed leave no trace ----------------------------------------------

  /** The database operations a run of commands issues. */
  ghost function OpsOf(s: Server, cmds: seq<Command>): seq<Op>
    requires PossibleRun(s, cmds)
    decreases |cmds|
  {
    if cmds == [] then []
    else (match Issues(s, cmds[0]) case None => [] case Some(op) => [op]) + OpsOf(Step(s, cmds[0]), cmds[1..])
  }

  /** The commands without the writes for transaction `t`. */
  ghost function Without(s: Server, cmds: seq<Command>, t: TransactionId): seq<Command>
    requires PossibleRun(s, cmds)
    decreases |cmds|
  {
    if cmds == [] then []
    else
      (if cmds[0].WriteRow? && s.running[cmds[0].at].txn == t then [] else [cmds[0]])
      + Without(Step(s, cmds[0]), cmds[1..], t)
  }

  /** The same connections with the same transactions, whatever is stored. */
  predicate SameBooks(s: Server, z: Server) { s.owned == z.owned && s.running == z.running && s.db.next == z.db.next }

  lemma SameBooksStep(s: Server, z: Server, cmd: Command)
    requires SameBooks(s, z) && Possible(s, cmd)
    ensures Possible(z, cmd) && Issues(z, cmd) == Issues(s, cmd) && SameBooks(Step(s, cmd), Step(z, cmd))
    ensures cmd.WriteRow? ==> SameBooks(Step(s, cmd), z)
  {
  }

  lemma {:induction false} WithoutErases(s: Server, z: Server, cmds: seq<Command>, t: TransactionId)
    requires SameBooks(s, z) && PossibleRun(s, cmds)
    ensures PossibleRun(z, Without(s, cmds, t))
    ensures OpsOf(z, Without(s, cmds, t)) == MvccTheorems.Erase(OpsOf(s, cmds), t)
    decreases |cmds|
  {
    if cmds != [] {
      var cmd, next := cmds[0], Step(s, cmds[0]);
      var kept := Without(next, cmds[1..], t);
      SameBooksStep(s, z, cmd);
      ErasedHead(s, cmds, t);
      if cmd.WriteRow? && s.running[cmd.at].txn == t {
        WithoutErases(next, z, cmds[1..], t);
        assert Without(s, cmds, t) == kept;
      } else {
        WithoutErases(next, Step(z, cmd), cmds[1..], t);
        var all := Without(s, cmds, t);
        assert all == [cmd] + kept;
        assert all[0] == cmd && all[1..] == kept;
      }
    }
  }

  /** Erasing the writes of `t` from the operations, seen from the first command. */
  lemma ErasedHead(s: Server, cmds: seq<Command>, t: TransactionId)
    requires PossibleRun(s, cmds) && cmds != []
    ensures var op, rest := Issues(s, cmds[0]), MvccTheorems.Erase(OpsOf(Step(s, cmds[0]), cmds[1..]), t);
      MvccTheorems.Erase(OpsOf(s, cmds), t) ==
        if op.None? || (cmds[0].WriteRow? && s.running[cmds[0].at].txn == t) then rest else [op.value] + rest
  {
    var op, rest := Issues(s, cmds[0]), OpsOf(Step(s, cmds[0]), cmds[1..]);
    if op.Some? {
      assert OpsOf(s, cmds)[0] == op.value && OpsOf(s, cmds)[1..] == rest;
    } else {
      assert OpsOf(s, cmds) == rest;
    }
  }

  lemma {:induction false} RunIsExec(s: Server, cmds: seq<Command>)
    requires PossibleRun(s, cmds)
    ensures Run(s, cmds).db == MvccTheorems.Exec(s.db, OpsOf(s, cmds))
    decreases |cmds|
  {
    if cmds != [] {
      var op, rest := Issues(s, cmds[0]), OpsOf(Step(s, cmds[0]), cmds[1..]);
      RunIsExec(Step(s, cmds[0]), cmds[1..]);
      if op.Some? {
        assert OpsOf(s, cmds)[0] == op.value && OpsOf(s, cmds)[1..] == rest;
      } else {
        assert OpsOf(s, cmds) == rest;
      }
    }
  }

  /** An id that was committed is never active again. */
  lemma {:induction false} CommittedIsOver(sp: Spec, ops: seq<Op>, t: TransactionId)
    requires MvccTheorems.CarefulRun(sp, ops) && forall u :: u in sp.pending ==> u < sp.next
    requires Commit(t) in ops || (t !in sp.pending && t < sp.next)
    ensures t !in MvccTheorems.SpecRun(sp, ops).pending
    decreases |ops|
  {
    if ops != [] {
      var after := SpecApply(sp, ops[0], true);
      assert forall u :: u in after.pending ==> u < after.next;
      assert Commit(t) in ops ==> ops[0] == Commit(t) || Commit(t) in ops[1..];
      CommittedIsOver(after, ops[1..], t);
    }
  }

  /** A run whose operations are legal, and whose updates and deletes name rows their transactions see. */
  ghost predicate CarefulCommands(cmds: seq<Command>) {
    PossibleRun(Idle, cmds) && MvccTheorems.CarefulRun(SpecInit, OpsOf(Idle, cmds))
  }

  ghost function SpecAfter(cmds: seq<Command>): Spec
    requires CarefulCommands(cmds)
  {
    MvccTheorems.SpecRun(SpecInit, OpsOf(Idle, cmds))
  }

  lemma CommandsRefine(cmds: seq<Command>)
    requires CarefulCommands(cmds)
    ensures Rel(Run(Idle, cmds).db, SpecAfter(cmds))
  {
    MvccTheorems.StartRelated();
    RunIsExec(Idle, cmds);
    MvccTheorems.CarefulRunRefines(Init, SpecInit, OpsOf(Idle, cmds));
  }

  /** While `t` is active, everyone else reads what they would read had its connection issued no writes for it. */
  lemma UnfinishedLeavesNoTrace(cmds: seq<Command>, t: TransactionId, u: TransactionId, r: RowId)
    requires CarefulCommands(cmds) && t in Run(Idle, cmds).db.snap.active
    requires u != t && (u in Run(Idle, cmds).db.snap.active || u >= Run(Idle, cmds).db.next)
    ensures PossibleRun(Idle, Without(Idle, cmds, t))
    ensures Read(Run(Idle, cmds).db, u, r) == Read(Run(Idle, Without(Idle, cmds, t)).db, u, r)
  {
    var ops := OpsOf(Idle, cmds);
    CommandsRefine(cmds);
    if Commit(t) in ops { CommittedIsOver(SpecInit, ops, t); }
    MvccTheorems.StartRelated();
    WithoutErases(Idle, Idle, cmds, t);
    MvccTheorems.RollbackLeavesNoTrace(Init, SpecInit, ops, t, u, r);
    RunIsExec(Idle, cmds);
    RunIsExec(Idle, Without(Idle, cmds, t));
  }

  /** The transaction that a command ends or leaves unfinished without committing it. */
  ghost predicate EndsUncommitted(s: Server, cmd: Command, t: TransactionId) {
    || (cmd.RollbackWork? && Get(s.owned, cmd.at) == Some(t))
    || (cmd.EndStatement? && cmd.at in s.running && s.running[cmd.at].txn == t && (cmd.ok ==> !s.running[cmd.at].auto))
  }

  /**
   * After ROLLBACK, after a failed statement, and after a successful statement inside a block, everyone
   * else, active or later, reads what they would read had the transaction written nothing.
   */
  lemma UncommittedLeavesNoTrace(cmds: seq<Command>, cmd: Command, t: TransactionId, u: TransactionId, r: RowId)
    requires CarefulCommands(cmds) && Possible(Run(Idle, cmds), cmd) && EndsUncommitted(Run(Idle, cmds), cmd, t)
    requires u != t && (u in Run(Idle, cmds).db.snap.active || u >= Run(Idle, cmds).db.next)
    ensures PossibleRun(Idle, Without(Idle, cmds, t))
    ensures Read(Step(Run(Idle, cmds), cmd).db, u, r) == Read(Run(Idle, Without(Idle, cmds, t)).db, u, r)
  {
    var s := Run(Idle, cmds);
    RunKeepsAccounts(Idle, cmds);
    ActingHolder(s, cmd.at);
    UnfinishedLeavesNoTrace(cmds, t, u, r);
    CommandsRefine(cmds);
    if cmd.RollbackWork? { RollbackWithdraws(s, cmd.at); } else { StatementEnds(s, cmd.at, cmd.ok); }
    assert Rel(s.db, SpecAfter(cmds)) && t in SpecAfter(cmds).pending;
    assert !(cmd.EndStatement? && cmd.ok) ==> HiddenFrom(s.db, Step(s, cmd).db, SpecAfter(cmds), t, u, r);
  }

  // ---- The operations -------------------------------------------------------------------------------

  class PgWireHandler {
    const db: DatabaseLifecycle.Database
    var activeTransactions: map<Address, TransactionId>
    /** Statements between their start and their end; in the server these are local variables. */
    var running: map<Address, Statement>

    ghost function State(): Server
      reads this, db
    {
      Server(db.State(), activeTransactions, running)
    }

    constructor (db: DatabaseLifecycle.Database)
      requires db.State() == Init
      ensures this.db == db && State() == Idle && Accounted(State())
    {
      this.db := db;
      activeTransactions, running := map[], map[];
    }

    method CreateConnectionTransaction(a: Address) returns (txn: Result<TransactionId, LifecycleError>)
      requires Accounted(State()) && Possible(State(), BeginWork(a))
      modifies this, db
      ensures State() == Step(old(State()), BeginWork(a)) && Accounted(State())
      ensures txn == if a in old(activeTransactions) then Err(AlreadyInProgress) else Ok(activeTransactions[a])
    {
      StepKeepsAccounts(State(), BeginWork(a));
      if a in activeTransactions {
        return Err(AlreadyInProgress);
      }
      var t := db.CreateTransaction();
      activeTransactions := activeTransactions[a := t];
      txn := Ok(t);
    }

    method CommitConnectionTransaction(a: Address) returns (done: Result<(), LifecycleError>)
      requires Accounted(State()) && Possible(State(), CommitWork(a))
      modifies this, db
      ensures State() == Step(old(State()), CommitWork(a)) && Accounted(State())
      ensures done == if a in old(activeTransactions) then Ok(()) else Err(NothingToCommit)
      ensures done.Ok? ==> Publishes(old(State()).db, State().db, old(activeTransactions)[a])
    {
      if a in activeTransactions { CommitPublishes(State(), a); }
      StepKeepsAccounts(State(), CommitWork(a));
      if a !in activeTransactions {
        assert activeTransactions - {a} == activeTransactions;
        return Err(NothingToCommit);
      }
      var t := activeTransactions[a];
      activeTransactions := activeTransactions - {a};
      db.CommitTransaction(t);
      done := Ok(());
    }

    method RollbackConnectionTransaction(a: Address) returns (done: Result<(), LifecycleError>)
      requires Accounted(State()) && Possible(State(), RollbackWork(a))
      modifies this, db
      ensures State() == Step(old(State()), RollbackWork(a)) && Accounted(State())
      ensures done == if a in old(activeTransactions) then Ok(()) else Err(NothingToRollback)
      ensures done.Ok? ==> Withdraws(old(State()).db, State().db, old(activeTransactions)[a])
    {
      if a in activeTransactions { RollbackWithdraws(State(), a); }
      StepKeepsAccounts(State(), RollbackWork(a));
      if a !in activeTransactions {
        assert activeTransactions - {a} == activeTransactions;
        return Err(NothingToRollback);
      }
      var t := activeTransactions[a];
      activeTransactions := activeTransactions - {a};
      db.RollbackTransaction(t);
      done := Ok(());
    }

    /** The connection's transaction, or a new one that ends with the statement. */
    method TransactionForQuery(a: Address) returns (t: TransactionId, shouldCommit: bool)
      requires Accounted(State()) && Possible(State(), StartStatement(a))
      modifies this, db
      ensures State() == Step(old(State()), StartStatement(a)) && Accounted(State())
      ensures running[a] == Statement(t, shouldCommit) && t in db.active
    {
      StepKeepsAccounts(State(), StartStatement(a));
      if a in activeTransactions {
        t, shouldCommit := activeTransactions[a], false;
      } else {
        t := db.CreateTransaction();
        shouldCommit := true;
      }
      running := running[a := Statement(t, shouldCommit)];
      ActingHolder(State(), a);
    }

    /** The end of a transactional statement: auto-commit, or rollback on failure. */
    method FinishStatement(a: Address, ok: bool)
      requires Accounted(State()) && Possible(State(), EndStatement(a, ok))
      modifies this, db
      ensures State() == Step(old(State()), EndStatement(a, ok)) && Accounted(State())
      ensures ok && old(running)[a].auto ==> Publishes(old(State()).db, State().db, old(running)[a].txn)
      ensures ok && !old(running)[a].auto ==> State().db == old(State()).db
      ensures !ok ==> a !in activeTransactions && Withdraws(old(State()).db, State().db, old(running)[a].txn)
    {
      StatementEnds(State(), a, ok);
      StepKeepsAccounts(State(), EndStatement(a, ok));
      var st := running[a];
      running := running - {a};
      if st.auto {
        if ok {
          db.CommitTransaction(st.txn);
        } else {
          db.RollbackTransaction(st.txn);
        }
      } else if !ok {
        activeTransactions := activeTransactions - {a};
        db.RollbackTransaction(st.txn);
      }
    }
  }
}
