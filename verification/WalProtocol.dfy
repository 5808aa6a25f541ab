/** Statements as steps on the log: BEGIN, INSERT and COMMIT of the user, the private transactions of
    single rows, and the fsync that ends each of them.  A crash may come between any two steps and
    leave any prefix of the log that contains everything synced. */
module WalProtocol {
  import opened Bytes
  import opened Wal

  /** Where the running statement is: between statements, or before the fsync of the user's record,
      or inside a private transaction. */
  datatype Phase =
    | Idle
    | UserWritten
    | UserCommitted
    | Begun(txn: nat)
    | Written(txn: nat)
    | Stored(txn: nat)
    | Committed(txn: nat)

  /** `acked` are the transactions whose wal_commit has returned. */
  datatype State = State(log: seq<Record>, synced: nat, nextLsn: nat, nextTxn: nat,
                         active: bool, current: nat, phase: Phase, acked: set<nat>)

  datatype Step =
    | UserBegin
    | UserInsert(table: seq<Byte>, data: seq<Byte>)
    | UserCommit
    | PrivateBegin
    | PrivateWrite(kind: Byte, table: seq<Byte>, data: seq<Byte>, page: nat)
    | PrivateCommit
    | Abandon
    | Sync

  /** After a truncation, or on an empty log. */
  function Start(): State {
    State([], 0, 1, 1, false, 0, Idle, {})
  }

  predicate IsData(kind: Byte) {
    kind == INSERT || kind == UPDATE || kind == DELETE
  }

  /** Which step may come next; the counters do not reach the end of their types between truncations. */
  predicate Enabled(s: State, step: Step) {
    && s.nextLsn + 1 < U64_LIMIT && s.nextTxn + 1 < U32_LIMIT && s.current < s.nextTxn
    && match step
       case UserBegin => s.phase == Idle
       case UserInsert(_, data) => s.phase == Idle && s.active && |data| < DATA_SIZE
       case UserCommit => s.phase == Idle
       case PrivateBegin => s.phase == Idle
       case PrivateWrite(kind, _, data, page) =>
         s.phase.Begun? && s.phase.txn < s.nextTxn && IsData(kind) && |data| < U16_LIMIT && page < U32_LIMIT
       case PrivateCommit => s.phase.Stored? && s.phase.txn < s.nextTxn
       case Abandon => s.phase.Begun? || s.phase.Stored?
       case Sync => s.phase.UserWritten? || s.phase.UserCommitted? || s.phase.Written? || s.phase.Committed?
  }

  function Logged(s: State, r: Record): State {
    s.(log := s.log + [r], nextLsn := s.nextLsn + 1)
  }

  function Synced(s: State): State {
    s.(synced := |s.log|)
  }

  /** A step that may not come next changes nothing. */
  function After(s: State, step: Step): (q: State)
    ensures AllTyped(s.log) ==> AllTyped(q.log)
  {
    if !Enabled(s, step) then s
    else
      match step
      case UserBegin =>
        Logged(s, Mark(s.nextLsn, s.nextTxn, BEGIN)).(nextTxn := s.nextTxn + 1, current := s.nextTxn, active := true)
      case UserInsert(table, data) =>
        Logged(s, Entry(s.nextLsn, s.current, INSERT, table, data, 0)).(phase := UserWritten)
      case UserCommit =>
        Logged(s, Mark(s.nextLsn, s.current, COMMIT)).(phase := UserCommitted)
      case PrivateBegin =>
        Logged(s, Mark(s.nextLsn, s.nextTxn, BEGIN)).(nextTxn := s.nextTxn + 1, phase := Begun(s.nextTxn))
      case PrivateWrite(kind, table, data, page) =>
        Logged(s, Entry(s.nextLsn, s.phase.txn, kind, table, data, page)).(phase := Written(s.phase.txn))
      case PrivateCommit =>
        Logged(s, Mark(s.nextLsn, s.phase.txn, COMMIT)).(phase := Committed(s.phase.txn))
      case Abandon => s.(phase := Idle)
      case Sync =>
        match s.phase
        case UserCommitted => Synced(s).(phase := Idle, active := false, acked := s.acked + {s.current})
        case Written(t) => Synced(s).(phase := Stored(t))
        case Committed(t) => Synced(s).(phase := Idle, acked := s.acked + {t})
        case _ => Synced(s).(phase := Idle)
  }

  /** The payload of an insert fits the data field of a record. */
  predicate ShortStep(step: Step) {
    step.PrivateWrite? && step.kind == INSERT ==> |step.data| <= DATA_SIZE
  }

  ghost predicate AllShort(steps: seq<Step>) {
    forall i :: 0 <= i < |steps| ==> ShortStep(steps[i])
  }

  function Run(steps: seq<Step>): (s: State)
    ensures AllTyped(s.log)
  {
    if |steps| == 0 then Start() else After(Run(steps[..|steps| - 1]), steps[|steps| - 1])
  }

  // ---------------------------------------------------------------- what every step keeps

  predicate Commits(r: Record, t: nat) {
    r.kind == COMMIT && r.txn == t
  }

  ghost predicate CommittedIn(log: seq<Record>, t: nat) {
    exists i :: 0 <= i < |log| && Commits(log[i], t)
  }

  /** The records are typed, LSNs increase, a BEGIN has a new transaction id, and no transaction
      writes after its COMMIT. */
  ghost predicate LogOk(log: seq<Record>) {
    && AllTyped(log)
    && (forall i, j :: 0 <= i < j < |log| ==> log[i].lsn < log[j].lsn)
    && (forall i, j :: 0 <= i < j < |log| && log[j].kind == BEGIN ==> log[i].txn < log[j].txn)
    && (forall i, j :: 0 <= i < j < |log| && IsData(log[j].kind) ==> !Commits(log[i], log[j].txn))
  }

  /** An open transaction: it has begun and has not committed. */
  ghost predicate OpenTxn(s: State, t: nat) {
    1 <= t < s.nextTxn && !CommittedIn(s.log, t)
  }

  ghost predicate PhaseOk(s: State) {
    match s.phase
    case Idle | UserWritten => s.active ==> OpenTxn(s, s.current)
    case UserCommitted => CommittedIn(s.log, s.current)
    case Begun(t) => OpenTxn(s, t) && (s.active ==> OpenTxn(s, s.current) && s.current != t)
    case Written(t) => OpenTxn(s, t) && (s.active ==> OpenTxn(s, s.current) && s.current != t)
    case Stored(t) => OpenTxn(s, t) && (s.active ==> OpenTxn(s, s.current) && s.current != t)
    case Committed(t) => CommittedIn(s.log, t) && t < s.nextTxn && (s.active ==> OpenTxn(s, s.current))
  }

  ghost predicate Inv(s: State) {
    && LogOk(s.log) && s.synced <= |s.log|
    && 1 <= s.nextLsn < U64_LIMIT && 1 <= s.nextTxn < U32_LIMIT && s.current < s.nextTxn
    && (forall i :: 0 <= i < |s.log| ==> s.log[i].lsn < s.nextLsn && s.log[i].txn < s.nextTxn)
    && (forall t :: t in s.acked ==> CommittedIn(s.log[..s.synced], t))
    && PhaseOk(s)
  }

  lemma CommittedAppend(log: seq<Record>, r: Record, t: nat)
    ensures CommittedIn(log + [r], t) <==> CommittedIn(log, t) || Commits(r, t)
  {
    assert forall i :: 0 <= i < |log| ==> (log + [r])[i] == log[i];
    assert (log + [r])[|log|] == r;
    if CommittedIn(log, t) {
      var i :| 0 <= i < |log| && Commits(log[i], t);
      assert Commits((log + [r])[i], t);
    }
  }

  /** What a new record must satisfy so that the log stays in order. */
  lemma AppendOk(s: State, r: Record)
    requires Inv(s) && Typed(r) && r.lsn == s.nextLsn && s.nextLsn + 1 < U64_LIMIT
    requires r.kind == BEGIN ==> r.txn == s.nextTxn
    requires IsData(r.kind) ==> !CommittedIn(s.log, r.txn)
    ensures LogOk(s.log + [r])
    ensures forall t :: t in s.acked ==> CommittedIn((s.log + [r])[..s.synced], t)
  {
    var log := s.log + [r];
    assert log[..s.synced] == s.log[..s.synced];
    forall i, j | 0 <= i < j < |log|
      ensures log[i].lsn < log[j].lsn && (log[j].kind == BEGIN ==> log[i].txn < log[j].txn)
      ensures IsData(log[j].kind) ==> !Commits(log[i], log[j].txn)
    {
      assert log[i] == s.log[i];
      assert j < |s.log| ==> log[j] == s.log[j];
    }
  }

  /** The record that a step logs, if it logs one. */
  lemma StepLogs(s: State, step: Step)
    requires Inv(s) && Enabled(s, step)
    ensures var q := After(s, step);
            || q.log == s.log
            || exists r :: Typed(r) && q.log == s.log + [r] && r.lsn == s.nextLsn && (r.kind == BEGIN ==> r.txn == s.nextTxn)
                           && r.txn < q.nextTxn && (IsData(r.kind) ==> !CommittedIn(s.log, r.txn))
  {
  }

  lemma StepKeepsLog(s: State, step: Step)
    requires Inv(s) && Enabled(s, step)
    ensures var q := After(s, step);
            && LogOk(q.log)
            && (forall t :: t in s.acked ==> CommittedIn(q.log[..s.synced], t))
            && (forall i :: 0 <= i < |q.log| ==> q.log[i].lsn < q.nextLsn && q.log[i].txn < q.nextTxn)
  {
    hide LogOk, CommittedIn, PhaseOk;
    var q := After(s, step);
    StepLogs(s, step);
    if q.log != s.log {
      var r :| Typed(r) && q.log == s.log + [r] && r.lsn == s.nextLsn && (r.kind == BEGIN ==> r.txn == s.nextTxn)
               && r.txn < q.nextTxn && (IsData(r.kind) ==> !CommittedIn(s.log, r.txn));
      AppendOk(s, r);
    }
  }

  lemma StepKeepsPhase(s: State, step: Step)
    requires Inv(s) && Enabled(s, step)
    ensures PhaseOk(After(s, step))
  {
    var q := After(s, step);
    Unused(s);
    hide LogOk;
    if |q.log| > |s.log| {
      var r := q.log[|s.log|];
      assert q.log == s.log + [r];
      forall t: nat ensures CommittedIn(q.log, t) <==> CommittedIn(s.log, t) || Commits(r, t) {
        CommittedAppend(s.log, r, t);
      }
      hide CommittedIn;
    }
  }

  lemma StepKeepsInv(s: State, step: Step)
    requires Inv(s)
    ensures Inv(After(s, step))
  {
    hide LogOk, PhaseOk, OpenTxn;
    if Enabled(s, step) {
      StepKeepsLog(s, step);
      StepKeepsPhase(s, step);
      var q := After(s, step);
      if q.synced != s.synced {
        assert q.log == s.log && q.log[..q.synced] == s.log;
        AckedCommitted(s);
      }
      if step.Sync? && (s.phase.UserCommitted? || s.phase.Committed?) {
        JustCommitted(s);
      }
    }
  }

  lemma AckedCommitted(s: State)
    requires Inv(s)
    ensures forall t :: t in s.acked ==> CommittedIn(s.log, t)
  {
    forall t | t in s.acked ensures CommittedIn(s.log, t) {
      var i :| 0 <= i < s.synced && Commits(s.log[..s.synced][i], t);
      assert Commits(s.log[i], t);
    }
  }

  lemma JustCommitted(s: State)
    requires Inv(s)
    ensures s.phase.UserCommitted? ==> CommittedIn(s.log, s.current)
    ensures s.phase.Committed? ==> CommittedIn(s.log, s.phase.txn)
  {
  }

  /** The next transaction id is not committed yet. */
  lemma Unused(s: State)
    requires Inv(s)
    ensures !CommittedIn(s.log, s.nextTxn)
  {
  }

  lemma {:induction false} RunKeepsInv(steps: seq<Step>)
    ensures Inv(Run(steps))
  {
    if |steps| > 0 {
      RunKeepsInv(steps[..|steps| - 1]);
      StepKeepsInv(Run(steps[..|steps| - 1]), steps[|steps| - 1]);
    }
  }

  // ---------------------------------------------------------------- what recovery replays

  predicate InsertOf(r: Record, t: nat) {
    r.kind == INSERT && r.txn == t
  }

  /** The inserts of one transaction, in log order. */
  function InsertsOf(rs: seq<Record>, t: nat): seq<Record> {
    if |rs| == 0 then []
    else InsertsOf(rs[..|rs| - 1], t) + if InsertOf(rs[|rs| - 1], t) then [rs[|rs| - 1]] else []
  }

  /** The records of `rs` that wal_recover hands to redo_insert, given the log it has read. */
  ghost function Replayed(rs: seq<Record>, log: seq<Record>): seq<Record> {
    if |rs| == 0 then []
    else
      var r := rs[|rs| - 1];
      Replayed(rs[..|rs| - 1], log) + if r.kind == INSERT && CommittedIn(log, r.txn) then [r] else []
  }

  lemma {:induction false} InsertsOfConcat(a: seq<Record>, b: seq<Record>, t: nat)
    ensures InsertsOf(a + b, t) == InsertsOf(a, t) + InsertsOf(b, t)
  {
    if |b| == 0 {
      assert a + b == a;
    } else {
      InsertsOfConcat(a, b[..|b| - 1], t);
      assert (a + b)[..|a + b| - 1] == a + b[..|b| - 1];
    }
  }

  lemma {:induction false} NoInserts(rs: seq<Record>, t: nat)
    requires forall i :: 0 <= i < |rs| ==> !InsertOf(rs[i], t)
    ensures InsertsOf(rs, t) == []
  {
    if |rs| > 0 {
      NoInserts(rs[..|rs| - 1], t);
    }
  }

  /** Recovery replays a transaction's inserts exactly when it finds its COMMIT. */
  lemma {:induction false} ReplayedOf(rs: seq<Record>, log: seq<Record>, t: nat)
    ensures InsertsOf(Replayed(rs, log), t) == if CommittedIn(log, t) then InsertsOf(rs, t) else []
  {
    if |rs| > 0 {
      var r := rs[|rs| - 1];
      ReplayedOf(rs[..|rs| - 1], log, t);
      InsertsOfConcat(Replayed(rs[..|rs| - 1], log), if r.kind == INSERT && CommittedIn(log, r.txn) then [r] else [], t);
      assert [r][..0] == [];
    }
  }

  /** A prefix that contains the COMMIT contains all inserts of the transaction. */
  lemma PrefixHasAll(log: seq<Record>, n: nat, t: nat)
    requires LogOk(log) && n <= |log| && CommittedIn(log[..n], t)
    ensures InsertsOf(log[..n], t) == InsertsOf(log, t)
  {
    var c :| 0 <= c < n && Commits(log[..n][c], t);
    var rest := log[n..];
    forall i | 0 <= i < |rest| ensures !InsertOf(rest[i], t) {
      assert rest[i] == log[n + i] && Commits(log[c], t);
    }
    NoInserts(rest, t);
    InsertsOfConcat(log[..n], rest, t);
    assert log[..n] + rest == log;
  }

  /** Whatever was run and wherever the crash came: of the inserts that a transaction ever logged, the
      records that are left hold all if they hold its COMMIT, and they do hold the COMMIT of every
      acknowledged transaction.  So a replay of everything that can be read would restore each
      transaction as a whole or not at all.  wal_recover reads less than everything; its limits are in
      `CrashRecovery.CrashThenRecover`. */
  lemma CrashSafety(steps: seq<Step>, n: nat, t: nat)
    requires Run(steps).synced <= n <= |Run(steps).log|
    ensures var s := Run(steps);
            var left := s.log[..n];
            && (CommittedIn(left, t) ==> InsertsOf(left, t) == InsertsOf(s.log, t))
            && InsertsOf(Replayed(left, left), t) == (if CommittedIn(left, t) then InsertsOf(s.log, t) else [])
            && (t in s.acked ==> CommittedIn(left, t))
  {
    var s := Run(steps);
    var left := s.log[..n];
    RunKeepsInv(steps);
    ReplayedOf(left, left, t);
    if CommittedIn(left, t) {
      PrefixHasAll(s.log, n, t);
    }
    if t in s.acked {
      var i :| 0 <= i < s.synced && Commits(s.log[..s.synced][i], t);
      assert Commits(left[i], t);
    }
  }

  /** The same for the bytes of the log file, cut anywhere behind the last synced record. */
  lemma CrashSafetyOnBytes(steps: seq<Step>, cut: nat, t: nat)
    requires RECORD_SIZE * Run(steps).synced <= cut <= |EncodeAll(Run(steps).log)|
    ensures var s := Run(steps);
            var left := Parse(EncodeAll(s.log)[..cut]);
            && (CommittedIn(left, t) ==> InsertsOf(left, t) == InsertsOf(s.log, t))
            && InsertsOf(Replayed(left, left), t) == (if CommittedIn(left, t) then InsertsOf(s.log, t) else [])
            && (t in s.acked ==> CommittedIn(left, t))
  {
    CrashLeavesPrefix(Run(steps).log, cut);
    CrashSafety(steps, cut / RECORD_SIZE, t);
  }

  /** Along every run LSNs strictly increase and every BEGIN has a transaction id that no earlier
      record carries. */
  lemma FreshIds(steps: seq<Step>, i: nat, j: nat)
    requires i < j < |Run(steps).log|
    ensures var log := Run(steps).log;
            log[i].lsn < log[j].lsn && (log[j].kind == BEGIN ==> log[i].txn < log[j].txn)
  {
    RunKeepsInv(steps);
  }
}
