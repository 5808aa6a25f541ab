/** From a crash to the recovered tables: wal_open, wal_recover and the row pages together. */
module CrashRecovery {
  import opened Bytes
  import opened Wal
  import opened WalProtocol
  import opened Insertions
  import opened Heap
  import BTree
  import opened Recovery
  import RowCodec
  import Session

  type Loc = BTree.Loc

  // ---------------------------------------------------------------- which transactions are replayed

  lemma PrefixReplays(log: seq<Record>, n: nat, t: nat)
    requires LogOk(log) && n <= |log|
    ensures InsertsOf(Replayed(log[..n], log[..n]), t) == if CommittedIn(log[..n], t) then InsertsOf(log, t) else []
  {
    ReplayedOf(log[..n], log[..n], t);
    if CommittedIn(log[..n], t) {
      PrefixHasAll(log, n, t);
    }
  }

  /** What wal_recover makes of a log: it replays records, or it finds more commits than its array has
      room for and leaves the array. */
  datatype Outcome = Replays(rs: seq<Record>) | Overruns

  ghost function OutcomeOf(left: seq<Record>): Outcome {
    var seen := Considered(left);
    if |CommitsOf(seen)| <= MAX_COMMITS then Replays(Replayed(seen, seen)) else Overruns
  }

  /** All inserts of transaction `t`, which logged `all` of them, are replayed. */
  ghost predicate Restores(o: Outcome, t: nat, all: seq<Record>) {
    o.Replays? && InsertsOf(o.rs, t) == all
  }

  /** For every run, every crash and every transaction that inserted something: wal_recover replays all
      its inserts if and only if the COMMIT is among the first 1024 whole records that are left and
      these hold at most 256 commits; otherwise it replays none.  The COMMIT of an acknowledged
      transaction is among them unless more than 1024 records are left. */
  lemma CrashThenRecover(steps: seq<Step>, cut: nat, t: nat)
    requires RECORD_SIZE * Run(steps).synced <= cut <= |EncodeAll(Run(steps).log)|
    ensures var s := Run(steps);
            var left := Parse(EncodeAll(s.log)[..cut]);
            var seen, o, all := Considered(left), OutcomeOf(left), InsertsOf(s.log, t);
            && (all != [] ==> (Restores(o, t, all) <==> CommittedIn(seen, t) && |CommitsOf(seen)| <= MAX_COMMITS))
            && (o.Replays? ==> InsertsOf(o.rs, t) == all || InsertsOf(o.rs, t) == [])
            && (t in s.acked && |left| <= MAX_RECORDS ==> CommittedIn(seen, t))
  {
    var s := Run(steps);
    var n := cut / RECORD_SIZE;
    CrashLeavesPrefix(s.log, cut);
    RunKeepsInv(steps);
    hide Inv, EncodeAll, Parse, Run, CommitsOf, InsertsOf, CommittedIn;
    var m := if n <= MAX_RECORDS then n else MAX_RECORDS;
    assert Considered(s.log[..n]) == s.log[..m];
    InvLog(s);
    PrefixReplays(s.log, m, t);
    CrashSafety(steps, n, t);
  }

  lemma InvLog(s: State)
    requires Inv(s)
    ensures LogOk(s.log)
  {
  }

  /** Of a log that holds no COMMIT of a transaction among its first 1024 records nothing of that
      transaction is replayed.  `LongTransaction` shows runs in which it was acknowledged. */
  lemma LateCommitForgotten(left: seq<Record>, t: nat)
    requires !CommittedIn(Considered(left), t)
    ensures OutcomeOf(left).Replays? ==> InsertsOf(OutcomeOf(left).rs, t) == []
  {
    ReplayedOf(Considered(left), Considered(left), t);
  }

  // ---------------------------------------------------------------- more than 1024 records

  /** BEGIN and `n` INSERT statements. */
  function Statements(n: nat, table: seq<Byte>, data: seq<Byte>): seq<Step> {
    if n == 0 then [UserBegin] else Statements(n - 1, table, data) + [UserInsert(table, data), Sync]
  }

  /** BEGIN, `n` INSERT statements, COMMIT. */
  function Transaction(n: nat, table: seq<Byte>, data: seq<Byte>): seq<Step> {
    Statements(n, table, data) + [UserCommit, Sync]
  }

  lemma RunMore(steps: seq<Step>, a: Step, b: Step)
    ensures Run(steps + [a, b]) == After(After(Run(steps), a), b)
  {
    hide After;
    RunOne(steps, a);
    RunOne(steps + [a], b);
    assert steps + [a] + [b] == steps + [a, b];
  }

  lemma RunOne(steps: seq<Step>, a: Step)
    ensures Run(steps + [a]) == After(Run(steps), a)
  {
    assert (steps + [a])[..|steps|] == steps;
    hide After;
  }

  /** The log of a transaction that has not committed: BEGIN and `n` inserts. */
  ghost predicate OpenWith(s: State, n: nat) {
    && s.active && s.current == 1 && s.phase == Idle && s.acked == {}
    && s.nextLsn == n + 2 && s.nextTxn == 2
    && |s.log| == n + 1 && CommitsOf(s.log) == [] && |InsertsOf(s.log, 1)| == n
  }

  lemma OpenMore(s: State, n: nat, table: seq<Byte>, data: seq<Byte>)
    requires OpenWith(s, n) && |data| < DATA_SIZE && n + 4 < U64_LIMIT
    ensures OpenWith(After(After(s, UserInsert(table, data)), Sync), n + 1)
  {
    var q := After(s, UserInsert(table, data));
    var r := q.log[|s.log|];
    assert q.log[..|s.log|] == s.log;
  }

  lemma JustBegun()
    ensures OpenWith(Run([UserBegin]), 0)
  {
    assert [UserBegin][..0] == [];
    assert [Mark(1, 1, BEGIN)][..0] == [];
  }

  lemma StatementsUnfold(n: nat, table: seq<Byte>, data: seq<Byte>)
    ensures Statements(n, table, data) == if n == 0 then [UserBegin] else Statements(n - 1, table, data) + [UserInsert(table, data), Sync]
  {
  }

  lemma {:induction false} StatementsRun(n: nat, table: seq<Byte>, data: seq<Byte>)
    requires |data| < DATA_SIZE && n + 3 < U64_LIMIT
    ensures OpenWith(Run(Statements(n, table, data)), n)
  {
    hide *;
    StatementsUnfold(n, table, data);
    if n == 0 {
      JustBegun();
    } else {
      StatementsRun(n - 1, table, data);
      RunMore(Statements(n - 1, table, data), UserInsert(table, data), Sync);
      OpenMore(Run(Statements(n - 1, table, data)), n - 1, table, data);
    }
  }

  lemma CommitStep(s: State, n: nat)
    requires OpenWith(s, n) && n + 4 < U64_LIMIT
    ensures var q := After(After(s, UserCommit), Sync);
            && q.acked == {1} && q.synced == |q.log| == n + 2 && q.log[..n + 1] == s.log
            && CommitsOf(q.log) == [1] && InsertsOf(q.log, 1) == InsertsOf(s.log, 1)
  {
    var q := After(s, UserCommit);
    assert q.log[..|s.log|] == s.log;
  }

  lemma {:induction false} NothingReplayed(rs: seq<Record>, log: seq<Record>)
    requires CommitsOf(log) == []
    ensures Replayed(rs, log) == []
  {
    if |rs| > 0 {
      NothingReplayed(rs[..|rs| - 1], log);
      CommitsAre(log, rs[|rs| - 1].txn);
    }
  }

  /** A transaction of `n` inserts, acknowledged and synced in full: recovery replays all of them
      if they are at most 1022, and nothing at all otherwise. */
  lemma LongTransaction(n: nat, table: seq<Byte>, data: seq<Byte>)
    requires |data| < DATA_SIZE && n + 4 < U64_LIMIT
    ensures var s := Run(Transaction(n, table, data));
            var o, all := OutcomeOf(Parse(EncodeAll(s.log))), InsertsOf(s.log, 1);
            && s.acked == {1} && s.synced == |s.log| == n + 2 && |all| == n
            && if n <= MAX_RECORDS - 2 then Restores(o, 1, all) else o == Replays([])
  {
    hide Run, After, EncodeAll, Parse, OutcomeOf, InsertsOf;
    var s := Run(Statements(n, table, data));
    StatementsRun(n, table, data);
    RunMore(Statements(n, table, data), UserCommit, Sync);
    CommitStep(s, n);
    var q := Run(Transaction(n, table, data));
    WholeLogParses(q.log);
    LongReplay(q.log, n);
  }

  lemma LongReplay(log: seq<Record>, n: nat)
    requires |log| == n + 2 && CommitsOf(log) == [1] && CommitsOf(log[..n + 1]) == []
    ensures if n <= MAX_RECORDS - 2 then Restores(OutcomeOf(log), 1, InsertsOf(log, 1)) else OutcomeOf(log) == Replays([])
  {
    hide CommitsOf, Replayed, InsertsOf, CommittedIn;
    if n <= MAX_RECORDS - 2 {
      CommitsAre(log, 1);
      ReplayedOf(log, log, 1);
    } else {
      var seen := Considered(log);
      CommitsGrow(log[..n + 1], MAX_RECORDS);
      assert log[..n + 1][..MAX_RECORDS] == seen;
      NothingReplayed(seen, seen);
    }
  }

  // ---------------------------------------------------------------- more than 256 commits

  /** `n` INSERT statements outside a transaction. */
  function Singles(n: nat, table: seq<Byte>, data: seq<Byte>): seq<Step> {
    if n == 0 then [] else Singles(n - 1, table, data) + Single(table, data)
  }

  function Single(table: seq<Byte>, data: seq<Byte>): seq<Step> {
    [PrivateBegin, PrivateWrite(INSERT, table, data, 0), Sync, PrivateCommit, Sync]
  }

  /** After `n` of them. */
  ghost predicate SinglesDone(s: State, n: nat) {
    && s.phase == Idle && !s.active && s.current == 0 && s.nextLsn == 3 * n + 1 && s.nextTxn == n + 1
    && s.synced == |s.log| == 3 * n && |CommitsOf(s.log)| == n
    && (forall t :: 1 <= t <= n ==> t in s.acked && t in CommitsOf(s.log) && |InsertsOf(s.log, t)| == 1)
    && forall t :: t > n ==> InsertsOf(s.log, t) == []
  }

  /** The records of one of them. */
  function SingleRecords(n: nat, table: seq<Byte>, data: seq<Byte>): seq<Record>
    requires |data| < DATA_SIZE && 3 * n + 3 < U64_LIMIT && n + 1 < U32_LIMIT
  {
    [Mark(3 * n + 1, n + 1, BEGIN), Entry(3 * n + 2, n + 1, INSERT, table, data, 0), Mark(3 * n + 3, n + 1, COMMIT)]
  }

  function AfterSingle(s: State, table: seq<Byte>, data: seq<Byte>): State {
    After(After(After(After(After(s, PrivateBegin), PrivateWrite(INSERT, table, data, 0)), Sync), PrivateCommit), Sync)
  }

  lemma SingleSteps(s: State, n: nat, table: seq<Byte>, data: seq<Byte>)
    requires s.phase == Idle && !s.active && s.current == 0 && s.nextLsn == 3 * n + 1 && s.nextTxn == n + 1 && s.synced == |s.log| == 3 * n
    requires |data| < DATA_SIZE && 3 * n + 5 < U64_LIMIT && n + 3 < U32_LIMIT
    ensures var q := AfterSingle(s, table, data);
            && q.phase == Idle && !q.active && q.current == 0 && q.nextLsn == 3 * n + 4 && q.nextTxn == n + 2
            && q.log == s.log + SingleRecords(n, table, data) && q.synced == |q.log| == 3 * n + 3 && q.acked == s.acked + {n + 1}
  {
    hide Mark, Entry;
  }

  lemma SingleMore(log: seq<Record>, n: nat, table: seq<Byte>, data: seq<Byte>)
    requires |data| < DATA_SIZE && 3 * n + 3 < U64_LIMIT && n + 1 < U32_LIMIT
    ensures var more := log + SingleRecords(n, table, data);
            && CommitsOf(more) == CommitsOf(log) + [n + 1]
            && forall t :: |InsertsOf(more, t)| == |InsertsOf(log, t)| + if t == n + 1 then 1 else 0
  {
    var rs := SingleRecords(n, table, data);
    assert log + rs == log + [rs[0]] + [rs[1]] + [rs[2]];
    hide InsertsOf, CommitsOf;
    CommitsMore(log, rs[0]);
    CommitsMore(log + [rs[0]], rs[1]);
    CommitsMore(log + [rs[0]] + [rs[1]], rs[2]);
    forall t ensures |InsertsOf(log + rs, t)| == |InsertsOf(log, t)| + if t == n + 1 then 1 else 0 {
      InsertsMore(log, rs[0], t);
      InsertsMore(log + [rs[0]], rs[1], t);
      InsertsMore(log + [rs[0]] + [rs[1]], rs[2], t);
    }
  }

  lemma CommitsMore(log: seq<Record>, r: Record)
    ensures CommitsOf(log + [r]) == CommitsOf(log) + if r.kind == COMMIT then [r.txn] else []
  {
    assert (log + [r])[..|log|] == log;
  }

  lemma InsertsMore(log: seq<Record>, r: Record, t: nat)
    ensures InsertsOf(log + [r], t) == InsertsOf(log, t) + if InsertOf(r, t) then [r] else []
  {
    assert (log + [r])[..|log|] == log;
  }

  lemma RunSingle(n: nat, table: seq<Byte>, data: seq<Byte>)
    ensures Run(Singles(n + 1, table, data)) == AfterSingle(Run(Singles(n, table, data)), table, data)
  {
    hide After, Run;
    var steps, write := Singles(n, table, data), PrivateWrite(INSERT, table, data, 0);
    RunMore(steps, PrivateBegin, write);
    RunMore(steps + [PrivateBegin, write], Sync, PrivateCommit);
    RunOne(steps + [PrivateBegin, write] + [Sync, PrivateCommit], Sync);
    assert steps + Single(table, data) == steps + [PrivateBegin, write] + [Sync, PrivateCommit] + [Sync];
  }

  lemma {:induction false} SinglesRun(n: nat, table: seq<Byte>, data: seq<Byte>)
    requires |data| < DATA_SIZE && 3 * n + 2 < U64_LIMIT && n + 2 < U32_LIMIT
    ensures SinglesDone(Run(Singles(n, table, data)), n)
  {
    hide *;
    if n == 0 {
      NoSingles(table, data);
    } else {
      SinglesRun(n - 1, table, data);
      RunSingle(n - 1, table, data);
      SinglesNext(Run(Singles(n - 1, table, data)), n - 1, table, data);
    }
  }

  lemma NoSingles(table: seq<Byte>, data: seq<Byte>)
    ensures SinglesDone(Run(Singles(0, table, data)), 0)
  {
  }

  lemma SinglesNext(s: State, n: nat, table: seq<Byte>, data: seq<Byte>)
    requires SinglesDone(s, n) && |data| < DATA_SIZE && 3 * n + 5 < U64_LIMIT && n + 3 < U32_LIMIT
    ensures SinglesDone(AfterSingle(s, table, data), n + 1)
  {
    hide AfterSingle, SingleRecords, CommitsOf, InsertsOf;
    SingleSteps(s, n, table, data);
    SingleMore(s.log, n, table, data);
    assert forall t :: t in CommitsOf(s.log) ==> t in CommitsOf(s.log) + [n + 1];
    assert n + 1 in CommitsOf(s.log) + [n + 1];
  }

  lemma {:induction false} SinglesPrefix(n: nat, k: nat, table: seq<Byte>, data: seq<Byte>)
    requires k <= n && |data| < DATA_SIZE && 3 * n + 2 < U64_LIMIT && n + 2 < U32_LIMIT
    ensures Run(Singles(k, table, data)).log <= Run(Singles(n, table, data)).log
    decreases n
  {
    hide *;
    if k < n {
      SinglesRun(n - 1, table, data);
      RunSingle(n - 1, table, data);
      SingleGrows(Run(Singles(n - 1, table, data)), n - 1, table, data);
      SinglesPrefix(n - 1, k, table, data);
    }
  }

  lemma SingleGrows(s: State, n: nat, table: seq<Byte>, data: seq<Byte>)
    requires SinglesDone(s, n) && |data| < DATA_SIZE && 3 * n + 5 < U64_LIMIT && n + 3 < U32_LIMIT
    ensures s.log <= AfterSingle(s, table, data).log
  {
    hide AfterSingle, SingleRecords, CommitsOf, InsertsOf;
    SingleSteps(s, n, table, data);
  }

  /** `n` INSERT statements, each acknowledged: a restart replays them all if they are at most 256, and
      otherwise leaves the commit array, with every COMMIT that does not fit among the first 1024
      records already at 257 statements and 771 records. */
  lemma SingleInserts(n: nat, table: seq<Byte>, data: seq<Byte>)
    requires |data| < DATA_SIZE && 3 * n + 2 < U64_LIMIT && n + 2 < U32_LIMIT
    ensures var s := Run(Singles(n, table, data));
            var o := OutcomeOf(Parse(EncodeAll(s.log)));
            && s.synced == |s.log| == 3 * n
            && (forall t :: 1 <= t <= n ==> t in s.acked && |InsertsOf(s.log, t)| == 1)
            && if n <= MAX_COMMITS then forall t :: 1 <= t <= n ==> Restores(o, t, InsertsOf(s.log, t)) else o == Overruns
  {
    hide Run, EncodeAll, Parse, CommitsOf, InsertsOf, Replayed, CommittedIn;
    var s := Run(Singles(n, table, data));
    SinglesRun(n, table, data);
    WholeLogParses(s.log);
    if n <= MAX_COMMITS {
      assert Considered(s.log) == s.log;
      forall t | 1 <= t <= n ensures Restores(OutcomeOf(s.log), t, InsertsOf(s.log, t)) {
        CommitsAre(s.log, t);
        ReplayedOf(s.log, s.log, t);
      }
    } else {
      var k := MAX_COMMITS + 1;
      SinglesRun(k, table, data);
      SinglesPrefix(n, k, table, data);
      var seen := Considered(s.log);
      assert seen[..3 * k] == Run(Singles(k, table, data)).log;
      CommitsGrow(seen, 3 * k);
    }
  }

  // ---------------------------------------------------------------- which rows the tables end up with

  /** Record `i` is a committed insert into table `name`. */
  ghost predicate Redone(seen: seq<Record>, i: nat, name: seq<Byte>)
    requires i < |seen|
  {
    seen[i].kind == INSERT && CommittedIn(seen, seen[i].txn) && TableOf(seen[i]) == name
  }

  /** How many rows of table `name` are replayed before record `i`. */
  ghost function Before(seen: seq<Record>, i: nat, name: seq<Byte>): nat
    requires i <= |seen| && Short(Replayed(seen, seen))
  {
    ShortBefore(seen, i);
    |RowsFor(Replayed(seen[..i], seen), name)|
  }

  lemma ShortBefore(seen: seq<Record>, i: nat)
    requires i <= |seen| && Short(Replayed(seen, seen))
    ensures Short(Replayed(seen[..i], seen))
  {
    ReplayedGrows(seen, seen, i);
    ShortPrefix(Replayed(seen[..i], seen), Replayed(seen, seen));
  }

  /** All rows that recovery adds to table `name`. */
  ghost function NewRows(seen: seq<Record>, name: seq<Byte>): seq<Row>
    requires Short(Replayed(seen, seen))
  {
    RowsFor(Replayed(seen, seen), name)
  }

  lemma {:induction false} RowsForGrows(a: seq<Record>, b: seq<Record>, name: seq<Byte>)
    requires a <= b && Short(b)
    ensures Short(a) && RowsFor(a, name) <= RowsFor(b, name)
    decreases |b|
  {
    ShortPrefix(a, b);
    if |a| < |b| {
      RowsForGrows(a, b[..|b| - 1], name);
    } else {
      assert a == b;
    }
  }

  lemma RowsForMore(a: seq<Record>, r: Record, name: seq<Byte>)
    requires Short(a + [r])
    ensures Short(a) && Typed(r) && r.size <= DATA_SIZE
    ensures RowsFor(a + [r], name) == RowsFor(a, name) + if TableOf(r) == name then [Payload(r)] else []
  {
    ShortPrefix(a, a + [r]);
    assert (a + [r])[|a|] == r && (a + [r])[..|a|] == a;
  }

  /** Record `i` supplies row number `Before(i)` if it is replayed, and none otherwise. */
  lemma BeforeNext(seen: seq<Record>, i: nat, name: seq<Byte>)
    requires i < |seen| && Short(Replayed(seen, seen))
    ensures Before(seen, i + 1, name) == Before(seen, i, name) + if Redone(seen, i, name) then 1 else 0
    ensures Redone(seen, i, name) ==>
              && Typed(seen[i]) && seen[i].size <= DATA_SIZE
              && Before(seen, i, name) < |NewRows(seen, name)| && NewRows(seen, name)[Before(seen, i, name)] == Payload(seen[i])
  {
    hide CommittedIn, Replayed, RowsFor, Short, Payload, TableOf, Typed;
    Recovery.CountStep(seen, seen, i);
    ShortBefore(seen, i);
    ShortBefore(seen, i + 1);
    ReplayedGrows(seen, seen, i + 1);
    RowsForGrows(Replayed(seen[..i + 1], seen), Replayed(seen, seen), name);
    if seen[i].kind == INSERT && CommittedIn(seen, seen[i].txn) {
      RowsForMore(Replayed(seen[..i], seen), seen[i], name);
    }
  }

  lemma {:induction false} BeforeGrows(seen: seq<Record>, i: nat, j: nat, name: seq<Byte>)
    requires i <= j <= |seen| && Short(Replayed(seen, seen))
    ensures Before(seen, i, name) <= Before(seen, j, name)
    decreases j
  {
    hide Before, Redone, Short;
    if i < j {
      BeforeGrows(seen, i, j - 1, name);
      BeforeNext(seen, j - 1, name);
    }
  }

  /** Every added row comes from a record. */
  lemma {:induction false} RowFromRecord(seen: seq<Record>, n: nat, name: seq<Byte>, k: nat) returns (i: nat)
    requires n <= |seen| && Short(Replayed(seen, seen)) && k < Before(seen, n, name)
    ensures i < n && Redone(seen, i, name) && Before(seen, i, name) == k
  {
    assert n > 0 by {
      assert seen[..0] == [];
    }
    hide Before, Redone, Short;
    BeforeNext(seen, n - 1, name);
    if k < Before(seen, n - 1, name) {
      i := RowFromRecord(seen, n - 1, name, k);
    } else {
      i := n - 1;
    }
  }

  /** Where the row of record `i` goes. */
  ghost function PlaceIn(h: Heap, seen: seq<Record>, i: nat, name: seq<Byte>): Loc
    requires i < |seen| && Short(Replayed(seen, seen)) && Redone(seen, i, name)
  {
    BeforeNext(seen, i, name);
    PlaceOf(h, NewRows(seen, name), Before(seen, i, name))
  }

  /** `h'` is `h` with the committed inserts of `seen` into table `name`, each once, and nothing else. */
  ghost predicate Recovered(h: Heap, h': Heap, seen: seq<Record>, name: seq<Byte>)
    requires Short(Replayed(seen, seen))
  {
    && (forall l :: LiveAt(h, l) ==> LiveAt(h', l) && RowAt(h', l) == RowAt(h, l))
    && (forall i :: 0 <= i < |seen| && Redone(seen, i, name) ==> Supplies(h, h', seen, i, name))
    && (forall i, j :: 0 <= i < j < |seen| && Redone(seen, i, name) && Redone(seen, j, name) ==>
          PlaceIn(h, seen, i, name) != PlaceIn(h, seen, j, name))
    && (forall l :: LiveAt(h', l) && !LiveAt(h, l) ==>
          exists i :: 0 <= i < |seen| && Redone(seen, i, name) && l == PlaceIn(h, seen, i, name))
  }

  /** The payload of record `i` is a new live row. */
  ghost predicate Supplies(h: Heap, h': Heap, seen: seq<Record>, i: nat, name: seq<Byte>)
    requires i < |seen| && Short(Replayed(seen, seen)) && Redone(seen, i, name)
  {
    BeforeNext(seen, i, name);
    var l := PlaceIn(h, seen, i, name);
    !LiveAt(h, l) && LiveAt(h', l) && RowAt(h', l) == Payload(seen[i])
  }

  lemma RowSupplied(h: Heap, seen: seq<Record>, i: nat, name: seq<Byte>)
    requires i < |seen| && Short(Replayed(seen, seen)) && Redone(seen, i, name)
    ensures Supplies(h, InsertRows(h, NewRows(seen, name)), seen, i, name)
  {
    hide Before, NewRows, InsertRows, Short, Redone, PlaceOf, LiveAt, RowAt;
    BeforeNext(seen, i, name);
    ReplayAddsRow(h, NewRows(seen, name), Before(seen, i, name));
  }

  lemma PlacesDiffer(h: Heap, seen: seq<Record>, i: nat, j: nat, name: seq<Byte>)
    requires i < j < |seen| && Short(Replayed(seen, seen)) && Redone(seen, i, name) && Redone(seen, j, name)
    ensures PlaceIn(h, seen, i, name) != PlaceIn(h, seen, j, name)
  {
    hide Before, NewRows, InsertRows, Short, Redone, PlaceOf, LiveAt, RowAt, Payload, Typed, Replayed, RowsFor, CommittedIn;
    BeforeNext(seen, i, name);
    BeforeNext(seen, j, name);
    BeforeGrows(seen, i + 1, j, name);
    ReplayAddsRow(h, NewRows(seen, name), Before(seen, j, name));
  }

  lemma NewRowPlaced(h: Heap, seen: seq<Record>, name: seq<Byte>, l: Loc) returns (i: nat)
    requires Short(Replayed(seen, seen)) && LiveAt(InsertRows(h, NewRows(seen, name)), l) && !LiveAt(h, l)
    ensures i < |seen| && Redone(seen, i, name) && l == PlaceIn(h, seen, i, name)
  {
    var rows := NewRows(seen, name);
    assert |rows| == Before(seen, |seen|, name) by { assert seen[..|seen|] == seen; }
    assert rows[..|rows|] == rows;
    hide Before, NewRows, InsertRows, Short, Redone, PlaceOf, LiveAt, RowAt;
    ReplayAddsNothingElse(h, rows, |rows|, l);
    var k :| 0 <= k < |rows| && l == PlaceOf(h, rows, k);
    i := RowFromRecord(seen, |seen|, name, k);
  }

  /** The replay of the log on one table. */
  lemma RedoRecovers(db: Database, seen: seq<Record>, name: seq<Byte>)
    requires Short(Replayed(seen, seen)) && name in db
    ensures Recovered(db[name], RedoAll(db, Replayed(seen, seen))[name], seen, name)
  {
    assert NewRows(seen, name) == RowsFor(Replayed(seen, seen), name);
    hide InsertRows, NewRows, RowsFor, Short, Redone, PlaceIn, LiveAt, RowAt, Supplies, Replayed;
    var h, h' := db[name], InsertRows(db[name], NewRows(seen, name));
    RedoPerTable(db, Replayed(seen, seen), name);
    forall l | LiveAt(h, l) ensures LiveAt(h', l) && RowAt(h', l) == RowAt(h, l) {
      ReplayKeepsRows(h, NewRows(seen, name), l);
    }
    forall i | 0 <= i < |seen| && Redone(seen, i, name) ensures Supplies(h, h', seen, i, name) {
      RowSupplied(h, seen, i, name);
    }
    forall i, j | 0 <= i < j < |seen| && Redone(seen, i, name) && Redone(seen, j, name)
      ensures PlaceIn(h, seen, i, name) != PlaceIn(h, seen, j, name)
    {
      PlacesDiffer(h, seen, i, j, name);
    }
    forall l | LiveAt(h', l) && !LiveAt(h, l)
      ensures exists i :: 0 <= i < |seen| && Redone(seen, i, name) && l == PlaceIn(h, seen, i, name)
    {
      var i := NewRowPlaced(h, seen, name, l);
    }
  }

  // ---------------------------------------------------------------- the whole restart

  /** What is left of the log of a run after a crash: whole records and perhaps a torn one, and at
      least everything that was synced. */
  ghost predicate LeftBy(bytes: seq<Byte>, steps: seq<Step>) {
    RECORD_SIZE * Run(steps).synced <= |bytes| && bytes <= EncodeAll(Run(steps).log)
  }

  /** The records that recovery takes into account. */
  function Seen(bytes: seq<Byte>): seq<Record> {
    Considered(Parse(bytes))
  }

  /** They hold every insert of every transaction whose COMMIT is among them, and that is every
      acknowledged transaction unless more than 1024 records were left. */
  ghost predicate AllOrNothing(s: State, bytes: seq<Byte>) {
    && Seen(bytes) <= s.log
    && (forall i :: 0 <= i < |s.log| && s.log[i].kind == INSERT && CommittedIn(Seen(bytes), s.log[i].txn) ==> i < |Seen(bytes)|)
    && (forall t :: t in s.acked && |Parse(bytes)| <= MAX_RECORDS ==> CommittedIn(Seen(bytes), t))
  }

  lemma SeenPrefix(steps: seq<Step>, bytes: seq<Byte>)
    requires LeftBy(bytes, steps)
    ensures Seen(bytes) <= Run(steps).log
  {
    var s := Run(steps);
    CrashLeavesPrefix(s.log, |bytes|);
    assert EncodeAll(s.log)[..|bytes|] == bytes;
  }

  lemma CrashIsAllOrNothing(steps: seq<Step>, bytes: seq<Byte>)
    requires LeftBy(bytes, steps)
    ensures AllOrNothing(Run(steps), bytes)
  {
    var s, seen := Run(steps), Seen(bytes);
    SeenPrefix(steps, bytes);
    RunKeepsInv(steps);
    assert EncodeAll(s.log)[..|bytes|] == bytes;
    hide Run, Seen, EncodeAll, Parse;
    forall i | 0 <= i < |s.log| && s.log[i].kind == INSERT && CommittedIn(seen, s.log[i].txn) ensures i < |seen| {
      var c :| 0 <= c < |seen| && Commits(seen[c], s.log[i].txn);
      assert Commits(s.log[c], s.log[i].txn);
      assert LogOk(s.log) && s.log[c].kind == COMMIT;
    }
    forall t | t in s.acked && |Parse(bytes)| <= MAX_RECORDS ensures CommittedIn(seen, t) {
      AckedSeen(steps, bytes, t);
    }
  }

  lemma AckedSeen(steps: seq<Step>, bytes: seq<Byte>, t: nat)
    requires LeftBy(bytes, steps) && t in Run(steps).acked && |Parse(bytes)| <= MAX_RECORDS
    ensures CommittedIn(Seen(bytes), t)
  {
    var s := Run(steps);
    assert EncodeAll(s.log)[..|bytes|] == bytes;
    hide Run, EncodeAll, Parse, CommittedIn;
    CrashThenRecover(steps, |bytes|, t);
  }

  /** In a run whose inserts fit the data field, so do all that recovery sees. */
  lemma {:induction false} RunShort(steps: seq<Step>)
    requires AllShort(steps)
    ensures ShortInserts(Run(steps).log)
  {
    if |steps| > 0 {
      RunShort(steps[..|steps| - 1]);
      hide Run;
      RunOne(steps[..|steps| - 1], steps[|steps| - 1]);
      assert steps[..|steps| - 1] + [steps[|steps| - 1]] == steps;
      assert ShortStep(steps[|steps| - 1]);
      StepShort(Run(steps[..|steps| - 1]), steps[|steps| - 1]);
    }
  }

  predicate ShortInsert(r: Record) {
    r.kind == INSERT ==> Typed(r) && r.size <= DATA_SIZE
  }

  ghost predicate ShortInserts(log: seq<Record>) {
    forall i :: 0 <= i < |log| ==> ShortInsert(log[i])
  }

  lemma StepShort(s: State, step: Step)
    requires ShortInserts(s.log) && ShortStep(step)
    ensures ShortInserts(After(s, step).log)
  {
    var log := After(s, step).log;
    forall i | 0 <= i < |log| ensures ShortInsert(log[i]) {
      if i < |s.log| {
        assert log[i] == s.log[i];
      }
    }
  }

  lemma {:induction false} ReplayedShort(rs: seq<Record>, log: seq<Record>)
    requires ShortInserts(rs)
    ensures Short(Replayed(rs, log))
  {
    if |rs| > 0 {
      var before, r := rs[..|rs| - 1], rs[|rs| - 1];
      ReplayedShort(before, log);
      assert ShortInsert(r);
      hide CommittedIn, Typed;
      assert forall i :: 0 <= i < |Replayed(before, log)| ==> Replayed(rs, log)[i] == Replayed(before, log)[i];
    }
  }

  /** What the dispatcher logs always fits, so the restart below applies to every trace of a session
      (`Session.Session.HandleInsert`). */
  lemma SessionsReplayable(steps: seq<Step>, bytes: seq<Byte>)
    requires LeftBy(bytes, steps) && AllShort(steps)
    ensures Short(Replayed(Seen(bytes), Seen(bytes)))
  {
    hide LeftBy, Seen, Run, Replayed, Short;
    RunShort(steps);
    SeenPrefix(steps, bytes);
    assert forall i :: 0 <= i < |Seen(bytes)| ==> Seen(bytes)[i] == Run(steps).log[i];
    ReplayedShort(Seen(bytes), Seen(bytes));
  }

  /** After any run and any crash that leave at most 256 commits among the first 1024 records, recovery
      brings every table to its rows at the crash plus each insert of each transaction it sees
      committed, once and at a place of its own; of an acknowledged transaction that is every insert
      it logged, unless more than 1024 records were left. */
  lemma CrashRecoversRows(steps: seq<Step>, bytes: seq<Byte>, db: Database, name: seq<Byte>)
    requires LeftBy(bytes, steps) && AllShort(steps) && name in db
    ensures AllOrNothing(Run(steps), bytes)
    ensures var o := OutcomeOf(Parse(bytes));
            && (o.Replays? <==> |CommitsOf(Seen(bytes))| <= MAX_COMMITS)
            && (o.Replays? ==> Short(o.rs) && Short(Replayed(Seen(bytes), Seen(bytes)))
                               && Recovered(db[name], RedoAll(db, o.rs)[name], Seen(bytes), name))
  {
    hide *;
    CrashIsAllOrNothing(steps, bytes);
    SessionsReplayable(steps, bytes);
    SeenIs(bytes);
    OutcomeIs(Parse(bytes));
    RedoRecovers(db, Seen(bytes), name);
  }

  lemma OutcomeIs(left: seq<Record>)
    ensures OutcomeOf(left)
         == if |CommitsOf(Considered(left))| <= MAX_COMMITS then Replays(Replayed(Considered(left), Considered(left))) else Overruns
  {
  }

  // ---------------------------------------------------------------- from statements to rows

  /** The row of record `i` is a new live row of its table, with these bytes. */
  ghost predicate Back(h: Heap, h': Heap, seen: seq<Record>, i: nat, name: seq<Byte>, data: Row)
    requires Short(Replayed(seen, seen))
  {
    && i < |seen| && Redone(seen, i, name)
    && var l := PlaceIn(h, seen, i, name);
       !LiveAt(h, l) && LiveAt(h', l) && RowAt(h', l) == data
  }

  /** Insertion `k` of the run brought its row back, if its transaction is seen committed and its table
      exists. */
  ghost predicate BroughtBack(steps: seq<Step>, k: nat, seen: seq<Record>, db: Database, db': Database)
    requires k < |InsertedBy(steps)| && |RecordsOf(steps)| == |InsertedBy(steps)| && Short(Replayed(seen, seen)) && db'.Keys == db.Keys
  {
    var row := InsertedBy(steps)[k];
    Named(row.table) && |row.table| < TABLE_SIZE && row.table in db && CommittedIn(seen, row.txn) ==>
      Back(db[row.table], db'[row.table], seen, RecordsOf(steps)[k], row.table, row.data)
  }

  lemma RecordRedone(steps: seq<Step>, seen: seq<Record>, k: nat)
    requires k < |InsertedBy(steps)| && Follows(Run(steps).log, RecordsOf(steps), InsertedBy(steps)) && seen <= Run(steps).log
    requires RecordsOf(steps)[k] < |seen|
    requires var row := InsertedBy(steps)[k]; Named(row.table) && |row.table| < TABLE_SIZE && CommittedIn(seen, row.txn)
    ensures var row, i := InsertedBy(steps)[k], RecordsOf(steps)[k];
            Records(seen[i], row) && Redone(seen, i, row.table)
  {
    hide Run, RecordsOf, InsertedBy, CommittedIn;
    assert seen[RecordsOf(steps)[k]] == Run(steps).log[RecordsOf(steps)[k]];
  }

  lemma InsertBack(steps: seq<Step>, k: nat, seen: seq<Record>, db: Database, db': Database)
    requires k < |InsertedBy(steps)| && |RecordsOf(steps)| == |InsertedBy(steps)| && db'.Keys == db.Keys
    requires Short(Replayed(seen, seen)) && seen <= Run(steps).log
    requires forall name :: name in db ==> Recovered(db[name], db'[name], seen, name)
    requires forall i :: 0 <= i < |Run(steps).log| && Run(steps).log[i].kind == INSERT && CommittedIn(seen, Run(steps).log[i].txn) ==> i < |seen|
    ensures BroughtBack(steps, k, seen, db, db')
  {
    InsertsFollow(steps);
    var row, i := InsertedBy(steps)[k], RecordsOf(steps)[k];
    hide Run, RecordsOf, InsertedBy, CommittedIn, PlaceIn, LiveAt, RowAt;
    if Named(row.table) && |row.table| < TABLE_SIZE && row.table in db && CommittedIn(seen, row.txn) {
      assert Records(Run(steps).log[i], row);
      RecordRedone(steps, seen, k);
      assert Recovered(db[row.table], db'[row.table], seen, row.table);
      assert Supplies(db[row.table], db'[row.table], seen, i, row.table);
      BeforeNext(seen, i, row.table);
      PayloadIs(seen[i], row);
    }
  }

  lemma PayloadIs(r: Record, row: Inserted)
    requires Records(r, row) && r.size <= DATA_SIZE
    ensures Payload(r) == row.data
  {
  }

  /** After any run and any crash within the limits, every insertion of every transaction that recovery
      sees committed is back: a new live row with the inserted bytes in the table of the given name, for
      each insertion another one. */
  lemma InsertsComeBack(steps: seq<Step>, bytes: seq<Byte>, db: Database)
    requires LeftBy(bytes, steps) && AllShort(steps)
    ensures AllOrNothing(Run(steps), bytes) && Short(Replayed(Seen(bytes), Seen(bytes)))
    ensures OutcomeOf(Parse(bytes)) == if |CommitsOf(Seen(bytes))| <= MAX_COMMITS then Replays(Replayed(Seen(bytes), Seen(bytes))) else Overruns
    ensures Follows(Run(steps).log, RecordsOf(steps), InsertedBy(steps))
    ensures forall k :: 0 <= k < |InsertedBy(steps)| ==>
              BroughtBack(steps, k, Seen(bytes), db, RedoAll(db, Replayed(Seen(bytes), Seen(bytes))))
  {
    hide *;
    CrashIsAllOrNothing(steps, bytes);
    SessionsReplayable(steps, bytes);
    InsertsFollow(steps);
    SeenIs(bytes);
    OutcomeIs(Parse(bytes));
    var seen := Seen(bytes);
    var db' := RedoAll(db, Replayed(seen, seen));
    forall name | name in db ensures Recovered(db[name], db'[name], seen, name) {
      RedoRecovers(db, seen, name);
    }
    SeenWhole(Run(steps), bytes);
    FollowsSize(Run(steps).log, RecordsOf(steps), InsertedBy(steps));
    forall k | 0 <= k < |InsertedBy(steps)| ensures BroughtBack(steps, k, seen, db, db') {
      InsertBack(steps, k, seen, db, db');
    }
  }

  lemma SeenWhole(s: State, bytes: seq<Byte>)
    requires AllOrNothing(s, bytes)
    ensures Seen(bytes) <= s.log
    ensures forall i :: 0 <= i < |s.log| && s.log[i].kind == INSERT && CommittedIn(Seen(bytes), s.log[i].txn) ==> i < |Seen(bytes)|
  {
    hide CommittedIn, Seen;
  }

  lemma FollowsSize(log: seq<Record>, at: seq<nat>, rows: seq<Inserted>)
    requires Follows(log, at, rows)
    ensures |at| == |rows|
  {
  }

  /** And every new row is one of these: nothing is recovered that no statement inserted. */
  lemma NothingElseComesBack(steps: seq<Step>, bytes: seq<Byte>, db: Database, name: seq<Byte>, l: Loc) returns (k: nat)
    requires LeftBy(bytes, steps) && AllShort(steps) && Short(Replayed(Seen(bytes), Seen(bytes))) && name in db
    requires var h' := RedoAll(db, Replayed(Seen(bytes), Seen(bytes)))[name]; LiveAt(h', l) && !LiveAt(db[name], l)
    ensures k < |InsertedBy(steps)|
    ensures var row := InsertedBy(steps)[k];
            && CommittedIn(Seen(bytes), row.txn)
            && (Named(row.table) && |row.table| < TABLE_SIZE ==> row.table == name)
            && RowAt(RedoAll(db, Replayed(Seen(bytes), Seen(bytes)))[name], l) == row.data
  {
    var seen := Seen(bytes);
    var h, h' := db[name], RedoAll(db, Replayed(seen, seen))[name];
    RedoRecovers(db, seen, name);
    SeenPrefix(steps, bytes);
    InsertsFollow(steps);
    RunShort(steps);
    hide Run, RecordsOf, InsertedBy, CommittedIn, PlaceIn, LiveAt, RowAt, Seen, RedoAll, Replayed, LeftBy, Typed, TableOf, Short, Payload, Records;
    var i :| 0 <= i < |seen| && Redone(seen, i, name) && l == PlaceIn(h, seen, i, name);
    assert seen[i] == Run(steps).log[i] && i in RecordsOf(steps);
    k :| 0 <= k < |RecordsOf(steps)| && RecordsOf(steps)[k] == i;
    assert Supplies(h, h', seen, i, name);
    BeforeNext(seen, i, name);
    RowOf(seen[i], InsertedBy(steps)[k]);
  }

  lemma RowOf(r: Record, row: Inserted)
    requires Records(r, row) && r.size <= DATA_SIZE
    ensures r.txn == row.txn && Payload(r) == row.data && (Named(row.table) && |row.table| < TABLE_SIZE ==> TableOf(r) == row.table)
  {
  }

  /** In the words of the dispatcher: an INSERT of two values, neither empty nor with a bar, that
      recovery sees committed is back as a row that splits into these values in their order. */
  lemma ValuesComeBack(steps: seq<Step>, bytes: seq<Byte>, db: Database, k: nat, first: seq<Byte>, second: seq<Byte>)
    requires LeftBy(bytes, steps) && AllShort(steps) && k < |InsertedBy(steps)|
    requires InsertedBy(steps)[k].data == Session.RowText(first, second) && RowCodec.Solid(first) && RowCodec.Solid(second)
    requires var row := InsertedBy(steps)[k];
             Named(row.table) && |row.table| < TABLE_SIZE && row.table in db && CommittedIn(Seen(bytes), row.txn)
    ensures Short(Replayed(Seen(bytes), Seen(bytes)))
    ensures var name := InsertedBy(steps)[k].table;
            var h, h' := db[name], RedoAll(db, Replayed(Seen(bytes), Seen(bytes)))[name];
            exists l :: !LiveAt(h, l) && LiveAt(h', l) && RowCodec.Split(RowAt(h', l)) == [first, second]
  {
    InsertsComeBack(steps, bytes, db);
    FollowsSize(Run(steps).log, RecordsOf(steps), InsertedBy(steps));
    Session.RowTextFields(first, second);
    hide Run, RecordsOf, InsertedBy, CommittedIn, PlaceIn, LiveAt, RowAt, Seen, RedoAll, Replayed, LeftBy, Redone, Short, AllOrNothing, Follows,
         RowCodec.Split, Session.RowText;
    var seen := Seen(bytes);
    assert BroughtBack(steps, k, seen, db, RedoAll(db, Replayed(seen, seen)));
    var name := InsertedBy(steps)[k].table;
    var l := PlaceIn(db[name], seen, RecordsOf(steps)[k], name);
    assert !LiveAt(db[name], l);
  }

  // ---------------------------------------------------------------- the restart

  /** The restart itself: wal_open on what is left of the log, then wal_recover into the table files. */
  method Restart(ghost steps: seq<Step>, bytes: seq<Byte>, files: Files, keyOf: Row -> int) returns (log: Log, r: Report)
    requires LeftBy(bytes, steps) && AllShort(steps) && FilesOk(files, |Seen(bytes)|)
    modifies set n | n in files :: files[n]
    ensures FilesOk(files, 0) && AllOrNothing(Run(steps), bytes) && Short(Replayed(Seen(bytes), Seen(bytes)))
    ensures r.Report? <==> |CommitsOf(Seen(bytes))| <= MAX_COMMITS
    ensures |RecordsOf(steps)| == |InsertedBy(steps)|
    ensures if r.Report? then
              && (forall name :: name in files ==> Recovered(old(DatabaseOf(files))[name], DatabaseOf(files)[name], Seen(bytes), name))
              && forall k :: 0 <= k < |InsertedBy(steps)| ==> BroughtBack(steps, k, Seen(bytes), old(DatabaseOf(files)), DatabaseOf(files))
            else DatabaseOf(files) == old(DatabaseOf(files))
    ensures fresh(log)
    ensures r.Report? ==> log.records == [] && (Parse(bytes) != [] ==> log.Valid() && log.nextLsn == log.nextTxn == 1)
  {
    hide *;
    SeenIs(bytes);
    SessionsReplayable(steps, bytes);
    FilesFacts(files, |Seen(bytes)|);
    ghost var db := DatabaseOf(files);
    log := new Log.Open(bytes);
    r := Recover(log, files, keyOf);
    FilesFacts(files, 0);
    CrashIsAllOrNothing(steps, bytes);
    if r.Report? {
      forall name | name in files ensures Recovered(db[name], DatabaseOf(files)[name], Seen(bytes), name) {
        RedoRecovers(db, Seen(bytes), name);
      }
    }
    InsertsComeBack(steps, bytes, db);
    FollowsSize(Run(steps).log, RecordsOf(steps), InsertedBy(steps));
  }

  lemma SeenIs(bytes: seq<Byte>)
    ensures Seen(bytes) == Considered(Parse(bytes))
  {
  }
}
