/** What the statements of a run insert, told from the steps alone, and the records that say so. */
module Insertions {
  import opened Bytes
  import opened Wal
  import opened WalProtocol

  /** One inserted row: under which transaction, into which table, which bytes. */
  datatype Inserted = Inserted(txn: nat, table: seq<Byte>, data: seq<Byte>)

  /** The last step of a run takes effect. */
  predicate Taken(steps: seq<Step>) {
    |steps| > 0 && Enabled(Run(steps[..|steps| - 1]), steps[|steps| - 1])
  }

  /** How many transactions have begun; the `n`th has number `n`. */
  function BegunBy(steps: seq<Step>): nat {
    if |steps| == 0 then 0
    else
      var last := steps[|steps| - 1];
      BegunBy(steps[..|steps| - 1]) + if Taken(steps) && (last.UserBegin? || last.PrivateBegin?) then 1 else 0
  }

  /** The transaction of the last BEGIN statement. */
  function UserTxn(steps: seq<Step>): nat {
    if |steps| == 0 then 0
    else if Taken(steps) && steps[|steps| - 1].UserBegin? then BegunBy(steps)
    else UserTxn(steps[..|steps| - 1])
  }

  /** The private transaction that began last. */
  function PrivateTxn(steps: seq<Step>): nat {
    if |steps| == 0 then 0
    else if Taken(steps) && steps[|steps| - 1].PrivateBegin? then BegunBy(steps)
    else PrivateTxn(steps[..|steps| - 1])
  }

  /** What one more step inserts. */
  function InsertsNow(steps: seq<Step>, step: Step): seq<Inserted> {
    if !Enabled(Run(steps), step) then []
    else
      match step
      case UserInsert(table, data) => [Inserted(UserTxn(steps), table, data)]
      case PrivateWrite(kind, table, data, _) => if kind == INSERT then [Inserted(PrivateTxn(steps), table, data)] else []
      case _ => []
  }

  /** All inserted rows, in order. */
  function InsertedBy(steps: seq<Step>): seq<Inserted> {
    if |steps| == 0 then []
    else InsertedBy(steps[..|steps| - 1]) + InsertsNow(steps[..|steps| - 1], steps[|steps| - 1])
  }

  /** The places of their records in the log. */
  function RecordsOf(steps: seq<Step>): seq<nat> {
    if |steps| == 0 then []
    else
      var before, last := steps[..|steps| - 1], steps[|steps| - 1];
      RecordsOf(before) + if InsertsNow(before, last) == [] then [] else [|Run(before).log|]
  }

  lemma OneMore(steps: seq<Step>, step: Step)
    ensures Run(steps + [step]) == After(Run(steps), step)
    ensures Taken(steps + [step]) <==> Enabled(Run(steps), step)
    ensures BegunBy(steps + [step]) == BegunBy(steps) + if Enabled(Run(steps), step) && (step.UserBegin? || step.PrivateBegin?) then 1 else 0
    ensures UserTxn(steps + [step]) == if Enabled(Run(steps), step) && step.UserBegin? then BegunBy(steps + [step]) else UserTxn(steps)
    ensures PrivateTxn(steps + [step]) == if Enabled(Run(steps), step) && step.PrivateBegin? then BegunBy(steps + [step]) else PrivateTxn(steps)
    ensures InsertedBy(steps + [step]) == InsertedBy(steps) + InsertsNow(steps, step)
    ensures RecordsOf(steps + [step]) == RecordsOf(steps) + if InsertsNow(steps, step) == [] then [] else [|Run(steps).log|]
  {
    assert (steps + [step])[..|steps|] == steps;
    hide Enabled, After, InsertsNow;
  }

  /** The counters of the code when `begun` transactions have begun, `user` the user's last and
      `private` the last private one. */
  predicate Counted(s: State, begun: nat, user: nat, private: nat) {
    && s.nextTxn == begun + 1 && s.current == user
    && match s.phase
       case Begun(t) => t == private
       case Written(t) => t == private
       case Stored(t) => t == private
       case Committed(t) => t == private
       case _ => true
  }

  lemma StepCounted(s: State, step: Step, begun: nat, user: nat, private: nat)
    requires Counted(s, begun, user, private)
    ensures var on := Enabled(s, step);
            var begun' := begun + if on && (step.UserBegin? || step.PrivateBegin?) then 1 else 0;
            Counted(After(s, step), begun', if on && step.UserBegin? then begun' else user, if on && step.PrivateBegin? then begun' else private)
  {
    hide Mark, Entry;
  }

  /** The counters of the code number the transactions. */
  lemma {:induction false} CountersFollow(steps: seq<Step>)
    ensures Counted(Run(steps), BegunBy(steps), UserTxn(steps), PrivateTxn(steps))
  {
    if |steps| > 0 {
      var before, last := steps[..|steps| - 1], steps[|steps| - 1];
      assert steps == before + [last];
      hide Run, BegunBy, UserTxn, PrivateTxn, InsertedBy, RecordsOf, Taken, InsertsNow, Counted, Enabled, After;
      CountersFollow(before);
      OneMore(before, last);
      StepCounted(Run(before), last, BegunBy(before), UserTxn(before), PrivateTxn(before));
    }
  }

  /** Record `r` stands for the inserted row. */
  predicate Records(r: Record, row: Inserted) {
    && Typed(r) && r.kind == INSERT && r.txn == row.txn && r.size == |row.data|
    && (Named(row.table) && |row.table| < TABLE_SIZE ==> NameFrom(r.table, 0) == row.table)
    && (|row.data| <= DATA_SIZE ==> Payload(r) == row.data)
  }

  lemma EntryRecords(lsn: nat, txn: nat, table: seq<Byte>, data: seq<Byte>, page: nat)
    requires lsn < U64_LIMIT && txn < U32_LIMIT && page < U32_LIMIT && |data| < U16_LIMIT
    ensures Records(Entry(lsn, txn, INSERT, table, data, page), Inserted(txn, table, data))
  {
    if Named(table) && |table| < TABLE_SIZE {
      NameKept(table);
    }
    if |data| <= DATA_SIZE {
      PayloadKept(lsn, txn, INSERT, table, data, page);
    }
    hide NameFrom, TableField, Payload, DataField;
  }

  /** A step logs an INSERT record exactly if it inserts a row, and the record says which. */
  lemma StepRecords(steps: seq<Step>, step: Step)
    ensures var s, q, now := Run(steps), After(Run(steps), step), InsertsNow(steps, step);
            && s.log <= q.log && |q.log| <= |s.log| + 1
            && (now == [] ==> |q.log| > |s.log| ==> q.log[|s.log|].kind != INSERT)
            && (now != [] ==> |now| == 1 && |q.log| == |s.log| + 1 && Records(q.log[|s.log|], now[0]))
  {
    CountersFollow(steps);
    var s := Run(steps);
    if Enabled(s, step) {
      match step
      case UserInsert(table, data) => EntryRecords(s.nextLsn, s.current, table, data, 0);
      case PrivateWrite(kind, table, data, page) =>
        if kind == INSERT {
          EntryRecords(s.nextLsn, s.phase.txn, table, data, page);
        }
      case _ =>
    }
    hide Run, BegunBy, UserTxn, PrivateTxn, Records;
  }

  /** The INSERT records of the log stand for the inserted rows, one for one and in order. */
  ghost predicate Follows(log: seq<Record>, at: seq<nat>, rows: seq<Inserted>) {
    && |at| == |rows|
    && (forall k :: 0 <= k < |at| ==> at[k] < |log| && Records(log[at[k]], rows[k]))
    && (forall k, m :: 0 <= k < m < |at| ==> at[k] < at[m])
    && forall i :: 0 <= i < |log| && log[i].kind == INSERT ==> i in at
  }

  lemma FollowsMore(log: seq<Record>, at: seq<nat>, rows: seq<Inserted>, log': seq<Record>, now: seq<Inserted>)
    requires Follows(log, at, rows) && log <= log' && |log'| <= |log| + 1
    requires now == [] ==> |log'| > |log| ==> log'[|log|].kind != INSERT
    requires now != [] ==> |now| == 1 && |log'| == |log| + 1 && Records(log'[|log|], now[0])
    ensures Follows(log', at + (if now == [] then [] else [|log|]), rows + now)
  {
    hide Records;
    var at' := at + if now == [] then [] else [|log|];
    forall i | 0 <= i < |log'| && log'[i].kind == INSERT ensures i in at' {
      if i < |log| {
        assert log[i] == log'[i];
        assert i in at;
      } else {
        assert at'[|at|] == i;
      }
    }
  }

  lemma {:induction false} InsertsFollow(steps: seq<Step>)
    ensures Follows(Run(steps).log, RecordsOf(steps), InsertedBy(steps))
  {
    if |steps| > 0 {
      var before, last := steps[..|steps| - 1], steps[|steps| - 1];
      assert steps == before + [last];
      InsertsFollow(before);
      OneMore(before, last);
      StepRecords(before, last);
      hide Run, RecordsOf, InsertedBy, InsertsNow, Follows, Records;
      FollowsMore(Run(before).log, RecordsOf(before), InsertedBy(before), Run(steps).log, InsertsNow(before, last));
    }
  }
}
