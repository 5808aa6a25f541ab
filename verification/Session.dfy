/** The statements of the dispatcher that write the log, and wal_log_row: each is a path of protocol
    steps, so everything proved of all runs holds of every sequence of statements. */
module Session {
  import opened Bytes
  import opened Wal
  import opened WalProtocol
  import opened Insertions
  import RowCodec

  lemma RunStep(steps: seq<Step>, step: Step)
    ensures Run(steps + [step]) == After(Run(steps), step)
    ensures InsertedBy(steps + [step]) == InsertedBy(steps) + InsertsNow(steps, step)
  {
    OneMore(steps, step);
  }

  lemma RunSteps(steps: seq<Step>, a: Step, b: Step)
    ensures Run(steps + [a, b]) == After(After(Run(steps), a), b)
    ensures InsertedBy(steps + [a, b]) == InsertedBy(steps) + InsertsNow(steps, a) + InsertsNow(steps + [a], b)
  {
    hide InsertsNow, InsertedBy, After;
    RunStep(steps, a);
    RunStep(steps + [a], b);
    assert steps + [a] + [b] == steps + [a, b];
  }

  /** The buffer that the dispatcher fills for an INSERT. */
  function RowText(first: seq<Byte>, second: seq<Byte>): seq<Byte> {
    first + ['|' as int] + second
  }

  /** The buffer holds the two values as fields of a row. */
  lemma RowTextFields(first: seq<Byte>, second: seq<Byte>)
    ensures RowText(first, second) == RowCodec.Join([first, second])
    ensures RowCodec.Solid(first) && RowCodec.Solid(second) <==> RowCodec.Split(RowText(first, second)) == [first, second]
  {
    assert [first, second][1..] == [second];
    assert RowCodec.Join([second]) == second;
    RowCodec.SplitJoinExactly([first, second]);
    hide RowCodec.Split, RowCodec.Solid;
    assert [first, second][0] == first && [first, second][1] == second;
  }

  datatype Outcome = Success | TooLong | NoTable

  class Session {
    const log: Log
    var active: bool
    var current: nat
    ghost var trace: seq<Step>

    /** The session is between statements, in the state that its steps lead to. */
    ghost predicate Valid()
      reads this, log
    {
      var s := Run(trace);
      && log.Valid()
      && s.log == log.records && s.synced == log.synced && s.nextLsn == log.nextLsn && s.nextTxn == log.nextTxn
      && s.active == active && s.current == current < log.nextTxn && s.phase == Idle
    }

    /** Neither counter is about to wrap around. */
    predicate Room()
      reads log
    {
      log.nextLsn + 4 < U64_LIMIT && log.nextTxn + 2 < U32_LIMIT
    }

    constructor (log: Log)
      requires log.Valid() && log.records == [] && log.nextLsn == 1 && log.nextTxn == 1
      ensures Valid() && this.log == log && !active && trace == [] && AllShort(trace)
    {
      this.log := log;
      active, current, trace := false, 0, [];
    }

    /** The BEGIN case of handle_sql. */
    method HandleBegin()
      requires Valid() && Room()
      modifies this, log
      ensures Valid() && trace == old(trace) + [UserBegin]
      ensures active && current == old(log.nextTxn)
      ensures AllShort(old(trace)) ==> AllShort(trace)
      ensures InsertedBy(trace) == InsertedBy(old(trace))
    {
      hide Run, Log.Valid, Mark, Entry, EncodeAll, AllTyped, Typed, InsertedBy, RecordsOf, BegunBy, UserTxn, PrivateTxn;
      CountersFollow(trace);
      RunStep(trace, UserBegin);
      var ok, txn := log.Begin(RECORD_SIZE);
      current, active := txn, true;
      trace := trace + [UserBegin];
    }

    /** The COMMIT case of handle_sql: once it returns, the transaction survives every crash. */
    method HandleCommit()
      requires Valid() && Room()
      modifies this, log
      ensures Valid() && trace == old(trace) + [UserCommit, WalProtocol.Sync]
      ensures !active && current in Run(trace).acked
      ensures AllShort(old(trace)) ==> AllShort(trace)
      ensures InsertedBy(trace) == InsertedBy(old(trace))
    {
      hide Run, Log.Valid, Mark, Entry, EncodeAll, AllTyped, Typed, InsertedBy, RecordsOf, BegunBy, UserTxn, PrivateTxn;
      CountersFollow(trace);
      RunSteps(trace, UserCommit, WalProtocol.Sync);
      var ok := log.AppendCommit(current, RECORD_SIZE);
      log.Sync();
      active := false;
      trace := trace + [UserCommit, WalProtocol.Sync];
    }

    /** wal_log_row, and the log's side of an INSERT outside a transaction: one private transaction. */
    method LogRow(kind: Byte, table: seq<Byte>, row: seq<Byte>, page: nat)
      requires Valid() && Room() && IsData(kind) && |row| < U16_LIMIT && page < U32_LIMIT
      modifies this, log
      ensures Valid() && active == old(active) && current == old(current)
      ensures trace == old(trace) + [PrivateBegin] + [PrivateWrite(kind, table, row, page), WalProtocol.Sync]
                       + [PrivateCommit, WalProtocol.Sync]
      ensures old(log.nextTxn) in Run(trace).acked
      ensures AllShort(old(trace)) && (kind == INSERT ==> |row| <= DATA_SIZE) ==> AllShort(trace)
      ensures InsertedBy(trace) == InsertedBy(old(trace)) + if kind == INSERT then [Inserted(old(log.nextTxn), table, row)] else []
    {
      var txn := BeginPrivate();
      WritePrivate(txn, kind, table, row, page);
      CommitPrivate(txn);
    }

    /** Inside a private transaction. */
    ghost predicate Inside(phase: Phase)
      reads this, log
    {
      var s := Run(trace);
      && log.Valid()
      && s.log == log.records && s.synced == log.synced && s.nextLsn == log.nextLsn && s.nextTxn == log.nextTxn
      && s.active == active && s.current == current < log.nextTxn && s.phase == phase
    }

    method BeginPrivate() returns (txn: nat)
      requires Valid() && Room()
      modifies this`trace, log
      ensures Inside(Begun(txn)) && txn == old(log.nextTxn) < log.nextTxn && trace == old(trace) + [PrivateBegin]
      ensures log.nextLsn == old(log.nextLsn) + 1 && log.nextTxn == old(log.nextTxn) + 1
      ensures AllShort(old(trace)) ==> AllShort(trace)
      ensures InsertedBy(trace) == InsertedBy(old(trace))
    {
      hide Run, Log.Valid, Mark, Entry, EncodeAll, AllTyped, Typed, InsertedBy, RecordsOf, BegunBy, UserTxn, PrivateTxn;
      CountersFollow(trace);
      RunStep(trace, PrivateBegin);
      var ok;
      ok, txn := log.Begin(RECORD_SIZE);
      trace := trace + [PrivateBegin];
    }

    method WritePrivate(txn: nat, kind: Byte, table: seq<Byte>, row: seq<Byte>, page: nat)
      requires Inside(Begun(txn)) && txn < log.nextTxn && log.nextLsn + 2 < U64_LIMIT && log.nextTxn + 1 < U32_LIMIT
      requires IsData(kind) && |row| < U16_LIMIT && page < U32_LIMIT
      modifies this`trace, log
      ensures Inside(Stored(txn)) && trace == old(trace) + [PrivateWrite(kind, table, row, page), WalProtocol.Sync]
      ensures log.nextLsn == old(log.nextLsn) + 1 && log.nextTxn == old(log.nextTxn)
      ensures AllShort(old(trace)) && (kind == INSERT ==> |row| <= DATA_SIZE) ==> AllShort(trace)
      ensures InsertedBy(trace) == InsertedBy(old(trace)) + if kind == INSERT then [Inserted(txn, table, row)] else []
    {
      hide Run, Log.Valid, Mark, Entry, EncodeAll, AllTyped, Typed, InsertedBy, RecordsOf, BegunBy, UserTxn, PrivateTxn;
      CountersFollow(trace);
      RunSteps(trace, PrivateWrite(kind, table, row, page), WalProtocol.Sync);
      var ok := log.Append(txn, kind, table, row, page, RECORD_SIZE);
      log.Sync();
      trace := trace + [PrivateWrite(kind, table, row, page), WalProtocol.Sync];
    }

    method CommitPrivate(txn: nat)
      requires Inside(Stored(txn)) && txn < log.nextTxn && log.nextLsn + 2 < U64_LIMIT && log.nextTxn + 1 < U32_LIMIT
      modifies this`trace, log
      ensures Valid() && trace == old(trace) + [PrivateCommit, WalProtocol.Sync] && txn in Run(trace).acked
      ensures AllShort(old(trace)) ==> AllShort(trace)
      ensures InsertedBy(trace) == InsertedBy(old(trace))
    {
      hide Run, Log.Valid, Mark, Entry, EncodeAll, AllTyped, Typed, InsertedBy, RecordsOf, BegunBy, UserTxn, PrivateTxn;
      CountersFollow(trace);
      RunSteps(trace, PrivateCommit, WalProtocol.Sync);
      var ok := log.AppendCommit(txn, RECORD_SIZE);
      log.Sync();
      trace := trace + [PrivateCommit, WalProtocol.Sync];
    }

    /** A private transaction that an error path of INSERT leaves without a COMMIT. */
    ghost method GiveUp(txn: nat, phase: Phase)
      requires Inside(phase) && (phase == Begun(txn) || phase == Stored(txn)) && log.nextLsn + 1 < U64_LIMIT && log.nextTxn + 1 < U32_LIMIT
      modifies this`trace
      ensures Valid() && trace == old(trace) + [WalProtocol.Abandon]
      ensures AllShort(old(trace)) ==> AllShort(trace)
      ensures InsertedBy(trace) == InsertedBy(old(trace))
    {
      hide Run, Log.Valid, Mark, Entry, EncodeAll, AllTyped, Typed, InsertedBy, RecordsOf, BegunBy, UserTxn, PrivateTxn;
      CountersFollow(trace);
      RunStep(trace, WalProtocol.Abandon);
      trace := trace + [WalProtocol.Abandon];
    }

    /** The log's side of the INSERT case of handle_sql.  `found` tells whether the table exists. */
    method HandleInsert(table: seq<Byte>, first: seq<Byte>, second: seq<Byte>, found: bool) returns (r: Outcome)
      requires Valid() && Room()
      modifies this, log
      ensures Valid() && active == old(active) && current == old(current)
      ensures r == if |RowText(first, second)| >= DATA_SIZE then TooLong else if !found then NoTable else Success
      ensures var row := RowText(first, second);
              trace == old(trace) +
                       (if old(active) then (if r == TooLong then [] else [UserInsert(table, row), WalProtocol.Sync])
                        else [PrivateBegin] + (match r
                                               case TooLong => [Abandon]
                                               case NoTable => [PrivateWrite(INSERT, table, row, 0), WalProtocol.Sync] + [Abandon]
                                               case Success => [PrivateWrite(INSERT, table, row, 0), WalProtocol.Sync] + [PrivateCommit, WalProtocol.Sync]))
      ensures AllShort(old(trace)) ==> AllShort(trace)
      ensures InsertedBy(trace) == InsertedBy(old(trace)) +
                if r == TooLong then [] else [Inserted(if active then current else old(log.nextTxn), table, RowText(first, second))]
      ensures r == Success && !active ==> old(log.nextTxn) in Run(trace).acked
    {
      hide Run, Log.Valid, Mark, Entry, EncodeAll, AllTyped, Typed, InsertedBy, RecordsOf, BegunBy, UserTxn, PrivateTxn;
      CountersFollow(trace);
      var txn := current;
      var autoCommit := false;
      if !active {
        txn := BeginPrivate();
        autoCommit := true;
      }
      var row := RowText(first, second);
      if |row| >= DATA_SIZE {
        if autoCommit {
          GiveUp(txn, Begun(txn));
        }
        return TooLong;
      }
      if autoCommit {
        WritePrivate(txn, INSERT, table, row, 0);
      } else {
        RunSteps(trace, UserInsert(table, row), WalProtocol.Sync);
        var ok := log.Append(txn, INSERT, table, row, 0, RECORD_SIZE);
        log.Sync();
        trace := trace + [UserInsert(table, row), WalProtocol.Sync];
      }
      if !found {
        if autoCommit {
          GiveUp(txn, Stored(txn));
        }
        return NoTable;
      }
      if autoCommit {
        CommitPrivate(txn);
      }
      return Success;
    }
  }
}
