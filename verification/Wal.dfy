/** The write-ahead log: records as bytes, the log file as a sequence of records, and the object that
    appends to it. */
module Wal {
  import opened Bytes
  import Checksum

  const U64_LIMIT: nat := 0x1_0000_0000_0000_0000
  const TABLE_SIZE: nat := 64
  const DATA_SIZE: nat := 256

  // Field positions inside WALRecord, with the usual alignment.
  const TXN_AT: nat := 8
  const PAGE_AT: nat := 12
  const KIND_AT: nat := 16
  const TABLE_AT: nat := 17
  const SIZE_AT: nat := 82
  const DATA_AT: nat := 84
  const SUM_AT: nat := 340
  const RECORD_SIZE: nat := 344

  // The values of WALRecordType.
  const BEGIN: Byte := 1
  const INSERT: Byte := 2
  const UPDATE: Byte := 3
  const DELETE: Byte := 4
  const COMMIT: Byte := 5

  datatype Option<T> = None | Some(value: T)

  datatype Record = Record(lsn: nat, txn: nat, page: nat, kind: Byte, table: seq<Byte>, size: nat, data: seq<Byte>)

  /** The fields are within their C types. */
  predicate Typed(r: Record) {
    && r.lsn < U64_LIMIT && r.txn < U32_LIMIT && r.page < U32_LIMIT && r.size < U16_LIMIT
    && |r.table| == TABLE_SIZE && |r.data| == DATA_SIZE
  }

  // ---------------------------------------------------------------- one record as bytes

  function Bytes2(x: nat): (s: seq<Byte>)
    requires x < U16_LIMIT
    ensures |s| == 2
  {
    [x % 256, x / 256]
  }

  function Bytes4(x: nat): (s: seq<Byte>)
    requires x < U32_LIMIT
    ensures |s| == 4
  {
    Bytes2(x % U16_LIMIT) + Bytes2(x / U16_LIMIT)
  }

  function Bytes8(x: nat): (s: seq<Byte>)
    requires x < U64_LIMIT
    ensures |s| == 8
  {
    Bytes4(x % U32_LIMIT) + Bytes4(x / U32_LIMIT)
  }

  function GetU64(s: seq<Byte>, at: nat): (x: nat)
    requires at + 8 <= |s|
    ensures x < U64_LIMIT
  {
    GetU32(s, at) + U32_LIMIT * GetU32(s, at + 4)
  }

  /** The bytes that the checksum covers; one byte of padding follows the table name. */
  function Body(r: Record): (s: seq<Byte>)
    requires Typed(r)
    ensures |s| == SUM_AT
  {
    Bytes8(r.lsn) + Bytes4(r.txn) + Bytes4(r.page) + [r.kind] + r.table + [0] + Bytes2(r.size) + r.data
  }

  /** What write_record writes. */
  function Encode(r: Record): (s: seq<Byte>)
    requires Typed(r)
    ensures |s| == RECORD_SIZE
  {
    Body(r) + Bytes4(Checksum.Value(Body(r)))
  }

  /** The test of read_record. */
  predicate Intact(s: seq<Byte>) {
    |s| == RECORD_SIZE && GetU32(s, SUM_AT) == Checksum.Value(s[..SUM_AT])
  }

  function Decode(s: seq<Byte>): (r: Record)
    requires |s| == RECORD_SIZE
    ensures Typed(r)
  {
    Record(GetU64(s, 0), GetU32(s, TXN_AT), GetU32(s, PAGE_AT), s[KIND_AT],
           s[TABLE_AT..TABLE_AT + TABLE_SIZE], GetU16(s, SIZE_AT), s[DATA_AT..SUM_AT])
  }

  lemma Fields16(s: seq<Byte>, at: nat, x: nat)
    requires at + 2 <= |s| && x < U16_LIMIT && s[at..at + 2] == Bytes2(x)
    ensures GetU16(s, at) == x
  {
    assert s[at] == s[at..at + 2][0] && s[at + 1] == s[at..at + 2][1];
  }

  lemma Fields32(s: seq<Byte>, at: nat, x: nat)
    requires at + 4 <= |s| && x < U32_LIMIT && s[at..at + 4] == Bytes4(x)
    ensures GetU32(s, at) == x
  {
    assert s[at..at + 2] == s[at..at + 4][..2] == Bytes2(x % U16_LIMIT);
    assert s[at + 2..at + 4] == s[at..at + 4][2..] == Bytes2(x / U16_LIMIT);
    Fields16(s, at, x % U16_LIMIT);
    Fields16(s, at + 2, x / U16_LIMIT);
  }

  lemma Fields64(s: seq<Byte>, at: nat, x: nat)
    requires at + 8 <= |s| && x < U64_LIMIT && s[at..at + 8] == Bytes8(x)
    ensures GetU64(s, at) == x
  {
    assert s[at..at + 4] == s[at..at + 8][..4] == Bytes4(x % U32_LIMIT);
    assert s[at + 4..at + 8] == s[at..at + 8][4..] == Bytes4(x / U32_LIMIT);
    Fields32(s, at, x % U32_LIMIT);
    Fields32(s, at + 4, x / U32_LIMIT);
  }

  /** Where the fields of a record end up in its bytes. */
  lemma Slices(l: seq<Byte>, t: seq<Byte>, p: seq<Byte>, k: Byte, table: seq<Byte>, z: seq<Byte>, data: seq<Byte>, sum: seq<Byte>)
    requires |l| == 8 && |t| == 4 && |p| == 4 && |table| == TABLE_SIZE && |z| == 2 && |data| == DATA_SIZE && |sum| == 4
    ensures var body := l + t + p + [k] + table + [0] + z + data;
            var s := body + sum;
            && |s| == RECORD_SIZE && s[..SUM_AT] == body && s[SUM_AT..SUM_AT + 4] == sum
            && s[0..8] == l && s[TXN_AT..TXN_AT + 4] == t && s[PAGE_AT..PAGE_AT + 4] == p && s[KIND_AT] == k
            && s[TABLE_AT..TABLE_AT + TABLE_SIZE] == table && s[SIZE_AT..SIZE_AT + 2] == z && s[DATA_AT..SUM_AT] == data
  {
    var body := l + t + p + [k] + table + [0] + z + data;
    var s := body + sum;
    assert s[..SUM_AT] == body && s[SUM_AT..SUM_AT + 4] == sum;
    assert s[0..8] == l;
    assert s[TXN_AT..TXN_AT + 4] == t;
    assert s[PAGE_AT..PAGE_AT + 4] == p;
    assert s[TABLE_AT..TABLE_AT + TABLE_SIZE] == table;
    assert s[SIZE_AT..SIZE_AT + 2] == z;
    assert s[DATA_AT..SUM_AT] == data;
  }

  /** write_record then read_record gives back the record. */
  lemma DecodeEncode(r: Record)
    requires Typed(r)
    ensures Intact(Encode(r)) && Decode(Encode(r)) == r
  {
    hide Bytes8, Bytes4, Bytes2, GetU64, GetU32, GetU16, Checksum.Value;
    var s := Encode(r);
    Slices(Bytes8(r.lsn), Bytes4(r.txn), Bytes4(r.page), r.kind, r.table, Bytes2(r.size), r.data, Bytes4(Checksum.Value(Body(r))));
    Fields32(s, SUM_AT, Checksum.Value(Body(r)));
    Fields64(s, 0, r.lsn);
    Fields32(s, TXN_AT, r.txn);
    Fields32(s, PAGE_AT, r.page);
    Fields16(s, SIZE_AT, r.size);
  }

  /** The checksum of a record sees at most the last 32 bytes of its data field: a record with a
      shorter payload has checksum 0, whatever its other fields say. */
  lemma ShortPayloadUnchecked(r: Record)
    requires Typed(r) && forall i :: DATA_SIZE - 32 <= i < DATA_SIZE ==> r.data[i] == 0
    ensures Checksum.Value(Body(r)) == 0
  {
    var tail := r.data[DATA_SIZE - 32..];
    var head := Body(r)[..SUM_AT - 32];
    assert Body(r) == head + tail;
    Checksum.OnlyTailMatters(head, [], tail);
    assert [] + tail == tail == seq(32, i => 0);
    ZerosSum(32);
  }

  lemma {:induction false} ZerosSum(n: nat)
    ensures Checksum.SumFrom(0, seq(n, i => 0)) == 0
  {
    if n > 0 {
      ZerosSum(n - 1);
      assert seq(n, i => 0 as Byte)[1..] == seq(n - 1, i => 0);
      ZeroRound();
    }
  }

  lemma ZeroRound()
    ensures Checksum.Round(0, 0) == 0
  {
  }

  /** A record that reads back stops reading back when one of its last 25 covered bytes changes. */
  lemma DamageDetected(s: seq<Byte>, i: nat, b: Byte)
    requires Intact(s) && SUM_AT - 25 <= i < SUM_AT && b != s[i]
    ensures !Intact(s[i := b])
  {
    var t := s[i := b];
    assert t[..SUM_AT] == s[..SUM_AT][i := b];
    assert GetU32(t, SUM_AT) == GetU32(s, SUM_AT);
    Checksum.LastBytesDetected(s[..SUM_AT], i, b);
  }

  // ---------------------------------------------------------------- the log as bytes

  ghost predicate AllTyped(rs: seq<Record>) {
    forall i :: 0 <= i < |rs| ==> Typed(rs[i])
  }

  ghost function EncodeAll(rs: seq<Record>): (s: seq<Byte>)
    requires AllTyped(rs)
    ensures |s| == RECORD_SIZE * |rs|
  {
    if |rs| == 0 then [] else EncodeAll(rs[..|rs| - 1]) + Encode(rs[|rs| - 1])
  }

  /** The records that reading the log from `at` on yields: up to the first one that is cut short or
      fails its checksum. */
  function ParseFrom(log: seq<Byte>, at: nat): (rs: seq<Record>)
    requires at <= |log|
    ensures RECORD_SIZE * |rs| <= |log| - at
    ensures AllTyped(rs)
    decreases |log| - at
  {
    if |log| - at >= RECORD_SIZE && Intact(log[at..at + RECORD_SIZE]) then
      [Decode(log[at..at + RECORD_SIZE])] + ParseFrom(log, at + RECORD_SIZE)
    else []
  }

  function Parse(log: seq<Byte>): (rs: seq<Record>)
    ensures AllTyped(rs)
  {
    ParseFrom(log, 0)
  }

  /** The bytes of record `i` in an encoded log. */
  lemma {:induction false} RecordAt(rs: seq<Record>, i: nat)
    requires AllTyped(rs) && i < |rs|
    ensures EncodeAll(rs)[RECORD_SIZE * i..RECORD_SIZE * (i + 1)] == Encode(rs[i])
  {
    if i < |rs| - 1 {
      RecordAt(rs[..|rs| - 1], i);
    }
  }

  lemma CutRecord(rs: seq<Record>, cut: nat, i: nat)
    requires AllTyped(rs) && i < |rs| && RECORD_SIZE * (i + 1) <= cut <= |EncodeAll(rs)|
    ensures var s := EncodeAll(rs)[..cut][RECORD_SIZE * i..RECORD_SIZE * i + RECORD_SIZE];
            Intact(s) && Decode(s) == rs[i]
  {
    RecordAt(rs, i);
    DecodeEncode(rs[i]);
    hide Encode, EncodeAll, Decode, Intact;
    assert EncodeAll(rs)[..cut][RECORD_SIZE * i..RECORD_SIZE * i + RECORD_SIZE] == Encode(rs[i]);
  }

  /** Any cut through an encoded log leaves exactly the whole records before the cut. */
  lemma {:induction false} CutParses(rs: seq<Record>, cut: nat, n: nat, i: nat)
    requires AllTyped(rs) && cut <= |EncodeAll(rs)| && i <= n <= |rs| && RECORD_SIZE * n <= cut < RECORD_SIZE * (n + 1)
    ensures ParseFrom(EncodeAll(rs)[..cut], RECORD_SIZE * i) == rs[i..n]
    decreases n - i
  {
    hide Encode, EncodeAll, Decode, Intact, Typed;
    if i < n {
      CutRecord(rs, cut, i);
      CutParses(rs, cut, n, i + 1);
      assert rs[i..n] == [rs[i]] + rs[i + 1..n];
    }
  }

  /** What a crash leaves of the log, read back. */
  lemma CrashLeavesPrefix(rs: seq<Record>, cut: nat)
    requires AllTyped(rs) && cut <= |EncodeAll(rs)|
    ensures cut / RECORD_SIZE <= |rs| && Parse(EncodeAll(rs)[..cut]) == rs[..cut / RECORD_SIZE]
  {
    CutParses(rs, cut, cut / RECORD_SIZE, 0);
  }

  lemma WholeLogParses(rs: seq<Record>)
    requires AllTyped(rs)
    ensures Parse(EncodeAll(rs)) == rs
  {
    CrashLeavesPrefix(rs, |EncodeAll(rs)|);
    assert EncodeAll(rs)[..|EncodeAll(rs)|] == EncodeAll(rs);
  }

  // ---------------------------------------------------------------- building records

  function Zeros(n: nat): (z: seq<Byte>)
    ensures |z| == n && forall i :: 0 <= i < n ==> z[i] == 0
  {
    seq(n, i => 0)
  }

  /** A C string without its terminator. */
  predicate Named(s: seq<Byte>) {
    forall i :: 0 <= i < |s| ==> s[i] != 0
  }

  /** strncpy into the table field: at most 63 characters, the rest zeros. */
  function TableField(name: seq<Byte>): (t: seq<Byte>)
    ensures |t| == TABLE_SIZE
  {
    var n := if |name| < TABLE_SIZE then |name| else TABLE_SIZE - 1;
    name[..n] + Zeros(TABLE_SIZE - n)
  }

  /** The table field read as a C string from position `i` on. */
  function NameFrom(field: seq<Byte>, i: nat): (s: seq<Byte>)
    requires i <= |field|
    decreases |field| - i
  {
    if i < |field| && field[i] != 0 then [field[i]] + NameFrom(field, i + 1) else []
  }

  /** A table name of at most 63 characters survives the log; a longer one is cut. */
  lemma NameKept(name: seq<Byte>)
    requires Named(name)
    ensures NameFrom(TableField(name), 0) == if |name| < TABLE_SIZE then name else name[..TABLE_SIZE - 1]
  {
    var kept := if |name| < TABLE_SIZE then name else name[..TABLE_SIZE - 1];
    assert TableField(name) == kept + Zeros(TABLE_SIZE - |kept|);
    hide TableField, Zeros;
    NameRest(kept, Zeros(TABLE_SIZE - |kept|), 0);
  }

  lemma {:induction false} NameRest(name: seq<Byte>, zeros: seq<Byte>, i: nat)
    requires Named(name) && i <= |name| && |zeros| > 0 && zeros[0] == 0
    ensures NameFrom(name + zeros, i) == name[i..]
    decreases |name| - i
  {
    if i < |name| {
      NameRest(name, zeros, i + 1);
      assert name[i..] == [name[i]] + name[i + 1..];
    }
  }

  /** The data field holds at most 256 bytes of the payload, although `size` keeps its full length. */
  function DataField(data: seq<Byte>): (d: seq<Byte>)
    ensures |d| == DATA_SIZE
  {
    var n := if |data| < DATA_SIZE then |data| else DATA_SIZE;
    data[..n] + Zeros(DATA_SIZE - n)
  }

  /** What redo_insert hands to the table. */
  function Payload(r: Record): seq<Byte>
    requires Typed(r) && r.size <= DATA_SIZE
  {
    r.data[..r.size]
  }

  function Mark(lsn: nat, txn: nat, kind: Byte): (r: Record)
    requires lsn < U64_LIMIT && txn < U32_LIMIT
    ensures Typed(r)
  {
    Record(lsn, txn, 0, kind, Zeros(TABLE_SIZE), 0, Zeros(DATA_SIZE))
  }

  function Entry(lsn: nat, txn: nat, kind: Byte, table: seq<Byte>, data: seq<Byte>, page: nat): (r: Record)
    requires lsn < U64_LIMIT && txn < U32_LIMIT && page < U32_LIMIT && |data| < U16_LIMIT
    ensures Typed(r)
  {
    Record(lsn, txn, page, kind, TableField(table), |data|, DataField(data))
  }

  lemma PayloadKept(lsn: nat, txn: nat, kind: Byte, table: seq<Byte>, data: seq<Byte>, page: nat)
    requires lsn < U64_LIMIT && txn < U32_LIMIT && page < U32_LIMIT && |data| <= DATA_SIZE
    ensures Payload(Entry(lsn, txn, kind, table, data, page)) == data
  {
  }

  // ---------------------------------------------------------------- the log file

  /** One step of wal_open's counters. */
  function Raise(next: nat, id: nat, limit: nat): (n: nat)
    requires next < limit && id < limit
    ensures n < limit
  {
    if id >= next then (id + 1) % limit else next
  }

  function NextLsn(rs: seq<Record>): (n: nat)
    requires AllTyped(rs)
    ensures n < U64_LIMIT
  {
    if |rs| == 0 then 1 else Raise(NextLsn(rs[..|rs| - 1]), rs[|rs| - 1].lsn, U64_LIMIT)
  }

  function NextTxn(rs: seq<Record>): (n: nat)
    requires AllTyped(rs)
    ensures n < U32_LIMIT
  {
    if |rs| == 0 then 1 else Raise(NextTxn(rs[..|rs| - 1]), rs[|rs| - 1].txn, U32_LIMIT)
  }

  /** wal_open leaves its counters above every id in the log, unless an id is the largest of its type
      and the counter has wrapped around. */
  lemma {:induction false} CountersAbove(rs: seq<Record>)
    requires AllTyped(rs)
    ensures (forall i :: 0 <= i < |rs| ==> rs[i].lsn < NextLsn(rs)) <==> forall i :: 0 <= i < |rs| ==> rs[i].lsn != U64_LIMIT - 1
    ensures (forall i :: 0 <= i < |rs| ==> rs[i].txn < NextTxn(rs)) <==> forall i :: 0 <= i < |rs| ==> rs[i].txn != U32_LIMIT - 1
  {
    if |rs| > 0 {
      var n := |rs| - 1;
      CountersAbove(rs[..n]);
      assert forall i :: 0 <= i < n ==> rs[..n][i] == rs[i];
    }
  }

  /** And then they are one above the largest id, or 1 on an empty log. */
  lemma {:induction false} CountersExactly(rs: seq<Record>)
    requires AllTyped(rs)
    ensures rs == [] ==> NextLsn(rs) == NextTxn(rs) == 1
    ensures rs != [] && (forall i :: 0 <= i < |rs| ==> rs[i].lsn != U64_LIMIT - 1) ==> exists i :: 0 <= i < |rs| && rs[i].lsn + 1 == NextLsn(rs)
    ensures rs != [] && (forall i :: 0 <= i < |rs| ==> rs[i].txn != U32_LIMIT - 1) ==> exists i :: 0 <= i < |rs| && rs[i].txn + 1 == NextTxn(rs)
  {
    if |rs| > 0 {
      var n := |rs| - 1;
      CountersExactly(rs[..n]);
      LsnStep(rs);
      TxnStep(rs);
    }
  }

  lemma LsnStep(rs: seq<Record>)
    requires AllTyped(rs) && |rs| > 0
    requires var before := rs[..|rs| - 1];
             && (before == [] ==> NextLsn(before) == 1)
             && (before != [] && (forall i :: 0 <= i < |before| ==> before[i].lsn != U64_LIMIT - 1) ==>
                   exists i :: 0 <= i < |before| && before[i].lsn + 1 == NextLsn(before))
    ensures (forall i :: 0 <= i < |rs| ==> rs[i].lsn != U64_LIMIT - 1) ==> exists i :: 0 <= i < |rs| && rs[i].lsn + 1 == NextLsn(rs)
  {
    var n := |rs| - 1;
    var before := rs[..n];
    if forall i :: 0 <= i < |rs| ==> rs[i].lsn != U64_LIMIT - 1 {
      assert rs[n].lsn != U64_LIMIT - 1;
      if rs[n].lsn >= NextLsn(before) || before == [] {
        assert rs[n].lsn + 1 == NextLsn(rs);
      } else {
        assert forall i :: 0 <= i < n ==> before[i] == rs[i];
        var i :| 0 <= i < |before| && before[i].lsn + 1 == NextLsn(before);
        assert rs[i].lsn + 1 == NextLsn(rs);
      }
    }
  }

  lemma TxnStep(rs: seq<Record>)
    requires AllTyped(rs) && |rs| > 0
    requires var before := rs[..|rs| - 1];
             && (before == [] ==> NextTxn(before) == 1)
             && (before != [] && (forall i :: 0 <= i < |before| ==> before[i].txn != U32_LIMIT - 1) ==>
                   exists i :: 0 <= i < |before| && before[i].txn + 1 == NextTxn(before))
    ensures (forall i :: 0 <= i < |rs| ==> rs[i].txn != U32_LIMIT - 1) ==> exists i :: 0 <= i < |rs| && rs[i].txn + 1 == NextTxn(rs)
  {
    var n := |rs| - 1;
    var before := rs[..n];
    if forall i :: 0 <= i < |rs| ==> rs[i].txn != U32_LIMIT - 1 {
      assert rs[n].txn != U32_LIMIT - 1;
      if rs[n].txn >= NextTxn(before) || before == [] {
        assert rs[n].txn + 1 == NextTxn(rs);
      } else {
        assert forall i :: 0 <= i < n ==> before[i] == rs[i];
        var i :| 0 <= i < |before| && before[i].txn + 1 == NextTxn(before);
        assert rs[i].txn + 1 == NextTxn(rs);
      }
    }
  }

  /** A log on which a counter wraps around: one BEGIN with the largest id of its type. */
  lemma CountersWrap()
    ensures NextLsn(Parse(EncodeAll([Mark(U64_LIMIT - 1, 1, BEGIN)]))) == 0
    ensures NextTxn(Parse(EncodeAll([Mark(1, U32_LIMIT - 1, BEGIN)]))) == 0
  {
    WholeLogParses([Mark(U64_LIMIT - 1, 1, BEGIN)]);
    WholeLogParses([Mark(1, U32_LIMIT - 1, BEGIN)]);
    hide Parse, EncodeAll;
    OneRecord(Mark(U64_LIMIT - 1, 1, BEGIN));
    OneRecord(Mark(1, U32_LIMIT - 1, BEGIN));
  }

  lemma OneRecord(r: Record)
    requires Typed(r)
    ensures NextLsn([r]) == Raise(1, r.lsn, U64_LIMIT) && NextTxn([r]) == Raise(1, r.txn, U32_LIMIT)
  {
    assert [r][..0] == [];
  }

  /** The reading loop of wal_open. */
  method ScanLog(bytes: seq<Byte>) returns (lsn: nat, txn: nat)
    ensures lsn == NextLsn(Parse(bytes)) && txn == NextTxn(Parse(bytes))
  {
    hide *;
    ghost var rs := Parse(bytes);
    ghost var n := 0;
    CountStart(bytes);
    lsn, txn := 1, 1;
    var at := 0;
    var r := ReadRecord(bytes, at);
    while r.Some?
      invariant n <= |rs| && at == RECORD_SIZE * n <= |bytes| && ParseFrom(bytes, at) == rs[n..]
      invariant r == if n < |rs| then Some(rs[n]) else None
      invariant r.Some? ==> at + RECORD_SIZE <= |bytes| && ParseFrom(bytes, at) == [r.value] + ParseFrom(bytes, at + RECORD_SIZE)
      invariant lsn == NextLsn(rs[..n]) && txn == NextTxn(rs[..n])
      decreases |rs| - n
    {
      CountStep(rs, n);
      assert ParseFrom(bytes, at + RECORD_SIZE) == rs[n..][1..] == rs[n + 1..];
      lsn := Raise(lsn, r.value.lsn, U64_LIMIT);
      txn := Raise(txn, r.value.txn, U32_LIMIT);
      at := at + RECORD_SIZE;
      n := n + 1;
      r := ReadRecord(bytes, at);
    }
    assert rs[..n] == rs;
  }

  lemma CountStart(bytes: seq<Byte>)
    ensures AllTyped(Parse(bytes)) && ParseFrom(bytes, 0) == Parse(bytes)[0..] && NextLsn(Parse(bytes)[..0]) == NextTxn(Parse(bytes)[..0]) == 1
    ensures forall i :: 0 <= i <= |Parse(bytes)| ==> AllTyped(Parse(bytes)[..i])
  {
  }

  lemma CountStep(rs: seq<Record>, n: nat)
    requires AllTyped(rs) && n < |rs|
    ensures Typed(rs[n]) && rs[n].lsn < U64_LIMIT && rs[n].txn < U32_LIMIT
    ensures NextLsn(rs[..n + 1]) == Raise(NextLsn(rs[..n]), rs[n].lsn, U64_LIMIT)
    ensures NextTxn(rs[..n + 1]) == Raise(NextTxn(rs[..n]), rs[n].txn, U32_LIMIT)
  {
    assert rs[..n + 1][..n] == rs[..n];
  }

  /** What a write of a record, complete or not, leaves in the file. */
  lemma Appended(rs: seq<Record>, r: Record, written: nat)
    requires AllTyped(rs) && Typed(r) && written <= RECORD_SIZE
    ensures AllTyped(rs + [r]) && EncodeAll(rs + [r]) == EncodeAll(rs) + Encode(r)
    ensures written < RECORD_SIZE ==> Parse(EncodeAll(rs) + Encode(r)[..written]) == rs
  {
    hide Encode, ParseFrom;
    var all := rs + [r];
    assert all[..|rs|] == rs;
    var cut := RECORD_SIZE * |rs| + written;
    CrashLeavesPrefix(all, cut);
    assert EncodeAll(all)[..cut] == EncodeAll(rs) + Encode(r)[..written];
    assert written < RECORD_SIZE ==> cut / RECORD_SIZE == |rs|;
  }

  /** The file position is at the end throughout. */
  class Log {
    var bytes: seq<Byte>
    var nextLsn: nat
    var nextTxn: nat
    ghost var records: seq<Record>
    ghost var synced: nat

    /** The file holds whole records only, of which the first `synced` are on stable storage. */
    ghost predicate Valid()
      reads this
    {
      AllTyped(records) && bytes == EncodeAll(records) && synced <= |records| && nextLsn < U64_LIMIT && nextTxn < U32_LIMIT
    }

    /** wal_open. */
    constructor Open(bytes: seq<Byte>)
      ensures this.bytes == bytes && records == Parse(bytes) && synced == |records|
      ensures nextLsn == NextLsn(Parse(bytes)) && nextTxn == NextTxn(Parse(bytes))
      ensures bytes == EncodeAll(Parse(bytes)) ==> Valid()
    {
      var lsn, txn := ScanLog(bytes);
      this.bytes := bytes;
      records := Parse(bytes);
      synced := |Parse(bytes)|;
      nextLsn, nextTxn := lsn, txn;
    }

    /** write_record.  `written` is what the write call returns: how many bytes of the record got into
        the file. */
    method WriteRecord(r: Record, written: nat) returns (ok: bool)
      requires Valid() && Typed(r) && written <= RECORD_SIZE
      modifies `bytes, `records
      ensures ok <==> written == RECORD_SIZE
      ensures if ok then Valid() && records == old(records) + [r]
              else records == old(records) && Parse(bytes) == records && bytes == old(bytes) + Encode(r)[..written]
    {
      var body := Body(r);
      var sum := Checksum.Compute(body);
      hide Checksum.Sum, Bytes4, Body;
      var whole := body + Bytes4(sum as nat);
      Appended(records, r, written);
      bytes := bytes + whole[..written];
      ok := written == RECORD_SIZE;
      if ok {
        records := records + [r];
      }
    }

    /** wal_begin.  The counters move on even if the write fails. */
    method Begin(written: nat) returns (ok: bool, txn: nat)
      requires Valid() && written <= RECORD_SIZE
      modifies `bytes, `records, `nextLsn, `nextTxn
      ensures txn == old(nextTxn) && (ok <==> written == RECORD_SIZE)
      ensures if ok then Valid() && records == old(records) + [Mark(old(nextLsn), txn, BEGIN)]
              else records == old(records) && Parse(bytes) == records
      ensures nextLsn == (old(nextLsn) + 1) % U64_LIMIT && nextTxn == (old(nextTxn) + 1) % U32_LIMIT
    {
      txn := nextTxn;
      ok := WriteRecord(Mark(nextLsn, txn, BEGIN), written);
      hide Parse, EncodeAll, Mark;
      nextLsn := (nextLsn + 1) % U64_LIMIT;
      nextTxn := (nextTxn + 1) % U32_LIMIT;
    }

    /** wal_write up to its fsync. */
    method Append(txn: nat, kind: Byte, table: seq<Byte>, data: seq<Byte>, page: nat, written: nat) returns (ok: bool)
      requires Valid() && txn < U32_LIMIT && page < U32_LIMIT && |data| < U16_LIMIT && written <= RECORD_SIZE
      modifies `bytes, `records, `nextLsn
      ensures ok <==> written == RECORD_SIZE
      ensures if ok then Valid() && records == old(records) + [Entry(old(nextLsn), txn, kind, table, data, page)]
              else records == old(records) && Parse(bytes) == records
      ensures nextLsn == (old(nextLsn) + 1) % U64_LIMIT
    {
      ok := WriteRecord(Entry(nextLsn, txn, kind, table, data, page), written);
      hide Parse, EncodeAll, Entry;
      nextLsn := (nextLsn + 1) % U64_LIMIT;
    }

    /** wal_commit up to its fsync. */
    method AppendCommit(txn: nat, written: nat) returns (ok: bool)
      requires Valid() && txn < U32_LIMIT && written <= RECORD_SIZE
      modifies `bytes, `records, `nextLsn
      ensures ok <==> written == RECORD_SIZE
      ensures if ok then Valid() && records == old(records) + [Mark(old(nextLsn), txn, COMMIT)]
              else records == old(records) && Parse(bytes) == records
      ensures nextLsn == (old(nextLsn) + 1) % U64_LIMIT
    {
      ok := WriteRecord(Mark(nextLsn, txn, COMMIT), written);
      hide Parse, EncodeAll, Mark;
      nextLsn := (nextLsn + 1) % U64_LIMIT;
    }

    /** fsync. */
    method Sync()
      requires Valid()
      modifies `synced
      ensures Valid() && synced == |records|
    {
      synced := |records|;
    }
  }

  /** read_record. */
  method ReadRecord(log: seq<Byte>, at: nat) returns (r: Option<Record>)
    requires at <= |log|
    ensures r == if |ParseFrom(log, at)| > 0 then Some(ParseFrom(log, at)[0]) else None
    ensures r.Some? ==> at + RECORD_SIZE <= |log| && ParseFrom(log, at) == [r.value] + ParseFrom(log, at + RECORD_SIZE)
  {
    if |log| - at < RECORD_SIZE {
      return None;
    }
    var s := log[at..at + RECORD_SIZE];
    var sum := Checksum.Compute(s[..SUM_AT]);
    hide Checksum.Sum;
    if sum as nat != GetU32(s, SUM_AT) {
      return None;
    }
    return Some(Decode(s));
  }
}
