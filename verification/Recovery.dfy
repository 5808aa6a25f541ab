/** wal_recover: replaying the committed inserts of the log into the table files. */
module Recovery {
  import opened Bytes
  import opened Wal
  import opened WalProtocol
  import opened Heap
  import opened TablePages
  import opened Page
  import opened BTree
  import Disk
  import TableLayer

  const MAX_RECORDS: nat := 1024
  const MAX_COMMITS: nat := 256

  type Name = seq<Byte>
  type Files = map<Name, Disk.TableFile>
  type Database = map<Name, Heap>

  // ---------------------------------------------------------------- what a replay does to the rows

  function TableOf(r: Record): Name {
    NameFrom(r.table, 0)
  }

  /** A logged record is for the table that was named, if the name has at most 63 characters; otherwise
      for the table of its first 63. */
  lemma TableNamed(lsn: nat, txn: nat, kind: Byte, table: seq<Byte>, data: seq<Byte>, page: nat)
    requires lsn < U64_LIMIT && txn < U32_LIMIT && page < U32_LIMIT && |data| < U16_LIMIT && Named(table)
    ensures TableOf(Wal.Entry(lsn, txn, kind, table, data, page)) == if |table| < TABLE_SIZE then table else table[..TABLE_SIZE - 1]
  {
    NameKept(table);
    hide NameFrom, TableField;
  }

  /** What redo_insert does; a record for a table that does not exist is passed over. */
  function RedoOne(db: Database, r: Record): Database
    requires Typed(r) && r.size <= DATA_SIZE
  {
    if TableOf(r) in db then db[TableOf(r) := InsertRow(db[TableOf(r)], Payload(r))] else db
  }

  /** The payloads fit the data field. */
  ghost predicate Short(rs: seq<Record>) {
    forall i :: 0 <= i < |rs| ==> Typed(rs[i]) && rs[i].size <= DATA_SIZE
  }

  function RedoAll(db: Database, rs: seq<Record>): (d: Database)
    requires Short(rs)
    ensures d.Keys == db.Keys
  {
    if |rs| == 0 then db else RedoOne(RedoAll(db, rs[..|rs| - 1]), rs[|rs| - 1])
  }

  /** The rows that a replay adds to one table, in log order. */
  function RowsFor(rs: seq<Record>, name: Name): seq<Row>
    requires Short(rs)
  {
    if |rs| == 0 then []
    else RowsFor(rs[..|rs| - 1], name) + if TableOf(rs[|rs| - 1]) == name then [Payload(rs[|rs| - 1])] else []
  }

  function InsertRows(h: Heap, rows: seq<Row>): Heap {
    if |rows| == 0 then h else InsertRow(InsertRows(h, rows[..|rows| - 1]), rows[|rows| - 1])
  }

  /** Where the `k`-th inserted row ends up. */
  function PlaceOf(h: Heap, rows: seq<Row>, k: nat): Loc
    requires k < |rows|
  {
    Place(InsertRows(h, rows[..k]), rows[k])
  }

  /** Each table gets exactly the rows of its own records, in log order. */
  lemma {:induction false} RedoPerTable(db: Database, rs: seq<Record>, name: Name)
    requires Short(rs) && name in db
    ensures RedoAll(db, rs)[name] == InsertRows(db[name], RowsFor(rs, name))
  {
    if |rs| > 0 {
      var before := rs[..|rs| - 1];
      RedoPerTable(db, before, name);
      var rows, row := RowsFor(before, name), Payload(rs[|rs| - 1]);
      if TableOf(rs[|rs| - 1]) == name {
        assert (rows + [row])[..|rows|] == rows;
      } else {
        assert rows + [] == rows;
      }
    }
  }

  lemma InsertAddsOne(h: Heap, row: Row, l: Loc)
    ensures var h' := InsertRow(h, row);
            && (LiveAt(h', l) <==> LiveAt(h, l) || l == Place(h, row))
            && !LiveAt(h, Place(h, row)) && RowAt(h', Place(h, row)) == row
            && (LiveAt(h, l) ==> RowAt(h', l) == RowAt(h, l))
  {
    AppendAdds(h, FirstFit(h, |row|, 0), row, l);
  }

  lemma NextInsert(h: Heap, rows: seq<Row>, n: nat)
    requires n < |rows|
    ensures InsertRows(h, rows[..n + 1]) == InsertRow(InsertRows(h, rows[..n]), rows[n])
  {
    assert rows[..n + 1][..n] == rows[..n];
  }

  /** A row that is live at some point of the replay stays live, where it is. */
  lemma {:induction false} RowStays(h: Heap, rows: seq<Row>, n: nat, m: nat, l: Loc)
    requires n <= m <= |rows| && LiveAt(InsertRows(h, rows[..n]), l)
    ensures LiveAt(InsertRows(h, rows[..m]), l) && RowAt(InsertRows(h, rows[..m]), l) == RowAt(InsertRows(h, rows[..n]), l)
    decreases m
  {
    if n < m {
      RowStays(h, rows, n, m - 1, l);
      NextInsert(h, rows, m - 1);
      InsertAddsOne(InsertRows(h, rows[..m - 1]), rows[m - 1], l);
    }
  }

  /** Recovery's effect on one table: every row that was live stays where it was. */
  lemma ReplayKeepsRows(h: Heap, rows: seq<Row>, l: Loc)
    requires LiveAt(h, l)
    ensures LiveAt(InsertRows(h, rows), l) && RowAt(InsertRows(h, rows), l) == RowAt(h, l)
  {
    assert rows[..0] == [] && rows[..|rows|] == rows;
    RowStays(h, rows, 0, |rows|, l);
  }

  /** Each replayed row becomes one new live row with the same bytes, at a place of its own. */
  lemma ReplayAddsRow(h: Heap, rows: seq<Row>, k: nat)
    requires k < |rows|
    ensures var l := PlaceOf(h, rows, k);
            && !LiveAt(h, l) && LiveAt(InsertRows(h, rows), l) && RowAt(InsertRows(h, rows), l) == rows[k]
            && forall j :: 0 <= j < k ==> PlaceOf(h, rows, j) != l
  {
    var l := PlaceOf(h, rows, k);
    assert rows[..|rows|] == rows;
    NextInsert(h, rows, k);
    InsertAddsOne(InsertRows(h, rows[..k]), rows[k], l);
    RowStays(h, rows, k + 1, |rows|, l);
    if LiveAt(h, l) {
      assert rows[..0] == [];
      RowStays(h, rows, 0, k, l);
    }
    forall j | 0 <= j < k ensures PlaceOf(h, rows, j) != l {
      NextInsert(h, rows, j);
      InsertAddsOne(InsertRows(h, rows[..j]), rows[j], PlaceOf(h, rows, j));
      RowStays(h, rows, j + 1, k, PlaceOf(h, rows, j));
    }
  }

  /** And no other row appears. */
  lemma {:induction false} ReplayAddsNothingElse(h: Heap, rows: seq<Row>, n: nat, l: Loc)
    requires n <= |rows| && LiveAt(InsertRows(h, rows[..n]), l)
    ensures LiveAt(h, l) || exists k :: 0 <= k < n && l == PlaceOf(h, rows, k)
  {
    if n == 0 {
      assert rows[..0] == [];
    } else {
      NextInsert(h, rows, n - 1);
      InsertAddsOne(InsertRows(h, rows[..n - 1]), rows[n - 1], l);
      if l != PlaceOf(h, rows, n - 1) {
        ReplayAddsNothingElse(h, rows, n - 1, l);
      }
    }
  }

  // ---------------------------------------------------------------- the files

  /** Every table has a file of its own, in order, with room for `more` pages. */
  ghost predicate FilesOk(files: Files, more: nat)
    reads set n | n in files :: files[n]
  {
    && (forall n :: n in files ==>
          files[n].Valid() && files[n].healthy && RowFile(files[n].pages) && |files[n].pages| + more < U32_LIMIT)
    && (forall n, m :: n in files && m in files && n != m ==> files[n] != files[m])
  }

  ghost function DatabaseOf(files: Files): (d: Database)
    requires forall n :: n in files ==> RowFile(files[n].pages)
    reads set n | n in files :: files[n]
    ensures d.Keys == files.Keys
  {
    map n | n in files :: FileRows(files[n].pages)
  }

  lemma SmallRowFits(row: Row)
    requires |row| <= DATA_SIZE
    ensures Fits([], |row|)
  {
  }

  lemma GrowsByOne(h: Heap, row: Row)
    ensures |InsertRow(h, row)| <= |h| + 1
  {
  }

  /** redo_insert on a table that exists: open, insert, flush, close. */
  method RedoInTable(file: Disk.TableFile, keyOf: Row -> int, row: Row)
    requires file.Valid() && file.healthy && RowFile(file.pages) && |file.pages| + 1 < U32_LIMIT && |row| <= DATA_SIZE
    modifies file
    ensures file.Valid() && RowFile(file.pages) && FileRows(file.pages) == InsertRow(FileRows(old(file.pages)), row)
    ensures |file.pages| <= |old(file.pages)| + 1
  {
    hide *;
    ghost var h := FileRows(file.pages);
    FileRowsSize(file.pages);
    SmallRowFits(row);
    GrowsByOne(h, row);
    var t := TableLayer.OpenTable(file, keyOf);
    t.ValidFacts();
    ghost var own := t.Repr();
    t.InsertRaw(row);
    assert forall o :: o in t.Repr() && o !in own ==> !old(allocated(o));
    ghost var own' := t.Repr();
    t.Flush();
    assert forall o :: o in t.Repr() && o !in own' ==> !old(allocated(o));
    t.Close();
    FileRowsSize(file.pages);
  }

  /** redo_insert. */
  method RedoInsert(files: Files, keyOf: Row -> int, r: Record, ghost more: nat)
    requires Typed(r) && r.size <= DATA_SIZE && FilesOk(files, more + 1)
    modifies set n | n in files :: files[n]
    ensures FilesOk(files, more) && DatabaseOf(files) == RedoOne(old(DatabaseOf(files)), r)
  {
    var name := TableOf(r);
    if name in files {
      ghost var db := DatabaseOf(files);
      RedoInTable(files[name], keyOf, Payload(r));
      assert DatabaseOf(files) == db[name := FileRows(files[name].pages)];
    }
  }

  // ---------------------------------------------------------------- the log

  /** The records that wal_recover looks at. */
  function Considered(rs: seq<Record>): seq<Record> {
    if |rs| <= MAX_RECORDS then rs else rs[..MAX_RECORDS]
  }

  function CommitsOf(rs: seq<Record>): seq<nat> {
    if |rs| == 0 then []
    else CommitsOf(rs[..|rs| - 1]) + if rs[|rs| - 1].kind == COMMIT then [rs[|rs| - 1].txn] else []
  }

  lemma {:induction false} CommitsAre(rs: seq<Record>, t: nat)
    ensures t in CommitsOf(rs) <==> CommittedIn(rs, t)
  {
    if |rs| > 0 {
      var before := rs[..|rs| - 1];
      CommitsAre(before, t);
      assert rs == before + [rs[|rs| - 1]];
      CommittedAppend(before, rs[|rs| - 1], t);
    }
  }

  lemma {:induction false} CommitsGrow(rs: seq<Record>, n: nat)
    requires n <= |rs|
    ensures |CommitsOf(rs[..n])| <= |CommitsOf(rs)|
    decreases |rs|
  {
    if n < |rs| {
      CommitsGrow(rs[..|rs| - 1], n);
      assert rs[..|rs| - 1][..n] == rs[..n];
    } else {
      assert rs[..n] == rs;
    }
  }

  /** A record that is neither BEGIN nor COMMIT. */
  predicate Counts(r: Record) {
    r.kind != BEGIN && r.kind != COMMIT
  }

  function CountData(rs: seq<Record>): nat {
    if |rs| == 0 then 0 else CountData(rs[..|rs| - 1]) + if Counts(rs[|rs| - 1]) then 1 else 0
  }

  ghost function CountRedone(rs: seq<Record>, log: seq<Record>): nat {
    if |rs| == 0 then 0
    else CountRedone(rs[..|rs| - 1], log) + if Counts(rs[|rs| - 1]) && CommittedIn(log, rs[|rs| - 1].txn) then 1 else 0
  }

  function Places(n: nat, p: nat -> bool): set<nat> {
    set i | 0 <= i < n && p(i)
  }

  lemma PlacesMore(n: nat, p: nat -> bool)
    ensures |Places(n + 1, p)| == |Places(n, p)| + if p(n) then 1 else 0
    ensures Places(0, p) == {}
  {
    assert Places(n + 1, p) == Places(n, p) + if p(n) then {n} else {};
  }

  lemma {:induction false} CountsUpTo(rs: seq<Record>, log: seq<Record>, n: nat, data: nat -> bool, redone: nat -> bool)
    requires n <= |rs|
    requires forall i :: 0 <= i < |rs| ==> (data(i) <==> rs[i].kind != BEGIN && rs[i].kind != COMMIT)
    requires forall i :: 0 <= i < |rs| ==> (redone(i) <==> data(i) && CommittedIn(log, rs[i].txn))
    ensures CountData(rs[..n]) == |Places(n, data)| && CountRedone(rs[..n], log) == |Places(n, redone)|
  {
    hide CommittedIn, Places;
    if n == 0 {
      PlacesMore(0, data);
      PlacesMore(0, redone);
    } else {
      CountsUpTo(rs, log, n - 1, data, redone);
      PlacesMore(n - 1, data);
      PlacesMore(n - 1, redone);
      CountStep(rs, log, n - 1);
    }
  }

  /** The data records are all but BEGIN and COMMIT, and the redone ones those of committed transactions. */
  lemma CountsAre(rs: seq<Record>, log: seq<Record>, data: nat -> bool, redone: nat -> bool)
    requires forall i :: 0 <= i < |rs| ==> (data(i) <==> rs[i].kind != BEGIN && rs[i].kind != COMMIT)
    requires forall i :: 0 <= i < |rs| ==> (redone(i) <==> data(i) && CommittedIn(log, rs[i].txn))
    ensures CountData(rs) == |Places(|rs|, data)| && CountRedone(rs, log) == |Places(|rs|, redone)|
  {
    CountsUpTo(rs, log, |rs|, data, redone);
    assert rs[..|rs|] == rs;
  }

  method Keep(records: array<Record>, count: nat, r: Record)
    requires count < records.Length
    modifies records
    ensures records[..count + 1] == old(records[..count]) + [r]
  {
    records[count] := r;
  }

  lemma ConsideredMore(read: seq<Record>, r: Record)
    ensures Considered(read + [r]) == if |read| < MAX_RECORDS then Considered(read) + [r] else Considered(read)
    ensures |Considered(read)| == if |read| < MAX_RECORDS then |read| else MAX_RECORDS
  {
  }

  lemma ParseStart(bytes: seq<Byte>)
    ensures [] + ParseFrom(bytes, 0) == Parse(bytes) && Considered([]) == []
  {
  }

  lemma Shift(read: seq<Record>, r: Record, rest: seq<Record>)
    ensures read + ([r] + rest) == (read + [r]) + rest && read + [] == read
  {
  }

  /** The first loop of wal_recover: every record is read, the first 1024 are kept. */
  method ReadAll(bytes: seq<Byte>) returns (rs: seq<Record>)
    ensures rs == Considered(Parse(bytes))
  {
    hide *;
    var records: array<Record> := new Record[MAX_RECORDS](_ => Record(0, 0, 0, 0, [], 0, []));
    var count := 0;
    ghost var read: seq<Record> := [];
    var at := 0;
    ParseStart(bytes);
    var r := ReadRecord(bytes, at);
    while r.Some?
      invariant at <= |bytes| && read + ParseFrom(bytes, at) == Parse(bytes)
      invariant r.Some? ==> at + RECORD_SIZE <= |bytes| && ParseFrom(bytes, at) == [r.value] + ParseFrom(bytes, at + RECORD_SIZE)
      invariant r.None? ==> ParseFrom(bytes, at) == []
      invariant count == |Considered(read)| <= MAX_RECORDS && records[..count] == Considered(read)
      decreases |bytes| - at
    {
      ConsideredMore(read, r.value);
      Shift(read, r.value, ParseFrom(bytes, at + RECORD_SIZE));
      if count < MAX_RECORDS {
        Keep(records, count, r.value);
        count := count + 1;
      }
      read := read + [r.value];
      at := at + RECORD_SIZE;
      r := ReadRecord(bytes, at);
    }
    assert read + [] == read;
    rs := records[..count];
  }

  /** The second loop of wal_recover.  Its array has room for 256 commits and the loop does not check
      that; `None` stands for the store behind the end, after which the code promises nothing. */
  method CollectCommits(rs: seq<Record>) returns (committed: Option<seq<nat>>)
    ensures committed == if |CommitsOf(rs)| <= MAX_COMMITS then Some(CommitsOf(rs)) else None
  {
    var txns := new nat[MAX_COMMITS];
    var count := 0;
    var i := 0;
    while i < |rs|
      invariant i <= |rs| && count == |CommitsOf(rs[..i])| <= MAX_COMMITS && txns[..count] == CommitsOf(rs[..i])
    {
      assert rs[..i + 1][..i] == rs[..i];
      CommitsGrow(rs, i + 1);
      if rs[i].kind == COMMIT {
        if count == MAX_COMMITS {
          return None;
        }
        txns[count] := rs[i].txn;
        count := count + 1;
      }
      i := i + 1;
    }
    assert rs[..i] == rs;
    committed := Some(txns[..count]);
  }

  /** The search loop over the committed transactions. */
  method IsCommitted(committed: seq<nat>, txn: nat) returns (found: bool)
    ensures found <==> txn in committed
  {
    found := false;
    var j := 0;
    while j < |committed| && !found
      invariant j <= |committed| && (found <==> txn in committed[..j])
    {
      found := committed[j] == txn;
      j := j + 1;
    }
  }

  lemma CountStep(rs: seq<Record>, log: seq<Record>, i: nat)
    requires i < |rs|
    ensures Replayed(rs[..i + 1], log) == (if rs[i].kind == INSERT && CommittedIn(log, rs[i].txn)
                                           then Replayed(rs[..i], log) + [rs[i]] else Replayed(rs[..i], log))
    ensures CountData(rs[..i + 1]) == CountData(rs[..i]) + if Counts(rs[i]) then 1 else 0
    ensures CountRedone(rs[..i + 1], log) == CountRedone(rs[..i], log) + if Counts(rs[i]) && CommittedIn(log, rs[i].txn) then 1 else 0
    ensures Counts(rs[i]) <==> rs[i].kind != BEGIN && rs[i].kind != COMMIT
    ensures rs[i].kind == INSERT ==> Counts(rs[i])
  {
    hide CommittedIn;
    assert rs[..i + 1][..i] == rs[..i];
  }

  lemma ShortPrefix(a: seq<Record>, b: seq<Record>)
    requires a <= b && Short(b)
    ensures Short(a)
  {
    assert forall i :: 0 <= i < |a| ==> a[i] == b[i];
  }

  lemma RedoAppend(db: Database, rs: seq<Record>, r: Record)
    requires Short(rs + [r])
    ensures Typed(r) && r.size <= DATA_SIZE && Short(rs) && RedoAll(db, rs + [r]) == RedoOne(RedoAll(db, rs), r)
  {
    ShortPrefix(rs, rs + [r]);
    assert (rs + [r])[|rs|] == r && (rs + [r])[..|rs|] == rs;
  }

  /** The body of the redo loop for a data record. */
  method RedoRecord(committed: seq<nat>, files: Files, keyOf: Row -> int, r: Record, ghost more: nat) returns (again: bool)
    requires FilesOk(files, more + 1) && (r.kind == INSERT && r.txn in committed ==> Typed(r) && r.size <= DATA_SIZE)
    modifies set n | n in files :: files[n]
    ensures FilesOk(files, more) && (again <==> r.txn in committed)
    ensures DatabaseOf(files) == if r.kind == INSERT && again then RedoOne(old(DatabaseOf(files)), r) else old(DatabaseOf(files))
  {
    hide *;
    again := IsCommitted(committed, r.txn);
    FilesFacts(files, more + 1);
    if again && r.kind == INSERT {
      RedoInsert(files, keyOf, r, more);
      FilesFacts(files, more);
    } else {
      LessRoom(files, more + 1);
    }
  }

  /** The redo loop of wal_recover. */
  method RedoLoop(rs: seq<Record>, committed: seq<nat>, files: Files, keyOf: Row -> int) returns (redone: nat, skipped: nat)
    requires committed == CommitsOf(rs) && Short(Replayed(rs, rs)) && FilesOk(files, |rs|)
    modifies set n | n in files :: files[n]
    ensures FilesOk(files, 0) && DatabaseOf(files) == RedoAll(old(DatabaseOf(files)), Replayed(rs, rs))
    ensures redone == CountRedone(rs, rs) && redone + skipped == CountData(rs)
  {
    hide *;
    FilesFacts(files, |rs|);
    ghost var db := DatabaseOf(files);
    LoopStart(db, rs);
    redone, skipped := 0, 0;
    var i := 0;
    while i < |rs|
      invariant i <= |rs| && FilesOk(files, |rs| - i) && (FilesFacts(files, |rs| - i); Short(Replayed(rs[..i], rs)))
      invariant DatabaseOf(files) == RedoAll(db, Replayed(rs[..i], rs))
      invariant redone == CountRedone(rs[..i], rs) && redone + skipped == CountData(rs[..i])
    {
      CountStep(rs, rs, i);
      ReplayedGrows(rs, rs, i + 1);
      ShortPrefix(Replayed(rs[..i + 1], rs), Replayed(rs, rs));
      CommitsAre(rs, rs[i].txn);
      LessRoom(files, |rs| - i);
      if rs[i].kind != BEGIN && rs[i].kind != COMMIT {
        if rs[i].kind == INSERT && CommittedIn(rs, rs[i].txn) {
          RedoAppend(db, Replayed(rs[..i], rs), rs[i]);
        }
        var again := RedoRecord(committed, files, keyOf, rs[i], |rs| - i - 1);
        if again {
          redone := redone + 1;
        } else {
          skipped := skipped + 1;
        }
      }
      i := i + 1;
    }
    assert rs[..i] == rs;
  }

  lemma FilesFacts(files: Files, more: nat)
    requires FilesOk(files, more)
    ensures forall n :: n in files ==> RowFile(files[n].pages)
  {
  }

  lemma LessRoom(files: Files, more: nat)
    requires FilesOk(files, more) && more > 0
    ensures FilesOk(files, more - 1)
  {
  }

  lemma LoopStart(db: Database, rs: seq<Record>)
    ensures Replayed(rs[..0], rs) == [] && Short([]) && RedoAll(db, []) == db && CountRedone(rs[..0], rs) == CountData(rs[..0]) == 0
  {
  }

  lemma {:induction false} ReplayedGrows(rs: seq<Record>, log: seq<Record>, n: nat)
    requires n <= |rs|
    ensures Replayed(rs[..n], log) <= Replayed(rs, log)
    decreases |rs|
  {
    if n < |rs| {
      ReplayedGrows(rs[..|rs| - 1], log, n);
      assert rs[..|rs| - 1][..n] == rs[..n];
    } else {
      assert rs[..n] == rs;
    }
  }

  /** How wal_recover ends: with its two counts, or outside its commit array. */
  datatype Report = Report(redone: nat, skipped: nat) | OutOfBounds

  /** wal_recover.  If the first 1024 records hold at most 256 commits, the committed inserts among them
      are replayed in log order, every data record is counted once, and the log ends up empty unless it
      held no record to begin with.  If they hold more, the code leaves its array before it has touched
      a table. */
  method Recover(log: Log, files: Files, keyOf: Row -> int) returns (r: Report)
    requires log.records == Parse(log.bytes)
    requires Short(Replayed(Considered(Parse(log.bytes)), Considered(Parse(log.bytes))))
    requires FilesOk(files, |Considered(Parse(log.bytes))|)
    modifies log, set n | n in files :: files[n]
    ensures FilesOk(files, 0)
    ensures r.OutOfBounds? <==> |CommitsOf(Considered(old(Parse(log.bytes))))| > MAX_COMMITS
    ensures r.OutOfBounds? ==> DatabaseOf(files) == old(DatabaseOf(files))
    ensures r.Report? ==>
              var seen := Considered(old(Parse(log.bytes)));
              && DatabaseOf(files) == RedoAll(old(DatabaseOf(files)), Replayed(seen, seen))
              && r.redone == CountRedone(seen, seen) && r.redone + r.skipped == CountData(seen)
              && if old(log.records) == [] then log.bytes == old(log.bytes) && log.records == []
                 else log.bytes == [] && log.records == [] && log.nextLsn == 1 && log.nextTxn == 1 && log.Valid()
  {
    hide *;
    FilesFacts(files, |Considered(Parse(log.bytes))|);
    var rs := ReadAll(log.bytes);
    ConsideredEmpty(Parse(log.bytes));
    LoopStart(DatabaseOf(files), rs);
    if |rs| == 0 {
      assert rs[..0] == rs == [];
      NoCommits();
      return Report(0, 0);
    }
    var committed := CollectCommits(rs);
    if committed.None? {
      AllRoom(files, |rs|);
      return OutOfBounds;
    }
    var redone, skipped := RedoLoop(rs, committed.value, files, keyOf);
    r := Report(redone, skipped);
    Truncate(log);
    FilesFacts(files, 0);
  }

  /** The end of wal_recover: an empty file and fresh counters. */
  method Truncate(log: Log)
    modifies log
    ensures log.bytes == [] && log.records == [] && log.nextLsn == 1 && log.nextTxn == 1 && log.Valid()
  {
    log.bytes, log.nextLsn, log.nextTxn := [], 1, 1;
    log.records, log.synced := [], 0;
  }

  lemma NoCommits()
    ensures |CommitsOf([])| <= MAX_COMMITS
  {
  }

  lemma AllRoom(files: Files, more: nat)
    requires FilesOk(files, more)
    ensures FilesOk(files, 0)
  {
  }

  lemma ConsideredEmpty(rs: seq<Record>)
    ensures Considered(rs) == [] <==> rs == []
  {
  }

}
