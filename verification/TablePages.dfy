/** The pages of a table as rows: what the table layer does to one page through the buffer pool. */
module TablePages {
  import opened Bytes
  import opened Page
  import opened Disk
  import opened PoolState
  import opened Buffer
  import opened Heap
  import opened BTree

  // ---------------------------------------------------------------- from bytes to rows

  /** A page image and what it says agree on its cells. */
  lemma SameCells(s: seq<Byte>)
    requires Sized(s)
    ensures Layout(s) <==> Layout(Norm(s))
    ensures Layout(s) ==> Cells(Norm(s)) == Cells(s)
  {
    assert Norm(Norm(s)) == Norm(s);
    if Layout(s) {
      NormDetermines(s, Norm(s));
    }
    if Layout(Norm(s)) {
      NormDetermines(Norm(s), s);
    }
  }

  /** All pages can be read and hold rows. */
  ghost predicate AllPages(p: Pool) {
    Inv(p) && forall id :: 0 <= id < p.size ==> Readable(p, id) && Layout(Contents(p)[id])
  }

  ghost function HeapOf(p: Pool): (h: Heap)
    requires AllPages(p)
    ensures |h| == p.size
    ensures forall id :: 0 <= id < p.size ==> h[id] == Cells(Contents(p)[id])
  {
    seq(p.size, id requires 0 <= id < p.size => Cells(Contents(p)[id]))
  }

  lemma CarriedHeap(p: Pool, q: Pool)
    requires AllPages(p) && Carried(p, q)
    ensures AllPages(q) && q.size == p.size && HeapOf(q) == HeapOf(p)
  {
    hide Cells, Layout;
    CarriedFacts(p, q);
    assert HeapOf(q) == HeapOf(p);
  }

  /** A table file: intact pages that hold rows. */
  ghost predicate RowFile(disk: seq<seq<Byte>>) {
    FileOk(disk) && forall id :: 0 <= id < |disk| ==> Layout(disk[id])
  }

  /** The rows of a table file. */
  ghost function FileRows(disk: seq<seq<Byte>>): (h: Heap)
    requires RowFile(disk)
  {
    seq(|disk|, id requires 0 <= id < |disk| => Cells(disk[id]))
  }

  /** Opening a file shows its rows. */
  lemma OpenedRows(disk: seq<seq<Byte>>)
    requires RowFile(disk)
    ensures AllPages(Opened(disk)) && HeapOf(Opened(disk)) == FileRows(disk)
  {
    OpenFacts(disk);
    forall id | 0 <= id < |disk| ensures Layout(Norm(disk[id])) && Cells(Norm(disk[id])) == Cells(disk[id]) {
      SameCells(disk[id]);
    }
    hide Cells, Layout;
  }

  /** Closing leaves a file with the rows that were held. */
  lemma ClosedRows(p: Pool, disk: seq<seq<Byte>>)
    requires AllPages(p) && FileOk(disk) && Contents(Opened(disk)) == Contents(p)
    ensures RowFile(disk) && FileRows(disk) == HeapOf(p)
  {
    OpenFacts(disk);
    assert |Contents(Opened(disk))| == |disk|;
    forall id | 0 <= id < |disk| ensures Layout(disk[id]) && Cells(disk[id]) == HeapOf(p)[id] {
      SameCells(disk[id]);
      assert Contents(p)[id] == Norm(disk[id]);
    }
    hide Cells, Layout;
  }

  /** A frame that holds a page shows the rows of that page. */
  lemma FrameShows(p: Pool, i: nat)
    requires AllPages(p) && i < FRAMES && p.views[i].Held?
    ensures p.views[i].id < p.size && Sized(p.views[i].bytes) && Layout(p.views[i].bytes)
    ensures HeapOf(p)[p.views[i].id] == Cells(p.views[i].bytes)
  {
    SameImage(p, i);
    SameCells(p.views[i].bytes);
    hide Cells, Layout;
    assert Contents(p)[p.views[i].id] == Norm(Image(p, p.views[i].id));
  }

  /** What replacing the page `id` by one that holds the cells `cs` does to the heap. */
  lemma EditedHeap(p: Pool, q: Pool, id: nat, bytes: seq<Byte>)
    requires AllPages(p) && id < p.size && Sized(bytes) && Layout(bytes)
    requires Inv(q) && Contents(q) == Contents(p)[id := Norm(bytes)] && forall a: nat :: Readable(p, a) ==> Readable(q, a)
    ensures AllPages(q) && q.size == p.size && HeapOf(q) == HeapOf(p)[id := Cells(bytes)]
  {
    SameCells(bytes);
    hide Cells, Layout;
    assert |Contents(q)| == |Contents(p)|;
    assert HeapOf(q) == HeapOf(p)[id := Cells(bytes)];
  }

  lemma GrownHeap(p: Pool, q: Pool, bytes: seq<Byte>)
    requires AllPages(p) && Sized(bytes) && Layout(bytes)
    requires Inv(q) && Contents(q) == With(Contents(p), p.size, Norm(bytes))
    requires forall a: nat :: Readable(p, a) || a == p.size ==> Readable(q, a)
    ensures AllPages(q) && q.size == p.size + 1 && HeapOf(q) == HeapOf(p) + [Cells(bytes)]
  {
    SameCells(bytes);
    hide Cells, Layout;
    assert |Contents(q)| == |Contents(p)| + 1;
    assert HeapOf(q) == HeapOf(p) + [Cells(bytes)];
  }

  // ---------------------------------------------------------------- one pinned page

  /** The device is in order, and the pages of the table can be read and hold the rows `h`. */
  ghost predicate HoldsRows(pool: BufferPool, h: Heap)
    reads pool.Repr()
  {
    pool.Valid() && pool.file.healthy && AllPages(pool.state) && HeapOf(pool.state) == h
  }

  ghost predicate Look(b: bool) { b }

  /** The same, folded away behind a quantifier: callers that never mention `Look` reason about the
      rows alone. */
  ghost predicate Shows(pool: BufferPool, h: Heap)
    reads pool.Repr()
  {
    forall b :: Look(b) ==> HoldsRows(pool, h)
  }

  lemma Unfold(pool: BufferPool, h: Heap)
    requires Shows(pool, h)
    ensures HoldsRows(pool, h)
  {
    assert Look(true);
  }

  /** Moreover, frame `i` holds page `id`. */
  ghost predicate Pinned(pool: BufferPool, h: Heap, i: nat, id: nat)
    reads pool.Repr()
  {
    Shows(pool, h) && i < FRAMES <= |pool.state.views| && Holds(pool.state.views[i], id) && id < |h|
  }

  /** buf_pin of a page of the table. */
  method PinPage(pool: BufferPool, ghost h: Heap, id: nat) returns (i: nat)
    requires Shows(pool, h) && id < |h|
    modifies pool.Repr()
    ensures Pinned(pool, h, i, id) && fresh(pool.Repr() - old(pool.Repr()))
  {
    Unfold(pool, h);
    ghost var p := pool.state;
    hide Readable;
    var ok;
    ok, i := pool.Pin(id);
    CarriedHeap(p, pool.state);
  }

  /** A change to a pinned page, seen from the heap. */
  lemma ChangedHeap(p: Pool, q: Pool, i: nat, id: nat, bytes: seq<Byte>, cs: seq<Cell>)
    requires AllPages(p) && i < FRAMES && Holds(p.views[i], id) && Changed(p, q, i, bytes, cs)
    ensures AllPages(q) && id < q.size == p.size && Holds(q.views[i], id) && HeapOf(q) == HeapOf(p)[id := cs]
  {
    EditKeeps(p, i, bytes);
    hide Contents, Readable, Cells, Layout;
    EditedHeap(p, q, id, bytes);
  }

  /** page_insert into the pinned page. */
  method InsertInto(pool: BufferPool, ghost h: Heap, i: nat, ghost id: nat, row: Row) returns (r: InsertResult)
    requires Pinned(pool, h, i, id) && |row| <= PAGE_SIZE
    modifies pool.Repr()
    ensures pool.Repr() == old(pool.Repr())
    ensures if Fits(h[id], |row|) then r == Inserted(|h[id]|) && Pinned(pool, Append(h, id, row), i, id)
            else r == Full && Pinned(pool, h, i, id)
  {
    Unfold(pool, h);
    ghost var p := pool.state;
    FrameShows(p, i);
    hide Inv, AllPages, Layout, Cells, Readable, Fits, BufferPool.Repr, BufferPool.Valid;
    r := pool.InsertRow(i, row);
    if r.Inserted? {
      ChangedHeap(p, pool.state, i, id, pool.frames[i].page[..], h[id] + [Cell(row, true)]);
    }
  }

  /** page_delete of a live row in the pinned page. */
  method KillIn(pool: BufferPool, ghost h: Heap, i: nat, ghost id: nat, s: nat)
    requires Pinned(pool, h, i, id) && LiveAt(h, Loc(id, s))
    modifies pool.Repr()
    ensures Pinned(pool, Kill(h, Loc(id, s)), i, id) && pool.Repr() == old(pool.Repr())
  {
    Unfold(pool, h);
    ghost var p := pool.state;
    FrameShows(p, i);
    hide Inv, AllPages, Layout, Cells, Readable, BufferPool.Repr, BufferPool.Valid;
    pool.KillRow(i, s);
    ChangedHeap(p, pool.state, i, id, pool.frames[i].page[..], Dead(h[id], s));
  }

  /** table_update's replacement of a row in the pinned page. */
  method ReplaceIn(pool: BufferPool, ghost h: Heap, i: nat, ghost id: nat, s: nat, row: Row) returns (slot: nat)
    requires Pinned(pool, h, i, id) && LiveAt(h, Loc(id, s)) && |row| <= PAGE_SIZE && Fits(Dead(h[id], s), |row|)
    modifies pool.Repr()
    ensures Pinned(pool, Append(Kill(h, Loc(id, s)), id, row), i, id) && pool.Repr() == old(pool.Repr())
    ensures slot == |h[id]|
  {
    Unfold(pool, h);
    ghost var p := pool.state;
    FrameShows(p, i);
    ReplacedCells(h, id, s, row);
    hide Inv, AllPages, Layout, Cells, Readable, Fits, Append, Kill, Dead, BufferPool.Repr, BufferPool.Valid;
    slot := pool.ReplaceRow(i, s, row);
    ChangedHeap(p, pool.state, i, id, pool.frames[i].page[..], Dead(h[id], s) + [Cell(row, true)]);
  }

  lemma ReplacedCells(h: Heap, id: nat, s: nat, row: Row)
    requires LiveAt(h, Loc(id, s))
    ensures Append(Kill(h, Loc(id, s)), id, row) == h[id := Dead(h[id], s) + [Cell(row, true)]]
  {
  }

  /** page_read in the pinned page. */
  method ReadIn(pool: BufferPool, ghost h: Heap, i: nat, ghost id: nat, s: nat) returns (r: ReadResult)
    requires Pinned(pool, h, i, id)
    ensures r == if LiveAt(h, Loc(id, s)) then ReadResult.Row(RowAt(h, Loc(id, s))) else NotFound
  {
    Unfold(pool, h);
    FrameShows(pool.state, i);
    hide Inv, AllPages, Layout, Cells, Readable;
    r := pool.ReadRow(i, s);
  }

  /** The slot count in the header of the pinned page. */
  method SlotsIn(pool: BufferPool, ghost h: Heap, i: nat, ghost id: nat) returns (n: nat)
    requires Pinned(pool, h, i, id)
    ensures n == |h[id]|
  {
    Unfold(pool, h);
    FrameShows(pool.state, i);
    pool.FrameFacts(i);
    hide Inv, AllPages, Readable;
    n := GetU16(pool.frames[i].page[..], COUNT_AT);
  }

  // ---------------------------------------------------------------- inserting

  /** buf_new_page for the page after the last. */
  method StartPage(pool: BufferPool, ghost h: Heap, id: nat) returns (i: nat)
    requires Shows(pool, h) && id == |h| && id + 1 < U32_LIMIT
    modifies pool.Repr()
    ensures Pinned(pool, h + [[]], i, id) && fresh(pool.Repr() - old(pool.Repr()))
  {
    Unfold(pool, h);
    ghost var p := pool.state;
    NotBeyond(p, id);
    hide Inv, Layout, Cells, Readable, AllPages, Contents;
    var ok;
    ok, i := pool.NewPage(id);
    GrownHeap(p, pool.state, pool.frames[i].page[..]);
  }

  lemma FirstRow(h: Heap, row: Row)
    requires Fits([], |row|)
    ensures |row| <= PAGE_SIZE && (h + [[]])[|h|] == [] && Append(h + [[]], |h|, row) == Append(h, |h|, row)
  {
    var g, c := h + [[]], Cell(row, true);
    assert g[|h|] + [c] == [c];
    assert g[|h| := [c]] == h + [[c]];
  }

  /** buf_new_page and page_insert into the new page. */
  method AddPage(pool: BufferPool, ghost h: Heap, id: nat, row: Row)
    requires Shows(pool, h) && id == |h| && id + 1 < U32_LIMIT && Fits([], |row|)
    modifies pool.Repr()
    ensures Shows(pool, Append(h, id, row)) && fresh(pool.Repr() - old(pool.Repr()))
  {
    FirstRow(h, row);
    hide Shows, BufferPool.Repr, Fits, Append;
    var i := StartPage(pool, h, id);
    var r := InsertInto(pool, h + [[]], i, id, row);
  }

  lemma FitStep(h: Heap, n: nat, pid: nat)
    requires pid < |h|
    ensures FirstFit(h, n, pid) == if Fits(h[pid], n) then pid else FirstFit(h, n, pid + 1)
  {
  }

  lemma PlaceFacts(h: Heap, row: Row)
    ensures var p := FirstFit(h, |row|, 0);
            p <= |h| && Place(h, row) == Loc(p, if p < |h| then |h[p]| else 0) && InsertRow(h, row) == Append(h, p, row)
    ensures FirstFit(h, |row|, |h|) == |h|
  {
  }

  /** One round of the page loop of table_insert_raw. */
  method TryPage(pool: BufferPool, ghost h: Heap, pid: nat, row: Row) returns (r: InsertResult)
    requires Shows(pool, h) && pid < |h| && |row| <= PAGE_SIZE
    modifies pool.Repr()
    ensures fresh(pool.Repr() - old(pool.Repr()))
    ensures if Fits(h[pid], |row|) then r == Inserted(|h[pid]|) && Shows(pool, Append(h, pid, row))
            else r == Full && Shows(pool, h)
  {
    hide Shows, BufferPool.Repr, Fits, Append;
    var i := PinPage(pool, h, pid);
    r := InsertInto(pool, h, i, pid, row);
  }

  /** The page loop of table_insert_raw: into the first page with room. */
  method TryPages(pool: BufferPool, ghost h: Heap, count: nat, row: Row) returns (done: bool, loc: Loc)
    requires Shows(pool, h) && count == |h| && |row| <= PAGE_SIZE
    modifies pool.Repr()
    ensures fresh(pool.Repr() - old(pool.Repr()))
    ensures if done then loc == Place(h, row) && loc.page < count && Shows(pool, InsertRow(h, row))
            else FirstFit(h, |row|, 0) == count && Shows(pool, h)
  {
    PlaceFacts(h, row);
    ghost var own := pool.Repr();
    hide *;
    var pid := 0;
    while pid < count
      invariant pid <= count && Shows(pool, h)
      invariant forall o :: o in pool.Repr() && o !in own ==> !old(allocated(o))
      invariant FirstFit(h, |row|, pid) == FirstFit(h, |row|, 0)
    {
      FitStep(h, |row|, pid);
      var r := TryPage(pool, h, pid, row);
      if r.Inserted? {
        return true, Loc(pid, r.slot);
      }
      pid := pid + 1;
    }
    return false, Loc(count, 0);
  }

  /** Where table_insert_raw puts a row: into the first page with room, or into a new page. */
  method PutRow(pool: BufferPool, ghost h: Heap, count: nat, row: Row) returns (loc: Loc)
    requires Shows(pool, h) && count == |h| && count + 1 < U32_LIMIT && Fits([], |row|)
    modifies pool.Repr()
    ensures fresh(pool.Repr() - old(pool.Repr())) && Shows(pool, InsertRow(h, row)) && loc == Place(h, row)
  {
    FirstRow(h, row);
    PlaceFacts(h, row);
    hide *;
    var done;
    done, loc := TryPages(pool, h, count, row);
    if !done {
      AddPage(pool, h, count, row);
      loc := Loc(count, 0);
    }
  }

  // ---------------------------------------------------------------- opening and closing

  lemma FileRowsSize(disk: seq<seq<Byte>>)
    requires RowFile(disk)
    ensures |FileRows(disk)| == |disk|
  {
  }

  /** buf_init on a table file. */
  method OpenRows(file: TableFile) returns (pool: BufferPool)
    requires file.Valid() && file.healthy && RowFile(file.pages)
    ensures fresh(pool.Repr() - {file}) && pool.file == file && Shows(pool, FileRows(file.pages))
  {
    OpenedRows(file.pages);
    hide FileRows, RowFile, AllPages, HeapOf;
    pool := new BufferPool(file);
  }

  /** buf_destroy: the file keeps the rows. */
  method CloseRows(pool: BufferPool, ghost h: Heap)
    requires Shows(pool, h)
    modifies pool.Repr()
    ensures pool.file.Valid() && RowFile(pool.file.pages) && FileRows(pool.file.pages) == h
  {
    Unfold(pool, h);
    ghost var p := pool.state;
    ghost var ok := pool.Destroy();
    ClosedRows(p, pool.file.pages);
  }

  // ---------------------------------------------------------------- table_flush

  /** The rows `h`, of which the first `n` pages are also in the file. */
  ghost predicate SavedUpTo(pool: BufferPool, h: Heap, n: nat)
    reads pool.Repr()
  {
    && n <= |h|
    && forall b :: Look(b) ==> HoldsRows(pool, h) && forall id: nat :: id < n ==> Saved(pool.state, id)
  }

  lemma SavedFacts(pool: BufferPool, h: Heap)
    ensures Shows(pool, h) ==> SavedUpTo(pool, h, 0)
    ensures SavedUpTo(pool, h, |h|) ==> Shows(pool, h) && RowFile(pool.file.pages) && FileRows(pool.file.pages) == h
  {
    assert Look(true);
    if SavedUpTo(pool, h, |h|) {
      SavedOpens(pool.state);
      ClosedRows(pool.state, pool.state.disk);
    }
  }

  /** buf_pin saves or unsaves nothing. */
  method PinSaved(pool: BufferPool, ghost h: Heap, pid: nat) returns (i: nat)
    requires SavedUpTo(pool, h, pid) && pid < |h|
    modifies pool.Repr()
    ensures SavedUpTo(pool, h, pid) && Pinned(pool, h, i, pid) && fresh(pool.Repr() - old(pool.Repr()))
  {
    hide Inv, Carried, Settled, Saved, Readable, Contents, Holds, AllPages, HeapOf, BufferPool.Valid, BufferPool.Separate;
    assert Look(true);
    ghost var p := pool.state;
    RowsReadable(p, pid);
    var ok;
    ok, i := pool.Pin(pid);
    CarriedHeap(p, pool.state);
    SettledFacts(p, pool.state, pid);
    pool.Sizes();
  }

  /** The write of table_flush. */
  method SavePinned(pool: BufferPool, ghost h: Heap, i: nat, ghost pid: nat)
    requires SavedUpTo(pool, h, pid) && Pinned(pool, h, i, pid)
    modifies pool.Repr()
    ensures SavedUpTo(pool, h, pid + 1) && pool.Repr() == old(pool.Repr())
  {
    hide Inv, Carried, Settled, Saved, Readable, Contents, Holds, AllPages, HeapOf, BufferPool.Valid, BufferPool.Repr;
    assert Look(true);
    ghost var p := pool.state;
    HoldsFacts(p, i, pid);
    pool.FrameFacts(i);
    pool.SaveFrame(i);
    CarriedHeap(p, pool.state);
    SettledFacts(p, pool.state, pid);
  }

  /** The body of table_flush's loop. */
  method FlushPage(pool: BufferPool, ghost h: Heap, pid: nat)
    requires SavedUpTo(pool, h, pid) && pid < |h|
    modifies pool.Repr()
    ensures SavedUpTo(pool, h, pid + 1) && fresh(pool.Repr() - old(pool.Repr()))
  {
    hide *;
    var i := PinSaved(pool, h, pid);
    SavePinned(pool, h, i, pid);
  }

  lemma RowsReadable(p: Pool, pid: nat)
    requires AllPages(p) && pid < |HeapOf(p)|
    ensures Readable(p, pid)
  {
  }

  lemma HoldsFacts(p: Pool, i: nat, id: nat)
    requires i < |p.views| && Holds(p.views[i], id)
    ensures p.views[i].Held? && p.views[i].id == id
  {
  }

  lemma SettledFacts(p: Pool, q: Pool, n: nat)
    requires Settled(p, q) && n < p.size && forall id: nat :: id < n ==> Saved(p, id)
    ensures n < q.size && forall id: nat :: id < n ==> Saved(q, id)
  {
  }

  /** table_flush: the file holds the rows, although no frame is marked clean. */
  method FlushRows(pool: BufferPool, ghost h: Heap, count: nat)
    requires Shows(pool, h) && count == |h|
    modifies pool.Repr()
    ensures Shows(pool, h) && fresh(pool.Repr() - old(pool.Repr()))
    ensures RowFile(pool.file.pages) && FileRows(pool.file.pages) == h
  {
    hide *;
    ghost var own := pool.Repr();
    SavedFacts(pool, h);
    var pid := 0;
    while pid < count
      invariant pid <= count && SavedUpTo(pool, h, pid)
      invariant forall o :: o in pool.Repr() && o !in own ==> !old(allocated(o))
    {
      FlushPage(pool, h, pid);
      pid := pid + 1;
    }
    SavedFacts(pool, h);
  }
}
