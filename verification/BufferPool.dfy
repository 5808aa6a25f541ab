/** The buffer pool: seven frames over the file of a table, as the code keeps them.  Its abstract
    value is a `PoolState.Pool`. */
module Buffer {
  import opened Bytes
  import opened Page
  import opened Disk
  import opened PoolState
  import opened Lru

  class Frame {
    var page: array?<Byte>
    var pageId: nat
    var dirty: bool
    var rank: nat

    constructor ()
      ensures page == null && !dirty && rank == 0
    {
      page, pageId, dirty, rank := null, U32_LIMIT - 1, false, 0;
    }
  }

  /** What a frame holds. */
  ghost function ViewOf(f: Frame): View
    reads f, f.page
  {
    if f.page == null then Empty else Held(f.pageId, f.page[..], f.dirty, f.rank)
  }

  ghost function PagesOf(frames: seq<Frame>): set<object>
    reads frames`page
  {
    set i | 0 <= i < |frames| && frames[i].page != null :: frames[i].page
  }

  method EmptyFrames() returns (fs: seq<Frame>)
    ensures |fs| == FRAMES
    ensures forall i :: 0 <= i < FRAMES ==> fresh(fs[i]) && fs[i].page == null && fs[i].rank == 0
    ensures forall i, j :: 0 <= i < j < FRAMES ==> fs[i] != fs[j]
  {
    fs := [];
    while |fs| < FRAMES
      invariant |fs| <= FRAMES
      invariant forall i :: 0 <= i < |fs| ==> fresh(fs[i]) && fs[i].page == null && fs[i].rank == 0
      invariant forall i, j :: 0 <= i < j < |fs| ==> fs[i] != fs[j]
    {
      var f := new Frame();
      fs := fs + [f];
    }
  }

  lemma NormKeepsId(s: seq<Byte>, t: seq<Byte>)
    requires Sized(s) && Sized(t) && Norm(s) == Norm(t)
    ensures Id(t) == Id(s)
  {
    NormDetermines(s, t);
  }

  lemma CarriedFacts(p: Pool, q: Pool)
    requires Carried(p, q)
    ensures Inv(p) && Inv(q) && Contents(q) == Contents(p) && q.size == p.size && |q.views| == FRAMES
  {
    assert |Contents(q)| == |Contents(p)|;
  }

  lemma CarriedSelf(p: Pool)
    requires Inv(p)
    ensures Carried(p, p) && Settled(p, p)
  {
  }

  lemma CarriedAlong(p: Pool, q: Pool, r: Pool)
    requires Carried(p, q) && Carried(q, r)
    ensures Carried(p, r)
  {
  }

  lemma StillAbsent(p: Pool, q: Pool, i: nat, id: nat)
    requires Carried(p, q) && i < FRAMES && q.views == p.views[i := Empty] && !Resident(p, id)
    ensures !Resident(q, id) && (Readable(p, id) ==> id < |q.disk| && Verified(q.disk[id]))
  {
    FindAfter(p, q, i, id);
  }

  /** The whole of a successful fault: frame `i` given up, then filled from disk. */
  lemma Loaded(p: Pool, q: Pool, i: nat, id: nat, r: Pool)
    requires Carried(p, q) && Choice(p, i) && i < FRAMES && q.trace == p.trace && q.views == p.views[i := Empty]
    requires !Resident(p, id) && !Resident(q, id) && id < |q.disk| && Verified(q.disk[id])
    requires r == Accessed(q, i, Held(id, q.disk[id], false, 0))
    ensures Carried(p, r) && Inv(r) && (Exact(p) ==> Exact(r)) && Settled(q, r) && (Settled(p, q) ==> Settled(p, r))
  {
    LoadKeeps(q, i, id);
    CarriedAlong(p, q, r);
    Unwriting(q, r);
    if Exact(p) {
      MissExact(p, r, i, id);
    }
  }

  /** The whole of buf_new_page: frame `i` given up, then filled with a blank page. */
  lemma Started(p: Pool, q: Pool, i: nat, id: nat, bytes: seq<Byte>, r: Pool)
    requires Carried(p, q) && Choice(p, i) && i < FRAMES && q.trace == p.trace && q.views == p.views[i := Empty]
    requires id <= q.size && id + 1 < U32_LIMIT && !Resident(p, id) && !Resident(q, id)
    requires Sized(bytes) && Id(bytes) == id && r == Created(q, i, id, bytes)
    ensures Inv(r) && Contents(r) == With(Contents(p), id, Norm(bytes))
    ensures forall a: nat :: Readable(p, a) || a == id ==> Readable(r, a)
    ensures Exact(p) ==> Exact(r)
  {
    CreateKeeps(q, i, id, bytes);
    if Exact(p) {
      MissExact(p, r, i, id);
    }
  }

  /** A user's change to the page in frame `i`: its cells are now `cs`. */
  ghost predicate Changed(p: Pool, q: Pool, i: nat, bytes: seq<Byte>, cs: seq<Cell>)
    requires i < |p.views| && p.views[i].Held?
  {
    q == Edited(p, i, bytes) && Layout(bytes) && Id(bytes) == p.views[i].id && Cells(bytes) == cs
  }

  lemma RowsSmall(s: seq<Byte>, i: nat)
    requires Layout(s)
    ensures i < |Cells(s)| ==> |Cells(s)[i].row| <= PAGE_SIZE
  {
    if i < |Cells(s)| {
      RowSize(s, i);
    }
  }

  /** All about a page write. */
  lemma WriteDone(p: Pool, i: nat, bytes: seq<Byte>, disk: seq<seq<Byte>>, ok: bool, dirty: bool)
    requires Inv(p) && i < FRAMES && p.views[i].Held? && Sized(bytes) && Verified(bytes) && Norm(bytes) == Norm(p.views[i].bytes)
    requires p.views[i].dirty && (ok || dirty)
    requires if ok then disk == Store(p.disk, p.views[i].id, bytes) else WriteFailed(p.disk, p.views[i].id, disk)
    ensures var q := WrittenOut(p, i, bytes, disk, dirty);
            && Carried(p, q) && Inv(q) && q.size == p.size && |q.views| == FRAMES
            && (ok ==> Settled(p, q) && p.views[i].id < q.size && Saved(q, p.views[i].id))
  {
    var q := WrittenOut(p, i, bytes, disk, dirty);
    WriteKeeps(p, i, bytes, disk, ok, dirty);
    CarriedFacts(p, q);
    if ok {
      WriteSettles(p, i, bytes, q);
    }
  }

  /** A step that writes nothing to the file. */
  lemma Unwriting(p: Pool, q: Pool)
    requires Carried(p, q) && q.disk == p.disk
    ensures Settled(p, q) && Inv(q) && q.size == p.size && |q.views| == FRAMES
  {
    CarriedFacts(p, q);
    SameDiskSettled(p, q);
  }

  class BufferPool {
    const frames: seq<Frame>
    const file: TableFile
    var clock: nat
    ghost var state: Pool

    ghost function Repr(): set<object>
      reads frames`page
    {
      {this, file} + (set f | f in frames) + PagesOf(frames)
    }

    /** The frames are distinct objects with pages of their own. */
    ghost predicate Separate()
      reads frames`page
    {
      && |frames| == FRAMES
      && (forall i :: 0 <= i < FRAMES && frames[i].page != null ==> frames[i].page.Length == PAGE_SIZE)
      && (forall i, j :: 0 <= i < j < FRAMES ==> frames[i] != frames[j])
      && (forall i, j :: 0 <= i < j < FRAMES && frames[i].page != null ==> frames[i].page != frames[j].page)
    }

    ghost predicate Valid()
      reads Repr()
    {
      && Separate() && file.Valid() && Inv(state) && |state.views| == FRAMES == |frames|
      && (forall i :: 0 <= i < FRAMES ==> ViewOf(frames[i]) == state.views[i])
      && (forall i :: 0 <= i < FRAMES && frames[i].page == null ==> frames[i].rank == 0)
      && state.clock == clock && state.disk == file.pages
    }


    /** buf_init. */
    constructor (file: TableFile)
      requires file.Valid() && FileOk(file.pages)
      ensures Valid() && fresh(Repr() - {file}) && this.file == file
      ensures state == Opened(file.pages) && Exact(state)
    {
      var fs := EmptyFrames();
      frames := fs;
      this.file := file;
      clock := 1;
      state := Opened(file.pages);
      new;
      OpenFacts(file.pages);
    }

    /** find_frame. */
    method Find(id: nat) returns (i: nat)
      requires Valid()
      ensures i == FindFrame(state.views, id)
    {
      i := 0;
      while i < FRAMES
        invariant i <= FRAMES && FindFrame(state.views, id) == FindFrameFrom(state.views, id, i)
      {
        if frames[i].pageId == id && frames[i].page != null {
          return;
        }
        i := i + 1;
      }
    }

    /** find_empty. */
    method FindFree() returns (i: nat)
      requires Valid()
      ensures i == FindEmpty(state.views, 0)
    {
      i := 0;
      while i < FRAMES
        invariant i <= FRAMES && FindEmpty(state.views, 0) == FindEmpty(state.views, i)
      {
        if frames[i].page == null {
          return;
        }
        i := i + 1;
      }
    }

    /** find_lru. */
    method FindLru() returns (i: nat)
      requires Valid()
      ensures i < FRAMES && Oldest(state.views, i)
    {
      i := 0;
      var rank := frames[0].rank;
      var j := 1;
      while j < FRAMES
        invariant 1 <= j <= FRAMES && i < FRAMES && rank == frames[i].rank
        invariant forall k :: 0 <= k < j ==> rank <= frames[k].rank
      {
        if frames[j].rank < rank {
          rank, i := frames[j].rank, j;
        }
        j := j + 1;
      }
      assert forall k :: 0 <= k < FRAMES ==> Rank(state.views[k]) == frames[k].rank;
    }

    lemma Sizes()
      requires Valid()
      ensures |state.views| == FRAMES == |frames|
    {
    }

    /** What validity says about one held frame. */
    lemma FrameFacts(i: nat)
      requires Valid() && i < FRAMES && state.views[i].Held?
      ensures {this, file, frames[i]} <= Repr() && frames[i].page in Repr()
      ensures frames[i].page != null && frames[i].page.Length == PAGE_SIZE && frames[i].page !in {this, file}
      ensures state.views[i] == Held(frames[i].pageId, frames[i].page[..], frames[i].dirty, frames[i].rank)
      ensures Sized(state.views[i].bytes) && state.views[i].id == Id(state.views[i].bytes) < state.size
      ensures forall j :: 0 <= j < FRAMES && j != i ==> frames[j] != frames[i] && frames[j].page != frames[i].page
    {
      assert ViewOf(frames[i]) == state.views[i];
      assert FrameOk(state, state.views[i]);
    }

    /** page_write_disk for a dirty frame.  A caller that clears the flag does so only if the write
        succeeded; table_flush never clears it, because buf_mark_clean does nothing. */
    method WriteBack(i: nat, cleans: bool) returns (ok: bool)
      requires Valid() && i < FRAMES && state.views[i].Held? && state.views[i].dirty
      modifies this`state, file, frames[i], frames[i].page
      ensures Valid() && Carried(old(state), state) && (file.healthy ==> ok) && PagesOf(frames) == old(PagesOf(frames))
      ensures frames[i].page == old(frames[i].page)
      ensures state == WrittenOut(old(state), i, frames[i].page[..], file.pages, !(ok && cleans))
      ensures ok ==> Settled(old(state), state) && state.views[i].id < state.size && Saved(state, state.views[i].id)
    {
      hide Inv, Carried, Contents, PagesOf, Verified, Norm, Store, WriteFailed, Id, Sized, Settled, Saved;
      var f := frames[i];
      ghost var p := state;
      FrameFacts(i);
      ok := file.Write(f.page);
      if ok && cleans {
        f.dirty := false;
      }
      state := WrittenOut(p, i, f.page[..], file.pages, !(ok && cleans));
      NormKeepsId(p.views[i].bytes, f.page[..]);
      WriteDone(p, i, f.page[..], file.pages, ok, !(ok && cleans));
    }

    /** Freeing the page of a clean frame. */
    method Drop(i: nat)
      requires Valid() && i < FRAMES && state.views[i].Held? && !state.views[i].dirty
      modifies this`state, frames[i]
      ensures Valid() && Carried(old(state), state) && Settled(old(state), state) && PagesOf(frames) <= old(PagesOf(frames))
      ensures state == Evicted(old(state), i)
    {
      hide Inv, Carried, Settled;
      FrameFacts(i);
      EvictKeeps(state, i);
      Unwriting(state, Evicted(state, i));
      var f := frames[i];
      f.page, f.pageId, f.dirty, f.rank := null, U32_LIMIT - 1, false, 0;
      state := Evicted(state, i);
    }

    /** evict_frame. */
    method Evict(i: nat) returns (ok: bool)
      requires Valid() && i < FRAMES
      modifies this`state, file, frames[i], frames[i].page
      ensures Valid() && Carried(old(state), state) && (file.healthy ==> ok) && PagesOf(frames) <= old(PagesOf(frames))
      ensures state.trace == old(state.trace)
      ensures if ok then state.views == old(state).views[i := Empty] && Settled(old(state), state) else SameHolders(old(state), state)
    {
      hide Inv, Carried, Settled, Saved, Separate;
      ghost var p := state;
      CarriedSelf(p);
      ok := true;
      assert ViewOf(frames[i]) == p.views[i];
      if frames[i].page != null {
        hide ViewOf;
        if frames[i].dirty {
          ok := WriteBack(i, true);
        }
        if ok {
          ghost var q := state;
          Drop(i);
          CarriedAlong(p, q, state);
          SettledAlong(p, q, state);
        }
      }
    }

    /** The choice of a frame for a page that has none: an empty one, or the least recently used. */
    method Reclaim() returns (ok: bool, i: nat)
      requires Valid()
      modifies this`state, file, frames, PagesOf(frames)
      ensures Valid() && Carried(old(state), state) && (file.healthy ==> ok) && PagesOf(frames) <= old(PagesOf(frames))
      ensures state.trace == old(state.trace)
      ensures ok ==> i < FRAMES && state.views == old(state).views[i := Empty] && Choice(old(state), i)
      ensures if ok then Settled(old(state), state) else SameHolders(old(state), state)
    {
      hide Inv, Carried, Settled;
      i := FindFree();
      if i < FRAMES {
        ok := Evict(i);
      } else {
        i := FindLru();
        ok := Evict(i);
      }
    }

    /** Puts a page into an empty frame and records the access. */
    method Install(i: nat, id: nat, data: array<Byte>, dirty: bool, ghost q: Pool)
      requires Valid() && i < FRAMES && state.views[i].Empty? && data.Length == PAGE_SIZE
      requires forall j :: 0 <= j < FRAMES ==> frames[j].page != data
      requires Inv(q) && q.disk == state.disk && q.clock == clock + 1
      requires q.views == state.views[i := Held(id, data[..], dirty, clock)]
      modifies this, frames[i]
      ensures Valid() && state == q && PagesOf(frames) <= old(PagesOf(frames)) + {data}
      ensures frames[i].page == data
    {
      hide Inv;
      assert ViewOf(frames[i]) == state.views[i];
      var f := frames[i];
      f.page, f.pageId, f.dirty, f.rank := data, id, dirty, clock;
      clock := clock + 1;
      state := q;
    }

    method Touch(i: nat)
      requires Valid() && i < FRAMES && state.views[i].Held?
      modifies this, frames[i]
      ensures Valid() && Carried(old(state), state) && Settled(old(state), state) && PagesOf(frames) == old(PagesOf(frames))
      ensures state == Accessed(old(state), i, old(state).views[i])
    {
      hide Inv, Carried, Settled, LastUse;
      FrameFacts(i);
      AccessKeeps(state, i);
      Unwriting(state, Accessed(state, i, state.views[i]));
      state := Accessed(state, i, state.views[i]);
      frames[i].rank := clock;
      clock := clock + 1;
    }

    /** The part of buf_pin that reads a page into a frame. */
    method Fault(id: nat) returns (ok: bool, i: nat)
      requires Valid() && !Resident(state, id)
      modifies this, file, frames, PagesOf(frames)
      ensures Valid() && fresh(PagesOf(frames) - old(PagesOf(frames))) && Carried(old(state), state)
      ensures ok ==> i < FRAMES && Holds(state.views[i], id) && state.trace == old(state.trace) + [id]
      ensures ok && Exact(old(state)) ==> Exact(state)
      ensures !ok ==> state.trace == old(state.trace)
      ensures file.healthy ==> (Readable(old(state), id) ==> ok) && Settled(old(state), state)
    {
      ghost var p := state;
      hide Inv, Carried, Readable, Exact, Choice, Resident, Verified, Contents, Settled;
      ok, i := Reclaim();
      if !ok {
        return;
      }
      ghost var q := state;
      StillAbsent(p, q, i, id);
      var page := file.Read(id);
      if page == null {
        return false, i;
      }
      ghost var r := Accessed(q, i, Held(id, page[..], false, 0));
      Loaded(p, q, i, id, r);
      Install(i, id, page, false, r);
    }

    /** buf_pin: no page changes, whatever becomes of the reads and writes. */
    method Pin(id: nat) returns (ok: bool, i: nat)
      requires Valid()
      modifies this, file, frames, PagesOf(frames)
      ensures Valid() && fresh(PagesOf(frames) - old(PagesOf(frames))) && Carried(old(state), state)
      ensures ok ==> i < FRAMES && Holds(state.views[i], id) && state.trace == old(state.trace) + [id]
      ensures ok && Exact(old(state)) ==> Exact(state)
      ensures !ok ==> state.trace == old(state.trace)
      ensures file.healthy ==> (Readable(old(state), id) ==> ok) && Settled(old(state), state)
    {
      hide Inv, Carried, Exact, Settled;
      i := Find(id);
      if i < FRAMES {
        if Exact(state) {
          HitExact(state, i);
        }
        ok := true;
        Touch(i);
      } else {
        ok, i := Fault(id);
      }
    }

    /** buf_new_page, for a page that is in no frame. */
    method NewPage(id: nat) returns (ok: bool, i: nat)
      requires Valid() && id <= state.size && id + 1 < U32_LIMIT && !Resident(state, id)
      modifies this, file, frames, PagesOf(frames)
      ensures Valid() && fresh(PagesOf(frames) - old(PagesOf(frames))) && (file.healthy ==> ok)
      ensures ok ==> i < FRAMES && Holds(state.views[i], id) && state.trace == old(state.trace) + [id]
      ensures ok ==> frames[i].page != null && Layout(frames[i].page[..]) && Cells(frames[i].page[..]) == []
      ensures ok ==> Contents(state) == With(Contents(old(state)), id, Norm(frames[i].page[..]))
      ensures ok ==> forall a: nat :: Readable(old(state), a) || a == id ==> Readable(state, a)
      ensures ok && Exact(old(state)) ==> Exact(state)
      ensures !ok ==> Carried(old(state), state) && state.trace == old(state.trace)
    {
      hide Inv, Carried, Readable, Exact, Choice, Resident, Contents, Layout, Norm, Cells, Id, With, LastUse, Settled, Separate;
      ghost var p := state;
      ok, i := Reclaim();
      if !ok {
        return;
      }
      ghost var q := state;
      StillAbsent(p, q, i, id);
      CarriedFacts(p, q);
      var page := Alloc(id);
      ghost var r := Created(q, i, id, page[..]);
      Started(p, q, i, id, page[..], r);
      Install(i, id, page, true, r);
      assert PagesOf(frames) - old(PagesOf(frames)) <= {page};
    }

    /** A frame whose page its user has changed without touching the page number. */
    ghost predicate Editing(i: nat)
      reads this, frames, file, PagesOf(frames)
    {
      && Separate() && file.Valid() && Inv(state) && |state.views| == FRAMES && i < FRAMES
      && (forall j :: 0 <= j < FRAMES && j != i ==> ViewOf(frames[j]) == state.views[j])
      && (forall j :: 0 <= j < FRAMES && frames[j].page == null ==> frames[j].rank == 0)
      && frames[i].page != null && state.views[i].Held? && Id(frames[i].page[..]) == state.views[i].id
      && state.views[i] == Held(frames[i].pageId, state.views[i].bytes, frames[i].dirty, frames[i].rank)
      && state.clock == clock && state.disk == file.pages
    }

    /** buf_mark_dirty after a change to the page in frame `i`. */
    method MarkDirty(i: nat)
      requires Editing(i)
      modifies this`state, frames[i]
      ensures Valid() && frames[i].page == old(frames[i].page) && PagesOf(frames) == old(PagesOf(frames))
      ensures state == Edited(old(state), i, frames[i].page[..]) && (Exact(old(state)) ==> Exact(state))
    {
      hide Contents, Readable, Norm, Resident, Exact;
      EditKeeps(state, i, frames[i].page[..]);
      SameResidents(state, Edited(state, i, frames[i].page[..]));
      hide Inv;
      frames[i].dirty := true;
      state := Edited(state, i, frames[i].page[..]);
    }

    method FlushFrame(i: nat) returns (ok: bool)
      requires Valid() && i < FRAMES
      modifies this`state, file, frames[i], frames[i].page
      ensures Valid() && Carried(old(state), state) && PagesOf(frames) == old(PagesOf(frames)) && (file.healthy ==> ok)
      ensures SameHolders(old(state), state)
      ensures forall j :: 0 <= j < FRAMES && j != i ==> state.views[j] == old(state).views[j]
      ensures ok && state.views[i].Held? ==> !state.views[i].dirty
    {
      hide Inv, Carried, Settled, Saved;
      assert ViewOf(frames[i]) == state.views[i];
      CarriedSelf(state);
      ok := true;
      if frames[i].page != null && frames[i].dirty {
        ok := WriteBack(i, true);
      }
    }

    /** The body of table_flush's loop: the page is written, but its frame stays dirty. */
    method SaveFrame(i: nat)
      requires Valid() && i < FRAMES && state.views[i].Held? && file.healthy
      modifies this`state, file, frames[i], frames[i].page
      ensures Valid() && Carried(old(state), state) && Settled(old(state), state) && Repr() == old(Repr())
      ensures state.views[i].Held? && state.views[i].id == old(state).views[i].id < state.size && Saved(state, state.views[i].id)
      ensures Exact(old(state)) ==> Exact(state)
    {
      hide Inv, Carried, Settled, Saved, Separate, Exact;
      assert ViewOf(frames[i]) == state.views[i];
      CarriedSelf(state);
      ghost var p := state;
      if frames[i].dirty {
        var ok := WriteBack(i, false);
        SameResidents(p, state);
      } else {
        CleanIsSaved(state, i);
      }
    }

    /** buf_flush_all: afterwards, unless a write failed, every frame is clean. */
    method FlushAll() returns (ok: bool)
      requires Valid()
      modifies this`state, file, frames, PagesOf(frames)
      ensures Valid() && Carried(old(state), state) && PagesOf(frames) == old(PagesOf(frames))
      ensures SameHolders(old(state), state) && (file.healthy ==> ok) && (ok ==> AllClean(state))
      ensures Exact(old(state)) ==> Exact(state)
    {
      hide Inv, Carried, Separate, Exact;
      ghost var p := state;
      CarriedSelf(p);
      hide Valid;
      ok := true;
      var i := 0;
      while i < FRAMES
        invariant i <= FRAMES && Valid() && Carried(p, state) && PagesOf(frames) == old(PagesOf(frames))
        invariant SameHolders(p, state) && (file.healthy ==> ok)
        invariant ok ==> forall j :: 0 <= j < i && state.views[j].Held? ==> !state.views[j].dirty
      {
        ghost var q := state;
        var written := FlushFrame(i);
        CarriedAlong(p, q, state);
        ok := ok && written;
        i := i + 1;
      }
      SameResidents(p, state);
    }

    /** buf_destroy: after a successful flush the file says what the pool said.  The code ignores
        whether the flush succeeded; `ok` stands for that. */
    method Destroy() returns (ghost ok: bool)
      requires Valid()
      modifies this`state, file, frames, PagesOf(frames)
      ensures file.Valid() && (file.healthy ==> ok)
      ensures ok && (forall a :: 0 <= a < old(state).size ==> Readable(old(state), a)) ==>
                FileOk(file.pages) && Contents(Opened(file.pages)) == Contents(old(state))
    {
      ghost var p := state;
      var flushed := FlushAll();
      ok := flushed;
      if ok && forall a :: 0 <= a < p.size ==> Readable(p, a) {
        CarriedFacts(p, state);
        CloseThenOpen(state);
      }
      hide *;
      var i := 0;
      while i < FRAMES
        modifies frames
      {
        frames[i].page := null;
        i := i + 1;
      }
    }

    // -------------------------------------------------------------- users' changes to a pinned page

    /** page_read; the buffer of the table layer holds any row. */
    method ReadRow(i: nat, s: nat) returns (r: ReadResult)
      requires Valid() && i < FRAMES && state.views[i].Held? && Layout(state.views[i].bytes)
      ensures var cs := Cells(state.views[i].bytes);
              r == if s < |cs| && cs[s].live then Row(cs[s].row) else NotFound
    {
      hide Inv, Layout, Cells, Id;
      FrameFacts(i);
      RowsSmall(state.views[i].bytes, s);
      r := Page.Read(frames[i].page, s, PAGE_SIZE);
    }

    /** page_insert and buf_mark_dirty. */
    method InsertRow(i: nat, row: seq<Byte>) returns (r: InsertResult)
      requires Valid() && i < FRAMES && state.views[i].Held? && Layout(state.views[i].bytes) && |row| <= PAGE_SIZE
      modifies Repr()
      ensures Valid() && Repr() == old(Repr()) && frames[i].page == old(frames[i].page) != null
      ensures var cs := Cells(old(state).views[i].bytes);
              if Fits(cs, |row|) then
                r == Inserted(|cs|) && Changed(old(state), state, i, frames[i].page[..], cs + [Cell(row, true)])
              else r == Full && state == old(state)
    {
      hide Inv, Layout, Cells, Fits, Id, Repr;
      FrameFacts(i);
      r := Page.Insert(frames[i].page, row);
      if r.Inserted? {
        MarkDirty(i);
      }
    }

    /** page_delete of a live row, and buf_mark_dirty. */
    method KillRow(i: nat, s: nat)
      requires Valid() && i < FRAMES && state.views[i].Held? && Layout(state.views[i].bytes)
      requires s < |Cells(state.views[i].bytes)| && Cells(state.views[i].bytes)[s].live
      modifies Repr()
      ensures Valid() && Repr() == old(Repr()) && frames[i].page == old(frames[i].page) != null
      ensures Changed(old(state), state, i, frames[i].page[..], Dead(Cells(old(state).views[i].bytes), s))
    {
      hide Inv, Layout, Cells, Id, Repr, Fits, Used, LastUse, GetU16, GetU32, Contents, Readable;
      FrameFacts(i);
      var found := Page.Delete(frames[i].page, s);
      MarkDirty(i);
    }

    /** table_update's page_delete, page_insert and buf_mark_dirty, when the new version fits. */
    method ReplaceRow(i: nat, s: nat, row: seq<Byte>) returns (slot: nat)
      requires Valid() && i < FRAMES && state.views[i].Held? && Layout(state.views[i].bytes) && |row| <= PAGE_SIZE
      requires s < |Cells(state.views[i].bytes)| && Cells(state.views[i].bytes)[s].live
      requires Fits(Dead(Cells(state.views[i].bytes), s), |row|)
      modifies Repr()
      ensures Valid() && Repr() == old(Repr()) && frames[i].page == old(frames[i].page) != null
      ensures slot == |Cells(old(state).views[i].bytes)|
      ensures Changed(old(state), state, i, frames[i].page[..], Dead(Cells(old(state).views[i].bytes), s) + [Cell(row, true)])
    {
      hide Inv, Layout, Cells, Fits, Id, Repr;
      FrameFacts(i);
      var found := Page.Delete(frames[i].page, s);
      var r := Page.Insert(frames[i].page, row);
      slot := r.slot;
      MarkDirty(i);
    }

    /** table_update when the new version does not fit: page_delete has changed the page, page_insert
        refuses, and the frame is left as it was marked. */
    method KillUnmarked(i: nat, s: nat, row: seq<Byte>)
      requires Valid() && i < FRAMES && state.views[i].Held? && Layout(state.views[i].bytes) && |row| <= PAGE_SIZE
      requires s < |Cells(state.views[i].bytes)| && Cells(state.views[i].bytes)[s].live
      requires !Fits(Dead(Cells(state.views[i].bytes), s), |row|)
      modifies Repr()
      ensures Editing(i) && state == old(state) && frames[i].dirty == old(frames[i].dirty) && PagesOf(frames) == old(PagesOf(frames))
      ensures frames[i].page == old(frames[i].page) != null && Layout(frames[i].page[..])
      ensures Cells(frames[i].page[..]) == Dead(Cells(old(state).views[i].bytes), s)
    {
      hide Inv, Layout, Cells, Fits, Id, Repr;
      FrameFacts(i);
      var found := Page.Delete(frames[i].page, s);
      var r := Page.Insert(frames[i].page, row);
    }

    /** evict_frame on such a frame.  If it was marked before, the change is part of what is written;
        if not, the frame is dropped and the pages are as if nothing had been changed. */
    method EvictEdited(i: nat) returns (ok: bool)
      requires Editing(i)
      modifies this`state, file, frames[i], frames[i].page
      ensures Valid() && (file.healthy ==> ok)
      ensures if old(frames[i].dirty) then Carried(Edited(old(state), i, old(frames[i].page[..])), state)
              else ok && Carried(old(state), state) && state.views == old(state).views[i := Empty]
    {
      hide Inv, Carried, Settled, Contents, Readable, LastUse;
      if frames[i].dirty {
        MarkDirty(i);
        ok := Evict(i);
      } else {
        EvictKeeps(state, i);
        Unwriting(state, Evicted(state, i));
        var f := frames[i];
        f.page, f.pageId, f.dirty, f.rank := null, U32_LIMIT - 1, false, 0;
        state := Evicted(state, i);
        ok := true;
      }
    }
  }

  method OpenPool(file: TableFile) returns (pool: BufferPool)
    requires file.Valid() && FileOk(file.pages)
    ensures pool.Valid() && fresh(pool.Repr() - {file}) && pool.file == file
    ensures pool.state.trace == [] && Ready(pool.state, |file.pages|)
  {
    hide Exact, Readable;
    OpenFacts(file.pages);
    pool := new BufferPool(file);
  }

  /** An access: buf_pin of a page, or buf_new_page for the page after the last. */
  datatype Use = Pinning(id: nat) | Creating

  /** How many pages there are after some accesses, from `count` pages on. */
  function PagesAfter(uses: seq<Use>, count: nat): nat {
    if |uses| == 0 then count else PagesAfter(uses[..|uses| - 1], count) + if uses[|uses| - 1].Creating? then 1 else 0
  }

  /** The pages accessed, in order. */
  function TraceOf(uses: seq<Use>, count: nat): seq<nat> {
    if |uses| == 0 then []
    else
      var before, last := uses[..|uses| - 1], uses[|uses| - 1];
      TraceOf(before, count) + [if last.Pinning? then last.id else PagesAfter(before, count)]
  }

  /** Every page exists when it is pinned, and page numbers stay in range. */
  ghost predicate Legal(uses: seq<Use>, count: nat) {
    && count + |uses| < U32_LIMIT
    && forall n :: 0 <= n < |uses| && uses[n].Pinning? ==> uses[n].id < PagesAfter(uses[..n], count)
  }

  lemma UsesStart(uses: seq<Use>, count: nat)
    ensures PagesAfter(uses[..0], count) == count && TraceOf(uses[..0], count) == []
  {
  }

  lemma UsesNext(uses: seq<Use>, count: nat, n: nat)
    requires n < |uses| && Legal(uses, count)
    ensures var now := PagesAfter(uses[..n], count);
            && PagesAfter(uses[..n + 1], count) == now + (if uses[n].Creating? then 1 else 0)
            && TraceOf(uses[..n + 1], count) == TraceOf(uses[..n], count) + [if uses[n].Pinning? then uses[n].id else now]
            && (uses[n].Pinning? ==> uses[n].id < now) && now <= count + n && count + |uses| < U32_LIMIT
  {
    assert uses[..n + 1][..n] == uses[..n];
    PagesBound(uses[..n], count);
  }

  lemma {:induction false} PagesBound(uses: seq<Use>, count: nat)
    ensures PagesAfter(uses, count) <= count + |uses|
  {
    if |uses| > 0 {
      PagesBound(uses[..|uses| - 1], count);
    }
  }

  /** All pages below `count` can be read, there are no more, and the resident ones are exact. */
  ghost predicate Ready(p: Pool, count: nat) {
    Inv(p) && p.size == count && Exact(p) && forall id: nat :: id < count ==> Readable(p, id)
  }

  lemma ReadyFacts(p: Pool, count: nat)
    requires Ready(p, count)
    ensures Inv(p) && p.size == count && Exact(p) && forall id: nat :: id < count ==> Readable(p, id)
    ensures !Resident(p, count)
  {
  }

  /** One access, for a device that does not fail. */
  method Access(pool: BufferPool, use: Use, count: nat)
    requires pool.Valid() && pool.file.healthy && Ready(pool.state, count) && count + 1 < U32_LIMIT
    requires use.Pinning? ==> use.id < count
    modifies pool.Repr()
    ensures pool.Valid() && fresh(pool.Repr() - old(pool.Repr()))
    ensures pool.state.trace == old(pool.state).trace + [if use.Pinning? then use.id else count]
    ensures Ready(pool.state, if use.Creating? then count + 1 else count)
  {
    hide Inv, Carried, Exact, Readable, Settled, Contents, With, Norm, Ready, Resident, Cells, LastUse;
    ghost var p := pool.state;
    ReadyFacts(p, count);
    match use {
      case Pinning(id) =>
        var ok, i := pool.Pin(id);
        PinnedReady(p, pool.state, count);
      case Creating =>
        var ok, i := pool.NewPage(count);
        CreatedReady(p, pool.state, count, Norm(pool.frames[i].page[..]));
    }
  }

  lemma PinnedReady(p: Pool, q: Pool, count: nat)
    requires Ready(p, count) && Carried(p, q) && Exact(q)
    ensures Ready(q, count)
  {
  }

  lemma CreatedReady(p: Pool, q: Pool, count: nat, n: seq<Byte>)
    requires Ready(p, count) && Inv(q) && Contents(q) == With(Contents(p), count, n) && Exact(q)
    requires forall a: nat :: Readable(p, a) || a == count ==> Readable(q, a)
    ensures Ready(q, count + 1)
  {
  }

  /** Over every sequence of accesses from buf_init on, if the device does not fail: the resident pages
      are exactly the seven most recently accessed different ones. */
  method AccessAll(file: TableFile, uses: seq<Use>) returns (pool: BufferPool)
    requires file.Valid() && file.healthy && FileOk(file.pages) && Legal(uses, |file.pages|)
    modifies file
    ensures pool.Valid() && pool.state.trace == TraceOf(uses, |old(file.pages)|)
    ensures forall id: nat :: Resident(pool.state, id) <==> id in Recent(TraceOf(uses, |old(file.pages)|))
  {
    hide *;
    var count := |file.pages|;
    ghost var first := count;
    pool := OpenPool(file);
    UsesStart(uses, first);
    var n := 0;
    while n < |uses|
      invariant n <= |uses| && pool.Valid() && pool.file == file && count == PagesAfter(uses[..n], first)
      invariant pool.state.trace == TraceOf(uses[..n], first) && Ready(pool.state, count)
      invariant forall o :: o in pool.Repr() && o != file ==> !old(allocated(o))
    {
      UsesNext(uses, first, n);
      ghost var own := pool.Repr();
      Access(pool, uses[n], count);
      assert forall o :: o in pool.Repr() && o !in own ==> !old(allocated(o));
      if uses[n].Creating? {
        count := count + 1;
      }
      n := n + 1;
    }
    assert uses[..n] == uses;
    ReadyFacts(pool.state, count);
    ExactMeans(pool.state);
  }

  lemma ExactMeans(p: Pool)
    requires Exact(p)
    ensures forall id: nat :: Resident(p, id) <==> id in Recent(p.trace)
  {
  }
}
