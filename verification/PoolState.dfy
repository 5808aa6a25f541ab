/** The buffer pool and its file as a value: seven frames, the page images on disk, and what they
    together say about every page.  Each step of the pool is a function here; the lemmas show what
    the steps keep and that none of them changes what the pages say. */
module PoolState {
  import opened Bytes
  import opened Page
  import opened Disk

  const FRAMES: nat := 7

  /** A frame, by what it holds. */
  datatype View = Empty | Held(id: nat, bytes: seq<Byte>, dirty: bool, rank: nat)

  /** `size` counts the pages of the table, written out or not; `trace` lists the successful accesses
      so far. */
  datatype Pool = Pool(views: seq<View>, clock: nat, disk: seq<seq<Byte>>, size: nat, trace: seq<nat>)

  predicate Holds(v: View, id: nat) {
    v.Held? && v.id == id
  }

  /** find_frame: the frame that holds page `id`, or the number of frames. */
  function FindFrame(views: seq<View>, id: nat): (i: nat)
    ensures i <= |views|
    ensures i < |views| ==> Holds(views[i], id)
    ensures forall j :: 0 <= j < i ==> !Holds(views[j], id)
  {
    FindFrameFrom(views, id, 0)
  }

  function FindFrameFrom(views: seq<View>, id: nat, n: nat): (i: nat)
    requires n <= |views|
    ensures n <= i <= |views|
    ensures i < |views| ==> Holds(views[i], id)
    ensures forall j :: n <= j < i ==> !Holds(views[j], id)
    decreases |views| - n
  {
    if n < |views| && !Holds(views[n], id) then FindFrameFrom(views, id, n + 1) else n
  }

  predicate Resident(p: Pool, id: nat) {
    FindFrame(p.views, id) < |p.views|
  }

  /** When a page was last accessed, counting accesses from 1; 0 when it never was. */
  function LastUse(trace: seq<nat>, id: nat): (t: nat)
    ensures t <= |trace|
    ensures t > 0 ==> trace[t - 1] == id
    ensures forall i :: t <= i < |trace| ==> trace[i] != id
  {
    if |trace| == 0 then 0
    else if trace[|trace| - 1] == id then |trace|
    else LastUse(trace[..|trace| - 1], id)
  }

  /** A clean frame says what the disk says; every frame's header carries its own id, and its rank is
      the time of its page's last access. */
  ghost predicate FrameOk(p: Pool, v: View) {
    v.Held? ==>
      && Sized(v.bytes) && v.id < p.size && Id(v.bytes) == v.id && v.rank == LastUse(p.trace, v.id) > 0
      && (!v.dirty ==> v.id < |p.disk| && Verified(p.disk[v.id]) && Norm(p.disk[v.id]) == Norm(v.bytes))
  }

  /** Different frames hold different pages. */
  ghost predicate Differ(v: View, w: View) {
    v.Held? && w.Held? ==> v.id != w.id
  }

  /** A page that is not in a frame is on disk, at the position its header names. */
  ghost predicate HomeOk(p: Pool, id: nat) {
    Resident(p, id) || (id < |p.disk| && (Verified(p.disk[id]) ==> Id(p.disk[id]) == id))
  }

  ghost predicate Inv(p: Pool) {
    && |p.views| == FRAMES
    && |p.disk| <= p.size < U32_LIMIT
    && p.clock == |p.trace| + 1
    && (forall d :: 0 <= d < |p.disk| ==> Sized(p.disk[d]))
    && (forall i :: 0 <= i < FRAMES ==> FrameOk(p, p.views[i]))
    && (forall i, j :: 0 <= i < j < FRAMES ==> Differ(p.views[i], p.views[j]))
    && (forall id :: 0 <= id < p.size ==> HomeOk(p, id))
  }

  /** The image of page `id`: the frame's if it has one, the disk's otherwise. */
  ghost function Image(p: Pool, id: nat): (s: seq<Byte>)
    requires Inv(p) && id < p.size
    ensures Sized(s)
  {
    var i := FindFrame(p.views, id);
    assert HomeOk(p, id);
    if i < |p.views| then (assert FrameOk(p, p.views[i]); p.views[i].bytes) else p.disk[id]
  }

  /** What the pages say, whichever of frames and disk they come from. */
  ghost function Contents(p: Pool): (c: seq<seq<Byte>>)
    requires Inv(p)
    ensures |c| == p.size && forall id :: 0 <= id < p.size ==> c[id] == Norm(Image(p, id))
  {
    seq(p.size, id requires 0 <= id < p.size => Norm(Image(p, id)))
  }

  /** Page `id` can be brought into a frame, if the device does not fail. */
  ghost predicate Readable(p: Pool, id: nat) {
    Resident(p, id) || (id < |p.disk| && Verified(p.disk[id]))
  }

  /** From `p` to `q` no page has changed and none has been lost. */
  ghost predicate Carried(p: Pool, q: Pool) {
    && Inv(p) && Inv(q) && Contents(q) == Contents(p)
    && forall id: nat :: Readable(p, id) ==> Readable(q, id)
  }

  /** The file already says what page `id` says. */
  ghost predicate Saved(p: Pool, id: nat)
    requires Inv(p) && id < p.size
  {
    id < |p.disk| && Verified(p.disk[id]) && Norm(p.disk[id]) == Norm(Image(p, id))
  }

  /** From `p` to `q` no saved page has become unsaved. */
  ghost predicate Settled(p: Pool, q: Pool) {
    && Inv(p) && Inv(q) && q.size == p.size
    && forall id: nat :: id < p.size && Saved(p, id) ==> Saved(q, id)
  }

  // ---------------------------------------------------------------- steps

  /** What an access does to its frame. */
  function Accessed(p: Pool, i: nat, v: View): Pool
    requires i < |p.views| && v.Held?
  {
    p.(views := p.views[i := v.(rank := p.clock)], clock := p.clock + 1, trace := p.trace + [v.id])
  }

  /** A page write from frame `i`; only a successful one leaves the frame clean. */
  function WrittenOut(p: Pool, i: nat, bytes: seq<Byte>, disk: seq<seq<Byte>>, dirty: bool): Pool
    requires i < |p.views| && p.views[i].Held?
  {
    p.(views := p.views[i := p.views[i].(bytes := bytes, dirty := dirty)], disk := disk)
  }

  function Evicted(p: Pool, i: nat): Pool
    requires i < |p.views|
  {
    p.(views := p.views[i := Empty])
  }

  /** buf_new_page: the page exists from now on, although the file does not hold it yet. */
  function Created(p: Pool, i: nat, id: nat, bytes: seq<Byte>): Pool
    requires i < |p.views|
  {
    Accessed(p, i, Held(id, bytes, true, 0)).(size := if id < p.size then p.size else id + 1)
  }

  /** A client's change to the page in frame `i`, followed by buf_mark_dirty. */
  function Edited(p: Pool, i: nat, bytes: seq<Byte>): Pool
    requires i < |p.views| && p.views[i].Held?
  {
    p.(views := p.views[i := p.views[i].(bytes := bytes, dirty := true)])
  }

  // ---------------------------------------------------------------- finding frames after a step

  lemma FindUnique(p: Pool, i: nat)
    requires Inv(p) && i < FRAMES && p.views[i].Held?
    ensures FindFrame(p.views, p.views[i].id) == i
  {
    var k := FindFrame(p.views, p.views[i].id);
    assert k < i ==> Differ(p.views[k], p.views[i]);
  }

  /** `q` is `p` with another frame `i`, which holds a page that no other frame holds. */
  ghost predicate Replaces(p: Pool, q: Pool, i: nat) {
    && Inv(p) && i < FRAMES && |q.views| == FRAMES
    && q.views == p.views[i := q.views[i]]
    && forall a :: 0 <= a < FRAMES && a != i ==> Differ(p.views[a], q.views[i])
  }

  /** Replacing frame `i` matters only to the pages that it holds before or afterwards. */
  lemma FindAfter(p: Pool, q: Pool, i: nat, id: nat)
    requires Replaces(p, q, i)
    ensures FindFrame(q.views, id) ==
            if Holds(q.views[i], id) then i
            else if Holds(p.views[i], id) then FRAMES
            else FindFrame(p.views, id)
  {
    var f, k := FindFrame(q.views, id), FindFrame(p.views, id);
    if Holds(q.views[i], id) {
      assert forall a :: 0 <= a < FRAMES && a != i ==> Differ(p.views[a], q.views[i]) && !Holds(q.views[a], id);
    } else if Holds(p.views[i], id) {
      OthersDiffer(p, i, p.views[i]);
      assert forall a :: 0 <= a < FRAMES && a != i ==> Differ(p.views[a], p.views[i]) && !Holds(q.views[a], id);
    } else {
      assert f < FRAMES ==> Holds(p.views[f], id);
      assert k < FRAMES ==> Holds(q.views[k], id);
    }
  }

  lemma OthersDiffer(p: Pool, i: nat, v: View)
    requires Inv(p) && i < FRAMES && p.views[i].Held? && v.Held? && v.id == p.views[i].id
    ensures forall a :: 0 <= a < FRAMES && a != i ==> Differ(p.views[a], v)
  {
    forall a | 0 <= a < FRAMES && a != i ensures Differ(p.views[a], v) {
      assert if a < i then Differ(p.views[a], p.views[i]) else Differ(p.views[i], p.views[a]);
    }
  }

  lemma AbsentDiffers(p: Pool, v: View)
    requires Inv(p) && v.Held? && !Resident(p, v.id)
    ensures forall a :: 0 <= a < FRAMES ==> Differ(p.views[a], v)
  {
  }

  lemma LastUseAppend(trace: seq<nat>, a: nat, id: nat)
    ensures LastUse(trace + [a], id) == if id == a then |trace| + 1 else LastUse(trace, id)
  {
    assert (trace + [a])[..|trace|] == trace;
  }

  /** The disk at `id` after the step, for pages that the frame in question has nothing to do with. */
  predicate SameHome(p: Pool, q: Pool, id: nat) {
    id < |p.disk| ==> id < |q.disk| && q.disk[id] == p.disk[id]
  }

  /** Everything a step needs so that the pool stays in order and only frame `i`'s pages can change. */
  lemma Replaced(p: Pool, q: Pool, i: nat)
    requires Replaces(p, q, i)
    requires |q.disk| <= q.size < U32_LIMIT && p.size <= q.size && q.clock == |q.trace| + 1
    requires forall d :: 0 <= d < |q.disk| ==> Sized(q.disk[d])
    requires forall a :: 0 <= a < FRAMES ==> FrameOk(q, q.views[a])
    requires forall id :: 0 <= id < q.size && !Holds(p.views[i], id) && !Holds(q.views[i], id) ==> id < p.size && SameHome(p, q, id)
    requires p.views[i].Held? && !Holds(q.views[i], p.views[i].id) ==>
               p.views[i].id < |q.disk| && Verified(q.disk[p.views[i].id]) && Id(q.disk[p.views[i].id]) == p.views[i].id
    ensures Inv(q)
    ensures forall id: nat :: Readable(p, id) ==> Readable(q, id)
    ensures forall id :: 0 <= id < q.size ==>
              (if Holds(q.views[i], id) then Image(q, id) == q.views[i].bytes
               else if Holds(p.views[i], id) then id < |q.disk| && Image(q, id) == q.disk[id]
               else id < p.size && Image(q, id) == Image(p, id))
  {
    forall id: nat | Readable(p, id) ensures Readable(q, id) {
      FindAfter(p, q, i, id);
      if id >= q.size {
        NotBeyond(p, id);
      }
    }
    forall a, b | 0 <= a < b < FRAMES ensures Differ(q.views[a], q.views[b]) {
      assert Differ(p.views[a], p.views[b]);
      assert a != i ==> Differ(p.views[a], q.views[i]);
      assert b != i ==> Differ(p.views[b], q.views[i]);
    }
    forall id | 0 <= id < q.size ensures HomeOk(q, id) {
      FindAfter(p, q, i, id);
      assert id < p.size ==> HomeOk(p, id);
    }
    forall id | 0 <= id < q.size
      ensures if Holds(q.views[i], id) then Image(q, id) == q.views[i].bytes
              else if Holds(p.views[i], id) then id < |q.disk| && Image(q, id) == q.disk[id]
              else id < p.size && Image(q, id) == Image(p, id)
    {
      FindAfter(p, q, i, id);
      assert HomeOk(q, id);
      assert id < p.size ==> HomeOk(p, id);
    }
  }

  lemma NotBeyond(p: Pool, id: nat)
    requires Inv(p)
    ensures Readable(p, id) ==> id < p.size
  {
    var i := FindFrame(p.views, id);
    assert i < FRAMES ==> FrameOk(p, p.views[i]);
  }

  // ---------------------------------------------------------------- what every step keeps

  /** An access changes no page. */
  lemma AccessKeeps(p: Pool, i: nat)
    requires Inv(p) && i < FRAMES && p.views[i].Held?
    ensures Carried(p, Accessed(p, i, p.views[i]))
  {
    var q := Accessed(p, i, p.views[i]);
    OthersDiffer(p, i, q.views[i]);
    forall a | 0 <= a < FRAMES ensures FrameOk(q, q.views[a]) {
      assert FrameOk(p, p.views[a]);
      if p.views[a].Held? {
        LastUseAppend(p.trace, p.views[i].id, p.views[a].id);
        assert a != i ==> Differ(p.views[a], q.views[i]);
      }
    }
    Replaced(p, q, i);
    SameImage(p, i);
    assert Contents(q) == Contents(p);
  }

  lemma SameImage(p: Pool, i: nat)
    requires Inv(p) && i < FRAMES && p.views[i].Held?
    ensures p.views[i].id < p.size && Image(p, p.views[i].id) == p.views[i].bytes && Sized(p.views[i].bytes)
  {
    FindUnique(p, i);
    assert FrameOk(p, p.views[i]);
  }

  /** A page write, successful or not, changes no page: unless it succeeded, the frame stays dirty. */
  lemma WriteKeeps(p: Pool, i: nat, bytes: seq<Byte>, disk: seq<seq<Byte>>, ok: bool, dirty: bool)
    requires Inv(p) && i < FRAMES && p.views[i].Held? && Sized(bytes) && Verified(bytes) && Norm(bytes) == Norm(p.views[i].bytes)
    requires p.views[i].dirty && (ok || dirty)
    requires if ok then disk == Store(p.disk, p.views[i].id, bytes) else WriteFailed(p.disk, p.views[i].id, disk)
    ensures Carried(p, WrittenOut(p, i, bytes, disk, dirty))
  {
    var q := WrittenOut(p, i, bytes, disk, dirty);
    OthersDiffer(p, i, q.views[i]);
    NormDetermines(p.views[i].bytes, bytes);
    forall a | 0 <= a < FRAMES ensures FrameOk(q, q.views[a]) {
      assert FrameOk(p, p.views[a]);
      assert a != i ==> Differ(p.views[a], q.views[i]);
    }
    Replaced(p, q, i);
    SameImage(p, i);
    assert Contents(q) == Contents(p);
  }

  lemma SameDiskSettled(p: Pool, q: Pool)
    requires Carried(p, q) && q.disk == p.disk
    ensures Settled(p, q)
  {
    assert |Contents(p)| == |Contents(q)|;
    forall id: nat | id < p.size && Saved(p, id) ensures Saved(q, id) {
      assert Contents(q)[id] == Contents(p)[id];
    }
  }

  /** A successful write saves its page and unsettles no other. */
  lemma WriteSettles(p: Pool, i: nat, bytes: seq<Byte>, q: Pool)
    requires Carried(p, q) && i < FRAMES && p.views[i].Held? && Sized(bytes) && Verified(bytes) && Norm(bytes) == Norm(p.views[i].bytes)
    requires q.disk == Store(p.disk, p.views[i].id, bytes)
    ensures Settled(p, q) && p.views[i].id < q.size && Saved(q, p.views[i].id)
  {
    SameImage(p, i);
    assert |Contents(p)| == |Contents(q)|;
    forall id: nat | id < p.size && (id == p.views[i].id || Saved(p, id)) ensures Saved(q, id) {
      assert Contents(q)[id] == Contents(p)[id];
    }
  }

  lemma SettledAlong(p: Pool, q: Pool, r: Pool)
    requires Settled(p, q) && Settled(q, r)
    ensures Settled(p, r)
  {
  }

  lemma CleanIsSaved(p: Pool, i: nat)
    requires Inv(p) && i < FRAMES && p.views[i].Held? && !p.views[i].dirty
    ensures p.views[i].id < p.size && Saved(p, p.views[i].id)
  {
    SameImage(p, i);
    assert FrameOk(p, p.views[i]);
  }

  /** Dropping a clean frame changes no page. */
  lemma EvictKeeps(p: Pool, i: nat)
    requires Inv(p) && i < FRAMES && p.views[i].Held? && !p.views[i].dirty
    ensures Carried(p, Evicted(p, i))
  {
    var q := Evicted(p, i);
    assert FrameOk(p, p.views[i]);
    NormDetermines(p.views[i].bytes, p.disk[p.views[i].id]);
    forall a | 0 <= a < FRAMES ensures FrameOk(q, q.views[a]) {
      assert FrameOk(p, p.views[a]);
    }
    Replaced(p, q, i);
    SameImage(p, i);
    assert Contents(q) == Contents(p);
  }

  /** Reading a page into an empty frame changes no page. */
  lemma LoadKeeps(p: Pool, i: nat, id: nat)
    requires Inv(p) && i < FRAMES && p.views[i].Empty? && id < |p.disk| && Verified(p.disk[id]) && !Resident(p, id)
    ensures Carried(p, Accessed(p, i, Held(id, p.disk[id], false, 0)))
  {
    var q := Accessed(p, i, Held(id, p.disk[id], false, 0));
    assert HomeOk(p, id);
    AbsentDiffers(p, q.views[i]);
    LastUseAppend(p.trace, id, id);
    forall a | 0 <= a < FRAMES ensures FrameOk(q, q.views[a]) {
      assert FrameOk(p, p.views[a]);
      if p.views[a].Held? && a != i {
        assert Differ(p.views[a], q.views[i]);
        LastUseAppend(p.trace, id, p.views[a].id);
      }
    }
    Replaced(p, q, i);
    assert Image(p, id) == p.disk[id];
    assert Contents(q) == Contents(p);
  }

  /** What the pages say once page `id`, old or new, says `n`. */
  function With(c: seq<seq<Byte>>, id: nat, n: seq<Byte>): seq<seq<Byte>>
    requires id <= |c|
  {
    if id < |c| then c[id := n] else c + [n]
  }

  /** buf_new_page for a page that is not resident puts in that page and changes no other. */
  lemma CreateKeeps(p: Pool, i: nat, id: nat, bytes: seq<Byte>)
    requires Inv(p) && i < FRAMES && p.views[i].Empty? && id <= p.size && id + 1 < U32_LIMIT && !Resident(p, id)
    requires Sized(bytes) && Id(bytes) == id
    ensures var q := Created(p, i, id, bytes);
            Inv(q) && Contents(q) == With(Contents(p), id, Norm(bytes)) && forall a: nat :: Readable(p, a) || a == id ==> Readable(q, a)
  {
    var q := Created(p, i, id, bytes);
    AbsentDiffers(p, q.views[i]);
    LastUseAppend(p.trace, id, id);
    forall a | 0 <= a < FRAMES ensures FrameOk(q, q.views[a]) {
      assert FrameOk(p, p.views[a]);
      if p.views[a].Held? && a != i {
        assert Differ(p.views[a], q.views[i]);
        LastUseAppend(p.trace, id, p.views[a].id);
      }
    }
    Replaced(p, q, i);
    FindUnique(q, i);
    assert Contents(q) == With(Contents(p), id, Norm(bytes));
  }

  /** A client's edit changes its own page and no other. */
  lemma EditKeeps(p: Pool, i: nat, bytes: seq<Byte>)
    requires Inv(p) && i < FRAMES && p.views[i].Held? && Sized(bytes) && Id(bytes) == p.views[i].id
    ensures var q := Edited(p, i, bytes);
            && Inv(q) && p.views[i].id < p.size && Contents(q) == Contents(p)[p.views[i].id := Norm(bytes)]
            && forall id: nat :: Readable(p, id) ==> Readable(q, id)
  {
    var q := Edited(p, i, bytes);
    OthersDiffer(p, i, q.views[i]);
    forall a | 0 <= a < FRAMES ensures FrameOk(q, q.views[a]) {
      assert FrameOk(p, p.views[a]);
    }
    Replaced(p, q, i);
    SameImage(p, i);
    assert Contents(q) == Contents(p)[p.views[i].id := Norm(bytes)];
  }

  // ---------------------------------------------------------------- closing and opening

  ghost predicate AllClean(p: Pool) {
    forall i :: 0 <= i < |p.views| ==> p.views[i].Held? ==> !p.views[i].dirty
  }

  /** A file whose pages are all intact, in place and inside the range of page numbers. */
  ghost predicate FileOk(disk: seq<seq<Byte>>) {
    && |disk| < U32_LIMIT
    && forall id :: 0 <= id < |disk| ==> Verified(disk[id]) && Id(disk[id]) == id
  }

  /** buf_init on a file. */
  function Opened(disk: seq<seq<Byte>>): Pool {
    Pool(seq(FRAMES, i => Empty), 1, disk, |disk|, [])
  }

  lemma OpenFacts(disk: seq<seq<Byte>>)
    requires FileOk(disk)
    ensures Inv(Opened(disk)) && forall id :: 0 <= id < |disk| ==> Readable(Opened(disk), id) && Contents(Opened(disk))[id] == Norm(disk[id])
  {
    var p := Opened(disk);
    forall id | 0 <= id < |disk| ensures HomeOk(p, id) {
    }
  }

  /** A file in which every page is saved opens to the same pages. */
  lemma SavedOpens(p: Pool)
    requires Inv(p) && forall id: nat :: id < p.size ==> Saved(p, id)
    ensures FileOk(p.disk) && Contents(Opened(p.disk)) == Contents(p)
  {
    forall id: nat | id < p.size ensures id < |p.disk| && Verified(p.disk[id]) && Id(p.disk[id]) == id && Norm(p.disk[id]) == Contents(p)[id] {
      assert Saved(p, id) && HomeOk(p, id);
      var i := FindFrame(p.views, id);
      if i < FRAMES {
        assert FrameOk(p, p.views[i]);
        NormDetermines(p.views[i].bytes, p.disk[id]);
      }
    }
    assert p.size > 0 ==> Saved(p, p.size - 1);
    OpenFacts(p.disk);
    assert Contents(Opened(p.disk)) == Contents(p);
  }

  /** Closing after a successful flush and opening again changes no page. */
  lemma CloseThenOpen(p: Pool)
    requires Inv(p) && AllClean(p) && forall id :: 0 <= id < p.size ==> Readable(p, id)
    ensures FileOk(p.disk) && Carried(p, Opened(p.disk)) && Contents(Opened(p.disk)) == Contents(p)
  {
    forall id | 0 <= id < p.size ensures id < |p.disk| && Verified(p.disk[id]) && Id(p.disk[id]) == id && Norm(p.disk[id]) == Contents(p)[id] {
      assert HomeOk(p, id) && Readable(p, id);
      var i := FindFrame(p.views, id);
      if i < FRAMES {
        assert FrameOk(p, p.views[i]);
        NormDetermines(p.views[i].bytes, p.disk[id]);
      }
    }
    assert p.size > 0 ==> Readable(p, p.size - 1) && |Contents(p)[p.size - 1]| >= 0 && Norm(p.disk[p.size - 1]) == Contents(p)[p.size - 1];
    OpenFacts(p.disk);
    assert Contents(Opened(p.disk)) == Contents(p);
    forall id: nat | Readable(p, id) ensures Readable(Opened(p.disk), id) {
      NotBeyond(p, id);
    }
  }
}
