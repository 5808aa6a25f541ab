/** Pages on disk: the file of a table, and the checksum that guards every page image. */
module Disk {
  import opened Bytes
  import opened Page
  import Checksum

  const SUM_SIZE: nat := 4

  /** A page image with a blank checksum field: what a page says. */
  function Norm(s: seq<Byte>): (n: seq<Byte>)
    requires Sized(s)
    ensures Sized(n)
  {
    s[SUM_AT := 0][SUM_AT + 1 := 0][SUM_AT + 2 := 0][SUM_AT + 3 := 0]
  }

  /** The test of page_read_disk. */
  predicate Verified(s: seq<Byte>) {
    Sized(s) && GetU32(s, SUM_AT) == Checksum.Value(s[HEADER_SIZE..])
  }

  /** A file as page images; writing past the end leaves a hole of zero pages. */
  function Store(pages: seq<seq<Byte>>, id: nat, image: seq<Byte>): (r: seq<seq<Byte>>)
    ensures id < |r| && r[id] == image
    ensures |r| == if id < |pages| then |pages| else id + 1
    ensures forall i :: 0 <= i < |pages| && i != id ==> r[i] == pages[i]
    ensures forall i :: |pages| <= i < id ==> r[i] == ZeroPage()
  {
    if id < |pages| then pages[id := image]
    else pages + seq(id - |pages|, i => ZeroPage()) + [image]
  }

  /** A write that failed may have torn the page it was aimed at, and no other. */
  ghost predicate WriteFailed(disk: seq<seq<Byte>>, id: nat, disk': seq<seq<Byte>>) {
    disk' == disk || exists torn :: Sized(torn) && disk' == Store(disk, id, torn)
  }

  function ZeroPage(): seq<Byte> {
    seq(PAGE_SIZE, i => 0)
  }

  lemma SameNorm(s: seq<Byte>, t: seq<Byte>)
    requires Sized(s) && Sized(t) && forall i :: 0 <= i < PAGE_SIZE && !(SUM_AT <= i < SUM_AT + SUM_SIZE) ==> t[i] == s[i]
    ensures Norm(t) == Norm(s)
  {
  }

  /** Everything but the checksum is determined by what a page says. */
  lemma NormDetermines(s: seq<Byte>, t: seq<Byte>)
    requires Sized(s) && Sized(t) && Norm(s) == Norm(t)
    ensures Id(t) == Id(s)
    ensures Layout(s) ==> Layout(t) && Cells(t) == Cells(s)
  {
    NormBytes(s, t);
    assert Id(t) == Id(s) && Count(t) == Count(s) && FreeStart(t) == FreeStart(s) && FreeEnd(t) == FreeEnd(s);
    hide GetU16;
    hide GetU32;
    if Layout(s) {
      assert t[HEADER_SIZE..] == s[HEADER_SIZE..];
      SameBody(s, t);
    }
  }

  lemma NormBytes(s: seq<Byte>, t: seq<Byte>)
    requires Sized(s) && Sized(t) && Norm(s) == Norm(t)
    ensures forall i :: 0 <= i < PAGE_SIZE && !(SUM_AT <= i < SUM_AT + SUM_SIZE) ==> t[i] == s[i]
  {
    forall i | 0 <= i < PAGE_SIZE && !(SUM_AT <= i < SUM_AT + SUM_SIZE) ensures t[i] == s[i] {
      assert Norm(s)[i] == s[i] && Norm(t)[i] == t[i];
    }
  }

  /** A page that verifies stops verifying when one of its last 25 bytes changes. */
  lemma TamperDetected(s: seq<Byte>, i: nat, b: Byte)
    requires Verified(s) && PAGE_SIZE - 25 <= i < PAGE_SIZE && b != s[i]
    ensures !Verified(s[i := b])
  {
    var t := s[i := b];
    assert t[HEADER_SIZE..] == s[HEADER_SIZE..][i - HEADER_SIZE := b];
    assert GetU32(t, SUM_AT) == GetU32(s, SUM_AT);
    Checksum.LastBytesDetected(s[HEADER_SIZE..], i - HEADER_SIZE, b);
  }

  /** Every byte before the last 32, apart from the checksum itself, can change unnoticed. */
  lemma HeadUnguarded(s: seq<Byte>, i: nat, b: Byte)
    requires Verified(s) && i < PAGE_SIZE - 32 && !(SUM_AT <= i < SUM_AT + SUM_SIZE)
    ensures Verified(s[i := b])
  {
    var t, n := s[i := b], PAGE_SIZE - 32;
    assert GetU32(t, SUM_AT) == GetU32(s, SUM_AT);
    assert s[HEADER_SIZE..] == s[HEADER_SIZE..n] + s[n..] && t[HEADER_SIZE..] == t[HEADER_SIZE..n] + s[n..];
    Checksum.OnlyTailMatters(s[HEADER_SIZE..n], t[HEADER_SIZE..n], s[n..]);
  }

  /** compute_checksum of a page. */
  method PageSum(data: array<Byte>) returns (v: nat)
    requires data.Length == PAGE_SIZE
    ensures v == Checksum.Value(data[..][HEADER_SIZE..])
  {
    assert data[..][HEADER_SIZE..] == data[HEADER_SIZE..];
    var sum := Checksum.Compute(data[HEADER_SIZE..]);
    hide Checksum.Sum;
    v := sum as nat;
  }

  /** The checksum update of page_write_disk: the page afterwards verifies and says the same. */
  method Seal(data: array<Byte>)
    requires data.Length == PAGE_SIZE
    modifies data
    ensures Verified(data[..]) && Norm(data[..]) == old(Norm(data[..]))
  {
    ghost var before := data[..];
    PutU32(data, SUM_AT, 0);
    assert data[..][HEADER_SIZE..] == before[HEADER_SIZE..];
    var v := PageSum(data);
    hide GetU32;
    hide HasU16;
    PutU32(data, SUM_AT, v);
    assert data[..][HEADER_SIZE..] == before[HEADER_SIZE..];
    SameNorm(before, data[..]);
    ReadsBack32(data[..], SUM_AT, v);
  }

  lemma ReadsBack32(s: seq<Byte>, at: nat, x: nat)
    requires x < U32_LIMIT && at + 4 <= |s| && HasU16(s, at, x % U16_LIMIT) && HasU16(s, at + 2, x / U16_LIMIT)
    ensures GetU32(s, at) == x
  {
    ReadsBack(s, at, x % U16_LIMIT);
    ReadsBack(s, at + 2, x / U16_LIMIT);
  }

  /** The file of one table.  Reads and writes may fail unless the device is healthy. */
  class TableFile {
    var pages: seq<seq<Byte>>
    const healthy: bool

    ghost predicate Valid()
      reads this
    {
      forall i :: 0 <= i < |pages| ==> Sized(pages[i])
    }

    constructor (pages: seq<seq<Byte>>, healthy: bool)
      requires forall i :: 0 <= i < |pages| ==> Sized(pages[i])
      ensures Valid() && this.pages == pages && this.healthy == healthy
    {
      this.pages, this.healthy := pages, healthy;
    }

    /** page_write_disk: a failed write may have torn the page it was aimed at, and no other. */
    method Write(data: array<Byte>) returns (ok: bool)
      requires Valid() && data.Length == PAGE_SIZE
      modifies this, data
      ensures Valid() && Verified(data[..]) && Norm(data[..]) == old(Norm(data[..]))
      ensures ok ==> pages == Store(old(pages), Id(data[..]), data[..])
      ensures !ok ==> WriteFailed(old(pages), Id(data[..]), pages)
      ensures healthy ==> ok
    {
      Seal(data);
      var id := Id(data[..]);
      var fails := *;
      if healthy || !fails {
        pages := Store(pages, id, data[..]);
        return true;
      }
      var tears, torn: seq<Byte> := *, *;
      if tears && |torn| == PAGE_SIZE {
        pages := Store(pages, id, torn);
      }
      return false;
    }

    /** page_read_disk into a freshly allocated page. */
    method Read(id: nat) returns (data: array?<Byte>)
      requires Valid()
      ensures data != null ==> fresh(data) && data.Length == PAGE_SIZE && id < |pages| && data[..] == pages[id] && Verified(pages[id])
      ensures healthy && id < |pages| && Verified(pages[id]) ==> data != null
    {
      var fails := *;
      if id >= |pages| || (!healthy && fails) {
        return null;
      }
      var page := new Byte[PAGE_SIZE](i requires 0 <= i < PAGE_SIZE reads this requires id < |pages| && Sized(pages[id]) => pages[id][i]);
      assert page[..] == pages[id];
      var sum := PageSum(page);
      if sum != GetU32(page[..], SUM_AT) {
        return null;
      }
      return page;
    }
  }
}
