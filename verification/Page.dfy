/** The slotted page as bytes: a 40-byte header, a directory of 6-byte slots growing up, rows
    growing down.  The bytes of a page stand for a sequence of cells, and every operation is proved
    to do to the bytes what it should do to the cells. */
module Page {
  import opened Bytes

  const PAGE_SIZE: nat := 4096
  const MAX_SLOTS: nat := 128
  const HEADER_SIZE: nat := 40
  const SLOT_SIZE: nat := 6

  // Field positions inside PageHeader and Slot, with the usual alignment.
  const ID_AT: nat := 0
  const COUNT_AT: nat := 16
  const START_AT: nat := 18
  const END_AT: nat := 20
  const SUM_AT: nat := 24
  const ALIVE: Byte := 1
  const DEAD: Byte := 2

  /** A slot and its row; a deleted row keeps its bytes until the page is compacted. */
  datatype Cell = Cell(row: seq<Byte>, live: bool)

  predicate Sized(s: seq<Byte>) { |s| == PAGE_SIZE }

  function Id(s: seq<Byte>): nat requires Sized(s) { GetU32(s, ID_AT) }

  function Count(s: seq<Byte>): nat requires Sized(s) { GetU16(s, COUNT_AT) }

  function FreeStart(s: seq<Byte>): nat requires Sized(s) { GetU16(s, START_AT) }

  function FreeEnd(s: seq<Byte>): nat requires Sized(s) { GetU16(s, END_AT) }

  function SlotAt(i: nat): nat { HEADER_SIZE + SLOT_SIZE * i }

  function Offset(s: seq<Byte>, i: nat): nat
    requires Sized(s) && i < MAX_SLOTS
  {
    GetU16(s, SlotAt(i))
  }

  function Length(s: seq<Byte>, i: nat): nat
    requires Sized(s) && i < MAX_SLOTS
  {
    GetU16(s, SlotAt(i) + 2)
  }

  function Flags(s: seq<Byte>, i: nat): Byte
    requires Sized(s) && i < MAX_SLOTS
  {
    s[SlotAt(i) + 4]
  }

  /** Where the rows of the first `i` slots end. */
  function EndOf(s: seq<Byte>, i: nat): nat
    requires Sized(s) && i <= MAX_SLOTS
  {
    if i == 0 then PAGE_SIZE else Offset(s, i - 1)
  }

  predicate SlotOk(s: seq<Byte>, i: nat)
    requires Sized(s) && i < MAX_SLOTS
  {
    Offset(s, i) + Length(s, i) == EndOf(s, i) && (Flags(s, i) == ALIVE || Flags(s, i) == DEAD)
  }

  /** Rows are packed downwards from the end of the page, in slot order, dead ones included. */
  predicate Packed(s: seq<Byte>) {
    && Sized(s)
    && Count(s) <= MAX_SLOTS
    && FreeEnd(s) == EndOf(s, Count(s))
    && forall i :: 0 <= i < Count(s) ==> SlotOk(s, i)
  }

  /** The page invariant. */
  predicate Layout(s: seq<Byte>) {
    Packed(s) && SlotAt(Count(s)) == FreeStart(s) <= FreeEnd(s)
  }

  lemma {:induction false} EndBounds(s: seq<Byte>, i: nat, j: nat)
    requires Packed(s) && i <= j <= Count(s)
    ensures EndOf(s, j) <= EndOf(s, i) <= PAGE_SIZE
    decreases j
  {
    if j > 0 {
      assert SlotOk(s, j - 1);
      EndBounds(s, if i == j then j - 1 else i, j - 1);
    }
  }

  function CellAt(s: seq<Byte>, i: nat): Cell
    requires Packed(s) && i < Count(s)
  {
    EndBounds(s, i, i);
    assert SlotOk(s, i);
    Cell(s[Offset(s, i)..Offset(s, i) + Length(s, i)], Flags(s, i) == ALIVE)
  }

  /** What the bytes of a page stand for. */
  function Cells(s: seq<Byte>): (cs: seq<Cell>)
    requires Packed(s)
    ensures |cs| == Count(s) && forall i :: 0 <= i < |cs| ==> cs[i] == CellAt(s, i)
  {
    seq(Count(s), i requires 0 <= i < Count(s) => CellAt(s, i))
  }

  // ---------------------------------------------------------------- cells

  function Used(cs: seq<Cell>): nat {
    if |cs| == 0 then 0 else Used(cs[..|cs| - 1]) + |cs[|cs| - 1].row|
  }

  /** Whether a row of `n` bytes still fits behind the given cells. */
  predicate Fits(cs: seq<Cell>, n: nat) {
    |cs| < MAX_SLOTS && SlotAt(|cs| + 1) + Used(cs) + n <= PAGE_SIZE
  }

  /** The cells once slot `s` is deleted. */
  function Dead(cs: seq<Cell>, s: nat): seq<Cell>
    requires s < |cs|
  {
    cs[s := cs[s].(live := false)]
  }

  function Live(cs: seq<Cell>): seq<Cell> {
    if |cs| == 0 then []
    else
      var last := cs[|cs| - 1];
      Live(cs[..|cs| - 1]) + if last.live then [last] else []
  }

  /** Free space is exactly what headers, slots and all rows, dead or alive, leave over. */
  lemma {:induction false} EndIsUsed(s: seq<Byte>, i: nat)
    requires Packed(s) && i <= Count(s)
    ensures EndOf(s, i) == PAGE_SIZE - Used(Cells(s)[..i])
  {
    if i > 0 {
      EndIsUsed(s, i - 1);
      assert Cells(s)[..i][..i - 1] == Cells(s)[..i - 1];
      assert Cells(s)[..i][i - 1] == CellAt(s, i - 1);
      assert SlotOk(s, i - 1);
      EndBounds(s, i - 1, i - 1);
    }
  }

  lemma SpaceAccount(s: seq<Byte>)
    requires Layout(s)
    ensures FreeStart(s) == HEADER_SIZE + SLOT_SIZE * |Cells(s)| <= FreeEnd(s) == PAGE_SIZE - Used(Cells(s))
  {
    EndIsUsed(s, Count(s));
    assert Cells(s)[..Count(s)] == Cells(s);
  }

  /** Rows of different slots never overlap, and never reach into the directory. */
  lemma RowsDisjoint(s: seq<Byte>, i: nat, j: nat)
    requires Layout(s) && i < j < Count(s)
    ensures FreeStart(s) <= Offset(s, j) && Offset(s, j) + Length(s, j) <= Offset(s, i)
  {
    EndBounds(s, i + 1, j);
    EndBounds(s, j + 1, Count(s));
    assert SlotOk(s, j);
  }

  // ---------------------------------------------------------------- bytes that an operation leaves alone

  /** The positions that storing the row of slot `n` in the bytes from `lo` to `hi` does not write. */
  predicate Unwritten(i: int, n: nat, lo: nat, hi: nat) {
    && 0 <= i < PAGE_SIZE
    && !(COUNT_AT <= i < COUNT_AT + 2)
    && !(END_AT <= i < END_AT + 2)
    && !(SlotAt(n) <= i < SlotAt(n + 1))
    && !(lo <= i < hi)
  }

  /** `t` differs from `s` at most where storing a row of slot `n` writes. */
  ghost predicate AppendFrame(s: seq<Byte>, t: seq<Byte>, n: nat, lo: nat)
    requires Sized(s) && Sized(t)
  {
    forall i :: Unwritten(i, n, lo, FreeEnd(s)) ==> t[i] == s[i]
  }

  lemma SlotKept(s: seq<Byte>, t: seq<Byte>, n: nat, lo: nat, i: nat)
    requires Sized(s) && Sized(t) && i < n < MAX_SLOTS && SlotAt(n + 1) <= lo && AppendFrame(s, t, n, lo)
    ensures Offset(t, i) == Offset(s, i) && Length(t, i) == Length(s, i) && Flags(t, i) == Flags(s, i)
  {
    forall j | SlotAt(i) <= j < SlotAt(i) + 5 ensures t[j] == s[j] {
      assert Unwritten(j, n, lo, FreeEnd(s));
    }
  }

  /** How the bytes change when a row and its slot are added behind the existing ones. */
  ghost predicate AppendsRow(s: seq<Byte>, t: seq<Byte>, row: seq<Byte>) {
    && Packed(s) && Sized(t) && Count(s) < MAX_SLOTS
    && SlotAt(Count(s) + 1) + |row| <= FreeEnd(s) <= PAGE_SIZE
    && AppendFrame(s, t, Count(s), FreeEnd(s) - |row|)
    && Count(t) == Count(s) + 1 && FreeEnd(t) == FreeEnd(s) - |row|
    && Offset(t, Count(s)) == FreeEnd(t) && Length(t, Count(s)) == |row| && Flags(t, Count(s)) == ALIVE
    && t[FreeEnd(t)..FreeEnd(s)] == row
  }

  lemma AppendedPacked(s: seq<Byte>, t: seq<Byte>, row: seq<Byte>)
    requires AppendsRow(s, t, row)
    ensures Packed(t)
  {
    var n, lo := Count(s), FreeEnd(s) - |row|;
    hide GetU16;
    forall i | 0 <= i < n + 1 ensures SlotOk(t, i) {
      if i < n {
        assert SlotOk(s, i);
        SlotKept(s, t, n, lo, i);
      }
      if 0 < i {
        SlotKept(s, t, n, lo, i - 1);
      }
    }
  }

  lemma CellKept(s: seq<Byte>, t: seq<Byte>, row: seq<Byte>, i: nat)
    requires AppendsRow(s, t, row) && Packed(t) && i < Count(s)
    ensures CellAt(t, i) == CellAt(s, i)
  {
    SlotKept(s, t, Count(s), FreeEnd(s) - |row|, i);
    assert SlotOk(s, i);
    EndBounds(s, i, i);
    EndBounds(s, i + 1, Count(s));
    var a, b := Offset(s, i), Offset(s, i) + Length(s, i);
    hide *;
    assert t[a..b] == s[a..b];
  }

  /** A new row and slot behind the existing ones append one live cell. */
  lemma Appended(s: seq<Byte>, t: seq<Byte>, row: seq<Byte>)
    requires AppendsRow(s, t, row)
    ensures Packed(t) && Cells(t) == Cells(s) + [Cell(row, true)]
  {
    AppendedPacked(s, t, row);
    forall i | 0 <= i < Count(s) ensures CellAt(t, i) == CellAt(s, i) {
      CellKept(s, t, row, i);
    }
  }

  lemma SlotAfterKill(s: seq<Byte>, i: nat, j: nat)
    requires Packed(s) && i < Count(s) && j < Count(s)
    ensures var t := s[SlotAt(i) + 4 := DEAD];
            Offset(t, j) == Offset(s, j) && Length(t, j) == Length(s, j) && Flags(t, j) == if j == i then DEAD else Flags(s, j)
  {
  }

  lemma CellAfterKill(s: seq<Byte>, i: nat, j: nat)
    requires Layout(s) && i < Count(s) && j < Count(s) && Packed(s[SlotAt(i) + 4 := DEAD]) && Count(s[SlotAt(i) + 4 := DEAD]) == Count(s)
    ensures CellAt(s[SlotAt(i) + 4 := DEAD], j) == if j == i then CellAt(s, i).(live := false) else CellAt(s, j)
  {
    SlotAfterKill(s, i, j);
    assert SlotOk(s, j);
    EndBounds(s, j, j);
    EndBounds(s, j + 1, Count(s));
    hide GetU16;
  }

  /** Overwriting a slot's flag only marks its row dead. */
  lemma Killed(s: seq<Byte>, i: nat)
    requires Layout(s) && i < Count(s)
    ensures var t := s[SlotAt(i) + 4 := DEAD];
            Layout(t) && Id(t) == Id(s) && Cells(t) == Cells(s)[i := Cells(s)[i].(live := false)]
  {
    var t := s[SlotAt(i) + 4 := DEAD];
    assert Count(t) == Count(s) && FreeStart(t) == FreeStart(s) && FreeEnd(t) == FreeEnd(s) && Id(t) == Id(s);
    forall j | 0 <= j < Count(s) ensures SlotOk(t, j) {
      SlotAfterKill(s, i, j);
      if j > 0 {
        SlotAfterKill(s, i, j - 1);
      }
      assert SlotOk(s, j);
    }
    if Count(s) > 0 {
      SlotAfterKill(s, i, Count(s) - 1);
    }
    forall j | 0 <= j < Count(s) ensures Cells(t)[j] == Cells(s)[i := Cells(s)[i].(live := false)][j] {
      CellAfterKill(s, i, j);
    }
  }

  // ---------------------------------------------------------------- operations on the bytes

  /** `Outside` stands for a store outside the page, after which the code promises nothing. */
  datatype InsertResult = Full | Inserted(slot: nat) | Outside
  datatype ReadResult = NotFound | TooLong | Row(row: seq<Byte>)

  /** The 16-bit sum that page_insert compares with the free space. */
  function Needed(length: nat): nat {
    (SLOT_SIZE + length) % U16_LIMIT
  }

  /** free_space. */
  function Free(s: seq<Byte>): nat
    requires Sized(s)
  {
    if FreeEnd(s) <= FreeStart(s) then 0 else FreeEnd(s) - FreeStart(s)
  }

  /** The space test of page_insert. */
  predicate Accepts(s: seq<Byte>, length: nat)
    requires Sized(s)
  {
    Free(s) >= Needed(length) && Count(s) < MAX_SLOTS
  }

  /** The space test lets in just the rows that fit if and only if its 16-bit sum does not wrap, or the
      directory is full, or the page has less free space than the sum exceeds 16 bits by. */
  lemma SpaceTestExactly(s: seq<Byte>, length: nat)
    requires Layout(s) && length < U16_LIMIT
    ensures (Accepts(s, length) <==> Fits(Cells(s), length))
       <==> length < U16_LIMIT - SLOT_SIZE || Count(s) == MAX_SLOTS || Free(s) < length - (U16_LIMIT - SLOT_SIZE)
    ensures Fits(Cells(s), length) ==> Accepts(s, length) && SlotAt(Count(s) + 1) + length <= FreeEnd(s)
  {
    FitsInFree(s, length);
    SpaceArithmetic(Free(s), Count(s), length);
    hide Layout, Cells, Packed, Used, GetU16, Fits, Needed, Free, Count, FreeEnd;
  }

  lemma SpaceArithmetic(free: nat, count: nat, length: nat)
    requires free <= PAGE_SIZE && count <= MAX_SLOTS && length < U16_LIMIT
    ensures (free >= Needed(length) && count < MAX_SLOTS <==> count < MAX_SLOTS && SLOT_SIZE + length <= free)
       <==> length < U16_LIMIT - SLOT_SIZE || count == MAX_SLOTS || free < length - (U16_LIMIT - SLOT_SIZE)
    ensures SLOT_SIZE + length <= free ==> free >= Needed(length)
  {
  }

  lemma FitsInFree(s: seq<Byte>, length: nat)
    requires Layout(s)
    ensures Sized(s) && Free(s) <= PAGE_SIZE && Count(s) <= MAX_SLOTS
    ensures Fits(Cells(s), length) <==> Count(s) < MAX_SLOTS && SLOT_SIZE + length <= Free(s)
    ensures Fits(Cells(s), length) ==> SlotAt(Count(s) + 1) + length <= FreeEnd(s)
  {
    HeaderFacts(s);
    SpaceAccount(s);
    hide Cells, Packed, Used, GetU16;
  }

  /** A blank page lets in 65535 bytes. */
  lemma BlankPageTakesTooMuch(s: seq<Byte>)
    requires Layout(s) && Cells(s) == []
    ensures Accepts(s, U16_LIMIT - 1) && !Fits(Cells(s), U16_LIMIT - 1)
  {
    SpaceAccount(s);
    assert |Cells(s)| == 0;
    hide Cells, Packed, GetU16;
  }

  /** page_alloc. */
  method Alloc(id: nat) returns (data: array<Byte>)
    requires id < U32_LIMIT
    ensures fresh(data) && data.Length == PAGE_SIZE
    ensures Layout(data[..]) && Id(data[..]) == id && Cells(data[..]) == []
  {
    data := new Byte[PAGE_SIZE](_ => 0);
    PutU32(data, ID_AT, id);
    PutU16(data, COUNT_AT, 0);
    PutU16(data, START_AT, HEADER_SIZE);
    PutU16(data, END_AT, PAGE_SIZE);
    ReadsBack(data[..], ID_AT, id % U16_LIMIT);
    ReadsBack(data[..], ID_AT + 2, id / U16_LIMIT);
    ReadsBack(data[..], COUNT_AT, 0);
    ReadsBack(data[..], START_AT, HEADER_SIZE);
    ReadsBack(data[..], END_AT, PAGE_SIZE);
  }

  /** The memcpy of a row into the page. */
  method WriteRow(data: array<Byte>, offset: nat, row: seq<Byte>)
    requires offset + |row| <= data.Length
    modifies data
    ensures forall i :: 0 <= i < |row| ==> data[offset + i] == row[i]
    ensures forall i :: 0 <= i < data.Length && !(offset <= i < offset + |row|) ==> data[i] == old(data[i])
  {
    forall i | 0 <= i < |row| {
      data[offset + i] := row[i];
    }
  }

  method WriteSlot(data: array<Byte>, n: nat, offset: nat, length: nat)
    requires data.Length == PAGE_SIZE && n < MAX_SLOTS && offset < U16_LIMIT && length < U16_LIMIT
    modifies data
    ensures HasU16(data[..], SlotAt(n), offset) && HasU16(data[..], SlotAt(n) + 2, length) && data[..][SlotAt(n) + 4] == ALIVE
    ensures forall i :: 0 <= i < PAGE_SIZE && !(SlotAt(n) <= i < SlotAt(n + 1)) ==> data[i] == old(data[i])
  {
    PutU16(data, SlotAt(n), offset);
    PutU16(data, SlotAt(n) + 2, length);
    data[SlotAt(n) + 4] := ALIVE;
  }

  method WriteCounters(data: array<Byte>, count: nat, end: nat)
    requires data.Length == PAGE_SIZE && count < U16_LIMIT && end < U16_LIMIT
    modifies data
    ensures HasU16(data[..], COUNT_AT, count) && HasU16(data[..], END_AT, end)
    ensures forall i :: 0 <= i < PAGE_SIZE && !(COUNT_AT <= i < COUNT_AT + 2) && !(END_AT <= i < END_AT + 2) ==> data[i] == old(data[i])
  {
    PutU16(data, END_AT, end);
    PutU16(data, COUNT_AT, count);
  }

  /** The byte-level facts that make a stored row the next cell. */
  lemma StoredBytes(s: seq<Byte>, t: seq<Byte>, row: seq<Byte>)
    requires Packed(s) && Sized(t) && Count(s) < MAX_SLOTS && SlotAt(Count(s) + 1) + |row| <= FreeEnd(s) <= PAGE_SIZE
    requires AppendFrame(s, t, Count(s), FreeEnd(s) - |row|)
    requires HasU16(t, COUNT_AT, Count(s) + 1) && HasU16(t, END_AT, FreeEnd(s) - |row|)
    requires HasU16(t, SlotAt(Count(s)), FreeEnd(s) - |row|)
    requires HasU16(t, SlotAt(Count(s)) + 2, |row|) && t[SlotAt(Count(s)) + 4] == ALIVE
    requires forall i :: 0 <= i < |row| ==> t[FreeEnd(s) - |row| + i] == row[i]
    ensures Packed(t) && Cells(t) == Cells(s) + [Cell(row, true)] && Count(t) == Count(s) + 1 && FreeEnd(t) == FreeEnd(s) - |row|
  {
    ReadsBack(t, COUNT_AT, Count(s) + 1);
    ReadsBack(t, END_AT, FreeEnd(s) - |row|);
    ReadsBack(t, SlotAt(Count(s)), FreeEnd(s) - |row|);
    ReadsBack(t, SlotAt(Count(s)) + 2, |row|);
    hide GetU16;
    Appended(s, t, row);
  }

  /** The memcpy, free_end, slot and slot_count writes shared by page_insert and page_compact. */
  method WriteCell(data: array<Byte>, n: nat, end: nat, row: seq<Byte>)
    requires data.Length == PAGE_SIZE && n < MAX_SLOTS && SlotAt(n + 1) + |row| <= end <= PAGE_SIZE
    modifies data
    ensures HasU16(data[..], COUNT_AT, n + 1) && HasU16(data[..], END_AT, end - |row|)
    ensures HasU16(data[..], SlotAt(n), end - |row|) && HasU16(data[..], SlotAt(n) + 2, |row|) && data[..][SlotAt(n) + 4] == ALIVE
    ensures forall i :: 0 <= i < |row| ==> data[end - |row| + i] == row[i]
    ensures forall i :: Unwritten(i, n, end - |row|, end) ==> data[i] == old(data[i])
  {
    var offset := end - |row|;
    WriteRow(data, offset, row);
    WriteSlot(data, n, offset, |row|);
    WriteCounters(data, n + 1, offset);
  }

  lemma HeaderUnwritten(n: nat, lo: nat, hi: nat)
    requires HEADER_SIZE <= lo
    ensures forall i :: 0 <= i < HEADER_SIZE && !(COUNT_AT <= i < COUNT_AT + 2) && !(END_AT <= i < END_AT + 2) ==> Unwritten(i, n, lo, hi)
  {
  }

  /** Storing a row that is known to fit appends its cell. */
  method StoreRow(data: array<Byte>, n: nat, end: nat, row: seq<Byte>)
    requires data.Length == PAGE_SIZE && Packed(data[..]) && n == Count(data[..]) < MAX_SLOTS
    requires end == FreeEnd(data[..]) && SlotAt(n + 1) + |row| <= end <= PAGE_SIZE
    modifies data
    ensures Packed(data[..]) && Cells(data[..]) == old(Cells(data[..])) + [Cell(row, true)]
    ensures Count(data[..]) == n + 1 && FreeEnd(data[..]) == end - |row|
    ensures forall i :: 0 <= i < HEADER_SIZE && !(COUNT_AT <= i < COUNT_AT + 2) && !(END_AT <= i < END_AT + 2) ==> data[i] == old(data[i])
  {
    hide Packed;
    hide GetU16;
    hide HasU16;
    hide Cells;
    ghost var before := data[..];
    WriteCell(data, n, end, row);
    StoredBytes(before, data[..], row);
    assert HEADER_SIZE <= end - |row|;
    HeaderUnwritten(n, end - |row|, end);
  }

  /** A page whose directory and rows are the same, with the same counters, holds the same cells. */
  lemma SameBody(s: seq<Byte>, t: seq<Byte>)
    requires Packed(s) && Sized(t) && Count(t) == Count(s) && FreeEnd(t) == FreeEnd(s) && SlotAt(Count(s)) <= FreeEnd(s)
    requires t[HEADER_SIZE..] == s[HEADER_SIZE..]
    ensures Packed(t) && Cells(t) == Cells(s)
  {
    forall i | 0 <= i < Count(s) ensures SlotOk(t, i) {
      BodySlot(s, t, i);
      if i > 0 {
        BodySlot(s, t, i - 1);
      }
      assert SlotOk(s, i);
    }
    if Count(s) > 0 {
      BodySlot(s, t, Count(s) - 1);
    }
    hide GetU16;
    forall i | 0 <= i < Count(s) ensures CellAt(t, i) == CellAt(s, i) {
      BodyCell(s, t, i);
    }
  }

  lemma BodySlot(s: seq<Byte>, t: seq<Byte>, i: nat)
    requires Sized(s) && Sized(t) && t[HEADER_SIZE..] == s[HEADER_SIZE..] && i < MAX_SLOTS
    ensures Offset(t, i) == Offset(s, i) && Length(t, i) == Length(s, i) && Flags(t, i) == Flags(s, i)
  {
    forall j | SlotAt(i) <= j < SlotAt(i) + 5 ensures t[j] == s[j] {
      assert t[j] == t[HEADER_SIZE..][j - HEADER_SIZE];
    }
  }

  lemma BodyCell(s: seq<Byte>, t: seq<Byte>, i: nat)
    requires Packed(s) && Packed(t) && Count(t) == Count(s) && t[HEADER_SIZE..] == s[HEADER_SIZE..] && i < Count(s)
    requires SlotAt(Count(s)) <= FreeEnd(s)
    ensures CellAt(t, i) == CellAt(s, i)
  {
    BodySlot(s, t, i);
    assert SlotOk(s, i);
    EndBounds(s, i, i);
    EndBounds(s, i + 1, Count(s));
    var a, b := Offset(s, i), Offset(s, i) + Length(s, i);
    SameStretch(s, t, HEADER_SIZE, a, b);
    hide *;
  }

  lemma SameStretch(s: seq<Byte>, t: seq<Byte>, from: nat, a: nat, b: nat)
    requires from <= a <= b <= |s| == |t| && s[from..] == t[from..]
    ensures s[a..b] == t[a..b]
  {
    forall i | a <= i < b ensures s[i] == t[i] {
      assert s[from..][i - from] == s[i] && t[from..][i - from] == t[i];
    }
  }

  /** free_space and the test of page_insert. */
  method HasRoom(data: array<Byte>, length: nat) returns (room: bool, n: nat, end: nat)
    requires data.Length == PAGE_SIZE && Layout(data[..]) && length < U16_LIMIT
    ensures room <==> Accepts(data[..], length)
    ensures n == |Cells(data[..])| == Count(data[..]) && end == FreeEnd(data[..]) <= PAGE_SIZE
  {
    HeaderFacts(data[..]);
    n, end := GetU16(data[..], COUNT_AT), GetU16(data[..], END_AT);
    var start := GetU16(data[..], START_AT);
    var free := if end <= start then 0 else end - start;
    room := free >= Needed(length) && n < MAX_SLOTS;
    hide *;
  }

  lemma HeaderFacts(s: seq<Byte>)
    requires Layout(s)
    ensures GetU16(s, COUNT_AT) == |Cells(s)| == Count(s) && GetU16(s, END_AT) == FreeEnd(s) <= PAGE_SIZE && GetU16(s, START_AT) == FreeStart(s)
  {
    SpaceAccount(s);
    assert Sized(s) && |Cells(s)| == Count(s);
    hide Cells, Packed, Used;
  }

  lemma Wrapped(end: nat, length: nat)
    requires end <= PAGE_SIZE && length < U16_LIMIT
    ensures (end + U16_LIMIT - length) % U16_LIMIT + length == if length <= end then end else end + U16_LIMIT
  {
  }

  /** page_insert.  The offset of the row is computed in 16 bits. */
  method Insert(data: array<Byte>, row: seq<Byte>) returns (r: InsertResult)
    requires data.Length == PAGE_SIZE && Layout(data[..]) && |row| < U16_LIMIT
    modifies data
    ensures Layout(data[..]) && Id(data[..]) == old(Id(data[..]))
    ensures if Fits(old(Cells(data[..])), |row|)
            then r == Inserted(|old(Cells(data[..]))|) && Cells(data[..]) == old(Cells(data[..])) + [Cell(row, true)]
            else r == (if old(Accepts(data[..], |row|)) then Outside else Full) && data[..] == old(data[..])
    ensures |row| < U16_LIMIT - SLOT_SIZE ==> r != Outside
  {
    SpaceTestExactly(data[..], |row|);
    var room, n, end := HasRoom(data, |row|);
    if !room {
      return Full;
    }
    var offset := (end + U16_LIMIT - |row|) % U16_LIMIT;
    Wrapped(end, |row|);
    if offset + |row| > PAGE_SIZE {
      return Outside;
    }
    StoreRow(data, n, end, row);
    ghost var stored := data[..];
    PutU16(data, START_AT, SlotAt(n + 1));
    r := Inserted(n);
    HeaderAfterInsert(old(data[..]), stored, data[..], n + 1);
    hide *;
  }

  lemma HeaderAfterInsert(s: seq<Byte>, m: seq<Byte>, t: seq<Byte>, n: nat)
    requires Sized(s) && Packed(m) && Sized(t) && Count(m) == n <= MAX_SLOTS && SlotAt(n) <= FreeEnd(m)
    requires forall i :: 0 <= i < COUNT_AT ==> m[i] == s[i]
    requires HasU16(t, START_AT, SlotAt(n)) && forall i :: 0 <= i < PAGE_SIZE && !(START_AT <= i < START_AT + 2) ==> t[i] == m[i]
    ensures Layout(t) && Id(t) == Id(s) && Cells(t) == Cells(m)
  {
    ReadsBack(t, START_AT, SlotAt(n));
    assert Count(t) == Count(m) && FreeEnd(t) == FreeEnd(m) && Id(t) == Id(s);
    assert t[HEADER_SIZE..] == m[HEADER_SIZE..];
    SameBody(m, t);
  }

  /** page_read. */
  method Read(data: array<Byte>, slot: nat, bufSize: nat) returns (r: ReadResult)
    requires data.Length == PAGE_SIZE && Layout(data[..])
    ensures var cs := Cells(data[..]);
            r == if slot >= |cs| || !cs[slot].live then NotFound
                 else if |cs[slot].row| > bufSize then TooLong else Row(cs[slot].row)
  {
    var n := GetU16(data[..], COUNT_AT);
    if slot >= n {
      return NotFound;
    }
    assert SlotOk(data[..], slot);
    if data[SlotAt(slot) + 4] != ALIVE {
      return NotFound;
    }
    var offset, length := GetU16(data[..], SlotAt(slot)), GetU16(data[..], SlotAt(slot) + 2);
    EndBounds(data[..], slot, slot);
    assert CellAt(data[..], slot).row == data[offset..offset + length];
    if length > bufSize {
      return TooLong;
    }
    return Row(data[offset..offset + length]);
  }

  /** page_delete. */
  method Delete(data: array<Byte>, slot: nat) returns (found: bool)
    requires data.Length == PAGE_SIZE && Layout(data[..])
    modifies data
    ensures Layout(data[..]) && Id(data[..]) == old(Id(data[..]))
    ensures var cs := old(Cells(data[..]));
            && (found <==> slot < |cs| && cs[slot].live)
            && Cells(data[..]) == if found then cs[slot := cs[slot].(live := false)] else cs
  {
    ghost var before := data[..];
    var n := GetU16(data[..], COUNT_AT);
    if slot >= n {
      return false;
    }
    assert SlotOk(data[..], slot);
    if data[SlotAt(slot) + 4] != ALIVE {
      return false;
    }
    data[SlotAt(slot) + 4] := DEAD;
    found := true;
    assert data[..] == before[SlotAt(slot) + 4 := DEAD];
    Killed(before, slot);
  }

  // ---------------------------------------------------------------- compaction

  lemma {:induction false} UsedLive(cs: seq<Cell>)
    ensures Used(Live(cs)) <= Used(cs) && |Live(cs)| <= |cs|
  {
    if |cs| > 0 {
      var init, last := cs[..|cs| - 1], cs[|cs| - 1];
      UsedLive(init);
      if last.live {
        assert Live(cs)[..|Live(cs)| - 1] == Live(init);
      } else {
        assert Live(cs) == Live(init);
      }
    }
  }

  lemma {:induction false} UsedPrefix(cs: seq<Cell>, i: nat)
    requires i <= |cs|
    ensures Used(cs[..i]) <= Used(cs)
  {
    if i == |cs| {
      assert cs[..i] == cs;
    } else {
      UsedPrefix(cs[..|cs| - 1], i);
      assert cs[..|cs| - 1][..i] == cs[..i];
    }
  }

  /** The next live row fits behind the live rows already copied. */
  lemma RoomToCompact(cs: seq<Cell>, i: nat)
    requires i < |cs| <= MAX_SLOTS && cs[i].live && SlotAt(|cs|) + Used(cs) <= PAGE_SIZE
    ensures SlotAt(|Live(cs[..i])| + 1) + Used(Live(cs[..i])) + |cs[i].row| <= PAGE_SIZE && |Live(cs[..i])| < MAX_SLOTS
    ensures Live(cs[..i + 1]) == Live(cs[..i]) + [cs[i]]
  {
    UsedLive(cs[..i]);
    UsedPrefix(cs, i + 1);
    assert cs[..i + 1][..i] == cs[..i];
  }

  /** The scratch page of page_compact: the header of the old page with the counters reset. */
  method StartCompact(data: array<Byte>) returns (tmp: array<Byte>)
    requires data.Length == PAGE_SIZE
    ensures fresh(tmp) && tmp.Length == PAGE_SIZE
    ensures Packed(tmp[..]) && Cells(tmp[..]) == [] && Count(tmp[..]) == 0 && FreeEnd(tmp[..]) == PAGE_SIZE
    ensures forall i :: 0 <= i < COUNT_AT ==> tmp[i] == data[i]
  {
    tmp := new Byte[PAGE_SIZE](_ => 0);
    forall i | 0 <= i < HEADER_SIZE {
      tmp[i] := data[i];
    }
    PutU16(tmp, COUNT_AT, 0);
    PutU16(tmp, START_AT, HEADER_SIZE);
    PutU16(tmp, END_AT, PAGE_SIZE);
    ReadsBack(tmp[..], COUNT_AT, 0);
    ReadsBack(tmp[..], END_AT, PAGE_SIZE);
  }

  /** While a page is compacted there is always room for the next live row. */
  lemma CompactRoom(s: seq<Byte>, t: seq<Byte>, i: nat)
    requires Layout(s) && Packed(t) && i < |Cells(s)| && Cells(t) == Live(Cells(s)[..i]) && Cells(s)[i].live
    ensures SlotAt(Count(t) + 1) + |Cells(s)[i].row| <= FreeEnd(t) <= PAGE_SIZE && Count(t) < MAX_SLOTS
  {
    SpaceAccount(s);
    RoomToCompact(Cells(s), i);
    EndIsUsed(t, Count(t));
    assert Cells(t)[..Count(t)] == Cells(t);
    hide GetU16, Live;
  }

  lemma CompactFacts(s: seq<Byte>, t: seq<Byte>, i: nat)
    requires Layout(s) && Packed(t) && i < |Cells(s)| && Cells(t) == Live(Cells(s)[..i])
    ensures var cell := Cells(s)[i];
            && |cell.row| <= PAGE_SIZE
            && Live(Cells(s)[..i + 1]) == Cells(t) + (if cell.live then [cell] else [])
            && Count(t) == GetU16(t, COUNT_AT) && FreeEnd(t) == GetU16(t, END_AT)
            && (cell.live ==> SlotAt(Count(t) + 1) + |cell.row| <= FreeEnd(t) <= PAGE_SIZE && Count(t) < MAX_SLOTS)
  {
    assert Count(t) == GetU16(t, COUNT_AT) && FreeEnd(t) == GetU16(t, END_AT);
    hide GetU16;
    var cs := Cells(s);
    assert cs[..i + 1][..i] == cs[..i];
    RowSize(s, i);
    if cs[i].live {
      CompactRoom(s, t, i);
    }
  }

  /** The body of page_compact's loop. */
  method CompactSlot(data: array<Byte>, tmp: array<Byte>, i: nat)
    requires data.Length == tmp.Length == PAGE_SIZE && data != tmp && Layout(data[..]) && i < |Cells(data[..])|
    requires Packed(tmp[..]) && Cells(tmp[..]) == Live(Cells(data[..])[..i])
    modifies tmp
    ensures Packed(tmp[..]) && Cells(tmp[..]) == Live(Cells(data[..])[..i + 1])
    ensures forall j :: 0 <= j < COUNT_AT ==> tmp[j] == old(tmp[j])
  {
    var cell := Read(data, i, PAGE_SIZE);
    var n, end := GetU16(tmp[..], COUNT_AT), GetU16(tmp[..], END_AT);
    CompactFacts(data[..], tmp[..], i);
    hide *;
    if cell.Row? {
      StoreRow(tmp, n, end, cell.row);
    }
  }

  lemma RowSize(s: seq<Byte>, i: nat)
    requires Packed(s) && i < Count(s)
    ensures |Cells(s)[i].row| <= PAGE_SIZE
  {
    assert SlotOk(s, i);
    EndBounds(s, i, i);
  }

  /** page_compact. */
  method Compact(data: array<Byte>)
    requires data.Length == PAGE_SIZE && Layout(data[..])
    modifies data
    ensures Compacted(old(data[..]), data[..]) && Id(data[..]) == old(Id(data[..]))
  {
    ghost var before := data[..];
    var n := GetU16(data[..], COUNT_AT);
    var tmp := StartCompact(data);
    for i := 0 to n
      invariant data[..] == before && fresh(tmp) && tmp.Length == PAGE_SIZE
      invariant Packed(tmp[..]) && Cells(tmp[..]) == Live(Cells(before)[..i])
      invariant forall j :: 0 <= j < COUNT_AT ==> tmp[j] == before[j]
    {
      CompactSlot(data, tmp, i);
    }
    assert Cells(before)[..n] == Cells(before);
    ghost var packed := tmp[..];
    PutU16(tmp, START_AT, SlotAt(GetU16(tmp[..], COUNT_AT)));
    forall i | 0 <= i < PAGE_SIZE {
      data[i] := tmp[i];
    }
    assert data[..] == tmp[..];
    LiveFits(before, packed);
    HeaderAfterInsert(before, packed, data[..], Count(packed));
  }

  lemma LiveFits(s: seq<Byte>, t: seq<Byte>)
    requires Layout(s) && Packed(t) && Cells(t) == Live(Cells(s))
    ensures SlotAt(Count(t)) <= FreeEnd(t)
  {
    SpaceAccount(s);
    UsedLive(Cells(s));
    EndIsUsed(t, Count(t));
    assert Cells(t)[..Count(t)] == Cells(t);
  }

  // ---------------------------------------------------------------- what compaction means

  /** The slot a live row moves to. */
  function Renumber(cs: seq<Cell>, i: nat): nat
    requires i <= |cs|
  {
    |Live(cs[..i])|
  }

  /** Bytes that dead rows and their slots take up. */
  function DeadSpace(cs: seq<Cell>): nat {
    if |cs| == 0 then 0
    else
      var last := cs[|cs| - 1];
      DeadSpace(cs[..|cs| - 1]) + if last.live then 0 else SLOT_SIZE + |last.row|
  }

  lemma {:induction false} LivePrefix(cs: seq<Cell>, i: nat)
    requires i <= |cs|
    ensures |Live(cs[..i])| <= |Live(cs)| && Live(cs)[..|Live(cs[..i])|] == Live(cs[..i])
  {
    if i == |cs| {
      assert cs[..i] == cs;
    } else {
      LivePrefix(cs[..|cs| - 1], i);
      assert cs[..|cs| - 1][..i] == cs[..i];
    }
  }

  /** Compaction keeps every live row, and the renumbering preserves order. */
  lemma LiveRenumbered(cs: seq<Cell>, i: nat, j: nat)
    requires i < j <= |cs| && cs[i].live
    ensures Renumber(cs, i) < |Live(cs)| && Live(cs)[Renumber(cs, i)] == cs[i]
    ensures Renumber(cs, i) < Renumber(cs, j)
  {
    assert cs[..i + 1][..i] == cs[..i];
    LivePrefix(cs, i + 1);
    LivePrefix(cs[..j], i + 1);
    assert cs[..j][..i + 1] == cs[..i + 1];
    assert Live(cs[..i + 1])[|Live(cs[..i])|] == cs[i];
  }

  /** Compaction leaves nothing but live rows. */
  lemma {:induction false} OnlyLive(cs: seq<Cell>, k: nat)
    requires k < |Live(cs)|
    ensures exists i :: 0 <= i < |cs| && cs[i].live && Renumber(cs, i) == k && cs[i] == Live(cs)[k]
  {
    var init := cs[..|cs| - 1];
    if k < |Live(init)| {
      OnlyLive(init, k);
      var i :| 0 <= i < |init| && init[i].live && Renumber(init, i) == k && init[i] == Live(init)[k];
      assert cs[..i] == init[..i];
      assert cs[i].live && Renumber(cs, i) == k && cs[i] == Live(cs)[k];
    } else {
      var last := |cs| - 1;
      assert cs[last].live && Renumber(cs, last) == k && cs[last] == Live(cs)[k];
    }
  }

  /** Compaction reclaims exactly the space of dead slots and rows. */
  lemma {:induction false} SpaceReclaimed(cs: seq<Cell>)
    ensures Used(cs) + SLOT_SIZE * |cs| == Used(Live(cs)) + SLOT_SIZE * |Live(cs)| + DeadSpace(cs)
  {
    if |cs| > 0 {
      var init, last := cs[..|cs| - 1], cs[|cs| - 1];
      SpaceReclaimed(init);
      if last.live {
        assert Live(cs)[..|Live(cs)| - 1] == Live(init);
      } else {
        assert Live(cs) == Live(init);
      }
    }
  }

  lemma {:induction false} LiveIdempotent(cs: seq<Cell>)
    ensures Live(Live(cs)) == Live(cs)
  {
    if |cs| > 0 {
      var init, last := cs[..|cs| - 1], cs[|cs| - 1];
      LiveIdempotent(init);
      if last.live {
        assert Live(cs)[..|Live(cs)| - 1] == Live(init);
      } else {
        assert Live(cs) == Live(init);
      }
    }
  }

  /** The cells determine the directory. */
  lemma {:induction false} CellsDetermineSlots(s: seq<Byte>, t: seq<Byte>, i: nat)
    requires Packed(s) && Packed(t) && Cells(s) == Cells(t) && i < Count(s)
    ensures Offset(s, i) == Offset(t, i) && Length(s, i) == Length(t, i) && Flags(s, i) == Flags(t, i)
  {
    EndIsUsed(s, i);
    EndIsUsed(t, i);
    assert SlotOk(s, i) && SlotOk(t, i);
    assert Cells(s)[i] == CellAt(s, i) && Cells(t)[i] == CellAt(t, i);
    assert |CellAt(s, i).row| == Length(s, i) && |CellAt(t, i).row| == Length(t, i) by {
      EndBounds(s, i, i);
      EndBounds(t, i, i);
    }
  }

  /** What page_compact makes of a page. */
  ghost predicate Compacted(s: seq<Byte>, t: seq<Byte>) {
    Layout(s) && Layout(t) && Cells(t) == Live(Cells(s))
  }

  /** Compacting a compacted page changes neither counters nor slots nor rows. */
  lemma CompactIdempotent(s: seq<Byte>, t: seq<Byte>, u: seq<Byte>)
    requires Compacted(s, t) && Compacted(t, u)
    ensures Count(u) == Count(t) && FreeStart(u) == FreeStart(t) && FreeEnd(u) == FreeEnd(t) && Cells(u) == Cells(t)
    ensures forall i :: 0 <= i < Count(t) ==> Offset(u, i) == Offset(t, i) && Length(u, i) == Length(t, i) && Flags(u, i) == Flags(t, i)
  {
    LiveIdempotent(Cells(s));
    SpaceAccount(t);
    SpaceAccount(u);
    forall i | 0 <= i < Count(t)
      ensures Offset(u, i) == Offset(t, i) && Length(u, i) == Length(t, i) && Flags(u, i) == Flags(t, i)
    {
      CellsDetermineSlots(u, t, i);
    }
  }

  /** The space test of page_insert after compaction depends on the live rows alone. */
  lemma FitsAfterCompact(cs: seq<Cell>, n: nat)
    ensures Fits(Live(cs), n)
       <==> |Live(cs)| < MAX_SLOTS && SlotAt(|cs| + 1) + Used(cs) + n <= PAGE_SIZE + DeadSpace(cs)
  {
    SpaceReclaimed(cs);
  }
}
