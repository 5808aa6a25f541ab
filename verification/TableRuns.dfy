/** Whole runs of changes to a table. */
module TableRuns {
  import opened Bytes
  import opened Page
  import opened BTree
  import opened Heap
  import opened TableLayer

  datatype Change =
    | AddRow(row: Row)
    | RemoveRows(p: Row -> bool)
    | RewriteRows(p: Row -> bool, f: Row -> Row)

  /** The heap after one change. */
  function Applied(h: Heap, c: Change): Heap {
    match c
    case AddRow(row) => InsertRow(h, row)
    case RemoveRows(p) => DeleteMatching(h, p, |h|)
    case RewriteRows(p, f) => UpdateMatching(h, p, f, |h|)
  }

  function AllApplied(h: Heap, cs: seq<Change>): Heap {
    if |cs| == 0 then h else Applied(AllApplied(h, cs[..|cs| - 1]), cs[|cs| - 1])
  }

  /** A new row fits an empty page, and all new versions of rows fit their pages. */
  predicate Fitting(h: Heap, c: Change) {
    match c
    case AddRow(row) => Fits([], |row|)
    case RemoveRows(_) => true
    case RewriteRows(p, f) => EveryPageFits(h, p, f)
  }

  /** No key of the change is in use when it is entered. */
  ghost predicate Unused(h: Heap, c: Change, keyOf: Row -> int) {
    match c
    case AddRow(row) => forall l :: LiveAt(h, l) ==> keyOf(RowAt(h, l)) != keyOf(row)
    case RemoveRows(_) => true
    case RewriteRows(p, f) => forall m :: Agrees(m, h, keyOf) ==> KeysFree(m.Keys, Scan(h, p, |h|), keyOf, f)
  }

  ghost predicate AllFitting(h: Heap, cs: seq<Change>) {
    forall n :: 0 <= n < |cs| ==> Fitting(AllApplied(h, cs[..n]), cs[n])
  }

  ghost predicate AllUnused(h: Heap, cs: seq<Change>, keyOf: Row -> int) {
    forall n :: 0 <= n < |cs| ==> Unused(AllApplied(h, cs[..n]), cs[n], keyOf)
  }

  /** One change. */
  method Apply(t: Table, c: Change)
    requires t.Valid() && Fitting(t.rows, c) && |t.rows| + 1 < U32_LIMIT
    modifies t.Repr()
    ensures t.Valid() && fresh(t.Repr() - old(t.Repr()))
    ensures t.rows == Applied(old(t.rows), c) && |t.rows| <= |old(t.rows)| + 1
    ensures old(t.Consistent()) && Unused(old(t.rows), c, t.keyOf) ==> t.Consistent()
  {
    hide *;
    t.ValidFacts();
    ChangeFacts(t.rows, c);
    if t.Consistent() && Unused(t.rows, c, t.keyOf) {
      UnusedFacts(t.keys, t.rows, c, t.keyOf);
    }
    match c {
      case AddRow(row) => t.InsertRaw(row);
      case RemoveRows(p) => var n := t.Delete(p);
      case RewriteRows(p, f) => t.Update(p, f);
    }
  }

  lemma ChangeFacts(h: Heap, c: Change)
    ensures c.AddRow? ==> Applied(h, c) == InsertRow(h, c.row) && (Fitting(h, c) ==> Fits([], |c.row|))
    ensures c.RemoveRows? ==> Applied(h, c) == DeleteMatching(h, c.p, |h|)
    ensures c.RewriteRows? ==> Applied(h, c) == UpdateMatching(h, c.p, c.f, |h|) && (Fitting(h, c) ==> EveryPageFits(h, c.p, c.f))
    ensures |Applied(h, c)| <= |h| + 1
  {
  }

  lemma UnusedFacts(m: map<int, Loc>, h: Heap, c: Change, keyOf: Row -> int)
    requires Agrees(m, h, keyOf) && Unused(h, c, keyOf)
    ensures c.AddRow? ==> keyOf(c.row) !in m
    ensures c.RewriteRows? ==> KeysFree(m.Keys, Scan(h, c.p, |h|), keyOf, c.f)
  {
  }

  /** Along every run of insertions, deletions and updates that fit and use fresh keys, the index
      agrees with the rows; and in every run that fits the rows are those of the changes alone. */
  method ApplyAll(t: Table, cs: seq<Change>)
    requires t.Valid() && AllFitting(t.rows, cs) && |t.rows| + |cs| < U32_LIMIT
    modifies t.Repr()
    ensures t.Valid() && fresh(t.Repr() - old(t.Repr()))
    ensures t.rows == AllApplied(old(t.rows), cs)
    ensures old(t.Consistent()) && AllUnused(old(t.rows), cs, t.keyOf) ==> t.Consistent()
  {
    hide *;
    ghost var h, own := t.rows, t.Repr();
    NoChanges(h, cs);
    var n := 0;
    while n < |cs|
      invariant n <= |cs| && t.Valid() && t.rows == AllApplied(h, cs[..n]) && |t.rows| <= |h| + n
      invariant forall o :: o in t.Repr() && o !in own ==> !old(allocated(o))
      invariant old(t.Consistent()) && AllUnused(h, cs, t.keyOf) ==> t.Consistent()
    {
      NextChange(h, cs, n, t.keyOf);
      ghost var before := t.Repr();
      Apply(t, cs[n]);
      assert forall o :: o in t.Repr() && o !in before ==> !old(allocated(o));
      n := n + 1;
    }
    assert cs[..n] == cs;
  }

  lemma NoChanges(h: Heap, cs: seq<Change>)
    ensures AllApplied(h, cs[..0]) == h
  {
  }

  lemma NextChange(h: Heap, cs: seq<Change>, n: nat, keyOf: Row -> int)
    requires n < |cs| && AllFitting(h, cs)
    ensures Fitting(AllApplied(h, cs[..n]), cs[n])
    ensures AllApplied(h, cs[..n + 1]) == Applied(AllApplied(h, cs[..n]), cs[n])
    ensures AllUnused(h, cs, keyOf) ==> Unused(AllApplied(h, cs[..n]), cs[n], keyOf)
  {
    assert cs[..n + 1][..n] == cs[..n];
  }

  // ---------------------------------------------------------------- how often a row can be updated

  /** `m` versions of `length` bytes fit the directory and the page. */
  predicate Room(m: nat, length: nat) {
    m <= MAX_SLOTS && SlotAt(m) + m * length <= PAGE_SIZE
  }

  /** A row and the `k` dead versions before it. */
  predicate Aged(cs: seq<Cell>, k: nat, length: nat) {
    && |cs| == k + 1 && cs[k].live
    && (forall i :: 0 <= i < k ==> !cs[i].live)
    && forall i :: 0 <= i <= k ==> |cs[i].row| == length
  }

  /** All rows of that length match and keep their length. */
  ghost predicate KeepsLength(p: Row -> bool, f: Row -> Row, length: nat) {
    forall row :: |row| == length ==> p(row) && |f(row)| == length
  }

  lemma {:induction false} UsedEvenly(cs: seq<Cell>, length: nat)
    requires forall i :: 0 <= i < |cs| ==> |cs[i].row| == length
    ensures Used(cs) == |cs| * length
  {
    if |cs| > 0 {
      UsedEvenly(cs[..|cs| - 1], length);
      assert |cs| * length == (|cs| - 1) * length + length;
    }
  }

  lemma {:induction false} NothingToRewrite(cs: seq<Cell>, p: Row -> bool, f: Row -> Row, n: nat)
    requires n <= |cs| && forall i :: 0 <= i < n ==> !cs[i].live
    ensures Rewrites(cs, p, f, n) == []
  {
    if n > 0 {
      NothingToRewrite(cs, p, f, n - 1);
    }
  }

  lemma OneRewrite(cs: seq<Cell>, k: nat, length: nat, p: Row -> bool, f: Row -> Row)
    requires Aged(cs, k, length) && KeepsLength(p, f, length)
    ensures |f(cs[k].row)| == length && Rewrites(cs, p, f, |cs|) == [Cell(f(cs[k].row), true)]
  {
    NothingToRewrite(cs, p, f, k);
    assert |cs[k].row| == length && cs[..k + 1] == cs;
    assert Rewrites(cs, p, f, k + 1) == Rewrites(cs, p, f, k) + [Cell(f(cs[k].row), true)];
  }

  lemma OneFits(cs: seq<Cell>, k: nat, length: nat, p: Row -> bool, f: Row -> Row, version: Cell)
    requires Aged(cs, k, length) && |version.row| == length && Rewrites(cs, p, f, |cs|) == [version]
    ensures AllFit(cs, p, f) <==> Room(k + 2, length)
  {
    UsedEvenly(cs + [version], length);
    hide Used, Rewrites;
  }

  lemma OneMore(cs: seq<Cell>, k: nat, length: nat, p: Row -> bool, version: Cell)
    requires Aged(cs, k, length) && |version.row| == length && version.live && p(cs[k].row)
    ensures Aged(KillMatching(cs, p, |cs|) + [version], k + 1, length)
  {
    hide KillMatching;
  }

  /** One more update of the only row. */
  lemma Ageing(cs: seq<Cell>, k: nat, length: nat, p: Row -> bool, f: Row -> Row)
    requires Aged(cs, k, length) && KeepsLength(p, f, length)
    ensures AllFit(cs, p, f) <==> Room(k + 2, length)
    ensures AllFit(cs, p, f) ==> Aged(UpdateUpTo(cs, p, f, |cs|), k + 1, length)
  {
    assert p(cs[k].row);
    hide UpdateUpTo, Rewrites, AllFit, Room, KillMatching;
    var version := Cell(f(cs[k].row), true);
    OneRewrite(cs, k, length, p, f);
    OneFits(cs, k, length, p, f, version);
    OneMore(cs, k, length, p, version);
    UpdateIsExact(cs, p, f);
  }

  lemma RoomShrinks(m: nat, n: nat, length: nat)
    requires m <= n && Room(n, length)
    ensures Room(m, length)
  {
    assert n * length == m * length + (n - m) * length;
  }

  function Updates(p: Row -> bool, f: Row -> Row, n: nat): seq<Change> {
    seq(n, _ => RewriteRows(p, f))
  }

  lemma {:induction false} AgedAfter(cs: seq<Cell>, length: nat, p: Row -> bool, f: Row -> Row, n: nat, i: nat)
    requires Aged(cs, 0, length) && KeepsLength(p, f, length) && i <= n && Room(i + 1, length)
    ensures var h := AllApplied([cs], Updates(p, f, n)[..i]);
            |h| == 1 && Aged(h[0], i, length) && (Fitting(h, RewriteRows(p, f)) <==> Room(i + 2, length))
    decreases i
  {
    var changes := Updates(p, f, n);
    if i > 0 {
      RoomShrinks(i, i + 1, length);
      AgedAfter(cs, length, p, f, n, i - 1);
      var h := AllApplied([cs], changes[..i - 1]);
      assert changes[..i][..i - 1] == changes[..i - 1];
      hide AllApplied;
      Ageing(h[0], i - 1, length, p, f);
      OnePage(h, p, f);
      Ageing(UpdateMatching(h, p, f, 1)[0], i, length, p, f);
      OnePage(UpdateMatching(h, p, f, 1), p, f);
    } else {
      Ageing(cs, 0, length, p, f);
      OnePage([cs], p, f);
    }
  }

  lemma OnePage(h: Heap, p: Row -> bool, f: Row -> Row)
    requires |h| == 1
    ensures Fitting(h, RewriteRows(p, f)) <==> AllFit(h[0], p, f)
    ensures |UpdateMatching(h, p, f, 1)| == 1 && UpdateMatching(h, p, f, 1)[0] == UpdateUpTo(h[0], p, f, |h[0]|)
  {
    assert UpdateMatching(h, p, f, 0) == h;
  }

  /** A row that is alone in its page and keeps its length can be updated `n` times, each new version
      finding room, if and only if `n + 1` versions fit the directory and the page: no update gives
      anything back. */
  lemma UpdatesUntilFull(row: Row, p: Row -> bool, f: Row -> Row, n: nat)
    requires KeepsLength(p, f, |row|) && Room(1, |row|)
    ensures AllFitting([[Cell(row, true)]], Updates(p, f, n)) <==> Room(n + 1, |row|)
  {
    hide AllApplied, Fitting, Aged, Room, KeepsLength;
    var cs, changes := [Cell(row, true)], Updates(p, f, n);
    assert Aged(cs, 0, |row|) by { FreshRow(row); }
    var i := 0;
    while i < n && Room(i + 2, |row|)
      invariant i <= n && Room(i + 1, |row|)
      invariant forall j :: 0 <= j < i ==> Fitting(AllApplied([cs], changes[..j]), changes[j])
    {
      AgedAfter(cs, |row|, p, f, n, i);
      i := i + 1;
    }
    if i < n {
      AgedAfter(cs, |row|, p, f, n, i);
      assert !Fitting(AllApplied([cs], changes[..i]), changes[i]);
      if Room(n + 1, |row|) {
        RoomShrinks(i + 2, n + 1, |row|);
      }
    }
  }

  lemma FreshRow(row: Row)
    ensures Aged([Cell(row, true)], 0, |row|)
  {
  }
}
