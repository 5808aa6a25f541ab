/** The table layer: a heap of rows behind the buffer pool, a B+ tree over one of its columns, and
    the operations that must keep the two in agreement. */
module TableLayer {
  import opened Bytes
  import opened Page
  import opened Buffer
  import opened Heap
  import opened TablePages
  import Disk
  import opened BTree
  import LinkedIndex

  type Index = LinkedIndex.Index

  // ---------------------------------------------------------------- the index, from outside

  /** The nodes of the index form a tree, whatever its keys. */
  ghost predicate Shaped(index: Index)
    reads index.Repr()
  {
    forall b :: Look(b) ==> index.Valid()
  }

  /** The index can be searched and stores the map `m`. */
  ghost predicate Stores(index: Index, m: map<int, Loc>)
    reads index.Repr()
  {
    forall b :: Look(b) ==> index.Valid() && index.Searchable() && index.Contents() == m
  }

  /** INDEX_insert. */
  method Enter(index: Index, ghost m: map<int, Loc>, key: int, loc: Loc)
    requires Shaped(index)
    modifies index.Repr()
    ensures Shaped(index) && fresh(index.Repr() - old(index.Repr()))
    ensures old(Stores(index, m)) && key !in m ==> Stores(index, m[key := loc])
  {
    assert Look(true);
    index.Insert(key, loc);
  }

  /** INDEX_delete. */
  method Remove(index: Index, ghost m: map<int, Loc>, key: int)
    requires Shaped(index)
    modifies index.Repr()
    ensures Shaped(index) && index.Repr() == old(index.Repr())
    ensures old(Stores(index, m)) ==> Stores(index, m - {key})
  {
    assert Look(true);
    var found := index.Delete(key);
  }

  /** INDEX_search. */
  method Lookup(index: Index, ghost m: map<int, Loc>, key: int) returns (r: LinkedIndex.SearchResult)
    requires Stores(index, m)
    ensures r == if key in m then LinkedIndex.Found(m[key]) else LinkedIndex.NotFound
  {
    assert Look(true);
    assert index.Searchable() && index.Contents() == m && allocated(index.Repr());
    r := index.Search(key);
    assert index.Searchable() && index.Contents() == m;
  }

  /** INDEX_create. */
  method NewIndex() returns (index: Index)
    ensures Shaped(index) && Stores(index, map[]) && fresh(index.Repr())
  {
    index := new LinkedIndex.Index();
  }

  // ---------------------------------------------------------------- tables

  class Table {
    const pool: BufferPool
    const index: Index
    const keyOf: Row -> int
    var pageCount: nat
    ghost var rows: Heap
    ghost var keys: map<int, Loc>

    ghost function Repr(): set<object>
      reads this, pool, pool.frames, index
    {
      {this} + pool.Repr() + index.Repr()
    }

    /** Pool and index share no object. */
    ghost predicate Apart()
      reads this, pool, pool.frames, index
    {
      && pool.Repr() !! index.Repr() && this !in pool.Repr() && this !in index.Repr()
      && pool in pool.Repr() && index in index.Repr() && forall f :: f in pool.frames ==> f in pool.Repr()
    }

    ghost predicate Valid()
      reads this, pool.frames, pool.Repr(), index.Repr()
    {
      Apart() && Shows(pool, rows) && Shaped(index) && pageCount == |rows|
    }

    /** Searching the index finds location `L` for key `k` exactly when the live row at `L` has key
        `k`. */
    ghost predicate Consistent()
      reads this, index.Repr()
    {
      Stores(index, keys) && Agrees(keys, rows, keyOf)
    }

    lemma ValidFacts()
      requires Valid()
      ensures Repr() == {this} + pool.Repr() + index.Repr()
      ensures pool.Repr() !! index.Repr() && this !in pool.Repr() && this !in index.Repr()
      ensures pool in pool.Repr() && index in index.Repr() && forall f :: f in pool.frames ==> f in pool.Repr()
      ensures Shows(pool, rows) && Shaped(index) && pageCount == |rows|
      ensures Consistent() <==> Stores(index, keys) && Agrees(keys, rows, keyOf)
    {
    }

    lemma ValidIntro()
      requires pool.Repr() !! index.Repr() && this !in pool.Repr() && this !in index.Repr()
      requires pool in pool.Repr() && index in index.Repr() && forall f :: f in pool.frames ==> f in pool.Repr()
      requires Shows(pool, rows) && Shaped(index) && pageCount == |rows|
      ensures Valid() && Repr() == {this} + pool.Repr() + index.Repr()
      ensures Consistent() <==> Stores(index, keys) && Agrees(keys, rows, keyOf)
    {
    }

    /** A table over a pool and an index that is still empty. */
    constructor (pool: BufferPool, index: Index, keyOf: Row -> int, pageCount: nat, ghost h: Heap)
      requires pageCount == |h| && Shows(pool, h) && Shaped(index) && Stores(index, map[]) && pool.Repr() !! index.Repr()
      ensures Valid() && this.pool == pool && this.index == index && this.keyOf == keyOf
      ensures rows == h && keys == map[] && Stores(index, map[])
    {
      OwnFacts(pool, index);
      assert allocated(pool.Repr()) && allocated(index.Repr());
      hide *;
      this.pool, this.index, this.keyOf := pool, index, keyOf;
      this.pageCount := pageCount;
      rows, keys := h, map[];
      new;
      ValidIntro();
    }

    /** table_insert_raw. */
    method InsertRaw(row: Row)
      requires Valid() && Fits([], |row|) && pageCount + 1 < U32_LIMIT
      modifies Repr()
      ensures Valid() && fresh(Repr() - old(Repr()))
      ensures rows == InsertRow(old(rows), row)
      ensures old(Consistent()) && keyOf(row) !in old(keys) ==>
                Consistent() && keys == old(keys)[keyOf(row) := Place(old(rows), row)]
    {
      hide *;
      ValidFacts();
      ghost var consistent, h, m, own := Consistent(), rows, keys, Repr();
      assert allocated(pool.Repr()) && allocated(index.Repr());
      var loc := PutRow(pool, h, pageCount, row);
      OwnFacts(pool, index);
      assert allocated(pool.Repr()) && allocated(index.Repr()) && pool.Repr() !! index.Repr();
      Enter(index, m, keyOf(row), loc);
      InsertedSize(h, row);
      if loc.page == pageCount {
        pageCount := pageCount + 1;
      }
      rows, keys := InsertRow(h, row), m[keyOf(row) := loc];
      OwnFacts(pool, index);
      ValidIntro();
      assert forall o :: o in Repr() && o !in own ==> !old(allocated(o));
      if consistent && keyOf(row) !in m {
        InsertAgrees(m, h, keyOf, row);
      }
    }

    /** The body of the slot loop of table_delete. */
    method DeleteSlot(i: nat, ghost id: nat, s: nat, p: Row -> bool) returns (hit: bool)
      requires Valid() && Pinned(pool, rows, i, id)
      modifies Repr()
      ensures Valid() && Repr() == old(Repr()) && Pinned(pool, rows, i, id)
      ensures var h := old(rows);
              && (hit <==> LiveAt(h, Loc(id, s)) && p(RowAt(h, Loc(id, s))))
              && rows == if hit then Kill(h, Loc(id, s)) else h
      ensures old(Consistent()) ==> Consistent()
    {
      hide *;
      ValidFacts();
      ghost var consistent, h, m := Consistent(), rows, keys;
      PinnedFacts(pool, h, i, id);
      HitFacts(h, Loc(id, s), p);
      assert allocated(pool.Repr()) && allocated(index.Repr());
      var r := ReadIn(pool, h, i, id, s);
      hit := r.Row? && p(r.row);
      if hit {
        KillIn(pool, h, i, id, s);
        OwnFacts(pool, index);
        Remove(index, m, keyOf(r.row));
        rows, keys := Kill(h, Loc(id, s)), m - {keyOf(r.row)};
        OwnFacts(pool, index);
        PinnedFacts(pool, rows, i, id);
        ValidIntro();
        if consistent {
          KillAgrees(m, h, keyOf, Loc(id, s));
        }
      }
    }

    /** buf_pin of page `pid`, and its slot count at that moment. */
    method PinSlots(pid: nat) returns (i: nat, count: nat)
      requires Valid() && pid < |rows|
      modifies Repr()
      ensures Valid() && fresh(Repr() - old(Repr())) && Pinned(pool, rows, i, pid) && count == |rows[pid]|
      ensures rows == old(rows) && keys == old(keys) && (old(Consistent()) ==> Consistent())
      ensures old(Stores(index, keys)) ==> Stores(index, keys)
    {
      hide *;
      ValidFacts();
      ghost var own := Repr();
      assert allocated(pool.Repr()) && allocated(index.Repr());
      i := PinPage(pool, rows, pid);
      OwnFacts(pool, index);
      assert allocated(pool.Repr()) && allocated(index.Repr());
      count := SlotsIn(pool, rows, i, pid);
      PinnedFacts(pool, rows, i, pid);
      ValidIntro();
      assert forall o :: o in Repr() && o !in own ==> !old(allocated(o));
    }

    /** The slot loop of table_delete. */
    method DeleteInPage(pid: nat, p: Row -> bool) returns (deleted: nat)
      requires Valid() && pid < |rows|
      modifies Repr()
      ensures Valid() && fresh(Repr() - old(Repr()))
      ensures var h := old(rows);
              rows == h[pid := KillMatching(h[pid], p, |h[pid]|)] && deleted == |Select(h[pid], p, |h[pid]|)|
      ensures old(Consistent()) ==> Consistent()
    {
      ghost var h, consistent := rows, Consistent();
      DeleteStart(h, p, pid);
      hide *;
      var i, count := PinSlots(pid);
      deleted := 0;
      var s := 0;
      ghost var own := Repr();
      while s < count
        invariant s <= count == |h[pid]| && Valid() && Pinned(pool, rows, i, pid) && Repr() == own
        invariant rows == h[pid := KillMatching(h[pid], p, s)] && deleted == |Select(h[pid], p, s)|
        invariant consistent ==> Consistent()
      {
        DeleteStep(h, p, pid, s);
        var hit := DeleteSlot(i, pid, s, p);
        if hit {
          deleted := deleted + 1;
        }
        s := s + 1;
      }
    }

    /** table_delete. */
    method Delete(p: Row -> bool) returns (deleted: nat)
      requires Valid()
      modifies Repr()
      ensures Valid() && fresh(Repr() - old(Repr()))
      ensures rows == DeleteMatching(old(rows), p, |old(rows)|) && deleted == |Scan(old(rows), p, |old(rows)|)|
      ensures old(Consistent()) ==> Consistent()
    {
      hide *;
      ghost var h, consistent, own := rows, Consistent(), Repr();
      ValidFacts();
      DeletePages(h, p, 0);
      deleted := 0;
      var pid := 0;
      while pid < pageCount
        invariant pid <= pageCount == |h| && Valid()
        invariant rows == DeleteMatching(h, p, pid) && deleted == |Scan(h, p, pid)|
        invariant consistent ==> Consistent()
        invariant forall o :: o in Repr() && o !in own ==> !old(allocated(o))
      {
        DeletePages(h, p, pid);
        var n := DeleteInPage(pid, p);
        deleted := deleted + n;
        pid := pid + 1;
        ValidFacts();
      }
    }

    /** The body of the slot loop of table_update, when the new version fits.  `todo` lists the rows
        that are still to be rewritten. */
    method UpdateSlot(i: nat, id: nat, s: nat, p: Row -> bool, f: Row -> Row, ghost todo: seq<Row>) returns (hit: bool)
      requires Valid() && Pinned(pool, rows, i, id)
      requires LiveAt(rows, Loc(id, s)) && p(RowAt(rows, Loc(id, s))) ==> Fits(Dead(rows[id], s), |f(RowAt(rows, Loc(id, s)))|)
      modifies Repr()
      ensures Valid() && fresh(Repr() - old(Repr())) && Pinned(pool, rows, i, id)
      ensures var h, l := old(rows), Loc(id, s);
              && (hit <==> LiveAt(h, l) && p(RowAt(h, l)))
              && rows == (if hit then Append(Kill(h, l), id, f(RowAt(h, l))) else h)
              && (hit && old(Consistent()) && Next(todo, RowAt(h, l)) && KeysFree(old(keys).Keys, todo, keyOf, f) ==>
                    Consistent() && KeysFree(keys.Keys, todo[1..], keyOf, f))
              && (!hit ==> keys == old(keys) && (old(Consistent()) ==> Consistent()))
    {
      hide *;
      ValidFacts();
      ghost var consistent, h, m, own, l := Consistent(), rows, keys, Repr(), Loc(id, s);
      PinnedFacts(pool, h, i, id);
      HitFacts(h, l, p);
      assert allocated(pool.Repr()) && allocated(index.Repr());
      var r := ReadIn(pool, h, i, id, s);
      hit := r.Row? && p(r.row);
      if hit {
        var row := f(r.row);
        RowFits(h, id, s, row);
        var slot := ReplaceIn(pool, h, i, id, s, row);
        OwnFacts(pool, index);
        assert allocated(pool.Repr()) && allocated(index.Repr());
        Remove(index, m, keyOf(r.row));
        OwnFacts(pool, index);
        assert allocated(pool.Repr()) && allocated(index.Repr());
        Enter(index, m - {keyOf(r.row)}, keyOf(row), Loc(id, slot));
        OwnFacts(pool, index);
        rows, keys := Append(Kill(h, l), id, row), (m - {keyOf(r.row)})[keyOf(row) := Loc(id, slot)];
        PinnedFacts(pool, rows, i, id);
        ValidIntro();
        assert forall o :: o in Repr() && o !in own ==> !old(allocated(o));
        if consistent && Next(todo, r.row) && KeysFree(m.Keys, todo, keyOf, f) {
          RekeyStep(m, h, keyOf, f, l, todo);
        }
      }
    }

    /** The slot loop of table_update: it stops at the slot count that the page had when it was
        pinned, so new versions are not visited. */
    method UpdateInPage(pid: nat, p: Row -> bool, f: Row -> Row, ghost all: seq<Row>, ghost done: nat)
      requires Valid() && pid < |rows| && AllFit(rows[pid], p, f)
      requires done <= |all| && Reached(rows[pid], p, all, done)
      modifies Repr()
      ensures Valid() && fresh(Repr() - old(Repr()))
      ensures var h := old(rows);
              && rows == h[pid := UpdateUpTo(h[pid], p, f, |h[pid]|)]
              && (old(Consistent() && KeysFree(keys.Keys, all[done..], keyOf, f)) ==>
                    Consistent() && KeysFree(keys.Keys, all[done + |Select(h[pid], p, |h[pid]|)|..], keyOf, f))
    {
      hide *;
      ghost var h, own0 := rows, Repr();
      ghost var free := Consistent() && KeysFree(keys.Keys, all[done..], keyOf, f);
      UpdateStart(h, p, f, pid);
      ReachedAt(h[pid], p, 0, all, done);
      var i, count := PinSlots(pid);
      var s := 0;
      while s < count
        invariant s <= count == |h[pid]| && Valid() && Pinned(pool, rows, i, pid)
        invariant rows == h[pid := UpdateUpTo(h[pid], p, f, s)]
        invariant done + |Select(h[pid], p, s)| <= |all|
        invariant free ==> Consistent() && KeysFree(keys.Keys, all[done + |Select(h[pid], p, s)|..], keyOf, f)
        invariant forall o :: o in Repr() && o !in own0 ==> !old(allocated(o))
      {
        UpdateStep(h, p, f, pid, s);
        ReachedAt(h[pid], p, s, all, done);
        var hit := UpdateSlot(i, pid, s, p, f, all[done + |Select(h[pid], p, s)|..]);
        s := s + 1;
      }
    }

    /** table_update, when all new versions fit their pages and no new version meets a used key. */
    method Update(p: Row -> bool, f: Row -> Row)
      requires Valid() && EveryPageFits(rows, p, f)
      modifies Repr()
      ensures Valid() && fresh(Repr() - old(Repr()))
      ensures rows == UpdateMatching(old(rows), p, f, |old(rows)|)
      ensures old(Consistent()) && KeysFree(old(keys).Keys, Scan(old(rows), p, |old(rows)|), keyOf, f) ==> Consistent()
    {
      hide *;
      ghost var h, own := rows, Repr();
      ghost var all := Scan(h, p, |h|);
      ghost var free := Consistent() && KeysFree(keys.Keys, all, keyOf, f);
      ValidFacts();
      UpdatePages(h, p, f, 0);
      assert all[0..] == all;
      var pid := 0;
      while pid < pageCount
        invariant pid <= pageCount == |h| && Valid()
        invariant rows == UpdateMatching(h, p, f, pid) && |Scan(h, p, pid)| <= |all|
        invariant free ==> Consistent() && KeysFree(keys.Keys, all[|Scan(h, p, pid)|..], keyOf, f)
        invariant forall o :: o in Repr() && o !in own ==> !old(allocated(o))
      {
        UpdatePages(h, p, f, pid);
        UpdateInPage(pid, p, f, all, |Scan(h, p, pid)|);
        pid := pid + 1;
        ValidFacts();
        UpdatePages(h, p, f, pid);
      }
    }

    /** The slot loop of the full scan. */
    method ScanPage(pid: nat, p: Row -> bool) returns (found: seq<Row>)
      requires Valid() && pid < |rows|
      modifies Repr()
      ensures Valid() && fresh(Repr() - old(Repr()))
      ensures rows == old(rows) && keys == old(keys) && (old(Consistent()) ==> Consistent())
      ensures found == Select(rows[pid], p, |rows[pid]|)
    {
      hide *;
      ghost var h := rows;
      var i, count := PinSlots(pid);
      ValidFacts();
      assert allocated(pool.Repr()) && allocated(index.Repr());
      found := [];
      SelectStep(h[pid], p, 0);
      var s := 0;
      while s < count
        invariant s <= count == |h[pid]| && found == Select(h[pid], p, s)
        modifies {}
      {
        SelectStep(h[pid], p, s);
        HitFacts(h, Loc(pid, s), p);
        var r := ReadIn(pool, h, i, pid, s);
        if r.Row? && p(r.row) {
          found := found + [r.row];
        }
        s := s + 1;
      }
    }

    /** The full scan of table_scan. */
    method FullScan(p: Row -> bool) returns (found: seq<Row>)
      requires Valid()
      modifies Repr()
      ensures Valid() && fresh(Repr() - old(Repr()))
      ensures rows == old(rows) && keys == old(keys) && (old(Consistent()) ==> Consistent())
      ensures found == Scan(rows, p, |rows|)
    {
      hide *;
      ghost var h, m, consistent, own := rows, keys, Consistent(), Repr();
      ValidFacts();
      ScanStep(h, p, 0);
      found := [];
      var pid := 0;
      while pid < pageCount
        invariant pid <= pageCount == |h| && Valid() && rows == h && keys == m && (consistent ==> Consistent())
        invariant found == Scan(h, p, pid)
        invariant forall o :: o in Repr() && o !in own ==> !old(allocated(o))
      {
        ScanStep(h, p, pid);
        var more := ScanPage(pid, p);
        found := found + more;
        pid := pid + 1;
        ValidFacts();
      }
    }

    /** The index branch of table_scan. */
    method LookupScan(key: int) returns (found: seq<Row>)
      requires Valid() && Consistent()
      modifies Repr()
      ensures Valid() && fresh(Repr() - old(Repr())) && Consistent()
      ensures rows == old(rows) && keys == old(keys)
      ensures key in keys ==> LiveAt(rows, keys[key])
      ensures found == if key in keys then [RowAt(rows, keys[key])] else []
    {
      hide *;
      ValidFacts();
      ghost var h := rows;
      found := [];
      KeyFacts(keys, rows, keyOf, key);
      assert allocated(pool.Repr()) && allocated(index.Repr());
      var r := Lookup(index, keys, key);
      if r.Found? {
        assert allocated(pool.Repr()) && allocated(index.Repr());
        ghost var own := Repr();
        var i := PinPage(pool, rows, r.loc.page);
        OwnFacts(pool, index);
        PinnedFacts(pool, rows, i, r.loc.page);
        ValidIntro();
        assert forall o :: o in Repr() && o !in own ==> !old(allocated(o));
        assert allocated(pool.Repr()) && allocated(index.Repr());
        var row := ReadIn(pool, rows, i, r.loc.page, r.loc.slot);
        if row.Row? {
          found := [row.row];
        }
      }
    }

    /** table_scan: an equality on the index column goes through the index, and answers what the full
        scan would. */
    method TableScan(p: Row -> bool, onIndexColumn: bool, key: int) returns (found: seq<Row>)
      requires Valid()
      requires onIndexColumn ==> Consistent() && forall row :: p(row) <==> keyOf(row) == key
      modifies Repr()
      ensures Valid() && fresh(Repr() - old(Repr()))
      ensures rows == old(rows) && keys == old(keys) && (old(Consistent()) ==> Consistent())
      ensures found == Scan(rows, p, |rows|)
    {
      hide *;
      if onIndexColumn {
        ValidFacts();
        LookupIsScan(keys, rows, keyOf, p, key);
        found := LookupScan(key);
      } else {
        found := FullScan(p);
      }
    }

    /** The body of the slot loop of table_open. */
    method RebuildSlot(i: nat, pid: nat, s: nat)
      requires Valid() && Pinned(pool, rows, i, pid)
      modifies Repr()
      ensures Valid() && fresh(Repr() - old(Repr())) && Pinned(pool, rows, i, pid) && rows == old(rows)
      ensures old(Rebuilt(pid, s)) ==> Rebuilt(pid, s + 1)
    {
      hide *;
      ValidFacts();
      RebuiltFacts(pid, s);
      ghost var h, m, own, rebuilt, l := rows, keys, Repr(), Rebuilt(pid, s), Loc(pid, s);
      PinnedFacts(pool, h, i, pid);
      assert allocated(pool.Repr()) && allocated(index.Repr());
      if rebuilt {
        AgreesNextSlot(m, h, keyOf, pid, s);
      }
      var r := ReadIn(pool, h, i, pid, s);
      if r.Row? {
        Enter(index, m, keyOf(r.row), Loc(pid, s));
        OwnFacts(pool, index);
        keys := m[keyOf(r.row) := Loc(pid, s)];
        ValidIntro();
        assert forall o :: o in Repr() && o !in own ==> !old(allocated(o));
      }
      RebuiltFacts(pid, s + 1);
    }

    /** The rows before slot `s` of page `pid` are in the index, if keys are distinct. */
    ghost predicate Rebuilt(pid: nat, s: nat)
      reads this, index.Repr()
    {
      DistinctKeys(rows, keyOf) && Stores(index, keys) && AgreesUpTo(keys, rows, keyOf, pid, s)
    }

    lemma RebuiltFacts(pid: nat, s: nat)
      ensures Rebuilt(pid, s) <==> DistinctKeys(rows, keyOf) && Stores(index, keys) && AgreesUpTo(keys, rows, keyOf, pid, s)
    {
    }

    method RebuildPage(pid: nat)
      requires Valid() && pid < |rows|
      modifies Repr()
      ensures Valid() && fresh(Repr() - old(Repr())) && rows == old(rows)
      ensures old(Rebuilt(pid, 0)) ==> Rebuilt(pid + 1, 0)
    {
      hide *;
      ghost var h, own, rebuilt := rows, Repr(), Rebuilt(pid, 0);
      RebuiltFacts(pid, 0);
      var i, count := PinSlots(pid);
      RebuiltFacts(pid, 0);
      var s := 0;
      while s < count
        invariant s <= count == |h[pid]| && Valid() && Pinned(pool, rows, i, pid) && rows == h
        invariant rebuilt ==> Rebuilt(pid, s)
        invariant forall o :: o in Repr() && o !in own ==> !old(allocated(o))
      {
        RebuildSlot(i, pid, s);
        s := s + 1;
      }
      RebuiltFacts(pid, s);
      RebuiltFacts(pid + 1, 0);
      if rebuilt {
        AgreesNextPage(keys, rows, keyOf, pid, s);
      }
    }

    /** The page loop of table_open. */
    method Rebuild()
      requires Valid() && Stores(index, map[]) && keys == map[]
      modifies Repr()
      ensures Valid() && fresh(Repr() - old(Repr())) && rows == old(rows)
      ensures DistinctKeys(rows, keyOf) ==> Consistent()
    {
      hide *;
      ghost var h, own := rows, Repr();
      ValidFacts();
      RebuiltFacts(0, 0);
      NothingYet(h, keyOf);
      var pid := 0;
      while pid < pageCount
        invariant pid <= pageCount == |h| && Valid() && rows == h
        invariant DistinctKeys(h, keyOf) ==> Rebuilt(pid, 0)
        invariant forall o :: o in Repr() && o !in own ==> !old(allocated(o))
      {
        RebuildPage(pid);
        pid := pid + 1;
        ValidFacts();
      }
      RebuiltFacts(pid, 0);
      ValidFacts();
      if DistinctKeys(h, keyOf) {
        AgreesNextPage(keys, rows, keyOf, pid, 0);
      }
    }

    /** table_flush: afterwards the file holds the rows of the table. */
    method Flush()
      requires Valid()
      modifies Repr()
      ensures Valid() && fresh(Repr() - old(Repr()))
      ensures rows == old(rows) && keys == old(keys) && (old(Consistent()) ==> Consistent())
      ensures RowFile(pool.file.pages) && FileRows(pool.file.pages) == rows
    {
      hide *;
      ValidFacts();
      ghost var own := Repr();
      assert allocated(pool.Repr()) && allocated(index.Repr());
      FlushRows(pool, rows, pageCount);
      OwnFacts(pool, index);
      ValidIntro();
      assert forall o :: o in Repr() && o !in own ==> !old(allocated(o));
    }

    /** table_close: the file is left with the rows of the table. */
    method Close()
      requires Valid()
      modifies Repr()
      ensures pool.file.Valid() && RowFile(pool.file.pages) && FileRows(pool.file.pages) == old(rows)
    {
      hide *;
      ValidFacts();
      CloseRows(pool, rows);
    }
  }

  lemma NothingYet(h: Heap, keyOf: Row -> int)
    ensures AgreesUpTo(map[], h, keyOf, 0, 0)
  {
  }

  lemma SelectStep(cs: seq<Cell>, p: Row -> bool, s: nat)
    requires s <= |cs|
    ensures s == 0 ==> Select(cs, p, s) == []
    ensures s < |cs| ==> Select(cs, p, s + 1) == Select(cs, p, s) + if Hit(cs[s], p) then [cs[s].row] else []
  {
  }

  lemma ScanStep(h: Heap, p: Row -> bool, pid: nat)
    requires pid <= |h|
    ensures pid == 0 ==> Scan(h, p, pid) == []
    ensures pid < |h| ==> Scan(h, p, pid + 1) == Scan(h, p, pid) + Select(h[pid], p, |h[pid]|)
  {
  }

  lemma KeyFacts(m: map<int, Loc>, h: Heap, keyOf: Row -> int, key: int)
    requires Agrees(m, h, keyOf)
    ensures key in m ==> LiveAt(h, m[key]) && m[key].page < |h| && Loc(m[key].page, m[key].slot) == m[key]
  {
  }

  /** table_open of a table file: the rows are those of the file, and the index agrees with them
      unless two of them share a key. */
  method OpenTable(file: Disk.TableFile, keyOf: Row -> int) returns (t: Table)
    requires file.Valid() && file.healthy && RowFile(file.pages)
    modifies file
    ensures fresh(t) && fresh(t.Repr() - {file}) && t.Valid() && t.pool.file == file && t.keyOf == keyOf
    ensures t.rows == FileRows(old(file.pages)) && (DistinctKeys(t.rows, keyOf) ==> t.Consistent())
  {
    hide *;
    ghost var h := FileRows(file.pages);
    FileRowsSize(file.pages);
    var pool := OpenRows(file);
    assert allocated(pool.Repr());
    var index := NewIndex();
    assert pool.Repr() !! index.Repr();
    assert allocated(pool.Repr()) && allocated(index.Repr());
    t := new Table(pool, index, keyOf, |file.pages|, h);
    t.ValidFacts();
    ghost var own := t.Repr();
    assert forall o :: o in own && o != file ==> !old(allocated(o));
    t.Rebuild();
    assert forall o :: o in t.Repr() && o !in own ==> !old(allocated(o));
  }

  /** table_close followed by table_open is the identity: the same rows at the same locations, and an
      index that is the same map. */
  method Reopen(t: Table) returns (t': Table)
    requires t.Valid() && t.Consistent()
    modifies t.Repr()
    ensures t'.Valid() && t'.Consistent() && t'.pool.file == t.pool.file
    ensures t'.rows == old(t.rows) && t'.keys == old(t.keys)
  {
    hide *;
    t.ValidFacts();
    SharedFile(t.pool, t.rows);
    ghost var h, m, keyOf := t.rows, t.keys, t.keyOf;
    KeysDistinct(m, h, keyOf);
    t.Close();
    t' := OpenTable(t.pool.file, t.keyOf);
    t'.ValidFacts();
    AgreementIsUnique(m, t'.keys, h, keyOf);
  }

  lemma SharedFile(pool: BufferPool, h: Heap)
    requires Shows(pool, h)
    ensures pool.file in pool.Repr() && pool.file.healthy
  {
    Unfold(pool, h);
  }

  lemma KeysDistinct(m: map<int, Loc>, h: Heap, keyOf: Row -> int)
    requires Agrees(m, h, keyOf)
    ensures DistinctKeys(h, keyOf)
  {
    AgreementIsUnique(m, m, h, keyOf);
  }

  /** The matching rows of a page are the ones that come next in `all`, from `done` on. */
  ghost predicate Reached(cs: seq<Cell>, p: Row -> bool, all: seq<Row>, done: nat)
    requires done <= |all|
  {
    Select(cs, p, |cs|) <= all[done..]
  }

  lemma ReachedAt(cs: seq<Cell>, p: Row -> bool, s: nat, all: seq<Row>, done: nat)
    requires done <= |all| && s <= |cs| && Reached(cs, p, all, done)
    ensures done + |Select(cs, p, s)| <= |all|
    ensures s == 0 ==> Select(cs, p, s) == []
    ensures s < |cs| && Hit(cs[s], p) ==>
              var n := done + |Select(cs, p, s)|;
              && done + |Select(cs, p, s + 1)| == n + 1 <= |all|
              && Next(all[n..], cs[s].row) && all[n..][1..] == all[n + 1..]
    ensures s < |cs| && !Hit(cs[s], p) ==> Select(cs, p, s + 1) == Select(cs, p, s)
  {
    var rest := all[done..];
    SelectGrows(cs, p, s, |cs|);
    if s < |cs| && Hit(cs[s], p) {
      SelectGrows(cs, p, s + 1, |cs|);
      assert Select(cs, p, s + 1) == Select(cs, p, s) + [cs[s].row];
      hide Select;
      PrefixNext(Select(cs, p, s), cs[s].row, rest);
      assert all[done + |Select(cs, p, s)|..] == rest[|Select(cs, p, s)|..];
    }
  }

  lemma PrefixNext(a: seq<Row>, row: Row, all: seq<Row>)
    requires a + [row] <= all
    ensures |a| < |all| && all[|a|] == row && Next(all[|a|..], row) && all[|a|..][1..] == all[|a| + 1..]
  {
    assert (a + [row])[|a|] == row;
  }

  lemma UpdateStart(h: Heap, p: Row -> bool, f: Row -> Row, pid: nat)
    requires pid < |h|
    ensures h == h[pid := UpdateUpTo(h[pid], p, f, 0)]
  {
  }

  /** One slot of table_update, seen from the page as it was when the page was pinned. */
  lemma UpdateStep(h: Heap, p: Row -> bool, f: Row -> Row, pid: nat, s: nat)
    requires pid < |h| && s < |h[pid]| && AllFit(h[pid], p, f)
    ensures var now, next := h[pid := UpdateUpTo(h[pid], p, f, s)], h[pid := UpdateUpTo(h[pid], p, f, s + 1)];
            var l := Loc(pid, s);
            if Hit(h[pid][s], p) then
              && LiveAt(now, l) && RowAt(now, l) == h[pid][s].row && p(RowAt(now, l))
              && Fits(Dead(now[pid], s), |f(RowAt(now, l))|)
              && next == Append(Kill(now, l), pid, f(RowAt(now, l)))
            else
              !(LiveAt(now, l) && p(RowAt(now, l))) && next == now
  {
    StepFits(h[pid], p, f, s);
  }

  lemma UpdatePages(h: Heap, p: Row -> bool, f: Row -> Row, pid: nat)
    requires pid <= |h| && EveryPageFits(h, p, f)
    ensures |Scan(h, p, pid)| <= |Scan(h, p, |h|)|
    ensures pid == 0 ==> UpdateMatching(h, p, f, pid) == h && Scan(h, p, pid) == []
    ensures pid < |h| ==>
              && AllFit(h[pid], p, f)
              && UpdateMatching(h, p, f, pid)[pid] == h[pid]
              && UpdateMatching(h, p, f, pid + 1) == UpdateMatching(h, p, f, pid)[pid := UpdateUpTo(h[pid], p, f, |h[pid]|)]
              && |Scan(h, p, pid + 1)| == |Scan(h, p, pid)| + |Select(h[pid], p, |h[pid]|)|
              && Reached(h[pid], p, Scan(h, p, |h|), |Scan(h, p, pid)|)
  {
    hide Select, UpdateUpTo, AllFit;
    ScanGrows(h, p, pid, |h|);
    if pid < |h| {
      assert AllFit(h[pid], p, f);
      UpdatedPage(h, p, f, pid, pid);
      ScanGrows(h, p, pid + 1, |h|);
      var before, here, all := Scan(h, p, pid), Select(h[pid], p, |h[pid]|), Scan(h, p, |h|);
      assert Scan(h, p, pid + 1) == before + here;
      hide Scan, EveryPageFits;
      SplitPrefix(before, here, all);
    }
  }

  lemma SplitPrefix(a: seq<Row>, b: seq<Row>, all: seq<Row>)
    requires a + b <= all
    ensures |a| <= |all| && b <= all[|a|..]
  {
    assert b == (a + b)[|a|..] == all[|a|..|a| + |b|];
  }

  /** The next row to be rewritten. */
  predicate Next(todo: seq<Row>, row: Row) {
    |todo| > 0 && todo[0] == row
  }

  lemma RowFits(h: Heap, id: nat, s: nat, row: Row)
    requires LiveAt(h, Loc(id, s)) && Fits(Dead(h[id], s), |row|)
    ensures |row| <= PAGE_SIZE && id <= |Kill(h, Loc(id, s))| == |Append(Kill(h, Loc(id, s)), id, row)| == |h|
  {
  }

  lemma RekeyStep(m: map<int, Loc>, h: Heap, keyOf: Row -> int, f: Row -> Row, l: Loc, todo: seq<Row>)
    requires Agrees(m, h, keyOf) && LiveAt(h, l) && Next(todo, RowAt(h, l)) && KeysFree(m.Keys, todo, keyOf, f)
    requires Fits(Dead(h[l.page], l.slot), |f(RowAt(h, l))|)
    ensures var row := RowAt(h, l);
            var m' := (m - {keyOf(row)})[keyOf(f(row)) := Loc(l.page, |h[l.page]|)];
            && keyOf(f(row)) !in m - {keyOf(row)}
            && Agrees(m', Append(Kill(h, l), l.page, f(row)), keyOf)
            && KeysFree(m'.Keys, todo[1..], keyOf, f)
  {
    var row := RowAt(h, l);
    var m' := (m - {keyOf(row)})[keyOf(f(row)) := Loc(l.page, |h[l.page]|)];
    assert (m - {keyOf(row)}).Keys == m.Keys - {keyOf(row)};
    UpdateStepAgrees(m, h, keyOf, l, f(row));
    assert m'.Keys == m.Keys - {keyOf(row)} + {keyOf(f(row))};
  }

  lemma DeletePages(h: Heap, p: Row -> bool, pid: nat)
    requires pid <= |h|
    ensures pid == 0 ==> DeleteMatching(h, p, pid) == h && Scan(h, p, pid) == []
    ensures pid < |h| ==>
              && DeleteMatching(h, p, pid)[pid] == h[pid]
              && DeleteMatching(h, p, pid + 1) == DeleteMatching(h, p, pid)[pid := KillMatching(h[pid], p, |h[pid]|)]
              && |Scan(h, p, pid + 1)| == |Scan(h, p, pid)| + |Select(h[pid], p, |h[pid]|)|
  {
    if pid < |h| {
      DeletedPage(h, p, pid, pid);
    }
  }

  lemma DeleteStart(h: Heap, p: Row -> bool, pid: nat)
    requires pid < |h|
    ensures h == h[pid := KillMatching(h[pid], p, 0)] && Select(h[pid], p, 0) == []
  {
  }

  /** One slot of table_delete, seen from the page as it was when the page was pinned. */
  lemma DeleteStep(h: Heap, p: Row -> bool, pid: nat, s: nat)
    requires pid < |h| && s < |h[pid]|
    ensures var now, next := h[pid := KillMatching(h[pid], p, s)], h[pid := KillMatching(h[pid], p, s + 1)];
            var l := Loc(pid, s);
            if LiveAt(now, l) && p(RowAt(now, l)) then
              next == Kill(now, l) && |Select(h[pid], p, s + 1)| == |Select(h[pid], p, s)| + 1
            else
              next == now && Select(h[pid], p, s + 1) == Select(h[pid], p, s)
  {
  }

  lemma PinnedFacts(pool: BufferPool, h: Heap, i: nat, id: nat)
    requires Pinned(pool, h, i, id)
    ensures Shows(pool, h) && id < |h|
  {
  }

  lemma HitFacts(h: Heap, l: Loc, p: Row -> bool)
    requires l.page < |h|
    ensures l.slot < |h[l.page]| && Hit(h[l.page][l.slot], p) <==> LiveAt(h, l) && p(RowAt(h, l))
    ensures LiveAt(h, l) ==> RowAt(h, l) == h[l.page][l.slot].row
    ensures LiveAt(h, l) ==> |Kill(h, l)| == |h|
  {
  }

  lemma OwnFacts(pool: BufferPool, index: Index)
    ensures pool in pool.Repr() && index in index.Repr() && forall f :: f in pool.frames ==> f in pool.Repr()
  {
  }

  lemma InsertAgrees(m: map<int, Loc>, h: Heap, keyOf: Row -> int, row: Row)
    requires Agrees(m, h, keyOf) && keyOf(row) !in m
    ensures Agrees(m[keyOf(row) := Place(h, row)], InsertRow(h, row), keyOf)
  {
    AppendAgrees(m, h, keyOf, FirstFit(h, |row|, 0), row);
  }

  lemma InsertedSize(h: Heap, row: Row)
    ensures |InsertRow(h, row)| == if Place(h, row).page == |h| then |h| + 1 else |h|
  {
  }
}
