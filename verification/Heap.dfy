/** A table as a heap of pages of rows, and what it means for an index to agree with it. */
module Heap {
  import opened Bytes
  import opened Page
  import opened BTree

  type Row = seq<Byte>
  type Heap = seq<seq<Cell>>

  predicate LiveAt(h: Heap, l: Loc) {
    l.page < |h| && l.slot < |h[l.page]| && h[l.page][l.slot].live
  }

  function RowAt(h: Heap, l: Loc): Row
    requires LiveAt(h, l)
  {
    h[l.page][l.slot].row
  }

  // ---------------------------------------------------------------- single changes

  /** The first page from `from` on with room for `n` bytes, or the number of pages. */
  function FirstFit(h: Heap, n: nat, from: nat): (p: nat)
    requires from <= |h|
    ensures from <= p <= |h|
    decreases |h| - from
  {
    if from < |h| && !Fits(h[from], n) then FirstFit(h, n, from + 1) else from
  }

  lemma {:induction false} FirstFitIsFirst(h: Heap, n: nat, from: nat, q: nat)
    requires from <= q < |h|
    ensures FirstFit(h, n, from) == q ==> Fits(h[q], n)
    ensures q < FirstFit(h, n, from) ==> !Fits(h[q], n)
    decreases |h| - from
  {
    if from < q && !Fits(h[from], n) {
      FirstFitIsFirst(h, n, from + 1, q);
    }
  }

  /** Where table_insert_raw puts a row. */
  function Place(h: Heap, row: Row): Loc {
    var p := FirstFit(h, |row|, 0);
    Loc(p, if p < |h| then |h[p]| else 0)
  }

  function Append(h: Heap, p: nat, row: Row): Heap
    requires p <= |h|
  {
    if p < |h| then h[p := h[p] + [Cell(row, true)]] else h + [[Cell(row, true)]]
  }

  /** The heap after table_insert_raw. */
  function InsertRow(h: Heap, row: Row): Heap {
    Append(h, FirstFit(h, |row|, 0), row)
  }

  /** The heap after page_delete at `l`. */
  function Kill(h: Heap, l: Loc): Heap
    requires LiveAt(h, l)
  {
    h[l.page := Dead(h[l.page], l.slot)]
  }

  /** An appended row is the one new live row; no other row moves or changes. */
  lemma AppendAdds(h: Heap, p: nat, row: Row, l: Loc)
    requires p <= |h|
    ensures var at, h' := Loc(p, if p < |h| then |h[p]| else 0), Append(h, p, row);
            && (LiveAt(h', l) <==> LiveAt(h, l) || l == at)
            && !LiveAt(h, at) && RowAt(h', at) == row
            && (LiveAt(h, l) ==> RowAt(h', l) == RowAt(h, l))
  {
  }

  /** Deleting a row takes that row away and no other. */
  lemma KillRemoves(h: Heap, d: Loc, l: Loc)
    requires LiveAt(h, d)
    ensures LiveAt(Kill(h, d), l) <==> LiveAt(h, l) && l != d
    ensures LiveAt(Kill(h, d), l) ==> RowAt(Kill(h, d), l) == RowAt(h, l)
  {
  }

  // ---------------------------------------------------------------- index and heap

  /** The index finds `L` for key `k` exactly when the live row at `L` has key `k`. */
  ghost predicate Agrees(m: map<int, Loc>, h: Heap, keyOf: Row -> int) {
    && (forall k :: k in m ==> LiveAt(h, m[k]) && keyOf(RowAt(h, m[k])) == k)
    && (forall l :: LiveAt(h, l) ==> keyOf(RowAt(h, l)) in m && m[keyOf(RowAt(h, l))] == l)
  }

  /** Two live rows never share a key, and the heap determines the index. */
  lemma AgreementIsUnique(m: map<int, Loc>, m': map<int, Loc>, h: Heap, keyOf: Row -> int)
    requires Agrees(m, h, keyOf)
    ensures Agrees(m', h, keyOf) <==> m' == m
    ensures forall l, l' :: LiveAt(h, l) && LiveAt(h, l') && keyOf(RowAt(h, l)) == keyOf(RowAt(h, l')) ==> l == l'
  {
    if Agrees(m', h, keyOf) {
      assert forall k :: k in m ==> k in m' && m'[k] == m[k];
      assert forall k :: k in m' ==> k in m && m[k] == m'[k];
    }
  }

  /** Appending a row with its index entry keeps the agreement, for a key that is not in use. */
  lemma AppendAgrees(m: map<int, Loc>, h: Heap, keyOf: Row -> int, p: nat, row: Row)
    requires Agrees(m, h, keyOf) && p <= |h| && keyOf(row) !in m
    ensures Agrees(m[keyOf(row) := Loc(p, if p < |h| then |h[p]| else 0)], Append(h, p, row), keyOf)
  {
    var at, h' := Loc(p, if p < |h| then |h[p]| else 0), Append(h, p, row);
    forall l: Loc ensures (LiveAt(h', l) <==> LiveAt(h, l) || l == at) && !LiveAt(h, at) && RowAt(h', at) == row
                          && (LiveAt(h, l) ==> RowAt(h', l) == RowAt(h, l)) {
      AppendAdds(h, p, row, l);
    }
    hide LiveAt, Append, RowAt;
  }

  /** Deleting a row with its index entry keeps the agreement. */
  lemma KillAgrees(m: map<int, Loc>, h: Heap, keyOf: Row -> int, d: Loc)
    requires Agrees(m, h, keyOf) && LiveAt(h, d)
    ensures Agrees(m - {keyOf(RowAt(h, d))}, Kill(h, d), keyOf)
  {
    forall l: Loc ensures (LiveAt(Kill(h, d), l) <==> LiveAt(h, l) && l != d)
                          && (LiveAt(Kill(h, d), l) ==> RowAt(Kill(h, d), l) == RowAt(h, l)) {
      KillRemoves(h, d, l);
    }
    hide LiveAt, Kill, RowAt;
  }

  // ---------------------------------------------------------------- scans

  /** The live rows of a page that satisfy `p`, in slot order, from the first `n` slots. */
  function Select(cs: seq<Cell>, p: Row -> bool, n: nat): seq<Row>
    requires n <= |cs|
  {
    if n == 0 then []
    else Select(cs, p, n - 1) + if cs[n - 1].live && p(cs[n - 1].row) then [cs[n - 1].row] else []
  }

  /** The full scan of the first `n` pages. */
  function Scan(h: Heap, p: Row -> bool, n: nat): seq<Row>
    requires n <= |h|
  {
    if n == 0 then [] else Scan(h, p, n - 1) + Select(h[n - 1], p, |h[n - 1]|)
  }

  /** A page without a hit selects nothing; a page with one hit selects that row. */
  lemma {:induction false} SelectNone(cs: seq<Cell>, p: Row -> bool, n: nat)
    requires n <= |cs| && forall s :: 0 <= s < n ==> !(cs[s].live && p(cs[s].row))
    ensures Select(cs, p, n) == []
  {
    if n > 0 {
      SelectNone(cs, p, n - 1);
    }
  }

  lemma {:induction false} SelectOne(cs: seq<Cell>, p: Row -> bool, n: nat, hit: nat)
    requires hit < n <= |cs| && cs[hit].live && p(cs[hit].row)
    requires forall s :: 0 <= s < n && s != hit ==> !(cs[s].live && p(cs[s].row))
    ensures Select(cs, p, n) == [cs[hit].row]
  {
    if hit == n - 1 {
      SelectNone(cs, p, n - 1);
    } else {
      SelectOne(cs, p, n - 1, hit);
    }
  }

  lemma {:induction false} ScanNone(h: Heap, p: Row -> bool, n: nat)
    requires n <= |h| && forall l :: LiveAt(h, l) && l.page < n ==> !p(RowAt(h, l))
    ensures Scan(h, p, n) == []
  {
    if n > 0 {
      ScanNone(h, p, n - 1);
      var cs := h[n - 1];
      forall s | 0 <= s < |cs| && cs[s].live ensures !p(cs[s].row) {
        assert LiveAt(h, Loc(n - 1, s));
      }
      SelectNone(cs, p, |cs|);
    }
  }

  lemma {:induction false} ScanOne(h: Heap, p: Row -> bool, n: nat, at: Loc)
    requires n <= |h| && LiveAt(h, at) && at.page < n && p(RowAt(h, at))
    requires forall l :: LiveAt(h, l) && l.page < n && l != at ==> !p(RowAt(h, l))
    ensures Scan(h, p, n) == [RowAt(h, at)]
  {
    var cs := h[n - 1];
    if at.page == n - 1 {
      ScanNone(h, p, n - 1);
      forall s | 0 <= s < |cs| && s != at.slot && cs[s].live ensures !p(cs[s].row) {
        assert LiveAt(h, Loc(n - 1, s));
      }
      SelectOne(cs, p, |cs|, at.slot);
    } else {
      ScanOne(h, p, n - 1, at);
      forall s | 0 <= s < |cs| && cs[s].live ensures !p(cs[s].row) {
        assert LiveAt(h, Loc(n - 1, s));
      }
      SelectNone(cs, p, |cs|);
    }
  }

  /** `rows` are the matching live rows of the first `n` slots, and `at` their slots in order. */
  ghost predicate Picks(cs: seq<Cell>, p: Row -> bool, n: nat, at: seq<nat>, rows: seq<Row>)
    requires n <= |cs|
  {
    && |at| == |rows|
    && (forall k :: 0 <= k < |at| ==> at[k] < n && Hit(cs[at[k]], p) && rows[k] == cs[at[k]].row)
    && (forall k, m :: 0 <= k < m < |at| ==> at[k] < at[m])
    && forall s :: 0 <= s < n && Hit(cs[s], p) ==> s in at
  }

  lemma PicksMore(cs: seq<Cell>, p: Row -> bool, n: nat, at: seq<nat>, rows: seq<Row>)
    requires n < |cs| && Picks(cs, p, n, at, rows)
    ensures if Hit(cs[n], p) then Picks(cs, p, n + 1, at + [n], rows + [cs[n].row]) else Picks(cs, p, n + 1, at, rows)
  {
    if Hit(cs[n], p) {
      var at' := at + [n];
      forall s | 0 <= s < n + 1 && Hit(cs[s], p) ensures s in at' {
        if s < n {
          assert s in at;
        } else {
          assert at'[|at|] == n;
        }
      }
    }
  }

  lemma {:induction false} SelectExactly(cs: seq<Cell>, p: Row -> bool, n: nat) returns (at: seq<nat>)
    requires n <= |cs|
    ensures Picks(cs, p, n, at, Select(cs, p, n))
  {
    at := [];
    if n > 0 {
      hide Picks;
      at := SelectExactly(cs, p, n - 1);
      PicksMore(cs, p, n - 1, at, Select(cs, p, n - 1));
      if Hit(cs[n - 1], p) {
        at := at + [n - 1];
      } else {
        assert Select(cs, p, n - 1) + [] == Select(cs, p, n - 1);
      }
    }
  }

  /** `a` comes before `b` in page and slot order. */
  predicate Comes(a: Loc, b: Loc) {
    a.page < b.page || (a.page == b.page && a.slot < b.slot)
  }

  /** `rows` are the matching live rows of the first `n` pages, and `at` their places in order. */
  ghost predicate Finds(h: Heap, p: Row -> bool, n: nat, at: seq<Loc>, rows: seq<Row>) {
    && |at| == |rows|
    && (forall k :: 0 <= k < |at| ==> LiveAt(h, at[k]) && at[k].page < n && p(RowAt(h, at[k])) && rows[k] == RowAt(h, at[k]))
    && (forall k, m :: 0 <= k < m < |at| ==> Comes(at[k], at[m]))
    && forall l :: LiveAt(h, l) && l.page < n && p(RowAt(h, l)) ==> l in at
  }

  function InPage(page: nat, slots: seq<nat>): (at: seq<Loc>)
    ensures |at| == |slots| && forall k :: 0 <= k < |slots| ==> at[k] == Loc(page, slots[k])
  {
    seq(|slots|, k requires 0 <= k < |slots| => Loc(page, slots[k]))
  }

  lemma FindsMore(h: Heap, p: Row -> bool, n: nat, at: seq<Loc>, rows: seq<Row>, slots: seq<nat>, more: seq<Row>)
    requires n < |h| && Finds(h, p, n, at, rows) && Picks(h[n], p, |h[n]|, slots, more)
    ensures Finds(h, p, n + 1, at + InPage(n, slots), rows + more)
  {
    hide InPage;
    var here := InPage(n, slots);
    var all := at + here;
    assert forall k :: 0 <= k < |here| ==> all[|at| + k] == here[k];
    forall l | LiveAt(h, l) && l.page < n + 1 && p(RowAt(h, l)) ensures l in all {
      if l.page == n {
        assert Hit(h[n][l.slot], p) && l.slot in slots;
        var k :| 0 <= k < |slots| && slots[k] == l.slot;
        assert here[k] == l && all[|at| + k] == l;
      } else {
        assert l in at;
      }
    }
  }

  /** The full scan finds every matching live row once, in page and slot order, and nothing else. */
  lemma {:induction false} ScanExactly(h: Heap, p: Row -> bool, n: nat) returns (at: seq<Loc>)
    requires n <= |h|
    ensures Finds(h, p, n, at, Scan(h, p, n))
  {
    at := [];
    if n > 0 {
      hide Select, Finds, Picks;
      at := ScanExactly(h, p, n - 1);
      var slots := SelectExactly(h[n - 1], p, |h[n - 1]|);
      FindsMore(h, p, n - 1, at, Scan(h, p, n - 1), slots, Select(h[n - 1], p, |h[n - 1]|));
      at := at + InPage(n - 1, slots);
    }
  }

  /** The two branches of table_scan agree: an equality on the index column is answered by the
      index exactly as the full scan answers it. */
  lemma LookupIsScan(m: map<int, Loc>, h: Heap, keyOf: Row -> int, p: Row -> bool, k: int)
    requires Agrees(m, h, keyOf) && forall row :: p(row) <==> keyOf(row) == k
    ensures Scan(h, p, |h|) == if k in m then [RowAt(h, m[k])] else []
  {
    if k in m {
      ScanOne(h, p, |h|, m[k]);
    } else {
      ScanNone(h, p, |h|);
    }
  }

  // ---------------------------------------------------------------- delete

  predicate Hit(c: Cell, p: Row -> bool) {
    c.live && p(c.row)
  }

  /** The page after table_delete has seen its first `n` slots. */
  function KillMatching(cs: seq<Cell>, p: Row -> bool, n: nat): (r: seq<Cell>)
    requires n <= |cs|
    ensures |r| == |cs|
    ensures forall i :: 0 <= i < |cs| ==> r[i] == if i < n && Hit(cs[i], p) then cs[i].(live := false) else cs[i]
  {
    if n == 0 then cs
    else
      var before := KillMatching(cs, p, n - 1);
      if Hit(cs[n - 1], p) then Dead(before, n - 1) else before
  }

  /** The heap after table_delete has seen its first `n` pages. */
  function DeleteMatching(h: Heap, p: Row -> bool, n: nat): (r: Heap)
    requires n <= |h|
    ensures |r| == |h|
  {
    if n == 0 then h
    else DeleteMatching(h, p, n - 1)[n - 1 := KillMatching(h[n - 1], p, |h[n - 1]|)]
  }

  lemma {:induction false} DeletedPage(h: Heap, p: Row -> bool, n: nat, q: nat)
    requires n <= |h| && q < |h|
    ensures DeleteMatching(h, p, n)[q] == if q < n then KillMatching(h[q], p, |h[q]|) else h[q]
  {
    if n > 0 {
      DeletedPage(h, p, n - 1, q);
    }
  }

  /** table_delete removes exactly the matching live rows; all others stay where they are. */
  lemma DeleteRemovesMatches(h: Heap, p: Row -> bool, l: Loc)
    ensures var r := DeleteMatching(h, p, |h|);
            && (LiveAt(r, l) <==> LiveAt(h, l) && !p(RowAt(h, l)))
            && (LiveAt(r, l) ==> RowAt(r, l) == RowAt(h, l))
  {
    if l.page < |h| {
      DeletedPage(h, p, |h|, l.page);
    }
    hide DeleteMatching;
  }

  // ---------------------------------------------------------------- update

  /** One slot of table_update: the old version dies and, if it fits, the new version is appended
      to the same page. */
  function UpdateSlot(cs: seq<Cell>, p: Row -> bool, f: Row -> Row, s: nat): seq<Cell>
    requires s < |cs|
  {
    if !Hit(cs[s], p) then cs
    else
      var killed := Dead(cs, s);
      if Fits(killed, |f(cs[s].row)|) then killed + [Cell(f(cs[s].row), true)] else killed
  }

  /** The page after table_update has seen its first `n` slots. */
  function UpdateUpTo(cs: seq<Cell>, p: Row -> bool, f: Row -> Row, n: nat): (r: seq<Cell>)
    requires n <= |cs|
    ensures |r| >= |cs|
  {
    if n == 0 then cs else UpdateSlot(UpdateUpTo(cs, p, f, n - 1), p, f, n - 1)
  }

  /** The new versions of the matching rows among the first `n` slots. */
  function Rewrites(cs: seq<Cell>, p: Row -> bool, f: Row -> Row, n: nat): (r: seq<Cell>)
    requires n <= |cs|
    ensures |r| <= n
    ensures forall i :: 0 <= i < |r| ==> r[i].live
  {
    if n == 0 then []
    else Rewrites(cs, p, f, n - 1) + if Hit(cs[n - 1], p) then [Cell(f(cs[n - 1].row), true)] else []
  }

  /** Every new version fits behind what is on the page: a test that can be made beforehand. */
  predicate AllFit(cs: seq<Cell>, p: Row -> bool, f: Row -> Row) {
    var all := cs + Rewrites(cs, p, f, |cs|);
    Rewrites(cs, p, f, |cs|) == [] || (|all| <= MAX_SLOTS && SlotAt(|all|) + Used(all) <= PAGE_SIZE)
  }

  lemma {:induction false} UsedConcat(a: seq<Cell>, b: seq<Cell>)
    ensures Used(a + b) == Used(a) + Used(b)
  {
    if |b| == 0 {
      assert a + b == a;
    } else {
      UsedConcat(a, b[..|b| - 1]);
      assert (a + b)[..|a + b| - 1] == a + b[..|b| - 1];
    }
  }

  lemma {:induction false} UsedSameRows(a: seq<Cell>, b: seq<Cell>)
    requires |a| == |b| && forall i :: 0 <= i < |a| ==> a[i].row == b[i].row
    ensures Used(a) == Used(b)
  {
    if |a| > 0 {
      UsedSameRows(a[..|a| - 1], b[..|b| - 1]);
    }
  }

  lemma {:induction false} RewritesGrow(cs: seq<Cell>, p: Row -> bool, f: Row -> Row, n: nat, m: nat)
    requires n <= m <= |cs|
    ensures Rewrites(cs, p, f, n) <= Rewrites(cs, p, f, m)
  {
    if n < m {
      RewritesGrow(cs, p, f, n, m - 1);
    }
  }

  /** Whatever fits, the slots that were there before change only by dying. */
  lemma {:induction false} UpdateKills(cs: seq<Cell>, p: Row -> bool, f: Row -> Row, n: nat)
    requires n <= |cs|
    ensures UpdateUpTo(cs, p, f, n)[..|cs|] == KillMatching(cs, p, n)
    ensures |UpdateUpTo(cs, p, f, n)| <= |cs| + |Rewrites(cs, p, f, n)|
    ensures |UpdateUpTo(cs, p, f, n)| == |cs| + |Rewrites(cs, p, f, n)| ==>
              UpdateUpTo(cs, p, f, n) == KillMatching(cs, p, n) + Rewrites(cs, p, f, n)
  {
    if n > 0 {
      UpdateKills(cs, p, f, n - 1);
      var before, after := UpdateUpTo(cs, p, f, n - 1), UpdateUpTo(cs, p, f, n);
      var kills, news := KillMatching(cs, p, n - 1), Rewrites(cs, p, f, n - 1);
      assert before[n - 1] == before[..|cs|][n - 1];
      assert after[..|cs|] == if Hit(cs[n - 1], p) then Dead(before[..|cs|], n - 1) else before[..|cs|];
      assert Dead(kills + news, n - 1) == Dead(kills, n - 1) + news;
    }
  }

  predicate Fill(cs: seq<Cell>, r: seq<Cell>) {
    r == [] || (|cs + r| <= MAX_SLOTS && SlotAt(|cs + r|) + Used(cs) + Used(r) <= PAGE_SIZE)
  }

  lemma FillAll(cs: seq<Cell>, p: Row -> bool, f: Row -> Row)
    ensures AllFit(cs, p, f) <==> Fill(cs, Rewrites(cs, p, f, |cs|))
  {
    UsedConcat(cs, Rewrites(cs, p, f, |cs|));
  }

  lemma FillShrinks(cs: seq<Cell>, r: seq<Cell>, r': seq<Cell>)
    requires Fill(cs, r') && r <= r'
    ensures Fill(cs, r)
  {
    assert r' == r + r'[|r|..];
    UsedConcat(r, r'[|r|..]);
  }

  /** Whether the next version fits, told from the row lengths alone. */
  lemma NextFits(cs: seq<Cell>, ks: seq<Cell>, r: seq<Cell>, row: Row)
    requires |ks| == |cs| && forall i :: 0 <= i < |cs| ==> ks[i].row == cs[i].row
    ensures Fits(ks + r, |row|) <==> Fill(cs, r + [Cell(row, true)])
  {
    UsedSameRows(ks, cs);
    UsedConcat(ks, r);
    UsedConcat(r, [Cell(row, true)]);
    assert [Cell(row, true)][..0] == [];
  }

  /** One more slot, in terms of lengths only. */
  lemma UpdateNext(cs: seq<Cell>, p: Row -> bool, f: Row -> Row, n: nat)
    requires 0 < n <= |cs|
    ensures var before, news := UpdateUpTo(cs, p, f, n - 1), Rewrites(cs, p, f, n - 1);
            if Hit(cs[n - 1], p) then
              |UpdateUpTo(cs, p, f, n)| == |before| + if Fits(Dead(before, n - 1), |f(cs[n - 1].row)|) then 1 else 0
            else UpdateUpTo(cs, p, f, n) == before && Rewrites(cs, p, f, n) == news
  {
    UpdateKills(cs, p, f, n - 1);
    var before := UpdateUpTo(cs, p, f, n - 1);
    assert before[n - 1] == before[..|cs|][n - 1] == cs[n - 1];
  }

  lemma FitsNext(cs: seq<Cell>, kills: seq<Cell>, news: seq<Cell>, s: nat, version: Cell)
    requires version.live && |kills| == |cs| && s < |cs| && forall i :: 0 <= i < |cs| ==> kills[i].row == cs[i].row
    ensures Fits(Dead(kills + news, s), |version.row|) <==> Fill(cs, news + [version])
    ensures Fill(cs, news + [version]) ==> Fill(cs, news)
  {
    assert Dead(kills + news, s) == Dead(kills, s) + news;
    NextFits(cs, Dead(kills, s), news, version.row);
    hide Fill;
    if Fill(cs, news + [version]) {
      FillShrinks(cs, news, news + [version]);
    }
  }

  /** All new versions get in exactly when header, directory and all rows, dead versions included,
      fit the page. */
  lemma {:induction false} AllGetIn(cs: seq<Cell>, p: Row -> bool, f: Row -> Row, n: nat)
    requires n <= |cs|
    ensures |UpdateUpTo(cs, p, f, n)| == |cs| + |Rewrites(cs, p, f, n)| <==> Fill(cs, Rewrites(cs, p, f, n))
  {
    if n > 0 {
      var before, kills, news := UpdateUpTo(cs, p, f, n - 1), KillMatching(cs, p, n - 1), Rewrites(cs, p, f, n - 1);
      AllGetIn(cs, p, f, n - 1);
      UpdateKills(cs, p, f, n - 1);
      UpdateNext(cs, p, f, n);
      if Hit(cs[n - 1], p) {
        var version := Cell(f(cs[n - 1].row), true);
        assert Rewrites(cs, p, f, n) == news + [version];
        hide UpdateUpTo, Rewrites, KillMatching, Fits, Fill;
        FitsNext(cs, kills, news, n - 1, version);
      }
    }
  }

  /** Each matching row that was live at the start is rewritten exactly once, in slot order, and the
      new versions are never visited again, even if they still match: this holds exactly when all
      new versions fit. */
  lemma UpdateIsExact(cs: seq<Cell>, p: Row -> bool, f: Row -> Row)
    ensures UpdateUpTo(cs, p, f, |cs|) == KillMatching(cs, p, |cs|) + Rewrites(cs, p, f, |cs|) <==> AllFit(cs, p, f)
  {
    UpdateKills(cs, p, f, |cs|);
    AllGetIn(cs, p, f, |cs|);
    FillAll(cs, p, f);
    hide AllFit, UpdateUpTo, Rewrites, Fill;
  }

  /** The heap after table_update has seen its first `n` pages. */
  function UpdateMatching(h: Heap, p: Row -> bool, f: Row -> Row, n: nat): (r: Heap)
    requires n <= |h|
    ensures |r| == |h|
  {
    if n == 0 then h
    else UpdateMatching(h, p, f, n - 1)[n - 1 := UpdateUpTo(h[n - 1], p, f, |h[n - 1]|)]
  }

  lemma {:induction false} UpdatedPage(h: Heap, p: Row -> bool, f: Row -> Row, n: nat, q: nat)
    requires n <= |h| && q < |h|
    ensures UpdateMatching(h, p, f, n)[q] == if q < n then UpdateUpTo(h[q], p, f, |h[q]|) else h[q]
  {
    if n > 0 {
      UpdatedPage(h, p, f, n - 1, q);
    }
  }

  predicate EveryPageFits(h: Heap, p: Row -> bool, f: Row -> Row) {
    forall q :: 0 <= q < |h| ==> AllFit(h[q], p, f)
  }

  lemma RewritesStep(cs: seq<Cell>, p: Row -> bool, f: Row -> Row, s: nat)
    requires s < |cs| && Hit(cs[s], p)
    ensures |Rewrites(cs, p, f, s + 1)| == |Rewrites(cs, p, f, s)| + 1
  {
  }

  /** If all new versions fit, those of the first `n` slots have all got in. */
  lemma PrefixGetsIn(cs: seq<Cell>, p: Row -> bool, f: Row -> Row, n: nat)
    requires n <= |cs| && AllFit(cs, p, f)
    ensures |UpdateUpTo(cs, p, f, n)| == |cs| + |Rewrites(cs, p, f, n)|
  {
    hide Used, Fits, UpdateUpTo, Rewrites, Fill, AllFit;
    FillAll(cs, p, f);
    RewritesGrow(cs, p, f, n, |cs|);
    FillShrinks(cs, Rewrites(cs, p, f, n), Rewrites(cs, p, f, |cs|));
    AllGetIn(cs, p, f, n);
  }

  lemma OldSlotKept(cs: seq<Cell>, p: Row -> bool, f: Row -> Row, s: nat)
    requires s < |cs|
    ensures UpdateUpTo(cs, p, f, s)[s] == cs[s]
  {
    hide UpdateUpTo, Rewrites;
    UpdateKills(cs, p, f, s);
    assert UpdateUpTo(cs, p, f, s)[s] == UpdateUpTo(cs, p, f, s)[..|cs|][s];
  }

  /** The version that table_update makes of a matching row always fits, if all of them do. */
  lemma StepFits(cs: seq<Cell>, p: Row -> bool, f: Row -> Row, s: nat)
    requires s < |cs| && AllFit(cs, p, f)
    ensures UpdateUpTo(cs, p, f, s)[s] == cs[s]
    ensures Hit(cs[s], p) ==> Fits(Dead(UpdateUpTo(cs, p, f, s), s), |f(cs[s].row)|)
  {
    hide Used, Fits, UpdateUpTo, Rewrites, AllFit;
    OldSlotKept(cs, p, f, s);
    PrefixGetsIn(cs, p, f, s);
    PrefixGetsIn(cs, p, f, s + 1);
    if Hit(cs[s], p) {
      RewritesStep(cs, p, f, s);
      UpdateNext(cs, p, f, s + 1);
    }
  }

  /** The row in slot `s` is to be rewritten and its new version gets into the page. */
  predicate GetsIn(cs: seq<Cell>, p: Row -> bool, f: Row -> Row, s: nat)
    requires s < |cs|
  {
    Hit(cs[s], p) && Fits(Dead(UpdateUpTo(cs, p, f, s), s), |f(cs[s].row)|)
  }

  /** Where table_update puts the new version of the row at `l`. */
  function NewPlace(h: Heap, p: Row -> bool, f: Row -> Row, l: Loc): Loc
    requires LiveAt(h, l)
  {
    Loc(l.page, |UpdateUpTo(h[l.page], p, f, l.slot)|)
  }

  lemma UpdateGoesOn(cs: seq<Cell>, p: Row -> bool, f: Row -> Row, s: nat)
    requires s < |cs|
    ensures var now, next := UpdateUpTo(cs, p, f, s), UpdateUpTo(cs, p, f, s + 1);
            next == if GetsIn(cs, p, f, s) then Dead(now, s) + [Cell(f(cs[s].row), true)]
                    else if Hit(cs[s], p) then Dead(now, s) else now
  {
    OldSlotKept(cs, p, f, s);
    hide Fits;
  }

  lemma OldSlotAfter(cs: seq<Cell>, p: Row -> bool, f: Row -> Row, j: nat)
    requires j < |cs|
    ensures UpdateUpTo(cs, p, f, |cs|)[j] == if Hit(cs[j], p) then cs[j].(live := false) else cs[j]
  {
    hide UpdateUpTo, Rewrites;
    UpdateKills(cs, p, f, |cs|);
    assert UpdateUpTo(cs, p, f, |cs|)[j] == UpdateUpTo(cs, p, f, |cs|)[..|cs|][j];
  }

  /** A new version is not visited again, so it stays. */
  lemma {:induction false} NewSlotStays(cs: seq<Cell>, p: Row -> bool, f: Row -> Row, n: nat, m: nat, j: nat)
    requires n <= m <= |cs| <= j < |UpdateUpTo(cs, p, f, n)|
    ensures j < |UpdateUpTo(cs, p, f, m)| && UpdateUpTo(cs, p, f, m)[j] == UpdateUpTo(cs, p, f, n)[j]
    decreases m
  {
    hide UpdateUpTo, GetsIn;
    if n < m {
      NewSlotStays(cs, p, f, n, m - 1, j);
      UpdateGoesOn(cs, p, f, m - 1);
    }
  }

  /** Every new slot was filled when some row was rewritten. */
  lemma {:induction false} NewSlotFrom(cs: seq<Cell>, p: Row -> bool, f: Row -> Row, n: nat, j: nat) returns (s: nat)
    requires n <= |cs| <= j < |UpdateUpTo(cs, p, f, n)|
    ensures s < n && GetsIn(cs, p, f, s) && |UpdateUpTo(cs, p, f, s)| == j
  {
    assert n > 0;
    hide UpdateUpTo, GetsIn;
    UpdateGoesOn(cs, p, f, n - 1);
    if j < |UpdateUpTo(cs, p, f, n - 1)| {
      s := NewSlotFrom(cs, p, f, n - 1, j);
    } else {
      s := n - 1;
    }
  }

  /** Different rows get different new slots. */
  lemma NewSlotsDiffer(cs: seq<Cell>, p: Row -> bool, f: Row -> Row, s: nat, t: nat)
    requires s < t < |cs| && GetsIn(cs, p, f, s)
    ensures |UpdateUpTo(cs, p, f, s)| < |UpdateUpTo(cs, p, f, t)|
  {
    hide UpdateUpTo, GetsIn;
    UpdateGoesOn(cs, p, f, s);
    NewSlotStays(cs, p, f, s + 1, t, |UpdateUpTo(cs, p, f, s)|);
  }

  /** No Halloween problem: a row that matched at the start dies and gets one new version in its page
      if that fits at its turn, even if the version matches again; every other row is untouched. */
  lemma UpdateOncePerRow(h: Heap, p: Row -> bool, f: Row -> Row, l: Loc)
    requires LiveAt(h, l)
    ensures var r, to := UpdateMatching(h, p, f, |h|), NewPlace(h, p, f, l);
            if p(RowAt(h, l)) then
              && !LiveAt(r, l)
              && (GetsIn(h[l.page], p, f, l.slot) ==> LiveAt(r, to) && RowAt(r, to) == f(RowAt(h, l)) && !LiveAt(h, to))
              && (EveryPageFits(h, p, f) ==> GetsIn(h[l.page], p, f, l.slot))
            else
              LiveAt(r, l) && RowAt(r, l) == RowAt(h, l)
  {
    hide UpdateMatching, UpdateUpTo, AllFit, Fits, GetsIn;
    UpdatedPage(h, p, f, |h|, l.page);
    SlotRewritten(h[l.page], p, f, l.slot);
  }

  /** The same for one slot of one page. */
  lemma SlotRewritten(cs: seq<Cell>, p: Row -> bool, f: Row -> Row, s: nat)
    requires s < |cs|
    ensures var r, to := UpdateUpTo(cs, p, f, |cs|), |UpdateUpTo(cs, p, f, s)|;
            && r[s] == (if Hit(cs[s], p) then cs[s].(live := false) else cs[s])
            && (GetsIn(cs, p, f, s) ==> |cs| <= to < |r| && r[to] == Cell(f(cs[s].row), true))
            && (AllFit(cs, p, f) && Hit(cs[s], p) ==> GetsIn(cs, p, f, s))
  {
    hide UpdateUpTo, AllFit, Fits;
    OldSlotAfter(cs, p, f, s);
    if GetsIn(cs, p, f, s) {
      UpdateGoesOn(cs, p, f, s);
      NewSlotStays(cs, p, f, s + 1, |cs|, |UpdateUpTo(cs, p, f, s)|);
    }
    if AllFit(cs, p, f) {
      StepFits(cs, p, f, s);
    }
  }

  /** And nothing else is live afterwards: every live row is an untouched one or the new version of
      exactly one old row. */
  lemma UpdateAddsNothingElse(h: Heap, p: Row -> bool, f: Row -> Row, l: Loc) returns (from: Loc)
    requires LiveAt(UpdateMatching(h, p, f, |h|), l)
    ensures LiveAt(h, from)
    ensures if p(RowAt(h, from)) then GetsIn(h[from.page], p, f, from.slot) && l == NewPlace(h, p, f, from) else l == from
    ensures forall other :: LiveAt(h, other) && GetsIn(h[other.page], p, f, other.slot) && l == NewPlace(h, p, f, other) ==> other == from
  {
    hide UpdateMatching, UpdateUpTo, Fits;
    var cs := h[l.page];
    UpdatedPage(h, p, f, |h|, l.page);
    if l.slot < |cs| {
      OldSlotAfter(cs, p, f, l.slot);
      from := l;
    } else {
      var s := NewSlotFrom(cs, p, f, |cs|, l.slot);
      from := Loc(l.page, s);
      hide GetsIn;
      forall other | LiveAt(h, other) && GetsIn(h[other.page], p, f, other.slot) && l == NewPlace(h, p, f, other) ensures other == from {
        if other.slot < s {
          NewSlotsDiffer(cs, p, f, other.slot, s);
        } else if s < other.slot {
          NewSlotsDiffer(cs, p, f, s, other.slot);
        }
      }
    }
  }

  // ---------------------------------------------------------------- an update that loses its row

  /** A page whose directory is full: one live row behind 127 dead versions. */
  function LastSlotTaken(row: Row): seq<Cell> {
    seq(MAX_SLOTS - 1, _ => Cell([], false)) + [Cell(row, true)]
  }

  /** Updating that row, to whatever value, loses it: the index agreed with the page before, and still
      points at the dead slot afterwards. */
  lemma UpdateLosesRow(row: Row, p: Row -> bool, f: Row -> Row, keyOf: Row -> int)
    requires p(row)
    ensures var h, m, at := [LastSlotTaken(row)], map[keyOf(row) := Loc(0, MAX_SLOTS - 1)], Loc(0, MAX_SLOTS - 1);
            var r := UpdateMatching(h, p, f, 1);
            && LiveAt(h, at) && RowAt(h, at) == row && Agrees(m, h, keyOf)
            && !GetsIn(h[0], p, f, at.slot)
            && (forall l :: !LiveAt(r, l)) && !Agrees(m, r, keyOf)
  {
    var h, at := [LastSlotTaken(row)], Loc(0, MAX_SLOTS - 1);
    var r := UpdateMatching(h, p, f, 1);
    assert forall l :: LiveAt(h, l) ==> l == at;
    hide UpdateMatching;
    forall l ensures !LiveAt(r, l) {
      if LiveAt(r, l) {
        hide UpdateUpTo;
        var from := UpdateAddsNothingElse(h, p, f, l);
      }
    }
    if Agrees(map[keyOf(row) := at], r, keyOf) {
      EntryIsLive(map[keyOf(row) := at], r, keyOf, keyOf(row));
    }
  }

  lemma EntryIsLive(m: map<int, Loc>, h: Heap, keyOf: Row -> int, k: int)
    requires Agrees(m, h, keyOf) && k in m
    ensures LiveAt(h, m[k])
  {
  }

  // ---------------------------------------------------------------- update and index

  /** One update step keeps the agreement exactly when the new version fits: when it does not, the
      row is gone and the index still points at it. */
  lemma UpdateStepAgrees(m: map<int, Loc>, h: Heap, keyOf: Row -> int, d: Loc, row: Row)
    requires Agrees(m, h, keyOf) && LiveAt(h, d) && keyOf(row) !in m - {keyOf(RowAt(h, d))}
    ensures var oldKey := keyOf(RowAt(h, d));
            var killed := Kill(h, d);
            var fits := Fits(killed[d.page], |row|);
            var m' := if fits then (m - {oldKey})[keyOf(row) := Loc(d.page, |h[d.page]|)] else m;
            var h' := if fits then Append(killed, d.page, row) else killed;
            Agrees(m', h', keyOf) <==> fits
  {
    var oldKey, killed := keyOf(RowAt(h, d)), Kill(h, d);
    KillAgrees(m, h, keyOf, d);
    AppendAgrees(m - {oldKey}, killed, keyOf, d.page, row);
    KillRemoves(h, d, d);
    assert |killed[d.page]| == |h[d.page]|;
    assert oldKey in m && m[oldKey] == d;
  }

  /** Rewriting the given rows one after the other never produces a key that is in use. */
  ghost predicate KeysFree(keys: set<int>, rows: seq<Row>, keyOf: Row -> int, f: Row -> Row)
    decreases |rows|
  {
    |rows| == 0 ||
    var rest := keys - {keyOf(rows[0])};
    keyOf(f(rows[0])) !in rest && KeysFree(rest + {keyOf(f(rows[0]))}, rows[1..], keyOf, f)
  }

  /** An update of another column never runs into a used key. */
  lemma {:induction false} SameKeysFree(keys: set<int>, rows: seq<Row>, keyOf: Row -> int, f: Row -> Row)
    requires forall row :: row in rows ==> keyOf(f(row)) == keyOf(row)
    ensures KeysFree(keys, rows, keyOf, f)
    decreases |rows|
  {
    if |rows| > 0 {
      SameKeysFree(keys - {keyOf(rows[0])} + {keyOf(f(rows[0]))}, rows[1..], keyOf, f);
    }
  }

  // ---------------------------------------------------------------- how far a scan has come

  lemma {:induction false} SelectGrows(cs: seq<Cell>, p: Row -> bool, n: nat, m: nat)
    requires n <= m <= |cs|
    ensures Select(cs, p, n) <= Select(cs, p, m)
  {
    if n < m {
      SelectGrows(cs, p, n, m - 1);
    }
  }

  lemma {:induction false} ScanGrows(h: Heap, p: Row -> bool, n: nat, m: nat)
    requires n <= m <= |h|
    ensures Scan(h, p, n) <= Scan(h, p, m)
  {
    if n < m {
      ScanGrows(h, p, n, m - 1);
    }
  }

  // ---------------------------------------------------------------- rebuilding the index

  predicate Before(l: Loc, q: nat, s: nat) {
    l.page < q || (l.page == q && l.slot < s)
  }

  /** Live rows have pairwise different keys. */
  ghost predicate DistinctKeys(h: Heap, keyOf: Row -> int) {
    forall l, l' :: LiveAt(h, l) && LiveAt(h, l') && keyOf(RowAt(h, l)) == keyOf(RowAt(h, l')) ==> l == l'
  }

  /** The index agrees with the rows before slot `s` of page `q`. */
  ghost predicate AgreesUpTo(m: map<int, Loc>, h: Heap, keyOf: Row -> int, q: nat, s: nat) {
    && (forall k :: k in m ==> LiveAt(h, m[k]) && keyOf(RowAt(h, m[k])) == k && Before(m[k], q, s))
    && (forall l :: LiveAt(h, l) && Before(l, q, s) ==> keyOf(RowAt(h, l)) in m && m[keyOf(RowAt(h, l))] == l)
  }

  /** One slot of the rebuild in table_open. */
  lemma AgreesNextSlot(m: map<int, Loc>, h: Heap, keyOf: Row -> int, q: nat, s: nat)
    requires AgreesUpTo(m, h, keyOf, q, s) && DistinctKeys(h, keyOf)
    ensures var l := Loc(q, s);
            if LiveAt(h, l) then keyOf(RowAt(h, l)) !in m && AgreesUpTo(m[keyOf(RowAt(h, l)) := l], h, keyOf, q, s + 1)
            else AgreesUpTo(m, h, keyOf, q, s + 1)
  {
    var l := Loc(q, s);
    forall o: Loc ensures Before(o, q, s + 1) <==> Before(o, q, s) || o == l {
    }
    hide LiveAt, RowAt;
    assert !Before(l, q, s);
    assert forall k :: k in m ==> m[k] != l;
  }

  lemma AgreesNextPage(m: map<int, Loc>, h: Heap, keyOf: Row -> int, q: nat, s: nat)
    requires AgreesUpTo(m, h, keyOf, q, s) && (q < |h| ==> s == |h[q]|)
    ensures AgreesUpTo(m, h, keyOf, q + 1, 0)
    ensures q >= |h| ==> Agrees(m, h, keyOf)
  {
  }
}
