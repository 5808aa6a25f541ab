/** The B+ tree as a mathematical object.

    A tree value records the keys and row locations of every node of the linked structure in
    `Index`, and the identity of every leaf, so that both the stored map and the order of the
    leaf chain are functions of the tree.  The recursive functions follow the node-level code
    branch by branch; the lemmas show that, for distinct keys, they implement a finite map. */
module BTree {

  /** INDEX_ORDER: a node splits as soon as it holds this many keys. */
  const ORDER: nat := 4
  const MID: nat := ORDER / 2

  /** RowLocation: where a row lives in its table. */
  datatype Loc = Loc(page: nat, slot: nat)

  datatype Entry = Entry(key: int, loc: Loc)

  datatype Tree<T> =
    | Leaf(id: T, entries: seq<Entry>)
    | Inner(id: T, keys: seq<int>, kids: seq<Tree<T>>)

  /** What inserting into a subtree gives back: the subtree, or two halves and the key that
      separates them. */
  datatype Grown<T> = Whole(tree: Tree<T>) | Parted(left: Tree<T>, key: int, right: Tree<T>)

  datatype Bound = Open | At(key: int)

  predicate AtLeast(lo: Bound, k: int) { lo.At? ==> lo.key <= k }

  predicate Over(lo: Bound, k: int) { lo.At? ==> lo.key < k }

  predicate Under(k: int, hi: Bound) { hi.At? ==> k < hi.key }

  // ---------------------------------------------------------------- positions

  function InsertAt<A>(s: seq<A>, i: nat, a: A): seq<A>
    requires i <= |s|
  {
    s[..i] + [a] + s[i..]
  }

  function RemoveAt<A>(s: seq<A>, i: nat): seq<A>
    requires i < |s|
  {
    s[..i] + s[i + 1..]
  }

  /** The child a search descends to: the first slot whose key is above `k`, scanning from the left. */
  function Route(keys: seq<int>, k: int): (i: nat)
    ensures i <= |keys|
    ensures forall j :: 0 <= j < i ==> keys[j] <= k
    ensures i < |keys| ==> k < keys[i]
  {
    RouteFrom(keys, k, 0)
  }

  function RouteFrom(keys: seq<int>, k: int, n: nat): (i: nat)
    requires n <= |keys|
    ensures n <= i <= |keys|
    ensures forall j :: n <= j < i ==> keys[j] <= k
    ensures i < |keys| ==> k < keys[i]
    decreases |keys| - n
  {
    if n < |keys| && k >= keys[n] then RouteFrom(keys, k, n + 1) else n
  }

  /** Where a promoted key goes: after the last key that is not above `k`, scanning from the right. */
  function KeyPos(keys: seq<int>, k: int): (i: nat)
    ensures i <= |keys|
    ensures forall j :: i <= j < |keys| ==> k < keys[j]
    ensures 0 < i ==> keys[i - 1] <= k
  {
    KeyPosDown(keys, k, |keys|)
  }

  function KeyPosDown(keys: seq<int>, k: int, n: nat): (i: nat)
    requires n <= |keys|
    ensures i <= n
    ensures forall j :: i <= j < n ==> k < keys[j]
    ensures 0 < i ==> keys[i - 1] <= k
  {
    if n > 0 && keys[n - 1] > k then KeyPosDown(keys, k, n - 1) else n
  }

  /** Where a new entry goes in a leaf, scanning from the right. */
  function EntryPos(es: seq<Entry>, k: int): (i: nat)
    ensures i <= |es|
    ensures forall j :: i <= j < |es| ==> k < es[j].key
    ensures 0 < i ==> es[i - 1].key <= k
  {
    EntryPosDown(es, k, |es|)
  }

  function EntryPosDown(es: seq<Entry>, k: int, n: nat): (i: nat)
    requires n <= |es|
    ensures i <= n
    ensures forall j :: i <= j < n ==> k < es[j].key
    ensures 0 < i ==> es[i - 1].key <= k
  {
    if n > 0 && es[n - 1].key > k then EntryPosDown(es, k, n - 1) else n
  }

  /** The first entry with key `k`, or the length when there is none. */
  function Find(es: seq<Entry>, k: int): (i: nat)
    ensures i <= |es|
    ensures forall j :: 0 <= j < i ==> es[j].key != k
    ensures i < |es| ==> es[i].key == k
  {
    FindFrom(es, k, 0)
  }

  function FindFrom(es: seq<Entry>, k: int, n: nat): (i: nat)
    requires n <= |es|
    ensures n <= i <= |es|
    ensures forall j :: n <= j < i ==> es[j].key != k
    ensures i < |es| ==> es[i].key == k
    decreases |es| - n
  {
    if n < |es| && es[n].key != k then FindFrom(es, k, n + 1) else n
  }

  // ---------------------------------------------------------------- sorted entry lists

  predicate Sorted(es: seq<Entry>) {
    forall i, j :: 0 <= i < j < |es| ==> es[i].key < es[j].key
  }

  predicate Increasing(keys: seq<int>) {
    forall i, j :: 0 <= i < j < |keys| ==> keys[i] < keys[j]
  }

  predicate Below(es: seq<Entry>, k: int) {
    forall i :: 0 <= i < |es| ==> es[i].key < k
  }

  predicate Above(k: int, es: seq<Entry>) {
    forall i :: 0 <= i < |es| ==> k < es[i].key
  }

  function Put(es: seq<Entry>, k: int, loc: Loc): (r: seq<Entry>)
    ensures |r| == |es| + 1
  {
    InsertAt(es, EntryPos(es, k), Entry(k, loc))
  }

  function Drop(es: seq<Entry>, k: int): seq<Entry> {
    var i := Find(es, k);
    if i < |es| then RemoveAt(es, i) else es
  }

  predicate Has(es: seq<Entry>, k: int) {
    Find(es, k) < |es|
  }

  /** The finite map a list of entries stands for. */
  function ToMap(es: seq<Entry>): map<int, Loc> {
    map k | k in Keys(es) && Has(es, k) :: es[Find(es, k)].loc
  }

  function Keys(es: seq<Entry>): set<int> {
    set i | 0 <= i < |es| :: es[i].key
  }

  // ---------------------------------------------------------------- trees

  ghost predicate Shape<T>(t: Tree<T>, h: nat) {
    match t
    case Leaf(_, es) => h == 0 && |es| < ORDER
    case Inner(id, keys, kids) =>
      && 0 < h
      && 1 <= |keys| < ORDER
      && |kids| == |keys| + 1
      && forall i :: 0 <= i < |kids| ==> Shape(kids[i], h - 1)
  }

  /** Every key of the subtree lies in the half-open range from `lo` to `hi`, leaves and
      separators are strictly increasing, and child `i` keeps to its own separators. */
  ghost predicate Ordered<T>(t: Tree<T>, lo: Bound, hi: Bound) {
    match t
    case Leaf(_, es) =>
      && Sorted(es)
      && forall i :: 0 <= i < |es| ==> AtLeast(lo, es[i].key) && Under(es[i].key, hi)
    case Inner(id, keys, kids) =>
      && Increasing(keys)
      && |kids| == |keys| + 1
      && (forall i :: 0 <= i < |keys| ==> Over(lo, keys[i]) && Under(keys[i], hi))
      && forall i :: 0 <= i < |kids| ==> Ordered(kids[i], LoOf(keys, i, lo), HiOf(keys, i, hi))
  }

  function LoOf(keys: seq<int>, i: nat, lo: Bound): Bound
    requires i <= |keys|
  {
    if i == 0 then lo else At(keys[i - 1])
  }

  function HiOf(keys: seq<int>, i: nat, hi: Bound): Bound
    requires i <= |keys|
  {
    if i == |keys| then hi else At(keys[i])
  }

  /** All entries, left to right. */
  ghost function Entries<T>(t: Tree<T>): seq<Entry> {
    match t
    case Leaf(_, es) => es
    case Inner(_, _, kids) => AllEntries(kids)
  }

  ghost function AllEntries<T>(ts: seq<Tree<T>>): seq<Entry> {
    if |ts| == 0 then [] else Entries(ts[0]) + AllEntries(ts[1..])
  }

  /** The leaves, left to right. */
  ghost function Leaves<T>(t: Tree<T>): seq<T> {
    match t
    case Leaf(id, _) => [id]
    case Inner(_, _, kids) => AllLeaves(kids)
  }

  ghost function AllLeaves<T>(ts: seq<Tree<T>>): seq<T> {
    if |ts| == 0 then [] else Leaves(ts[0]) + AllLeaves(ts[1..])
  }

  /** Number of nodes. */
  ghost function Size<T>(t: Tree<T>): nat {
    match t
    case Leaf(_, _) => 1
    case Inner(_, _, kids) => 1 + AllSizes(kids)
  }

  ghost function AllSizes<T>(ts: seq<Tree<T>>): nat {
    if |ts| == 0 then 0 else Size(ts[0]) + AllSizes(ts[1..])
  }

  // ---------------------------------------------------------------- operations

  ghost function FindLeaf<T>(t: Tree<T>, h: nat, k: int): (l: Tree<T>)
    requires Shape(t, h)
    ensures l.Leaf? && |l.entries| < ORDER
  {
    match t
    case Leaf(_, _) => t
    case Inner(id, keys, kids) => FindLeaf(kids[Route(keys, k)], h - 1, k)
  }

  ghost function SplitLeaf<T>(id: T, es: seq<Entry>, newId: T): Grown<T>
    requires |es| == ORDER
  {
    Parted(Leaf(id, es[..MID]), es[MID].key, Leaf(newId, es[MID..]))
  }

  ghost function SplitInner<T>(id: T, keys: seq<int>, kids: seq<Tree<T>>, newId: T): Grown<T>
    requires |keys| == ORDER && |kids| == ORDER + 1
  {
    Parted(Inner(id, keys[..MID], kids[..MID + 1]), keys[MID], Inner(newId, keys[MID + 1..], kids[MID + 1..]))
  }

  /** What a node does with its child's result. */
  ghost function Adopt<T>(id: T, keys: seq<int>, kids: seq<Tree<T>>, i: nat, child: Grown<T>, newId: T): Grown<T>
    requires 1 <= |keys| < ORDER && |kids| == |keys| + 1 && i < |kids|
  {
    match child
    case Whole(c) => Whole(Inner(id, keys, kids[i := c]))
    case Parted(l, m, r) =>
      var j := KeyPos(keys, m);
      var keys' := InsertAt(keys, j, m);
      var kids' := InsertAt(kids[i := l], j + 1, r);
      if |keys'| == ORDER then SplitInner(id, keys', kids', newId) else Whole(Inner(id, keys', kids'))
  }

  /** insert_recursive; `newId` names the leaf that a leaf split allocates. */
  ghost function InsertRec<T>(t: Tree<T>, h: nat, k: int, loc: Loc, ids: seq<T>): Grown<T>
    requires |ids| > h
    requires Shape(t, h)
  {
    match t
    case Leaf(id, es) =>
      var es' := Put(es, k, loc);
      if |es'| == ORDER then SplitLeaf(id, es', ids[0]) else Whole(Leaf(id, es'))
    case Inner(id, keys, kids) =>
      var i := Route(keys, k);
      Adopt(id, keys, kids, i, InsertRec(kids[i], h - 1, k, loc, ids), ids[h])
  }

  ghost function Plant<T>(g: Grown<T>, newId: T): Tree<T> {
    match g
    case Whole(t) => t
    case Parted(l, m, r) => Inner(newId, [m], [l, r])
  }

  /** INDEX_insert: a split of the root grows a new root. */
  ghost function Insert<T>(t: Tree<T>, h: nat, k: int, loc: Loc, ids: seq<T>): Tree<T>
    requires |ids| == h + 2
    requires Shape(t, h)
  {
    Plant(InsertRec(t, h, k, loc, ids), ids[h + 1])
  }

  ghost function Delete<T>(t: Tree<T>, h: nat, k: int): Tree<T>
    requires Shape(t, h)
  {
    match t
    case Leaf(id, es) => Leaf(id, Drop(es, k))
    case Inner(id, keys, kids) =>
      var i := Route(keys, k);
      Inner(id, keys, kids[i := Delete(kids[i], h - 1, k)])
  }

  /** Height after an insertion. */
  ghost function NextHeight<T>(t: Tree<T>, h: nat, k: int, loc: Loc, ids: seq<T>): nat
    requires |ids| == h + 2
    requires Shape(t, h)
  {
    if InsertRec(t, h, k, loc, ids).Parted? then h + 1 else h
  }

  /** A subtree of height h uses only the first h + 1 names. */
  lemma {:induction false} InsertRecNames<T>(t: Tree<T>, h: nat, k: int, loc: Loc, ids: seq<T>, more: seq<T>)
    requires |ids| > h && Shape(t, h)
    ensures InsertRec(t, h, k, loc, ids) == InsertRec(t, h, k, loc, ids + more)
  {
    if t.Inner? {
      InsertRecNames(t.kids[Route(t.keys, k)], h - 1, k, loc, ids, more);
    }
  }

  /** The left half of a split, like an unsplit node, keeps its name. */
  lemma {:induction false} InsertRecKeepsName<T>(t: Tree<T>, h: nat, k: int, loc: Loc, ids: seq<T>)
    requires |ids| > h && Shape(t, h)
    ensures match InsertRec(t, h, k, loc, ids) case Whole(t') => t'.id == t.id case Parted(l, _, r) => l.id == t.id && r.id == ids[h]
  {
  }

  // ---------------------------------------------------------------- concatenation

  lemma {:induction false} AllEntriesConcat<T>(a: seq<Tree<T>>, b: seq<Tree<T>>)
    ensures AllEntries(a + b) == AllEntries(a) + AllEntries(b)
  {
    if |a| == 0 {
      assert a + b == b;
    } else {
      assert (a + b)[1..] == a[1..] + b;
      AllEntriesConcat(a[1..], b);
    }
  }

  lemma {:induction false} AllLeavesConcat<T>(a: seq<Tree<T>>, b: seq<Tree<T>>)
    ensures AllLeaves(a + b) == AllLeaves(a) + AllLeaves(b)
  {
    if |a| == 0 {
      assert a + b == b;
    } else {
      assert (a + b)[1..] == a[1..] + b;
      AllLeavesConcat(a[1..], b);
    }
  }

  /** A child list cut around child `i`. */
  lemma EntriesAround<T>(ts: seq<Tree<T>>, i: nat)
    requires i < |ts|
    ensures AllEntries(ts) == AllEntries(ts[..i]) + Entries(ts[i]) + AllEntries(ts[i + 1..])
  {
    assert ts == ts[..i] + ts[i..] && ts[i..][1..] == ts[i + 1..];
    AllEntriesConcat(ts[..i], ts[i..]);
  }

  lemma LeavesAround<T>(ts: seq<Tree<T>>, i: nat)
    requires i < |ts|
    ensures AllLeaves(ts) == AllLeaves(ts[..i]) + Leaves(ts[i]) + AllLeaves(ts[i + 1..])
  {
    assert ts == ts[..i] + ts[i..] && ts[i..][1..] == ts[i + 1..];
    AllLeavesConcat(ts[..i], ts[i..]);
  }

  lemma ReplaceKid<T>(kids: seq<Tree<T>>, i: nat, c: Tree<T>)
    requires i < |kids|
    ensures AllEntries(kids[i := c]) == AllEntries(kids[..i]) + Entries(c) + AllEntries(kids[i + 1..])
    ensures AllLeaves(kids[i := c]) == AllLeaves(kids[..i]) + Leaves(c) + AllLeaves(kids[i + 1..])
  {
    var kids' := kids[i := c];
    assert kids'[..i] == kids[..i] && kids'[i + 1..] == kids[i + 1..];
    EntriesAround(kids', i);
    LeavesAround(kids', i);
  }

  // ---------------------------------------------------------------- shape

  ghost predicate GrownShape<T>(g: Grown<T>, h: nat) {
    match g
    case Whole(t) => Shape(t, h)
    case Parted(l, _, r) => Shape(l, h) && Shape(r, h)
  }

  lemma AdoptShape<T>(id: T, keys: seq<int>, kids: seq<Tree<T>>, i: nat, child: Grown<T>, newId: T, h: nat)
    requires Shape(Inner(id, keys, kids), h) && i < |kids| && GrownShape(child, h - 1)
    ensures GrownShape(Adopt(id, keys, kids, i, child, newId), h)
  {
    if child.Parted? {
      var kids' := InsertAt(kids[i := child.left], KeyPos(keys, child.key) + 1, child.right);
      assert forall j :: 0 <= j < |kids'| ==> Shape(kids'[j], h - 1);
    }
  }

  /** No insertion, of whatever key, ever leaves an over-full node or a leaf at another depth. */
  lemma {:induction false} InsertRecShape<T>(t: Tree<T>, h: nat, k: int, loc: Loc, ids: seq<T>)
    requires |ids| > h
    requires Shape(t, h)
    ensures GrownShape(InsertRec(t, h, k, loc, ids), h)
  {
    match t
    case Leaf(_, es) =>
    case Inner(id, keys, kids) =>
      var i := Route(keys, k);
      var child := InsertRec(kids[i], h - 1, k, loc, ids);
      InsertRecShape(kids[i], h - 1, k, loc, ids);
      AdoptShape(id, keys, kids, i, child, ids[h], h);
      assert InsertRec(t, h, k, loc, ids) == Adopt(id, keys, kids, i, child, ids[h]);
  }

  lemma InsertShape<T>(t: Tree<T>, h: nat, k: int, loc: Loc, ids: seq<T>)
    requires |ids| == h + 2
    requires Shape(t, h)
    ensures Shape(Insert(t, h, k, loc, ids), NextHeight(t, h, k, loc, ids))
  {
    InsertRecShape(t, h, k, loc, ids);
  }

  lemma {:induction false} DeleteShape<T>(t: Tree<T>, h: nat, k: int)
    requires Shape(t, h)
    ensures Shape(Delete(t, h, k), h)
  {
    match t
    case Leaf(_, es) =>
    case Inner(id, keys, kids) => DeleteShape(kids[Route(keys, k)], h - 1, k);
  }

  // ---------------------------------------------------------------- what surrounds the routed leaf

  /** The entries left of the leaf that `k` is routed to. */
  ghost function Pre<T>(t: Tree<T>, h: nat, k: int): seq<Entry>
    requires Shape(t, h)
  {
    match t
    case Leaf(_, _) => []
    case Inner(id, keys, kids) =>
      var i := Route(keys, k);
      AllEntries(kids[..i]) + Pre(kids[i], h - 1, k)
  }

  /** The entries right of that leaf. */
  ghost function Post<T>(t: Tree<T>, h: nat, k: int): seq<Entry>
    requires Shape(t, h)
  {
    match t
    case Leaf(_, _) => []
    case Inner(id, keys, kids) =>
      var i := Route(keys, k);
      Post(kids[i], h - 1, k) + AllEntries(kids[i + 1..])
  }

  /** The leaves on either side of it. */
  ghost function LeavesBefore<T>(t: Tree<T>, h: nat, k: int): seq<T>
    requires Shape(t, h)
  {
    match t
    case Leaf(_, _) => []
    case Inner(id, keys, kids) =>
      var i := Route(keys, k);
      AllLeaves(kids[..i]) + LeavesBefore(kids[i], h - 1, k)
  }

  ghost function LeavesAfter<T>(t: Tree<T>, h: nat, k: int): seq<T>
    requires Shape(t, h)
  {
    match t
    case Leaf(_, _) => []
    case Inner(id, keys, kids) =>
      var i := Route(keys, k);
      LeavesAfter(kids[i], h - 1, k) + AllLeaves(kids[i + 1..])
  }

  lemma {:induction false} EntriesInRange<T>(t: Tree<T>, lo: Bound, hi: Bound)
    requires Ordered(t, lo, hi)
    ensures Sorted(Entries(t))
    ensures forall i :: 0 <= i < |Entries(t)| ==> AtLeast(lo, Entries(t)[i].key) && Under(Entries(t)[i].key, hi)
    decreases t, 1
  {
    match t
    case Leaf(_, _) =>
    case Inner(id, keys, kids) => KidsInRange(t, 0, lo, hi);
  }

  /** The children from `n` on hold sorted entries from their lower separator up. */
  lemma {:induction false} KidsInRange<T>(t: Tree<T>, n: nat, lo: Bound, hi: Bound)
    requires t.Inner? && Ordered(t, lo, hi) && n <= |t.kids|
    ensures Sorted(AllEntries(t.kids[n..]))
    ensures forall i :: 0 <= i < |AllEntries(t.kids[n..])| ==>
              (n < |t.kids| ==> AtLeast(LoOf(t.keys, n, lo), AllEntries(t.kids[n..])[i].key))
              && Under(AllEntries(t.kids[n..])[i].key, hi)
    decreases t, 0, |t.kids| - n
  {
    if n < |t.kids| {
      var rest := t.kids[n..];
      assert rest[1..] == t.kids[n + 1..];
      assert t.kids[n] in t.kids;
      EntriesInRange(t.kids[n], LoOf(t.keys, n, lo), HiOf(t.keys, n, hi));
      KidsInRange(t, n + 1, lo, hi);
    }
  }

  lemma Regroup<A>(a: seq<A>, b: seq<A>, c: seq<A>, d: seq<A>, e: seq<A>)
    ensures a + (b + c + d) + e == (a + b) + c + (d + e)
  {
  }

  lemma {:induction false} DescendEntries<T>(t: Tree<T>, h: nat, k: int)
    requires Shape(t, h)
    ensures Entries(t) == Pre(t, h, k) + FindLeaf(t, h, k).entries + Post(t, h, k)
  {
    match t
    case Leaf(_, _) =>
    case Inner(id, keys, kids) =>
      var i := Route(keys, k);
      var kid, left, right := kids[i], AllEntries(kids[..i]), AllEntries(kids[i + 1..]);
      DescendEntries(kid, h - 1, k);
      EntriesAround(kids, i);
      Regroup(left, Pre(kid, h - 1, k), FindLeaf(kid, h - 1, k).entries, Post(kid, h - 1, k), right);
  }

  /** A search for `k` looks in the one leaf that can hold it. */
  lemma {:induction false} Descend<T>(t: Tree<T>, h: nat, k: int, lo: Bound, hi: Bound)
    requires Shape(t, h) && Ordered(t, lo, hi)
    ensures Below(Pre(t, h, k), k) && Above(k, Post(t, h, k))
  {
    match t
    case Leaf(_, _) =>
    case Inner(id, keys, kids) =>
      var i := Route(keys, k);
      Descend(kids[i], h - 1, k, LoOf(keys, i, lo), HiOf(keys, i, hi));
      assert Below(AllEntries(kids[..i]), k) by { KidsBelow(t, i, lo, hi); }
      assert Above(k, AllEntries(kids[i + 1..])) by {
        if i < |keys| {
          KidsInRange(t, i + 1, lo, hi);
        }
      }
  }

  /** The children left of child `i` stay below its lower separator. */
  lemma {:induction false} KidsBelow<T>(t: Tree<T>, i: nat, lo: Bound, hi: Bound)
    requires t.Inner? && Ordered(t, lo, hi) && i < |t.kids|
    ensures 0 < i ==> Below(AllEntries(t.kids[..i]), t.keys[i - 1])
  {
    if i == 1 {
      EntriesInRange(t.kids[0], lo, HiOf(t.keys, 0, hi));
      assert t.kids[..1] == [t.kids[0]];
    } else if 1 < i {
      KidsBelow(t, i - 1, lo, hi);
      EntriesInRange(t.kids[i - 1], LoOf(t.keys, i - 1, lo), HiOf(t.keys, i - 1, hi));
      assert t.kids[..i] == t.kids[..i - 1] + [t.kids[i - 1]];
      AllEntriesConcat(t.kids[..i - 1], [t.kids[i - 1]]);
    }
  }

  lemma {:induction false} DeleteOrdered<T>(t: Tree<T>, h: nat, k: int, lo: Bound, hi: Bound)
    requires Shape(t, h) && Ordered(t, lo, hi)
    ensures Ordered(Delete(t, h, k), lo, hi)
  {
    match t
    case Leaf(_, _) =>
    case Inner(id, keys, kids) =>
      var i := Route(keys, k);
      DeleteOrdered(kids[i], h - 1, k, LoOf(keys, i, lo), HiOf(keys, i, hi));
  }

  lemma {:induction false} DeleteEntries<T>(t: Tree<T>, h: nat, k: int)
    requires Shape(t, h)
    ensures Leaves(Delete(t, h, k)) == Leaves(t)
    ensures Entries(Delete(t, h, k)) == Pre(t, h, k) + Drop(FindLeaf(t, h, k).entries, k) + Post(t, h, k)
  {
    match t
    case Leaf(_, _) =>
    case Inner(id, keys, kids) =>
      var i := Route(keys, k);
      var kid, left, right := kids[i], AllEntries(kids[..i]), AllEntries(kids[i + 1..]);
      var kid' := Delete(kid, h - 1, k);
      DeleteEntries(kid, h - 1, k);
      ReplaceKid(kids, i, kid');
      LeavesAround(kids, i);
      Regroup(left, Pre(kid, h - 1, k), Drop(FindLeaf(kid, h - 1, k).entries, k), Post(kid, h - 1, k), right);
  }

  // ---------------------------------------------------------------- insertion keeps the order

  ghost predicate GrownOrdered<T>(g: Grown<T>, lo: Bound, hi: Bound) {
    match g
    case Whole(t) => Ordered(t, lo, hi)
    case Parted(l, m, r) => Ordered(l, lo, At(m)) && Ordered(r, At(m), hi) && Over(lo, m) && Under(m, hi)
  }

  ghost function GrownEntries<T>(g: Grown<T>): seq<Entry> {
    match g
    case Whole(t) => Entries(t)
    case Parted(l, _, r) => Entries(l) + Entries(r)
  }

  ghost function GrownLeaves<T>(g: Grown<T>): seq<T> {
    match g
    case Whole(t) => Leaves(t)
    case Parted(l, _, r) => Leaves(l) + Leaves(r)
  }

  /** A promoted key that lies between the separators around the slot goes to that slot. */
  lemma PromotedSlot(keys: seq<int>, k: int, m: int, lo: Bound, hi: Bound)
    requires Increasing(keys)
    requires Over(LoOf(keys, Route(keys, k), lo), m) && Under(m, HiOf(keys, Route(keys, k), hi))
    ensures KeyPos(keys, m) == Route(keys, k)
  {
  }

  predicate NonDecreasing(keys: seq<int>) {
    forall i, j :: 0 <= i < j < |keys| ==> keys[i] <= keys[j]
  }

  /** In general, equal separators included, comparing the promoted key finds the slot that the descent
      went through exactly when the key is not below the separator to its left and is below the one to
      its right. */
  lemma PromotedSlotExactly(keys: seq<int>, k: int, m: int)
    requires NonDecreasing(keys)
    ensures var i := Route(keys, k);
            KeyPos(keys, m) == i <==> (i > 0 ==> keys[i - 1] <= m) && (i < |keys| ==> m < keys[i])
  {
  }

  /** A stretch of a node's children, with the separators between them, is ordered by itself. */
  lemma SliceOrdered<T>(id: T, keys: seq<int>, kids: seq<Tree<T>>, newId: T, a: nat, b: nat, lo: Bound, hi: Bound)
    requires Ordered(Inner(id, keys, kids), lo, hi) && a <= b <= |keys|
    ensures Ordered(Inner(newId, keys[a..b], kids[a..b + 1]), LoOf(keys, a, lo), HiOf(keys, b, hi))
  {
    var keys', kids' := keys[a..b], kids[a..b + 1];
    forall j | 0 <= j < |kids'|
      ensures Ordered(kids'[j], LoOf(keys', j, LoOf(keys, a, lo)), HiOf(keys', j, HiOf(keys, b, hi)))
    {
      assert kids'[j] == kids[a + j] && Ordered(kids[a + j], LoOf(keys, a + j, lo), HiOf(keys, a + j, hi));
    }
  }

  lemma SplitInnerOrdered<T>(id: T, keys: seq<int>, kids: seq<Tree<T>>, newId: T, lo: Bound, hi: Bound)
    requires |keys| == ORDER && |kids| == ORDER + 1
    requires Ordered(Inner(id, keys, kids), lo, hi)
    ensures GrownOrdered(SplitInner(id, keys, kids, newId), lo, hi)
    ensures GrownEntries(SplitInner(id, keys, kids, newId)) == AllEntries(kids)
    ensures GrownLeaves(SplitInner(id, keys, kids, newId)) == AllLeaves(kids)
  {
    var l, r := kids[..MID + 1], kids[MID + 1..];
    assert kids == l + r;
    AllEntriesConcat(l, r);
    AllLeavesConcat(l, r);
    SliceOrdered(id, keys, kids, id, 0, MID, lo, hi);
    SliceOrdered(id, keys, kids, newId, MID + 1, ORDER, lo, hi);
    assert keys[MID + 1..ORDER] == keys[MID + 1..] && kids[MID + 1..ORDER + 1] == r;
    assert Over(lo, keys[MID]) && Under(keys[MID], hi);
    hide Ordered;
  }

  lemma WidenKeys(keys: seq<int>, i: nat, m: int, lo: Bound, hi: Bound)
    requires Increasing(keys) && i <= |keys|
    requires forall j :: 0 <= j < |keys| ==> Over(lo, keys[j]) && Under(keys[j], hi)
    requires Over(LoOf(keys, i, lo), m) && Under(m, HiOf(keys, i, hi))
    ensures var keys' := InsertAt(keys, i, m);
            && Increasing(keys')
            && forall j :: 0 <= j < |keys'| ==> Over(lo, keys'[j]) && Under(keys'[j], hi)
  {
  }

  /** A node with two children in place of child `i`. */
  lemma WidenOrdered<T>(id: T, keys: seq<int>, kids: seq<Tree<T>>, i: nat, l: Tree<T>, m: int, r: Tree<T>, lo: Bound, hi: Bound)
    requires Ordered(Inner(id, keys, kids), lo, hi) && i < |kids|
    requires GrownOrdered(Parted(l, m, r), LoOf(keys, i, lo), HiOf(keys, i, hi))
    ensures Ordered(Inner(id, InsertAt(keys, i, m), InsertAt(kids[i := l], i + 1, r)), lo, hi)
  {
    var keys', kids' := InsertAt(keys, i, m), InsertAt(kids[i := l], i + 1, r);
    WidenKeys(keys, i, m, lo, hi);
    forall j | 0 <= j < |kids'|
      ensures Ordered(kids'[j], LoOf(keys', j, lo), HiOf(keys', j, hi))
    {
      if j < i {
        assert kids'[j] == kids[j];
      } else if i + 1 < j {
        assert kids'[j] == kids[j - 1] && Ordered(kids[j - 1], LoOf(keys, j - 1, lo), HiOf(keys, j - 1, hi));
      } else {
        assert kids'[j] == if j == i then l else r;
      }
    }
  }

  lemma WidenEntries<T>(kids: seq<Tree<T>>, i: nat, l: Tree<T>, r: Tree<T>)
    requires i < |kids|
    ensures AllEntries(InsertAt(kids[i := l], i + 1, r))
         == AllEntries(kids[..i]) + (Entries(l) + Entries(r)) + AllEntries(kids[i + 1..])
  {
    var a, b := kids[..i], kids[i + 1..];
    assert InsertAt(kids[i := l], i + 1, r) == a + ([l] + ([r] + b));
    AllEntriesConcat(a, [l] + ([r] + b));
    AllEntriesConcat([l], [r] + b);
    AllEntriesConcat([r], b);
  }

  lemma WidenLeaves<T>(kids: seq<Tree<T>>, i: nat, l: Tree<T>, r: Tree<T>)
    requires i < |kids|
    ensures AllLeaves(InsertAt(kids[i := l], i + 1, r))
         == AllLeaves(kids[..i]) + (Leaves(l) + Leaves(r)) + AllLeaves(kids[i + 1..])
  {
    var a, b := kids[..i], kids[i + 1..];
    assert InsertAt(kids[i := l], i + 1, r) == a + ([l] + ([r] + b));
    AllLeavesConcat(a, [l] + ([r] + b));
    AllLeavesConcat([l], [r] + b);
    AllLeavesConcat([r], b);
  }

  lemma AdoptOrdered<T>(id: T, keys: seq<int>, kids: seq<Tree<T>>, k: int, child: Grown<T>, newId: T, h: nat, lo: Bound, hi: Bound)
    requires Shape(Inner(id, keys, kids), h) && Ordered(Inner(id, keys, kids), lo, hi)
    requires GrownOrdered(child, LoOf(keys, Route(keys, k), lo), HiOf(keys, Route(keys, k), hi))
    ensures var i := Route(keys, k); var g := Adopt(id, keys, kids, i, child, newId);
            && GrownOrdered(g, lo, hi)
            && GrownEntries(g) == AllEntries(kids[..i]) + GrownEntries(child) + AllEntries(kids[i + 1..])
            && GrownLeaves(g) == AllLeaves(kids[..i]) + GrownLeaves(child) + AllLeaves(kids[i + 1..])
  {
    var i := Route(keys, k);
    match child
    case Whole(c) =>
      ReplaceKid(kids, i, c);
    case Parted(l, m, r) =>
      PromotedSlot(keys, k, m, lo, hi);
      WidenOrdered(id, keys, kids, i, l, m, r, lo, hi);
      WidenEntries(kids, i, l, r);
      WidenLeaves(kids, i, l, r);
      var keys', kids' := InsertAt(keys, i, m), InsertAt(kids[i := l], i + 1, r);
      if |keys'| == ORDER {
        SplitInnerOrdered(id, keys', kids', newId, lo, hi);
      }
  }

  lemma PutSorted(es: seq<Entry>, k: int, loc: Loc)
    requires Sorted(es) && !Has(es, k)
    ensures Sorted(Put(es, k, loc))
  {
    var p, es' := EntryPos(es, k), Put(es, k, loc);
    if p > 0 {
      assert es[p - 1].key < k by { assert Find(es, k) == |es|; }
    }
    forall i, j | 0 <= i < j < |es'| ensures es'[i].key < es'[j].key {
      assert i < p ==> es'[i] == es[i] && es[i].key <= es[p - 1].key;
      assert p < j ==> es'[j] == es[j - 1];
      assert p < i ==> es'[i] == es[i - 1];
    }
  }

  lemma SplitLeafOrdered<T>(id: T, es: seq<Entry>, newId: T, lo: Bound, hi: Bound)
    requires |es| == ORDER && Ordered(Leaf(id, es), lo, hi)
    ensures GrownOrdered(SplitLeaf(id, es, newId), lo, hi)
    ensures GrownEntries(SplitLeaf(id, es, newId)) == es
  {
    assert es == es[..MID] + es[MID..];
    assert es[0].key < es[MID].key;
  }

  lemma LeafOrdered<T>(id: T, es: seq<Entry>, k: int, loc: Loc, ids: seq<T>, lo: Bound, hi: Bound)
    requires |ids| > 0 && |es| < ORDER && Ordered(Leaf(id, es), lo, hi) && AtLeast(lo, k) && Under(k, hi) && !Has(es, k)
    ensures var g := InsertRec(Leaf(id, es), 0, k, loc, ids);
            GrownOrdered(g, lo, hi) && GrownEntries(g) == Put(es, k, loc)
  {
    hide Put, Ordered, Has, GrownEntries, GrownOrdered, SplitLeaf;
    var es' := Put(es, k, loc);
    PutOrdered(id, es, k, loc, lo, hi);
    if |es'| == ORDER {
      SplitLeafOrdered(id, es', ids[0], lo, hi);
    } else {
      WholeOrdered(Leaf(id, es'), lo, hi);
    }
  }

  lemma WholeOrdered<T>(t: Tree<T>, lo: Bound, hi: Bound)
    ensures GrownOrdered(Whole(t), lo, hi) <==> Ordered(t, lo, hi)
    ensures GrownEntries(Whole(t)) == Entries(t)
  {
  }

  lemma PutOrdered<T>(id: T, es: seq<Entry>, k: int, loc: Loc, lo: Bound, hi: Bound)
    requires Ordered(Leaf(id, es), lo, hi) && AtLeast(lo, k) && Under(k, hi) && !Has(es, k)
    ensures Ordered(Leaf(id, Put(es, k, loc)), lo, hi)
  {
    PutSorted(es, k, loc);
    hide Has;
  }

  lemma {:induction false} InsertRecOrdered<T>(t: Tree<T>, h: nat, k: int, loc: Loc, ids: seq<T>, lo: Bound, hi: Bound)
    requires |ids| > h
    requires Shape(t, h) && Ordered(t, lo, hi) && AtLeast(lo, k) && Under(k, hi)
    requires !Has(FindLeaf(t, h, k).entries, k)
    ensures var g := InsertRec(t, h, k, loc, ids);
            && GrownOrdered(g, lo, hi)
            && GrownEntries(g) == Pre(t, h, k) + Put(FindLeaf(t, h, k).entries, k, loc) + Post(t, h, k)
  {
    hide Put, Has, Adopt;
    match t
    case Leaf(id, es) =>
      LeafOrdered(id, es, k, loc, ids, lo, hi);
    case Inner(id, keys, kids) =>
      var i := Route(keys, k);
      var child := InsertRec(kids[i], h - 1, k, loc, ids);
      var kid, left, right := kids[i], AllEntries(kids[..i]), AllEntries(kids[i + 1..]);
      InsertRecOrdered(kid, h - 1, k, loc, ids, LoOf(keys, i, lo), HiOf(keys, i, hi));
      AdoptOrdered(id, keys, kids, k, child, ids[h], h, lo, hi);
      assert InsertRec(t, h, k, loc, ids) == Adopt(id, keys, kids, i, child, ids[h]);
      Regroup(left, Pre(kid, h - 1, k), Put(FindLeaf(kid, h - 1, k).entries, k, loc), Post(kid, h - 1, k), right);
  }

  /** With an absent key, at every node on the way up: comparing the promoted key finds the very slot
      that the descent went through. */
  lemma PromotedInPlace<T>(t: Tree<T>, h: nat, k: int, loc: Loc, ids: seq<T>, lo: Bound, hi: Bound)
    requires |ids| > h
    requires t.Inner? && Shape(t, h) && Ordered(t, lo, hi) && AtLeast(lo, k) && Under(k, hi)
    requires !Has(FindLeaf(t, h, k).entries, k)
    ensures var i := Route(t.keys, k);
            match InsertRec(t.kids[i], h - 1, k, loc, ids)
            case Whole(_) => true
            case Parted(_, m, _) => KeyPos(t.keys, m) == i
  {
    hide InsertRec;
    var i := Route(t.keys, k);
    InsertRecOrdered(t.kids[i], h - 1, k, loc, ids, LoOf(t.keys, i, lo), HiOf(t.keys, i, hi));
    match InsertRec(t.kids[i], h - 1, k, loc, ids)
    case Whole(_) =>
    case Parted(_, m, _) => PromotedSlot(t.keys, k, m, lo, hi);
  }

  /** The leaf identities that replace the routed leaf: itself, and the new leaf if it splits. */
  ghost function LeafIds<T>(t: Tree<T>, h: nat, k: int, newId: T): seq<T>
    requires Shape(t, h)
  {
    var leaf := FindLeaf(t, h, k);
    if |leaf.entries| == ORDER - 1 then [leaf.id, newId] else [leaf.id]
  }

  lemma {:induction false} DescendLeaves<T>(t: Tree<T>, h: nat, k: int)
    requires Shape(t, h)
    ensures Leaves(t) == LeavesBefore(t, h, k) + [FindLeaf(t, h, k).id] + LeavesAfter(t, h, k)
  {
    match t
    case Leaf(_, _) =>
    case Inner(id, keys, kids) =>
      var i := Route(keys, k);
      var kid, left, right := kids[i], AllLeaves(kids[..i]), AllLeaves(kids[i + 1..]);
      DescendLeaves(kid, h - 1, k);
      LeavesAround(kids, i);
      Regroup(left, LeavesBefore(kid, h - 1, k), [FindLeaf(kid, h - 1, k).id], LeavesAfter(kid, h - 1, k), right);
  }

  lemma AdoptLeaves<T>(id: T, keys: seq<int>, kids: seq<Tree<T>>, h: nat, k: int, loc: Loc, ids: seq<T>, lo: Bound, hi: Bound)
    requires |ids| > h
    requires Shape(Inner(id, keys, kids), h) && Ordered(Inner(id, keys, kids), lo, hi) && AtLeast(lo, k) && Under(k, hi)
    requires !Has(FindLeaf(Inner(id, keys, kids), h, k).entries, k)
    ensures var i := Route(keys, k); var child := InsertRec(kids[i], h - 1, k, loc, ids);
            GrownLeaves(InsertRec(Inner(id, keys, kids), h, k, loc, ids))
            == AllLeaves(kids[..i]) + GrownLeaves(child) + AllLeaves(kids[i + 1..])
  {
    var i := Route(keys, k);
    var child := InsertRec(kids[i], h - 1, k, loc, ids);
    InsertRecOrdered(kids[i], h - 1, k, loc, ids, LoOf(keys, i, lo), HiOf(keys, i, hi));
    AdoptOrdered(id, keys, kids, k, child, ids[h], h, lo, hi);
  }

  /** A leaf split puts the new leaf directly after the one it was split from. */
  lemma {:induction false} InsertRecLeaves<T>(t: Tree<T>, h: nat, k: int, loc: Loc, ids: seq<T>, lo: Bound, hi: Bound)
    requires |ids| > h
    requires Shape(t, h) && Ordered(t, lo, hi) && AtLeast(lo, k) && Under(k, hi)
    requires !Has(FindLeaf(t, h, k).entries, k)
    ensures GrownLeaves(InsertRec(t, h, k, loc, ids))
         == LeavesBefore(t, h, k) + LeafIds(t, h, k, ids[0]) + LeavesAfter(t, h, k)
  {
    if t.Inner? {
      hide Put;
      hide Has;
      hide Adopt;
      var i := Route(t.keys, k);
      var kid, left, right := t.kids[i], AllLeaves(t.kids[..i]), AllLeaves(t.kids[i + 1..]);
      var before, own, after := LeavesBefore(kid, h - 1, k), LeafIds(kid, h - 1, k, ids[0]), LeavesAfter(kid, h - 1, k);
      AdoptLeaves(t.id, t.keys, t.kids, h, k, loc, ids, lo, hi);
      InsertRecLeaves(kid, h - 1, k, loc, ids, LoOf(t.keys, i, lo), HiOf(t.keys, i, hi));
      Regroup(left, before, own, after, right);
    }
  }
}
