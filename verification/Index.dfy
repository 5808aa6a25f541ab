/** The linked B+ tree of the index: nodes with fixed-size arrays that are shifted, split and
    linked in place.  Every method is tied to the tree functions of `BTree`: the nodes reachable
    from a root, their arrays and their child pointers spell out one tree value. */
module LinkedIndex {
  import opened BTree
  import opened BTreeMap
  import opened BTreeRepeats

  /** INDEXNode. */
  class Node {
    var isLeaf: bool
    var numKeys: nat
    const keys: array<int>
    const children: array<Node?>
    const locations: array<Loc>
    var next: Node?

    /** node_alloc. */
    constructor (leaf: bool)
      ensures isLeaf == leaf && numKeys == 0 && next == null
      ensures Sized(this) && fresh(Own(this))
    {
      isLeaf := leaf;
      numKeys := 0;
      keys := new int[ORDER];
      children := new Node?[ORDER + 1](_ => null);
      locations := new Loc[ORDER];
      next := null;
    }
  }

  ghost function Own(n: Node): set<object> {
    {n, n.keys, n.children, n.locations}
  }

  ghost predicate Sized(n: Node) {
    n.keys.Length == ORDER && n.children.Length == ORDER + 1 && n.locations.Length == ORDER
  }

  // ---------------------------------------------------------------- what the nodes stand for

  ghost predicate LeafRep(n: Node, es: seq<Entry>)
    reads Own(n)
  {
    && Sized(n)
    && n.isLeaf
    && n.numKeys == |es| <= ORDER
    && forall i :: 0 <= i < |es| ==> n.keys[i] == es[i].key && n.locations[i] == es[i].loc
  }

  ghost predicate InnerRep(n: Node, keys: seq<int>, ptrs: seq<Node>)
    reads Own(n)
  {
    && Sized(n)
    && !n.isLeaf
    && n.numKeys == |keys| <= ORDER
    && |ptrs| == |keys| + 1
    && (forall i :: 0 <= i < |keys| ==> n.keys[i] == keys[i])
    && forall i :: 0 <= i < |ptrs| ==> n.children[i] == ptrs[i]
  }

  ghost function Ids(kids: seq<Tree<Node>>): (ptrs: seq<Node>)
    ensures |ptrs| == |kids| && forall i :: 0 <= i < |kids| ==> ptrs[i] == kids[i].id
  {
    seq(|kids|, i requires 0 <= i < |kids| => kids[i].id)
  }

  /** All objects a subtree is made of. */
  ghost function Objects(t: Tree<Node>): set<object> {
    match t
    case Leaf(n, _) => Own(n)
    case Inner(n, _, kids) => Own(n) + AllObjects(kids)
  }

  ghost function AllObjects(ts: seq<Tree<Node>>): set<object> {
    set i, o | 0 <= i < |ts| && o in Objects(ts[i]) :: o
  }

  /** No two nodes of a subtree share an object. */
  ghost predicate Separate(t: Tree<Node>) {
    match t
    case Leaf(_, _) => true
    case Inner(n, _, kids) =>
      && (forall i :: 0 <= i < |kids| ==> Separate(kids[i]) && Own(n) !! Objects(kids[i]))
      && Apart(kids)
  }

  ghost predicate Apart(ts: seq<Tree<Node>>) {
    forall i, j :: 0 <= i < j < |ts| ==> Objects(ts[i]) !! Objects(ts[j])
  }

  /** The nodes of a subtree hold exactly the keys, locations and child pointers of the tree. */
  ghost predicate Rep(t: Tree<Node>)
    reads Objects(t)
    decreases t
  {
    match t
    case Leaf(n, es) => LeafRep(n, es)
    case Inner(n, keys, kids) =>
      InnerRep(n, keys, Ids(kids)) && forall i :: 0 <= i < |kids| ==> (KidObjects(kids, i); Rep(kids[i]))
  }


  lemma KidObjects(ts: seq<Tree<Node>>, i: nat)
    requires i < |ts|
    ensures Objects(ts[i]) <= AllObjects(ts)
  {
  }

  // ---------------------------------------------------------------- single nodes

  lemma InsertedAt<A>(s: seq<A>, i: nat, a: A)
    requires i <= |s|
    ensures |InsertAt(s, i, a)| == |s| + 1
    ensures forall j :: 0 <= j <= |s| ==> InsertAt(s, i, a)[j] == if j < i then s[j] else if j == i then a else s[j - 1]
  {
  }

  /** The shifting loop of insert_recursive's leaf branch: entries above `key` move one place right. */
  method OpenLeafGap(node: Node, key: int, ghost es: seq<Entry>) returns (i: nat)
    requires LeafRep(node, es) && |es| < ORDER
    modifies node.keys, node.locations
    ensures i == EntryPos(es, key)
    ensures forall j :: 0 <= j < i ==> node.keys[j] == es[j].key && node.locations[j] == es[j].loc
    ensures forall j :: i < j <= |es| ==> node.keys[j] == es[j - 1].key && node.locations[j] == es[j - 1].loc
  {
    i := node.numKeys;
    while i > 0 && node.keys[i - 1] > key
      invariant 0 <= i <= |es|
      invariant EntryPosDown(es, key, i) == EntryPos(es, key)
      invariant forall j :: 0 <= j < i ==> node.keys[j] == es[j].key && node.locations[j] == es[j].loc
      invariant forall j :: i < j <= |es| ==> node.keys[j] == es[j - 1].key && node.locations[j] == es[j - 1].loc
    {
      node.keys[i] := node.keys[i - 1];
      node.locations[i] := node.locations[i - 1];
      i := i - 1;
    }
  }

  /** The leaf branch of insert_recursive, up to the split. */
  method InsertIntoLeaf(node: Node, key: int, loc: Loc, ghost es: seq<Entry>)
    requires LeafRep(node, es) && |es| < ORDER
    modifies node`numKeys, node.keys, node.locations
    ensures LeafRep(node, Put(es, key, loc))
  {
    var i := OpenLeafGap(node, key, es);
    node.keys[i] := key;
    node.locations[i] := loc;
    node.numKeys := node.numKeys + 1;
    InsertedAt(es, i, Entry(key, loc));
  }

  /** split_leaf. */
  method SplitLeafNode(left: Node, ghost es: seq<Entry>) returns (right: Node, newKey: int)
    requires LeafRep(left, es) && |es| == ORDER
    modifies left`numKeys, left`next
    ensures fresh(Own(right))
    ensures LeafRep(left, es[..MID]) && LeafRep(right, es[MID..]) && newKey == es[MID].key
    ensures right.next == old(left.next) && left.next == right
  {
    right := new Node(true);
    right.numKeys := left.numKeys - MID;
    var i := 0;
    while i < right.numKeys
      modifies right.keys, right.locations
      invariant 0 <= i <= right.numKeys == ORDER - MID
      invariant Sized(right) && right.isLeaf && right.next == null
      invariant forall j :: 0 <= j < i ==> right.keys[j] == es[MID + j].key && right.locations[j] == es[MID + j].loc
    {
      right.keys[i] := left.keys[MID + i];
      right.locations[i] := left.locations[MID + i];
      i := i + 1;
    }
    left.numKeys := MID;
    right.next := left.next;
    left.next := right;
    newKey := right.keys[0];
  }

  /** The shifting loop that makes room for a promoted key and its right child. */
  method OpenNodeGap(node: Node, key: int, ghost keys: seq<int>, ghost ptrs: seq<Node>) returns (pos: nat)
    requires InnerRep(node, keys, ptrs) && 1 <= |keys| < ORDER
    modifies node.keys, node.children
    ensures pos == KeyPos(keys, key)
    ensures forall j :: 0 <= j < pos ==> node.keys[j] == keys[j]
    ensures forall j :: pos < j <= |keys| ==> node.keys[j] == keys[j - 1]
    ensures forall j :: 0 <= j <= pos ==> node.children[j] == ptrs[j]
    ensures forall j :: pos + 1 < j <= |ptrs| ==> node.children[j] == ptrs[j - 1]
  {
    pos := node.numKeys;
    while pos > 0 && node.keys[pos - 1] > key
      invariant 0 <= pos <= |keys|
      invariant KeyPosDown(keys, key, pos) == KeyPos(keys, key)
      invariant forall j :: 0 <= j < pos ==> node.keys[j] == keys[j]
      invariant forall j :: pos < j <= |keys| ==> node.keys[j] == keys[j - 1]
      invariant forall j :: 0 <= j <= pos ==> node.children[j] == ptrs[j]
      invariant forall j :: pos + 1 < j <= |ptrs| ==> node.children[j] == ptrs[j - 1]
    {
      node.keys[pos] := node.keys[pos - 1];
      node.children[pos + 1] := node.children[pos];
      pos := pos - 1;
    }
  }

  /** Placing a promoted key and its right child. */
  method InsertIntoNode(node: Node, key: int, child: Node, ghost keys: seq<int>, ghost ptrs: seq<Node>)
    requires InnerRep(node, keys, ptrs) && 1 <= |keys| < ORDER
    modifies node`numKeys, node.keys, node.children
    ensures InnerRep(node, InsertAt(keys, KeyPos(keys, key), key), InsertAt(ptrs, KeyPos(keys, key) + 1, child))
  {
    var pos := OpenNodeGap(node, key, keys, ptrs);
    node.keys[pos] := key;
    node.children[pos + 1] := child;
    node.numKeys := node.numKeys + 1;
    InsertedAt(keys, pos, key);
    InsertedAt(ptrs, pos + 1, child);
    hide InsertAt;
  }

  /** split_internal. */
  method SplitInnerNode(left: Node, ghost keys: seq<int>, ghost ptrs: seq<Node>) returns (right: Node, newKey: int)
    requires InnerRep(left, keys, ptrs) && |keys| == ORDER
    modifies left`numKeys
    ensures fresh(Own(right)) && newKey == keys[MID]
    ensures InnerRep(left, keys[..MID], ptrs[..MID + 1])
    ensures InnerRep(right, keys[MID + 1..], ptrs[MID + 1..])
  {
    right := new Node(false);
    newKey := left.keys[MID];
    right.numKeys := left.numKeys - MID - 1;
    var i := 0;
    while i < right.numKeys
      modifies right.keys
      invariant 0 <= i <= right.numKeys == ORDER - MID - 1
      invariant Sized(right) && !right.isLeaf
      invariant forall j :: 0 <= j < i ==> right.keys[j] == keys[MID + 1 + j]
    {
      right.keys[i] := left.keys[MID + 1 + i];
      i := i + 1;
    }
    i := 0;
    while i <= right.numKeys
      modifies right.children
      invariant 0 <= i <= right.numKeys + 1 && right.numKeys == ORDER - MID - 1
      invariant Sized(right) && !right.isLeaf
      invariant forall j :: 0 <= j < |keys| - MID - 1 ==> right.keys[j] == keys[MID + 1 + j]
      invariant forall j :: 0 <= j < i ==> right.children[j] == ptrs[MID + 1 + j]
    {
      right.children[i] := left.children[MID + 1 + i];
      i := i + 1;
    }
    left.numKeys := MID;
  }

  /** One step of a descent. */
  method ChildFor(node: Node, key: int, ghost keys: seq<int>, ghost ptrs: seq<Node>) returns (i: nat, child: Node)
    requires InnerRep(node, keys, ptrs)
    ensures i == Route(keys, key) && child == ptrs[i]
  {
    i := 0;
    while i < node.numKeys && key >= node.keys[i]
      invariant 0 <= i <= |keys|
      invariant RouteFrom(keys, key, i) == Route(keys, key)
    {
      i := i + 1;
    }
    child := node.children[i];
  }

  // ---------------------------------------------------------------- growing subtrees

  /** A subtree that is laid out without sharing and holds what the tree says. */
  ghost predicate Sound(t: Tree<Node>)
    reads Objects(t)
  {
    Separate(t) && Rep(t)
  }

  ghost function GrownObjects(g: Grown<Node>): set<object> {
    match g
    case Whole(t) => Objects(t)
    case Parted(l, _, r) => Objects(l) + Objects(r)
  }

  ghost predicate GrownSound(g: Grown<Node>)
    reads GrownObjects(g)
  {
    match g
    case Whole(t) => Sound(t)
    case Parted(l, _, r) => Sound(l) && Sound(r) && Objects(l) !! Objects(r)
  }

  /** Two subtrees in place of child `i`, the second at any place. */
  lemma WidenApart(n: Node, keys: seq<int>, kids: seq<Tree<Node>>, i: nat, l: Tree<Node>, r: Tree<Node>, j: nat, keys': seq<int>)
    requires Separate(Inner(n, keys, kids)) && i < |kids| && j <= |kids|
    requires Separate(l) && Separate(r) && Objects(l) !! Objects(r)
    requires Own(n) !! Objects(l) + Objects(r)
    requires forall x :: 0 <= x < |kids| && x != i ==> Objects(kids[x]) !! Objects(l) + Objects(r)
    ensures Separate(Inner(n, keys', InsertAt(kids[i := l], j, r)))
  {
    var kids' := InsertAt(kids[i := l], j, r);
    forall x, y | 0 <= x < y < |kids'| ensures Objects(kids'[x]) !! Objects(kids'[y]) {
      var x', y' := if x < j then x else x - 1, if y < j then y else y - 1;
      assert x != j ==> kids'[x] == kids[i := l][x'];
      assert y != j ==> kids'[y] == kids[i := l][y'];
    }
    forall x | 0 <= x < |kids'| ensures Separate(kids'[x]) && Own(n) !! Objects(kids'[x]) {
      assert x != j ==> kids'[x] == kids[i := l][if x < j then x else x - 1];
    }
  }

  lemma ReplaceApart(n: Node, keys: seq<int>, kids: seq<Tree<Node>>, i: nat, c: Tree<Node>)
    requires Separate(Inner(n, keys, kids)) && i < |kids| && Separate(c) && Own(n) !! Objects(c)
    requires forall x :: 0 <= x < |kids| && x != i ==> Objects(kids[x]) !! Objects(c)
    ensures Separate(Inner(n, keys, kids[i := c]))
  {
  }

  lemma AllObjectsConcat(a: seq<Tree<Node>>, b: seq<Tree<Node>>)
    ensures AllObjects(a + b) == AllObjects(a) + AllObjects(b)
  {
    forall o | o in AllObjects(a) + AllObjects(b) ensures o in AllObjects(a + b) {
      if o in AllObjects(a) {
        var x :| 0 <= x < |a| && o in Objects(a[x]);
        assert (a + b)[x] == a[x];
      } else {
        var x :| 0 <= x < |b| && o in Objects(b[x]);
        assert (a + b)[|a| + x] == b[x];
      }
    }
  }

  lemma ConcatApart(a: seq<Tree<Node>>, b: seq<Tree<Node>>)
    requires Apart(a + b)
    ensures Apart(a) && Apart(b) && AllObjects(a) !! AllObjects(b)
  {
    forall x, y | 0 <= x < y < |a| ensures Objects(a[x]) !! Objects(a[y]) {
      assert (a + b)[x] == a[x] && (a + b)[y] == a[y];
    }
    forall x, y | 0 <= x < y < |b| ensures Objects(b[x]) !! Objects(b[y]) {
      assert (a + b)[|a| + x] == b[x] && (a + b)[|a| + y] == b[y];
    }
    forall x, y | 0 <= x < |a| && 0 <= y < |b| ensures Objects(a[x]) !! Objects(b[y]) {
      assert (a + b)[x] == a[x] && (a + b)[|a| + y] == b[y];
    }
  }

  lemma SplitApart(n: Node, keys: seq<int>, kids: seq<Tree<Node>>, right: Node)
    requires Separate(Inner(n, keys, kids)) && |keys| == ORDER && |kids| == ORDER + 1
    requires Own(right) !! Objects(Inner(n, keys, kids))
    ensures var g := SplitInner(n, keys, kids, right);
            && Separate(g.left) && Separate(g.right) && Objects(g.left) !! Objects(g.right)
            && GrownObjects(g) == Objects(Inner(n, keys, kids)) + Own(right)
  {
    var l, r := kids[..MID + 1], kids[MID + 1..];
    assert kids == l + r;
    AllObjectsConcat(l, r);
    ConcatApart(l, r);
    OwnApart(n, keys, kids);
    hide Apart;
    hide AllObjects;
    forall x | 0 <= x < |r| ensures Own(right) !! Objects(r[x]) {
      KidObjects(r, x);
    }
  }

  /** Subtrees are unaffected by changes to other objects. */
  twostate lemma KidsFrame(kids: seq<Tree<Node>>)
    requires old(allocated(AllObjects(kids)))
    requires forall x :: 0 <= x < |kids| ==> old(Rep(kids[x]))
    requires forall o :: o in AllObjects(kids) ==> unchanged(o)
    ensures forall x :: 0 <= x < |kids| ==> Rep(kids[x])
  {
    forall x | 0 <= x < |kids| ensures Rep(kids[x]) {
      KidObjects(kids, x);
    }
  }

  lemma OwnApart(n: Node, keys: seq<int>, kids: seq<Tree<Node>>)
    requires Separate(Inner(n, keys, kids))
    ensures Own(n) !! AllObjects(kids)
  {
  }

  lemma KidsAfterWiden(kids: seq<Tree<Node>>, i: nat, l: Tree<Node>, r: Tree<Node>, j: nat)
    requires i < |kids| && j <= |kids|
    requires Rep(l) && Rep(r) && forall y :: 0 <= y < |kids| && y != i ==> Rep(kids[y])
    ensures var kids' := InsertAt(kids[i := l], j, r); forall x :: 0 <= x < |kids'| ==> Rep(kids'[x])
    ensures Ids(InsertAt(kids[i := l], j, r)) == InsertAt(Ids(kids[i := l]), j, r.id)
  {
    InsertedAt(kids[i := l], j, r);
    InsertedAt(Ids(kids[i := l]), j, r.id);
  }

  /** Adopting the right half of a split child. */
  method WidenNode(node: Node, promoted: int, right: Node,
                   ghost keys: seq<int>, ghost kids: seq<Tree<Node>>, ghost i: nat, ghost child: Grown<Node>)
    requires InnerRep(node, keys, Ids(kids)) && Separate(Inner(node, keys, kids)) && 1 <= |keys| < ORDER && i < |kids|
    requires child.Parted? && promoted == child.key && right == child.right.id && child.left.id == kids[i].id
    requires GrownSound(child) && Own(node) !! GrownObjects(child)
    requires forall x :: 0 <= x < |kids| && x != i ==> Rep(kids[x]) && Objects(kids[x]) !! GrownObjects(child)
    modifies node`numKeys, node.keys, node.children
    ensures var j := KeyPos(keys, promoted);
            Sound(Inner(node, InsertAt(keys, j, promoted), InsertAt(kids[i := child.left], j + 1, child.right)))
  {
    ghost var l, r, j := child.left, child.right, KeyPos(keys, promoted);
    ghost var keys', kids' := InsertAt(keys, j, promoted), InsertAt(kids[i := l], j + 1, r);
    WidenApart(node, keys, kids, i, l, r, j + 1, keys');
    KidsAfterWiden(kids, i, l, r, j + 1);
    OwnApart(node, keys', kids');
    assert Ids(kids[i := l]) == Ids(kids);
    assert allocated(AllObjects(kids'));
    hide Objects;
    hide AllObjects;
    hide Separate;
    hide KeyPos;
    InsertIntoNode(node, promoted, right, keys, Ids(kids));
    KidsFrame(kids');
  }

  lemma SplitSound(n: Node, keys: seq<int>, kids: seq<Tree<Node>>, right: Node)
    requires Separate(Inner(n, keys, kids)) && |keys| == ORDER && |kids| == ORDER + 1
    requires Own(right) !! Objects(Inner(n, keys, kids))
    requires forall x :: 0 <= x < |kids| ==> Rep(kids[x])
    requires InnerRep(n, keys[..MID], Ids(kids)[..MID + 1])
    requires InnerRep(right, keys[MID + 1..], Ids(kids)[MID + 1..])
    ensures GrownSound(SplitInner(n, keys, kids, right))
  {
    var l, r := kids[..MID + 1], kids[MID + 1..];
    SplitApart(n, keys, kids, right);
    assert Ids(kids)[..MID + 1] == Ids(l) && Ids(kids)[MID + 1..] == Ids(r);
    assert Rep(Inner(n, keys[..MID], l));
    assert Rep(Inner(right, keys[MID + 1..], r));
    hide Separate;
    hide Objects;
  }

  /** Splitting a node that has filled up. */
  method SplitFullNode(node: Node, ghost keys: seq<int>, ghost kids: seq<Tree<Node>>) returns (right: Node, newKey: int)
    requires |keys| == ORDER && |kids| == ORDER + 1 && Sound(Inner(node, keys, kids))
    modifies node`numKeys
    ensures newKey == keys[MID] && fresh(Own(right))
    ensures GrownSound(SplitInner(node, keys, kids, right))
    ensures GrownObjects(SplitInner(node, keys, kids, right)) == Objects(Inner(node, keys, kids)) + Own(right)
  {
    ghost var objects := Objects(Inner(node, keys, kids));
    assert allocated(objects) && allocated(AllObjects(kids));
    assert forall x :: 0 <= x < |kids| ==> Rep(kids[x]);
    assert Own(node) !! AllObjects(kids);
    right, newKey := SplitInnerNode(node, keys, Ids(kids));
    hide Rep;
    assert Own(right) !! objects;
    KidsFrame(kids);
    SplitSound(node, keys, kids, right);
    SplitApart(node, keys, kids, right);
    hide Separate;
    hide Objects;
  }

  // ---------------------------------------------------------------- insert_recursive

  /** The `next` field of every node of a subtree. */
  ghost function Links(t: Tree<Node>): map<Node, Node?>
    reads Objects(t)
  {
    map n: Node | n in Objects(t) :: n.next
  }

  /** How an insertion may change the leaf chain, from the given links: only the routed leaf's link
      changes, and only when that leaf splits, to run through the new leaf. */
  ghost predicate Relinked(t: Tree<Node>, h: nat, key: int, leaf: Node, links: map<Node, Node?>)
    requires Shape(t, h)
    reads links.Keys`next, leaf`next
  {
    var routed := BTree.FindLeaf(t, h, key);
    && routed.id in links
    && (forall n :: n in links && n != routed.id ==> n.next == links[n])
    && if |routed.entries| == ORDER - 1
       then routed.id.next == leaf && leaf.next == links[routed.id]
       else routed.id.next == links[routed.id]
  }

  /** What a caller of insert_recursive gets back. */
  ghost predicate Returned(g: Grown<Node>, split: bool, promoted: int, right: Node?) {
    split == g.Parted? && (split ==> promoted == g.key && right == g.right.id)
  }

  /** insert_recursive: `g` is what becomes of the subtree. */
  method InsertRecursive(node: Node, key: int, loc: Loc, ghost t: Tree<Node>, ghost h: nat)
    returns (split: bool, promoted: int, right: Node?, ghost ids: seq<Node>, ghost g: Grown<Node>)
    requires Shape(t, h) && t.id == node && Sound(t)
    modifies Objects(t)
    ensures |ids| == h + 1 && g == InsertRec(t, h, key, loc, ids)
    ensures GrownSound(g) && Returned(g, split, promoted, right)
    ensures forall o :: o in GrownObjects(g) && o !in Objects(t) ==> !old(allocated(o))
    ensures Relinked(t, h, key, ids[0], old(Links(t)))
    decreases h, 2
  {
    if node.isLeaf {
      split, promoted, right, ids := false, 0, null, [node];
      InsertIntoLeaf(node, key, loc, t.entries);
      if node.numKeys == ORDER {
        right, promoted := SplitLeafNode(node, Put(t.entries, key, loc));
        split, ids := true, [right];
      }
      g := InsertRec(t, h, key, loc, ids);
    } else {
      split, promoted, right, ids, g := InsertIntoInner(node, key, loc, t, h);
    }
  }

  lemma InnerFacts(t: Tree<Node>, h: nat)
    requires Shape(t, h) && Sound(t) && t.Inner?
    ensures 1 <= |t.keys| < ORDER && |t.kids| == |t.keys| + 1
    ensures 0 < h && Separate(t) && Own(t.id) + AllObjects(t.kids) == Objects(t)
    ensures {t.id, t.id.keys, t.id.children} <= Objects(t)
  {
  }

  /** The name of a returned half. */
  lemma ReturnedFacts(t: Tree<Node>, h: nat, key: int, loc: Loc, ids: seq<Node>, split: bool, promoted: int, right: Node?)
    requires Shape(t, h) && t.Inner? && |ids| == h
    requires Returned(InsertRec(t.kids[Route(t.keys, key)], h - 1, key, loc, ids), split, promoted, right)
    ensures var i := Route(t.keys, key); var g := InsertRec(t.kids[i], h - 1, key, loc, ids);
            match g
            case Whole(t') => !split && t'.id == t.kids[i].id
            case Parted(l, m, r) => split && promoted == m && right == r.id && l.id == t.kids[i].id
  {
    InsertRecKeepsName(t.kids[Route(t.keys, key)], h - 1, key, loc, ids);
  }

  lemma WholeFacts(t: Tree<Node>)
    requires t.Inner? && Sound(t)
    ensures t.id.numKeys == |t.keys| && GrownSound(Whole(t))
  {
  }

  lemma AdoptWhole(n: Node, keys: seq<int>, kids: seq<Tree<Node>>, i: nat, c: Tree<Node>)
    requires InnerRep(n, keys, Ids(kids)) && Separate(Inner(n, keys, kids)) && i < |kids|
    requires GrownSound(Whole(c)) && Own(n) !! GrownObjects(Whole(c)) && c.id == kids[i].id
    requires forall x :: 0 <= x < |kids| && x != i ==> Rep(kids[x]) && Objects(kids[x]) !! GrownObjects(Whole(c))
    ensures GrownSound(Whole(Inner(n, keys, kids[i := c])))
  {
    ReplaceApart(n, keys, kids, i, c);
    assert Ids(kids[i := c]) == Ids(kids);
  }

  /** What Adopt makes of the child's result, with the node's own names. */
  lemma AdoptFacts(t: Tree<Node>, h: nat, key: int, loc: Loc, childIds: seq<Node>, i: nat, child: Grown<Node>, name: Node)
    requires Shape(t, h) && t.Inner? && |childIds| == h && i == Route(t.keys, key)
    requires child == InsertRec(t.kids[i], h - 1, key, loc, childIds)
    ensures var g := Adopt(t.id, t.keys, t.kids, i, child, name);
            && InsertRec(t, h, key, loc, childIds + [name]) == g
            && GrownObjects(g) <= Objects(t) + Own(name) + GrownObjects(child)
            && match child
               case Whole(c) => g == Whole(Inner(t.id, t.keys, t.kids[i := c]))
               case Parted(l, m, r) =>
                 var keys', kids' := InsertAt(t.keys, KeyPos(t.keys, m), m), InsertAt(t.kids[i := l], KeyPos(t.keys, m) + 1, r);
                 g == if |keys'| == ORDER then SplitInner(t.id, keys', kids', name) else Whole(Inner(t.id, keys', kids'))
  {
    InsertRecNames(t.kids[i], h - 1, key, loc, childIds, [name]);
    AdoptObjects(t.id, t.keys, t.kids, i, child, name);
  }

  lemma AdoptObjects(n: Node, keys: seq<int>, kids: seq<Tree<Node>>, i: nat, child: Grown<Node>, name: Node)
    requires 1 <= |keys| < ORDER && |kids| == |keys| + 1 && i < |kids|
    ensures GrownObjects(Adopt(n, keys, kids, i, child, name)) <= Own(n) + Own(name) + AllObjects(kids) + GrownObjects(child)
  {
    var bound := AllObjects(kids) + GrownObjects(child);
    forall x | 0 <= x < |kids| ensures Objects(kids[x]) <= bound {
      KidObjects(kids, x);
    }
    hide AllObjects;
    match child
    case Whole(c) => Within(kids[i := c], bound);
    case Parted(l, m, r) =>
      var j := KeyPos(keys, m);
      var keys', kids' := InsertAt(keys, j, m), InsertAt(kids[i := l], j + 1, r);
      assert Objects(l) <= bound && Objects(r) <= bound;
      WidenWithin(kids[i := l], j + 1, r, bound);
      Within(kids', bound);
      if |keys'| == ORDER {
        SplitWithin(n, keys', kids', name, bound);
      }
  }

  lemma WidenWithin(kids: seq<Tree<Node>>, j: nat, r: Tree<Node>, bound: set<object>)
    requires j <= |kids| && Objects(r) <= bound && forall x :: 0 <= x < |kids| ==> Objects(kids[x]) <= bound
    ensures var kids' := InsertAt(kids, j, r); forall x :: 0 <= x < |kids'| ==> Objects(kids'[x]) <= bound
  {
    InsertedAt(kids, j, r);
  }

  lemma SplitWithin(n: Node, keys: seq<int>, kids: seq<Tree<Node>>, name: Node, bound: set<object>)
    requires |keys| == ORDER && |kids| == ORDER + 1
    requires forall x :: 0 <= x < |kids| ==> Objects(kids[x]) <= bound
    ensures GrownObjects(SplitInner(n, keys, kids, name)) <= Own(n) + Own(name) + bound
  {
    Within(kids[..MID + 1], bound);
    Within(kids[MID + 1..], bound);
    hide AllObjects;
  }

  lemma Within(ts: seq<Tree<Node>>, bound: set<object>)
    requires forall x :: 0 <= x < |ts| ==> Objects(ts[x]) <= bound
    ensures AllObjects(ts) <= bound
  {
  }

  lemma SplitReturned(n: Node, keys: seq<int>, kids: seq<Tree<Node>>, right: Node)
    requires |keys| == ORDER && |kids| == ORDER + 1
    ensures Returned(SplitInner(n, keys, kids, right), true, keys[MID], right)
  {
  }

  lemma WholeReturned()
    ensures forall t: Tree<Node> :: Returned(Whole(t), false, 0, null)
  {
  }

  /** The inner branch of insert_recursive. */
  method InsertIntoInner(node: Node, key: int, loc: Loc, ghost t: Tree<Node>, ghost h: nat)
    returns (split: bool, promoted: int, right: Node?, ghost ids: seq<Node>, ghost g: Grown<Node>)
    requires Shape(t, h) && t.id == node && Sound(t) && t.Inner?
    modifies Objects(t)
    ensures |ids| == h + 1 && g == InsertRec(t, h, key, loc, ids)
    ensures GrownSound(g) && Returned(g, split, promoted, right)
    ensures forall o :: o in GrownObjects(g) && o !in Objects(t) ==> !old(allocated(o))
    ensures Relinked(t, h, key, ids[0], old(Links(t)))
    decreases h, 1
  {
    hide *;
    InnerFacts(t, h);
    ghost var kids, links := t.kids, Links(t);
    LinksFacts(t, t);
    assert allocated(Objects(t)) && forall n :: n in links ==> n in Objects(t);
    var childSplit, m, r, childIds, child, i := InsertBelow(node, key, loc, t, h);
    ReturnedFacts(t, h, key, loc, childIds, childSplit, m, r);
    ghost var name := node;
    split, promoted, right := false, 0, null;
    WholeReturned();
    if childSplit {
      ghost var j := KeyPos(t.keys, m);
      ghost var keys', kids' := InsertAt(t.keys, j, m), InsertAt(kids[i := child.left], j + 1, child.right);
      InsertedAt(t.keys, j, m);
      InsertedAt(kids[i := child.left], j + 1, child.right);
      WidenNode(node, m, r, t.keys, kids, i, child);
      WholeFacts(Inner(node, keys', kids'));
      if node.numKeys == ORDER {
        right, promoted := SplitFullNode(node, keys', kids');
        split, name := true, right;
        SplitReturned(node, keys', kids', right);
      }
    } else {
      AdoptWhole(node, t.keys, kids, i, child.tree);
    }
    ids := childIds + [name];
    g := Adopt(node, t.keys, kids, i, child, name);
    AdoptFacts(t, h, key, loc, childIds, i, child, name);
  }

  lemma KidRelinked(t: Tree<Node>, h: nat, key: int, leaf: Node, kidLinks: map<Node, Node?>, links: map<Node, Node?>)
    requires Shape(t, h) && t.Inner?
    requires Relinked(t.kids[Route(t.keys, key)], h - 1, key, leaf, kidLinks)
    requires forall n :: n in kidLinks ==> n in links && links[n] == kidLinks[n]
    requires forall n :: n in links && n !in kidLinks ==> n.next == links[n]
    ensures Relinked(t, h, key, leaf, links)
  {
  }

  lemma FreshApart(kids: seq<Tree<Node>>, i: nat, before: set<object>, grown: set<object>)
    requires i < |kids| && Apart(kids) && AllObjects(kids) <= before
    requires (grown - Objects(kids[i])) !! before
    ensures forall x :: 0 <= x < |kids| && x != i ==> Objects(kids[x]) !! grown
  {
    forall x | 0 <= x < |kids| && x != i ensures Objects(kids[x]) !! grown {
      KidObjects(kids, x);
    }
  }

  /** What a sound inner node gives to a descent into its child. */
  lemma DescendFacts(t: Tree<Node>, h: nat, key: int)
    requires Shape(t, h) && Sound(t) && t.Inner?
    ensures var i := Route(t.keys, key);
            && i < |t.kids|
            && InnerRep(t.id, t.keys, Ids(t.kids))
            && Shape(t.kids[i], h - 1) && Sound(t.kids[i])
            && BTree.FindLeaf(t, h, key) == BTree.FindLeaf(t.kids[i], h - 1, key)
    ensures Objects(t) == Own(t.id) + AllObjects(t.kids) && Own(t.id) !! AllObjects(t.kids) && Apart(t.kids)
    ensures forall x :: 0 <= x < |t.kids| ==> Rep(t.kids[x])
  {
    OwnApart(t.id, t.keys, t.kids);
  }

  lemma ApartFacts(kids: seq<Tree<Node>>, i: nat)
    requires Apart(kids) && i < |kids|
    ensures forall x :: 0 <= x < |kids| ==> Objects(kids[x]) <= AllObjects(kids)
    ensures forall x :: 0 <= x < |kids| && x != i ==> Objects(kids[x]) !! Objects(kids[i])
  {
    forall x | 0 <= x < |kids| ensures Objects(kids[x]) <= AllObjects(kids) {
      KidObjects(kids, x);
    }
  }

  lemma LinksFacts(t: Tree<Node>, kid: Tree<Node>)
    requires Objects(kid) <= Objects(t)
    ensures forall n :: n in Links(kid) ==> n in Links(t) && Links(t)[n] == Links(kid)[n]
    ensures forall n :: n in Links(t) ==> n in Objects(t) && n.next == Links(t)[n] && (n in Objects(kid) ==> n in Links(kid))
  {
  }

  /** The descent of insert_recursive: what it leaves behind when the child has been inserted into. */
  method InsertBelow(node: Node, key: int, loc: Loc, ghost t: Tree<Node>, ghost h: nat)
    returns (split: bool, promoted: int, right: Node?, ghost ids: seq<Node>, ghost g: Grown<Node>, ghost i: nat)
    requires Shape(t, h) && t.id == node && Sound(t) && t.Inner?
    modifies AllObjects(t.kids)
    ensures i == Route(t.keys, key) && |ids| == h && i < |t.kids| && Shape(t.kids[i], h - 1)
    ensures g == InsertRec(t.kids[i], h - 1, key, loc, ids) && GrownSound(g) && Returned(g, split, promoted, right)
    ensures forall o :: o in GrownObjects(g) && o !in Objects(t) ==> !old(allocated(o))
    ensures Own(node) !! GrownObjects(g) && InnerRep(node, t.keys, Ids(t.kids))
    ensures forall x :: 0 <= x < |t.kids| && x != i ==> Rep(t.kids[x]) && Objects(t.kids[x]) !! GrownObjects(g)
    ensures Relinked(t, h, key, ids[0], old(Links(t)))
    decreases h, 0
  {
    hide *;
    ghost var kids, objects := t.kids, Objects(t);
    assert allocated(objects) && allocated(AllObjects(kids));
    DescendFacts(t, h, key);
    i := Route(t.keys, key);
    ApartFacts(kids, i);
    LinksFacts(t, kids[i]);
    ghost var links, kidLinks := Links(t), Links(kids[i]);
    assert forall n: Node :: n in links ==> n in objects && n.next == links[n] && (n in Objects(kids[i]) ==> n in kidLinks);
    var slot, child := ChildFor(node, key, t.keys, Ids(kids));
    split, promoted, right, ids, g := InsertRecursive(child, key, loc, kids[i], h - 1);
    assert (GrownObjects(g) - Objects(kids[i])) !! objects;
    FreshApart(kids, i, objects, GrownObjects(g));
    forall x | 0 <= x < |kids| && x != i ensures Rep(kids[x]) {
      assert Objects(kids[x]) <= AllObjects(kids) && Objects(kids[x]) !! Objects(kids[i]);
    }
    KidRelinked(t, h, key, ids[0], kidLinks, links);
  }

  // ---------------------------------------------------------------- descents that change nothing above the leaf

  /** find_leaf. */
  method DescendToLeaf(root: Node, key: int, ghost t: Tree<Node>, ghost h: nat) returns (leaf: Node)
    requires Shape(t, h) && Rep(t) && t.id == root
    ensures leaf == BTree.FindLeaf(t, h, key).id && LeafRep(leaf, BTree.FindLeaf(t, h, key).entries)
  {
    leaf := root;
    ghost var sub, d := t, h;
    while !leaf.isLeaf
      invariant Shape(sub, d) && Rep(sub) && sub.id == leaf
      invariant BTree.FindLeaf(sub, d, key) == BTree.FindLeaf(t, h, key)
      decreases d
    {
      assert Rep(sub.kids[Route(sub.keys, key)]) && allocated(Objects(sub.kids[Route(sub.keys, key)]));
      var i, child := ChildFor(leaf, key, sub.keys, Ids(sub.kids));
      leaf, sub, d := child, sub.kids[i], d - 1;
    }
  }

  lemma {:induction false} RoutedOwn(t: Tree<Node>, h: nat, key: int)
    requires Shape(t, h)
    ensures Own(BTree.FindLeaf(t, h, key).id) <= Objects(t)
  {
    if t.Inner? {
      RoutedOwn(t.kids[Route(t.keys, key)], h - 1, key);
      KidObjects(t.kids, Route(t.keys, key));
    }
  }

  /** Every node of a subtree except the routed leaf holds what the tree says. */
  ghost predicate RepAround(t: Tree<Node>, h: nat, key: int)
    requires Shape(t, h) && Separate(t)
    reads Objects(t) - Own(BTree.FindLeaf(t, h, key).id)
    decreases t
  {
    match t
    case Leaf(_, _) => true
    case Inner(n, keys, kids) =>
      var i := Route(keys, key);
      AroundFacts(t, h, key);
      hide Objects;
      hide AllObjects;
      hide Separate;
      && InnerRep(n, keys, Ids(kids))
      && (forall j :: 0 <= j < |kids| && j != i ==> Rep(kids[j]))
      && RepAround(kids[i], h - 1, key)
  }

  lemma AroundFacts(t: Tree<Node>, h: nat, key: int)
    requires Shape(t, h) && Separate(t) && t.Inner?
    ensures var i := Route(t.keys, key); var leaf := BTree.FindLeaf(t, h, key).id;
            && leaf == BTree.FindLeaf(t.kids[i], h - 1, key).id
            && Separate(t.kids[i])
            && Own(t.id) <= Objects(t) - Own(leaf)
            && Objects(t.kids[i]) - Own(leaf) <= Objects(t) - Own(leaf)
            && forall j :: 0 <= j < |t.kids| && j != i ==> Objects(t.kids[j]) <= Objects(t) - Own(leaf)
  {
    var i := Route(t.keys, key);
    assert Shape(t.kids[i], h - 1) && Separate(t.kids[i]) && BTree.FindLeaf(t, h, key) == BTree.FindLeaf(t.kids[i], h - 1, key);
    hide *;
    RoutedOwn(t.kids[i], h - 1, key);
    KidsApart(t, i, Own(BTree.FindLeaf(t, h, key).id));
  }

  lemma KidsApart(t: Tree<Node>, i: nat, own: set<object>)
    requires t.Inner? && Separate(t) && i < |t.kids| && own <= Objects(t.kids[i])
    ensures Own(t.id) <= Objects(t) - own && Objects(t.kids[i]) - own <= Objects(t) - own
    ensures forall j :: 0 <= j < |t.kids| && j != i ==> Objects(t.kids[j]) <= Objects(t) - own
  {
    ApartFacts(t.kids, i);
    assert Own(t.id) !! Objects(t.kids[i]) && Objects(t) == Own(t.id) + AllObjects(t.kids);
    hide Objects;
    hide AllObjects;
    hide Separate;
  }

  lemma {:induction false} RepGivesAround(t: Tree<Node>, h: nat, key: int)
    requires Shape(t, h) && Sound(t)
    ensures RepAround(t, h, key)
  {
    if t.Inner? {
      RepGivesAround(t.kids[Route(t.keys, key)], h - 1, key);
    }
  }

  lemma {:induction false} DeleteLayout(t: Tree<Node>, h: nat, key: int)
    requires Shape(t, h) && Separate(t)
    ensures var t' := BTree.Delete(t, h, key); Separate(t') && Objects(t') == Objects(t) && t'.id == t.id
  {
    if t.Inner? {
      var i := Route(t.keys, key);
      var kids' := t.kids[i := BTree.Delete(t.kids[i], h - 1, key)];
      DeleteLayout(t.kids[i], h - 1, key);
      assert forall j :: 0 <= j < |t.kids| ==> Objects(kids'[j]) == Objects(t.kids[j]);
      assert AllObjects(kids') == AllObjects(t.kids);
    }
  }

  /** Changing only the routed leaf turns the subtree into the one with the key deleted. */
  lemma {:induction false} AroundGivesRep(t: Tree<Node>, h: nat, key: int)
    requires Shape(t, h) && Separate(t) && RepAround(t, h, key)
    requires var leaf := BTree.FindLeaf(t, h, key); LeafRep(leaf.id, Drop(leaf.entries, key))
    ensures Rep(BTree.Delete(t, h, key))
  {
    if t.Inner? {
      var i := Route(t.keys, key);
      var kid' := BTree.Delete(t.kids[i], h - 1, key);
      AroundGivesRep(t.kids[i], h - 1, key);
      DeleteLayout(t.kids[i], h - 1, key);
      assert Ids(t.kids[i := kid']) == Ids(t.kids);
    }
  }

  /** The loop that closes the gap of a deleted entry. */
  method CloseLeafGap(leaf: Node, i: nat, ghost es: seq<Entry>)
    requires LeafRep(leaf, es) && i < |es|
    modifies leaf`numKeys, leaf.keys, leaf.locations
    ensures LeafRep(leaf, RemoveAt(es, i))
  {
    var j := i;
    while j < leaf.numKeys - 1
      invariant i <= j <= |es| - 1 == leaf.numKeys - 1 && leaf.isLeaf
      invariant forall x :: 0 <= x < j ==> var y := if x < i then x else x + 1;
                  leaf.keys[x] == es[y].key && leaf.locations[x] == es[y].loc
      invariant forall x :: j <= x < |es| ==> leaf.keys[x] == es[x].key && leaf.locations[x] == es[x].loc
    {
      leaf.keys[j] := leaf.keys[j + 1];
      leaf.locations[j] := leaf.locations[j + 1];
      j := j + 1;
    }
    leaf.numKeys := leaf.numKeys - 1;
  }

  /** The search loop of INDEX_search and INDEX_delete. */
  method FindInLeaf(leaf: Node, key: int, ghost es: seq<Entry>) returns (i: nat)
    requires LeafRep(leaf, es)
    ensures i == Find(es, key)
  {
    i := 0;
    while i < leaf.numKeys && leaf.keys[i] != key
      invariant 0 <= i <= |es| && FindFrom(es, key, i) == Find(es, key)
    {
      i := i + 1;
    }
  }

  lemma DeleteFacts(t: Tree<Node>, h: nat, key: int)
    requires Shape(t, h) && Sound(t)
    ensures Rep(t) && Separate(t) && RepAround(t, h, key)
    ensures var leaf := BTree.FindLeaf(t, h, key); var es := leaf.entries; var i := Find(es, key);
            && leaf.Leaf?
            && {leaf.id, leaf.id.keys, leaf.id.locations} <= Own(leaf.id) <= Objects(t)
            && (Has(es, key) <==> i < |es|)
            && Drop(es, key) == if i < |es| then RemoveAt(es, i) else es
  {
    RepGivesAround(t, h, key);
    RoutedOwn(t, h, key);
  }

  lemma SoundAfterDelete(t: Tree<Node>, h: nat, key: int)
    requires Shape(t, h) && Separate(t) && Rep(BTree.Delete(t, h, key))
    ensures Sound(BTree.Delete(t, h, key))
  {
    DeleteLayout(t, h, key);
  }

  lemma LeafSize(n: Node, es: seq<Entry>)
    requires LeafRep(n, es)
    ensures n.numKeys == |es|
  {
  }

  /** INDEX_delete, below the handle: only the routed leaf changes. */
  method DeleteBelow(root: Node, key: int, ghost t: Tree<Node>, ghost h: nat, ghost routed: Node) returns (found: bool)
    requires Shape(t, h) && Sound(t) && t.id == root && routed == BTree.FindLeaf(t, h, key).id
    modifies routed`numKeys, routed.keys, routed.locations
    ensures Sound(BTree.Delete(t, h, key))
    ensures found <==> Has(BTree.FindLeaf(t, h, key).entries, key)
  {
    hide *;
    ghost var es := BTree.FindLeaf(t, h, key).entries;
    assert allocated(Objects(t));
    DeleteFacts(t, h, key);
    var leaf := DescendToLeaf(root, key, t, h);
    var i := FindInLeaf(leaf, key, es);
    LeafSize(leaf, es);
    found := i < leaf.numKeys;
    if found {
      CloseLeafGap(leaf, i, es);
    }
    AroundGivesRep(t, h, key);
    SoundAfterDelete(t, h, key);
  }

  lemma PairSeparate(root: Node, key: int, l: Tree<Node>, r: Tree<Node>)
    requires Separate(l) && Separate(r) && Objects(l) !! Objects(r) && Own(root) !! Objects(l) + Objects(r)
    ensures Separate(Inner(root, [key], [l, r]))
  {
    hide Objects, Own;
    assert Apart([l, r]);
  }

  lemma PairRep(root: Node, key: int, l: Tree<Node>, r: Tree<Node>)
    requires InnerRep(root, [key], [l.id, r.id]) && Rep(l) && Rep(r)
    ensures Rep(Inner(root, [key], [l, r]))
  {
    hide InnerRep;
    assert Ids([l, r]) == [l.id, r.id];
  }

  lemma RootFacts(root: Node, g: Grown<Node>)
    requires GrownSound(g) && g.Parted? && InnerRep(root, [g.key], [g.left.id, g.right.id]) && Own(root) !! GrownObjects(g)
    ensures Sound(Plant(g, root)) && Objects(Plant(g, root)) == Own(root) + GrownObjects(g)
  {
    hide Separate, Rep, Own, AllObjects, InnerRep;
    PairSeparate(root, g.key, g.left, g.right);
    PairRep(root, g.key, g.left, g.right);
    PairObjects(g.left, g.right);
    assert Plant(g, root) == Inner(root, [g.key], [g.left, g.right]);
  }

  /** The root split of INDEX_insert. */
  method GrowRoot(left: Node, promoted: int, right: Node, ghost g: Grown<Node>) returns (root: Node)
    requires GrownSound(g) && g.Parted? && promoted == g.key && left == g.left.id && right == g.right.id
    ensures fresh(Own(root)) && Sound(Plant(g, root)) && Objects(Plant(g, root)) == Own(root) + GrownObjects(g)
  {
    hide GrownSound;
    hide GrownObjects;
    hide Sound;
    hide Objects;
    hide Plant;
    assert allocated(GrownObjects(g));
    root := new Node(false);
    root.keys[0] := promoted;
    root.children[0] := left;
    root.children[1] := right;
    root.numKeys := 1;
    RootFacts(root, g);
  }

  lemma PairObjects(l: Tree<Node>, r: Tree<Node>)
    ensures AllObjects([l, r]) == Objects(l) + Objects(r)
  {
    Within([l, r], Objects(l) + Objects(r));
    KidObjects([l, r], 0);
    KidObjects([l, r], 1);
    hide AllObjects;
    assert [l, r][0] == l && [l, r][1] == r;
  }

  // ---------------------------------------------------------------- the leaf chain

  ghost function After(ls: seq<Node>, i: nat): Node? {
    if i + 1 < |ls| then ls[i + 1] else null
  }

  /** Following `next` from the first leaf visits exactly the listed leaves, in order. */
  ghost predicate Chained(ls: seq<Node>)
    reads (set n | n in ls)`next
  {
    forall i :: 0 <= i < |ls| ==> ls[i].next == After(ls, i)
  }

  /** A chain that ends cannot visit a leaf twice. */
  lemma {:induction false} ChainAcyclic(ls: seq<Node>, i: nat, j: nat)
    requires Chained(ls) && i < j < |ls|
    ensures ls[i] != ls[j]
    decreases |ls| - j
  {
    assert ls[i].next == ls[i + 1];
    if j + 1 < |ls| {
      assert ls[j].next == ls[j + 1];
      ChainAcyclic(ls, i + 1, j + 1);
    } else {
      assert ls[j].next == null;
    }
  }

  /** The chain after an insertion that has relinked at most the routed leaf. */
  lemma Rechained(a: seq<Node>, f: Node, c: seq<Node>, leaf: Node, links: map<Node, Node?>, full: bool)
    requires var ls := a + [f] + c;
             && NoDuplicates(ls) && f in links
             && (forall i :: 0 <= i < |ls| ==> ls[i] in links && links[ls[i]] == After(ls, i))
             && forall i :: 0 <= i < |ls| && ls[i] != f ==> ls[i].next == links[ls[i]]
    requires if full then f.next == leaf && leaf.next == links[f] else f.next == links[f]
    ensures Chained(a + (if full then [f, leaf] else [f]) + c)
  {
    var ls, ls', p := a + [f] + c, a + (if full then [f, leaf] else [f]) + c, |a|;
    assert ls[p] == f;
    forall i | 0 <= i < |ls'| ensures ls'[i].next == After(ls', i) {
      if i < p {
        assert ls'[i] == ls[i] != ls[p] && ls'[i + 1] == ls[i + 1];
      } else if i > p && (full ==> i > p + 1) {
        var j := if full then i - 1 else i;
        assert ls'[i] == ls[j] != ls[p];
        assert i + 1 < |ls'| ==> ls'[i + 1] == ls[j + 1];
      } else {
        assert p + 1 < |ls| ==> ls[p + 1] == ls'[if full then p + 2 else p + 1];
      }
    }
  }

  lemma {:induction false} LeavesOwned(t: Tree<Node>)
    ensures forall n :: n in Leaves(t) ==> n in Objects(t)
    decreases t, 1
  {
    if t.Inner? {
      AllLeavesOwned(t, 0);
      assert t.kids[0..] == t.kids;
    }
  }

  lemma {:induction false} AllLeavesOwned(t: Tree<Node>, a: nat)
    requires t.Inner? && a <= |t.kids|
    ensures forall n :: n in AllLeaves(t.kids[a..]) ==> n in AllObjects(t.kids)
    decreases t, 0, |t.kids| - a
  {
    if a < |t.kids| {
      assert t.kids[a..][1..] == t.kids[a + 1..];
      LeavesOwned(t.kids[a]);
      KidObjects(t.kids, a);
      AllLeavesOwned(t, a + 1);
    }
  }

  // ---------------------------------------------------------------- the index itself

  lemma OldChain(t: Tree<Node>)
    requires (LeavesOwned(t); Chained(Leaves(t)))
    ensures NoDuplicates(Leaves(t))
    ensures forall i :: 0 <= i < |Leaves(t)| ==> Leaves(t)[i] in Links(t) && Links(t)[Leaves(t)[i]] == After(Leaves(t), i)
  {
    LeavesOwned(t);
    var ls := Leaves(t);
    forall i, j | 0 <= i < j < |ls| ensures ls[i] != ls[j] {
      ChainAcyclic(ls, i, j);
    }
  }

  /** Inserting an absent key: the chain runs through the new leaves, and the map gains one binding. */
  lemma InsertSearchable(t: Tree<Node>, h: nat, key: int, loc: Loc, ids: seq<Node>, links: map<Node, Node?>)
    requires Proper(t, h) && |ids| == h + 2 && key !in View(t)
    requires NoDuplicates(Leaves(t))
    requires forall i :: 0 <= i < |Leaves(t)| ==> Leaves(t)[i] in links && links[Leaves(t)[i]] == After(Leaves(t), i)
    requires Relinked(t, h, key, ids[0], links)
    ensures var t' := BTree.Insert(t, h, key, loc, ids);
            Ordered(t', Open, Open) && Chained(Leaves(t')) && View(t') == View(t)[key := loc]
  {
    InsertCorrect(t, h, key, loc, ids);
    DescendLeaves(t, h, key);
    var routed := BTree.FindLeaf(t, h, key);
    var a, c, full := LeavesBefore(t, h, key), LeavesAfter(t, h, key), |routed.entries| == ORDER - 1;
    hide BTree.Insert;
    hide Leaves;
    hide LeavesBefore;
    hide LeavesAfter;
    hide View;
    hide Shape;
    hide Ordered;
    assert routed.id in links;
    Rechained(a, routed.id, c, ids[0], links, full);
  }

  lemma ChainStep(ls: seq<Node>, n: nat)
    requires Chained(ls) && n < |ls|
    ensures ls[n].next == if n + 1 < |ls| then ls[n + 1] else null
  {
  }

  lemma NextKeys(ess: seq<seq<Entry>>, n: nat)
    requires n < |ess|
    ensures KeyList(Flatten(ess[..n + 1])) == KeyList(Flatten(ess[..n])) + KeyList(ess[n])
  {
    assert ess[..n + 1] == ess[..n] + [ess[n]];
    FlattenConcat(ess[..n], [ess[n]]);
    assert Flatten([ess[n]]) == ess[n] by { assert [ess[n]][1..] == []; }
  }

  lemma WalkFacts(t: Tree<Node>, h: nat)
    requires Shape(t, h) && Ordered(t, Open, Open) && Sound(t)
    ensures Rep(t) && |Leaves(t)| == |LeafEntries(t)| && Flatten(LeafEntries(t)) == Entries(t)
    ensures Flatten(LeafEntries(t)[..0]) == []
    ensures Increasing(KeyList(Entries(t))) && forall k :: k in KeyList(Entries(t)) <==> k in View(t)
    ensures forall n :: n in Leaves(t) ==> n in Objects(t)
  {
    LeafEntriesFlat(t);
    KeysAlongChain(t, h);
    LeavesOwned(t);
  }

  lemma ChainKept(ls: seq<Node>, links: map<Node, Node?>)
    requires forall i :: 0 <= i < |ls| ==> ls[i] in links && links[ls[i]] == After(ls, i) && ls[i].next == links[ls[i]]
    ensures Chained(ls)
  {
  }

  lemma PlantedNames(t: Tree<Node>, h: nat, key: int, loc: Loc, ids: seq<Node>, root: Node)
    requires Shape(t, h) && |ids| == h + 1
    ensures BTree.Insert(t, h, key, loc, ids + [root]) == Plant(InsertRec(t, h, key, loc, ids), root)
    ensures NextHeight(t, h, key, loc, ids + [root]) == if InsertRec(t, h, key, loc, ids).Parted? then h + 1 else h
    ensures match InsertRec(t, h, key, loc, ids)
            case Whole(t') => t'.id == t.id && Plant(Whole(t'), root) == t'
            case Parted(l, _, _) => l.id == t.id && Plant(InsertRec(t, h, key, loc, ids), root).id == root
  {
    InsertRecNames(t, h, key, loc, ids, [root]);
    InsertRecKeepsName(t, h, key, loc, ids);
  }

  /** INDEX_insert, below the handle. */
  method InsertBelowRoot(root: Node, key: int, loc: Loc, ghost t: Tree<Node>, ghost h: nat)
    returns (newRoot: Node, split: bool, ghost ids: seq<Node>)
    requires Shape(t, h) && Sound(t) && t.id == root
    modifies Objects(t)
    ensures |ids| == h + 2 && newRoot == BTree.Insert(t, h, key, loc, ids).id && (!split ==> newRoot == root)
    ensures NextHeight(t, h, key, loc, ids) == if split then h + 1 else h
    ensures Sound(BTree.Insert(t, h, key, loc, ids))
    ensures forall o :: o in Objects(BTree.Insert(t, h, key, loc, ids)) && o !in Objects(t) ==> !old(allocated(o))
    ensures Relinked(t, h, key, ids[0], old(Links(t)))
  {
    hide *;
    ghost var links := Links(t);
    LinksFacts(t, t);
    assert allocated(Objects(t)) && forall n :: n in links ==> n in Objects(t);
    var isSplit, promoted, right, names, g := InsertRecursive(root, key, loc, t, h);
    split, ids := isSplit, names;
    GrownFacts(g, split, promoted, right);
    InsertRecKeepsName(t, h, key, loc, ids);
    newRoot := root;
    if split {
      newRoot := GrowRoot(root, promoted, right, g);
    }
    PlantedNames(t, h, key, loc, ids, newRoot);
    assert (ids + [newRoot])[0] == ids[0];
    ids := ids + [newRoot];
  }

  datatype SearchResult = NotFound | Found(loc: Loc)

  /** INDEX, with the tree it stands for, its height, and the number of insertions ever made. */
  class Index {
    var root: Node
    var nodeCount: nat
    ghost var tree: Tree<Node>
    ghost var height: nat
    ghost var inserts: nat

    ghost function Repr(): set<object>
      reads this
    {
      {this} + Objects(tree)
    }

    /** The layout invariant, kept by every call for whatever keys: the nodes hold the tree, no node
        is over-full, all leaves are at one depth, and the counters are right. */
    ghost predicate Valid()
      reads this, Objects(tree)
    {
      && this !in Objects(tree)
      && root == tree.id
      && Sound(tree)
      && Paid(tree, height, inserts)
      && nodeCount == 1 + inserts + height
    }

    /** The search invariant, kept as long as only absent keys are inserted: the keys are in order
        and the leaf chain runs through the leaves from left to right. */
    ghost predicate Searchable()
      reads this, Objects(tree)
    {
      Ordered(tree, Open, Open) && (LeavesOwned(tree); Chained(Leaves(tree)))
    }

    ghost function Contents(): map<int, Loc>
      reads this
    {
      View(tree)
    }

    /** INDEX_create. */
    constructor ()
      ensures Valid() && Searchable() && fresh(Repr())
      ensures Contents() == map[] && inserts == 0
    {
      var leaf := new Node(true);
      root := leaf;
      nodeCount := 1;
      tree := Leaf(leaf, []);
      height := 0;
      inserts := 0;
    }

    /** INDEX_search. */
    method Search(key: int) returns (r: SearchResult)
      requires Valid()
      ensures Searchable() ==> r == if key in Contents() then Found(Contents()[key]) else NotFound
    {
      var leaf := DescendToLeaf(root, key, tree, height);
      ghost var es := BTree.FindLeaf(tree, height, key).entries;
      var i := FindInLeaf(leaf, key, es);
      if Ordered(tree, Open, Open) {
        SearchCorrect(tree, height, key);
      }
      if i < leaf.numKeys {
        return Found(leaf.locations[i]);
      }
      return NotFound;
    }

    /** The walk of INDEX_print_leaves: down to the leftmost leaf, then along `next`. */
    method LeafWalk() returns (keys: seq<int>)
      requires Valid() && Searchable()
      ensures keys == KeyList(Entries(tree))
      ensures Increasing(keys) && forall k :: k in keys <==> k in Contents()
    {
      hide *;
      ghost var t, ls, ess := tree, Leaves(tree), LeafEntries(tree);
      ValidFacts();
      WalkFacts(t, height);
      assert allocated(Objects(t));
      var leaf: Node? := FirstLeaf(root, t, height);
      keys := [];
      ghost var n := 0;
      while leaf != null
        invariant n <= |ls| && leaf == (if n < |ls| then ls[n] else null)
        invariant Rep(t) && Chained(ls)
        invariant keys == KeyList(Flatten(ess[..n]))
        decreases |ls| - n
      {
        LeafReps(t);
        var own := ReadKeys(leaf, ess[n]);
        NextKeys(ess, n);
        ChainStep(ls, n);
        keys := keys + own;
        leaf := leaf.next;
        n := n + 1;
      }
      assert ess[..n] == ess;
    }

    /** The height is logarithmic in the insertions made, and node_count bounds the real node count. */
    lemma Balanced()
      requires Valid()
      ensures height >= 1 ==> Pow2(height + 1) <= inserts
      ensures Size(tree) <= nodeCount == 1 + inserts + height
    {
      HeightAndSize(tree, height, inserts);
    }

    lemma ValidFacts()
      requires Valid()
      ensures this !in Objects(tree) && root == tree.id && Sound(tree) && Shape(tree, height)
      ensures Paid(tree, height, inserts) && nodeCount == 1 + inserts + height && Repr() == {this} + Objects(tree)
      ensures Searchable() <==> (LeavesOwned(tree); Ordered(tree, Open, Open) && Chained(Leaves(tree)))
      ensures Contents() == View(tree)
    {
    }

    lemma ValidIntro()
      requires this !in Objects(tree) && root == tree.id && Sound(tree)
      requires Paid(tree, height, inserts) && nodeCount == 1 + inserts + height
      ensures Valid()
    {
    }

    /** INDEX_delete. */
    method Delete(key: int) returns (found: bool)
      requires Valid()
      modifies Repr()
      ensures Valid() && Repr() == old(Repr()) && inserts == old(inserts)
      ensures old(Searchable()) ==>
                Searchable() && Contents() == old(Contents()) - {key} && (found <==> key in old(Contents()))
    {
      hide *;
      ValidFacts();
      ghost var t, h, links, ordered := tree, height, Links(tree), Searchable();
      DeleteFacts(t, h, key);
      LinksFacts(t, t);
      LeavesOwned(t);
      if ordered {
        OldChain(t);
        SearchInOrder(t, h, key);
      }
      assert allocated(Objects(t));
      found := DeleteBelow(root, key, t, h, BTree.FindLeaf(t, h, key).id);
      DeleteLayout(t, h, key);
      DeletePaid(t, h, key, inserts);
      tree := BTree.Delete(t, h, key);
      ValidIntro();
      ValidFacts();
      if ordered {
        ChainKept(Leaves(t), links);
      }
    }

    /** INDEX_insert. */
    method Insert(key: int, loc: Loc)
      requires Valid()
      modifies Repr()
      ensures Valid() && inserts == old(inserts) + 1
      ensures fresh(Repr() - old(Repr()))
      ensures forall x :: Occurs(Entries(tree), x) == Occurs(old(Entries(tree)), x) + if x == key then 1 else 0
      ensures old(Searchable()) ==> (Searchable() <==> key !in old(Contents()))
      ensures old(Searchable()) && key !in old(Contents()) ==> Contents() == old(Contents())[key := loc]
    {
      hide *;
      ValidFacts();
      ghost var t, h, links, ordered := tree, height, Links(tree), Searchable();
      if ordered {
        OldChain(t);
        ProperIntro(t, h);
      }
      var newRoot, split, ids := InsertBelowRoot(root, key, loc, t, h);
      if split {
        root := newRoot;
        nodeCount := nodeCount + 1;
      }
      nodeCount := nodeCount + 1;
      InsertPaid(t, h, key, loc, ids, inserts);
      if ordered && key !in View(t) {
        InsertSearchable(t, h, key, loc, ids, links);
      }
      InsertEffect(t, h, key, loc, ids);
      inserts := inserts + 1;
      height := NextHeight(t, h, key, loc, ids);
      tree := BTree.Insert(t, h, key, loc, ids);
      ValidIntro();
      ValidFacts();
    }
  }

  lemma InsertEffect(t: Tree<Node>, h: nat, key: int, loc: Loc, ids: seq<Node>)
    requires Shape(t, h) && |ids| == h + 2
    ensures forall x :: Occurs(Entries(BTree.Insert(t, h, key, loc, ids)), x) == Occurs(Entries(t), x) + if x == key then 1 else 0
    ensures Proper(t, h) && key in View(t) ==> !Ordered(BTree.Insert(t, h, key, loc, ids), Open, Open)
  {
    hide *;
    forall x {
      InsertAddsOneEntry(t, h, key, loc, ids, x);
    }
    if Proper(t, h) && key in View(t) {
      RepeatUnsorted(t, h, key, loc, ids);
      InsertShape(t, h, key, loc, ids);
      ProperShape(BTree.Insert(t, h, key, loc, ids), NextHeight(t, h, key, loc, ids));
    }
  }

  lemma ProperIntro(t: Tree<Node>, h: nat)
    requires Shape(t, h) && Ordered(t, Open, Open)
    ensures Proper(t, h)
  {
  }

  lemma SearchInOrder(t: Tree<Node>, h: nat, key: int)
    requires Shape(t, h) && Ordered(t, Open, Open)
    ensures Proper(t, h) && (Has(BTree.FindLeaf(t, h, key).entries, key) <==> key in View(t))
    ensures Ordered(BTree.Delete(t, h, key), Open, Open) && View(BTree.Delete(t, h, key)) == View(t) - {key}
    ensures Leaves(BTree.Delete(t, h, key)) == Leaves(t)
  {
    SearchCorrect(t, h, key);
    DeleteCorrect(t, h, key);
  }

  lemma GrownFacts(g: Grown<Node>, split: bool, promoted: int, right: Node?)
    requires GrownSound(g) && Returned(g, split, promoted, right)
    ensures split <==> g.Parted?
    ensures match g
            case Whole(t) => Sound(t) && GrownObjects(g) == Objects(t)
            case Parted(l, m, r) => promoted == m && right == r.id
  {
  }

  /** The first loop of INDEX_print_leaves. */
  method FirstLeaf(root: Node, ghost t: Tree<Node>, ghost h: nat) returns (leaf: Node)
    requires Shape(t, h) && Rep(t) && t.id == root
    ensures |Leaves(t)| > 0 && leaf == Leaves(t)[0]
  {
    leaf := root;
    ghost var sub, d := t, h;
    LeavesBound(t, h);
    while !leaf.isLeaf
      invariant Shape(sub, d) && Rep(sub) && sub.id == leaf
      invariant |Leaves(sub)| > 0 && Leaves(sub)[0] == Leaves(t)[0]
      decreases d
    {
      LeavesBound(sub.kids[0], d - 1);
      leaf, sub, d := leaf.children[0], sub.kids[0], d - 1;
    }
  }

  /** The key loop over one leaf. */
  method ReadKeys(leaf: Node, ghost es: seq<Entry>) returns (keys: seq<int>)
    requires LeafRep(leaf, es)
    ensures keys == KeyList(es)
  {
    keys := [];
    var i := 0;
    while i < leaf.numKeys
      invariant 0 <= i <= |es| && keys == KeyList(es[..i])
    {
      keys := keys + [leaf.keys[i]];
      i := i + 1;
    }
    assert es[..i] == es;
  }

  lemma {:induction false} LeafReps(t: Tree<Node>)
    requires Rep(t)
    ensures |LeafEntries(t)| == |Leaves(t)|
    ensures forall i :: 0 <= i < |Leaves(t)| ==> LeafRep(Leaves(t)[i], LeafEntries(t)[i])
    decreases t, 1
  {
    if t.Inner? {
      KidLeafReps(t, 0);
      assert t.kids[0..] == t.kids;
    }
  }

  lemma {:induction false} KidLeafReps(t: Tree<Node>, n: nat)
    requires t.Inner? && Rep(t) && n <= |t.kids|
    ensures var ts := t.kids[n..];
            && |AllLeafEntries(ts)| == |AllLeaves(ts)|
            && forall i :: 0 <= i < |AllLeaves(ts)| ==> LeafRep(AllLeaves(ts)[i], AllLeafEntries(ts)[i])
    decreases t, 0, |t.kids| - n
  {
    if n < |t.kids| {
      assert t.kids[n..][1..] == t.kids[n + 1..];
      LeafReps(t.kids[n]);
      KidLeafReps(t, n + 1);
    }
  }
}
