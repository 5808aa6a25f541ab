/** The B+ tree as a finite map: what one operation does to the stored map, and what every
    run of operations keeps. */
module BTreeMap {
  import opened BTree

  /** The invariant of a tree that only ever received absent keys. */
  ghost predicate Proper<T>(t: Tree<T>, h: nat) {
    Shape(t, h) && Ordered(t, Open, Open)
  }

  /** The map a tree stores. */
  ghost function View<T>(t: Tree<T>): map<int, Loc> {
    ToMap(Entries(t))
  }

  // ---------------------------------------------------------------- entry lists as maps

  lemma InMap(es: seq<Entry>, k: int)
    ensures k in ToMap(es) <==> Has(es, k)
    ensures Has(es, k) ==> ToMap(es)[k] == es[Find(es, k)].loc
  {
    if Has(es, k) {
      assert es[Find(es, k)].key in Keys(es);
    }
  }

  lemma FindSorted(es: seq<Entry>, i: nat)
    requires Sorted(es) && i < |es|
    ensures Find(es, es[i].key) == i
  {
  }

  lemma InsertAtFind(es: seq<Entry>, p: nat, e: Entry, x: int)
    requires p <= |es| && Sorted(es) && !Has(es, e.key) && Sorted(InsertAt(es, p, e))
    ensures var es' := InsertAt(es, p, e);
            && (Has(es', x) <==> Has(es, x) || x == e.key)
            && (Has(es, x) ==> es'[Find(es', x)] == es[Find(es, x)])
            && (x == e.key ==> es'[Find(es', x)] == e)
  {
    var es' := InsertAt(es, p, e);
    FindSorted(es', p);
    if Has(es, x) {
      var i := Find(es, x);
      FindSorted(es', if i < p then i else i + 1);
    } else if x != e.key {
      AbsentAfterInsertAt(es, p, e, x);
    }
  }

  lemma InsertAtLookup(es: seq<Entry>, p: nat, k: int, loc: Loc, x: int)
    requires p <= |es| && Sorted(es) && !Has(es, k) && Sorted(InsertAt(es, p, Entry(k, loc)))
    ensures var m := ToMap(InsertAt(es, p, Entry(k, loc)));
            (x in m <==> x in ToMap(es)[k := loc]) && (x in m ==> m[x] == ToMap(es)[k := loc][x])
  {
    hide *;
    InMap(es, x);
    InMap(InsertAt(es, p, Entry(k, loc)), x);
    InsertAtFind(es, p, Entry(k, loc), x);
  }

  lemma AbsentAfterInsertAt(es: seq<Entry>, p: nat, e: Entry, x: int)
    requires p <= |es| && !Has(es, x) && x != e.key
    ensures !Has(InsertAt(es, p, e), x)
  {
    var es' := InsertAt(es, p, e);
    forall i | 0 <= i < |es'| ensures es'[i].key != x {
      if i != p {
        assert es'[i] == es[if i < p then i else i - 1];
      }
    }
  }

  lemma InsertAtMap(es: seq<Entry>, p: nat, k: int, loc: Loc)
    requires p <= |es| && Sorted(es) && !Has(es, k) && Sorted(InsertAt(es, p, Entry(k, loc)))
    ensures ToMap(InsertAt(es, p, Entry(k, loc))) == ToMap(es)[k := loc]
  {
    forall x {
      InsertAtLookup(es, p, k, loc, x);
    }
  }

  lemma RemoveSorted(es: seq<Entry>, p: nat)
    requires p < |es| && Sorted(es)
    ensures Sorted(RemoveAt(es, p))
  {
    var es' := RemoveAt(es, p);
    forall i, j | 0 <= i < j < |es'| ensures es'[i].key < es'[j].key {
      assert es'[i] == es[if i < p then i else i + 1] && es'[j] == es[if j < p then j else j + 1];
    }
  }

  lemma RemoveAtLookup(es: seq<Entry>, p: nat, x: int)
    requires p < |es| && Sorted(es)
    ensures var m := ToMap(RemoveAt(es, p));
            (x in m <==> x in ToMap(es) && x != es[p].key) && (x in m ==> m[x] == ToMap(es)[x])
  {
    var es' := RemoveAt(es, p);
    RemoveSorted(es, p);
    InMap(es, x);
    InMap(es', x);
    hide ToMap;
    FindSorted(es, p);
    if Has(es, x) && x != es[p].key {
      var i := Find(es, x);
      FindSorted(es', if i < p then i else i - 1);
    } else {
      AbsentAfterRemoveAt(es, p, x);
    }
  }

  lemma AbsentAfterRemoveAt(es: seq<Entry>, p: nat, x: int)
    requires p < |es| && Sorted(es) && (Has(es, x) ==> x == es[p].key)
    ensures !Has(RemoveAt(es, p), x)
  {
    var es' := RemoveAt(es, p);
    forall i | 0 <= i < |es'| ensures es'[i].key != x {
      assert es'[i] == es[if i < p then i else i + 1];
    }
  }

  lemma RemoveAtMap(es: seq<Entry>, p: nat)
    requires p < |es| && Sorted(es)
    ensures ToMap(RemoveAt(es, p)) == ToMap(es) - {es[p].key}
  {
    forall x {
      RemoveAtLookup(es, p, x);
    }
  }

  // ---------------------------------------------------------------- single operations

  lemma AbsentAround(pre: seq<Entry>, es: seq<Entry>, post: seq<Entry>, k: int)
    requires Below(pre, k) && Above(k, post) && !Has(es, k)
    ensures !Has(pre + es + post, k)
  {
    var all := pre + es + post;
    forall j | 0 <= j < |all| ensures all[j].key != k {
      if |pre| <= j < |pre| + |es| {
        assert all[j] == es[j - |pre|];
      }
    }
  }

  /** INDEX_search looks only in the routed leaf, and that is enough. */
  lemma SearchCorrect<T>(t: Tree<T>, h: nat, k: int)
    requires Proper(t, h)
    ensures var es := FindLeaf(t, h, k).entries;
            && (Has(es, k) <==> k in View(t))
            && (Has(es, k) ==> View(t)[k] == es[Find(es, k)].loc)
  {
    var pre, es, post := Pre(t, h, k), FindLeaf(t, h, k).entries, Post(t, h, k);
    DescendEntries(t, h, k);
    InMap(Entries(t), k);
    if Has(es, k) {
      EntriesInRange(t, Open, Open);
      FindSorted(pre + es + post, |pre| + Find(es, k));
    } else {
      Descend(t, h, k, Open, Open);
      AbsentAround(pre, es, post, k);
    }
  }

  lemma PlantProper<T>(g: Grown<T>, newId: T, h: nat)
    requires GrownShape(g, h) && GrownOrdered(g, Open, Open)
    ensures Proper(Plant(g, newId), if g.Parted? then h + 1 else h)
    ensures Entries(Plant(g, newId)) == GrownEntries(g) && Leaves(Plant(g, newId)) == GrownLeaves(g)
  {
    match g
    case Whole(_) =>
    case Parted(l, m, r) =>
      AllEntriesConcat([l], [r]);
      AllLeavesConcat([l], [r]);
      assert [l] + [r] == [l, r];
  }

  lemma PutMiddle(pre: seq<Entry>, es: seq<Entry>, post: seq<Entry>, k: int, loc: Loc)
    requires Sorted(pre + es + post) && !Has(pre + es + post, k) && Sorted(pre + Put(es, k, loc) + post)
    ensures ToMap(pre + Put(es, k, loc) + post) == ToMap(pre + es + post)[k := loc]
  {
    hide ToMap;
    hide Sorted;
    hide Has;
    InsertAtMiddle(pre, es, post, EntryPos(es, k), Entry(k, loc));
    InsertAtMap(pre + es + post, |pre| + EntryPos(es, k), k, loc);
  }

  /** INDEX_insert of an absent key adds exactly that binding, and threads a split leaf in
      directly after its left half. */
  lemma InsertCorrect<T>(t: Tree<T>, h: nat, k: int, loc: Loc, ids: seq<T>)
    requires |ids| == h + 2
    requires Proper(t, h) && k !in View(t)
    ensures Proper(Insert(t, h, k, loc, ids), NextHeight(t, h, k, loc, ids))
    ensures View(Insert(t, h, k, loc, ids)) == View(t)[k := loc]
    ensures Leaves(Insert(t, h, k, loc, ids))
         == LeavesBefore(t, h, k) + LeafIds(t, h, k, ids[0]) + LeavesAfter(t, h, k)
  {
    hide Shape;
    hide Ordered;
    hide GrownOrdered;
    hide GrownShape;
    hide InsertRec;
    hide Entries;
    hide Leaves;
    hide Plant;
    hide ToMap;
    hide Sorted;
    hide Put;
    hide LeafIds;
    var pre, es, post := Pre(t, h, k), FindLeaf(t, h, k).entries, Post(t, h, k);
    var t' := Insert(t, h, k, loc, ids);
    SearchCorrect(t, h, k);
    InsertRecShape(t, h, k, loc, ids);
    InsertRecOrdered(t, h, k, loc, ids, Open, Open);
    InsertRecLeaves(t, h, k, loc, ids, Open, Open);
    PlantProper(InsertRec(t, h, k, loc, ids), ids[h + 1], h);
    assert View(t') == View(t)[k := loc] by {
      DescendEntries(t, h, k);
      EntriesInRange(t, Open, Open);
      EntriesInRange(t', Open, Open);
      InMap(Entries(t), k);
      PutMiddle(pre, es, post, k, loc);
    }
  }

  lemma InsertAtMiddle<A>(a: seq<A>, b: seq<A>, c: seq<A>, i: nat, x: A)
    requires i <= |b|
    ensures InsertAt(a + b + c, |a| + i, x) == a + InsertAt(b, i, x) + c
  {
  }

  lemma RemoveAtMiddle<A>(a: seq<A>, b: seq<A>, c: seq<A>, i: nat)
    requires i < |b|
    ensures RemoveAt(a + b + c, |a| + i) == a + RemoveAt(b, i) + c
  {
  }

  lemma DropMiddle(pre: seq<Entry>, es: seq<Entry>, post: seq<Entry>, k: int)
    requires Sorted(pre + es + post) && (Has(es, k) <==> k in ToMap(pre + es + post))
    ensures ToMap(pre + Drop(es, k) + post) == ToMap(pre + es + post) - {k}
  {
    hide ToMap;
    hide Sorted;
    var i := Find(es, k);
    if i < |es| {
      RemoveAtMiddle(pre, es, post, i);
      assert (pre + es + post)[|pre| + i] == es[i];
      RemoveAtMap(pre + es + post, |pre| + i);
    }
  }

  /** INDEX_delete removes exactly the binding of `k`, and finds it exactly when there is one; the
      leaf chain stays as it was. */
  lemma DeleteCorrect<T>(t: Tree<T>, h: nat, k: int)
    requires Proper(t, h)
    ensures Has(FindLeaf(t, h, k).entries, k) <==> k in View(t)
    ensures Proper(Delete(t, h, k), h)
    ensures View(Delete(t, h, k)) == View(t) - {k}
    ensures Leaves(Delete(t, h, k)) == Leaves(t)
  {
    DeleteShape(t, h, k);
    DeleteOrdered(t, h, k, Open, Open);
    DeleteEntries(t, h, k);
    SearchCorrect(t, h, k);
    assert View(Delete(t, h, k)) == View(t) - {k} by {
      DescendEntries(t, h, k);
      EntriesInRange(t, Open, Open);
      DropMiddle(Pre(t, h, k), FindLeaf(t, h, k).entries, Post(t, h, k), k);
    }
  }

  // ---------------------------------------------------------------- height and node count

  function Pow2(n: nat): (p: nat)
    ensures p >= 1
  {
    if n == 0 then 1 else 2 * Pow2(n - 1)
  }

  /** What a tree owes to the insertions that built it: two per leaf, and more for fuller leaves. */
  ghost function Credit<T>(t: Tree<T>): nat {
    match t
    case Leaf(_, es) => if |es| < MID then MID else |es|
    case Inner(_, _, kids) => AllCredits(kids)
  }

  ghost function AllCredits<T>(ts: seq<Tree<T>>): nat {
    if |ts| == 0 then 0 else Credit(ts[0]) + AllCredits(ts[1..])
  }

  ghost function GrownCredit<T>(g: Grown<T>): nat {
    match g
    case Whole(t) => Credit(t)
    case Parted(l, _, r) => Credit(l) + Credit(r)
  }

  lemma {:induction false} AllCreditsConcat<T>(a: seq<Tree<T>>, b: seq<Tree<T>>)
    ensures AllCredits(a + b) == AllCredits(a) + AllCredits(b)
  {
    if |a| == 0 {
      assert a + b == b;
    } else {
      assert (a + b)[1..] == a[1..] + b;
      AllCreditsConcat(a[1..], b);
    }
  }

  lemma CreditsAround<T>(ts: seq<Tree<T>>, i: nat)
    requires i < |ts|
    ensures AllCredits(ts) == AllCredits(ts[..i]) + Credit(ts[i]) + AllCredits(ts[i + 1..])
  {
    assert ts == ts[..i] + ts[i..] && ts[i..][1..] == ts[i + 1..];
    AllCreditsConcat(ts[..i], ts[i..]);
  }

  lemma ReplaceCredit<T>(kids: seq<Tree<T>>, i: nat, c: Tree<T>)
    requires i < |kids|
    ensures AllCredits(kids[i := c]) == AllCredits(kids) - Credit(kids[i]) + Credit(c)
  {
    var kids' := kids[i := c];
    CreditsAround(kids, i);
    CreditsAround(kids', i);
    assert kids'[..i] == kids[..i] && kids'[i + 1..] == kids[i + 1..];
  }

  lemma AddCredit<T>(kids: seq<Tree<T>>, j: nat, r: Tree<T>)
    requires j <= |kids|
    ensures AllCredits(InsertAt(kids, j, r)) == AllCredits(kids) + Credit(r)
  {
    var a, b := kids[..j], kids[j..];
    AllCreditsConcat(a, [r] + b);
    AllCreditsConcat([r], b);
    AllCreditsConcat(a, b);
    assert kids == a + b && InsertAt(kids, j, r) == a + ([r] + b);
  }

  lemma SplitCredit<T>(id: T, keys: seq<int>, kids: seq<Tree<T>>, newId: T)
    requires |keys| == ORDER && |kids| == ORDER + 1
    ensures GrownCredit(SplitInner(id, keys, kids, newId)) == AllCredits(kids)
  {
    var a, b := kids[..MID + 1], kids[MID + 1..];
    assert kids == a + b;
    AllCreditsConcat(a, b);
    hide AllCredits;
  }

  lemma AdoptCredit<T>(id: T, keys: seq<int>, kids: seq<Tree<T>>, i: nat, child: Grown<T>, newId: T)
    requires 1 <= |keys| < ORDER && |kids| == |keys| + 1 && i < |kids|
    ensures GrownCredit(Adopt(id, keys, kids, i, child, newId)) == AllCredits(kids) - Credit(kids[i]) + GrownCredit(child)
  {
    match child
    case Whole(c) => ReplaceCredit(kids, i, c);
    case Parted(l, m, r) =>
      var j := KeyPos(keys, m);
      var keys', kids' := InsertAt(keys, j, m), InsertAt(kids[i := l], j + 1, r);
      ReplaceCredit(kids, i, l);
      AddCredit(kids[i := l], j + 1, r);
      if |keys'| == ORDER {
        SplitCredit(id, keys', kids', newId);
      }
  }

  /** One insertion raises the debt by at most one, even when it splits nodes all the way up. */
  lemma {:induction false} InsertRecCredit<T>(t: Tree<T>, h: nat, k: int, loc: Loc, ids: seq<T>)
    requires |ids| > h
    requires Shape(t, h)
    ensures GrownCredit(InsertRec(t, h, k, loc, ids)) <= Credit(t) + 1
  {
    if t.Inner? {
      hide Adopt;
      hide Put;
      var i := Route(t.keys, k);
      InsertRecCredit(t.kids[i], h - 1, k, loc, ids);
      AdoptCredit(t.id, t.keys, t.kids, i, InsertRec(t.kids[i], h - 1, k, loc, ids), ids[h]);
    }
  }

  lemma {:induction false} DeleteCredit<T>(t: Tree<T>, h: nat, k: int)
    requires Shape(t, h)
    ensures Credit(Delete(t, h, k)) <= Credit(t)
  {
    match t
    case Leaf(_, _) =>
    case Inner(id, keys, kids) =>
      var i := Route(keys, k);
      DeleteCredit(kids[i], h - 1, k);
      ReplaceCredit(kids, i, Delete(kids[i], h - 1, k));
  }

  /** A tree of height h has at least 2^h leaves, each owing two, and fewer inner nodes than leaves. */
  lemma {:induction false} LeavesBound<T>(t: Tree<T>, h: nat)
    requires Shape(t, h)
    ensures Pow2(h) <= |Leaves(t)| && MID * |Leaves(t)| <= Credit(t) && Size(t) + 1 <= 2 * |Leaves(t)|
    decreases t, 1
  {
    match t
    case Leaf(_, _) =>
    case Inner(_, _, kids) => KidsBound(t, h, 0);
  }

  lemma {:induction false} KidsBound<T>(t: Tree<T>, h: nat, n: nat)
    requires t.Inner? && Shape(t, h) && n <= |t.kids|
    ensures var ts := t.kids[n..];
            && |ts| * Pow2(h - 1) <= |AllLeaves(ts)|
            && MID * |AllLeaves(ts)| <= AllCredits(ts)
            && AllSizes(ts) + |ts| <= 2 * |AllLeaves(ts)|
    decreases t, 0, |t.kids| - n
  {
    hide Pow2;
    if n < |t.kids| {
      var ts, rest, p := t.kids[n..], t.kids[n + 1..], Pow2(h - 1);
      assert ts[0] == t.kids[n] && ts[1..] == rest;
      LeavesBound(t.kids[n], h - 1);
      KidsBound(t, h, n + 1);
      assert |ts| * p == |rest| * p + p;
    }
  }

  /** The invariant that ties a tree to the number of insertions ever made. */
  ghost predicate Paid<T>(t: Tree<T>, h: nat, inserts: nat) {
    Shape(t, h) && if h == 0 then |Entries(t)| <= inserts else Credit(t) <= inserts
  }

  lemma InsertPaid<T>(t: Tree<T>, h: nat, k: int, loc: Loc, ids: seq<T>, inserts: nat)
    requires |ids| == h + 2
    requires Paid(t, h, inserts)
    ensures Paid(Insert(t, h, k, loc, ids), NextHeight(t, h, k, loc, ids), inserts + 1)
  {
    InsertShape(t, h, k, loc, ids);
    InsertRecCredit(t, h, k, loc, ids);
    match InsertRec(t, h, k, loc, ids)
    case Whole(_) =>
    case Parted(l, m, r) => 
      AllCreditsConcat([l], [r]);
      assert [l] + [r] == [l, r];
  }

  lemma DeletePaid<T>(t: Tree<T>, h: nat, k: int, inserts: nat)
    requires Paid(t, h, inserts)
    ensures Paid(Delete(t, h, k), h, inserts)
  {
    DeleteShape(t, h, k);
    DeleteCredit(t, h, k);
  }

  /** The height is logarithmic in the number of insertions, and the number of nodes is bounded
      by the counter that INDEX_insert maintains, whatever was deleted in between. */
  lemma HeightAndSize<T>(t: Tree<T>, h: nat, inserts: nat)
    requires Paid(t, h, inserts)
    ensures h >= 1 ==> Pow2(h + 1) <= inserts
    ensures Size(t) <= 1 + inserts + h
  {
    LeavesBound(t, h);
  }

  // ---------------------------------------------------------------- runs

  datatype Op = DoInsert(key: int, loc: Loc) | DoDelete(key: int)

  /** An index built from scratch: its tree, its height, the number of insertions made and the
      counter kept in `node_count`.  Nodes are named by the insertion that allocated them and their
      level. */
  datatype Name = Name(insertion: nat, level: nat)

  datatype Built = Built(tree: Tree<Name>, height: nat, inserts: nat, nodeCount: nat)

  ghost predicate NoDuplicates<A>(s: seq<A>) {
    forall i, j :: 0 <= i < j < |s| ==> s[i] != s[j]
  }

  ghost predicate Consistent(b: Built) {
    && Proper(b.tree, b.height)
    && Paid(b.tree, b.height, b.inserts)
    && b.nodeCount == 1 + b.inserts + b.height
    && NoDuplicates(Leaves(b.tree))
    && forall x :: x in Leaves(b.tree) ==> x.insertion <= b.inserts
  }

  /** The names ready for the nodes that the next insertion may allocate. */
  function Names(b: Built): (ids: seq<Name>)
    ensures |ids| == b.height + 2
    ensures ids[0].insertion == b.inserts + 1
  {
    seq(b.height + 2, i requires 0 <= i => Name(b.inserts + 1, i))
  }

  ghost function Step(b: Built, op: Op): Built
    requires Shape(b.tree, b.height)
  {
    match op
    case DoInsert(k, loc) =>
      var ids := Names(b);
      var h' := NextHeight(b.tree, b.height, k, loc, ids);
      Built(Insert(b.tree, b.height, k, loc, ids), h', b.inserts + 1, b.nodeCount + 1 + h' - b.height)
    case DoDelete(k) => b.(tree := Delete(b.tree, b.height, k))
  }

  lemma StepShape(b: Built, op: Op)
    requires Shape(b.tree, b.height)
    ensures Shape(Step(b, op).tree, Step(b, op).height)
  {
    match op
    case DoInsert(k, loc) => InsertShape(b.tree, b.height, k, loc, Names(b));
    case DoDelete(k) => DeleteShape(b.tree, b.height, k);
  }

  ghost function Run(ops: seq<Op>): (b: Built)
    ensures Shape(b.tree, b.height)
  {
    if |ops| == 0 then Built(Leaf(Name(0, 0), []), 0, 0, 1)
    else
      var b := Run(ops[..|ops| - 1]);
      StepShape(b, ops[|ops| - 1]);
      Step(b, ops[|ops| - 1])
  }

  /** The same run on a plain finite map. */
  function MapRun(ops: seq<Op>): map<int, Loc> {
    if |ops| == 0 then map[]
    else
      var m := MapRun(ops[..|ops| - 1]);
      match ops[|ops| - 1]
      case DoInsert(k, loc) => m[k := loc]
      case DoDelete(k) => m - {k}
  }

  /** Every insertion of the run is of a key that is absent at that point. */
  predicate DistinctKeys(ops: seq<Op>) {
    forall i :: 0 <= i < |ops| && ops[i].DoInsert? ==> ops[i].key !in MapRun(ops[..i])
  }

  function CountInserts(ops: seq<Op>): nat {
    if |ops| == 0 then 0 else CountInserts(ops[..|ops| - 1]) + if ops[|ops| - 1].DoInsert? then 1 else 0
  }

  lemma InsertSound(b: Built, k: int, loc: Loc)
    requires Consistent(b) && k !in View(b.tree)
    ensures Consistent(Step(b, DoInsert(k, loc)))
    ensures View(Step(b, DoInsert(k, loc)).tree) == View(b.tree)[k := loc]
  {
    hide View;
    hide Insert;
    hide LeavesBefore;
    hide LeavesAfter;
    var t, h, ids := b.tree, b.height, Names(b);
    InsertCorrect(t, h, k, loc, ids);
    InsertPaid(t, h, k, loc, ids, b.inserts);
    DescendLeaves(t, h, k);
    Threaded(LeavesBefore(t, h, k), FindLeaf(t, h, k).id, LeavesAfter(t, h, k), ids[0]);
  }

  lemma DeleteSound(b: Built, k: int)
    requires Consistent(b)
    ensures Consistent(Step(b, DoDelete(k)))
    ensures View(Step(b, DoDelete(k)).tree) == View(b.tree) - {k}
  {
    DeleteCorrect(b.tree, b.height, k);
    DeletePaid(b.tree, b.height, k, b.inserts);
  }

  lemma Threaded<A>(a: seq<A>, x: A, c: seq<A>, y: A)
    requires NoDuplicates(a + [x] + c) && y !in a + [x] + c
    ensures NoDuplicates(a + [x, y] + c)
    ensures forall z :: z in a + [x, y] + c <==> z == y || z in a + [x] + c
  {
    var s, s' := a + [x] + c, a + [x, y] + c;
    forall i, j | 0 <= i < j < |s'| ensures s'[i] != s'[j] {
      var p := |a| + 1;
      assert i != p ==> s'[i] == s[if i < p then i else i - 1];
      assert j != p ==> s'[j] == s[if j < p then j else j - 1];
    }
  }

  /** Every run over distinct keys refines the finite map, keeps the strict order of the tree,
      never overfills a node, names every leaf once, grows the height at most logarithmically in the
      insertions made and keeps the node counter an upper bound of the real number of nodes. */
  lemma {:induction false} RunRefinesMap(ops: seq<Op>)
    requires DistinctKeys(ops)
    ensures var b := Run(ops);
            && Proper(b.tree, b.height)
            && View(b.tree) == MapRun(ops)
            && Sorted(Entries(b.tree))
            && NoDuplicates(Leaves(b.tree))
            && (b.height >= 1 ==> Pow2(b.height + 1) <= CountInserts(ops))
            && Size(b.tree) <= b.nodeCount == 1 + CountInserts(ops) + b.height
  {
    RunSound(ops);
    var b := Run(ops);
    EntriesInRange(b.tree, Open, Open);
    HeightAndSize(b.tree, b.height, b.inserts);
  }

  lemma {:induction false} RunSound(ops: seq<Op>)
    requires DistinctKeys(ops)
    ensures Consistent(Run(ops))
    ensures View(Run(ops).tree) == MapRun(ops) && Run(ops).inserts == CountInserts(ops)
  {
    if |ops| > 0 {
      var init, op := ops[..|ops| - 1], ops[|ops| - 1];
      assert DistinctKeys(init) by {
        forall i | 0 <= i < |init| && init[i].DoInsert? ensures init[i].key !in MapRun(init[..i]) {
          assert init[..i] == ops[..i];
        }
      }
      RunSound(init);
      match op
      case DoInsert(k, loc) => InsertSound(Run(init), k, loc);
      case DoDelete(k) => DeleteSound(Run(init), k);
    }
  }

  // ---------------------------------------------------------------- the leaf chain as a list of entries

  /** The entries of each leaf, left to right; parallel to `Leaves`. */
  ghost function LeafEntries<T>(t: Tree<T>): seq<seq<Entry>> {
    match t
    case Leaf(_, es) => [es]
    case Inner(_, _, kids) => AllLeafEntries(kids)
  }

  ghost function AllLeafEntries<T>(ts: seq<Tree<T>>): seq<seq<Entry>> {
    if |ts| == 0 then [] else LeafEntries(ts[0]) + AllLeafEntries(ts[1..])
  }

  function Flatten(ess: seq<seq<Entry>>): seq<Entry> {
    if |ess| == 0 then [] else ess[0] + Flatten(ess[1..])
  }

  lemma {:induction false} FlattenConcat(a: seq<seq<Entry>>, b: seq<seq<Entry>>)
    ensures Flatten(a + b) == Flatten(a) + Flatten(b)
  {
    if |a| == 0 {
      assert a + b == b;
    } else {
      assert (a + b)[1..] == a[1..] + b;
      FlattenConcat(a[1..], b);
    }
  }

  lemma {:induction false} LeafEntriesFlat<T>(t: Tree<T>)
    ensures |LeafEntries(t)| == |Leaves(t)| && Flatten(LeafEntries(t)) == Entries(t)
    decreases t, 1
  {
    if t.Inner? {
      KidEntriesFlat(t, 0);
      assert t.kids[0..] == t.kids;
    } else {
      assert LeafEntries(t) == [t.entries] && Flatten([t.entries][1..]) == [];
    }
  }

  lemma {:induction false} KidEntriesFlat<T>(t: Tree<T>, n: nat)
    requires t.Inner? && n <= |t.kids|
    ensures var ts := t.kids[n..];
            |AllLeafEntries(ts)| == |AllLeaves(ts)| && Flatten(AllLeafEntries(ts)) == AllEntries(ts)
    decreases t, 0, |t.kids| - n
  {
    if n < |t.kids| {
      assert t.kids[n..][1..] == t.kids[n + 1..];
      LeafEntriesFlat(t.kids[n]);
      KidEntriesFlat(t, n + 1);
      FlattenConcat(LeafEntries(t.kids[n]), AllLeafEntries(t.kids[n + 1..]));
    }
  }

  function KeyList(es: seq<Entry>): (ks: seq<int>)
    ensures |ks| == |es| && forall i :: 0 <= i < |es| ==> ks[i] == es[i].key
  {
    seq(|es|, i requires 0 <= i < |es| => es[i].key)
  }

  /** The keys along the chain are the sorted key set of the map. */
  lemma KeysAlongChain<T>(t: Tree<T>, h: nat)
    requires Proper(t, h)
    ensures Increasing(KeyList(Entries(t)))
    ensures forall k :: k in KeyList(Entries(t)) <==> k in View(t)
  {
    EntriesInRange(t, Open, Open);
    var es := Entries(t);
    forall k ensures k in KeyList(es) <==> k in View(t) {
      InMap(es, k);
      if k in KeyList(es) {
        var i :| 0 <= i < |es| && KeyList(es)[i] == k;
        FindSorted(es, i);
      }
      if Has(es, k) {
        assert KeyList(es)[Find(es, k)] == k;
      }
    }
  }
}
