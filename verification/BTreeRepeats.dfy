/** Insertions of keys that are already in the tree: what they still keep, and that the order of the
    tree survives exactly the insertions of absent keys. */
module BTreeRepeats {
  import opened BTree
  import opened BTreeMap

  // ---------------------------------------------------------------- no insertion loses or invents an entry

  /** How many entries have key `x`. */
  function Occurs(es: seq<Entry>, x: int): nat {
    if |es| == 0 then 0 else Occurs(es[..|es| - 1], x) + if es[|es| - 1].key == x then 1 else 0
  }

  lemma {:induction false} OccursConcat(a: seq<Entry>, b: seq<Entry>, x: int)
    ensures Occurs(a + b, x) == Occurs(a, x) + Occurs(b, x)
  {
    if |b| == 0 {
      assert a + b == a;
    } else {
      OccursConcat(a, b[..|b| - 1], x);
      assert (a + b)[..|a + b| - 1] == a + b[..|b| - 1];
    }
  }

  lemma OccursInsertAt(es: seq<Entry>, p: nat, e: Entry, x: int)
    requires p <= |es|
    ensures Occurs(InsertAt(es, p, e), x) == Occurs(es, x) + if e.key == x then 1 else 0
  {
    assert Occurs([e], x) == if e.key == x then 1 else 0;
    assert es[..p] + es[p..] == es;
    hide Occurs;
    OccursConcat(es[..p] + [e], es[p..], x);
    OccursConcat(es[..p], [e], x);
    OccursConcat(es[..p], es[p..], x);
  }

  lemma OccursAround<T>(kids: seq<Tree<T>>, i: nat, x: int)
    requires i < |kids|
    ensures Occurs(AllEntries(kids), x)
         == Occurs(AllEntries(kids[..i]), x) + Occurs(Entries(kids[i]), x) + Occurs(AllEntries(kids[i + 1..]), x)
  {
    hide Occurs, AllEntries, Entries;
    EntriesAround(kids, i);
    OccursConcat(AllEntries(kids[..i]) + Entries(kids[i]), AllEntries(kids[i + 1..]), x);
    OccursConcat(AllEntries(kids[..i]), Entries(kids[i]), x);
  }

  lemma OccursReplaced<T>(kids: seq<Tree<T>>, i: nat, c: Tree<T>, x: int)
    requires i < |kids|
    ensures Occurs(AllEntries(kids[i := c]), x) + Occurs(Entries(kids[i]), x) == Occurs(AllEntries(kids), x) + Occurs(Entries(c), x)
  {
    hide Occurs, AllEntries, Entries;
    OccursAround(kids, i, x);
    OccursAround(kids[i := c], i, x);
    assert kids[i := c][..i] == kids[..i] && kids[i := c][i + 1..] == kids[i + 1..];
  }

  lemma OccursAdded<T>(kids: seq<Tree<T>>, j: nat, r: Tree<T>, x: int)
    requires j <= |kids|
    ensures Occurs(AllEntries(InsertAt(kids, j, r)), x) == Occurs(AllEntries(kids), x) + Occurs(Entries(r), x)
  {
    hide Occurs, AllEntries, Entries;
    var all := InsertAt(kids, j, r);
    assert kids[..j] + kids[j..] == kids && all[..j] == kids[..j] && all[j] == r && all[j + 1..] == kids[j..];
    AllEntriesConcat(kids[..j], kids[j..]);
    OccursConcat(AllEntries(kids[..j]), AllEntries(kids[j..]), x);
    OccursAround(all, j, x);
  }

  lemma SplitInnerEntries<T>(id: T, keys: seq<int>, kids: seq<Tree<T>>, newId: T)
    requires |keys| == ORDER && |kids| == ORDER + 1
    ensures GrownEntries(SplitInner(id, keys, kids, newId)) == AllEntries(kids)
  {
    AllEntriesConcat(kids[..MID + 1], kids[MID + 1..]);
    assert kids[..MID + 1] + kids[MID + 1..] == kids;
  }

  lemma InnerEntries<T>(id: T, keys: seq<int>, kids: seq<Tree<T>>)
    ensures GrownEntries(Whole(Inner(id, keys, kids))) == AllEntries(kids)
  {
  }

  lemma WholeEntries<T>(t: Tree<T>)
    ensures GrownEntries(Whole(t)) == Entries(t)
  {
  }

  lemma PartedEntries<T>(l: Tree<T>, m: int, r: Tree<T>)
    ensures GrownEntries(Parted(l, m, r)) == Entries(l) + Entries(r)
  {
  }

  /** Wherever the promoted key goes, the node keeps all entries of its children. */
  lemma AdoptOccurs<T>(id: T, keys: seq<int>, kids: seq<Tree<T>>, i: nat, child: Grown<T>, newId: T, x: int)
    requires 1 <= |keys| < ORDER && |kids| == |keys| + 1 && i < |kids|
    ensures Occurs(GrownEntries(Adopt(id, keys, kids, i, child, newId)), x) + Occurs(Entries(kids[i]), x)
         == Occurs(AllEntries(kids), x) + Occurs(GrownEntries(child), x)
  {
    hide Occurs, AllEntries, Entries, GrownEntries, SplitInner;
    match child
    case Whole(c) =>
      InnerEntries(id, keys, kids[i := c]);
      WholeEntries(c);
      OccursReplaced(kids, i, c, x);
    case Parted(l, m, r) =>
      var j := KeyPos(keys, m);
      var keys', kids' := InsertAt(keys, j, m), InsertAt(kids[i := l], j + 1, r);
      PartedEntries(l, m, r);
      OccursReplaced(kids, i, l, x);
      OccursAdded(kids[i := l], j + 1, r, x);
      OccursConcat(Entries(l), Entries(r), x);
      InnerEntries(id, keys', kids');
      if |keys'| == ORDER {
        SplitInnerEntries(id, keys', kids', newId);
      }
  }

  lemma LeafOccurs<T>(id: T, es: seq<Entry>, k: int, loc: Loc, ids: seq<T>, x: int)
    requires |ids| > 0 && Shape(Leaf(id, es), 0)
    ensures Occurs(GrownEntries(InsertRec(Leaf(id, es), 0, k, loc, ids)), x) == Occurs(es, x) + if x == k then 1 else 0
  {
    hide Occurs;
    var es' := Put(es, k, loc);
    OccursInsertAt(es, EntryPos(es, k), Entry(k, loc), x);
    if |es'| == ORDER {
      assert es' == es'[..MID] + es'[MID..];
    }
  }

  lemma {:induction false} InsertRecOccurs<T>(t: Tree<T>, h: nat, k: int, loc: Loc, ids: seq<T>, x: int)
    requires |ids| > h && Shape(t, h)
    ensures Occurs(GrownEntries(InsertRec(t, h, k, loc, ids)), x) == Occurs(Entries(t), x) + if x == k then 1 else 0
  {
    hide Occurs, GrownEntries, Adopt;
    match t
    case Leaf(id, es) =>
      LeafOccurs(id, es, k, loc, ids, x);
    case Inner(id, keys, kids) =>
      var i := Route(keys, k);
      var child := InsertRec(kids[i], h - 1, k, loc, ids);
      InsertRecOccurs(kids[i], h - 1, k, loc, ids, x);
      AdoptOccurs(id, keys, kids, i, child, ids[h], x);
      assert InsertRec(t, h, k, loc, ids) == Adopt(id, keys, kids, i, child, ids[h]);
  }

  lemma PlantEntries<T>(g: Grown<T>, newId: T)
    ensures Entries(Plant(g, newId)) == GrownEntries(g)
  {
    match g
    case Whole(_) =>
    case Parted(l, m, r) =>
      AllEntriesConcat([l], [r]);
      assert [l] + [r] == [l, r];
  }

  /** INDEX_insert of any key, present or not, adds exactly one entry, with that key. */
  lemma InsertAddsOneEntry<T>(t: Tree<T>, h: nat, k: int, loc: Loc, ids: seq<T>, x: int)
    requires |ids| == h + 2 && Shape(t, h)
    ensures Occurs(Entries(Insert(t, h, k, loc, ids)), x) == Occurs(Entries(t), x) + if x == k then 1 else 0
  {
    hide Occurs, GrownEntries, InsertRec, Plant, Entries;
    InsertRecOccurs(t, h, k, loc, ids, x);
    PlantEntries(InsertRec(t, h, k, loc, ids), ids[h + 1]);
  }

  // ---------------------------------------------------------------- when the order survives

  lemma {:induction false} AbsentOccurs(es: seq<Entry>, k: int)
    requires forall i :: 0 <= i < |es| ==> es[i].key != k
    ensures Occurs(es, k) == 0
  {
    if |es| > 0 {
      AbsentOccurs(es[..|es| - 1], k);
    }
  }

  lemma {:induction false} SortedOccurs(es: seq<Entry>, k: int)
    requires Sorted(es)
    ensures Occurs(es, k) == if Has(es, k) then 1 else 0
  {
    if |es| > 0 {
      var init, last := es[..|es| - 1], es[|es| - 1];
      SortedOccurs(init, k);
      if last.key == k {
        AbsentOccurs(init, k);
        assert Has(es, k) by {
          assert es[|es| - 1].key == k;
        }
      } else {
        assert Has(es, k) ==> init[Find(es, k)].key == k;
        assert Has(init, k) ==> es[Find(init, k)].key == k;
      }
    } else {
      assert !Has(es, k);
    }
  }

  lemma RepeatUnsorted<T>(t: Tree<T>, h: nat, k: int, loc: Loc, ids: seq<T>)
    requires |ids| == h + 2 && Proper(t, h) && k in View(t)
    ensures !Proper(Insert(t, h, k, loc, ids), NextHeight(t, h, k, loc, ids))
  {
    hide *;
    ProperSorted(t, h);
    var t', h' := Insert(t, h, k, loc, ids), NextHeight(t, h, k, loc, ids);
    InView(t, k);
    SortedOccurs(Entries(t), k);
    InsertAddsOneEntry(t, h, k, loc, ids, k);
    if Proper(t', h') {
      ProperSorted(t', h');
      SortedOccurs(Entries(t'), k);
    }
  }

  /** INDEX_insert on an ordered tree, for every key: one entry is added; the tree is still ordered
      exactly when the key was absent, and then it stores the old map with the new binding. */
  lemma InsertExactly<T>(t: Tree<T>, h: nat, k: int, loc: Loc, ids: seq<T>)
    requires |ids| == h + 2 && Proper(t, h)
    ensures var t' := Insert(t, h, k, loc, ids);
            && (Proper(t', NextHeight(t, h, k, loc, ids)) <==> k !in View(t))
            && (k !in View(t) ==> View(t') == View(t)[k := loc])
            && forall x :: Occurs(Entries(t'), x) == Occurs(Entries(t), x) + if x == k then 1 else 0
  {
    hide *;
    ProperSorted(t, h);
    forall x {
      InsertAddsOneEntry(t, h, k, loc, ids, x);
    }
    if k !in View(t) {
      InsertCorrect(t, h, k, loc, ids);
    } else {
      RepeatUnsorted(t, h, k, loc, ids);
    }
  }

  lemma InView<T>(t: Tree<T>, k: int)
    ensures k in View(t) <==> Has(Entries(t), k)
  {
    InMap(Entries(t), k);
  }

  lemma ProperSorted<T>(t: Tree<T>, h: nat)
    requires Proper(t, h)
    ensures Shape(t, h) && Sorted(Entries(t))
  {
    EntriesInRange(t, Open, Open);
  }

  // ---------------------------------------------------------------- whole runs

  /** Whatever keys a run inserts: no node is ever over-full, all leaves stay at one depth, the height
      is logarithmic in the insertions and the node counter bounds the number of nodes. */
  lemma {:induction false} EveryRunBalanced(ops: seq<Op>)
    ensures var b := Run(ops);
            && Paid(b.tree, b.height, b.inserts) && b.inserts == CountInserts(ops)
            && b.nodeCount == 1 + CountInserts(ops) + b.height
            && (b.height >= 1 ==> Pow2(b.height + 1) <= CountInserts(ops)) && Size(b.tree) <= b.nodeCount
  {
    if |ops| > 0 {
      var b, op := Run(ops[..|ops| - 1]), ops[|ops| - 1];
      EveryRunBalanced(ops[..|ops| - 1]);
      match op
      case DoInsert(k, loc) => InsertPaid(b.tree, b.height, k, loc, Names(b), b.inserts);
      case DoDelete(k) => DeletePaid(b.tree, b.height, k, b.inserts);
    }
    var b := Run(ops);
    HeightAndSize(b.tree, b.height, b.inserts);
  }

  /** Searching answers what the map says. */
  ghost predicate Answers(b: Built, m: map<int, Loc>)
    requires Shape(b.tree, b.height)
  {
    forall k :: var es := FindLeaf(b.tree, b.height, k).entries;
                (Has(es, k) <==> k in m) && (Has(es, k) ==> es[Find(es, k)].loc == m[k])
  }

  /** After the first `n` operations the tree is ordered, stores the map and answers searches by it. */
  ghost predicate RefinesAt(ops: seq<Op>, n: nat)
    requires n <= |ops|
  {
    var b := Run(ops[..n]);
    Proper(b.tree, b.height) && View(b.tree) == MapRun(ops[..n]) && Answers(b, MapRun(ops[..n]))
  }

  lemma OrderedAnswers(b: Built)
    requires Proper(b.tree, b.height)
    ensures Answers(b, View(b.tree))
  {
    hide View, FindLeaf;
    forall k {
      SearchCorrect(b.tree, b.height, k);
    }
  }

  /** A run refines the run on a finite map, step by step and with the answers to all searches, exactly
      when it inserts absent keys only. */
  lemma {:induction false} RunRefinesExactly(ops: seq<Op>)
    ensures (forall n :: 0 <= n <= |ops| ==> RefinesAt(ops, n)) <==> DistinctKeys(ops)
  {
    hide Proper, Run, MapRun, View, Answers;
    if DistinctKeys(ops) {
      forall n | 0 <= n <= |ops| ensures RefinesAt(ops, n) {
        DistinctPrefix(ops, n);
        RunRefinesMap(ops[..n]);
        OrderedAnswers(Run(ops[..n]));
      }
    } else {
      var i := FirstRepeat(ops);
      RepeatBreaks(ops, i);
      assert !RefinesAt(ops, i + 1);
    }
  }

  lemma DistinctPrefix(ops: seq<Op>, n: nat)
    requires n <= |ops| && forall i :: 0 <= i < n && ops[i].DoInsert? ==> ops[i].key !in MapRun(ops[..i])
    ensures DistinctKeys(ops[..n])
  {
    forall i | 0 <= i < n && ops[..n][i].DoInsert? ensures ops[..n][i].key !in MapRun(ops[..n][..i]) {
      assert ops[..n][..i] == ops[..i];
    }
  }

  lemma FirstRepeat(ops: seq<Op>) returns (i: nat)
    requires !DistinctKeys(ops)
    ensures i < |ops| && ops[i].DoInsert? && ops[i].key in MapRun(ops[..i]) && DistinctKeys(ops[..i])
  {
    hide MapRun;
    i := 0;
    while i < |ops| && !(ops[i].DoInsert? && ops[i].key in MapRun(ops[..i]))
      invariant i <= |ops| && forall j :: 0 <= j < i && ops[j].DoInsert? ==> ops[j].key !in MapRun(ops[..j])
    {
      i := i + 1;
    }
    DistinctPrefix(ops, i);
  }

  lemma RepeatBreaks(ops: seq<Op>, i: nat)
    requires i < |ops| && ops[i].DoInsert? && ops[i].key in MapRun(ops[..i]) && DistinctKeys(ops[..i])
    ensures !RefinesAt(ops, i + 1)
  {
    hide Proper, View, Insert, MapRun, DistinctKeys, Answers;
    var b := Run(ops[..i]);
    RunRefinesMap(ops[..i]);
    assert ops[..i + 1][..i] == ops[..i];
    ProperShape(b.tree, b.height);
    RepeatUnsorted(b.tree, b.height, ops[i].key, ops[i].loc, Names(b));
  }

  lemma ProperShape<T>(t: Tree<T>, h: nat)
    ensures Proper(t, h) <==> Shape(t, h) && Ordered(t, Open, Open)
  {
  }

  // ---------------------------------------------------------------- separators under repeated keys

  /** In every node the separators do not decrease. */
  ghost predicate Steady<T>(t: Tree<T>) {
    match t
    case Leaf(_, _) => true
    case Inner(_, keys, kids) => NonDecreasing(keys) && forall i :: 0 <= i < |kids| ==> Steady(kids[i])
  }

  ghost predicate GrownSteady<T>(g: Grown<T>) {
    match g
    case Whole(t) => Steady(t)
    case Parted(l, _, r) => Steady(l) && Steady(r)
  }

  lemma WidenSteady(keys: seq<int>, m: int)
    requires NonDecreasing(keys)
    ensures NonDecreasing(InsertAt(keys, KeyPos(keys, m), m))
  {
  }

  lemma AdoptSteady<T>(id: T, keys: seq<int>, kids: seq<Tree<T>>, i: nat, child: Grown<T>, newId: T)
    requires 1 <= |keys| < ORDER && |kids| == |keys| + 1 && i < |kids|
    requires Steady(Inner(id, keys, kids)) && GrownSteady(child)
    ensures GrownSteady(Adopt(id, keys, kids, i, child, newId))
  {
    match child
    case Whole(c) =>
      hide NonDecreasing;
      SteadyNode(id, keys, kids);
      SteadyNode(id, keys, kids[i := c]);
    case Parted(l, m, r) =>
      var j := KeyPos(keys, m);
      var keys', kids' := InsertAt(keys, j, m), InsertAt(kids[i := l], j + 1, r);
      WidenSteady(keys, m);
      SteadyNode(id, keys, kids);
      SteadyKids(kids, i, l, j + 1, r);
      hide Steady, NonDecreasing, AllSteady, InsertAt;
      SteadyNode(id, keys', kids');
      if |keys'| == ORDER {
        SplitSteady(id, keys', kids', newId);
      }
  }

  ghost predicate AllSteady<T>(kids: seq<Tree<T>>) {
    forall i :: 0 <= i < |kids| ==> Steady(kids[i])
  }

  lemma SteadyNode<T>(id: T, keys: seq<int>, kids: seq<Tree<T>>)
    ensures Steady(Inner(id, keys, kids)) <==> NonDecreasing(keys) && AllSteady(kids)
  {
  }

  lemma SteadyKids<T>(kids: seq<Tree<T>>, i: nat, l: Tree<T>, j: nat, r: Tree<T>)
    requires AllSteady(kids) && i < |kids| && Steady(l) && j <= |kids| && Steady(r)
    ensures AllSteady(InsertAt(kids[i := l], j, r))
  {
    hide Steady;
  }

  lemma SplitSteady<T>(id: T, keys: seq<int>, kids: seq<Tree<T>>, newId: T)
    requires |keys| == ORDER && |kids| == ORDER + 1 && NonDecreasing(keys) && AllSteady(kids)
    ensures GrownSteady(SplitInner(id, keys, kids, newId))
  {
    SteadyNode(id, keys[..MID], kids[..MID + 1]);
    SteadyNode(newId, keys[MID + 1..], kids[MID + 1..]);
    hide Steady;
  }

  lemma {:induction false} InsertRecSteady<T>(t: Tree<T>, h: nat, k: int, loc: Loc, ids: seq<T>)
    requires |ids| > h && Shape(t, h) && Steady(t)
    ensures GrownSteady(InsertRec(t, h, k, loc, ids))
  {
    if t.Inner? {
      hide Adopt;
      var i := Route(t.keys, k);
      InsertRecSteady(t.kids[i], h - 1, k, loc, ids);
      AdoptSteady(t.id, t.keys, t.kids, i, InsertRec(t.kids[i], h - 1, k, loc, ids), ids[h]);
    }
  }

  lemma {:induction false} DeleteSteady<T>(t: Tree<T>, h: nat, k: int)
    requires Shape(t, h) && Steady(t)
    ensures Steady(Delete(t, h, k))
  {
    if t.Inner? {
      DeleteSteady(t.kids[Route(t.keys, k)], h - 1, k);
    }
  }

  lemma StepSteady(b: Built, op: Op)
    requires Shape(b.tree, b.height) && Steady(b.tree)
    ensures Steady(Step(b, op).tree)
  {
    match op
    case DoInsert(k, loc) =>
      hide InsertRec;
      InsertRecSteady(b.tree, b.height, k, loc, Names(b));
    case DoDelete(k) => DeleteSteady(b.tree, b.height, k);
  }

  /** Whatever keys a run inserts, the separators of no node decrease, as `PromotedSlotExactly` needs. */
  lemma {:induction false} EveryRunSteady(ops: seq<Op>)
    ensures Steady(Run(ops).tree)
  {
    if |ops| > 0 {
      EveryRunSteady(ops[..|ops| - 1]);
      hide Step, Steady;
      StepSteady(Run(ops[..|ops| - 1]), ops[|ops| - 1]);
    }
  }

  // ---------------------------------------------------------------- a key that can no longer be found

  function Bare(key: int): Entry { Entry(key, Loc(0, 0)) }

  function Inserts(keys: seq<int>): seq<Op> {
    if |keys| == 0 then [] else Inserts(keys[..|keys| - 1]) + [DoInsert(keys[|keys| - 1], Loc(0, 0))]
  }

  lemma RunInsert(keys: seq<int>, k: int)
    ensures Run(Inserts(keys + [k])) == Step(Run(Inserts(keys)), DoInsert(k, Loc(0, 0)))
  {
    assert (keys + [k])[..|keys|] == keys;
    var ops := Inserts(keys);
    assert (ops + [DoInsert(k, Loc(0, 0))])[..|ops|] == ops;
  }

  /** Inserting into a tree that is a single leaf. */
  lemma LeafInsert(b: Built, k: int, es: seq<Entry>)
    requires b.tree.Leaf? && b.height == 0 && |b.tree.entries| < ORDER && es == Put(b.tree.entries, k, Loc(0, 0))
    ensures var q := Step(b, DoInsert(k, Loc(0, 0)));
            && q.inserts == b.inserts + 1
            && if |es| < ORDER then q.tree == Leaf(b.tree.id, es) && q.height == 0
               else q.height == 1 && q.tree == Inner(Name(b.inserts + 1, 1), [es[MID].key],
                                                     [Leaf(b.tree.id, es[..MID]), Leaf(Name(b.inserts + 1, 0), es[MID..])])
  {
  }

  lemma PutAt(es: seq<Entry>, k: int, i: nat)
    requires i <= |es| && (forall j :: i <= j < |es| ==> k < es[j].key) && (i > 0 ==> es[i - 1].key <= k)
    ensures Put(es, k, Loc(0, 0)) == es[..i] + [Bare(k)] + es[i..]
  {
  }

  lemma EmptyRun()
    ensures Run(Inserts([])) == Built(Leaf(Name(0, 0), []), 0, 0, 1)
  {
  }

  lemma ThreeTwos()
    ensures var b := Run(Inserts([2, 2, 2]));
            b.height == 0 && b.inserts == 3 && b.tree == Leaf(Name(0, 0), [Bare(2), Bare(2), Bare(2)])
  {
    hide Step, Put, Inserts, Run;
    EmptyRun();
    RunInsert([], 2);
    RunInsert([2], 2);
    RunInsert([2, 2], 2);
    assert [] + [2] == [2] && [2] + [2] == [2, 2] && [2, 2] + [2] == [2, 2, 2];
    PutAt([], 2, 0);
    LeafInsert(Run(Inserts([])), 2, [Bare(2)]);
    PutAt([Bare(2)], 2, 1);
    LeafInsert(Run(Inserts([2])), 2, [Bare(2), Bare(2)]);
    PutAt([Bare(2), Bare(2)], 2, 2);
    LeafInsert(Run(Inserts([2, 2])), 2, [Bare(2), Bare(2), Bare(2)]);
  }

  lemma FirstFour()
    ensures var b := Run(Inserts([2, 2, 2, 3]));
            && b.height == 1 && b.inserts == 4
            && b.tree == Inner(Name(4, 1), [2], [Leaf(Name(0, 0), [Bare(2), Bare(2)]), Leaf(Name(4, 0), [Bare(2), Bare(3)])])
  {
    ThreeTwos();
    RunInsert([2, 2, 2], 3);
    assert [2, 2, 2] + [3] == [2, 2, 2, 3];
    hide Step, Put, Inserts, Run;
    var es := [Bare(2), Bare(2), Bare(2), Bare(3)];
    PutAt([Bare(2), Bare(2), Bare(2)], 3, 3);
    LeafInsert(Run(Inserts([2, 2, 2])), 3, es);
    assert es[..MID] == [Bare(2), Bare(2)] && es[MID..] == [Bare(2), Bare(3)];
  }

  /** Inserting into a tree of two levels whose root has room. */
  lemma KidInsert(b: Built, k: int, i: nat, es: seq<Entry>)
    requires b.tree.Inner? && b.height == 1 && Shape(b.tree, 1) && |b.tree.keys| + 1 < ORDER
    requires i == Route(b.tree.keys, k) && b.tree.kids[i].Leaf? && es == Put(b.tree.kids[i].entries, k, Loc(0, 0))
    ensures var q := Step(b, DoInsert(k, Loc(0, 0)));
            var leaf := b.tree.kids[i];
            && q.height == 1 && q.inserts == b.inserts + 1
            && q.tree == if |es| < ORDER then Inner(b.tree.id, b.tree.keys, b.tree.kids[i := Leaf(leaf.id, es)])
                         else
                           var j := KeyPos(b.tree.keys, es[MID].key);
                           Inner(b.tree.id, InsertAt(b.tree.keys, j, es[MID].key),
                                 InsertAt(b.tree.kids[i := Leaf(leaf.id, es[..MID])], j + 1, Leaf(Name(b.inserts + 1, 0), es[MID..])))
  {
    var t, loc, ids := b.tree, Loc(0, 0), Names(b);
    assert ids[0] == Name(b.inserts + 1, 0);
    var child := InsertRec(t.kids[i], 0, k, loc, ids);
    assert child == if |es| == ORDER then SplitLeaf(t.kids[i].id, es, ids[0]) else Whole(Leaf(t.kids[i].id, es));
    assert InsertRec(t, 1, k, loc, ids) == Adopt(t.id, t.keys, t.kids, i, child, ids[1]);
    hide InsertRec, Route, Put, Shape;
  }

  lemma Five()
    ensures var b := Run(Inserts([2, 2, 2, 3, 1]));
            && b.height == 1 && b.inserts == 5
            && b.tree == Inner(Name(4, 1), [2], [Leaf(Name(0, 0), [Bare(1), Bare(2), Bare(2)]), Leaf(Name(4, 0), [Bare(2), Bare(3)])])
  {
    FirstFour();
    RunInsert([2, 2, 2, 3], 1);
    assert [2, 2, 2, 3] + [1] == [2, 2, 2, 3, 1];
    hide Step, Put, Inserts, Run;
    PutAt([Bare(2), Bare(2)], 1, 0);
    assert [Bare(2), Bare(2)][..0] + [Bare(1)] + [Bare(2), Bare(2)][0..] == [Bare(1), Bare(2), Bare(2)];
    KidInsert(Run(Inserts([2, 2, 2, 3])), 1, 0, [Bare(1), Bare(2), Bare(2)]);
  }

  lemma Six()
    ensures var b := Run(Inserts([2, 2, 2, 3, 1, 1]));
            && b.height == 1
            && b.tree == Inner(Name(4, 1), [2, 2], [Leaf(Name(0, 0), [Bare(1), Bare(1)]), Leaf(Name(4, 0), [Bare(2), Bare(3)]),
                                                    Leaf(Name(6, 0), [Bare(2), Bare(2)])])
  {
    hide Step, Put, Inserts, Run;
    Five();
    RunInsert([2, 2, 2, 3, 1], 1);
    assert [2, 2, 2, 3, 1] + [1] == [2, 2, 2, 3, 1, 1];
    SixPut();
    KidInsert(Run(Inserts([2, 2, 2, 3, 1])), 1, 0, [Bare(1), Bare(1), Bare(2), Bare(2)]);
    SixParts();
  }

  lemma SixPut()
    ensures Put([Bare(1), Bare(2), Bare(2)], 1, Loc(0, 0)) == [Bare(1), Bare(1), Bare(2), Bare(2)]
  {
    PutAt([Bare(1), Bare(2), Bare(2)], 1, 1);
    hide Put;
    assert [Bare(1), Bare(2), Bare(2)][..1] + [Bare(1)] + [Bare(1), Bare(2), Bare(2)][1..] == [Bare(1), Bare(1), Bare(2), Bare(2)];
  }

  lemma SixParts()
    ensures var es := [Bare(1), Bare(1), Bare(2), Bare(2)];
            var left, middle, right := Leaf(Name(0, 0), es[..MID]), Leaf(Name(4, 0), [Bare(2), Bare(3)]), Leaf(Name(6, 0), es[MID..]);
            && es[..MID] == [Bare(1), Bare(1)] && es[MID..] == [Bare(2), Bare(2)]
            && KeyPos([2], 2) == 1 && InsertAt([2], 1, 2) == [2, 2]
            && InsertAt([left, middle], 2, right) == [left, middle, right]
  {
  }

  /** With repeated keys the promoted key can equal the separator to its right; its node then goes to
      the wrong side of its sibling, and the sibling's own keys can no longer be found: after these
      six insertions key 3 is in the tree, but a search for it comes to another leaf. */
  lemma RepeatedKeysHideKey()
    ensures var b := Run(Inserts([2, 2, 2, 3, 1, 1]));
            && Has(Entries(b.tree), 3)
            && !Has(FindLeaf(b.tree, b.height, 3).entries, 3)
  {
    Six();
    hide Run, Inserts;
    var left, middle, right := Leaf(Name(0, 0), [Bare(1), Bare(1)]), Leaf(Name(4, 0), [Bare(2), Bare(3)]), Leaf(Name(6, 0), [Bare(2), Bare(2)]);
    ThreeLeaves(Name(4, 1), [2, 2], left, middle, right);
    assert (left.entries + middle.entries + right.entries)[3] == Bare(3);
    assert Route([2, 2], 3) == 2;
  }

  lemma ThreeLeaves<T>(id: T, keys: seq<int>, a: Tree<T>, b: Tree<T>, c: Tree<T>)
    requires a.Leaf? && b.Leaf? && c.Leaf?
    ensures Entries(Inner(id, keys, [a, b, c])) == a.entries + b.entries + c.entries
  {
    assert AllEntries([c]) == c.entries;
    assert [b, c][1..] == [c] && AllEntries([b, c]) == b.entries + c.entries;
    assert [a, b, c][1..] == [b, c] && AllEntries([a, b, c]) == a.entries + (b.entries + c.entries);
  }
}
