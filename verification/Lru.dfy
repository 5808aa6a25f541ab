/** Replacement in the buffer pool: over every run of successful accesses the seven frames hold
    exactly the seven most recently accessed distinct pages. */
module Lru {
  import opened PoolState

  // ---------------------------------------------------------------- recency as a list

  function Without(s: seq<nat>, a: nat): seq<nat> {
    if |s| == 0 then [] else (if s[0] == a then [] else [s[0]]) + Without(s[1..], a)
  }

  /** The distinct pages of a trace, the most recently accessed first. */
  function Recency(trace: seq<nat>): seq<nat> {
    if |trace| == 0 then []
    else
      var last := trace[|trace| - 1];
      [last] + Without(Recency(trace[..|trace| - 1]), last)
  }

  function Cut(s: seq<nat>): (r: seq<nat>)
    ensures |r| <= FRAMES
  {
    if |s| <= FRAMES then s else s[..FRAMES]
  }

  /** The pages that an ideal pool holds after a trace. */
  function Recent(trace: seq<nat>): (r: seq<nat>)
    ensures |r| <= FRAMES
  {
    Cut(Recency(trace))
  }

  ghost predicate Distinct(s: seq<nat>) {
    forall i, j :: 0 <= i < j < |s| ==> s[i] != s[j]
  }

  /** Where `a` is first found, or the length of the list. */
  function Position(s: seq<nat>, a: nat): (k: nat)
    ensures k <= |s| && (k < |s| ==> s[k] == a) && forall i :: 0 <= i < k ==> s[i] != a
  {
    if |s| == 0 || s[0] == a then 0 else 1 + Position(s[1..], a)
  }

  function Source(k: nat, j: nat): nat {
    if 1 <= j <= k then j - 1 else j
  }

  /** `t` is `s` with the page at `k`, or a new page, moved to the front. */
  ghost predicate Moved(s: seq<nat>, t: seq<nat>, a: nat, k: nat) {
    && k <= |s| && (k < |s| ==> s[k] == a)
    && |t| == (if k < |s| then |s| else |s| + 1)
    && t[0] == a
    && forall j :: 1 <= j < |t| ==> t[j] == s[Source(k, j)]
  }

  lemma {:induction false} WithoutFirst(s: seq<nat>, a: nat)
    requires Distinct(s)
    ensures Moved(s, [a] + Without(s, a), a, Position(s, a))
  {
    if |s| > 0 {
      if s[0] == a {
        if a in s[1..] {
          var i :| 1 <= i < |s| && s[i] == a;
        }
        WithoutAbsent(s[1..], a);
      } else {
        WithoutFirst(s[1..], a);
        var t, t1, k := [a] + Without(s, a), [a] + Without(s[1..], a), Position(s, a);
        forall j | 1 <= j < |t| ensures t[j] == s[Source(k, j)] {
          if j > 1 {
            assert t[j] == t1[j - 1];
          }
        }
      }
    }
  }

  lemma {:induction false} WithoutAbsent(s: seq<nat>, a: nat)
    requires a !in s
    ensures Without(s, a) == s
  {
    if |s| > 0 {
      WithoutAbsent(s[1..], a);
    }
  }

  /** One more access moves its page to the front. */
  lemma RecencyAfter(trace: seq<nat>, a: nat)
    requires Distinct(Recency(trace))
    ensures Moved(Recency(trace), Recency(trace + [a]), a, Position(Recency(trace), a))
  {
    assert (trace + [a])[..|trace|] == trace;
    WithoutFirst(Recency(trace), a);
  }

  lemma MovedMember(s: seq<nat>, t: seq<nat>, a: nat, k: nat, id: nat)
    requires Moved(s, t, a, k)
    ensures id in t <==> id == a || id in s
  {
    if id in t {
      var j :| 0 <= j < |t| && t[j] == id;
    }
    if id in s && id != a {
      var i :| 0 <= i < |s| && s[i] == id;
      var j := if i < k then i + 1 else i;
      assert 1 <= j < |t| && t[j] == id;
    }
  }

  lemma MovedIn(s: seq<nat>, t: seq<nat>, a: nat, k: nat, j: nat)
    requires Moved(s, t, a, k) && Distinct(s) && 1 <= j < |Cut(t)|
    ensures Source(k, j) < |Cut(s)| && Cut(s)[Source(k, j)] == Cut(t)[j]
    ensures FRAMES <= k && FRAMES <= |s| ==> Cut(t)[j] != s[FRAMES - 1]
  {
    assert t[j] == s[Source(k, j)];
  }

  lemma MovedOut(s: seq<nat>, t: seq<nat>, a: nat, k: nat, i: nat)
    requires Moved(s, t, a, k) && i < |Cut(s)| && i != k
    ensures var j := if i < k then i + 1 else i;
            j < |t| && t[j] == s[i] && (j < FRAMES ==> j < |Cut(t)| && Cut(t)[j] == Cut(s)[i])
  {
    var j := if i < k then i + 1 else i;
    assert Source(k, j) == i && t[j] == s[i];
  }

  lemma MovedCut(s: seq<nat>, t: seq<nat>, a: nat, k: nat, id: nat)
    requires Moved(s, t, a, k) && Distinct(s) && k == Position(s, a)
    ensures id in Cut(t) <==> id == a || (id in Cut(s) && (a in Cut(s) || |s| < FRAMES || id != s[FRAMES - 1]))
  {
    assert a in Cut(s) <==> k < |Cut(s)| by {
      assert k < |Cut(s)| ==> Cut(s)[k] == a;
    }
    if id == a {
      assert Cut(t)[0] == a;
    } else {
      if id in Cut(t) {
        var j :| 0 <= j < |Cut(t)| && Cut(t)[j] == id;
        MovedIn(s, t, a, k, j);
      }
      if id in Cut(s) {
        var i :| 0 <= i < |Cut(s)| && Cut(s)[i] == id;
        MovedOut(s, t, a, k, i);
      }
    }
  }

  ghost predicate Descending(trace: seq<nat>, r: seq<nat>) {
    forall i, j :: 0 <= i < j < |r| ==> LastUse(trace, r[i]) > LastUse(trace, r[j])
  }

  /** The list holds every accessed page once, ordered by last access. */
  lemma {:induction false} RecencyFacts(trace: seq<nat>)
    ensures Descending(trace, Recency(trace)) && Distinct(Recency(trace))
    ensures forall id: nat :: id in Recency(trace) <==> LastUse(trace, id) > 0
  {
    if |trace| > 0 {
      var before, a := trace[..|trace| - 1], trace[|trace| - 1];
      RecencyFacts(before);
      assert trace == before + [a];
      RecencyAfter(before, a);
      hide Recency, LastUse;
      MembersAfter(before, a);
      OrderAfter(before, a);
    }
  }

  lemma MembersAfter(before: seq<nat>, a: nat)
    requires Distinct(Recency(before))
    requires forall id: nat :: id in Recency(before) <==> LastUse(before, id) > 0
    ensures forall id: nat :: id in Recency(before + [a]) <==> LastUse(before + [a], id) > 0
  {
    RecencyAfter(before, a);
    hide Recency, LastUse;
    var r, r' := Recency(before), Recency(before + [a]);
    forall id: nat ensures id in r' <==> LastUse(before + [a], id) > 0 {
      LastUseAppend(before, a, id);
      MovedMember(r, r', a, Position(r, a), id);
    }
  }

  lemma OrderAfter(before: seq<nat>, a: nat)
    requires Descending(before, Recency(before)) && Distinct(Recency(before))
    requires forall id: nat :: id in Recency(before) <==> LastUse(before, id) > 0
    ensures Descending(before + [a], Recency(before + [a])) && Distinct(Recency(before + [a]))
  {
    RecencyAfter(before, a);
    hide Recency, LastUse;
    var r, r' := Recency(before), Recency(before + [a]);
    var k := Position(r, a);
    forall i, j | 0 <= i < j < |r'| ensures LastUse(before + [a], r'[i]) > LastUse(before + [a], r'[j]) {
      LastUseAppend(before, a, r'[i]);
      LastUseAppend(before, a, r'[j]);
      assert r'[j] == r[Source(k, j)] && r[Source(k, j)] in r;
      assert i > 0 ==> r'[i] == r[Source(k, i)] && Source(k, i) < Source(k, j);
    }
  }

  /** One more access brings its page in and, when the list was full without it, drops the last. */
  lemma RecentAfter(trace: seq<nat>, a: nat)
    ensures var r := Recent(trace);
            forall id: nat :: id in Recent(trace + [a]) <==>
              id == a || (id in r && (a in r || |r| < FRAMES || id != r[FRAMES - 1]))
  {
    RecencyFacts(trace);
    RecencyAfter(trace, a);
    var all, all' := Recency(trace), Recency(trace + [a]);
    hide Recency;
    forall id: nat ensures id in Cut(all') <==>
                           id == a || (id in Cut(all) && (a in Cut(all) || |all| < FRAMES || id != all[FRAMES - 1]))
    {
      MovedCut(all, all', a, Position(all, a), id);
    }
  }

  // ---------------------------------------------------------------- the pool against the list

  /** The frames hold exactly the most recently accessed pages. */
  ghost predicate Exact(p: Pool) {
    forall id: nat :: Resident(p, id) <==> id in Recent(p.trace)
  }

  function HeldIds(views: seq<View>, n: nat): set<nat>
    requires n <= |views|
  {
    if n == 0 then {} else HeldIds(views, n - 1) + if views[n - 1].Held? then {views[n - 1].id} else {}
  }

  /** find_empty: the first frame without a page, or the number of frames. */
  function FindEmpty(views: seq<View>, n: nat): (i: nat)
    requires n <= |views|
    ensures n <= i <= |views| && (i < |views| ==> views[i].Empty?)
    ensures forall j :: n <= j < i ==> views[j].Held?
    decreases |views| - n
  {
    if n < |views| && views[n].Held? then FindEmpty(views, n + 1) else n
  }

  lemma {:induction false} HeldCount(p: Pool, n: nat)
    requires Inv(p) && n <= FRAMES
    ensures |HeldIds(p.views, n)| <= n
    ensures |HeldIds(p.views, n)| == n <==> forall i :: 0 <= i < n ==> p.views[i].Held?
    ensures forall id: nat :: id in HeldIds(p.views, n) <==> exists i :: 0 <= i < n && Holds(p.views[i], id)
  {
    if n > 0 {
      HeldCount(p, n - 1);
      var v := p.views[n - 1];
      forall i | 0 <= i < n - 1 && v.Held? ensures !Holds(p.views[i], v.id) {
        assert Differ(p.views[i], v);
      }
    }
  }

  function Elements(s: seq<nat>): set<nat> {
    set x | x in s
  }

  lemma {:induction false} DistinctCount(s: seq<nat>)
    requires Distinct(s)
    ensures |Elements(s)| == |s|
  {
    if |s| > 0 {
      DistinctCount(s[1..]);
      assert s[0] !in s[1..];
      assert Elements(s) == {s[0]} + Elements(s[1..]);
    }
  }

  lemma RecentDistinct(trace: seq<nat>)
    ensures Distinct(Recent(trace)) && Descending(trace, Recent(trace))
  {
    RecencyFacts(trace);
  }

  /** The ids in the frames: how many there are, and that they are the resident ones. */
  lemma HeldFacts(p: Pool)
    requires Inv(p)
    ensures |HeldIds(p.views, FRAMES)| == FRAMES <==> FindEmpty(p.views, 0) == FRAMES
    ensures forall id: nat :: id in HeldIds(p.views, FRAMES) <==> Resident(p, id)
  {
    assert |p.views| == FRAMES;
    HeldCount(p, FRAMES);
    hide Inv, LastUse, Recency;
  }

  /** An exact pool is full exactly when seven distinct pages have been accessed. */
  lemma FullWhenSeven(p: Pool)
    requires Inv(p) && Exact(p)
    ensures |Recent(p.trace)| == FRAMES <==> FindEmpty(p.views, 0) == FRAMES
  {
    RecentDistinct(p.trace);
    HeldFacts(p);
    SameCount(HeldIds(p.views, FRAMES), Recent(p.trace));
  }

  lemma SameCount(ids: set<nat>, r: seq<nat>)
    requires Distinct(r) && forall id: nat :: id in ids <==> id in r
    ensures |ids| == |r|
  {
    DistinctCount(r);
    assert ids == Elements(r);
  }

  /** Ranks of held frames are pairwise different and below the clock. */
  lemma RanksDistinct(p: Pool, i: nat, j: nat)
    requires Inv(p) && i < j < FRAMES && p.views[i].Held? && p.views[j].Held?
    ensures p.views[i].rank != p.views[j].rank && p.views[i].rank < p.clock
  {
    assert FrameOk(p, p.views[i]) && FrameOk(p, p.views[j]);
    assert Differ(p.views[i], p.views[j]);
  }

  function Rank(v: View): nat {
    if v.Held? then v.rank else 0
  }

  /** What find_lru looks for. */
  ghost predicate Oldest(views: seq<View>, i: nat) {
    i < |views| && forall j :: 0 <= j < |views| ==> Rank(views[i]) <= Rank(views[j])
  }

  /** The victim is the resident page whose last access is the oldest. */
  lemma VictimIsLast(p: Pool, i: nat)
    requires Inv(p) && Exact(p) && FindEmpty(p.views, 0) == FRAMES && Oldest(p.views, i)
    ensures |Recent(p.trace)| == FRAMES && p.views[i].Held? && p.views[i].id == Recent(p.trace)[FRAMES - 1]
  {
    FullWhenSeven(p);
    RecentDistinct(p.trace);
    var r := Recent(p.trace);
    var last := r[FRAMES - 1];
    assert Resident(p, last);
    var k := FindFrame(p.views, last);
    assert FrameOk(p, p.views[k]) && FrameOk(p, p.views[i]);
    FindUnique(p, i);
    assert Resident(p, p.views[i].id);
    var j :| 0 <= j < FRAMES && r[j] == p.views[i].id;
    assert Rank(p.views[i]) <= Rank(p.views[k]);
    assert forall i :: 0 <= i < FRAMES - 1 ==> LastUse(p.trace, r[i]) > LastUse(p.trace, last);
  }

  lemma HitExact(p: Pool, i: nat)
    requires Inv(p) && Exact(p) && i < FRAMES && p.views[i].Held?
    ensures Exact(Accessed(p, i, p.views[i]))
  {
    var q := Accessed(p, i, p.views[i]);
    OthersDiffer(p, i, q.views[i]);
    RecentAfter(p.trace, p.views[i].id);
    FindUnique(p, i);
    assert Resident(p, p.views[i].id);
    forall id: nat ensures Resident(q, id) <==> id in Recent(q.trace) {
      FindAfter(p, q, i, id);
      assert Resident(p, id) <==> id in Recent(p.trace);
    }
  }

  /** How a frame is chosen for a page that has none. */
  ghost predicate Choice(p: Pool, i: nat) {
    i < |p.views| && (p.views[i].Empty? || (FindEmpty(p.views, 0) == FRAMES && Oldest(p.views, i)))
  }

  /** Filling an empty frame, or replacing the oldest one when there is no empty frame. */
  lemma MissExact(p: Pool, q: Pool, i: nat, id: nat)
    requires Inv(p) && Exact(p) && i < FRAMES && !Resident(p, id)
    requires Choice(p, i)
    requires |q.views| == FRAMES && q.views == p.views[i := q.views[i]] && Holds(q.views[i], id) && q.trace == p.trace + [id]
    ensures Exact(q)
  {
    AbsentDiffers(p, q.views[i]);
    RecentAfter(p.trace, id);
    if p.views[i].Empty? {
      FullWhenSeven(p);
    } else {
      VictimIsLast(p, i);
    }
    forall other: nat ensures Resident(q, other) <==> other in Recent(q.trace) {
      FindAfter(p, q, i, other);
      assert Resident(p, other) <==> other in Recent(p.trace);
    }
    assert !Resident(p, id);
  }

  ghost predicate SameHolders(p: Pool, q: Pool) {
    && q.trace == p.trace && |q.views| == |p.views|
    && forall a, id: nat :: 0 <= a < |p.views| ==> (Holds(q.views[a], id) <==> Holds(p.views[a], id))
  }

  /** Exactness looks at which pages are resident and at the trace only. */
  lemma SameResidents(p: Pool, q: Pool)
    requires SameHolders(p, q)
    ensures Exact(p) <==> Exact(q)
  {
    forall id: nat ensures Resident(q, id) <==> Resident(p, id) {
      var f, k := FindFrame(p.views, id), FindFrame(q.views, id);
      assert f < |p.views| ==> Holds(q.views[f], id);
      assert k < |p.views| ==> Holds(p.views[k], id);
    }
  }
}
