/** What the page-by-page invariant means: the pages, read from the root down without any ghost
    information, are one balanced search tree; its in-order traversal is the contents in key order;
    its leaves are chained in that order; and it is as low as the minimum sizes promise. */
module TreeReading {
  import opened Common
  import opened TreeStore

  // ------------------------------------------------------------------ the traversal

  /** The entries of the leaves below page p, h levels further down, from left to right. */
  ghost function Under(s: Store, p: PageId, h: nat): seq<Entry>
    decreases h, 0
  {
    if p !in s then [] else if h == 0 then s[p].entries else UnderAll(s, s[p].entries, h - 1)
  }

  ghost function UnderAll(s: Store, es: seq<Entry>, h: nat): seq<Entry>
    decreases h, |es| + 1
  {
    if es == [] then [] else Under(s, es[0].value, h) + UnderAll(s, es[1..], h)
  }

  /** The ids of those leaves. */
  ghost function Leaves(s: Store, p: PageId, h: nat): seq<PageId>
    decreases h, 0
  {
    if p !in s then [] else if h == 0 then [p] else LeavesAll(s, s[p].entries, h - 1)
  }

  ghost function LeavesAll(s: Store, es: seq<Entry>, h: nat): seq<PageId>
    decreases h, |es| + 1
  {
    if es == [] then [] else Leaves(s, es[0].value, h) + LeavesAll(s, es[1..], h)
  }

  /** es lists, in key order, exactly the part of m whose keys lie in the range f. */
  ghost predicate Lists(es: seq<Entry>, f: Info, m: map<int, int>) {
    && SortedFrom(es, 0)
    && (forall i :: 0 <= i < |es| ==> InRange(f, es[i].key) && es[i].key in m && m[es[i].key] == es[i].value)
    && (forall k :: k in m && InRange(f, k) ==> exists i :: 0 <= i < |es| && es[i].key == k)
  }

  /** A key in the joint range is listed in one of the two. */
  lemma ListedInOne(a: seq<Entry>, f: Info, b: seq<Entry>, g: Info, m: map<int, int>, k: int)
    requires Lists(a, f, m) && Lists(b, g, m) && f.hi.Fin? && f.hi == g.lo
    requires k in m && InRange(Info(f.level, f.lo, g.hi), k)
    ensures exists i :: 0 <= i < |a + b| && (a + b)[i].key == k
  {
    if k < f.hi.k {
      assert InRange(f, k);
      var i :| 0 <= i < |a| && a[i].key == k;
      assert (a + b)[i].key == k;
    } else {
      assert InRange(g, k);
      var i :| 0 <= i < |b| && b[i].key == k;
      assert (a + b)[|a| + i].key == k;
    }
  }

  lemma ListsJoin(a: seq<Entry>, f: Info, b: seq<Entry>, g: Info, m: map<int, int>)
    requires Lists(a, f, m) && Lists(b, g, m) && f.hi.Fin? && f.hi == g.lo
    requires f.lo.Fin? ==> f.lo.k < f.hi.k
    requires g.hi.Fin? ==> g.lo.k < g.hi.k
    ensures Lists(a + b, Info(f.level, f.lo, g.hi), m)
  {
    var es := a + b;
    assert forall i :: 0 <= i < |a| ==> es[i] == a[i] && es[i].key < f.hi.k;
    assert forall i :: |a| <= i < |es| ==> es[i] == b[i - |a|] && f.hi.k <= es[i].key;
    forall k | k in m && InRange(Info(f.level, f.lo, g.hi), k)
      ensures exists i :: 0 <= i < |es| && es[i].key == k
    {
      ListedInOne(a, f, b, g, m, k);
    }
  }

  /** The range covered by the children from position j on. */
  function TailInfo(n: Node, f: Info, j: int): Info
    requires 0 <= j < |n.entries| && f.level > 0
  {
    Info(f.level - 1, ChildInfo(n, f, j).lo, f.hi)
  }

  lemma RangeNotEmpty(s: Store, info: map<PageId, Info>, root: PageId, lim: Limits, p: PageId)
    requires TreeExcept(s, info, root, lim, INVALID_PAGE_ID) && p in info
    ensures info[p].lo.Fin? && info[p].hi.Fin? ==> info[p].lo.k < info[p].hi.k
  {
    assert NodeOk(s, info, root, lim, INVALID_PAGE_ID, p);
  }

  /** The in-order traversal of any subtree lists its part of the contents in key order. */
  lemma {:induction false} UnderLists(s: Store, info: map<PageId, Info>, root: PageId, lim: Limits, m: map<int, int>,
                                      p: PageId)
    requires TreeExcept(s, info, root, lim, INVALID_PAGE_ID) && Holds(s, info, m)
    requires p in info
    ensures Lists(Under(s, p, info[p].level), info[p], m)
    decreases info[p].level, 0
  {
    assert NodeOk(s, info, root, lim, INVALID_PAGE_ID, p);
    if info[p].level == 0 {
      assert LeafHolds(s[p], info[p], m);
      forall k | k in m && InRange(info[p], k)
        ensures exists i :: 0 <= i < |s[p].entries| && s[p].entries[i].key == k
      {
        assert HasKey(s[p], k);
      }
    } else {
      UnderAllLists(s, info, root, lim, m, p, 0);
      assert s[p].entries[0..] == s[p].entries;
    }
  }

  lemma {:induction false} UnderAllLists(s: Store, info: map<PageId, Info>, root: PageId, lim: Limits, m: map<int, int>,
                                         p: PageId, j: int)
    requires TreeExcept(s, info, root, lim, INVALID_PAGE_ID) && Holds(s, info, m)
    requires p in info && info[p].level > 0 && 0 <= j < |s[p].entries|
    ensures Lists(UnderAll(s, s[p].entries[j..], info[p].level - 1), TailInfo(s[p], info[p], j), m)
    decreases info[p].level - 1, |s[p].entries| - j
  {
    var es := s[p].entries;
    var h := info[p].level - 1;
    assert NodeOk(s, info, root, lim, INVALID_PAGE_ID, p);
    assert ChildOk(s, info, p, j);
    var c := es[j].value;
    UnderLists(s, info, root, lim, m, c);
    assert es[j..][0] == es[j] && es[j..][1..] == es[j + 1..];
    if j + 1 == |es| {
      assert UnderAll(s, es[j + 1..], h) == [];
      assert UnderAll(s, es[j..], h) == Under(s, c, h);
    } else {
      UnderAllLists(s, info, root, lim, m, p, j + 1);
      RangeNotEmpty(s, info, root, lim, c);
      ListsJoin(Under(s, c, h), info[c], UnderAll(s, es[j + 1..], h), TailInfo(s[p], info[p], j + 1), m);
    }
  }

  // ------------------------------------------------------------------ the leaf chain

  /** Consecutive leaves are linked, the last one leading to the page next. */
  ghost predicate Chained(s: Store, ls: seq<PageId>, next: PageId) {
    && |ls| > 0
    && (forall i :: 0 <= i < |ls| ==> ls[i] in s && s[ls[i]].leaf)
    && (forall i :: 0 <= i < |ls| - 1 ==> s[ls[i]].next == ls[i + 1])
    && s[ls[|ls| - 1]].next == next
  }

  /** The page that the leaf chain of a subtree with range f must lead to. */
  ghost predicate FollowedBy(s: Store, info: map<PageId, Info>, f: Info, next: PageId) {
    if f.hi.Inf? then next == INVALID_PAGE_ID
    else next in info && next in s && s[next].leaf && info[next].lo == f.hi
  }

  lemma ChainedJoin(s: Store, a: seq<PageId>, b: seq<PageId>, next: PageId)
    requires Chained(s, a, if |b| > 0 then b[0] else next) && Chained(s, b, next)
    ensures Chained(s, a + b, next)
  {
    var ls := a + b;
    forall i | 0 <= i < |ls| - 1
      ensures s[ls[i]].next == ls[i + 1]
    {
      if i < |a| - 1 {
        assert ls[i] == a[i] && ls[i + 1] == a[i + 1];
      } else if i == |a| - 1 {
        assert ls[i] == a[i] && ls[i + 1] == b[0];
      } else {
        assert ls[i] == b[i - |a|] && ls[i + 1] == b[i - |a| + 1];
      }
    }
  }

  /** The leaves of any subtree are chained from left to right; the first one starts where the
      subtree's range does. */
  lemma {:induction false} LeavesChained(s: Store, info: map<PageId, Info>, root: PageId, lim: Limits, p: PageId)
    returns (next: PageId)
    requires TreeExcept(s, info, root, lim, INVALID_PAGE_ID)
    requires p in info
    ensures Chained(s, Leaves(s, p, info[p].level), next)
    ensures FollowedBy(s, info, info[p], next)
    ensures var first := Leaves(s, p, info[p].level)[0]; first in info && info[first].lo == info[p].lo
    decreases info[p].level, 0
  {
    assert NodeOk(s, info, root, lim, INVALID_PAGE_ID, p);
    if info[p].level == 0 {
      next := s[p].next;
    } else {
      next := LeavesAllChained(s, info, root, lim, p, 0);
      assert s[p].entries[0..] == s[p].entries;
    }
  }

  lemma {:induction false} LeavesAllChained(s: Store, info: map<PageId, Info>, root: PageId, lim: Limits, p: PageId,
                                            j: int)
    returns (next: PageId)
    requires TreeExcept(s, info, root, lim, INVALID_PAGE_ID)
    requires p in info && info[p].level > 0 && 0 <= j < |s[p].entries|
    ensures Chained(s, LeavesAll(s, s[p].entries[j..], info[p].level - 1), next)
    ensures FollowedBy(s, info, info[p], next)
    ensures var first := LeavesAll(s, s[p].entries[j..], info[p].level - 1)[0];
            first in info && info[first].lo == TailInfo(s[p], info[p], j).lo
    decreases info[p].level - 1, |s[p].entries| - j
  {
    var es := s[p].entries;
    var h := info[p].level - 1;
    assert NodeOk(s, info, root, lim, INVALID_PAGE_ID, p);
    assert ChildOk(s, info, p, j);
    var c := es[j].value;
    var afterC := LeavesChained(s, info, root, lim, c);
    assert es[j..][0] == es[j] && es[j..][1..] == es[j + 1..];
    if j + 1 == |es| {
      assert LeavesAll(s, es[j + 1..], h) == [];
      assert LeavesAll(s, es[j..], h) == Leaves(s, c, h);
      next := afterC;
    } else {
      next := LeavesAllChained(s, info, root, lim, p, j + 1);
      var rest := LeavesAll(s, es[j + 1..], h);
      assert s[rest[0]].leaf && s[afterC].leaf;
      RangeEndsUnique(s, info, root, lim, INVALID_PAGE_ID, afterC, rest[0]);
      ChainedJoin(s, Leaves(s, c, h), rest, next);
    }
  }

  // ------------------------------------------------------------------ the height

  function Power(b: nat, e: nat): nat {
    if e == 0 then 1 else b * Power(b, e - 1)
  }

  lemma MulMonotone(a: nat, b: nat, c: nat)
    requires a <= b
    ensures a * c <= b * c
  {
  }

  /** A subtree below the root, h levels high, has at least (I/2)^h * (L/2) entries. */
  lemma {:induction false} UnderSize(s: Store, info: map<PageId, Info>, root: PageId, lim: Limits, p: PageId)
    requires TreeExcept(s, info, root, lim, INVALID_PAGE_ID)
    requires p in info && p != root
    ensures |Under(s, p, info[p].level)| >= Power(lim.internalMax / 2, info[p].level) * (lim.leafMax / 2)
    decreases info[p].level, 0
  {
    assert NodeOk(s, info, root, lim, INVALID_PAGE_ID, p);
    if info[p].level > 0 {
      var h := info[p].level - 1;
      var least := Power(lim.internalMax / 2, h) * (lim.leafMax / 2);
      UnderAllSize(s, info, root, lim, p, 0);
      assert s[p].entries[0..] == s[p].entries;
      MulMonotone(lim.internalMax / 2, |s[p].entries|, least);
      assert (lim.internalMax / 2) * least == Power(lim.internalMax / 2, h + 1) * (lim.leafMax / 2) by {
        MulAssociative(lim.internalMax / 2, Power(lim.internalMax / 2, h), lim.leafMax / 2);
      }
    }
  }

  lemma MulAssociative(a: int, b: int, c: int)
    ensures a * (b * c) == a * b * c
  {
  }

  lemma {:induction false} UnderAllSize(s: Store, info: map<PageId, Info>, root: PageId, lim: Limits, p: PageId, j: int)
    requires TreeExcept(s, info, root, lim, INVALID_PAGE_ID)
    requires p in info && info[p].level > 0 && 0 <= j <= |s[p].entries|
    ensures |UnderAll(s, s[p].entries[j..], info[p].level - 1)|
            >= (|s[p].entries| - j) * (Power(lim.internalMax / 2, info[p].level - 1) * (lim.leafMax / 2))
    decreases info[p].level - 1, |s[p].entries| - j + 1
  {
    var es := s[p].entries;
    if j < |es| {
      assert NodeOk(s, info, root, lim, INVALID_PAGE_ID, p);
      assert ChildOk(s, info, p, j);
      LevelAtMostRoot(s, info, root, lim, INVALID_PAGE_ID, p);
      UnderSize(s, info, root, lim, es[j].value);
      UnderAllSize(s, info, root, lim, p, j + 1);
      assert es[j..][0] == es[j] && es[j..][1..] == es[j + 1..];
      var least := Power(lim.internalMax / 2, info[p].level - 1) * (lim.leafMax / 2);
      MulStep(|es| - j, least);
    }
  }

  lemma MulStep(n: int, c: int)
    ensures n * c == (n - 1) * c + c
  {
  }

  /** Distinct keys: a listing of all of m is as long as m is large. */
  lemma {:induction false} ListsAllSize(es: seq<Entry>, m: map<int, int>)
    requires Lists(es, Info(0, Inf, Inf), m)
    ensures |es| == |m|
    decreases |es|
  {
    if es == [] {
      NothingListed(m);
    } else {
      var n := |es| - 1;
      var e := es[n];
      var rest := es[..n];
      var m' := m - {e.key};
      assert forall i :: 0 <= i < n ==> rest[i] == es[i] && es[i].key < e.key;
      forall k | k in m' && InRange(Info(0, Inf, Inf), k)
        ensures exists i :: 0 <= i < |rest| && rest[i].key == k
      {
        var i :| 0 <= i < |es| && es[i].key == k;
        assert i < n;
        assert rest[i].key == k;
      }
      ListsAllSize(rest, m');
      assert m'.Keys == m.Keys - {e.key};
      assert |m.Keys| == |m'.Keys| + 1;
    }
  }

  lemma NothingListed(m: map<int, int>)
    requires Lists([], Info(0, Inf, Inf), m)
    ensures |m| == 0
  {
    forall k: int
      ensures k !in m
    {
      assert InRange(Info(0, Inf, Inf), k);
    }
    assert m == map[];
  }

  /** A tree with an internal root of level h >= 1 holds at least 2 * (I/2)^(h-1) * (L/2) keys. */
  lemma HeightBound(s: Store, info: map<PageId, Info>, root: PageId, lim: Limits, m: map<int, int>)
    requires TreeExcept(s, info, root, lim, INVALID_PAGE_ID) && Holds(s, info, m)
    requires info[root].level >= 1
    ensures |m| >= 2 * (Power(lim.internalMax / 2, info[root].level - 1) * (lim.leafMax / 2))
  {
    assert NodeOk(s, info, root, lim, INVALID_PAGE_ID, root);
    UnderLists(s, info, root, lim, m, root);
    WholeRange(Under(s, root, info[root].level), info[root], m);
    ListsAllSize(Under(s, root, info[root].level), m);
    UnderAllSize(s, info, root, lim, root, 0);
    assert s[root].entries[0..] == s[root].entries;
    MulMonotone(2, |s[root].entries|, Power(lim.internalMax / 2, info[root].level - 1) * (lim.leafMax / 2));
  }

  lemma WholeRange(es: seq<Entry>, f: Info, m: map<int, int>)
    requires Lists(es, f, m) && f.lo.Inf? && f.hi.Inf?
    ensures Lists(es, Info(0, Inf, Inf), m)
  {
    forall k | k in m && InRange(Info(0, Inf, Inf), k)
      ensures exists i :: 0 <= i < |es| && es[i].key == k
    {
      assert InRange(f, k);
    }
  }

  // ------------------------------------------------------------------ the tree read top down

  /** Read from page p down, with no ghost information: a balanced search tree of height h for the
      keys in [lo, hi), every page naming its true parent and respecting the size limits. */
  ghost predicate SearchTree(s: Store, lim: Limits, p: PageId, parent: PageId, h: nat, lo: Bound, hi: Bound)
    decreases h
  {
    && p in s && s[p].parent == parent && (s[p].leaf <==> h == 0)
    && SizeOk(s[p], lim, parent == INVALID_PAGE_ID, false)
    && Shape(s[p], Info(h, lo, hi))
    && (h > 0 ==> forall i :: 0 <= i < |s[p].entries| ==>
          var f := ChildInfo(s[p], Info(h, lo, hi), i);
          SearchTree(s, lim, s[p].entries[i].value, p, h - 1, f.lo, f.hi))
  }

  lemma {:induction false} ReadsAsSearchTree(s: Store, info: map<PageId, Info>, root: PageId, lim: Limits, p: PageId)
    requires TreeExcept(s, info, root, lim, INVALID_PAGE_ID)
    requires p in info
    ensures SearchTree(s, lim, p, s[p].parent, info[p].level, info[p].lo, info[p].hi)
    decreases info[p].level
  {
    assert NodeOk(s, info, root, lim, INVALID_PAGE_ID, p);
    if info[p].level > 0 {
      forall i | 0 <= i < |s[p].entries|
        ensures var f := ChildInfo(s[p], info[p], i);
                SearchTree(s, lim, s[p].entries[i].value, p, info[p].level - 1, f.lo, f.hi)
      {
        assert ChildOk(s, info, p, i);
        ReadsAsSearchTree(s, info, root, lim, s[p].entries[i].value);
      }
    }
  }

  /** The stored parent id of every page is the one page that points to it; just the root has none. */
  lemma ParentIds(s: Store, info: map<PageId, Info>, root: PageId, lim: Limits, p: PageId, q: PageId)
    requires TreeExcept(s, info, root, lim, INVALID_PAGE_ID)
    requires p in info && q in info && !s[q].leaf
    ensures s[p].parent == INVALID_PAGE_ID <==> p == root
    ensures HasChild(s[q], p) <==> s[p].parent == q
  {
    assert NodeOk(s, info, root, lim, INVALID_PAGE_ID, p);
    ChildrenNamed(s, info, root, lim, INVALID_PAGE_ID, q, p);
  }

  /** Page p can be reached from page a along child pointers. */
  ghost predicate Reaches(s: Store, a: PageId, p: PageId, steps: nat)
    decreases steps
  {
    a in s && if steps == 0 then a == p
              else !s[a].leaf && exists i :: 0 <= i < |s[a].entries| && Reaches(s, s[a].entries[i].value, p, steps - 1)
  }

  lemma {:induction false} ReachesStep(s: Store, a: PageId, q: PageId, p: PageId, steps: nat, j: int)
    requires Reaches(s, a, q, steps) && q in s && !s[q].leaf && p in s
    requires 0 <= j < |s[q].entries| && s[q].entries[j].value == p
    ensures Reaches(s, a, p, steps + 1)
    decreases steps
  {
    if steps == 0 {
      assert Reaches(s, s[a].entries[j].value, p, 0);
    } else {
      var i :| 0 <= i < |s[a].entries| && Reaches(s, s[a].entries[i].value, q, steps - 1);
      ReachesStep(s, s[a].entries[i].value, q, p, steps - 1, j);
    }
  }

  /** No live page is cut off: each is found from the root, as many steps down as its level says. */
  lemma {:induction false} AllReachable(s: Store, info: map<PageId, Info>, root: PageId, lim: Limits, p: PageId)
    requires TreeExcept(s, info, root, lim, INVALID_PAGE_ID)
    requires p in info
    ensures info[p].level <= info[root].level
    ensures Reaches(s, root, p, info[root].level - info[p].level)
    decreases info[root].level - info[p].level
  {
    LevelAtMostRoot(s, info, root, lim, INVALID_PAGE_ID, p);
    if p != root {
      var q, i := ParentPosition(s, info, root, lim, INVALID_PAGE_ID, p);
      LevelAtMostRoot(s, info, root, lim, INVALID_PAGE_ID, q);
      AllReachable(s, info, root, lim, q);
      ReachesStep(s, root, q, p, info[root].level - info[q].level, i);
    }
  }

  /** Nothing else is found from there: a page that is not live, and so may be deleted, is out of
      reach. */
  lemma {:induction false} ReachableIsLive(s: Store, info: map<PageId, Info>, root: PageId, lim: Limits,
                                           a: PageId, p: PageId, steps: nat)
    requires TreeExcept(s, info, root, lim, INVALID_PAGE_ID)
    requires a in info && Reaches(s, a, p, steps)
    ensures p in info
    decreases steps
  {
    if steps > 0 {
      var i :| 0 <= i < |s[a].entries| && Reaches(s, s[a].entries[i].value, p, steps - 1);
      assert NodeOk(s, info, root, lim, INVALID_PAGE_ID, a);
      assert ChildOk(s, info, a, i);
      ReachableIsLive(s, info, root, lim, s[a].entries[i].value, p, steps - 1);
    }
  }

  lemma LiveIsReachable(s: Store, info: map<PageId, Info>, root: PageId, lim: Limits, p: PageId)
    requires TreeExcept(s, info, root, lim, INVALID_PAGE_ID)
    ensures p in info <==> exists steps: nat :: Reaches(s, root, p, steps)
  {
    if p in info {
      AllReachable(s, info, root, lim, p);
      var steps: nat := info[root].level - info[p].level;
      assert Reaches(s, root, p, steps);
    }
    forall steps: nat | Reaches(s, root, p, steps)
      ensures p in info
    {
      ReachableIsLive(s, info, root, lim, root, p, steps);
    }
  }

  // ------------------------------------------------------------------ walking along the leaves

  /** h is the least key of m that is not below k. */
  predicate LeastFrom(m: map<int, int>, k: int, h: int) {
    h in m && h >= k && forall j :: j in m && j >= k ==> h <= j
  }

  predicate NoneFrom(m: map<int, int>, k: int) {
    forall j :: j in m ==> j < k
  }

  /** In a leaf for the range f that holds es, position c parts the keys below k from the others. */
  ghost predicate Parts(es: seq<Entry>, f: Info, c: int, k: int) {
    && 0 <= c <= |es|
    && AtOrAbove(f.lo, k) && (f.hi.Inf? || k <= f.hi.k)
    && (forall j :: 0 <= j < c ==> es[j].key < k)
    && (forall j :: c <= j < |es| ==> es[j].key >= k)
  }

  /** The least key from k on is at the position that parts the leaf, or else it is the first one
      of the next leaf, or there is none. */
  lemma LeastAtPosition(s: Store, info: map<PageId, Info>, root: PageId, lim: Limits, m: map<int, int>,
                        p: PageId, c: int, k: int)
    requires TreeExcept(s, info, root, lim, INVALID_PAGE_ID) && Holds(s, info, m)
    requires p in info && s[p].leaf && Parts(s[p].entries, info[p], c, k)
    ensures c < |s[p].entries| ==> LeastFrom(m, k, s[p].entries[c].key)
    ensures c == |s[p].entries| && s[p].next == INVALID_PAGE_ID ==> NoneFrom(m, k)
    ensures c == |s[p].entries| && s[p].next != INVALID_PAGE_ID ==>
              var q := s[p].next;
              q in info && s[q].leaf && |s[q].entries| > 0 && LeastFrom(m, k, s[q].entries[0].key)
  {
    var n := s[p];
    assert NodeOk(s, info, root, lim, INVALID_PAGE_ID, p) && LeafHolds(n, info[p], m);
    forall j | j in m && j >= k && InRange(info[p], j)
      ensures c < |n.entries| && n.entries[c].key <= j
    {
      assert HasKey(n, j);
      var h :| 0 <= h < |n.entries| && n.entries[h].key == j;
      assert c <= h;
    }
    if c == |n.entries| && !info[p].hi.Inf? {
      var q := n.next;
      assert NodeOk(s, info, root, lim, INVALID_PAGE_ID, q) && LeafHolds(s[q], info[q], m);
      assert q != root;
      assert InRange(info[q], s[q].entries[0].key);
      forall j | j in m && j >= k
        ensures s[q].entries[0].key <= j
      {
        if InRange(info[q], j) {
          assert HasKey(s[q], j);
        } else if Below(j, info[q].hi) {
          assert InRange(info[p], j);
        }
      }
    }
  }

  /** The least key of all is the first one of the leftmost leaf. */
  lemma LeastOfAll(s: Store, info: map<PageId, Info>, root: PageId, lim: Limits, m: map<int, int>, p: PageId)
    requires TreeExcept(s, info, root, lim, INVALID_PAGE_ID) && Holds(s, info, m)
    requires p in info && s[p].leaf && info[p].lo.Inf?
    ensures |s[p].entries| > 0 && s[p].entries[0].key in m
    ensures forall j :: j in m ==> s[p].entries[0].key <= j
  {
    assert NodeOk(s, info, root, lim, INVALID_PAGE_ID, p) && LeafHolds(s[p], info[p], m);
    assert InRange(info[p], s[p].entries[0].key);
    forall j | j in m
      ensures s[p].entries[0].key <= j
    {
      if InRange(info[p], j) {
        assert HasKey(s[p], j);
      }
    }
  }
}
