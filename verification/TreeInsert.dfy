/** What an insertion does to the pages, as functions on stores, and the proof that every step of
    a cascade of splits keeps the tree and its contents. */
module TreeInsert {
  import opened Common
  import opened TreeStore

  /** How many of the entries from position first on have a key below k. */
  function LowerBound(es: seq<Entry>, k: int): (i: nat)
    ensures i <= |es|
    ensures forall j :: 0 <= j < i ==> es[j].key < k
    ensures i < |es| ==> es[i].key >= k
  {
    if es == [] || es[0].key >= k then 0
    else
      var i := LowerBound(es[1..], k);
      assert forall j :: 1 <= j < i + 1 ==> es[j] == es[1..][j - 1];
      i + 1
  }

  lemma LowerBoundIs(es: seq<Entry>, k: int, i: nat)
    requires i <= |es|
    requires forall j :: 0 <= j < i ==> es[j].key < k
    requires forall j :: i <= j < |es| ==> es[j].key >= k
    ensures i == LowerBound(es, k)
  {
    if i > 0 {
      assert es[1..][..i - 1] == es[1..i];
      LowerBoundIs(es[1..], k, i - 1);
    }
  }

  function LeafInserted(n: Node, k: int, v: int): Node {
    var i := LowerBound(n.entries, k);
    n.(entries := n.entries[..i] + [Entry(k, v)] + n.entries[i..])
  }

  function SplitInfo(info: map<PageId, Info>, p: PageId, k: int, q: PageId): map<PageId, Info>
    requires p in info
  {
    var f := info[p];
    info[p := Info(f.level, f.lo, Fin(k))][q := Info(f.level, Fin(k), f.hi)]
  }

  // ------------------------------------------------------------------ leaf insertion

  lemma LeafInsertedSorted(n: Node, k: int, v: int)
    requires SortedFrom(n.entries, 0) && !HasKey(n, k)
    ensures SortedFrom(LeafInserted(n, k, v).entries, 0)
  {
    var i := LowerBound(n.entries, k);
    var es := LeafInserted(n, k, v).entries;
    assert i < |n.entries| ==> n.entries[i].key != k;
    forall a, b | 0 <= a < b < |es|
      ensures es[a].key < es[b].key
    {
      assert es[a] == if a < i then n.entries[a] else if a == i then Entry(k, v) else n.entries[a - 1];
      assert es[b] == if b < i then n.entries[b] else if b == i then Entry(k, v) else n.entries[b - 1];
    }
  }

  lemma LeafInsertedShape(n: Node, f: Info, k: int, v: int)
    requires n.leaf && Shape(n, f) && InRange(f, k) && !HasKey(n, k)
    ensures Shape(LeafInserted(n, k, v), f)
  {
    LeafInsertedSorted(n, k, v);
    var i := LowerBound(n.entries, k);
    var es := LeafInserted(n, k, v).entries;
    forall j | 0 <= j < |es|
      ensures InRange(f, es[j].key)
    {
      assert es[j] == if j < i then n.entries[j] else if j == i then Entry(k, v) else n.entries[j - 1];
    }
  }

  lemma LeafInsertedHolds(n: Node, f: Info, k: int, v: int, m: map<int, int>)
    requires n.leaf && LeafHolds(n, f, m) && !HasKey(n, k) && k !in m
    ensures LeafHolds(LeafInserted(n, k, v), f, m[k := v])
  {
    var i := LowerBound(n.entries, k);
    var n' := LeafInserted(n, k, v);
    var es := n'.entries;
    assert forall j :: 0 <= j < i ==> es[j] == n.entries[j];
    assert es[i] == Entry(k, v);
    assert forall j :: i < j < |es| ==> es[j] == n.entries[j - 1];
    forall h | h in m[k := v] && InRange(f, h)
      ensures HasKey(n', h)
    {
      if h != k {
        var j :| 0 <= j < |n.entries| && n.entries[j].key == h;
        if j < i {
          assert es[j].key == h;
        } else {
          assert es[j + 1].key == h;
        }
      }
    }
  }

  /** Putting an absent key into the leaf in charge of it keeps the tree, that leaf being allowed
      one entry too many, and adds just that key to the contents. */
  lemma LeafInsertKeeps(s: Store, info: map<PageId, Info>, root: PageId, lim: Limits,
                        p: PageId, k: int, v: int, m: map<int, int>)
    requires TreeExcept(s, info, root, lim, INVALID_PAGE_ID) && Holds(s, info, m)
    requires p in info && s[p].leaf && InRange(info[p], k) && !HasKey(s[p], k)
    ensures k !in m
    ensures TreeExcept(s[p := LeafInserted(s[p], k, v)], info, root, lim, p)
    ensures Holds(s[p := LeafInserted(s[p], k, v)], info, m[k := v])
  {
    assert NodeOk(s, info, root, lim, INVALID_PAGE_ID, p);
    assert k !in m by { assert LeafHolds(s[p], info[p], m); }
    LeafInsertedShape(s[p], info[p], k, v);
    LeafReplacedTree(s, info, root, lim, p, LeafInserted(s[p], k, v));
    LeafInsertedHolds(s[p], info[p], k, v, m);
    LeafReplacedHolds(s, info, root, lim, p, LeafInserted(s[p], k, v), k, m, m[k := v]);
  }

  /** A first leaf is a tree. */
  lemma SingleLeaf(s: Store, p: PageId, lim: Limits, k: int, v: int)
    requires lim.Valid() && p != INVALID_PAGE_ID
    requires s == map[p := Node(true, INVALID_PAGE_ID, INVALID_PAGE_ID, [Entry(k, v)])]
    ensures var info := map[p := Info(0, Inf, Inf)];
            TreeExcept(s, info, p, lim, INVALID_PAGE_ID) && Holds(s, info, map[k := v])
  {
    var info := map[p := Info(0, Inf, Inf)];
    assert s[p].entries[0].key == k;
    assert NodeOk(s, info, p, lim, INVALID_PAGE_ID, p);
    AllNodesOk(s, info, p, lim, INVALID_PAGE_ID);
    assert HasKey(s[p], k);
  }

  // ------------------------------------------------------------------ one split

  /** A page that has just outgrown its size, its parent (if any), and the fresh page q that is to
      take its upper half. */
  predicate Overfull(s: Store, info: map<PageId, Info>, root: PageId, lim: Limits, p: PageId, q: PageId) {
    && TreeExcept(s, info, root, lim, p)
    && p in info && |s[p].entries| == lim.MaxSize(s[p].leaf) + 1
    && q !in s && q !in info && q != INVALID_PAGE_ID
  }

  /** The separator handed to the parent: the first key of the upper half. */
  function SplitKey(n: Node, lim: Limits): int
    requires 0 <= lim.MinSize(n.leaf) < |n.entries|
  {
    n.entries[lim.MinSize(n.leaf)].key
  }

  /** What each page looks like once p is split into p and q, both with the parent pp: the halves,
      the children that change hands, and the pages that are not touched. */
  predicate SplitInto(s: Store, info: map<PageId, Info>, lim: Limits, p: PageId, q: PageId, pp: PageId, t: Store)
    requires p in s && 0 <= lim.MinSize(s[p].leaf) <= |s[p].entries|
  {
    var n := s[p];
    var m := lim.MinSize(n.leaf);
    && p in t && q in t
    && t[p] == Node(n.leaf, pp, if n.leaf then q else n.next, n.entries[..m])
    && t[q] == Node(n.leaf, pp, if n.leaf then n.next else INVALID_PAGE_ID, n.entries[m..])
    && (!n.leaf ==> forall i :: 0 <= i < |n.entries| ==> Moved(s, t, n.entries[i].value, if i < m then p else q))
    && (forall c :: c in info && c in s && c != p && c != pp && (n.leaf || s[c].parent != p) ==> c in t && t[c] == s[c])
  }

  /** The split of p alone: the new page q has no parent yet and no other page knows of it. */
  predicate HalfSplit(s: Store, lim: Limits, p: PageId, q: PageId, t: Store)
    requires p in s && 0 <= lim.MinSize(s[p].leaf) <= |s[p].entries|
  {
    var n := s[p];
    var m := lim.MinSize(n.leaf);
    && t.Keys == s.Keys + {q}
    && t[p] == Node(n.leaf, n.parent, if n.leaf then q else n.next, n.entries[..m])
    && t[q] == Node(n.leaf, INVALID_PAGE_ID, if n.leaf then n.next else INVALID_PAGE_ID, n.entries[m..])
    && (!n.leaf ==> forall i :: 0 <= i < |n.entries| ==> Moved(s, t, n.entries[i].value, if i < m then p else q))
    && (forall c :: c in s && c != p && (n.leaf || s[c].parent != p) ==> t[c] == s[c])
  }

  /** The pages after half a split: the children in the upper half are adopted by q. */
  function HalvedStore(s: Store, lim: Limits, p: PageId, q: PageId): (t: Store)
    requires p in s && 0 <= lim.MinSize(s[p].leaf) <= |s[p].entries|
    ensures t.Keys == s.Keys + {q}
  {
    var n := s[p];
    var m := lim.MinSize(n.leaf);
    var left := n.(entries := n.entries[..m], next := if n.leaf then q else n.next);
    var right := Node(n.leaf, INVALID_PAGE_ID, if n.leaf then n.next else INVALID_PAGE_ID, n.entries[m..]);
    (map c | c in s ::
       if c == p then left else if n.leaf then s[c] else AdoptedNode(s, n.entries[m..], q, c))[q := right]
  }

  lemma HalvedStoreOk(s: Store, lim: Limits, p: PageId, q: PageId)
    requires p in s && q !in s && 0 <= lim.MinSize(s[p].leaf) <= |s[p].entries|
    requires !s[p].leaf ==> Family(s, p)
    ensures HalfSplit(s, lim, p, q, HalvedStore(s, lim, p, q))
  {
    var n := s[p];
    var m := lim.MinSize(n.leaf);
    var t := HalvedStore(s, lim, p, q);
    if !n.leaf {
      forall i | 0 <= i < |n.entries|
        ensures Moved(s, t, n.entries[i].value, if i < m then p else q)
      {
        assert ChildOf(s, n.entries[i].value, p);
        assert i >= m ==> n.entries[m..][i - m].value == n.entries[i].value;
      }
    }
  }

  /** Linking both halves to pp completes the split. */
  lemma HalfSplitLinked(s: Store, info: map<PageId, Info>, root: PageId, lim: Limits, p: PageId, q: PageId,
                        t: Store, pp: PageId, t': Store)
    requires Overfull(s, info, root, lim, p, q) && HalfSplit(s, lim, p, q, t)
    requires p in t' && q in t' && t'[p] == t[p].(parent := pp) && t'[q] == t[q].(parent := pp)
    requires forall c :: c in t && c != p && c != q && c != pp ==> c in t' && t'[c] == t[c]
    requires pp in s ==> pp in info && s[pp].parent != p
    requires pp != p && pp != q
    ensures SplitInto(s, info, lim, p, q, pp, t')
  {
    var n := s[p];
    assert NodeOk(s, info, root, lim, p, p);
    if !n.leaf {
      forall i | 0 <= i < |n.entries|
        ensures Moved(s, t', n.entries[i].value, if i < lim.MinSize(n.leaf) then p else q)
      {
        var c := n.entries[i].value;
        assert Moved(s, t, c, if i < lim.MinSize(n.leaf) then p else q);
        assert ChildOk(s, info, p, i);
        assert c != p && c != q && c != pp;
      }
    }
  }

  /** After the split, either half is in order on its own. */
  lemma HalvesOk(s: Store, info: map<PageId, Info>, root: PageId, lim: Limits, p: PageId, q: PageId,
                 pp: PageId, t: Store, c: PageId)
    requires Overfull(s, info, root, lim, p, q)
    requires SplitInto(s, info, lim, p, q, pp, t)
    requires c == p || c == q
    ensures var info' := SplitInfo(info, p, SplitKey(s[p], lim), q);
            && Shape(t[c], info'[c])
            && (!t[c].leaf ==> ChildrenOk(t, info', c))
            && SizeOk(t[c], lim, false, false)
  {
    var n := s[p];
    var m := lim.MinSize(n.leaf);
    var info' := SplitInfo(info, p, SplitKey(n, lim), q);
    assert NodeOk(s, info, root, lim, p, p);
    CutShape(n, info[p], m, t[p], t[q]);
    if !n.leaf {
      forall i | 0 <= i < |t[c].entries|
        ensures ChildOk(t, info', c, i)
      {
        var j := if c == p then i else m + i;
        assert t[c].entries[i] == n.entries[j];
        assert ChildOk(s, info, p, j);
        var d := n.entries[j].value;
        assert Moved(s, t, d, if j < m then p else q);
        assert d != p && d != q && info'[d] == info[d];
      }
    }
  }

  /** A child of p is afterwards a child of the half that its entry went to. */
  lemma ChildOfSplit(s: Store, info: map<PageId, Info>, root: PageId, lim: Limits, p: PageId, q: PageId,
                     pp: PageId, t: Store, c: PageId)
    requires Overfull(s, info, root, lim, p, q) && SplitInto(s, info, lim, p, q, pp, t)
    requires c in s && !s[p].leaf && HasChild(s[p], c)
    ensures c in t && t[c] == s[c].(parent := t[c].parent) && (t[c].parent == p || t[c].parent == q)
    ensures HasChild(t[t[c].parent], c)
  {
    var n := s[p];
    var m := lim.MinSize(n.leaf);
    var j :| 0 <= j < |n.entries| && n.entries[j].value == c;
    assert Moved(s, t, c, if j < m then p else q);
    if j < m {
      assert t[p].entries[j].value == c;
    } else {
      assert t[q].entries[j - m].value == c;
    }
  }

  /** Apart from p, q and the page pp above them, a split leaves the pages as they are. */
  lemma SplitOutside(s: Store, info: map<PageId, Info>, root: PageId, lim: Limits, p: PageId, q: PageId,
                     pp: PageId, t: Store, info': map<PageId, Info>)
    requires Overfull(s, info, root, lim, p, q) && SplitInto(s, info, lim, p, q, pp, t)
    requires p == root || pp == s[p].parent
    requires pp in t && pp != INVALID_PAGE_ID && !t[pp].leaf
    requires forall d :: d in info && d != p ==> d in info' && info'[d] == info[d]
    requires p in info' && q in info' && pp in info'
    requires pp in info ==> pp in s && pp != p && t[pp].parent == s[pp].parent
    requires pp in info ==> forall d :: HasChild(s[pp], d) ==> HasChild(t[pp], d)
    ensures Outside(s, info, {p, q, pp}, t, info')
  {
    forall d | d in info && d !in {p, q, pp}
      ensures Kept(s, info, {p, q, pp}, t, info', d)
    {
      assert NodeOk(s, info, root, lim, p, d) && NodeOk(s, info, root, lim, p, p);
      if d != root && s[d].parent == p {
        ChildOfSplit(s, info, root, lim, p, q, pp, t, d);
      }
    }
    assert NodeOk(s, info, root, lim, p, p);
  }

  // ------------------------------------------------------------------ the parent of a split page

  function InsertedAt(es: seq<Entry>, i: int, e: Entry): (r: seq<Entry>)
    requires 0 <= i <= |es|
    ensures |r| == |es| + 1 && r[i] == e
    ensures forall j :: 0 <= j < i ==> r[j] == es[j]
    ensures forall j :: i < j < |r| ==> r[j] == es[j - 1]
  {
    es[..i] + [e] + es[i..]
  }

  /** A separator strictly inside the range of child i, put right after it, fits the node. */
  lemma SeparatorFits(n: Node, f: Info, i: int, k: int, q: PageId)
    requires !n.leaf && Shape(n, f) && 0 <= i < |n.entries|
    requires var g := ChildInfo(n, f, i); InRange(g, k) && g.lo != Fin(k)
    ensures Shape(n.(entries := InsertedAt(n.entries, i + 1, Entry(k, q))), f)
  {
    var es := InsertedAt(n.entries, i + 1, Entry(k, q));
    forall a, b | 1 <= a < b < |es|
      ensures es[a].key < es[b].key
    {
      if a <= i && b == i + 1 {
        assert a < i ==> n.entries[a].key < n.entries[i].key;
      } else if a == i + 1 {
        assert i + 1 < b - 1 ==> n.entries[i + 1].key < n.entries[b - 1].key;
      }
    }
    assert i > 0 ==> InRange(f, n.entries[i].key);
    assert i + 1 < |n.entries| ==> InRange(f, n.entries[i + 1].key);
  }

  /** The children of the parent after the split: the old ones, with p's range cut at k, and q. */
  lemma ParentOfSplitOk(s: Store, info: map<PageId, Info>, root: PageId, lim: Limits, p: PageId, q: PageId,
                        pp: PageId, i: int, t: Store)
    requires Overfull(s, info, root, lim, p, q) && p != root
    requires pp == s[p].parent && pp in info && !s[pp].leaf && pp != p && i == ValueIndex(s[pp], p)
    requires 0 <= i < |s[pp].entries| && ChildOk(s, info, pp, i)
    requires pp in t && p in t && q in t
    requires t[pp] == s[pp].(entries := InsertedAt(s[pp].entries, i + 1, Entry(SplitKey(s[p], lim), q)))
    requires t[p].parent == pp && t[q].parent == pp
    requires forall c :: c in info && c != p && s[c].parent == pp ==> c in t && t[c].parent == pp
    ensures var info' := SplitInfo(info, p, SplitKey(s[p], lim), q);
            && Shape(t[pp], info'[pp]) && ChildrenOk(t, info', pp)
            && SizeOk(t[pp], lim, pp == root, true)
  {
    var k := SplitKey(s[p], lim);
    var info' := SplitInfo(info, p, k, q);
    assert NodeOk(s, info, root, lim, p, p) && NodeOk(s, info, root, lim, p, pp);
    var m := lim.MinSize(s[p].leaf);
    CutShape(s[p], info[p], m, Node(s[p].leaf, 0, 0, s[p].entries[..m]), Node(s[p].leaf, 0, 0, s[p].entries[m..]));
    SeparatorFits(s[pp], info[pp], i, k, q);
    forall j | 0 <= j < |t[pp].entries|
      ensures ChildOk(t, info', pp, j)
    {
      if j != i + 1 {
        OldChildOfSplit(s, info, root, lim, p, q, pp, i, t, j);
      }
    }
  }

  /** A child that was there before. */
  lemma OldChildOfSplit(s: Store, info: map<PageId, Info>, root: PageId, lim: Limits, p: PageId, q: PageId,
                        pp: PageId, i: int, t: Store, j: int)
    requires Overfull(s, info, root, lim, p, q) && p != root
    requires pp == s[p].parent && pp in info && !s[pp].leaf && pp != p && i == ValueIndex(s[pp], p)
    requires 0 <= i < |s[pp].entries| && ChildOk(s, info, pp, i)
    requires pp in t && p in t && q in t
    requires t[pp] == s[pp].(entries := InsertedAt(s[pp].entries, i + 1, Entry(SplitKey(s[p], lim), q)))
    requires t[p].parent == pp
    requires forall c :: c in info && c != p && s[c].parent == pp ==> c in t && t[c].parent == pp
    requires 0 <= j < |t[pp].entries| && j != i + 1
    ensures ChildOk(t, SplitInfo(info, p, SplitKey(s[p], lim), q), pp, j)
  {
    var h := if j <= i then j else j - 1;
    assert NodeOk(s, info, root, lim, p, pp);
    assert t[pp].entries[j] == s[pp].entries[h];
    assert ChildOk(s, info, pp, h);
    if s[pp].entries[h].value == p {
      ChildIndexUnique(s, info, root, lim, p, pp, h, i);
    }
  }

  /** The parent of p is not one of its children, and its parent is not p. */
  lemma ParentNotChild(s: Store, info: map<PageId, Info>, root: PageId, lim: Limits, p: PageId, pp: PageId)
    requires TreeExcept(s, info, root, lim, p)
    requires p in info && p != root && pp == s[p].parent
    ensures pp in s && pp in info && s[pp].parent != p && pp != INVALID_PAGE_ID
  {
    var _, _ := ParentPosition(s, info, root, lim, p, p);
    assert NodeOk(s, info, root, lim, p, pp) && NodeOk(s, info, root, lim, p, p);
    if pp != root {
      var _, _ := ParentPosition(s, info, root, lim, p, pp);
    }
  }

  /** The parent n has become n' by the pair (k, q) put right after the entry for p. */
  ghost predicate LinkedInto(n: Node, p: PageId, k: int, q: PageId, n': Node) {
    && n'.leaf == n.leaf && |n'.entries| == |n.entries| + 1
    && forall h {:trigger Inside(h)} :: Inside(h) ==>
         n' == n.(entries := InsertedAt(n.entries, ValueIndex(n, p) + 1, Entry(k, q)))
  }

  lemma {:induction false} HasChildInserted(n: Node, i: int, e: Entry, d: PageId)
    requires 0 <= i <= |n.entries| && HasChild(n, d)
    ensures HasChild(n.(entries := InsertedAt(n.entries, i, e)), d)
  {
    var j :| 0 <= j < |n.entries| && n.entries[j].value == d;
    assert InsertedAt(n.entries, i, e)[if j < i then j else j + 1].value == d;
  }

  /** The two halves and the parent that got the new separator are in order. */
  lemma NearSplitOk(s: Store, info: map<PageId, Info>, root: PageId, lim: Limits, p: PageId, q: PageId,
                    pp: PageId, i: int, t: Store, c: PageId)
    requires Overfull(s, info, root, lim, p, q) && p != root
    requires pp == s[p].parent && pp in info && !s[pp].leaf && pp != p && i == ValueIndex(s[pp], p)
    requires 0 <= i < |s[pp].entries| && ChildOk(s, info, pp, i)
    requires pp in t && SplitInto(s, info, lim, p, q, pp, t)
    requires t[pp] == s[pp].(entries := InsertedAt(s[pp].entries, i + 1, Entry(SplitKey(s[p], lim), q)))
    requires c == p || c == q
    ensures NodeOk(t, SplitInfo(info, p, SplitKey(s[p], lim), q), root, lim, pp, c)
  {
    HalvesOk(s, info, root, lim, p, q, pp, t, c);
    assert NodeOk(s, info, root, lim, p, p);
    HasChildInserted(s[pp], i + 1, Entry(SplitKey(s[p], lim), q), p);
    assert t[pp].entries[i + 1].value == q;
  }

  lemma ParentAfterSplitOk(s: Store, info: map<PageId, Info>, root: PageId, lim: Limits, p: PageId, q: PageId,
                           pp: PageId, i: int, t: Store)
    requires Overfull(s, info, root, lim, p, q) && p != root
    requires pp == s[p].parent && pp in info && !s[pp].leaf && pp != p && i == ValueIndex(s[pp], p)
    requires 0 <= i < |s[pp].entries| && ChildOk(s, info, pp, i)
    requires s[pp].parent != p
    requires pp in t && SplitInto(s, info, lim, p, q, pp, t)
    requires t[pp] == s[pp].(entries := InsertedAt(s[pp].entries, i + 1, Entry(SplitKey(s[p], lim), q)))
    ensures NodeOk(t, SplitInfo(info, p, SplitKey(s[p], lim), q), root, lim, pp, pp)
  {
    forall c | c in info && c != p && s[c].parent == pp
      ensures c in t && t[c].parent == pp
    {
      assert NodeOk(s, info, root, lim, p, c);
      ParentNotChild(s, info, root, lim, p, pp);
      if c == pp {
        var _, _ := ParentPosition(s, info, root, lim, p, c);
        assert false;
      }
    }
    ParentOfSplitOk(s, info, root, lim, p, q, pp, i, t);
    assert NodeOk(s, info, root, lim, p, pp);
    if pp != root {
      var g, _ := ParentPosition(s, info, root, lim, p, pp);
      assert NodeOk(s, info, root, lim, p, g);
      assert g != p;
      if s[g].parent == p {
        // g would be a child of p, two levels above p
        var _, _ := ParentPosition(s, info, root, lim, p, g);
        assert false;
      }
      assert t[g] == s[g];
    }
  }

  /** The split of a page other than the root, together with the link in its parent, keeps the
      tree; now the parent may be the page with one entry too many. */
  lemma SplitKeepsTree(s: Store, info: map<PageId, Info>, root: PageId, lim: Limits, p: PageId, q: PageId, t: Store)
    requires Overfull(s, info, root, lim, p, q) && p != root
    requires SplitInto(s, info, lim, p, q, s[p].parent, t)
    requires s[p].parent in s && s[p].parent in t
    requires LinkedInto(s[s[p].parent], p, SplitKey(s[p], lim), q, t[s[p].parent])
    ensures s[p].parent in info && s[p].parent != p
    ensures var info' := SplitInfo(info, p, SplitKey(s[p], lim), q);
            && TreeExcept(t, info', root, lim, s[p].parent)
            && Outside(s, info, {p, q, s[p].parent}, t, info')
  {
    var pp, i := ParentPosition(s, info, root, lim, p, p);
    ParentNotChild(s, info, root, lim, p, pp);
    var k := SplitKey(s[p], lim);
    var info' := SplitInfo(info, p, k, q);
    assert Inside(0);
    forall d | HasChild(s[pp], d)
      ensures HasChild(t[pp], d)
    {
      HasChildInserted(s[pp], i + 1, Entry(k, q), d);
    }
    SplitOutside(s, info, root, lim, p, q, pp, t, info');
    forall c | c in info'
      ensures NodeOk(t, info', root, lim, pp, c)
    {
      if c == p || c == q {
        NearSplitOk(s, info, root, lim, p, q, pp, i, t, c);
      } else if c == pp {
        ParentAfterSplitOk(s, info, root, lim, p, q, pp, i, t);
      } else {
        assert NodeOk(s, info, root, lim, p, pp) && NodeOk(s, info, root, lim, p, c);
        OutsiderOk(s, info, root, lim, p, {p, q, pp}, t, info', root, pp, c);
      }
    }
    AllNodesOk(t, info', root, lim, pp);
  }

  // ------------------------------------------------------------------ a new root

  lemma HalvesUnderNewRoot(s: Store, info: map<PageId, Info>, root: PageId, lim: Limits, p: PageId, q: PageId,
                           r: PageId, t: Store, f: Info, c: PageId)
    requires Overfull(s, info, root, lim, p, q) && p == root
    requires r !in s && r !in info && r != q && r in t
    requires SplitInto(s, info, lim, p, q, r, t)
    requires !t[r].leaf && HasChild(t[r], c) && f.level == info[p].level + 1
    requires c == p || c == q
    ensures NodeOk(t, SplitInfo(info, p, SplitKey(s[p], lim), q)[r := f], r, lim, INVALID_PAGE_ID, c)
  {
    HalvesOk(s, info, root, lim, p, q, r, t, c);
    assert NodeOk(s, info, root, lim, p, p);
    var info' := SplitInfo(info, p, SplitKey(s[p], lim), q);
    var grown := info'[r := f];
    if !t[c].leaf {
      forall i | 0 <= i < |t[c].entries|
        ensures ChildOk(t, grown, c, i)
      {
        assert ChildOk(t, info', c, i);
      }
    }
  }

  function RootInfo(info: map<PageId, Info>, p: PageId): Info
    requires p in info
  {
    Info(info[p].level + 1, Inf, Inf)
  }

  /** A split of the root with a new root r above the halves keeps the tree and makes it one level
      higher.  The key of entry 0 of the new root is whatever the page contained. */
  lemma RootSplitKeepsTree(s: Store, info: map<PageId, Info>, root: PageId, lim: Limits, p: PageId, q: PageId,
                           r: PageId, junk: int, t: Store)
    requires Overfull(s, info, root, lim, p, q) && p == root
    requires r !in s && r !in info && r != q && r != INVALID_PAGE_ID
    requires SplitInto(s, info, lim, p, q, r, t)
    requires r in t
    requires t[r] == Node(false, INVALID_PAGE_ID, INVALID_PAGE_ID,
                          [Entry(junk, p), Entry(SplitKey(s[p], lim), q)])
    ensures var info' := SplitInfo(info, p, SplitKey(s[p], lim), q)[r := RootInfo(info, p)];
            && TreeExcept(t, info', r, lim, INVALID_PAGE_ID)
            && Outside(s, info, {p, q, r}, t, info')
  {
    var f := RootInfo(info, p);
    var info' := SplitInfo(info, p, SplitKey(s[p], lim), q);
    var grown := info'[r := f];
    assert NodeOk(s, info, root, lim, p, p);
    assert t[r].entries[0].value == p && t[r].entries[1].value == q;
    SplitOutside(s, info, root, lim, p, q, r, t, grown);
    forall c | c in grown
      ensures NodeOk(t, grown, r, lim, INVALID_PAGE_ID, c)
    {
      if c == r {
        assert ChildOk(t, grown, r, 0) && ChildOk(t, grown, r, 1);
      } else if c == p || c == q {
        HalvesUnderNewRoot(s, info, root, lim, p, q, r, t, f, c);
      } else {
        assert NodeOk(s, info, root, lim, p, c);
        OutsiderOk(s, info, root, lim, p, {p, q, r}, t, grown, r, INVALID_PAGE_ID, c);
      }
    }
    AllNodesOk(t, grown, r, lim, INVALID_PAGE_ID);
  }

  // ------------------------------------------------------------------ contents across a split

  /** A split moves entries between leaves and loses none. */
  lemma SplitKeepsContents(s: Store, info: map<PageId, Info>, root: PageId, lim: Limits, p: PageId, q: PageId,
                           pp: PageId, t: Store, info': map<PageId, Info>, m: map<int, int>)
    requires Overfull(s, info, root, lim, p, q) && Holds(s, info, m)
    requires SplitInto(s, info, lim, p, q, pp, t) && Outside(s, info, {p, q, pp}, t, info')
    requires pp in t && !t[pp].leaf && pp != p && pp != q
    requires p in info' && info'.Keys == info.Keys + {q, pp}
    requires var k := SplitKey(s[p], lim);
             info'[p] == Info(info[p].level, info[p].lo, Fin(k)) && info'[q] == Info(info[p].level, Fin(k), info[p].hi)
    ensures Holds(t, info', m)
  {
    var n := s[p];
    assert NodeOk(s, info, root, lim, p, p);
    if n.leaf {
      assert LeafHolds(n, info[p], m);
      CutHolds(n, info[p], lim.MinSize(n.leaf), t[p], t[q], m);
    }
    forall c | c in info'
      ensures c in t
    {
      if c !in {p, q, pp} {
        assert Kept(s, info, {p, q, pp}, t, info', c);
      }
    }
    OutsiderHolds(s, info, root, lim, p, {p, q, pp}, t, info', m);
  }

  // ------------------------------------------------------------------ one level of the cascade

  /** Where the separator of a split page other than the root goes. */
  lemma LinkSite(s: Store, info: map<PageId, Info>, root: PageId, lim: Limits, p: PageId, q: PageId, t: Store)
    requires Overfull(s, info, root, lim, p, q) && HalfSplit(s, lim, p, q, t)
    requires s[p].parent != INVALID_PAGE_ID
    ensures var pp := s[p].parent;
            && p != root && pp in info && pp in t && pp != p && pp != q && t[pp] == s[pp] && !t[pp].leaf
            && (if pp == root then 2 else lim.MinSize(false)) <= |t[pp].entries| <= lim.MaxSize(false)
  {
    assert NodeOk(s, info, root, lim, p, p);
    ParentNotChild(s, info, root, lim, p, s[p].parent);
    var _, _ := ParentPosition(s, info, root, lim, p, p);
    assert NodeOk(s, info, root, lim, p, s[p].parent);
  }

  /** Pages p and q with pp as their parent. */
  function Reparented(s: Store, p: PageId, q: PageId, pp: PageId): Store
    requires p in s && q in s && p != q
  {
    s[p := s[p].(parent := pp)][q := s[q].(parent := pp)]
  }

  /** u is t with the separator and q in the parent of p, which makes it n, and with both parent ids
      in place. */
  ghost predicate Linked(s: Store, lim: Limits, p: PageId, q: PageId, t: Store, n: Node, u: Store)
    requires p in s && |s[p].entries| > lim.MinSize(s[p].leaf) >= 0
  {
    var pp := s[p].parent;
    && p in t && q in t && pp in t && p != q
    && LinkedInto(t[pp], p, SplitKey(s[p], lim), q, n)
    && u == Reparented(t[pp := n], p, q, pp)
  }

  lemma LinkedSplits(s: Store, info: map<PageId, Info>, root: PageId, lim: Limits, p: PageId, q: PageId,
                     t: Store, n: Node, u: Store)
    requires Overfull(s, info, root, lim, p, q) && HalfSplit(s, lim, p, q, t)
    requires s[p].parent != INVALID_PAGE_ID && Linked(s, lim, p, q, t, n, u)
    ensures var pp := s[p].parent;
            && p != root && pp in s && pp in u && pp in info && pp != p && pp != q
            && SplitInto(s, info, lim, p, q, pp, u)
  {
    var pp := s[p].parent;
    LinkSite(s, info, root, lim, p, q, t);
    ParentNotChild(s, info, root, lim, p, pp);
    HalfSplitLinked(s, info, root, lim, p, q, t, pp, u);
  }

  /** The parent is as it was but for the new entry. */
  lemma LinkedParent(s: Store, info: map<PageId, Info>, root: PageId, lim: Limits, p: PageId, q: PageId,
                     t: Store, n: Node, u: Store)
    requires Overfull(s, info, root, lim, p, q) && HalfSplit(s, lim, p, q, t)
    requires s[p].parent != INVALID_PAGE_ID && Linked(s, lim, p, q, t, n, u)
    requires s[p].parent in s && s[p].parent in u && s[p].parent in info
    ensures LinkedInto(s[s[p].parent], p, SplitKey(s[p], lim), q, u[s[p].parent]) && u[s[p].parent] == n && !n.leaf
  {
    LinkSite(s, info, root, lim, p, q, t);
    ParentNotChild(s, info, root, lim, p, s[p].parent);
  }

  lemma LinkedKeys(s: Store, lim: Limits, p: PageId, q: PageId, t: Store, n: Node, u: Store)
    requires p in s && |s[p].entries| > lim.MinSize(s[p].leaf) >= 0 && Linked(s, lim, p, q, t, n, u)
    ensures u.Keys == t.Keys
  {
  }

  lemma SplitAndLinked(s: Store, info: map<PageId, Info>, root: PageId, lim: Limits, p: PageId, q: PageId,
                       pp: PageId, u: Store, m: map<int, int>) returns (info': map<PageId, Info>)
    requires Overfull(s, info, root, lim, p, q) && Holds(s, info, m) && p != root
    requires pp == s[p].parent && pp in s && pp in info && pp in u && pp != p && pp != q && !u[pp].leaf
    requires SplitInto(s, info, lim, p, q, pp, u) && LinkedInto(s[pp], p, SplitKey(s[p], lim), q, u[pp])
    ensures TreeExcept(u, info', root, lim, pp) && Holds(u, info', m)
    ensures info'.Keys == info.Keys + {q} && root in info && info'[root].level == info[root].level
    ensures info'[pp].level == info[pp].level && forall c :: c in info ==> info'[c].level == info[c].level
  {
    SplitKeepsTree(s, info, root, lim, p, q, u);
    info' := SplitInfo(info, p, SplitKey(s[p], lim), q);
    SplitKeepsContents(s, info, root, lim, p, q, pp, u, info', m);
  }

  /** With the separator and the parent ids in place the tree is whole again but for the parent,
      which may now be too long. */
  lemma LinkedTree(s: Store, info: map<PageId, Info>, root: PageId, lim: Limits, p: PageId, q: PageId,
                   t: Store, n: Node, u: Store, m: map<int, int>) returns (info': map<PageId, Info>)
    requires Overfull(s, info, root, lim, p, q) && HalfSplit(s, lim, p, q, t) && Holds(s, info, m)
    requires s[p].parent != INVALID_PAGE_ID && Linked(s, lim, p, q, t, n, u)
    ensures var pp := s[p].parent;
            && TreeExcept(u, info', root, lim, pp) && Holds(u, info', m)
            && info'.Keys == info.Keys + {q} && pp in info && pp in u
            && info'[root].level == info[root].level && info'[pp].level == info[p].level + 1
            && u[pp] == n && !n.leaf
            && (if pp == root then 2 else lim.MinSize(false)) < |n.entries| <= lim.MaxSize(false) + 1
    ensures forall c :: c in info ==> info'[c].level == info[c].level
  {
    LinkedSplits(s, info, root, lim, p, q, t, n, u);
    LinkedParent(s, info, root, lim, p, q, t, n, u);
    LinkSite(s, info, root, lim, p, q, t);
    var _, _ := ParentPosition(s, info, root, lim, p, p);
    info' := SplitAndLinked(s, info, root, lim, p, q, s[p].parent, u, m);
  }

  /** With a new root above both halves the tree is whole. */
  lemma GrownTree(s: Store, info: map<PageId, Info>, root: PageId, lim: Limits, p: PageId, q: PageId, r: PageId,
                  t: Store, u: Store, m: map<int, int>) returns (info': map<PageId, Info>)
    requires Overfull(s, info, root, lim, p, q) && HalfSplit(s, lim, p, q, t) && Holds(s, info, m)
    requires s[p].parent == INVALID_PAGE_ID && r !in t && r !in info && r != INVALID_PAGE_ID
    requires exists junk: int :: RootAdded(t, p, SplitKey(s[p], lim), q, r, junk, u)
    ensures TreeExcept(u, info', r, lim, INVALID_PAGE_ID) && Holds(u, info', m)
    ensures info'.Keys == info.Keys + {q, r} && q !in info && q != r
  {
    assert NodeOk(s, info, root, lim, p, p);
    assert p == root;
    var junk: int :| RootAdded(t, p, SplitKey(s[p], lim), q, r, junk, u);
    HalfSplitLinked(s, info, root, lim, p, q, t, r, u);
    RootSplitKeepsTree(s, info, root, lim, p, q, r, junk, u);
    info' := SplitInfo(info, p, SplitKey(s[p], lim), q)[r := RootInfo(info, p)];
    SplitKeepsContents(s, info, root, lim, p, q, r, u, info', m);
  }

  function RootNode(junk: int, p: PageId, k: int, q: PageId): Node {
    Node(false, INVALID_PAGE_ID, INVALID_PAGE_ID, [Entry(junk, p), Entry(k, q)])
  }

  predicate RootAdded(t: Store, p: PageId, k: int, q: PageId, r: PageId, junk: int, u: Store) {
    && p in t && q in t && p != q
    && u == Reparented(t[r := RootNode(junk, p, k, q)], p, q, r)
  }
}
