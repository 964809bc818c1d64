/** The pages of one B+ tree as values, and what it means for them to form a tree.

    A store maps page ids to nodes.  The shape of the tree is described page by page: every live
    page carries its level (0 for leaves) and the half-open key range [lo, hi) it is responsible
    for, and each page is checked only against its own children, its parent and its right
    neighbour.  TreeReading shows that these local conditions amount to one balanced search tree
    whose leaves are chained in key order. */
module TreeStore {
  import opened Common

  datatype Entry = Entry(key: int, value: int)

  /** What a page holds.  In an internal node the value of an entry is a page id and the key of
      entry 0 is never looked at. */
  datatype Node = Node(leaf: bool, parent: PageId, next: PageId, entries: seq<Entry>)

  type Store = map<PageId, Node>

  /** An end of a key range: Inf is minus infinity for a lower end, plus infinity for an upper. */
  datatype Bound = Inf | Fin(k: int)

  datatype Info = Info(level: nat, lo: Bound, hi: Bound)

  datatype Limits = Limits(leafMax: int, internalMax: int) {
    predicate Valid() {
      leafMax >= 2 && internalMax >= 4
    }

    function MaxSize(leaf: bool): int {
      if leaf then leafMax else internalMax
    }

    function MinSize(leaf: bool): int {
      MaxSize(leaf) / 2
    }
  }

  predicate AtOrAbove(lo: Bound, k: int) {
    lo.Inf? || lo.k <= k
  }

  predicate Below(k: int, hi: Bound) {
    hi.Inf? || k < hi.k
  }

  predicate InRange(f: Info, k: int) {
    AtOrAbove(f.lo, k) && Below(k, f.hi)
  }

  predicate SortedFrom(es: seq<Entry>, first: nat) {
    forall i, j :: first <= i < j < |es| ==> es[i].key < es[j].key
  }

  /** Level, order and range of one node on its own. */
  predicate Shape(n: Node, f: Info) {
    && (n.leaf <==> f.level == 0)
    && (f.lo.Fin? && f.hi.Fin? ==> f.lo.k < f.hi.k)
    && (n.leaf ==>
          && SortedFrom(n.entries, 0)
          && forall i :: 0 <= i < |n.entries| ==> InRange(f, n.entries[i].key))
    && (!n.leaf ==>
          && SortedFrom(n.entries, 1)
          && forall i :: 1 <= i < |n.entries| ==>
               InRange(f, n.entries[i].key) && f.lo != Fin(n.entries[i].key))
  }

  /** The level and range a node with range f gives to its i-th child: K(i) <= key < K(i+1). */
  function ChildInfo(n: Node, f: Info, i: int): Info
    requires 0 <= i < |n.entries|
    requires f.level > 0
  {
    Info(f.level - 1,
         if i == 0 then f.lo else Fin(n.entries[i].key),
         if i + 1 < |n.entries| then Fin(n.entries[i + 1].key) else f.hi)
  }

  predicate ChildOk(s: Store, info: map<PageId, Info>, p: PageId, i: int)
    requires p in s && p in info && info[p].level > 0
    requires 0 <= i < |s[p].entries|
  {
    var c := s[p].entries[i].value;
    c in s && c in info && s[c].parent == p && info[c] == ChildInfo(s[p], info[p], i)
  }

  predicate ChildrenOk(s: Store, info: map<PageId, Info>, p: PageId)
    requires p in s && p in info && info[p].level > 0
  {
    forall i :: 0 <= i < |s[p].entries| ==> ChildOk(s, info, p, i)
  }

  predicate HasChild(n: Node, c: PageId) {
    exists i :: 0 <= i < |n.entries| && n.entries[i].value == c
  }

  /** The stored parent id is the page that really points here; only the root has none. */
  predicate ParentOk(s: Store, info: map<PageId, Info>, root: PageId, p: PageId)
    requires p in s && p in info && root in info
  {
    if p == root then
      s[p].parent == INVALID_PAGE_ID && info[p].lo.Inf? && info[p].hi.Inf?
    else
      var q := s[p].parent;
      && q in info && q in s && !s[q].leaf && HasChild(s[q], p)
      && info[p].level < info[root].level
  }

  /** The next-page link of a leaf leads to the leaf whose range starts where this one ends. */
  predicate ChainOk(s: Store, info: map<PageId, Info>, p: PageId)
    requires p in s && p in info
  {
    s[p].leaf ==>
      if info[p].hi.Inf? then s[p].next == INVALID_PAGE_ID
      else
        var q := s[p].next;
        q in info && q in s && s[q].leaf && info[q].lo == info[p].hi
  }

  /** Sizes.  The page x, if there is one, may be one entry too long or one too short. */
  predicate SizeOk(n: Node, lim: Limits, isRoot: bool, slack: bool) {
    var least := if !isRoot then lim.MinSize(n.leaf) else if n.leaf then 1 else 2;
    if slack then least - 1 <= |n.entries| <= lim.MaxSize(n.leaf) + 1
    else least <= |n.entries| <= lim.MaxSize(n.leaf)
  }

  predicate NodeOk(s: Store, info: map<PageId, Info>, root: PageId, lim: Limits, x: PageId, p: PageId)
    requires p in info && root in info
  {
    && p in s && p != INVALID_PAGE_ID
    && Shape(s[p], info[p])
    && (!s[p].leaf ==> ChildrenOk(s, info, p))
    && ParentOk(s, info, root, p)
    && ChainOk(s, info, p)
    && SizeOk(s[p], lim, p == root, p == x)
  }

  /** The live pages info.Keys form a tree with the given root, sizes being relaxed at x only. */
  predicate TreeExcept(s: Store, info: map<PageId, Info>, root: PageId, lim: Limits, x: PageId) {
    && lim.Valid()
    && root in info && info.Keys <= s.Keys && INVALID_PAGE_ID !in info
    && (forall p :: p in info ==> (s[p].leaf <==> info[p].level == 0))
    && forall p {:trigger NodeOk(s, info, root, lim, x, p)} :: p in info ==> NodeOk(s, info, root, lim, x, p)
  }

  /** A whole tree; an empty one has no pages and an invalid root id. */
  predicate WellFormed(s: Store, info: map<PageId, Info>, root: PageId, lim: Limits) {
    && lim.Valid()
    && if root == INVALID_PAGE_ID then info == map[]
       else TreeExcept(s, info, root, lim, INVALID_PAGE_ID)
  }

  predicate HasKey(n: Node, k: int) {
    exists i :: 0 <= i < |n.entries| && n.entries[i].key == k
  }

  /** The entries of leaf p are exactly the part of the abstract map m that lies in its range. */
  predicate LeafHolds(n: Node, f: Info, m: map<int, int>) {
    && (forall i :: 0 <= i < |n.entries| ==>
          n.entries[i].key in m && m[n.entries[i].key] == n.entries[i].value)
    && (forall k :: k in m && InRange(f, k) ==> HasKey(n, k))
  }

  /** The leaves together hold exactly the abstract map m. */
  predicate Holds(s: Store, info: map<PageId, Info>, m: map<int, int>) {
    && (forall p :: p in info ==> p in s)
    && (forall p {:trigger LeafHolds(s[p], info[p], m)} :: p in info && s[p].leaf ==> LeafHolds(s[p], info[p], m))
    && (info == map[] ==> m == map[])
  }

  // ---------------------------------------------------------------- consequences

  lemma AllNodesOk(s: Store, info: map<PageId, Info>, root: PageId, lim: Limits, x: PageId)
    requires lim.Valid() && root in info
    requires forall p :: p in info ==> NodeOk(s, info, root, lim, x, p)
    ensures TreeExcept(s, info, root, lim, x)
  {
    assert forall p :: p in info ==> p in s && p != INVALID_PAGE_ID && (s[p].leaf <==> info[p].level == 0) by {
      forall p | p in info
        ensures p in s && p != INVALID_PAGE_ID && (s[p].leaf <==> info[p].level == 0)
      {
        assert NodeOk(s, info, root, lim, x, p);
      }
    }
    assert forall p :: p in info.Keys ==> p in s.Keys;
  }

  /** The position of page c among the children of n, or -1. */
  function ValueIndex(n: Node, c: PageId): (i: int)
    ensures -1 <= i < |n.entries|
    ensures i >= 0 ==> n.entries[i].value == c
    ensures i < 0 ==> !HasChild(n, c)
    ensures forall j :: 0 <= j < |n.entries| && n.entries[j].value == c ==> 0 <= i <= j
  {
    ValueIndexFrom(n.entries, c, 0)
  }

  function ValueIndexFrom(es: seq<Entry>, c: PageId, from: nat): (i: int)
    requires from <= |es|
    ensures i == -1 || from <= i < |es|
    ensures i >= 0 ==> es[i].value == c
    ensures forall j :: from <= j < |es| && es[j].value == c ==> 0 <= i <= j
    decreases |es| - from
  {
    if from == |es| then -1
    else if es[from].value == c then from
    else ValueIndexFrom(es, c, from + 1)
  }

  /** Is p the first child of its parent? */
  predicate FirstChild(s: Store, p: PageId) {
    p in s && s[p].parent in s && ValueIndex(s[s[p].parent], p) == 0
  }

  /** No page is the child of two entries: ranges that start at the same key are the same. */
  lemma ChildIndexUnique(s: Store, info: map<PageId, Info>, root: PageId, lim: Limits, x: PageId,
                         p: PageId, i: int, j: int)
    requires TreeExcept(s, info, root, lim, x)
    requires p in info && !s[p].leaf
    requires 0 <= i < |s[p].entries| && 0 <= j < |s[p].entries|
    requires s[p].entries[i].value == s[p].entries[j].value
    ensures i == j
  {
    assert NodeOk(s, info, root, lim, x, p);
    assert ChildOk(s, info, p, i) && ChildOk(s, info, p, j);
  }

  /** The parent of a page other than the root is one level up and points to it at one position. */
  lemma ParentPosition(s: Store, info: map<PageId, Info>, root: PageId, lim: Limits, x: PageId, p: PageId)
    returns (q: PageId, i: int)
    requires TreeExcept(s, info, root, lim, x)
    requires p in info && p != root
    ensures q == s[p].parent && q in info && !s[q].leaf && q != p
    ensures i == ValueIndex(s[q], p) && 0 <= i < |s[q].entries|
    ensures s[q].entries[i].value == p && ChildOk(s, info, q, i)
    ensures info[q].level == info[p].level + 1
  {
    assert NodeOk(s, info, root, lim, x, p);
    q := s[p].parent;
    assert NodeOk(s, info, root, lim, x, q);
    i := ValueIndex(s[q], p);
    assert ChildOk(s, info, q, i);
  }

  /** On one level a key belongs to the range of at most one page. */
  lemma {:induction false} RangesDisjoint(s: Store, info: map<PageId, Info>, root: PageId, lim: Limits, x: PageId,
                                          p: PageId, q: PageId, k: int)
    requires TreeExcept(s, info, root, lim, x)
    requires p in info && q in info && info[p].level == info[q].level
    requires InRange(info[p], k) && InRange(info[q], k)
    ensures p == q
    decreases info[root].level - info[p].level
  {
    assert NodeOk(s, info, root, lim, x, p) && NodeOk(s, info, root, lim, x, q);
    if p != root && q != root {
      var pp, i := ParentPosition(s, info, root, lim, x, p);
      var qq, j := ParentPosition(s, info, root, lim, x, q);
      ChildRangeInside(s, info, root, lim, x, pp, i, k);
      ChildRangeInside(s, info, root, lim, x, qq, j, k);
      LevelAtMostRoot(s, info, root, lim, x, pp);
      RangesDisjoint(s, info, root, lim, x, pp, qq, k);
      assert NodeOk(s, info, root, lim, x, pp);
    }
  }

  lemma LevelAtMostRoot(s: Store, info: map<PageId, Info>, root: PageId, lim: Limits, x: PageId, p: PageId)
    requires TreeExcept(s, info, root, lim, x)
    requires p in info
    ensures info[p].level <= info[root].level
    ensures info[p].level == info[root].level ==> p == root
  {
    assert NodeOk(s, info, root, lim, x, p);
  }

  lemma ChildRangeInside(s: Store, info: map<PageId, Info>, root: PageId, lim: Limits, x: PageId,
                         p: PageId, i: int, k: int)
    requires TreeExcept(s, info, root, lim, x)
    requires p in info && !s[p].leaf && 0 <= i < |s[p].entries|
    requires InRange(ChildInfo(s[p], info[p], i), k)
    ensures InRange(info[p], k)
  {
    assert NodeOk(s, info, root, lim, x, p);
  }

  // ---------------------------------------------------------------- changing one leaf

  /** New entries in one leaf, sorted and in its range, leave the tree intact. */
  lemma LeafReplacedTree(s: Store, info: map<PageId, Info>, root: PageId, lim: Limits, p: PageId, n: Node)
    requires TreeExcept(s, info, root, lim, INVALID_PAGE_ID)
    requires p in info && s[p].leaf && n.leaf && n.parent == s[p].parent && n.next == s[p].next
    requires Shape(n, info[p]) && SizeOk(n, lim, p == root, true)
    ensures TreeExcept(s[p := n], info, root, lim, p)
  {
    var s' := s[p := n];
    forall c | c in info
      ensures NodeOk(s', info, root, lim, p, c)
    {
      assert NodeOk(s, info, root, lim, INVALID_PAGE_ID, c);
      if !s[c].leaf {
        forall i | 0 <= i < |s'[c].entries|
          ensures ChildOk(s', info, c, i)
        {
          assert ChildOk(s, info, c, i);
        }
      }
    }
  }

  /** If the old contents m and the new contents m' differ only at a key of the range of leaf p,
      the other leaves still hold their part. */
  lemma LeafReplacedHolds(s: Store, info: map<PageId, Info>, root: PageId, lim: Limits, p: PageId, n: Node,
                          k: int, m: map<int, int>, m': map<int, int>)
    requires TreeExcept(s, info, root, lim, INVALID_PAGE_ID) && Holds(s, info, m)
    requires p in info && s[p].leaf && n.leaf && InRange(info[p], k)
    requires forall h :: h != k ==> (h in m <==> h in m') && (h in m ==> m[h] == m'[h])
    requires LeafHolds(n, info[p], m')
    ensures Holds(s[p := n], info, m')
  {
    forall c | c in info && s[c].leaf && c != p
      ensures LeafHolds(s[c], info[c], m')
    {
      assert LeafHolds(s[c], info[c], m);
      assert NodeOk(s, info, root, lim, INVALID_PAGE_ID, c) && NodeOk(s, info, root, lim, INVALID_PAGE_ID, p);
      if InRange(info[c], k) {
        RangesDisjoint(s, info, root, lim, INVALID_PAGE_ID, c, p, k);
      }
    }
  }

  // ---------------------------------------------------------------- cutting a node in two

  /** Cut at any place but the very front, both parts are well shaped for the two parts of the
      range; the key at the cut is the separator. */
  lemma CutShape(n: Node, f: Info, c: int, left: Node, right: Node)
    requires Shape(n, f) && 1 <= c < |n.entries|
    requires left.leaf == n.leaf && left.entries == n.entries[..c]
    requires right.leaf == n.leaf && right.entries == n.entries[c..]
    ensures var k := n.entries[c].key;
            && InRange(f, k) && f.lo != Fin(k)
            && Shape(left, Info(f.level, f.lo, Fin(k)))
            && Shape(right, Info(f.level, Fin(k), f.hi))
  {
    CutSorted(n, c);
    assert n.leaf ==> InRange(f, n.entries[0].key) && n.entries[0].key < n.entries[c].key;
    assert InRange(f, n.entries[c].key);
    forall i | 0 <= i < c && (n.leaf || i > 0)
      ensures left.entries[i] == n.entries[i] && n.entries[i].key < n.entries[c].key
    {
    }
    forall i | 0 <= i < |right.entries|
      ensures right.entries[i] == n.entries[c + i]
      ensures i > 0 ==> n.entries[c].key < n.entries[c + i].key
    {
    }
  }

  lemma CutSorted(n: Node, c: int)
    requires SortedFrom(n.entries, if n.leaf then 0 else 1) && 1 <= c < |n.entries|
    ensures SortedFrom(n.entries[..c], if n.leaf then 0 else 1) && SortedFrom(n.entries[c..], 0)
  {
  }

  lemma CutHasKey(n: Node, c: int, left: Node, right: Node, k: int)
    requires SortedFrom(n.entries, 0) && 0 <= c < |n.entries| && HasKey(n, k)
    requires left.entries == n.entries[..c] && right.entries == n.entries[c..]
    ensures if k < n.entries[c].key then HasKey(left, k) else HasKey(right, k)
  {
    var i :| 0 <= i < |n.entries| && n.entries[i].key == k;
    if i < c {
      assert left.entries[i].key == k;
    } else {
      assert right.entries[i - c].key == k;
    }
  }

  /** A leaf cut in two holds what it held. */
  lemma CutHolds(n: Node, f: Info, c: int, left: Node, right: Node, m: map<int, int>)
    requires n.leaf && Shape(n, f) && 1 <= c < |n.entries|
    requires LeafHolds(n, f, m)
    requires left.entries == n.entries[..c] && right.entries == n.entries[c..]
    ensures LeafHolds(left, Info(f.level, f.lo, Fin(n.entries[c].key)), m)
    ensures LeafHolds(right, Info(f.level, Fin(n.entries[c].key), f.hi), m)
  {
    CutShape(n, f, c, left.(leaf := true), right.(leaf := true));
    var k := n.entries[c].key;
    forall h | h in m && InRange(f, h)
      ensures if h < k then HasKey(left, h) else HasKey(right, h)
    {
      CutHasKey(n, c, left, right, h);
    }
  }

  /** Adoption changes only the parent id. */
  predicate Moved(s: Store, t: Store, c: PageId, q: PageId) {
    c in s && c in t && t[c] == s[c].(parent := q)
  }

  // ---------------------------------------------------------------- ends of ranges

  /** Two pages of one level whose ranges start at the same key, or end at the same key, are one. */
  lemma RangeEndsUnique(s: Store, info: map<PageId, Info>, root: PageId, lim: Limits, x: PageId, p: PageId, q: PageId)
    requires TreeExcept(s, info, root, lim, x)
    requires p in info && q in info && info[p].level == info[q].level
    requires (info[p].lo.Fin? && info[p].lo == info[q].lo) || (info[p].hi.Fin? && info[p].hi == info[q].hi)
    ensures p == q
  {
    assert NodeOk(s, info, root, lim, x, p) && NodeOk(s, info, root, lim, x, q);
    if info[p].lo.Fin? && info[p].lo == info[q].lo {
      RangesDisjoint(s, info, root, lim, x, p, q, info[p].lo.k);
    } else {
      RangesDisjoint(s, info, root, lim, x, p, q, info[p].hi.k - 1);
    }
  }

  // ---------------------------------------------------------------- pages away from a change

  /** Page d, not itself touched by a change from (s, info) to (t, info'), keeps its entries, level
      and range; it may have changed hands among touched pages. */
  ghost predicate Kept(s: Store, info: map<PageId, Info>, touched: set<PageId>, t: Store, info': map<PageId, Info>,
                       d: PageId) {
    && d in s && d in info && d in t && d in info' && info'[d] == info[d]
    && t[d] == s[d].(parent := t[d].parent)
    && var q := t[d].parent;
    if s[d].parent !in touched then q == s[d].parent
    else q in touched && q in t && q in info' && !t[q].leaf && HasChild(t[q], d)
  }

  /** A touched page hanging from an untouched one keeps its place there. */
  ghost predicate Anchored(s: Store, info: map<PageId, Info>, touched: set<PageId>, t: Store, info': map<PageId, Info>,
                           d: PageId) {
    d in s && d in info && s[d].parent in info && s[d].parent !in touched ==>
      d in t && d in info' && info'[d] == info[d] && t[d].parent == s[d].parent
  }

  ghost predicate Outside(s: Store, info: map<PageId, Info>, touched: set<PageId>, t: Store, info': map<PageId, Info>) {
    && INVALID_PAGE_ID !in touched
    && (forall d {:trigger Kept(s, info, touched, t, info', d)} ::
          d in info && d !in touched ==> Kept(s, info, touched, t, info', d))
    && (forall d {:trigger Anchored(s, info, touched, t, info', d)} ::
          d in touched ==> Anchored(s, info, touched, t, info', d))
  }

  lemma OutsiderChildrenOk(s: Store, info: map<PageId, Info>, root: PageId, lim: Limits, x: PageId,
                           touched: set<PageId>, t: Store, info': map<PageId, Info>, d: PageId)
    requires TreeExcept(s, info, root, lim, x) && Outside(s, info, touched, t, info')
    requires d in info && d !in touched && !s[d].leaf
    ensures d in t && d in info' && info'[d].level > 0 && ChildrenOk(t, info', d)
  {
    assert NodeOk(s, info, root, lim, x, d) && Kept(s, info, touched, t, info', d);
    forall i | 0 <= i < |t[d].entries|
      ensures ChildOk(t, info', d, i)
    {
      assert ChildOk(s, info, d, i);
      var c := s[d].entries[i].value;
      if c in touched {
        assert Anchored(s, info, touched, t, info', c);
      } else {
        assert Kept(s, info, touched, t, info', c);
      }
    }
  }

  lemma OutsiderParentOk(s: Store, info: map<PageId, Info>, root: PageId, lim: Limits, x: PageId,
                         touched: set<PageId>, t: Store, info': map<PageId, Info>, root': PageId, d: PageId)
    requires TreeExcept(s, info, root, lim, x) && Outside(s, info, touched, t, info')
    requires d in info && d !in touched
    requires root' in info' && info[root].level <= info'[root'].level && (d == root <==> d == root')
    ensures d in t && d in info' && ParentOk(t, info', root', d)
  {
    assert NodeOk(s, info, root, lim, x, d) && Kept(s, info, touched, t, info', d);
    var q := s[d].parent;
    if d != root && q !in touched {
      assert Kept(s, info, touched, t, info', q);
    }
  }

  /** An untouched page is in order after the change, provided that the leaf it leads to, if
      touched, still starts at the same key. */
  lemma OutsiderOk(s: Store, info: map<PageId, Info>, root: PageId, lim: Limits, x: PageId,
                   touched: set<PageId>, t: Store, info': map<PageId, Info>, root': PageId, x': PageId, d: PageId)
    requires TreeExcept(s, info, root, lim, x) && Outside(s, info, touched, t, info')
    requires x in touched && d in info && d !in touched && d != x'
    requires root' in info' && info[root].level <= info'[root'].level && (d == root <==> d == root')
    requires d in s && s[d].leaf && !info[d].hi.Inf? && s[d].next in touched && s[d].next in info ==>
               var e := s[d].next;
               e in t && e in info' && t[e].leaf && info'[e].lo == info[e].lo
    ensures d in info' && NodeOk(t, info', root', lim, x', d)
  {
    OutsiderParentOk(s, info, root, lim, x, touched, t, info', root', d);
    assert NodeOk(s, info, root, lim, x, d) && Kept(s, info, touched, t, info', d);
    if !s[d].leaf {
      OutsiderChildrenOk(s, info, root, lim, x, touched, t, info', d);
    } else if !info[d].hi.Inf? && s[d].next !in touched {
      assert Kept(s, info, touched, t, info', s[d].next);
    }
  }

  lemma OutsiderHolds(s: Store, info: map<PageId, Info>, root: PageId, lim: Limits, x: PageId,
                      touched: set<PageId>, t: Store, info': map<PageId, Info>, m: map<int, int>)
    requires TreeExcept(s, info, root, lim, x) && Outside(s, info, touched, t, info')
    requires Holds(s, info, m) && info' != map[]
    requires forall d :: d in info' ==>
               d in t && (d in touched || d !in info ==> t[d].leaf ==> LeafHolds(t[d], info'[d], m))
    ensures Holds(t, info', m)
  {
    forall d | d in info' && t[d].leaf
      ensures LeafHolds(t[d], info'[d], m)
    {
      if d in info && d !in touched {
        assert Kept(s, info, touched, t, info', d);
        assert LeafHolds(s[d], info[d], m);
      }
    }
  }

  // ---------------------------------------------------------------- children and parent ids

  /** The pages named by an internal page are exactly those that store it as their parent. */
  lemma ChildrenNamed(s: Store, info: map<PageId, Info>, root: PageId, lim: Limits, x: PageId, p: PageId, c: PageId)
    requires TreeExcept(s, info, root, lim, x)
    requires p in info && !s[p].leaf && c in info
    ensures HasChild(s[p], c) <==> s[c].parent == p
    ensures s[c].parent == p ==> c != p && c != root && info[c].level < info[p].level
  {
    assert NodeOk(s, info, root, lim, x, p) && NodeOk(s, info, root, lim, x, c);
    if HasChild(s[p], c) {
      var i :| 0 <= i < |s[p].entries| && s[p].entries[i].value == c;
      assert ChildOk(s, info, p, i);
    }
    if s[c].parent == p && c != root {
      var _, _ := ParentPosition(s, info, root, lim, x, c);
    }
  }

  predicate Names(es: seq<Entry>, c: PageId) {
    exists i :: 0 <= i < |es| && es[i].value == c
  }

  /** The page c once the pages named in es have been adopted by q. */
  function AdoptedNode(s: Store, es: seq<Entry>, q: PageId, c: PageId): Node
    requires c in s
  {
    if Names(es, c) then s[c].(parent := q) else s[c]
  }

  /** The children of page p are there, are different, are not p, and name p as their parent. */
  predicate Family(s: Store, p: PageId) {
    && p in s
    && (forall i :: 0 <= i < |s[p].entries| ==> ChildOf(s, s[p].entries[i].value, p))
    && (forall i, j :: 0 <= i < j < |s[p].entries| ==> s[p].entries[i].value != s[p].entries[j].value)
  }

  predicate ChildOf(s: Store, c: PageId, p: PageId) {
    c in s && s[c].parent == p && c != p
  }

  lemma FamilyOk(s: Store, info: map<PageId, Info>, root: PageId, lim: Limits, x: PageId, p: PageId)
    requires TreeExcept(s, info, root, lim, x)
    requires p in info && !s[p].leaf
    ensures Family(s, p)
    ensures forall i :: 0 <= i < |s[p].entries| ==> s[p].entries[i].value in info
  {
    assert NodeOk(s, info, root, lim, x, p);
    forall i | 0 <= i < |s[p].entries|
      ensures ChildOf(s, s[p].entries[i].value, p) && s[p].entries[i].value in info
    {
      assert ChildOk(s, info, p, i);
    }
    forall i, j | 0 <= i < j < |s[p].entries|
      ensures s[p].entries[i].value != s[p].entries[j].value
    {
      if s[p].entries[i].value == s[p].entries[j].value {
        ChildIndexUnique(s, info, root, lim, x, p, i, j);
      }
    }
  }

  /** A page that is neither too long nor too short needs no allowance. */
  lemma NoAllowance(s: Store, info: map<PageId, Info>, root: PageId, lim: Limits, x: PageId)
    requires TreeExcept(s, info, root, lim, x)
    requires x in info ==> SizeOk(s[x], lim, x == root, false)
    ensures TreeExcept(s, info, root, lim, INVALID_PAGE_ID)
  {
    forall p | p in info
      ensures NodeOk(s, info, root, lim, INVALID_PAGE_ID, p)
    {
      assert NodeOk(s, info, root, lim, x, p);
    }
    AllNodesOk(s, info, root, lim, INVALID_PAGE_ID);
  }

  /** Pages that are not live do not matter. */
  lemma GarbageIgnored(s: Store, info: map<PageId, Info>, root: PageId, lim: Limits, t: Store, m: map<int, int>)
    requires WellFormed(s, info, root, lim) && Holds(s, info, m)
    requires forall p :: p in info ==> p in t && t[p] == s[p]
    ensures WellFormed(t, info, root, lim) && Holds(t, info, m)
  {
    if root != INVALID_PAGE_ID {
      forall p | p in info
        ensures NodeOk(t, info, root, lim, INVALID_PAGE_ID, p)
      {
        assert NodeOk(s, info, root, lim, INVALID_PAGE_ID, p);
        if !t[p].leaf {
          forall i | 0 <= i < |t[p].entries|
            ensures ChildOk(t, info, p, i)
          {
            assert ChildOk(s, info, p, i);
          }
        }
      }
      AllNodesOk(t, info, root, lim, INVALID_PAGE_ID);
    }
    forall p | p in info && t[p].leaf
      ensures LeafHolds(t[p], info[p], m)
    {
      assert LeafHolds(s[p], info[p], m);
    }
  }
}
