/** How many pages an insertion brings and how many a removal takes, by the sizes of the pages on the way
    from the leaf to the root. */
module TreeGrowth {
  import opened Common
  import opened TreeStore
  import TreeInsert
  import TreeRemove

  /** The parent id of p leads one or more levels up, towards the root. */
  predicate LeadsUp(s: Store, info: map<PageId, Info>, root: PageId, p: PageId) {
    && p in s && p in info && root in info && s[p].parent in s && s[p].parent in info
    && info[p].level < info[s[p].parent].level <= info[root].level
  }

  function Distance(info: map<PageId, Info>, root: PageId, p: PageId): int {
    if p in info && root in info then info[root].level - info[p].level else 0
  }

  /** How many pages come above p when p is split: one more for each full page in an unbroken row of them,
      and a new root if they reach up to the root. */
  function ComeAbove(s: Store, info: map<PageId, Info>, root: PageId, lim: Limits, p: PageId): nat
    decreases Distance(info, root, p)
  {
    if p == root then 1
    else if !LeadsUp(s, info, root, p) then 0
    else
      var q := s[p].parent;
      if |s[q].entries| < lim.MaxSize(s[q].leaf) then 0 else 1 + ComeAbove(s, info, root, lim, q)
  }

  /** How many pages come with one entry more in p. */
  function Come(s: Store, info: map<PageId, Info>, root: PageId, lim: Limits, p: PageId): nat
    requires p in s
  {
    if |s[p].entries| < lim.MaxSize(s[p].leaf) then 0 else 1 + ComeAbove(s, info, root, lim, p)
  }

  /** The page that p is repaired with: its left neighbour, or its right one if it is a first child. */
  function Sibling(s: Store, p: PageId): PageId
    requires p in s && s[p].parent in s
  {
    var n := s[s[p].parent];
    var i := ValueIndex(n, p);
    var j := if i == 0 then 1 else i - 1;
    if 0 <= j < |n.entries| then n.entries[j].value else INVALID_PAGE_ID
  }

  /** How many pages go when p has come down to the given size: one if it and its sibling fit into one page,
      and then as many as go when their parent is left with one entry less; and a root that is left with
      just one child, or with nothing. */
  function Go(s: Store, info: map<PageId, Info>, root: PageId, lim: Limits, p: PageId, size: int): nat
    requires p in s
    decreases Distance(info, root, p)
  {
    if p == root then (if size == (if s[p].leaf then 0 else 1) then 1 else 0)
    else if size >= lim.MinSize(s[p].leaf) || !LeadsUp(s, info, root, p) then 0
    else if Sibling(s, p) !in info || Sibling(s, p) !in s then 0
    else if size + |s[Sibling(s, p)].entries| > lim.MaxSize(s[p].leaf) then 0
    else 1 + Go(s, info, root, lim, s[p].parent, |s[s[p].parent].entries| - 1)
  }

  /** From the level of p on, nothing has changed but the entries of p, and maybe its link.  Inside(0) opens
      this up. */
  ghost predicate SameBut(s: Store, info: map<PageId, Info>, s': Store, info': map<PageId, Info>, p: PageId)
  {
    && p in s && p in info && p in s' && p in info'
    && info'[p].level == info[p].level && s'[p].leaf == s[p].leaf && s'[p].parent == s[p].parent
    && forall i {:trigger Inside(i)} :: Inside(i) ==>
         forall c {:trigger info[c]} :: c in info && info[c].level >= info[p].level && c != p && c in s ==>
           c in s' && c in info' && s'[c] == s[c] && info'[c].level == info[c].level
  }

  /** The way up from page p. */
  lemma StepUp(s: Store, info: map<PageId, Info>, root: PageId, lim: Limits, x: PageId,
               s': Store, info': map<PageId, Info>, p: PageId)
    requires TreeExcept(s, info, root, lim, x) && p in info && p != root && SameBut(s, info, s', info', p)
    requires root in info' && info'[root].level == info[root].level
    ensures LeadsUp(s, info, root, p) && LeadsUp(s', info', root, p)
    ensures s'[s[p].parent] == s[s[p].parent] && SameBut(s, info, s', info', s[p].parent)
  {
    assert Inside(0);
    var q, _ := ParentPosition(s, info, root, lim, x, p);
    LevelAtMostRoot(s, info, root, lim, x, q);
    assert NodeOk(s, info, root, lim, x, q);
  }

  lemma {:induction false} ComeAboveSame(s: Store, info: map<PageId, Info>, root: PageId, lim: Limits, x: PageId,
                                         s': Store, info': map<PageId, Info>, p: PageId)
    requires TreeExcept(s, info, root, lim, x) && p in info && SameBut(s, info, s', info', p)
    requires root in info' && info'[root].level == info[root].level
    ensures ComeAbove(s', info', root, lim, p) == ComeAbove(s, info, root, lim, p)
    decreases Distance(info, root, p)
  {
    if p != root {
      StepUp(s, info, root, lim, x, s', info', p);
      ComeAboveSame(s, info, root, lim, x, s', info', s[p].parent);
    }
  }

  /** The entries of a leaf make no difference to what is above it, nor to its sibling. */
  lemma LeafSame(s: Store, info: map<PageId, Info>, root: PageId, lim: Limits, x: PageId, p: PageId, n: Node,
                 size: int)
    requires TreeExcept(s, info, root, lim, x) && p in info && p in s && n == s[p].(entries := n.entries)
    ensures ComeAbove(s[p := n], info, root, lim, p) == ComeAbove(s, info, root, lim, p)
    ensures Go(s[p := n], info, root, lim, p, size) == Go(s, info, root, lim, p, size)
  {
    ComeAboveSame(s, info, root, lim, x, s[p := n], info, p);
    GoSame(s, info, root, lim, x, s[p := n], info, p, size);
  }

  lemma SiblingBeside(s: Store, info: map<PageId, Info>, root: PageId, lim: Limits, x: PageId, p: PageId)
    requires TreeExcept(s, info, root, lim, x) && p in info && p != root && p in s && s[p].parent in s
    ensures var b := Sibling(s, p);
            b == INVALID_PAGE_ID || (b in info && b in s && b != p && info[b].level == info[p].level)
  {
    var q, i := ParentPosition(s, info, root, lim, x, p);
    assert NodeOk(s, info, root, lim, x, q);
    var j := if i == 0 then 1 else i - 1;
    if 0 <= j < |s[q].entries| {
      assert ChildOk(s, info, q, j) && ChildOk(s, info, q, i);
      if s[q].entries[j].value == p {
        ChildIndexUnique(s, info, root, lim, x, q, i, j);
      }
    }
  }

  lemma {:induction false} GoSame(s: Store, info: map<PageId, Info>, root: PageId, lim: Limits, x: PageId,
                                  s': Store, info': map<PageId, Info>, p: PageId, size: int)
    requires TreeExcept(s, info, root, lim, x) && p in info && SameBut(s, info, s', info', p)
    requires root in info' && info'[root].level == info[root].level && INVALID_PAGE_ID !in info'
    ensures Go(s', info', root, lim, p, size) == Go(s, info, root, lim, p, size)
    decreases Distance(info, root, p)
  {
    if p != root {
      StepUp(s, info, root, lim, x, s', info', p);
      SiblingBeside(s, info, root, lim, x, p);
      assert Inside(0);
      GoSame(s, info, root, lim, x, s', info', s[p].parent, |s[s[p].parent].entries| - 1);
    }
  }

  // ------------------------------------------------------------------ insertion

  lemma TwoMore(a: set<PageId>, b: set<PageId>, q: PageId, r: PageId)
    requires b == a + {q, r} && q !in a && r !in a && q != r
    ensures |b| == |a| + 2
  {
    assert b == a + {q} + {r};
  }

  lemma RootComesAbove(s: Store, info: map<PageId, Info>, root: PageId, lim: Limits, p: PageId, q: PageId)
    requires TreeInsert.Overfull(s, info, root, lim, p, q) && s[p].parent == INVALID_PAGE_ID
    ensures ComeAbove(s, info, root, lim, p) == 1
  {
    assert NodeOk(s, info, root, lim, p, p);
  }

  /** Page p has been split into p and q and its parent, with the new entry, has become n. */
  lemma LinkedCome(s: Store, info: map<PageId, Info>, root: PageId, lim: Limits, p: PageId, q: PageId,
                   t: Store, n: Node, u: Store, info': map<PageId, Info>)
    requires TreeInsert.Overfull(s, info, root, lim, p, q) && TreeInsert.HalfSplit(s, lim, p, q, t)
    requires s[p].parent != INVALID_PAGE_ID && TreeInsert.Linked(s, lim, p, q, t, n, u)
    requires forall c :: c in info ==> c in info' && info'[c].level == info[c].level
    ensures var pp := s[p].parent;
            && pp in u && ComeAbove(s, info, root, lim, p)
               == if |u[pp].entries| <= lim.MaxSize(u[pp].leaf) then 0 else 1 + ComeAbove(u, info', root, lim, pp)
  {
    TreeInsert.LinkSite(s, info, root, lim, p, q, t);
    var pp, _ := ParentPosition(s, info, root, lim, p, p);
    LevelAtMostRoot(s, info, root, lim, p, pp);
    assert NodeOk(s, info, root, lim, p, pp);
    assert Inside(0);
    forall c | c in info && info[c].level >= info[pp].level && c != pp && c in s
      ensures c in u && u[c] == s[c]
    {
      if c != root {
        var d, _ := ParentPosition(s, info, root, lim, p, c);
      } else {
        assert NodeOk(s, info, root, lim, p, c);
      }
    }
    assert SameBut(s, info, u, info', pp);
    ComeAboveSame(s, info, root, lim, p, u, info', pp);
  }

  /** All that is known of the tree then. */
  lemma LinkedAll(s: Store, info: map<PageId, Info>, root: PageId, lim: Limits, p: PageId, q: PageId,
                  t: Store, n: Node, u: Store, m: map<int, int>) returns (info': map<PageId, Info>)
    requires TreeInsert.Overfull(s, info, root, lim, p, q) && TreeInsert.HalfSplit(s, lim, p, q, t)
    requires s[p].parent != INVALID_PAGE_ID && TreeInsert.Linked(s, lim, p, q, t, n, u)
    requires Holds(s, info, m) && info.Keys == s.Keys
    ensures var pp := s[p].parent;
            && TreeExcept(u, info', root, lim, pp) && Holds(u, info', m)
            && pp in info && pp in info' && info'.Keys == u.Keys && |info'.Keys| == |info.Keys| + 1
            && pp in u && u[pp] == n && !n.leaf
            && (if pp == root then 2 else lim.MinSize(false)) < |n.entries| <= lim.MaxSize(false) + 1
            && root in info' && info'[root].level == info[root].level && info'[pp].level == info[p].level + 1
            && ComeAbove(s, info, root, lim, p)
               == if |n.entries| <= lim.MaxSize(false) then 0 else 1 + ComeAbove(u, info', root, lim, pp)
  {
    TreeInsert.LinkedKeys(s, lim, p, q, t, n, u);
    info' := TreeInsert.LinkedTree(s, info, root, lim, p, q, t, n, u, m);
    LinkedCome(s, info, root, lim, p, q, t, n, u, info');
    assert s[p].parent in info'.Keys;
  }

  // ------------------------------------------------------------------ removal

  /** What goes with a page below the root that is short, by the page it is repaired with. */
  lemma GoStep(s: Store, info: map<PageId, Info>, root: PageId, lim: Limits, p: PageId, sibling: PageId)
    requires TreeExcept(s, info, root, lim, p) && p in info && p != root && p in s && s[p].parent in s
    requires |s[p].entries| < lim.MinSize(s[p].leaf) && sibling == Sibling(s, p) && sibling in info && sibling in s
    ensures Go(s, info, root, lim, p, |s[p].entries|)
            == if |s[sibling].entries| + |s[p].entries| > lim.MaxSize(s[p].leaf) then 0
               else 1 + Go(s, info, root, lim, s[p].parent, |s[s[p].parent].entries| - 1)
  {
    var q, _ := ParentPosition(s, info, root, lim, p, p);
    LevelAtMostRoot(s, info, root, lim, p, q);
  }

  /** Joining two siblings changes no page of a higher level. */
  lemma HigherKept(s: Store, info: map<PageId, Info>, root: PageId, lim: Limits, x: PageId,
                   l: PageId, r: PageId, pp: PageId, i: int, c: PageId)
    requires TreeRemove.Short(s, info, root, lim, x, l, r, pp, i) && pp in info && x in info
    requires l in s && r in s && s[l].leaf == s[r].leaf && (!s[r].leaf ==> |s[r].entries| > 0)
    requires pp in s && 0 <= i < |s[pp].entries|
    requires c in info && info[c].level >= info[pp].level && c in s
    ensures c != l && c != r && TreeRemove.JoinedStore(s, l, r, s[pp].entries[i].key)[c] == s[c]
  {
    TreeRemove.NeighboursInfo(s, info, root, lim, x, l, r, pp, i);
    assert info[l].level < info[pp].level && info[r].level < info[pp].level;
    assert NodeOk(s, info, root, lim, x, c);
    if c != root {
      var d, _ := ParentPosition(s, info, root, lim, x, c);
    }
    if !s[r].leaf {
      TreeRemove.NamedByChild(s, info, root, lim, x, r, s[pp].entries[i].key, c);
    }
  }

  /** Two siblings have been joined, and their parent pp is left with one entry less. */
  lemma JoinedGo(s: Store, info: map<PageId, Info>, root: PageId, lim: Limits, x: PageId,
                 l: PageId, r: PageId, pp: PageId, i: int, info': map<PageId, Info>)
    requires TreeRemove.Short(s, info, root, lim, x, l, r, pp, i) && x in info && pp in info
    requires l in s && r in s && pp in s && pp != l && pp != r && s[l].leaf == s[r].leaf
    requires (!s[r].leaf ==> |s[r].entries| > 0) && 0 <= i < |s[pp].entries|
    requires info'.Keys == info.Keys - {r} && forall c :: c in info' ==> info'[c].level == info[c].level
    ensures var t := TreeRemove.JoinedAndDropped(s, l, r, pp, i);
            pp in t && Go(t, info', root, lim, pp, |t[pp].entries|) == Go(s, info, root, lim, pp, |s[pp].entries| - 1)
  {
    var t := TreeRemove.JoinedAndDropped(s, l, r, pp, i);
    JoinedSameBut(s, info, root, lim, x, l, r, pp, i, info', t);
    LevelAtMostRoot(s, info, root, lim, x, pp);
    TreeRemove.NeighboursInfo(s, info, root, lim, x, l, r, pp, i);
    GoSame(s, info, root, lim, x, t, info', pp, |t[pp].entries|);
  }

  lemma JoinedSameBut(s: Store, info: map<PageId, Info>, root: PageId, lim: Limits, x: PageId,
                      l: PageId, r: PageId, pp: PageId, i: int, info': map<PageId, Info>, t: Store)
    requires TreeRemove.Short(s, info, root, lim, x, l, r, pp, i) && x in info && pp in info
    requires l in s && r in s && pp in s && pp != l && pp != r && s[l].leaf == s[r].leaf
    requires (!s[r].leaf ==> |s[r].entries| > 0) && 0 <= i < |s[pp].entries|
    requires info'.Keys == info.Keys - {r} && forall c :: c in info' ==> info'[c].level == info[c].level
    requires t == TreeRemove.JoinedAndDropped(s, l, r, pp, i)
    ensures SameBut(s, info, t, info', pp) && |t[pp].entries| == |s[pp].entries| - 1
  {
    assert pp in info'.Keys;
    HigherKept(s, info, root, lim, x, l, r, pp, i, pp);
    forall c | c in info && info[c].level >= info[pp].level && c != pp && c in s
      ensures c in t && t[c] == s[c] && c in info'
    {
      HigherKept(s, info, root, lim, x, l, r, pp, i, c);
      assert c in info'.Keys;
    }
  }
}
