/** What a removal does to the pages, as functions on stores: redistribution and coalescing of two
    neighbouring siblings, and the change of root.  Both moves are read off one picture: the two
    siblings joined into one node over the union of their ranges, cut again at another place or
    not cut at all. */
module TreeRemove {
  import opened Common
  import opened TreeStore
  import opened TreeInsert

  function RemovedAt(es: seq<Entry>, i: int): (r: seq<Entry>)
    requires 0 <= i < |es|
    ensures |r| == |es| - 1
    ensures forall j :: 0 <= j < i ==> r[j] == es[j]
    ensures forall j :: i <= j < |r| ==> r[j] == es[j + 1]
  {
    es[..i] + es[i + 1..]
  }

  /** Where a key of a sorted node is. */
  function KeyPosition(n: Node, k: int): (i: nat)
    requires HasKey(n, k) && SortedFrom(n.entries, 0)
    ensures i < |n.entries| && n.entries[i].key == k && i == LowerBound(n.entries, k)
  {
    var i := LowerBound(n.entries, k);
    assert i < |n.entries| && n.entries[i].key == k by {
      var j :| 0 <= j < |n.entries| && n.entries[j].key == k;
      assert i <= j;
    }
    i
  }

  function LeafRemoved(n: Node, k: int): Node
    requires HasKey(n, k) && SortedFrom(n.entries, 0)
  {
    n.(entries := RemovedAt(n.entries, KeyPosition(n, k)))
  }

  // ------------------------------------------------------------------ removing from a leaf

  lemma LeafRemovedShape(n: Node, f: Info, k: int)
    requires n.leaf && Shape(n, f) && HasKey(n, k)
    ensures Shape(LeafRemoved(n, k), f)
    ensures |LeafRemoved(n, k).entries| == |n.entries| - 1
  {
  }

  /** Just the key k goes. */
  lemma LeafRemovedKeys(n: Node, k: int, h: int)
    requires SortedFrom(n.entries, 0) && HasKey(n, k)
    ensures HasKey(LeafRemoved(n, k), h) <==> HasKey(n, h) && h != k
  {
    var i := KeyPosition(n, k);
    var es := RemovedAt(n.entries, i);
    if HasKey(LeafRemoved(n, k), h) {
      var j :| 0 <= j < |es| && es[j].key == h;
      var j' := if j < i then j else j + 1;
      assert n.entries[j'].key == h && h != k;
    }
    if HasKey(n, h) && h != k {
      var j :| 0 <= j < |n.entries| && n.entries[j].key == h;
      assert es[if j < i then j else j - 1].key == h;
    }
  }

  lemma LeafRemovedHolds(n: Node, f: Info, k: int, m: map<int, int>)
    requires n.leaf && SortedFrom(n.entries, 0) && LeafHolds(n, f, m) && HasKey(n, k)
    ensures LeafHolds(LeafRemoved(n, k), f, m - {k})
  {
    var i := KeyPosition(n, k);
    var n' := LeafRemoved(n, k);
    forall j | 0 <= j < |n'.entries|
      ensures var e := n'.entries[j]; e.key in m - {k} && (m - {k})[e.key] == e.value
    {
      assert n'.entries[j] == n.entries[if j < i then j else j + 1];
      LeafRemovedKeys(n, k, n'.entries[j].key);
    }
    forall h | h in m - {k} && InRange(f, h)
      ensures HasKey(n', h)
    {
      LeafRemovedKeys(n, k, h);
    }
  }

  /** Taking a key out of the leaf in charge of it keeps the tree, that leaf being allowed one
      entry too few, and takes just that key out of the contents. */
  lemma LeafRemoveKeeps(s: Store, info: map<PageId, Info>, root: PageId, lim: Limits,
                        p: PageId, k: int, m: map<int, int>)
    requires TreeExcept(s, info, root, lim, INVALID_PAGE_ID) && Holds(s, info, m)
    requires p in info && s[p].leaf && HasKey(s[p], k)
    ensures k in m && SortedFrom(s[p].entries, 0)
    ensures TreeExcept(s[p := LeafRemoved(s[p], k)], info, root, lim, p)
    ensures Holds(s[p := LeafRemoved(s[p], k)], info, m - {k})
  {
    assert NodeOk(s, info, root, lim, INVALID_PAGE_ID, p);
    assert LeafHolds(s[p], info[p], m);
    LeafRemovedShape(s[p], info[p], k);
    LeafReplacedTree(s, info, root, lim, p, LeafRemoved(s[p], k));
    LeafRemovedHolds(s[p], info[p], k, m);
    LeafReplacedHolds(s, info, root, lim, p, LeafRemoved(s[p], k), k, m, m - {k});
  }

  // ------------------------------------------------------------------ two neighbouring siblings

  /** l and r are children i-1 and i of pp. */
  ghost predicate Neighbours(s: Store, info: map<PageId, Info>, root: PageId, lim: Limits, x: PageId,
                             l: PageId, r: PageId, pp: PageId, i: int) {
    && TreeExcept(s, info, root, lim, x)
    && pp in info && pp in s && !s[pp].leaf && 1 <= i < |s[pp].entries|
    && s[pp].entries[i - 1].value == l && s[pp].entries[i].value == r
  }

  /** The two siblings as one node; in an internal node the separator takes the place of the
      meaningless first key of the right one. */
  function Joined(l: Node, r: Node, mid: int): (n: Node)
    requires l.leaf == r.leaf && (!r.leaf ==> |r.entries| > 0)
    ensures n == l.(entries := n.entries) && |n.entries| == |l.entries| + |r.entries|
    ensures forall j :: 0 <= j < |l.entries| ==> n.entries[j] == l.entries[j]
    ensures forall j :: |l.entries| <= j < |n.entries| ==>
              n.entries[j] == if !l.leaf && j == |l.entries| then Entry(mid, r.entries[0].value)
                              else r.entries[j - |l.entries|]
  {
    l.(entries := l.entries + if r.leaf then r.entries else r.entries[0 := Entry(mid, r.entries[0].value)])
  }

  function JoinedInfo(f: Info, g: Info): Info {
    Info(f.level, f.lo, g.hi)
  }

  lemma NeighboursInfo(s: Store, info: map<PageId, Info>, root: PageId, lim: Limits, x: PageId,
                       l: PageId, r: PageId, pp: PageId, i: int)
    requires Neighbours(s, info, root, lim, x, l, r, pp, i)
    ensures l in info && r in info && l in s && r in s && l != r && l != pp && r != pp
    ensures l != root && r != root
    ensures s[l].parent == pp && s[r].parent == pp && s[l].leaf == s[r].leaf
    ensures info[pp].level > 0
    ensures info[l] == ChildInfo(s[pp], info[pp], i - 1) && info[r] == ChildInfo(s[pp], info[pp], i)
    ensures NodeOk(s, info, root, lim, x, l) && NodeOk(s, info, root, lim, x, r) && NodeOk(s, info, root, lim, x, pp)
  {
    assert NodeOk(s, info, root, lim, x, pp);
    assert ChildOk(s, info, pp, i - 1) && ChildOk(s, info, pp, i);
    assert NodeOk(s, info, root, lim, x, l) && NodeOk(s, info, root, lim, x, r);
  }

  lemma JoinedShape(l: Node, r: Node, f: Info, g: Info, mid: int)
    requires Shape(l, f) && Shape(r, g) && f.level == g.level && f.hi == Fin(mid) && g.lo == Fin(mid)
    requires !r.leaf ==> |r.entries| > 0
    ensures Shape(Joined(l, r, mid), JoinedInfo(f, g))
  {
    var es := Joined(l, r, mid).entries;
    var first := if l.leaf then 0 else 1;
    forall a, b | first <= a < b < |es|
      ensures es[a].key < es[b].key
    {
      if a < |l.entries| {
        assert InRange(f, l.entries[a].key);
      }
      if b >= |l.entries| + first {
        assert InRange(g, r.entries[b - |l.entries|].key);
      }
    }
    forall a | first <= a < |es|
      ensures InRange(JoinedInfo(f, g), es[a].key) && (!l.leaf ==> f.lo != Fin(es[a].key))
    {
      if a < |l.entries| {
        assert InRange(f, l.entries[a].key);
      } else if a >= |l.entries| + first {
        assert InRange(g, r.entries[a - |l.entries|].key);
      }
    }
  }

  lemma JoinedHolds(l: Node, r: Node, f: Info, g: Info, mid: int, m: map<int, int>)
    requires l.leaf && r.leaf && LeafHolds(l, f, m) && LeafHolds(r, g, m)
    requires f.hi == Fin(mid) && g.lo == Fin(mid)
    ensures LeafHolds(Joined(l, r, mid), JoinedInfo(f, g), m)
  {
    var n := Joined(l, r, mid);
    forall k | k in m && InRange(JoinedInfo(f, g), k)
      ensures HasKey(n, k)
    {
      if k < mid {
        assert HasKey(l, k);
        var j :| 0 <= j < |l.entries| && l.entries[j].key == k;
        assert n.entries[j].key == k;
      } else {
        assert HasKey(r, k);
        var j :| 0 <= j < |r.entries| && r.entries[j].key == k;
        assert n.entries[|l.entries| + j].key == k;
      }
    }
  }

  /** The children of the joined node are the children of both, with the ranges they had. */
  lemma JoinedChild(s: Store, info: map<PageId, Info>, root: PageId, lim: Limits, x: PageId,
                    l: PageId, r: PageId, pp: PageId, i: int, j: int)
    requires Neighbours(s, info, root, lim, x, l, r, pp, i)
    requires l in s && r in s && s[l].leaf == s[r].leaf && !s[l].leaf && |s[r].entries| > 0
    requires l in info && r in info && info[l].level > 0
    requires var n := Joined(s[l], s[r], s[pp].entries[i].key); 0 <= j < |n.entries|
    ensures var n := Joined(s[l], s[r], s[pp].entries[i].key);
            var d := n.entries[j].value;
            && d in info && d in s && s[d].parent == (if j < |s[l].entries| then l else r)
            && info[d] == ChildInfo(n, JoinedInfo(info[l], info[r]), j)
            && d != l && d != r && d != pp
  {
    NeighboursInfo(s, info, root, lim, x, l, r, pp, i);
    if j < |s[l].entries| {
      assert ChildOk(s, info, l, j);
    } else {
      assert ChildOk(s, info, r, j - |s[l].entries|);
    }
  }

  /** A part of a node gives its children the ranges the whole node gave them. */
  lemma CutChildInfo(n: Node, f: Info, c: int, j: int)
    requires f.level > 0 && 1 <= c < |n.entries| && 0 <= j < |n.entries|
    ensures var k := n.entries[c].key;
            ChildInfo(n, f, j) ==
              if j < c then ChildInfo(n.(entries := n.entries[..c]), Info(f.level, f.lo, Fin(k)), j)
              else ChildInfo(n.(entries := n.entries[c..]), Info(f.level, Fin(k), f.hi), j - c)
  {
  }

  // ------------------------------------------------------------------ redistribution

  /** l and r have been joined and cut again at c, their parent pp holding the new separator. */
  ghost predicate RecutInto(s: Store, info: map<PageId, Info>, l: PageId, r: PageId, pp: PageId, i: int, c: int,
                            t: Store)
    requires l in s && r in s && pp in s && 0 <= i < |s[pp].entries|
    requires s[l].leaf == s[r].leaf && (!s[r].leaf ==> |s[r].entries| > 0)
    requires 1 <= c < |s[l].entries| + |s[r].entries|
  {
    var u := Joined(s[l], s[r], s[pp].entries[i].key).entries;
    && l in t && r in t && pp in t
    && t[l] == s[l].(entries := u[..c])
    && t[r] == s[r].(entries := u[c..])
    && t[pp] == s[pp].(entries := s[pp].entries[i := Entry(u[c].key, r)])
    && (!s[l].leaf ==> forall j :: 0 <= j < |u| ==> Moved(s, t, u[j].value, if j < c then l else r))
    && (forall d :: d in info && d in s && d != l && d != r && d != pp && (s[l].leaf || s[d].parent !in {l, r})
          ==> d in t && t[d] == s[d])
  }

  /** A redistribution in a tree: which pages, and the sizes that are left. */
  ghost predicate Recut(s: Store, info: map<PageId, Info>, root: PageId, lim: Limits, x: PageId,
                        l: PageId, r: PageId, pp: PageId, i: int, c: int, t: Store) {
    && Neighbours(s, info, root, lim, x, l, r, pp, i)
    && l in s && r in s && s[l].leaf == s[r].leaf && (!s[r].leaf ==> |s[r].entries| > 0)
    && lim.MinSize(s[l].leaf) <= c <= lim.MaxSize(s[l].leaf)
    && lim.MinSize(s[l].leaf) <= |s[l].entries| + |s[r].entries| - c <= lim.MaxSize(s[l].leaf)
    && lim.Valid()
    && RecutInto(s, info, l, r, pp, i, c, t)
  }

  function RecutInfo(info: map<PageId, Info>, l: PageId, r: PageId, k: int): map<PageId, Info>
    requires l in info && r in info
  {
    info[l := Info(info[l].level, info[l].lo, Fin(k))][r := Info(info[r].level, Fin(k), info[r].hi)]
  }

  function RecutKey(s: Store, l: PageId, r: PageId, pp: PageId, i: int, c: int): int
    requires l in s && r in s && pp in s && 0 <= i < |s[pp].entries|
    requires s[l].leaf == s[r].leaf && (!s[r].leaf ==> |s[r].entries| > 0)
    requires 0 <= c < |s[l].entries| + |s[r].entries|
  {
    Joined(s[l], s[r], s[pp].entries[i].key).entries[c].key
  }

  lemma RecutPairShape(s: Store, info: map<PageId, Info>, root: PageId, lim: Limits, x: PageId,
                       l: PageId, r: PageId, pp: PageId, i: int, c: int, t: Store)
    requires Recut(s, info, root, lim, x, l, r, pp, i, c, t)
    ensures l in info && r in info
    ensures var k := RecutKey(s, l, r, pp, i, c);
            && InRange(JoinedInfo(info[l], info[r]), k) && info[l].lo != Fin(k)
            && Shape(t[l], RecutInfo(info, l, r, k)[l]) && Shape(t[r], RecutInfo(info, l, r, k)[r])
  {
    NeighboursInfo(s, info, root, lim, x, l, r, pp, i);
    JoinedShape(s[l], s[r], info[l], info[r], s[pp].entries[i].key);
    CutShape(Joined(s[l], s[r], s[pp].entries[i].key), JoinedInfo(info[l], info[r]), c, t[l], t[r]);
  }

  /** The leaf after the left one of two neighbours is the right one, and no other leaf leads there. */
  lemma NextIsRight(s: Store, info: map<PageId, Info>, root: PageId, lim: Limits, x: PageId,
                    l: PageId, r: PageId, pp: PageId, i: int, d: PageId)
    requires Neighbours(s, info, root, lim, x, l, r, pp, i)
    requires d in info && d in s && s[d].leaf && l in s && s[l].leaf
    ensures !info[d].hi.Inf? ==> (s[d].next == r <==> d == l)
  {
    NeighboursInfo(s, info, root, lim, x, l, r, pp, i);
    assert NodeOk(s, info, root, lim, x, d);
    assert NodeOk(s, info, root, lim, x, s[l].next);
    RangeEndsUnique(s, info, root, lim, x, s[l].next, r);
    if !info[d].hi.Inf? && s[d].next == r {
      RangeEndsUnique(s, info, root, lim, x, d, l);
    }
  }

  lemma RecutPairOk(s: Store, info: map<PageId, Info>, root: PageId, lim: Limits, x: PageId,
                    l: PageId, r: PageId, pp: PageId, i: int, c: int, t: Store, d: PageId)
    requires Recut(s, info, root, lim, x, l, r, pp, i, c, t)
    requires d == l || d == r
    ensures l in info && r in info
    ensures NodeOk(t, RecutInfo(info, l, r, RecutKey(s, l, r, pp, i, c)), root, lim, INVALID_PAGE_ID, d)
  {
    NeighboursInfo(s, info, root, lim, x, l, r, pp, i);
    RecutPairShape(s, info, root, lim, x, l, r, pp, i, c, t);
    if !s[l].leaf {
      RecutPairChildrenOk(s, info, root, lim, x, l, r, pp, i, c, t, d);
    } else {
      NextIsRight(s, info, root, lim, x, l, r, pp, i, l);
    }
    assert t[pp].entries[i - 1].value == l && t[pp].entries[i].value == r;
  }

  lemma RecutPairChildrenOk(s: Store, info: map<PageId, Info>, root: PageId, lim: Limits, x: PageId,
                            l: PageId, r: PageId, pp: PageId, i: int, c: int, t: Store, d: PageId)
    requires Recut(s, info, root, lim, x, l, r, pp, i, c, t)
    requires !s[l].leaf && (d == l || d == r)
    ensures l in info && r in info && info[d].level > 0
    ensures ChildrenOk(t, RecutInfo(info, l, r, RecutKey(s, l, r, pp, i, c)), d)
  {
    NeighboursInfo(s, info, root, lim, x, l, r, pp, i);
    var u := Joined(s[l], s[r], s[pp].entries[i].key);
    var info' := RecutInfo(info, l, r, u.entries[c].key);
    forall j | 0 <= j < |t[d].entries|
      ensures ChildOk(t, info', d, j)
    {
      var h := if d == l then j else c + j;
      assert t[d].entries[j] == u.entries[h];
      JoinedChild(s, info, root, lim, x, l, r, pp, i, h);
      CutChildInfo(u, JoinedInfo(info[l], info[r]), c, h);
      assert Moved(s, t, u.entries[h].value, if h < c then l else r);
    }
  }

  /** Changing separator i to a key strictly between the ends of the two ranges it parts. */
  lemma SeparatorChanged(n: Node, f: Info, i: int, k: int)
    requires !n.leaf && Shape(n, f) && 1 <= i < |n.entries|
    requires var g := JoinedInfo(ChildInfo(n, f, i - 1), ChildInfo(n, f, i)); InRange(g, k) && g.lo != Fin(k)
    ensures Shape(n.(entries := n.entries[i := Entry(k, n.entries[i].value)]), f)
  {
    var es := n.entries[i := Entry(k, n.entries[i].value)];
    forall a, b | 1 <= a < b < |es|
      ensures es[a].key < es[b].key
    {
      if b == i {
        assert a < i - 1 ==> n.entries[a].key < n.entries[i - 1].key;
      } else if a == i {
        assert i + 1 < b ==> n.entries[i + 1].key < n.entries[b].key;
      }
    }
    assert i > 1 ==> InRange(f, n.entries[i - 1].key);
    assert i + 1 < |n.entries| ==> InRange(f, n.entries[i + 1].key);
  }

  /** Only the children on either side of separator i see their range change. */
  lemma SiblingOfRecutOk(s: Store, info: map<PageId, Info>, root: PageId, lim: Limits, x: PageId,
                         l: PageId, r: PageId, pp: PageId, i: int, k: int, t: Store, j: int)
    requires Neighbours(s, info, root, lim, x, l, r, pp, i)
    requires l in info && r in info && info[pp].level > 0
    requires pp in t && t[pp] == s[pp].(entries := s[pp].entries[i := Entry(k, r)])
    requires 0 <= j < |s[pp].entries|
    requires var d := s[pp].entries[j].value; d in t && t[d].parent == pp
    ensures ChildOk(t, RecutInfo(info, l, r, k), pp, j)
  {
    assert NodeOk(s, info, root, lim, x, pp);
    assert ChildOk(s, info, pp, j) && ChildOk(s, info, pp, i - 1) && ChildOk(s, info, pp, i);
    var d := s[pp].entries[j].value;
    if d == l {
      ChildIndexUnique(s, info, root, lim, x, pp, j, i - 1);
    } else if d == r {
      ChildIndexUnique(s, info, root, lim, x, pp, j, i);
    }
  }

  lemma RecutParentOk(s: Store, info: map<PageId, Info>, root: PageId, lim: Limits, x: PageId,
                      l: PageId, r: PageId, pp: PageId, i: int, c: int, t: Store)
    requires Recut(s, info, root, lim, x, l, r, pp, i, c, t)
    requires x == l || x == r
    ensures l in info && r in info
    ensures var info' := RecutInfo(info, l, r, RecutKey(s, l, r, pp, i, c));
            && Shape(t[pp], info'[pp]) && ChildrenOk(t, info', pp)
            && SizeOk(t[pp], lim, pp == root, false)
  {
    NeighboursInfo(s, info, root, lim, x, l, r, pp, i);
    RecutPairShape(s, info, root, lim, x, l, r, pp, i, c, t);
    var k := RecutKey(s, l, r, pp, i, c);
    SeparatorChanged(s[pp], info[pp], i, k);
    forall j | 0 <= j < |t[pp].entries|
      ensures ChildOk(t, RecutInfo(info, l, r, k), pp, j)
    {
      assert ChildOk(s, info, pp, j);
      SiblingOfRecutOk(s, info, root, lim, x, l, r, pp, i, k, t, j);
    }
  }

  /** Every child of the two siblings ends up, entries unchanged, where the cut puts it. */
  lemma RecutMovedChild(s: Store, info: map<PageId, Info>, root: PageId, lim: Limits, x: PageId,
                        l: PageId, r: PageId, pp: PageId, i: int, c: int, t: Store, d: PageId)
    requires Recut(s, info, root, lim, x, l, r, pp, i, c, t)
    requires d in info && d in s && !s[l].leaf && (s[d].parent == l || s[d].parent == r)
    ensures d in t && t[d] == s[d].(parent := t[d].parent) && (t[d].parent == l || t[d].parent == r)
    ensures HasChild(t[t[d].parent], d)
  {
    NeighboursInfo(s, info, root, lim, x, l, r, pp, i);
    assert NodeOk(s, info, root, lim, x, d);
    var u := Joined(s[l], s[r], s[pp].entries[i].key);
    var j := JoinedPosition(s[l], s[r], s[pp].entries[i].key, d, s[d].parent == l);
    assert Moved(s, t, d, if j < c then l else r);
    if j < c {
      assert t[l].entries[j].value == d;
    } else {
      assert t[r].entries[j - c].value == d;
    }
  }

  lemma JoinedPosition(l: Node, r: Node, mid: int, d: PageId, inLeft: bool) returns (j: int)
    requires l.leaf == r.leaf && (!r.leaf ==> |r.entries| > 0)
    requires HasChild(if inLeft then l else r, d)
    ensures 0 <= j < |Joined(l, r, mid).entries| && Joined(l, r, mid).entries[j].value == d
  {
    if inLeft {
      j :| 0 <= j < |l.entries| && l.entries[j].value == d;
    } else {
      var h :| 0 <= h < |r.entries| && r.entries[h].value == d;
      j := |l.entries| + h;
    }
  }

  lemma RecutKept(s: Store, info: map<PageId, Info>, root: PageId, lim: Limits, x: PageId,
                  l: PageId, r: PageId, pp: PageId, i: int, c: int, t: Store, k: int, d: PageId)
    requires Recut(s, info, root, lim, x, l, r, pp, i, c, t)
    requires l in info && r in info && d in info && d !in {l, r, pp}
    ensures Kept(s, info, {l, r, pp}, t, RecutInfo(info, l, r, k), d)
  {
    assert NodeOk(s, info, root, lim, x, d);
    NeighboursInfo(s, info, root, lim, x, l, r, pp, i);
    if d == root {
    } else if s[d].parent == l || s[d].parent == r {
      assert NodeOk(s, info, root, lim, x, l);
      RecutMovedChild(s, info, root, lim, x, l, r, pp, i, c, t, d);
    } else if s[d].parent == pp {
      var j :| 0 <= j < |s[pp].entries| && s[pp].entries[j].value == d;
      assert t[pp].entries[j].value == d;
    }
  }

  lemma RecutOutside(s: Store, info: map<PageId, Info>, root: PageId, lim: Limits, x: PageId,
                     l: PageId, r: PageId, pp: PageId, i: int, c: int, t: Store, k: int)
    requires Recut(s, info, root, lim, x, l, r, pp, i, c, t)
    requires l in info && r in info
    ensures Outside(s, info, {l, r, pp}, t, RecutInfo(info, l, r, k))
  {
    NeighboursInfo(s, info, root, lim, x, l, r, pp, i);
    assert NodeOk(s, info, root, lim, x, pp) && NodeOk(s, info, root, lim, x, l) && NodeOk(s, info, root, lim, x, r);
    forall d | d in info && d !in {l, r, pp}
      ensures Kept(s, info, {l, r, pp}, t, RecutInfo(info, l, r, k), d)
    {
      RecutKept(s, info, root, lim, x, l, r, pp, i, c, t, k, d);
    }
  }

  /** A redistribution between two neighbours keeps the tree and puts both sizes right. */
  lemma RecutKeepsTree(s: Store, info: map<PageId, Info>, root: PageId, lim: Limits, x: PageId,
                       l: PageId, r: PageId, pp: PageId, i: int, c: int, t: Store)
    requires Recut(s, info, root, lim, x, l, r, pp, i, c, t)
    requires x == l || x == r
    ensures l in info && r in info
    ensures TreeExcept(t, RecutInfo(info, l, r, RecutKey(s, l, r, pp, i, c)), root, lim, INVALID_PAGE_ID)
  {
    NeighboursInfo(s, info, root, lim, x, l, r, pp, i);
    var k := RecutKey(s, l, r, pp, i, c);
    var info' := RecutInfo(info, l, r, k);
    RecutOutside(s, info, root, lim, x, l, r, pp, i, c, t, k);
    forall d | d in info'
      ensures NodeOk(t, info', root, lim, INVALID_PAGE_ID, d)
    {
      if d == l || d == r {
        RecutPairOk(s, info, root, lim, x, l, r, pp, i, c, t, d);
      } else if d == pp {
        RecutParentOk(s, info, root, lim, x, l, r, pp, i, c, t);
        AboveOk(s, info, root, lim, x, l, r, pp, i, t, info');
      } else {
        LeadsElsewhere(s, info, root, lim, x, l, r, pp, i, d);
        OutsiderOk(s, info, root, lim, x, {l, r, pp}, t, info', root, INVALID_PAGE_ID, d);
      }
    }
    AllNodesOk(t, info', root, lim, INVALID_PAGE_ID);
  }

  /** The parent of two neighbours still has its own parent. */
  lemma AboveOk(s: Store, info: map<PageId, Info>, root: PageId, lim: Limits, x: PageId,
                l: PageId, r: PageId, pp: PageId, i: int, t: Store, info': map<PageId, Info>)
    requires Neighbours(s, info, root, lim, x, l, r, pp, i) && Outside(s, info, {l, r, pp}, t, info')
    requires pp in t && pp in info' && root in info' && t[pp].parent == s[pp].parent && info'[pp] == info[pp]
    ensures ParentOk(t, info', root, pp)
  {
    NeighboursInfo(s, info, root, lim, x, l, r, pp, i);
    var g := s[pp].parent;
    if pp != root {
      var _, _ := ParentPosition(s, info, root, lim, x, pp);
      var g := s[pp].parent;
      assert info[l].level < info[pp].level < info[g].level;
      assert Kept(s, info, {l, r, pp}, t, info', g);
      LevelAtMostRoot(s, info, root, lim, x, g);
      if root != pp {
        assert Kept(s, info, {l, r, pp}, t, info', root);
      }
    }
  }

  /** No leaf other than the two leads to the right one. */
  lemma LeadsElsewhere(s: Store, info: map<PageId, Info>, root: PageId, lim: Limits, x: PageId,
                       l: PageId, r: PageId, pp: PageId, i: int, d: PageId)
    requires Neighbours(s, info, root, lim, x, l, r, pp, i)
    requires d in info && d !in {l, r, pp}
    ensures d in s && s[d].leaf && !info[d].hi.Inf? ==> s[d].next != r && s[d].next != pp
    ensures d in s && s[d].leaf && !info[d].hi.Inf? && s[d].next == l ==> l in s && s[l].leaf
  {
    assert NodeOk(s, info, root, lim, x, d);
    NeighboursInfo(s, info, root, lim, x, l, r, pp, i);
    if s[d].leaf && s[l].leaf {
      NextIsRight(s, info, root, lim, x, l, r, pp, i, d);
    }
  }

  /** Two leaves cut at another place hold what they held together. */
  lemma RecutPairHolds(s: Store, info: map<PageId, Info>, root: PageId, lim: Limits, x: PageId,
                       l: PageId, r: PageId, pp: PageId, i: int, c: int, t: Store, m: map<int, int>)
    requires Recut(s, info, root, lim, x, l, r, pp, i, c, t) && Holds(s, info, m) && l in s && s[l].leaf
    ensures l in info && r in info && l in t && r in t
    ensures var info' := RecutInfo(info, l, r, RecutKey(s, l, r, pp, i, c));
            LeafHolds(t[l], info'[l], m) && LeafHolds(t[r], info'[r], m)
  {
    NeighboursInfo(s, info, root, lim, x, l, r, pp, i);
    var mid := s[pp].entries[i].key;
    assert LeafHolds(s[l], info[l], m) && LeafHolds(s[r], info[r], m);
    JoinedHolds(s[l], s[r], info[l], info[r], mid, m);
    JoinedShape(s[l], s[r], info[l], info[r], mid);
    CutHolds(Joined(s[l], s[r], mid), JoinedInfo(info[l], info[r]), c, t[l], t[r], m);
  }

  /** A redistribution moves one entry between leaves and loses none. */
  lemma RecutKeepsContents(s: Store, info: map<PageId, Info>, root: PageId, lim: Limits, x: PageId,
                           l: PageId, r: PageId, pp: PageId, i: int, c: int, t: Store, m: map<int, int>)
    requires Recut(s, info, root, lim, x, l, r, pp, i, c, t) && Holds(s, info, m)
    ensures l in info && r in info
    ensures Holds(t, RecutInfo(info, l, r, RecutKey(s, l, r, pp, i, c)), m)
  {
    NeighboursInfo(s, info, root, lim, x, l, r, pp, i);
    var k := RecutKey(s, l, r, pp, i, c);
    RecutOutside(s, info, root, lim, x, l, r, pp, i, c, t, k);
    if s[l].leaf {
      RecutPairHolds(s, info, root, lim, x, l, r, pp, i, c, t, m);
    }
    var info' := RecutInfo(info, l, r, k);
    forall d | d in info' && d !in {l, r, pp}
      ensures d in t
    {
      assert Kept(s, info, {l, r, pp}, t, info', d);
    }
    assert l in info';
    OutsiderHolds(s, info, root, lim, x, {l, r, pp}, t, info', m);
  }

  // ------------------------------------------------------------------ coalescing

  /** r has been emptied into l and its entry has gone from their parent pp. */
  ghost predicate MergedInto(s: Store, info: map<PageId, Info>, l: PageId, r: PageId, pp: PageId, i: int, t: Store)
    requires l in s && r in s && pp in s && 0 <= i < |s[pp].entries|
    requires s[l].leaf == s[r].leaf && (!s[r].leaf ==> |s[r].entries| > 0)
  {
    var u := Joined(s[l], s[r], s[pp].entries[i].key).entries;
    && l in t && pp in t
    && t[l] == s[l].(entries := u, next := if s[l].leaf then s[r].next else s[l].next)
    && t[pp] == s[pp].(entries := RemovedAt(s[pp].entries, i))
    && (!s[l].leaf ==> forall j :: 0 <= j < |u| ==> Moved(s, t, u[j].value, l))
    && (forall d :: d in info && d in s && d != l && d != r && d != pp && (s[l].leaf || s[d].parent !in {l, r})
          ==> d in t && t[d] == s[d])
  }

  ghost predicate Merged(s: Store, info: map<PageId, Info>, root: PageId, lim: Limits, x: PageId,
                         l: PageId, r: PageId, pp: PageId, i: int, t: Store) {
    && Neighbours(s, info, root, lim, x, l, r, pp, i)
    && l in s && r in s && s[l].leaf == s[r].leaf && (!s[r].leaf ==> |s[r].entries| > 0)
    && lim.MinSize(s[l].leaf) <= |s[l].entries| + |s[r].entries| <= lim.MaxSize(s[l].leaf)
    && lim.Valid()
    && MergedInto(s, info, l, r, pp, i, t)
  }

  function MergedInfo(info: map<PageId, Info>, l: PageId, r: PageId): map<PageId, Info>
    requires l in info && r in info
  {
    (info - {r})[l := JoinedInfo(info[l], info[r])]
  }

  lemma MergedLeftOk(s: Store, info: map<PageId, Info>, root: PageId, lim: Limits, x: PageId,
                     l: PageId, r: PageId, pp: PageId, i: int, t: Store)
    requires Merged(s, info, root, lim, x, l, r, pp, i, t)
    ensures l in info && r in info && root in MergedInfo(info, l, r) && l in MergedInfo(info, l, r)
    ensures NodeOk(t, MergedInfo(info, l, r), root, lim, pp, l)
  {
    NeighboursInfo(s, info, root, lim, x, l, r, pp, i);
    var mid := s[pp].entries[i].key;
    var info' := MergedInfo(info, l, r);
    JoinedShape(s[l], s[r], info[l], info[r], mid);
    if !s[l].leaf {
      forall j | 0 <= j < |t[l].entries|
        ensures ChildOk(t, info', l, j)
      {
        JoinedChild(s, info, root, lim, x, l, r, pp, i, j);
        assert Moved(s, t, t[l].entries[j].value, l);
      }
    } else if !info[r].hi.Inf? {
      MergedNextKept(s, info, root, lim, x, l, r, pp, i, t);
    }
    assert t[pp].entries[i - 1].value == l;
  }

  /** The leaf that used to follow r is neither l nor r. */
  lemma MergedNextKept(s: Store, info: map<PageId, Info>, root: PageId, lim: Limits, x: PageId,
                       l: PageId, r: PageId, pp: PageId, i: int, t: Store)
    requires Merged(s, info, root, lim, x, l, r, pp, i, t)
    requires r in info && s[r].leaf && !info[r].hi.Inf?
    ensures var e := s[r].next;
            e in info && e in s && s[e].leaf && info[e].lo == info[r].hi && e != l && e != r && e != pp
            && e in t && t[e] == s[e]
  {
    NeighboursInfo(s, info, root, lim, x, l, r, pp, i);
    var e := s[r].next;
    assert NodeOk(s, info, root, lim, x, e);
  }

  lemma MergedParentShape(n: Node, f: Info, i: int)
    requires !n.leaf && Shape(n, f) && 1 <= i < |n.entries|
    ensures Shape(n.(entries := RemovedAt(n.entries, i)), f)
  {
  }

  lemma MergedSiblingOk(s: Store, info: map<PageId, Info>, root: PageId, lim: Limits, x: PageId,
                        l: PageId, r: PageId, pp: PageId, i: int, t: Store, j: int)
    requires Neighbours(s, info, root, lim, x, l, r, pp, i)
    requires l in info && r in info && info[pp].level > 0 && l != r && pp != r && pp != l
    requires pp in t && t[pp] == s[pp].(entries := RemovedAt(s[pp].entries, i))
    requires 0 <= j < |t[pp].entries|
    requires var d := t[pp].entries[j].value; d in t && t[d].parent == pp
    ensures ChildOk(t, MergedInfo(info, l, r), pp, j)
  {
    assert NodeOk(s, info, root, lim, x, pp);
    var h := if j < i then j else j + 1;
    assert t[pp].entries[j] == s[pp].entries[h];
    assert ChildOk(s, info, pp, h) && ChildOk(s, info, pp, i - 1) && ChildOk(s, info, pp, i);
    var d := s[pp].entries[h].value;
    if d == l {
      ChildIndexUnique(s, info, root, lim, x, pp, h, i - 1);
    } else if d == r {
      ChildIndexUnique(s, info, root, lim, x, pp, h, i);
    }
  }

  lemma MergedParentOk(s: Store, info: map<PageId, Info>, root: PageId, lim: Limits, x: PageId,
                       l: PageId, r: PageId, pp: PageId, i: int, t: Store)
    requires Merged(s, info, root, lim, x, l, r, pp, i, t)
    requires x == l || x == r
    ensures l in info && r in info
    ensures var info' := MergedInfo(info, l, r);
            && pp in info' && Shape(t[pp], info'[pp]) && ChildrenOk(t, info', pp)
            && SizeOk(t[pp], lim, pp == root, true)
  {
    NeighboursInfo(s, info, root, lim, x, l, r, pp, i);
    MergedParentShape(s[pp], info[pp], i);
    forall j | 0 <= j < |t[pp].entries|
      ensures ChildOk(t, MergedInfo(info, l, r), pp, j)
    {
      var h := if j < i then j else j + 1;
      assert t[pp].entries[j] == s[pp].entries[h];
      assert ChildOk(s, info, pp, h);
      if s[pp].entries[h].value == r {
        ChildIndexUnique(s, info, root, lim, x, pp, h, i);
      }
      MergedSiblingOk(s, info, root, lim, x, l, r, pp, i, t, j);
    }
  }

  lemma MergedKept(s: Store, info: map<PageId, Info>, root: PageId, lim: Limits, x: PageId,
                   l: PageId, r: PageId, pp: PageId, i: int, t: Store, d: PageId)
    requires Merged(s, info, root, lim, x, l, r, pp, i, t)
    requires l in info && r in info && d in info && d !in {l, r, pp}
    ensures Kept(s, info, {l, r, pp}, t, MergedInfo(info, l, r), d)
  {
    assert NodeOk(s, info, root, lim, x, d);
    NeighboursInfo(s, info, root, lim, x, l, r, pp, i);
    if d == root {
    } else if s[d].parent == l || s[d].parent == r {
      assert NodeOk(s, info, root, lim, x, l);
      var j := JoinedPosition(s[l], s[r], s[pp].entries[i].key, d, s[d].parent == l);
      assert Moved(s, t, d, l);
      assert t[l].entries[j].value == d;
    } else if s[d].parent == pp {
      var j :| 0 <= j < |s[pp].entries| && s[pp].entries[j].value == d;
      assert t[pp].entries[if j < i then j else j - 1].value == d;
    }
  }

  lemma MergedOutside(s: Store, info: map<PageId, Info>, root: PageId, lim: Limits, x: PageId,
                      l: PageId, r: PageId, pp: PageId, i: int, t: Store)
    requires Merged(s, info, root, lim, x, l, r, pp, i, t)
    ensures l in info && r in info
    ensures Outside(s, info, {l, r, pp}, t, MergedInfo(info, l, r))
  {
    NeighboursInfo(s, info, root, lim, x, l, r, pp, i);
    assert NodeOk(s, info, root, lim, x, pp) && NodeOk(s, info, root, lim, x, l) && NodeOk(s, info, root, lim, x, r);
    forall d | d in info && d !in {l, r, pp}
      ensures Kept(s, info, {l, r, pp}, t, MergedInfo(info, l, r), d)
    {
      MergedKept(s, info, root, lim, x, l, r, pp, i, t, d);
    }
  }

  /** Coalescing two neighbours keeps the tree, without the emptied page r; now their parent may
      be the page with one entry too few. */
  lemma MergeKeepsTree(s: Store, info: map<PageId, Info>, root: PageId, lim: Limits, x: PageId,
                       l: PageId, r: PageId, pp: PageId, i: int, t: Store)
    requires Merged(s, info, root, lim, x, l, r, pp, i, t)
    requires x == l || x == r
    ensures l in info && r in info
    ensures TreeExcept(t, MergedInfo(info, l, r), root, lim, pp)
  {
    NeighboursInfo(s, info, root, lim, x, l, r, pp, i);
    var info' := MergedInfo(info, l, r);
    MergedOutside(s, info, root, lim, x, l, r, pp, i, t);
    forall d | d in info'
      ensures NodeOk(t, info', root, lim, pp, d)
    {
      if d == l {
        MergedLeftOk(s, info, root, lim, x, l, r, pp, i, t);
      } else if d == pp {
        MergedParentOk(s, info, root, lim, x, l, r, pp, i, t);
        AboveOk(s, info, root, lim, x, l, r, pp, i, t, info');
      } else {
        LeadsElsewhere(s, info, root, lim, x, l, r, pp, i, d);
        OutsiderOk(s, info, root, lim, x, {l, r, pp}, t, info', root, pp, d);
      }
    }
    AllNodesOk(t, info', root, lim, pp);
  }

  /** Coalescing loses no entry. */
  lemma MergeKeepsContents(s: Store, info: map<PageId, Info>, root: PageId, lim: Limits, x: PageId,
                           l: PageId, r: PageId, pp: PageId, i: int, t: Store, m: map<int, int>)
    requires Merged(s, info, root, lim, x, l, r, pp, i, t) && Holds(s, info, m)
    ensures l in info && r in info
    ensures Holds(t, MergedInfo(info, l, r), m)
  {
    NeighboursInfo(s, info, root, lim, x, l, r, pp, i);
    MergedOutside(s, info, root, lim, x, l, r, pp, i, t);
    var info' := MergedInfo(info, l, r);
    if s[l].leaf {
      assert LeafHolds(s[l], info[l], m) && LeafHolds(s[r], info[r], m);
      JoinedHolds(s[l], s[r], info[l], info[r], s[pp].entries[i].key, m);
    }
    forall d | d in info' && d !in {l, r, pp}
      ensures d in t
    {
      assert Kept(s, info, {l, r, pp}, t, info', d);
    }
    assert l in info';
    OutsiderHolds(s, info, root, lim, x, {l, r, pp}, t, info', m);
  }

  // ------------------------------------------------------------------ the root

  /** The only child of an internal root takes its place: the tree gets one level lower. */
  lemma RootReplaced(s: Store, info: map<PageId, Info>, root: PageId, lim: Limits, t: Store, m: map<int, int>)
    requires TreeExcept(s, info, root, lim, root) && Holds(s, info, m)
    requires root in s && !s[root].leaf && |s[root].entries| == 1
    requires var c := s[root].entries[0].value; c in s && c in t && t[c] == s[c].(parent := INVALID_PAGE_ID)
    requires forall d :: d in info && d in s && d != root && d != s[root].entries[0].value ==> d in t && t[d] == s[d]
    ensures TreeExcept(t, info - {root}, s[root].entries[0].value, lim, INVALID_PAGE_ID)
    ensures Holds(t, info - {root}, m)
  {
    var c := s[root].entries[0].value;
    var info' := info - {root};
    assert NodeOk(s, info, root, lim, root, root);
    assert ChildOk(s, info, root, 0);
    assert NodeOk(s, info, root, lim, root, c);
    forall d | d in info'
      ensures NodeOk(t, info', c, lim, INVALID_PAGE_ID, d)
    {
      RootReplacedNodeOk(s, info, root, lim, t, d);
    }
    AllNodesOk(t, info', c, lim, INVALID_PAGE_ID);
    forall d | d in info' && t[d].leaf
      ensures LeafHolds(t[d], info'[d], m)
    {
      assert NodeOk(s, info, root, lim, root, d);
      assert LeafHolds(s[d], info[d], m);
    }
    assert c in info';
  }

  lemma OnlyChild(s: Store, info: map<PageId, Info>, root: PageId, lim: Limits)
    requires TreeExcept(s, info, root, lim, root)
    requires root in s && !s[root].leaf && |s[root].entries| == 1
    ensures var c := s[root].entries[0].value; c in s && c in info && c != root
  {
    assert NodeOk(s, info, root, lim, root, root);
    assert ChildOk(s, info, root, 0);
  }

  lemma RootReplacedNodeOk(s: Store, info: map<PageId, Info>, root: PageId, lim: Limits, t: Store, d: PageId)
    requires TreeExcept(s, info, root, lim, root)
    requires root in s && !s[root].leaf && |s[root].entries| == 1
    requires var c := s[root].entries[0].value; c in s && c in t && t[c] == s[c].(parent := INVALID_PAGE_ID)
    requires forall d :: d in info && d in s && d != root && d != s[root].entries[0].value ==> d in t && t[d] == s[d]
    requires d in info && d != root
    ensures s[root].entries[0].value in info - {root}
    ensures NodeOk(t, info - {root}, s[root].entries[0].value, lim, INVALID_PAGE_ID, d)
  {
    var c := s[root].entries[0].value;
    var info' := info - {root};
    assert NodeOk(s, info, root, lim, root, root);
    assert ChildOk(s, info, root, 0);
    assert NodeOk(s, info, root, lim, root, d);
    if !s[d].leaf {
      forall i | 0 <= i < |t[d].entries|
        ensures ChildOk(t, info', d, i)
      {
        assert ChildOk(s, info, d, i);
        assert NodeOk(s, info, root, lim, root, s[d].entries[i].value);
      }
    }
    if d != c {
      var q, _ := ParentPosition(s, info, root, lim, root, d);
      assert NodeOk(s, info, root, lim, root, q);
    }
  }

  lemma EmptyLeafHoldsNothing(n: Node, f: Info, m: map<int, int>)
    requires |n.entries| == 0 && f.lo.Inf? && f.hi.Inf? && LeafHolds(n, f, m)
    ensures m == map[]
  {
    forall k: int
      ensures k !in m
    {
      assert InRange(f, k) && !HasKey(n, k);
    }
  }

  /** Once the leaf at the root is empty the tree is. */
  lemma LastEntryGone(s: Store, info: map<PageId, Info>, root: PageId, lim: Limits, m: map<int, int>)
    requires TreeExcept(s, info, root, lim, root) && Holds(s, info, m)
    requires root in s && s[root].leaf && |s[root].entries| == 0
    ensures m == map[] && info.Keys == {root}
  {
    assert NodeOk(s, info, root, lim, root, root);
    assert LeafHolds(s[root], info[root], m);
    EmptyLeafHoldsNothing(s[root], info[root], m);
    forall p | p in info
      ensures p == root
    {
      assert NodeOk(s, info, root, lim, root, p);
    }
  }

  // ------------------------------------------------------------------ the moves, page by page

  /** The entries of r as they arrive at the end of l. */
  function MovedEntries(s: Store, r: PageId, mid: int): seq<Entry>
    requires r in s && (!s[r].leaf ==> |s[r].entries| > 0)
  {
    if s[r].leaf then s[r].entries else s[r].entries[0 := Entry(mid, s[r].entries[0].value)]
  }

  /** All of r moved to the end of l, which adopts the children. */
  function JoinedStore(s: Store, l: PageId, r: PageId, mid: int): (t: Store)
    requires l in s && r in s && s[l].leaf == s[r].leaf && (!s[r].leaf ==> |s[r].entries| > 0)
    ensures t.Keys == s.Keys
  {
    var moved := MovedEntries(s, r, mid);
    map c | c in s ::
      if c == l then s[l].(entries := s[l].entries + moved, next := if s[l].leaf then s[r].next else s[l].next)
      else if c == r then s[r].(entries := [])
      else if s[l].leaf then s[c]
      else AdoptedNode(s, moved, l, c)
  }

  lemma NamedByChild(s: Store, info: map<PageId, Info>, root: PageId, lim: Limits, x: PageId, r: PageId, mid: int,
                     c: PageId)
    requires TreeExcept(s, info, root, lim, x)
    requires r in info && !s[r].leaf && c in info && |s[r].entries| > 0
    ensures Names(MovedEntries(s, r, mid), c) <==> s[c].parent == r
  {
    var moved := MovedEntries(s, r, mid);
    ChildrenNamed(s, info, root, lim, x, r, c);
    if Names(moved, c) {
      var i :| 0 <= i < |moved| && moved[i].value == c;
      assert s[r].entries[i].value == c;
    }
    if HasChild(s[r], c) {
      var i :| 0 <= i < |s[r].entries| && s[r].entries[i].value == c;
      assert moved[i].value == c;
    }
  }

  /** Joining the two and dropping the right one's entry from the parent is a coalescing. */
  lemma JoinedStoreMerges(s: Store, info: map<PageId, Info>, root: PageId, lim: Limits, x: PageId,
                          l: PageId, r: PageId, pp: PageId, i: int, t: Store)
    requires Neighbours(s, info, root, lim, x, l, r, pp, i)
    requires l in s && r in s && s[l].leaf == s[r].leaf && (!s[r].leaf ==> |s[r].entries| > 0)
    requires t.Keys == s.Keys
    requires var j := JoinedStore(s, l, r, s[pp].entries[i].key);
             && t[pp] == j[pp].(entries := RemovedAt(s[pp].entries, i))
             && forall c :: c in s && c != pp ==> t[c] == j[c]
    ensures MergedInto(s, info, l, r, pp, i, t)
  {
    NeighboursInfo(s, info, root, lim, x, l, r, pp, i);
    var mid := s[pp].entries[i].key;
    var u := Joined(s[l], s[r], mid).entries;
    if !s[l].leaf {
      NamedByChild(s, info, root, lim, x, r, mid, pp);
      ParentNotBelow(s, info, root, lim, x, l, r, pp, i);
      forall c | c in info && c != l && c != r && c != pp && s[c].parent !in {l, r}
        ensures t[c] == s[c]
      {
        NamedByChild(s, info, root, lim, x, r, mid, c);
      }
      forall j | 0 <= j < |u|
        ensures Moved(s, t, u[j].value, l)
      {
        JoinedChild(s, info, root, lim, x, l, r, pp, i, j);
        NamedByChild(s, info, root, lim, x, r, mid, u[j].value);
      }
    }
  }

  /** The parent of two neighbours is not the child of either. */
  lemma ParentNotBelow(s: Store, info: map<PageId, Info>, root: PageId, lim: Limits, x: PageId,
                       l: PageId, r: PageId, pp: PageId, i: int)
    requires Neighbours(s, info, root, lim, x, l, r, pp, i)
    ensures s[pp].parent != l && s[pp].parent != r
  {
    NeighboursInfo(s, info, root, lim, x, l, r, pp, i);
    if pp != root {
      var _, _ := ParentPosition(s, info, root, lim, x, pp);
    }
  }

  /** The first entry of r moved to the end of l; the entry arrives with the separator as its key
      if the pages are internal, and the child it names is adopted. */
  function FirstMoved(s: Store, l: PageId, r: PageId, mid: int): (t: Store)
    requires l in s && r in s && |s[r].entries| > 0
    ensures t.Keys == s.Keys
  {
    var e := if s[r].leaf then s[r].entries[0] else Entry(mid, s[r].entries[0].value);
    map c | c in s ::
      if c == l then s[l].(entries := s[l].entries + [e])
      else if c == r then s[r].(entries := s[r].entries[1..])
      else if !s[l].leaf && c == e.value then s[c].(parent := l)
      else s[c]
  }

  /** The last entry of l moved to the front of r, where, if the pages are internal, the separator
      becomes the key of the entry that used to be first. */
  function LastMoved(s: Store, l: PageId, r: PageId, mid: int): (t: Store)
    requires l in s && r in s && |s[l].entries| > 0 && (!s[r].leaf ==> |s[r].entries| > 0)
    ensures t.Keys == s.Keys
  {
    var n := |s[l].entries| - 1;
    var e := s[l].entries[n];
    map c | c in s ::
      if c == l then s[l].(entries := s[l].entries[..n])
      else if c == r then s[r].(entries := [e] + MovedEntries(s, r, mid))
      else if !s[l].leaf && c == e.value then s[c].(parent := r)
      else s[c]
  }

  /** Moving the first entry of the right one is a redistribution that cuts one further right. */
  lemma FirstMovedRecuts(s: Store, info: map<PageId, Info>, root: PageId, lim: Limits, x: PageId,
                         l: PageId, r: PageId, pp: PageId, i: int, t: Store)
    requires Neighbours(s, info, root, lim, x, l, r, pp, i)
    requires l in s && r in s && s[l].leaf == s[r].leaf && |s[r].entries| > 1
    requires t.Keys == s.Keys
    requires var f := FirstMoved(s, l, r, s[pp].entries[i].key);
             && t[pp] == f[pp].(entries := s[pp].entries[i := Entry(s[r].entries[1].key, r)])
             && forall c :: c in s && c != pp ==> t[c] == f[c]
    ensures RecutInto(s, info, l, r, pp, i, |s[l].entries| + 1, t)
  {
    NeighboursInfo(s, info, root, lim, x, l, r, pp, i);
    var mid := s[pp].entries[i].key;
    var u := Joined(s[l], s[r], mid).entries;
    var c := |s[l].entries| + 1;
    var e := u[c - 1];
    assert u[..c] == s[l].entries + [e];
    assert u[c..] == s[r].entries[1..];
    if !s[l].leaf {
      ParentNotBelow(s, info, root, lim, x, l, r, pp, i);
      OneAdopted(s, info, root, lim, x, l, r, pp, i, c - 1, l, t);
    }
  }

  lemma LastMovedRecuts(s: Store, info: map<PageId, Info>, root: PageId, lim: Limits, x: PageId,
                        l: PageId, r: PageId, pp: PageId, i: int, t: Store)
    requires Neighbours(s, info, root, lim, x, l, r, pp, i)
    requires l in s && r in s && s[l].leaf == s[r].leaf && |s[l].entries| > 1 && (!s[r].leaf ==> |s[r].entries| > 0)
    requires t.Keys == s.Keys
    requires var f := LastMoved(s, l, r, s[pp].entries[i].key);
             && t[pp] == f[pp].(entries := s[pp].entries[i := Entry(s[l].entries[|s[l].entries| - 1].key, r)])
             && forall c :: c in s && c != pp ==> t[c] == f[c]
    ensures RecutInto(s, info, l, r, pp, i, |s[l].entries| - 1, t)
  {
    NeighboursInfo(s, info, root, lim, x, l, r, pp, i);
    var mid := s[pp].entries[i].key;
    var u := Joined(s[l], s[r], mid).entries;
    var c := |s[l].entries| - 1;
    assert u[..c] == s[l].entries[..c];
    assert u[c..] == [u[c]] + MovedEntries(s, r, mid);
    if !s[l].leaf {
      ParentNotBelow(s, info, root, lim, x, l, r, pp, i);
      OneAdopted(s, info, root, lim, x, l, r, pp, i, c, r, t);
    }
  }

  /** If just the child at position j of the joined node is adopted by q, every child is with the
      side of the cut that its entry is on. */
  lemma OneAdopted(s: Store, info: map<PageId, Info>, root: PageId, lim: Limits, x: PageId,
                   l: PageId, r: PageId, pp: PageId, i: int, j: int, q: PageId, t: Store)
    requires Neighbours(s, info, root, lim, x, l, r, pp, i)
    requires l in s && r in s && !s[l].leaf && !s[r].leaf && |s[r].entries| > 0
    requires s[pp].parent != l && s[pp].parent != r
    requires var u := Joined(s[l], s[r], s[pp].entries[i].key).entries;
             && 0 <= j < |u|
             && (q == l ==> j == |s[l].entries|) && (q == r ==> j == |s[l].entries| - 1) && (q == l || q == r)
             && forall d :: d in s && d != l && d != r && d != pp ==>
                  d in t && t[d] == if d == u[j].value then s[d].(parent := q) else s[d]
    ensures var u := Joined(s[l], s[r], s[pp].entries[i].key).entries;
            && (forall h :: 0 <= h < |u| ==>
                  Moved(s, t, u[h].value, if h < (if q == l then j + 1 else j) then l else r))
            && (forall d :: d in info && d in s && d != l && d != r && d != pp && s[d].parent !in {l, r} ==>
                  t[d] == s[d])
  {
    NeighboursInfo(s, info, root, lim, x, l, r, pp, i);
    var u := Joined(s[l], s[r], s[pp].entries[i].key).entries;
    JoinedChild(s, info, root, lim, x, l, r, pp, i, j);
    forall h | 0 <= h < |u|
      ensures Moved(s, t, u[h].value, if h < (if q == l then j + 1 else j) then l else r)
    {
      JoinedChild(s, info, root, lim, x, l, r, pp, i, h);
      if h != j && u[h].value == u[j].value {
        JoinedDistinct(s, info, root, lim, x, l, r, pp, i, h, j);
      }
    }
  }

  lemma JoinedDistinct(s: Store, info: map<PageId, Info>, root: PageId, lim: Limits, x: PageId,
                       l: PageId, r: PageId, pp: PageId, i: int, h: int, j: int)
    requires Neighbours(s, info, root, lim, x, l, r, pp, i)
    requires l in s && r in s && !s[l].leaf && !s[r].leaf && |s[r].entries| > 0
    requires var u := Joined(s[l], s[r], s[pp].entries[i].key).entries;
             0 <= h < |u| && 0 <= j < |u| && u[h].value == u[j].value
    ensures h == j
  {
    NeighboursInfo(s, info, root, lim, x, l, r, pp, i);
    var n := |s[l].entries|;
    JoinedChild(s, info, root, lim, x, l, r, pp, i, h);
    JoinedChild(s, info, root, lim, x, l, r, pp, i, j);
    if h < n && j < n {
      ChildIndexUnique(s, info, root, lim, x, l, h, j);
    } else if h >= n && j >= n {
      ChildIndexUnique(s, info, root, lim, x, r, h - n, j - n);
    }
  }

  // ------------------------------------------------------------------ one step of the repair

  /** x is one entry short of the minimum and is child index of its parent pp; l and r are x and
      the sibling the repair works with, in key order, r being child i. */
  ghost predicate Short(s: Store, info: map<PageId, Info>, root: PageId, lim: Limits, x: PageId,
                        l: PageId, r: PageId, pp: PageId, i: int) {
    && Neighbours(s, info, root, lim, x, l, r, pp, i)
    && x in s && x != root && |s[x].entries| < lim.MinSize(s[x].leaf)
    && (x == l || x == r) && (x == l ==> i == 1)
  }

  /** What is known of the two siblings. */
  lemma ShortPair(s: Store, info: map<PageId, Info>, root: PageId, lim: Limits, x: PageId,
                  l: PageId, r: PageId, pp: PageId, i: int)
    requires Short(s, info, root, lim, x, l, r, pp, i)
    ensures l in info && r in info && l in s && r in s && l != r && l != pp && r != pp && s[l].leaf == s[r].leaf
    ensures pp in s && |s[pp].entries| >= 2 && s[l].parent == pp && s[r].parent == pp
    ensures var n := lim.MinSize(s[l].leaf);
            && n >= 1 && (!s[l].leaf ==> n >= 2)
            && |s[x].entries| == n - 1
            && (if x == l then n <= |s[r].entries| else n <= |s[l].entries|)
            && |s[l].entries| <= lim.MaxSize(s[l].leaf) && |s[r].entries| <= lim.MaxSize(s[l].leaf)
    ensures !s[l].leaf ==> Family(s, l) && Family(s, r)
  {
    NeighboursInfo(s, info, root, lim, x, l, r, pp, i);
    if !s[l].leaf {
      FamilyOk(s, info, root, lim, x, l);
      FamilyOk(s, info, root, lim, x, r);
    }
  }

  /** The position of x among its siblings, and the neighbour it is repaired with. */
  lemma ShortSite(s: Store, info: map<PageId, Info>, root: PageId, lim: Limits, x: PageId)
    returns (pp: PageId, index: int)
    requires TreeExcept(s, info, root, lim, x)
    requires x in info && x != root && |s[x].entries| < lim.MinSize(s[x].leaf)
    ensures pp == s[x].parent && pp in info && pp != INVALID_PAGE_ID && !s[pp].leaf
    ensures index == ValueIndex(s[pp], x) && 0 <= index < |s[pp].entries| && |s[pp].entries| >= 2
    ensures if index == 0 then Short(s, info, root, lim, x, x, s[pp].entries[1].value, pp, 1)
            else Short(s, info, root, lim, x, s[pp].entries[index - 1].value, x, pp, index)
  {
    pp, index := ParentPosition(s, info, root, lim, x, x);
    assert NodeOk(s, info, root, lim, x, pp);
  }

  /** A redistribution ends the repair. */
  lemma Redistributed(s: Store, info: map<PageId, Info>, root: PageId, lim: Limits, x: PageId,
                      l: PageId, r: PageId, pp: PageId, i: int, t: Store, m: map<int, int>)
    returns (info': map<PageId, Info>)
    requires Short(s, info, root, lim, x, l, r, pp, i) && Holds(s, info, m)
    requires l in s && r in s && s[l].leaf == s[r].leaf && (!s[r].leaf ==> |s[r].entries| > 0)
    requires |s[l].entries| + |s[r].entries| > lim.MaxSize(s[l].leaf)
    requires var c := if x == l then |s[l].entries| + 1 else |s[l].entries| - 1;
             1 <= c < |s[l].entries| + |s[r].entries| && RecutInto(s, info, l, r, pp, i, c, t)
    ensures TreeExcept(t, info', root, lim, INVALID_PAGE_ID) && Holds(t, info', m)
    ensures info'.Keys == info.Keys
  {
    ShortPair(s, info, root, lim, x, l, r, pp, i);
    var c := if x == l then |s[l].entries| + 1 else |s[l].entries| - 1;
    RecutKeepsTree(s, info, root, lim, x, l, r, pp, i, c, t);
    RecutKeepsContents(s, info, root, lim, x, l, r, pp, i, c, t, m);
    info' := RecutInfo(info, l, r, RecutKey(s, l, r, pp, i, c));
  }

  /** Coalescing passes the repair on to the parent. */
  lemma Coalesced(s: Store, info: map<PageId, Info>, root: PageId, lim: Limits, x: PageId,
                  l: PageId, r: PageId, pp: PageId, i: int, t: Store, m: map<int, int>)
    returns (info': map<PageId, Info>)
    requires Short(s, info, root, lim, x, l, r, pp, i) && Holds(s, info, m)
    requires l in s && r in s && s[l].leaf == s[r].leaf && (!s[r].leaf ==> |s[r].entries| > 0)
    requires |s[l].entries| + |s[r].entries| <= lim.MaxSize(s[l].leaf)
    requires MergedInto(s, info, l, r, pp, i, t) && t.Keys == s.Keys
    ensures TreeExcept(t, info', root, lim, pp) && Holds(t, info', m)
    ensures r in info && info'.Keys == info.Keys - {r} && root in info' && pp in info' && l in info'
    ensures info'[root].level == info[root].level && info'[pp].level == info[x].level + 1
    ensures forall c :: c in info' ==> c in info && info'[c].level == info[c].level
  {
    ShortPair(s, info, root, lim, x, l, r, pp, i);
    NeighboursInfo(s, info, root, lim, x, l, r, pp, i);
    MergeKeepsTree(s, info, root, lim, x, l, r, pp, i, t);
    MergeKeepsContents(s, info, root, lim, x, l, r, pp, i, t, m);
    info' := MergedInfo(info, l, r);
  }

  /** The repair of node, child index of parent, works with sibling, the child before it or, if
      node is the first child, the one after it. */
  ghost predicate Repair(s: Store, info: map<PageId, Info>, root: PageId, lim: Limits,
                         sibling: PageId, node: PageId, parent: PageId, index: int) {
    if index == 0 then Short(s, info, root, lim, node, node, sibling, parent, 1)
    else Short(s, info, root, lim, node, sibling, node, parent, index)
  }

  lemma RepairPair(s: Store, info: map<PageId, Info>, root: PageId, lim: Limits,
                   sibling: PageId, node: PageId, parent: PageId, index: int)
    requires Repair(s, info, root, lim, sibling, node, parent, index)
    ensures node in info && sibling in info && parent in info && node in s && sibling in s && parent in s
    ensures s[node].leaf == s[sibling].leaf && node != sibling
    ensures info[sibling].level == info[node].level
    ensures info[parent].level == info[node].level + 1 && info[parent].level <= info[root].level
  {
    if index == 0 {
      NeighboursInfo(s, info, root, lim, node, node, sibling, parent, 1);
    } else {
      NeighboursInfo(s, info, root, lim, node, sibling, node, parent, index);
    }
    LevelAtMostRoot(s, info, root, lim, node, parent);
  }

  /** The first entry of r moves to the end of l, and the new first key of r becomes the separator. */
  function FirstShifted(s: Store, l: PageId, r: PageId, pp: PageId): Store
    requires l in s && r in s && pp in s && pp != l && pp != r && |s[r].entries| > 1 && |s[pp].entries| > 1
  {
    var f := FirstMoved(s, l, r, s[pp].entries[1].key);
    f[pp := f[pp].(entries := s[pp].entries[1 := Entry(s[r].entries[1].key, s[pp].entries[1].value)])]
  }

  /** The last entry of l moves to the front of r, and its key becomes the separator. */
  function LastShifted(s: Store, l: PageId, r: PageId, pp: PageId, i: int): Store
    requires l in s && r in s && pp in s && pp != l && pp != r && |s[l].entries| > 0 && 0 <= i < |s[pp].entries|
    requires !s[r].leaf ==> |s[r].entries| > 0
  {
    var f := LastMoved(s, l, r, s[pp].entries[i].key);
    f[pp := f[pp].(entries := s[pp].entries[i := Entry(s[l].entries[|s[l].entries| - 1].key, s[pp].entries[i].value)])]
  }

  /** All of r moves to the end of l, and its entry leaves the parent. */
  function JoinedAndDropped(s: Store, l: PageId, r: PageId, pp: PageId, i: int): Store
    requires l in s && r in s && pp in s && pp != l && pp != r && 0 <= i < |s[pp].entries|
    requires s[l].leaf == s[r].leaf && (!s[r].leaf ==> |s[r].entries| > 0)
  {
    var j := JoinedStore(s, l, r, s[pp].entries[i].key);
    j[pp := j[pp].(entries := RemovedAt(s[pp].entries, i))]
  }

  lemma FirstShiftedOk(s: Store, info: map<PageId, Info>, root: PageId, lim: Limits,
                       l: PageId, r: PageId, pp: PageId, m: map<int, int>)
    returns (info': map<PageId, Info>)
    requires Short(s, info, root, lim, l, l, r, pp, 1) && Holds(s, info, m)
    requires l in s && r in s && s[l].leaf == s[r].leaf && |s[r].entries| > 1 && pp != l && pp != r
    requires |s[l].entries| + |s[r].entries| > lim.MaxSize(s[l].leaf)
    ensures var t := FirstShifted(s, l, r, pp);
            TreeExcept(t, info', root, lim, INVALID_PAGE_ID) && Holds(t, info', m) && t.Keys == s.Keys
    ensures info'.Keys == info.Keys
  {
    var t := FirstShifted(s, l, r, pp);
    assert t.Keys == s.Keys;
    FirstMovedRecuts(s, info, root, lim, l, l, r, pp, 1, t);
    info' := Redistributed(s, info, root, lim, l, l, r, pp, 1, t, m);
  }

  lemma LastShiftedOk(s: Store, info: map<PageId, Info>, root: PageId, lim: Limits,
                      l: PageId, r: PageId, pp: PageId, i: int, m: map<int, int>)
    returns (info': map<PageId, Info>)
    requires Short(s, info, root, lim, r, l, r, pp, i) && Holds(s, info, m)
    requires l in s && r in s && s[l].leaf == s[r].leaf && |s[l].entries| > 1 && (!s[r].leaf ==> |s[r].entries| > 0)
    requires pp != l && pp != r && |s[l].entries| + |s[r].entries| > lim.MaxSize(s[l].leaf)
    ensures var t := LastShifted(s, l, r, pp, i);
            TreeExcept(t, info', root, lim, INVALID_PAGE_ID) && Holds(t, info', m) && t.Keys == s.Keys
    ensures info'.Keys == info.Keys
  {
    var t := LastShifted(s, l, r, pp, i);
    assert t.Keys == s.Keys;
    LastMovedRecuts(s, info, root, lim, r, l, r, pp, i, t);
    info' := Redistributed(s, info, root, lim, r, l, r, pp, i, t, m);
  }

  lemma JoinedAndDroppedOk(s: Store, info: map<PageId, Info>, root: PageId, lim: Limits, x: PageId,
                           l: PageId, r: PageId, pp: PageId, i: int, m: map<int, int>)
    returns (info': map<PageId, Info>)
    requires Short(s, info, root, lim, x, l, r, pp, i) && Holds(s, info, m)
    requires l in s && r in s && s[l].leaf == s[r].leaf && (!s[r].leaf ==> |s[r].entries| > 0) && pp != l && pp != r
    requires |s[l].entries| + |s[r].entries| <= lim.MaxSize(s[l].leaf)
    ensures var t := JoinedAndDropped(s, l, r, pp, i);
            && t.Keys == s.Keys && TreeExcept(t, info', root, lim, pp) && Holds(t, info', m)
            && pp in t && |t[pp].entries| <= lim.MaxSize(t[pp].leaf)
    ensures r in info && info'.Keys == info.Keys - {r} && root in info' && pp in info' && l in info'
    ensures forall c :: c in info' ==> c in info && info'[c].level == info[c].level
  {
    NeighboursInfo(s, info, root, lim, x, l, r, pp, i);
    var t := JoinedAndDropped(s, l, r, pp, i);
    assert t.Keys == s.Keys;
    JoinedStoreMerges(s, info, root, lim, x, l, r, pp, i, t);
    info' := Coalesced(s, info, root, lim, x, l, r, pp, i, t, m);
  }

  // ------------------------------------------------------------------ which page to free

  /** Joining two pages makes no difference to who is a first child higher up. */
  lemma FirstChildrenKept(s: Store, info: map<PageId, Info>, root: PageId, lim: Limits, x: PageId,
                          l: PageId, r: PageId, pp: PageId, i: int)
    requires Short(s, info, root, lim, x, l, r, pp, i)
    ensures l in s && r in s && pp in s && pp != l && pp != r && s[l].leaf == s[r].leaf && x in info
    ensures (!s[r].leaf ==> |s[r].entries| > 0) && info[pp].level == info[x].level + 1
    ensures r in info && info[r].level == info[x].level
    ensures forall c :: c in info && info[c].level > info[x].level && c != root ==>
              FirstChild(JoinedAndDropped(s, l, r, pp, i), c) == FirstChild(s, c)
  {
    ShortPair(s, info, root, lim, x, l, r, pp, i);
    NeighboursInfo(s, info, root, lim, x, l, r, pp, i);
    forall c | c in info && info[c].level > info[x].level && c != root
      ensures FirstChild(JoinedAndDropped(s, l, r, pp, i), c) == FirstChild(s, c)
    {
      FirstChildKept(s, info, root, lim, x, l, r, pp, i, c);
    }
  }

  lemma FirstChildKept(s: Store, info: map<PageId, Info>, root: PageId, lim: Limits, x: PageId,
                       l: PageId, r: PageId, pp: PageId, i: int, c: PageId)
    requires Short(s, info, root, lim, x, l, r, pp, i) && l in info && r in info && x in info
    requires l in s && r in s && pp != l && pp != r && s[l].leaf == s[r].leaf && (!s[r].leaf ==> |s[r].entries| > 0)
    requires info[l].level == info[r].level == info[x].level && info[pp].level == info[x].level + 1
    requires c in info && info[c].level > info[x].level && c != root
    ensures FirstChild(JoinedAndDropped(s, l, r, pp, i), c) == FirstChild(s, c)
  {
    var q, _ := ParentPosition(s, info, root, lim, x, c);
    assert q != l && q != r && q != pp;
    if !s[r].leaf {
      NamedByChild(s, info, root, lim, x, r, s[pp].entries[i].key, c);
    }
  }

  /** CoalesceOrRedistribute has its caller free the page it was called for.  After coalescing, that
      page is out of the tree exactly if it was not the first child of its parent: a first child is
      the page that its sibling has been emptied into. */
  lemma FreedPageStillNamed(s: Store, info: map<PageId, Info>, root: PageId, lim: Limits,
                            sibling: PageId, node: PageId, parent: PageId, index: int)
    requires Repair(s, info, root, lim, sibling, node, parent, index)
    requires sibling in s && node in s && s[sibling].leaf == s[node].leaf
    requires |s[sibling].entries| + |s[node].entries| <= lim.MaxSize(s[node].leaf)
    ensures var l, r, i := if index == 0 then node else sibling, if index == 0 then sibling else node,
                           if index == 0 then 1 else index;
            && parent in s && parent != l && parent != r && 0 <= i < |s[parent].entries|
            && (!s[r].leaf ==> |s[r].entries| > 0)
            && (HasChild(JoinedAndDropped(s, l, r, parent, i)[parent], node) <==> index == 0)
  {
    var l, r, i := if index == 0 then node else sibling, if index == 0 then sibling else node,
                   if index == 0 then 1 else index;
    ShortPair(s, info, root, lim, node, l, r, parent, i);
    var es := RemovedAt(s[parent].entries, i);
    if index == 0 {
      assert es[0].value == node;
    } else if HasChild(s[parent].(entries := es), node) {
      var j :| 0 <= j < |es| && es[j].value == node;
      ChildIndexUnique(s, info, root, lim, node, parent, if j < i then j else j + 1, i);
    }
  }

  /** The left one of two leaves has just lost its only entry.  The right one is emptied into it,
      and it becomes the root; it is also the page that is then freed. */
  lemma RootFreed() returns (s: Store, info: map<PageId, Info>)
    ensures Repair(s, info, 0, Limits(2, 4), 2, 1, 0, 0)
    ensures 0 in s && 1 in s && 2 in s && s[1].leaf && s[2].leaf && |s[0].entries| == 2
    ensures |s[2].entries| + |s[1].entries| <= Limits(2, 4).MaxSize(true)
    ensures JoinedAndDropped(s, 1, 2, 0, 1)[0].entries == [Entry(0, 1)]
  {
    s := map[0 := Node(false, INVALID_PAGE_ID, INVALID_PAGE_ID, [Entry(0, 1), Entry(5, 2)]),
             1 := Node(true, 0, 2, []),
             2 := Node(true, 0, INVALID_PAGE_ID, [Entry(5, 50)])];
    info := map[0 := Info(1, Inf, Inf), 1 := Info(0, Inf, Fin(5)), 2 := Info(0, Fin(5), Inf)];
    assert s[0].entries[0].value == 1 && s[0].entries[1].value == 2;
    assert ChildOk(s, info, 0, 0) && ChildOk(s, info, 0, 1);
    assert NodeOk(s, info, 0, Limits(2, 4), 1, 0);
    assert NodeOk(s, info, 0, Limits(2, 4), 1, 1);
    assert NodeOk(s, info, 0, Limits(2, 4), 1, 2);
    AllNodesOk(s, info, 0, Limits(2, 4), 1);
  }
}
