/** What the repair of a tree after a removal has done to its pages, and which of them the program frees. */
module TreeRepair {
  import opened Common
  import opened TreeStore

  /** freed are pages, from the given level on, of a tree with the root root, the pages s and info, of
      which info' is left: as many as have left it, and each of them still there exactly if it was a first
      child.  Inside(0) opens this up. */
  ghost predicate Frees(freed: set<PageId>, info: map<PageId, Info>, info': map<PageId, Info>, root: PageId, s: Store,
                        level: nat) {
    forall i {:trigger Inside(i)} :: Inside(i) ==>
      && info'.Keys <= info.Keys && freed <= info.Keys && |info'.Keys| + |freed| == |info.Keys|
      && forall c :: c in freed ==> info[c].level >= level && (c in info' <==> c != root && FirstChild(s, c))
  }

  /** From the given level on, the same pages are first children. */
  ghost predicate SameFirsts(info: map<PageId, Info>, root: PageId, s: Store, s': Store, level: nat) {
    forall i {:trigger Inside(i)} :: Inside(i) ==>
      forall c :: c in info && info[c].level >= level && c != root ==> FirstChild(s', c) == FirstChild(s, c)
  }

  lemma FreesNone(info: map<PageId, Info>, info': map<PageId, Info>, root: PageId, s: Store, level: nat)
    requires info'.Keys == info.Keys
    ensures Frees({}, info, info', root, s, level)
  {
  }

  lemma FreesRoot(info: map<PageId, Info>, info': map<PageId, Info>, root: PageId, s: Store)
    requires root in info && info'.Keys == info.Keys - {root}
    ensures Frees({root}, info, info', root, s, info[root].level)
  {
    assert info.Keys == info'.Keys + {root};
  }

  /** Coalescing, which took page r out, adds the page node to those freed further up. */
  lemma FreesMore(above: set<PageId>, info: map<PageId, Info>, s: Store, info1: map<PageId, Info>, s1: Store,
                  info': map<PageId, Info>, root: PageId, node: PageId, r: PageId, level: nat)
    requires r in info && info1.Keys == info.Keys - {r} && forall c :: c in info1 ==> info1[c].level == info[c].level
    requires Frees(above, info1, info', root, s1, level + 1) && SameFirsts(info, root, s, s1, level + 1)
    requires node in info && info[node].level == level && node != root && (node in info' <==> FirstChild(s, node))
    ensures Frees(above + {node}, info, info', root, s, level) && |above + {node}| == |above| + 1
  {
    assert Inside(0);
    assert node !in above;
    OneMoreEach(info.Keys, info1.Keys, r, above, node);
    forall c | c in above
      ensures info[c].level >= level && (c in info' <==> c != root && FirstChild(s, c))
    {
      assert c in info1.Keys && info1[c].level >= level + 1;
    }
  }

  lemma OneMoreEach(a: set<PageId>, b: set<PageId>, r: PageId, above: set<PageId>, node: PageId)
    requires r in a && b == a - {r} && node !in above
    ensures |a| == |b| + 1 && |above + {node}| == |above| + 1
  {
    assert a == b + {r};
  }

  /** That is so for pages in which nothing has changed that would matter. */
  lemma FreesSame(freed: set<PageId>, info: map<PageId, Info>, info': map<PageId, Info>, root: PageId, s: Store,
                  s': Store, level: nat)
    requires Frees(freed, info, info', root, s', level) && SameFirsts(info, root, s, s', 0)
    ensures Frees(freed, info, info', root, s, 0)
  {
    assert Inside(0);
  }

  /** The entries of a leaf make no difference. */
  lemma LeafFirsts(s: Store, info: map<PageId, Info>, root: PageId, lim: Limits, p: PageId, n: Node)
    requires TreeExcept(s, info, root, lim, INVALID_PAGE_ID) && p in info && p in s && s[p].leaf
    requires n == s[p].(entries := n.entries)
    ensures SameFirsts(info, root, s, s[p := n], 0)
  {
    forall c | c in info && c != root
      ensures FirstChild(s[p := n], c) == FirstChild(s, c)
    {
      var q, _ := ParentPosition(s, info, root, lim, INVALID_PAGE_ID, c);
    }
  }

  /** After a repair of page node, info' is left of info, and keys are the ids in the table besides spare
      ones.  If a page of the level of node has left the tree, that is emptied; all others of that level
      and below have stayed.  Inside(0) opens this up. */
  ghost predicate Stayed(info: map<PageId, Info>, node: PageId, spare: set<PageId>,
                         info': map<PageId, Info>, keys: set<PageId>, deleted: bool, emptied: PageId)
    requires node in info
  {
    forall i {:trigger Inside(i)} :: Inside(i) ==>
      && info'.Keys <= info.Keys
      && (deleted ==> emptied in info && info[emptied].level == info[node].level && emptied !in info')
      && keys == info'.Keys + spare + (if deleted then {emptied} else {})
      && forall c :: c in info && info[c].level <= info[node].level && !(deleted && c == emptied) ==> c in info'
  }

  /** What a repair of page node has done, s and info being the pages before. */
  ghost predicate Outcome(s: Store, info: map<PageId, Info>, root: PageId, node: PageId, spare: set<PageId>,
                          info': map<PageId, Info>, keys: set<PageId>, deleted: bool, emptied: PageId,
                          freed: set<PageId>)
    requires node in info
  {
    && Frees(freed, info, info', root, s, info[node].level) && (deleted <==> node in freed)
    && Stayed(info, node, spare, info', keys, deleted, emptied)
  }

  lemma OutcomeNone(s: Store, info: map<PageId, Info>, root: PageId, node: PageId, spare: set<PageId>,
                    info': map<PageId, Info>)
    requires node in info && info'.Keys == info.Keys
    ensures Outcome(s, info, root, node, spare, info', info.Keys + spare, false, node, {})
  {
    FreesNone(info, info', root, s, info[node].level);
    assert forall c :: c in info.Keys <==> c in info'.Keys;
  }

  lemma OutcomeRoot(s: Store, info: map<PageId, Info>, root: PageId, lim: Limits, spare: set<PageId>,
                    info': map<PageId, Info>)
    requires TreeExcept(s, info, root, lim, root) && info'.Keys == info.Keys - {root}
    ensures Outcome(s, info, root, root, spare, info', info.Keys + spare, true, root, {root})
  {
    FreesRoot(info, info', root, s);
    assert info.Keys == info'.Keys + {root};
    assert forall c :: c in info.Keys && c != root ==> c in info'.Keys;
  }

  lemma StayedKeys(info: map<PageId, Info>, node: PageId, spare: set<PageId>,
                   info': map<PageId, Info>, keys: set<PageId>, deleted: bool, emptied: PageId)
    requires node in info && Stayed(info, node, spare, info', keys, deleted, emptied)
    ensures deleted ==> emptied !in info'
    ensures info'.Keys <= info.Keys && keys == info'.Keys + spare + (if deleted then {emptied} else {})
  {
    assert Inside(0);
  }

  /** Page r has been emptied, which left info1; then the parent of node has been repaired. */
  lemma StayedAbove(info: map<PageId, Info>, node: PageId, spare: set<PageId>, r: PageId,
                    info1: map<PageId, Info>, parent: PageId,
                    info': map<PageId, Info>, keys: set<PageId>, deleted: bool, emptied: PageId)
    requires node in info && info.Keys !! spare && r in info && info[r].level == info[node].level
    requires info1.Keys == info.Keys - {r} && forall c :: c in info1 ==> info1[c].level == info[c].level
    requires parent in info1 && info1[parent].level == info[node].level + 1
    requires Stayed(info1, parent, spare + {r}, info', keys, deleted, emptied)
    ensures Stayed(info, node, spare, info', keys - (if deleted then {emptied} else {}), true, r)
    ensures node in info' <==> node != r
  {
    StayedKeys(info1, parent, spare + {r}, info', keys, deleted, emptied);
    assert Inside(0);
    forall c | c in info && info[c].level <= info[node].level && c != r
      ensures c in info'
    {
      assert c in info1.Keys;
    }
  }

  /** What is freed after a removal is out of the tree exactly if none of it is a first child, apart from a
      root that has been given up. */
  lemma FreedOut(freed: set<PageId>, info: map<PageId, Info>, info': map<PageId, Info>, root: PageId, s: Store)
    requires Frees(freed, info, info', root, s, 0)
    ensures freed !! info'.Keys <==> forall c :: c in freed ==> c == root || !FirstChild(s, c)
  {
    assert Inside(0);
    if forall c :: c in freed ==> c == root || !FirstChild(s, c) {
      assert forall c :: c in freed ==> c !in info'.Keys;
    } else {
      var c :| c in freed && c != root && FirstChild(s, c);
      assert c in info'.Keys;
    }
  }
}
