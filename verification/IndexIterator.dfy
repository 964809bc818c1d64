/** The iterator over the entries of a tree, and the scan from one end to the other. */
module IndexIterators {
  import opened Common
  import opened TreeStore
  import opened BPlusTreePages
  import opened BPlusTrees
  import opened TreeReading
  import LeafPage
  import TreeInsert

  class IndexIterator {
    var leaf: BPlusTreePage?
    var index: int
    var pageId: PageId

    constructor AtLeaf(leaf: BPlusTreePage, index: int)
      ensures this.leaf == leaf && this.index == index && pageId == leaf.pageId
    {
      this.leaf, this.index, pageId := leaf, index, leaf.pageId;
    }

    constructor AtPage(pageId: PageId, index: int)
      ensures this.pageId == pageId && this.index == index
    {
      leaf, this.pageId, this.index := null, pageId, index;
    }

    predicate Equals(other: IndexIterator)
      reads this, other
    {
      pageId == other.pageId && index == other.index
    }

    predicate IsEnd()
      reads this
    {
      pageId == INVALID_PAGE_ID && index == -1
    }

    /** Within a leaf of the tree, possibly just behind its last entry. */
    ghost predicate Inside(tree: BPlusTree)
      reads this, tree`info, tree`pages, tree`store
    {
      && pageId in tree.info && pageId in tree.store && tree.store[pageId].leaf
      && pageId in tree.pages && leaf == tree.pages[pageId]
      && 0 <= index <= |tree.store[pageId].entries|
    }

    /** At an entry with the key k. */
    ghost predicate StandsAt(tree: BPlusTree, k: int)
      reads this, tree`info, tree`pages, tree`store
    {
      && Inside(tree) && index < |tree.store[pageId].entries|
      && tree.store[pageId].entries[index].key == k
    }

    /** At the least key from k on, or at the end if there is none. */
    ghost predicate StandsFrom(tree: BPlusTree, k: int)
      reads this, tree`info, tree`pages, tree`store, tree`contents
    {
      if IsEnd() then NoneFrom(tree.contents, k)
      else exists h :: StandsAt(tree, h) && LeastFrom(tree.contents, k, h)
    }

    /** The entry the iterator stands at. */
    method Item(tree: BPlusTree) returns (e: Entry)
      requires tree.Valid() && exists k :: StandsAt(tree, k)
      ensures StandsAt(tree, e.key) && e.key in tree.contents && e.value == tree.contents[e.key]
    {
      var page := tree.FetchPage(pageId);
      e := page.entries[index];
      assert e == page.View().entries[index];
      assert LeafHolds(tree.store[pageId], tree.info[pageId], tree.contents);
    }

    /** On to the next entry: if everything up to the present position lies below k, that is the
        first one from k on. */
    method Next(tree: BPlusTree, ghost k: int)
      requires tree.Valid() && Inside(tree)
      requires var es := tree.store[pageId].entries;
               Parts(es, tree.info[pageId], if index < |es| then index + 1 else index, k)
      modifies this
      ensures StandsFrom(tree, k)
    {
      ghost var es := tree.store[pageId].entries;
      ghost var c := if index < |es| then index + 1 else index;
      LeastAtPosition(tree.store, tree.info, tree.rootPageId, tree.Lim(), tree.contents, pageId, c, k);
      var page := tree.FetchPage(pageId);
      var size := page.size;
      index := index + 1;
      if index < size {
        assert StandsAt(tree, es[index].key);
        return;
      }
      var next := page.nextPageId;
      assert next == tree.store[pageId].next;
      if next == INVALID_PAGE_ID {
        index, pageId, leaf := -1, INVALID_PAGE_ID, null;
        return;
      }
      leaf := tree.FetchPage(next);
      index, pageId := 0, next;
      assert StandsAt(tree, tree.store[next].entries[0].key);
    }
  }

  method End() returns (it: IndexIterator)
    ensures fresh(it) && it.IsEnd()
  {
    it := new IndexIterator.AtPage(INVALID_PAGE_ID, -1);
  }

  /** At the least key of a tree that is not empty. */
  method Begin(tree: BPlusTree) returns (it: IndexIterator)
    requires tree.Valid() && !tree.IsEmpty()
    ensures fresh(it) && !it.IsEnd()
    ensures exists k :: it.StandsAt(tree, k) && k in tree.contents && forall j :: j in tree.contents ==> k <= j
  {
    var p, page, _ := tree.FindLeafPage(0, true);
    LeastOfAll(tree.store, tree.info, tree.rootPageId, tree.Lim(), tree.contents, p);
    it := new IndexIterator.AtLeaf(page, 0);
    assert it.StandsAt(tree, tree.store[p].entries[0].key);
  }

  /** A leaf has a key at or above the given one. */
  ghost predicate HasFrom(tree: BPlusTree, p: PageId, key: int)
    requires p in tree.info
    reads tree`info, tree`contents
  {
    exists k :: k in tree.contents && k >= key && InRange(tree.info[p], k)
  }

  /** In the leaf p in charge of a key, at its first entry from that key on.  If that leaf ends before,
      the iterator is left just behind its last entry, where nothing can be read; one step forward
      takes it to the least key from there on in the whole tree. */
  method BeginAt(tree: BPlusTree, key: int) returns (it: IndexIterator)
    requires tree.Valid() && !tree.IsEmpty()
    ensures fresh(it) && it.Inside(tree) && !it.IsEnd() && tree.InCharge(it.pageId, key)
    ensures forall p {:trigger tree.InCharge(p, key)} :: tree.InCharge(p, key) ==>
              && p == it.pageId && Parts(tree.store[p].entries, tree.info[p], it.index, key)
              && (it.StandsFrom(tree, key) <==> HasFrom(tree, p, key))
  {
    var p, page, _ := tree.FindLeafPage(key, false);
    assert NodeOk(tree.store, tree.info, tree.rootPageId, tree.Lim(), INVALID_PAGE_ID, p);
    var i := LeafPage.KeyIndex(page, key);
    it := new IndexIterator.AtLeaf(page, i);
    BeginAtPosition(tree, p, key, i);
    if i < |tree.store[p].entries| {
      assert it.StandsAt(tree, tree.store[p].entries[i].key);
    }
    tree.OneInCharge(p, key);
  }

  lemma BeginAtPosition(tree: BPlusTree, p: PageId, key: int, i: int)
    requires tree.Valid() && !tree.IsEmpty()
    requires p in tree.info && tree.store[p].leaf && InRange(tree.info[p], key)
    requires SortedFrom(tree.store[p].entries, 0) && i == TreeInsert.LowerBound(tree.store[p].entries, key)
    ensures Parts(tree.store[p].entries, tree.info[p], i, key)
    ensures i < |tree.store[p].entries| <==> exists k :: k in tree.contents && k >= key && InRange(tree.info[p], k)
    ensures i < |tree.store[p].entries| ==> LeastFrom(tree.contents, key, tree.store[p].entries[i].key)
  {
    assert NodeOk(tree.store, tree.info, tree.rootPageId, tree.Lim(), INVALID_PAGE_ID, p);
    BoundInLeaf(tree.store[p], tree.info[p], tree.contents, key, i);
    LeastAtPosition(tree.store, tree.info, tree.rootPageId, tree.Lim(), tree.contents, p, i, key);
  }

  /** The lower bound of a key parts its leaf, and is behind the last entry if the leaf has no such key. */
  lemma BoundInLeaf(n: Node, f: Info, m: map<int, int>, key: int, i: int)
    requires LeafHolds(n, f, m) && InRange(f, key) && SortedFrom(n.entries, 0)
    requires forall j :: 0 <= j < |n.entries| ==> InRange(f, n.entries[j].key)
    requires i == TreeInsert.LowerBound(n.entries, key)
    ensures Parts(n.entries, f, i, key)
    ensures i < |n.entries| <==> exists k :: k in m && k >= key && InRange(f, k)
  {
    if i < |n.entries| {
      assert n.entries[i].key in m && InRange(f, n.entries[i].key);
    }
    forall k | k in m && k >= key && InRange(f, k)
      ensures i < |n.entries|
    {
      assert HasKey(n, k);
    }
  }

  /** Two leaves below a root. */
  function TwoLeaves(): Store {
    map[0 := Node(false, INVALID_PAGE_ID, INVALID_PAGE_ID, [Entry(0, 1), Entry(7, 2)]),
        1 := Node(true, 0, 2, [Entry(1, 10)]),
        2 := Node(true, 0, INVALID_PAGE_ID, [Entry(9, 90)])]
  }

  function TwoRanges(): map<PageId, Info> {
    map[0 := Info(1, Inf, Inf), 1 := Info(0, Inf, Fin(7)), 2 := Info(0, Fin(7), Inf)]
  }

  lemma TwoLeavesOk()
    ensures TreeExcept(TwoLeaves(), TwoRanges(), 0, Limits(2, 4), INVALID_PAGE_ID)
  {
    var s, info := TwoLeaves(), TwoRanges();
    assert s[0].entries[0].value == 1 && s[0].entries[1].value == 2;
    assert ChildOk(s, info, 0, 0) && ChildOk(s, info, 0, 1);
    assert NodeOk(s, info, 0, Limits(2, 4), INVALID_PAGE_ID, 0);
    assert NodeOk(s, info, 0, Limits(2, 4), INVALID_PAGE_ID, 1);
    assert NodeOk(s, info, 0, Limits(2, 4), INVALID_PAGE_ID, 2);
    AllNodesOk(s, info, 0, Limits(2, 4), INVALID_PAGE_ID);
  }

  /** In this tree the leaf in charge of 5 ends before it, although 9 is there. */
  lemma BeginAtMisses() returns (s: Store, info: map<PageId, Info>, m: map<int, int>)
    ensures TreeExcept(s, info, 0, Limits(2, 4), INVALID_PAGE_ID) && Holds(s, info, m)
    ensures 1 in info && 1 in s && s[1].leaf && InRange(info[1], 5)
    ensures TreeInsert.LowerBound(s[1].entries, 5) == |s[1].entries| && LeastFrom(m, 5, 9)
  {
    TwoLeavesOk();
    s, info, m := TwoLeaves(), TwoRanges(), map[1 := 10, 9 := 90];
    assert s[1].entries[0].key == 1 && s[2].entries[0].key == 9;
    assert LeafHolds(s[1], info[1], m) && LeafHolds(s[2], info[2], m);
    TreeInsert.LowerBoundIs(s[1].entries, 5, 1);
  }

  /** From Begin() to End(): the entries of the tree, each once, in increasing key order. */
  method Scan(tree: BPlusTree) returns (es: seq<Entry>)
    requires tree.Valid() && !tree.IsEmpty()
    ensures Lists(es, Info(0, Inf, Inf), tree.contents)
  {
    es := [];
    var it := Begin(tree);
    var end := End();
    ghost var at :| it.StandsAt(tree, at) && at in tree.contents && forall j :: j in tree.contents ==> at <= j;
    ghost var todo := tree.contents.Keys;
    while !it.Equals(end)
      invariant fresh(it) && end.IsEnd() && it != end
      invariant if it.IsEnd() then todo == {} && Lists(es, Info(0, Inf, Inf), tree.contents)
                else it.StandsAt(tree, at) && at in todo && Lists(es, Info(0, Inf, Fin(at)), tree.contents)
      invariant forall j :: j in todo <==> j in tree.contents && !it.IsEnd() && at <= j
      decreases todo
    {
      var e;
      e, at := Step(tree, it, at);
      ListsMore(es, e, tree.contents, if it.IsEnd() then Inf else Fin(at));
      todo := set j | j in todo && !it.IsEnd() && at <= j;
      es := es + [e];
    }
  }

  /** Reads the entry an iterator stands at, and moves on. */
  method Step(tree: BPlusTree, it: IndexIterator, ghost at: int) returns (e: Entry, ghost next: int)
    requires tree.Valid() && it.StandsAt(tree, at)
    modifies it
    ensures e.key == at && at in tree.contents && e.value == tree.contents[at]
    ensures if it.IsEnd() then NoneFrom(tree.contents, at + 1)
            else it.StandsAt(tree, next) && LeastFrom(tree.contents, at + 1, next)
  {
    e := it.Item(tree);
    PartsBehind(tree, it.pageId, it.index);
    it.Next(tree, at + 1);
    if !it.IsEnd() {
      next :| it.StandsAt(tree, next) && LeastFrom(tree.contents, at + 1, next);
    } else {
      next := at;
    }
  }

  /** The position behind an entry parts the leaf at the next key. */
  lemma PartsBehind(tree: BPlusTree, p: PageId, i: int)
    requires tree.Valid() && !tree.IsEmpty()
    requires p in tree.info && p in tree.store && tree.store[p].leaf && 0 <= i < |tree.store[p].entries|
    ensures Parts(tree.store[p].entries, tree.info[p], i + 1, tree.store[p].entries[i].key + 1)
  {
    assert NodeOk(tree.store, tree.info, tree.rootPageId, tree.Lim(), INVALID_PAGE_ID, p);
    assert InRange(tree.info[p], tree.store[p].entries[i].key);
  }

  lemma ListsMore(es: seq<Entry>, e: Entry, m: map<int, int>, hi: Bound)
    requires Lists(es, Info(0, Inf, Fin(e.key)), m) && e.key in m && m[e.key] == e.value
    requires if hi.Inf? then NoneFrom(m, e.key + 1) else LeastFrom(m, e.key + 1, hi.k)
    ensures Lists(es + [e], Info(0, Inf, hi), m)
  {
    var more := es + [e];
    assert forall i :: 0 <= i < |es| ==> more[i] == es[i] && es[i].key < e.key;
    forall k | k in m && InRange(Info(0, Inf, hi), k)
      ensures exists i :: 0 <= i < |more| && more[i].key == k
    {
      if k == e.key {
        assert more[|es|].key == k;
      } else {
        assert InRange(Info(0, Inf, Fin(e.key)), k);
        var i :| 0 <= i < |es| && es[i].key == k;
        assert more[i].key == k;
      }
    }
  }
}
