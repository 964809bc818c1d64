/** Whole runs of a tree, from its creation on: what it holds in the end is what a map would. */
module TreeRuns {
  import opened Common
  import opened BPlusTrees
  import opened IndexIterators
  import opened TreeReading
  import opened TreeStore

  datatype Op = Insert(key: int, value: int) | Remove(key: int)

  function Apply(m: map<int, int>, op: Op): map<int, int> {
    match op
    case Insert(k, v) => if k in m then m else m[k := v]
    case Remove(k) => m - {k}
  }

  function ApplyAll(m: map<int, int>, ops: seq<Op>): map<int, int> {
    if ops == [] then m else Apply(ApplyAll(m, ops[..|ops| - 1]), ops[|ops| - 1])
  }

  /** A new tree after any operations in any order, and its entries as a scan finds them. */
  method Run(leafMaxSize: int, internalMaxSize: int, ops: seq<Op>) returns (tree: BPlusTree, es: seq<Entry>)
    requires Limits(leafMaxSize, internalMaxSize).Valid()
    ensures tree.Valid() && tree.contents == ApplyAll(map[], ops)
    ensures Lists(es, Info(0, Inf, Inf), ApplyAll(map[], ops))
  {
    tree := new BPlusTree(leafMaxSize, internalMaxSize);
    for i := 0 to |ops|
      invariant tree.Valid() && tree.contents == ApplyAll(map[], ops[..i])
      invariant fresh(tree) && fresh(tree.listed) && fresh(tree.arrays)
    {
      assert ops[..i + 1][..i] == ops[..i];
      match ops[i]
      case Insert(k, v) => var _ := tree.Insert(k, v);
      case Remove(k) => ghost var _ := tree.Remove(k);
    }
    assert ops[..|ops|] == ops;
    es := [];
    if !tree.IsEmpty() {
      es := Scan(tree);
    }
  }

  /** A tree between operations: its pages, read from the root without any further knowledge, are one
      balanced search tree for all keys; the pages in the table are exactly the ones that can be
      reached from the root, so that none has been lost and none deleted too early; and the tree is
      only as high as the number of keys warrants. */
  lemma PagesAreTheTree(tree: BPlusTree, p: PageId)
    requires tree.Valid() && !tree.IsEmpty()
    ensures tree.rootPageId in tree.info
    ensures var h := tree.info[tree.rootPageId].level; var lim := tree.Lim();
            && SearchTree(tree.store, lim, tree.rootPageId, INVALID_PAGE_ID, h, Inf, Inf)
            && (h >= 1 ==> |tree.contents| >= 2 * (Power(lim.internalMax / 2, h - 1) * (lim.leafMax / 2)))
    ensures p in tree.pages <==> exists steps: nat :: Reaches(tree.store, tree.rootPageId, p, steps)
  {
    var s, info, root, lim := tree.store, tree.info, tree.rootPageId, tree.Lim();
    assert NodeOk(s, info, root, lim, INVALID_PAGE_ID, root);
    ReadsAsSearchTree(s, info, root, lim, root);
    if info[root].level >= 1 {
      HeightBound(s, info, root, lim, tree.contents);
    }
    assert Agree(p, tree.pages, s);
    assert p in s.Keys <==> p in info.Keys;
    LiveIsReachable(s, info, root, lim, p);
  }
}
