/** Runs of a tree on keys that are rows.  The tree has integer keys; among finitely many rows, their
    ranks do for the rows what the comparator does. */
module RankedRuns {
  import opened BPlusTrees
  import opened KeyOrder
  import opened RowCodec
  import opened TreeReading
  import opened TreeStore
  import TreeRuns

  type Key = seq<Field>

  datatype Op = Insert(key: Key, value: int) | Remove(key: Key)

  /** The operation on the ranks. */
  function Ranked(keys: set<Key>, op: Op): TreeRuns.Op
    requires OneSchema(keys) && op.key in keys
  {
    match op
    case Insert(k, v) => TreeRuns.Insert(Rank(keys, k), v)
    case Remove(k) => TreeRuns.Remove(Rank(keys, k))
  }

  /** The operations are on keys of the given set. */
  predicate AllWithin(keys: set<Key>, ops: seq<Op>) {
    forall i :: 0 <= i < |ops| ==> ops[i].key in keys
  }

  function AllRanked(keys: set<Key>, ops: seq<Op>): (r: seq<TreeRuns.Op>)
    requires OneSchema(keys) && AllWithin(keys, ops)
    ensures |r| == |ops|
  {
    seq(|ops|, i requires 0 <= i < |ops| => Ranked(keys, ops[i]))
  }

  /** What a map from rows to values does. */
  function Apply(m: map<Key, int>, op: Op): map<Key, int> {
    match op
    case Insert(k, v) => if k in m then m else m[k := v]
    case Remove(k) => m - {k}
  }

  function ApplyAll(ops: seq<Op>): map<Key, int> {
    if ops == [] then map[] else Apply(ApplyAll(ops[..|ops| - 1]), ops[|ops| - 1])
  }

  /** The map n on ranks says the same as the map m on rows. */
  ghost predicate Corresponds(keys: set<Key>, m: map<Key, int>, n: map<int, int>)
    requires OneSchema(keys)
  {
    && m.Keys <= keys
    && (forall k {:trigger Rank(keys, k)} :: k in keys ==> (k in m <==> Rank(keys, k) in n))
    && (forall k :: k in m ==> m[k] == n[Rank(keys, k)])
    && (forall r :: r in n ==> IsRank(keys, r))
  }

  /** Some key has the rank r. */
  ghost predicate IsRank(keys: set<Key>, r: int)
    requires OneSchema(keys)
  {
    exists k :: k in keys && Rank(keys, k) == r
  }

  lemma RankInjective(keys: set<Key>, a: Key, b: Key)
    requires OneSchema(keys) && a in keys && b in keys && Rank(keys, a) == Rank(keys, b)
    ensures a == b
  {
    RanksOrder(keys, a, b);
    ComparatorIsTotalOrder(a, b, a);
  }

  lemma ApplyCorresponds(keys: set<Key>, m: map<Key, int>, n: map<int, int>, op: Op)
    requires OneSchema(keys) && op.key in keys && Corresponds(keys, m, n)
    ensures Corresponds(keys, Apply(m, op), TreeRuns.Apply(n, Ranked(keys, op)))
  {
    forall k | k in keys && Rank(keys, k) == Rank(keys, op.key)
      ensures k == op.key
    {
      RankInjective(keys, k, op.key);
    }
  }

  lemma {:induction false} RunCorresponds(keys: set<Key>, ops: seq<Op>)
    requires OneSchema(keys) && AllWithin(keys, ops)
    ensures Corresponds(keys, ApplyAll(ops), TreeRuns.ApplyAll(map[], AllRanked(keys, ops)))
    decreases |ops|
  {
    if ops != [] {
      var n := |ops| - 1;
      RunCorresponds(keys, ops[..n]);
      assert AllRanked(keys, ops)[..n] == AllRanked(keys, ops[..n]);
      ApplyCorresponds(keys, ApplyAll(ops[..n]), TreeRuns.ApplyAll(map[], AllRanked(keys, ops[..n])), ops[n]);
    }
  }

  /** The rows ks behind the listed ranks es: all the keys of m, each once, in lexicographic order, with
      their values. */
  ghost predicate ListsRows(keys: set<Key>, ks: seq<Key>, es: seq<Entry>, m: map<Key, int>)
    requires OneSchema(keys)
  {
    && |ks| == |es|
    && (forall i :: 0 <= i < |ks| ==> ks[i] in m && ks[i] in keys && es[i] == Entry(Rank(keys, ks[i]), m[ks[i]]))
    && (forall k :: k in m ==> k in ks)
    && (forall i, j :: 0 <= i < j < |ks| ==> LexBelow(ks[i], ks[j]))
  }

  lemma RowsListed(keys: set<Key>, es: seq<Entry>, m: map<Key, int>, n: map<int, int>) returns (ks: seq<Key>)
    requires OneSchema(keys) && Corresponds(keys, m, n) && Lists(es, Info(0, Inf, Inf), n)
    ensures ListsRows(keys, ks, es, m)
  {
    ks := RowsOf(keys, es);
    forall i, j | 0 <= i < j < |ks|
      ensures LexBelow(ks[i], ks[j])
    {
      RankDecides(keys, ks[i], ks[j]);
    }
    forall k | k in m
      ensures k in ks
    {
      RowListed(keys, ks, es, n, k);
    }
  }

  lemma RankDecides(keys: set<Key>, a: Key, b: Key)
    requires OneSchema(keys) && a in keys && b in keys && Rank(keys, a) < Rank(keys, b)
    ensures LexBelow(a, b)
  {
    RanksOrder(keys, a, b);
    CompareIsLexicographic(a, b);
  }

  lemma RowListed(keys: set<Key>, ks: seq<Key>, es: seq<Entry>, n: map<int, int>, k: Key)
    requires OneSchema(keys) && Lists(es, Info(0, Inf, Inf), n) && k in keys && Rank(keys, k) in n
    requires |ks| == |es| && forall i :: 0 <= i < |ks| ==> ks[i] in keys && Rank(keys, ks[i]) == es[i].key
    ensures k in ks
  {
    var r := Rank(keys, k);
    assert InRange(Info(0, Inf, Inf), r);
    var i :| 0 <= i < |es| && es[i].key == r;
    RankInjective(keys, k, ks[i]);
  }

  lemma RowOf(keys: set<Key>, r: int) returns (k: Key)
    requires OneSchema(keys) && IsRank(keys, r)
    ensures k in keys && Rank(keys, k) == r
  {
    k :| k in keys && Rank(keys, k) == r;
  }

  lemma {:induction false} RowsOf(keys: set<Key>, es: seq<Entry>) returns (ks: seq<Key>)
    requires OneSchema(keys) && forall i :: 0 <= i < |es| ==> IsRank(keys, es[i].key)
    ensures |ks| == |es| && forall i :: 0 <= i < |ks| ==> ks[i] in keys && Rank(keys, ks[i]) == es[i].key
    decreases |es|
  {
    ks := [];
    if es != [] {
      var rest := RowsOf(keys, es[1..]);
      var k := RowOf(keys, es[0].key);
      ks := [k] + rest;
    }
  }

  /** A new tree after any operations on rows, which it sees as their ranks: in the end it holds what a
      map from rows would, and a scan meets the rows in lexicographic order. */
  method Run(leafMaxSize: int, internalMaxSize: int, keys: set<Key>, ops: seq<Op>)
    returns (tree: BPlusTree, es: seq<Entry>, ghost ks: seq<Key>)
    requires Limits(leafMaxSize, internalMaxSize).Valid()
    requires OneSchema(keys) && AllWithin(keys, ops)
    ensures tree.Valid() && Corresponds(keys, ApplyAll(ops), tree.contents)
    ensures ListsRows(keys, ks, es, ApplyAll(ops))
  {
    var ranked := AllRanked(keys, ops);
    tree, es := TreeRuns.Run(leafMaxSize, internalMaxSize, ranked);
    RunCorresponds(keys, ops);
    ks := RowsListed(keys, es, ApplyAll(ops), tree.contents);
  }
}
