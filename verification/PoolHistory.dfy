/** What clients do with the page cache, and since when a page has been idle by that.  The page that has to
    make room for another one is the one that has been resident and unpinned for longest. */
module PoolHistory {
  import opened Common
  import opened LRUReplacers
  import opened PoolState

  datatype Op = Fetch(p: PageId) | New(p: PageId) | Write(p: PageId, d: Data) | Unpin(p: PageId, dirty: bool)

  datatype Result = Done | Refused | Bytes(d: Data)

  predicate PinsPage(op: Op, r: Result, p: PageId) {
    r.Bytes? && (op == Fetch(p) || op == New(p))
  }

  predicate UnpinsPage(op: Op, p: PageId) {
    op.Unpin? && op.p == p
  }

  /** The first time that page p was unpinned after it had been pinned for the last time, or -1. */
  function IdleSince(ops: seq<Op>, rs: seq<Result>, p: PageId): (i: int)
    requires |rs| == |ops|
    ensures -1 <= i < |ops|
  {
    if ops == [] then -1
    else
      var n := |ops| - 1;
      var before := IdleSince(ops[..n], rs[..n], p);
      if PinsPage(ops[n], rs[n], p) then -1
      else if UnpinsPage(ops[n], p) && before == -1 then n
      else before
  }

  /** The pinned pages are those that the history says are pinned, and the evictable frames are in the order
      in which their pages became idle, latest first. */
  ghost predicate InOrder(s: Pool, ops: seq<Op>, rs: seq<Result>)
    requires |rs| == |ops|
  {
    && (forall q {:trigger IdleSince(ops, rs, q)} :: q in s.table ==> (IsPinned(s, q) <==> IdleSince(ops, rs, q) == -1))
    && LatestFirst(s.frames, s.lru, ops, rs)
  }

  function PageIn(frames: seq<Frame>, f: FrameId): PageId {
    if 0 <= f < |frames| then frames[f].pageId else INVALID_PAGE_ID
  }

  predicate LatestFirst(frames: seq<Frame>, lru: seq<FrameId>, ops: seq<Op>, rs: seq<Result>)
    requires |rs| == |ops|
  {
    forall i, j :: 0 <= i < j < |lru| ==>
      IdleSince(ops, rs, PageIn(frames, lru[i])) > IdleSince(ops, rs, PageIn(frames, lru[j]))
  }

  /** Whatever page goes from s to t, there was no free frame, it was idle, and no other page had been idle
      for as long. */
  ghost predicate EvictsOldest(s: Pool, t: Pool, ops: seq<Op>, rs: seq<Result>)
    requires |rs| == |ops|
  {
    forall q :: q in s.table && q !in t.table ==>
      && s.free == [] && !IsPinned(s, q) && IdleSince(ops, rs, q) >= 0
      && forall p :: p in s.table && p != q && !IsPinned(s, p) ==> IdleSince(ops, rs, q) < IdleSince(ops, rs, p)
  }

  /** The last of the evictable frames has the page that has been idle for longest. */
  lemma LastIsOldest(s: Pool, ops: seq<Op>, rs: seq<Result>, p: PageId)
    requires |rs| == |ops| && Consistent(s) && InOrder(s, ops, rs) && s.lru != [] && p in s.table && !IsPinned(s, p)
    ensures var f := s.lru[|s.lru| - 1];
            && 0 <= f < |s.frames|
            && var q := s.frames[f].pageId;
            && q in s.table && s.table[q] == f && !IsPinned(s, q) && IdleSince(ops, rs, q) >= 0
            && (p != q ==> IdleSince(ops, rs, q) < IdleSince(ops, rs, p))
  {
    var n := |s.lru| - 1;
    var f := s.lru[n];
    assert f in s.lru;
    assert FrameOk(s, f) && EntryOk(s, p) && FrameOk(s, s.table[p]);
    assert s.table[p] in s.lru;
    var i :| 0 <= i < |s.lru| && s.lru[i] == s.table[p];
    assert s.frames[s.lru[i]].pageId == p;
    assert PageIn(s.frames, s.lru[i]) == p && PageIn(s.frames, f) == s.frames[f].pageId;
  }

  // ------------------------------------------------------------------ what each operation does to the order

  /** One operation more makes no difference to a page that it neither pins nor unpins. */
  lemma SinceKept(ops: seq<Op>, rs: seq<Result>, op: Op, r: Result, p: PageId)
    requires |rs| == |ops|
    ensures var i, j := IdleSince(ops, rs, p), IdleSince(ops + [op], rs + [r], p);
            j == if PinsPage(op, r, p) then -1 else if UnpinsPage(op, p) && i == -1 then |ops| else i
  {
    assert (ops + [op])[..|ops|] == ops && (rs + [r])[..|rs|] == rs;
  }

  /** Page p keeps its place in the order: the operation does not pin it, nor unpin it for the first time. */
  predicate Untouched(ops: seq<Op>, rs: seq<Result>, op: Op, r: Result, p: PageId)
    requires |rs| == |ops|
  {
    !PinsPage(op, r, p) && (UnpinsPage(op, p) ==> IdleSince(ops, rs, p) >= 0)
  }

  /** The frames that are left on the list are in the same order, and hold the same pages. */
  lemma FewerInOrder(frames: seq<Frame>, lru: seq<FrameId>, frames': seq<Frame>, lru': seq<FrameId>,
                     ops: seq<Op>, rs: seq<Result>, op: Op, r: Result)
    requires |rs| == |ops| && LatestFirst(frames, lru, ops, rs)
    requires forall i, j :: 0 <= i < j < |lru'| ==> Precedes(lru, lru'[i], lru'[j])
    requires forall f :: f in lru' ==>
               PageIn(frames', f) == PageIn(frames, f) && Untouched(ops, rs, op, r, PageIn(frames, f))
    ensures LatestFirst(frames', lru', ops + [op], rs + [r])
  {
    forall i, j | 0 <= i < j < |lru'|
      ensures IdleSince(ops + [op], rs + [r], PageIn(frames', lru'[i]))
              > IdleSince(ops + [op], rs + [r], PageIn(frames', lru'[j]))
    {
      assert lru'[i] in lru' && lru'[j] in lru' && Precedes(lru, lru'[i], lru'[j]);
      SinceKept(ops, rs, op, r, PageIn(frames, lru'[i]));
      SinceKept(ops, rs, op, r, PageIn(frames, lru'[j]));
    }
  }

  predicate Precedes(s: seq<FrameId>, f: FrameId, g: FrameId) {
    exists i, j :: 0 <= i < j < |s| && s[i] == f && s[j] == g
  }

  lemma {:induction false} WithoutPrecedes(s: seq<FrameId>, f: FrameId, i: int, j: int)
    requires 0 <= i < j < |Without(s, f)|
    ensures Precedes(s, Without(s, f)[i], Without(s, f)[j])
    decreases |s|
  {
    var r := Without(s[1..], f);
    var a, b := Without(s, f)[i], Without(s, f)[j];
    if s[0] == f {
      WithoutPrecedes(s[1..], f, i, j);
      Shifted(s, a, b);
    } else if i == 0 {
      assert b == r[j - 1] && b in r;
      var k :| 0 <= k < |s[1..]| && s[1..][k] == b;
      assert s[0] == a && s[k + 1] == b;
    } else {
      WithoutPrecedes(s[1..], f, i - 1, j - 1);
      Shifted(s, a, b);
    }
  }

  lemma Shifted(s: seq<FrameId>, a: FrameId, b: FrameId)
    requires s != [] && Precedes(s[1..], a, b)
    ensures Precedes(s, a, b)
  {
    var i, j :| 0 <= i < j < |s[1..]| && s[1..][i] == a && s[1..][j] == b;
    assert s[i + 1] == a && s[j + 1] == b;
  }

  /** A frame that is evictable holds an idle resident page. */
  lemma EvictableIdle(s: Pool, f: FrameId)
    requires Consistent(s) && f in s.lru
    ensures 0 <= f < |s.frames|
    ensures var q := PageIn(s.frames, f); q in s.table && s.table[q] == f && !IsPinned(s, q)
  {
    assert FrameOk(s, f);
  }

  /** An operation that changes no page's place leaves the order as it is. */
  lemma NothingMoves(s: Pool, t: Pool, ops: seq<Op>, rs: seq<Result>, op: Op, r: Result)
    requires |rs| == |ops| && Consistent(s) && InOrder(s, ops, rs) && t.table == s.table && t.lru == s.lru
    requires forall q :: q in s.table ==> (IsPinned(t, q) <==> IsPinned(s, q)) && Untouched(ops, rs, op, r, q)
    requires forall f :: PageIn(t.frames, f) == PageIn(s.frames, f)
    ensures InOrder(t, ops + [op], rs + [r]) && EvictsOldest(s, t, ops, rs)
  {
    forall q | q in t.table
      ensures IsPinned(t, q) <==> IdleSince(ops + [op], rs + [r], q) == -1
    {
      SinceKept(ops, rs, op, r, q);
    }
    forall f | f in s.lru
      ensures Untouched(ops, rs, op, r, PageIn(s.frames, f))
    {
      EvictableIdle(s, f);
    }
    FewerInOrder(s.frames, s.lru, t.frames, t.lru, ops, rs, op, r);
  }

  lemma PinnedInOrder(s: Pool, p: PageId, ops: seq<Op>, rs: seq<Result>, op: Op, r: Result)
    requires |rs| == |ops| && Valid(s) && InOrder(s, ops, rs) && p in s.table && op == Fetch(p) && r.Bytes?
    ensures 0 <= s.table[p] < |s.frames|
    ensures InOrder(Pinned(s, p), ops + [op], rs + [r]) && EvictsOldest(s, Pinned(s, p), ops, rs)
  {
    PinnedOk(s, p);
    var t := Pinned(s, p);
    forall q | q in t.table
      ensures IsPinned(t, q) <==> IdleSince(ops + [op], rs + [r], q) == -1
    {
      assert EntryOk(s, q) && EntryOk(s, p) && FrameOk(s, s.table[p]);
      SinceKept(ops, rs, op, r, q);
    }
    forall i, j | 0 <= i < j < |t.lru|
      ensures Precedes(s.lru, t.lru[i], t.lru[j])
    {
      WithoutPrecedes(s.lru, s.table[p], i, j);
    }
    forall f | f in t.lru
      ensures PageIn(t.frames, f) == PageIn(s.frames, f) && Untouched(ops, rs, op, r, PageIn(s.frames, f))
    {
      EvictableIdle(s, f);
    }
    FewerInOrder(s.frames, s.lru, t.frames, t.lru, ops, rs, op, r);
  }

  lemma PlacedInOrder(s: Pool, p: PageId, d: Data, ops: seq<Op>, rs: seq<Result>, op: Op, r: Result)
    requires |rs| == |ops| && Consistent(s) && Available(s) && InOrder(s, ops, rs) && p !in s.table
    requires r.Bytes? && (op == Fetch(p) || op == New(p))
    ensures 0 <= NextFrame(s) < |s.frames|
    ensures var t := Placed(Vacated(s), p, NextFrame(s), d);
            InOrder(t, ops + [op], rs + [r]) && EvictsOldest(s, t, ops, rs)
  {
    NextFrameOk(s);
    var t := Placed(Vacated(s), p, NextFrame(s), d);
    forall q | q in t.table
      ensures IsPinned(t, q) <==> IdleSince(ops + [op], rs + [r], q) == -1
    {
      SinceKept(ops, rs, op, r, q);
      if q != p {
        PlacedTable(s, p, d, q);
      }
    }
    PlacedListed(s, p, d, ops, rs, op, r);
    forall q | q in s.table && q !in t.table
      ensures s.free == [] && !IsPinned(s, q) && IdleSince(ops, rs, q) >= 0
      ensures forall c :: c in s.table && c != q && !IsPinned(s, c) ==> IdleSince(ops, rs, q) < IdleSince(ops, rs, c)
    {
      OldestLeaves(s, p, d, ops, rs, q);
    }
  }

  lemma PlacedListed(s: Pool, p: PageId, d: Data, ops: seq<Op>, rs: seq<Result>, op: Op, r: Result)
    requires |rs| == |ops| && Consistent(s) && Available(s) && InOrder(s, ops, rs) && p !in s.table
    requires r.Bytes? && (op == Fetch(p) || op == New(p))
    ensures 0 <= NextFrame(s) < |s.frames|
    ensures var t := Placed(Vacated(s), p, NextFrame(s), d); LatestFirst(t.frames, t.lru, ops + [op], rs + [r])
  {
    NextFrameOk(s);
    var t := Placed(Vacated(s), p, NextFrame(s), d);
    assert s.free == [] ==> s.lru == t.lru + [NextFrame(s)] && t.lru == s.lru[..|s.lru| - 1];
    forall f | f in t.lru
      ensures PageIn(t.frames, f) == PageIn(s.frames, f) && Untouched(ops, rs, op, r, PageIn(s.frames, f))
    {
      assert f in s.lru;
      EvictableIdle(s, f);
      assert FrameOk(s, f);
    }
    FewerInOrder(s.frames, s.lru, t.frames, t.lru, ops, rs, op, r);
  }

  lemma OldestLeaves(s: Pool, p: PageId, d: Data, ops: seq<Op>, rs: seq<Result>, q: PageId)
    requires |rs| == |ops| && Consistent(s) && Available(s) && InOrder(s, ops, rs) && p !in s.table
    requires 0 <= NextFrame(s) < |s.frames| && q in s.table && q !in Placed(Vacated(s), p, NextFrame(s), d).table
    ensures s.free == [] && !IsPinned(s, q) && IdleSince(ops, rs, q) >= 0
    ensures forall c :: c in s.table && c != q && !IsPinned(s, c) ==> IdleSince(ops, rs, q) < IdleSince(ops, rs, c)
  {
    PlacedTable(s, p, d, q);
    var f := s.lru[|s.lru| - 1];
    assert f in s.lru && EntryOk(s, q);
    EvictableIdle(s, f);
    forall c | c in s.table && c != q && !IsPinned(s, c)
      ensures IdleSince(ops, rs, q) < IdleSince(ops, rs, c)
    {
      LastIsOldest(s, ops, rs, c);
    }
  }

  lemma UnpinnedInOrder(s: Pool, p: PageId, dirty: bool, ops: seq<Op>, rs: seq<Result>, op: Op, r: Result)
    requires |rs| == |ops| && Valid(s) && InOrder(s, ops, rs) && IsPinned(s, p) && op.Unpin? && op.p == p && r.Done?
    ensures InOrder(Unpinned(s, p, dirty), ops + [op], rs + [r]) && EvictsOldest(s, Unpinned(s, p, dirty), ops, rs)
  {
    var t, f := Unpinned(s, p, dirty), s.table[p];
    assert EntryOk(s, p) && FrameOk(s, f);
    assert t.lru == [f] + s.lru;
    forall q | q in t.table
      ensures IsPinned(t, q) <==> IdleSince(ops + [op], rs + [r], q) == -1
    {
      assert EntryOk(s, q);
      SinceKept(ops, rs, op, r, q);
    }
    forall i, j | 0 <= i < j < |t.lru|
      ensures IdleSince(ops + [op], rs + [r], PageIn(t.frames, t.lru[i]))
              > IdleSince(ops + [op], rs + [r], PageIn(t.frames, t.lru[j]))
    {
      assert t.lru[j] == s.lru[j - 1] && s.lru[j - 1] in s.lru;
      assert PageIn(t.frames, t.lru[j]) == PageIn(s.frames, t.lru[j]);
      EvictableIdle(s, s.lru[j - 1]);
      SinceKept(ops, rs, op, r, PageIn(t.frames, t.lru[i]));
      SinceKept(ops, rs, op, r, PageIn(t.frames, t.lru[j]));
      if i > 0 {
        assert t.lru[i] == s.lru[i - 1] && s.lru[i - 1] in s.lru;
        EvictableIdle(s, s.lru[i - 1]);
      }
    }
  }
}
