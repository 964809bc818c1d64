/** Whole runs of the page cache under one client: the client cannot tell it from a plain map of pages
    with room for a limited number of pins. */
module PoolRuns {
  import opened BufferPoolManagers
  import opened Common
  import opened PoolHistory
  import opened PoolState

  /** What the client knows: the pages, which of them it has pinned, which of those it has to unpin as
      dirty, and which ids there are. */
  datatype Client = Client(contents: map<PageId, Data>, pinned: set<PageId>, owed: set<PageId>, ids: set<PageId>)

  function Get(c: Client, p: PageId): Data {
    if p in c.contents then c.contents[p] else Zeroes()
  }

  /** A map of pages, of which size can be pinned.  The client fetches pages that there are, writes to and
      unpins those that it has pinned, and the disk gives out ids that are not in use; other operations are
      not carried out. */
  function Step(size: nat, c: Client, op: Op): (Client, Result) {
    match op
    case Fetch(p) =>
      if p !in c.ids then (c, Done)
      else if p in c.pinned || |c.pinned| < size then (c.(pinned := c.pinned + {p}), Bytes(Get(c, p)))
      else (c, Refused)
    case New(p) =>
      if p in c.ids then (c, Done)
      else if |c.pinned| < size then
        (Client(c.contents[p := Zeroes()], c.pinned + {p}, c.owed + {p}, c.ids + {p}), Bytes(Zeroes()))
      else (c, Refused)
    case Write(p, d) =>
      if p in c.pinned then (c.(contents := c.contents[p := d], owed := c.owed + {p}), Done) else (c, Done)
    case Unpin(p, _) => (c.(pinned := c.pinned - {p}, owed := c.owed - {p}), Done)
  }

  function AllSteps(size: nat, c: Client, ops: seq<Op>): (r: (Client, seq<Result>))
    ensures |r.1| == |ops|
  {
    if ops == [] then (c, [])
    else
      var before := AllSteps(size, c, ops[..|ops| - 1]);
      var last := Step(size, before.0, ops[|ops| - 1]);
      (last.0, before.1 + [last.1])
  }

  /** The pool and the client agree. */
  ghost predicate Agree(s: Pool, c: Client) {
    && Valid(s) && c.owed <= c.pinned
    && (forall q {:trigger PageAgrees(s, c, q)} :: PageAgrees(s, c, q))
  }

  predicate PageAgrees(s: Pool, c: Client, q: PageId)
    requires Consistent(s)
  {
    && Content(s, q) == Get(c, q)
    && (q in c.pinned <==> IsPinned(s, q))
    && (q in c.pinned && q !in c.owed ==> HonestAbout(s, q, false))
    && (q in s.table ==> q in c.ids)
  }

  // ------------------------------------------------------------------ counting pins

  /** The pages pinned in the first n frames. */
  ghost function PinnedBelow(s: Pool, n: nat): set<PageId> {
    set p | p in s.table && IsPinned(s, p) && s.table[p] < n
  }

  /** One frame more holds one pinned page more, or none. */
  lemma PinnedBelowStep(s: Pool, f: nat)
    requires Consistent(s) && f < |s.frames|
    ensures |PinnedBelow(s, f + 1)| == |PinnedBelow(s, f)| + if PinnedFrame(s, f) then 1 else 0
  {
    assert forall p :: p in s.table ==> EntryOk(s, p);
    if PinnedFrame(s, f) {
      var p := s.frames[f].pageId;
      assert PinnedBelow(s, f + 1) == PinnedBelow(s, f) + {p} && p !in PinnedBelow(s, f);
    } else {
      assert PinnedBelow(s, f + 1) == PinnedBelow(s, f);
    }
  }

  lemma {:induction false} PinnedBelowCount(s: Pool, n: nat)
    requires Consistent(s) && n <= |s.frames|
    ensures |PinnedBelow(s, n)| <= n
    ensures |PinnedBelow(s, n)| == n <==> forall f :: 0 <= f < n ==> PinnedFrame(s, f)
  {
    if n == 0 {
      assert PinnedBelow(s, 0) == {};
    } else {
      PinnedBelowCount(s, n - 1);
      PinnedBelowStep(s, n - 1);
    }
  }

  /** Whether every frame is pinned shows in the number of pinned pages. */
  lemma PinsCounted(s: Pool, c: Client)
    requires Agree(s, c)
    ensures AllPinned(s) <==> |c.pinned| >= |s.frames|
  {
    PinnedBelowCount(s, |s.frames|);
    forall q
      ensures q in c.pinned <==> q in PinnedBelow(s, |s.frames|)
    {
      assert PageAgrees(s, c, q);
    }
    assert c.pinned == PinnedBelow(s, |s.frames|);
  }

  // ------------------------------------------------------------------ the operations

  lemma FetchAgrees(s: Pool, c: Client, p: PageId)
    requires Agree(s, c) && p in c.ids && (p in s.table || Available(s))
    ensures Agree(Fetched(s, p), c.(pinned := c.pinned + {p}))
  {
    var t, c' := Fetched(s, p), c.(pinned := c.pinned + {p});
    if p in s.table {
      PinnedOk(s, p);
      assert EntryOk(s, p) && CleanFrame(s, s.table[p]);
    } else {
      NextFrameOk(s);
      PlacedOk(s, p, OnDisk(Vacated(s), p));
    }
    forall q
      ensures PageAgrees(t, c', q)
    {
      assert PageAgrees(s, c, q);
      if p in s.table {
        PinnedPage(s, p, q);
      } else {
        PlacedPage(s, p, OnDisk(Vacated(s), p), q);
      }
    }
  }

  /** What becomes of page q when p is pinned. */
  lemma PinnedPage(s: Pool, p: PageId, q: PageId)
    requires Valid(s) && p in s.table
    ensures Consistent(Fetched(s, p)) && Content(Fetched(s, p), q) == Content(s, q)
    ensures IsPinned(Fetched(s, p), q) <==> q == p || IsPinned(s, q)
    ensures HonestAbout(s, q, false) ==> HonestAbout(Fetched(s, p), q, false)
    ensures !IsPinned(s, p) ==> HonestAbout(Fetched(s, p), p, false)
    ensures Fetched(s, p).table == s.table
  {
    PinnedOk(s, p);
    assert EntryOk(s, p) && FrameOk(s, s.table[p]) && CleanFrame(s, s.table[p]);
    if q in s.table {
      assert EntryOk(s, q);
    }
  }

  /** What becomes of page q when p is brought in. */
  lemma PlacedPage(s: Pool, p: PageId, d: Data, q: PageId)
    requires Valid(s) && Available(s) && p !in s.table
    ensures 0 <= NextFrame(s) < |s.frames|
    ensures var t := Placed(Vacated(s), p, NextFrame(s), d);
            && Consistent(t) && Content(t, q) == (if q == p then d else Content(s, q))
            && (IsPinned(t, q) <==> q == p || IsPinned(s, q))
            && (q != p && IsPinned(s, q) && HonestAbout(s, q, false) ==> HonestAbout(t, q, false))
            && (d == OnDisk(Vacated(s), p) ==> HonestAbout(t, p, false))
            && (q in t.table ==> q == p || q in s.table)
    ensures OnDisk(Vacated(s), p) == Content(s, p)
  {
    PlacedContent(s, p, d, q);
    PlacedContent(s, p, d, p);
    if q != p {
      PinnedStays(s, p, d, q);
    }
  }

  lemma NewAgrees(s: Pool, c: Client, p: PageId)
    requires Agree(s, c) && p !in c.ids && Available(s)
    ensures 0 <= NextFrame(s) < |s.frames|
    ensures Agree(Placed(Vacated(s), p, NextFrame(s), Zeroes()),
                  Client(c.contents[p := Zeroes()], c.pinned + {p}, c.owed + {p}, c.ids + {p}))
  {
    assert PageAgrees(s, c, p);
    PlacedOk(s, p, Zeroes());
    var t := Placed(Vacated(s), p, NextFrame(s), Zeroes());
    var c' := Client(c.contents[p := Zeroes()], c.pinned + {p}, c.owed + {p}, c.ids + {p});
    forall q
      ensures PageAgrees(t, c', q)
    {
      assert PageAgrees(s, c, q);
      PlacedPage(s, p, Zeroes(), q);
    }
  }

  lemma WriteAgrees(s: Pool, c: Client, p: PageId, d: Data)
    requires Agree(s, c) && p in c.pinned
    ensures IsPinned(s, p) && Agree(Changed(s, p, d), c.(contents := c.contents[p := d], owed := c.owed + {p}))
  {
    assert PageAgrees(s, c, p) && EntryOk(s, p);
    ChangedOk(s, p, d);
    var t, c' := Changed(s, p, d), c.(contents := c.contents[p := d], owed := c.owed + {p});
    forall q
      ensures PageAgrees(t, c', q)
    {
      assert PageAgrees(s, c, q);
      if q in s.table {
        assert EntryOk(s, q);
      }
    }
  }

  lemma UnpinAgrees(s: Pool, c: Client, p: PageId, dirty: bool)
    requires Agree(s, c) && p in c.pinned
    ensures IsPinned(s, p)
    ensures Agree(Unpinned(s, p, dirty || p in c.owed), c.(pinned := c.pinned - {p}, owed := c.owed - {p}))
  {
    assert PageAgrees(s, c, p) && EntryOk(s, p);
    UnpinnedOk(s, p, dirty || p in c.owed);
    var t, c' := Unpinned(s, p, dirty || p in c.owed), c.(pinned := c.pinned - {p}, owed := c.owed - {p});
    forall q
      ensures PageAgrees(t, c', q)
    {
      assert PageAgrees(s, c, q);
      if q in s.table {
        assert EntryOk(s, q);
      }
    }
  }

  /** The next operation, after a history that has led to this state: what the client sees is what a map
      would show, and the page that has to go, if one has, is the one that has been idle for longest. */
  method Perform(pool: BufferPoolManager, c: Client, op: Op, ghost ops: seq<Op>, ghost rs: seq<Result>)
    returns (c': Client, r: Result)
    requires pool.Ok() && Agree(pool.View(), c) && |rs| == |ops| && InOrder(pool.View(), ops, rs)
    modifies pool, pool.frames, pool.replacer
    ensures pool.Ok() && Agree(pool.View(), c') && (c', r) == Step(pool.frames.Length, c, op)
    ensures InOrder(pool.View(), ops + [op], rs + [r]) && EvictsOldest(old(pool.View()), pool.View(), ops, rs)
  {
    ghost var s := pool.View();
    c', r := c, Done;
    match op
    case Fetch(p) =>
      if p in c.ids {
        c', r := PerformFetch(pool, c, p, ops, rs);
      } else {
        NotCarriedOut(s, c, ops, rs, op, r);
      }
    case New(p) =>
      if p !in c.ids {
        c', r := PerformNew(pool, c, p, ops, rs);
      } else {
        NotCarriedOut(s, c, ops, rs, op, r);
      }
    case Write(p, d) =>
      if p in c.pinned {
        WriteAgrees(s, c, p, d);
        pool.WriteTo(p, d);
        c' := c.(contents := c.contents[p := d], owed := c.owed + {p});
        NothingMoves(s, pool.View(), ops, rs, op, r);
      } else {
        NotCarriedOut(s, c, ops, rs, op, r);
      }
    case Unpin(p, dirty) =>
      c', r := PerformUnpin(pool, c, p, dirty, ops, rs);
  }

  lemma NotCarriedOut(s: Pool, c: Client, ops: seq<Op>, rs: seq<Result>, op: Op, r: Result)
    requires Agree(s, c) && |rs| == |ops| && InOrder(s, ops, rs) && !r.Bytes?
    requires op.Unpin? ==> op.p !in c.pinned
    ensures InOrder(s, ops + [op], rs + [r]) && EvictsOldest(s, s, ops, rs)
  {
    if op.Unpin? {
      assert PageAgrees(s, c, op.p);
    }
    NothingMoves(s, s, ops, rs, op, r);
  }

  method PerformUnpin(pool: BufferPoolManager, c: Client, p: PageId, dirty: bool,
                      ghost ops: seq<Op>, ghost rs: seq<Result>) returns (c': Client, r: Result)
    requires pool.Ok() && Agree(pool.View(), c) && |rs| == |ops| && InOrder(pool.View(), ops, rs)
    modifies pool, pool.frames, pool.replacer
    ensures pool.Ok() && Agree(pool.View(), c') && (c', r) == Step(pool.frames.Length, c, Unpin(p, dirty))
    ensures InOrder(pool.View(), ops + [Unpin(p, dirty)], rs + [r])
    ensures EvictsOldest(old(pool.View()), pool.View(), ops, rs)
  {
    ghost var s := pool.View();
    r := Done;
    c' := c.(pinned := c.pinned - {p}, owed := c.owed - {p});
    if p in c.pinned {
      UnpinAgrees(s, c, p, dirty);
      UnpinnedInOrder(s, p, dirty || p in c.owed, ops, rs, Unpin(p, dirty), r);
      var _ := pool.UnpinPage(p, dirty || p in c.owed);
    } else {
      assert c' == c;
      NotCarriedOut(s, c, ops, rs, Unpin(p, dirty), r);
    }
  }

  lemma NewAgreesIfAny(s: Pool, c: Client, p: PageId)
    requires Agree(s, c) && p !in c.ids
    ensures p !in s.table
    ensures Available(s) ==>
              && 0 <= NextFrame(s) < |s.frames|
              && Agree(Placed(Vacated(s), p, NextFrame(s), Zeroes()),
                       Client(c.contents[p := Zeroes()], c.pinned + {p}, c.owed + {p}, c.ids + {p}))
  {
    assert PageAgrees(s, c, p);
    if Available(s) {
      NewAgrees(s, c, p);
    }
  }

  method PerformNew(pool: BufferPoolManager, c: Client, p: PageId, ghost ops: seq<Op>, ghost rs: seq<Result>)
    returns (c': Client, r: Result)
    requires pool.Ok() && Agree(pool.View(), c) && p !in c.ids && |rs| == |ops| && InOrder(pool.View(), ops, rs)
    modifies pool, pool.frames, pool.replacer
    ensures pool.Ok() && Agree(pool.View(), c') && (c', r) == Step(pool.frames.Length, c, New(p))
    ensures InOrder(pool.View(), ops + [New(p)], rs + [r]) && EvictsOldest(old(pool.View()), pool.View(), ops, rs)
  {
    ghost var s := pool.View();
    PinsCounted(s, c);
    AvailableUnlessPinned(s);
    NewAgreesIfAny(s, c, p);
    var ok, frame := pool.NewPage(p);
    if ok {
      c' := Client(c.contents[p := Zeroes()], c.pinned + {p}, c.owed + {p}, c.ids + {p});
      r := Bytes(pool.frames[frame].data);
      PlacedInOrder(s, p, Zeroes(), ops, rs, New(p), r);
    } else {
      c', r := c, Refused;
      NotCarriedOut(s, c, ops, rs, New(p), r);
    }
  }

  method PerformFetch(pool: BufferPoolManager, c: Client, p: PageId, ghost ops: seq<Op>, ghost rs: seq<Result>)
    returns (c': Client, r: Result)
    requires pool.Ok() && Agree(pool.View(), c) && p in c.ids && |rs| == |ops| && InOrder(pool.View(), ops, rs)
    modifies pool, pool.frames, pool.replacer
    ensures pool.Ok() && Agree(pool.View(), c') && (c', r) == Step(pool.frames.Length, c, Fetch(p))
    ensures InOrder(pool.View(), ops + [Fetch(p)], rs + [r]) && EvictsOldest(old(pool.View()), pool.View(), ops, rs)
  {
    ghost var s := pool.View();
    PinsCounted(s, c);
    AvailableUnlessPinned(s);
    assert PageAgrees(s, c, p);
    ResidentRoom(s, c, p);
    if p in s.table || Available(s) {
      FetchAgrees(s, c, p);
    }
    var ok, frame := pool.FetchPage(p);
    if ok {
      c', r := c.(pinned := c.pinned + {p}), Bytes(pool.frames[frame].data);
      FetchedInOrder(s, p, ops, rs, r);
    } else {
      c', r := c, Refused;
      NotCarriedOut(s, c, ops, rs, Fetch(p), r);
    }
  }

  lemma FetchedInOrder(s: Pool, p: PageId, ops: seq<Op>, rs: seq<Result>, r: Result)
    requires Valid(s) && (p in s.table || Available(s)) && |rs| == |ops| && InOrder(s, ops, rs) && r.Bytes?
    ensures InOrder(Fetched(s, p), ops + [Fetch(p)], rs + [r]) && EvictsOldest(s, Fetched(s, p), ops, rs)
  {
    if p in s.table {
      PinnedInOrder(s, p, ops, rs, Fetch(p), r);
    } else {
      NextFrameOk(s);
      PlacedInOrder(s, p, OnDisk(Vacated(s), p), ops, rs, Fetch(p), r);
    }
  }

  /** A resident page that is not pinned is in a frame that is not. */
  lemma ResidentRoom(s: Pool, c: Client, p: PageId)
    requires Agree(s, c)
    ensures p in s.table && p !in c.pinned ==> !AllPinned(s)
    ensures p in c.pinned ==> p in s.table
  {
    assert PageAgrees(s, c, p);
    if p in s.table {
      assert EntryOk(s, p);
      assert IsPinned(s, p) <==> PinnedFrame(s, s.table[p]);
    }
  }

  /** A new pool over a disk, after any operations: all that the client has seen and all pages are as with
      a map of pages that has no cache in front of it. */
  method Run(poolSize: nat, disk: map<PageId, Data>, ids: set<PageId>, ops: seq<Op>)
    returns (pool: BufferPoolManager, c: Client, results: seq<Result>)
    ensures pool.frames.Length == poolSize && pool.Ok() && Agree(pool.View(), c)
    ensures (c, results) == AllSteps(poolSize, Client(disk, {}, {}, ids), ops)
    ensures InOrder(pool.View(), ops, results)
  {
    pool := new BufferPoolManager(poolSize, disk, ids);
    c, results := Client(disk, {}, {}, ids), [];
    forall q
      ensures PageAgrees(pool.View(), c, q)
    {
    }
    for i := 0 to |ops|
      invariant fresh(pool) && fresh(pool.frames) && fresh(pool.replacer) && pool.frames.Length == poolSize
      invariant pool.Ok() && Agree(pool.View(), c)
      invariant (c, results) == AllSteps(poolSize, Client(disk, {}, {}, ids), ops[..i])
      invariant InOrder(pool.View(), ops[..i], results)
    {
      assert ops[..i + 1][..i] == ops[..i];
      var r;
      assert ops[..i] + [ops[i]] == ops[..i + 1];
      c, r := Perform(pool, c, ops[i], ops[..i], results);
      results := results + [r];
    }
    assert ops[..|ops|] == ops;
  }
}
