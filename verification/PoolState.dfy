/** The page cache as a value: frames that hold pages of the disk, a page table, a free list and the
    list of evictable frames.  What it is for is simpler: a map from page ids to bytes. */
module PoolState {
  import opened Common
  import opened LRUReplacers

  type Data = seq<int>

  function Zeroes(): Data {
    seq(PAGE_SIZE, _ => 0)
  }

  datatype Frame = Frame(pageId: PageId, pinCount: int, dirty: bool, data: Data)

  /** The disk is what has been written to it; the rest reads as zeroes. */
  datatype Pool = Pool(frames: seq<Frame>, table: map<PageId, FrameId>, free: seq<FrameId>, lru: seq<FrameId>,
                       disk: map<PageId, Data>)

  predicate Mapped(s: Pool, f: FrameId) {
    0 <= f < |s.frames| && s.frames[f].pageId in s.table && s.table[s.frames[f].pageId] == f
  }

  predicate FrameOk(s: Pool, f: FrameId)
    requires 0 <= f < |s.frames|
  {
    && s.frames[f].pinCount >= 0
    && (f in s.free <==> !Mapped(s, f))
    && (f in s.lru <==> Mapped(s, f) && s.frames[f].pinCount == 0)
  }

  predicate EntryOk(s: Pool, p: PageId)
    requires p in s.table
  {
    0 <= s.table[p] < |s.frames| && s.frames[s.table[p]].pageId == p
  }

  /** The table is injective, as every frame knows whose it is; free frames and mapped ones part the
      pool between them; just the unpinned mapped frames are evictable. */
  predicate Consistent(s: Pool) {
    && Distinct(s.free) && Distinct(s.lru)
    && (forall p {:trigger EntryOk(s, p)} :: p in s.table ==> EntryOk(s, p))
    && (forall f {:trigger FrameOk(s, f)} :: 0 <= f < |s.frames| ==> FrameOk(s, f))
    && (forall f :: f in s.free ==> 0 <= f < |s.frames|)
    && (forall f :: f in s.lru ==> 0 <= f < |s.frames|)
  }

  function OnDisk(s: Pool, p: PageId): Data {
    if p in s.disk then s.disk[p] else Zeroes()
  }

  /** What page p holds, wherever that is. */
  function Content(s: Pool, p: PageId): Data
    requires Consistent(s)
  {
    if p in s.table then assert EntryOk(s, p); s.frames[s.table[p]].data else OnDisk(s, p)
  }

  /** What may be dropped without being written is the same on disk. */
  predicate Clean(s: Pool) {
    forall f {:trigger CleanFrame(s, f)} :: 0 <= f < |s.frames| ==> CleanFrame(s, f)
  }

  predicate CleanFrame(s: Pool, f: FrameId)
    requires 0 <= f < |s.frames|
  {
    Mapped(s, f) && s.frames[f].pinCount == 0 && !s.frames[f].dirty ==>
      s.frames[f].data == OnDisk(s, s.frames[f].pageId)
  }

  predicate Valid(s: Pool) {
    Consistent(s) && Clean(s)
  }

  predicate Available(s: Pool) {
    s.free != [] || s.lru != []
  }

  // ------------------------------------------------------------------ bringing a page in

  /** The frame to use next: a free one or else the victim. */
  function NextFrame(s: Pool): FrameId
    requires Available(s)
  {
    if s.free != [] then s.free[|s.free| - 1] else s.lru[|s.lru| - 1]
  }

  /** The pool once that frame has been taken, and its page written back if it was dirty. */
  function Vacated(s: Pool): Pool
    requires Available(s) && (s.free == [] ==> 0 <= NextFrame(s) < |s.frames|)
  {
    if s.free != [] then s.(free := s.free[..|s.free| - 1])
    else
      var was := s.frames[NextFrame(s)];
      s.(lru := Evicted(s.lru), table := s.table - {was.pageId},
         disk := if was.dirty then s.disk[was.pageId := was.data] else s.disk)
  }

  /** Page p in the given frame, pinned once.  If the table has an entry for p, that stays. */
  function Placed(s: Pool, p: PageId, f: FrameId, d: Data): Pool
    requires 0 <= f < |s.frames|
  {
    s.(table := if p in s.table then s.table else s.table[p := f], frames := s.frames[f := Frame(p, 1, false, d)])
  }

  /** Page p is resident, and not in the frame that would be taken next. */
  predicate Stays(s: Pool, p: PageId) {
    p in s.table && (Available(s) ==> s.table[p] != NextFrame(s))
  }

  lemma NextFrameOk(s: Pool)
    requires Consistent(s) && Available(s)
    ensures var f := NextFrame(s); 0 <= f < |s.frames| && FrameOk(s, f) && (s.free == [] ==> Mapped(s, f))
  {
    var f := NextFrame(s);
    assert f in s.free || f in s.lru;
    assert FrameOk(s, f);
    if s.free == [] {
      assert f in s.lru;
    }
  }

  lemma PlacedEntriesOk(s: Pool, p: PageId, d: Data)
    requires Consistent(s) && Available(s) && !Stays(s, p) && 0 <= NextFrame(s) < |s.frames|
    ensures var t := Placed(Vacated(s), p, NextFrame(s), d); forall q :: q in t.table ==> EntryOk(t, q)
  {
    NextFrameOk(s);
    var f := NextFrame(s);
    var t := Placed(Vacated(s), p, f, d);
    forall q | q in t.table
      ensures EntryOk(t, q)
    {
      if q != p {
        assert EntryOk(s, q);
      }
    }
  }

  lemma PlacedFrameOk(s: Pool, p: PageId, d: Data, g: FrameId)
    requires Consistent(s) && Available(s) && !Stays(s, p) && 0 <= NextFrame(s) < |s.frames|
    requires 0 <= g < |s.frames|
    ensures FrameOk(Placed(Vacated(s), p, NextFrame(s), d), g)
  {
    NextFrameOk(s);
    var f := NextFrame(s);
    var t := Placed(Vacated(s), p, f, d);
    assert FrameOk(s, g);
    if s.free != [] {
      assert s.free == t.free + [f];
      assert f in s.free && f !in s.lru;
    } else {
      assert s.lru == t.lru + [f];
      assert f in s.lru;
    }
    if g != f {
      assert Mapped(s, g) <==> Mapped(t, g);
    }
  }

  lemma PlacedConsistent(s: Pool, p: PageId, d: Data)
    requires Consistent(s) && Available(s) && !Stays(s, p)
    ensures 0 <= NextFrame(s) < |s.frames| && Consistent(Placed(Vacated(s), p, NextFrame(s), d))
  {
    NextFrameOk(s);
    var t := Placed(Vacated(s), p, NextFrame(s), d);
    PlacedEntriesOk(s, p, d);
    forall g | 0 <= g < |s.frames|
      ensures FrameOk(t, g)
    {
      PlacedFrameOk(s, p, d, g);
    }
    assert forall g :: g in t.free ==> g in s.free;
    assert forall g :: g in t.lru ==> g in s.lru;
  }

  /** The frame that goes costs no page its contents. */
  lemma PlacedContent(s: Pool, p: PageId, d: Data, q: PageId)
    requires Valid(s) && Available(s) && !Stays(s, p)
    ensures 0 <= NextFrame(s) < |s.frames| && Consistent(Placed(Vacated(s), p, NextFrame(s), d))
    ensures Content(Placed(Vacated(s), p, NextFrame(s), d), q) == if q == p then d else Content(s, q)
    ensures q !in s.table ==> OnDisk(Vacated(s), q) == OnDisk(s, q)
  {
    PlacedConsistent(s, p, d);
    NextFrameOk(s);
    var f := NextFrame(s);
    assert CleanFrame(s, f);
    if q in s.table {
      assert EntryOk(s, q);
    }
    if s.free == [] {
      assert EntryOk(s, s.frames[f].pageId);
      assert f in s.lru;
    }
  }

  lemma PlacedClean(s: Pool, p: PageId, d: Data)
    requires Valid(s) && Available(s) && !Stays(s, p)
    ensures 0 <= NextFrame(s) < |s.frames| && Clean(Placed(Vacated(s), p, NextFrame(s), d))
  {
    NextFrameOk(s);
    var f := NextFrame(s);
    var t := Placed(Vacated(s), p, f, d);
    forall g | 0 <= g < |t.frames|
      ensures CleanFrame(t, g)
    {
      assert CleanFrame(s, g);
    }
  }

  /** A new page is placed rightly exactly if its id is not that of a page which stays: the table would
      go on naming the frame of that one. */
  lemma PlacedOk(s: Pool, p: PageId, d: Data)
    requires Valid(s) && Available(s)
    ensures 0 <= NextFrame(s) < |s.frames|
    ensures Valid(Placed(Vacated(s), p, NextFrame(s), d)) <==> !Stays(s, p)
  {
    NextFrameOk(s);
    if Stays(s, p) {
      var f := NextFrame(s);
      var t := Placed(Vacated(s), p, f, d);
      assert EntryOk(s, p) && t.table[p] == s.table[p] != f;
      assert s.free != [] ==> s.free == t.free + [f];
      assert !FrameOk(t, f) by {
        assert !Mapped(t, f) && f !in t.free;
      }
    } else {
      PlacedConsistent(s, p, d);
      PlacedClean(s, p, d);
    }
  }

  predicate IsPinned(s: Pool, q: PageId) {
    q in s.table && 0 <= s.table[q] < |s.frames| && s.frames[s.table[q]].pinCount > 0
  }

  /** A pinned page keeps its frame, everything in it, and what it is on disk, whatever page is brought
      in; and no other page gets to be pinned. */
  lemma PinnedStays(s: Pool, p: PageId, d: Data, q: PageId)
    requires Valid(s) && Available(s) && !Stays(s, p) && q != p
    ensures 0 <= NextFrame(s) < |s.frames|
    ensures var t := Placed(Vacated(s), p, NextFrame(s), d);
            && (IsPinned(t, q) <==> IsPinned(s, q))
            && (IsPinned(s, q) ==> t.table[q] == s.table[q] && t.frames[s.table[q]] == s.frames[s.table[q]]
                                   && OnDisk(t, q) == OnDisk(s, q))
  {
    NextFrameOk(s);
    var f := NextFrame(s);
    assert f in s.free || f in s.lru;
    if q in s.table {
      assert EntryOk(s, q) && FrameOk(s, s.table[q]);
    }
  }

  /** While a frame is free, no page has to go: the frame is one from the free list, and all other pages stay
      where they are.  Otherwise the page of the last evictable frame goes, and no other. */
  lemma PlacedTable(s: Pool, p: PageId, d: Data, q: PageId)
    requires Consistent(s) && Available(s) && p !in s.table && q != p
    ensures 0 <= NextFrame(s) < |s.frames|
    ensures if s.free != [] then NextFrame(s) in s.free else NextFrame(s) == s.lru[|s.lru| - 1]
    ensures var f := NextFrame(s); var t := Placed(Vacated(s), p, f, d);
            && (q in t.table <==> q in s.table && (s.free != [] || s.table[q] != s.lru[|s.lru| - 1]))
            && (q in t.table ==> t.table[q] == s.table[q] != f && 0 <= t.table[q] < |s.frames|
                                 && t.frames[t.table[q]] == s.frames[t.table[q]])
            && (s.free != [] ==> t.lru == s.lru && t.disk == s.disk)
  {
    NextFrameOk(s);
    var f := NextFrame(s);
    assert f in s.free || f in s.lru;
    if q in s.table {
      assert EntryOk(s, q) && FrameOk(s, s.table[q]);
    }
  }

  /** Every frame is pinned, exactly if there is none to be had. */
  predicate AllPinned(s: Pool) {
    forall f :: 0 <= f < |s.frames| ==> PinnedFrame(s, f)
  }

  predicate PinnedFrame(s: Pool, f: FrameId) {
    Mapped(s, f) && s.frames[f].pinCount > 0
  }

  lemma AvailableUnlessPinned(s: Pool)
    requires Consistent(s)
    ensures Available(s) <==> !AllPinned(s)
  {
    if Available(s) {
      NextFrameOk(s);
      var f := NextFrame(s);
      assert f in s.free || f in s.lru;
      assert !PinnedFrame(s, f);
    } else {
      forall f | 0 <= f < |s.frames|
        ensures PinnedFrame(s, f)
      {
        assert FrameOk(s, f);
      }
    }
  }

  // ------------------------------------------------------------------ a resident page

  /** Page p pinned once more. */
  function Pinned(s: Pool, p: PageId): Pool
    requires p in s.table && 0 <= s.table[p] < |s.frames|
  {
    var f := s.table[p];
    s.(frames := s.frames[f := s.frames[f].(pinCount := s.frames[f].pinCount + 1)], lru := Without(s.lru, f))
  }

  /** The pool after an attempt to fetch page p: pinned where it is, or brought into the next frame, or
      nothing if there is none. */
  function Fetched(s: Pool, p: PageId): Pool
    requires Consistent(s)
  {
    if p in s.table then assert EntryOk(s, p); Pinned(s, p)
    else if !Available(s) then s
    else NextFrameOk(s); Placed(Vacated(s), p, NextFrame(s), OnDisk(Vacated(s), p))
  }

  /** Page p unpinned, however often it was pinned. */
  function Unpinned(s: Pool, p: PageId, dirty: bool): Pool
    requires p in s.table && 0 <= s.table[p] < |s.frames|
  {
    var f := s.table[p];
    s.(frames := s.frames[f := s.frames[f].(pinCount := 0, dirty := s.frames[f].dirty || dirty)],
       lru := PutInFront(s.lru, f))
  }

  /** Other bytes in page p. */
  function Changed(s: Pool, p: PageId, d: Data): Pool
    requires p in s.table && 0 <= s.table[p] < |s.frames|
  {
    s.(frames := s.frames[s.table[p] := s.frames[s.table[p]].(data := d)])
  }

  /** The frame of page p changes, but not its page. */
  lemma ResidentKept(s: Pool, p: PageId, t: Pool)
    requires Consistent(s) && p in s.table && 0 <= s.table[p] < |s.frames|
    requires |t.frames| == |s.frames| && t.table == s.table && t.free == s.free && t.disk == s.disk && Distinct(t.lru)
    requires t.frames == s.frames[s.table[p] := t.frames[s.table[p]]]
    requires t.frames[s.table[p]].pageId == p && t.frames[s.table[p]].pinCount >= 0
    requires forall g :: g in t.lru <==> if g == s.table[p] then t.frames[g].pinCount == 0 else g in s.lru
    ensures Consistent(t)
    ensures forall q :: Content(t, q) == if q == p then t.frames[s.table[p]].data else Content(s, q)
  {
    assert EntryOk(s, p) && FrameOk(s, s.table[p]);
    forall q | q in t.table
      ensures EntryOk(t, q)
    {
      assert EntryOk(s, q);
    }
    forall g | 0 <= g < |t.frames|
      ensures FrameOk(t, g)
    {
      assert FrameOk(s, g);
    }
    forall q
      ensures Content(t, q) == if q == p then t.frames[s.table[p]].data else Content(s, q)
    {
      if q in s.table {
        assert EntryOk(s, q) && EntryOk(t, q);
      }
    }
  }

  /** Pinning a resident page changes no page. */
  lemma PinnedOk(s: Pool, p: PageId)
    requires Valid(s) && p in s.table
    ensures 0 <= s.table[p] < |s.frames| && Valid(Pinned(s, p))
    ensures forall q :: Content(Pinned(s, p), q) == Content(s, q)
  {
    var f := s.table[p];
    assert EntryOk(s, p) && FrameOk(s, f);
    WithoutDistinct(s.lru, f);
    var t := Pinned(s, p);
    ResidentKept(s, p, t);
    forall g | 0 <= g < |t.frames|
      ensures CleanFrame(t, g)
    {
      assert CleanFrame(s, g);
    }
  }

  /** Who unpins a page says whether it may differ from the disk. */
  predicate HonestAbout(s: Pool, p: PageId, dirty: bool) {
    p in s.table && 0 <= s.table[p] < |s.frames| ==>
      dirty || s.frames[s.table[p]].dirty || s.frames[s.table[p]].data == OnDisk(s, p)
  }

  /** Unpinning a page changes no page, and keeps the pool valid exactly if it is done honestly. */
  lemma UnpinnedOk(s: Pool, p: PageId, dirty: bool)
    requires Valid(s) && p in s.table
    ensures 0 <= s.table[p] < |s.frames| && Consistent(Unpinned(s, p, dirty))
    ensures Valid(Unpinned(s, p, dirty)) <==> HonestAbout(s, p, dirty)
    ensures forall q :: Content(Unpinned(s, p, dirty), q) == Content(s, q)
  {
    var f := s.table[p];
    assert EntryOk(s, p) && FrameOk(s, f);
    var t := Unpinned(s, p, dirty);
    ResidentKept(s, p, t);
    assert Mapped(t, f) && t.frames[f].pinCount == 0;
    if HonestAbout(s, p, dirty) {
      forall g | 0 <= g < |t.frames|
        ensures CleanFrame(t, g)
      {
        assert CleanFrame(s, g);
      }
    } else {
      assert !CleanFrame(t, f);
    }
  }

  /** After a dishonest unpin, here with all other frames pinned, the next page to be brought in costs
      page p what has been written to it. */
  lemma DishonestUnpinLoses(s: Pool, p: PageId, q: PageId, d: Data)
    requires Valid(s) && AllPinned(s) && p in s.table && !HonestAbout(s, p, false) && q !in s.table
    ensures 0 <= s.table[p] < |s.frames|
    ensures var u := Unpinned(s, p, false); Available(u) && NextFrame(u) == s.table[p]
    ensures var u := Unpinned(s, p, false); var t := Placed(Vacated(u), q, s.table[p], d);
            Consistent(t) && Content(t, p) == OnDisk(s, p) != Content(s, p)
  {
    LastPinTaken(s, p, false);
    UnpinnedOk(s, p, false);
    var u := Unpinned(s, p, false);
    assert EntryOk(s, p);
    PlacedConsistent(u, q, d);
  }

  /** Unpinned once, the page goes next if nothing else is to be had, however often it was pinned. */
  lemma LastPinTaken(s: Pool, p: PageId, dirty: bool)
    requires Valid(s) && AllPinned(s) && p in s.table
    ensures 0 <= s.table[p] < |s.frames|
    ensures var u := Unpinned(s, p, dirty);
            u.free == [] && u.lru == [s.table[p]] && Available(u) && NextFrame(u) == s.table[p]
  {
    assert EntryOk(s, p);
    AvailableUnlessPinned(s);
    assert s.free == [] && s.lru == [];
  }

  /** What a count of clients would do: only the last one to unpin makes the page evictable. */
  function UnpinnedByOne(s: Pool, p: PageId, dirty: bool): Pool
    requires p in s.table && 0 <= s.table[p] < |s.frames|
  {
    var f := s.table[p];
    var fr := s.frames[f];
    if fr.pinCount > 1 then s.(frames := s.frames[f := fr.(pinCount := fr.pinCount - 1, dirty := fr.dirty || dirty)])
    else Unpinned(s, p, dirty)
  }

  /** UnpinPage does that exactly if there are no two pins. */
  lemma UnpinCounts(s: Pool, p: PageId, dirty: bool)
    requires Consistent(s) && p in s.table
    ensures 0 <= s.table[p] < |s.frames|
    ensures Unpinned(s, p, dirty) == UnpinnedByOne(s, p, dirty) <==> s.frames[s.table[p]].pinCount <= 1
  {
    assert EntryOk(s, p);
    var f := s.table[p];
    if s.frames[f].pinCount > 1 {
      assert Unpinned(s, p, dirty).frames[f].pinCount != UnpinnedByOne(s, p, dirty).frames[f].pinCount;
    }
  }

  /** Two clients have pinned page p, one unpins it honestly, and the next page to be brought in takes
      its frame, although the other client still uses it.  Counting down instead of setting the count
      to 0 would have kept it: every frame would still be pinned. */
  lemma PinOfOtherClientLost(s: Pool, p: PageId, dirty: bool, q: PageId, d: Data)
    requires Valid(s) && AllPinned(s) && p in s.table && HonestAbout(s, p, dirty) && q !in s.table
    requires 0 <= s.table[p] < |s.frames| && s.frames[s.table[p]].pinCount >= 2
    ensures var f := s.table[p]; var u := Unpinned(s, p, dirty);
            && Valid(u) && Available(u) && NextFrame(u) == f
            && var t := Placed(Vacated(u), q, f, d); Valid(t) && p !in t.table && t.table[q] == f
    ensures AllPinned(UnpinnedByOne(s, p, dirty))
  {
    UnpinnedOk(s, p, dirty);
    LastPinTaken(s, p, dirty);
    var f, u := s.table[p], Unpinned(s, p, dirty);
    assert EntryOk(s, p);
    PlacedConsistent(u, q, d);
    PlacedClean(u, q, d);
    assert forall g :: 0 <= g < |s.frames| && PinnedFrame(s, g) ==> PinnedFrame(UnpinnedByOne(s, p, dirty), g);
  }

  /** A new page that nobody has written to may be unpinned as clean exactly if the disk has zeroes
      there: its frame is not marked as dirty. */
  lemma NewPageUnpinned(s: Pool, p: PageId)
    requires Valid(s) && Available(s) && p !in s.table
    ensures 0 <= NextFrame(s) < |s.frames|
    ensures var t := Placed(Vacated(s), p, NextFrame(s), Zeroes());
            Valid(t) && (Valid(Unpinned(t, p, false)) <==> OnDisk(s, p) == Zeroes())
  {
    PlacedOk(s, p, Zeroes());
    var t := Placed(Vacated(s), p, NextFrame(s), Zeroes());
    PlacedContent(s, p, Zeroes(), p);
    UnpinnedOk(t, p, false);
  }

  /** Page p may be written to: it is pinned, or known to differ from the disk, or does not. */
  predicate Writable(s: Pool, p: PageId, d: Data)
    requires p in s.table && 0 <= s.table[p] < |s.frames|
  {
    s.frames[s.table[p]].pinCount > 0 || s.frames[s.table[p]].dirty || d == OnDisk(s, p)
  }

  /** Writing into a resident page changes just that page, and keeps the pool valid exactly in these
      cases. */
  lemma ChangedOk(s: Pool, p: PageId, d: Data)
    requires Valid(s) && p in s.table && 0 <= s.table[p] < |s.frames|
    ensures Consistent(Changed(s, p, d)) && (Valid(Changed(s, p, d)) <==> Writable(s, p, d))
    ensures forall q :: Content(Changed(s, p, d), q) == if q == p then d else Content(s, q)
  {
    assert EntryOk(s, p) && FrameOk(s, s.table[p]);
    var t := Changed(s, p, d);
    ResidentKept(s, p, t);
    if Writable(s, p, d) {
      forall g | 0 <= g < |t.frames|
        ensures CleanFrame(t, g)
      {
        assert CleanFrame(s, g);
      }
    } else {
      assert Mapped(t, s.table[p]) && !CleanFrame(t, s.table[p]);
    }
  }

  // ------------------------------------------------------------------ giving a frame back

  /** Page p out of the table, its frame on the free list, as DeletePage and FlushPage leave it: the
      list of evictable frames is not touched. */
  function GivenBack(s: Pool, p: PageId, frame: Frame, disk: map<PageId, Data>): Pool
    requires p in s.table && 0 <= s.table[p] < |s.frames|
  {
    s.(table := s.table - {p}, free := s.free + [s.table[p]], frames := s.frames[s.table[p] := frame], disk := disk)
  }

  /** That is right exactly if the page was pinned: an unpinned page leaves its frame both free and
      evictable. */
  lemma GivenBackOk(s: Pool, p: PageId, frame: Frame, disk: map<PageId, Data>)
    requires Consistent(s) && p in s.table && 0 <= s.table[p] < |s.frames| && frame.pinCount >= 0
    ensures Consistent(GivenBack(s, p, frame, disk)) <==> s.frames[s.table[p]].pinCount > 0
  {
    var f := s.table[p];
    var t := GivenBack(s, p, frame, disk);
    assert EntryOk(s, p) && FrameOk(s, f);
    assert f !in s.free;
    assert !Mapped(t, f) by {
      if frame.pageId in t.table {
        assert EntryOk(s, frame.pageId);
      }
    }
    if s.frames[f].pinCount > 0 {
      forall q | q in t.table
        ensures EntryOk(t, q)
      {
        assert EntryOk(s, q);
      }
      forall g | 0 <= g < |t.frames|
        ensures FrameOk(t, g)
      {
        assert FrameOk(s, g);
        assert g in t.free <==> g in s.free || g == f;
      }
    } else {
      assert f in t.lru;
      assert !FrameOk(t, f);
    }
  }

  /** What becomes of the pages if the page was pinned: the others stay, and p falls back to the disk. */
  lemma GivenBackContent(s: Pool, p: PageId, frame: Frame, disk: map<PageId, Data>, q: PageId)
    requires Consistent(s) && p in s.table && 0 <= s.table[p] < |s.frames| && frame.pinCount >= 0
    requires s.frames[s.table[p]].pinCount > 0
    requires q != p ==> OnDisk(s.(disk := disk), q) == OnDisk(s, q)
    ensures var t := GivenBack(s, p, frame, disk);
            Consistent(t) && Content(t, q) == if q == p then OnDisk(t, p) else Content(s, q)
  {
    GivenBackOk(s, p, frame, disk);
    assert EntryOk(s, p);
    if q in s.table {
      assert EntryOk(s, q);
    }
  }

  /** What goes wrong otherwise: the frame of an idle page that has been given back, and that was to be
      the next victim besides, is handed out twice.  Page q gets it first and pins it; page r gets it
      all the same, and q is not resident any more although it was never unpinned. */
  lemma FrameGivenTwice(s: Pool, p: PageId, frame: Frame, disk: map<PageId, Data>,
                        q: PageId, d: Data, r: PageId, e: Data)
    requires Consistent(s) && s.free == [] && s.lru != [] && p in s.table && 0 <= s.table[p] < |s.frames|
    requires s.table[p] == s.lru[|s.lru| - 1]
    requires q != p && q !in s.table && r != q && r !in s.table && r != p
    ensures var f := s.table[p]; var t := GivenBack(s, p, frame, disk);
            && Available(t) && NextFrame(t) == f
            && var u := Placed(Vacated(t), q, f, d);
            && u.table[q] == f && u.frames[f].pinCount == 1
            && Available(u) && NextFrame(u) == f
            && var v := Placed(Vacated(u), r, f, e);
            q !in v.table && v.table[r] == f && v.frames[f] == Frame(r, 1, false, e)
  {
  }
}
