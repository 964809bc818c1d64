/** The page cache over its frames, page table, free list and replacer. */
module BufferPoolManagers {
  import opened Common
  import opened LRUReplacers
  import opened PoolState

  class BufferPoolManager {
    const frames: array<Frame>
    const replacer: LRUReplacer
    var pageTable: map<PageId, FrameId>
    var freeList: seq<FrameId>
    var disk: map<PageId, Data>
    /** The page ids that the disk has given out. */
    var allocatedPages: set<PageId>

    ghost function View(): Pool
      reads this, frames, replacer
    {
      Pool(frames[..], pageTable, freeList, replacer.lruList, disk)
    }

    ghost predicate Ok()
      reads this, frames, replacer
    {
      replacer.Valid() && Valid(View())
    }

    /** Only pages that the disk has given out are resident. */
    ghost predicate Backed()
      reads this
    {
      forall p :: p in pageTable ==> p in allocatedPages
    }

    constructor (poolSize: nat, disk: map<PageId, Data>, allocatedPages: set<PageId>)
      ensures Ok() && frames.Length == poolSize && fresh(frames) && fresh(replacer)
      ensures |freeList| == poolSize && (forall i :: 0 <= i < poolSize ==> freeList[i] == i) && replacer.lruList == []
      ensures pageTable == map[] && this.disk == disk && this.allocatedPages == allocatedPages
    {
      frames := new Frame[poolSize](_ => Frame(INVALID_PAGE_ID, 0, false, Zeroes()));
      replacer := new LRUReplacer();
      pageTable := map[];
      this.disk, this.allocatedPages := disk, allocatedPages;
      freeList := seq(poolSize, i => i);
      new;
      forall f | 0 <= f < poolSize
        ensures FrameOk(View(), f) && CleanFrame(View(), f)
      {
        assert freeList[f] == f;
      }
    }

    method ReadPage(p: PageId) returns (d: Data)
      ensures d == OnDisk(View(), p)
    {
      d := if p in disk then disk[p] else Zeroes();
    }

    /** Whose frame it is, by going through the page table. */
    method PageOf(frame: FrameId) returns (p: PageId)
      requires forall q :: q in pageTable ==> 0 <= pageTable[q] < frames.Length && frames[pageTable[q]].pageId == q
      requires Mapped(View(), frame)
      ensures p == frames[frame].pageId
    {
      var rest := pageTable.Keys;
      p := INVALID_PAGE_ID;
      while rest != {}
        invariant rest <= pageTable.Keys && frames[frame].pageId in rest
        decreases rest
      {
        p :| p in rest;
        if pageTable[p] == frame {
          return;
        }
        rest := rest - {p};
      }
    }

    /** A frame from the free list, or else from the replacer, in which case the page that was in it
        goes, to the disk if it is dirty. */
    method TakeFrame() returns (ok: bool, frame: FrameId)
      requires Ok()
      modifies this, replacer
      ensures replacer.Valid() && (ok <==> Available(old(View()))) && allocatedPages == old(allocatedPages)
      ensures !ok ==> View() == old(View())
      ensures ok ==> 0 <= frame < frames.Length && frame == NextFrame(old(View())) && View() == Vacated(old(View()))
    {
      if freeList != [] {
        NextFrameOk(View());
        frame := freeList[|freeList| - 1];
        freeList := freeList[..|freeList| - 1];
        return true, frame;
      }
      if replacer.Size() == 0 {
        return false, -1;
      }
      NextFrameOk(View());
      TableEntries();
      var _, victim := replacer.Victim();
      var p := PageOf(victim);
      if frames[victim].dirty {
        disk := disk[p := frames[victim].data];
      }
      pageTable := pageTable - {p};
      ok, frame := true, victim;
    }

    lemma TableEntries()
      requires Ok()
      ensures forall q :: q in pageTable ==> 0 <= pageTable[q] < frames.Length && frames[pageTable[q]].pageId == q
    {
      forall q | q in pageTable
        ensures 0 <= pageTable[q] < frames.Length && frames[pageTable[q]].pageId == q
      {
        assert EntryOk(View(), q);
      }
    }

    /** The frame with the page p, pinned; none if p is not resident and every frame is pinned.  A
        resident page is pinned once more where it is; another one goes into the next frame.  No page
        changes. */
    method FetchPage(p: PageId) returns (ok: bool, frame: FrameId)
      requires Ok()
      modifies this, frames, replacer
      ensures Ok() && forall q :: Content(View(), q) == old(Content(View(), q))
      ensures ok <==> p in old(pageTable) || !AllPinned(old(View()))
      ensures ok ==> p in pageTable && pageTable[p] == frame && 0 <= frame < frames.Length
                     && frames[frame].pinCount > 0 && frames[frame].data == old(Content(View(), p))
      ensures View() == Fetched(old(View()), p)
      ensures !ok ==> View() == old(View())
      ensures p in old(pageTable) ==>
                var was := old(frames[..])[frame];
                && frame == old(pageTable)[p]
                && frames[..] == old(frames[..])[frame := was.(pinCount := was.pinCount + 1)]
                && pageTable == old(pageTable) && freeList == old(freeList) && disk == old(disk)
                && forall g :: g in replacer.lruList <==> g in old(replacer.lruList) && g != frame
      ensures ok && p !in old(pageTable) ==>
                && frame == old(if freeList != [] then freeList[|freeList| - 1]
                                else replacer.lruList[|replacer.lruList| - 1])
                && frames[..] == old(frames[..])[frame := Frame(p, 1, false, old(Content(View(), p)))]
      ensures ok && p !in old(pageTable) && old(freeList) != [] ==>
                && freeList == old(freeList[..|freeList| - 1]) && replacer.lruList == old(replacer.lruList)
                && pageTable == old(pageTable)[p := frame] && disk == old(disk)
      ensures ok && p !in old(pageTable) && old(freeList) == [] ==>
                var was := old(frames[..])[frame];
                && freeList == [] && replacer.lruList == old(replacer.lruList[..|replacer.lruList| - 1])
                && pageTable == (old(pageTable) - {was.pageId})[p := frame]
                && disk == if was.dirty then old(disk)[was.pageId := was.data] else old(disk)
      ensures allocatedPages == old(allocatedPages) && (old(Backed()) && p in allocatedPages ==> Backed())
    {
      AvailableUnlessPinned(View());
      if p in pageTable {
        PinnedOk(View(), p);
        frame := pageTable[p];
        assert EntryOk(View(), p) && FrameOk(View(), frame);
        PinResident(p, frame);
        return true, frame;
      }
      ghost var s := View();
      ok, frame := TakeFrame();
      if ok {
        var d := ReadPage(p);
        PlacedContent(s, p, d, p);
        Load(p, frame, d, s);
      }
    }

    method PinResident(p: PageId, frame: FrameId)
      requires replacer.Valid() && p in pageTable && pageTable[p] == frame && 0 <= frame < frames.Length
      modifies frames, replacer
      ensures replacer.Valid() && View() == Pinned(old(View()), p)
    {
      frames[frame] := frames[frame].(pinCount := frames[frame].pinCount + 1);
      replacer.Pin(frame);
    }

    /** Page p into a frame that has just been taken from the pool s. */
    method Load(p: PageId, frame: FrameId, d: Data, ghost s: Pool)
      requires replacer.Valid() && Valid(s) && Available(s)
      requires 0 <= frame < frames.Length && frame == NextFrame(s) && |s.frames| == frames.Length
               && View() == Vacated(s)
      modifies `pageTable, frames
      ensures replacer.Valid() && View() == Placed(Vacated(s), p, frame, d) && (Ok() <==> !Stays(s, p))
      ensures Ok() ==> forall q :: Content(View(), q) == if q == p then d else Content(s, q)
    {
      if p !in pageTable {
        pageTable := pageTable[p := frame];
      }
      frames[frame] := Frame(p, 1, false, d);
      assert View() == Placed(Vacated(s), p, frame, d);
      PlacedOk(s, p, d);
      forall q | !Stays(s, p)
        ensures Consistent(View()) && Content(View(), q) == if q == p then d else Content(s, q)
      {
        PlacedContent(s, p, d, q);
      }
    }

    /** A frame with a zeroed page under the id that the disk gives out; none if every frame is pinned.
        No other page changes.  The pool is in order exactly if the id is not that of a page which
        stays; it never is as long as only pages that the disk has given out are resident. */
    method NewPage(newId: PageId) returns (ok: bool, frame: FrameId)
      requires Ok()
      modifies this, frames, replacer
      ensures ok <==> !AllPinned(old(View()))
      ensures ok ==> Available(old(View())) && 0 <= frame < frames.Length && frame == NextFrame(old(View()))
                     && View() == Placed(Vacated(old(View())), newId, frame, Zeroes())
      ensures ok ==> replacer.Valid() && (Ok() <==> !Stays(old(View()), newId))
      ensures ok && newId !in old(pageTable) ==>
                && frame == old(if freeList != [] then freeList[|freeList| - 1]
                                else replacer.lruList[|replacer.lruList| - 1])
                && frames[..] == old(frames[..])[frame := Frame(newId, 1, false, Zeroes())]
      ensures ok && newId !in old(pageTable) && old(freeList) != [] ==>
                && freeList == old(freeList[..|freeList| - 1]) && replacer.lruList == old(replacer.lruList)
                && pageTable == old(pageTable)[newId := frame] && disk == old(disk)
      ensures ok && newId !in old(pageTable) && old(freeList) == [] ==>
                var was := old(frames[..])[frame];
                && freeList == [] && replacer.lruList == old(replacer.lruList[..|replacer.lruList| - 1])
                && pageTable == (old(pageTable) - {was.pageId})[newId := frame]
                && disk == if was.dirty then old(disk)[was.pageId := was.data] else old(disk)
      ensures ok && Ok() ==> newId in pageTable && pageTable[newId] == frame && frames[frame].pinCount > 0
      ensures ok && Ok() ==> forall q :: Content(View(), q) == if q == newId then Zeroes() else old(Content(View(), q))
      ensures !ok ==> Ok() && View() == old(View()) && allocatedPages == old(allocatedPages)
      ensures ok ==> allocatedPages == old(allocatedPages) + {newId}
      ensures old(Backed()) && newId !in old(allocatedPages) ==> Ok() && Backed()
    {
      AvailableUnlessPinned(View());
      ghost var s := View();
      ok, frame := TakeFrame();
      if ok {
        allocatedPages := allocatedPages + {newId};
        Load(newId, frame, Zeroes(), s);
        assert Ok() ==> EntryOk(View(), newId) && FrameOk(View(), frame);
      }
    }

    /** Page p may be evicted from now on, however often it was pinned.  No page changes; that it stays
        so is the client's word: the pool is in order exactly if the client has not kept back a change. */
    method UnpinPage(p: PageId, isDirty: bool) returns (ok: bool)
      requires Ok()
      modifies this, frames, replacer
      ensures replacer.Valid() && Consistent(View()) && (Ok() <==> HonestAbout(old(View()), p, isDirty))
      ensures (ok <==> p in old(pageTable)) && pageTable == old(pageTable) && allocatedPages == old(allocatedPages)
      ensures forall q :: Content(View(), q) == old(Content(View(), q))
      ensures ok ==> 0 <= pageTable[p] < frames.Length && frames[pageTable[p]].pinCount == 0
                     && pageTable[p] in replacer.lruList && View() == Unpinned(old(View()), p, isDirty)
      ensures freeList == old(freeList) && disk == old(disk)
      ensures ok ==> var f := pageTable[p]; var was := old(frames[..])[f];
                && frames[..] == old(frames[..])[f := was.(pinCount := 0, dirty := was.dirty || isDirty)]
                && replacer.lruList == if f in old(replacer.lruList) then old(replacer.lruList)
                                       else [f] + old(replacer.lruList)
      ensures !ok ==> View() == old(View())
    {
      if p !in pageTable {
        return false;
      }
      UnpinnedOk(View(), p, isDirty);
      var frame := pageTable[p];
      frames[frame] := frames[frame].(pinCount := 0);
      replacer.Unpin(frame);
      frames[frame] := frames[frame].(dirty := frames[frame].dirty || isDirty);
      assert View() == Unpinned(old(View()), p, isDirty);
      ok := true;
    }

    /** What a client does with a page it has fetched, and may do while the page is pinned or marked as
        dirty. */
    method WriteTo(p: PageId, d: Data)
      requires Ok() && p in pageTable && 0 <= pageTable[p] < frames.Length
      modifies frames
      ensures View() == Changed(old(View()), p, d)
      ensures Consistent(View()) && (Ok() <==> Writable(old(View()), p, d))
      ensures forall q :: Content(View(), q) == if q == p then d else old(Content(View(), q))
    {
      ChangedOk(View(), p, d);
      frames[pageTable[p]] := frames[pageTable[p]].(data := d);
      assert View() == Changed(old(View()), p, d);
    }

    // -------------------------------------------------------------- giving frames back

    /** Refuses a pinned page, and does nothing about one that is not resident.  Otherwise the frame
        goes to the free list, but stays with the replacer: the pool is not consistent any more.  The
        disk takes the page id back in any case, even if the page is refused and stays resident. */
    method DeletePage(p: PageId) returns (ok: bool)
      requires Ok()
      modifies this, frames
      ensures ok <==> old(IsIdle(p)) || p !in old(pageTable)
      ensures if old(IsIdle(p))
              then View() == GivenBack(old(View()), p, Frame(INVALID_PAGE_ID, 0, false, Zeroes()), old(disk))
              else View() == old(View())
      ensures old(IsIdle(p)) ==> pageTable == old(pageTable) - {p} && freeList == old(freeList + [pageTable[p]])
      ensures disk == old(disk) && replacer.lruList == old(replacer.lruList)
      ensures Consistent(View()) <==> !old(IsIdle(p))
      ensures allocatedPages == old(allocatedPages) - {p}
      ensures old(Backed()) ==> (Backed() <==> ok)
    {
      allocatedPages := allocatedPages - {p};
      if p !in pageTable {
        return true;
      }
      assert EntryOk(View(), p) && FrameOk(View(), pageTable[p]);
      var frame := pageTable[p];
      if frames[frame].pinCount != 0 {
        return false;
      }
      ghost var s := View();
      GivenBackOk(s, p, Frame(INVALID_PAGE_ID, 0, false, Zeroes()), disk);
      pageTable := pageTable - {p};
      freeList := freeList + [frame];
      frames[frame] := Frame(INVALID_PAGE_ID, 0, false, Zeroes());
      assert View() == GivenBack(s, p, frames[frame], disk);
      ok := true;
    }

    /** Writes a dirty page to the disk and gives its frame back.  The pool stays consistent exactly
        if the page was not an idle resident one, and the page keeps what it holds exactly if it was
        dirty or the same on disk. */
    method FlushPage(p: PageId) returns (ok: bool)
      requires Ok()
      modifies this, frames
      ensures ok <==> p in old(pageTable) && p != INVALID_PAGE_ID
      ensures ok ==> 0 <= old(pageTable)[p] < frames.Length
                     && View() == GivenBack(old(View()), p,
                                            old(frames[pageTable[p]]).(pinCount := 0, dirty := false), disk)
      ensures ok ==> pageTable == old(pageTable) - {p} && freeList == old(freeList + [pageTable[p]])
      ensures replacer.lruList == old(replacer.lruList)
      ensures ok ==> disk == if old(IsDirty(p)) then old(disk)[p := old(Content(View(), p))] else old(disk)
      ensures ok ==> (Consistent(View()) <==> !old(IsIdle(p)))
      ensures ok ==> (OnDisk(View(), p) == old(Content(View(), p))
                      <==> old(IsDirty(p)) || old(Content(View(), p)) == old(OnDisk(View(), p)))
      ensures ok && Consistent(View()) ==>
                forall q :: Content(View(), q) == if q == p then OnDisk(View(), p) else old(Content(View(), q))
      ensures !ok ==> View() == old(View())
      ensures allocatedPages == old(allocatedPages)
    {
      if p == INVALID_PAGE_ID || p !in pageTable {
        return false;
      }
      assert EntryOk(View(), p) && FrameOk(View(), pageTable[p]);
      var frame := pageTable[p];
      ghost var s := View();
      if frames[frame].dirty {
        disk := disk[p := frames[frame].data];
      }
      frames[frame] := frames[frame].(pinCount := 0, dirty := false);
      pageTable := pageTable - {p};
      freeList := freeList + [frame];
      GivenBackOk(s, p, frames[frame], disk);
      assert View() == GivenBack(s, p, frames[frame], disk);
      forall q | Consistent(View())
        ensures Content(View(), q) == if q == p then OnDisk(View(), p) else Content(s, q)
      {
        GivenBackContent(s, p, frames[frame], disk, q);
      }
      ok := true;
    }

    /** A resident page that is not pinned. */
    ghost predicate IsIdle(p: PageId)
      reads this, frames
    {
      p in pageTable && 0 <= pageTable[p] < frames.Length && frames[pageTable[p]].pinCount == 0
    }

    ghost predicate IsDirty(p: PageId)
      reads this, frames
    {
      p in pageTable && 0 <= pageTable[p] < frames.Length && frames[pageTable[p]].dirty
    }
  }
}
