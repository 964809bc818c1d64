/** A table page as the block of memory that it is. */
module TablePages {
  import opened Bytes
  import opened Common
  import opened SlottedPage

  const OFFSET_PREV_PAGE_ID := 8
  const OFFSET_NEXT_PAGE_ID := 12
  const OFFSET_FREE_SPACE := 16
  const OFFSET_TUPLE_COUNT := 20
  const OFFSET_TUPLE_OFFSET := 24
  const OFFSET_TUPLE_SIZE := 28

  // ------------------------------------------------------------------ reading the memory

  predicate HasSlot(i: int) {
    0 <= i && OFFSET_TUPLE_OFFSET + SLOT_SIZE * i + SLOT_SIZE <= PAGE_SIZE
  }

  function SlotOf(d: seq<byte>, i: int): Slot
    requires |d| == PAGE_SIZE && HasSlot(i)
  {
    Slot(Word(d, OFFSET_TUPLE_OFFSET + SLOT_SIZE * i), Word(d, OFFSET_TUPLE_SIZE + SLOT_SIZE * i))
  }

  function FreeOf(d: seq<byte>): int
    requires |d| == PAGE_SIZE
  {
    Word(d, OFFSET_FREE_SPACE)
  }

  function CountOf(d: seq<byte>): int
    requires |d| == PAGE_SIZE
  {
    Word(d, OFFSET_TUPLE_COUNT)
  }

  predicate Readable(d: seq<byte>) {
    |d| == PAGE_SIZE && OFFSET_TUPLE_OFFSET + SLOT_SIZE * CountOf(d) <= FreeOf(d) <= PAGE_SIZE
  }

  function Parse(d: seq<byte>): (im: Image)
    requires Readable(d)
  {
    Image(FreeOf(d), seq(CountOf(d), i requires 0 <= i < CountOf(d) => SlotOf(d, i)), d[FreeOf(d)..])
  }

  /** Words away from the bytes that change keep their value. */
  lemma WordKept(d: seq<byte>, e: seq<byte>, lo: int, hi: int, at: int)
    requires SameOutside(d, e, lo, hi) && 0 <= at && at + 4 <= |d|
    requires at + 4 <= lo || hi <= at
    ensures Word(e, at) == Word(d, at)
  {
    assert forall k :: at <= k < at + 4 ==> e[k] == d[k];
  }

  /** A directory whose bytes stay the same reads the same. */
  lemma SlotsKept(d: seq<byte>, e: seq<byte>, n: int)
    requires |d| == |e| == PAGE_SIZE && OFFSET_TUPLE_OFFSET + SLOT_SIZE * n <= PAGE_SIZE
    requires forall k :: OFFSET_TUPLE_OFFSET <= k < OFFSET_TUPLE_OFFSET + SLOT_SIZE * n ==> e[k] == d[k]
    ensures forall i :: 0 <= i < n ==> SlotOf(e, i) == SlotOf(d, i)
  {
  }

  /** Changing the bytes of one slot leaves the others alone. */
  lemma OtherSlotsKept(d: seq<byte>, e: seq<byte>, i: int)
    requires |d| == PAGE_SIZE && HasSlot(i)
    requires SameOutside(d, e, OFFSET_TUPLE_OFFSET + SLOT_SIZE * i, OFFSET_TUPLE_OFFSET + SLOT_SIZE * i + SLOT_SIZE)
    ensures forall j :: HasSlot(j) && j != i ==> SlotOf(e, j) == SlotOf(d, j)
  {
  }

  /** The image of a page from its words and bytes. */
  lemma ParseIs(d: seq<byte>, im: Image)
    requires |d| == PAGE_SIZE && Fits(im)
    requires FreeOf(d) == im.free && CountOf(d) == |im.slots| && d[im.free..] == im.tail
    requires forall i :: 0 <= i < |im.slots| ==> SlotOf(d, i) == im.slots[i]
    ensures Readable(d) && Parse(d) == im
  {
    assert Parse(d).slots == im.slots;
  }

  /** The first slot that has no tuple, or the number of slots. */
  function FirstVacant(slots: seq<Slot>): (i: int)
    ensures 0 <= i <= |slots|
    ensures i < |slots| ==> slots[i].size == 0
    ensures forall j :: 0 <= j < i ==> slots[j].size != 0
  {
    if slots == [] || slots[0].size == 0 then 0 else 1 + FirstVacant(slots[1..])
  }

  lemma FirstVacantIs(slots: seq<Slot>, i: int)
    requires 0 <= i <= |slots| && (i < |slots| ==> slots[i].size == 0)
    requires forall j :: 0 <= j < i ==> slots[j].size != 0
    ensures FirstVacant(slots) == i
  {
  }

  function EmptyImage(): Image {
    Image(PAGE_SIZE, [], [])
  }

  function FreeSpaceRemaining(im: Image): int {
    im.free - HEADER_SIZE - SLOT_SIZE * |im.slots|
  }

  /** A tuple of n bytes fits into a page with these contents, with a slot of its own behind the others:
      header, directory and tuples do not fill the page. */
  predicate FitsBeside(c: seq<Tuple>, n: int) {
    24 + 8 * (|c| + 1) + TotalBytes(c) + n <= 4096
  }

  /** The space that remains, by the words of the page and by its contents. */
  lemma SpaceInWords(d: seq<byte>, n: int)
    requires Readable(d)
    ensures n + SLOT_SIZE <= FreeSpaceRemaining(Parse(d)) <==> 24 + 8 * (Word(d, 20) + 1) + n <= Word(d, 16)
  {
  }

  lemma SpaceByContents(im: Image, n: int)
    requires Valid(im)
    ensures n + SLOT_SIZE <= FreeSpaceRemaining(im) <==> FitsBeside(Contents(im), n)
  {
    FreeByContents(im);
  }

  /** A slot by the bytes of the page: the word at 28 + 8 i is the size, its top bit the mark, and the one
      in front of it is where the tuple starts. */
  lemma ContentsInWords(d: seq<byte>, i: nat)
    requires Readable(d) && Fits(Parse(d)) && i < Word(d, 20)
    ensures |Contents(Parse(d))| == Word(d, 20) && 32 + 8 * i <= |d| == 4096
    ensures var at, size, t := Word(d, 24 + 8 * i), Word(d, 28 + 8 * i), Contents(Parse(d))[i];
            var n := if size < 0x8000_0000 then size else size - 0x8000_0000;
            && (t.Vacant? <==> size == 0)
            && (size != 0 ==> Word(d, 16) <= at && at + n <= 4096
                              && t == Stored(d[at..at + n], size >= 0x8000_0000))
  {
    var im, s := Parse(d), SlotOf(d, i);
    assert Contents(im)[i] == TupleAt(im, i) && im.slots[i] == s;
    if s.size != 0 {
      assert im.free <= s.offset && End(s) <= PAGE_SIZE;
      TailAt(d, im.free, s.offset, End(s));
    }
  }

  lemma TailAt(d: seq<byte>, free: int, from: int, to: int)
    requires 0 <= free <= from <= to <= |d|
    ensures d[free..][from - free..to - free] == d[from..to]
  {
  }

  /** There is a tuple and it is not marked. */
  predicate Live(t: Tuple) {
    t.Stored? && !t.marked
  }

  /** Slot i is the first live one from the given slot on. */
  predicate IsNextLive(c: seq<Tuple>, from: int, i: int) {
    0 <= from <= i < |c| && Live(c[i]) && forall j :: from <= j < i ==> !Live(c[j])
  }

  predicate NoneLive(c: seq<Tuple>, from: int) {
    forall j :: 0 <= from <= j < |c| ==> !Live(c[j])
  }

  /** What a scan or an insertion sees of a page. */
  datatype PageValue = PageValue(id: PageId32, prev: PageId32, next: PageId32, image: Image)

  /** A page that has just been initialised. */
  function EmptyPage(id: PageId32, prev: PageId32): PageValue {
    PageValue(id, prev, INVALID_PAGE_ID, EmptyImage())
  }

  class TablePage {
    const data: array<byte>

    ghost predicate Wf()
      reads data
    {
      data.Length == PAGE_SIZE && Readable(data[..]) && Valid(Parse(data[..]))
    }

    ghost function View(): (im: Image)
      requires Wf()
      reads data
    {
      Parse(data[..])
    }

    /** Page id, log sequence number and the two links. */
    ghost function Header(): seq<byte>
      requires data.Length == PAGE_SIZE
      reads data
    {
      data[..OFFSET_FREE_SPACE]
    }

    ghost function Id(): PageId32
      requires data.Length == PAGE_SIZE
      reads data
    {
      Signed(Word(Header(), 0))
    }

    ghost function Prev(): PageId32
      requires data.Length == PAGE_SIZE
      reads data
    {
      Signed(Word(Header(), OFFSET_PREV_PAGE_ID))
    }

    ghost function Next(): PageId32
      requires data.Length == PAGE_SIZE
      reads data
    {
      Signed(Word(Header(), OFFSET_NEXT_PAGE_ID))
    }

    /** The page as a whole, as a value.  The trigger keeps proofs about many pages from looking
        into each of them; Inside(0) opens this up where the bytes matter. */
    ghost predicate Shows(v: PageValue)
      reads data
    {
      forall i {:trigger Inside(i)} :: Inside(i) ==>
        Wf() && View() == v.image && Id() == v.id && Prev() == v.prev && Next() == v.next
    }

    /** A zeroed page. */
    constructor ()
      ensures data.Length == PAGE_SIZE && fresh(data)
    {
      data := new byte[PAGE_SIZE](_ => 0);
    }

    // -------------------------------------------------------------- the directory, word by word

    method SetTupleOffsetAtSlot(i: int, offset: int)
      requires data.Length == PAGE_SIZE && HasSlot(i) && 0 <= offset < WORD_LIMIT
      modifies data
      ensures SameOutside(old(data[..]), data[..],
                          OFFSET_TUPLE_OFFSET + SLOT_SIZE * i, OFFSET_TUPLE_OFFSET + SLOT_SIZE * i + SLOT_SIZE)
      ensures SlotOf(data[..], i) == Slot(offset, old(SlotOf(data[..], i)).size)
    {
      SetWord(data, OFFSET_TUPLE_OFFSET + SLOT_SIZE * i, offset);
      WordKept(old(data[..]), data[..], OFFSET_TUPLE_OFFSET + SLOT_SIZE * i, OFFSET_TUPLE_SIZE + SLOT_SIZE * i,
               OFFSET_TUPLE_SIZE + SLOT_SIZE * i);
    }

    method SetTupleSize(i: int, size: int)
      requires data.Length == PAGE_SIZE && HasSlot(i) && 0 <= size < WORD_LIMIT
      modifies data
      ensures SameOutside(old(data[..]), data[..],
                          OFFSET_TUPLE_OFFSET + SLOT_SIZE * i, OFFSET_TUPLE_OFFSET + SLOT_SIZE * i + SLOT_SIZE)
      ensures SlotOf(data[..], i) == Slot(old(SlotOf(data[..], i)).offset, size)
    {
      SetWord(data, OFFSET_TUPLE_SIZE + SLOT_SIZE * i, size);
      WordKept(old(data[..]), data[..], OFFSET_TUPLE_SIZE + SLOT_SIZE * i, OFFSET_TUPLE_SIZE + SLOT_SIZE * i + 4,
               OFFSET_TUPLE_OFFSET + SLOT_SIZE * i);
    }

    method GetSlot(i: int) returns (offset: int, size: int)
      requires data.Length == PAGE_SIZE && HasSlot(i)
      ensures Slot(offset, size) == SlotOf(data[..], i)
    {
      offset := GetWord(data, OFFSET_TUPLE_OFFSET + SLOT_SIZE * i);
      size := GetWord(data, OFFSET_TUPLE_SIZE + SLOT_SIZE * i);
    }

    method GetTupleCount() returns (n: int)
      requires data.Length == PAGE_SIZE
      ensures n == CountOf(data[..])
    {
      n := GetWord(data, OFFSET_TUPLE_COUNT);
    }

    method GetFreeSpaceRemaining() returns (n: int)
      requires Wf()
      ensures n == FreeSpaceRemaining(View())
    {
      var free := GetWord(data, OFFSET_FREE_SPACE);
      var count := GetTupleCount();
      n := free - HEADER_SIZE - SLOT_SIZE * count;
    }

    /** An empty page. */
    method Init(pageId: PageId32, prevId: PageId32)
      requires data.Length == PAGE_SIZE
      modifies data
      ensures Wf() && View() == EmptyImage()
      ensures Id() == pageId && Prev() == prevId && Next() == INVALID_PAGE_ID
      ensures Word(data[..], 0) == Unsigned(pageId) && Word(data[..], 8) == Unsigned(prevId)
      ensures Word(data[..], 12) == 0xFFFF_FFFF && Word(data[..], 16) == 4096 && Word(data[..], 20) == 0
    {
      SetWord(data, 0, Unsigned(pageId));
      SetWord(data, OFFSET_PREV_PAGE_ID, Unsigned(prevId));
      SetWord(data, OFFSET_NEXT_PAGE_ID, Unsigned(INVALID_PAGE_ID));
      SetWord(data, OFFSET_FREE_SPACE, PAGE_SIZE);
      SetWord(data, OFFSET_TUPLE_COUNT, 0);
    }

    method GetNextPageId() returns (p: PageId32)
      requires data.Length == PAGE_SIZE
      ensures p == Next()
    {
      var w := GetWord(data, OFFSET_NEXT_PAGE_ID);
      p := Signed(w);
    }

    method SetNextPageId(p: PageId32)
      requires Wf()
      modifies data
      ensures Wf() && View() == old(View()) && Id() == old(Id()) && Prev() == old(Prev()) && Next() == p
      ensures Word(data[..], 12) == Unsigned(p) && SameOutside(old(data[..]), data[..], 12, 16)
    {
      ghost var d := data[..];
      SetWord(data, OFFSET_NEXT_PAGE_ID, Unsigned(p));
      SlotsKept(d, data[..], CountOf(d));
      assert data[FreeOf(d)..] == d[FreeOf(d)..];
      ParseIs(data[..], Parse(d));
    }

    // -------------------------------------------------------------- insertion

    method FindVacant() returns (i: int)
      requires Wf()
      ensures i == FirstVacant(View().slots)
    {
      var count := GetTupleCount();
      i := 0;
      while i < count
        invariant 0 <= i <= count
        invariant forall j :: 0 <= j < i ==> View().slots[j].size != 0
      {
        var _, size := GetSlot(i);
        if size == 0 {
          break;
        }
        i := i + 1;
      }
      FirstVacantIs(View().slots, i);
    }

    /** Stores a tuple, if it and one more slot fit in, under the first vacant slot. */
    method InsertTuple(b: seq<byte>) returns (ok: bool, slot: int)
      requires Wf() && |b| > 0
      modifies data
      ensures Wf() && Header() == old(Header())
      ensures ok <==> FitsBeside(old(Contents(View())), |b|)
      ensures ok <==> 24 + 8 * (old(Word(data[..], 20)) + 1) + |b| <= old(Word(data[..], 16))
      ensures ok <==> |b| + SLOT_SIZE <= old(FreeSpaceRemaining(View()))
      ensures !ok ==> data[..] == old(data[..])
      ensures ok ==> slot == old(FirstVacant(View().slots)) && View() == Inserted(old(View()), slot, b)
      ensures var c := old(Contents(View()));
              ok ==> Contents(View()) == if slot == |c| then c + [Stored(b, false)] else c[slot := Stored(b, false)]
    {
      SpaceInWords(data[..], |b|);
      SpaceByContents(View(), |b|);
      var remaining := GetFreeSpaceRemaining();
      if remaining < |b| + SLOT_SIZE {
        return false, 0;
      }
      slot := FindVacant();
      InsertedOk(View(), slot, b);
      StoreTuple(slot, b);
      ok := true;
    }

    method StoreTuple(i: int, b: seq<byte>)
      requires Wf() && 0 < |b| && |b| + SLOT_SIZE <= FreeSpaceRemaining(View())
      requires 0 <= i <= |View().slots|
      modifies data
      ensures data.Length == PAGE_SIZE && Readable(data[..]) && Header() == old(Header())
      ensures Parse(data[..]) == Inserted(old(View()), i, b)
    {
      var start := PutInFront(b);
      ClaimSlot(i, start, |b|);
    }

    /** The bytes of a tuple in front of the other tuples. */
    method PutInFront(b: seq<byte>) returns (start: int)
      requires Wf() && |b| <= FreeSpaceRemaining(View())
      modifies data
      ensures Readable(data[..]) && Header() == old(Header()) && start == old(View()).free - |b|
      ensures Parse(data[..]) == Image(start, old(View()).slots, b + old(View()).tail)
    {
      ghost var d := data[..];
      var free := GetWord(data, OFFSET_FREE_SPACE);
      start := free - |b|;
      SetWord(data, OFFSET_FREE_SPACE, start);
      Memcpy(data, start, b);
      SlotsKept(d, data[..], CountOf(d));
      assert data[start..] == b + d[free..];
    }

    /** An entry for a tuple in the directory, which grows if all the slots are taken. */
    method ClaimSlot(i: int, offset: int, size: int)
      requires data.Length == PAGE_SIZE && Readable(data[..]) && 0 <= i <= CountOf(data[..])
      requires OFFSET_TUPLE_OFFSET + SLOT_SIZE * (CountOf(data[..]) + 1) <= FreeOf(data[..])
      requires 0 <= offset < WORD_LIMIT && 0 <= size < WORD_LIMIT
      modifies data
      ensures Readable(data[..]) && Header() == old(Header())
      ensures var im := old(Parse(data[..])); var s := Slot(offset, size);
              Parse(data[..]) == im.(slots := if i == |im.slots| then im.slots + [s] else im.slots[i := s])
    {
      ghost var d := data[..];
      var count := GetTupleCount();
      WriteSlot(i, offset, size);
      if i == count {
        ghost var e := data[..];
        SetWord(data, OFFSET_TUPLE_COUNT, count + 1);
        SlotsKept(e, data[..], count + 1);
      }
      assert data[FreeOf(d)..] == d[FreeOf(d)..];
    }

    /** Both words of a slot. */
    method WriteSlot(i: int, offset: int, size: int)
      requires data.Length == PAGE_SIZE && HasSlot(i) && 0 <= offset < WORD_LIMIT && 0 <= size < WORD_LIMIT
      modifies data
      ensures SameOutside(old(data[..]), data[..],
                          OFFSET_TUPLE_OFFSET + SLOT_SIZE * i, OFFSET_TUPLE_OFFSET + SLOT_SIZE * i + SLOT_SIZE)
      ensures SlotOf(data[..], i) == Slot(offset, size)
      ensures forall j :: HasSlot(j) && j != i ==> SlotOf(data[..], j) == old(SlotOf(data[..], j))
    {
      SetTupleOffsetAtSlot(i, offset);
      SetTupleSize(i, size);
      OtherSlotsKept(old(data[..]), data[..], i);
    }

    // -------------------------------------------------------------- reading

    /** The tuple of a slot, unless there is none or it is marked as deleted. */
    method GetTuple(slot: int) returns (ok: bool, b: seq<byte>)
      requires Wf() && slot >= 0
      ensures ok <==> slot < |View().slots| && Live(Contents(View())[slot])
      ensures ok ==> b == Contents(View())[slot].bytes
    {
      var count := GetTupleCount();
      if slot >= count {
        return false, [];
      }
      var offset, size := GetSlot(slot);
      if IsDeleted(size) {
        return false, [];
      }
      ok, b := true, data[offset..offset + size];
      assert Contents(View())[slot] == TupleAt(View(), slot);
      assert data[..][FreeOf(data[..])..][offset - FreeOf(data[..])..offset + size - FreeOf(data[..])] ==
             data[offset..offset + size];
    }

    /** The first live tuple at or after a slot. */
    method FindLive(from: int) returns (found: bool, slot: int)
      requires Wf() && from >= 0
      ensures found ==> IsNextLive(Contents(View()), from, slot)
      ensures !found ==> NoneLive(Contents(View()), from)
    {
      var count := GetTupleCount();
      slot := from;
      while slot < count
        invariant from <= slot
        invariant forall i :: from <= i < slot && i < count ==> !Live(TupleAt(View(), i))
      {
        var _, size := GetSlot(slot);
        if !IsDeleted(size) {
          return true, slot;
        }
        slot := slot + 1;
      }
      found := false;
    }

    method GetFirstTupleRid() returns (found: bool, slot: int)
      requires Wf()
      ensures found ==> IsNextLive(Contents(View()), 0, slot)
      ensures !found ==> NoneLive(Contents(View()), 0)
    {
      found, slot := FindLive(0);
    }

    method GetNextTupleRid(current: int) returns (found: bool, slot: int)
      requires Wf() && current >= 0
      ensures found ==> IsNextLive(Contents(View()), current + 1, slot)
      ensures !found ==> NoneLive(Contents(View()), current + 1)
    {
      found, slot := FindLive(current + 1);
    }

    // -------------------------------------------------------------- deletion marks

    /** Marks a live tuple as deleted. */
    method MarkDelete(slot: int) returns (ok: bool)
      requires Wf() && slot >= 0
      modifies data
      ensures Wf() && Header() == old(Header())
      ensures ok <==> slot < |old(View()).slots| && Live(old(Contents(View()))[slot])
      ensures ok ==> Contents(View()) == old(Contents(View()))[slot := old(Contents(View()))[slot].(marked := true)]
      ensures !ok ==> data[..] == old(data[..])
    {
      var count := GetTupleCount();
      if slot >= count {
        return false;
      }
      var _, size := GetSlot(slot);
      if IsDeleted(size) {
        return false;
      }
      ResizedOk(View(), slot, size + DELETE_MASK);
      Resize(slot, size + DELETE_MASK);
      ok := true;
    }

    /** Takes the mark off again. */
    method RollbackDelete(slot: int)
      requires Wf() && 0 <= slot < |View().slots|
      modifies data
      ensures Wf() && Header() == old(Header())
      ensures var c := old(Contents(View()));
              Contents(View()) == if c[slot].Stored? then c[slot := c[slot].(marked := false)] else c
    {
      var _, size := GetSlot(slot);
      if IsDeleted(size) {
        if size != 0 {
          ResizedOk(View(), slot, Length(size));
        } else {
          assert Resized(View(), slot, 0) == View();
        }
        Resize(slot, Length(size));
      }
    }

    method Resize(slot: int, size: int)
      requires Wf() && 0 <= slot < |View().slots| && 0 <= size < WORD_LIMIT
      modifies data
      ensures data.Length == PAGE_SIZE && Readable(data[..]) && Header() == old(Header())
      ensures Parse(data[..]) == Resized(old(View()), slot, size)
    {
      ghost var d := data[..];
      SetTupleSize(slot, size);
      OtherSlotsKept(d, data[..], slot);
      assert data[FreeOf(d)..] == d[FreeOf(d)..];
    }

    // -------------------------------------------------------------- moving tuples

    /** The memory shows the image im; closed like Shows. */
    ghost predicate Images(im: Image)
      reads data
    {
      && data.Length == PAGE_SIZE
      && forall i {:trigger Inside(i)} :: Inside(i) ==> Readable(data[..]) && Parse(data[..]) == im
    }

    /** Opens or closes the gap between a tuple of the given size, which would now be n bytes long,
        and the ones in front of it. */
    method MoveFront(offset: int, size: int, n: int, ghost im: Image) returns (ghost c: Image)
      requires Images(im) && Fits(im)
      requires im.free <= offset && 0 <= size && 0 <= n && offset + size <= PAGE_SIZE
      requires n - size <= FreeSpaceRemaining(im)
      modifies data
      ensures Images(c) && Header() == old(Header())
      ensures c.free == im.free + size - n && c.slots == im.slots && c.free + |c.tail| == PAGE_SIZE
      ensures c.tail[..offset - im.free] == im.tail[..offset - im.free]
      ensures c.tail[offset - im.free + n..] == im.tail[offset + size - im.free..]
    {
      assert Inside(0);
      ghost var d := data[..];
      MoveBytes(offset, size, n);
      TailMoved(d, data[..], im.free, offset, size, n);
      c := Parse(data[..]);
    }

    method MoveBytes(offset: int, size: int, n: int)
      requires data.Length == PAGE_SIZE && Readable(data[..])
      requires FreeOf(data[..]) <= offset && 0 <= size && 0 <= n && offset + size <= PAGE_SIZE
      requires FreeOf(data[..]) + size - n >= HEADER_SIZE + SLOT_SIZE * CountOf(data[..])
      modifies data
      ensures data.Length == PAGE_SIZE && Readable(data[..]) && Header() == old(Header())
      ensures var d := old(data[..]); var start := FreeOf(d) + size - n;
              && FreeOf(data[..]) == start && Parse(data[..]).slots == Parse(d).slots
              && data[start..offset + size - n] == d[FreeOf(d)..offset]
              && forall k :: offset + size <= k < PAGE_SIZE ==> data[..][k] == d[k]
    {
      ghost var d := data[..];
      var free := GetWord(data, OFFSET_FREE_SPACE);
      Memmove(data, free + size - n, free, offset - free);
      SetWord(data, OFFSET_FREE_SPACE, free + size - n);
      SlotsKept(d, data[..], CountOf(d));
    }

    /** Adds delta to the offset of every tuple that lies in front of limit. */
    method FixOffsets(limit: int, delta: int, ghost im: Image) returns (ghost c: Image)
      requires Images(im)
      requires forall i :: 0 <= i < |im.slots| && im.slots[i].size != 0 ==>
                 0 <= Shifted(im.slots[i], limit, delta).offset < WORD_LIMIT
      modifies data
      ensures Images(c) && Header() == old(Header())
      ensures c.free == im.free && c.tail == im.tail && |c.slots| == |im.slots|
      ensures forall i :: 0 <= i < |im.slots| ==> c.slots[i] == Shifted(im.slots[i], limit, delta)
    {
      assert Inside(0);
      ghost var d := data[..];
      var count := GetTupleCount();
      for i := 0 to count
        invariant SameOutside(d, data[..], OFFSET_TUPLE_OFFSET, OFFSET_TUPLE_OFFSET + SLOT_SIZE * count)
        invariant forall j :: 0 <= j < count ==>
                    SlotOf(data[..], j) == if j < i then Shifted(SlotOf(d, j), limit, delta) else SlotOf(d, j)
      {
        assert Parse(d).slots[i] == SlotOf(d, i);
        FixOffset(i, limit, delta);
      }
      assert data[FreeOf(d)..] == d[FreeOf(d)..];
      c := Parse(data[..]);
    }

    method FixOffset(i: int, limit: int, delta: int)
      requires data.Length == PAGE_SIZE && HasSlot(i)
      requires var s := SlotOf(data[..], i); s.size != 0 ==> 0 <= Shifted(s, limit, delta).offset < WORD_LIMIT
      modifies data
      ensures SameOutside(old(data[..]), data[..],
                          OFFSET_TUPLE_OFFSET + SLOT_SIZE * i, OFFSET_TUPLE_OFFSET + SLOT_SIZE * i + SLOT_SIZE)
      ensures SlotOf(data[..], i) == Shifted(old(SlotOf(data[..], i)), limit, delta)
      ensures forall j :: HasSlot(j) && j != i ==> SlotOf(data[..], j) == old(SlotOf(data[..], j))
    {
      var offset, size := GetSlot(i);
      if size != 0 && offset < limit {
        SetTupleOffsetAtSlot(i, offset + delta);
        OtherSlotsKept(old(data[..]), data[..], i);
      }
    }

    // -------------------------------------------------------------- update

    /** Puts other bytes in place of a live tuple.  The status is 1 on success, 0 for a slot that
        does not exist, -1 for one without a live tuple, -2 if there is not enough space. */
    method UpdateTuple(slot: int, b: seq<byte>) returns (status: int, was: seq<byte>)
      requires Wf() && slot >= 0 && 0 < |b| < DELETE_MASK
      modifies data
      ensures Wf() && Header() == old(Header())
      ensures var c := old(Contents(View()));
              && status == (if slot >= |c| then 0
                            else if !Live(c[slot]) then -1
                            else if 24 + 8 * |c| + TotalBytes(c) - |c[slot].bytes| + |b| > 4096 then -2 else 1)
              && (status == 1 ==> was == c[slot].bytes && Contents(View()) == c[slot := Stored(b, false)])
      ensures status == -2 <==> slot < old(Word(data[..], 20)) && Live(old(Contents(View()))[slot])
                                && !(24 + 8 * old(Word(data[..], 20)) + |b|
                                     <= old(Word(data[..], 16)) + old(Word(data[..], 28 + 8 * slot)))
      ensures status != 1 ==> data[..] == old(data[..])
    {
      was := [];
      var count := GetTupleCount();
      if slot >= count {
        return 0, was;
      }
      var offset, size := GetSlot(slot);
      assert Contents(View())[slot] == TupleAt(View(), slot);
      if IsDeleted(size) {
        return -1, was;
      }
      FreeByContents(View());
      var remaining := GetFreeSpaceRemaining();
      if remaining + size < |b| {
        return -2, was;
      }
      var _, old_ := GetTuple(slot);
      was := old_;
      ghost var im := View();
      ReplacedOk(im, slot, b);
      Replace(slot, offset, size, b, im);
      assert Inside(0);
      status := 1;
    }

    method Replace(slot: int, offset: int, size: int, b: seq<byte>, ghost im: Image)
      requires Images(im) && Replaceable(im, slot, b) && Disjoint(im) && |b| > 0
      requires Slot(offset, size) == im.slots[slot] && !IsDeleted(size)
      modifies data
      ensures Images(Replaced(im, slot, b)) && Header() == old(Header())
    {
      ghost var c := MoveFront(offset, size, |b|, im);
      ghost var cut := offset - im.free;
      var at := offset + size - |b|;
      c := WriteTuple(slot, at, b, c, cut);
      ForallShifted(im, slot, b, offset + size);
      ghost var d := FixOffsets(offset + size, size - |b|, c);
      ReplacedIs(im, slot, b, c, d);
    }

    /** The bytes of a tuple, at a distance cut from the free-space pointer, and its size, not its
        offset. */
    method WriteTuple(slot: int, at: int, b: seq<byte>, ghost im: Image, ghost cut: int) returns (ghost c: Image)
      requires Images(im) && im.free + |im.tail| == PAGE_SIZE && 0 <= slot < |im.slots|
      requires im.free <= at && at + |b| <= PAGE_SIZE && at == im.free + cut
      modifies data
      ensures Images(c) && Header() == old(Header())
      ensures c.free == im.free && |c.tail| == |im.tail|
      ensures c.slots == im.slots[slot := Slot(im.slots[slot].offset, |b|)]
      ensures c.tail[..cut] == im.tail[..cut] && c.tail[cut..cut + |b|] == b
              && c.tail[cut + |b|..] == im.tail[cut + |b|..]
    {
      assert Inside(0);
      ghost var d := data[..];
      Memcpy(data, at, b);
      ghost var e := data[..];
      SlotsKept(d, e, CountOf(d));
      SetTupleSize(slot, |b|);
      TupleWritten(d, e, data[..], im, slot, at, b, cut);
      c := Parse(data[..]);
    }

    // -------------------------------------------------------------- removal

    /** Drops a tuple, marked or not, for good. */
    method ApplyDelete(slot: int)
      requires Wf() && 0 <= slot < |View().slots| && Contents(View())[slot].Stored?
      modifies data
      ensures Wf() && Header() == old(Header())
      ensures Contents(View()) == old(Contents(View()))[slot := Vacant]
    {
      ghost var im := View();
      var offset, size := GetSlot(slot);
      ReplacedOk(im, slot, []);
      Vacate(slot, offset, Length(size), im);
      assert Inside(0);
    }

    method Vacate(slot: int, offset: int, length: int, ghost im: Image)
      requires Images(im) && Replaceable(im, slot, []) && Disjoint(im)
      requires offset == im.slots[slot].offset && length == Length(im.slots[slot].size)
      modifies data
      ensures Images(Replaced(im, slot, [])) && Header() == old(Header())
    {
      ghost var c := MoveFront(offset, length, 0, im);
      c := ClearSlot(slot, c);
      ForallShifted(im, slot, [], offset);
      ghost var d := FixOffsets(offset, length, c);
      ReplacedIs(im, slot, [], c, d);
    }

    method ClearSlot(slot: int, ghost im: Image) returns (ghost c: Image)
      requires Images(im) && 0 <= slot < |im.slots|
      modifies data
      ensures Images(c) && Header() == old(Header()) && c == im.(slots := im.slots[slot := Slot(0, 0)])
    {
      assert Inside(0);
      ghost var d := data[..];
      WriteSlot(slot, 0, 0);
      assert data[FreeOf(d)..] == d[FreeOf(d)..];
      c := Parse(data[..]);
    }
  }

  /** What the move of the bytes in [free, offset) does to the bytes from the free-space pointer on. */
  lemma TailMoved(d: seq<byte>, e: seq<byte>, free: int, offset: int, size: int, n: int)
    requires |d| == |e| == PAGE_SIZE && 0 <= free <= offset && 0 <= size && 0 <= n && offset + size <= PAGE_SIZE
    requires 0 <= free + size - n
    requires e[free + size - n..offset + size - n] == d[free..offset]
    requires forall k :: offset + size <= k < PAGE_SIZE ==> e[k] == d[k]
    ensures var t := e[free + size - n..];
            && t[..offset - free] == d[free..][..offset - free]
            && t[offset - free + n..] == d[free..][offset + size - free..]
  {
    var t := e[free + size - n..];
    assert t[..offset - free] == e[free + size - n..offset + size - n];
    assert e[offset + size..] == d[offset + size..];
    assert t[offset - free + n..] == e[offset + size..];
    assert d[free..][offset + size - free..] == d[offset + size..];
  }

  /** What writing b at position at does to the bytes from the free-space pointer on. */
  lemma TailWritten(d: seq<byte>, e: seq<byte>, free: int, at: int, b: seq<byte>, cut: int)
    requires |d| == |e| == PAGE_SIZE && 0 <= free <= at && at + |b| <= PAGE_SIZE && at == free + cut
    requires e[at..at + |b|] == b
    requires forall k :: free <= k < PAGE_SIZE && !(at <= k < at + |b|) ==> e[k] == d[k]
    ensures var t := e[free..];
            t[..cut] == d[free..][..cut] && t[cut..cut + |b|] == b && t[cut + |b|..] == d[free..][cut + |b|..]
  {
    assert e[free..][cut..cut + |b|] == e[at..at + |b|];
  }

  /** The bytes b have been written at a distance cut from the free-space pointer, and their number into
      the directory. */
  lemma TupleWritten(d: seq<byte>, e: seq<byte>, f: seq<byte>, im: Image, slot: int, at: int, b: seq<byte>, cut: int)
    requires Readable(d) && Parse(d) == im && 0 <= slot < |im.slots|
    requires im.free <= at && at + |b| <= PAGE_SIZE && at == im.free + cut
    requires SameOutside(d, e, at, at + |b|) && e[at..at + |b|] == b
    requires SameOutside(e, f,
                         OFFSET_TUPLE_OFFSET + SLOT_SIZE * slot, OFFSET_TUPLE_OFFSET + SLOT_SIZE * slot + SLOT_SIZE)
    requires SlotOf(f, slot) == Slot(SlotOf(e, slot).offset, |b|)
    ensures Readable(f)
    ensures var c := Parse(f);
            && c.free == im.free && c.slots == im.slots[slot := Slot(im.slots[slot].offset, |b|)]
            && |c.tail| == |im.tail| && c.tail[..cut] == im.tail[..cut] && c.tail[cut..cut + |b|] == b
            && c.tail[cut + |b|..] == im.tail[cut + |b|..]
  {
    WordKept(d, e, at, at + |b|, OFFSET_FREE_SPACE);
    WordKept(d, e, at, at + |b|, OFFSET_TUPLE_COUNT);
    var lo := OFFSET_TUPLE_OFFSET + SLOT_SIZE * slot;
    WordKept(e, f, lo, lo + SLOT_SIZE, OFFSET_FREE_SPACE);
    WordKept(e, f, lo, lo + SLOT_SIZE, OFFSET_TUPLE_COUNT);
    SlotsKept(d, e, CountOf(d));
    OtherSlotsKept(e, f, slot);
    assert f[at..at + |b|] == e[at..at + |b|];
    TailWritten(d, f, im.free, at, b, cut);
  }

  /** The directory once the slot has its new size but before the offsets have been put right. */
  function SizedSlots(im: Image, slot: int, n: int): seq<Slot>
    requires 0 <= slot < |im.slots|
  {
    im.slots[slot := if n == 0 then Slot(0, 0) else Slot(im.slots[slot].offset, n)]
  }

  /** The loop over the directory moves the slots that the replacement moves, its own included. */
  lemma SizedSlotShifted(im: Image, slot: int, b: seq<byte>, limit: int, j: int)
    requires Replaceable(im, slot, b) && Disjoint(im) && 0 <= j < |im.slots|
    requires limit == if |b| == 0 then im.slots[slot].offset else End(im.slots[slot])
    ensures Shifted(SizedSlots(im, slot, |b|)[j], limit, Length(im.slots[slot].size) - |b|)
            == Replaced(im, slot, b).slots[j]
    ensures im.slots[j].size != 0 ==> 0 <= Replaced(im, slot, b).slots[j].offset <= PAGE_SIZE
  {
    ReplacedFits(im, slot, b);
    if j != slot && im.slots[j].size != 0 {
      AsideOf(im, slot, j);
    }
  }

  /** The bytes and the size of the slot are those of the replacement; the offsets are still to be
      put right. */
  predicate Resettled(im: Image, slot: int, b: seq<byte>, d: Image)
    requires Fits(im) && 0 <= slot < |im.slots| && im.slots[slot].size != 0
  {
    var s := im.slots[slot];
    var cut := s.offset - im.free;
    && d.free == im.free + Length(s.size) - |b| && d.slots == SizedSlots(im, slot, |b|)
    && |d.tail| == |im.tail| - Length(s.size) + |b|
    && d.tail[..cut] == im.tail[..cut] && d.tail[cut..cut + |b|] == b
    && d.tail[cut + |b|..] == im.tail[End(s) - im.free..]
  }

  /** What has to be true of an image for it to be the one after a replacement. */
  lemma ReplacedIs(im: Image, slot: int, b: seq<byte>, c: Image, d: Image)
    requires Replaceable(im, slot, b) && Disjoint(im) && Resettled(im, slot, b, c)
    requires d.free == c.free && d.tail == c.tail && |d.slots| == |c.slots|
    requires var s := im.slots[slot];
             forall j :: 0 <= j < |d.slots| ==>
               d.slots[j] == Shifted(c.slots[j], if |b| == 0 then s.offset else End(s), Length(s.size) - |b|)
    ensures d == Replaced(im, slot, b)
  {
    var s := im.slots[slot];
    var cut := s.offset - im.free;
    assert d.tail == d.tail[..cut] + d.tail[cut..cut + |b|] + d.tail[cut + |b|..];
    forall j | 0 <= j < |d.slots|
      ensures d.slots[j] == Replaced(im, slot, b).slots[j]
    {
      SizedSlotShifted(im, slot, b, if |b| == 0 then s.offset else End(s), j);
    }
  }

  lemma ForallShifted(im: Image, slot: int, b: seq<byte>, limit: int)
    requires Replaceable(im, slot, b) && Disjoint(im)
    requires limit == if |b| == 0 then im.slots[slot].offset else End(im.slots[slot])
    ensures forall j :: 0 <= j < |im.slots| && SizedSlots(im, slot, |b|)[j].size != 0 ==>
              0 <= Shifted(SizedSlots(im, slot, |b|)[j], limit, Length(im.slots[slot].size) - |b|).offset < WORD_LIMIT
  {
    forall j | 0 <= j < |im.slots| && SizedSlots(im, slot, |b|)[j].size != 0
      ensures 0 <= Shifted(SizedSlots(im, slot, |b|)[j], limit, Length(im.slots[slot].size) - |b|).offset < WORD_LIMIT
    {
      SizedSlotShifted(im, slot, b, limit, j);
    }
  }
}
