/** The contents of a table page as a value: a directory of slots that grows up from the header and
    tuples that grow down from the end of the page, with nothing between two of them. */
module SlottedPage {
  import opened Bytes
  import opened Common

  const HEADER_SIZE := 24
  const SLOT_SIZE := 8
  /** The top bit of a 32-bit size marks a deleted tuple. */
  const DELETE_MASK := 0x8000_0000

  datatype Slot = Slot(offset: int, size: int)

  /** The free-space pointer, the directory, and the bytes from the free-space pointer on. */
  datatype Image = Image(free: int, slots: seq<Slot>, tail: seq<byte>)

  /** What a slot means: nothing, or a tuple that may be marked as deleted. */
  datatype Tuple = Vacant | Stored(bytes: seq<byte>, marked: bool)

  predicate IsDeleted(size: int) {
    size >= DELETE_MASK || size == 0
  }

  /** The size without the mark. */
  function Length(size: int): int {
    if size >= DELETE_MASK then size - DELETE_MASK else size
  }

  function End(s: Slot): int {
    s.offset + Length(s.size)
  }

  /** The directory ends before the tuples begin, and a slot in use lies among the tuples. */
  predicate Fits(im: Image) {
    && HEADER_SIZE + SLOT_SIZE * |im.slots| <= im.free && im.free + |im.tail| == PAGE_SIZE
    && forall i :: 0 <= i < |im.slots| && im.slots[i].size != 0 ==>
         Length(im.slots[i].size) > 0 && im.free <= im.slots[i].offset && End(im.slots[i]) <= PAGE_SIZE
  }

  predicate Apart(s: Slot, t: Slot) {
    End(s) <= t.offset || End(t) <= s.offset
  }

  predicate Covers(s: Slot, k: int) {
    s.size != 0 && s.offset <= k < End(s)
  }

  predicate Disjoint(im: Image) {
    forall i, j :: 0 <= i < j < |im.slots| && im.slots[i].size != 0 && im.slots[j].size != 0 ==>
      Apart(im.slots[i], im.slots[j])
  }

  predicate Covered(im: Image, k: int) {
    exists i :: 0 <= i < |im.slots| && Covers(im.slots[i], k)
  }

  /** Every byte from the free-space pointer on belongs to one tuple, and to one only. */
  predicate Packed(im: Image) {
    Disjoint(im) && forall k :: im.free <= k < PAGE_SIZE ==> Covered(im, k)
  }

  predicate Valid(im: Image) {
    Fits(im) && Packed(im)
  }

  function TupleAt(im: Image, i: int): Tuple
    requires Fits(im) && 0 <= i < |im.slots|
  {
    var s := im.slots[i];
    if s.size == 0 then Vacant
    else Stored(im.tail[s.offset - im.free..End(s) - im.free], s.size >= DELETE_MASK)
  }

  /** What the page is for: a list of tuples, numbered by slot. */
  function Contents(im: Image): (c: seq<Tuple>)
    requires Fits(im)
    ensures |c| == |im.slots|
  {
    seq(|im.slots|, i requires 0 <= i < |im.slots| => TupleAt(im, i))
  }

  // ------------------------------------------------------------------ insertion

  /** The bytes b in front of the other tuples, under slot i or a new slot. */
  function Inserted(im: Image, i: int, b: seq<byte>): Image
    requires 0 <= i <= |im.slots|
  {
    var s := Slot(im.free - |b|, |b|);
    Image(im.free - |b|, if i == |im.slots| then im.slots + [s] else im.slots[i := s], b + im.tail)
  }

  /** Slot i is vacant or the next one, and there is room for b and one more slot. */
  predicate Insertable(im: Image, i: int, b: seq<byte>) {
    && Fits(im) && 0 <= i <= |im.slots| && (i < |im.slots| ==> im.slots[i].size == 0)
    && 0 < |b| && im.free - HEADER_SIZE - SLOT_SIZE * |im.slots| >= |b| + SLOT_SIZE
  }

  lemma InsertedPacked(im: Image, i: int, b: seq<byte>)
    requires Insertable(im, i, b) && Packed(im)
    ensures Packed(Inserted(im, i, b))
  {
    var im' := Inserted(im, i, b);
    forall k | im'.free <= k < PAGE_SIZE
      ensures Covered(im', k)
    {
      if k < im.free {
        assert Covers(im'.slots[i], k);
      } else {
        assert Covered(im, k);
        var j :| 0 <= j < |im.slots| && Covers(im.slots[j], k);
        assert Covers(im'.slots[j], k);
      }
    }
  }

  lemma InsertedReads(im: Image, i: int, b: seq<byte>, j: int)
    requires Insertable(im, i, b) && Fits(Inserted(im, i, b))
    requires 0 <= j < |im.slots| || j == i
    ensures TupleAt(Inserted(im, i, b), j) == if j == i then Stored(b, false) else TupleAt(im, j)
  {
    var im' := Inserted(im, i, b);
    if j == i {
      assert im'.tail[..|b|] == b;
    } else if im.slots[j].size != 0 {
      var s := im.slots[j];
      assert im'.tail[s.offset - im'.free..End(s) - im'.free] == im.tail[s.offset - im.free..End(s) - im.free];
    }
  }

  lemma InsertedOk(im: Image, i: int, b: seq<byte>)
    requires Packed(im) && Insertable(im, i, b)
    ensures Valid(Inserted(im, i, b))
    ensures Contents(Inserted(im, i, b)) ==
              if i == |im.slots| then Contents(im) + [Stored(b, false)] else Contents(im)[i := Stored(b, false)]
  {
    InsertedPacked(im, i, b);
    forall j | 0 <= j < |im.slots| || j == i
      ensures TupleAt(Inserted(im, i, b), j) == if j == i then Stored(b, false) else TupleAt(im, j)
    {
      InsertedReads(im, i, b, j);
    }
  }

  // ------------------------------------------------------------------ replacement and removal

  /** The entry of another slot after the tuples in front of position at have moved up by delta. */
  function Shifted(s: Slot, at: int, delta: int): Slot {
    if s.size != 0 && s.offset < at then Slot(s.offset + delta, s.size) else s
  }

  /** The tuple of slot i replaced by b, which ends where the old one did; the tuples in front of
      it move.  With nothing in its place the slot becomes vacant. */
  function Replaced(im: Image, i: int, b: seq<byte>): (r: Image)
    requires Fits(im) && 0 <= i < |im.slots| && im.slots[i].size != 0
    ensures |r.slots| == |im.slots|
  {
    var s := im.slots[i];
    var delta := Length(s.size) - |b|;
    Image(im.free + delta,
          seq(|im.slots|, j requires 0 <= j < |im.slots| =>
            if j != i then Shifted(im.slots[j], s.offset, delta)
            else if |b| == 0 then Slot(0, 0) else Slot(s.offset + delta, |b|)),
          im.tail[..s.offset - im.free] + b + im.tail[End(s) - im.free..])
  }

  /** Slot i is in use and there is room for b in place of its tuple. */
  predicate Replaceable(im: Image, i: int, b: seq<byte>) {
    && Fits(im) && 0 <= i < |im.slots| && im.slots[i].size != 0 && |b| < DELETE_MASK
    && im.free + Length(im.slots[i].size) - |b| >= HEADER_SIZE + SLOT_SIZE * |im.slots|
  }

  /** The slots in use other than i lie on one side of its tuple. */
  lemma AsideOf(im: Image, i: int, j: int)
    requires Disjoint(im) && 0 <= i < |im.slots| && 0 <= j < |im.slots| && i != j
    requires im.slots[i].size != 0 && im.slots[j].size != 0
    ensures Apart(im.slots[i], im.slots[j])
  {
    assert if i < j then Apart(im.slots[i], im.slots[j]) else Apart(im.slots[j], im.slots[i]);
  }

  lemma ReplacedFits(im: Image, i: int, b: seq<byte>)
    requires Replaceable(im, i, b) && Disjoint(im)
    ensures Fits(Replaced(im, i, b))
  {
    var im' := Replaced(im, i, b);
    forall j | 0 <= j < |im'.slots| && im'.slots[j].size != 0
      ensures Length(im'.slots[j].size) > 0 && im'.free <= im'.slots[j].offset && End(im'.slots[j]) <= PAGE_SIZE
    {
      if j != i {
        AsideOf(im, i, j);
      }
    }
  }

  lemma ReplacedDisjoint(im: Image, i: int, b: seq<byte>)
    requires Replaceable(im, i, b) && Disjoint(im)
    ensures Disjoint(Replaced(im, i, b))
  {
    var im' := Replaced(im, i, b);
    forall j, h | 0 <= j < h < |im'.slots| && im'.slots[j].size != 0 && im'.slots[h].size != 0
      ensures Apart(im'.slots[j], im'.slots[h])
    {
      AsideOf(im, j, h);
      if j != i {
        AsideOf(im, i, j);
      }
      if h != i {
        AsideOf(im, i, h);
      }
    }
  }

  lemma ReplacedCovered(im: Image, i: int, b: seq<byte>, k: int)
    requires Replaceable(im, i, b) && Packed(im)
    requires Replaced(im, i, b).free <= k < PAGE_SIZE
    ensures Covered(Replaced(im, i, b), k)
  {
    var im' := Replaced(im, i, b);
    var s := im.slots[i];
    if End(s) - |b| <= k < End(s) {
      assert Covers(im'.slots[i], k);
    } else {
      var k' := if k < End(s) then k - Length(s.size) + |b| else k;
      assert Covered(im, k');
      var j :| 0 <= j < |im.slots| && Covers(im.slots[j], k');
      if j != i {
        AsideOf(im, i, j);
      }
      assert Covers(im'.slots[j], k);
    }
  }

  /** The bytes of the new tail in front of the replaced tuple. */
  lemma ReplacedInFront(im: Image, i: int, b: seq<byte>, lo: int, hi: int)
    requires Replaceable(im, i, b) && im.free <= lo <= hi <= im.slots[i].offset
    ensures Replaced(im, i, b).tail[lo - im.free..hi - im.free] == im.tail[lo - im.free..hi - im.free]
  {
    var s := im.slots[i];
    PrefixKept(im.tail, s.offset - im.free, b + im.tail[End(s) - im.free..], lo - im.free, hi - im.free);
    assert Replaced(im, i, b).tail == im.tail[..s.offset - im.free] + (b + im.tail[End(s) - im.free..]);
  }

  /** And those behind it. */
  lemma ReplacedBehind(im: Image, i: int, b: seq<byte>, lo: int, hi: int)
    requires Replaceable(im, i, b) && End(im.slots[i]) <= lo <= hi <= PAGE_SIZE
    ensures var im' := Replaced(im, i, b);
            im'.tail[lo - im'.free..hi - im'.free] == im.tail[lo - im.free..hi - im.free]
  {
    var s := im.slots[i];
    SuffixKept(im.tail[..s.offset - im.free] + b, im.tail, End(s) - im.free, lo - im.free, hi - im.free);
  }

  /** Where the other tuples are after that. */
  lemma ReplacedSlot(im: Image, i: int, b: seq<byte>, j: int)
    requires Replaceable(im, i, b) && Disjoint(im) && 0 <= j < |im.slots| && j != i && im.slots[j].size != 0
    ensures var s, u, im' := im.slots[j], im.slots[i], Replaced(im, i, b);
            && |im'.slots| == |im.slots| && im'.slots[j].size == s.size
            && (im.free <= s.offset <= End(s) <= u.offset || End(u) <= s.offset <= End(s) <= PAGE_SIZE)
            && (End(s) <= u.offset ==> im'.slots[j].offset - im'.free == s.offset - im.free)
            && (End(u) <= s.offset ==> im'.slots[j].offset == s.offset)
  {
    AsideOf(im, i, j);
  }

  lemma FrontReadsSame(im: Image, i: int, b: seq<byte>, j: int)
    requires Replaceable(im, i, b) && Fits(Replaced(im, i, b)) && 0 <= j < |im.slots| && im.slots[j].size != 0
    requires im.free <= im.slots[j].offset <= End(im.slots[j]) <= im.slots[i].offset
    requires var t, im' := Replaced(im, i, b).slots[j], Replaced(im, i, b);
             t.size == im.slots[j].size && t.offset - im'.free == im.slots[j].offset - im.free
    ensures TupleAt(Replaced(im, i, b), j) == TupleAt(im, j)
  {
    var s := im.slots[j];
    ReplacedInFront(im, i, b, s.offset, End(s));
    SameTuple(im, Replaced(im, i, b), j, s.offset - im.free, s.offset - im.free);
  }

  lemma BackReadsSame(im: Image, i: int, b: seq<byte>, j: int)
    requires Replaceable(im, i, b) && Fits(Replaced(im, i, b)) && 0 <= j < |im.slots| && im.slots[j].size != 0
    requires End(im.slots[i]) <= im.slots[j].offset <= End(im.slots[j]) <= PAGE_SIZE
    requires var t := Replaced(im, i, b).slots[j]; t.size == im.slots[j].size && t.offset == im.slots[j].offset
    ensures TupleAt(Replaced(im, i, b), j) == TupleAt(im, j)
  {
    var s, im' := im.slots[j], Replaced(im, i, b);
    ReplacedBehind(im, i, b, s.offset, End(s));
    SameTuple(im, im', j, s.offset - im.free, s.offset - im'.free);
  }

  /** The other tuples read as before. */
  lemma ReplacedElsewhere(im: Image, i: int, b: seq<byte>, j: int)
    requires Replaceable(im, i, b) && Disjoint(im)
    requires 0 <= j < |im.slots| && j != i
    requires Fits(Replaced(im, i, b))
    ensures TupleAt(Replaced(im, i, b), j) == TupleAt(im, j)
  {
    if im.slots[j].size != 0 {
      ReplacedSlot(im, i, b, j);
      if End(im.slots[j]) <= im.slots[i].offset {
        FrontReadsSame(im, i, b, j);
      } else {
        BackReadsSame(im, i, b, j);
      }
    }
  }

  lemma SameTuple(im: Image, im': Image, j: int, at: int, at': int)
    requires Fits(im) && Fits(im') && 0 <= j < |im.slots| == |im'.slots| && im'.slots[j].size == im.slots[j].size != 0
    requires at == im.slots[j].offset - im.free && at' == im'.slots[j].offset - im'.free
    requires var n := Length(im.slots[j].size); im'.tail[at'..at' + n] == im.tail[at..at + n]
    ensures TupleAt(im', j) == TupleAt(im, j)
  {
  }

  /** A stretch of u that lies in front of position cut, found again before another ending. */
  lemma PrefixKept(u: seq<byte>, cut: int, a: seq<byte>, lo: int, hi: int)
    requires 0 <= lo <= hi <= cut <= |u|
    ensures (u[..cut] + a)[lo..hi] == u[lo..hi]
  {
  }

  /** A stretch of u that lies behind position cut, found again after another beginning. */
  lemma SuffixKept(a: seq<byte>, u: seq<byte>, cut: int, lo: int, hi: int)
    requires 0 <= cut <= lo <= hi <= |u|
    ensures (a + u[cut..])[|a| + lo - cut..|a| + hi - cut] == u[lo..hi]
  {
  }

  /** Exactly the one slot changes its meaning. */
  lemma ReplacedOk(im: Image, i: int, b: seq<byte>)
    requires Valid(im) && Replaceable(im, i, b)
    ensures Valid(Replaced(im, i, b))
    ensures Contents(Replaced(im, i, b)) == Contents(im)[i := if |b| == 0 then Vacant else Stored(b, false)]
  {
    ReplacedFits(im, i, b);
    ReplacedDisjoint(im, i, b);
    var im' := Replaced(im, i, b);
    forall k | im'.free <= k < PAGE_SIZE
      ensures Covered(im', k)
    {
      ReplacedCovered(im, i, b, k);
    }
    forall j | 0 <= j < |im.slots| && j != i
      ensures TupleAt(im', j) == TupleAt(im, j)
    {
      ReplacedElsewhere(im, i, b, j);
    }
    if |b| != 0 {
      var t := im'.slots[i];
      assert im'.tail[t.offset - im'.free..End(t) - im'.free] == b;
    }
  }

  // ------------------------------------------------------------------ marks

  function Resized(im: Image, i: int, size: int): Image
    requires 0 <= i < |im.slots|
  {
    im.(slots := im.slots[i := Slot(im.slots[i].offset, size)])
  }

  lemma ResizedPacked(im: Image, i: int, size: int)
    requires Packed(im) && 0 <= i < |im.slots| && im.slots[i].size != 0
    requires size != 0 && Length(size) == Length(im.slots[i].size)
    ensures Packed(Resized(im, i, size))
  {
    var im' := Resized(im, i, size);
    forall k | im'.free <= k < PAGE_SIZE
      ensures Covered(im', k)
    {
      assert Covered(im, k);
      var j :| 0 <= j < |im.slots| && Covers(im.slots[j], k);
      assert Covers(im'.slots[j], k);
    }
  }

  /** Setting or clearing the mark of a tuple changes nothing else. */
  lemma ResizedOk(im: Image, i: int, size: int)
    requires Valid(im) && 0 <= i < |im.slots| && im.slots[i].size != 0
    requires size != 0 && Length(size) == Length(im.slots[i].size)
    ensures Valid(Resized(im, i, size))
    ensures Contents(Resized(im, i, size)) == Contents(im)[i := Contents(im)[i].(marked := size >= DELETE_MASK)]
  {
    ResizedPacked(im, i, size);
    assert forall j :: 0 <= j < |im.slots| && j != i ==> TupleAt(Resized(im, i, size), j) == TupleAt(im, j);
  }

  // ------------------------------------------------------------------ space

  /** What is stored, marked or not, in bytes. */
  function TotalBytes(c: seq<Tuple>): nat {
    if c == [] then 0
    else TotalBytes(c[..|c| - 1]) + if c[|c| - 1].Stored? then |c[|c| - 1].bytes| else 0
  }

  /** One of the first n slots covers place k. */
  predicate CoveredBelow(im: Image, n: nat, k: int)
    requires n <= |im.slots|
  {
    exists i :: 0 <= i < n && Covers(im.slots[i], k)
  }

  /** The places from the free-space pointer on that the first n slots cover. */
  ghost function Taken(im: Image, n: nat): set<int>
    requires n <= |im.slots|
  {
    set k | im.free <= k < PAGE_SIZE && CoveredBelow(im, n, k)
  }

  function Stretch(lo: int, hi: int): (r: set<int>)
    ensures forall k :: k in r <==> lo <= k < hi
    ensures lo <= hi ==> |r| == hi - lo
    decreases hi - lo
  {
    if lo >= hi then {} else Stretch(lo, hi - 1) + {hi - 1}
  }

  /** No two tuples share a place. */
  lemma PlacesApart(im: Image, n: nat, k: int)
    requires Valid(im) && n < |im.slots| && Covers(im.slots[n], k)
    ensures im.free <= k < PAGE_SIZE && !CoveredBelow(im, n, k)
  {
    forall i | 0 <= i < n
      ensures !Covers(im.slots[i], k)
    {
      assert im.slots[i].size != 0 ==> Apart(im.slots[i], im.slots[n]);
    }
  }

  lemma CoveredNext(im: Image, n: nat, k: int)
    requires n < |im.slots|
    ensures CoveredBelow(im, n + 1, k) <==> CoveredBelow(im, n, k) || Covers(im.slots[n], k)
  {
    if CoveredBelow(im, n, k) {
      var i :| 0 <= i < n && Covers(im.slots[i], k);
      assert i < n + 1;
    }
  }

  /** The places that slot n covers. */
  function OwnPlaces(im: Image, n: nat): (own: set<int>)
    requires n < |im.slots|
    ensures forall k :: k in own <==> Covers(im.slots[n], k)
  {
    var s := im.slots[n];
    if s.size == 0 then {} else Stretch(s.offset, End(s))
  }

  /** They are as many as its tuple has bytes. */
  lemma OwnSize(im: Image, n: nat)
    requires Valid(im) && n < |im.slots|
    ensures var t := TupleAt(im, n); |OwnPlaces(im, n)| == if t.Stored? then |t.bytes| else 0
  {
    assert im.slots[n].size != 0 ==> im.free <= im.slots[n].offset <= End(im.slots[n]) <= PAGE_SIZE;
  }

  lemma SizeOfUnion(a: set<int>, b: set<int>, c: set<int>)
    requires c == a + b && a !! b
    ensures |c| == |a| + |b|
  {
  }

  lemma TakenNext(im: Image, n: nat)
    requires Valid(im) && n < |im.slots|
    ensures Taken(im, n + 1) == Taken(im, n) + OwnPlaces(im, n) && Taken(im, n) !! OwnPlaces(im, n)
  {
    forall k
      ensures k in Taken(im, n + 1) <==> k in Taken(im, n) || k in OwnPlaces(im, n)
      ensures k in OwnPlaces(im, n) ==> k !in Taken(im, n)
    {
      CoveredNext(im, n, k);
      if Covers(im.slots[n], k) {
        PlacesApart(im, n, k);
      }
    }
  }

  /** One slot more takes as many places as its tuple has bytes. */
  lemma TakenStep(im: Image, n: nat)
    requires Valid(im) && n < |im.slots|
    ensures var t := TupleAt(im, n);
            |Taken(im, n + 1)| == |Taken(im, n)| + if t.Stored? then |t.bytes| else 0
  {
    TakenNext(im, n);
    OwnSize(im, n);
    SizeOfUnion(Taken(im, n), OwnPlaces(im, n), Taken(im, n + 1));
  }

  lemma {:induction false} TakenCount(im: Image, n: nat)
    requires Valid(im) && n <= |im.slots|
    ensures |Taken(im, n)| == TotalBytes(Contents(im)[..n])
  {
    if n > 0 {
      TakenCount(im, n - 1);
      TakenStep(im, n - 1);
      assert Contents(im)[..n][..n - 1] == Contents(im)[..n - 1];
    }
  }

  /** No byte is wasted: the free-space pointer is as far from the end as there are bytes stored. */
  lemma FreeByContents(im: Image)
    requires Valid(im)
    ensures im.free == PAGE_SIZE - TotalBytes(Contents(im))
  {
    var n := |im.slots|;
    TakenCount(im, n);
    assert Contents(im)[..n] == Contents(im);
    forall k
      ensures k in Taken(im, n) <==> k in Stretch(im.free, PAGE_SIZE)
    {
      if im.free <= k < PAGE_SIZE {
        assert Covered(im, k);
      }
    }
    assert Taken(im, n) == Stretch(im.free, PAGE_SIZE);
  }
}
