/** The records of a table as values: which page comes after which, and in which order a scan has to
    meet the records. */
module HeapOrder {
  import opened Bytes
  import opened Common
  import opened SlottedPage
  import opened TablePages

  datatype RowId = RowId(pageId: PageId32, slot: int)

  const INVALID_ROWID := RowId(INVALID_PAGE_ID, 0)

  /** The largest row that an empty page has room for. */
  const SIZE_MAX_ROW := PAGE_SIZE - HEADER_SIZE - SLOT_SIZE

  type Pages = map<PageId32, PageValue>

  /** The i-th page of the chain and its links. */
  predicate LinkedAt(chain: seq<PageId32>, s: Pages, i: int)
    requires 0 <= i < |chain|
  {
    && chain[i] in s && chain[i] != INVALID_PAGE_ID
    && s[chain[i]].prev == (if i == 0 then INVALID_PAGE_ID else chain[i - 1])
    && s[chain[i]].next == (if i == |chain| - 1 then INVALID_PAGE_ID else chain[i + 1])
  }

  predicate PageValid(s: Pages, p: PageId32)
    requires p in s
  {
    s[p].id == p && Valid(s[p].image)
  }

  /** The pages are a doubly linked list, in the order of chain. */
  predicate ChainOk(chain: seq<PageId32>, s: Pages) {
    && |chain| > 0 && Distinct(chain)
    && (forall i :: 0 <= i < |chain| ==> LinkedAt(chain, s, i))
    && (forall p {:trigger PageValid(s, p)} :: p in s ==> PageValid(s, p))
    && (forall p :: p in s ==> p in chain)
  }

  /** The tuples of the i-th page. */
  function TuplesAt(chain: seq<PageId32>, s: Pages, i: nat): (c: seq<Tuple>)
    requires ChainOk(chain, s) && i < |chain|
    ensures chain[i] in s && Fits(s[chain[i]].image) && c == Contents(s[chain[i]].image)
  {
    assert LinkedAt(chain, s, i) && PageValid(s, chain[i]);
    Contents(s[chain[i]].image)
  }

  /** The live slots of one page from the given one on. */
  function LiveIn(p: PageId32, c: seq<Tuple>, from: nat): seq<RowId>
    decreases |c| - from
  {
    if from >= |c| then []
    else (if Live(c[from]) then [RowId(p, from)] else []) + LiveIn(p, c, from + 1)
  }

  /** The live records from the i-th page of the chain on. */
  function LiveFrom(chain: seq<PageId32>, s: Pages, i: nat): seq<RowId>
    requires ChainOk(chain, s)
    decreases |chain| - i
  {
    if i >= |chain| then []
    else LiveIn(chain[i], TuplesAt(chain, s, i), 0) + LiveFrom(chain, s, i + 1)
  }

  /** The live records from the given slot of the i-th page on. */
  function Rest(chain: seq<PageId32>, s: Pages, i: nat, from: nat): seq<RowId>
    requires ChainOk(chain, s) && i < |chain|
  {
    LiveIn(chain[i], TuplesAt(chain, s, i), from) + LiveFrom(chain, s, i + 1)
  }

  /** The record r is there and not marked. */
  predicate IsLive(chain: seq<PageId32>, s: Pages, r: RowId)
    requires ChainOk(chain, s)
  {
    exists i :: 0 <= i < |chain| && chain[i] == r.pageId && LiveAt(TuplesAt(chain, s, i), r.slot)
  }

  predicate LiveAt(c: seq<Tuple>, slot: int) {
    0 <= slot < |c| && Live(c[slot])
  }

  // ------------------------------------------------------------------ looking for the next one

  lemma {:induction false} LiveInSkips(p: PageId32, c: seq<Tuple>, from: nat, end: nat)
    requires from <= end && forall j :: from <= j < end && j < |c| ==> !Live(c[j])
    ensures LiveIn(p, c, from) == LiveIn(p, c, end)
    decreases end - from
  {
    if from < end {
      LiveInSkips(p, c, from + 1, end);
    }
  }

  /** A live slot found in a page is the first one that the scan still has to meet. */
  lemma RestFound(chain: seq<PageId32>, s: Pages, i: nat, from: nat, slot: nat)
    requires ChainOk(chain, s) && i < |chain|
    requires IsNextLive(TuplesAt(chain, s, i), from, slot)
    ensures Rest(chain, s, i, from) == [RowId(chain[i], slot)] + Rest(chain, s, i, slot + 1)
  {
    LiveInSkips(chain[i], TuplesAt(chain, s, i), from, slot);
  }

  /** If there is none in this page, the scan goes on with the next one. */
  lemma RestNone(chain: seq<PageId32>, s: Pages, i: nat, from: nat)
    requires ChainOk(chain, s) && i < |chain|
    requires NoneLive(TuplesAt(chain, s, i), from)
    ensures Rest(chain, s, i, from) == LiveFrom(chain, s, i + 1)
  {
    LiveInSkips(chain[i], TuplesAt(chain, s, i), from, from + |TuplesAt(chain, s, i)|);
  }

  // ------------------------------------------------------------------ what the order lists

  lemma {:induction false} LiveInLists(p: PageId32, c: seq<Tuple>, from: nat, r: RowId)
    ensures r in LiveIn(p, c, from) <==> r.pageId == p && from <= r.slot < |c| && Live(c[r.slot])
    decreases |c| - from
  {
    if from < |c| {
      LiveInLists(p, c, from + 1, r);
    }
  }

  lemma {:induction false} LiveFromLists(chain: seq<PageId32>, s: Pages, i: nat, r: RowId)
    requires ChainOk(chain, s)
    ensures r in LiveFrom(chain, s, i) <==>
              exists j :: i <= j < |chain| && chain[j] == r.pageId && LiveAt(TuplesAt(chain, s, j), r.slot)
    decreases |chain| - i
  {
    if i < |chain| {
      LiveFromLists(chain, s, i + 1, r);
      LiveInLists(chain[i], TuplesAt(chain, s, i), 0, r);
    }
  }

  /** r comes before t: an earlier page of the chain, or an earlier slot of the same page. */
  predicate Before(chain: seq<PageId32>, r: RowId, t: RowId) {
    || (r.pageId == t.pageId && r.slot < t.slot)
    || exists i, j :: 0 <= i < j < |chain| && chain[i] == r.pageId && chain[j] == t.pageId
  }

  predicate Ordered(chain: seq<PageId32>, rs: seq<RowId>) {
    forall a, b :: 0 <= a < b < |rs| ==> Before(chain, rs[a], rs[b])
  }

  lemma {:induction false} LiveInOrdered(chain: seq<PageId32>, p: PageId32, c: seq<Tuple>, from: nat)
    ensures Ordered(chain, LiveIn(p, c, from))
    decreases |c| - from
  {
    if from < |c| {
      var rest := LiveIn(p, c, from + 1);
      LiveInOrdered(chain, p, c, from + 1);
      forall b | 0 <= b < |rest|
        ensures Before(chain, RowId(p, from), rest[b])
      {
        LiveInLists(p, c, from + 1, rest[b]);
      }
    }
  }

  /** The order is chain first, slot second, so no record is listed twice. */
  lemma {:induction false} LiveFromOrdered(chain: seq<PageId32>, s: Pages, i: nat)
    requires ChainOk(chain, s)
    ensures Ordered(chain, LiveFrom(chain, s, i))
    decreases |chain| - i
  {
    if i < |chain| {
      var here := LiveIn(chain[i], TuplesAt(chain, s, i), 0);
      var rest := LiveFrom(chain, s, i + 1);
      LiveInOrdered(chain, chain[i], TuplesAt(chain, s, i), 0);
      LiveFromOrdered(chain, s, i + 1);
      forall a, b | 0 <= a < |here| && 0 <= b < |rest|
        ensures Before(chain, here[a], rest[b])
      {
        LiveInLists(chain[i], TuplesAt(chain, s, i), 0, here[a]);
        LiveFromLists(chain, s, i + 1, rest[b]);
        var j :| i + 1 <= j < |chain| && chain[j] == rest[b].pageId;
      }
    }
  }

  lemma BeforeDiffers(chain: seq<PageId32>, s: Pages, r: RowId, t: RowId)
    requires ChainOk(chain, s) && Before(chain, r, t)
    ensures r != t
  {
  }

  /** A scan meets every live record, once, and nothing else. */
  lemma ScanExact(chain: seq<PageId32>, s: Pages, r: RowId)
    requires ChainOk(chain, s)
    ensures var rs := LiveFrom(chain, s, 0);
            && (r in rs <==> IsLive(chain, s, r))
            && (forall a, b :: 0 <= a < b < |rs| ==> rs[a] != rs[b])
  {
    LiveFromLists(chain, s, 0, r);
    LiveFromOrdered(chain, s, 0);
    var rs := LiveFrom(chain, s, 0);
    forall a, b | 0 <= a < b < |rs|
      ensures rs[a] != rs[b]
    {
      BeforeDiffers(chain, s, rs[a], rs[b]);
    }
  }

  // ------------------------------------------------------------------ changes

  /** A page that gets another valid image stays where it is. */
  lemma ImageReplaced(chain: seq<PageId32>, s: Pages, p: PageId32, im: Image)
    requires ChainOk(chain, s) && p in s && Valid(im)
    ensures ChainOk(chain, s[p := s[p].(image := im)])
  {
    var t := s[p := s[p].(image := im)];
    forall i | 0 <= i < |chain|
      ensures LinkedAt(chain, t, i)
    {
      assert LinkedAt(chain, s, i);
    }
    forall q | q in t
      ensures PageValid(t, q)
    {
      assert PageValid(s, q);
    }
  }

  /** The pages once q has been appended to the last page p. */
  function Appended(s: Pages, p: PageId32, q: PageId32): Pages
    requires p in s
  {
    s[p := s[p].(next := q)][q := EmptyPage(q, p)]
  }

  lemma EmptyValid()
    ensures Valid(EmptyImage())
  {
  }

  lemma AppendedOk(chain: seq<PageId32>, s: Pages, q: PageId32)
    requires ChainOk(chain, s) && q !in s && q != INVALID_PAGE_ID
    ensures chain[|chain| - 1] in s && ChainOk(chain + [q], Appended(s, chain[|chain| - 1], q))
  {
    var last := |chain| - 1;
    assert LinkedAt(chain, s, last);
    var t := Appended(s, chain[last], q);
    var chain' := chain + [q];
    forall i | 0 <= i < |chain'|
      ensures LinkedAt(chain', t, i)
    {
      if i < |chain| {
        assert LinkedAt(chain, s, i);
      }
    }
    forall i, j | 0 <= i < j < |chain'|
      ensures chain'[i] != chain'[j]
    {
      assert LinkedAt(chain, s, i);
    }
    forall p | p in t
      ensures PageValid(t, p)
    {
      assert p != q ==> PageValid(s, p);
      EmptyValid();
    }
    forall p | p in t
      ensures p in chain'
    {
      assert p == q || p in chain;
      assert chain'[|chain|] == q;
    }
  }

  /** Different page ids, none of them in use. */
  predicate AllFresh(ids: seq<PageId32>, s: Pages) {
    Distinct(ids) && forall i :: 0 <= i < |ids| ==> ids[i] != INVALID_PAGE_ID && ids[i] !in s
  }

  lemma FreshTail(ids: seq<PageId32>, s: Pages, p: PageId32)
    requires AllFresh(ids, s) && |ids| > 0 && p in s
    ensures ids[0] !in s && ids[0] != INVALID_PAGE_ID
    ensures AllFresh(ids[1..], Appended(s, p, ids[0]))
  {
  }

  /** Where a page is in the chain. */
  function Position(chain: seq<PageId32>, p: PageId32): (i: nat)
    requires p in chain
    ensures i < |chain| && chain[i] == p
  {
    if chain[0] == p then 0 else 1 + Position(chain[1..], p)
  }

  predicate HasRoom(v: PageValue, b: seq<byte>) {
    |b| + SLOT_SIZE <= FreeSpaceRemaining(v.image)
  }

  /** The page with b under the given slot. */
  function Extended(v: PageValue, slot: int, b: seq<byte>): PageValue
    requires 0 <= slot <= |v.image.slots|
  {
    v.(image := Inserted(v.image, slot, b))
  }

  /** Pages have been appended to the chain, all of them empty; nothing else has changed in the
      contents of any page. */
  predicate Grown(chain: seq<PageId32>, s: Pages, chain': seq<PageId32>, s': Pages) {
    && |chain| <= |chain'| && chain'[..|chain|] == chain
    && (forall p {:trigger p in s} :: p in s ==> p in s' && s'[p].image == s[p].image)
    && (forall j :: |chain| <= j < |chain'| ==> chain'[j] in s' && s'[chain'[j]].image == EmptyImage())
  }

  lemma GrownMore(chain: seq<PageId32>, s: Pages, chain': seq<PageId32>, s': Pages, q: PageId32)
    requires ChainOk(chain, s) && ChainOk(chain', s') && Grown(chain, s, chain', s')
    requires q !in s' && q != INVALID_PAGE_ID
    ensures chain'[|chain'| - 1] in s'
    ensures Grown(chain, s, chain' + [q], Appended(s', chain'[|chain'| - 1], q))
  {
    assert LinkedAt(chain', s', |chain'| - 1);
    var last := chain'[|chain'| - 1];
    var t := Appended(s', last, q);
    forall j | |chain| <= j < |chain' + [q]|
      ensures (chain' + [q])[j] in t && t[(chain' + [q])[j]].image == EmptyImage()
    {
      if j < |chain'| {
        assert chain'[j] in s' && chain'[j] != q;
      }
    }
  }

  /** None of the pages in [i, k) of the chain has room for b. */
  predicate NoRoom(chain: seq<PageId32>, s: Pages, i: nat, k: nat, b: seq<byte>) {
    k <= |chain| && forall j :: i <= j < k ==> chain[j] in s && !HasRoom(s[chain[j]], b)
  }

  lemma NoRoomMore(chain: seq<PageId32>, s: Pages, i: nat, b: seq<byte>, q: PageId32)
    requires ChainOk(chain, s) && NoRoom(chain, s, i, |chain|, b) && q !in s && q != INVALID_PAGE_ID
    ensures chain[|chain| - 1] in s
    ensures NoRoom(chain + [q], Appended(s, chain[|chain| - 1], q), i, |chain|, b)
  {
    assert LinkedAt(chain, s, |chain| - 1);
  }

  /** b has been stored in the first page, from the i-th on, that has room for it. */
  predicate StoredFirst(chain: seq<PageId32>, s: Pages, i: nat, b: seq<byte>, r: RowId, t: Pages) {
    && r.pageId in chain && r.pageId in s
    && i <= Position(chain, r.pageId) && NoRoom(chain, s, i, Position(chain, r.pageId), b)
    && HasRoom(s[r.pageId], b) && r.slot == FirstVacant(s[r.pageId].image.slots)
    && t == s[r.pageId := Extended(s[r.pageId], r.slot, b)]
  }

  /** That page by the contents: the first one from the i-th on that b fits into, and in it the first slot
      without a tuple or a new one. */
  lemma StoredFirstByContents(chain: seq<PageId32>, s: Pages, i: nat, b: seq<byte>, r: RowId, t: Pages)
    requires ChainOk(chain, s) && StoredFirst(chain, s, i, b, r, t)
    ensures var k := Position(chain, r.pageId); var c := TuplesAt(chain, s, k);
            && i <= k && FitsBeside(c, |b|) && forall j: nat :: i <= j < k ==> !FitsBeside(TuplesAt(chain, s, j), |b|)
    ensures var c := TuplesAt(chain, s, Position(chain, r.pageId));
            && 0 <= r.slot <= |c| && (r.slot < |c| ==> c[r.slot].Vacant?)
            && forall j :: 0 <= j < r.slot ==> c[j].Stored?
  {
    var k := Position(chain, r.pageId);
    assert LinkedAt(chain, s, k) && PageValid(s, chain[k]);
    RoomByContents(s[chain[k]], b);
    NoRoomByContents(chain, s, i, k, b);
    var im := s[chain[k]].image;
    assert forall j :: 0 <= j < |im.slots| ==> Contents(im)[j] == TupleAt(im, j);
  }

  /** The search for room has come from page start to page i, having added pages only behind the last
      one: chain and s are the pages before it, free the number of page ids there were.  As with
      TablePage.Shows, Inside(0) opens this up. */
  ghost predicate Searching(chain: seq<PageId32>, s: Pages, free: nat, start: nat, b: seq<byte>,
                            chain': seq<PageId32>, s': Pages, free': nat, i: nat) {
    && start <= i < |chain'|
    && forall j {:trigger Inside(j)} :: Inside(j) ==>
         && ChainOk(chain', s') && Grown(chain, s, chain', s') && NoRoom(chain', s', start, i, b)
         && |chain'| + free' == |chain| + free
         && (|chain'| > |chain| ==> i == |chain'| - 1)
         && (|b| <= SIZE_MAX_ROW ==> |chain'| <= |chain| + 1)
  }

  lemma EndOfChain(chain: seq<PageId32>, s: Pages, i: nat)
    requires ChainOk(chain, s) && i < |chain|
    ensures chain[i] in s && (s[chain[i]].next == INVALID_PAGE_ID <==> i == |chain| - 1)
    ensures i < |chain| - 1 ==> s[chain[i]].next == chain[i + 1]
  {
    assert LinkedAt(chain, s, i);
    if i < |chain| - 1 {
      assert LinkedAt(chain, s, i + 1);
    }
  }

  /** Before the first attempt. */
  lemma SearchStart(chain: seq<PageId32>, s: Pages, free: nat, start: nat, b: seq<byte>)
    requires ChainOk(chain, s) && start < |chain|
    ensures Searching(chain, s, free, start, b, chain, s, free, start)
    ensures chain[start] in s
  {
    assert LinkedAt(chain, s, start);
  }

  /** On to the next page of the chain. */
  lemma SearchNext(chain: seq<PageId32>, s: Pages, free: nat, start: nat, b: seq<byte>,
                   chain': seq<PageId32>, s': Pages, free': nat, i: nat)
    requires Searching(chain, s, free, start, b, chain', s', free', i)
    requires chain'[i] in s' && !HasRoom(s'[chain'[i]], b) && s'[chain'[i]].next != INVALID_PAGE_ID
    ensures i + 1 < |chain'| && s'[chain'[i]].next == chain'[i + 1] && chain'[i + 1] in s'
    ensures Searching(chain, s, free, start, b, chain', s', free', i + 1)
  {
    assert Inside(0);
    EndOfChain(chain', s', i);
    assert LinkedAt(chain', s', i + 1);
  }

  /** On to a new page. */
  lemma SearchExtended(chain: seq<PageId32>, s: Pages, free: nat, start: nat, b: seq<byte>,
                       chain': seq<PageId32>, s': Pages, free': nat, i: nat, q: PageId32)
    requires ChainOk(chain, s) && Searching(chain, s, free, start, b, chain', s', free', i) && free' > 0
    requires chain'[i] in s' && !HasRoom(s'[chain'[i]], b) && s'[chain'[i]].next == INVALID_PAGE_ID
    requires q !in s' && q != INVALID_PAGE_ID
    ensures i == |chain'| - 1
    ensures Searching(chain, s, free, start, b, chain' + [q], Appended(s', chain'[i], q), free' - 1, i + 1)
  {
    assert Inside(0);
    EndOfChain(chain', s', i);
    AppendedOk(chain', s', q);
    GrownMore(chain, s, chain', s', q);
    NoRoomMore(chain', s', start, b, q);
  }

  /** Having come to an end without success. */
  lemma SearchFailed(chain: seq<PageId32>, s: Pages, free: nat, start: nat, b: seq<byte>,
                     chain': seq<PageId32>, s': Pages, i: nat)
    requires Searching(chain, s, free, start, b, chain', s', 0, i)
    requires chain'[i] in s' && !HasRoom(s'[chain'[i]], b) && s'[chain'[i]].next == INVALID_PAGE_ID
    ensures ChainOk(chain', s') && Grown(chain, s, chain', s')
    ensures |b| > SIZE_MAX_ROW ==> |chain'| == |chain| + free
    ensures NoRoom(chain', s', start, |chain'|, b)
    ensures |b| <= SIZE_MAX_ROW ==> |chain'| == |chain|
  {
    assert Inside(0);
    EndOfChain(chain', s', i);
  }

  /** Having found room. */
  lemma SearchSucceeded(chain: seq<PageId32>, s: Pages, free: nat, start: nat, b: seq<byte>,
                        chain': seq<PageId32>, s': Pages, free': nat, i: nat, slot: int)
    requires Searching(chain, s, free, start, b, chain', s', free', i) && |b| > 0
    requires chain'[i] in s' && HasRoom(s'[chain'[i]], b) && slot == FirstVacant(s'[chain'[i]].image.slots)
    ensures var p := chain'[i]; var t := s'[p := Extended(s'[p], slot, b)];
            StoredFirst(chain', s', start, b, RowId(p, slot), t) && ChainOk(chain', t) && ChainOk(chain', s')
    ensures Grown(chain, s, chain', s') && |chain'| <= |chain| + 1 && |b| <= SIZE_MAX_ROW
    ensures chain'[i] in chain'
  {
    assert Inside(0);
    var p := chain'[i];
    PositionOf(chain', i);
    assert PageValid(s', p);
    InsertedOk(s'[p].image, slot, b);
    ImageReplaced(chain', s', p, Inserted(s'[p].image, slot, b));
  }

  /** A tuple of n bytes fits beside what one of the pages from start on holds. */
  predicate SomeRoom(chain: seq<PageId32>, s: Pages, start: nat, n: nat)
    requires ChainOk(chain, s)
  {
    exists j: nat :: start <= j < |chain| && FitsBeside(TuplesAt(chain, s, j), n)
  }

  /** Whether a page has room shows in what it holds. */
  lemma RoomByContents(v: PageValue, b: seq<byte>)
    requires Valid(v.image)
    ensures HasRoom(v, b) <==> FitsBeside(Contents(v.image), |b|)
  {
    SpaceByContents(v.image, |b|);
  }

  lemma NoRoomByContents(chain: seq<PageId32>, s: Pages, start: nat, k: nat, b: seq<byte>)
    requires ChainOk(chain, s) && k <= |chain|
    ensures NoRoom(chain, s, start, k, b)
            <==> forall j: nat :: start <= j < k ==> !FitsBeside(TuplesAt(chain, s, j), |b|)
  {
    forall j: nat | j < k
      ensures chain[j] in s && (HasRoom(s[chain[j]], b) <==> FitsBeside(TuplesAt(chain, s, j), |b|))
    {
      assert LinkedAt(chain, s, j) && PageValid(s, chain[j]);
      RoomByContents(s[chain[j]], b);
    }
  }

  /** One of the pages from start on has room for b, or an empty page has and there is one to be had. */
  predicate CanStore(chain: seq<PageId32>, s: Pages, start: nat, free: nat, b: seq<byte>)
    requires ChainOk(chain, s)
  {
    SomeRoom(chain, s, start, |b|) || (FitsBeside([], |b|) && free > 0)
  }

  /** How many pages that takes: none if there is room, one for a row that fits into an empty page, and
      otherwise all there are. */
  function PagesTaken(chain: seq<PageId32>, s: Pages, start: nat, free: nat, b: seq<byte>): nat
    requires ChainOk(chain, s)
  {
    if SomeRoom(chain, s, start, |b|) then 0 else if FitsBeside([], |b|) && free > 0 then 1 else free
  }

  /** The pages that were there have the room they had. */
  lemma RoomKept(chain: seq<PageId32>, s: Pages, chain': seq<PageId32>, s': Pages, start: nat, k: nat, b: seq<byte>)
    requires ChainOk(chain, s) && Grown(chain, s, chain', s') && k <= |chain|
    ensures NoRoom(chain', s', start, k, b) <==> NoRoom(chain, s, start, k, b)
  {
    AllLinked(chain, s);
    forall j | 0 <= j < k
      ensures chain'[j] == chain[j] && chain[j] in s' && HasRoom(s'[chain[j]], b) == HasRoom(s[chain[j]], b)
    {
      assert chain'[..|chain|][j] == chain[j] && chain[j] in s;
    }
  }

  /** Where the search ends there is room exactly if b could be stored to begin with. */
  lemma WhetherStored(chain: seq<PageId32>, s: Pages, free: nat, start: nat, b: seq<byte>,
                      chain': seq<PageId32>, s': Pages, free': nat, i: nat)
    requires ChainOk(chain, s) && Searching(chain, s, free, start, b, chain', s', free', i) && chain'[i] in s'
    requires !HasRoom(s'[chain'[i]], b) ==> free' == 0 && s'[chain'[i]].next == INVALID_PAGE_ID
    ensures HasRoom(s'[chain'[i]], b) <==> CanStore(chain, s, start, free, b)
    ensures |chain'| == |chain| + PagesTaken(chain, s, start, free, b)
  {
    assert Inside(0);
    EndOfChain(chain', s', i);
    RoomKept(chain, s, chain', s', start, |chain|, b);
    NoRoomByContents(chain, s, start, |chain|, b);
    if i < |chain| && HasRoom(s'[chain'[i]], b) {
      assert !NoRoom(chain', s', start, |chain|, b);
    } else {
      assert NoRoom(chain', s', start, |chain|, b);
    }
  }

  lemma {:induction false} PositionOf(chain: seq<PageId32>, i: nat)
    requires i < |chain| && Distinct(chain)
    ensures Position(chain, chain[i]) == i
  {
    if i > 0 {
      assert chain[0] != chain[i];
      PositionOf(chain[1..], i - 1);
    }
  }

  /** Just one tuple of a page has changed, to t. */
  predicate TupleChanged(v: PageValue, v': PageValue, slot: int, t: Tuple) {
    && v' == v.(image := v'.image) && Valid(v.image) && Valid(v'.image)
    && 0 <= slot < |v.image.slots| && Contents(v'.image) == Contents(v.image)[slot := t]
  }

  /** The tuple of record r. */
  function RecordAt(s: Pages, r: RowId): Tuple
    requires r.pageId in s && Valid(s[r.pageId].image)
  {
    if 0 <= r.slot < |s[r.pageId].image.slots| then Contents(s[r.pageId].image)[r.slot] else Vacant
  }

  // ------------------------------------------------------------------ the records as a map

  /** There is a tuple under the id r, marked or not. */
  predicate Present(s: Pages, r: RowId) {
    r.pageId in s && Valid(s[r.pageId].image) && RecordAt(s, r).Stored?
  }

  predicate RecordKept(s: Pages, m: map<RowId, Tuple>, r: RowId) {
    (r in m <==> Present(s, r)) && (Present(s, r) ==> m[r] == RecordAt(s, r))
  }

  /** What the pages are for: m has the tuple of every record. */
  ghost predicate Keeps(s: Pages, m: map<RowId, Tuple>) {
    forall r {:trigger RecordKept(s, m, r)} :: RecordKept(s, m, r)
  }

  lemma AllLinked(chain: seq<PageId32>, s: Pages)
    requires ChainOk(chain, s)
    ensures forall i :: 0 <= i < |chain| ==> chain[i] in s
  {
    forall i | 0 <= i < |chain|
      ensures chain[i] in s
    {
      assert LinkedAt(chain, s, i);
    }
  }

  /** Empty pages at the end hold no records. */
  lemma GrownKeeps(chain: seq<PageId32>, s: Pages, chain': seq<PageId32>, s': Pages, m: map<RowId, Tuple>)
    requires ChainOk(chain', s') && Grown(chain, s, chain', s') && Keeps(s, m)
    requires forall j :: 0 <= j < |chain| ==> chain[j] in s
    ensures Keeps(s', m)
  {
    assert forall j :: 0 <= j < |chain| ==> chain'[..|chain|][j] == chain[j] && chain'[j] in s;
    forall r
      ensures RecordKept(s', m, r)
    {
      assert RecordKept(s, m, r);
      if r.pageId in s' && r.pageId !in s {
        assert r.pageId in chain';
      }
    }
  }

  /** Storing a tuple gives the record r, which was not there, and leaves every other record alone. */
  lemma StoredRecord(chain: seq<PageId32>, s: Pages, i: nat, b: seq<byte>, r: RowId, t: Pages, q: RowId)
    requires ChainOk(chain, s) && StoredFirst(chain, s, i, b, r, t) && |b| > 0 && q.pageId in s
    ensures q.pageId in t && Valid(s[q.pageId].image) && Valid(t[q.pageId].image)
    ensures RecordAt(t, q) == if q == r then Stored(b, false) else RecordAt(s, q)
    ensures q == r ==> RecordAt(s, r).Vacant?
  {
    assert PageValid(s, q.pageId) && PageValid(s, r.pageId);
    StoredInPage(s[r.pageId].image, r.slot, b, q.slot);
  }

  lemma StoredInPage(im: Image, slot: int, b: seq<byte>, k: int)
    requires Valid(im) && Insertable(im, slot, b)
    ensures var im' := Inserted(im, slot, b); Valid(im')
    ensures var im' := Inserted(im, slot, b);
            (if 0 <= k < |im'.slots| then Contents(im')[k] else Vacant)
            == if k == slot then Stored(b, false) else if 0 <= k < |im.slots| then Contents(im)[k] else Vacant
    ensures 0 <= slot < |im.slots| ==> Contents(im)[slot].Vacant?
  {
    InsertedOk(im, slot, b);
  }

  lemma StoredKeeps(chain: seq<PageId32>, s: Pages, i: nat, b: seq<byte>, r: RowId, t: Pages, m: map<RowId, Tuple>)
    requires ChainOk(chain, s) && StoredFirst(chain, s, i, b, r, t) && Keeps(s, m) && |b| > 0
    ensures r !in m && Keeps(t, m[r := Stored(b, false)])
  {
    StoredRecord(chain, s, i, b, r, t, r);
    assert RecordKept(s, m, r);
    var m' := m[r := Stored(b, false)];
    forall q
      ensures RecordKept(t, m', q)
    {
      assert RecordKept(s, m, q);
      if q.pageId in s {
        StoredRecord(chain, s, i, b, r, t, q);
      }
    }
  }

  /** Having found room, there is one more record. */
  lemma RecordStored(chain: seq<PageId32>, s: Pages, free: nat, start: nat, b: seq<byte>,
                     chain': seq<PageId32>, s': Pages, free': nat, i: nat, slot: int, m: map<RowId, Tuple>)
    requires ChainOk(chain, s) && Keeps(s, m)
    requires Searching(chain, s, free, start, b, chain', s', free', i) && |b| > 0
    requires chain'[i] in s' && HasRoom(s'[chain'[i]], b) && slot == FirstVacant(s'[chain'[i]].image.slots)
    ensures var p := chain'[i]; var r := RowId(p, slot);
            r !in m && Keeps(s'[p := Extended(s'[p], slot, b)], m[r := Stored(b, false)])
  {
    SearchSucceeded(chain, s, free, start, b, chain', s', free', i, slot);
    NoneStored(chain, s, free, start, b, chain', s', free', i, m);
    var p := chain'[i];
    StoredKeeps(chain', s', start, b, RowId(p, slot), s'[p := Extended(s'[p], slot, b)], m);
  }

  /** Whatever pages the search has added, the records are the same. */
  lemma NoneStored(chain: seq<PageId32>, s: Pages, free: nat, start: nat, b: seq<byte>,
                   chain': seq<PageId32>, s': Pages, free': nat, i: nat, m: map<RowId, Tuple>)
    requires ChainOk(chain, s) && Keeps(s, m) && Searching(chain, s, free, start, b, chain', s', free', i)
    ensures Keeps(s', m)
  {
    assert Inside(0);
    AllLinked(chain, s);
    GrownKeeps(chain, s, chain', s', m);
  }

  /** The map with another tuple under r, or without r. */
  function WithTuple(m: map<RowId, Tuple>, r: RowId, t: Tuple): map<RowId, Tuple> {
    if t.Stored? then m[r := t] else m - {r}
  }

  /** The map with the mark of record r set or cleared, if there is such a record. */
  function WithMark(m: map<RowId, Tuple>, r: RowId, marked: bool): map<RowId, Tuple> {
    if r in m && m[r].Stored? then m[r := m[r].(marked := marked)] else m
  }

  /** If one tuple of a page changes, so does that record, and no other. */
  lemma ChangedKeeps(s: Pages, p: PageId32, v: PageValue, slot: int, t: Tuple, m: map<RowId, Tuple>)
    requires p in s && TupleChanged(s[p], v, slot, t) && Keeps(s, m)
    ensures Keeps(s[p := v], WithTuple(m, RowId(p, slot), t))
  {
    var s', m' := s[p := v], WithTuple(m, RowId(p, slot), t);
    forall q
      ensures RecordKept(s', m', q)
    {
      assert RecordKept(s, m, q);
    }
  }

  /** What a scan lists: the records that are not marked. */
  lemma ScanLists(chain: seq<PageId32>, s: Pages, m: map<RowId, Tuple>, r: RowId)
    requires ChainOk(chain, s) && Keeps(s, m)
    ensures r in LiveFrom(chain, s, 0) <==> r in m && Live(m[r])
  {
    ScanExact(chain, s, r);
    assert RecordKept(s, m, r);
    forall i | 0 <= i < |chain| && chain[i] == r.pageId
      ensures LiveAt(TuplesAt(chain, s, i), r.slot) <==> Present(s, r) && Live(RecordAt(s, r))
    {
      assert LinkedAt(chain, s, i) && PageValid(s, r.pageId);
    }
    if r.pageId in s {
      assert r.pageId in chain;
    }
  }
}
