/** A table: a doubly linked chain of table pages. */
module TableHeaps {
  import opened Bytes
  import opened Common
  import opened SlottedPage
  import opened TablePages
  import opened HeapOrder

  class TableHeap {
    const firstPageId: PageId32
    var insertPageId: PageId32
    /** Where FetchPage finds the pages of this table. */
    var pages: map<PageId32, TablePage>
    /** The page ids NewPage will give out, in this order; once there are none it fails. */
    var freePages: seq<PageId32>

    /** The page ids in the order of the links. */
    ghost var chain: seq<PageId32>
    /** The pages as values. */
    ghost var shown: Pages
    ghost var arrays: set<array<byte>>
    /** What the table is for: a map from record ids to tuples, marked ones included. */
    ghost var records: map<RowId, Tuple>

    /** Every page has its own memory, and they show t. */
    ghost predicate AllShow(t: Pages)
      reads `pages, `arrays, arrays
    {
      && t.Keys == pages.Keys
      && (forall p {:trigger pages[p]} :: p in pages ==> pages[p].data in arrays && p in t && pages[p].Shows(t[p]))
      && (forall p, q :: p in pages && q in pages && p != q ==> pages[p].data != pages[q].data)
    }

    /** The pages and the values agree.  Each(0) opens this up where single pages matter. */
    ghost predicate Mirrored()
      reads `pages, `shown, `arrays, arrays
    {
      forall i {:trigger Each(i)} :: Each(i) ==> AllShow(shown)
    }

    ghost predicate Valid()
      reads this, arrays
    {
      && Mirrored() && ChainOk(chain, shown) && AllFresh(freePages, shown)
      && chain[0] == firstPageId && insertPageId in chain
      && Keeps(shown, records)
    }

    /** A table with one empty page, and the pages there will be to extend it. */
    constructor (first: PageId32, freePages: seq<PageId32>)
      requires first != INVALID_PAGE_ID && Distinct(freePages)
      requires forall i :: 0 <= i < |freePages| ==> freePages[i] != INVALID_PAGE_ID && freePages[i] != first
      ensures Valid() && chain == [first] && this.freePages == freePages && records == map[]
      ensures shown == map[first := EmptyPage(first, INVALID_PAGE_ID)]
      ensures fresh(arrays)
    {
      var page := FirstPage(first, INVALID_PAGE_ID);
      firstPageId, insertPageId := first, first;
      pages, this.freePages := map[first := page], freePages;
      chain, arrays, records := [first], {page.data}, map[];
      shown := map[first := EmptyPage(first, INVALID_PAGE_ID)];
      new;
      EmptyValid();
      assert PageValid(shown, first) && LinkedAt(chain, shown, 0);
      forall r
        ensures RecordKept(shown, records, r)
      {
      }
    }

    /** The page with the given id. */
    method FetchPage(p: PageId32) returns (page: TablePage)
      requires Mirrored() && p in shown
      ensures p in pages && page == pages[p] && page.data in arrays
      ensures page.Shows(shown[p])
      ensures forall c {:trigger pages[c]} :: c in pages && c != p ==> pages[c].data != page.data
    {
      assert Each(0);
      page := pages[p];
    }

    method NextOf(p: PageId32) returns (next: PageId32)
      requires Mirrored() && p in shown
      ensures next == shown[p].next
    {
      var page := FetchPage(p);
      assert Inside(0);
      next := page.GetNextPageId();
    }

    /** The values become what the pages show. */
    ghost method Record(t: Pages)
      requires AllShow(t)
      modifies `shown
      ensures Mirrored() && shown == t
    {
      shown := t;
    }

    /** Only the memory of page p has changed, and it shows v now. */
    twostate lemma OneChanged(new p: PageId32, new v: PageValue)
      requires old(Mirrored()) && unchanged(`pages) && unchanged(`shown) && unchanged(`arrays)
      requires p in pages && p in shown && pages[p].Shows(v)
      requires forall c {:trigger pages[c]} :: c in pages && c != p ==> unchanged(pages[c].data)
      ensures AllShow(shown[p := v])
    {
      assert Each(0);
      assert shown[p := v].Keys == shown.Keys;
    }

    /** One attempt to store a tuple in page p. */
    method TryInsert(p: PageId32, b: seq<byte>) returns (ok: bool, slot: int)
      requires Mirrored() && p in shown && |b| > 0
      modifies `shown, arrays
      ensures Mirrored()
      ensures ok <==> HasRoom(old(shown)[p], b)
      ensures !ok ==> shown == old(shown)
      ensures ok ==> slot == FirstVacant(old(shown)[p].image.slots)
                     && shown == old(shown)[p := Extended(old(shown)[p], slot, b)]
    {
      ghost var v;
      var page := FetchPage(p);
      ok, slot, v := InsertInto(page, b, shown[p]);
      OneChanged(p, v);
      Record(shown[p := v]);
      assert !ok ==> shown == old(shown);
    }

    /** A new page behind the last page p. */
    method ExtendChain(p: PageId32) returns (q: PageId32)
      requires Mirrored() && AllFresh(freePages, shown) && p in shown && |freePages| > 0
      modifies `pages, `shown, `freePages, `arrays, arrays
      ensures Mirrored() && AllFresh(freePages, shown) && fresh(arrays - old(arrays))
      ensures q == old(freePages)[0] && freePages == old(freePages)[1..]
      ensures q !in old(shown) && q != INVALID_PAGE_ID && shown == Appended(old(shown), p, q)
    {
      q := freePages[0];
      FreshTail(freePages, shown, p);
      freePages := freePages[1..];
      AddPage(p, q);
    }

    method AddPage(p: PageId32, q: PageId32)
      requires Mirrored() && p in shown && q !in shown
      modifies `pages, `shown, `arrays, arrays
      ensures Mirrored() && fresh(arrays - old(arrays))
      ensures shown == Appended(old(shown), p, q)
    {
      SetNext(p, q);
      var page := FirstPage(q, p);
      File(page, q, p);
    }

    method SetNext(p: PageId32, q: PageId32)
      requires Mirrored() && p in shown
      modifies `shown, arrays
      ensures Mirrored() && shown == old(shown)[p := old(shown)[p].(next := q)]
    {
      var page := FetchPage(p);
      Relink(page, q, shown[p]);
      OneChanged(p, shown[p].(next := q));
      Record(shown[p := shown[p].(next := q)]);
    }

    method File(page: TablePage, q: PageId32, ghost prev: PageId32)
      requires Mirrored() && q !in shown && page.data !in arrays
      requires page.Shows(EmptyPage(q, prev))
      modifies `pages, `shown, `arrays
      ensures Mirrored() && shown == old(shown)[q := EmptyPage(q, prev)]
      ensures arrays == old(arrays) + {page.data}
    {
      assert Each(0);
      pages := pages[q := page];
      shown := shown[q := EmptyPage(q, prev)];
      arrays := arrays + {page.data};
    }

    // -------------------------------------------------------------- insertion

    /** Stores a tuple in the first page, from the one of the last insertion on, that has room for it,
        and extends the chain if there is none.  It succeeds exactly if one of these pages has room,
        or an empty one would have and there is one to be had.  before shows the pages just before the
        tuple is stored.  A row too large for an empty page uses up all the pages there are. */
    method InsertTuple(b: seq<byte>) returns (ok: bool, rid: RowId, ghost before: Pages)
      requires Valid() && |b| > 0
      modifies this, arrays
      ensures Valid() && fresh(arrays - old(arrays))
      ensures ok ==> rid !in old(records)
      ensures records == if ok then old(records)[rid := Stored(b, false)] else old(records)
      ensures ok <==> CanStore(old(chain), old(shown), Position(old(chain), old(insertPageId)), |old(freePages)|, b)
      ensures Grown(old(chain), old(shown), chain, before) && chain + freePages == old(chain + freePages)
      ensures ok ==> StoredFirst(chain, before, Position(old(chain), old(insertPageId)), b, rid, shown)
      ensures insertPageId == if ok then rid.pageId else old(insertPageId)
      ensures !ok ==> shown == before && freePages == []
      ensures !ok ==> NoRoom(chain, shown, Position(old(chain), old(insertPageId)), |chain|, b)
      ensures |b| > SIZE_MAX_ROW ==> !ok
      ensures |chain| == |old(chain)| + PagesTaken(old(chain), old(shown), Position(old(chain), old(insertPageId)),
                                                   |old(freePages)|, b)
    {
      ghost var start, chain0, shown0, free0 := Position(chain, insertPageId), chain, shown, |freePages|;
      var current, slot;
      ghost var i;
      ok, current, slot, before, i := StoreFrom(insertPageId, b, start);
      WhetherStored(chain0, shown0, free0, start, b, chain, before, |freePages|, i);
      if ok {
        SearchSucceeded(chain0, shown0, free0, start, b, chain, before, |freePages|, i, slot);
        RecordStored(chain0, shown0, free0, start, b, chain, before, |freePages|, i, slot, records);
        insertPageId := current;
        rid := RowId(current, slot);
        records := records[rid := Stored(b, false)];
      } else {
        SearchFailed(chain0, shown0, free0, start, b, chain, before, i);
        NoneStored(chain0, shown0, free0, start, b, chain, before, 0, i, records);
        rid := INVALID_ROWID;
      }
    }

    /** The search has come to page i of the chain, and it has been tried to store b there: before
        shows the pages before the attempt. */
    ghost predicate Tried(chain0: seq<PageId32>, shown0: Pages, free0: nat, start: nat, b: seq<byte>,
                          ok: bool, p: PageId32, slot: int, before: Pages, i: nat)
      reads `chain, `shown, `freePages
    {
      && Searching(chain0, shown0, free0, start, b, chain, before, |freePages|, i)
      && AllFresh(freePages, before)
      && chain[i] == p && p in before && (ok <==> HasRoom(before[p], b))
      && (ok ==> slot == FirstVacant(before[p].image.slots))
      && shown == if ok then before[p := Extended(before[p], slot, b)] else before
    }

    /** The search for room along the chain. */
    method StoreFrom(first: PageId32, b: seq<byte>, ghost start: nat)
      returns (ok: bool, current: PageId32, slot: int, ghost before: Pages, ghost i: nat)
      requires Mirrored() && ChainOk(chain, shown) && AllFresh(freePages, shown)
      requires start < |chain| && chain[start] == first && |b| > 0
      modifies `pages, `shown, `freePages, `chain, `arrays, arrays
      ensures Mirrored() && fresh(arrays - old(arrays))
      ensures Tried(old(chain), old(shown), |old(freePages)|, start, b, ok, current, slot, before, i)
      ensures chain[0] == old(chain)[0] && chain + freePages == old(chain + freePages)
      ensures !ok ==> freePages == [] && before[current].next == INVALID_PAGE_ID
    {
      i, current, before := start, first, shown;
      SearchStart(chain, shown, |freePages|, start, b);
      ok, slot := TryInsert(current, b);
      while !ok
        invariant Mirrored() && fresh(arrays - old(arrays))
        invariant Tried(old(chain), old(shown), |old(freePages)|, start, b, ok, current, slot, before, i)
        invariant chain[0] == old(chain)[0] && chain + freePages == old(chain + freePages)
        decreases |freePages|, |chain| - i
      {
        var next := NextOf(current);
        if next == INVALID_PAGE_ID && |freePages| == 0 {
          return;
        }
        ok, current, slot, before := Proceed(current, next, b, start, i, old(chain), old(shown), |old(freePages)|);
        i := i + 1;
      }
    }

    /** The next attempt, one page further on. */
    method Proceed(p: PageId32, next: PageId32, b: seq<byte>, ghost start: nat, ghost i: nat,
                   ghost chain0: seq<PageId32>, ghost shown0: Pages, ghost free0: nat)
      returns (ok: bool, q: PageId32, slot: int, ghost before: Pages)
      requires Mirrored() && ChainOk(chain0, shown0) && |b| > 0
      requires Tried(chain0, shown0, free0, start, b, false, p, 0, shown, i)
      requires next == shown[p].next && (next == INVALID_PAGE_ID ==> |freePages| > 0)
      modifies `pages, `shown, `freePages, `chain, `arrays, arrays
      ensures Mirrored() && fresh(arrays - old(arrays))
      ensures Tried(chain0, shown0, free0, start, b, ok, q, slot, before, i + 1)
      ensures chain[0] == old(chain)[0] && chain + freePages == old(chain + freePages)
      ensures |freePages| < |old(freePages)| || (freePages == old(freePages) && chain == old(chain))
    {
      q := Advance(p, next, b, start, i, chain0, shown0, free0);
      before := shown;
      ok, slot := TryInsert(q, b);
    }

    /** On to the next page of the chain, or to a new one if there is no next. */
    method Advance(p: PageId32, next: PageId32, ghost b: seq<byte>, ghost start: nat, ghost i: nat,
                   ghost chain0: seq<PageId32>, ghost shown0: Pages, ghost free0: nat)
      returns (q: PageId32)
      requires Mirrored() && AllFresh(freePages, shown) && ChainOk(chain0, shown0)
      requires Searching(chain0, shown0, free0, start, b, chain, shown, |freePages|, i)
      requires chain[i] == p && p in shown && !HasRoom(shown[p], b) && next == shown[p].next
      requires next == INVALID_PAGE_ID ==> |freePages| > 0
      modifies `pages, `shown, `freePages, `chain, `arrays, arrays
      ensures Mirrored() && AllFresh(freePages, shown) && fresh(arrays - old(arrays))
      ensures Searching(chain0, shown0, free0, start, b, chain, shown, |freePages|, i + 1)
      ensures chain[i + 1] == q && q in shown && chain[0] == old(chain)[0]
      ensures chain + freePages == old(chain + freePages)
      ensures |freePages| < |old(freePages)| || (freePages == old(freePages) && chain == old(chain))
    {
      if next != INVALID_PAGE_ID {
        SearchNext(chain0, shown0, free0, start, b, chain, shown, |freePages|, i);
        q := next;
      } else {
        ghost var s, free := shown, |freePages|;
        q := ExtendChain(p);
        SearchExtended(chain0, shown0, free0, start, b, chain, s, free, i, q);
        chain := chain + [q];
      }
    }

    // -------------------------------------------------------------- marks and removal

    /** Marks a record as deleted.  Whether there was a live one to mark is not reported. */
    method MarkDelete(rid: RowId) returns (ok: bool, ghost v: PageValue)
      requires Valid() && rid.pageId in shown && rid.slot >= 0
      modifies `shown, `records, arrays
      ensures Valid() && ok && PageValid(old(shown), rid.pageId) && shown == old(shown)[rid.pageId := v]
      ensures records == WithMark(old(records), rid, true)
    {
      assert PageValid(shown, rid.pageId);
      ghost var s := shown;
      v := MarkAt(rid.pageId, rid.slot);
      ImageReplaced(chain, s, rid.pageId, v.image);
      MarkKeeps(s, rid.pageId, rid.slot, v, records);
      records := WithMark(records, rid, true);
      ok := true;
    }

    method MarkAt(p: PageId32, slot: int) returns (ghost v: PageValue)
      requires Mirrored() && p in shown && SlottedPage.Valid(shown[p].image) && slot >= 0
      modifies `shown, arrays
      ensures Mirrored() && shown == old(shown)[p := v] && Marked(old(shown)[p], slot, v)
    {
      var page := FetchPage(p);
      v := MarkIn(page, slot, shown[p]);
      OneChanged(p, v);
      Record(shown[p := v]);
    }

    /** Takes the mark off a record. */
    method RollbackDelete(rid: RowId) returns (ghost v: PageValue)
      requires Valid() && rid.pageId in shown && 0 <= rid.slot < |shown[rid.pageId].image.slots|
      modifies `shown, `records, arrays
      ensures Valid() && PageValid(old(shown), rid.pageId) && shown == old(shown)[rid.pageId := v]
      ensures records == WithMark(old(records), rid, false)
    {
      assert PageValid(shown, rid.pageId);
      ghost var s := shown;
      v := RollbackAt(rid.pageId, rid.slot);
      ImageReplaced(chain, s, rid.pageId, v.image);
      RollbackKeeps(s, rid.pageId, rid.slot, v, records);
      records := WithMark(records, rid, false);
    }

    method RollbackAt(p: PageId32, slot: int) returns (ghost v: PageValue)
      requires Mirrored() && p in shown && SlottedPage.Valid(shown[p].image) && 0 <= slot < |shown[p].image.slots|
      modifies `shown, arrays
      ensures Mirrored() && shown == old(shown)[p := v] && RolledBack(old(shown)[p], slot, v)
    {
      var page := FetchPage(p);
      v := RollbackIn(page, slot, shown[p]);
      OneChanged(p, v);
      Record(shown[p := v]);
    }

    /** Drops a record for good. */
    method ApplyDelete(rid: RowId) returns (ghost v: PageValue)
      requires Valid() && rid in records
      modifies `shown, `records, arrays
      ensures Valid() && rid.pageId in old(shown) && shown == old(shown)[rid.pageId := v]
      ensures records == old(records) - {rid}
    {
      assert RecordKept(shown, records, rid);
      ghost var s := shown;
      v := ApplyAt(rid.pageId, rid.slot);
      ImageReplaced(chain, s, rid.pageId, v.image);
      ChangedKeeps(s, rid.pageId, v, rid.slot, Vacant, records);
      records := records - {rid};
    }

    method ApplyAt(p: PageId32, slot: int) returns (ghost v: PageValue)
      requires Mirrored() && p in shown && SlottedPage.Valid(shown[p].image)
      requires 0 <= slot < |shown[p].image.slots| && Contents(shown[p].image)[slot].Stored?
      modifies `shown, arrays
      ensures Mirrored() && shown == old(shown)[p := v] && TupleChanged(old(shown)[p], v, slot, Vacant)
    {
      var page := FetchPage(p);
      v := ApplyIn(page, slot, shown[p]);
      OneChanged(p, v);
      Record(shown[p := v]);
    }

    // -------------------------------------------------------------- reading

    /** The first live slot of page p. */
    method FirstIn(p: PageId32) returns (found: bool, slot: int)
      requires Valid() && p in shown
      ensures PageValid(shown, p)
      ensures found ==> IsNextLive(Contents(shown[p].image), 0, slot)
      ensures !found ==> NoneLive(Contents(shown[p].image), 0)
    {
      assert PageValid(shown, p);
      var page := FetchPage(p);
      found, slot := FirstInPage(page, shown[p]);
    }

    /** The next live slot of page p. */
    method NextIn(p: PageId32, current: int) returns (found: bool, slot: int)
      requires Valid() && p in shown && current >= 0
      ensures PageValid(shown, p)
      ensures found ==> IsNextLive(Contents(shown[p].image), current + 1, slot)
      ensures !found ==> NoneLive(Contents(shown[p].image), current + 1)
    {
      assert PageValid(shown, p);
      var page := FetchPage(p);
      found, slot := NextInPage(page, current, shown[p]);
    }

    /** The bytes of a live record replace the given ones; success is reported either way. */
    method GetTuple(rid: RowId, was: seq<byte>) returns (ok: bool, b: seq<byte>)
      requires Valid() && rid.pageId in shown && rid.slot >= 0
      ensures ok && b == if rid in records && Live(records[rid]) then records[rid].bytes else was
    {
      assert PageValid(shown, rid.pageId) && RecordKept(shown, records, rid);
      var page := FetchPage(rid.pageId);
      assert Inside(0);
      var found, bytes := page.GetTuple(rid.slot);
      ok, b := true, if found then bytes else was;
    }
  }

  method FirstInPage(page: TablePage, ghost v: PageValue) returns (found: bool, slot: int)
    requires page.Shows(v) && Valid(v.image)
    ensures found ==> IsNextLive(Contents(v.image), 0, slot)
    ensures !found ==> NoneLive(Contents(v.image), 0)
  {
    assert Inside(0);
    found, slot := page.GetFirstTupleRid();
  }

  method NextInPage(page: TablePage, current: int, ghost v: PageValue) returns (found: bool, slot: int)
    requires page.Shows(v) && Valid(v.image) && current >= 0
    ensures found ==> IsNextLive(Contents(v.image), current + 1, slot)
    ensures !found ==> NoneLive(Contents(v.image), current + 1)
  {
    assert Inside(0);
    found, slot := page.GetNextTupleRid(current);
  }

  /** Of the page v, a live tuple has been marked, or there was none. */
  predicate Marked(v: PageValue, slot: int, v': PageValue)
    requires SlottedPage.Valid(v.image) && slot >= 0
  {
    && v' == v.(image := v'.image) && SlottedPage.Valid(v'.image)
    && if slot < |v.image.slots| && Live(Contents(v.image)[slot])
       then TupleChanged(v, v', slot, Contents(v.image)[slot].(marked := true)) else v' == v
  }

  predicate RolledBack(v: PageValue, slot: int, v': PageValue)
    requires SlottedPage.Valid(v.image) && 0 <= slot < |v.image.slots|
  {
    var t := Contents(v.image)[slot];
    TupleChanged(v, v', slot, if t.Stored? then t.(marked := false) else t)
  }

  lemma MarkKeeps(s: Pages, p: PageId32, slot: int, v: PageValue, m: map<RowId, Tuple>)
    requires p in s && SlottedPage.Valid(s[p].image) && slot >= 0 && Marked(s[p], slot, v) && Keeps(s, m)
    ensures Keeps(s[p := v], WithMark(m, RowId(p, slot), true))
  {
    var r := RowId(p, slot);
    assert RecordKept(s, m, r);
    var t := RecordAt(s, r);
    if Live(t) {
      ChangedKeeps(s, p, v, slot, t.(marked := true), m);
    } else {
      assert s[p := v] == s && WithMark(m, r, true) == m;
    }
  }

  lemma RollbackKeeps(s: Pages, p: PageId32, slot: int, v: PageValue, m: map<RowId, Tuple>)
    requires p in s && SlottedPage.Valid(s[p].image) && 0 <= slot < |s[p].image.slots|
    requires RolledBack(s[p], slot, v) && Keeps(s, m)
    ensures Keeps(s[p := v], WithMark(m, RowId(p, slot), false))
  {
    var r := RowId(p, slot);
    assert RecordKept(s, m, r);
    var t := RecordAt(s, r);
    ChangedKeeps(s, p, v, slot, if t.Stored? then t.(marked := false) else t, m);
    assert t.Vacant? ==> WithTuple(m, r, t) == m == WithMark(m, r, false);
  }

  method MarkIn(page: TablePage, slot: int, ghost v: PageValue) returns (ghost v': PageValue)
    requires page.Shows(v) && slot >= 0 && SlottedPage.Valid(v.image)
    modifies page.data
    ensures page.Shows(v') && Marked(v, slot, v')
  {
    assert Inside(0);
    var ok := page.MarkDelete(slot);
    v' := v.(image := page.View());
  }

  method RollbackIn(page: TablePage, slot: int, ghost v: PageValue) returns (ghost v': PageValue)
    requires page.Shows(v) && SlottedPage.Valid(v.image) && 0 <= slot < |v.image.slots|
    modifies page.data
    ensures page.Shows(v') && RolledBack(v, slot, v')
  {
    assert Inside(0);
    page.RollbackDelete(slot);
    v' := v.(image := page.View());
  }

  method ApplyIn(page: TablePage, slot: int, ghost v: PageValue) returns (ghost v': PageValue)
    requires page.Shows(v) && Valid(v.image) && 0 <= slot < |v.image.slots| && Contents(v.image)[slot].Stored?
    modifies page.data
    ensures page.Shows(v') && TupleChanged(v, v', slot, Vacant)
  {
    assert Inside(0);
    page.ApplyDelete(slot);
    v' := v.(image := page.View());
  }

  /** A new page, initialised. */
  method FirstPage(p: PageId32, prev: PageId32) returns (page: TablePage)
    ensures fresh(page) && fresh(page.data) && page.Shows(EmptyPage(p, prev))
  {
    page := new TablePage();
    page.Init(p, prev);
  }

  method Relink(page: TablePage, q: PageId32, ghost v: PageValue)
    requires page.Shows(v)
    modifies page.data
    ensures page.Shows(v.(next := q))
  {
    assert Inside(0);
    page.SetNextPageId(q);
  }

  /** It has been tried to store b in a page that showed v. */
  ghost predicate Attempted(v: PageValue, b: seq<byte>, ok: bool, slot: int, v': PageValue) {
    && (ok <==> HasRoom(v, b))
    && (ok ==> slot == FirstVacant(v.image.slots) && v' == Extended(v, slot, b))
    && (!ok ==> v' == v)
  }

  method InsertInto(page: TablePage, b: seq<byte>, ghost v: PageValue)
    returns (ok: bool, slot: int, ghost v': PageValue)
    requires page.Shows(v) && |b| > 0
    modifies page.data
    ensures Attempted(v, b, ok, slot, v') && page.Shows(v')
  {
    assert Inside(0);
    ok, slot := page.InsertTuple(b);
    v' := if ok then Extended(v, slot, b) else v;
  }
}
