/** The iterator over the live records of a table, and the scan from one end to the other. */
module TableIterators {
  import opened Bytes
  import opened Common
  import opened SlottedPage
  import opened TablePages
  import opened HeapOrder
  import opened TableHeaps

  /** rs are the live records from r on, r being the first of them, or there are none and r is the
      invalid record id. */
  ghost predicate StandsBefore(chain: seq<PageId32>, s: Pages, r: RowId, rs: seq<RowId>)
    requires ChainOk(chain, s)
  {
    if rs == [] then r == INVALID_ROWID
    else r == rs[0] && exists i :: StandsIn(chain, s, r, rs, i)
  }

  ghost predicate StandsIn(chain: seq<PageId32>, s: Pages, r: RowId, rs: seq<RowId>, i: int)
    requires ChainOk(chain, s)
  {
    && 0 <= i < |chain| && chain[i] == r.pageId && LiveAt(TuplesAt(chain, s, i), r.slot)
    && rs == Rest(chain, s, i, r.slot)
  }

  class TableIterator {
    const heap: TableHeap
    var rid: RowId
    /** The bytes of the row the iterator stands at. */
    var row: seq<byte>

    /** At the first of the records rs, having read it, or at the end. */
    ghost predicate At(rs: seq<RowId>)
      requires heap.Valid()
      reads this, heap, heap.arrays
    {
      && StandsBefore(heap.chain, heap.shown, rid, rs)
      && (rs != [] ==> HasRow(heap.shown, rid, row))
    }

    constructor (heap: TableHeap, rid: RowId, ghost rs: seq<RowId>)
      requires heap.Valid() && StandsBefore(heap.chain, heap.shown, rid, rs)
      ensures this.heap == heap && At(rs)
    {
      this.heap, this.rid := heap, rid;
      var b := [];
      LiveHere(heap, rid, rs);
      if rid.pageId != INVALID_PAGE_ID {
        var _, b' := heap.GetTuple(rid, b);
        assert RecordKept(heap.shown, heap.records, rid);
        b := b';
      }
      row := b;
    }

    predicate Equals(other: TableIterator)
      reads this, other
    {
      rid == other.rid
    }

    /** On to the next live record. */
    method Next(ghost rs: seq<RowId>)
      requires heap.Valid() && At(rs) && rs != []
      modifies this
      ensures At(rs[1..])
    {
      ghost var i :| StandsIn(heap.chain, heap.shown, rid, rs, i);
      RestFound(heap.chain, heap.shown, i, rid.slot, rid.slot);
      assert rs[1..] == Rest(heap.chain, heap.shown, i, rid.slot + 1);
      rid := NextLive(heap, rid, i);
      LiveHere(heap, rid, rs[1..]);
      if rid != INVALID_ROWID {
        var _, b := heap.GetTuple(rid, row);
        assert RecordKept(heap.shown, heap.records, rid);
        row := b;
      }
    }
  }

  /** b are the bytes of the live record r. */
  ghost predicate HasRow(s: Pages, r: RowId, b: seq<byte>) {
    && r.pageId in s && Valid(s[r.pageId].image)
    && Live(RecordAt(s, r)) && RecordAt(s, r).bytes == b
  }

  /** Looks for a live record in the j-th page p of the chain.  If there is none, the scan goes on with
      the next page. */
  method Visit(heap: TableHeap, p: PageId32, ghost j: nat) returns (found: bool, slot: int, next: PageId32)
    requires heap.Valid() && j < |heap.chain| && heap.chain[j] == p
    ensures found ==> StandsBefore(heap.chain, heap.shown, RowId(p, slot), LiveFrom(heap.chain, heap.shown, j))
    ensures !found ==> LiveFrom(heap.chain, heap.shown, j) == LiveFrom(heap.chain, heap.shown, j + 1)
    ensures !found ==> next == if j + 1 < |heap.chain| then heap.chain[j + 1] else INVALID_PAGE_ID
  {
    EndOfChain(heap.chain, heap.shown, j);
    found, slot := heap.FirstIn(p);
    next := INVALID_PAGE_ID;
    if found {
      RestFound(heap.chain, heap.shown, j, 0, slot);
      assert StandsIn(heap.chain, heap.shown, RowId(p, slot), LiveFrom(heap.chain, heap.shown, j), j);
    } else {
      RestNone(heap.chain, heap.shown, j, 0);
      next := heap.NextOf(p);
    }
  }

  /** The first live record of the i-th page p of the chain or of one behind it. */
  method FirstLive(heap: TableHeap, p: PageId32, ghost i: nat) returns (r: RowId)
    requires heap.Valid() && i <= |heap.chain|
    requires p == if i < |heap.chain| then heap.chain[i] else INVALID_PAGE_ID
    ensures StandsBefore(heap.chain, heap.shown, r, LiveFrom(heap.chain, heap.shown, i))
  {
    NoInvalidId(heap.chain, heap.shown);
    var pageId := p;
    ghost var j := i;
    while pageId != INVALID_PAGE_ID
      invariant i <= j <= |heap.chain|
      invariant pageId == if j < |heap.chain| then heap.chain[j] else INVALID_PAGE_ID
      invariant LiveFrom(heap.chain, heap.shown, i) == LiveFrom(heap.chain, heap.shown, j)
      decreases |heap.chain| - j
    {
      var found, slot, next := Visit(heap, pageId, j);
      if found {
        return RowId(pageId, slot);
      }
      pageId := next;
      j := j + 1;
    }
    r := INVALID_ROWID;
  }

  /** The next live record after r, which is in the i-th page. */
  method NextLive(heap: TableHeap, r: RowId, ghost i: nat) returns (next: RowId)
    requires heap.Valid() && i < |heap.chain| && heap.chain[i] == r.pageId && r.slot >= 0
    ensures StandsBefore(heap.chain, heap.shown, next, Rest(heap.chain, heap.shown, i, r.slot + 1))
  {
    EndOfChain(heap.chain, heap.shown, i);
    var found, slot := heap.NextIn(r.pageId, r.slot);
    if found {
      RestFound(heap.chain, heap.shown, i, r.slot + 1, slot);
      next := RowId(r.pageId, slot);
      assert StandsIn(heap.chain, heap.shown, next, Rest(heap.chain, heap.shown, i, r.slot + 1), i);
      return;
    }
    RestNone(heap.chain, heap.shown, i, r.slot + 1);
    var pageId := heap.NextOf(r.pageId);
    next := FirstLive(heap, pageId, i + 1);
  }

  lemma NoInvalidId(chain: seq<PageId32>, s: Pages)
    requires ChainOk(chain, s)
    ensures forall i :: 0 <= i < |chain| ==> chain[i] != INVALID_PAGE_ID
  {
    forall i | 0 <= i < |chain|
      ensures chain[i] != INVALID_PAGE_ID
    {
      assert LinkedAt(chain, s, i);
    }
  }

  lemma LiveHere(heap: TableHeap, r: RowId, rs: seq<RowId>)
    requires heap.Valid() && StandsBefore(heap.chain, heap.shown, r, rs)
    ensures rs == [] <==> r.pageId == INVALID_PAGE_ID
    ensures rs == [] <==> r == INVALID_ROWID
    ensures rs != [] ==> r.pageId in heap.shown && PageValid(heap.shown, r.pageId) && r.slot >= 0
                         && Live(RecordAt(heap.shown, r))
  {
    if rs != [] {
      var i :| StandsIn(heap.chain, heap.shown, r, rs, i);
      assert LinkedAt(heap.chain, heap.shown, i) && PageValid(heap.shown, r.pageId);
    }
  }

  /** At the first live record of a table, or at the end. */
  method Begin(heap: TableHeap) returns (it: TableIterator)
    requires heap.Valid()
    ensures fresh(it) && it.heap == heap && it.At(LiveFrom(heap.chain, heap.shown, 0))
  {
    var r := FirstLive(heap, heap.firstPageId, 0);
    it := new TableIterator(heap, r, LiveFrom(heap.chain, heap.shown, 0));
  }

  method End(heap: TableHeap) returns (it: TableIterator)
    requires heap.Valid()
    ensures fresh(it) && it.heap == heap && it.rid == INVALID_ROWID
  {
    it := new TableIterator(heap, INVALID_ROWID, []);
  }

  /** The rows read so far are those of the records met so far, and rs are the ones still to come. */
  ghost predicate Scanned(chain: seq<PageId32>, s: Pages, rids: seq<RowId>, rows: seq<seq<byte>>, rs: seq<RowId>)
    requires ChainOk(chain, s)
  {
    && rids + rs == LiveFrom(chain, s, 0) && |rows| == |rids|
    && forall k :: 0 <= k < |rids| ==> HasRow(s, rids[k], rows[k])
  }

  lemma ScannedMore(chain: seq<PageId32>, s: Pages, rids: seq<RowId>, rows: seq<seq<byte>>, rs: seq<RowId>,
                    row: seq<byte>)
    requires ChainOk(chain, s) && Scanned(chain, s, rids, rows, rs)
    requires rs != [] && HasRow(s, rs[0], row)
    ensures Scanned(chain, s, rids + [rs[0]], rows + [row], rs[1..])
  {
    assert rids + [rs[0]] + rs[1..] == rids + rs;
  }

  /** The rows are those of the records of m that are not marked, each once. */
  ghost predicate ListsLive(rids: seq<RowId>, rows: seq<seq<byte>>, m: map<RowId, Tuple>) {
    && |rows| == |rids|
    && (forall r :: r in rids <==> r in m && Live(m[r]))
    && (forall k :: 0 <= k < |rids| ==> rids[k] in m && m[rids[k]].Stored? && rows[k] == m[rids[k]].bytes)
    && (forall j, k :: 0 <= j < k < |rids| ==> rids[j] != rids[k])
  }

  lemma ScanListsLive(heap: TableHeap, rids: seq<RowId>, rows: seq<seq<byte>>)
    requires heap.Valid() && rids == LiveFrom(heap.chain, heap.shown, 0) && |rows| == |rids|
    requires forall k :: 0 <= k < |rids| ==> HasRow(heap.shown, rids[k], rows[k])
    ensures ListsLive(rids, rows, heap.records) && Ordered(heap.chain, rids)
  {
    var m := heap.records;
    forall r
      ensures r in rids <==> r in m && Live(m[r])
    {
      ScanLists(heap.chain, heap.shown, m, r);
    }
    forall k | 0 <= k < |rids|
      ensures rids[k] in m && m[rids[k]].Stored? && rows[k] == m[rids[k]].bytes
    {
      assert rids[k] in rids && HasRow(heap.shown, rids[k], rows[k]);
      assert RecordKept(heap.shown, m, rids[k]);
    }
    ScanExact(heap.chain, heap.shown, INVALID_ROWID);
    LiveFromOrdered(heap.chain, heap.shown, 0);
  }

  /** From Begin() to End(): the live records, in the order of the chain and of the slots, each with
      its bytes. */
  method Scan(heap: TableHeap) returns (rids: seq<RowId>, rows: seq<seq<byte>>)
    requires heap.Valid()
    ensures rids == LiveFrom(heap.chain, heap.shown, 0) && Ordered(heap.chain, rids)
    ensures ListsLive(rids, rows, heap.records)
  {
    rids, rows := [], [];
    var it := Begin(heap);
    var end := End(heap);
    ghost var rs := LiveFrom(heap.chain, heap.shown, 0);
    LiveHere(heap, it.rid, rs);
    while !it.Equals(end)
      invariant fresh(it) && it != end && it.heap == heap && end.rid == INVALID_ROWID
      invariant it.At(rs) && (rs == [] <==> it.rid == INVALID_ROWID)
      invariant Scanned(heap.chain, heap.shown, rids, rows, rs)
      decreases |rs|
    {
      var r, row := Take(it, rs);
      ScannedMore(heap.chain, heap.shown, rids, rows, rs, row);
      rids, rows, rs := rids + [r], rows + [row], rs[1..];
    }
    assert rids + [] == rids;
    ScanListsLive(heap, rids, rows);
  }

  /** Reads the record an iterator stands at, and moves on. */
  method Take(it: TableIterator, ghost rs: seq<RowId>) returns (r: RowId, row: seq<byte>)
    requires it.heap.Valid() && it.At(rs) && rs != []
    modifies it
    ensures r == rs[0] && HasRow(it.heap.shown, r, row)
    ensures it.At(rs[1..]) && (rs[1..] == [] <==> it.rid == INVALID_ROWID)
  {
    r, row := it.rid, it.row;
    it.Next(rs);
    LiveHere(it.heap, it.rid, rs[1..]);
  }
}
