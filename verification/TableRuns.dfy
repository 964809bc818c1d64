/** Whole runs of a table, from its creation on: what it holds in the end is what a map would. */
module TableRuns {
  import opened Bytes
  import opened Common
  import opened HeapOrder
  import opened SlottedPage
  import opened TableHeaps
  import opened TableIterators
  import opened TablePages

  /** What clients do; the rows are not empty. */
  datatype Op = Insert(b: seq<byte>) | MarkDelete(r: RowId) | ApplyDelete(r: RowId) | RollbackDelete(r: RowId)

  predicate OpOk(op: Op) {
    op.Insert? ==> |op.b| > 0
  }

  /** The map after an operation.  rid is where an insertion has put its row, the invalid id if there was
      no room for it.  Operations on records that are not there are not carried out. */
  function Apply(m: map<RowId, Tuple>, op: Op, rid: RowId): map<RowId, Tuple> {
    match op
    case Insert(b) => if rid == INVALID_ROWID then m else m[rid := Stored(b, false)]
    case MarkDelete(r) => WithMark(m, r, true)
    case ApplyDelete(r) => m - {r}
    case RollbackDelete(r) => WithMark(m, r, false)
  }

  function ApplyAll(ops: seq<Op>, rids: seq<RowId>): map<RowId, Tuple>
    requires |rids| == |ops|
  {
    var n := |ops| - 1;
    if ops == [] then map[] else Apply(ApplyAll(ops[..n], rids[..n]), ops[n], rids[n])
  }

  /** No insertion has been given the id of a record that was there. */
  predicate NoneOverwritten(ops: seq<Op>, rids: seq<RowId>)
    requires |rids| == |ops|
  {
    forall i :: 0 <= i < |ops| && ops[i].Insert? ==> rids[i] !in ApplyAll(ops[..i], rids[..i])
  }

  /** Where an insertion into the table starts to look for room. */
  ghost function Start(heap: TableHeap): nat
    requires heap.Valid()
    reads heap, heap.arrays
  {
    Position(heap.chain, heap.insertPageId)
  }

  /** One operation of a client that goes by its own map of the records. */
  method Perform(heap: TableHeap, op: Op, m: map<RowId, Tuple>) returns (rid: RowId, m': map<RowId, Tuple>)
    requires heap.Valid() && heap.records == m && OpOk(op)
    modifies heap, heap.arrays
    ensures heap.Valid() && fresh(heap.arrays - old(heap.arrays))
    ensures heap.records == m' == Apply(m, op, rid) && (op.Insert? ==> rid !in m)
    ensures heap.chain + heap.freePages == old(heap.chain + heap.freePages)
    ensures op.Insert? ==>
              var start, free := old(Start(heap)), |old(heap.freePages)|;
              && (rid != INVALID_ROWID <==> CanStore(old(heap.chain), old(heap.shown), start, free, op.b))
              && |heap.chain| == |old(heap.chain)| + PagesTaken(old(heap.chain), old(heap.shown), start, free, op.b)
    ensures op.Insert? && |op.b| > SIZE_MAX_ROW ==> rid == INVALID_ROWID
    ensures !op.Insert? ==> heap.chain == old(heap.chain) && heap.insertPageId == old(heap.insertPageId)
    ensures !op.Insert? && m == map[] ==> heap.shown == old(heap.shown)
  {
    rid, m' := INVALID_ROWID, m;
    NoInvalidRecord(heap);
    match op
    case Insert(b) =>
      var ok, r, _ := heap.InsertTuple(b);
      if ok {
        NoInvalidRecord(heap);
        rid, m' := r, m[r := Stored(b, false)];
      }
    case MarkDelete(r) =>
      if r in m {
        RecordInPage(heap, r);
        var _, _ := heap.MarkDelete(r);
        m' := WithMark(m, r, true);
      }
    case ApplyDelete(r) =>
      if r in m {
        var _ := heap.ApplyDelete(r);
        m' := m - {r};
      }
    case RollbackDelete(r) =>
      if r in m {
        RecordInPage(heap, r);
        var _ := heap.RollbackDelete(r);
        m' := WithMark(m, r, false);
      }
  }

  lemma RecordInPage(heap: TableHeap, r: RowId)
    requires heap.Valid() && r in heap.records
    ensures r.pageId in heap.shown && 0 <= r.slot < |heap.shown[r.pageId].image.slots|
  {
    assert RecordKept(heap.shown, heap.records, r);
  }

  lemma NoInvalidRecord(heap: TableHeap)
    requires heap.Valid()
    ensures INVALID_ROWID !in heap.records
  {
    NoInvalidId(heap.chain, heap.shown);
    assert RecordKept(heap.shown, heap.records, INVALID_ROWID);
  }

  // ------------------------------------------------------------------ whether rows find room

  function Insertions(ops: seq<Op>): (n: nat)
    ensures n <= |ops|
  {
    if ops == [] then 0 else Insertions(ops[..|ops| - 1]) + if ops[|ops| - 1].Insert? then 1 else 0
  }

  predicate FitsPage(op: Op) {
    op.Insert? ==> |op.b| <= SIZE_MAX_ROW
  }

  predicate AllFit(ops: seq<Op>) {
    forall i :: 0 <= i < |ops| ==> FitsPage(ops[i])
  }

  /** What becomes of an insertion.  A row that is larger than an empty page is refused.  One that is not
      is stored, unless there is no page left; and in any case if so far, with n insertions before it, all
      rows fit and there are at least n pages to be had besides the first. */
  predicate StoredIfPossible(op: Op, id: RowId, fit: bool, n: nat, pages: nat, left: nat) {
    op.Insert? ==>
      && (|op.b| > SIZE_MAX_ROW ==> id == INVALID_ROWID)
      && (|op.b| <= SIZE_MAX_ROW && id == INVALID_ROWID ==> left == 0)
      && (fit && n <= pages ==> id != INVALID_ROWID)
  }

  predicate RowsStored(ops: seq<Op>, ids: seq<RowId>, pages: nat, left: nat)
    requires |ids| == |ops|
  {
    forall i {:trigger ops[i]} :: 0 <= i < |ops| ==>
      StoredIfPossible(ops[i], ids[i], AllFit(ops[..i + 1]), Insertions(ops[..i]), pages, left)
  }

  /** The ids ids and the map m are what the operations have led to.  Inside(0) opens this up. */
  ghost predicate Recorded(ops: seq<Op>, ids: seq<RowId>, m: map<RowId, Tuple>, pages: nat, left: nat) {
    forall i {:trigger Inside(i)} :: Inside(i) ==>
      |ids| == |ops| && m == ApplyAll(ops, ids) && NoneOverwritten(ops, ids) && RowsStored(ops, ids, pages, left)
  }

  lemma NothingRecorded(ops: seq<Op>, pages: nat)
    ensures Recorded(ops[..0], [], map[], pages, pages) && AllFit(ops[..0]) && Insertions(ops[..0]) == 0
  {
    assert ops[..0] == [];
  }

  lemma RecordedMore(ops: seq<Op>, ids: seq<RowId>, m: map<RowId, Tuple>, i: nat, id: RowId,
                     pages: nat, left: nat, left': nat)
    requires i < |ops| && Recorded(ops[..i], ids, m, pages, left) && left' <= left
    requires ops[i].Insert? ==> id !in m
    requires StoredIfPossible(ops[i], id, AllFit(ops[..i]) && FitsPage(ops[i]), Insertions(ops[..i]), pages, left')
    ensures Recorded(ops[..i + 1], ids + [id], Apply(m, ops[i], id), pages, left')
    ensures AllFit(ops[..i + 1]) <==> AllFit(ops[..i]) && FitsPage(ops[i])
    ensures Insertions(ops[..i + 1]) == Insertions(ops[..i]) + if ops[i].Insert? then 1 else 0
  {
    assert Inside(0);
    OneMore(ops, ids, i, id);
    OneMoreFit(ops, i);
    OneMoreStored(ops, ids, i, id, pages, left, left');
  }

  /** As many pages as insertions, at most; and before the first one the table is as it was made. */
  ghost predicate Economical(heap: TableHeap, n: nat)
    reads heap
  {
    && |heap.chain| <= 1 + n && (n > 0 ==> |heap.chain| <= n)
    && (n == 0 ==> heap.records == map[] && heap.chain == [heap.firstPageId] && heap.insertPageId == heap.firstPageId
                   && heap.shown == map[heap.firstPageId := EmptyPage(heap.firstPageId, INVALID_PAGE_ID)])
  }

  lemma EmptyPageHasRoom(first: PageId32, b: seq<byte>)
    requires first != INVALID_PAGE_ID && |b| <= SIZE_MAX_ROW
    ensures var s := map[first := EmptyPage(first, INVALID_PAGE_ID)];
            ChainOk([first], s) && SomeRoom([first], s, 0, |b|)
  {
    var s := map[first := EmptyPage(first, INVALID_PAGE_ID)];
    EmptyValid();
    assert PageValid(s, first) && LinkedAt([first], s, 0);
    assert FitsBeside(TuplesAt([first], s, 0), |b|);
  }

  /** The page ids there are for a table. */
  predicate Usable(first: PageId32, freePages: seq<PageId32>) {
    && first != INVALID_PAGE_ID && Distinct(freePages)
    && forall i :: 0 <= i < |freePages| ==> freePages[i] != INVALID_PAGE_ID && freePages[i] != first
  }

  /** A new table after any operations in any order, and its rows as a scan finds them. */
  method Run(first: PageId32, freePages: seq<PageId32>, ops: seq<Op>)
    returns (heap: TableHeap, ids: seq<RowId>, m: map<RowId, Tuple>, rids: seq<RowId>, rows: seq<seq<byte>>)
    requires Usable(first, freePages) && forall i :: 0 <= i < |ops| ==> OpOk(ops[i])
    ensures |ids| == |ops| && NoneOverwritten(ops, ids) && m == ApplyAll(ops, ids)
    ensures heap.chain + heap.freePages == [first] + freePages
    ensures RowsStored(ops, ids, |freePages|, |heap.freePages|)
    ensures heap.Valid() && heap.records == m
    ensures ListsLive(rids, rows, m) && Ordered(heap.chain, rids)
  {
    heap, ids, m := PerformAll(first, freePages, ops);
    assert Inside(0);
    rids, rows := Scan(heap);
  }

  method PerformAll(first: PageId32, freePages: seq<PageId32>, ops: seq<Op>)
    returns (heap: TableHeap, ids: seq<RowId>, m: map<RowId, Tuple>)
    requires Usable(first, freePages) && forall i :: 0 <= i < |ops| ==> OpOk(ops[i])
    ensures heap.Valid() && heap.records == m && heap.chain + heap.freePages == [first] + freePages
    ensures Recorded(ops, ids, m, |freePages|, |heap.freePages|)
  {
    heap := new TableHeap(first, freePages);
    m, ids := map[], [];
    assert |heap.chain + heap.freePages| == |[first] + freePages|;
    NothingRecorded(ops, |freePages|);
    for i := 0 to |ops|
      invariant heap.Valid() && fresh(heap) && fresh(heap.arrays) && m == heap.records
      invariant heap.chain + heap.freePages == [first] + freePages
      invariant |heap.chain| + |heap.freePages| == 1 + |freePages|
      invariant AllFit(ops[..i]) ==> Economical(heap, Insertions(ops[..i]))
      invariant Recorded(ops[..i], ids, m, |freePages|, |heap.freePages|)
    {
      ghost var m0, left := m, |heap.freePages|;
      var id;
      id, m := PerformNext(heap, ops[i], m, AllFit(ops[..i]), Insertions(ops[..i]), |freePages|);
      assert |heap.chain + heap.freePages| == |[first] + freePages|;
      RecordedMore(ops, ids, m0, i, id, |freePages|, left, |heap.freePages|);
      ids := ids + [id];
    }
    assert ops[..|ops|] == ops;
  }

  /** One operation, and whether its row finds room. */
  method PerformNext(heap: TableHeap, op: Op, m: map<RowId, Tuple>, ghost fit: bool, ghost n: nat, ghost pages: nat)
    returns (id: RowId, m': map<RowId, Tuple>)
    requires heap.Valid() && heap.records == m && OpOk(op)
    requires |heap.chain| + |heap.freePages| == 1 + pages && (fit ==> Economical(heap, n))
    modifies heap, heap.arrays
    ensures heap.Valid() && fresh(heap.arrays - old(heap.arrays))
    ensures heap.records == m' == Apply(m, op, id) && (op.Insert? ==> id !in m)
    ensures heap.chain + heap.freePages == old(heap.chain + heap.freePages)
    ensures |heap.freePages| <= |old(heap.freePages)|
    ensures StoredIfPossible(op, id, fit && FitsPage(op), n, pages, |heap.freePages|)
    ensures fit && FitsPage(op) ==> Economical(heap, n + if op.Insert? then 1 else 0)
  {
    if op.Insert? && fit && n == 0 && |op.b| <= SIZE_MAX_ROW {
      assert LinkedAt(heap.chain, heap.shown, 0);
      EmptyPageHasRoom(heap.firstPageId, op.b);
    }
    id, m' := Perform(heap, op, m);
    assert |heap.chain + heap.freePages| == |old(heap.chain + heap.freePages)|;
  }

  lemma OneMoreFit(ops: seq<Op>, i: nat)
    requires i < |ops|
    ensures AllFit(ops[..i + 1]) <==> AllFit(ops[..i]) && FitsPage(ops[i])
    ensures Insertions(ops[..i + 1]) == Insertions(ops[..i]) + if ops[i].Insert? then 1 else 0
  {
    assert ops[..i + 1][..i] == ops[..i];
    assert forall j :: 0 <= j < i ==> ops[..i + 1][j] == ops[..i][j];
  }

  lemma OneMoreStored(ops: seq<Op>, ids: seq<RowId>, i: nat, id: RowId, pages: nat, left: nat, left': nat)
    requires i < |ops| && |ids| == i && RowsStored(ops[..i], ids, pages, left) && left' <= left
    requires StoredIfPossible(ops[i], id, AllFit(ops[..i + 1]), Insertions(ops[..i]), pages, left')
    ensures RowsStored(ops[..i + 1], ids + [id], pages, left')
  {
    var before := ops[..i];
    forall j | 0 <= j < i + 1
      ensures StoredIfPossible(ops[..i + 1][j], (ids + [id])[j], AllFit(ops[..i + 1][..j + 1]),
                               Insertions(ops[..i + 1][..j]), pages, left')
    {
      assert ops[..i + 1][..j] == ops[..j] && ops[..i + 1][..j + 1] == ops[..j + 1];
      if j < i {
        assert before[..j] == ops[..j] && before[..j + 1] == ops[..j + 1] && before[j] == ops[j];
      }
    }
  }

  lemma OneMore(ops: seq<Op>, ids: seq<RowId>, i: nat, id: RowId)
    requires i < |ops| && |ids| == i && NoneOverwritten(ops[..i], ids)
    requires ops[i].Insert? ==> id !in ApplyAll(ops[..i], ids)
    ensures ApplyAll(ops[..i + 1], ids + [id]) == Apply(ApplyAll(ops[..i], ids), ops[i], id)
    ensures NoneOverwritten(ops[..i + 1], ids + [id])
  {
    var ops', ids' := ops[..i + 1], ids + [id];
    assert ops'[..i] == ops[..i] && ids'[..i] == ids;
    forall j | 0 <= j <= i && ops'[j].Insert?
      ensures ids'[j] !in ApplyAll(ops'[..j], ids'[..j])
    {
      if j < i {
        assert ops'[..j] == ops[..i][..j] && ids'[..j] == ids[..j] && ops[..i][j].Insert?;
      }
    }
  }
}
