/** The header and the entry array that leaf and internal pages share, as one object; a page of
    either kind is the same block of memory. */
module BPlusTreePages {
  import opened Common
  import opened TreeStore

  class BPlusTreePage {
    var isLeaf: bool
    var size: int
    var maxSize: int
    var parentPageId: PageId
    var pageId: PageId
    var nextPageId: PageId
    /** One entry more than maxSize: the spare one lets a page overflow before it is split. */
    const entries: array<Entry>

    ghost predicate Valid()
      reads this
    {
      0 <= size <= entries.Length && entries.Length == maxSize + 1 && maxSize >= 0
    }

    /** What the page holds, as a value. */
    ghost function View(): (n: Node)
      reads this, entries
    {
      Node(isLeaf, parentPageId, if isLeaf then nextPageId else INVALID_PAGE_ID,
           entries[..if 0 <= size <= entries.Length then size else 0])
    }

    /** A zeroed page, then Init of a leaf page. */
    constructor InitLeaf(pageId: PageId, maxSize: nat)
      ensures Valid() && this.pageId == pageId && this.maxSize == maxSize && fresh(entries)
      ensures View() == Node(true, INVALID_PAGE_ID, INVALID_PAGE_ID, [])
    {
      isLeaf, size, this.maxSize := true, 0, maxSize;
      this.pageId, parentPageId, nextPageId := pageId, INVALID_PAGE_ID, INVALID_PAGE_ID;
      entries := new Entry[maxSize + 1](_ => Entry(0, 0));
    }

    /** A zeroed page, then Init of an internal page, which has no next-page id. */
    constructor InitInternal(pageId: PageId, maxSize: nat)
      ensures Valid() && this.pageId == pageId && this.maxSize == maxSize && fresh(entries)
      ensures View() == Node(false, INVALID_PAGE_ID, INVALID_PAGE_ID, [])
    {
      isLeaf, size, this.maxSize := false, 0, maxSize;
      this.pageId, parentPageId, nextPageId := pageId, INVALID_PAGE_ID, 0;
      entries := new Entry[maxSize + 1](_ => Entry(0, 0));
    }

    method SetParentPageId(parentPageId: PageId)
      modifies `parentPageId
      ensures this.parentPageId == parentPageId && View() == old(View()).(parent := parentPageId)
    {
      this.parentPageId := parentPageId;
    }

    method GetMinSize() returns (n: int)
      ensures n == maxSize / 2
    {
      n := maxSize / 2;
    }
  }

  /** Appends n entries of another page's array, from position first on. */
  method CopyNFrom(page: BPlusTreePage, items: array<Entry>, first: nat, n: nat)
    requires page.Valid() && items != page.entries && first + n <= items.Length
    requires page.size + n <= page.entries.Length
    modifies page`size, page.entries
    ensures page.Valid()
    ensures page.View() == old(page.View()).(entries := old(page.View().entries) + items[first..first + n])
  {
    var size := page.size;
    for i := 0 to n
      modifies page.entries
      invariant page.entries[..size + i] == old(page.entries[..size]) + items[first..first + i]
    {
      page.entries[size + i] := items[first + i];
    }
    page.size := size + n;
  }

  /** Appends one entry. */
  method CopyLastFrom(page: BPlusTreePage, item: Entry)
    requires page.Valid() && page.size < page.entries.Length
    modifies page`size, page.entries
    ensures page.Valid()
    ensures page.View() == old(page.View()).(entries := old(page.View().entries) + [item])
  {
    page.entries[page.size] := item;
    page.size := page.size + 1;
  }

  /** One entry at index, the ones from there on one place up. */
  lemma InsertedShape(a: seq<Entry>, b: seq<Entry>, index: nat, item: Entry)
    requires index <= |a| && |b| == |a| + 1 && b[index] == item
    requires forall j :: 0 <= j < index ==> b[j] == a[j]
    requires forall j :: index < j <= |a| ==> b[j] == a[j - 1]
    ensures b == a[..index] + [item] + a[index..]
  {
  }

  /** Moves the entries from position index on one place up and puts item at index. */
  method InsertAt(page: BPlusTreePage, index: nat, item: Entry)
    requires page.Valid() && index <= page.size < page.entries.Length
    modifies page`size, page.entries
    ensures page.Valid()
    ensures page.View() == old(page.View()).(entries :=
              old(page.View().entries)[..index] + [item] + old(page.View().entries)[index..])
  {
    var i := page.size;
    while i > index
      modifies page.entries
      invariant index <= i <= page.size
      invariant forall j :: 0 <= j < i ==> page.entries[j] == old(page.entries[j])
      invariant forall j :: i < j <= page.size ==> page.entries[j] == old(page.entries[j - 1])
    {
      page.entries[i] := page.entries[i - 1];
      i := i - 1;
    }
    page.entries[index] := item;
    page.size := page.size + 1;
    InsertedShape(old(page.View().entries), page.View().entries, index, item);
  }

  /** Moves the entries after position index one place down. */
  method RemoveAt(page: BPlusTreePage, index: nat)
    requires page.Valid() && index < page.size
    modifies page`size, page.entries
    ensures page.Valid()
    ensures page.View() == old(page.View()).(entries :=
              old(page.View().entries)[..index] + old(page.View().entries)[index + 1..])
  {
    for i := index to page.size - 1
      modifies page.entries
      invariant forall j :: 0 <= j < index ==> page.entries[j] == old(page.entries[j])
      invariant forall j :: index <= j < i ==> page.entries[j] == old(page.entries[j + 1])
      invariant forall j :: i <= j < page.size ==> page.entries[j] == old(page.entries[j])
    {
      page.entries[i] := page.entries[i + 1];
    }
    page.size := page.size - 1;
    assert page.entries[..page.size] ==
           old(page.entries[..page.size])[..index] + old(page.entries[..page.size])[index + 1..];
  }
}
