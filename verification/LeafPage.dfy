/** The operations of a leaf page. */
module LeafPage {
  import opened Common
  import opened TreeStore
  import opened BPlusTreePages
  import TreeInsert
  import TreeRemove

  /** Binary search for the first entry whose key is not below the given one. */
  method KeyIndex(page: BPlusTreePage, key: int) returns (i: int)
    requires page.Valid() && SortedFrom(page.View().entries, 0)
    ensures i == TreeInsert.LowerBound(page.View().entries, key)
  {
    ghost var es := page.View().entries;
    i := 0;
    var j := page.size - 1;
    while i <= j
      invariant 0 <= i <= j + 1 <= page.size
      invariant forall h :: 0 <= h < i ==> es[h].key < key
      invariant forall h :: j < h < page.size ==> es[h].key >= key
    {
      var mid := (i + j) / 2;
      if page.entries[mid].key < key {
        assert forall h :: 0 <= h < mid ==> es[h].key < es[mid].key;
        i := mid + 1;
      } else {
        assert forall h :: mid < h < page.size ==> es[mid].key < es[h].key;
        j := mid - 1;
      }
    }
    TreeInsert.LowerBoundIs(es, key, i);
  }

  /** Binary search for a key. */
  method Lookup(page: BPlusTreePage, key: int) returns (found: bool, value: int)
    requires page.Valid() && SortedFrom(page.View().entries, 0)
    ensures found <==> HasKey(page.View(), key)
    ensures found ==> Entry(key, value) in page.View().entries
  {
    ghost var es := page.View().entries;
    found, value := false, 0;
    var i, j := 0, page.size - 1;
    while i <= j
      invariant 0 <= i <= j + 1 <= page.size
      invariant forall h :: 0 <= h < i ==> es[h].key < key
      invariant forall h :: j < h < page.size ==> es[h].key > key
    {
      var mid := (i + j) / 2;
      if page.entries[mid].key < key {
        assert forall h :: 0 <= h < mid ==> es[h].key < es[mid].key;
        i := mid + 1;
      } else if page.entries[mid].key > key {
        assert forall h :: mid < h < page.size ==> es[mid].key < es[h].key;
        j := mid - 1;
      } else {
        assert es[mid] == Entry(key, page.entries[mid].value);
        return true, page.entries[mid].value;
      }
    }
  }

  /** Puts an absent key in its place; a key that is there already stops the insertion. */
  method Insert(page: BPlusTreePage, key: int, value: int) returns (size: int)
    requires page.Valid() && SortedFrom(page.View().entries, 0) && page.size < page.entries.Length
    modifies page`size, page.entries
    ensures page.Valid() && size == page.size
    ensures page.View() == if old(HasKey(page.View(), key)) then old(page.View())
                           else TreeInsert.LeafInserted(old(page.View()), key, value)
  {
    var found, _ := Lookup(page, key);
    if found {
      return page.size;
    }
    var index := KeyIndex(page, key);
    InsertAt(page, index, Entry(key, value));
    size := page.size;
  }

  /** Takes out a key; a key that is not there changes nothing. */
  method RemoveAndDeleteRecord(page: BPlusTreePage, key: int) returns (size: int)
    requires page.Valid() && SortedFrom(page.View().entries, 0)
    modifies page`size, page.entries
    ensures page.Valid() && size == page.size
    ensures page.View() == if old(HasKey(page.View(), key)) then TreeRemove.LeafRemoved(old(page.View()), key)
                           else old(page.View())
  {
    var found, _ := Lookup(page, key);
    if !found {
      return page.size;
    }
    var index := KeyIndex(page, key);
    assert index == TreeRemove.KeyPosition(page.View(), key);
    RemoveAt(page, index);
    size := page.size;
  }

  /** The entries from the minimum size on go to the empty page recipient. */
  method MoveHalfTo(page: BPlusTreePage, recipient: BPlusTreePage)
    requires page.Valid() && recipient.Valid() && page != recipient && page.entries != recipient.entries
    requires page.maxSize == recipient.maxSize && recipient.size == 0 && page.maxSize / 2 <= page.size
    modifies page`size, recipient`size, recipient.entries
    ensures page.Valid() && recipient.Valid()
    ensures var es := old(page.View().entries);
            && page.View() == old(page.View()).(entries := es[..page.maxSize / 2])
            && recipient.View() == old(recipient.View()).(entries := es[page.maxSize / 2..])
  {
    var min := page.GetMinSize();
    var size := page.size - min;
    CopyNFrom(recipient, page.entries, min, size);
    assert page.entries[min..min + size] == old(page.View().entries)[min..];
    page.size := page.size - size;
  }

  /** All entries go to the end of recipient, which also takes over the link to the next leaf. */
  method MoveAllTo(page: BPlusTreePage, recipient: BPlusTreePage)
    requires page.Valid() && recipient.Valid() && page != recipient && page.entries != recipient.entries
    requires recipient.size + page.size <= recipient.entries.Length
    requires page.isLeaf && recipient.isLeaf
    modifies page`size, recipient`size, recipient`nextPageId, recipient.entries
    ensures page.Valid() && recipient.Valid()
    ensures page.View() == old(page.View()).(entries := [])
    ensures recipient.View() ==
            old(recipient.View()).(entries := old(recipient.View().entries) + old(page.View().entries),
                                                       next := old(page.View().next))
  {
    CopyNFrom(recipient, page.entries, 0, page.size);
    page.size := 0;
    recipient.nextPageId := page.nextPageId;
  }

  /** The first entry goes to the end of recipient. */
  method MoveFirstToEndOf(page: BPlusTreePage, recipient: BPlusTreePage)
    requires page.Valid() && recipient.Valid() && page != recipient && page.entries != recipient.entries
    requires page.size > 0 && recipient.size < recipient.entries.Length
    modifies page`size, page.entries, recipient`size, recipient.entries
    ensures page.Valid() && recipient.Valid()
    ensures var es := old(page.View().entries);
            && page.View() == old(page.View()).(entries := es[1..])
            && recipient.View() == old(recipient.View()).(entries := old(recipient.View().entries) + [es[0]])
  {
    CopyLastFrom(recipient, page.entries[0]);
    RemoveAt(page, 0);
  }

  /** The last entry goes to the front of recipient. */
  method MoveLastToFrontOf(page: BPlusTreePage, recipient: BPlusTreePage)
    requires page.Valid() && recipient.Valid() && page != recipient && page.entries != recipient.entries
    requires page.size > 0 && recipient.size < recipient.entries.Length
    modifies page`size, recipient`size, recipient.entries
    ensures page.Valid() && recipient.Valid()
    ensures var es := old(page.View().entries);
            && page.View() == old(page.View()).(entries := es[..|es| - 1])
            && recipient.View() == old(recipient.View()).(entries := [es[|es| - 1]] + old(recipient.View().entries))
  {
    InsertAt(recipient, 0, page.entries[page.size - 1]);
    page.size := page.size - 1;
  }

  /** A new page q takes the upper half of an overfull leaf and its place in front of the next one. */
  method SplitOff(page: BPlusTreePage, q: PageId) returns (newLeaf: BPlusTreePage)
    requires page.Valid() && page.isLeaf && page.maxSize / 2 <= page.size
    modifies page`size, page`nextPageId
    ensures page.Valid() && newLeaf.Valid() && fresh(newLeaf) && fresh(newLeaf.entries)
    ensures newLeaf.pageId == q && newLeaf.maxSize == page.maxSize
    ensures var n := old(page.View()); var m := page.maxSize / 2;
            && page.View() == n.(entries := n.entries[..m], next := q)
            && newLeaf.View() == Node(true, INVALID_PAGE_ID, n.next, n.entries[m..])
  {
    newLeaf := new BPlusTreePage.InitLeaf(q, page.maxSize);
    MoveHalfTo(page, newLeaf);
    newLeaf.nextPageId := page.nextPageId;
    page.nextPageId := q;
  }
}
