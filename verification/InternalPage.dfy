/** The operations of an internal page.  Pages that change hands are adopted: their stored parent id
    becomes that of the page they went to, wherever in the page table they are. */
module InternalPage {
  import opened Common
  import opened TreeStore
  import opened BPlusTreePages
  import TreeInsert
  import TreeRemove

  type PageTable = map<PageId, BPlusTreePage>

  /** Every page in the table is one of those listed and is filed under its own id. */
  ghost predicate Filed(pages: PageTable, listed: set<BPlusTreePage>)
    reads listed
  {
    forall c {:trigger pages[c]} :: c in pages ==> pages[c] in listed && pages[c].pageId == c
  }

  ghost predicate AllFiled(es: seq<Entry>, pages: PageTable) {
    forall i :: 0 <= i < |es| ==> es[i].value in pages
  }

  /** The pages named in es, and no others, were given the parent q. */
  twostate predicate Adopted(pages: PageTable, listed: set<BPlusTreePage>, es: seq<Entry>, q: PageId)
    reads listed
  {
    forall c {:trigger pages[c]} :: c in pages ==>
      pages[c] in listed && pages[c].parentPageId == if Names(es, c) then q else old(pages[c].parentPageId)
  }

  /** The first position of a child, or -1. */
  method GetValueIndex(page: BPlusTreePage, value: PageId) returns (index: int)
    requires page.Valid()
    ensures index == ValueIndex(page.View(), value)
  {
    for i := 0 to page.size
      invariant forall j :: 0 <= j < i ==> page.View().entries[j].value != value
    {
      if page.entries[i].value == value {
        assert page.View().entries[i].value == value;
        return i;
      }
    }
    index := -1;
  }

  /** K(i) <= key < K(i+1), the first key counting as minus infinity and the last one followed by
      plus infinity. */
  predicate LeadsTo(es: seq<Entry>, key: int, i: int, value: PageId) {
    && 0 <= i < |es| && es[i].value == value
    && (i > 0 ==> es[i].key <= key)
    && (i + 1 < |es| ==> key < es[i + 1].key)
  }

  /** Binary search for the child in charge of a key. */
  method Lookup(page: BPlusTreePage, key: int) returns (value: PageId)
    requires page.Valid() && page.size > 0 && SortedFrom(page.View().entries, 1)
    ensures exists i :: LeadsTo(page.View().entries, key, i, value)
  {
    ghost var es := page.View().entries;
    var i, j := 1, page.size - 1;
    while i <= j
      invariant 1 <= i <= j + 1 <= page.size
      invariant forall h :: 1 <= h < i ==> es[h].key <= key
      invariant forall h :: j < h < page.size ==> key < es[h].key
    {
      var mid := (i + j) / 2;
      if page.entries[mid].key <= key {
        assert forall h :: 1 <= h < mid ==> es[h].key < es[mid].key;
        i := mid + 1;
      } else {
        assert forall h :: mid < h < page.size ==> es[mid].key < es[h].key;
        j := mid - 1;
      }
    }
    value := page.entries[i - 1].value;
    assert LeadsTo(es, key, i - 1, value);
  }

  /** Two children in a page that had none; the key of entry 0 stays as it was. */
  method PopulateNewRoot(page: BPlusTreePage, oldValue: PageId, newKey: int, newValue: PageId)
    returns (ghost junk: int)
    requires page.Valid() && page.size == 0 && page.entries.Length >= 2
    modifies page`size, page.entries
    ensures page.Valid()
    ensures page.View() == old(page.View()).(entries := [Entry(junk, oldValue), Entry(newKey, newValue)])
  {
    junk := page.entries[0].key;
    page.entries[0] := page.entries[0].(value := oldValue);
    page.entries[1] := Entry(newKey, newValue);
    page.size := page.size + 2;
    assert page.entries[..page.size] == [Entry(junk, oldValue), Entry(newKey, newValue)];
  }

  /** The pair (newKey, newValue) right after the entry for oldValue. */
  method InsertNodeAfter(page: BPlusTreePage, oldValue: PageId, newKey: int, newValue: PageId) returns (size: int)
    requires page.Valid() && page.size < page.entries.Length
    modifies page`size, page.entries
    ensures page.Valid() && size == page.size
    ensures TreeInsert.LinkedInto(old(page.View()), oldValue, newKey, newValue, page.View())
  {
    var index := GetValueIndex(page, oldValue);
    InsertAt(page, index + 1, Entry(newKey, newValue));
    size := page.size;
  }

  /** Appends n entries of another array and adopts the pages they name, one by one. */
  method CopyNFrom(page: BPlusTreePage, items: array<Entry>, first: nat, n: nat, pages: PageTable,
                   ghost listed: set<BPlusTreePage>)
    requires page.Valid() && items != page.entries && first + n <= items.Length
    requires page.size + n <= page.entries.Length
    requires Filed(pages, listed) && AllFiled(items[first..first + n], pages)
    modifies page`size, page.entries, listed`parentPageId
    ensures page.Valid()
    ensures page.View().entries == old(page.View().entries) + items[first..first + n]
    ensures Adopted(pages, listed, items[first..first + n], page.pageId)
  {
    var size := page.size;
    for i := 0 to n
      modifies page.entries, listed`parentPageId
      invariant page.entries[..size + i] == old(page.entries[..size]) + items[first..first + i]
      invariant Adopted(pages, listed, items[first..first + i], page.pageId)
    {
      page.entries[size + i] := items[first + i];
      assert items[first..first + n][i] == items[first + i];
      Adopt(page, items[first + i].value, pages, listed);
      NamesOneMore(items[first..first + i], items[first + i]);
      assert items[first..first + i + 1] == items[first..first + i] + [items[first + i]];
    }
    page.size := size + n;
  }

  lemma NamesOneMore(es: seq<Entry>, e: Entry)
    ensures forall c :: Names(es + [e], c) <==> Names(es, c) || e.value == c
  {
    forall c
      ensures Names(es + [e], c) <==> Names(es, c) || e.value == c
    {
      if Names(es, c) {
        var i :| 0 <= i < |es| && es[i].value == c;
        assert (es + [e])[i].value == c;
      }
      assert (es + [e])[|es|] == e;
    }
  }

  /** The page c is now a child of page. */
  method Adopt(page: BPlusTreePage, c: PageId, pages: PageTable, ghost listed: set<BPlusTreePage>)
    requires c in pages && Filed(pages, listed)
    modifies listed`parentPageId
    ensures forall d {:trigger pages[d]} :: d in pages ==>
              pages[d].parentPageId == if d == c then page.pageId else old(pages[d].parentPageId)
  {
    var child := pages[c];
    child.SetParentPageId(page.pageId);
  }

  lemma RestFiled(es: seq<Entry>, n: nat, pages: PageTable)
    requires n <= |es| && AllFiled(es, pages)
    ensures AllFiled(es[n..], pages)
  {
  }

  /** The entries from the minimum size on go to the empty page recipient; the first of them keeps
      the key that goes up to the parent. */
  method MoveHalfTo(page: BPlusTreePage, recipient: BPlusTreePage, pages: PageTable, ghost listed: set<BPlusTreePage>)
    requires page.Valid() && recipient.Valid() && page != recipient && page.entries != recipient.entries
    requires page.maxSize == recipient.maxSize && recipient.size == 0 && page.maxSize / 2 <= page.size
    requires Filed(pages, listed) && AllFiled(page.View().entries, pages)
    modifies page`size, recipient`size, recipient.entries, listed`parentPageId
    ensures page.Valid() && recipient.Valid()
    ensures var es := old(page.View().entries);
            && page.View().entries == es[..page.maxSize / 2]
            && recipient.View().entries == es[page.maxSize / 2..]
            && Adopted(pages, listed, es[page.maxSize / 2..], recipient.pageId)
  {
    var min := page.GetMinSize();
    var size := page.size - min;
    assert page.entries[min..min + size] == page.View().entries[min..];
    RestFiled(page.View().entries, min, pages);
    CopyNFrom(recipient, page.entries, min, size, pages, listed);
    page.size := page.size - size;
  }

  /** All entries, the first one with the separator as its key, go to the end of recipient. */
  method MoveAllTo(page: BPlusTreePage, recipient: BPlusTreePage, middleKey: int, pages: PageTable,
                   ghost listed: set<BPlusTreePage>)
    requires page.Valid() && recipient.Valid() && page != recipient && page.entries != recipient.entries
    requires 0 < page.size && recipient.size + page.size <= recipient.entries.Length
    requires Filed(pages, listed) && AllFiled(page.View().entries, pages)
    modifies page`size, page.entries, recipient`size, recipient.entries, listed`parentPageId
    ensures page.Valid() && recipient.Valid()
    ensures var es := old(page.View().entries); var moved := es[0 := Entry(middleKey, es[0].value)];
            && page.View().entries == []
            && recipient.View().entries == old(recipient.View().entries) + moved
            && Adopted(pages, listed, moved, recipient.pageId)
  {
    ghost var es := page.View().entries;
    ghost var moved := es[0 := Entry(middleKey, es[0].value)];
    page.entries[0] := page.entries[0].(key := middleKey);
    assert page.entries[0..0 + page.size] == moved;
    assert forall i :: 0 <= i < |moved| ==> moved[i].value == es[i].value;
    CopyNFrom(recipient, page.entries, 0, page.size, pages, listed);
    page.size := 0;
  }

  /** The first child goes, with the separator as its key, to the end of recipient. */
  method MoveFirstToEndOf(page: BPlusTreePage, recipient: BPlusTreePage, middleKey: int, pages: PageTable,
                          ghost listed: set<BPlusTreePage>)
    requires page.Valid() && recipient.Valid() && page != recipient && page.entries != recipient.entries
    requires 0 < page.size && recipient.size < recipient.entries.Length
    requires Filed(pages, listed) && AllFiled(page.View().entries, pages)
    modifies page`size, page.entries, recipient`size, recipient.entries, listed`parentPageId
    ensures page.Valid() && recipient.Valid()
    ensures var es := old(page.View().entries);
            && page.View().entries == es[1..]
            && recipient.View().entries == old(recipient.View().entries) + [Entry(middleKey, es[0].value)]
            && (forall d {:trigger pages[d]} :: d in pages ==>
                  pages[d].parentPageId == if d == es[0].value then recipient.pageId else old(pages[d].parentPageId))
  {
    ghost var es := page.View().entries;
    assert es[0].value in pages;
    page.entries[0] := page.entries[0].(key := middleKey);
    CopyLastFrom(recipient, page.entries[0]);
    Adopt(recipient, page.entries[0].value, pages, listed);
    assert page.View().entries[1..] == es[1..];
    RemoveAt(page, 0);
  }

  /** The last child goes to the front of recipient, where the separator becomes the key of the
      child that used to be first. */
  method MoveLastToFrontOf(page: BPlusTreePage, recipient: BPlusTreePage, middleKey: int, pages: PageTable,
                           ghost listed: set<BPlusTreePage>)
    requires page.Valid() && recipient.Valid() && page != recipient && page.entries != recipient.entries
    requires 0 < page.size && 0 < recipient.size < recipient.entries.Length
    requires Filed(pages, listed) && AllFiled(page.View().entries, pages)
    modifies page`size, recipient`size, recipient.entries, listed`parentPageId
    ensures page.Valid() && recipient.Valid()
    ensures var es := old(page.View().entries); var last := es[|es| - 1]; var rs := old(recipient.View().entries);
            && page.View().entries == es[..|es| - 1]
            && recipient.View().entries == [last] + rs[0 := Entry(middleKey, rs[0].value)]
            && (forall d {:trigger pages[d]} :: d in pages ==>
                  pages[d].parentPageId == if d == last.value then recipient.pageId else old(pages[d].parentPageId))
  {
    ghost var es := page.View().entries;
    ghost var rs := recipient.View().entries;
    var last := page.entries[page.size - 1];
    assert es[|es| - 1] == last;
    InsertAt(recipient, 0, last);
    Adopt(recipient, last.value, pages, listed);
    assert recipient.View().entries == [last] + rs;
    assert recipient.entries[1] == recipient.View().entries[1] == rs[0];
    recipient.entries[1] := recipient.entries[1].(key := middleKey);
    page.size := page.size - 1;
    assert recipient.View().entries == [last] + rs[0 := Entry(middleKey, rs[0].value)];
  }

  /** Takes out the entry at position index. */
  method Remove(page: BPlusTreePage, index: int)
    requires page.Valid() && 0 <= index < page.size
    modifies page`size, page.entries
    ensures page.Valid()
    ensures page.View() == old(page.View()).(entries := TreeRemove.RemovedAt(old(page.View().entries), index))
  {
    RemoveAt(page, index);
  }

  /** Gives up the last child. */
  method RemoveAndReturnOnlyChild(page: BPlusTreePage) returns (child: PageId)
    requires page.Valid() && page.size == 1
    modifies page`size
    ensures page.Valid() && child == old(page.View().entries)[0].value
    ensures page.View() == old(page.View()).(entries := [])
  {
    page.size := page.size - 1;
    child := page.entries[0].value;
  }

  /** Replaces the key at position index. */
  method SetKeyAt(page: BPlusTreePage, index: int, key: int)
    requires page.Valid() && 0 <= index < page.size
    modifies page.entries
    ensures page.Valid()
    ensures page.View() == old(page.View()).(entries :=
              old(page.View().entries)[index := Entry(key, old(page.View().entries)[index].value)])
  {
    ghost var es := page.View().entries;
    page.entries[index] := page.entries[index].(key := key);
    assert page.View().entries == es[index := Entry(key, es[index].value)];
  }

  /** A new page q takes the upper half of an overfull internal page. */
  method SplitOff(page: BPlusTreePage, q: PageId, pages: PageTable, ghost listed: set<BPlusTreePage>)
    returns (newInternal: BPlusTreePage)
    requires page.Valid() && !page.isLeaf && page.maxSize / 2 <= page.size
    requires Filed(pages, listed) && AllFiled(page.View().entries, pages)
    requires !Names(page.View().entries, page.pageId)
    modifies page`size, listed`parentPageId
    ensures page.Valid() && newInternal.Valid() && fresh(newInternal) && fresh(newInternal.entries)
    ensures newInternal.pageId == q && newInternal.maxSize == page.maxSize
    ensures var es := old(page.View().entries); var m := page.maxSize / 2;
            && page.View().entries == es[..m]
            && newInternal.View() == Node(false, INVALID_PAGE_ID, INVALID_PAGE_ID, es[m..])
            && Adopted(pages, listed, es[m..], q)
  {
    newInternal := new BPlusTreePage.InitInternal(q, page.maxSize);
    MoveHalfTo(page, newInternal, pages, listed);
  }
}
