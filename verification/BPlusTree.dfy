/** The B+ tree: a root page id and the pages it owns in the buffer pool. */
module BPlusTrees {
  import opened Common
  import opened TreeStore
  import opened BPlusTreePages
  import InternalPage
  import LeafPage
  import TreeGrowth
  import TreeInsert
  import TreeReading
  import opened TreeRepair
  import TreeRemove

  /** The table and the values s agree on whether there is a page p. */
  ghost predicate Agree(p: PageId, pages: map<PageId, BPlusTreePage>, s: Store) {
    p in pages <==> p in s
  }

  ghost predicate Tracks(pages: map<PageId, BPlusTreePage>, s: Store) {
    forall p {:trigger Agree(p, pages, s)} :: Agree(p, pages, s)
  }

  lemma TracksUpdate(pages: map<PageId, BPlusTreePage>, s: Store, p: PageId, n: Node)
    requires Tracks(pages, s) && p in pages
    ensures p in s && Tracks(pages, s[p := n])
  {
    assert Agree(p, pages, s);
    var s' := s[p := n];
    forall c
      ensures Agree(c, pages, s')
    {
      assert Agree(c, pages, s);
    }
  }

  lemma TracksAdd(pages: map<PageId, BPlusTreePage>, s: Store, q: PageId, page: BPlusTreePage, n: Node)
    requires Tracks(pages, s)
    ensures Tracks(pages[q := page], s[q := n])
  {
    var s', pages' := s[q := n], pages[q := page];
    forall c
      ensures Agree(c, pages', s')
    {
      assert Agree(c, pages, s);
    }
  }

  lemma TracksSameKeys(pages: map<PageId, BPlusTreePage>, s: Store, t: Store)
    requires Tracks(pages, s) && s.Keys == t.Keys
    ensures Tracks(pages, t)
  {
    forall c
      ensures Agree(c, pages, t)
    {
      assert Agree(c, pages, s);
      assert c in s.Keys <==> c in t.Keys;
    }
  }

  lemma TracksDrop(pages: map<PageId, BPlusTreePage>, s: Store, p: PageId)
    requires Tracks(pages, s)
    ensures Tracks(pages - {p}, s - {p})
  {
    forall c
      ensures Agree(c, pages - {p}, s - {p})
    {
      assert Agree(c, pages, s);
    }
  }

  class BPlusTree {
    var rootPageId: PageId
    /** Where FetchPage finds the pages of this tree. */
    var pages: map<PageId, BPlusTreePage>
    const leafMaxSize: int
    const internalMaxSize: int

    /** The pages as values. */
    ghost var store: Store
    /** Level and key range of every live page. */
    ghost var info: map<PageId, Info>
    /** What the tree is for: a map from keys to values. */
    ghost var contents: map<int, int>
    /** The objects the tree is made of, besides itself. */
    ghost var listed: set<BPlusTreePage>
    ghost var arrays: set<array<Entry>>

    ghost function Lim(): Limits {
      Limits(leafMaxSize, internalMaxSize)
    }

    ghost predicate PageOk(p: PageId)
      requires p in pages && pages[p] in listed
      reads `pages, `listed, `arrays, listed
    {
      && p != INVALID_PAGE_ID
      && pages[p].entries in arrays
      && pages[p].pageId == p && pages[p].Valid()
      && pages[p].maxSize == Lim().MaxSize(pages[p].isLeaf)
    }

    /** Every page is filed under its own id and has its own array. */
    ghost predicate Sound()
      reads `pages, `listed, `arrays, listed
    {
      && (forall p {:trigger pages[p]} :: p in pages ==> pages[p] in listed && PageOk(p))
      && (forall p, q :: p in pages && q in pages && p != q ==> pages[p].entries != pages[q].entries)
    }

    /** The pages in the table show t. */
    ghost predicate AllShow(t: Store)
      reads `pages, `listed, `arrays, listed, arrays
    {
      && Sound()
      && forall c {:trigger pages[c]} :: c in pages ==> c in t && t[c] == pages[c].View()
    }

    /** The pages and the values agree.  Each(0) opens this up where single pages matter. */
    ghost predicate Mirrored()
      reads `pages, `store, `listed, `arrays, listed, arrays
    {
      && Tracks(pages, store)
      && forall i {:trigger Each(i)} :: Each(i) ==> AllShow(store)
    }

    /** A tree in which only page x may have one entry too many or too few. */
    ghost predicate Busy(x: PageId)
      reads this, listed, arrays
    {
      && Mirrored()
      && TreeExcept(store, info, rootPageId, Lim(), x)
      && Holds(store, info, contents)
    }

    /** Between operations: a whole tree holding the contents, and no other page in the table. */
    ghost predicate Valid()
      reads this, listed, arrays
    {
      && Mirrored()
      && WellFormed(store, info, rootPageId, Lim())
      && Holds(store, info, contents)
      && info.Keys == store.Keys
    }

    constructor (leafMaxSize: int, internalMaxSize: int)
      requires Limits(leafMaxSize, internalMaxSize).Valid()
      ensures Valid() && listed == {} && arrays == {} && contents == map[]
      ensures this.leafMaxSize == leafMaxSize && this.internalMaxSize == internalMaxSize
    {
      this.leafMaxSize, this.internalMaxSize := leafMaxSize, internalMaxSize;
      rootPageId, pages, store := INVALID_PAGE_ID, map[], map[];
      info, contents, listed, arrays := map[], map[], {}, {};
    }

    predicate IsEmpty()
      reads this
    {
      rootPageId == INVALID_PAGE_ID
    }

    /** The page with the given id. */
    method FetchPage(p: PageId) returns (page: BPlusTreePage)
      requires Mirrored() && p in store
      ensures p in pages && page == pages[p] && page in listed && page.entries in arrays
      ensures page.pageId == p && page.Valid() && page.View() == store[p]
      ensures page.maxSize == Lim().MaxSize(page.isLeaf)
    {
      assert Each(0);
      assert Agree(p, pages, store);
      page := pages[p];
    }

    /** How many pages a descent from the root to a leaf visits. */
    ghost function Height(): nat
      reads `info, `rootPageId
    {
      if rootPageId in info then info[rootPageId].level + 1 else 0
    }

    /** From the root down to the leaf in charge of a key, or to the leftmost leaf, one page of each
        level being visited. */
    method FindLeafPage(key: int, leftMost: bool) returns (p: PageId, page: BPlusTreePage, ghost visited: nat)
      requires Busy(INVALID_PAGE_ID)
      ensures p in info && p in pages && page == pages[p] && page.Valid() && page.View() == store[p] && store[p].leaf
      ensures page in listed && page.entries in arrays && page.pageId == p
      ensures if leftMost then info[p].lo.Inf? else InRange(info[p], key)
      ensures visited == Height()
    {
      p, visited := rootPageId, 1;
      page := FetchPage(p);
      assert NodeOk(store, info, rootPageId, Lim(), INVALID_PAGE_ID, p);
      while !page.isLeaf
        invariant p in info && p in pages && page == pages[p] && page.Valid() && page.View() == store[p]
        invariant page in listed && page.entries in arrays && page.pageId == p
        invariant if leftMost then info[p].lo.Inf? else InRange(info[p], key)
        invariant rootPageId in info && visited + info[p].level == Height()
        decreases info[p].level
      {
        assert NodeOk(store, info, rootPageId, Lim(), INVALID_PAGE_ID, p);
        p := ChildTowards(p, page, key, leftMost);
        page := FetchPage(p);
        visited := visited + 1;
      }
    }

    /** The child whose range the key lies in, or the first one. */
    method ChildTowards(p: PageId, page: BPlusTreePage, key: int, leftMost: bool) returns (child: PageId)
      requires Busy(INVALID_PAGE_ID) && p in info && page.Valid() && page.View() == store[p] && !store[p].leaf
      requires !leftMost ==> InRange(info[p], key)
      ensures child in info && info[child].level + 1 == info[p].level
      ensures if leftMost then info[child].lo == info[p].lo else InRange(info[child], key)
    {
      assert NodeOk(store, info, rootPageId, Lim(), INVALID_PAGE_ID, p);
      if leftMost {
        child := page.entries[0].value;
        assert child == store[p].entries[0].value && ChildOk(store, info, p, 0);
      } else {
        child := InternalPage.Lookup(page, key);
        ghost var i :| InternalPage.LeadsTo(store[p].entries, key, i, child);
        assert ChildOk(store, info, p, i);
      }
    }

    /** The value stored for a key, if there is one.  The number of pages that have been visited is
        bounded by the logarithm of the number of keys. */
    method GetValue(key: int) returns (found: bool, value: int, ghost visited: nat)
      requires Valid()
      ensures found <==> key in contents
      ensures found ==> value == contents[key]
      ensures visited == Height()
      ensures visited >= 2 ==>
                |contents| >= 2 * (TreeReading.Power(internalMaxSize / 2, visited - 2) * (leafMaxSize / 2))
    {
      if IsEmpty() {
        return false, 0, 0;
      }
      var p, page;
      p, page, visited := FindLeafPage(key, false);
      assert NodeOk(store, info, rootPageId, Lim(), INVALID_PAGE_ID, p);
      found, value := LeafPage.Lookup(page, key);
      assert LeafHolds(store[p], info[p], contents);
      if visited >= 2 {
        TreeReading.HeightBound(store, info, rootPageId, Lim(), contents);
      }
    }

    /** A page id that is not in use. */
    method NewPageId() returns (id: PageId)
      ensures id !in pages && id >= 0
    {
      id := 0;
      ghost var seen: set<PageId> := {};
      while id in pages
        invariant id >= 0
        invariant forall j :: j in seen ==> j < id
        decreases pages.Keys - seen
      {
        seen := seen + {id};
        id := id + 1;
      }
    }

    /** The values become what the pages show. */
    ghost method Record(t: Store)
      requires AllShow(t) && Tracks(pages, t)
      modifies `store
      ensures Mirrored() && store == t
    {
      store := t;
    }

    /** Only page p has changed, and it shows n now. */
    twostate lemma OneChanged(new p: PageId, new n: Node)
      requires old(Mirrored()) && unchanged(`pages) && unchanged(`store) && unchanged(`listed) && unchanged(`arrays)
      requires p in pages && pages[p] in listed && PageOk(p) && pages[p].View() == n
      requires forall c {:trigger pages[c]} :: c in pages && c != p ==>
                 unchanged(pages[c]) && unchanged(pages[c].entries)
      ensures Tracks(pages, store[p := n]) && AllShow(store[p := n])
    {
      assert Each(0);
      TracksUpdate(pages, store, p, n);
      forall c | c in pages
        ensures pages[c] in listed && PageOk(c) && c in store[p := n] && store[p := n][c] == pages[c].View()
      {
      }
    }

    /** Apart from its parent id the page is as it was. */
    twostate predicate OnlyParentChanged(page: BPlusTreePage)
      reads page, page.entries
    {
      && unchanged(page`isLeaf) && unchanged(page`size) && unchanged(page`maxSize) && unchanged(page`pageId)
      && unchanged(page`nextPageId) && unchanged(page.entries)
    }

    /** Apart from parent ids only pages l and r have changed, and the pages show t now. */
    twostate lemma TwoChanged(new l: PageId, new r: PageId, new t: Store)
      requires old(Mirrored()) && unchanged(`pages) && unchanged(`store) && unchanged(`listed) && unchanged(`arrays)
      requires l in pages && pages[l] in listed && PageOk(l) && l in t && t[l] == pages[l].View()
      requires r in pages && pages[r] in listed && PageOk(r) && r in t && t[r] == pages[r].View()
      requires t.Keys == store.Keys
      requires forall c {:trigger pages[c]} :: c in pages && c != l && c != r ==>
                 OnlyParentChanged(pages[c]) && (c in store ==> t[c] == store[c].(parent := pages[c].parentPageId))
      ensures Tracks(pages, t) && AllShow(t)
    {
      assert Each(0);
      TracksSameKeys(pages, store, t);
      forall c | c in pages
        ensures pages[c] in listed && PageOk(c) && c in t && t[c] == pages[c].View()
      {
        assert Agree(c, pages, t);
      }
    }

    // -------------------------------------------------------------- insertion, page by page

    /** The entry in its leaf. */
    method InsertEntry(p: PageId, page: BPlusTreePage, key: int, value: int) returns (size: int)
      requires Mirrored() && p in pages && page == pages[p]
      requires p in store && store[p].leaf && SortedFrom(store[p].entries, 0) && !HasKey(store[p], key)
      requires |store[p].entries| <= Lim().MaxSize(true)
      modifies `store, page, page.entries
      ensures Mirrored() && store == old(store)[p := TreeInsert.LeafInserted(old(store)[p], key, value)]
      ensures size == |store[p].entries| && page.maxSize == Lim().MaxSize(true)
    {
      assert Each(0);
      size := LeafPage.Insert(page, key, value);
      OneChanged(p, page.View());
      Record(store[p := page.View()]);
    }

    /** A page that could be entered under the id q. */
    ghost predicate Fresh(page: BPlusTreePage, q: PageId)
      reads `listed, `arrays, page
    {
      && page.Valid() && page.pageId == q && page.maxSize == Lim().MaxSize(page.isLeaf)
      && page !in listed && page.entries !in arrays
    }

    /** t is what the pages show once the given one is among them. */
    ghost predicate Shows(t: Store, page: BPlusTreePage)
      reads `pages, `listed, `arrays, listed, arrays, page, page.entries
    {
      && page.pageId in t && t[page.pageId] == page.View()
      && Tracks(pages[page.pageId := page], t)
      && forall c {:trigger pages[c]} :: c in pages && c != page.pageId ==>
           pages[c] in listed && pages[c].entries in arrays && c in t && t[c] == pages[c].View()
    }

    /** Moves the upper half of p to a new page, which is not in the table yet. */
    method Split(p: PageId, page: BPlusTreePage, q: PageId) returns (newPage: BPlusTreePage)
      requires Mirrored() && p in pages && page == pages[p] && Lim().Valid() && q !in pages
      requires p in store && |store[p].entries| == Lim().MaxSize(store[p].leaf) + 1
      requires !store[p].leaf ==> Family(store, p)
      modifies listed`size, listed`nextPageId, listed`parentPageId
      ensures Sound() && Fresh(newPage, q) && fresh(newPage) && fresh(newPage.entries)
      ensures Shows(TreeInsert.HalvedStore(store, Lim(), p, q), newPage)
    {
      assert Each(0);
      if page.isLeaf {
        newPage := HalveLeaf(p, page, q);
      } else {
        newPage := HalveInternal(p, page, q);
      }
      ghost var t := TreeInsert.HalvedStore(store, Lim(), p, q);
      forall c | c in pages
        ensures pages[c] in listed && PageOk(c) && c in t && t[c] == pages[c].View()
      {
      }
      TracksAdd(pages, store, q, newPage, newPage.View());
      TracksSameKeys(pages[q := newPage], store[q := newPage.View()], t);
    }

    /** Of a leaf. */
    method HalveLeaf(p: PageId, page: BPlusTreePage, q: PageId) returns (newPage: BPlusTreePage)
      requires Mirrored() && p in pages && page == pages[p] && Lim().Valid()
      requires p in store && |store[p].entries| == Lim().MaxSize(store[p].leaf) + 1 && store[p].leaf
      modifies listed`size, listed`nextPageId
      ensures Sound() && fresh(newPage) && fresh(newPage.entries)
      ensures newPage.Valid() && newPage.pageId == q && newPage.maxSize == Lim().MaxSize(newPage.isLeaf)
      ensures var n := store[p]; var m := Lim().MinSize(true);
              && page.View() == n.(entries := n.entries[..m], next := q)
              && newPage.View() == Node(true, INVALID_PAGE_ID, n.next, n.entries[m..])
      ensures forall c {:trigger pages[c]} :: c in pages && c != p ==> c in store && pages[c].View() == store[c]
    {
      assert Each(0);
      newPage := LeafPage.SplitOff(page, q);
    }

    /** Of an internal page, whose children move along. */
    method HalveInternal(p: PageId, page: BPlusTreePage, q: PageId) returns (newPage: BPlusTreePage)
      requires Mirrored() && p in pages && page == pages[p] && Lim().Valid()
      requires p in store && |store[p].entries| == Lim().MaxSize(store[p].leaf) + 1 && !store[p].leaf
               && Family(store, p)
      modifies listed`size, listed`parentPageId
      ensures Sound() && fresh(newPage) && fresh(newPage.entries)
      ensures newPage.Valid() && newPage.pageId == q && newPage.maxSize == Lim().MaxSize(newPage.isLeaf)
      ensures var n := store[p]; var m := Lim().MinSize(false);
              && n.next == INVALID_PAGE_ID
              && page.View() == n.(entries := n.entries[..m])
              && newPage.View() == Node(false, INVALID_PAGE_ID, INVALID_PAGE_ID, n.entries[m..])
      ensures forall c {:trigger pages[c]} :: c in pages && c != p ==>
                c in store && pages[c].View() == AdoptedNode(store, store[p].entries[Lim().MinSize(false)..], q, c)
    {
      assert Each(0);
      forall i | 0 <= i < |store[p].entries|
        ensures store[p].entries[i].value in pages && store[p].entries[i].value != p
      {
        assert ChildOf(store, store[p].entries[i].value, p);
        assert Agree(store[p].entries[i].value, pages, store);
      }
      newPage := InternalPage.SplitOff(page, q, pages, listed);
      OthersAdopted(p, store[p].entries[Lim().MinSize(false)..], q);
    }

    /** Apart from page p and the parent ids of pages that es names nothing has changed. */
    twostate lemma OthersAdopted(new p: PageId, new es: seq<Entry>, new q: PageId)
      requires old(Mirrored()) && unchanged(`pages) && unchanged(`store) && unchanged(`listed) && unchanged(`arrays)
      requires p in pages && pages[p] in listed && PageOk(p)
      requires InternalPage.Adopted(pages, listed, es, q)
      requires forall c {:trigger pages[c]} :: c in pages && c != p ==> OnlyParentChanged(pages[c])
      ensures Sound()
      ensures forall c {:trigger pages[c]} :: c in pages && c != p ==>
                c in store && pages[c].View() == AdoptedNode(store, es, q, c)
    {
      assert Each(0);
      forall c | c in pages
        ensures pages[c] in listed && PageOk(c)
        ensures c != p ==> c in store && pages[c].View() == AdoptedNode(store, es, q, c)
      {
        assert Agree(c, pages, store);
      }
    }

    /** Enters a new page under the id q.  s is what the pages then show. */
    method File(q: PageId, page: BPlusTreePage, ghost s: Store)
      requires Sound() && Fresh(page, q) && Shows(s, page)
      requires q !in pages && q != INVALID_PAGE_ID
      modifies `pages, `store, `listed, `arrays
      ensures Mirrored() && pages == old(pages)[q := page] && store == s
      ensures listed == old(listed) + {page} && arrays == old(arrays) + {page.entries}
    {
      assert Each(0);
      pages := pages[q := page];
      store := s;
      listed := listed + {page};
      arrays := arrays + {page.entries};
      forall c | c in pages
        ensures pages[c] in listed && PageOk(c) && c in s && s[c] == pages[c].View()
      {
      }
    }

    /** The entry for q right after the one for p in the page pp, which becomes n. */
    method LinkEntry(pp: PageId, p: PageId, key: int, q: PageId) returns (size: int, maxSize: int, ghost n: Node)
      requires Mirrored() && pp in store && !store[pp].leaf && |store[pp].entries| <= internalMaxSize
      modifies `store, listed`size, arrays
      ensures Mirrored() && store == old(store)[pp := n]
      ensures TreeInsert.LinkedInto(old(store)[pp], p, key, q, n)
      ensures size == |n.entries| && maxSize == internalMaxSize
    {
      assert Each(0);
      var page := FetchPage(pp);
      size := InternalPage.InsertNodeAfter(page, p, key, q);
      n := page.View();
      OneChanged(pp, n);
      Record(store[pp := n]);
      maxSize := page.maxSize;
    }

    method SetParentPageId(p: PageId, pp: PageId)
      requires Mirrored() && p in store
      modifies `store, listed`parentPageId
      ensures Mirrored() && store == old(store)[p := old(store)[p].(parent := pp)]
    {
      assert Each(0);
      var page := FetchPage(p);
      page.SetParentPageId(pp);
      OneChanged(p, page.View());
      Record(store[p := page.View()]);
    }

    /** A new root page with the children p and q. */
    method NewRootPage(p: PageId, key: int, q: PageId) returns (r: PageId, ghost junk: int)
      requires Mirrored() && Lim().Valid()
      modifies `pages, `store, `listed, `arrays
      ensures Mirrored() && fresh(listed - old(listed)) && fresh(arrays - old(arrays))
      ensures r !in old(store) && r != INVALID_PAGE_ID
      ensures store == old(store)[r := TreeInsert.RootNode(junk, p, key, q)]
    {
      assert Each(0);
      r := NewPageId();
      assert Agree(r, pages, store);
      var root := new BPlusTreePage.InitInternal(r, internalMaxSize);
      junk := InternalPage.PopulateNewRoot(root, p, key, q);
      TracksAdd(pages, store, r, root, root.View());
      File(r, root, store[r := root.View()]);
    }

    /** A new leaf page with one entry. */
    method NewLeafPage(key: int, value: int) returns (id: PageId)
      requires Mirrored() && Lim().Valid()
      modifies `pages, `store, `listed, `arrays
      ensures Mirrored() && fresh(listed - old(listed)) && fresh(arrays - old(arrays))
      ensures id !in old(store) && id != INVALID_PAGE_ID
      ensures store == old(store)[id := Node(true, INVALID_PAGE_ID, INVALID_PAGE_ID, [Entry(key, value)])]
    {
      assert Each(0);
      id := NewPageId();
      assert Agree(id, pages, store);
      var page := new BPlusTreePage.InitLeaf(id, leafMaxSize);
      var size := LeafPage.Insert(page, key, value);
      assert page.View().entries == [Entry(key, value)];
      TracksAdd(pages, store, id, page, page.View());
      File(id, page, store[id := page.View()]);
    }

    /** Splits the overfull page p into p and the new page q; key is to separate them. */
    method SplitPage(p: PageId) returns (key: int, q: PageId)
      requires Mirrored() && p in store && Lim().Valid()
      requires |store[p].entries| == Lim().MaxSize(store[p].leaf) + 1
      requires !store[p].leaf ==> Family(store, p)
      modifies `pages, `store, `listed, `arrays, listed
      ensures Mirrored() && fresh(listed - old(listed)) && fresh(arrays - old(arrays))
      ensures q !in old(store) && q != INVALID_PAGE_ID && key == TreeInsert.SplitKey(old(store)[p], Lim())
      ensures store == TreeInsert.HalvedStore(old(store), Lim(), p, q)
      ensures var es := old(store)[p].entries;
              var m := (if old(store)[p].leaf then leafMaxSize else internalMaxSize) / 2;
              0 <= m < |es| && store[p].entries == es[..m] && store[q].entries == es[m..] && key == es[m].key
    {
      var page := FetchPage(p);
      var min := page.GetMinSize();
      var e := EntryAt(p, min);
      key := e.key;
      q := NewPageId();
      assert Agree(q, pages, store);
      SplitInto(p, page, q);
    }

    /** The upper half of p as the new page q. */
    method SplitInto(p: PageId, page: BPlusTreePage, q: PageId)
      requires Mirrored() && p in pages && page == pages[p] && Lim().Valid() && q !in pages && q != INVALID_PAGE_ID
      requires p in store && |store[p].entries| == Lim().MaxSize(store[p].leaf) + 1
      requires !store[p].leaf ==> Family(store, p)
      modifies `pages, `store, `listed, `arrays, listed
      ensures Mirrored() && fresh(listed - old(listed)) && fresh(arrays - old(arrays))
      ensures store == TreeInsert.HalvedStore(old(store), Lim(), p, q)
    {
      var newPage := Split(p, page, q);
      File(q, newPage, TreeInsert.HalvedStore(store, Lim(), p, q));
    }

    // -------------------------------------------------------------- insertion

    /** Page p is the leaf whose range a key lies in. */
    ghost predicate InCharge(p: PageId, key: int)
      reads `store, `info
    {
      p in info && p in store && store[p].leaf && InRange(info[p], key)
    }

    lemma OneInCharge(p: PageId, key: int)
      requires Busy(INVALID_PAGE_ID) && InCharge(p, key)
      ensures forall q {:trigger InCharge(q, key)} :: InCharge(q, key) ==> q == p
    {
      forall q {:trigger InCharge(q, key)} | InCharge(q, key)
        ensures q == p
      {
        assert NodeOk(store, info, rootPageId, Lim(), INVALID_PAGE_ID, p);
        assert NodeOk(store, info, rootPageId, Lim(), INVALID_PAGE_ID, q);
        RangesDisjoint(store, info, rootPageId, Lim(), INVALID_PAGE_ID, p, q, key);
      }
    }

    /** Adds a key that is not there; a key that is there keeps its value.  A page is split only if it is full,
        and then the tree gets as many pages as there are full ones in a row from the leaf in charge on
        upwards, and a new root if they reach up to the root. */
    method Insert(key: int, value: int) returns (inserted: bool)
      requires Valid()
      modifies this, listed, arrays
      ensures Valid() && fresh(listed - old(listed)) && fresh(arrays - old(arrays))
      ensures inserted <==> key !in old(contents)
      ensures contents == if inserted then old(contents)[key := value] else old(contents)
      ensures old(rootPageId) == INVALID_PAGE_ID ==> |info.Keys| == 1
      ensures !inserted ==> info == old(info) && store == old(store)
      ensures inserted ==> forall p :: old(InCharge(p, key)) ==>
                |info.Keys| == |old(info.Keys)| + TreeGrowth.Come(old(store), old(info), old(rootPageId), Lim(), p)
    {
      if IsEmpty() {
        StartNewTree(key, value);
        inserted := true;
      } else {
        inserted := InsertIntoLeaf(key, value);
      }
    }

    /** One leaf, which is the root. */
    method StartNewTree(key: int, value: int)
      requires Valid() && rootPageId == INVALID_PAGE_ID
      modifies this, listed, arrays
      ensures Valid() && fresh(listed - old(listed)) && fresh(arrays - old(arrays))
      ensures old(contents) == map[] && contents == map[key := value] && |info.Keys| == 1
    {
      var id := NewLeafPage(key, value);
      TreeInsert.SingleLeaf(store, id, Lim(), key, value);
      contents := map[key := value];
      SetRoot(id, map[id := Info(0, Inf, Inf)]);
    }

    method InsertIntoLeaf(key: int, value: int) returns (inserted: bool)
      requires Valid() && rootPageId != INVALID_PAGE_ID
      modifies this, listed, arrays
      ensures Valid() && fresh(listed - old(listed)) && fresh(arrays - old(arrays))
      ensures inserted <==> key !in old(contents)
      ensures contents == if inserted then old(contents)[key := value] else old(contents)
      ensures !inserted ==> info == old(info) && store == old(store)
      ensures inserted ==> forall p :: old(InCharge(p, key)) ==>
                |info.Keys| == |old(info.Keys)| + TreeGrowth.Come(old(store), old(info), old(rootPageId), Lim(), p)
    {
      var p, page, _ := FindLeafPage(key, false);
      ghost var s := store;
      OneInCharge(p, key);
      forall q | old(InCharge(q, key))
        ensures q == p
      {
        assert InCharge(q, key);
      }
      assert NodeOk(s, info, rootPageId, Lim(), INVALID_PAGE_ID, p);
      var found, _ := LeafPage.Lookup(page, key);
      if found {
        assert LeafHolds(s[p], info[p], contents);
        return false;
      }
      InsertNew(p, page, key, value);
      inserted := true;
    }

    method InsertNew(p: PageId, page: BPlusTreePage, key: int, value: int)
      requires Valid() && p in info && p in pages && page == pages[p] && page in listed && page.entries in arrays
      requires store[p].leaf && InRange(info[p], key) && !HasKey(store[p], key)
      modifies this, listed, arrays
      ensures Valid() && fresh(listed - old(listed)) && fresh(arrays - old(arrays))
      ensures key !in old(contents) && contents == old(contents)[key := value]
      ensures |info.Keys| == |old(info.Keys)| + TreeGrowth.Come(old(store), old(info), old(rootPageId), Lim(), p)
    {
      var size := InsertAbsent(p, page, key, value);
      SplitIfTooLong(p, size, page.maxSize);
    }

    /** The new entry in its leaf, which may thereby become too long. */
    method InsertAbsent(p: PageId, page: BPlusTreePage, key: int, value: int) returns (size: int)
      requires Busy(INVALID_PAGE_ID) && p in info && p in pages && page == pages[p]
      requires store[p].leaf && InRange(info[p], key) && !HasKey(store[p], key)
      modifies `store, `contents, page, page.entries
      ensures key !in old(contents) && contents == old(contents)[key := value]
      ensures Busy(p) && store.Keys == old(store.Keys) && size == |store[p].entries| && store[p].leaf
      ensures page.maxSize == Lim().MaxSize(true) && 1 <= size <= page.maxSize + 1
      ensures rootPageId != p ==> Lim().MinSize(true) <= size
      ensures size == |old(store)[p].entries| + 1 && old(store)[p].leaf
      ensures TreeGrowth.ComeAbove(store, info, rootPageId, Lim(), p)
              == TreeGrowth.ComeAbove(old(store), info, rootPageId, Lim(), p)
    {
      TreeGrowth.LeafSame(store, info, rootPageId, Lim(), INVALID_PAGE_ID, p,
                          TreeInsert.LeafInserted(store[p], key, value), 0);
      TreeInsert.LeafInsertKeeps(store, info, rootPageId, Lim(), p, key, value, contents);
      assert NodeOk(store, info, rootPageId, Lim(), INVALID_PAGE_ID, p);
      size := InsertEntry(p, page, key, value);
      contents := contents[key := value];
    }

    /** The overfull page p is split, and what came of it is made known to its parent. */
    method SplitUpwards(p: PageId)
      requires Busy(p) && info.Keys == store.Keys && p in info
      requires |store[p].entries| == Lim().MaxSize(store[p].leaf) + 1
      modifies this, listed, arrays
      ensures Valid() && fresh(listed - old(listed)) && fresh(arrays - old(arrays))
      ensures contents == old(contents)
      ensures |info.Keys|
              == |old(info.Keys)| + 1 + TreeGrowth.ComeAbove(old(store), old(info), old(rootPageId), Lim(), p)
      decreases info[rootPageId].level - info[p].level, 2
    {
      ghost var s := store;
      LevelAtMostRoot(s, info, rootPageId, Lim(), p, p);
      if !s[p].leaf {
        FamilyOk(s, info, rootPageId, Lim(), p, p);
      }
      var key, q := SplitPage(p);
      TreeInsert.HalvedStoreOk(s, Lim(), p, q);
      InsertIntoParent(p, key, q, s);
    }

    /** Makes the split of p into p and q known one level up, and so on as far as pages overflow.
        s is the store before the split. */
    method InsertIntoParent(p: PageId, key: int, q: PageId, ghost s: Store)
      requires Mirrored() && AfterSplit(p, key, q, s)
      modifies this, listed, arrays
      ensures Valid() && fresh(listed - old(listed)) && fresh(arrays - old(arrays))
      ensures contents == old(contents)
      ensures |info.Keys| == |old(info.Keys)| + 1 + TreeGrowth.ComeAbove(s, old(info), old(rootPageId), Lim(), p)
      decreases info[rootPageId].level - info[p].level, 1
    {
      LevelAtMostRoot(s, info, rootPageId, Lim(), p, p);
      var page := FetchPage(p);
      var pp := page.parentPageId;
      if pp == INVALID_PAGE_ID {
        TreeGrowth.RootComesAbove(s, info, rootPageId, Lim(), p, q);
        GrowRoot(p, key, q, s);
      } else {
        LinkUpwards(p, key, q, pp, s);
      }
    }

    /** The same below the root. */
    method LinkUpwards(p: PageId, key: int, q: PageId, pp: PageId, ghost s: Store)
      requires Mirrored() && AfterSplit(p, key, q, s) && pp == s[p].parent != INVALID_PAGE_ID
      modifies this, listed, arrays
      ensures Valid() && fresh(listed - old(listed)) && fresh(arrays - old(arrays))
      ensures contents == old(contents)
      ensures |info.Keys| == |old(info.Keys)| + 1 + TreeGrowth.ComeAbove(s, old(info), old(rootPageId), Lim(), p)
      decreases info[rootPageId].level - info[p].level, 0
    {
      LevelAtMostRoot(s, info, rootPageId, Lim(), p, p);
      var size, maxSize := LinkBelow(p, key, q, pp, s);
      SplitIfTooLong(pp, size, maxSize);
    }

    /** Page p has got an entry more, which may make it too long. */
    method SplitIfTooLong(p: PageId, size: int, maxSize: int)
      requires Busy(p) && info.Keys == store.Keys && p in info
      requires size == |store[p].entries| && maxSize == Lim().MaxSize(store[p].leaf)
      requires (if p == rootPageId then 1 else Lim().MinSize(store[p].leaf)) <= size <= maxSize + 1
      requires p == rootPageId && !store[p].leaf ==> size >= 2
      modifies this, listed, arrays
      ensures Valid() && fresh(listed - old(listed)) && fresh(arrays - old(arrays))
      ensures contents == old(contents)
      ensures |info.Keys|
              == |old(info.Keys)| + if size <= maxSize then 0
                 else 1 + TreeGrowth.ComeAbove(old(store), old(info), old(rootPageId), Lim(), p)
      decreases info[rootPageId].level - info[p].level, 3
    {
      if size > maxSize {
        SplitUpwards(p);
      } else {
        NoAllowance(store, info, rootPageId, Lim(), p);
      }
    }

    /** The page p of the tree s has just been split into p and q. */
    ghost predicate AfterSplit(p: PageId, key: int, q: PageId, s: Store)
      reads `store, `info, `rootPageId, `contents
    {
      && TreeInsert.Overfull(s, info, rootPageId, Lim(), p, q)
      && TreeInsert.HalfSplit(s, Lim(), p, q, store)
      && Holds(s, info, contents)
      && info.Keys == s.Keys && key == TreeInsert.SplitKey(s[p], Lim())
    }

    /** The entry for q in the parent pp, and the parent ids of both halves. */
    method LinkBelow(p: PageId, key: int, q: PageId, pp: PageId, ghost s: Store) returns (size: int, maxSize: int)
      requires Mirrored() && AfterSplit(p, key, q, s) && pp == s[p].parent != INVALID_PAGE_ID
      modifies `store, `info, listed`size, listed`parentPageId, arrays
      ensures Busy(pp) && info.Keys == store.Keys && pp in info
      ensures size == |store[pp].entries| && maxSize == Lim().MaxSize(false)
      ensures !store[pp].leaf
              && (if pp == rootPageId then 2 else Lim().MinSize(false)) < size <= Lim().MaxSize(false) + 1
      ensures rootPageId in info && rootPageId in old(info) && info[rootPageId].level == old(info)[rootPageId].level
      ensures info[pp].level == old(info)[p].level + 1
      ensures |info.Keys| == |old(info.Keys)| + 1
      ensures TreeGrowth.ComeAbove(s, old(info), rootPageId, Lim(), p)
              == if size <= maxSize then 0 else 1 + TreeGrowth.ComeAbove(store, info, rootPageId, Lim(), pp)
    {
      ghost var t, n := store, store[p];
      TreeInsert.LinkSite(s, info, rootPageId, Lim(), p, q, t);
      size, maxSize, n := LinkEntry(pp, p, key, q);
      SetBothParents(p, q, pp);
      SettleLinked(p, q, s, t, n);
    }

    /** p and q have been linked to their parent, which is n now. */
    ghost method SettleLinked(p: PageId, q: PageId, s: Store, t: Store, n: Node)
      requires Mirrored() && TreeInsert.Overfull(s, info, rootPageId, Lim(), p, q) && info.Keys == s.Keys
      requires TreeInsert.HalfSplit(s, Lim(), p, q, t) && Holds(s, info, contents)
      requires s[p].parent != INVALID_PAGE_ID && TreeInsert.Linked(s, Lim(), p, q, t, n, store)
      modifies `info
      ensures var pp := s[p].parent;
              && pp in info && info.Keys == store.Keys && Busy(pp) && store[pp] == n && !n.leaf
              && (if pp == rootPageId then 2 else Lim().MinSize(false)) < |n.entries| <= Lim().MaxSize(false) + 1
              && rootPageId in info && rootPageId in old(info) && info[rootPageId].level == old(info)[rootPageId].level
              && info[pp].level == old(info)[p].level + 1 && |info.Keys| == |old(info.Keys)| + 1
              && TreeGrowth.ComeAbove(s, old(info), rootPageId, Lim(), p)
                 == if |n.entries| <= Lim().MaxSize(false) then 0
                    else 1 + TreeGrowth.ComeAbove(store, info, rootPageId, Lim(), pp)
    {
      var pp := s[p].parent;
      var info' := TreeGrowth.LinkedAll(s, info, rootPageId, Lim(), p, q, t, n, store, contents);
      SettleExcept(info', pp);
    }

    /** The pages form a tree by now in which only page x may be too long. */
    ghost method SettleExcept(info': map<PageId, Info>, x: PageId)
      requires Mirrored() && TreeExcept(store, info', rootPageId, Lim(), x) && Holds(store, info', contents)
      modifies `info
      ensures Busy(x) && info == info'
    {
      info := info';
    }

    method SetBothParents(p: PageId, q: PageId, pp: PageId)
      requires Mirrored() && p in store && q in store && p != q
      modifies `store, listed`parentPageId
      ensures Mirrored() && store == TreeInsert.Reparented(old(store), p, q, pp)
    {
      SetParentPageId(p, pp);
      SetParentPageId(q, pp);
    }

    /** A new root above the two halves of the old one. */
    method GrowRoot(p: PageId, key: int, q: PageId, ghost s: Store)
      requires Mirrored() && AfterSplit(p, key, q, s) && s[p].parent == INVALID_PAGE_ID
      modifies this, listed, arrays
      ensures Valid() && fresh(listed - old(listed)) && fresh(arrays - old(arrays))
      ensures contents == old(contents) && |info.Keys| == |old(info.Keys)| + 2
    {
      ghost var t := store;
      var r, junk := RaiseRoot(p, key, q);
      Crown(p, q, r, junk, s, t);
    }

    /** Both halves, p and q, are below the new root r now; t shows the pages before that. */
    method Crown(ghost p: PageId, ghost q: PageId, r: PageId, ghost junk: int, ghost s: Store, ghost t: Store)
      requires Mirrored() && TreeInsert.Overfull(s, info, rootPageId, Lim(), p, q)
      requires TreeInsert.HalfSplit(s, Lim(), p, q, t) && Holds(s, info, contents) && info.Keys == s.Keys
      requires s[p].parent == INVALID_PAGE_ID && r !in t && r != INVALID_PAGE_ID
      requires TreeInsert.RootAdded(t, p, TreeInsert.SplitKey(s[p], Lim()), q, r, junk, store)
      modifies `rootPageId, `info
      ensures Valid() && |info.Keys| == |old(info.Keys)| + 2
    {
      ghost var info' := TreeInsert.GrownTree(s, info, rootPageId, Lim(), p, q, r, t, store, contents);
      TreeGrowth.TwoMore(info.Keys, info'.Keys, q, r);
      assert info'.Keys == store.Keys;
      SetRoot(r, info');
    }

    /** The pages form a whole tree with the root r by now. */
    method SetRoot(r: PageId, ghost info': map<PageId, Info>)
      requires Mirrored() && WellFormed(store, info', r, Lim()) && Holds(store, info', contents)
      modifies `rootPageId, `info
      ensures Settled() && rootPageId == r && info == info'
    {
      rootPageId, info := r, info';
    }

    method RaiseRoot(p: PageId, key: int, q: PageId) returns (r: PageId, ghost junk: int)
      requires Mirrored() && p in store && q in store && p != q && Lim().Valid()
      modifies `pages, `store, `listed, `arrays, listed`parentPageId
      ensures Mirrored() && fresh(listed - old(listed)) && fresh(arrays - old(arrays))
      ensures r !in old(store) && r != INVALID_PAGE_ID
      ensures TreeInsert.RootAdded(old(store), p, key, q, r, junk, store)
    {
      r, junk := NewRootPage(p, key, q);
      SetBothParents(p, q, r);
    }

    // -------------------------------------------------------------- removal, page by page

    /** The entry out of its leaf. */
    method RemoveEntry(p: PageId, page: BPlusTreePage, key: int)
      requires Mirrored() && p in pages && page == pages[p]
      requires p in store && store[p].leaf && SortedFrom(store[p].entries, 0) && HasKey(store[p], key)
      modifies `store, page, page.entries
      ensures Mirrored() && store == old(store)[p := TreeRemove.LeafRemoved(old(store)[p], key)]
    {
      assert Each(0);
      var size := LeafPage.RemoveAndDeleteRecord(page, key);
      OneChanged(p, page.View());
      Record(store[p := page.View()]);
    }

    method SetKeyAt(pp: PageId, i: int, key: int)
      requires Mirrored() && pp in store && 0 <= i < |store[pp].entries|
      modifies `store, arrays
      ensures Mirrored()
      ensures store == old(store)[pp := old(store)[pp].(entries :=
                old(store)[pp].entries[i := Entry(key, old(store)[pp].entries[i].value)])]
    {
      assert Each(0);
      var page := FetchPage(pp);
      InternalPage.SetKeyAt(page, i, key);
      OneChanged(pp, page.View());
      Record(store[pp := page.View()]);
    }

    method RemoveIndex(pp: PageId, i: int)
      requires Mirrored() && pp in store && 0 <= i < |store[pp].entries|
      modifies `store, listed`size, arrays
      ensures Mirrored()
      ensures store == old(store)[pp := old(store)[pp].(entries := TreeRemove.RemovedAt(old(store)[pp].entries, i))]
    {
      assert Each(0);
      var page := FetchPage(pp);
      InternalPage.Remove(page, i);
      OneChanged(pp, page.View());
      Record(store[pp := page.View()]);
    }

    /** Two pages that a move between them may change, of one kind and with distinct arrays; no
        child of the page that gives is one of the two. */
    ghost predicate Movable(from: PageId, to: PageId)
      reads `store
    {
      && from in store && to in store && from != to && store[from].leaf == store[to].leaf
      && 0 < |store[from].entries| && |store[to].entries| <= Lim().MaxSize(store[to].leaf)
      && (!store[from].leaf ==> Family(store, from) && store[to].parent != from && |store[to].entries| > 0)
    }

    /** Two different pages that have been fetched. */
    ghost predicate Fetched(l: PageId, left: BPlusTreePage, r: PageId, right: BPlusTreePage)
      reads `pages
    {
      l in pages && r in pages && left == pages[l] && right == pages[r] && l != r
    }

    method IsLeafPage(p: PageId) returns (leaf: bool)
      requires Mirrored() && p in store
      ensures leaf == store[p].leaf
    {
      var page := FetchPage(p);
      leaf := page.isLeaf;
    }

    method EntryAt(p: PageId, i: int) returns (e: Entry)
      requires Mirrored() && p in store && 0 <= i < |store[p].entries|
      ensures e == store[p].entries[i]
    {
      var page := FetchPage(p);
      e := page.entries[i];
      assert e == page.View().entries[i];
    }

    /** The first entry of r to the end of l. */
    method MoveFirst(l: PageId, r: PageId, mid: int)
      requires Mirrored() && Movable(r, l)
      modifies `store, listed`size, listed`parentPageId, arrays
      ensures Mirrored() && store == TreeRemove.FirstMoved(old(store), l, r, mid)
    {
      var leaf := IsLeafPage(r);
      var left := FetchPage(l);
      var right := FetchPage(r);
      if leaf {
        MoveFirstLeaf(l, left, r, right, mid);
      } else {
        ChildrenFiled(r);
        MoveFirstInternal(l, left, r, right, mid);
      }
      Record(TreeRemove.FirstMoved(store, l, r, mid));
    }

    method MoveFirstLeaf(l: PageId, left: BPlusTreePage, r: PageId, right: BPlusTreePage, ghost mid: int)
      requires Mirrored() && Fetched(l, left, r, right) && Movable(r, l) && store[r].leaf
      modifies listed`size, arrays
      ensures AllShow(TreeRemove.FirstMoved(store, l, r, mid)) && Tracks(pages, TreeRemove.FirstMoved(store, l, r, mid))
    {
      assert Each(0);
      LeafPage.MoveFirstToEndOf(right, left);
      TwoChanged(l, r, TreeRemove.FirstMoved(store, l, r, mid));
    }

    method MoveFirstInternal(l: PageId, left: BPlusTreePage, r: PageId, right: BPlusTreePage, mid: int)
      requires ChildrenIn(r) && Mirrored() && Fetched(l, left, r, right) && Movable(r, l) && !store[r].leaf
      modifies listed`size, arrays, listed`parentPageId
      ensures AllShow(TreeRemove.FirstMoved(store, l, r, mid)) && Tracks(pages, TreeRemove.FirstMoved(store, l, r, mid))
    {
      assert Each(0);
      InternalPage.MoveFirstToEndOf(right, left, mid, pages, listed);
      TwoChanged(l, r, TreeRemove.FirstMoved(store, l, r, mid));
    }

    /** The last entry of l to the front of r. */
    method MoveLast(l: PageId, r: PageId, mid: int)
      requires Mirrored() && Movable(l, r)
      modifies `store, listed`size, listed`parentPageId, arrays
      ensures Mirrored() && store == TreeRemove.LastMoved(old(store), l, r, mid)
    {
      var leaf := IsLeafPage(l);
      var left := FetchPage(l);
      var right := FetchPage(r);
      if leaf {
        MoveLastLeaf(l, left, r, right, mid);
      } else {
        ChildrenFiled(l);
        MoveLastInternal(l, left, r, right, mid);
      }
      Record(TreeRemove.LastMoved(store, l, r, mid));
    }

    method MoveLastLeaf(l: PageId, left: BPlusTreePage, r: PageId, right: BPlusTreePage, ghost mid: int)
      requires Mirrored() && Fetched(l, left, r, right) && Movable(l, r) && store[l].leaf
      modifies listed`size, arrays
      ensures AllShow(TreeRemove.LastMoved(store, l, r, mid)) && Tracks(pages, TreeRemove.LastMoved(store, l, r, mid))
    {
      assert Each(0);
      LeafPage.MoveLastToFrontOf(left, right);
      TwoChanged(l, r, TreeRemove.LastMoved(store, l, r, mid));
    }

    method MoveLastInternal(l: PageId, left: BPlusTreePage, r: PageId, right: BPlusTreePage, mid: int)
      requires ChildrenIn(l) && Mirrored() && Fetched(l, left, r, right) && Movable(l, r) && !store[l].leaf
      modifies listed`size, arrays, listed`parentPageId
      ensures AllShow(TreeRemove.LastMoved(store, l, r, mid)) && Tracks(pages, TreeRemove.LastMoved(store, l, r, mid))
    {
      assert Each(0);
      InternalPage.MoveLastToFrontOf(left, right, mid, pages, listed);
      TwoChanged(l, r, TreeRemove.LastMoved(store, l, r, mid));
    }

    /** All of r to the end of l. */
    method MoveAll(l: PageId, r: PageId, mid: int)
      requires Mirrored() && l in store && r in store && l != r && store[l].leaf == store[r].leaf
      requires |store[l].entries| + |store[r].entries| <= Lim().MaxSize(store[l].leaf)
      requires !store[r].leaf ==> Movable(r, l)
      modifies `store, listed`size, listed`nextPageId, listed`parentPageId, arrays
      ensures Mirrored() && store == TreeRemove.JoinedStore(old(store), l, r, mid)
    {
      var leaf := IsLeafPage(r);
      var left := FetchPage(l);
      var right := FetchPage(r);
      if leaf {
        MoveAllLeaf(l, left, r, right, mid);
      } else {
        ChildrenFiled(r);
        MoveAllInternal(l, left, r, right, mid);
      }
      Record(TreeRemove.JoinedStore(store, l, r, mid));
    }

    method MoveAllLeaf(l: PageId, left: BPlusTreePage, r: PageId, right: BPlusTreePage, ghost mid: int)
      requires Mirrored() && Fetched(l, left, r, right) && l in store && r in store && l != r && store[l].leaf
               && store[r].leaf
      requires |store[l].entries| + |store[r].entries| <= Lim().MaxSize(true)
      modifies listed`size, listed`nextPageId, arrays
      ensures AllShow(TreeRemove.JoinedStore(store, l, r, mid))
              && Tracks(pages, TreeRemove.JoinedStore(store, l, r, mid))
    {
      assert Each(0);
      LeafPage.MoveAllTo(right, left);
      TwoChanged(l, r, TreeRemove.JoinedStore(store, l, r, mid));
    }

    method MoveAllInternal(l: PageId, left: BPlusTreePage, r: PageId, right: BPlusTreePage, mid: int)
      requires ChildrenIn(r) && Mirrored() && Fetched(l, left, r, right) && Movable(r, l) && !store[r].leaf
      requires |store[l].entries| + |store[r].entries| <= Lim().MaxSize(false)
      modifies listed`size, arrays, listed`parentPageId
      ensures AllShow(TreeRemove.JoinedStore(store, l, r, mid))
              && Tracks(pages, TreeRemove.JoinedStore(store, l, r, mid))
    {
      assert Each(0);
      InternalPage.MoveAllTo(right, left, mid, pages, listed);
      TwoChanged(l, r, TreeRemove.JoinedStore(store, l, r, mid));
    }

    ghost predicate ChildrenIn(p: PageId)
      reads `store, `pages
    {
      p in store && forall i :: 0 <= i < |store[p].entries| ==>
        store[p].entries[i].value in pages && store[p].entries[i].value in store
    }

    /** The children of an internal page are in the table. */
    lemma ChildrenFiled(p: PageId)
      requires Mirrored() && Family(store, p)
      ensures ChildrenIn(p)
    {
      assert Each(0);
      forall i | 0 <= i < |store[p].entries|
        ensures store[p].entries[i].value in pages && store[p].entries[i].value in store
      {
        assert ChildOf(store, store[p].entries[i].value, p);
        assert Agree(store[p].entries[i].value, pages, store);
      }
    }

    // -------------------------------------------------------------- removal

    /** A whole tree holding the contents; the table may have other pages besides. */
    ghost predicate Settled()
      reads this, listed, arrays
    {
      && Mirrored()
      && WellFormed(store, info, rootPageId, Lim())
      && Holds(store, info, contents)
    }

    /** Takes a key out; a key that is not there makes no difference.  As many pages leave the tree as the
        program would free, and freed are the ones that it would.  Each of them is still part of the tree
        exactly if it was the first child of its parent. */
    method Remove(key: int) returns (ghost freed: set<PageId>)
      requires Valid()
      modifies this, listed, arrays
      ensures Valid() && listed == old(listed) && arrays == old(arrays)
      ensures contents == old(contents) - {key}
      ensures Frees(freed, old(info), info, old(rootPageId), old(store), 0)
      ensures key !in old(contents) ==> freed == {} && info == old(info) && store == old(store)
      ensures key in old(contents) ==> forall p :: old(InCharge(p, key)) ==>
                |freed| == TreeGrowth.Go(old(store), old(info), old(rootPageId), Lim(), p, |old(store)[p].entries| - 1)
    {
      freed := {};
      FreesNone(info, info, rootPageId, store, 0);
      if IsEmpty() {
        return;
      }
      var p, page, _ := FindLeafPage(key, false);
      OneInCharge(p, key);
      forall q | old(InCharge(q, key))
        ensures q == p
      {
        assert InCharge(q, key);
      }
      assert NodeOk(store, info, rootPageId, Lim(), INVALID_PAGE_ID, p);
      assert LeafHolds(store[p], info[p], contents);
      var found, _ := LeafPage.Lookup(page, key);
      if found {
        freed := RemoveAndRebalance(p, page, key);
      }
    }

    method RemoveAndRebalance(p: PageId, page: BPlusTreePage, key: int) returns (ghost freed: set<PageId>)
      requires Valid() && p in info && p in pages && page == pages[p] && page in listed && page.entries in arrays
      requires store[p].leaf && HasKey(store[p], key)
      modifies this, listed, arrays
      ensures Valid() && listed == old(listed) && arrays == old(arrays)
      ensures contents == old(contents) - {key}
      ensures Frees(freed, old(info), info, old(rootPageId), old(store), 0)
      ensures |freed| == TreeGrowth.Go(old(store), old(info), old(rootPageId), Lim(), p, |old(store)[p].entries| - 1)
    {
      ghost var s, info0, root := store, info, rootPageId;
      RemovePresent(p, page, key);
      ghost var s1 := store;
      freed := Rebalance(p);
      FreesSame(freed, info0, info, root, s, s1, info0[p].level);
    }

    method Rebalance(p: PageId) returns (ghost freed: set<PageId>)
      requires Busy(p) && p in info && |store[p].entries| <= Lim().MaxSize(store[p].leaf)
      requires info.Keys == store.Keys
      modifies `rootPageId, `pages, `store, `info, listed, arrays
      ensures Valid() && Frees(freed, old(info), info, old(rootPageId), old(store), old(info)[p].level)
      ensures |freed| == TreeGrowth.Go(old(store), old(info), old(rootPageId), Lim(), p, |old(store)[p].entries|)
    {
      ghost var s, info0, root := store, info, rootPageId;
      var deleted, emptied;
      deleted, emptied, freed := CoalesceOrRedistribute(p, {});
      StayedKeys(info0, p, {}, info, store.Keys, deleted, emptied);
      if deleted {
        DeletePage(emptied);
      }
    }

    /** The entry out of its leaf, which may thereby become too short. */
    method RemovePresent(p: PageId, page: BPlusTreePage, key: int)
      requires Busy(INVALID_PAGE_ID) && p in info && p in pages && page == pages[p]
      requires store[p].leaf && HasKey(store[p], key)
      modifies `store, `contents, page, page.entries
      ensures Busy(p) && store.Keys == old(store.Keys) && contents == old(contents) - {key}
      ensures |store[p].entries| <= Lim().MaxSize(store[p].leaf)
      ensures SameFirsts(info, rootPageId, old(store), store, 0)
      ensures TreeGrowth.Go(store, info, rootPageId, Lim(), p, |store[p].entries|)
              == TreeGrowth.Go(old(store), info, rootPageId, Lim(), p, |old(store)[p].entries| - 1)
    {
      TreeRemove.LeafRemoveKeeps(store, info, rootPageId, Lim(), p, key, contents);
      assert NodeOk(store, info, rootPageId, Lim(), INVALID_PAGE_ID, p);
      LeafFirsts(store, info, rootPageId, Lim(), p, TreeRemove.LeafRemoved(store[p], key));
      TreeGrowth.LeafSame(store, info, rootPageId, Lim(), INVALID_PAGE_ID, p, TreeRemove.LeafRemoved(store[p], key),
                          |store[p].entries| - 1);
      RemoveEntry(p, page, key);
      contents := contents - {key};
    }

    /** Page p back to the buffer pool; it is not part of the tree. */
    method DeletePage(p: PageId)
      requires Settled() && p !in info
      modifies `pages, `store
      ensures Settled() && store == old(store) - {p} && store.Keys == old(store.Keys) - {p}
    {
      GarbageIgnored(store, info, rootPageId, Lim(), store - {p}, contents);
      Drop(p);
    }

    method Drop(p: PageId)
      requires Mirrored()
      modifies `pages, `store
      ensures Mirrored() && store == old(store) - {p}
    {
      assert Each(0);
      TracksDrop(pages, store, p);
      pages := pages - {p};
      Record(store - {p});
    }

    /** Brings page node, which may have one entry too few, back to its minimum, working up the tree
        as far as pages are coalesced.  If that takes a page of the level of node out of the tree,
        deleted is set and the page is left for the caller to delete; pages of higher levels that
        drop out are deleted here.  spare are pages that were waiting for that before.  freed are the
        pages that the program frees: at each level the one that the repair was called for. */
    method CoalesceOrRedistribute(node: PageId, ghost spare: set<PageId>)
      returns (deleted: bool, emptied: PageId, ghost freed: set<PageId>)
      requires Busy(node) && node in info && |store[node].entries| <= Lim().MaxSize(store[node].leaf)
      requires info.Keys !! spare && store.Keys == info.Keys + spare
      modifies `rootPageId, `pages, `store, `info, listed, arrays
      ensures Settled()
      ensures Outcome(old(store), old(info), old(rootPageId), node, spare, info, store.Keys, deleted, emptied, freed)
      ensures |freed| == TreeGrowth.Go(old(store), old(info), old(rootPageId), Lim(), node, |old(store)[node].entries|)
      decreases info[rootPageId].level - info[node].level, 3
    {
      emptied := node;
      ghost var s, info0 := store, info;
      if node == rootPageId {
        deleted := AdjustRoot();
        if deleted {
          freed := {node};
          OutcomeRoot(s, info0, node, Lim(), spare, info);
        } else {
          freed := {};
          OutcomeNone(s, info0, node, node, spare, info);
        }
        return;
      }
      var size, minSize, maxSize := Sizes(node);
      if size >= minSize {
        NoAllowance(store, info, rootPageId, Lim(), node);
        OutcomeNone(store, info, rootPageId, node, spare, info);
        return false, node, {};
      }
      deleted, emptied, freed := Repair(node, size, maxSize, spare);
    }

    /** The same for a page below the root that is one entry short. */
    method Repair(node: PageId, size: int, maxSize: int, ghost spare: set<PageId>)
      returns (deleted: bool, emptied: PageId, ghost freed: set<PageId>)
      requires Busy(node) && node in info && node != rootPageId
      requires size == |store[node].entries| < Lim().MinSize(store[node].leaf)
               && maxSize == Lim().MaxSize(store[node].leaf)
      requires info.Keys !! spare && store.Keys == info.Keys + spare
      modifies `rootPageId, `pages, `store, `info, listed, arrays
      ensures Settled()
      ensures Outcome(old(store), old(info), old(rootPageId), node, spare, info, store.Keys, deleted, emptied, freed)
      ensures |freed| == TreeGrowth.Go(old(store), old(info), old(rootPageId), Lim(), node, |old(store)[node].entries|)
      decreases info[rootPageId].level - info[node].level, 2
    {
      ghost var s, info0, root := store, info, rootPageId;
      var sibling, parent, index := FindSibling(node);
      var siblingSize, _, _ := Sizes(sibling);
      if siblingSize + size > maxSize {
        Redistribute(sibling, node, parent, index);
        OutcomeNone(s, info0, root, node, spare, info);
        return false, node, {};
      }
      emptied, freed := CoalesceAndDelete(sibling, node, parent, index, spare);
      deleted := true;
    }

    /** Coalesces, and deletes the page of the next level that may drop out. */
    method CoalesceAndDelete(sibling: PageId, node: PageId, parent: PageId, index: int, ghost spare: set<PageId>)
      returns (emptied: PageId, ghost freed: set<PageId>)
      requires Busy(node) && Repairs(sibling, node, parent, index)
      requires SizeOfBoth(sibling, node) <= Lim().MaxSize(store[node].leaf) && node in info && node != rootPageId
      requires (FirstChild(store, node) <==> index == 0) && parent in store
      requires info.Keys !! spare && store.Keys == info.Keys + spare
      modifies `rootPageId, `pages, `store, `info, listed, arrays
      ensures Settled()
      ensures Outcome(old(store), old(info), old(rootPageId), node, spare, info, store.Keys, true, emptied, freed)
      ensures |freed| == 1 + TreeGrowth.Go(old(store), old(info), old(rootPageId), Lim(), parent,
                                           |old(store)[parent].entries| - 1)
      decreases info[rootPageId].level - info[node].level, 1
    {
      var parentDeleted, parentEmptied;
      emptied, parentDeleted, parentEmptied, freed := Coalesce(sibling, node, parent, index, spare);
      if parentDeleted {
        DeletePage(parentEmptied);
      }
    }

    /** The page to repair node with. */
    method FindSibling(node: PageId) returns (sibling: PageId, parent: PageId, index: int)
      requires Busy(node) && node in info && node != rootPageId
               && |store[node].entries| < Lim().MinSize(store[node].leaf)
      ensures Repairs(sibling, node, parent, index) && parent in store
      ensures FirstChild(store, node) <==> index == 0
      ensures TreeGrowth.Go(store, info, rootPageId, Lim(), node, |store[node].entries|)
              == if SizeOfBoth(sibling, node) > Lim().MaxSize(store[node].leaf) then 0
                 else 1 + TreeGrowth.Go(store, info, rootPageId, Lim(), parent, |store[parent].entries| - 1)
    {
      ghost var _, _ := TreeRemove.ShortSite(store, info, rootPageId, Lim(), node);
      var page := FetchPage(node);
      parent := page.parentPageId;
      index := IndexIn(parent, node);
      var e := EntryAt(parent, if index == 0 then 1 else index - 1);
      sibling := e.value;
      TreeRemove.RepairPair(store, info, rootPageId, Lim(), sibling, node, parent, index);
      TreeGrowth.GoStep(store, info, rootPageId, Lim(), node, sibling);
    }

    /** node is one entry short, and sibling is the page the repair works with. */
    ghost predicate Repairs(sibling: PageId, node: PageId, parent: PageId, index: int)
      reads `store, `info, `rootPageId
    {
      sibling in store && node in store
        && TreeRemove.Repair(store, info, rootPageId, Lim(), sibling, node, parent, index)
    }

    /** The sizes of the two pages of a repair. */
    ghost function SizeOfBoth(sibling: PageId, node: PageId): int
      requires sibling in store && node in store
      reads `store
    {
      |store[sibling].entries| + |store[node].entries|
    }

    /** One entry from the sibling to node. */
    method Redistribute(sibling: PageId, node: PageId, parent: PageId, index: int)
      requires Busy(node) && Repairs(sibling, node, parent, index)
      requires SizeOfBoth(sibling, node) > Lim().MaxSize(store[node].leaf)
      modifies `store, `info, listed`size, listed`parentPageId, arrays
      ensures Busy(INVALID_PAGE_ID) && store.Keys == old(store.Keys) && info.Keys == old(info.Keys)
      ensures |store[node].entries| == |old(store)[node].entries| + 1
      ensures |store[sibling].entries| == |old(store)[sibling].entries| - 1
    {
      TreeRemove.RepairPair(store, info, rootPageId, Lim(), sibling, node, parent, index);
      if index == 0 {
        RedistributeFirst(node, sibling, parent);
      } else {
        RedistributeLast(sibling, node, parent, index);
      }
    }

    method RedistributeFirst(l: PageId, r: PageId, parent: PageId)
      requires Busy(l) && TreeRemove.Short(store, info, rootPageId, Lim(), l, l, r, parent, 1) && l in store
               && r in store
      requires SizeOfBoth(r, l) > Lim().MaxSize(store[l].leaf)
      modifies `store, `info, listed`size, listed`parentPageId, arrays
      ensures Busy(INVALID_PAGE_ID) && store.Keys == old(store.Keys) && info.Keys == old(info.Keys)
      ensures |store[l].entries| == |old(store)[l].entries| + 1 && |store[r].entries| == |old(store)[r].entries| - 1
    {
      ReadyToMove(l, l, r, parent, 1);
      ghost var info' := TreeRemove.FirstShiftedOk(store, info, rootPageId, Lim(), l, r, parent, contents);
      ShiftFirst(l, r, parent);
      info := info';
    }

    method RedistributeLast(l: PageId, r: PageId, parent: PageId, i: int)
      requires Busy(r) && TreeRemove.Short(store, info, rootPageId, Lim(), r, l, r, parent, i) && l in store
               && r in store
      requires SizeOfBoth(l, r) > Lim().MaxSize(store[r].leaf)
      modifies `store, `info, listed`size, listed`parentPageId, arrays
      ensures Busy(INVALID_PAGE_ID) && store.Keys == old(store.Keys) && info.Keys == old(info.Keys)
      ensures |store[r].entries| == |old(store)[r].entries| + 1 && |store[l].entries| == |old(store)[l].entries| - 1
    {
      ReadyToMove(r, l, r, parent, i);
      ghost var info' := TreeRemove.LastShiftedOk(store, info, rootPageId, Lim(), l, r, parent, i, contents);
      ShiftLast(l, r, parent, i);
      info := info';
    }

    /** The first entry of r to l, and the key that r then starts with to the parent. */
    method ShiftFirst(l: PageId, r: PageId, parent: PageId)
      requires Mirrored() && Movable(r, l) && |store[r].entries| > 1
      requires parent in store && parent != l && parent != r && |store[parent].entries| > 1
      modifies `store, listed`size, listed`parentPageId, arrays
      ensures Mirrored() && store == TreeRemove.FirstShifted(old(store), l, r, parent)
    {
      var mid := EntryAt(parent, 1);
      MoveFirst(l, r, mid.key);
      var first := EntryAt(r, 0);
      SetKeyAt(parent, 1, first.key);
    }

    /** The last entry of l to r, and the key that r then starts with to the parent. */
    method ShiftLast(l: PageId, r: PageId, parent: PageId, i: int)
      requires Mirrored() && Movable(l, r)
      requires parent in store && parent != l && parent != r && 0 <= i < |store[parent].entries|
      modifies `store, listed`size, listed`parentPageId, arrays
      ensures Mirrored() && store == TreeRemove.LastShifted(old(store), l, r, parent, i)
    {
      var mid := EntryAt(parent, i);
      MoveLast(l, r, mid.key);
      var first := EntryAt(r, 0);
      SetKeyAt(parent, i, first.key);
    }

    /** What the moves between two siblings need. */
    lemma ReadyToMove(x: PageId, l: PageId, r: PageId, parent: PageId, i: int)
      requires TreeRemove.Short(store, info, rootPageId, Lim(), x, l, r, parent, i)
      ensures l in store && r in store && parent in store && l != r && l != parent && r != parent
      ensures 1 <= i < |store[parent].entries| && store[l].leaf == store[r].leaf
      ensures x == l && SizeOfBoth(l, r) > Lim().MaxSize(store[l].leaf) ==> Movable(r, l) && |store[r].entries| > 1
      ensures x == r && SizeOfBoth(l, r) > Lim().MaxSize(store[l].leaf) ==> Movable(l, r) && |store[l].entries| > 1
      ensures !store[l].leaf ==> Movable(r, l) && |store[r].entries| > 0
    {
      TreeRemove.ShortPair(store, info, rootPageId, Lim(), x, l, r, parent, i);
    }

    /** Joins node and its sibling in the left one of the two, and repairs their parent, which now
        has one entry less.  Which of the two has been emptied depends on which one was left. */
    method Coalesce(sibling: PageId, node: PageId, parent: PageId, index: int, ghost spare: set<PageId>)
      returns (emptied: PageId, parentDeleted: bool, parentEmptied: PageId, ghost freed: set<PageId>)
      requires Busy(node) && Repairs(sibling, node, parent, index)
      requires SizeOfBoth(sibling, node) <= Lim().MaxSize(store[node].leaf) && node in info && node != rootPageId
      requires (FirstChild(store, node) <==> index == 0) && parent in store
      requires info.Keys !! spare && store.Keys == info.Keys + spare
      modifies `rootPageId, `pages, `store, `info, listed, arrays
      ensures Settled()
      ensures emptied == if index == 0 then sibling else node
      ensures node in info <==> index == 0
      ensures parentDeleted ==> parentEmptied !in info
      ensures Outcome(old(store), old(info), old(rootPageId), node, spare, info,
                      store.Keys - if parentDeleted then {parentEmptied} else {}, true, emptied, freed)
      ensures |freed| == 1 + TreeGrowth.Go(old(store), old(info), old(rootPageId), Lim(), parent,
                                           |old(store)[parent].entries| - 1)
      decreases info[rootPageId].level - info[node].level, 0
    {
      TreeRemove.RepairPair(store, info, rootPageId, Lim(), sibling, node, parent, index);
      var l, r, i := sibling, node, index;
      if index == 0 {
        l, r, i := node, sibling, 1;
      }
      ghost var s, info0, root := store, info, rootPageId;
      JoinPair(node, l, r, parent, i);
      emptied := r;
      parentDeleted, parentEmptied, freed := RepairAbove(node, r, parent, spare, s, info0, root);
    }

    /** Goes on with the parent, once page r has been emptied. */
    method RepairAbove(ghost node: PageId, ghost r: PageId, parent: PageId, ghost spare: set<PageId>,
                       ghost s: Store, ghost info0: map<PageId, Info>, ghost root: PageId)
      returns (parentDeleted: bool, parentEmptied: PageId, ghost freed: set<PageId>)
      requires Busy(parent) && parent in info && |store[parent].entries| <= Lim().MaxSize(store[parent].leaf)
      requires rootPageId == root && store.Keys == info0.Keys + spare && info0.Keys !! spare
      requires node in info0 && node != root && r in info0 && info0[r].level == info0[node].level
      requires info.Keys == info0.Keys - {r} && forall c :: c in info ==> info[c].level == info0[c].level
      requires info[parent].level == info0[node].level + 1
      requires SameFirsts(info0, root, s, store, info0[node].level + 1) && (node != r <==> FirstChild(s, node))
      modifies `rootPageId, `pages, `store, `info, listed, arrays
      ensures Settled() && (node in info <==> node != r)
      ensures parentDeleted ==> parentEmptied !in info
      ensures Outcome(s, info0, root, node, spare, info,
                      store.Keys - if parentDeleted then {parentEmptied} else {}, true, r, freed)
      ensures |freed| == 1 + TreeGrowth.Go(old(store), old(info), root, Lim(), parent, |old(store)[parent].entries|)
      decreases info[rootPageId].level - info[parent].level, 4
    {
      ghost var s1, info1 := store, info;
      assert store.Keys == info.Keys + (spare + {r});
      parentDeleted, parentEmptied, freed := CoalesceOrRedistribute(parent, spare + {r});
      StayedKeys(info1, parent, spare + {r}, info, store.Keys, parentDeleted, parentEmptied);
      StayedAbove(info0, node, spare, r, info1, parent, info, store.Keys, parentDeleted, parentEmptied);
      FreesMore(freed, info0, s, info1, s1, info, root, node, r, info0[node].level);
      freed := freed + {node};
    }

    /** Joins two siblings in the left one. */
    method JoinPair(ghost x: PageId, l: PageId, r: PageId, parent: PageId, i: int)
      requires Busy(x) && TreeRemove.Short(store, info, rootPageId, Lim(), x, l, r, parent, i) && l in store
               && r in store
      requires x in info
      requires SizeOfBoth(l, r) <= Lim().MaxSize(store[l].leaf)
      modifies `store, `info, listed`size, listed`nextPageId, listed`parentPageId, arrays
      ensures Busy(parent) && store.Keys == old(store.Keys) && parent in info
      ensures |store[parent].entries| <= Lim().MaxSize(store[parent].leaf)
      ensures r in old(info) && info.Keys == old(info.Keys) - {r}
      ensures forall c :: c in info ==> info[c].level == old(info)[c].level
      ensures info[parent].level == old(info)[x].level + 1 && old(info)[r].level == old(info)[x].level
      ensures SameFirsts(old(info), rootPageId, old(store), store, old(info)[x].level + 1)
      ensures parent in old(store) && TreeGrowth.Go(store, info, rootPageId, Lim(), parent, |store[parent].entries|)
              == TreeGrowth.Go(old(store), old(info), rootPageId, Lim(), parent, |old(store)[parent].entries| - 1)
    {
      ReadyToMove(x, l, r, parent, i);
      TreeRemove.FirstChildrenKept(store, info, rootPageId, Lim(), x, l, r, parent, i);
      ghost var info' := TreeRemove.JoinedAndDroppedOk(store, info, rootPageId, Lim(), x, l, r, parent, i, contents);
      TreeGrowth.JoinedGo(store, info, rootPageId, Lim(), x, l, r, parent, i, info');
      JoinAndDrop(l, r, parent, i);
      info := info';
    }

    /** All entries of r to l, and the entry of r out of the parent. */
    method JoinAndDrop(l: PageId, r: PageId, parent: PageId, i: int)
      requires Mirrored() && l in store && r in store && l != r && store[l].leaf == store[r].leaf
      requires SizeOfBoth(l, r) <= Lim().MaxSize(store[l].leaf)
      requires !store[r].leaf ==> Movable(r, l)
      requires parent in store && parent != l && parent != r && 0 <= i < |store[parent].entries|
      modifies `store, listed`size, listed`nextPageId, listed`parentPageId, arrays
      ensures Mirrored() && store == TreeRemove.JoinedAndDropped(old(store), l, r, parent, i)
    {
      var mid := EntryAt(parent, i);
      MoveAll(l, r, mid.key);
      RemoveIndex(parent, i);
    }

    /** A root with one child gives way to it; an empty leaf leaves an empty tree. */
    method AdjustRoot() returns (deleted: bool)
      requires Busy(rootPageId) && |store[rootPageId].entries| <= Lim().MaxSize(store[rootPageId].leaf)
      modifies `rootPageId, `store, `info, listed`size, listed`parentPageId
      ensures Settled() && store.Keys == old(store.Keys)
      ensures info.Keys == if deleted then old(info.Keys) - {old(rootPageId)} else old(info.Keys)
      ensures deleted <==> old(|store[rootPageId].entries|) == if old(store[rootPageId].leaf) then 0 else 1
    {
      assert NodeOk(store, info, rootPageId, Lim(), rootPageId, rootPageId);
      var page := FetchPage(rootPageId);
      if !page.isLeaf && page.size == 1 {
        LowerRoot();
        deleted := true;
      } else if page.isLeaf && page.size == 0 {
        TreeRemove.LastEntryGone(store, info, rootPageId, Lim(), contents);
        rootPageId, info := INVALID_PAGE_ID, map[];
        deleted := true;
      } else {
        NoAllowance(store, info, rootPageId, Lim(), rootPageId);
        deleted := false;
      }
    }

    /** The only child becomes the root. */
    method LowerRoot()
      requires Busy(rootPageId) && !store[rootPageId].leaf && |store[rootPageId].entries| == 1
      modifies `rootPageId, `store, `info, listed`size, listed`parentPageId
      ensures Settled() && store.Keys == old(store.Keys)
      ensures info.Keys == old(info.Keys) - {old(rootPageId)}
    {
      ghost var s := store;
      TreeRemove.OnlyChild(s, info, rootPageId, Lim());
      var child := TakeOnlyChild(rootPageId);
      SetParentPageId(child, INVALID_PAGE_ID);
      TreeRemove.RootReplaced(s, info, rootPageId, Lim(), store, contents);
      SetRoot(child, info - {rootPageId});
    }

    method TakeOnlyChild(p: PageId) returns (child: PageId)
      requires Mirrored() && p in store && |store[p].entries| == 1
      modifies `store, listed`size
      ensures Mirrored() && child == old(store)[p].entries[0].value
      ensures store == old(store)[p := old(store)[p].(entries := [])]
    {
      assert Each(0);
      var page := FetchPage(p);
      child := InternalPage.RemoveAndReturnOnlyChild(page);
      OneChanged(p, page.View());
      Record(store[p := page.View()]);
    }

    method Sizes(p: PageId) returns (size: int, minSize: int, maxSize: int)
      requires Mirrored() && p in store
      ensures size == |store[p].entries|
      ensures minSize == Lim().MinSize(store[p].leaf) && maxSize == Lim().MaxSize(store[p].leaf)
    {
      var page := FetchPage(p);
      size, maxSize := page.size, page.maxSize;
      minSize := page.GetMinSize();
    }

    /** Which child of parent the page is. */
    method IndexIn(parent: PageId, p: PageId) returns (index: int)
      requires Mirrored() && parent in store
      ensures index == ValueIndex(store[parent], p)
    {
      var page := FetchPage(parent);
      index := InternalPage.GetValueIndex(page, p);
    }
  }
}
