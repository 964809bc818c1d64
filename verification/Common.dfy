/** What several components share. */
module Common {
  const PAGE_SIZE := 4096

  type PageId = int

  const INVALID_PAGE_ID := -1

  /** A page id as it is stored in a page. */
  type PageId32 = p: PageId | -0x8000_0000 <= p < 0x8000_0000

  predicate Distinct<T(==)>(s: seq<T>) {
    forall i, j :: 0 <= i < j < |s| ==> s[i] != s[j]
  }

  /** A statement under one of these triggers stays closed until Each(0), or Inside(0), is mentioned;
      that keeps proofs that only hand the statement on from looking into it. */
  predicate Each(i: int) {
    true
  }

  predicate Inside(i: int) {
    true
  }
}
