/** The allocation bitmap of an extent, with a count of the pages in use and a mark above which no page
    has ever been in use. */
module BitmapPages {

  // ------------------------------------------------------------------ bits of a byte

  /** 1 << j. */
  function Mask(j: int): bv8
    requires 0 <= j < 8
  {
    if j == 0 then 0x01 else if j == 1 then 0x02 else if j == 2 then 0x04 else if j == 3 then 0x08
    else if j == 4 then 0x10 else if j == 5 then 0x20 else if j == 6 then 0x40 else 0x80
  }

  predicate Bit(b: bv8, j: int)
    requires 0 <= j < 8
  {
    b & Mask(j) != 0
  }

  lemma BitSet(b: bv8, j: int, k: int)
    requires 0 <= j < 8 && 0 <= k < 8
    ensures Bit(b | Mask(j), k) <==> k == j || Bit(b, k)
  {
  }

  lemma BitCleared(b: bv8, j: int, k: int)
    requires 0 <= j < 8 && 0 <= k < 8
    ensures Bit(b & !Mask(j), k) <==> k != j && Bit(b, k)
  {
  }

  /** The bit as the program tests it in its search. */
  lemma BitShifted(b: bv8, j: int)
    requires 0 <= j < 8
    ensures Bit(b, j) <==> (b >> j) & 1 == 1
  {
    if j == 0 {
    } else if j == 1 {
    } else if j == 2 {
    } else if j == 3 {
    } else if j == 4 {
    } else if j == 5 {
    } else if j == 6 {
    } else {
    }
  }

  lemma AllBits(b: bv8)
    ensures b == 255 <==> forall j :: 0 <= j < 8 ==> Bit(b, j)
  {
    if forall j :: 0 <= j < 8 ==> Bit(b, j) {
      assert Bit(b, 0) && Bit(b, 1) && Bit(b, 2) && Bit(b, 3) && Bit(b, 4) && Bit(b, 5) && Bit(b, 6) && Bit(b, 7);
    }
  }

  // ------------------------------------------------------------------ bits of a bitmap

  predicate InUse(d: seq<bv8>, i: int)
    requires 0 <= i < 8 * |d|
  {
    Bit(d[i / 8], i % 8)
  }

  /** Page i has bit i % 8, from the lowest on, of byte i / 8. */
  lemma InUseIs(d: seq<bv8>, i: int)
    requires 0 <= i < 8 * |d|
    ensures InUse(d, i) <==> (d[i / 8] >> (i % 8)) & 1 == 1
  {
    BitShifted(d[i / 8], i % 8);
  }

  /** Which of the pages are in use. */
  function Pages(d: seq<bv8>): (s: seq<bool>)
    ensures |s| == 8 * |d|
  {
    seq(8 * |d|, i requires 0 <= i < 8 * |d| => InUse(d, i))
  }

  function Count(s: seq<bool>): (n: nat)
    ensures n <= |s|
  {
    if s == [] then 0 else Count(s[..|s| - 1]) + if s[|s| - 1] then 1 else 0
  }

  lemma {:induction false} CountChanged(s: seq<bool>, i: int)
    requires 0 <= i < |s| && !s[i]
    ensures Count(s[i := true]) == Count(s) + 1
    decreases |s|
  {
    var n := |s| - 1;
    if i < n {
      assert s[i := true][..n] == s[..n][i := true];
      CountChanged(s[..n], i);
    } else {
      assert s[i := true][..n] == s[..n];
    }
  }

  /** Pages in use below m only: they are at most m, and exactly m if and only if all are. */
  lemma {:induction false} CountBelow(s: seq<bool>, m: nat)
    requires m <= |s| && forall i :: m <= i < |s| ==> !s[i]
    ensures Count(s) <= m
    ensures Count(s) == m <==> forall i :: 0 <= i < m ==> s[i]
    decreases |s|
  {
    if s != [] {
      var n := |s| - 1;
      CountBelow(s[..n], if m <= n then m else n);
    }
  }

  /** All of the first m pages in use. */
  lemma {:induction false} CountAbove(s: seq<bool>, m: nat)
    requires m <= |s| && forall i :: 0 <= i < m ==> s[i]
    ensures Count(s) >= m
    decreases |s|
  {
    if s != [] {
      var n := |s| - 1;
      CountAbove(s[..n], if m <= n then m else n);
    }
  }

  /** i is the first free page. */
  predicate LeastFree(s: seq<bool>, i: int) {
    0 <= i < |s| && !s[i] && forall j :: 0 <= j < i ==> s[j]
  }

  class BitmapPage {
    const bytes: array<bv8>
    var pageAllocated: int
    var nextFreePage: int

    ghost function View(): (s: seq<bool>)
      reads bytes
    {
      Pages(bytes[..])
    }

    ghost predicate Valid()
      reads this, bytes
    {
      && pageAllocated == Count(View())
      && 0 <= nextFreePage <= 8 * bytes.Length
      && forall i :: nextFreePage <= i < 8 * bytes.Length ==> !View()[i]
    }

    /** A zeroed page. */
    constructor (maxChars: nat)
      ensures Valid() && bytes.Length == maxChars && fresh(bytes)
      ensures forall i :: 0 <= i < 8 * maxChars ==> !View()[i]
    {
      bytes := new bv8[maxChars](_ => 0);
      pageAllocated, nextFreePage := 0, 0;
      new;
      CountBelow(View(), 0);
    }

    predicate IsPageFree(offset: int)
      requires 0 <= offset < 8 * bytes.Length
      reads bytes
      ensures IsPageFree(offset) <==> !View()[offset]
    {
      bytes[offset / 8] & Mask(offset % 8) == 0
    }

    /** The first byte that is not full; the count of the pages in use is bound enough. */
    method FindByte() returns (i: int)
      requires Valid() && pageAllocated < 8 * bytes.Length
      ensures 0 <= i < bytes.Length && bytes[i] != 255
      ensures forall k :: 0 <= k < i ==> bytes[k] == 255
    {
      i := 0;
      while i <= pageAllocated
        invariant 0 <= i <= bytes.Length && forall k :: 0 <= k < i ==> bytes[k] == 255
        invariant 8 * i <= pageAllocated
        decreases bytes.Length - i
      {
        if bytes[i] != 255 {
          return;
        }
        i := i + 1;
        FullBytes(i);
      }
    }

    lemma FullBytes(i: int)
      requires Valid() && 0 <= i <= bytes.Length && forall k :: 0 <= k < i ==> bytes[k] == 255
      ensures 8 * i <= pageAllocated
    {
      forall k | 0 <= k < 8 * i
        ensures View()[k]
      {
        AllBits(bytes[k / 8]);
      }
      CountAbove(View(), 8 * i);
    }

    /** The first clear bit of a byte that is not full. */
    method FindBit(b: bv8) returns (j: int)
      requires b != 255
      ensures 0 <= j < 8 && !Bit(b, j) && forall k :: 0 <= k < j ==> Bit(b, k)
    {
      AllBits(b);
      j := 0;
      while j < 8
        invariant 0 <= j <= 8 && forall k :: 0 <= k < j ==> Bit(b, k)
      {
        if b & Mask(j) == 0 {
          break;
        }
        j := j + 1;
      }
    }

    /** Takes the first free page; there is none exactly if all are in use. */
    method AllocatePage() returns (ok: bool, offset: int)
      requires Valid()
      modifies this, bytes
      ensures Valid() && (ok <==> exists i :: 0 <= i < |old(View())| && !old(View())[i])
      ensures ok ==> LeastFree(old(View()), offset) && View() == old(View())[offset := true]
      ensures ok ==> pageAllocated == old(pageAllocated) + 1
                     && nextFreePage == old(nextFreePage) + if old(pageAllocated == nextFreePage) then 1 else 0
      ensures !ok ==> View() == old(View()) && pageAllocated == old(pageAllocated) && nextFreePage == old(nextFreePage)
    {
      CountBelow(View(), 8 * bytes.Length);
      if pageAllocated == 8 * bytes.Length {
        return false, 0;
      }
      if pageAllocated == nextFreePage {
        CountBelow(View(), nextFreePage);
        offset := nextFreePage;
        pageAllocated := pageAllocated + 1;
        nextFreePage := nextFreePage + 1;
      } else {
        offset := FindHole();
        pageAllocated := pageAllocated + 1;
      }
      CountChanged(View(), offset);
      SetBit(offset);
      ok := true;
    }

    /** The search for a page that has been given back. */
    method FindHole() returns (offset: int)
      requires Valid() && pageAllocated < 8 * bytes.Length && pageAllocated != nextFreePage
      ensures LeastFree(View(), offset) && offset < nextFreePage
    {
      var i := FindByte();
      var j := FindBit(bytes[i]);
      offset := i * 8 + j;
      forall k | 0 <= k < offset
        ensures View()[k]
      {
        AllBits(bytes[k / 8]);
      }
      assert !View()[offset];
      CountBelow(View(), nextFreePage);
    }

    method SetBit(offset: int)
      requires 0 <= offset < 8 * bytes.Length
      modifies bytes
      ensures View() == old(View())[offset := true]
    {
      ghost var d := bytes[..];
      bytes[offset / 8] := bytes[offset / 8] | Mask(offset % 8);
      forall k | 0 <= k < 8 * bytes.Length
        ensures View()[k] == (k == offset || Pages(d)[k])
      {
        BitSet(d[offset / 8], offset % 8, k % 8);
      }
    }

    /** Gives a page back; giving back a free page is refused. */
    method DeAllocatePage(offset: int) returns (ok: bool)
      requires Valid() && 0 <= offset < 8 * bytes.Length
      modifies this, bytes
      ensures Valid() && ok == old(View())[offset] && View() == old(View())[offset := false]
      ensures pageAllocated == old(pageAllocated) - (if ok then 1 else 0) && nextFreePage == old(nextFreePage)
    {
      if IsPageFree(offset) {
        assert View() == View()[offset := false];
        return false;
      }
      ClearBit(offset);
      CountChanged(View(), offset);
      assert old(View()) == View()[offset := true];
      pageAllocated := pageAllocated - 1;
      ok := true;
    }

    method ClearBit(offset: int)
      requires 0 <= offset < 8 * bytes.Length
      modifies bytes
      ensures View() == old(View())[offset := false]
    {
      ghost var d := bytes[..];
      bytes[offset / 8] := bytes[offset / 8] & !Mask(offset % 8);
      forall k | 0 <= k < 8 * bytes.Length
        ensures View()[k] == (k != offset && Pages(d)[k])
      {
        BitCleared(d[offset / 8], offset % 8, k % 8);
      }
    }
  }
}
