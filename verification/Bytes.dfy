/** Memory as bytes: 32-bit words in it, and moving stretches of it that may overlap. */
module Bytes {
  type byte = b: int | 0 <= b < 256

  const WORD_LIMIT := 0x1_0000_0000

  /** A signed number as an unsigned word, and back. */
  function Unsigned(i: int): int {
    if i < 0 then i + WORD_LIMIT else i
  }

  function Signed(w: int): (i: int)
    requires 0 <= w < WORD_LIMIT
    ensures Unsigned(i) == w && -0x8000_0000 <= i < 0x8000_0000
  {
    if w >= 0x8000_0000 then w - WORD_LIMIT else w
  }

  /** The unsigned little-endian 32-bit word at a position. */
  function Word(d: seq<byte>, at: int): (w: int)
    requires 0 <= at && at + 4 <= |d|
    ensures 0 <= w < WORD_LIMIT
  {
    d[at] as int + 0x100 * (d[at + 1] as int) + 0x1_0000 * (d[at + 2] as int) + 0x100_0000 * (d[at + 3] as int)
  }

  /** Digit i of a word to the base 256, lowest first. */
  function Digit(w: nat, i: nat): byte {
    (if i == 0 then w else if i == 1 then w / 0x100 else if i == 2 then w / 0x1_0000 else w / 0x100_0000) % 0x100
  }

  /** The four bytes of a word. */
  function WordBytes(w: int): (b: seq<byte>)
    requires 0 <= w < WORD_LIMIT
    ensures |b| == 4
  {
    seq(4, i requires 0 <= i < 4 => Digit(w, i))
  }

  /** Four digits to the base 256. */
  lemma SumOfDigits(w: int)
    requires 0 <= w < WORD_LIMIT
    ensures Digit(w, 0) + 0x100 * Digit(w, 1) + 0x1_0000 * Digit(w, 2) + 0x100_0000 * Digit(w, 3) == w
  {
    var w1 := w / 0x100;
    var w2 := w1 / 0x100;
    var w3 := w2 / 0x100;
    assert w2 == w / 0x1_0000 && w3 == w / 0x100_0000 && w3 % 0x100 == w3;
  }

  /** Whoever holds the bytes of a word holds the word. */
  lemma WordOfBytes(d: seq<byte>, at: int, w: int)
    requires 0 <= w < WORD_LIMIT && 0 <= at && at + 4 <= |d| && d[at..at + 4] == WordBytes(w)
    ensures Word(d, at) == w
  {
    SumOfDigits(w);
    var b := d[at..at + 4];
    assert d[at] == b[0] && d[at + 1] == b[1] && d[at + 2] == b[2] && d[at + 3] == b[3];
  }

  /** d and e have the same length and differ in [lo, hi) only. */
  predicate SameOutside(d: seq<byte>, e: seq<byte>, lo: int, hi: int) {
    |d| == |e| && forall k :: 0 <= k < |d| && !(lo <= k < hi) ==> e[k] == d[k]
  }

  method SetWord(a: array<byte>, at: int, w: int)
    requires 0 <= at && at + 4 <= a.Length && 0 <= w < WORD_LIMIT
    modifies a
    ensures Word(a[..], at) == w && a[at..at + 4] == WordBytes(w)
    ensures SameOutside(old(a[..]), a[..], at, at + 4)
  {
    a[at], a[at + 1], a[at + 2], a[at + 3] := Digit(w, 0), Digit(w, 1), Digit(w, 2), Digit(w, 3);
    WordOfBytes(a[..], at, w);
  }

  method GetWord(a: array<byte>, at: int) returns (w: int)
    requires 0 <= at && at + 4 <= a.Length
    ensures w == Word(a[..], at)
  {
    w := a[at] as int + 0x100 * (a[at + 1] as int) + 0x1_0000 * (a[at + 2] as int) + 0x100_0000 * (a[at + 3] as int);
  }

  /** Copies bytes into memory. */
  method Memcpy(a: array<byte>, to: int, b: seq<byte>)
    requires 0 <= to && to + |b| <= a.Length
    modifies a
    ensures a[to..to + |b|] == b && SameOutside(old(a[..]), a[..], to, to + |b|)
  {
    for i := 0 to |b|
      invariant a[to..to + i] == b[..i]
      invariant SameOutside(old(a[..]), a[..], to, to + i)
    {
      a[to + i] := b[i];
    }
  }

  /** Moves n bytes within memory.  The two stretches may overlap: the copying starts at the end
      where nothing is overwritten before it has been read. */
  method Memmove(a: array<byte>, to: int, from: int, n: nat)
    requires 0 <= to && to + n <= a.Length && 0 <= from && from + n <= a.Length
    modifies a
    ensures a[to..to + n] == old(a[from..from + n]) && SameOutside(old(a[..]), a[..], to, to + n)
  {
    ghost var was := a[..];
    if to < from {
      for i := 0 to n
        invariant forall k :: to <= k < to + i ==> a[k] == was[from + (k - to)]
        invariant forall k :: 0 <= k < a.Length && !(to <= k < to + i) ==> a[k] == was[k]
      {
        a[to + i] := a[from + i];
      }
    } else {
      for i := n downto 0
        invariant forall k :: to + i <= k < to + n ==> a[k] == was[from + (k - to)]
        invariant forall k :: 0 <= k < a.Length && !(to + i <= k < to + n) ==> a[k] == was[k]
      {
        a[to + i] := a[from + i];
      }
    }
  }
}
