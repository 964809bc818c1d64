/** A row byte by byte, for whoever reads or writes the same files: where every word, bit and string of it is. */
module RowLayout {
  import opened Bytes
  import opened Common
  import opened RowCodec

  /** The bytes a field takes: its type, and its value unless it is null. */
  function Width(f: Field): nat {
    match f
    case Null(_) => 4
    case Int(_) => 8
    case Float(_) => 8
    case Char(c) => 8 + |c|
  }

  /** The bytes in front of field i. */
  function Before(fs: seq<Field>, i: nat): nat
    requires i <= |fs|
  {
    if i == 0 then 0 else Width(fs[0]) + Before(fs[1..], i - 1)
  }

  /** A type word, 1 for integers, 2 for floats and 3 for strings, and behind it the value: four bytes, or
      the length of a string and its bytes. */
  predicate FieldAt(d: seq<byte>, k: int, f: Field) {
    && 0 <= k && k + Width(f) <= |d|
    && match f
       case Null(t) => Word(d, k) == if t.TypeInt? then 1 else if t.TypeFloat? then 2 else 3
       case Int(i) => Word(d, k) == 1 && Word(d, k + 4) == if i < 0 then i + 0x1_0000_0000 else i
       case Float(b) => Word(d, k) == 2 && Word(d, k + 4) == b
       case Char(c) => Word(d, k) == 3 && Word(d, k + 4) == |c| && d[k + 8..k + 8 + |c|] == c
  }

  /** Record id, number of fields, number of bytes in the bitmap. */
  predicate HeaderAt(d: seq<byte>, at: int, r: Rid, n: nat) {
    && 0 <= at && at + 16 <= |d|
    && Word(d, at) == (if r.pageId < 0 then r.pageId + 0x1_0000_0000 else r.pageId)
    && Word(d, at + 4) == r.slot && Word(d, at + 8) == n && Word(d, at + 12) == n / 8 + 1
  }

  /** Bit i, from the lowest bit of the first byte on, is set for a null field, and no other bit is. */
  predicate BitmapAt(d: seq<byte>, at: int, fs: seq<Field>) {
    && 0 <= at && at + |fs| / 8 + 1 <= |d|
    && forall i: nat {:trigger BitSet(d, at, i)} :: i < 8 * (|fs| / 8 + 1) ==>
         (BitSet(d, at, i) <==> i < |fs| && fs[i].Null?)
  }

  predicate BitSet(d: seq<byte>, at: int, i: nat)
    requires 0 <= at && at + i / 8 < |d|
  {
    ShiftedRight(d[at + i / 8], i % 8) % 2 == 1
  }

  /** b >> j. */
  function ShiftedRight(b: byte, j: int): int
    requires 0 <= j < 8
  {
    if j == 0 then b else if j == 1 then b / 2 else if j == 2 then b / 4 else if j == 3 then b / 8
    else if j == 4 then b / 16 else if j == 5 then b / 32 else if j == 6 then b / 64 else b / 128
  }

  /** The fields follow each other. */
  predicate FieldsAt(d: seq<byte>, at: int, fs: seq<Field>) {
    forall i: nat :: i < |fs| ==> IthAt(d, at, fs, i)
  }

  predicate IthAt(d: seq<byte>, at: int, fs: seq<Field>, i: nat)
    requires i < |fs|
  {
    FieldAt(d, at + Before(fs, i), fs[i])
  }

  /** A row of len bytes. */
  predicate LaidOut(d: seq<byte>, at: int, r: Rid, fs: seq<Field>, len: int) {
    && HeaderAt(d, at, r, |fs|) && BitmapAt(d, at + 16, fs)
    && FieldsAt(d, at + 16 + |fs| / 8 + 1, fs) && len == 16 + |fs| / 8 + 1 + Before(fs, |fs|)
  }

  // ------------------------------------------------------------------ what is written is that

  lemma {:induction false} BitDropped(b: nat, i: nat, j: nat)
    requires i <= j
    ensures Bit(b, j) == Bit(Halved(b, i), j - i)
  {
    if i > 0 {
      BitDropped(b, i - 1, j);
    }
  }

  function Halved(b: nat, i: nat): nat {
    if i == 0 then b else Halved(b, i - 1) / 2
  }

  lemma BitIs(b: byte, j: int)
    requires 0 <= j < 8
    ensures TestBit(b, j) <==> ShiftedRight(b, j) % 2 == 1
  {
    BitDropped(b, j, j);
    assert Halved(b, 1) == b / 2 && Halved(b, 2) == b / 4;
    assert Halved(b, 3) == b / 8 && Halved(b, 4) == b / 16;
    assert Halved(b, 5) == b / 32 && Halved(b, 6) == b / 64;
    assert Halved(b, 7) == b / 128;
  }

  lemma HeaderLaid(d: seq<byte>, at: int, r: Rid, n: nat)
    requires RidOk(r) && n < WORD_LIMIT && Holds(d, at, EncodeHeader(r, n))
    ensures HeaderAt(d, at, r, n)
  {
    var p0, p1, p2, p3 := WordBytes(Unsigned(r.pageId)), WordBytes(r.slot), WordBytes(n), WordBytes(BitmapSize(n));
    HoldsParts(d, at, p0 + p1 + p2, p3);
    HoldsParts(d, at, p0 + p1, p2);
    HoldsParts(d, at, p0, p1);
    WordHeld(d, at, Unsigned(r.pageId));
    WordHeld(d, at + 4, r.slot);
    WordHeld(d, at + 8, n);
    WordHeld(d, at + 12, BitmapSize(n));
  }

  lemma BitmapLaid(d: seq<byte>, at: int, fs: seq<Field>)
    requires Holds(d, at, NullBitmap(fs))
    ensures BitmapAt(d, at, fs)
  {
    assert Inside(0);
    var m := NullBitmap(fs);
    assert d[at..at + |m|] == m;
    forall i: nat | i < 8 * (|fs| / 8 + 1)
      ensures BitSet(d, at, i) <==> i < |fs| && fs[i].Null?
    {
      assert d[at + i / 8] == d[at..at + |m|][i / 8] == m[i / 8] == NullByte(fs, |fs|, i / 8);
      BitIs(m[i / 8], i % 8);
      assert TestBit(m[i / 8], i % 8) == NullBits(fs, |fs|, i / 8)[i % 8];
    }
  }

  lemma FieldLaid(d: seq<byte>, at: int, f: Field)
    requires FieldOk(f) && Holds(d, at, EncodeField(f))
    ensures FieldAt(d, at, f) && |EncodeField(f)| == Width(f)
  {
    HoldsParts(d, at, WordBytes(TypeWord(TypeOf(f))), EncodeValue(f));
    WordHeld(d, at, TypeWord(TypeOf(f)));
    match f
    case Null(_) =>
    case Int(i) => WordHeld(d, at + 4, Unsigned(i));
    case Float(b) => WordHeld(d, at + 4, b);
    case Char(c) => StringHeld(d, at + 4, c);
  }

  lemma IthOfRest(d: seq<byte>, at: int, fs: seq<Field>, i: nat)
    requires 0 < i < |fs|
    ensures IthAt(d, at, fs, i) <==> IthAt(d, at + Width(fs[0]), fs[1..], i - 1)
  {
    assert fs[1..][i - 1] == fs[i] && Before(fs, i) == Width(fs[0]) + Before(fs[1..], i - 1);
  }

  lemma FieldsBehind(d: seq<byte>, at: int, fs: seq<Field>, next: int)
    requires fs != [] && next == at + Width(fs[0]) && FieldAt(d, at, fs[0]) && FieldsAt(d, next, fs[1..])
    ensures FieldsAt(d, at, fs) && Before(fs, |fs|) == Width(fs[0]) + Before(fs[1..], |fs[1..]|)
  {
    forall i: nat | i < |fs|
      ensures IthAt(d, at, fs, i)
    {
      if i > 0 {
        IthOfRest(d, at, fs, i);
        assert IthAt(d, next, fs[1..], i - 1);
      }
    }
  }

  lemma {:induction false} FieldsLaid(d: seq<byte>, at: int, fs: seq<Field>)
    requires RowOk(fs) && Holds(d, at, EncodeFields(fs))
    ensures FieldsAt(d, at, fs) && |EncodeFields(fs)| == Before(fs, |fs|)
    decreases |fs|
  {
    if fs != [] {
      var next := at + Width(fs[0]);
      FieldsHeld(d, at, fs, next);
      FieldLaid(d, at, fs[0]);
      FieldsLaid(d, next, fs[1..]);
      FieldsBehind(d, at, fs, next);
    }
  }

  /** Wherever a row has been written, its bytes are where they have to be. */
  lemma EncodingLaidOut(d: seq<byte>, at: int, r: Rid, fs: seq<Field>)
    requires RidOk(r) && RowOk(fs) && Holds(d, at, Encode(r, fs))
    ensures LaidOut(d, at, r, fs, |Encode(r, fs)|)
  {
    var start := at + ROW_HEADER_SIZE + BitmapSize(|fs|);
    PartsHeld(d, at, r, fs, start);
    HeaderLaid(d, at, r, |fs|);
    BitmapLaid(d, at + ROW_HEADER_SIZE, fs);
    FieldsLaid(d, start, fs);
  }

  /** The size of a row by its fields. */
  lemma SizeLaidOut(r: Rid, fs: seq<Field>)
    requires RidOk(r) && RowOk(fs)
    ensures |Encode(r, fs)| == 16 + |fs| / 8 + 1 + Before(fs, |fs|)
  {
    var d := Encode(r, fs);
    assert d[0..|d|] == d;
    EncodingLaidOut(d, 0, r, fs);
  }

  // ------------------------------------------------------------------ what is read, from any memory

  /** A field that can be read: not a string of 2048 bytes or more. */
  predicate ReadableAt(d: seq<byte>, k: int, f: Field) {
    FieldAt(d, k, f) && FieldOk(f) && (f.Char? ==> |f.chars| < 2048)
  }

  /** Memory that reads as the fields fs and takes len bytes: so many fields as the header says, each null
      if its bit is among those that the header announces and is set. */
  predicate ReadsAs(d: seq<byte>, at: int, fs: seq<Field>, len: int) {
    && 0 <= at && at + 16 <= |d|
    && var size := Word(d, at + 12);
       && Word(d, at + 8) == |fs| && size <= |fs| / 8 + 1 && at + 16 + size <= |d|
       && len == 16 + size + Before(fs, |fs|)
       && AllRead(d, at + 16, size, fs)
  }

  predicate AllRead(d: seq<byte>, at: int, size: nat, fs: seq<Field>)
    requires 0 <= at && at + size <= |d|
  {
    forall i: nat :: i < |fs| ==> FieldReads(d, at, size, fs, i)
  }

  /** Field i behind a bitmap of size bytes. */
  predicate FieldReads(d: seq<byte>, at: int, size: nat, fs: seq<Field>, i: nat)
    requires 0 <= at && at + size <= |d| && i < |fs|
  {
    ReadableAt(d, at + size + Before(fs, i), fs[i]) && (fs[i].Null? <==> i / 8 < size && BitSet(d, at, i))
  }

  lemma FieldReadExactly(d: seq<byte>, at: int, isNull: bool, f: Field, next: int)
    requires 0 <= at <= |d|
    ensures DecodeField(d, at, isNull) == Got(f, next)
            <==> ReadableAt(d, at, f) && (f.Null? <==> isNull) && next == at + Width(f)
  {
  }

  /** Fields from the i-th on, one behind the other, m being the bitmap of the nulls. */
  predicate RestReads(d: seq<byte>, at: int, m: seq<byte>, i: nat, fs: seq<Field>)
    decreases |fs|
  {
    fs == [] || (OneReads(d, at, m, i, fs[0]) && RestReads(d, at + Width(fs[0]), m, i + 1, fs[1..]))
  }

  predicate OneReads(d: seq<byte>, at: int, m: seq<byte>, i: nat, f: Field) {
    ReadableAt(d, at, f) && (f.Null? <==> NullAt(m, i))
  }

  /** They are fields i to n - 1 and end at next. */
  predicate AllRest(d: seq<byte>, at: int, m: seq<byte>, i: nat, n: nat, fs: seq<Field>, next: int) {
    |fs| == n - i && RestReads(d, at, m, i, fs) && next == at + Before(fs, |fs|)
  }

  lemma AllRestNone(d: seq<byte>, at: int, m: seq<byte>, i: nat, fs: seq<Field>, next: int)
    ensures AllRest(d, at, m, i, i, fs, next) <==> fs == [] && next == at
  {
  }

  lemma AllRestStep(d: seq<byte>, at: int, m: seq<byte>, i: nat, n: nat, fs: seq<Field>, next: int)
    requires fs != []
    ensures AllRest(d, at, m, i, n, fs, next)
            <==> OneReads(d, at, m, i, fs[0]) && AllRest(d, at + Width(fs[0]), m, i + 1, n, fs[1..], next)
  {
  }

  lemma {:induction false} FieldsReadExactly(d: seq<byte>, at: int, m: seq<byte>, i: nat, n: nat,
                                             fs: seq<Field>, next: int)
    requires 0 <= at <= |d| && i <= n
    ensures DecodeFields(d, at, m, i, n) == Got(fs, next) <==> AllRest(d, at, m, i, n, fs, next)
    decreases n - i
  {
    if i == n {
      DecodeNone(d, at, m, i);
      AllRestNone(d, at, m, i, fs, next);
    } else if fs == [] {
      SomethingRead(d, at, m, i, n, next);
    } else {
      AllRestStep(d, at, m, i, n, fs, next);
      if OneReads(d, at, m, i, fs[0]) {
        FirstAgrees(d, at, m, i, n, fs, next);
        FieldsReadExactly(d, at + Width(fs[0]), m, i + 1, n, fs[1..], next);
      } else {
        FirstDiffers(d, at, m, i, n, fs, next);
      }
    }
  }

  lemma SomethingRead(d: seq<byte>, at: int, m: seq<byte>, i: nat, n: nat, next: int)
    requires 0 <= at <= |d| && i < n
    ensures DecodeFields(d, at, m, i, n) != Got([], next)
  {
  }

  lemma FirstAgrees(d: seq<byte>, at: int, m: seq<byte>, i: nat, n: nat, fs: seq<Field>, next: int)
    requires 0 <= at <= |d| && i < n && fs != [] && OneReads(d, at, m, i, fs[0])
    ensures DecodeFields(d, at, m, i, n) == Got(fs, next)
            <==> DecodeFields(d, at + Width(fs[0]), m, i + 1, n) == Got(fs[1..], next)
  {
    FieldReadExactly(d, at, NullAt(m, i), fs[0], at + Width(fs[0]));
    DecodeStep(d, at, m, i, n, fs[0], at + Width(fs[0]));
    var r := DecodeFields(d, at + Width(fs[0]), m, i + 1, n);
    if r.Got? {
      assert ([fs[0]] + r.value)[1..] == r.value && fs == [fs[0]] + fs[1..];
    }
  }

  lemma FirstDiffers(d: seq<byte>, at: int, m: seq<byte>, i: nat, n: nat, fs: seq<Field>, next: int)
    requires 0 <= at <= |d| && i < n && fs != [] && !OneReads(d, at, m, i, fs[0])
    ensures DecodeFields(d, at, m, i, n) != Got(fs, next)
  {
    var r := DecodeField(d, at, NullAt(m, i));
    if r.Got? {
      FieldReadExactly(d, at, NullAt(m, i), r.value, r.next);
      assert r.value != fs[0];
    }
  }

  /** Field number j of these. */
  predicate JthReads(d: seq<byte>, at: int, m: seq<byte>, i: nat, fs: seq<Field>, j: nat)
    requires j < |fs|
  {
    OneReads(d, at + Before(fs, j), m, i + j, fs[j])
  }

  lemma JthOfRest(d: seq<byte>, at: int, m: seq<byte>, i: nat, fs: seq<Field>, j: nat)
    requires 0 < j < |fs|
    ensures JthReads(d, at, m, i, fs, j) <==> JthReads(d, at + Width(fs[0]), m, i + 1, fs[1..], j - 1)
  {
    assert Before(fs, j) == Width(fs[0]) + Before(fs[1..], j - 1) && fs[1..][j - 1] == fs[j];
  }

  /** The same with each field on its own. */
  lemma {:induction false} EachReads(d: seq<byte>, at: int, m: seq<byte>, i: nat, fs: seq<Field>)
    ensures RestReads(d, at, m, i, fs) <==> forall j: nat :: j < |fs| ==> JthReads(d, at, m, i, fs, j)
    decreases |fs|
  {
    if fs != [] {
      var next, rest, i1 := at + Width(fs[0]), fs[1..], i + 1;
      EachReads(d, next, m, i1, rest);
      assert OneReads(d, at, m, i, fs[0]) <==> JthReads(d, at, m, i, fs, 0);
      if forall j: nat :: j < |fs| ==> JthReads(d, at, m, i, fs, j) {
        forall j: nat | j < |rest|
          ensures JthReads(d, next, m, i1, rest, j)
        {
          JthOfRest(d, at, m, i, fs, j + 1);
        }
      }
      if RestReads(d, at, m, i, fs) {
        forall j: nat | j < |fs|
          ensures JthReads(d, at, m, i, fs, j)
        {
          if j > 0 {
            JthOfRest(d, at, m, i, fs, j);
          }
        }
      }
    }
  }

  /** Bit i of the first size bytes of a bitmap. */
  lemma BitRead(d: seq<byte>, at: int, size: nat, i: nat)
    requires 0 <= at && at + size <= |d|
    ensures NullAt(d[at..at + size], i) <==> i / 8 < size && BitSet(d, at, i)
  {
    if i / 8 < size {
      BitIs(d[at + i / 8], i % 8);
    }
  }

  lemma FieldsReadBehind(d: seq<byte>, at: int, size: nat, fs: seq<Field>)
    requires 0 <= at && at + size <= |d|
    ensures RestReads(d, at + size, d[at..at + size], 0, fs)
            <==> AllRead(d, at, size, fs)
  {
    var m, start := d[at..at + size], at + size;
    EachReads(d, start, m, 0, fs);
    forall j: nat | j < |fs|
      ensures JthReads(d, start, m, 0, fs, j) <==> FieldReads(d, at, size, fs, j)
    {
      BitRead(d, at, size, j);
    }
  }

  lemma RowReadExactly(d: seq<byte>, at: int, size: nat, n: nat, fs: seq<Field>, end: int)
    requires 0 <= at && at + size <= |d|
    ensures DecodeFields(d, at + size, d[at..at + size], 0, n) == Got(fs, end)
            <==> n == |fs| && AllRead(d, at, size, fs) && end == at + size + Before(fs, |fs|)
  {
    FieldsReadExactly(d, at + size, d[at..at + size], 0, n, fs, end);
    FieldsReadBehind(d, at, size, fs);
  }

  /** Reading succeeds with these fields, ending there, if and only if that is how the memory reads. */
  lemma DecodeExactly(d: seq<byte>, at: int, fs: seq<Field>, len: int)
    requires 0 <= at <= |d|
    ensures Decode(d, at) == Got(fs, at + len) <==> ReadsAs(d, at, fs, len)
  {
    if at + 16 <= |d| {
      var n, size := Word(d, at + 8), Word(d, at + 12);
      if size <= n / 8 + 1 && at + 16 + size <= |d| {
        RowReadExactly(d, at + 16, size, n, fs, at + len);
      }
    }
  }

  /** And fails if and only if it does not read as any. */
  lemma DecodeFailsExactly(d: seq<byte>, at: int)
    requires 0 <= at <= |d|
    ensures Decode(d, at).Fail? <==> forall fs, len :: !ReadsAs(d, at, fs, len)
  {
    forall fs, len
      ensures Decode(d, at) == Got(fs, at + len) <==> ReadsAs(d, at, fs, len)
    {
      DecodeExactly(d, at, fs, len);
    }
    var r := Decode(d, at);
    if r.Got? {
      DecodeExactly(d, at, r.value, r.next - at);
    }
  }
}
