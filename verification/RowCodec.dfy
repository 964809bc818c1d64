/** Rows as bytes: a header with the record id, the number of fields and a bitmap of the nulls, then
    type and value of each field. */
module RowCodec {
  import opened Bytes
  import opened Common

  /** What has been read, and where it ends. */
  datatype Read<T> = Fail | Got(value: T, next: int)

  /** A longer string cannot be read back. */
  const VARCHAR_MAX_LEN := 2048

  datatype TypeId = TypeInt | TypeFloat | TypeChar

  /** A float is its bit pattern. */
  datatype Field = Null(t: TypeId) | Int(i: int) | Float(bits: int) | Char(chars: seq<byte>)

  function TypeOf(f: Field): TypeId {
    match f
    case Null(t) => t
    case Int(_) => TypeInt
    case Float(_) => TypeFloat
    case Char(_) => TypeChar
  }

  /** The values fit the machine types. */
  predicate FieldOk(f: Field) {
    match f
    case Null(_) => true
    case Int(i) => -0x8000_0000 <= i < 0x8000_0000
    case Float(b) => 0 <= b < WORD_LIMIT
    case Char(c) => |c| < WORD_LIMIT
  }

  predicate RowOk(fs: seq<Field>) {
    |fs| < WORD_LIMIT && forall i :: 0 <= i < |fs| ==> FieldOk(fs[i])
  }

  function TypeWord(t: TypeId): int {
    match t
    case TypeInt => 1
    case TypeFloat => 2
    case TypeChar => 3
  }

  // ------------------------------------------------------------------ the bitmap of nulls

  function Pow2(n: nat): nat {
    if n == 0 then 1 else 2 * Pow2(n - 1)
  }

  /** The number with the given binary digits, lowest first. */
  function FromBits(s: seq<bool>): (n: nat)
    ensures n < Pow2(|s|)
  {
    if s == [] then 0 else (if s[0] then 1 else 0) + 2 * FromBits(s[1..])
  }

  /** Binary digit j of a number. */
  predicate Bit(b: nat, j: nat) {
    if j == 0 then b % 2 == 1 else Bit(b / 2, j - 1)
  }

  lemma LowestBit(b: bool, n: nat)
    ensures var m: nat := (if b then 1 else 0) + 2 * n; Bit(m, 0) == b && m / 2 == n
  {
  }

  lemma {:induction false} BitsOfNumber(s: seq<bool>, j: nat)
    requires j < |s|
    ensures Bit(FromBits(s), j) == s[j]
  {
    LowestBit(s[0], FromBits(s[1..]));
    if j > 0 {
      BitsOfNumber(s[1..], j - 1);
    }
  }

  lemma ByteRange()
    ensures Pow2(8) == 0x100
  {
    assert Pow2(4) == 16;
    assert Pow2(8) == 16 * Pow2(4);
  }

  function ByteOf(s: seq<bool>): (b: byte)
    requires |s| == 8
    ensures forall j :: 0 <= j < 8 ==> TestBit(b, j) == s[j]
  {
    ByteRange();
    assert forall j :: 0 <= j < 8 ==> Bit(FromBits(s), j) == s[j] by {
      forall j | 0 <= j < 8
        ensures Bit(FromBits(s), j) == s[j]
      {
        BitsOfNumber(s, j);
      }
    }
    FromBits(s)
  }

  predicate TestBit(b: byte, j: int)
    requires 0 <= j < 8
  {
    Bit(b, j)
  }

  /** b | (1 << j). */
  function WithBit(b: byte, j: int): (c: byte)
    requires 0 <= j < 8
    ensures forall k :: 0 <= k < 8 ==> TestBit(c, k) == (k == j || TestBit(b, k))
  {
    ByteOf(seq(8, k requires 0 <= k < 8 => k == j || TestBit(b, k)))
  }

  function BitmapSize(n: nat): nat {
    n / 8 + 1
  }

  /** The k-th byte of the bitmap, as far as it concerns the first n fields. */
  function NullByte(fs: seq<Field>, n: nat, k: nat): byte
    requires n <= |fs|
  {
    ByteOf(NullBits(fs, n, k))
  }

  function NullBits(fs: seq<Field>, n: nat, k: nat): (s: seq<bool>)
    requires n <= |fs|
    ensures |s| == 8
  {
    seq(8, j requires 0 <= j < 8 => 8 * k + j < n && fs[8 * k + j].Null?)
  }

  function NullBitmap(fs: seq<Field>): (m: seq<byte>)
    ensures |m| == BitmapSize(|fs|)
  {
    seq(BitmapSize(|fs|), k requires 0 <= k < BitmapSize(|fs|) => NullByte(fs, |fs|, k))
  }

  lemma {:induction false} NoBits(s: seq<bool>)
    requires forall j :: 0 <= j < |s| ==> !s[j]
    ensures FromBits(s) == 0
  {
    if s != [] {
      NoBits(s[1..]);
    }
  }

  /** One more field sets one bit at most. */
  lemma NullByteStep(fs: seq<Field>, n: nat, k: nat)
    requires n < |fs|
    ensures NullByte(fs, n + 1, k)
            == if k == n / 8 && fs[n].Null? then WithBit(NullByte(fs, n, k), n % 8) else NullByte(fs, n, k)
  {
    var s, t := NullBits(fs, n, k), NullBits(fs, n + 1, k);
    if k == n / 8 && fs[n].Null? {
      var b := NullByte(fs, n, k);
      assert t == seq(8, j requires 0 <= j < 8 => j == n % 8 || TestBit(b, j));
    } else {
      assert t == s;
    }
  }

  predicate NullAt(m: seq<byte>, i: nat) {
    i / 8 < |m| && TestBit(m[i / 8], i % 8)
  }

  lemma NullBitmapRead(fs: seq<Field>, i: nat)
    requires i < |fs|
    ensures NullAt(NullBitmap(fs), i) <==> fs[i].Null?
  {
    assert NullBitmap(fs)[i / 8] == NullByte(fs, |fs|, i / 8);
    assert 8 * (i / 8) + i % 8 == i;
  }

  // ------------------------------------------------------------------ writing

  function EncodeValue(f: Field): seq<byte>
    requires FieldOk(f)
  {
    match f
    case Null(_) => []
    case Int(i) => WordBytes(Unsigned(i))
    case Float(b) => WordBytes(b)
    case Char(c) => WordBytes(|c|) + c
  }

  function EncodeField(f: Field): (b: seq<byte>)
    requires FieldOk(f)
    ensures |b| == 4 + ValueSize(f)
  {
    WordBytes(TypeWord(TypeOf(f))) + EncodeValue(f)
  }

  function EncodeFields(fs: seq<Field>): seq<byte>
    requires RowOk(fs)
  {
    if fs == [] then [] else EncodeField(fs[0]) + EncodeFields(fs[1..])
  }

  lemma {:induction false} EncodeFieldsAppend(fs: seq<Field>, f: Field)
    requires RowOk(fs + [f])
    ensures RowOk(fs) && FieldOk(f) && EncodeFields(fs + [f]) == EncodeFields(fs) + EncodeField(f)
  {
    var all := fs + [f];
    assert all[|fs|] == f && forall i :: 0 <= i < |fs| ==> all[i] == fs[i];
    if fs == [] {
      assert all[1..] == [];
    } else {
      assert all[1..] == fs[1..] + [f];
      EncodeFieldsAppend(fs[1..], f);
    }
  }

  /** The record id of a row: page id and slot number. */
  datatype Rid = Rid(pageId: int, slot: int)

  predicate RidOk(r: Rid) {
    -0x8000_0000 <= r.pageId < 0x8000_0000 && 0 <= r.slot < WORD_LIMIT
  }

  const ROW_HEADER_SIZE := 16

  function EncodeHeader(r: Rid, n: nat): (h: seq<byte>)
    requires RidOk(r) && n < WORD_LIMIT
    ensures |h| == ROW_HEADER_SIZE
  {
    WordBytes(Unsigned(r.pageId)) + WordBytes(r.slot) + WordBytes(n) + WordBytes(BitmapSize(n))
  }

  function Encode(r: Rid, fs: seq<Field>): seq<byte>
    requires RidOk(r) && RowOk(fs)
  {
    EncodeHeader(r, |fs|) + NullBitmap(fs) + EncodeFields(fs)
  }

  function ValueSize(f: Field): nat {
    match f
    case Null(_) => 0
    case Int(_) => 4
    case Float(_) => 4
    case Char(c) => |c| + 4
  }

  function FieldsSize(fs: seq<Field>): nat {
    if fs == [] then 0 else FieldsSize(fs[..|fs| - 1]) + 4 + ValueSize(fs[|fs| - 1])
  }

  // ------------------------------------------------------------------ reading

  function DecodeValue(d: seq<byte>, at: int, w: int, isNull: bool): Read<Field>
    requires 0 <= at <= |d|
  {
    if !(1 <= w <= 3) then Fail
    else if isNull then Got(Null(if w == 1 then TypeInt else if w == 2 then TypeFloat else TypeChar), at)
    else if at + 4 > |d| then Fail
    else if w == 1 then Got(Int(Signed(Word(d, at))), at + 4)
    else if w == 2 then Got(Float(Word(d, at)), at + 4)
    else
      var n := Word(d, at);
      if n >= VARCHAR_MAX_LEN || at + 4 + n > |d| then Fail else Got(Char(d[at + 4..at + 4 + n]), at + 4 + n)
  }

  function DecodeField(d: seq<byte>, at: int, isNull: bool): Read<Field>
    requires 0 <= at <= |d|
  {
    if at + 4 > |d| then Fail else DecodeValue(d, at + 4, Word(d, at), isNull)
  }

  /** Fields i to n - 1, m being the bitmap of the nulls. */
  function DecodeFields(d: seq<byte>, at: int, m: seq<byte>, i: nat, n: nat): Read<seq<Field>>
    requires 0 <= at <= |d|
    decreases n - i
  {
    if i >= n then Got([], at)
    else
      var r := DecodeField(d, at, NullAt(m, i));
      if r.Fail? || !(0 <= r.next <= |d|) then Fail
      else
        var rest := DecodeFields(d, r.next, m, i + 1, n);
        if rest.Fail? then Fail else Got([r.value] + rest.value, rest.next)
  }

  /** The fields of a row; the record id in it is skipped. */
  function Decode(d: seq<byte>, at: int): Read<seq<Field>>
    requires 0 <= at <= |d|
  {
    if at + ROW_HEADER_SIZE > |d| then Fail
    else
      var n, size := Word(d, at + 8), Word(d, at + 12);
      var start := at + ROW_HEADER_SIZE;
      if size > BitmapSize(n) || start + size > |d| then Fail
      else DecodeFields(d, start + size, d[start..start + size], 0, n)
  }

  // ------------------------------------------------------------------ round trip

  /** What can be read back. */
  predicate Short(f: Field) {
    f.Char? ==> |f.chars| < VARCHAR_MAX_LEN
  }

  predicate AllShort(fs: seq<Field>) {
    forall i :: 0 <= i < |fs| ==> Short(fs[i])
  }

  /** The bytes b are found at a position of d.  Inside(0) opens this up where single bytes matter. */
  ghost predicate Holds(d: seq<byte>, at: int, b: seq<byte>) {
    0 <= at && at + |b| <= |d| && forall i {:trigger Inside(i)} :: Inside(i) ==> d[at..at + |b|] == b
  }

  lemma HoldsParts(d: seq<byte>, at: int, a: seq<byte>, b: seq<byte>)
    requires Holds(d, at, a + b)
    ensures Holds(d, at, a) && Holds(d, at + |a|, b)
  {
    assert Inside(0);
    assert d[at..at + |a + b|][..|a|] == a;
    assert d[at..at + |a + b|][|a|..] == b;
  }

  lemma HoldsJoin(d: seq<byte>, at: int, a: seq<byte>, b: seq<byte>)
    requires Holds(d, at, a) && Holds(d, at + |a|, b)
    ensures Holds(d, at, a + b)
  {
    assert Inside(0);
    assert d[at..at + |a + b|] == d[at..at + |a|] + d[at + |a|..at + |a| + |b|];
  }

  /** Bytes away from a change stay. */
  lemma HoldsKept(d: seq<byte>, e: seq<byte>, lo: int, hi: int, at: int, b: seq<byte>)
    requires SameOutside(d, e, lo, hi) && Holds(d, at, b) && (at + |b| <= lo || hi <= at)
    ensures Holds(e, at, b)
  {
    assert Inside(0);
    assert forall k :: at <= k < at + |b| ==> e[k] == d[k];
  }

  lemma WordHeld(d: seq<byte>, at: int, w: int)
    requires 0 <= w < WORD_LIMIT && Holds(d, at, WordBytes(w))
    ensures Word(d, at) == w
  {
    assert Inside(0);
    WordOfBytes(d, at, w);
  }

  lemma ValueRoundTrip(d: seq<byte>, at: int, f: Field)
    requires FieldOk(f) && Holds(d, at, EncodeValue(f))
    ensures DecodeValue(d, at, TypeWord(TypeOf(f)), f.Null?) == if Short(f) then Got(f, at + ValueSize(f)) else Fail
  {
    match f
    case Null(_) =>
    case Int(i) => WordHeld(d, at, Unsigned(i));
    case Float(b) => WordHeld(d, at, b);
    case Char(c) => StringHeld(d, at, c);
  }

  lemma StringHeld(d: seq<byte>, at: int, c: seq<byte>)
    requires |c| < WORD_LIMIT && Holds(d, at, WordBytes(|c|) + c)
    ensures 0 <= at && at + 4 + |c| <= |d| && Word(d, at) == |c| && d[at + 4..at + 4 + |c|] == c
  {
    HoldsParts(d, at, WordBytes(|c|), c);
    WordHeld(d, at, |c|);
    assert Inside(0);
  }

  lemma FieldRoundTrip(d: seq<byte>, at: int, f: Field)
    requires FieldOk(f) && Holds(d, at, EncodeField(f))
    ensures DecodeField(d, at, f.Null?) == if Short(f) then Got(f, at + |EncodeField(f)|) else Fail
  {
    HoldsParts(d, at, WordBytes(TypeWord(TypeOf(f))), EncodeValue(f));
    WordHeld(d, at, TypeWord(TypeOf(f)));
    ValueRoundTrip(d, at + 4, f);
  }

  /** The bitmap m says which of the fields, numbered from i on, are null. */
  predicate Tells(m: seq<byte>, i: nat, fs: seq<Field>) {
    forall j :: 0 <= j < |fs| ==> (NullAt(m, i + j) <==> fs[j].Null?)
  }

  lemma TellsRest(m: seq<byte>, i: nat, fs: seq<Field>)
    requires Tells(m, i, fs) && fs != []
    ensures (NullAt(m, i) <==> fs[0].Null?) && Tells(m, i + 1, fs[1..])
  {
    assert NullAt(m, i + 0) <==> fs[0].Null?;
    forall j | 0 <= j < |fs[1..]|
      ensures NullAt(m, i + 1 + j) <==> fs[1..][j].Null?
    {
      assert NullAt(m, i + (j + 1)) <==> fs[j + 1].Null?;
    }
  }

  /** The first field in front and the others behind it. */
  lemma FieldsHeld(d: seq<byte>, at: int, fs: seq<Field>, next: int)
    requires RowOk(fs) && fs != [] && Holds(d, at, EncodeFields(fs)) && next == at + 4 + ValueSize(fs[0])
    ensures FieldOk(fs[0]) && RowOk(fs[1..])
    ensures Holds(d, at, EncodeField(fs[0])) && Holds(d, next, EncodeFields(fs[1..]))
    ensures at + |EncodeFields(fs)| == next + |EncodeFields(fs[1..])|
  {
    HeldApart(d, at, EncodeFields(fs), EncodeField(fs[0]), EncodeFields(fs[1..]), next);
  }

  lemma HeldApart(d: seq<byte>, at: int, c: seq<byte>, a: seq<byte>, b: seq<byte>, next: int)
    requires c == a + b && Holds(d, at, c) && next == at + |a|
    ensures Holds(d, at, a) && Holds(d, next, b) && at + |c| == next + |b|
  {
    HoldsParts(d, at, a, b);
  }

  lemma AllShortSplit(fs: seq<Field>)
    requires fs != []
    ensures AllShort(fs) <==> Short(fs[0]) && AllShort(fs[1..])
  {
    if AllShort(fs) {
      forall i | 0 <= i < |fs[1..]|
        ensures Short(fs[1..][i])
      {
        assert Short(fs[i + 1]);
      }
    }
  }

  /** One field, and then the rest. */
  lemma DecodeStep(d: seq<byte>, at: int, m: seq<byte>, i: nat, n: nat, f: Field, next: int)
    requires 0 <= at <= |d| && i < n && 0 <= next <= |d|
    requires DecodeField(d, at, NullAt(m, i)) == Got(f, next)
    ensures var r := DecodeFields(d, next, m, i + 1, n);
            DecodeFields(d, at, m, i, n) == if r.Fail? then Fail else Got([f] + r.value, r.next)
  {
  }

  lemma DecodeOnto(d: seq<byte>, at: int, m: seq<byte>, i: nat, n: nat, fs: seq<Field>, next: int, end: int)
    requires 0 <= at <= |d| && i < n && 0 <= next <= |d| && fs != []
    requires DecodeField(d, at, NullAt(m, i)) == Got(fs[0], next)
    requires DecodeFields(d, next, m, i + 1, n) == Got(fs[1..], end)
    ensures DecodeFields(d, at, m, i, n) == Got(fs, end)
  {
    DecodeStep(d, at, m, i, n, fs[0], next);
    assert fs == [fs[0]] + fs[1..];
  }

  lemma DecodeFails(d: seq<byte>, at: int, m: seq<byte>, i: nat, n: nat)
    requires 0 <= at <= |d| && i < n && DecodeField(d, at, NullAt(m, i)).Fail?
    ensures DecodeFields(d, at, m, i, n) == Fail
  {
  }

  lemma DecodeNone(d: seq<byte>, at: int, m: seq<byte>, i: nat)
    requires 0 <= at <= |d|
    ensures DecodeFields(d, at, m, i, i) == Got([], at)
  {
  }

  /** The first of some fields is read, or it is too long. */
  lemma FirstField(d: seq<byte>, at: int, fs: seq<Field>, next: int)
    requires RowOk(fs) && Holds(d, at, EncodeFields(fs)) && fs != [] && next == at + 4 + ValueSize(fs[0])
    ensures DecodeField(d, at, fs[0].Null?) == if Short(fs[0]) then Got(fs[0], next) else Fail
  {
    FieldsHeld(d, at, fs, next);
    FieldRoundTrip(d, at, fs[0]);
  }

  lemma {:induction false} ShortFieldsRead(d: seq<byte>, at: int, m: seq<byte>, i: nat, n: nat, fs: seq<Field>)
    requires RowOk(fs) && Holds(d, at, EncodeFields(fs)) && Tells(m, i, fs) && AllShort(fs) && n == i + |fs|
    ensures DecodeFields(d, at, m, i, n) == Got(fs, at + |EncodeFields(fs)|)
    decreases |fs|
  {
    if fs == [] {
      DecodeNone(d, at, m, i);
    } else {
      var next := at + 4 + ValueSize(fs[0]);
      TellsRest(m, i, fs);
      FieldsHeld(d, at, fs, next);
      FirstField(d, at, fs, next);
      AllShortSplit(fs);
      ShortFieldsRead(d, next, m, i + 1, n, fs[1..]);
      DecodeOnto(d, at, m, i, n, fs, next, at + |EncodeFields(fs)|);
    }
  }

  lemma {:induction false} LongFieldsNotRead(d: seq<byte>, at: int, m: seq<byte>, i: nat, n: nat, fs: seq<Field>)
    requires RowOk(fs) && Holds(d, at, EncodeFields(fs)) && Tells(m, i, fs) && !AllShort(fs) && n == i + |fs|
    ensures DecodeFields(d, at, m, i, n) == Fail
    decreases |fs|
  {
    var next := at + 4 + ValueSize(fs[0]);
    TellsRest(m, i, fs);
    FieldsHeld(d, at, fs, next);
    FirstField(d, at, fs, next);
    if Short(fs[0]) {
      LongRest(fs);
      LongFieldsNotRead(d, next, m, i + 1, n, fs[1..]);
      DecodeStep(d, at, m, i, n, fs[0], next);
    } else {
      DecodeFails(d, at, m, i, n);
    }
  }

  lemma LongRest(fs: seq<Field>)
    requires fs != [] && !AllShort(fs) && Short(fs[0])
    ensures !AllShort(fs[1..])
  {
    AllShortSplit(fs);
  }

  lemma HeaderHeld(d: seq<byte>, at: int, r: Rid, n: nat)
    requires RidOk(r) && n < WORD_LIMIT && Holds(d, at, EncodeHeader(r, n))
    ensures Word(d, at + 8) == n && Word(d, at + 12) == BitmapSize(n)
  {
    var p0, p1, p2, p3 := WordBytes(Unsigned(r.pageId)), WordBytes(r.slot), WordBytes(n), WordBytes(BitmapSize(n));
    HoldsParts(d, at, p0 + p1 + p2, p3);
    HoldsParts(d, at, p0 + p1, p2);
    WordHeld(d, at + 8, n);
    WordHeld(d, at + 12, BitmapSize(n));
  }

  lemma BitmapTells(fs: seq<Field>)
    ensures Tells(NullBitmap(fs), 0, fs)
  {
    forall i | 0 <= i < |fs|
      ensures NullAt(NullBitmap(fs), 0 + i) <==> fs[i].Null?
    {
      NullBitmapRead(fs, i);
    }
  }

  lemma DecodeAfterHeader(d: seq<byte>, at: int, r: Rid, n: nat, m: seq<byte>, start: int)
    requires RidOk(r) && n < WORD_LIMIT && Holds(d, at, EncodeHeader(r, n))
    requires |m| == BitmapSize(n) && Holds(d, at + ROW_HEADER_SIZE, m)
    requires start == at + ROW_HEADER_SIZE + BitmapSize(n)
    ensures Decode(d, at) == DecodeFields(d, start, m, 0, n)
  {
    assert Inside(0);
    HeaderHeld(d, at, r, n);
  }

  /** Where the parts of a row are. */
  lemma PartsHeld(d: seq<byte>, at: int, r: Rid, fs: seq<Field>, start: int)
    requires RidOk(r) && RowOk(fs) && Holds(d, at, Encode(r, fs))
    requires start == at + ROW_HEADER_SIZE + BitmapSize(|fs|)
    ensures Holds(d, at, EncodeHeader(r, |fs|)) && Holds(d, at + ROW_HEADER_SIZE, NullBitmap(fs))
    ensures Holds(d, start, EncodeFields(fs)) && at + |Encode(r, fs)| == start + |EncodeFields(fs)|
  {
    HoldsParts(d, at, EncodeHeader(r, |fs|) + NullBitmap(fs), EncodeFields(fs));
    HoldsParts(d, at, EncodeHeader(r, |fs|), NullBitmap(fs));
  }

  /** Wherever a row is stored, its fields are read back, types, nulls and values, and the reading ends
      where the row does; but only if every string in it is short enough. */
  lemma RoundTrip(d: seq<byte>, at: int, r: Rid, fs: seq<Field>)
    requires RidOk(r) && RowOk(fs) && Holds(d, at, Encode(r, fs))
    ensures Decode(d, at) == if AllShort(fs) then Got(fs, at + |Encode(r, fs)|) else Fail
  {
    var n, m := |fs|, NullBitmap(fs);
    var start := at + ROW_HEADER_SIZE + BitmapSize(n);
    PartsHeld(d, at, r, fs, start);
    DecodeAfterHeader(d, at, r, n, m, start);
    BitmapTells(fs);
    if AllShort(fs) {
      ShortFieldsRead(d, start, m, 0, n, fs);
    } else {
      LongFieldsNotRead(d, start, m, 0, n, fs);
    }
  }

  /** The size that GetSerializedSize announces is the size that is written. */
  lemma SizeOfEncoding(r: Rid, fs: seq<Field>)
    requires RidOk(r) && RowOk(fs)
    ensures |Encode(r, fs)| == ROW_HEADER_SIZE + FieldsSize(fs) + BitmapSize(|fs|)
  {
    FieldsSizeSplit(fs);
  }

  lemma {:induction false} FieldsSizeSplit(fs: seq<Field>)
    requires RowOk(fs)
    ensures |EncodeFields(fs)| == FieldsSize(fs)
  {
    if fs != [] {
      var n := |fs| - 1;
      if n > 0 {
        FieldsSizeFront(fs);
        FieldsSizeSplit(fs[1..]);
      } else {
        assert fs[1..] == [];
      }
    }
  }

  lemma {:induction false} FieldsSizeFront(fs: seq<Field>)
    requires |fs| > 0
    ensures FieldsSize(fs) == 4 + ValueSize(fs[0]) + FieldsSize(fs[1..])
  {
    var n := |fs| - 1;
    if n > 0 {
      FieldsSizeFront(fs[..n]);
      assert fs[..n][1..] == fs[1..][..n - 1];
    }
  }
}
