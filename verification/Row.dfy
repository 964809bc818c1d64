/** A row: a record id and fields, written to and read from memory. */
module Rows {
  import opened Bytes
  import opened RowCodec
  import opened RowLayout

  class Row {
    var rid: Rid
    var fields: seq<Field>

    constructor (rid: Rid, fields: seq<Field>)
      ensures this.rid == rid && this.fields == fields
    {
      this.rid, this.fields := rid, fields;
    }

    /** The number of bytes that SerializeTo writes. */
    method GetSerializedSize() returns (size: int)
      requires RidOk(rid) && RowOk(fields)
      ensures size == |Encode(rid, fields)| == 16 + |fields| / 8 + 1 + Before(fields, |fields|)
    {
      var len := 0;
      for i := 0 to |fields|
        invariant len == FieldsSize(fields[..i])
      {
        len := len + 4;
        len := len + ValueSize(fields[i]);
        assert fields[..i + 1][..i] == fields[..i];
      }
      assert fields[..|fields|] == fields;
      SizeOfEncoding(rid, fields);
      SizeLaidOut(rid, fields);
      size := ROW_HEADER_SIZE + len + |fields| / 8 + 1;
    }

    /** The bitmap of the nulls, one bit after the other. */
    method MakeNullBitmap() returns (m: seq<byte>)
      ensures m == NullBitmap(fields)
    {
      var n := |fields|;
      m := seq(n / 8 + 1, _ => 0);
      forall k | 0 <= k < |m|
        ensures m[k] == NullByte(fields, 0, k)
      {
        NoBits(NullBits(fields, 0, k));
      }
      for i := 0 to n
        invariant |m| == n / 8 + 1
        invariant forall k :: 0 <= k < |m| ==> m[k] == NullByte(fields, i, k)
      {
        forall k | 0 <= k < |m|
          ensures NullByte(fields, i + 1, k) ==
                    if k == i / 8 && fields[i].Null? then WithBit(NullByte(fields, i, k), i % 8)
                      else NullByte(fields, i, k)
        {
          NullByteStep(fields, i, k);
        }
        if fields[i].Null? {
          m := m[i / 8 := WithBit(m[i / 8], i % 8)];
        }
      }
    }

    /** Writes the row into memory: record id, number of fields, size and bytes of the bitmap, and the fields,
        each behind its type. */
    method SerializeTo(buf: array<byte>, at: int) returns (len: int)
      requires RidOk(rid) && RowOk(fields)
      requires 0 <= at && at + |Encode(rid, fields)| <= buf.Length
      modifies buf
      ensures len == |Encode(rid, fields)| && Holds(buf[..], at, Encode(rid, fields))
      ensures SameOutside(old(buf[..]), buf[..], at, at + len)
      ensures Word(buf[..], at) == (if rid.pageId < 0 then rid.pageId + 0x1_0000_0000 else rid.pageId)
              && Word(buf[..], at + 4) == rid.slot
      ensures Word(buf[..], at + 8) == |fields| && Word(buf[..], at + 12) == |fields| / 8 + 1
      ensures LaidOut(buf[..], at, rid, fields, len)
    {
      ghost var h, f := EncodeHeader(rid, |fields|), EncodeFields(fields);
      WriteHeader(buf, at, rid, |fields|);
      var bitmap := MakeNullBitmap();
      PutBehind(buf, at + ROW_HEADER_SIZE, bitmap, at, h);
      len := ROW_HEADER_SIZE + |bitmap|;
      var more := WriteFields(buf, at + len, fields, at, h + bitmap);
      len := len + more;
      assert Encode(rid, fields) == h + bitmap + f;
      EncodingLaidOut(buf[..], at, rid, fields);
    }

    /** Replaces the fields by those that are found in memory; the record id stays.  The string limit
        is an assertion of the program, and so is a type that does not exist: ok is false then, or if
        the row would reach beyond the memory. */
    method DeserializeFrom(buf: array<byte>, at: int) returns (ok: bool, len: int)
      requires 0 <= at <= buf.Length
      modifies `fields
      ensures ok <==> Decode(buf[..], at).Got?
      ensures ok ==> Decode(buf[..], at) == Got(fields, at + len)
      ensures ok ==> ReadsAs(buf[..], at, fields, len)
      ensures !ok ==> forall fs, n :: !ReadsAs(buf[..], at, fs, n)
    {
      ok, len := ReadRow(buf, at);
      DecodeFailsExactly(buf[..], at);
      if ok {
        DecodeExactly(buf[..], at, fields, len);
      }
    }

    /** The header and the bitmap, and then the fields. */
    method ReadRow(buf: array<byte>, at: int) returns (ok: bool, len: int)
      requires 0 <= at <= buf.Length
      modifies `fields
      ensures ok <==> Decode(buf[..], at).Got?
      ensures ok ==> Decode(buf[..], at) == Got(fields, at + len)
    {
      if at + ROW_HEADER_SIZE > buf.Length {
        return false, 0;
      }
      var size := GetWord(buf, at + 8);
      var bitmapSize := GetWord(buf, at + 12);
      var start := at + ROW_HEADER_SIZE;
      if bitmapSize > size / 8 + 1 || start + bitmapSize > buf.Length {
        return false, 0;
      }
      var bitmap := buf[start..start + bitmapSize];
      DecodeIs(buf[..], at, size, bitmap, start + bitmapSize);
      var next;
      ok, next := ReadFields(buf, start + bitmapSize, bitmap, size);
      len := next - at;
    }

    method ReadFields(buf: array<byte>, at: int, m: seq<byte>, n: nat) returns (ok: bool, next: int)
      requires 0 <= at <= buf.Length
      modifies `fields
      ensures ok <==> DecodeFields(buf[..], at, m, 0, n).Got?
      ensures ok ==> DecodeFields(buf[..], at, m, 0, n) == Got(fields, next)
    {
      ghost var d := buf[..];
      ghost var all := DecodeFields(d, at, m, 0, n);
      fields, next := [], at;
      BehindNothing(all);
      for i := 0 to n
        invariant 0 <= next <= buf.Length
        invariant all == Behind(fields, DecodeFields(d, next, m, i, n))
      {
        DecodeFieldNext(d, next, m, i, n, fields);
        var r := ReadOne(buf, next, m, i);
        if r.Fail? {
          return false, 0;
        }
        fields := fields + [r.value];
        next := r.next;
      }
      DecodeNone(d, next, m, n);
      assert fields + [] == fields;
      ok := true;
    }
  }

  /** Reading on after the header and the bitmap m. */
  lemma DecodeIs(d: seq<byte>, at: int, n: nat, m: seq<byte>, next: int)
    requires 0 <= at && at + ROW_HEADER_SIZE <= |d| && next == at + ROW_HEADER_SIZE + |m| && |m| <= BitmapSize(n)
    requires Word(d, at + 8) == n && Word(d, at + 12) == |m| && next <= |d| && m == d[at + ROW_HEADER_SIZE..next]
    ensures Decode(d, at) == DecodeFields(d, next, m, 0, n)
  {
  }

  /** What has been read before, and then the rest. */
  function Behind(fs: seq<Field>, r: Read<seq<Field>>): Read<seq<Field>> {
    if r.Fail? then Fail else Got(fs + r.value, r.next)
  }

  lemma BehindNothing(r: Read<seq<Field>>)
    ensures Behind([], r) == r
  {
    if r.Got? {
      assert [] + r.value == r.value;
    }
  }

  lemma DecodeFieldNext(d: seq<byte>, at: int, m: seq<byte>, i: nat, n: nat, fs: seq<Field>)
    requires 0 <= at <= |d| && i < n
    ensures var r := DecodeField(d, at, NullAt(m, i));
            && (r.Got? ==> 0 <= r.next <= |d|)
            && Behind(fs, DecodeFields(d, at, m, i, n))
               == if r.Fail? then Fail else Behind(fs + [r.value], DecodeFields(d, r.next, m, i + 1, n))
  {
    var r := DecodeField(d, at, NullAt(m, i));
    if r.Got? {
      var rest := DecodeFields(d, r.next, m, i + 1, n);
      if rest.Got? {
        assert fs + ([r.value] + rest.value) == fs + [r.value] + rest.value;
      }
    }
  }

  /** The i-th field, m being the bitmap of the nulls. */
  method ReadOne(buf: array<byte>, at: int, m: seq<byte>, i: nat) returns (r: Read<Field>)
    requires 0 <= at <= buf.Length
    ensures r == DecodeField(buf[..], at, NullAt(m, i))
  {
    r := ReadField(buf, at, i / 8 < |m| && TestBit(m[i / 8], i % 8));
  }

  method ReadField(buf: array<byte>, at: int, isNull: bool) returns (r: Read<Field>)
    requires 0 <= at <= buf.Length
    ensures r == DecodeField(buf[..], at, isNull)
  {
    if at + 4 > buf.Length {
      return Fail;
    }
    var w := GetWord(buf, at);
    var value := at + 4;
    if !(1 <= w <= 3) {
      return Fail;
    }
    if isNull {
      return Got(Null(if w == 1 then TypeInt else if w == 2 then TypeFloat else TypeChar), value);
    }
    if value + 4 > buf.Length {
      return Fail;
    }
    var v := GetWord(buf, value);
    if w == 1 {
      return Got(Int(Signed(v)), value + 4);
    }
    if w == 2 {
      return Got(Float(v), value + 4);
    }
    if v >= VARCHAR_MAX_LEN || value + 4 + v > buf.Length {
      return Fail;
    }
    assert buf[value + 4..value + 4 + v] == buf[..][value + 4..value + 4 + v];
    return Got(Char(buf[value + 4..value + 4 + v]), value + 4 + v);
  }

  /** The four words of the header. */
  method WriteHeader(buf: array<byte>, at: int, rid: Rid, n: nat)
    requires RidOk(rid) && n < WORD_LIMIT && 0 <= at && at + ROW_HEADER_SIZE <= buf.Length
    modifies buf
    ensures Holds(buf[..], at, EncodeHeader(rid, n)) && SameOutside(old(buf[..]), buf[..], at, at + ROW_HEADER_SIZE)
  {
    var p0, p1, p2, p3 := Unsigned(rid.pageId), rid.slot, n, BitmapSize(n);
    PutWord(buf, at, p0);
    PutWordBehind(buf, at + 4, p1, at, WordBytes(p0));
    PutWordBehind(buf, at + 8, p2, at, WordBytes(p0) + WordBytes(p1));
    PutWordBehind(buf, at + 12, p3, at, WordBytes(p0) + WordBytes(p1) + WordBytes(p2));
  }

  /** A word right behind the bytes b, which have been written from position start on. */
  method PutWordBehind(buf: array<byte>, at: int, w: int, ghost start: int, ghost b: seq<byte>)
    requires 0 <= w < WORD_LIMIT && at + 4 <= buf.Length && Holds(buf[..], start, b) && start + |b| == at
    modifies buf
    ensures Holds(buf[..], start, b + WordBytes(w)) && SameOutside(old(buf[..]), buf[..], at, at + 4)
  {
    ghost var d := buf[..];
    PutWord(buf, at, w);
    HoldsKept(d, buf[..], at, at + 4, start, b);
    HoldsJoin(buf[..], start, b, WordBytes(w));
  }

  /** A word behind some bytes. */
  method PutWord(buf: array<byte>, at: int, w: int)
    requires 0 <= w < WORD_LIMIT && 0 <= at && at + 4 <= buf.Length
    modifies buf
    ensures Holds(buf[..], at, WordBytes(w)) && SameOutside(old(buf[..]), buf[..], at, at + 4)
  {
    SetWord(buf, at, w);
  }

  /** The fields one after the other, right behind the bytes b, which have been written from position
      start on. */
  method WriteFields(buf: array<byte>, at: int, fs: seq<Field>, ghost start: int, ghost b: seq<byte>) returns (len: int)
    requires RowOk(fs) && at + |EncodeFields(fs)| <= buf.Length && Holds(buf[..], start, b) && start + |b| == at
    modifies buf
    ensures len == |EncodeFields(fs)| && Holds(buf[..], start, b + EncodeFields(fs))
    ensures SameOutside(old(buf[..]), buf[..], at, at + len)
  {
    len := 0;
    ghost var done: seq<byte> := [];
    assert b + done == b;
    for i := 0 to |fs|
      invariant done == EncodeFields(fs[..i]) && len == |done|
      invariant Holds(buf[..], start, b + done)
      invariant SameOutside(old(buf[..]), buf[..], at, at + len)
    {
      FieldsGrow(fs, i);
      ghost var f := EncodeField(fs[i]);
      var more := WriteFieldBehind(buf, at + len, fs[i], start, b + done);
      Associative(b, done, f);
      done := done + f;
      len := len + more;
    }
    assert fs[..|fs|] == fs;
  }

  lemma Associative(a: seq<byte>, b: seq<byte>, c: seq<byte>)
    ensures a + b + c == a + (b + c)
  {
  }

  /** A field right behind the bytes b, which have been written from position start on. */
  method WriteFieldBehind(buf: array<byte>, at: int, f: Field, ghost start: int, ghost b: seq<byte>) returns (len: int)
    requires FieldOk(f) && at + |EncodeField(f)| <= buf.Length && Holds(buf[..], start, b) && start + |b| == at
    modifies buf
    ensures len == |EncodeField(f)| && Holds(buf[..], start, b + EncodeField(f))
    ensures SameOutside(old(buf[..]), buf[..], at, at + len)
  {
    ghost var d := buf[..];
    len := WriteField(buf, at, f);
    HoldsKept(d, buf[..], at, at + len, start, b);
    HoldsJoin(buf[..], start, b, EncodeField(f));
  }

  method PutBehind(buf: array<byte>, at: int, more: seq<byte>, ghost start: int, ghost b: seq<byte>)
    requires at + |more| <= buf.Length && Holds(buf[..], start, b) && start + |b| == at
    modifies buf
    ensures Holds(buf[..], start, b + more) && SameOutside(old(buf[..]), buf[..], at, at + |more|)
  {
    ghost var d := buf[..];
    Memcpy(buf, at, more);
    HoldsKept(d, buf[..], at, at + |more|, start, b);
    HoldsJoin(buf[..], start, b, more);
  }

  lemma FieldsGrow(fs: seq<Field>, i: nat)
    requires RowOk(fs) && i < |fs|
    ensures EncodeFields(fs[..i + 1]) == EncodeFields(fs[..i]) + EncodeField(fs[i])
    ensures |EncodeFields(fs[..i])| + |EncodeField(fs[i])| <= |EncodeFields(fs)|
  {
    assert fs[..i + 1] == fs[..i] + [fs[i]];
    EncodeFieldsAppend(fs[..i], fs[i]);
    FieldsSizeSplit(fs[..i + 1]);
    FieldsSizeSplit(fs);
    FieldsSizeGrows(fs, i + 1);
  }

  lemma {:induction false} FieldsSizeGrows(fs: seq<Field>, i: nat)
    requires i <= |fs|
    ensures FieldsSize(fs[..i]) <= FieldsSize(fs)
    decreases |fs|
  {
    if i < |fs| {
      var n := |fs| - 1;
      assert fs[..n][..i] == fs[..i];
      FieldsSizeGrows(fs[..n], i);
    } else {
      assert fs[..i] == fs;
    }
  }

  /** The type of a field and its value, if it has one. */
  method WriteField(buf: array<byte>, at: int, f: Field) returns (len: int)
    requires FieldOk(f) && 0 <= at && at + |EncodeField(f)| <= buf.Length
    modifies buf
    ensures len == |EncodeField(f)| && Holds(buf[..], at, EncodeField(f))
    ensures SameOutside(old(buf[..]), buf[..], at, at + len)
  {
    PutWord(buf, at, TypeWord(TypeOf(f)));
    ghost var d := buf[..];
    var more := WriteValue(buf, at + 4, f);
    HoldsKept(d, buf[..], at + 4, at + 4 + more, at, WordBytes(TypeWord(TypeOf(f))));
    HoldsJoin(buf[..], at, WordBytes(TypeWord(TypeOf(f))), EncodeValue(f));
    len := 4 + more;
  }

  method WriteValue(buf: array<byte>, at: int, f: Field) returns (len: int)
    requires FieldOk(f) && 0 <= at && at + |EncodeValue(f)| <= buf.Length
    modifies buf
    ensures len == |EncodeValue(f)| && Holds(buf[..], at, EncodeValue(f))
    ensures SameOutside(old(buf[..]), buf[..], at, at + len)
  {
    match f
    case Null(_) =>
      len := 0;
    case Int(i) =>
      PutWord(buf, at, Unsigned(i));
      len := 4;
    case Float(b) =>
      PutWord(buf, at, b);
      len := 4;
    case Char(c) =>
      PutWord(buf, at, |c|);
      ghost var d := buf[..];
      Memcpy(buf, at + 4, c);
      HoldsKept(d, buf[..], at + 4, at + 4 + |c|, at, WordBytes(|c|));
      HoldsJoin(buf[..], at, WordBytes(|c|), c);
      len := 4 + |c|;
  }

  /** A row written and read again: the same fields come back, and both agree on the length, exactly
      if every string is short enough to be read. */
  method WriteAndRead(row: Row, other: Row, buf: array<byte>, at: int) returns (ok: bool, written: int, read: int)
    requires RidOk(row.rid) && RowOk(row.fields) && row != other
    requires 0 <= at && at + |Encode(row.rid, row.fields)| <= buf.Length
    modifies buf, other`fields
    ensures ok <==> AllShort(row.fields)
    ensures ok ==> other.fields == row.fields && read == written
  {
    written := row.SerializeTo(buf, at);
    RoundTrip(buf[..], at, row.rid, row.fields);
    ok, read := other.DeserializeFrom(buf, at);
  }
}
