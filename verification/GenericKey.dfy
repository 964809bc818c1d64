/** Index keys as blocks of bytes, and the comparator on them. */
module GenericKeys {
  import opened Bytes
  import opened RowCodec
  import opened RowLayout
  import opened KeyOrder
  import opened Rows

  class GenericKey {
    const data: array<byte>

    constructor (keySize: nat)
      ensures data.Length == keySize && fresh(data)
    {
      data := new byte[keySize](_ => 0);
    }

    /** The key fs, in an encoding with some record id, is at the front of the block. */
    ghost predicate Carries(fs: seq<Field>)
      reads data
    {
      && RowOk(fs) && AllShort(fs)
      && exists r :: RidOk(r) && Holds(data[..], 0, Encode(r, fs))
    }

    /** The bytes of a row, and zeroes behind them. */
    method SerializeFromKey(key: Row)
      requires RidOk(key.rid) && RowOk(key.fields) && AllShort(key.fields)
      requires |Encode(key.rid, key.fields)| <= data.Length
      modifies data
      ensures Carries(key.fields)
      ensures LaidOut(data[..], 0, key.rid, key.fields, |Encode(key.rid, key.fields)|)
      ensures forall k :: |Encode(key.rid, key.fields)| <= k < data.Length ==> data[k] == 0
    {
      for i := 0 to data.Length
        invariant forall k :: 0 <= k < i ==> data[k] == 0
      {
        data[i] := 0;
      }
      ghost var d := data[..];
      var len := key.SerializeTo(data, 0);
      assert forall k :: len <= k < data.Length ==> data[..][k] == d[k];
    }

    /** The row is read back; what is behind it does not matter. */
    method DeserializeToKey(key: Row, ghost fs: seq<Field>)
      requires Carries(fs)
      modifies key`fields
      ensures key.fields == fs
    {
      ghost var r :| RidOk(r) && Holds(data[..], 0, Encode(r, fs));
      RoundTrip(data[..], 0, r, fs);
      var ok, len := key.DeserializeFrom(data, 0);
    }
  }

  /** The comparator: both keys are read, and the first column decides in which one is less or greater. */
  method CompareKeys(columns: nat, lhs: GenericKey, rhs: GenericKey, ghost fs: seq<Field>, ghost gs: seq<Field>)
    returns (order: int)
    requires lhs.Carries(fs) && rhs.Carries(gs) && |fs| == |gs| == columns
    ensures order == Compare(fs, gs)
  {
    var l := new Row(Rid(-1, 0), []);
    var r := new Row(Rid(-1, 0), []);
    lhs.DeserializeToKey(l, fs);
    rhs.DeserializeToKey(r, gs);
    assert fs[0..] == fs && gs[0..] == gs;
    for i := 0 to columns
      invariant l.fields == fs && r.fields == gs
      invariant Compare(fs[i..], gs[i..]) == Compare(fs, gs)
    {
      assert fs[i..][1..] == fs[i + 1..] && gs[i..][1..] == gs[i + 1..];
      if LessThan(l.fields[i], r.fields[i]) {
        return -1;
      }
      if GreaterThan(l.fields[i], r.fields[i]) {
        return 1;
      }
    }
    return 0;
  }

  /** Keys made from rows of one schema without nulls and floats are ordered as the rows are. */
  method CompareSerialized(a: Row, b: Row, keySize: nat) returns (order: int)
    requires RidOk(a.rid) && RowOk(a.fields) && AllShort(a.fields) && |Encode(a.rid, a.fields)| <= keySize
    requires RidOk(b.rid) && RowOk(b.fields) && AllShort(b.fields) && |Encode(b.rid, b.fields)| <= keySize
    requires Comparable(a.fields, b.fields) && NoNulls(a.fields) && NoNulls(b.fields)
    ensures order < 0 <==> LexBelow(a.fields, b.fields)
    ensures order == 0 <==> a.fields == b.fields
    ensures order > 0 <==> LexBelow(b.fields, a.fields)
  {
    var lhs := new GenericKey(keySize);
    var rhs := new GenericKey(keySize);
    lhs.SerializeFromKey(a);
    rhs.SerializeFromKey(b);
    order := CompareKeys(|a.fields|, lhs, rhs, a.fields, b.fields);
    CompareIsLexicographic(a.fields, b.fields);
  }
}
