/** The order of index keys: how the comparator orders rows, and that this is a total order as long as
    there are no nulls in them. */
module KeyOrder {
  import opened Bytes
  import opened RowCodec

  // ------------------------------------------------------------------ strings

  /** memcmp: the sign of the difference of the first two bytes that differ. */
  function MemCmp(a: seq<byte>, b: seq<byte>, n: nat): int
    requires n <= |a| && n <= |b|
    decreases n
  {
    if n == 0 then 0
    else if a[0] < b[0] then -1 else if a[0] > b[0] then 1 else MemCmp(a[1..], b[1..], n - 1)
  }

  function Min(m: nat, n: nat): nat {
    if m < n then m else n
  }

  /** The common part decides, or else the length. */
  function CompareStrings(a: seq<byte>, b: seq<byte>): int {
    var r := MemCmp(a, b, Min(|a|, |b|));
    if r == 0 && |a| != |b| then |a| - |b| else r
  }

  /** The dictionary order. */
  ghost predicate Precedes(a: seq<byte>, b: seq<byte>) {
    exists k :: SplitAt(a, b, k)
  }

  /** Up to position k the strings agree; there a ends or has the smaller byte. */
  predicate SplitAt(a: seq<byte>, b: seq<byte>, k: int) {
    0 <= k <= |a| && k < |b| && a[..k] == b[..k] && (k == |a| || a[k] < b[k])
  }

  lemma {:induction false} CompareStringsSign(a: seq<byte>, b: seq<byte>)
    ensures CompareStrings(a, b) < 0 <==> Precedes(a, b)
    ensures CompareStrings(a, b) == 0 <==> a == b
    ensures CompareStrings(a, b) > 0 <==> Precedes(b, a)
    decreases |a|
  {
    if a == [] || b == [] {
      EmptyString(a, b);
    } else if a[0] != b[0] {
      DifferInFront(a, b);
    } else {
      CompareStringsSign(a[1..], b[1..]);
      PrecedesRest(a, b);
      PrecedesRest(b, a);
      assert a == [a[0]] + a[1..] && b == [b[0]] + b[1..];
    }
  }

  lemma EmptyString(a: seq<byte>, b: seq<byte>)
    requires a == [] || b == []
    ensures Precedes(a, b) <==> |a| < |b|
    ensures Precedes(b, a) <==> |b| < |a|
  {
    if |a| < |b| {
      assert SplitAt(a, b, 0);
    }
    if |b| < |a| {
      assert SplitAt(b, a, 0);
    }
  }

  lemma DifferInFront(a: seq<byte>, b: seq<byte>)
    requires a != [] && b != [] && a[0] != b[0]
    ensures Precedes(a, b) <==> a[0] < b[0]
    ensures Precedes(b, a) <==> b[0] < a[0]
  {
    DiffersAtOnce(a, b);
    DiffersAtOnce(b, a);
  }

  lemma DiffersAtOnce(a: seq<byte>, b: seq<byte>)
    requires a != [] && b != [] && a[0] != b[0]
    ensures Precedes(a, b) <==> a[0] < b[0]
  {
    if a[0] < b[0] {
      assert SplitAt(a, b, 0);
    }
    forall k | 0 < k <= |a| && k < |b|
      ensures !SplitAt(a, b, k)
    {
      assert a[..k][0] == a[0] && b[..k][0] == b[0];
    }
  }

  lemma PrecedesRest(a: seq<byte>, b: seq<byte>)
    requires a != [] && b != [] && a[0] == b[0]
    ensures Precedes(a, b) <==> Precedes(a[1..], b[1..])
  {
    if Precedes(a, b) {
      var k :| SplitAt(a, b, k);
      assert a[1..][..k - 1] == a[..k][1..] && b[1..][..k - 1] == b[..k][1..];
      assert SplitAt(a[1..], b[1..], k - 1);
    }
    if Precedes(a[1..], b[1..]) {
      var k :| SplitAt(a[1..], b[1..], k);
      assert a[..k + 1] == [a[0]] + a[1..][..k] && b[..k + 1] == [b[0]] + b[1..][..k];
      assert SplitAt(a, b, k + 1);
    }
  }

  // ------------------------------------------------------------------ fields and keys

  /** CompareLessThan says yes; beside a null it does not. */
  predicate LessThan(f: Field, g: Field) {
    match f
    case Int(i) => g.Int? && i < g.i
    case Char(c) => g.Char? && CompareStrings(c, g.chars) < 0
    case _ => false
  }

  predicate GreaterThan(f: Field, g: Field) {
    match f
    case Int(i) => g.Int? && i > g.i
    case Char(c) => g.Char? && CompareStrings(c, g.chars) > 0
    case _ => false
  }

  /** Keys of one schema, without floats. */
  predicate Comparable(a: seq<Field>, b: seq<Field>) {
    |a| == |b| && forall i :: 0 <= i < |a| ==> TypeOf(a[i]) == TypeOf(b[i]) && TypeOf(a[i]) != TypeFloat
  }

  predicate NoNulls(a: seq<Field>) {
    forall i :: 0 <= i < |a| ==> !a[i].Null?
  }

  /** The first column that decides. */
  function Compare(a: seq<Field>, b: seq<Field>): int
    requires |a| == |b|
  {
    if a == [] then 0
    else if LessThan(a[0], b[0]) then -1
    else if GreaterThan(a[0], b[0]) then 1
    else Compare(a[1..], b[1..])
  }

  /** The order of single values. */
  ghost predicate Below(f: Field, g: Field) {
    (f.Int? && g.Int? && f.i < g.i) || (f.Char? && g.Char? && Precedes(f.chars, g.chars))
  }

  /** The lexicographic order of rows. */
  ghost predicate LexBelow(a: seq<Field>, b: seq<Field>) {
    exists k :: DecidedAt(a, b, k)
  }

  ghost predicate DecidedAt(a: seq<Field>, b: seq<Field>, k: int) {
    0 <= k < |a| && k < |b| && a[..k] == b[..k] && Below(a[k], b[k])
  }

  lemma FieldOrder(f: Field, g: Field)
    requires TypeOf(f) == TypeOf(g) && TypeOf(f) != TypeFloat && !f.Null? && !g.Null?
    ensures LessThan(f, g) <==> Below(f, g)
    ensures GreaterThan(f, g) <==> Below(g, f)
    ensures !Below(f, g) && !Below(g, f) <==> f == g
    ensures !(Below(f, g) && Below(g, f))
  {
    if f.Char? {
      CompareStringsSign(f.chars, g.chars);
    }
  }

  lemma {:induction false} CompareIsLexicographic(a: seq<Field>, b: seq<Field>)
    requires Comparable(a, b) && NoNulls(a) && NoNulls(b)
    ensures Compare(a, b) < 0 <==> LexBelow(a, b)
    ensures Compare(a, b) == 0 <==> a == b
    ensures Compare(a, b) > 0 <==> LexBelow(b, a)
  {
    if a != [] {
      FieldOrder(a[0], b[0]);
      FieldOrder(b[0], a[0]);
      assert a == [a[0]] + a[1..] && b == [b[0]] + b[1..];
      if a[0] == b[0] {
        CompareIsLexicographic(a[1..], b[1..]);
        LexRest(a, b);
        LexRest(b, a);
      } else {
        LexAtOnce(a, b);
        LexAtOnce(b, a);
      }
    }
  }

  lemma LexAtOnce(a: seq<Field>, b: seq<Field>)
    requires a != [] && b != [] && a[0] != b[0]
    ensures LexBelow(a, b) <==> Below(a[0], b[0])
  {
    if Below(a[0], b[0]) {
      assert DecidedAt(a, b, 0);
    }
    forall k | 0 < k < |a| && k < |b|
      ensures !DecidedAt(a, b, k)
    {
      assert a[..k][0] == a[0] && b[..k][0] == b[0];
    }
  }

  lemma LexRest(a: seq<Field>, b: seq<Field>)
    requires a != [] && b != [] && a[0] == b[0] && !Below(a[0], b[0])
    ensures LexBelow(a, b) <==> LexBelow(a[1..], b[1..])
  {
    if LexBelow(a, b) {
      var k :| DecidedAt(a, b, k);
      assert a[1..][..k - 1] == a[..k][1..] && b[1..][..k - 1] == b[..k][1..];
      assert DecidedAt(a[1..], b[1..], k - 1);
    }
    if LexBelow(a[1..], b[1..]) {
      var k :| DecidedAt(a[1..], b[1..], k);
      assert a[..k + 1] == [a[0]] + a[1..][..k] && b[..k + 1] == [b[0]] + b[1..][..k];
      assert DecidedAt(a, b, k + 1);
    }
  }

  // ------------------------------------------------------------------ a total order

  lemma PrecedesTransitive(a: seq<byte>, b: seq<byte>, c: seq<byte>)
    requires Precedes(a, b) && Precedes(b, c)
    ensures Precedes(a, c)
  {
    var j :| SplitAt(a, b, j);
    var k :| SplitAt(b, c, k);
    var h := Min(j, k);
    assert a[..h] == a[..j][..h] && b[..h] == b[..j][..h] == b[..k][..h] && c[..h] == c[..k][..h];
    assert j < k ==> b[j] == b[..k][j] == c[..k][j];
    assert k < j ==> b[k] == b[..j][k] == a[..j][k];
    assert SplitAt(a, c, h);
  }

  lemma BelowTransitive(f: Field, g: Field, h: Field)
    requires Below(f, g) && Below(g, h)
    ensures Below(f, h)
  {
    if f.Char? {
      PrecedesTransitive(f.chars, g.chars, h.chars);
    }
  }

  lemma LexTransitive(a: seq<Field>, b: seq<Field>, c: seq<Field>)
    requires LexBelow(a, b) && LexBelow(b, c)
    ensures LexBelow(a, c)
  {
    var j :| DecidedAt(a, b, j);
    var k :| DecidedAt(b, c, k);
    var h := Min(j, k);
    assert a[..h] == a[..j][..h] && b[..h] == b[..j][..h] == b[..k][..h] && c[..h] == c[..k][..h];
    assert j < k ==> b[j] == b[..k][j] == c[..k][j];
    assert k < j ==> b[k] == b[..j][k] == a[..j][k];
    if j == k {
      BelowTransitive(a[j], b[j], c[j]);
    }
    assert DecidedAt(a, c, h);
  }

  /** On keys of one schema, without nulls and floats, the comparator is a total order: equal keys and
      no others compare equal, exchanging two keys exchanges the signs, and it is transitive. */
  lemma ComparatorIsTotalOrder(a: seq<Field>, b: seq<Field>, c: seq<Field>)
    requires Comparable(a, b) && Comparable(b, c) && NoNulls(a) && NoNulls(b) && NoNulls(c)
    ensures Compare(a, b) == 0 <==> a == b
    ensures Compare(a, b) == -Compare(b, a)
    ensures Compare(a, b) < 0 && Compare(b, c) < 0 ==> Compare(a, c) < 0
    ensures Compare(a, b) < 0 <==> LexBelow(a, b)
  {
    CompareIsLexicographic(a, b);
    CompareIsLexicographic(b, a);
    CompareIsLexicographic(b, c);
    CompareIsLexicographic(a, c);
    CompareRange(a, b);
    CompareRange(b, a);
    if LexBelow(a, b) && LexBelow(b, c) {
      LexTransitive(a, b, c);
    }
  }

  lemma {:induction false} CompareRange(a: seq<Field>, b: seq<Field>)
    requires |a| == |b|
    ensures -1 <= Compare(a, b) <= 1
  {
    if a != [] {
      CompareRange(a[1..], b[1..]);
    }
  }

  // ------------------------------------------------------------------ nulls

  /** The same in every column in which neither key has a null. */
  predicate AgreeApartFromNulls(a: seq<Field>, b: seq<Field>) {
    |a| == |b| && forall i :: 0 <= i < |a| ==> a[i] == b[i] || a[i].Null? || b[i].Null?
  }

  /** A null compares equal to everything: what "compares equal" means for keys of one schema. */
  lemma {:induction false} EqualApartFromNulls(a: seq<Field>, b: seq<Field>)
    requires Comparable(a, b)
    ensures Compare(a, b) == 0 <==> AgreeApartFromNulls(a, b)
  {
    if a != [] {
      EqualApartFromNulls(a[1..], b[1..]);
      if !a[0].Null? && !b[0].Null? {
        FieldOrder(a[0], b[0]);
      }
      assert AgreeApartFromNulls(a, b) ==> AgreeApartFromNulls(a[1..], b[1..]);
      if AgreeApartFromNulls(a[1..], b[1..]) && (a[0] == b[0] || a[0].Null? || b[0].Null?) {
        forall i | 0 <= i < |a|
          ensures a[i] == b[i] || a[i].Null? || b[i].Null?
        {
          assert i > 0 ==> a[i] == a[1..][i - 1] && b[i] == b[1..][i - 1];
        }
      }
    }
  }

  /** "Compares equal" carries over from one side of b to the other. */
  ghost predicate TransitiveThrough(b: seq<Field>) {
    forall a, c {:trigger Compare(a, b), Compare(b, c)} ::
      Comparable(a, b) && Comparable(b, c) && Compare(a, b) == 0 && Compare(b, c) == 0 ==> Compare(a, c) == 0
  }

  /** It does so exactly if there is no null in b. */
  lemma NullsBreakTheOrder(b: seq<Field>)
    requires Comparable(b, b)
    ensures TransitiveThrough(b) <==> NoNulls(b)
  {
    if NoNulls(b) {
      forall a, c | Comparable(a, b) && Comparable(b, c) && Compare(a, b) == 0 && Compare(b, c) == 0
        ensures Compare(a, c) == 0
      {
        EqualApartFromNulls(a, b);
        EqualApartFromNulls(b, c);
        EqualApartFromNulls(a, c);
      }
    } else {
      var i :| 0 <= i < |b| && b[i].Null?;
      var less, more := SomeValues(b[i].t);
      var a, c := b[i := less], b[i := more];
      EqualApartFromNulls(a, b);
      EqualApartFromNulls(b, c);
      EqualApartFromNulls(a, c);
      assert a[i] != c[i];
      assert Compare(a, b) == 0 && Compare(b, c) == 0 && Compare(a, c) != 0;
    }
  }

  lemma SomeValues(t: TypeId) returns (less: Field, more: Field)
    requires t != TypeFloat
    ensures TypeOf(less) == TypeOf(more) == t && less != more && !less.Null? && !more.Null?
  {
    if t == TypeInt {
      less, more := Int(0), Int(1);
    } else {
      less, more := Char([]), Char([0]);
    }
  }

  /** Nulls in the same columns. */
  predicate SameNulls(a: seq<Field>, b: seq<Field>) {
    |a| == |b| && forall i :: 0 <= i < |a| ==> (a[i].Null? <==> b[i].Null?)
  }

  /** The fields of a key that are not null. */
  function Present(a: seq<Field>): (r: seq<Field>)
    ensures NoNulls(r)
  {
    if a == [] then [] else if a[0].Null? then Present(a[1..]) else [a[0]] + Present(a[1..])
  }

  lemma OneColumnMore(f: Field, g: Field, a: seq<Field>, b: seq<Field>)
    requires Comparable(a, b) && TypeOf(f) == TypeOf(g) != TypeFloat
    ensures Comparable([f] + a, [g] + b)
    ensures Compare([f] + a, [g] + b) == if LessThan(f, g) then -1 else if GreaterThan(f, g) then 1 else Compare(a, b)
    ensures [f] + a == [g] + b <==> f == g && a == b
  {
    var x, y := [f] + a, [g] + b;
    assert x[1..] == a && y[1..] == b && x[0] == f && y[0] == g;
  }

  lemma {:induction false} PresentDecides(a: seq<Field>, b: seq<Field>)
    requires Comparable(a, b) && SameNulls(a, b)
    ensures Comparable(Present(a), Present(b)) && Compare(a, b) == Compare(Present(a), Present(b))
    ensures Present(a) == Present(b) <==> a == b
  {
    if a == [] {
      assert b == [];
    } else {
      assert a == [a[0]] + a[1..] && b == [b[0]] + b[1..];
      PresentDecides(a[1..], b[1..]);
      if !a[0].Null? {
        OneColumnMore(a[0], b[0], Present(a[1..]), Present(b[1..]));
      }
    }
  }

  /** Among keys that have their nulls in the same columns the comparator is a total order. */
  lemma SameNullsAreOrdered(a: seq<Field>, b: seq<Field>, c: seq<Field>)
    requires Comparable(a, b) && Comparable(b, c) && SameNulls(a, b) && SameNulls(b, c)
    ensures Compare(a, b) == 0 <==> a == b
    ensures Compare(a, b) == -Compare(b, a)
    ensures Compare(a, b) < 0 && Compare(b, c) < 0 ==> Compare(a, c) < 0
  {
    PresentDecides(a, b);
    PresentDecides(b, a);
    PresentDecides(b, c);
    PresentDecides(a, c);
    ComparatorIsTotalOrder(Present(a), Present(b), Present(c));
  }

  // ------------------------------------------------------------------ keys as numbers

  /** Any two of the keys can be compared. */
  predicate OneSchema(keys: set<seq<Field>>) {
    forall a, b :: a in keys && b in keys ==> Comparable(a, b) && NoNulls(a)
  }

  /** How many of the keys come before a. */
  function Rank(keys: set<seq<Field>>, a: seq<Field>): nat
    requires OneSchema(keys) && a in keys
  {
    |set b | b in keys && Compare(b, a) < 0|
  }

  /** Among finitely many keys the comparator orders them just as their ranks, which are integers, are
      ordered: a tree that never sees other keys cannot tell the difference. */
  lemma RanksOrder(keys: set<seq<Field>>, a: seq<Field>, b: seq<Field>)
    requires OneSchema(keys) && a in keys && b in keys
    ensures Compare(a, b) < 0 <==> Rank(keys, a) < Rank(keys, b)
    ensures Compare(a, b) == 0 <==> Rank(keys, a) == Rank(keys, b)
  {
    ComparatorIsTotalOrder(a, b, a);
    if Compare(a, b) < 0 {
      RankGrows(keys, a, b);
    } else if Compare(b, a) < 0 {
      RankGrows(keys, b, a);
    }
  }

  lemma RankGrows(keys: set<seq<Field>>, a: seq<Field>, b: seq<Field>)
    requires OneSchema(keys) && a in keys && b in keys && Compare(a, b) < 0
    ensures Rank(keys, a) < Rank(keys, b)
  {
    var s, t := set c | c in keys && Compare(c, a) < 0, set c | c in keys && Compare(c, b) < 0;
    forall c | c in s
      ensures c in t
    {
      ComparatorIsTotalOrder(c, a, b);
    }
    ComparatorIsTotalOrder(a, a, a);
    assert a in t && a !in s;
    Smaller(s, t, a);
  }

  lemma Smaller<T>(s: set<T>, t: set<T>, x: T)
    requires s <= t && x in t && x !in s
    ensures |s| < |t|
  {
    assert s <= t - {x};
    SubsetSize(s, t - {x});
  }

  lemma {:induction false} SubsetSize<T>(s: set<T>, t: set<T>)
    requires s <= t
    ensures |s| <= |t|
    decreases |s|
  {
    if s != {} {
      var x :| x in s;
      SubsetSize(s - {x}, t - {x});
    }
  }
}
