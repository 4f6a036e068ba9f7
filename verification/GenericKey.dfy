/** Index keys: rows in buffers of a fixed size, and their order (generic_key.h, types.cpp). */
module GenericKeys {
  import opened Basics
  import opened ByteCodec
  import opened Rows

  // ------------------------------------------------------------ The strings

  /** The sign of memcmp on the first `n` bytes. */
  function MemCmp(a: seq<byte>, b: seq<byte>, n: nat): int
    requires n <= |a| && n <= |b|
  {
    if n == 0 then 0
    else if a[0] < b[0] then -1
    else if a[0] > b[0] then 1
    else MemCmp(a[1..], b[1..], n - 1)
  }

  function CompareStrings(a: seq<byte>, b: seq<byte>): int {
    var r := MemCmp(a, b, if |a| < |b| then |a| else |b|);
    if r == 0 && |a| != |b| then |a| - |b| else r
  }

  /** Dictionary order. */
  predicate LexLess(a: seq<byte>, b: seq<byte>) {
    b != [] && (a == [] || a[0] < b[0] || (a[0] == b[0] && LexLess(a[1..], b[1..])))
  }

  lemma {:induction false} CompareIsLex(a: seq<byte>, b: seq<byte>)
    ensures CompareStrings(a, b) < 0 <==> LexLess(a, b)
    ensures CompareStrings(a, b) > 0 <==> LexLess(b, a)
    ensures CompareStrings(a, b) == 0 <==> a == b
  {
    if a != [] && b != [] && a[0] == b[0] {
      CompareIsLex(a[1..], b[1..]);
      assert a == [a[0]] + a[1..] && b == [b[0]] + b[1..];
    }
  }

  lemma {:induction false} LexTransitive(a: seq<byte>, b: seq<byte>, c: seq<byte>)
    requires LexLess(a, b) && LexLess(b, c)
    ensures LexLess(a, c)
  {
    if a != [] && a[0] == b[0] == c[0] {
      LexTransitive(a[1..], b[1..], c[1..]);
    }
  }

  // ------------------------------------------------------------- The fields

  /** A float that is not a number: the exponent is all ones and the fraction is not zero. */
  predicate IsNaN(bits: nat) {
    bits % 0x8000_0000 > 0x7F80_0000
  }

  /** Numbers are ordered like their magnitude bits, negated under the sign bit; both zeros are 0. */
  function FloatRank(bits: nat): int {
    if bits < 0x8000_0000 then bits else 0x8000_0000 - bits
  }

  /** What a single-precision number is worth, in units of 2 to the power -149: the sign, an exponent of eight bits and
      a fraction of 23 with its hidden bit. An infinity counts as 2 to the power 128, past every number. */
  function FloatValue(bits: nat): int {
    if bits < 0x8000_0000 then Magnitude(bits) else -Magnitude(bits - 0x8000_0000)
  }

  function Magnitude(bits: nat): int {
    Scaled(bits / 0x80_0000, bits % 0x80_0000)
  }

  /** Every step of the exponent doubles the fraction, which from exponent 1 on has its hidden bit. */
  function Scaled(exponent: nat, fraction: nat): int {
    if exponent == 0 then fraction
    else if exponent == 1 then 0x80_0000 + fraction
    else 2 * Scaled(exponent - 1, fraction)
  }

  lemma {:induction false} ScaledRange(exponent: nat, fraction: nat)
    requires fraction < 0x80_0000
    ensures 0 <= Scaled(exponent, fraction) < 0x80_0000 * Pow2(exponent)
    ensures exponent > 0 ==> 0x80_0000 * Pow2(exponent - 1) <= Scaled(exponent, fraction)
  {
    if exponent > 1 {
      ScaledRange(exponent - 1, fraction);
    } else {
      assert Pow2(0) == 1 && Pow2(1) == 2;
    }
  }

  lemma {:induction false} ScaledIncreases(exponent: nat, x: nat, y: nat)
    requires x < y
    ensures Scaled(exponent, x) < Scaled(exponent, y)
  {
    if exponent > 1 {
      ScaledIncreases(exponent - 1, x, y);
    }
  }

  lemma MagnitudeIncreases(a: nat, b: nat)
    requires a < b
    ensures 0 <= Magnitude(a) < Magnitude(b)
  {
    hide Pow2, Scaled;
    var m, n, x, y := a / 0x80_0000, b / 0x80_0000, a % 0x80_0000, b % 0x80_0000;
    ScaledRange(m, x);
    ScaledRange(n, y);
    if m < n {
      Pow2Grows(m, n - 1);
    } else {
      ScaledIncreases(m, x, y);
    }
  }

  /** Ranks order the bits as the numbers they stand for. */
  lemma RankIsValue(a: nat, b: nat)
    ensures FloatRank(a) < FloatRank(b) <==> FloatValue(a) < FloatValue(b)
    ensures FloatRank(a) == FloatRank(b) <==> FloatValue(a) == FloatValue(b)
  {
    assert Magnitude(0) == 0;
    hide Magnitude, Scaled;
    var m := if a < 0x8000_0000 then a else a - 0x8000_0000;
    var n := if b < 0x8000_0000 then b else b - 0x8000_0000;
    if m < n {
      MagnitudeIncreases(m, n);
    } else if n < m {
      MagnitudeIncreases(n, m);
    }
    if m > 0 {
      MagnitudeIncreases(0, m);
    }
    if n > 0 {
      MagnitudeIncreases(0, n);
    }
  }

  /** CompareLessThan gives kTrue: never with a null on either side. */
  predicate Less(f: Field, g: Field)
    requires f.Type() == g.Type()
  {
    if f.NullField? || g.NullField? then false
    else match f
      case IntField(v) => v < g.integer
      case FloatField(bits) => !IsNaN(bits) && !IsNaN(g.bits) && FloatRank(bits) < FloatRank(g.bits)
      case CharField(chars) => CompareStrings(chars, g.chars) < 0
  }

  /** CompareGreaterThan gives kTrue. */
  predicate Greater(f: Field, g: Field)
    requires f.Type() == g.Type()
  {
    if f.NullField? || g.NullField? then false
    else match f
      case IntField(v) => v > g.integer
      case FloatField(bits) => !IsNaN(bits) && !IsNaN(g.bits) && FloatRank(bits) > FloatRank(g.bits)
      case CharField(chars) => CompareStrings(chars, g.chars) > 0
  }

  function FieldOrder(f: Field, g: Field): int
    requires f.Type() == g.Type()
  {
    if Less(f, g) then -1 else if Greater(f, g) then 1 else 0
  }

  predicate SameTypes(a: seq<Field>, b: seq<Field>) {
    |a| == |b| && forall i :: 0 <= i < |a| ==> a[i].Type() == b[i].Type()
  }

  /** The order that the first column which differs decides. */
  function KeyOrder(a: seq<Field>, b: seq<Field>): int
    requires SameTypes(a, b)
  {
    if a == [] then 0
    else if FieldOrder(a[0], b[0]) != 0 then FieldOrder(a[0], b[0])
    else KeyOrder(a[1..], b[1..])
  }

  // ------------------------------------------------------------- Total order

  predicate Ordered(f: Field) {
    !f.NullField? && (f.FloatField? ==> !IsNaN(f.bits))
  }

  predicate AllOrdered(a: seq<Field>) {
    forall i :: 0 <= i < |a| ==> Ordered(a[i])
  }

  /** The same value: the same field, but for the sign of a zero. */
  predicate SameValue(f: Field, g: Field) {
    f == g || (f.FloatField? && g.FloatField? && FloatValue(f.bits) == FloatValue(g.bits))
  }

  lemma FieldOrderTotal(f: Field, g: Field)
    requires f.Type() == g.Type() && Ordered(f) && Ordered(g)
    ensures FieldOrder(f, g) == -FieldOrder(g, f)
    ensures FieldOrder(f, g) == 0 <==> SameValue(f, g)
  {
    if f.CharField? {
      CompareIsLex(f.chars, g.chars);
      CompareIsLex(g.chars, f.chars);
    } else if f.FloatField? {
      RankIsValue(f.bits, g.bits);
    }
  }

  lemma FieldOrderTransitive(f: Field, g: Field, h: Field)
    requires f.Type() == g.Type() == h.Type() && Ordered(f) && Ordered(g) && Ordered(h)
    requires FieldOrder(f, g) <= 0 && FieldOrder(g, h) <= 0
    ensures FieldOrder(f, h) <= 0
    ensures FieldOrder(f, h) == 0 <==> FieldOrder(f, g) == 0 && FieldOrder(g, h) == 0
  {
    if f.CharField? {
      CompareIsLex(f.chars, g.chars);
      CompareIsLex(g.chars, h.chars);
      CompareIsLex(f.chars, h.chars);
      if LexLess(f.chars, g.chars) && LexLess(g.chars, h.chars) {
        LexTransitive(f.chars, g.chars, h.chars);
      }
    }
  }

  /** Numbers by their size, strings by the dictionary; a null or what is not a number is smaller than nothing. */
  predicate Smaller(f: Field, g: Field) {
    || (f.IntField? && g.IntField? && f.integer < g.integer)
    || (f.FloatField? && g.FloatField? && Ordered(f) && Ordered(g) && FloatValue(f.bits) < FloatValue(g.bits))
    || (f.CharField? && g.CharField? && LexLess(f.chars, g.chars))
  }

  /** No answer from this column: the same value, or one side without any. */
  predicate Undecided(f: Field, g: Field) {
    !Ordered(f) || !Ordered(g) || SameValue(f, g)
  }

  lemma FieldOrderIs(f: Field, g: Field)
    requires f.Type() == g.Type()
    ensures FieldOrder(f, g) == if Smaller(f, g) then -1 else if Smaller(g, f) then 1 else 0
    ensures FieldOrder(f, g) == 0 <==> Undecided(f, g)
    ensures !(Smaller(f, g) && Smaller(g, f))
  {
    if f.CharField? && g.CharField? {
      CompareIsLex(f.chars, g.chars);
      CompareIsLex(g.chars, f.chars);
    } else if f.FloatField? && g.FloatField? {
      RankIsValue(f.bits, g.bits);
      RankIsValue(g.bits, f.bits);
    }
  }

  /** Column `i` is the first that has an answer, and it is smaller in `a`. */
  predicate SmallerAt(a: seq<Field>, b: seq<Field>, i: nat) {
    i < |a| && i < |b| && Smaller(a[i], b[i]) && forall j | 0 <= j < i :: Undecided(a[j], b[j])
  }

  lemma SmallerFirst(a: seq<Field>, b: seq<Field>)
    requires |a| == |b| > 0
    ensures (exists i: nat :: SmallerAt(a, b, i)) <==>
      Smaller(a[0], b[0]) || (Undecided(a[0], b[0]) && exists i: nat :: SmallerAt(a[1..], b[1..], i))
  {
    hide Smaller, Undecided;
    if Smaller(a[0], b[0]) {
      assert SmallerAt(a, b, 0);
    }
    if i: nat :| SmallerAt(a[1..], b[1..], i) && Undecided(a[0], b[0]) {
      forall j | 0 <= j < i + 1 ensures Undecided(a[j], b[j]) {
        assert j > 0 ==> Undecided(a[1..][j - 1], b[1..][j - 1]);
      }
      assert SmallerAt(a, b, i + 1);
    }
    if i: nat :| SmallerAt(a, b, i) {
      if i > 0 {
        assert forall j | 0 <= j < i - 1 :: a[1..][j] == a[j + 1] && b[1..][j] == b[j + 1];
        assert SmallerAt(a[1..], b[1..], i - 1);
      }
    }
  }

  /** The first column with an answer decides, whatever the keys. */
  lemma {:induction false} FirstColumnDecides(a: seq<Field>, b: seq<Field>)
    requires SameTypes(a, b)
    ensures KeyOrder(a, b) in {-1, 0, 1}
    ensures KeyOrder(a, b) == -1 <==> exists i: nat :: SmallerAt(a, b, i)
    ensures KeyOrder(a, b) == 1 <==> exists i: nat :: SmallerAt(b, a, i)
  {
    if a != [] {
      FieldOrderIs(a[0], b[0]);
      FieldOrderIs(b[0], a[0]);
      FirstColumnDecides(a[1..], b[1..]);
      hide Smaller, Undecided, SmallerAt, FieldOrder;
      SmallerFirst(a, b);
      SmallerFirst(b, a);
    }
  }

  lemma {:induction false} KeyOrderAntisymmetric(a: seq<Field>, b: seq<Field>)
    requires SameTypes(a, b) && AllOrdered(a) && AllOrdered(b)
    ensures KeyOrder(a, b) == -KeyOrder(b, a)
  {
    if a != [] {
      FieldOrderTotal(a[0], b[0]);
      KeyOrderAntisymmetric(a[1..], b[1..]);
    }
  }

  /** Equal keys are keys with the same values. */
  lemma {:induction false} KeyOrderZero(a: seq<Field>, b: seq<Field>)
    requires SameTypes(a, b) && AllOrdered(a) && AllOrdered(b)
    ensures KeyOrder(a, b) == 0 <==> forall i :: 0 <= i < |a| ==> SameValue(a[i], b[i])
  {
    if a != [] {
      FieldOrderTotal(a[0], b[0]);
      KeyOrderZero(a[1..], b[1..]);
      assert forall i :: 0 < i < |a| ==> a[i] == a[1..][i - 1] && b[i] == b[1..][i - 1];
    }
  }

  lemma {:induction false} KeyOrderTransitive(a: seq<Field>, b: seq<Field>, c: seq<Field>)
    requires SameTypes(a, b) && SameTypes(b, c) && AllOrdered(a) && AllOrdered(b) && AllOrdered(c)
    requires KeyOrder(a, b) <= 0 && KeyOrder(b, c) <= 0
    ensures KeyOrder(a, c) <= 0
    ensures KeyOrder(a, c) == 0 <==> KeyOrder(a, b) == 0 && KeyOrder(b, c) == 0
  {
    if a != [] {
      FieldOrderTransitive(a[0], b[0], c[0]);
      if FieldOrder(a[0], b[0]) == 0 && FieldOrder(b[0], c[0]) == 0 {
        KeyOrderTransitive(a[1..], b[1..], c[1..]);
      }
    }
  }

  // ------------------------------------------------- A null or no number in a key

  /** An ordered field of the type; `high` is above the other. */
  function Sample(t: TypeId, high: bool): (f: Field)
    ensures f.Type() == t && Ordered(f)
  {
    match t
    case IntType => IntField(if high then 1 else 0)
    case FloatType => FloatField(if high then 1 else 0)
    case CharType => CharField(if high then [1] else [0])
  }

  /** The key with a value in place of each field that has no order. */
  function Filled(key: seq<Field>, high: bool): (a: seq<Field>)
    ensures |a| == |key|
  {
    if key == [] then []
    else [if Ordered(key[0]) then key[0] else Sample(key[0].Type(), high)] + Filled(key[1..], high)
  }

  lemma {:induction false} FilledIsEqual(key: seq<Field>, high: bool)
    ensures SameTypes(Filled(key, high), key) && AllOrdered(Filled(key, high))
    ensures KeyOrder(Filled(key, high), key) == 0 && KeyOrder(key, Filled(key, high)) == 0
  {
    if key != [] {
      var a := Filled(key, high);
      FilledIsEqual(key[1..], high);
      assert a[1..] == Filled(key[1..], high);
      assert forall i :: 0 < i < |a| ==> a[i] == a[1..][i - 1] && key[i] == key[1..][i - 1];
      if Ordered(key[0]) {
        FieldOrderTotal(key[0], key[0]);
      }
    }
  }

  lemma SamplesApart(t: TypeId)
    ensures FieldOrder(Sample(t, true), Sample(t, false)) > 0
  {
    if t == CharType {
      CompareIsLex([1], [0]);
    }
  }

  lemma {:induction false} FilledApart(key: seq<Field>)
    requires !AllOrdered(key)
    ensures SameTypes(Filled(key, true), Filled(key, false))
    ensures KeyOrder(Filled(key, true), Filled(key, false)) > 0
  {
    FilledIsEqual(key, true);
    FilledIsEqual(key, false);
    var a, c := Filled(key, true), Filled(key, false);
    assert a[1..] == Filled(key[1..], true) && c[1..] == Filled(key[1..], false);
    if Ordered(key[0]) {
      FieldOrderTotal(key[0], key[0]);
      var i :| 0 <= i < |key| && !Ordered(key[i]);
      assert key[1..][i - 1] == key[i];
      FilledApart(key[1..]);
    } else {
      SamplesApart(key[0].Type());
    }
  }

  /** The order is transitive through a key. */
  ghost predicate TransitiveThrough(b: seq<Field>) {
    forall a, c | SameTypes(a, b) && SameTypes(b, c) && SameTypes(a, c) && AllOrdered(a) && AllOrdered(c) ::
      KeyOrder(a, b) <= 0 && KeyOrder(b, c) <= 0 ==> KeyOrder(a, c) <= 0
  }

  /** Exactly if no field of the key is null or not a number: such a field is equal to any other, and these are not
      equal to each other. */
  lemma TransitiveThroughIff(b: seq<Field>)
    ensures TransitiveThrough(b) <==> AllOrdered(b)
  {
    if AllOrdered(b) {
      forall a, c | SameTypes(a, b) && SameTypes(b, c) && SameTypes(a, c) && AllOrdered(a) && AllOrdered(c)
          && KeyOrder(a, b) <= 0 && KeyOrder(b, c) <= 0
        ensures KeyOrder(a, c) <= 0
      {
        KeyOrderTransitive(a, b, c);
      }
    } else {
      var a, c := Filled(b, true), Filled(b, false);
      FilledIsEqual(b, true);
      FilledIsEqual(b, false);
      FilledApart(b);
      assert SameTypes(b, c);
    }
  }

  // ------------------------------------------------------------ The buffers

  function ZeroBytes(n: nat): (s: seq<byte>)
    ensures |s| == n && forall i :: 0 <= i < n ==> s[i] == 0
  {
    seq(n, i => 0)
  }

  /** A key in its buffer: the row, and zeros behind it. */
  function KeyBytes(key: seq<Field>, size: nat): (bytes: seq<byte>)
    requires AllOk(key) && |RowBytes(key)| <= size
    ensures |bytes| == size
  {
    RowBytes(key) + ZeroBytes(size - |RowBytes(key)|)
  }

  /** Padding does not confuse keys: buffers are equal exactly when the keys are. */
  lemma PaddedKeysDiffer(a: seq<Field>, b: seq<Field>, schema: Schema, size: nat)
    requires Conforms(a, schema) && Conforms(b, schema) && AllOk(a) && AllOk(b) && |schema| <= MAX_FIELDS
    requires |RowBytes(a)| <= size && |RowBytes(b)| <= size
    ensures KeyBytes(a, size) == KeyBytes(b, size) <==> a == b
  {
    if KeyBytes(a, size) == KeyBytes(b, size) {
      KeyBytesHold(a, size);
      KeyBytesHold(b, size);
      RowDetermined(KeyBytes(a, size), 0, a, b, schema);
    }
  }

  lemma KeyBytesHold(key: seq<Field>, size: nat)
    requires AllOk(key) && |RowBytes(key)| <= size
    ensures KeyBytes(key, size)[0..0 + |RowBytes(key)|] == RowBytes(key)
  {
  }

  class KeyManager {
    const keySize: nat
    const keySchema: Schema

    constructor (keySchema: Schema, keySize: nat)
      ensures this.keySchema == keySchema && this.keySize == keySize
    {
      this.keySchema := keySchema;
      this.keySize := keySize;
    }

    method SerializeFromKey(buf: array<byte>, key: Row, schema: Schema)
      requires buf.Length == keySize && |key.fields| == |schema| && |key.fields| <= MAX_FIELDS && AllOk(key.fields)
      requires |RowBytes(key.fields)| <= keySize
      modifies buf
      ensures buf[..] == KeyBytes(key.fields, keySize)
    {
      for i := 0 to keySize
        invariant forall j :: 0 <= j < i ==> buf[j] == 0
      {
        buf[i] := 0;
      }
      ghost var zeros := buf[..];
      assert zeros == ZeroBytes(keySize);
      var n := key.SerializeTo(buf, 0, schema);
      RowSizeIsLength(key.fields);
      assert zeros[..0] == [];
      assert zeros[|RowBytes(key.fields)|..] == ZeroBytes(keySize - |RowBytes(key.fields)|);
    }

    method DeserializeToKey(buf: array<byte>, key: Row, schema: Schema, ghost was: seq<Field>)
      requires Conforms(was, schema) && AllOk(was) && |was| <= MAX_FIELDS && |RowBytes(was)| <= keySize
      requires buf[..] == KeyBytes(was, keySize)
      modifies key
      ensures key.fields == was
    {
      KeyBytesHold(was, keySize);
      assert buf[0..0 + |RowBytes(was)|] == buf[..][0..0 + |RowBytes(was)|];
      var n := key.DeserializeFrom(buf, 0, schema, was);
    }

    /** The comparison that the index tree makes: the first column decides in which one key is smaller. */
    method CompareKeys(lhs: array<byte>, rhs: array<byte>, ghost a: seq<Field>, ghost b: seq<Field>) returns (r: int)
      requires Conforms(a, keySchema) && Conforms(b, keySchema) && AllOk(a) && AllOk(b) && |keySchema| <= MAX_FIELDS
      requires |RowBytes(a)| <= keySize && |RowBytes(b)| <= keySize
      requires lhs[..] == KeyBytes(a, keySize) && rhs[..] == KeyBytes(b, keySize)
      ensures r == KeyOrder(a, b) && r in {-1, 0, 1}
      ensures r == -1 <==> exists i: nat :: SmallerAt(a, b, i)
      ensures r == 1 <==> exists i: nat :: SmallerAt(b, a, i)
    {
      FirstColumnDecides(a, b);
      var lhsKey := new Row([]);
      var rhsKey := new Row([]);
      DeserializeToKey(lhs, lhsKey, keySchema, a);
      DeserializeToKey(rhs, rhsKey, keySchema, b);
      for i := 0 to |keySchema|
        invariant KeyOrder(a, b) == KeyOrder(a[i..], b[i..])
      {
        if Less(lhsKey.fields[i], rhsKey.fields[i]) {
          return -1;
        }
        if Greater(lhsKey.fields[i], rhsKey.fields[i]) {
          return 1;
        }
        assert a[i..][1..] == a[i + 1..] && b[i..][1..] == b[i + 1..];
      }
      r := 0;
    }
  }
}
