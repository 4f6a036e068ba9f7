/** Fields and rows as bytes (types.cpp, row.cpp). */
module Rows {
  import opened Basics
  import opened ByteCodec

  const ROW_MAGIC_NUM := 0x1234_5678
  const VARCHAR_MAX_LEN := 2048
  const HEADER_SIZE := 12
  const MAX_FIELDS := 32

  datatype TypeId = IntType | FloatType | CharType

  /** A float field is its four bytes, read as a number. */
  datatype Field =
    | NullField(nullType: TypeId)
    | IntField(integer: int)
    | FloatField(bits: nat)
    | CharField(chars: seq<byte>)
  {
    function Type(): TypeId {
      match this
      case NullField(t) => t
      case IntField(_) => IntType
      case FloatField(_) => FloatType
      case CharField(_) => CharType
    }

    /** What the constructors of Field admit. */
    predicate Ok() {
      match this
      case NullField(_) => true
      case IntField(v) => -0x8000_0000 <= v < 0x8000_0000
      case FloatField(bits) => bits < TWO_TO_THE_32
      case CharField(chars) => |chars| < VARCHAR_MAX_LEN
    }
  }

  predicate AllOk(fields: seq<Field>) {
    forall i :: 0 <= i < |fields| ==> fields[i].Ok()
  }

  type Schema = seq<TypeId>

  predicate Conforms(fields: seq<Field>, schema: Schema) {
    |fields| == |schema| && forall i :: 0 <= i < |fields| ==> fields[i].Type() == schema[i]
  }

  // ------------------------------------------------------------ The format

  /** Two's complement: the same number modulo 2 to the power 32. */
  function Unsigned(v: int): (u: nat)
    requires -0x8000_0000 <= v < 0x8000_0000
    ensures u < TWO_TO_THE_32 && (u - v) % TWO_TO_THE_32 == 0
  {
    if v < 0 then v + TWO_TO_THE_32 else v
  }

  function Signed(u: nat): int {
    if u < 0x8000_0000 then u else u - TWO_TO_THE_32
  }

  function FieldBytes(f: Field): seq<byte>
    requires f.Ok()
  {
    match f
    case NullField(_) => []
    case IntField(v) => U32Bytes(Unsigned(v))
    case FloatField(bits) => U32Bytes(bits)
    case CharField(chars) => U32Bytes(|chars|) + chars
  }

  /** The bytes of the first `n` fields. */
  function FieldsUpTo(fields: seq<Field>, n: nat): seq<byte>
    requires AllOk(fields) && n <= |fields|
  {
    if n == 0 then [] else FieldsUpTo(fields, n - 1) + FieldBytes(fields[n - 1])
  }

  function FieldsBytes(fields: seq<Field>): seq<byte>
    requires AllOk(fields)
  {
    FieldsUpTo(fields, |fields|)
  }

  function Pow2(n: nat): (p: nat)
    ensures p > 0
  {
    if n == 0 then 1 else 2 * Pow2(n - 1)
  }

  /** Bit `i` is set for a null field `i`, among the first `n`. */
  function NullsUpTo(fields: seq<Field>, n: nat): nat
    requires n <= |fields|
  {
    if n == 0 then 0 else NullsUpTo(fields, n - 1) + if fields[n - 1].NullField? then Pow2(n - 1) else 0
  }

  function NullBitmap(fields: seq<Field>): nat {
    NullsUpTo(fields, |fields|)
  }

  /** Bit `i`, found by halving `i` times. */
  predicate BitSet(bitmap: nat, i: nat) {
    if i == 0 then bitmap % 2 == 1 else BitSet(bitmap / 2, i - 1)
  }

  function HeaderBytes(fields: seq<Field>): (header: seq<byte>)
    ensures |header| == HEADER_SIZE
  {
    U32Bytes(ROW_MAGIC_NUM) + U32Bytes(|fields|) + U32Bytes(NullBitmap(fields))
  }

  function RowBytes(fields: seq<Field>): (bytes: seq<byte>)
    requires AllOk(fields)
    ensures |bytes| == HEADER_SIZE + |FieldsBytes(fields)|
  {
    HeaderBytes(fields) + FieldsBytes(fields)
  }

  // ------------------------------------------------------------ The bitmap

  lemma {:induction false} BitmapBound(fields: seq<Field>, n: nat)
    requires n <= |fields|
    ensures NullsUpTo(fields, n) < Pow2(n)
  {
    if n > 0 {
      BitmapBound(fields, n - 1);
    }
  }

  lemma {:induction false} Pow2Grows(m: nat, n: nat)
    requires m <= n
    ensures Pow2(m) <= Pow2(n)
    decreases n
  {
    if m < n {
      Pow2Grows(m, n - 1);
    }
  }

  lemma Pow2Of32()
    ensures Pow2(32) == TWO_TO_THE_32
  {
    assert Pow2(8) == 0x100;
    assert Pow2(16) == 0x1_0000;
    assert Pow2(24) == 0x100_0000;
  }

  /** The low bits are not disturbed by a higher one. */
  lemma {:induction false} HigherBit(low: nat, i: nat, k: nat)
    requires i < k
    ensures BitSet(low + Pow2(k), i) <==> BitSet(low, i)
  {
    assert Pow2(k) == 2 * Pow2(k - 1);
    if i > 0 {
      assert (low + Pow2(k)) / 2 == low / 2 + Pow2(k - 1);
      HigherBit(low / 2, i - 1, k - 1);
    }
  }

  lemma {:induction false} TopBit(low: nat, k: nat)
    requires low < Pow2(k)
    ensures !BitSet(low, k) && BitSet(low + Pow2(k), k)
  {
    if k > 0 {
      assert Pow2(k) == 2 * Pow2(k - 1);
      assert (low + Pow2(k)) / 2 == low / 2 + Pow2(k - 1);
      TopBit(low / 2, k - 1);
    }
  }

  lemma {:induction false} BitIsNull(fields: seq<Field>, n: nat, i: nat)
    requires i < n <= |fields|
    ensures BitSet(NullsUpTo(fields, n), i) <==> fields[i].NullField?
  {
    BitmapBound(fields, n - 1);
    if i == n - 1 {
      TopBit(NullsUpTo(fields, n - 1), n - 1);
    } else {
      BitIsNull(fields, n - 1, i);
      HigherBit(NullsUpTo(fields, n - 1), i, n - 1);
    }
  }

  // ------------------------------------------------------- Bytes in a buffer

  /** A buffer after `bytes` was copied to position `at`. */
  function Written(b: seq<byte>, at: nat, bytes: seq<byte>): (after: seq<byte>)
    requires at + |bytes| <= |b|
    ensures |after| == |b| && after[at..at + |bytes|] == bytes
  {
    b[..at] + bytes + b[at + |bytes|..]
  }

  lemma WrittenTwice(b: seq<byte>, at: nat, x: seq<byte>, y: seq<byte>)
    requires at + |x| + |y| <= |b|
    ensures Written(Written(b, at, x), at + |x|, y) == Written(b, at, x + y)
  {
    var mid := Written(b, at, x);
    assert mid[..at + |x|] == b[..at] + x;
    assert mid[at + |x| + |y|..] == b[at + |x| + |y|..];
    assert at + |x + y| == at + |x| + |y|;
  }

  /** memcpy. */
  method Put(buf: array<byte>, at: nat, bytes: seq<byte>)
    requires at + |bytes| <= buf.Length
    modifies buf
    ensures buf[..] == Written(old(buf[..]), at, bytes)
  {
    ghost var was := buf[..];
    assert was[..at] + [] + was[at..] == was;
    for i := 0 to |bytes|
      invariant buf[..] == Written(was, at, bytes[..i])
    {
      WrittenTwice(was, at, bytes[..i], [bytes[i]]);
      ghost var now := buf[..];
      buf[at + i] := bytes[i];
      assert buf[..] == Written(now, at + i, [bytes[i]]);
      assert bytes[..i] + [bytes[i]] == bytes[..i + 1];
    }
    assert bytes[..|bytes|] == bytes;
  }

  lemma SubSlice(b: seq<byte>, at: nat, whole: seq<byte>, i: nat, j: nat)
    requires at + |whole| <= |b| && b[at..at + |whole|] == whole && i <= j <= |whole|
    ensures b[at + i..at + j] == whole[i..j]
  {
    forall k | i <= k < j ensures b[at + k] == whole[k] {
      assert b[at..at + |whole|][k] == b[at + k];
    }
  }

  lemma Regroup(a: seq<byte>, b: seq<byte>, c: seq<byte>, d: seq<byte>)
    ensures a + b + c + d == a + b + (c + d)
  {
  }

  /** Field `i` of the serialised fields, with what comes before and after it. */
  lemma {:induction false} FieldsSplit(fields: seq<Field>, n: nat, i: nat) returns (rest: seq<byte>)
    requires AllOk(fields) && i < n <= |fields|
    ensures FieldsUpTo(fields, n) == FieldsUpTo(fields, i) + FieldBytes(fields[i]) + rest
  {
    hide FieldBytes;
    rest := [];
    if i < n - 1 {
      var before := FieldsSplit(fields, n - 1, i);
      var last := FieldBytes(fields[n - 1]);
      rest := before + last;
      Regroup(FieldsUpTo(fields, i), FieldBytes(fields[i]), before, last);
      assert FieldsUpTo(fields, n) == FieldsUpTo(fields, n - 1) + last;
    } else {
      assert FieldsUpTo(fields, n) == FieldsUpTo(fields, i) + FieldBytes(fields[i]);
    }
  }

  lemma FieldsSlice(fields: seq<Field>, i: nat)
    requires AllOk(fields) && i < |fields|
    ensures var start := |FieldsUpTo(fields, i)|; var end := start + |FieldBytes(fields[i])|;
      end <= |FieldsBytes(fields)| && FieldsBytes(fields)[start..end] == FieldBytes(fields[i])
  {
    var rest := FieldsSplit(fields, |fields|, i);
    Middle(FieldsUpTo(fields, i), FieldBytes(fields[i]), rest);
  }

  lemma Middle(a: seq<byte>, b: seq<byte>, c: seq<byte>)
    ensures (a + b + c)[|a|..|a| + |b|] == b
  {
  }

  // ------------------------------------------------------------ The fields

  method SerializeField(f: Field, buf: array<byte>, at: nat) returns (n: nat)
    requires f.Ok() && at + |FieldBytes(f)| <= buf.Length
    modifies buf
    ensures n == FieldSize(f) && buf[..] == Written(old(buf[..]), at, FieldBytes(f))
  {
    ghost var was := buf[..];
    match f
    case NullField(_) =>
      n := 0;
      assert Written(was, at, []) == was;
    case IntField(v) =>
      Put(buf, at, U32Bytes(Unsigned(v)));
      n := 4;
    case FloatField(bits) =>
      Put(buf, at, U32Bytes(bits));
      n := 4;
    case CharField(chars) =>
      Put(buf, at, U32Bytes(|chars|));
      Put(buf, at + 4, chars);
      WrittenTwice(was, at, U32Bytes(|chars|), chars);
      n := |chars| + 4;
  }

  /** Reads back the field whose bytes lie at `at`. */
  method DeserializeField(buf: array<byte>, at: nat, fieldType: TypeId, isNull: bool, ghost f: Field)
    returns (field: Field, n: nat)
    requires f.Ok() && f.Type() == fieldType && (f.NullField? <==> isNull)
    requires at + FieldSize(f) <= buf.Length && buf[at..at + FieldSize(f)] == FieldBytes(f)
    ensures field == f && n == FieldSize(f)
  {
    if isNull {
      return NullField(fieldType), 0;
    }
    ghost var b := buf[..];
    FieldSizeIsLength(f);
    assert b[at..at + |FieldBytes(f)|] == FieldBytes(f);
    SubSlice(b, at, FieldBytes(f), 0, 4);
    match fieldType
    case IntType =>
      ReadWritten(b, at, Unsigned(f.integer));
      field, n := IntField(Signed(ReadU32(buf[..], at))), 4;
    case FloatType =>
      ReadWritten(b, at, f.bits);
      field, n := FloatField(ReadU32(buf[..], at)), 4;
    case CharType =>
      ReadWritten(b, at, |f.chars|);
      var length := ReadU32(buf[..], at);
      SubSlice(b, at, FieldBytes(f), 4, 4 + |f.chars|);
      field, n := CharField(buf[at + 4..at + 4 + length]), length + 4;
  }

  /** The size that a field says it will take. */
  function FieldSize(f: Field): nat {
    match f
    case NullField(_) => 0
    case IntField(_) => 4
    case FloatField(_) => 4
    case CharField(chars) => |chars| + 4
  }

  lemma FieldSizeIsLength(f: Field)
    requires f.Ok()
    ensures FieldSize(f) == |FieldBytes(f)|
  {
  }

  /** What a field's bytes are: none for a null, whatever its type; a number's word; a string's length and then the
      string. */
  lemma FieldFormat(f: Field)
    requires f.Ok()
    ensures f.NullField? ==> FieldBytes(f) == []
    ensures f.IntField? ==> |FieldBytes(f)| == 4 && (ReadU32(FieldBytes(f), 0) - f.integer) % TWO_TO_THE_32 == 0
    ensures f.FloatField? ==> |FieldBytes(f)| == 4 && ReadU32(FieldBytes(f), 0) == f.bits
    ensures f.CharField? ==>
      |FieldBytes(f)| >= 4 && ReadU32(FieldBytes(f), 0) == |f.chars| && FieldBytes(f)[4..] == f.chars
  {
    match f
    case NullField(_) =>
    case IntField(v) => ReadWritten(FieldBytes(f), 0, Unsigned(v));
    case FloatField(bits) => ReadWritten(FieldBytes(f), 0, bits);
    case CharField(chars) => ReadWritten(FieldBytes(f), 0, |chars|);
  }

  function SizeUpTo(fields: seq<Field>, n: nat): nat
    requires n <= |fields|
  {
    if n == 0 then 0 else SizeUpTo(fields, n - 1) + FieldSize(fields[n - 1])
  }

  lemma {:induction false} SizeIsLength(fields: seq<Field>, n: nat)
    requires AllOk(fields) && n <= |fields|
    ensures |FieldsUpTo(fields, n)| == SizeUpTo(fields, n)
  {
    if n > 0 {
      SizeIsLength(fields, n - 1);
      FieldSizeIsLength(fields[n - 1]);
    }
  }

  lemma {:induction false} SizesGrow(fields: seq<Field>, i: nat, n: nat)
    requires i <= n <= |fields|
    ensures SizeUpTo(fields, i) <= SizeUpTo(fields, n)
    decreases n
  {
    if i < n {
      SizesGrow(fields, i, n - 1);
    }
  }

  lemma RoomFor(fields: seq<Field>, i: nat)
    requires i < |fields|
    ensures SizeUpTo(fields, i) + FieldSize(fields[i]) == SizeUpTo(fields, i + 1) <= SizeUpTo(fields, |fields|)
  {
    SizesGrow(fields, i + 1, |fields|);
  }

  function RowSize(fields: seq<Field>): nat {
    HEADER_SIZE + SizeUpTo(fields, |fields|)
  }

  lemma RowSizeIsLength(fields: seq<Field>)
    requires AllOk(fields)
    ensures |RowBytes(fields)| == RowSize(fields)
  {
    SizeIsLength(fields, |fields|);
  }

  /** Field `i` of the row lies where the fields before it end. */
  ghost predicate FieldThere(b: seq<byte>, start: nat, row: seq<Field>, i: nat)
    requires AllOk(row)
  {
    && i < |row|
    && var pos := start + SizeUpTo(row, i);
    && pos + FieldSize(row[i]) <= |b| && b[pos..pos + FieldSize(row[i])] == FieldBytes(row[i])
  }

  // --------------------------------------------------------------- The rows

  class Row {
    var fields: seq<Field>

    constructor (fields: seq<Field>)
      ensures this.fields == fields
    {
      this.fields := fields;
    }

    /** The loop that gathers the null bits. */
    method BitmapOfNulls() returns (bitmap: nat)
      ensures bitmap == NullBitmap(fields)
    {
      bitmap := 0;
      for i := 0 to |fields|
        invariant bitmap == NullsUpTo(fields, i)
      {
        if fields[i].NullField? {
          bitmap := bitmap + Pow2(i);
        }
      }
    }

    method PutHeader(buf: array<byte>, at: nat)
      requires at + HEADER_SIZE <= buf.Length
      modifies buf
      ensures buf[..] == Written(old(buf[..]), at, HeaderBytes(fields))
    {
      ghost var was := buf[..];
      var bitmap := BitmapOfNulls();
      Put(buf, at, U32Bytes(ROW_MAGIC_NUM));
      Put(buf, at + 4, U32Bytes(|fields|));
      Put(buf, at + 8, U32Bytes(bitmap));
      WrittenTwice(was, at, U32Bytes(ROW_MAGIC_NUM), U32Bytes(|fields|));
      WrittenTwice(was, at, U32Bytes(ROW_MAGIC_NUM) + U32Bytes(|fields|), U32Bytes(bitmap));
    }

    static method PutFields(row: seq<Field>, buf: array<byte>, at: nat) returns (end: nat)
      requires AllOk(row) && at + SizeUpTo(row, |row|) <= buf.Length
      modifies buf
      ensures end == at + SizeUpTo(row, |row|)
      ensures |FieldsUpTo(row, |row|)| == SizeUpTo(row, |row|)
      ensures buf[..] == Written(old(buf[..]), at, FieldsUpTo(row, |row|))
    {
      hide FieldBytes, FieldSize;
      ghost var was := buf[..];
      ghost var done: seq<byte> := [];
      assert was == Written(was, at, []);
      end := at;
      for i := 0 to |row|
        invariant done == FieldsUpTo(row, i) && |done| == SizeUpTo(row, i) && end == at + |done| <= buf.Length
        invariant buf[..] == Written(was, at, done)
      {
        RoomFor(row, i);
        end := PutField(row[i], buf, at, was, done, end);
        done := done + FieldBytes(row[i]);
      }
    }

    /** One field more, after what was written from `at` on. */
    static method PutField(f: Field, buf: array<byte>, ghost at: nat, ghost was: seq<byte>, ghost done: seq<byte>,
          pos: nat)
      returns (end: nat)
      requires f.Ok() && pos == at + |done| && pos + FieldSize(f) <= buf.Length == |was|
      requires buf[..] == Written(was, at, done)
      modifies buf
      ensures end == pos + FieldSize(f) && |FieldBytes(f)| == FieldSize(f)
      ensures buf[..] == Written(was, at, done + FieldBytes(f))
    {
      FieldSizeIsLength(f);
      var size := SerializeField(f, buf, pos);
      WrittenTwice(was, at, done, FieldBytes(f));
      end := pos + size;
    }

    /** Writes exactly the row's bytes, and says how many there are. */
    method SerializeTo(buf: array<byte>, at: nat, schema: Schema) returns (n: nat)
      requires |fields| == |schema| && |fields| <= MAX_FIELDS && AllOk(fields)
      requires at + |RowBytes(fields)| <= buf.Length
      modifies buf
      ensures n == |RowBytes(fields)| && buf[..] == Written(old(buf[..]), at, RowBytes(fields))
    {
      ghost var was := buf[..];
      PutHeader(buf, at);
      SizeIsLength(fields, |fields|);
      var end := PutFields(fields, buf, at + HEADER_SIZE);
      WrittenTwice(was, at, HeaderBytes(fields), FieldsBytes(fields));
      n := end - at;
    }

    /** Reads back the row whose bytes lie at `at`, whatever nulls it has, and consumes exactly those bytes. */
    method DeserializeFrom(buf: array<byte>, at: nat, schema: Schema, ghost row: seq<Field>) returns (n: nat)
      requires Conforms(row, schema) && AllOk(row) && |row| <= MAX_FIELDS
      requires at + |RowBytes(row)| <= buf.Length && buf[at..at + |RowBytes(row)|] == RowBytes(row)
      modifies this
      ensures fields == row && n == RowSize(row)
    {
      ghost var b := buf[..];
      assert b[at..at + |RowBytes(row)|] == RowBytes(row);
      RowIsThere(b, at, row);
      HeaderReads(b, at, row);
      var magic := ReadU32(buf[..], at);
      assert magic == ROW_MAGIC_NUM;
      var count := ReadU32(buf[..], at + 4);
      var bitmap := ReadU32(buf[..], at + 8);
      var start := at + HEADER_SIZE;
      forall i: nat | i < |row| ensures FieldThere(b, start, row, i) {
        FieldAt(b, at, row, i);
      }
      var end := ReadFields(buf, start, schema, count, bitmap, b, row);
      n := end - at;
    }

    /** The loop over the fields. */
    method ReadFields(buf: array<byte>, start: nat, schema: Schema, count: nat, bitmap: nat,
                      ghost b: seq<byte>, ghost row: seq<Field>)
      returns (pos: nat)
      requires Conforms(row, schema) && AllOk(row) && count == |row| && bitmap == NullBitmap(row)
      requires buf[..] == b && forall i: nat :: i < |row| ==> FieldThere(b, start, row, i)
      modifies this
      ensures fields == row && pos == start + SizeUpTo(row, |row|)
    {
      var read: seq<Field> := [];
      pos := start;
      for i := 0 to count
        invariant |read| == i && forall j :: 0 <= j < i ==> read[j] == row[j]
        invariant pos == start + SizeUpTo(row, i)
      {
        BitIsNull(row, |row|, i);
        assert FieldThere(b, start, row, i);
        var field, n := DeserializeField(buf, pos, schema[i], BitSet(bitmap, i), row[i]);
        read := read + [field];
        pos := pos + n;
      }
      fields := read;
    }

    /** The size that SerializeTo will write. */
    method GetSerializedSize(schema: Schema) returns (size: nat)
      requires |fields| == |schema|
      ensures size == RowSize(fields)
    {
      size := HEADER_SIZE;
      for i := 0 to |fields|
        invariant size == HEADER_SIZE + SizeUpTo(fields, i)
      {
        size := size + FieldSize(fields[i]);
      }
    }
  }

  /** The row's bytes lie at `at`: its header, and after it its fields. */
  ghost predicate RowAt(b: seq<byte>, at: nat, row: seq<Field>)
    requires AllOk(row)
  {
    && at + HEADER_SIZE + |FieldsBytes(row)| <= |b|
    && b[at..at + HEADER_SIZE] == HeaderBytes(row)
    && b[at + HEADER_SIZE..at + HEADER_SIZE + |FieldsBytes(row)|] == FieldsBytes(row)
  }

  lemma RowIsThere(b: seq<byte>, at: nat, row: seq<Field>)
    requires AllOk(row) && at + |RowBytes(row)| <= |b| && b[at..at + |RowBytes(row)|] == RowBytes(row)
    ensures RowAt(b, at, row)
  {
    var h, t := HeaderBytes(row), FieldsBytes(row);
    TwoParts(b, at, h, t);
  }

  lemma TwoParts(b: seq<byte>, at: nat, h: seq<byte>, t: seq<byte>)
    requires at + |h| + |t| <= |b| && b[at..at + |h| + |t|] == h + t
    ensures b[at..at + |h|] == h && b[at + |h|..at + |h| + |t|] == t
  {
    SubSlice(b, at, h + t, 0, |h|);
    SubSlice(b, at, h + t, |h|, |h| + |t|);
  }

  lemma HeaderReads(b: seq<byte>, at: nat, row: seq<Field>)
    requires AllOk(row) && |row| <= MAX_FIELDS && RowAt(b, at, row)
    ensures ReadU32(b, at) == ROW_MAGIC_NUM && ReadU32(b, at + 4) == |row| && ReadU32(b, at + 8) == NullBitmap(row)
  {
    BitmapBound(row, |row|);
    Pow2Grows(|row|, 32);
    Pow2Of32();
    ThreeWords(b, at, ROW_MAGIC_NUM, |row|, NullBitmap(row));
  }

  lemma ThreeWords(b: seq<byte>, at: nat, x: nat, y: nat, z: nat)
    requires x < TWO_TO_THE_32 && y < TWO_TO_THE_32 && z < TWO_TO_THE_32
    requires at + HEADER_SIZE <= |b| && b[at..at + HEADER_SIZE] == U32Bytes(x) + U32Bytes(y) + U32Bytes(z)
    ensures ReadU32(b, at) == x && ReadU32(b, at + 4) == y && ReadU32(b, at + 8) == z
  {
    var whole := U32Bytes(x) + U32Bytes(y) + U32Bytes(z);
    SubSlice(b, at, whole, 0, 4);
    SubSlice(b, at, whole, 4, 8);
    SubSlice(b, at, whole, 8, 12);
    ReadWritten(b, at, x);
    ReadWritten(b, at + 4, y);
    ReadWritten(b, at + 8, z);
  }

  lemma PartAt(b: seq<byte>, at: nat, whole: seq<byte>, start: nat, pos: nat, part: seq<byte>)
    requires at + |whole| <= |b| && b[at..at + |whole|] == whole
    requires pos == at + start && start + |part| <= |whole| && whole[start..start + |part|] == part
    ensures pos + |part| <= |b| && b[pos..pos + |part|] == part
  {
    SubSlice(b, at, whole, start, start + |part|);
  }

  lemma FieldAt(b: seq<byte>, at: nat, row: seq<Field>, i: nat)
    requires AllOk(row) && i < |row| && RowAt(b, at, row)
    ensures FieldThere(b, at + HEADER_SIZE, row, i)
  {
    hide FieldBytes, FieldsUpTo, FieldSize;
    FieldsSlice(row, i);
    SizeIsLength(row, i);
    FieldSizeIsLength(row[i]);
    var start, offset := at + HEADER_SIZE, SizeUpTo(row, i);
    var whole, part := FieldsBytes(row), FieldBytes(row[i]);
    PartAt(b, start, whole, offset, start + offset, part);
  }

  // ------------------------------------------------------ One reading only

  /** Bytes at one position are those of at most one field of a given type and nullness. */
  lemma FieldDetermined(b: seq<byte>, pos: nat, f: Field, g: Field)
    requires f.Ok() && g.Ok() && f.Type() == g.Type() && (f.NullField? <==> g.NullField?)
    requires pos + FieldSize(f) <= |b| && b[pos..pos + FieldSize(f)] == FieldBytes(f)
    requires pos + FieldSize(g) <= |b| && b[pos..pos + FieldSize(g)] == FieldBytes(g)
    ensures f == g
  {
    if !f.NullField? {
      FieldSizeIsLength(f);
      FieldSizeIsLength(g);
      SubSlice(b, pos, FieldBytes(f), 0, 4);
      SubSlice(b, pos, FieldBytes(g), 0, 4);
      match f
      case IntField(v) =>
        ReadWritten(b, pos, Unsigned(v));
        ReadWritten(b, pos, Unsigned(g.integer));
      case FloatField(bits) =>
        ReadWritten(b, pos, bits);
        ReadWritten(b, pos, g.bits);
      case CharField(chars) =>
        ReadWritten(b, pos, |chars|);
        ReadWritten(b, pos, |g.chars|);
        SubSlice(b, pos, FieldBytes(f), 4, 4 + |chars|);
        SubSlice(b, pos, FieldBytes(g), 4, 4 + |chars|);
    }
  }

  /** Field `i` of two rows whose bytes lie at the same place. */
  ghost predicate BothThere(b: seq<byte>, start: nat, x: seq<Field>, y: seq<Field>, i: nat)
    requires AllOk(x) && AllOk(y)
  {
    && FieldThere(b, start, x, i) && FieldThere(b, start, y, i)
    && x[i].Type() == y[i].Type() && (x[i].NullField? <==> y[i].NullField?)
  }

  lemma SamePlace(b: seq<byte>, start: nat, x: seq<Field>, y: seq<Field>, i: nat)
    requires AllOk(x) && AllOk(y) && BothThere(b, start, x, y, i)
    requires SizeUpTo(x, i) == SizeUpTo(y, i)
    ensures i < |x| && i < |y| && x[i] == y[i] && SizeUpTo(x, i + 1) == SizeUpTo(y, i + 1)
  {
    FieldDetermined(b, start + SizeUpTo(x, i), x[i], y[i]);
  }

  lemma {:induction false} PrefixDetermined(b: seq<byte>, start: nat, x: seq<Field>, y: seq<Field>, n: nat)
    requires AllOk(x) && AllOk(y) && |x| == |y| && n <= |x|
    requires forall i: nat :: i < |x| ==> BothThere(b, start, x, y, i)
    ensures SizeUpTo(x, n) == SizeUpTo(y, n)
    ensures forall i :: 0 <= i < n ==> x[i] == y[i]
  {
    if n > 0 {
      PrefixDetermined(b, start, x, y, n - 1);
      SamePlace(b, start, x, y, n - 1);
    }
  }

  /** A buffer holds at most one row of a schema at a position: what SerializeTo writes can be read in one way only. */
  lemma RowDetermined(b: seq<byte>, at: nat, x: seq<Field>, y: seq<Field>, schema: Schema)
    requires Conforms(x, schema) && Conforms(y, schema) && AllOk(x) && AllOk(y) && |schema| <= MAX_FIELDS
    requires at + |RowBytes(x)| <= |b| && b[at..at + |RowBytes(x)|] == RowBytes(x)
    requires at + |RowBytes(y)| <= |b| && b[at..at + |RowBytes(y)|] == RowBytes(y)
    ensures x == y
  {
    RowIsThere(b, at, x);
    RowIsThere(b, at, y);
    HeaderReads(b, at, x);
    HeaderReads(b, at, y);
    var start := at + HEADER_SIZE;
    forall i: nat | i < |x| ensures BothThere(b, start, x, y, i) {
      FieldAt(b, at, x, i);
      FieldAt(b, at, y, i);
      BitIsNull(x, |x|, i);
      BitIsNull(y, |y|, i);
    }
    PrefixDetermined(b, start, x, y, |x|);
  }
}
