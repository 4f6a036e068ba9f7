/** Numbers in a byte buffer, least significant byte first. */
module ByteCodec {
  import opened Basics

  type byte = b: int | 0 <= b < 256

  /** `n` bytes of a number. */
  function Encode(v: nat, n: nat): (s: seq<byte>)
    ensures |s| == n
  {
    if n == 0 then [] else [v % 256] + Encode(v / 256, n - 1)
  }

  function Decode(s: seq<byte>): nat {
    if s == [] then 0 else var low: int := s[0]; low + 256 * Decode(s[1..])
  }

  function Pow256(n: nat): nat {
    if n == 0 then 1 else 256 * Pow256(n - 1)
  }

  lemma {:induction false} DecodeEncode(v: nat, n: nat)
    requires v < Pow256(n)
    ensures Decode(Encode(v, n)) == v
  {
    if n > 0 {
      DecodeEncode(v / 256, n - 1);
      assert Encode(v, n)[1..] == Encode(v / 256, n - 1);
    }
  }

  /** The byte order: a byte put last counts most. */
  lemma {:induction false} LittleEndian(s: seq<byte>, top: byte)
    ensures Decode(s + [top]) == Decode(s) + Pow256(|s|) * top
  {
    var all := s + [top];
    if s != [] {
      LittleEndian(s[1..], top);
      assert all[1..] == s[1..] + [top];
    } else {
      assert all[1..] == [];
    }
  }

  lemma {:induction false} DecodeBound(s: seq<byte>)
    ensures Decode(s) < Pow256(|s|)
  {
    if s != [] {
      DecodeBound(s[1..]);
    }
  }

  lemma {:induction false} EncodeDecode(s: seq<byte>)
    ensures Encode(Decode(s), |s|) == s
  {
    if s != [] {
      var low: int := s[0];
      EncodeDecode(s[1..]);
      assert Decode(s) % 256 == low && Decode(s) / 256 == Decode(s[1..]);
      assert s == [s[0]] + s[1..];
    }
  }

  lemma Pow256Of4()
    ensures Pow256(4) == TWO_TO_THE_32
  {
    assert Pow256(1) == 256;
    assert Pow256(2) == 0x1_0000;
    assert Pow256(3) == 0x100_0000;
  }

  function U32Bytes(v: nat): (s: seq<byte>)
    ensures |s| == 4
  {
    Encode(v, 4)
  }

  function ReadU32(b: seq<byte>, at: nat): nat
    requires at + 4 <= |b|
  {
    Decode(b[at..at + 4])
  }

  /** What was written is what is read. */
  lemma ReadWritten(b: seq<byte>, at: nat, v: nat)
    requires v < TWO_TO_THE_32 && at + 4 <= |b| && b[at..at + 4] == U32Bytes(v)
    ensures ReadU32(b, at) == v
  {
    Pow256Of4();
    DecodeEncode(v, 4);
  }

  lemma ReadBound(b: seq<byte>, at: nat)
    requires at + 4 <= |b|
    ensures ReadU32(b, at) < TWO_TO_THE_32
  {
    Pow256Of4();
    DecodeBound(b[at..at + 4]);
  }
}
