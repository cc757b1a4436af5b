/**
 * The scalar branches of decodeSignleType against the 32-byte words the
 * ABI encodes scalars as: each branch gives back the value whose encoding
 * it reads, and the branches that check something (bool, the length prefix
 * of string and dynamicBytes, UTF-8) reject exactly what they should.
 */
module ScalarDecoding {
  import opened Wrappers
  import opened Primitives
  import opened AbiTypes
  import opened DecodingSpec

  function Zeros(n: nat): (r: seq<byte>)
    ensures |r| == n && forall i | 0 <= i < n :: r[i] == 0
  {
    seq(n, i => 0)
  }

  /** The first word of a payload that starts with a given word. */
  lemma FirstWord(w: seq<byte>, rest: seq<byte>)
    requires |w| == 32
    ensures (w + rest)[..32] == w
  {
  }

  /** uint(bits) reads back every value below 2^bits from its word. */
  lemma UintRoundTrip(mode: Mode, bits: nat, u: nat, rest: seq<byte>)
    requires bits <= 256 && u < Pow2(bits)
    ensures DecodeScalar(mode, Uint(bits), Word(u) + rest) == Some(UintValue(u))
  {
    Pow2Monotone(bits, 256);
    FirstWord(Word(u), rest);
    WordValue(u);
    ModOfSmall(u, Pow2(bits));
  }

  /** int(bits) reads back every value of the signed bits-bit range from its two's-complement word. */
  lemma IntRoundTrip(mode: Mode, bits: nat, v: int, rest: seq<byte>)
    requires 0 < bits <= 256 && -Pow2(bits - 1) <= v < Pow2(bits - 1)
    ensures -Pow2(255) <= v < Pow2(255) &&
            DecodeScalar(mode, Int(bits), TwosComplementWord(v) + rest) == Some(IntValue(v))
  {
    Pow2Monotone(bits - 1, 255);
    var w := TwosComplementWord(v);
    FirstWord(w, rest);
    TwosComplementRoundTrip(v);
    assert Pow2(bits) == 2 * Pow2(bits - 1);
  }

  /** bool reads back true from the word 1 and false from the word 0. */
  lemma BoolRoundTrip(mode: Mode, b: bool, rest: seq<byte>)
    ensures DecodeScalar(mode, Bool, Word(if b then 1 else 0) + rest) == Some(BoolValue(b))
  {
    var n := if b then 1 else 0;
    Pow2Monotone(1, 256);
    FirstWord(Word(n), rest);
    WordValue(n);
  }

  /** bool accepts a word exactly when it is 0 or 1. */
  lemma BoolAccepts(mode: Mode, payload: seq<byte>)
    requires |payload| >= 32
    ensures DecodeScalar(mode, Bool, payload).Some? <==> BeToNat(payload[..32]) <= 1
  {
  }

  /** address keeps the last 20 bytes of its word, whatever the 12 bytes before them hold. */
  lemma AddressIgnoresPadding(mode: Mode, pad: seq<byte>, a: seq<byte>, rest: seq<byte>)
    requires |pad| == 12 && |a| == 20
    ensures DecodeScalar(mode, Address, pad + a + rest) == Some(AddressValue(a))
  {
    assert (pad + a + rest)[12..32] == a;
  }

  /** bytes(N) reads back the N left-aligned bytes of its word, whatever pads them. */
  lemma BytesRoundTrip(mode: Mode, b: seq<byte>, pad: seq<byte>, rest: seq<byte>)
    requires |b| <= 32 && |pad| == 32 - |b|
    ensures DecodeScalar(mode, Bytes(|b|), b + pad + rest) == Some(DataValue(b))
  {
    assert (b + pad + rest)[..|b|] == b;
  }

  /**
   * As written, function reads bytes 8 ..< 32 of its word: from the
   * left-aligned encoding the ABI gives a 24-byte function value it yields
   * the value's last 16 bytes followed by 8 bytes of padding.
   */
  lemma FunctionAsWritten(f: seq<byte>, rest: seq<byte>)
    requires |f| == 24
    ensures DecodeScalar(AsWritten, Function, f + Zeros(8) + rest) == Some(DataValue(f[8..] + Zeros(8)))
  {
    assert (f + Zeros(8) + rest)[8..32] == f[8..] + Zeros(8);
  }

  /** A function value the as-written decoder does not read back: 24 bytes of 1. */
  lemma FunctionAsWrittenLoses()
    ensures var f := seq(24, i => 1);
      DecodeScalar(AsWritten, Function, f + Zeros(8)) != Some(DataValue(f))
  {
    var f: seq<byte> := seq(24, i => 1);
    FunctionAsWritten(f, []);
    assert f + Zeros(8) + [] == f + Zeros(8);
    assert (f[8..] + Zeros(8))[23] == 0 != f[23];
  }

  /** As written, function does read back a value stored right-aligned, after 8 bytes of padding. */
  lemma FunctionRightAligned(pad: seq<byte>, f: seq<byte>, rest: seq<byte>)
    requires |pad| == 8 && |f| == 24
    ensures DecodeScalar(AsWritten, Function, pad + f + rest) == Some(DataValue(f))
  {
    assert (pad + f + rest)[8..32] == f;
  }

  /** Corrected, function reads back every 24-byte value from its left-aligned encoding. */
  lemma FunctionRoundTrip(f: seq<byte>, pad: seq<byte>, rest: seq<byte>)
    requires |f| == 24 && |pad| == 8
    ensures DecodeScalar(Corrected, Function, f + pad + rest) == Some(DataValue(f))
  {
    assert (f + pad + rest)[..24] == f;
  }

  /** The length word followed by the bytes it counts. */
  lemma LengthPrefixed(b: seq<byte>, rest: seq<byte>)
    requires |b| < Pow2(256)
    ensures var p := Word(|b|) + b + rest;
      |p| >= 32 + |b| && BeToNat(p[..32]) == |b| && p[32..32 + |b|] == b
  {
    var p := Word(|b|) + b + rest;
    assert p[..32] == Word(|b|);
    assert p[32..32 + |b|] == b;
    WordValue(|b|);
  }

  /** dynamicBytes reads back any byte string from its length-prefixed encoding. */
  lemma DynamicBytesRoundTrip(mode: Mode, b: seq<byte>, rest: seq<byte>)
    requires |b| < Pow2(256)
    ensures DecodeScalar(mode, DynamicBytes, Word(|b|) + b + rest) == Some(DataValue(b))
  {
    LengthPrefixed(b, rest);
  }

  /** string reads back a length-prefixed byte string exactly when it is valid UTF-8. */
  lemma StringRoundTrip(mode: Mode, s: seq<byte>, rest: seq<byte>)
    requires |s| < Pow2(256)
    ensures DecodeScalar(mode, String, Word(|s|) + s + rest) == (if ValidUtf8(s) then Some(StringValue(s)) else None)
  {
    LengthPrefixed(s, rest);
    StringBranch(mode, Word(|s|) + s + rest);
  }

  /** The string branch on a payload with a length word: the counted bytes, when they fit and are valid UTF-8. */
  lemma StringBranch(mode: Mode, payload: seq<byte>)
    requires |payload| >= 32
    ensures var length := BeToNat(payload[..32]);
      DecodeScalar(mode, String, payload) ==
        if |payload| < 32 + length || !ValidUtf8(payload[32..32 + length]) then None
        else Some(StringValue(payload[32..32 + length]))
  {
  }

  /** string and dynamicBytes fail exactly when the payload is shorter than its length word says. */
  lemma LengthPrefixFits(mode: Mode, payload: seq<byte>)
    requires |payload| >= 32
    ensures DecodeScalar(mode, DynamicBytes, payload).Some? <==> 32 + BeToNat(payload[..32]) <= |payload|
    ensures DecodeScalar(mode, String, payload).Some? ==> 32 + BeToNat(payload[..32]) <= |payload|
  {
  }

  /** A static scalar decodes, at any pointer whose slot fits, to what its branch reads from that slot. */
  lemma ScalarAt(mode: Mode, t: ParamType, data: seq<byte>, pointer: nat, v: Value)
    requires IsScalar(t) && IsStatic(t) && WellFormed(t) && pointer + 32 <= |data|
    requires DecodeScalar(mode, t, data[pointer..pointer + 32]) == Some(v)
    ensures DecodeSingle(mode, t, data, pointer) == Some((v, 32))
  {
    assert MemoryUsage(t) == 32;
    assert FollowTheData(t, data, pointer) == Some((data[pointer..pointer + 32], pointer + 32));
  }

  /** 32 as a word reads back as 32. */
  lemma WordOf32()
    ensures BeToNat(Word(32)) == 32
  {
    Pow2Monotone(6, 256);
    assert Pow2(6) == 64;
    WordValue(32);
  }

  /**
   * The legacy fallback of followTheData: when the head slot of a
   * dynamicBytes value holds no offset inside the buffer, the value is the
   * 32-byte slot itself, and it reports its slot as consumed.
   */
  lemma DynamicBytesFallback(mode: Mode, data: seq<byte>, pointer: nat)
    requires pointer + 32 <= |data| && !OffsetInRange(data, pointer)
    ensures DecodeSingle(mode, DynamicBytes, data, pointer) == Some((DataValue(data[pointer..pointer + 32]), 32))
  {
    var slot := data[pointer..pointer + 32];
    var p := Word(32) + slot;
    assert FollowTheData(DynamicBytes, data, pointer) == Some((p, pointer + 32));
    WordOf32();
    assert p[..32] == Word(32) && p[32..64] == slot;
  }

  /** The same fallback for string: the slot itself, when it is valid UTF-8. */
  lemma StringFallback(mode: Mode, data: seq<byte>, pointer: nat)
    requires pointer + 32 <= |data| && !OffsetInRange(data, pointer)
    ensures var slot := data[pointer..pointer + 32];
      DecodeSingle(mode, String, data, pointer) == if ValidUtf8(slot) then Some((StringValue(slot), 32)) else None
  {
    var slot := data[pointer..pointer + 32];
    var p := Word(32) + slot;
    assert FollowTheData(String, data, pointer) == Some((p, pointer + 32));
    WordOf32();
    assert p[..32] == Word(32) && p[32..64] == slot;
  }
}
