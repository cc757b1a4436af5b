/**
 * The foreign conversions the decoder relies on, stated on byte strings:
 * BigUInt(Data) as a big-endian value, BigUInt.abiEncode(bits: 256) as a
 * 32-byte big-endian word, BigInt.fromTwosComplement, BigInt's `%` (a
 * remainder truncated toward zero, like Swift's), the decimal rendering of
 * "\(i)" and the UTF-8 check behind String(data:encoding: .utf8).
 */
module Primitives {

  type byte = b: int | 0 <= b < 256

  function Pow256(n: nat): (r: int)
    ensures r > 0
  {
    if n == 0 then 1 else 256 * Pow256(n - 1)
  }

  function Pow2(n: nat): (r: int)
    ensures r > 0
  {
    if n == 0 then 1 else 2 * Pow2(n - 1)
  }

  lemma {:induction false} Pow2Add(a: nat, b: nat)
    ensures Pow2(a + b) == Pow2(a) * Pow2(b)
  {
    if b > 0 {
      Pow2Add(a, b - 1);
      assert Pow2(a + b) == 2 * Pow2(a + b - 1);
    }
  }

  lemma {:induction false} Pow2OfBytes(k: nat)
    ensures Pow2(8 * k) == Pow256(k)
  {
    if k > 0 {
      Pow2OfBytes(k - 1);
      Pow2Add(8, 8 * (k - 1));
      assert Pow2(8) == 256;
    }
  }

  lemma {:induction false} Pow2Monotone(a: nat, b: nat)
    requires a <= b
    ensures Pow2(a) <= Pow2(b)
  {
    if a < b {
      Pow2Monotone(a, b - 1);
    }
  }

  /** BigUInt(Data): the big-endian unsigned value of a byte string. */
  function BeToNat(s: seq<byte>): (r: nat)
    ensures r < Pow256(|s|)
  {
    if |s| == 0 then 0
    else
      var high := BeToNat(s[..|s| - 1]);
      assert high * 256 <= (Pow256(|s| - 1) - 1) * 256;
      high * 256 + s[|s| - 1]
  }

  /** The big-endian encoding of n in exactly len bytes (n is reduced modulo 256^len). */
  function NatToBe(n: nat, len: nat): (r: seq<byte>)
    ensures |r| == len
  {
    if len == 0 then [] else NatToBe(n / 256, len - 1) + [n % 256]
  }

  /** BigUInt.abiEncode(bits: 256): a value as one 32-byte ABI word. */
  function Word(n: nat): (r: seq<byte>)
    ensures |r| == 32
  {
    NatToBe(n, 32)
  }

  lemma DivModUnique(n: int, d: int, q: int, m: int)
    requires d > 0 && 0 <= m < d && n == d * q + m
    ensures n / d == q && n % d == m
  {
    var x := q - n / d;
    assert d * x == n % d - m;
    if x >= 1 {
      assert false;
    } else if x <= -1 {
      assert false;
    }
  }

  /** Peeling the last byte off a value reduced modulo 256 * p. */
  lemma ModPeel(n: nat, p: int)
    requires p > 0
    ensures ((n / 256) % p) * 256 + n % 256 == n % (256 * p)
  {
    var q := n / 256;
    var a := q / p;
    var b := q % p;
    assert n == 256 * q + n % 256;
    assert q == p * a + b;
    assert 256 * q == (256 * p) * a + 256 * b;
    MulMonotone(b, p - 1, 256);
    assert b * 256 + n % 256 < 256 * p;
    DivModUnique(n, 256 * p, a, b * 256 + n % 256);
  }

  /** Decoding an encoding gives the value back, reduced to the width. */
  lemma {:induction false} BeToNatOfNatToBe(n: nat, len: nat)
    ensures BeToNat(NatToBe(n, len)) == n % Pow256(len)
  {
    if len > 0 {
      var s := NatToBe(n, len);
      assert s[..len - 1] == NatToBe(n / 256, len - 1);
      assert s[len - 1] == n % 256;
      BeToNatOfNatToBe(n / 256, len - 1);
      assert BeToNat(s) == ((n / 256) % Pow256(len - 1)) * 256 + n % 256;
      ModPeel(n, Pow256(len - 1));
    }
  }

  /** Encoding the value of a byte string at its own width gives the string back. */
  lemma {:induction false} NatToBeOfBeToNat(s: seq<byte>)
    ensures NatToBe(BeToNat(s), |s|) == s
  {
    if |s| > 0 {
      var init := s[..|s| - 1];
      var n := BeToNat(s);
      DivModUnique(n, 256, BeToNat(init), s[|s| - 1]);
      NatToBeOfBeToNat(init);
      assert s == init + [s[|s| - 1]];
    }
  }

  lemma WordValue(n: nat)
    requires n < Pow2(256)
    ensures BeToNat(Word(n)) == n
  {
    Pow2OfBytes(32);
    BeToNatOfNatToBe(n, 32);
    DivModUnique(n, Pow256(32), 0, n);
  }

  /** The value of a byte string split at its first byte. */
  lemma {:induction false} BeToNatFront(s: seq<byte>)
    requires |s| > 0
    ensures BeToNat(s) == s[0] * Pow256(|s| - 1) + BeToNat(s[1..])
  {
    if |s| > 1 {
      var init := s[..|s| - 1];
      BeToNatFront(init);
      assert init[1..] == s[1..][..|s| - 2];
      assert init[0] == s[0];
      var p := Pow256(|s| - 2);
      var mid := BeToNat(init[1..]);
      assert BeToNat(s[1..]) == mid * 256 + s[|s| - 1];
      assert BeToNat(s) == (s[0] * p + mid) * 256 + s[|s| - 1];
      ShiftByte(s[0], p, mid);
    } else {
      assert s[..0] == [];
    }
  }

  lemma ShiftByte(a: int, p: int, mid: int)
    ensures (a * p + mid) * 256 == a * (256 * p) + mid * 256
  {
  }

  lemma MulMonotone(a: int, b: int, p: int)
    requires a <= b && p >= 0
    ensures a * p <= b * p
  {
    assert b * p - a * p == (b - a) * p;
  }

  lemma Pow2Of255()
    ensures Pow2(255) == 128 * Pow256(31)
  {
    Pow2Add(7, 248);
    Pow2OfBytes(31);
    assert Pow2(7) == 128;
  }

  /** A 32-byte word is below 2^255 exactly when its top bit is clear. */
  lemma SignBit(w: seq<byte>)
    requires |w| == 32
    ensures BeToNat(w) < Pow2(255) <==> w[0] < 128
  {
    var p := Pow256(31);
    var rest := BeToNat(w[1..]);
    BeToNatFront(w);
    Pow2Of255();
    TopByte(w[0], p, rest);
  }

  /** n = top * p + rest with rest < p is below 128 * p exactly when top < 128. */
  lemma TopByte(top: int, p: int, rest: int)
    requires 0 <= top && 0 <= rest < p
    ensures top * p + rest < 128 * p <==> top < 128
  {
    if top < 128 {
      MulMonotone(top, 127, p);
    } else {
      MulMonotone(128, top, p);
    }
  }

  /** A 32-byte word is an unsigned 256-bit value. */
  lemma WordBound(w: seq<byte>)
    requires |w| == 32
    ensures BeToNat(w) < Pow2(256)
  {
    Pow2OfBytes(32);
  }

  lemma Pow2Of256()
    ensures Pow2(256) == 2 * Pow2(255)
  {
  }

  /** BigInt.fromTwosComplement of a 32-byte word: negative when the top bit is set. */
  function FromTwosComplement(w: seq<byte>): (r: int)
    requires |w| == 32
    ensures -Pow2(255) <= r < Pow2(255)
    ensures r < 0 <==> w[0] >= 128
  {
    SignBit(w);
    WordBound(w);
    Pow2Of256();
    if w[0] < 128 then BeToNat(w) else BeToNat(w) - Pow2(256)
  }

  /** The 32-byte two's-complement encoding of a value in the signed 256-bit range. */
  function TwosComplementWord(v: int): (r: seq<byte>)
    requires -Pow2(255) <= v < Pow2(255)
    ensures |r| == 32
  {
    Word(if v >= 0 then v else v + Pow2(256))
  }

  lemma TwosComplementRoundTrip(v: int)
    requires -Pow2(255) <= v < Pow2(255)
    ensures FromTwosComplement(TwosComplementWord(v)) == v
  {
    var w := TwosComplementWord(v);
    SignBit(w);
    WordBound(w);
    Pow2Of256();
    WordValue(if v >= 0 then v else v + Pow2(256));
  }

  lemma MultipleMod(m: int, q: int)
    requires m > 0
    ensures (m * q) % m == 0
  {
    DivModUnique(m * q, m, q, 0);
  }

  lemma ModOfSmall(a: int, m: int)
    requires 0 <= a && m > 0
    ensures a < m ==> a % m == a
  {
    if a < m {
      DivModUnique(a, m, 0, a);
    }
  }

  /** Swift's `%`: the remainder of truncated division, signed like the dividend. */
  function TruncatedRem(a: int, m: int): (r: int)
    requires m > 0
    ensures a >= 0 ==> 0 <= r < m
    ensures a < 0 ==> -m < r <= 0
    ensures (a - r) % m == 0
    ensures -m < a < m ==> r == a
  {
    if a >= 0 then
      var q := a / m;
      assert a - a % m == m * q;
      MultipleMod(m, q);
      ModOfSmall(a, m);
      a % m
    else
      var q := (-a) / m;
      assert a + (-a) % m == m * -q;
      MultipleMod(m, -q);
      ModOfSmall(-a, m);
      -((-a) % m)
  }

  /** The characters of "\(n)": n in decimal, without leading zeros. */
  function Decimal(n: nat): (r: string)
    ensures |r| > 0
    ensures forall i | 0 <= i < |r| :: '0' <= r[i] <= '9'
  {
    var digit := [(48 + n % 10) as char];
    if n < 10 then digit else Decimal(n / 10) + digit
  }

  predicate IsContinuation(b: byte) {
    0x80 <= b <= 0xBF
  }

  /**
   * The length of the well-formed UTF-8 sequence that starts s
   * (Unicode Table 3-7), or 0 when s does not start with one.
   */
  function LeadSequenceLength(s: seq<byte>): (k: nat)
    requires |s| > 0
    ensures k <= 4 && k <= |s|
  {
    var b := s[0];
    if b <= 0x7F then 1
    else if 0xC2 <= b <= 0xDF then
      if |s| >= 2 && IsContinuation(s[1]) then 2 else 0
    else if b == 0xE0 then
      if |s| >= 3 && 0xA0 <= s[1] <= 0xBF && IsContinuation(s[2]) then 3 else 0
    else if (0xE1 <= b <= 0xEC) || (0xEE <= b <= 0xEF) then
      if |s| >= 3 && IsContinuation(s[1]) && IsContinuation(s[2]) then 3 else 0
    else if b == 0xED then
      if |s| >= 3 && 0x80 <= s[1] <= 0x9F && IsContinuation(s[2]) then 3 else 0
    else if b == 0xF0 then
      if |s| >= 4 && 0x90 <= s[1] <= 0xBF && IsContinuation(s[2]) && IsContinuation(s[3]) then 4 else 0
    else if 0xF1 <= b <= 0xF3 then
      if |s| >= 4 && IsContinuation(s[1]) && IsContinuation(s[2]) && IsContinuation(s[3]) then 4 else 0
    else if b == 0xF4 then
      if |s| >= 4 && 0x80 <= s[1] <= 0x8F && IsContinuation(s[2]) && IsContinuation(s[3]) then 4 else 0
    else 0
  }

  /** String(data:encoding: .utf8) succeeds exactly on well-formed UTF-8. */
  predicate ValidUtf8(s: seq<byte>)
    decreases |s|
  {
    |s| == 0 || (LeadSequenceLength(s) > 0 && ValidUtf8(s[LeadSequenceLength(s)..]))
  }

  lemma {:induction false} AsciiIsValidUtf8(s: seq<byte>)
    requires forall i | 0 <= i < |s| :: s[i] < 0x80
    ensures ValidUtf8(s)
  {
    if |s| > 0 {
      AsciiIsValidUtf8(s[1..]);
    }
  }
}
