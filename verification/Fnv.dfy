/** The 32-bit FNV-1a hash of `ingest/ingest.py` (section 2 of draft-eastlake-fnv), over unbounded integers
    as Python has them. */
module Fnv {

  const FNV_OFFSET: nat := 2166136261
  const FNV_PRIME: nat := 16777619
  const WORD: nat := 0x1_0000_0000

  type Byte = b: nat | b < 256

  /** Bitwise exclusive or of two natural numbers. */
  function Xor(a: nat, b: nat): nat
    decreases a + b
  {
    if a == 0 && b == 0 then 0 else 2 * Xor(a / 2, b / 2) + (a % 2 + b % 2) % 2
  }

  /** One round: exclusive or with the byte, multiplication, and the mask to 32 bits. */
  function Round(h: nat, byte: Byte): nat {
    Xor(h, byte) * FNV_PRIME % WORD
  }

  function HashFrom(h: nat, token: seq<Byte>): nat {
    if token == [] then h else Round(HashFrom(h, token[..|token| - 1]), token[|token| - 1])
  }

  /** The hash computed without ever masking. */
  function Unmasked(token: seq<Byte>): nat {
    if token == [] then FNV_OFFSET else Xor(Unmasked(token[..|token| - 1]), token[|token| - 1]) * FNV_PRIME
  }

  method Fnv1a(token: seq<Byte>) returns (h: nat)
    ensures h == HashFrom(FNV_OFFSET, token)
    ensures h == Unmasked(token) % WORD
  {
    h := FNV_OFFSET;
    for i := 0 to |token|
      invariant h == HashFrom(FNV_OFFSET, token[..i])
    {
      assert token[..i + 1][..i] == token[..i];
      h := Xor(h, token[i]) * FNV_PRIME % WORD;
    }
    assert token[..|token|] == token;
    MaskingCommutes(token);
  }

  // ----- exclusive or

  lemma {:induction false} XorInverse(a: nat, b: nat)
    ensures Xor(Xor(a, b), b) == a
    decreases a + b
  {
    hide Xor;
    XorZero();
    if a != 0 || b != 0 {
      XorInverse(a / 2, b / 2);
      XorHalves(a, b);
      XorHalves(Xor(a, b), b);
    }
  }

  lemma XorZero()
    ensures Xor(0, 0) == 0
  {
  }

  lemma XorHalves(a: nat, b: nat)
    ensures Xor(a, b) / 2 == Xor(a / 2, b / 2)
    ensures Xor(a, b) % 2 == (a % 2 + b % 2) % 2
  {
  }

  lemma {:induction false} XorSymmetric(a: nat, b: nat)
    ensures Xor(a, b) == Xor(b, a)
    decreases a + b
  {
    if a != 0 || b != 0 { XorSymmetric(a / 2, b / 2); }
  }

  function Pow2(k: nat): nat {
    if k == 0 then 1 else 2 * Pow2(k - 1)
  }

  /** The low `k` bits of the exclusive or come from the low `k` bits of the operands. */
  lemma {:induction false} XorLowBits(a: nat, b: nat, k: nat)
    ensures Pow2(k) > 0
    ensures Xor(a, b) % Pow2(k) == Xor(a % Pow2(k), b % Pow2(k))
    decreases k
  {
    if k > 0 {
      XorLowBits(a / 2, b / 2, k - 1);
      var p := Pow2(k - 1);
      HalvesOfMod(a, p);
      HalvesOfMod(b, p);
      HalvesOfMod(Xor(a, b), p);
      XorHalves(a, b);
      XorHalves(a % (2 * p), b % (2 * p));
    } else {
      assert Pow2(0) == 1 && Xor(0, 0) == 0;
    }
  }

  lemma HalvesOfMod(x: nat, p: nat)
    requires p > 0
    ensures x % (2 * p) / 2 == x / 2 % p
    ensures x % (2 * p) % 2 == x % 2
  {
    var q, r := x / 2 / p, x / 2 % p;
    assert x / 2 == q * p + r;
    assert x == (2 * p) * q + (2 * r + x % 2);
    ModIs(x, 2 * p, q, 2 * r + x % 2);
  }

  lemma ModIs(x: nat, m: nat, q: nat, r: nat)
    requires r < m && x == m * q + r
    ensures x % m == r && x / m == q
  {
    var k := x / m - q;
    assert m * k == r - x % m by {
      assert m * (x / m) + x % m == m * q + r;
      assert m * (x / m - q) == m * (x / m) - m * q;
    }
    if k >= 1 { MulAtLeast(m, k); }
    assert m * -k == -(m * k);
    if k <= -1 { MulAtLeast(m, -k); }
  }

  lemma {:induction false} MulAtLeast(m: nat, k: int)
    requires k >= 1
    ensures m * k >= m
    decreases k
  {
    if k > 1 {
      MulAtLeast(m, k - 1);
      assert m * k == m * (k - 1) + m;
    }
  }

  lemma WordIsPower()
    ensures Pow2(32) == WORD
  {
    assert Pow2(8) == 256;
    assert Pow2(16) == 65536;
    assert Pow2(24) == 16777216;
  }

  lemma XorModPower(h: nat, byte: nat, k: nat, w: nat)
    requires w == Pow2(k) && byte < w
    ensures Xor(h, byte) % w == Xor(h % w, byte)
  {
    hide Xor, Pow2;
    XorLowBits(h, byte, k);
    ModIs(byte, w, 0, byte);
  }

  lemma XorByteInWord(h: nat, byte: Byte)
    ensures Xor(h, byte) % WORD == Xor(h % WORD, byte)
    ensures h < WORD ==> Xor(h, byte) < WORD
  {
    hide Xor, Pow2;
    WordIsPower();
    XorModPower(h, byte, 32, WORD);
  }

  // ----- masking

  lemma MulMod(x: nat, p: nat)
    ensures x * p % WORD == x % WORD * p % WORD
  {
    var q, r := x / WORD, x % WORD;
    assert x == WORD * q + r;
    var y := r * p;
    assert x * p == WORD * (q * p + y / WORD) + y % WORD by {
      assert (WORD * q + r) * p == WORD * (q * p) + r * p;
      assert WORD * (q * p + y / WORD) == WORD * (q * p) + WORD * (y / WORD);
    }
    ModIs(x * p, WORD, q * p + y / WORD, y % WORD);
  }

  /** Masking at every round gives the low 32 bits of the computation that never masks. */
  lemma {:induction false} MaskingCommutes(token: seq<Byte>)
    ensures HashFrom(FNV_OFFSET, token) == Unmasked(token) % WORD
  {
    if token == [] {
      assert FNV_OFFSET % WORD == FNV_OFFSET;
    } else {
      var front, byte := token[..|token| - 1], token[|token| - 1];
      MaskingCommutes(front);
      XorByteInWord(Unmasked(front), byte);
      MulMod(Xor(Unmasked(front), byte), FNV_PRIME);
    }
  }

  // ----- rounds lose nothing

  const PRIME_INVERSE: nat := 899433627

  lemma PrimeInverts(x: nat, y: nat)
    requires x < WORD && y < WORD
    requires x * FNV_PRIME % WORD == y * FNV_PRIME % WORD
    ensures x == y
  {
    var d, k := x - y, x * FNV_PRIME / WORD - y * FNV_PRIME / WORD;
    assert d * FNV_PRIME == WORD * k;
    var q := 3513497;
    assert FNV_PRIME * PRIME_INVERSE == 1 + WORD * q;
    assert d == WORD * (k * PRIME_INVERSE - q * d);
  }

  lemma RoundInjective(h: nat, g: nat, byte: Byte)
    requires h < WORD && g < WORD && Round(h, byte) == Round(g, byte)
    ensures h == g
  {
    XorByteInWord(h, byte);
    XorByteInWord(g, byte);
    PrimeInverts(Xor(h, byte), Xor(g, byte));
    XorInverse(h, byte);
    XorInverse(g, byte);
  }

  lemma RoundSeesByte(h: nat, b: Byte, c: Byte)
    requires h < WORD && Round(h, b) == Round(h, c)
    ensures b == c
  {
    XorByteInWord(h, b);
    XorByteInWord(h, c);
    PrimeInverts(Xor(h, b), Xor(h, c));
    XorSymmetric(h, b);
    XorSymmetric(h, c);
    XorInverse(b, h);
    XorInverse(c, h);
  }

  lemma {:induction false} StatesStayApart(h: nat, g: nat, token: seq<Byte>)
    requires h < WORD && g < WORD && h != g
    ensures HashFrom(h, token) < WORD && HashFrom(g, token) < WORD
    ensures HashFrom(h, token) != HashFrom(g, token)
  {
    if token != [] {
      var front, byte := token[..|token| - 1], token[|token| - 1];
      StatesStayApart(h, g, front);
      if Round(HashFrom(h, front), byte) == Round(HashFrom(g, front), byte) {
        RoundInjective(HashFrom(h, front), HashFrom(g, front), byte);
      }
    }
  }

  lemma {:induction false} HashInWord(h: nat, token: seq<Byte>)
    requires h < WORD
    ensures HashFrom(h, token) < WORD
  {
  }

  lemma {:induction false} HashSplits(h: nat, s: seq<Byte>, t: seq<Byte>)
    ensures HashFrom(h, s + t) == HashFrom(HashFrom(h, s), t)
  {
    if t == [] {
      assert s + t == s;
    } else {
      var front := t[..|t| - 1];
      HashSplits(h, s, front);
      assert (s + t)[..|s + t| - 1] == s + front;
    }
  }

  /** Two tokens of equal length that differ in exactly one byte have different hashes. */
  lemma OneByteMatters(s: seq<Byte>, t: seq<Byte>, i: nat)
    requires |s| == |t| && i < |s| && s[i] != t[i]
    requires forall k :: 0 <= k < |s| && k != i ==> s[k] == t[k]
    ensures HashFrom(FNV_OFFSET, s) != HashFrom(FNV_OFFSET, t)
  {
    var before, after := s[..i], s[i + 1..];
    assert s == before + [s[i]] + after && t == before + [t[i]] + after;
    var h := HashFrom(FNV_OFFSET, before);
    HashInWord(FNV_OFFSET, before);
    HashSplits(FNV_OFFSET, before + [s[i]], after);
    HashSplits(FNV_OFFSET, before + [t[i]], after);
    assert (before + [s[i]])[..i] == before && (before + [t[i]])[..i] == before;
    if Round(h, s[i]) == Round(h, t[i]) { RoundSeesByte(h, s[i], t[i]); }
    StatesStayApart(Round(h, s[i]), Round(h, t[i]), after);
  }

  lemma XorByte(h: nat, byte: Byte)
    ensures Xor(h, byte) == h / 256 * 256 + Xor(h % 256, byte)
  {
    hide Xor;
    assert Pow2(8) == 256;
    XorLowBits(h, byte, 8);
    XorHighBits(h, byte, 8);
  }

  lemma {:induction false} XorHighBits(a: nat, b: nat, k: nat)
    requires b < Pow2(k)
    ensures Pow2(k) > 0 && Xor(a, b) / Pow2(k) == a / Pow2(k)
    decreases k
  {
    if k == 0 {
      XorWithZero(a);
    } else {
      var p := Pow2(k - 1);
      XorHighBits(a / 2, b / 2, k - 1);
      XorHalves(a, b);
      HalfThenDivide(a, p);
      HalfThenDivide(Xor(a, b), p);
    }
  }

  lemma {:induction false} XorWithZero(a: nat)
    ensures Xor(a, 0) == a
  {
    if a > 0 { XorWithZero(a / 2); }
  }

  lemma HalfThenDivide(x: nat, p: nat)
    requires p > 0
    ensures x / (2 * p) == x / 2 / p
  {
    var q, r := x / 2 / p, x / 2 % p;
    assert x / 2 == q * p + r;
    assert x == (2 * p) * q + (2 * r + x % 2);
    ModIs(x, 2 * p, q, 2 * r + x % 2);
  }

  lemma GoldenRounds()
    ensures Round(FNV_OFFSET, 99) == 3859557458
    ensures Round(3859557458, 115) == 1177122803
  {
    hide Xor;
    XorByte(FNV_OFFSET, 99);
    XorByte(3859557458, 115);
    LowBytes();
  }

  lemma LowBytes()
    ensures Xor(197, 99) == 166 && Xor(82, 115) == 33
  {
    assert Xor(0, 0) == 0 && Xor(1, 0) == 1 && Xor(3, 1) == 2 && Xor(6, 3) == 5 && Xor(12, 6) == 10;
    assert Xor(24, 12) == 20 && Xor(49, 24) == 41 && Xor(98, 49) == 83 && Xor(197, 99) == 166;
    assert Xor(1, 1) == 0 && Xor(2, 3) == 1 && Xor(5, 7) == 2 && Xor(10, 14) == 4;
    assert Xor(20, 28) == 8 && Xor(41, 57) == 16 && Xor(82, 115) == 33;
  }

  /** The pinned hash of "cs". */
  lemma GoldenCs()
    ensures HashFrom(FNV_OFFSET, [99, 115]) == 1177122803
  {
    hide Round;
    GoldenRounds();
    var c: seq<Byte> := [99];
    var cs: seq<Byte> := [99, 115];
    assert c[..0] == [] && cs[..1] == c;
    assert HashFrom(FNV_OFFSET, c) == Round(FNV_OFFSET, 99);
  }
}
