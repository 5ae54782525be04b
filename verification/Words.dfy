/** 64-bit machine words, least significant bit first: the bit operations and the wrapping arithmetic. */
module Words {

  const TWO64: nat := 0x1_0000_0000_0000_0000

  type Word = w: seq<bool> | |w| == 64 witness seq(64, i => false)

  const ZERO: Word := seq(64, i => false)

  function Xor(a: Word, b: Word): Word { seq(64, i requires 0 <= i < 64 => a[i] != b[i]) }
  function Shr(a: Word, k: nat): Word { seq(64, i requires 0 <= i < 64 => i + k < 64 && a[i + k]) }
  function Shl(a: Word, k: nat): Word { seq(64, i requires 0 <= i < 64 => i >= k && a[i - k]) }
  function RotateLeft(a: Word, k: nat): Word requires k < 64 {
    seq(64, i requires 0 <= i < 64 => a[if i >= k then i - k else i - k + 64])
  }
  function RotateRight(a: Word, k: nat): Word requires k < 64 {
    seq(64, i requires 0 <= i < 64 => a[if i + k < 64 then i + k else i + k - 64])
  }

  function Pow2(k: nat): (p: nat)
    ensures p > 0
  {
    if k == 0 then 1 else 2 * Pow2(k - 1)
  }

  /** The number a run of bits stands for, and the low `k` bits of a number. */
  function Value(s: seq<bool>): nat { if s == [] then 0 else (if s[0] then 1 else 0) + 2 * Value(s[1..]) }
  function Bits(n: nat, k: nat): (s: seq<bool>)
    ensures |s| == k
  {
    if k == 0 then [] else [n % 2 == 1] + Bits(n / 2, k - 1)
  }

  lemma {:induction false} Pow2Sum(a: nat, b: nat)
    ensures Pow2(a + b) == Pow2(a) * Pow2(b)
  {
    if a > 0 {
      Pow2Sum(a - 1, b);
    }
  }

  lemma Pow2Is64()
    ensures Pow2(64) == TWO64 && Pow2(32) == 0x1_0000_0000
  {
    Pow2Is8();
    hide Pow2;
    Pow2Sum(8, 8);
    assert Pow2(16) == 0x1_0000;
    Pow2Sum(16, 16);
    assert Pow2(32) == 0x1_0000_0000;
    Pow2Sum(32, 32);
  }

  lemma Pow2Is8()
    ensures Pow2(8) == 256
  {
  }

  lemma {:induction false} BitsOfValue(s: seq<bool>)
    ensures Bits(Value(s), |s|) == s && Value(s) < Pow2(|s|)
  {
    if s != [] {
      BitsOfValue(s[1..]);
      assert Value(s) / 2 == Value(s[1..]) && (Value(s) % 2 == 1 <==> s[0]);
      assert s == [s[0]] + s[1..];
    }
  }

  lemma {:induction false} ValueOfBits(n: nat, k: nat)
    ensures Value(Bits(n, k)) == n % Pow2(k)
  {
    if k > 0 {
      ValueOfBits(n / 2, k - 1);
      assert Bits(n, k)[1..] == Bits(n / 2, k - 1);
      HalfMod(n, Pow2(k - 1));
    }
  }

  lemma HalfMod(n: nat, p: nat)
    requires p > 0
    ensures n % (2 * p) == n % 2 + 2 * ((n / 2) % p)
  {
    var q, r := (n / 2) / p, (n / 2) % p;
    assert n / 2 == q * p + r;
    assert n == (2 * p) * q + (n % 2 + 2 * r);
    DivModUnique(n, 2 * p, q, n % 2 + 2 * r);
  }

  lemma DivModUnique(n: int, d: int, q: int, r: int)
    requires d > 0 && n == d * q + r && 0 <= r < d
    ensures n / d == q && n % d == r
  {
    var k := n / d - q;
    assert n == d * (n / d) + n % d;
    assert d * k == r - n % d by { assert d * k == d * (n / d) - d * q; }
    assert (k >= 1 ==> d * k >= d) && (k <= -1 ==> d * k <= -d);
  }

  /** Wrapping multiplication and addition. */
  function Times(a: Word, c: nat): Word { Bits(Value(a) * c, 64) }
  function Plus(a: Word, c: nat): Word { Bits(Value(a) + c, 64) }

  lemma ValueRange(a: Word)
    ensures Value(a) < TWO64 && Bits(Value(a), 64) == a
  {
    hide Pow2, Value, Bits;
    BitsOfValue(a);
    Pow2Is64();
  }

  lemma ValueIs(n: nat)
    ensures Value(Bits(n, 64)) == n % TWO64
  {
    hide Pow2, Value, Bits;
    ValueOfBits(n, 64);
    Pow2Is64();
  }

  lemma ModTimes(a: nat, c: nat)
    ensures ((a % TWO64) * c) % TWO64 == (a * c) % TWO64
  {
    var (q, r) := (a / TWO64, a % TWO64);
    var (q', r') := ((r * c) / TWO64, (r * c) % TWO64);
    assert a * c == (TWO64 * q + r) * c == TWO64 * (q * c) + r * c;
    assert r * c == TWO64 * q' + r';
    assert a * c == TWO64 * (q * c + q') + r';
    DivModUnique(a * c, TWO64, q * c + q', r');
  }

  lemma ModInverse(v: nat, c: nat, d: nat)
    requires (c * d) % TWO64 == 1 && v < TWO64
    ensures (((v * c) % TWO64) * d) % TWO64 == v
  {
    ModTimes(v * c, d);
    assert (v * c) * d == (c * d) * v;
    ModTimes(c * d, v);
  }

  /** Multiplying by `c` and then by its inverse gives the word back. */
  lemma TimesInverse(a: Word, c: nat, d: nat)
    requires (c * d) % TWO64 == 1
    ensures Times(Times(a, c), d) == a
  {
    hide Value, Bits;
    ValueRange(a);
    ModInverse(Value(a), c, d);
    ValueIs(Value(a) * c);
    ValueIs(Value(Times(a, c)) * d);
    ValueRange(Times(Times(a, c), d));
  }

  lemma PlusInjective(a: Word, b: Word, c: nat)
    requires Plus(a, c) == Plus(b, c)
    ensures a == b
  {
    hide Value, Bits;
    ValueRange(a);
    ValueRange(b);
    ValueIs(Value(a) + c);
    ValueIs(Value(b) + c);
  }

  lemma {:induction false} ZeroBits(k: nat)
    ensures Value(seq(k, i => false)) == 0 && Bits(0, k) == seq(k, i => false)
  {
    if k > 0 {
      ZeroBits(k - 1);
      assert seq(k, i => false)[1..] == seq(k - 1, i => false);
      assert seq(k, i => false) == [false] + seq(k - 1, i => false);
    }
  }

  lemma ValueOfZero(a: Word)
    ensures Value(a) == 0 <==> a == ZERO
  {
    ZeroBits(64);
    ValueRange(a);
  }
}
