/** Base64url texts (section 5 of RFC 4648) as bit strings, and the page's 32-bit decoder (groups.js). */
module Base64 {
  import opened Common
  import Words

  type Byte = n: int | 0 <= n < 256
  type Bits = seq<bool>

  // ---- bit strings, most significant bit first ------------------------------------------------------------

  function Value(s: Bits): nat {
    if s == [] then 0 else 2 * Value(s[..|s| - 1]) + if s[|s| - 1] then 1 else 0
  }

  function Digits(n: nat, w: nat): (s: Bits)
    ensures |s| == w
  {
    if w == 0 then [] else Digits(n / 2, w - 1) + [n % 2 == 1]
  }

  lemma {:induction false} ValueOfDigits(n: nat, w: nat)
    requires n < Words.Pow2(w)
    ensures Value(Digits(n, w)) == n
  {
    if w > 0 {
      ValueOfDigits(n / 2, w - 1);
      assert Digits(n, w)[..w - 1] == Digits(n / 2, w - 1);
    }
  }

  lemma {:induction false} DigitsOfValue(s: Bits)
    ensures Value(s) < Words.Pow2(|s|) && Digits(Value(s), |s|) == s
  {
    if s != [] {
      var front := s[..|s| - 1];
      DigitsOfValue(front);
      assert s == front + [s[|s| - 1]];
      assert Value(s) / 2 == Value(front) && (Value(s) % 2 == 1 <==> s[|s| - 1]);
    }
  }

  lemma {:induction false} ValueConcat(a: Bits, b: Bits)
    ensures Value(a + b) == Value(a) * Words.Pow2(|b|) + Value(b)
  {
    if b == [] {
      assert a + b == a;
    } else {
      var front := b[..|b| - 1];
      ValueConcat(a, front);
      assert (a + b)[..|a + b| - 1] == a + front;
      assert Value(a) * Words.Pow2(|b|) == 2 * (Value(a) * Words.Pow2(|front|));
    }
  }

  /** Numbers spelled out in `w` bits each, and a bit string cut back into `w`-bit numbers, a shorter rest dropped. */
  function Spread(ns: seq<nat>, w: nat): (s: Bits)
    ensures |s| == |ns| * w
  {
    if ns == [] then [] else Spread(ns[..|ns| - 1], w) + Digits(ns[|ns| - 1], w)
  }

  function Group(s: Bits, w: nat): (ns: seq<nat>)
    requires w > 0
    decreases |s|
  {
    if |s| < w then [] else [Value(s[..w])] + Group(s[w..], w)
  }

  lemma {:induction false} GroupAppend(s: Bits, k: nat, t: Bits, w: nat)
    requires w > 0 && |s| == k * w
    ensures Group(s + t, w) == Group(s, w) + Group(t, w)
    decreases k
  {
    if k == 0 {
      assert s + t == t;
    } else {
      assert |s| == (k - 1) * w + w;
      assert (s + t)[..w] == s[..w] && (s + t)[w..] == s[w..] + t;
      GroupAppend(s[w..], k - 1, t, w);
    }
  }

  lemma GroupOne(n: nat, w: nat)
    requires w > 0 && n < Words.Pow2(w)
    ensures Group(Digits(n, w), w) == [n]
  {
    ValueOfDigits(n, w);
    assert Digits(n, w)[..w] == Digits(n, w) && Digits(n, w)[w..] == [];
    hide Digits, Value;
  }

  lemma {:induction false} GroupOfSpread(ns: seq<nat>, w: nat)
    requires w > 0 && forall i :: 0 <= i < |ns| ==> ns[i] < Words.Pow2(w)
    ensures Group(Spread(ns, w), w) == ns
  {
    hide Group, Digits, Words.Pow2;
    if ns == [] {
      GroupShort([], w);
    } else {
      var (front, n) := (ns[..|ns| - 1], ns[|ns| - 1]);
      GroupOfSpread(front, w);
      GroupAppend(Spread(front, w), |front|, Digits(n, w), w);
      GroupOne(n, w);
      assert ns == front + [n];
    }
  }

  lemma GroupShort(rest: Bits, w: nat)
    requires |rest| < w
    ensures Group(rest, w) == []
  {
  }

  /** Grouping undoes spreading, even with up to `w - 1` bits of padding behind. */
  lemma GroupOfPadded(ns: seq<nat>, w: nat, rest: Bits)
    requires |rest| < w && forall i :: 0 <= i < |ns| ==> ns[i] < Words.Pow2(w)
    ensures Group(Spread(ns, w) + rest, w) == ns
  {
    hide Group, Spread, Words.Pow2;
    GroupAppend(Spread(ns, w), |ns|, rest, w);
    GroupOfSpread(ns, w);
    GroupShort(rest, w);
  }

  /** Spreading undoes grouping when nothing is dropped. */
  lemma {:induction false} SpreadOfGroup(s: Bits, k: nat, w: nat)
    requires w > 0 && |s| == k * w
    ensures Spread(Group(s, w), w) == s && |Group(s, w)| == k
    ensures forall i :: 0 <= i < |Group(s, w)| ==> Group(s, w)[i] < Words.Pow2(w)
    decreases k
  {
    hide Spread, Digits, Value, Words.Pow2;
    if k == 0 {
      SpreadNone(w);
    } else {
      assert |s| == (k - 1) * w + w;
      SpreadOfGroup(s[w..], k - 1, w);
      DigitsOfValue(s[..w]);
      SpreadCons(Value(s[..w]), Group(s[w..], w), w);
      assert s == s[..w] + s[w..];
    }
  }

  lemma SpreadNone(w: nat)
    ensures Spread([], w) == []
  {
  }

  lemma {:induction false} SpreadCons(n: nat, ns: seq<nat>, w: nat)
    ensures Spread([n] + ns, w) == Digits(n, w) + Spread(ns, w)
  {
    if ns == [] {
      assert [n] + ns == [n] && [n][..0] == [];
      assert Spread([n], w) == Spread([], w) + Digits(n, w);
    } else {
      SpreadCons(n, ns[..|ns| - 1], w);
      assert ([n] + ns)[..|ns|] == [n] + ns[..|ns| - 1];
    }
  }

  // ---- the alphabet and the encoder ---------------------------------------------------------------------

  /** The base64url letter of a 6-bit number, and a letter's place in the alphabet, -1 for any other character. */
  function Letter(n: nat): char
    requires n < 64
  {
    if n < 26 then 'A' + n as char
    else if n < 52 then 'a' + (n - 26) as char
    else if n < 62 then '0' + (n - 52) as char
    else if n == 62 then '-' else '_'
  }

  function IndexOf(c: char): (n: int)
    ensures -1 <= n < 64
  {
    if 'A' <= c <= 'Z' then c as int - 'A' as int
    else if 'a' <= c <= 'z' then c as int - 'a' as int + 26
    else if '0' <= c <= '9' then c as int - '0' as int + 52
    else if c == '-' then 62 else if c == '_' then 63 else -1
  }

  lemma LetterIndex(n: nat, c: char)
    requires n < 64
    ensures IndexOf(Letter(n)) == n && (IndexOf(c) >= 0 ==> Letter(IndexOf(c)) == c) && Letter(n) != '~'
  {
  }

  predicate WellFormed(text: string) { forall i :: 0 <= i < |text| ==> IndexOf(text[i]) >= 0 }

  function Numbers(text: string): (ns: seq<nat>)
    requires WellFormed(text)
    ensures |ns| == |text| && forall i :: 0 <= i < |ns| ==> ns[i] == IndexOf(text[i])
  {
    seq(|text|, i requires 0 <= i < |text| => IndexOf(text[i]))
  }

  /** The bytes a text carries: its 6-bit letters as one bit string, cut into bytes. */
  function Carried(text: string): seq<nat>
    requires WellFormed(text)
  {
    Group(Spread(Numbers(text), 6), 8)
  }

  /** Zero bits up to the next multiple of six. */
  function Padding(bytes: nat): (k: nat)
    ensures k < 6 && (8 * bytes + k) % 6 == 0
  {
    SixFit(bytes / 3, bytes % 3);
    if bytes % 3 == 0 then 0 else if bytes % 3 == 1 then 4 else 2
  }

  lemma SixFit(q: nat, r: nat)
    requires r < 3
    ensures (8 * (3 * q + r) + if r == 0 then 0 else if r == 1 then 4 else 2) % 6 == 0
  {
    var k := if r == 0 then 0 else if r == 1 then 4 else 2;
    var sixes := 4 * q + if r == 0 then 0 else if r == 1 then 2 else 3;
    assert 8 * (3 * q + r) + k == 6 * sixes;
    Words.DivModUnique(8 * (3 * q + r) + k, 6, sixes, 0);
  }

  function Zeros(k: nat): (s: Bits)
    ensures |s| == k
  {
    seq(k, i => false)
  }

  /** The unpadded base64url text of some bytes. */
  function Encode(bytes: seq<Byte>): (text: string) {
    var sixes := Group(Spread(bytes, 8) + Zeros(Padding(|bytes|)), 6);
    seq(|sixes|, i requires 0 <= i < |sixes| => if sixes[i] < 64 then Letter(sixes[i]) else '~')
  }

  lemma Pow2Values()
    ensures Words.Pow2(6) == 64 && Words.Pow2(8) == 256 && Words.Pow2(2) == 4 && Words.Pow2(4) == 16
            && Words.Pow2(0) == 1
  {
  }

  /** The text of `n` bytes has `ceil(4n / 3)` letters, all of the alphabet, and carries exactly those bytes. */
  lemma EncodeCarries(bytes: seq<Byte>)
    ensures WellFormed(Encode(bytes)) && Carried(Encode(bytes)) == bytes
    ensures |Encode(bytes)| == (4 * |bytes| + 2) / 3
  {
    Pow2Values();
    hide Words.Pow2, Spread, Group;
    var (n, pad) := (|bytes|, Padding(|bytes|));
    var s := Spread(bytes, 8) + Zeros(pad);
    var k := (8 * n + pad) / 6;
    assert |s| == k * 6;
    SpreadOfGroup(s, k, 6);
    var (sixes, text) := (Group(s, 6), Encode(bytes));
    assert forall i :: 0 <= i < |text| ==> sixes[i] < 64 && text[i] == Letter(sixes[i]);
    forall i | 0 <= i < |text|
      ensures IndexOf(text[i]) == sixes[i]
    {
      LetterIndex(sixes[i], 'A');
    }
    hide Letter, IndexOf;
    assert Numbers(text) == sixes;
    GroupOfPadded(bytes, 8, Zeros(pad));
  }

  // ---- the page's decoder -------------------------------------------------------------------------------

  const TWO32: int := 0x1_0000_0000

  /** A number taken into a signed 32-bit one, as every bitwise operator of the page's language takes its operands. */
  function ToInt32(x: int): int { if x % TWO32 < 0x8000_0000 then x % TWO32 else x % TWO32 - TWO32 }

  /** `(buffer << 6) | index`: the shift leaves six zero bits for the index to fill. */
  function PushSix(buffer: int, index: nat): int
    requires index < 64
  {
    ToInt32(buffer * 64) + index
  }

  /** `(buffer >> bits) & 0xff`, the shift keeping the sign. */
  function TopByte(buffer: int, bits: nat): nat { (buffer / Words.Pow2(bits)) % 256 }

  /** The low bits of a wrapped number survive the wrap. */
  lemma WrapKeeps(x: int, b: nat)
    requires b <= 32
    ensures ToInt32(x) % Words.Pow2(b) == x % Words.Pow2(b)
  {
    hide Words.Pow2;
    Words.Pow2Is64();
    Words.Pow2Sum(b, 32 - b);
    if x % TWO32 < 0x8000_0000 {
      ModShift(x, ToInt32(x), Words.Pow2(b), Words.Pow2(32 - b), -(x / TWO32));
    } else {
      ModShift(x, ToInt32(x), Words.Pow2(b), Words.Pow2(32 - b), -(x / TWO32) - 1);
    }
  }

  lemma ModShift(x: int, y: int, m: int, k: int, j: int)
    requires m > 0 && m * k == TWO32 && y == x + TWO32 * j
    ensures y % m == x % m
  {
    var (q, r) := (x / m, x % m);
    assert x == m * q + r;
    assert TWO32 * j == m * (k * j) by { assert (m * k) * j == m * (k * j); }
    assert y == m * (q + k * j) + r;
    Words.DivModUnique(y, m, q + k * j, r);
  }

  /** The low end of the buffer holds the bits `left`. */
  ghost predicate LowEnd(buffer: int, left: Bits) { buffer % Words.Pow2(|left|) == Value(left) }

  /** One letter more: the kept bits stand in the low end of the buffer, however often it wrapped. */
  lemma PushSixKeeps(buffer: int, left: Bits, index: nat)
    requires |left| <= 26 && LowEnd(buffer, left) && index < 64
    ensures LowEnd(PushSix(buffer, index), left + Digits(index, 6))
  {
    hide Words.Pow2, Value, Digits, ToInt32;
    Pow2Values();
    Words.Pow2Sum(|left|, 6);
    ValueOfDigits(index, 6);
    ValueConcat(left, Digits(index, 6));
    WrapKeeps(buffer * 64, |left| + 6);
    assert Value(left + Digits(index, 6)) == 64 * Value(left) + index
           && Words.Pow2(|left| + 6) == 64 * Words.Pow2(|left|);
    PushSixArithmetic(buffer, Words.Pow2(|left|), Value(left), ToInt32(buffer * 64), index);
  }

  lemma PushSixArithmetic(buffer: int, m: nat, v: nat, wrapped: int, index: nat)
    requires m > 0 && buffer % m == v && wrapped % (64 * m) == (buffer * 64) % (64 * m) && index < 64
    ensures (wrapped + index) % (64 * m) == 64 * v + index
  {
    ShiftSix(buffer, m);
    var (n, p) := (64 * m, wrapped / (64 * m));
    assert wrapped == n * p + 64 * v;
    Words.DivModUnique(wrapped + index, n, p, 64 * v + index);
  }

  lemma ShiftSix(buffer: int, m: nat)
    requires m > 0
    ensures (buffer * 64) % (64 * m) == 64 * (buffer % m)
  {
    var (q, v) := (buffer / m, buffer % m);
    assert buffer == m * q + v;
    assert 64 * (m * q) == (64 * m) * q;
    Words.DivModUnique(buffer * 64, 64 * m, q, 64 * v);
  }

  /** A full byte comes off the top, and the rest stays in the low end. */
  lemma TopByteIs(buffer: int, bits: Bits)
    requires |bits| >= 8 && LowEnd(buffer, bits)
    ensures TopByte(buffer, |bits| - 8) == Value(bits[..8]) && LowEnd(buffer, bits[8..])
  {
    hide Words.Pow2, Value, Digits;
    Pow2Values();
    Words.Pow2Sum(8, |bits| - 8);
    var (top, low) := (bits[..8], bits[8..]);
    assert bits == top + low;
    ValueConcat(top, low);
    DigitsOfValue(top);
    DigitsOfValue(low);
    TopByteArithmetic(buffer, Words.Pow2(|low|), Value(top), Value(low));
  }

  lemma TopByteArithmetic(buffer: int, m: nat, top: nat, low: nat)
    requires m > 0 && top < 256 && low < m && buffer % (256 * m) == top * m + low
    ensures (buffer / m) % 256 == top && buffer % m == low
  {
    var q := buffer / (256 * m);
    assert buffer == (256 * m) * q + (top * m + low);
    assert (256 * m) * q + top * m == m * (256 * q + top);
    Words.DivModUnique(buffer, m, 256 * q + top, low);
    Words.DivModUnique(256 * q + top, 256, q, top);
  }

  lemma SpreadSnoc(ns: seq<nat>, n: nat, w: nat)
    ensures Spread(ns + [n], w) == Spread(ns, w) + Digits(n, w)
  {
    assert (ns + [n])[..|ns|] == ns;
  }

  lemma GroupMore(done: Bits, k: nat, bits: Bits)
    requires |done| == 8 * k && |bits| < 16
    ensures Group(done + bits, 8) == Group(done, 8) + if |bits| < 8 then [] else [Value(bits[..8])]
  {
    hide Value;
    GroupAppend(done, k, bits, 8);
  }

  /** What the loop holds: the bytes cut from the bits done, and the bits left over in the buffer's low end. */
  ghost predicate Holds(done: Bits, left: Bits, bytes: seq<nat>, buffer: int) {
    && |done| == 8 * |bytes| && bytes == Group(done, 8)
    && |left| < 8 && |left| % 2 == 0 && LowEnd(buffer, left)
  }

  lemma HoldsCarried(text: string, done: Bits, left: Bits, bytes: seq<nat>, buffer: int)
    requires WellFormed(text) && Spread(Numbers(text), 6) == done + left && Holds(done, left, bytes, buffer)
    ensures bytes == Carried(text)
  {
    hide LowEnd, Group, Spread, Value, Words.Pow2;
    GroupMore(done, |bytes|, left);
  }

  lemma HoldsMore(done: Bits, left: Bits, bytes: seq<nat>, buffer: int, n: nat)
    requires Holds(done, left, bytes, buffer) && n < 64 && |left| < 2
    ensures Holds(done, left + Digits(n, 6), bytes, PushSix(buffer, n))
  {
    hide LowEnd, Group, Value, Words.Pow2, PushSix, Digits;
    PushSixKeeps(buffer, left, n);
  }

  lemma HoldsCut(done: Bits, left: Bits, bytes: seq<nat>, buffer: int, n: nat)
    requires Holds(done, left, bytes, buffer) && n < 64 && |left| >= 2
    ensures var now := left + Digits(n, 6);
            Holds(done + now[..8], now[8..], bytes + [TopByte(PushSix(buffer, n), |left| - 2)], PushSix(buffer, n))
  {
    hide LowEnd, Group, Value, Words.Pow2, PushSix, TopByte, Digits;
    var now := left + Digits(n, 6);
    PushSixKeeps(buffer, left, n);
    TopByteIs(PushSix(buffer, n), now);
    GroupMore(done, |bytes|, now[..8]);
    assert now[..8][..8] == now[..8];
  }

  lemma NumbersNext(text: string, i: nat)
    requires i < |text| && WellFormed(text[..i]) && IndexOf(text[i]) >= 0
    ensures WellFormed(text[..i + 1])
    ensures Spread(Numbers(text[..i + 1]), 6) == Spread(Numbers(text[..i]), 6) + Digits(IndexOf(text[i]), 6)
  {
    hide IndexOf, Spread, Digits;
    assert Numbers(text[..i + 1]) == Numbers(text[..i]) + [IndexOf(text[i])];
    SpreadSnoc(Numbers(text[..i]), IndexOf(text[i]), 6);
  }

  lemma NothingHeld(text: string)
    ensures WellFormed(text[..0]) && Spread(Numbers(text[..0]), 6) == [] && Holds([], [], [], 0)
  {
  }

  /** `decodeBase64Url`: exactly the bytes the text carries, or the first character outside the alphabet. */
  method DecodeBase64Url(text: string) returns (r: Result<seq<nat>>)
    ensures r.Ok? <==> WellFormed(text)
    ensures r.Ok? ==> r.value == Carried(text)
  {
    hide Holds, PushSix, TopByte, Carried, Spread, Digits, Numbers, IndexOf;
    var buffer, bits, bytes := 0, 0, [];
    ghost var (done: Bits, left: Bits) := ([], []);
    NothingHeld(text);
    for i := 0 to |text|
      invariant WellFormed(text[..i]) && Spread(Numbers(text[..i]), 6) == done + left
      invariant Holds(done, left, bytes, buffer) && bits == |left| < 8
    {
      var index := IndexOf(text[i]);
      if index < 0 {
        return Err("Encoded session id character " + [text[i]]);
      }
      NumbersNext(text, i);
      ghost var now := left + Digits(index, 6);
      if bits < 2 {
        HoldsMore(done, left, bytes, buffer, index);
        left := now;
      } else {
        HoldsCut(done, left, bytes, buffer, index);
        assert done + left + Digits(index, 6) == done + now[..8] + now[8..];
        done, left := done + now[..8], now[8..];
      }
      buffer := PushSix(buffer, index);
      bits := bits + 6;
      if bits >= 8 {
        bits := bits - 8;
        bytes := bytes + [TopByte(buffer, bits)];
      }
    }
    assert text[..|text|] == text;
    HoldsCarried(text, done, left, bytes, buffer);
    r := Ok(bytes);
  }

  /** What a text carries are bytes, six bits a letter, a shorter rest dropped. */
  lemma CarriedBytes(text: string)
    requires WellFormed(text)
    ensures |Carried(text)| == (6 * |text|) / 8 && forall i :: 0 <= i < |Carried(text)| ==> Carried(text)[i] < 256
  {
    hide Numbers, Spread;
    GroupSizes(Spread(Numbers(text), 6));
  }

  lemma {:induction false} GroupSizes(s: Bits)
    ensures |Group(s, 8)| == |s| / 8 && forall i :: 0 <= i < |Group(s, 8)| ==> Group(s, 8)[i] < 256
    decreases |s|
  {
    hide Value;
    if |s| >= 8 {
      GroupSizes(s[8..]);
      DigitsOfValue(s[..8]);
      Pow2Values();
    }
  }
}
