/** The generator of the synthetic data (rng.rs): xoshiro256** seeded through SplitMix64. */
module Rng {
  import opened Words

  // ---- SplitMix64 ---------------------------------------------------------------------------------------

  const GAMMA: nat := 0x9E3779B97F4A7C15
  const MUL1: nat := 0xBF58476D1CE4E5B9
  const MUL2: nat := 0x94D049BB133111EB
  const INV1: nat := 0x96DE1B173F119089
  const INV2: nat := 0x319642B2D24D8EC3

  function Fold(v: Word, k: nat): Word { Xor(v, Shr(v, k)) }
  function Unfold(v: Word, k: nat): Word { Xor(Xor(v, Shr(v, k)), Shr(v, 2 * k)) }

  /** The mixing of `splitmix64`, and its inverse. */
  function Mix(v: Word): Word { Fold(Times(Fold(Times(Fold(v, 30), MUL1), 27), MUL2), 31) }
  function Unmix(v: Word): Word { Unfold(Times(Unfold(Times(Unfold(v, 31), INV2), 27), INV1), 30) }

  /** A fold by more than a third of the word is undone by folding twice as far as well. */
  lemma FoldInverse(v: Word, k: nat)
    requires k >= 22
    ensures Unfold(Fold(v, k), k) == v && Fold(Unfold(v, k), k) == v
  {
    var (f, u) := (Fold(v, k), Unfold(v, k));
    assert forall i :: 0 <= i < 64 ==> f[i] == (v[i] != (i + k < 64 && v[i + k]));
    assert forall i :: 0 <= i < 64 ==> u[i] == ((v[i] != (i + k < 64 && v[i + k])) != (i + 2 * k < 64 && v[i + 2 * k]));
    assert forall i :: 0 <= i < 64 ==> Unfold(f, k)[i] == v[i];
    assert forall i :: 0 <= i < 64 ==> Fold(u, k)[i] == v[i];
  }

  /** Mixing is a bijection on 64-bit words. */
  lemma MixIsABijection(v: Word)
    ensures Unmix(Mix(v)) == v && Mix(Unmix(v)) == v
  {
    hide Fold, Unfold, Times;
    assert (MUL1 * INV1) % TWO64 == 1 && (MUL2 * INV2) % TWO64 == 1;
    assert (INV1 * MUL1) % TWO64 == 1 && (INV2 * MUL2) % TWO64 == 1;
    var (a, b) := (Times(Fold(v, 30), MUL1), Times(Unfold(v, 31), INV2));
    FoldInverse(v, 30);
    TimesInverse(Fold(v, 30), MUL1, INV1);
    FoldInverse(a, 27);
    TimesInverse(Fold(a, 27), MUL2, INV2);
    FoldInverse(Times(Fold(a, 27), MUL2), 31);
    FoldInverse(v, 31);
    TimesInverse(Unfold(v, 31), INV2, MUL2);
    FoldInverse(b, 27);
    TimesInverse(Unfold(b, 27), INV1, MUL1);
    FoldInverse(Times(Unfold(b, 27), INV1), 30);
  }

  lemma ZeroStays(k: nat)
    ensures Fold(ZERO, k) == ZERO && Times(ZERO, k) == ZERO
  {
    assert Fold(ZERO, k) == ZERO;
    ValueOfZero(ZERO);
    ValueRange(ZERO);
    hide Value, Bits;
  }

  /** Only zero mixes to zero. */
  lemma MixZero(v: Word)
    ensures Mix(v) == ZERO <==> v == ZERO
  {
    hide Fold, Unfold, Times, Unmix;
    ZeroStays(30);
    ZeroStays(27);
    ZeroStays(31);
    ZeroStays(MUL1);
    ZeroStays(MUL2);
    MixIsABijection(v);
    MixIsABijection(ZERO);
  }

  // ---- xoshiro256** -------------------------------------------------------------------------------------

  datatype State = State(s0: Word, s1: Word, s2: Word, s3: Word)
  const NOWHERE: State := State(ZERO, ZERO, ZERO, ZERO)

  /** The four words drawn from a seed. */
  function Seeded(seed: Word): State {
    var g1 := Plus(seed, GAMMA);
    var g2 := Plus(g1, GAMMA);
    var g3 := Plus(g2, GAMMA);
    State(Mix(g1), Mix(g2), Mix(g3), Mix(Plus(g3, GAMMA)))
  }

  /** Word `k` of a seed's state. */
  function WordOf(st: State, k: nat): Word
    requires k < 4
  {
    if k == 0 then st.s0 else if k == 1 then st.s1 else if k == 2 then st.s2 else st.s3
  }

  /** Word `k` of a seed's state, unmixed, is the seed moved on by `k + 1` steps of the golden ratio. */
  lemma SeededWords(seed: Word, k: nat)
    requires k < 4
    ensures Value(Unmix(WordOf(Seeded(seed), k))) == (Value(seed) + (k + 1) * GAMMA) % TWO64
  {
    hide *;
    SeededIs(seed, k);
    SteppedValue(seed, k + 1);
    MixIsABijection(Stepped(seed, k + 1));
  }

  /** The seed after some steps. */
  function Stepped(seed: Word, n: nat): Word { if n == 0 then seed else Plus(Stepped(seed, n - 1), GAMMA) }

  lemma SeededIs(seed: Word, k: nat)
    requires k < 4
    ensures WordOf(Seeded(seed), k) == Mix(Stepped(seed, k + 1))
  {
    hide Mix, Plus;
    assert Stepped(seed, 0) == seed && Stepped(seed, 1) == Plus(seed, GAMMA);
    assert Stepped(seed, 2) == Plus(Stepped(seed, 1), GAMMA) && Stepped(seed, 3) == Plus(Stepped(seed, 2), GAMMA);
    assert Stepped(seed, 4) == Plus(Stepped(seed, 3), GAMMA);
  }

  lemma {:induction false} SteppedValue(seed: Word, n: nat)
    ensures Value(Stepped(seed, n)) == (Value(seed) + n * GAMMA) % TWO64
  {
    hide Value, Bits;
    if n == 0 {
      ValueRange(seed);
    } else {
      SteppedValue(seed, n - 1);
      PlusValue(Stepped(seed, n - 1), Value(seed) + (n - 1) * GAMMA, GAMMA);
    }
  }

  lemma PlusValue(w: Word, n: nat, k: nat)
    requires Value(w) == n % TWO64
    ensures Value(Plus(w, k)) == (n + k) % TWO64
  {
    hide Value, Bits;
    ValueIs(Value(w) + k);
    ModPlus(n, k);
  }

  lemma ModPlus(n: nat, k: nat)
    ensures (n % TWO64 + k) % TWO64 == (n + k) % TWO64
  {
    var (q, m) := (n / TWO64, n % TWO64 + k);
    assert n + k == TWO64 * (q + m / TWO64) + m % TWO64;
    DivModUnique(n + k, TWO64, q + m / TWO64, m % TWO64);
  }

  /** No seed yields the all-zero state, and different seeds yield different states. */
  lemma SeededIsSound(seed: Word, other: Word)
    ensures Seeded(seed) != NOWHERE && (Seeded(seed) == Seeded(other) ==> seed == other)
  {
    var g1 := Plus(seed, GAMMA);
    MixZero(g1);
    MixZero(Plus(g1, GAMMA));
    GammaMoves();
    MixIsABijection(g1);
    MixIsABijection(Plus(other, GAMMA));
    hide Mix, Unmix, Plus;
    if g1 == Plus(other, GAMMA) {
      PlusInjective(seed, other, GAMMA);
    }
  }

  lemma GammaMoves()
    ensures Plus(ZERO, GAMMA) != ZERO
  {
    ValueOfZero(ZERO);
    ValueIs(GAMMA);
    hide Value, Bits;
  }

  /** The state step of `next_u64`. */
  function Step(s: State): State {
    var (t2, t3) := (Xor(s.s2, s.s0), Xor(s.s3, s.s1));
    State(Xor(s.s0, t3), Xor(s.s1, t2), Xor(t2, Shl(s.s1, 17)), RotateLeft(t3, 45))
  }

  /** The step undone: the shifted word is peeled off in three strides. */
  function Unshift(d: Word): Word { Xor(Xor(d, Shl(d, 17)), Xor(Shl(d, 34), Shl(d, 51))) }
  function Back(s: State): State {
    var t3 := RotateRight(s.s3, 45);
    var s0 := Xor(s.s0, t3);
    var s1 := Unshift(Xor(s.s1, s.s2));
    State(s0, s1, Xor(Xor(s.s1, s1), s0), Xor(t3, s1))
  }

  lemma XorUndone(a: Word, b: Word)
    ensures Xor(Xor(a, b), b) == a && Xor(b, Xor(a, b)) == a && Xor(Xor(b, a), b) == a && Xor(Xor(a, b), a) == b
  {
  }

  lemma RotateUndone(a: Word)
    ensures RotateRight(RotateLeft(a, 45), 45) == a && RotateLeft(RotateRight(a, 45), 45) == a
  {
  }

  lemma UnshiftAt(v: Word, i: nat)
    requires i < 64
    ensures Unshift(v)[i] == ((v[i] != (i >= 17 && v[i - 17])) != ((i >= 34 && v[i - 34]) != (i >= 51 && v[i - 51])))
  {
  }

  lemma ShiftUndone(v: Word)
    ensures Unshift(Xor(v, Shl(v, 17))) == v && Xor(Unshift(v), Shl(Unshift(v), 17)) == v
  {
    var (d, u) := (Xor(v, Shl(v, 17)), Unshift(v));
    assert forall i :: 0 <= i < 64 ==> d[i] == (v[i] != (i >= 17 && v[i - 17]));
    hide Unshift;
    forall i | 0 <= i < 64
      ensures Unshift(d)[i] == v[i] && Xor(u, Shl(u, 17))[i] == v[i]
    {
      UnshiftAt(d, i);
      UnshiftAt(v, i);
      if i >= 17 {
        UnshiftAt(v, i - 17);
      }
    }
  }

  lemma XorOfXors(a: Word, b: Word, c: Word)
    ensures Xor(Xor(a, b), Xor(b, c)) == Xor(a, c)
  {
  }

  lemma StepThenBack(s: State)
    ensures Back(Step(s)) == s
  {
    var (t2, t3, next) := (Xor(s.s2, s.s0), Xor(s.s3, s.s1), Step(s));
    XorUndone(s.s0, t3);
    RotateUndone(t3);
    XorOfXors(s.s1, t2, Shl(s.s1, 17));
    ShiftUndone(s.s1);
    XorUndone(s.s1, t2);
    XorUndone(s.s2, s.s0);
    XorUndone(s.s3, s.s1);
    hide Xor, RotateLeft, RotateRight, Shl, Unshift;
  }

  lemma BackThenStep(s: State)
    ensures Step(Back(s)) == s
  {
    var t3 := RotateRight(s.s3, 45);
    var (s0, d) := (Xor(s.s0, t3), Xor(s.s1, s.s2));
    var s1 := Unshift(d);
    XorUndone(s.s0, t3);
    RotateUndone(s.s3);
    ShiftUndone(d);
    XorUndone(Xor(s.s1, s1), s0);
    XorUndone(s.s1, s1);
    XorUndone(t3, s1);
    XorOfXors(s.s1, s1, Shl(s1, 17));
    XorUndone(s.s1, s.s2);
    hide Xor, RotateLeft, RotateRight, Shl, Unshift;
  }

  /** The state step is a bijection, so it moves no other state to the all-zero one. */
  lemma StepIsABijection(s: State)
    ensures Back(Step(s)) == s && Step(Back(s)) == s && (Step(s) == NOWHERE <==> s == NOWHERE)
  {
    StepThenBack(s);
    BackThenStep(s);
    StepThenBack(NOWHERE);
    ZeroSteps();
    hide Step, Back;
  }

  lemma ZeroSteps()
    ensures Step(NOWHERE) == NOWHERE
  {
    assert Xor(ZERO, ZERO) == ZERO && Shl(ZERO, 17) == ZERO && RotateLeft(ZERO, 45) == ZERO;
    hide Xor, Shl, RotateLeft;
  }

  /** The state after `n` draws. */
  function Advance(s: State, n: nat): State
    decreases n
  {
    if n == 0 then s else Advance(Step(s), n - 1)
  }

  /** No generator ever made reaches the all-zero state, which would draw zeros for ever. */
  lemma {:induction false} NeverStuck(s: State, n: nat)
    requires s != NOWHERE
    ensures Advance(s, n) != NOWHERE
    decreases n
  {
    hide Step, Back;
    if n > 0 {
      StepIsABijection(s);
      NeverStuck(Step(s), n - 1);
    }
  }

  lemma SeededNeverStuck(seed: Word, n: nat)
    ensures Advance(Seeded(seed), n) != NOWHERE
  {
    SeededIsSound(seed, seed);
    NeverStuck(Seeded(seed), n);
  }

  /** The output scrambler of `next_u64`. */
  function Scramble(w: Word): Word { Times(RotateLeft(Times(w, 5), 7), 9) }

  /** Scrambling loses nothing: each output word comes from exactly one state word. */
  lemma ScrambleIsABijection(w: Word)
    ensures Times(RotateRight(Times(Scramble(w), 0x8E38E38E38E38E39), 7), 0xCCCCCCCCCCCCCCCD) == w
    ensures Scramble(Times(RotateRight(Times(w, 0x8E38E38E38E38E39), 7), 0xCCCCCCCCCCCCCCCD)) == w
  {
    hide Times;
    assert (5 * 0xCCCCCCCCCCCCCCCD) % TWO64 == 1 && (9 * 0x8E38E38E38E38E39) % TWO64 == 1;
    TimesInverse(w, 5, 0xCCCCCCCCCCCCCCCD);
    TimesInverse(RotateLeft(Times(w, 5), 7), 9, 0x8E38E38E38E38E39);
    assert RotateRight(RotateLeft(Times(w, 5), 7), 7) == Times(w, 5);
    var v := Times(w, 0x8E38E38E38E38E39);
    TimesInverse(w, 0x8E38E38E38E38E39, 9);
    TimesInverse(RotateRight(v, 7), 0xCCCCCCCCCCCCCCCD, 5);
    assert RotateLeft(RotateRight(v, 7), 7) == v;
  }

  // ---- bounded draws ------------------------------------------------------------------------------------

  /** `below(n)`: the high half of the product of a word and `n`. */
  function Scaled(w: Word, n: nat): nat { (Value(w) * n) / TWO64 }

  lemma HighHalf(v: nat, n: nat)
    requires v < TWO64 && n >= 1
    ensures (v * n) / TWO64 < n
  {
    Stretch(v, TWO64, n);
    QuotientUnder(v * n, TWO64, n);
  }

  lemma Stretch(v: nat, m: nat, n: nat)
    requires v < m && n >= 1
    ensures v * n < m * n
  {
  }

  lemma QuotientUnder(a: nat, m: nat, n: nat)
    requires m > 0 && a < m * n
    ensures a / m < n
  {
    var q := a / m;
    assert a == m * q + a % m;
    assert q >= n ==> m * q >= m * n;
  }

  lemma ScaledBelow(w: Word, n: nat)
    requires n >= 1
    ensures Scaled(w, n) < n
  {
    hide Value, Bits;
    ValueRange(w);
    HighHalf(Value(w), n);
  }

  /** A draw is the part of the bound that the word is of its range. */
  lemma ScaledIs(w: Word, n: nat, k: nat)
    ensures Scaled(w, n) == k <==> k * TWO64 <= Value(w) * n < (k + 1) * TWO64
  {
    hide Value, Bits;
    var v := Value(w) * n;
    assert v == TWO64 * (v / TWO64) + v % TWO64;
    if k * TWO64 <= v < (k + 1) * TWO64 {
      DivModUnique(v, TWO64, k, v - k * TWO64);
    }
  }

  /** Every number under `n` is drawn by some word. */
  lemma ScaledReaches(n: nat, k: nat) returns (w: Word)
    requires k < n <= TWO64
    ensures Scaled(w, n) == k
  {
    hide Value, Bits;
    var v := (k * TWO64 + n - 1) / n;
    CeilDiv(k * TWO64, n);
    Inside(n, k, v);
    w := Bits(v, 64);
    ValueIs(v);
    DivModUnique(v * n, TWO64, k, v * n - k * TWO64);
  }

  lemma Inside(n: nat, k: nat, v: nat)
    requires k < n <= TWO64 && k * TWO64 <= v * n < k * TWO64 + n
    ensures v < TWO64
  {
    assert k * TWO64 + n <= (n - 1) * TWO64 + TWO64 == TWO64 * n;
    assert v >= TWO64 ==> v * n >= TWO64 * n;
  }

  lemma CeilDiv(a: nat, n: nat)
    requires n >= 1
    ensures a <= ((a + n - 1) / n) * n < a + n
  {
    var q := (a + n - 1) / n;
    assert a + n - 1 == n * q + (a + n - 1) % n;
  }

  // ---- Fisher-Yates -------------------------------------------------------------------------------------

  function Swap<T>(s: seq<T>, i: nat, j: nat): (r: seq<T>)
    requires i < |s| && j < |s|
    ensures |r| == |s|
  {
    s[i := s[j]][j := s[i]]
  }

  /** Picks for positions `k - 1` down to 1, each at most its position. */
  ghost predicate Picking(picks: seq<nat>, k: nat) {
    |picks| == (if k == 0 then 0 else k - 1) && forall i :: 0 <= i < |picks| ==> picks[i] < k - i
  }

  lemma PickingTail(picks: seq<nat>, k: nat)
    requires Picking(picks, k) && k > 1
    ensures picks[0] < k && Picking(picks[1..], k - 1)
  {
    assert forall i :: 0 <= i < |picks| - 1 ==> picks[1..][i] == picks[i + 1];
  }

  function FisherYates<T>(s: seq<T>, k: nat, picks: seq<nat>): (r: seq<T>)
    requires k <= |s| && Picking(picks, k)
    ensures |r| == |s|
    decreases k
  {
    if k <= 1 then s else
      PickingTail(picks, k);
      FisherYates(Swap(s, k - 1, picks[0]), k - 1, picks[1..])
  }

  /** The picks a generator in state `s` draws. */
  function Picks(s: State, k: nat): (p: seq<nat>)
    ensures Picking(p, k)
    decreases k
  {
    if k <= 1 then []
    else
      ScaledBelow(Scramble(s.s1), k);
      [Scaled(Scramble(s.s1), k)] + Picks(Step(s), k - 1)
  }

  lemma SwapPermutes<T>(s: seq<T>, i: nat, j: nat)
    requires i < |s| && j < |s|
    ensures multiset(Swap(s, i, j)) == multiset(s)
  {
  }

  lemma {:induction false} ShufflePermutes<T>(s: seq<T>, k: nat, picks: seq<nat>)
    requires k <= |s| && Picking(picks, k)
    ensures multiset(FisherYates(s, k, picks)) == multiset(s)
    ensures FisherYates(s, k, picks)[k..] == s[k..]
    decreases k
  {
    if k > 1 {
      PickingTail(picks, k);
      SwapPermutes(s, k - 1, picks[0]);
      var swapped := Swap(s, k - 1, picks[0]);
      ShufflePermutes(swapped, k - 1, picks[1..]);
      var r := FisherYates(s, k, picks);
      assert r[k..] == r[k - 1..][1..] == swapped[k - 1..][1..] == s[k..];
    }
  }

  ghost predicate Distinct<T>(s: seq<T>) { forall i, j :: 0 <= i < j < |s| ==> s[i] != s[j] }

  lemma SwapDistinct<T>(s: seq<T>, i: nat, j: nat)
    requires i < |s| && j < |s| && Distinct(s)
    ensures Distinct(Swap(s, i, j))
  {
  }

  /** Different picks order distinct items differently. */
  lemma {:induction false} ShuffleInjective<T>(s: seq<T>, k: nat, p: seq<nat>, q: seq<nat>)
    requires Distinct(s) && k <= |s| && Picking(p, k) && Picking(q, k)
    requires FisherYates(s, k, p) == FisherYates(s, k, q)
    ensures p == q
    decreases k
  {
    if k > 1 {
      PickingTail(p, k);
      PickingTail(q, k);
      var (sp, sq) := (Swap(s, k - 1, p[0]), Swap(s, k - 1, q[0]));
      ShufflePermutes(sp, k - 1, p[1..]);
      ShufflePermutes(sq, k - 1, q[1..]);
      assert sp[k - 1] == sp[k - 1..][0] == sq[k - 1..][0] == sq[k - 1];
      assert s[p[0]] == s[q[0]];
      SwapDistinct(s, k - 1, p[0]);
      ShuffleInjective(sp, k - 1, p[1..], q[1..]);
      assert p == [p[0]] + p[1..] && q == [q[0]] + q[1..];
    }
  }

  lemma OneLeft<T>(s: seq<T>, k: nat, t: seq<T>)
    requires Distinct(t) && k <= 1 && k <= |s| == |t| && multiset(s) == multiset(t) && s[k..] == t[k..]
    ensures s == t
  {
    if k == 1 {
      var j := Place(s, 1, t);
    }
    assert s == s[..k] + s[k..] && t == t[..k] + t[k..];
  }

  /** The item that belongs at position `k - 1` is put there; the places past it are as they should be. */
  lemma PutInPlace<T>(s: seq<T>, k: nat, t: seq<T>, j: nat)
    requires 1 <= k <= |s| == |t| && j < k && s[j] == t[k - 1] && s[k..] == t[k..] && multiset(s) == multiset(t)
             && Distinct(s)
    ensures Distinct(Swap(s, k - 1, j)) && multiset(Swap(s, k - 1, j)) == multiset(t)
    ensures Swap(s, k - 1, j)[k - 1..] == t[k - 1..]
  {
    hide Swap, Distinct;
    SwapDistinct(s, k - 1, j);
    SwapPermutes(s, k - 1, j);
    SwapTail(s, k - 1, j);
    assert t[k - 1..] == [t[k - 1]] + t[k..];
  }

  lemma SwapTail<T>(s: seq<T>, i: nat, j: nat)
    requires j <= i < |s|
    ensures Swap(s, i, j)[i..] == [s[j]] + s[i + 1..]
  {
  }

  /** Every ordering of distinct items comes from some picks. */
  lemma {:induction false} ShuffleReaches<T>(s: seq<T>, k: nat, t: seq<T>) returns (picks: seq<nat>)
    requires Distinct(s) && Distinct(t) && k <= |s| && |t| == |s| && multiset(s) == multiset(t) && s[k..] == t[k..]
    ensures Picking(picks, k) && FisherYates(s, k, picks) == t
    decreases k
  {
    if k <= 1 {
      picks := [];
      OneLeft(s, k, t);
    } else {
      var j := Place(s, k, t);
      PutInPlace(s, k, t, j);
      hide Swap, Distinct;
      var rest := ShuffleReaches(Swap(s, k - 1, j), k - 1, t);
      picks := [j] + rest;
      assert picks[1..] == rest && picks[0] == j;
    }
  }

  /** The item that belongs at position `k - 1` still stands among the first `k`. */
  lemma Place<T>(s: seq<T>, k: nat, t: seq<T>) returns (j: nat)
    requires Distinct(t) && 1 <= k <= |s| && |t| == |s| && multiset(s) == multiset(t) && s[k..] == t[k..]
    ensures j < k && s[j] == t[k - 1]
  {
    assert t[k - 1] in multiset(t);
    assert t[k - 1] in s;
    assert forall i :: k <= i < |s| ==> s[i] == s[k..][i - k] && t[i] == t[k..][i - k];
    var i :| 0 <= i < |s| && s[i] == t[k - 1];
    j := i;
  }

  /** One swap by the next draw is one step of the shuffle. */
  lemma ShuffleStep<T>(now: seq<T>, k: nat, st: State, j: nat)
    requires 1 < k <= |now| && k < TWO64 && j == Scaled(Scramble(st.s1), k) && j < k
    ensures FisherYates(now, k, Picks(st, k)) == FisherYates(Swap(now, k - 1, j), k - 1, Picks(Step(st), k - 1))
  {
    hide Step, Scramble, Scaled, Swap;
    var draws := Picks(st, k);
    assert draws[0] == j && draws[1..] == Picks(Step(st), k - 1);
  }

  class Generator {
    var state: State

    constructor (seed: Word)
      ensures state == Seeded(seed) && state != NOWHERE
    {
      SeededIsSound(seed, seed);
      var split := Plus(seed, GAMMA);
      var a := Mix(split);
      split := Plus(split, GAMMA);
      var b := Mix(split);
      split := Plus(split, GAMMA);
      var c := Mix(split);
      split := Plus(split, GAMMA);
      state := State(a, b, c, Mix(split));
    }

    method NextU64() returns (r: Word)
      modifies this
      ensures state == Step(old(state)) && r == Scramble(old(state).s1)
    {
      r := Times(RotateLeft(Times(state.s1, 5), 7), 9);
      var shifted := Shl(state.s1, 17);
      state := state.(s2 := Xor(state.s2, state.s0));
      state := state.(s3 := Xor(state.s3, state.s1));
      state := state.(s1 := Xor(state.s1, state.s2));
      state := state.(s0 := Xor(state.s0, state.s3));
      state := state.(s2 := Xor(state.s2, shifted));
      state := state.(s3 := RotateLeft(state.s3, 45));
    }

    method Below(n: nat) returns (r: nat)
      requires 1 <= n < TWO64
      modifies this
      ensures r < n && r == Scaled(Scramble(old(state).s1), n) && state == Step(old(state))
      ensures r * TWO64 <= Value(Scramble(old(state).s1)) * n < (r + 1) * TWO64
    {
      var w := NextU64();
      ScaledBelow(w, n);
      ScaledIs(w, n, Scaled(w, n));
      hide Value, Scramble, Step;
      r := (Value(w) * n) / TWO64;
    }

    method Range(low: nat, high: nat) returns (r: nat)
      requires low <= high < TWO64 && high - low < TWO64 - 1
      modifies this
      ensures low <= r <= high && state == Step(old(state))
      ensures r == low + Scaled(Scramble(old(state).s1), high - low + 1)
    {
      var d := Below(high - low + 1);
      r := low + d;
    }

    /** `slice::swap`. */
    static method Exchange<T>(items: array<T>, i: nat, j: nat)
      requires i < items.Length && j < items.Length
      modifies items
      ensures items[..] == Swap(old(items[..]), i, j)
    {
      items[i], items[j] := items[j], items[i];
    }

    /** In place; every swap is inside the slice. */
    method Shuffle<T>(items: array<T>)
      requires items.Length < TWO64
      modifies this, items
      ensures items[..] == FisherYates(old(items[..]), items.Length, Picks(old(state), items.Length))
      ensures multiset(items[..]) == multiset(old(items[..]))
    {
      ghost var (s, n, st) := (items[..], items.Length, state);
      var k: nat := items.Length;
      while k > 1
        invariant k <= n
        invariant FisherYates(items[..], k, Picks(state, k)) == FisherYates(s, n, Picks(st, n))
      {
        ghost var (now, was) := (items[..], state);
        var j := Below(k);
        ShuffleStep(now, k, was, j);
        hide FisherYates, Picks, Step, Scramble, Scaled;
        Exchange(items, k - 1, j);
        k := k - 1;
      }
      ShufflePermutes(s, n, Picks(st, n));
    }
  }
}
