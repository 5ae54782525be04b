/**
 Nested code fences (markdown-renderer.js): the stack scan that finds which delimiters must grow, and
 what the rewrite buys, checked against a flat fence reader in the manner of section 4.5 of the
 CommonMark specification.
 */
module Fences {
  import opened Common

  /** What FENCE_RE reads off a line: delimiter character and length, and whether the info string is blank. */
  datatype Fence = Fence(ch: char, len: nat, bare: bool)

  datatype Frame = Frame(line: nat, ch: char, len: nat, maxInner: nat)

  /** An opener and the closer the scan matched it with; `depth` counts the fences around them. */
  datatype Pair = Pair(open: nat, close: nat, depth: nat)

  /** The scan's stack and upgrades, and for the record the pairs and the closers left longer than their openers. */
  datatype Scan = Scan(stack: seq<Frame>, upgrades: map<nat, nat>, pairs: seq<Pair>, loose: set<nat>)

  const EMPTY_SCAN := Scan([], map[], [], {})

  type Lines = seq<Option<Fence>>

  function Top(stack: seq<Frame>): Frame
    requires stack != []
  {
    stack[|stack| - 1]
  }

  /** The fence-close rule: same character, at least the top's length, no info string. */
  predicate Closes(stack: seq<Frame>, f: Fence) {
    stack != [] && f.ch == Top(stack).ch && f.len >= Top(stack).len && f.bare
  }

  /** Raises the innermost open fence's record of the longest fence inside it. */
  function Note(stack: seq<Frame>, len: nat): seq<Frame> {
    if stack == [] || len <= Top(stack).maxInner then stack
    else stack[|stack| - 1 := Top(stack).(maxInner := len)]
  }

  function Upgraded(s: Scan, i: nat): map<nat, nat>
    requires s.stack != []
  {
    var top := Top(s.stack);
    if top.maxInner > 0 && top.len <= top.maxInner
    then s.upgrades[top.line := top.maxInner + 1][i := top.maxInner + 1] else s.upgrades
  }

  function Step(s: Scan, i: nat, f: Fence): Scan {
    if Closes(s.stack, f) then
      var top := Top(s.stack);
      var ups := Upgraded(s, i);
      var effective := if top.line in ups then ups[top.line] else top.len;
      var rest := s.stack[..|s.stack| - 1];
      Scan(Note(rest, effective), ups, s.pairs + [Pair(top.line, i, |rest|)],
           if f.len > top.len && i !in ups then s.loose + {i} else s.loose)
    else
      Scan(Note(s.stack, f.len) + [Frame(i, f.ch, f.len, 0)], s.upgrades, s.pairs, s.loose)
  }

  /** The scan of the first `i` lines. */
  function ScanTo(fs: Lines, i: nat): Scan
    requires i <= |fs|
  {
    if i == 0 then EMPTY_SCAN
    else if fs[i - 1].None? then ScanTo(fs, i - 1)
    else Step(ScanTo(fs, i - 1), i - 1, fs[i - 1].value)
  }

  function ScanAll(fs: Lines): Scan { ScanTo(fs, |fs|) }

  /** The scan leaves no fence open. */
  predicate Balanced(fs: Lines) { ScanAll(fs).stack == [] }

  /** The length of fence line `i` after the rewrite. */
  function LenAfter(fs: Lines, ups: map<nat, nat>, i: nat): nat
    requires i < |fs| && fs[i].Some?
  {
    if i in ups then ups[i] else fs[i].value.len
  }

  function Rewritten(fs: Lines, ups: map<nat, nat>): Lines {
    seq(|fs|, i requires 0 <= i < |fs| => if fs[i].Some? then Some(fs[i].value.(len := LenAfter(fs, ups, i))) else None)
  }

  // ---- the scan's invariant ---------------------------------------------------------------------------

  ghost predicate IsFence(fs: Lines, i: int) { 0 <= i < |fs| && fs[i].Some? }

  /** Frame `j` of the stack stands for a fence line of its own. */
  ghost predicate FrameOk(fs: Lines, s: Scan, n: nat, j: nat)
    requires j < |s.stack|
  {
    var f := s.stack[j];
    f.line < n && IsFence(fs, f.line) && f.ch == fs[f.line].value.ch && f.len == fs[f.line].value.len
    && f.line !in s.upgrades && f.line !in s.loose
  }

  /** The next open line above frame `j`, or the scan position. */
  function NextLine(s: Scan, n: nat, j: nat): nat
    requires j < |s.stack|
  {
    if j + 1 < |s.stack| then s.stack[j + 1].line else n
  }

  /** The longest fence frame `j` knows bounds everything directly inside it but loose closers, and the next opener. */
  ghost predicate GapOk(fs: Lines, s: Scan, n: nat, j: nat)
    requires n <= |fs| && j < |s.stack|
  {
    var f := s.stack[j];
    && (j + 1 < |s.stack| ==> f.line < s.stack[j + 1].line && s.stack[j + 1].len <= f.maxInner)
    && forall m :: f.line < m < NextLine(s, n, j) && IsFence(fs, m) && m !in s.loose ==>
         LenAfter(fs, s.upgrades, m) <= f.maxInner
  }

  /** A matched pair is longer than everything between its lines but loose closers; it has one length unless loose. */
  ghost predicate PairOk(fs: Lines, s: Scan, n: nat, p: Pair) {
    && p.open < p.close < n && IsFence(fs, p.open) && IsFence(fs, p.close)
    && fs[p.open].value.ch == fs[p.close].value.ch && fs[p.close].value.bare
    && (if p.close in s.loose then LenAfter(fs, s.upgrades, p.open) < LenAfter(fs, s.upgrades, p.close)
        else LenAfter(fs, s.upgrades, p.open) == LenAfter(fs, s.upgrades, p.close))
    && (forall m :: p.open < m < p.close && IsFence(fs, m) && m !in s.loose ==>
          LenAfter(fs, s.upgrades, m) < LenAfter(fs, s.upgrades, p.open))
    && (forall j :: 0 <= j < |s.stack| ==> s.stack[j].line < p.open || p.close < s.stack[j].line)
  }

  ghost predicate UpgradesOk(fs: Lines, s: Scan, n: nat) {
    && (forall k :: k in s.upgrades ==> k < n && IsFence(fs, k) && s.upgrades[k] > 3)
    && (forall k :: k in s.loose ==> k < n && k !in s.upgrades)
  }

  ghost predicate Inv(fs: Lines, s: Scan, n: nat) {
    && n <= |fs|
    && UpgradesOk(fs, s, n)
    && (forall j :: 0 <= j < |s.stack| ==> FrameOk(fs, s, n, j) && GapOk(fs, s, n, j))
    && (forall k :: 0 <= k < |s.pairs| ==> PairOk(fs, s, n, s.pairs[k]))
  }

  ghost predicate LongEnough(fs: Lines) {
    forall i :: IsFence(fs, i) ==> fs[i].value.len >= 3
  }

  lemma PushKeepsInv(fs: Lines, s: Scan, n: nat)
    requires Inv(fs, s, n) && IsFence(fs, n) && !Closes(s.stack, fs[n].value)
    ensures Inv(fs, Step(s, n, fs[n].value), n + 1)
  {
    var (next, top) := (n + 1, |s.stack|);
    var t := Step(s, n, fs[n].value);
    assert forall j :: 0 <= j < top ==> t.stack[j].line == s.stack[j].line && t.stack[j].len == s.stack[j].len
                                        && t.stack[j].ch == s.stack[j].ch && t.stack[j].maxInner >= s.stack[j].maxInner;
    forall j | 0 <= j < |t.stack|
      ensures FrameOk(fs, t, next, j) && GapOk(fs, t, next, j)
    {
      if j < top {
        assert FrameOk(fs, s, n, j) && GapOk(fs, s, n, j);
        assert NextLine(t, next, j) == NextLine(s, n, j);
      }
    }
    forall k | 0 <= k < |t.pairs|
      ensures PairOk(fs, t, next, t.pairs[k])
    {
      assert PairOk(fs, s, n, s.pairs[k]);
    }
  }

  lemma {:induction false} StackRises(fs: Lines, s: Scan, n: nat, i: nat, j: nat)
    requires Inv(fs, s, n) && i <= j < |s.stack|
    ensures i < j ==> s.stack[i].line < s.stack[j].line
  {
    if i < j {
      assert GapOk(fs, s, n, j - 1);
      StackRises(fs, s, n, i, j - 1);
    }
  }

  /** What closing the top does to the lengths: its two lines end above all inside; no other line moves. */
  lemma PopLengths(fs: Lines, s: Scan, n: nat)
    requires Inv(fs, s, n) && LongEnough(fs) && IsFence(fs, n) && Closes(s.stack, fs[n].value)
    ensures var (t, top) := (Step(s, n, fs[n].value), Top(s.stack));
            && IsFence(fs, top.line) && top.line < n
            && LenAfter(fs, t.upgrades, top.line) > top.maxInner
            && (if n in t.loose then LenAfter(fs, t.upgrades, top.line) < LenAfter(fs, t.upgrades, n)
                else LenAfter(fs, t.upgrades, top.line) == LenAfter(fs, t.upgrades, n))
            && (forall m :: IsFence(fs, m) && m != top.line && m != n ==>
                LenAfter(fs, t.upgrades, m) == LenAfter(fs, s.upgrades, m))
            && (forall m :: m != n ==> (m in t.loose <==> m in s.loose))
            && UpgradesOk(fs, t, n + 1)
  {
    assert FrameOk(fs, s, n, |s.stack| - 1);
  }

  lemma PopKeepsInv(fs: Lines, s: Scan, n: nat)
    requires Inv(fs, s, n) && LongEnough(fs) && IsFence(fs, n) && Closes(s.stack, fs[n].value)
    ensures Inv(fs, Step(s, n, fs[n].value), n + 1)
  {
    hide Upgraded, LongEnough, UpgradesOk;
    var (next, k) := (n + 1, |s.stack| - 1);
    var t := Step(s, n, fs[n].value);
    PopLengths(fs, s, n);
    PopStack(s, n, fs[n].value);
    forall j | 0 <= j < |t.stack|
      ensures FrameOk(fs, t, next, j) && GapOk(fs, t, next, j)
    {
      PopFrame(fs, s, n, j);
    }
    forall i | 0 <= i < |t.pairs|
      ensures PairOk(fs, t, next, t.pairs[i])
    {
      if i < |s.pairs| {
        PopOldPair(fs, s, n, i);
      } else {
        PopNewPair(fs, s, n);
      }
    }
  }

  lemma PopStack(s: Scan, n: nat, f: Fence)
    requires Closes(s.stack, f)
    ensures var t := Step(s, n, f);
            && |t.stack| == |s.stack| - 1 && |t.pairs| == |s.pairs| + 1
            && t.pairs[|s.pairs|] == Pair(Top(s.stack).line, n, |s.stack| - 1)
            && (forall i :: 0 <= i < |s.pairs| ==> t.pairs[i] == s.pairs[i])
            && forall j :: 0 <= j < |t.stack| ==> t.stack[j].line == s.stack[j].line
  {
    hide Upgraded;
  }

  lemma PopOldPair(fs: Lines, s: Scan, n: nat, i: nat)
    requires Inv(fs, s, n) && LongEnough(fs) && IsFence(fs, n) && Closes(s.stack, fs[n].value) && i < |s.pairs|
    ensures PairOk(fs, Step(s, n, fs[n].value), n + 1, s.pairs[i])
  {
    hide LongEnough, UpgradesOk, Step, GapOk, LenAfter;
    var (p, k) := (s.pairs[i], |s.stack| - 1);
    PopLengths(fs, s, n);
    PopStack(s, n, fs[n].value);
    assert PairOk(fs, s, n, p);
    assert s.stack[k].line < p.open || p.close < s.stack[k].line;
  }

  lemma PopNewPair(fs: Lines, s: Scan, n: nat)
    requires Inv(fs, s, n) && LongEnough(fs) && IsFence(fs, n) && Closes(s.stack, fs[n].value)
    ensures PairOk(fs, Step(s, n, fs[n].value), n + 1, Pair(Top(s.stack).line, n, |s.stack| - 1))
  {
    var (t, top, k) := (Step(s, n, fs[n].value), Top(s.stack), |s.stack| - 1);
    PopLengths(fs, s, n);
    PopStack(s, n, fs[n].value);
    assert FrameOk(fs, s, n, k) && GapOk(fs, s, n, k);
    forall j | 0 <= j < |t.stack|
      ensures t.stack[j].line < top.line
    {
      StackRises(fs, s, n, j, k);
    }
    hide LongEnough, UpgradesOk, Step, PairOk;
    forall m | top.line < m < n && IsFence(fs, m) && m !in t.loose
      ensures LenAfter(fs, t.upgrades, m) < LenAfter(fs, t.upgrades, top.line)
    {
      assert LenAfter(fs, s.upgrades, m) <= top.maxInner;
    }
    PairIs(fs, t, n + 1, Pair(top.line, n, k));
  }

  lemma PairIs(fs: Lines, s: Scan, n: nat, p: Pair)
    requires p.open < p.close < n && IsFence(fs, p.open) && IsFence(fs, p.close)
    requires fs[p.open].value.ch == fs[p.close].value.ch && fs[p.close].value.bare
    requires if p.close in s.loose then LenAfter(fs, s.upgrades, p.open) < LenAfter(fs, s.upgrades, p.close)
             else LenAfter(fs, s.upgrades, p.open) == LenAfter(fs, s.upgrades, p.close)
    requires forall m :: p.open < m < p.close && IsFence(fs, m) && m !in s.loose ==>
               LenAfter(fs, s.upgrades, m) < LenAfter(fs, s.upgrades, p.open)
    requires forall j :: 0 <= j < |s.stack| ==> s.stack[j].line < p.open
    ensures PairOk(fs, s, n, p)
  {
  }

  lemma PopFrame(fs: Lines, s: Scan, n: nat, j: nat)
    requires Inv(fs, s, n) && LongEnough(fs) && IsFence(fs, n) && Closes(s.stack, fs[n].value) && j < |s.stack| - 1
    ensures var t := Step(s, n, fs[n].value);
            |t.stack| == |s.stack| - 1 && FrameOk(fs, t, n + 1, j) && GapOk(fs, t, n + 1, j)
  {
    hide LongEnough, UpgradesOk;
    var (k, t, top) := (|s.stack| - 1, Step(s, n, fs[n].value), Top(s.stack));
    PopLengths(fs, s, n);
    assert FrameOk(fs, s, n, j) && GapOk(fs, s, n, j);
    assert FrameOk(fs, s, n, k) && GapOk(fs, s, n, k);
    StackRises(fs, s, n, j, k);
    StackRises(fs, s, n, j + 1, k);
    assert t.stack[j].line == s.stack[j].line && t.stack[j].maxInner >= s.stack[j].maxInner;
    var f := t.stack[j];
    if j == k - 1 {
      assert f.maxInner >= LenAfter(fs, t.upgrades, top.line);
      forall m | f.line < m < n + 1 && IsFence(fs, m) && m !in t.loose
        ensures LenAfter(fs, t.upgrades, m) <= f.maxInner
      {
        if m < top.line {
          assert LenAfter(fs, s.upgrades, m) <= s.stack[j].maxInner;
        } else if top.line < m < n {
          assert LenAfter(fs, s.upgrades, m) <= top.maxInner;
        }
      }
    } else {
      assert NextLine(t, n + 1, j) == NextLine(s, n, j) <= top.line;
    }
  }

  lemma {:induction false} ScanInv(fs: Lines, n: nat)
    requires n <= |fs| && LongEnough(fs)
    ensures Inv(fs, ScanTo(fs, n), n)
  {
    hide Inv, LongEnough, Note, Upgraded, Step;
    if n == 0 {
      EmptyInv(fs);
    } else {
      ScanInv(fs, n - 1);
      if fs[n - 1].None? {
        SkipKeepsInv(fs, ScanTo(fs, n - 1), n - 1);
      } else if Closes(ScanTo(fs, n - 1).stack, fs[n - 1].value) {
        PopKeepsInv(fs, ScanTo(fs, n - 1), n - 1);
      } else {
        PushKeepsInv(fs, ScanTo(fs, n - 1), n - 1);
      }
    }
  }

  lemma EmptyInv(fs: Lines)
    ensures Inv(fs, EMPTY_SCAN, 0)
  {
  }

  lemma SkipKeepsInv(fs: Lines, s: Scan, n: nat)
    requires Inv(fs, s, n) && n < |fs| && fs[n].None?
    ensures Inv(fs, s, n + 1)
  {
    var next := n + 1;
    forall j | 0 <= j < |s.stack|
      ensures FrameOk(fs, s, next, j) && GapOk(fs, s, next, j)
    {
      assert FrameOk(fs, s, n, j) && GapOk(fs, s, n, j);
    }
    forall k | 0 <= k < |s.pairs|
      ensures PairOk(fs, s, next, s.pairs[k])
    {
      assert PairOk(fs, s, n, s.pairs[k]);
    }
  }

  /**
   In every rewritten text, balanced or not, a matched fence is strictly longer than every fence line
   inside it, loose closers apart, and has one length unless its own closer is loose.
   */
  lemma StrictNesting(fs: Lines, k: nat)
    requires LongEnough(fs) && k < |ScanAll(fs).pairs|
    ensures PairOk(fs, ScanAll(fs), |fs|, ScanAll(fs).pairs[k])
  {
    hide ScanTo, LongEnough, PairOk;
    ScanInv(fs, |fs|);
  }

  // ---- what the rest of the text does to an open fence ----------------------------------------------------

  /** Pairs are only ever added, and each line's place among the loose closers is settled when it is read. */
  lemma {:induction false} PairsGrow(fs: Lines, i: nat)
    requires i <= |fs|
    ensures ScanTo(fs, i).pairs <= ScanAll(fs).pairs
    ensures forall m :: m < i ==> (m in ScanAll(fs).loose <==> m in ScanTo(fs, i).loose)
    decreases |fs| - i
  {
    hide Step;
    if i < |fs| {
      PairsGrow(fs, i + 1);
      if fs[i].Some? {
        StepAdds(ScanTo(fs, i), i, fs[i].value);
        hide ScanAll;
      }
    }
  }

  lemma StepAdds(s: Scan, i: nat, f: Fence)
    ensures var t := Step(s, i, f);
            s.pairs <= t.pairs && forall m :: m != i ==> (m in t.loose <==> m in s.loose)
  {
    hide Note, Upgraded;
  }

  lemma {:induction false} LooseBefore(fs: Lines, i: nat)
    requires i <= |fs|
    ensures forall m :: m in ScanTo(fs, i).loose ==> m < i
  {
    hide Note, Upgraded;
    if i > 0 {
      LooseBefore(fs, i - 1);
    }
  }

  /** A line that does not close a fence is not loose. */
  lemma OpenersAreNotLoose(fs: Lines, i: nat)
    requires IsFence(fs, i) && !Closes(ScanTo(fs, i).stack, fs[i].value)
    ensures i !in ScanAll(fs).loose
  {
    hide Note, Upgraded;
    PairsGrow(fs, i + 1);
    LooseBefore(fs, i);
  }

  lemma StepStack(s: Scan, i: nat, f: Fence)
    ensures var t := Step(s, i, f);
            && |t.stack| == (if Closes(s.stack, f) then |s.stack| - 1 else |s.stack| + 1)
            && (forall j :: 0 <= j < |s.stack| && j < |t.stack| ==>
                t.stack[j].line == s.stack[j].line && t.stack[j].ch == s.stack[j].ch)
            && (!Closes(s.stack, f) ==> t.stack[|s.stack|].line == i)
  {
    hide Upgraded;
  }

  /** In a balanced text an open fence is closed at a later line. */
  lemma {:induction false} ClosedLater(fs: Lines, i: nat, j: nat) returns (k: nat)
    requires i <= |fs| && Balanced(fs) && j < |ScanTo(fs, i).stack|
    ensures k < |ScanAll(fs).pairs|
    ensures ScanAll(fs).pairs[k].open == ScanTo(fs, i).stack[j].line && ScanAll(fs).pairs[k].close >= i
    decreases |fs| - i
  {
    hide Note, Upgraded;
    var s := ScanTo(fs, i);
    if i < |fs| {
      var t := ScanTo(fs, i + 1);
      if fs[i].Some? {
        StepStack(s, i, fs[i].value);
      }
      if j < |t.stack| {
        assert t.stack[j].line == s.stack[j].line;
        k := ClosedLater(fs, i + 1, j);
      } else {
        PairsGrow(fs, i + 1);
        k := |s.pairs|;
        assert t.pairs[k] == Pair(s.stack[j].line, i, j);
      }
    }
  }

  /** In a balanced text a line inside a fence that is still open behind it ends up shorter than it, unless loose. */
  lemma InsideIsShorter(fs: Lines, i: nat, j: nat)
    requires LongEnough(fs) && Balanced(fs) && IsFence(fs, i) && i !in ScanAll(fs).loose
    requires j < |ScanTo(fs, i + 1).stack| && ScanTo(fs, i + 1).stack[j].line < i
    ensures var (l, ups) := (ScanTo(fs, i + 1).stack[j].line, ScanAll(fs).upgrades);
            IsFence(fs, l) && LenAfter(fs, ups, i) < LenAfter(fs, ups, l)
  {
    hide ScanTo, LongEnough;
    var k := ClosedLater(fs, i + 1, j);
    StrictNesting(fs, k);
  }

  /** The pair a closing line makes, with the lengths both lines end up with. */
  lemma ClosingPair(fs: Lines, i: nat)
    requires LongEnough(fs) && IsFence(fs, i) && Closes(ScanTo(fs, i).stack, fs[i].value)
    ensures var (s, ups) := (ScanTo(fs, i), ScanAll(fs).upgrades);
            var top := Top(s.stack);
            && |s.pairs| < |ScanAll(fs).pairs| && ScanAll(fs).pairs[|s.pairs|] == Pair(top.line, i, |s.stack| - 1)
            && PairOk(fs, ScanAll(fs), |fs|, Pair(top.line, i, |s.stack| - 1))
  {
    hide Note, Upgraded, LongEnough, PairOk;
    var s := ScanTo(fs, i);
    PairsGrow(fs, i + 1);
    assert ScanTo(fs, i + 1).pairs[|s.pairs|] == Pair(Top(s.stack).line, i, |s.stack| - 1);
    StrictNesting(fs, |s.pairs|);
  }

  /** A line closes one fence at most, and only where the scan closed one. */
  lemma {:induction false} OneCloser(fs: Lines, n: nat, p: Pair)
    requires n <= |fs| && p in ScanTo(fs, n).pairs
    ensures p.close < n && IsFence(fs, p.close) && Closes(ScanTo(fs, p.close).stack, fs[p.close].value)
    ensures var stack := ScanTo(fs, p.close).stack; p == Pair(Top(stack).line, p.close, |stack| - 1)
  {
    hide Note, Upgraded;
    if n > 0 {
      var s := ScanTo(fs, n - 1);
      if p in s.pairs {
        OneCloser(fs, n - 1, p);
      }
    }
  }

  // ---- the flat reader ------------------------------------------------------------------------------------

  datatype OpenFence = OpenFence(line: nat, ch: char, len: nat)
  datatype FlatRead = FlatRead(open: Option<OpenFence>, pairs: seq<(nat, nat)>)

  /** A reader without nesting: inside a fence only its closer counts. */
  function FlatStep(r: FlatRead, i: nat, f: Fence): FlatRead {
    if r.open.None? then r.(open := Some(OpenFence(i, f.ch, f.len)))
    else if f.ch == r.open.value.ch && f.len >= r.open.value.len && f.bare
    then FlatRead(None, r.pairs + [(r.open.value.line, i)])
    else r
  }

  function FlatTo(fs: Lines, i: nat): FlatRead
    requires i <= |fs|
  {
    if i == 0 then FlatRead(None, [])
    else if fs[i - 1].None? then FlatTo(fs, i - 1)
    else FlatStep(FlatTo(fs, i - 1), i - 1, fs[i - 1].value)
  }

  /** The pairs that no other fence encloses. */
  function Outermost(pairs: seq<Pair>): seq<(nat, nat)> {
    if pairs == [] then []
    else
      var p := pairs[|pairs| - 1];
      Outermost(pairs[..|pairs| - 1]) + if p.depth == 0 then [(p.open, p.close)] else []
  }

  /**
   The flat reader is inside a fence exactly while the scan's stack is not empty, and that fence is
   the stack's bottom, at its rewritten length.
   */
  ghost predicate FlatAs(fs: Lines, ups: map<nat, nat>, s: Scan, r: FlatRead, i: nat) {
    && r.pairs == Outermost(s.pairs)
    && (s.stack == [] ==> r.open == None)
    && (s.stack != [] ==> IsFence(fs, s.stack[0].line) && s.stack[0].line < i
                          && var f := s.stack[0];
                             r.open == Some(OpenFence(f.line, f.ch, LenAfter(fs, ups, f.line))))
  }

  /**
   Line `i` closes an inner fence and is left longer than its opener, of the character of the outermost
   fence around it and at least as long as that fence ends up: a flat reader takes it for that fence's closer.
   */
  ghost predicate Intrudes(fs: Lines, i: nat) {
    && IsFence(fs, i) && i in ScanAll(fs).loose && |ScanTo(fs, i).stack| > 1
    && var outer := ScanTo(fs, i).stack[0];
       && fs[i].value.ch == outer.ch && IsFence(fs, outer.line)
       && fs[i].value.len >= LenAfter(fs, ScanAll(fs).upgrades, outer.line)
  }

  lemma {:induction false} FlatFollows(fs: Lines, i: nat)
    requires i <= |fs| && LongEnough(fs) && Balanced(fs) && forall m :: 0 <= m < i ==> !Intrudes(fs, m)
    ensures FlatAs(fs, ScanAll(fs).upgrades, ScanTo(fs, i), FlatTo(Rewritten(fs, ScanAll(fs).upgrades), i), i)
  {
    hide Note, Upgraded, LongEnough, PairOk, Balanced, ScanAll, Step, FlatStep, FlatAs, Closes, Intrudes, MeetsInside;
    var ups := ScanAll(fs).upgrades;
    if i == 0 {
      FlatStarts(fs, ups);
    } else {
      FlatFollows(fs, i - 1);
      var (s, r) := (ScanTo(fs, i - 1), FlatTo(Rewritten(fs, ups), i - 1));
      if fs[i - 1].Some? {
        FlatNow(fs, i - 1);
        assert !Intrudes(fs, i - 1);
        FlatFollowsStep(fs, ups, s, r, i - 1);
      } else {
        FlatSkips(fs, ups, s, r, i - 1);
      }
    }
  }

  lemma FlatStarts(fs: Lines, ups: map<nat, nat>)
    ensures FlatAs(fs, ups, EMPTY_SCAN, FlatRead(None, []), 0)
  {
  }

  lemma FlatSkips(fs: Lines, ups: map<nat, nat>, s: Scan, r: FlatRead, i: nat)
    requires FlatAs(fs, ups, s, r, i)
    ensures FlatAs(fs, ups, s, r, i + 1)
  {
  }

  /** What the reader meets at line `i`: the closer of the fence it is in, an intruder, or a fence it reads past. */
  ghost predicate MeetsInside(fs: Lines, ups: map<nat, nat>, s: Scan, i: nat, intrudes: bool) {
    s.stack != [] && IsFence(fs, i) && IsFence(fs, s.stack[0].line) ==>
      var (f, now, outer) := (fs[i].value, LenAfter(fs, ups, i), LenAfter(fs, ups, s.stack[0].line));
      if Closes(s.stack, f) && |s.stack| == 1 then now >= outer
      else (f.ch == s.stack[0].ch && f.bare && now >= outer) <==> intrudes
  }

  lemma FlatNow(fs: Lines, i: nat)
    requires LongEnough(fs) && Balanced(fs) && IsFence(fs, i)
    requires FlatAs(fs, ScanAll(fs).upgrades, ScanTo(fs, i), FlatTo(Rewritten(fs, ScanAll(fs).upgrades), i), i)
    ensures MeetsInside(fs, ScanAll(fs).upgrades, ScanTo(fs, i), i, Intrudes(fs, i))
  {
    hide Note, Upgraded, LongEnough, Balanced, ScanAll, Step, ScanTo;
    var s := ScanTo(fs, i);
    if s.stack != [] {
      if i in ScanAll(fs).loose {
        LooseCloses(fs, i);
        ClosingPair(fs, i);
        LooseKeepsLength(fs, i);
      } else if Closes(s.stack, fs[i].value) && |s.stack| == 1 {
        ClosingPair(fs, i);
      } else {
        StillOpen(fs, i);
        InsideIsShorter(fs, i, 0);
      }
    }
  }

  lemma StillOpen(fs: Lines, i: nat)
    requires IsFence(fs, i) && ScanTo(fs, i).stack != []
    requires |ScanTo(fs, i).stack| > 1 || !Closes(ScanTo(fs, i).stack, fs[i].value)
    ensures |ScanTo(fs, i + 1).stack| > 0 && ScanTo(fs, i + 1).stack[0].line == ScanTo(fs, i).stack[0].line
  {
    hide Note, Upgraded, Step;
    StepStack(ScanTo(fs, i), i, fs[i].value);
  }

  lemma LooseCloses(fs: Lines, i: nat)
    requires IsFence(fs, i) && i in ScanAll(fs).loose
    ensures Closes(ScanTo(fs, i).stack, fs[i].value)
  {
    hide ScanTo, Closes;
    if !Closes(ScanTo(fs, i).stack, fs[i].value) {
      OpenersAreNotLoose(fs, i);
    }
  }

  lemma LooseKeepsLength(fs: Lines, i: nat)
    requires LongEnough(fs) && IsFence(fs, i) && i in ScanAll(fs).loose
    ensures LenAfter(fs, ScanAll(fs).upgrades, i) == fs[i].value.len
  {
    hide ScanTo, LongEnough;
    ScanInv(fs, |fs|);
  }

  lemma FlatFollowsStep(fs: Lines, ups: map<nat, nat>, s: Scan, r: FlatRead, i: nat)
    requires FlatAs(fs, ups, s, r, i) && IsFence(fs, i) && MeetsInside(fs, ups, s, i, false)
    ensures FlatAs(fs, ups, Step(s, i, fs[i].value), FlatStep(r, i, fs[i].value.(len := LenAfter(fs, ups, i))), i + 1)
  {
    hide Note, Upgraded;
    var t := Step(s, i, fs[i].value);
    StepStack(s, i, fs[i].value);
    if Closes(s.stack, fs[i].value) {
      assert t.pairs[..|s.pairs|] == s.pairs;
    }
  }

  /** At an intruder the flat reader pairs the outermost opener with it. */
  lemma FlatIntruded(fs: Lines, ups: map<nat, nat>, s: Scan, r: FlatRead, i: nat)
    requires FlatAs(fs, ups, s, r, i) && IsFence(fs, i) && MeetsInside(fs, ups, s, i, true) && |s.stack| > 1
    ensures var t := FlatStep(r, i, fs[i].value.(len := LenAfter(fs, ups, i)));
            (s.stack[0].line, i) in t.pairs
  {
    var t := FlatStep(r, i, fs[i].value.(len := LenAfter(fs, ups, i)));
    assert t.pairs == r.pairs + [(s.stack[0].line, i)];
  }

  lemma {:induction false} FlatPairsGrow(gs: Lines, i: nat, p: (nat, nat))
    requires i <= |gs| && p in FlatTo(gs, i).pairs
    ensures p in FlatTo(gs, |gs|).pairs
    decreases |gs| - i
  {
    if i < |gs| {
      FlatPairsGrow(gs, i + 1, p);
    }
  }

  lemma {:induction false} OutermostMember(pairs: seq<Pair>, p: (nat, nat))
    requires p in Outermost(pairs)
    ensures Pair(p.0, p.1, 0) in pairs
  {
    var n := |pairs| - 1;
    if p in Outermost(pairs[..n]) {
      OutermostMember(pairs[..n], p);
    }
  }

  /** The first intruder makes the flat reading differ from the nested one for good. */
  lemma IntruderShows(fs: Lines, i: nat)
    requires LongEnough(fs) && Balanced(fs) && i < |fs| && Intrudes(fs, i)
    requires forall m :: 0 <= m < i ==> !Intrudes(fs, m)
    ensures FlatTo(Rewritten(fs, ScanAll(fs).upgrades), |fs|).pairs != Outermost(ScanAll(fs).pairs)
  {
    hide LongEnough, Balanced, FlatAs, MeetsInside, FlatTo, FlatStep, Closes, Step, Note, Upgraded;
    var (ups, s) := (ScanAll(fs).upgrades, ScanTo(fs, i));
    var gs := Rewritten(fs, ups);
    FlatFollows(fs, i);
    FlatNow(fs, i);
    FlatIntruded(fs, ups, s, FlatTo(gs, i), i);
    FlatOne(gs, i);
    var p := (s.stack[0].line, i);
    FlatPairsGrow(gs, i + 1, p);
    if p in Outermost(ScanAll(fs).pairs) {
      OutermostMember(ScanAll(fs).pairs, p);
      OneCloser(fs, |fs|, Pair(p.0, p.1, 0));
    }
  }

  lemma FlatOne(gs: Lines, i: nat)
    requires IsFence(gs, i)
    ensures FlatTo(gs, i + 1) == FlatStep(FlatTo(gs, i), i, gs[i].value)
  {
  }

  /**
   A flat reader of a rewritten balanced text finds exactly the outermost fences the scan matched, and
   ends outside, if and only if no loose closer intrudes.
   */
  lemma FlatReadsOutermost(fs: Lines)
    requires LongEnough(fs) && Balanced(fs)
    ensures FlatTo(Rewritten(fs, ScanAll(fs).upgrades), |fs|) == FlatRead(None, Outermost(ScanAll(fs).pairs))
            <==> forall i :: 0 <= i < |fs| ==> !Intrudes(fs, i)
  {
    hide LongEnough, FlatTo, Intrudes;
    if forall i :: 0 <= i < |fs| ==> !Intrudes(fs, i) {
      FlatFollows(fs, |fs|);
    } else {
      var i := FirstIntruder(fs, |fs|);
      IntruderShows(fs, i);
    }
  }

  lemma {:induction false} FirstIntruder(fs: Lines, n: nat) returns (i: nat)
    requires n <= |fs| && exists m :: 0 <= m < n && Intrudes(fs, m)
    ensures i < n && Intrudes(fs, i) && forall m :: 0 <= m < i ==> !Intrudes(fs, m)
  {
    hide Intrudes;
    if exists m :: 0 <= m < n - 1 && Intrudes(fs, m) {
      i := FirstIntruder(fs, n - 1);
    } else {
      i := n - 1;
    }
  }

  /** A loose closer is longer than the opener of its pair. */
  lemma LooseIsLonger(fs: Lines, i: nat)
    requires LongEnough(fs) && IsFence(fs, i) && i in ScanAll(fs).loose
    ensures Closes(ScanTo(fs, i).stack, fs[i].value)
    ensures var open := Top(ScanTo(fs, i).stack).line;
            && IsFence(fs, open) && fs[i].value.len > fs[open].value.len
            && Pair(open, i, |ScanTo(fs, i).stack| - 1) in ScanAll(fs).pairs
  {
    hide Note, Upgraded, LongEnough, GapOk, PairOk, ScanTo, Step;
    var s := ScanTo(fs, i);
    LooseCloses(fs, i);
    LooseAtOnce(fs, i);
    ScanInv(fs, i);
    assert FrameOk(fs, s, i, |s.stack| - 1);
    ClosingPair(fs, i);
  }

  lemma LooseAtOnce(fs: Lines, i: nat)
    requires IsFence(fs, i) && i in ScanAll(fs).loose && Closes(ScanTo(fs, i).stack, fs[i].value)
    ensures fs[i].value.len > Top(ScanTo(fs, i).stack).len
  {
    hide Note, Upgraded;
    PairsGrow(fs, i + 1);
    LooseBefore(fs, i);
  }

  /** Where every closer is as long as its opener, nothing intrudes. */
  lemma EqualClosersDoNotIntrude(fs: Lines)
    requires LongEnough(fs)
    requires forall p :: p in ScanAll(fs).pairs && IsFence(fs, p.open) && IsFence(fs, p.close) ==>
               fs[p.close].value.len == fs[p.open].value.len
    ensures forall i :: 0 <= i < |fs| ==> !Intrudes(fs, i)
  {
    hide ScanTo, LongEnough, Closes;
    forall i | 0 <= i < |fs|
      ensures !Intrudes(fs, i)
    {
      if IsFence(fs, i) && i in ScanAll(fs).loose {
        LooseIsLonger(fs, i);
      }
    }
  }

  // ---- a second pass ----------------------------------------------------------------------------------------

  /**
   Line `i` opened a fence inside another, of its character and bare, and grew to at least the length
   that one ends up with: read again, it closes it. Only a fence that is never closed can be outgrown.
   */
  ghost predicate Outgrows(fs: Lines, i: nat) {
    && IsFence(fs, i) && ScanTo(fs, i).stack != [] && !Closes(ScanTo(fs, i).stack, fs[i].value)
    && var top := Top(ScanTo(fs, i).stack);
       && fs[i].value.ch == top.ch && fs[i].value.bare && IsFence(fs, top.line)
       && LenAfter(fs, ScanAll(fs).upgrades, i) >= LenAfter(fs, ScanAll(fs).upgrades, top.line)
  }

  /** In a balanced text nothing outgrows the fence around it. */
  lemma BalancedDoesNotOutgrow(fs: Lines, i: nat)
    requires LongEnough(fs) && Balanced(fs) && i < |fs|
    ensures !Outgrows(fs, i)
  {
    hide LongEnough, Balanced, Note, Upgraded, Step;
    if IsFence(fs, i) && ScanTo(fs, i).stack != [] && !Closes(ScanTo(fs, i).stack, fs[i].value) {
      var s := ScanTo(fs, i);
      OpenersAreNotLoose(fs, i);
      StepStack(s, i, fs[i].value);
      ScanInv(fs, i);
      assert FrameOk(fs, s, i, |s.stack| - 1);
      InsideIsShorter(fs, i, |s.stack| - 1);
    }
  }

  /** In the second scan every frame knows only fences inside it, at their rewritten lengths, and no loose closer. */
  ghost predicate KnowsInside(fs: Lines, full: Scan, f: Frame, i: nat) {
    f.maxInner == 0
    || exists m :: f.line < m < i && IsFence(fs, m) && m !in full.loose && LenAfter(fs, full.upgrades, m) == f.maxInner
  }

  /** The second scan runs as the first one did, with the rewritten lengths and nothing left to upgrade. */
  ghost predicate SecondAs(fs: Lines, full: Scan, s: Scan, t: Scan, i: nat) {
    && t.upgrades == map[] && t.pairs == s.pairs && |t.stack| == |s.stack|
    && forall j :: 0 <= j < |s.stack| ==>
         && IsFence(fs, s.stack[j].line) && s.stack[j].line < i
         && t.stack[j].line == s.stack[j].line && t.stack[j].ch == s.stack[j].ch
         && t.stack[j].len == LenAfter(fs, full.upgrades, s.stack[j].line)
         && KnowsInside(fs, full, t.stack[j], i)
  }

  function Again(fs: Lines): Lines { Rewritten(fs, ScanAll(fs).upgrades) }

  lemma {:induction false} SecondPass(fs: Lines, i: nat)
    requires i <= |fs| && LongEnough(fs) && forall m :: 0 <= m < i ==> !Outgrows(fs, m)
    ensures SecondAs(fs, ScanAll(fs), ScanTo(fs, i), ScanTo(Again(fs), i), i)
  {
    hide LongEnough, ScanAll, Step, SecondAs, Closes, Outgrows, MeetsTop;
    var full := ScanAll(fs);
    if i == 0 {
      SecondStarts(fs, full);
    } else {
      SecondPass(fs, i - 1);
      var (s, t) := (ScanTo(fs, i - 1), ScanTo(Again(fs), i - 1));
      if fs[i - 1].None? {
        SecondSkips(fs, full, s, t, i - 1);
      } else {
        assert !Outgrows(fs, i - 1);
        SecondNow(fs, i - 1);
        if Closes(s.stack, fs[i - 1].value) {
          SecondPop(fs, full, s, t, i - 1);
        } else {
          SecondPush(fs, full, s, t, i - 1);
        }
      }
    }
  }

  lemma SecondStarts(fs: Lines, full: Scan)
    ensures SecondAs(fs, full, EMPTY_SCAN, EMPTY_SCAN, 0)
  {
  }

  lemma SecondSkips(fs: Lines, full: Scan, s: Scan, t: Scan, i: nat)
    requires SecondAs(fs, full, s, t, i)
    ensures SecondAs(fs, full, s, t, i + 1)
  {
    var next := i + 1;
    forall j | 0 <= j < |s.stack|
      ensures KnowsInside(fs, full, t.stack[j], next)
    {
      assert KnowsInside(fs, full, t.stack[j], i);
    }
  }

  /** What the second scan meets at line `i`, against the fence on top of the stack. */
  ghost predicate MeetsTop(fs: Lines, full: Scan, s: Scan, i: nat) {
    IsFence(fs, i) && (!Closes(s.stack, fs[i].value) ==> i !in full.loose) &&
    (s.stack != [] && IsFence(fs, Top(s.stack).line) ==>
      var (f, top) := (fs[i].value, Top(s.stack));
      var (now, around) := (LenAfter(fs, full.upgrades, i), LenAfter(fs, full.upgrades, top.line));
      && (|s.stack| > 1 ==> s.stack[|s.stack| - 2].line < top.line) && top.line !in full.loose
      && if Closes(s.stack, f)
         then now >= around && forall m :: top.line < m < i && IsFence(fs, m) && m !in full.loose ==>
                                 LenAfter(fs, full.upgrades, m) < around
         else !(f.ch == top.ch && f.bare && now >= around))
  }

  lemma SecondNow(fs: Lines, i: nat)
    requires LongEnough(fs) && IsFence(fs, i) && !Outgrows(fs, i)
    ensures MeetsTop(fs, ScanAll(fs), ScanTo(fs, i), i)
  {
    hide Note, Upgraded, LongEnough, ScanTo, Step;
    var s := ScanTo(fs, i);
    if !Closes(s.stack, fs[i].value) {
      OpenersAreNotLoose(fs, i);
    }
    if s.stack != [] {
      TopFacts(fs, i);
      if Closes(s.stack, fs[i].value) {
        ClosingPair(fs, i);
      }
    }
  }

  lemma TopFacts(fs: Lines, i: nat)
    requires i <= |fs| && LongEnough(fs) && ScanTo(fs, i).stack != []
    ensures var s := ScanTo(fs, i).stack;
            Top(s).line !in ScanAll(fs).loose && (|s| > 1 ==> s[|s| - 2].line < s[|s| - 1].line)
  {
    hide ScanTo, LongEnough;
    var s := ScanTo(fs, i);
    PairsGrow(fs, i);
    ScanInv(fs, i);
    assert FrameOk(fs, s, i, |s.stack| - 1);
    if |s.stack| > 1 {
      assert GapOk(fs, s, i, |s.stack| - 2);
    }
  }

  lemma SecondPush(fs: Lines, full: Scan, s: Scan, t: Scan, i: nat)
    requires SecondAs(fs, full, s, t, i) && MeetsTop(fs, full, s, i) && !Closes(s.stack, fs[i].value)
    ensures SecondAs(fs, full, Step(s, i, fs[i].value),
                     Step(t, i, fs[i].value.(len := LenAfter(fs, full.upgrades, i))), i + 1)
  {
    hide Note;
    var f := fs[i].value.(len := LenAfter(fs, full.upgrades, i));
    assert !Closes(t.stack, f);
    var (s', t', next) := (Step(s, i, fs[i].value), Step(t, i, f), i + 1);
    PushedStack(s, i, fs[i].value);
    PushedStack(t, i, f);
    forall j | 0 <= j < |t'.stack|
      ensures KnowsInside(fs, full, t'.stack[j], next)
    {
      if j < |t.stack| {
        assert KnowsInside(fs, full, t.stack[j], i);
      }
    }
  }

  lemma PushedStack(s: Scan, i: nat, f: Fence)
    requires !Closes(s.stack, f)
    ensures var t := Step(s, i, f);
            && t.upgrades == s.upgrades
            && |t.stack| == |s.stack| + 1 && t.stack[|s.stack|] == Frame(i, f.ch, f.len, 0)
            && forall j :: 0 <= j < |s.stack| ==>
                 && t.stack[j].line == s.stack[j].line && t.stack[j].ch == s.stack[j].ch
                 && t.stack[j].len == s.stack[j].len
                 && (t.stack[j].maxInner == s.stack[j].maxInner || t.stack[j].maxInner == f.len)
  {
  }

  lemma SecondPop(fs: Lines, full: Scan, s: Scan, t: Scan, i: nat)
    requires SecondAs(fs, full, s, t, i) && MeetsTop(fs, full, s, i) && Closes(s.stack, fs[i].value)
    ensures SecondAs(fs, full, Step(s, i, fs[i].value),
                     Step(t, i, fs[i].value.(len := LenAfter(fs, full.upgrades, i))), i + 1)
  {
    var f := fs[i].value.(len := LenAfter(fs, full.upgrades, i));
    var k := |s.stack| - 1;
    assert KnowsInside(fs, full, t.stack[k], i);
    assert Closes(t.stack, f) && Upgraded(t, i) == map[];
    var (s', t', next) := (Step(s, i, fs[i].value), Step(t, i, f), i + 1);
    PoppedStack(s, i, fs[i].value);
    PoppedStack(t, i, f);
    hide Step, Upgraded, Closes, MeetsTop;
    forall j | 0 <= j < |t'.stack|
      ensures KnowsInside(fs, full, t'.stack[j], next)
    {
      assert KnowsInside(fs, full, t.stack[j], i);
      assert t'.stack[j].maxInner == t.stack[j].maxInner
             || (j == k - 1 && t'.stack[j].maxInner == LenAfter(fs, full.upgrades, s.stack[k].line));
    }
  }

  lemma PoppedStack(s: Scan, i: nat, f: Fence)
    requires Closes(s.stack, f)
    ensures var t := Step(s, i, f);
            && |t.stack| == |s.stack| - 1 && t.upgrades == Upgraded(s, i)
            && t.pairs == s.pairs + [Pair(Top(s.stack).line, i, |s.stack| - 1)]
            && forall j :: 0 <= j < |t.stack| ==>
                 && t.stack[j].line == s.stack[j].line && t.stack[j].ch == s.stack[j].ch
                 && t.stack[j].len == s.stack[j].len
                 && (t.stack[j].maxInner == s.stack[j].maxInner
                     || (j == |s.stack| - 2 && t.stack[j].maxInner ==
                         (var (ups, top) := (Upgraded(s, i), Top(s.stack));
                          if top.line in ups then ups[top.line] else top.len)))
  {
    hide Upgraded;
  }

  /** At the first line that outgrows its fence the second scan closes that fence, as the first scan never does. */
  lemma OutgrowingShows(fs: Lines, i: nat)
    requires LongEnough(fs) && i < |fs| && Outgrows(fs, i) && forall m :: 0 <= m < i ==> !Outgrows(fs, m)
    ensures ScanAll(Again(fs)).pairs != ScanAll(fs).pairs
  {
    hide LongEnough, Note, Upgraded;
    var (s, t, gs) := (ScanTo(fs, i), ScanTo(Again(fs), i), Again(fs));
    SecondPass(fs, i);
    var p := Pair(Top(s.stack).line, i, |s.stack| - 1);
    assert Closes(t.stack, gs[i].value);
    assert ScanTo(gs, i + 1).pairs == t.pairs + [p];
    hide ScanTo, Step, SecondAs, Closes;
    PairsGrow(gs, i + 1);
    assert p == ScanTo(gs, i + 1).pairs[|t.pairs|] == ScanAll(gs).pairs[|t.pairs|];
    if p in ScanAll(fs).pairs {
      OneCloser(fs, |fs|, p);
    }
  }

  /**
   A second scan of the rewritten text matches the lines as the first did if and only if no line outgrows
   the fence around it, and then it upgrades nothing. Every balanced text is such a text.
   */
  lemma SecondScanIsIdle(fs: Lines)
    requires LongEnough(fs)
    ensures ScanAll(Again(fs)).pairs == ScanAll(fs).pairs <==> forall i :: 0 <= i < |fs| ==> !Outgrows(fs, i)
    ensures ScanAll(Again(fs)).pairs == ScanAll(fs).pairs ==> ScanAll(Again(fs)).upgrades == map[]
    ensures Balanced(fs) ==> ScanAll(Again(fs)).pairs == ScanAll(fs).pairs && Balanced(Again(fs))
  {
    hide LongEnough, Outgrows, ScanTo;
    if Balanced(fs) {
      forall i | 0 <= i < |fs|
        ensures !Outgrows(fs, i)
      {
        BalancedDoesNotOutgrow(fs, i);
      }
    }
    if forall i :: 0 <= i < |fs| ==> !Outgrows(fs, i) {
      SecondPass(fs, |fs|);
    } else {
      var i := FirstOutgrowing(fs, |fs|);
      OutgrowingShows(fs, i);
    }
  }

  lemma {:induction false} FirstOutgrowing(fs: Lines, n: nat) returns (i: nat)
    requires n <= |fs| && exists m :: 0 <= m < n && Outgrows(fs, m)
    ensures i < n && Outgrows(fs, i) && forall m :: 0 <= m < i ==> !Outgrows(fs, m)
  {
    hide Outgrows;
    if exists m :: 0 <= m < n - 1 && Outgrows(fs, m) {
      i := FirstOutgrowing(fs, n - 1);
    } else {
      i := n - 1;
    }
  }

  // ---- when a pass changes nothing ----------------------------------------------------------------------------

  ghost predicate Opens(fs: Lines, i: int) { IsFence(fs, i) && !Closes(ScanTo(fs, i).stack, fs[i].value) }

  /** Every matched fence is longer than every fence opened inside it. */
  ghost predicate Nested(fs: Lines) {
    forall p, m :: p in ScanAll(fs).pairs && IsFence(fs, p.open) && p.open < m < p.close && Opens(fs, m) ==>
      fs[m].value.len < fs[p.open].value.len
  }

  /** A frame knows nothing, or the length of a fence opened inside it. */
  ghost predicate KnowsOpener(fs: Lines, f: Frame, i: nat) {
    f.maxInner == 0 || exists m :: f.line < m < i && Opens(fs, m) && fs[m].value.len == f.maxInner
  }

  /** A frame is the opener it stands for. */
  ghost predicate StandsFor(fs: Lines, f: Frame, i: nat) {
    f.line < i && IsFence(fs, f.line) && Opens(fs, f.line) && f.len == fs[f.line].value.len && KnowsOpener(fs, f, i)
  }

  /** So far nothing was upgraded. */
  ghost predicate Untouched(fs: Lines, s: Scan, i: nat) {
    s.upgrades == map[] && forall j :: 0 <= j < |s.stack| ==> StandsFor(fs, s.stack[j], i)
  }

  lemma {:induction false} NestedIsUntouched(fs: Lines, i: nat)
    requires LongEnough(fs) && Nested(fs) && i <= |fs|
    ensures Untouched(fs, ScanTo(fs, i), i)
  {
    hide LongEnough, Step, Untouched, Nested, Opens, ScanAll;
    if i == 0 {
      NothingUntouched(fs);
    } else {
      NestedIsUntouched(fs, i - 1);
      var s := ScanTo(fs, i - 1);
      if fs[i - 1].None? {
        UntouchedSkips(fs, s, i - 1);
      } else if Closes(s.stack, fs[i - 1].value) {
        UntouchedPops(fs, i - 1);
      } else {
        UntouchedPushes(fs, s, i - 1);
      }
    }
  }

  lemma NothingUntouched(fs: Lines)
    ensures Untouched(fs, EMPTY_SCAN, 0)
  {
  }

  lemma UntouchedSkips(fs: Lines, s: Scan, i: nat)
    requires Untouched(fs, s, i)
    ensures Untouched(fs, s, i + 1)
  {
    hide StandsFor;
    forall j | 0 <= j < |s.stack|
      ensures StandsFor(fs, s.stack[j], i + 1)
    {
      StandsOn(fs, s.stack[j], s.stack[j], i, i);
    }
  }

  lemma UntouchedPushes(fs: Lines, s: Scan, i: nat)
    requires i < |fs| && s == ScanTo(fs, i) && Untouched(fs, s, i) && IsFence(fs, i) && !Closes(s.stack, fs[i].value)
    ensures Untouched(fs, Step(s, i, fs[i].value), i + 1)
  {
    assert Opens(fs, i);
    hide Step, Opens, ScanTo, Closes, StandsFor;
    var t := Step(s, i, fs[i].value);
    PushedStack(s, i, fs[i].value);
    forall j | 0 <= j < |t.stack|
      ensures StandsFor(fs, t.stack[j], i + 1)
    {
      if j < |s.stack| {
        StandsOn(fs, s.stack[j], t.stack[j], i, i);
      } else {
        StandsFresh(fs, i);
      }
    }
  }

  lemma StandsFresh(fs: Lines, i: nat)
    requires IsFence(fs, i) && Opens(fs, i)
    ensures StandsFor(fs, Frame(i, fs[i].value.ch, fs[i].value.len, 0), i + 1)
  {
    hide Opens;
  }

  /** A frame that learns of an opener inside it, or of nothing, still stands for its own. */
  lemma StandsOn(fs: Lines, f: Frame, g: Frame, i: nat, m: nat)
    requires StandsFor(fs, f, i) && g.line == f.line && g.len == f.len
    requires g.maxInner == f.maxInner
             || (f.line < m <= i && IsFence(fs, m) && Opens(fs, m) && g.maxInner == fs[m].value.len)
    ensures StandsFor(fs, g, i + 1)
  {
    hide Opens;
  }

  lemma UntouchedPops(fs: Lines, i: nat)
    requires IsFence(fs, i) && LongEnough(fs) && Nested(fs) && Untouched(fs, ScanTo(fs, i), i)
    requires Closes(ScanTo(fs, i).stack, fs[i].value)
    ensures Untouched(fs, Step(ScanTo(fs, i), i, fs[i].value), i + 1)
  {
    var s := ScanTo(fs, i);
    var (t, top) := (Step(s, i, fs[i].value), Top(s.stack));
    hide LongEnough, ScanTo, Step, Opens, Closes;
    PoppedStack(s, i, fs[i].value);
    TopFacts(fs, i);
    ClosedPair(fs, i);
    assert StandsFor(fs, top, i);
    assert Upgraded(s, i) == map[];
    hide Nested, KnowsOpener, Upgraded;
    forall j | 0 <= j < |t.stack|
      ensures StandsFor(fs, t.stack[j], i + 1)
    {
      assert StandsFor(fs, s.stack[j], i);
      StandsOn(fs, s.stack[j], t.stack[j], i, top.line);
    }
  }

  /** The line that closes the top makes a pair with it, for good. */
  lemma ClosedPair(fs: Lines, i: nat)
    requires IsFence(fs, i) && Closes(ScanTo(fs, i).stack, fs[i].value)
    ensures Pair(Top(ScanTo(fs, i).stack).line, i, |ScanTo(fs, i).stack| - 1) in ScanAll(fs).pairs
  {
    var s := ScanTo(fs, i);
    PoppedStack(s, i, fs[i].value);
    ScanOne(fs, i, s);
    hide ScanTo, Step, Closes;
    PairsGrow(fs, i + 1);
    var p := Pair(Top(s.stack).line, i, |s.stack| - 1);
    assert p == ScanTo(fs, i + 1).pairs[|s.pairs|];
    assert p == ScanAll(fs).pairs[|s.pairs|];
  }

  /**
   The scan finds nothing to upgrade if and only if every matched fence is longer than every fence opened
   inside it.
   */
  lemma IdleIffNested(fs: Lines)
    requires LongEnough(fs)
    ensures ScanAll(fs).upgrades == map[] <==> Nested(fs)
  {
    hide LongEnough, ScanTo, Opens;
    if Nested(fs) {
      hide Nested;
      NestedIsUntouched(fs, |fs|);
    }
    if ScanAll(fs).upgrades == map[] {
      IdleIsNested(fs);
    }
  }

  lemma IdleIsNested(fs: Lines)
    requires LongEnough(fs) && ScanAll(fs).upgrades == map[]
    ensures Nested(fs)
  {
    hide LongEnough, ScanTo, Closes;
    forall p, m | p in ScanAll(fs).pairs && IsFence(fs, p.open) && p.open < m < p.close && Opens(fs, m)
      ensures fs[m].value.len < fs[p.open].value.len
    {
      var k :| 0 <= k < |ScanAll(fs).pairs| && ScanAll(fs).pairs[k] == p;
      StrictNesting(fs, k);
      OpenersAreNotLoose(fs, m);
    }
  }

  /** An upgrade is never idle: some line is longer after it. */
  lemma {:induction false} UpgradeGrows(fs: Lines, i: nat) returns (k: nat)
    requires LongEnough(fs) && i <= |fs| && ScanTo(fs, i).upgrades != map[]
    ensures k in ScanTo(fs, i).upgrades && IsFence(fs, k) && ScanTo(fs, i).upgrades[k] > fs[k].value.len
  {
    hide LongEnough, Step, Inv;
    ScanInv(fs, i - 1);
    var s := ScanTo(fs, i - 1);
    if s.upgrades != map[] {
      k := UpgradeGrows(fs, i - 1);
      if fs[i - 1].Some? {
        UpgradesStay(fs, s, i - 1, k);
      }
    } else {
      k := FirstUpgrade(fs, s, i - 1);
    }
  }

  lemma UpgradesStay(fs: Lines, s: Scan, i: nat, k: nat)
    requires Inv(fs, s, i) && IsFence(fs, i) && k in s.upgrades
    ensures var t := Step(s, i, fs[i].value); k in t.upgrades && t.upgrades[k] == s.upgrades[k]
  {
    hide Note, GapOk, PairOk;
    assert s.stack != [] ==> FrameOk(fs, s, i, |s.stack| - 1);
  }

  lemma FirstUpgrade(fs: Lines, s: Scan, i: nat) returns (k: nat)
    requires Inv(fs, s, i) && IsFence(fs, i) && s.upgrades == map[] && Step(s, i, fs[i].value).upgrades != map[]
    ensures var t := Step(s, i, fs[i].value);
            k in t.upgrades && IsFence(fs, k) && t.upgrades[k] > fs[k].value.len
  {
    hide Note, GapOk, PairOk;
    k := Top(s.stack).line;
    assert FrameOk(fs, s, i, |s.stack| - 1);
  }

  /** The rewrite leaves the lines as they are if and only if they are nested. */
  lemma RewriteIsIdle(fs: Lines)
    requires LongEnough(fs)
    ensures Again(fs) == fs <==> Nested(fs)
  {
    hide LongEnough, ScanTo, Nested;
    IdleIffNested(fs);
    if ScanAll(fs).upgrades == map[] {
      assert Again(fs) == fs;
    } else {
      var k := UpgradeGrows(fs, |fs|);
      assert Again(fs)[k] != fs[k];
    }
  }

  // ---- no fence grows more than it must ---------------------------------------------------------------------

  /** Line `m` is a fence inside frame `j` of the length the frame knows, and open only as the one right inside it. */
  ghost predicate Witness(fs: Lines, s: Scan, n: nat, j: nat, m: int)
    requires j < |s.stack|
  {
    && s.stack[j].line < m < n && IsFence(fs, m) && m !in s.loose && LenAfter(fs, s.upgrades, m) == s.stack[j].maxInner
    && forall i :: 0 <= i < |s.stack| && i != j + 1 ==> s.stack[i].line != m
  }

  ghost predicate Knowing(fs: Lines, s: Scan, n: nat, j: nat)
    requires j < |s.stack|
  {
    s.stack[j].maxInner == 0 || exists m :: Witness(fs, s, n, j, m)
  }

  /** A pair that grew is one longer than a fence line inside it that is at least as long as its opener was. */
  ghost predicate Tight(fs: Lines, s: Scan, p: Pair) {
    IsFence(fs, p.open) && p.open in s.upgrades ==>
      exists m :: && p.open < m < p.close && IsFence(fs, m) && m !in s.loose
                  && fs[p.open].value.len <= LenAfter(fs, s.upgrades, m)
                  && LenAfter(fs, s.upgrades, p.open) == LenAfter(fs, s.upgrades, m) + 1
  }

  ghost predicate AllTight(fs: Lines, s: Scan, n: nat) {
    && (forall j :: 0 <= j < |s.stack| ==> Knowing(fs, s, n, j))
    && (forall k :: 0 <= k < |s.pairs| ==> Tight(fs, s, s.pairs[k]))
  }

  lemma PushStaysTight(fs: Lines, s: Scan, n: nat)
    requires Inv(fs, s, n) && AllTight(fs, s, n) && IsFence(fs, n) && !Closes(s.stack, fs[n].value)
    ensures AllTight(fs, Step(s, n, fs[n].value), n + 1)
  {
    var t := Step(s, n, fs[n].value);
    PushedStack(s, n, fs[n].value);
    assert t.upgrades == s.upgrades && t.loose == s.loose && t.pairs == s.pairs;
    hide Step, Inv, GapOk, PairOk, Closes;
    InvMeans(fs, s, n);
    var next := n + 1;
    forall i | 0 <= i < |s.stack|
      ensures t.stack[i].line == s.stack[i].line < n
    {
      assert FrameOk(fs, s, n, i);
    }
    forall j | 0 <= j < |t.stack|
      ensures Knowing(fs, t, next, j)
    {
      if j < |s.stack| {
        assert Knowing(fs, s, n, j);
        if t.stack[j].maxInner == s.stack[j].maxInner != 0 {
          var m :| Witness(fs, s, n, j, m);
          assert Witness(fs, t, next, j, m);
        } else if t.stack[j].maxInner != 0 {
          PushTops(s, n, fs[n].value, j);
          assert n !in s.upgrades && n !in s.loose;
          assert Witness(fs, t, next, j, n);
        }
      }
    }
    forall k | 0 <= k < |t.pairs|
      ensures Tight(fs, t, t.pairs[k])
    {
      assert Tight(fs, s, s.pairs[k]);
    }
  }

  lemma InvMeans(fs: Lines, s: Scan, n: nat)
    requires Inv(fs, s, n)
    ensures n <= |fs| && UpgradesOk(fs, s, n)
    ensures forall j :: 0 <= j < |s.stack| ==> FrameOk(fs, s, n, j)
    ensures forall k :: 0 <= k < |s.pairs| ==> PairOk(fs, s, n, s.pairs[k])
  {
  }

  /** Only the top learns of a fence that opens. */
  lemma PushTops(s: Scan, i: nat, f: Fence, j: nat)
    requires !Closes(s.stack, f) && j < |s.stack| && Step(s, i, f).stack[j].maxInner != s.stack[j].maxInner
    ensures j == |s.stack| - 1 && Step(s, i, f).stack[j].maxInner == f.len
  {
  }

  lemma PopStaysTight(fs: Lines, s: Scan, n: nat)
    requires Inv(fs, s, n) && LongEnough(fs) && AllTight(fs, s, n) && IsFence(fs, n) && Closes(s.stack, fs[n].value)
    ensures AllTight(fs, Step(s, n, fs[n].value), n + 1)
  {
    var t := Step(s, n, fs[n].value);
    PopStack(s, n, fs[n].value);
    hide Step, Inv;
    var next := n + 1;
    forall j | 0 <= j < |t.stack|
      ensures Knowing(fs, t, next, j)
    {
      PopKnows(fs, s, n, j);
    }
    forall k | 0 <= k < |t.pairs|
      ensures Tight(fs, t, t.pairs[k])
    {
      if k < |s.pairs| {
        OldStaysTight(fs, s, n, k);
      } else {
        NewIsTight(fs, s, n);
      }
    }
  }

  lemma OldStaysTight(fs: Lines, s: Scan, n: nat, k: nat)
    requires Inv(fs, s, n) && LongEnough(fs) && AllTight(fs, s, n) && IsFence(fs, n) && Closes(s.stack, fs[n].value)
    requires k < |s.pairs|
    ensures Tight(fs, Step(s, n, fs[n].value), s.pairs[k])
  {
    var (p, t, top) := (s.pairs[k], Step(s, n, fs[n].value), Top(s.stack));
    PopLengths(fs, s, n);
    InvMeans(fs, s, n);
    PoppedUpgrades(s, n, fs[n].value);
    assert PairOk(fs, s, n, p) && Tight(fs, s, p);
    assert s.stack[|s.stack| - 1].line < p.open || p.close < s.stack[|s.stack| - 1].line;
    hide Step, Inv, LongEnough, Closes;
    if p.open in t.upgrades {
      assert p.open in s.upgrades;
      var m :| && p.open < m < p.close && IsFence(fs, m) && m !in s.loose
               && fs[p.open].value.len <= LenAfter(fs, s.upgrades, m)
               && LenAfter(fs, s.upgrades, p.open) == LenAfter(fs, s.upgrades, m) + 1;
      assert LenAfter(fs, t.upgrades, m) == LenAfter(fs, s.upgrades, m);
    }
  }

  lemma PoppedUpgrades(s: Scan, n: nat, f: Fence)
    requires Closes(s.stack, f)
    ensures var (t, top) := (Step(s, n, f), Top(s.stack));
            && (forall k :: k in t.upgrades && k != top.line && k != n ==> k in s.upgrades)
            && (top.line in t.upgrades && top.line !in s.upgrades ==>
                  0 < top.maxInner && top.len <= top.maxInner && t.upgrades[top.line] == top.maxInner + 1)
  {
  }

  lemma NewIsTight(fs: Lines, s: Scan, n: nat)
    requires Inv(fs, s, n) && LongEnough(fs) && AllTight(fs, s, n) && IsFence(fs, n) && Closes(s.stack, fs[n].value)
    ensures Tight(fs, Step(s, n, fs[n].value), Pair(Top(s.stack).line, n, |s.stack| - 1))
  {
    var (t, top, k) := (Step(s, n, fs[n].value), Top(s.stack), |s.stack| - 1);
    PopLengths(fs, s, n);
    InvMeans(fs, s, n);
    PoppedUpgrades(s, n, fs[n].value);
    assert FrameOk(fs, s, n, k) && Knowing(fs, s, n, k);
    hide Step, Inv, LongEnough, Closes;
    if top.line in t.upgrades {
      var m :| Witness(fs, s, n, k, m);
      assert LenAfter(fs, t.upgrades, m) == LenAfter(fs, s.upgrades, m);
    }
  }

  lemma PopKnows(fs: Lines, s: Scan, n: nat, j: nat)
    requires Inv(fs, s, n) && LongEnough(fs) && AllTight(fs, s, n) && IsFence(fs, n) && Closes(s.stack, fs[n].value)
    requires j < |s.stack| - 1
    ensures var t := Step(s, n, fs[n].value); j < |t.stack| && Knowing(fs, t, n + 1, j)
  {
    var (t, top, k) := (Step(s, n, fs[n].value), Top(s.stack), |s.stack| - 1);
    PopLengths(fs, s, n);
    PoppedStack(s, n, fs[n].value);
    InvMeans(fs, s, n);
    assert FrameOk(fs, s, n, k) && FrameOk(fs, s, n, j) && Knowing(fs, s, n, j);
    PoppedTop(s, n, fs[n].value);
    StackRises(fs, s, n, j, k);
    forall i | 0 <= i < |t.stack|
      ensures t.stack[i].line == s.stack[i].line < top.line
    {
      StackRises(fs, s, n, i, k);
    }
    hide Step, Inv, LongEnough, Closes, Upgraded;
    if t.stack[j].maxInner != 0 {
      if t.stack[j].maxInner != s.stack[j].maxInner {
        assert Witness(fs, t, n + 1, j, top.line);
      } else {
        var m :| Witness(fs, s, n, j, m);
        assert Witness(fs, t, n + 1, j, m);
      }
    }
  }

  /**
   What the frame around a closed fence learns is the length that fence ends up with, if that is more than it
   knew.
   */
  lemma PoppedTop(s: Scan, n: nat, f: Fence)
    requires Closes(s.stack, f) && |s.stack| > 1 && Top(s.stack).line !in s.upgrades && n !in s.upgrades
    ensures var (t, top, k) := (Step(s, n, f), Top(s.stack), |s.stack| - 2);
            var effective := if top.line in t.upgrades then t.upgrades[top.line] else top.len;
            && t.stack[k].maxInner == Max(s.stack[k].maxInner, effective) && effective >= top.len
            && forall i :: 0 <= i < k ==> t.stack[i].maxInner == s.stack[i].maxInner
  {
  }

  lemma {:induction false} ScanTight(fs: Lines, n: nat)
    requires n <= |fs| && LongEnough(fs)
    ensures AllTight(fs, ScanTo(fs, n), n)
  {
    hide Inv, LongEnough, Step, AllTight;
    if n == 0 {
      NothingTight(fs);
    } else {
      ScanTight(fs, n - 1);
      ScanInv(fs, n - 1);
      var s := ScanTo(fs, n - 1);
      if fs[n - 1].None? {
        SkipStaysTight(fs, s, n - 1);
      } else if Closes(s.stack, fs[n - 1].value) {
        PopStaysTight(fs, s, n - 1);
      } else {
        PushStaysTight(fs, s, n - 1);
      }
    }
  }

  lemma NothingTight(fs: Lines)
    ensures AllTight(fs, EMPTY_SCAN, 0)
  {
  }

  lemma SkipStaysTight(fs: Lines, s: Scan, n: nat)
    requires AllTight(fs, s, n)
    ensures AllTight(fs, s, n + 1)
  {
    var next := n + 1;
    forall j | 0 <= j < |s.stack|
      ensures Knowing(fs, s, next, j)
    {
      assert Knowing(fs, s, n, j);
      if s.stack[j].maxInner != 0 {
        var m :| Witness(fs, s, n, j, m);
        assert Witness(fs, s, next, j, m);
      }
    }
  }

  /**
   The rewrite is least: a matched fence that grew ends exactly one above some fence line inside it, loose
   closers apart, and its opener was no longer than that line; with `StrictNesting`, one above the longest.
   */
  lemma GrowsByOne(fs: Lines, k: nat)
    requires LongEnough(fs) && k < |ScanAll(fs).pairs|
    ensures Tight(fs, ScanAll(fs), ScanAll(fs).pairs[k])
  {
    hide ScanTo, LongEnough, Tight;
    ScanTight(fs, |fs|);
  }

  // ---- where it fails ---------------------------------------------------------------------------------------

  lemma ScanOne(fs: Lines, i: nat, s: Scan)
    requires IsFence(fs, i) && ScanTo(fs, i) == s
    ensures ScanTo(fs, i + 1) == Step(s, i, fs[i].value)
  {
  }

  function Tick(len: nat, bare: bool): Option<Fence> { Some(Fence('`', len, bare)) }
  function Tilde(len: nat): Option<Fence> { Some(Fence('~', len, true)) }

  /**
   A balanced text whose inner closer is longer than the outer fence grows: a flat reader ends the outer fence
   there.
   */
  lemma LongCloserBreaks()
    ensures var fs := [Tick(3, true), Tick(3, false), Tick(5, true), Tick(3, true)];
            Balanced(fs) && Intrudes(fs, 2) && Outermost(ScanAll(fs).pairs) == [(0, 3)]
  {
    var fs := [Tick(3, true), Tick(3, false), Tick(5, true), Tick(3, true)];
    var s1 := Scan([Frame(0, '`', 3, 0)], map[], [], {});
    var s2 := Scan([Frame(0, '`', 3, 3), Frame(1, '`', 3, 0)], map[], [], {});
    var s3 := Scan([Frame(0, '`', 3, 3)], map[], [Pair(1, 2, 1)], {2});
    var s4 := Scan([], map[0 := 4, 3 := 4], [Pair(1, 2, 1), Pair(0, 3, 0)], {2});
    assert ScanTo(fs, 0) == EMPTY_SCAN;
    hide ScanTo;
    assert Step(EMPTY_SCAN, 0, fs[0].value) == s1;
    ScanOne(fs, 0, EMPTY_SCAN);
    assert Step(s1, 1, fs[1].value) == s2;
    ScanOne(fs, 1, s1);
    assert Step(s2, 2, fs[2].value) == s3;
    ScanOne(fs, 2, s2);
    assert Step(s3, 3, fs[3].value) == s4;
    ScanOne(fs, 3, s3);
    hide Step;
    assert s4.pairs[..1] == [Pair(1, 2, 1)] && [Pair(1, 2, 1)][..0] == [];
    assert Outermost([Pair(1, 2, 1)]) == [];
  }

  lemma OutgrownFirstHalf(fs: Lines)
    requires fs == [Tick(6, true), Tilde(6), Tilde(3), Tick(6, true), Tick(6, true), Tilde(5)]
    ensures ScanTo(fs, 2).stack == [Frame(0, '`', 6, 6), Frame(1, '~', 6, 0)]
    ensures ScanTo(fs, 3) == Scan([Frame(0, '`', 6, 6), Frame(1, '~', 6, 3), Frame(2, '~', 3, 0)], map[], [], {})
  {
    var s1 := Scan([Frame(0, '`', 6, 0)], map[], [], {});
    var s2 := Scan([Frame(0, '`', 6, 6), Frame(1, '~', 6, 0)], map[], [], {});
    assert ScanTo(fs, 0) == EMPTY_SCAN;
    hide ScanTo;
    assert Step(EMPTY_SCAN, 0, fs[0].value) == s1;
    ScanOne(fs, 0, EMPTY_SCAN);
    assert Step(s1, 1, fs[1].value) == s2;
    ScanOne(fs, 1, s1);
    ScanOne(fs, 2, s2);
  }

  lemma OutgrownFirst(fs: Lines)
    requires fs == [Tick(6, true), Tilde(6), Tilde(3), Tick(6, true), Tick(6, true), Tilde(5)]
    ensures ScanTo(fs, 2).stack == [Frame(0, '`', 6, 6), Frame(1, '~', 6, 0)]
    ensures ScanAll(fs) == Scan([Frame(0, '`', 6, 6), Frame(1, '~', 6, 7)], map[2 := 7, 5 := 7],
                                [Pair(3, 4, 3), Pair(2, 5, 2)], {})
  {
    hide ScanTo;
    var s3 := Scan([Frame(0, '`', 6, 6), Frame(1, '~', 6, 3), Frame(2, '~', 3, 0)], map[], [], {});
    var s4 := Scan([Frame(0, '`', 6, 6), Frame(1, '~', 6, 3), Frame(2, '~', 3, 6), Frame(3, '`', 6, 0)], map[], [], {});
    var s5 := Scan([Frame(0, '`', 6, 6), Frame(1, '~', 6, 3), Frame(2, '~', 3, 6)], map[], [Pair(3, 4, 3)], {});
    OutgrownFirstHalf(fs);
    assert Step(s3, 3, fs[3].value) == s4;
    ScanOne(fs, 3, s3);
    assert Step(s4, 4, fs[4].value) == s5;
    ScanOne(fs, 4, s4);
    ScanOne(fs, 5, s5);
  }

  lemma OutgrownSecondHalf(fs: Lines)
    requires fs == [Tick(6, true), Tilde(6), Tilde(7), Tick(6, true), Tick(6, true), Tilde(7)]
    ensures ScanTo(fs, 2).stack == [Frame(0, '`', 6, 6), Frame(1, '~', 6, 0)]
    ensures ScanTo(fs, 3) == Scan([Frame(0, '`', 6, 6)], map[], [Pair(1, 2, 1)], {2})
  {
    var s1 := Scan([Frame(0, '`', 6, 0)], map[], [], {});
    var s2 := Scan([Frame(0, '`', 6, 6), Frame(1, '~', 6, 0)], map[], [], {});
    assert ScanTo(fs, 0) == EMPTY_SCAN;
    hide ScanTo;
    assert Step(EMPTY_SCAN, 0, fs[0].value) == s1;
    ScanOne(fs, 0, EMPTY_SCAN);
    assert Step(s1, 1, fs[1].value) == s2;
    ScanOne(fs, 1, s1);
    ScanOne(fs, 2, s2);
  }

  lemma OutgrownSecond(fs: Lines)
    requires fs == [Tick(6, true), Tilde(6), Tilde(7), Tick(6, true), Tick(6, true), Tilde(7)]
    ensures ScanTo(fs, 2).stack == [Frame(0, '`', 6, 6), Frame(1, '~', 6, 0)]
    ensures ScanAll(fs) == Scan([Frame(4, '`', 6, 7), Frame(5, '~', 7, 0)], map[0 := 7, 3 := 7],
                                [Pair(1, 2, 1), Pair(0, 3, 0)], {2})
  {
    hide ScanTo;
    var s3 := Scan([Frame(0, '`', 6, 6)], map[], [Pair(1, 2, 1)], {2});
    var s4 := Scan([], map[0 := 7, 3 := 7], [Pair(1, 2, 1), Pair(0, 3, 0)], {2});
    var s5 := Scan([Frame(4, '`', 6, 0)], map[0 := 7, 3 := 7], [Pair(1, 2, 1), Pair(0, 3, 0)], {2});
    OutgrownSecondHalf(fs);
    assert Step(s3, 3, fs[3].value) == s4;
    ScanOne(fs, 3, s3);
    assert Step(s4, 4, fs[4].value) == s5;
    ScanOne(fs, 4, s4);
    ScanOne(fs, 5, s5);
  }

  /** A text that leaves fences open, and of which a second pass upgrades lines the first one left alone. */
  lemma OutgrownGrowsAgain()
    ensures var fs := [Tick(6, true), Tilde(6), Tilde(3), Tick(6, true), Tick(6, true), Tilde(5)];
            && ScanAll(fs).upgrades == map[2 := 7, 5 := 7] && Outgrows(fs, 2)
            && ScanAll(Again(fs)).upgrades == map[0 := 7, 3 := 7]
  {
    var fs := [Tick(6, true), Tilde(6), Tilde(3), Tick(6, true), Tick(6, true), Tilde(5)];
    hide ScanTo, Step, Outgrows, Rewritten;
    OutgrownFirst(fs);
    OutgrownLines(fs);
    OutgrownAt(fs);
    OutgrownSecond(Again(fs));
  }

  lemma OutgrownLines(fs: Lines)
    requires fs == [Tick(6, true), Tilde(6), Tilde(3), Tick(6, true), Tick(6, true), Tilde(5)]
    ensures Rewritten(fs, map[2 := 7, 5 := 7])
         == [Tick(6, true), Tilde(6), Tilde(7), Tick(6, true), Tick(6, true), Tilde(7)]
  {
  }

  lemma OutgrownAt(fs: Lines)
    requires fs == [Tick(6, true), Tilde(6), Tilde(3), Tick(6, true), Tick(6, true), Tilde(5)]
    requires ScanTo(fs, 2).stack == [Frame(0, '`', 6, 6), Frame(1, '~', 6, 0)]
    requires ScanAll(fs).upgrades == map[2 := 7, 5 := 7]
    ensures Outgrows(fs, 2)
  {
    hide ScanTo;
  }

  lemma StaysFirst(fs: Lines)
    requires fs == [Tick(5, true), Tick(3, true), Tick(5, false), Tick(6, true), Tick(5, true)]
    ensures ScanTo(fs, 1).stack == [Frame(0, '`', 5, 0)] && ScanAll(fs).upgrades == map[1 := 6, 4 := 6]
  {
    var s1 := Scan([Frame(0, '`', 5, 0)], map[], [], {});
    var s2 := Scan([Frame(0, '`', 5, 3), Frame(1, '`', 3, 0)], map[], [], {});
    var s3 := Scan([Frame(0, '`', 5, 3), Frame(1, '`', 3, 5), Frame(2, '`', 5, 0)], map[], [], {});
    var s4 := Scan([Frame(0, '`', 5, 3), Frame(1, '`', 3, 5)], map[], [Pair(2, 3, 2)], {3});
    assert ScanTo(fs, 0) == EMPTY_SCAN;
    hide ScanTo;
    assert Step(EMPTY_SCAN, 0, fs[0].value) == s1;
    ScanOne(fs, 0, EMPTY_SCAN);
    assert Step(s1, 1, fs[1].value) == s2;
    ScanOne(fs, 1, s1);
    assert Step(s2, 2, fs[2].value) == s3;
    ScanOne(fs, 2, s2);
    assert Step(s3, 3, fs[3].value) == s4;
    ScanOne(fs, 3, s3);
    ScanOne(fs, 4, s4);
  }

  lemma StaysSecondHalf(fs: Lines)
    requires fs == [Tick(5, true), Tick(6, true), Tick(5, false), Tick(6, true), Tick(6, true)]
    ensures ScanTo(fs, 2) == Scan([], map[], [Pair(0, 1, 0)], {1})
  {
    var s1 := Scan([Frame(0, '`', 5, 0)], map[], [], {});
    assert ScanTo(fs, 0) == EMPTY_SCAN;
    hide ScanTo;
    assert Step(EMPTY_SCAN, 0, fs[0].value) == s1;
    ScanOne(fs, 0, EMPTY_SCAN);
    ScanOne(fs, 1, s1);
  }

  lemma StaysSecond(fs: Lines)
    requires fs == [Tick(5, true), Tick(6, true), Tick(5, false), Tick(6, true), Tick(6, true)]
    ensures ScanAll(fs).upgrades == map[]
  {
    hide ScanTo;
    StaysSecondHalf(fs);
    var s2 := Scan([], map[], [Pair(0, 1, 0)], {1});
    var s3 := Scan([Frame(2, '`', 5, 0)], map[], [Pair(0, 1, 0)], {1});
    assert Step(s2, 2, fs[2].value) == s3;
    ScanOne(fs, 2, s2);
    var s4 := Step(s3, 3, fs[3].value);
    assert s4.stack == [] && s4.upgrades == map[];
    ScanOne(fs, 3, s3);
    ScanOne(fs, 4, s4);
  }

  /** A text with a line that outgrows the fence around it, and yet a second pass upgrades nothing. */
  lemma OutgrownMayStay()
    ensures var fs := [Tick(5, true), Tick(3, true), Tick(5, false), Tick(6, true), Tick(5, true)];
            Outgrows(fs, 1) && ScanAll(Again(fs)).upgrades == map[]
  {
    var fs := [Tick(5, true), Tick(3, true), Tick(5, false), Tick(6, true), Tick(5, true)];
    hide ScanTo, Step, Outgrows, Rewritten;
    StaysFirst(fs);
    StaysLines(fs);
    StaysAt(fs);
    StaysSecond(Again(fs));
  }

  lemma StaysLines(fs: Lines)
    requires fs == [Tick(5, true), Tick(3, true), Tick(5, false), Tick(6, true), Tick(5, true)]
    ensures Rewritten(fs, map[1 := 6, 4 := 6])
         == [Tick(5, true), Tick(6, true), Tick(5, false), Tick(6, true), Tick(6, true)]
  {
  }

  lemma StaysAt(fs: Lines)
    requires fs == [Tick(5, true), Tick(3, true), Tick(5, false), Tick(6, true), Tick(5, true)]
    requires ScanTo(fs, 1).stack == [Frame(0, '`', 5, 0)] && ScanAll(fs).upgrades == map[1 := 6, 4 := 6]
    ensures Outgrows(fs, 1)
  {
    hide ScanTo;
  }
}
