/**
 The virtual window of the message list (chat/turn-engine.js): which segments are shown, from the
 height model, and how tall the two spacers are. Heights are arbitrary non-negative numbers.
 */
module TurnWindow {
  import opened Common

  type Height = r: real | r >= 0.0

  const MAX_WINDOW_TURNS := 256
  const WINDOW_MARGIN_SCREENS := 2.0

  /** Segments `start` to `end`, both included; `Range(0, -1)` shows none. */
  datatype Range = Range(start: nat, end: int) {
    function Size(): int { end - start + 1 }
    predicate Holds(i: int) { start <= i <= end }
    ghost predicate ValidFor(count: nat) {
      Size() <= MAX_WINDOW_TURNS
      && if count == 0 then this == Range(0, -1) else start <= end < count
    }
  }

  function Sum(h: seq<Height>): Height {
    if h == [] then 0.0 else Sum(h[..|h| - 1]) + h[|h| - 1]
  }

  /** Where segment `i` starts and ends in the height model. */
  function Top(h: seq<Height>, i: nat): Height
    requires i <= |h|
  {
    Sum(h[..i])
  }
  function Bottom(h: seq<Height>, i: nat): Height
    requires i < |h|
  {
    Sum(h[..i + 1])
  }

  lemma SumStep(h: seq<Height>, i: nat)
    requires i < |h|
    ensures Bottom(h, i) == Top(h, i) + h[i] && Top(h, i + 1) == Bottom(h, i)
  {
    assert h[..i + 1][..i] == h[..i];
  }

  lemma {:induction false} SumConcat(a: seq<Height>, b: seq<Height>)
    ensures Sum(a + b) == Sum(a) + Sum(b)
  {
    if b == [] {
      assert a + b == a;
    } else {
      assert (a + b)[..|a + b| - 1] == a + b[..|b| - 1];
      SumConcat(a, b[..|b| - 1]);
    }
  }

  lemma {:induction false} SumMonotone(h: seq<Height>, i: nat, j: nat)
    requires i <= j <= |h|
    ensures Sum(h[..i]) <= Sum(h[..j])
    decreases j - i
  {
    if i < j {
      SumStep(h, i);
      SumMonotone(h, i + 1, j);
    }
  }

  /** `ensureOffsets`: the running sums of the heights. */
  method EnsureOffsets(h: seq<Height>) returns (offsets: seq<Height>, total: Height)
    ensures |offsets| == |h| && total == Sum(h)
    ensures forall i :: 0 <= i < |h| ==> offsets[i] == Top(h, i)
  {
    offsets, total := [], 0.0;
    for i := 0 to |h|
      invariant |offsets| == i && total == Sum(h[..i])
      invariant forall k :: 0 <= k < i ==> offsets[k] == Top(h, k)
    {
      SumStep(h, i);
      offsets := offsets + [total];
      total := total + h[i];
    }
    assert h[..|h|] == h;
  }

  /** A segment that reaches into the margins around the viewport. */
  ghost predicate Near(h: seq<Height>, low: real, high: real, i: nat)
    requires i < |h|
  {
    Bottom(h, i) >= low && Top(h, i) < high
  }

  /**
   From the first segment that reaches down to `low`, or the last one, through every next one that starts above
   `high`.
   */
  ghost predicate Reaches(h: seq<Height>, low: real, high: real, w: Range) {
    && w.start <= w.end < |h|
    && (forall i :: 0 <= i < w.start ==> Bottom(h, i) < low)
    && (Bottom(h, w.start) >= low || w.start == |h| - 1)
    && (forall i :: w.start < i <= w.end ==> Top(h, i) < high)
    && (w.end + 1 < |h| ==> Top(h, w.end + 1) >= high)
  }

  /**
   A window cut down to the cap: what is left out in front lies further off than the last segment kept, and
   what is left out behind lies no nearer than the first.
   */
  ghost predicate CutDown(h: seq<Height>, low: real, high: real, whole: Range, r: Range)
    requires whole.start <= whole.end < |h|
  {
    && whole.start <= r.start <= r.end <= whole.end
    && (if whole.Size() <= MAX_WINDOW_TURNS then r == whole else r.Size() == MAX_WINDOW_TURNS)
    && (forall i :: whole.start <= i < r.start ==> low - Bottom(h, i) > Bottom(h, r.end) - high)
    && (forall i :: r.end < i <= whole.end ==> low - Bottom(h, r.start) <= Bottom(h, i) - high)
  }

  function Low(scrollTop: real, viewport: Height): real { MaxReal(0.0, scrollTop - WINDOW_MARGIN_SCREENS * viewport) }
  function High(scrollTop: real, viewport: Height): real {
    scrollTop + viewport + WINDOW_MARGIN_SCREENS * viewport
  }

  /** The segments within two screens of the viewport, as many as the cap allows. */
  ghost predicate Surrounds(h: seq<Height>, scrollTop: real, viewport: Height, r: Range) {
    var (low, high) := (Low(scrollTop, viewport), High(scrollTop, viewport));
    if h == [] then r == Range(0, -1)
    else exists whole: Range :: Reaches(h, low, high, whole) && CutDown(h, low, high, whole, r)
  }

  /** One range only is as described. */
  lemma SurroundsOne(h: seq<Height>, scrollTop: real, viewport: Height, a: Range, b: Range)
    requires Surrounds(h, scrollTop, viewport, a) && Surrounds(h, scrollTop, viewport, b)
    ensures a == b
  {
    if h != [] {
      var (low, high) := (Low(scrollTop, viewport), High(scrollTop, viewport));
      var v: Range :| Reaches(h, low, high, v) && CutDown(h, low, high, v, a);
      var w: Range :| Reaches(h, low, high, w) && CutDown(h, low, high, w, b);
      ReachesOne(h, low, high, v, w);
      CutDownOne(h, low, high, v, a, b);
    }
  }

  lemma ReachesOne(h: seq<Height>, low: real, high: real, v: Range, w: Range)
    requires Reaches(h, low, high, v) && Reaches(h, low, high, w)
    ensures v == w
  {
    hide Bottom, Top;
    assert v.start == w.start;
  }

  lemma CutDownOne(h: seq<Height>, low: real, high: real, whole: Range, a: Range, b: Range)
    requires whole.start <= whole.end < |h| && CutDown(h, low, high, whole, a) && CutDown(h, low, high, whole, b)
    ensures a == b
  {
    hide Bottom;
    if a.start < b.start {
      assert low - Bottom(h, a.start) > Bottom(h, b.end) - high;
    } else if b.start < a.start {
      assert low - Bottom(h, b.start) > Bottom(h, a.end) - high;
    }
  }

  /**
   `computeTargetRange`: the segments within two screens of the viewport. One of them is left out
   only when the window is at its cap, and a window of two segments or more holds no other.
   */
  method ComputeTargetRange(h: seq<Height>, scrollTop: real, viewport: Height) returns (range: Range)
    ensures range.ValidFor(|h|) && Surrounds(h, scrollTop, viewport, range)
    ensures var (low, high) := (Low(scrollTop, viewport), High(scrollTop, viewport));
            && (forall i :: 0 <= i < |h| && Near(h, low, high, i) && !range.Holds(i) ==>
                range.Size() == MAX_WINDOW_TURNS)
            && (range.Size() > 1 ==> forall i :: 0 <= i < |h| && range.Holds(i) ==> Near(h, low, high, i))
  {
    var offsets, _ := EnsureOffsets(h);
    var count := |h|;
    if count == 0 {
      return Range(0, -1);
    }
    var low := Low(scrollTop, viewport);
    var high := High(scrollTop, viewport);

    var first := 0;
    while first < count && offsets[first] + h[first] < low
      invariant 0 <= first <= count
      invariant forall i :: 0 <= i < first ==> Bottom(h, i) < low
    {
      SumStep(h, first);
      first := first + 1;
    }
    if first >= count {
      first := count - 1;
    } else {
      SumStep(h, first);
    }
    ghost var reached := Bottom(h, first) >= low;

    var end := first;
    while end + 1 < count && offsets[end + 1] < high
      invariant first <= end < count
      invariant forall i :: first < i <= end ==> Top(h, i) < high
    {
      end := end + 1;
    }
    NearExactly(h, low, high, first, end, reached);

    var whole := Range(first, end);
    assert Reaches(h, low, high, whole);
    range := CutToCap(h, offsets, low, high, whole);
    SurroundsBy(h, scrollTop, viewport, whole, range);
  }

  lemma SurroundsBy(h: seq<Height>, scrollTop: real, viewport: Height, whole: Range, r: Range)
    requires var (low, high) := (Low(scrollTop, viewport), High(scrollTop, viewport));
             Reaches(h, low, high, whole) && CutDown(h, low, high, whole, r)
    ensures Surrounds(h, scrollTop, viewport, r)
  {
  }

  /** The trimming at the cap: the segment further from the viewport goes first. */
  method CutToCap(h: seq<Height>, offsets: seq<Height>, low: real, high: real, whole: Range) returns (range: Range)
    requires whole.start <= whole.end < |h| == |offsets| && forall i :: 0 <= i < |h| ==> offsets[i] == Top(h, i)
    ensures CutDown(h, low, high, whole, range)
  {
    hide Top, Bottom;
    var first, end := whole.start, whole.end;
    while end - first + 1 > MAX_WINDOW_TURNS
      invariant whole.start <= first <= end <= whole.end
      invariant Range(first, end) == whole || end - first + 1 >= MAX_WINDOW_TURNS
      invariant forall i :: whole.start <= i < first ==> low - Bottom(h, i) > Bottom(h, end) - high
      invariant forall i :: end < i <= whole.end ==> low - Bottom(h, first) <= Bottom(h, i) - high
    {
      SumStep(h, first);
      SumStep(h, end);
      var lowSlack := low - (offsets[first] + h[first]);
      var highSlack := offsets[end] + h[end] - high;
      if lowSlack > highSlack {
        SumStep(h, first + 1);
        first := first + 1;
      } else {
        SumStep(h, end - 1);
        end := end - 1;
      }
    }
    range := Range(first, end);
  }

  /** The two walks stop exactly at the first and the last segment near the viewport. */
  lemma NearExactly(h: seq<Height>, low: real, high: real, first: nat, end: nat, reached: bool)
    requires 0.0 <= low && first <= end < |h|
    requires forall i :: 0 <= i < first ==> Bottom(h, i) < low
    requires forall i :: first < i <= end ==> Top(h, i) < high
    requires end + 1 < |h| ==> Top(h, end + 1) >= high
    requires reached == (Bottom(h, first) >= low)
    requires !reached ==> first == |h| - 1
    ensures forall i :: 0 <= i < |h| && Near(h, low, high, i) ==> first <= i <= end
    ensures end > first ==> forall i :: first <= i <= end ==> Near(h, low, high, i)
  {
    forall i | 0 <= i < |h| && Near(h, low, high, i)
      ensures first <= i <= end
    {
      if i > end {
        SumMonotone(h, end + 1, i);
      }
    }
    if end > first {
      forall i | first <= i <= end
        ensures Near(h, low, high, i)
      {
        SumMonotone(h, first + 1, i + 1);
        assert Bottom(h, i) >= Bottom(h, first);
        SumMonotone(h, first, first + 1);
        assert Top(h, first) <= Top(h, first + 1);
      }
    }
  }

  /**
   The trailing segments that cover the viewport and its margins, and not one more than that takes; they fall
   short of it only at the cap or at the start of the list.
   */
  ghost predicate Trails(h: seq<Height>, viewport: Height, r: Range) {
    var need := (WINDOW_MARGIN_SCREENS + 1.0) * viewport;
    && r.ValidFor(|h|) && r.end == |h| - 1
    && (h != [] ==> r.start == 0 || r.Size() == MAX_WINDOW_TURNS || Sum(h[r.start + 1..]) >= need)
    && (r.start + 1 < |h| ==> Sum(h[r.start + 2..]) < need)
  }

  lemma TrailsIsValid(h: seq<Height>, viewport: Height, r: Range)
    requires Trails(h, viewport, r)
    ensures r.ValidFor(|h|)
  {
  }

  lemma SumOfTail(h: seq<Height>, i: nat)
    requires i < |h|
    ensures Sum(h[i..]) == h[i] + Sum(h[i + 1..])
  {
    assert h[i..] == [h[i]] + h[i + 1..];
    SumConcat([h[i]], h[i + 1..]);
    assert [h[i]][..0] == [];
  }

  lemma {:induction false} TailsShrink(h: seq<Height>, i: nat, j: nat)
    requires i <= j <= |h|
    ensures Sum(h[i..]) >= Sum(h[j..])
    decreases j - i
  {
    if i < j {
      SumOfTail(h, i);
      TailsShrink(h, i + 1, j);
    }
  }

  /** One range only is as described. */
  lemma TrailsOne(h: seq<Height>, viewport: Height, a: Range, b: Range)
    requires Trails(h, viewport, a) && Trails(h, viewport, b)
    ensures a == b
  {
    if a.start < b.start {
      TailsShrink(h, a.start + 2, b.start + 1);
    } else if b.start < a.start {
      TailsShrink(h, b.start + 2, a.start + 1);
    }
  }

  /** `pinnedRange`. */
  method PinnedRange(h: seq<Height>, viewport: Height) returns (range: Range)
    ensures Trails(h, viewport, range)
  {
    var count := |h|;
    if count == 0 {
      return Range(0, -1);
    }
    var need := (WINDOW_MARGIN_SCREENS + 1.0) * viewport;
    var total: Height := 0.0;
    var start := count - 1;
    assert h[count..] == [];
    while start > 0 && total < need
      invariant 0 <= start < count
      invariant total == Sum(h[start + 1..])
      invariant start + 1 < count ==> Sum(h[start + 2..]) < need
    {
      SumOfTail(h, start);
      total := total + h[start];
      start := start - 1;
    }
    ghost var walked := start;
    while count - start > MAX_WINDOW_TURNS
      invariant walked <= start < count
      invariant start == walked || count - start >= MAX_WINDOW_TURNS
    {
      start := start + 1;
    }
    if walked + 1 < count && start + 1 < count {
      TailsShrink(h, walked + 2, start + 2);
    }
    range := Range(start, count - 1);
  }

  /** The range with everything up to the anchor, or, past the cap, as much of that around the anchor as it allows. */
  ghost predicate Widens(range: Range, anchor: nat, wide: Range) {
    var (lo, hi) := (Min(range.start, anchor), Max(range.end, anchor));
    && lo <= wide.start <= anchor <= wide.end <= hi && wide.Size() <= MAX_WINDOW_TURNS
    && ((wide.start == lo && wide.end == hi) || wide.Size() == MAX_WINDOW_TURNS)
  }

  /** One range only is as described. */
  lemma WidensOne(range: Range, anchor: nat, a: Range, b: Range)
    requires range.start <= range.end && range.Size() <= MAX_WINDOW_TURNS
    requires Widens(range, anchor, a) && Widens(range, anchor, b)
    ensures a == b
  {
  }

  /** The widening for a restore anchor: its segment joins the window and the cap never drops it again. */
  method WidenForAnchor(range: Range, anchor: nat, count: nat) returns (wide: Range)
    requires range.ValidFor(count) && anchor < count
    ensures wide.ValidFor(count) && wide.Holds(anchor) && Widens(range, anchor, wide)
    ensures range.Holds(anchor) ==> wide == range
  {
    if range.Holds(anchor) {
      return range;
    }
    var start := if anchor < range.start then anchor else range.start;
    var end := if anchor > range.end then anchor else range.end;
    while end - start + 1 > MAX_WINDOW_TURNS
      invariant 0 <= start <= anchor <= end < count
      invariant start == anchor || end == anchor
      invariant anchor < range.start ==> start == anchor && (end == range.end || end - start + 1 >= MAX_WINDOW_TURNS)
      invariant anchor > range.end ==> end == anchor && (start == range.start || end - start + 1 >= MAX_WINDOW_TURNS)
    {
      if anchor - start > end - anchor {
        start := start + 1;
      } else {
        end := end - 1;
      }
    }
    wide := Range(start, end);
  }

  /** The two spacers: with the window's rows between them they take the height of the whole list. */
  method Spacers(h: seq<Height>, range: Range) returns (top: Height, bottom: Height)
    requires range.ValidFor(|h|)
    ensures top == Top(h, range.start) && bottom == Sum(h[range.end + 1..])
    ensures top + Sum(h[range.start..range.end + 1]) + bottom == Sum(h)
  {
    var offsets, total := EnsureOffsets(h);
    top := if range.start < |offsets| then offsets[range.start] else 0.0;
    var covered: real := total;
    if range.end >= range.start {
      var windowEnd: real := offsets[range.end] + h[range.end];
      covered := covered - windowEnd;
      SumStep(h, range.end);
      SumMonotone(h, range.end + 1, |h|);
      assert h[..|h|] == h;
      assert h[..range.end + 1] == h[..range.start] + h[range.start..range.end + 1];
      SumConcat(h[..range.start], h[range.start..range.end + 1]);
      assert h == h[..range.end + 1] + h[range.end + 1..];
      SumConcat(h[..range.end + 1], h[range.end + 1..]);
    }
    bottom := MaxReal(0.0, covered);
  }
}
