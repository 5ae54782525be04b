/** The placement of comment cards beside an artifact (artifact-comments.js), over real coordinates. */
module Cards {
  import opened Common

  /** Each card starts a gap or more below the end of the one before it. */
  ghost predicate Apart(tops: seq<real>, heights: seq<real>, gap: real)
    requires |tops| == |heights|
  {
    forall k, next :: 0 <= k && next == k + 1 && next < |tops| ==> tops[k] + heights[k] + gap <= tops[next]
  }

  /** Placed at or below the anchors. */
  ghost predicate AtOrBelow(tops: seq<real>, anchors: seq<real>)
    requires |tops| == |anchors|
  {
    forall k :: 0 <= k < |tops| ==> tops[k] >= anchors[k]
  }

  // ---- the order ----------------------------------------------------------------------------------------

  function Pick(values: seq<real>, order: seq<nat>): (r: seq<real>)
    requires forall k :: 0 <= k < |order| ==> order[k] < |values|
    ensures |r| == |order| && forall k :: 0 <= k < |r| ==> r[k] == values[order[k]]
  {
    seq(|order|, k requires 0 <= k < |order| => values[order[k]])
  }

  /** The cards `0..n`, each once. */
  ghost predicate Permutes(order: seq<nat>, n: nat) {
    && |order| == n && (forall k :: 0 <= k < n ==> order[k] < n)
    && (forall i, j :: 0 <= i < j < n ==> order[i] != order[j])
  }

  /** By anchor, and cards of one anchor in the order they came. */
  ghost predicate Ascends(order: seq<nat>, anchors: seq<real>)
    requires forall k :: 0 <= k < |order| ==> order[k] < |anchors|
  {
    forall i, j :: 0 <= i < j < |order| ==>
      anchors[order[i]] < anchors[order[j]] || (anchors[order[i]] == anchors[order[j]] && order[i] < order[j])
  }

  lemma Inserted(order: seq<nat>, p: nat, n: nat, anchors: seq<real>)
    requires Permutes(order, n) && n < |anchors| && p <= n && Ascends(order, anchors)
    requires forall k :: 0 <= k < p ==> anchors[order[k]] <= anchors[n]
    requires forall k :: p <= k < n ==> anchors[order[k]] > anchors[n]
    ensures Permutes(order[..p] + [n] + order[p..], n + 1) && Ascends(order[..p] + [n] + order[p..], anchors)
  {
    var now := order[..p] + [n] + order[p..];
    assert forall k :: 0 <= k <= n ==> now[k] == if k < p then order[k] else if k == p then n else order[k - 1];
  }

  /** The stable ascending sort of the card indices. */
  method SortByAnchor(anchors: seq<real>) returns (order: seq<nat>)
    ensures Permutes(order, |anchors|) && Ascends(order, anchors)
  {
    order := [];
    for n := 0 to |anchors|
      invariant Permutes(order, n) && Ascends(order, anchors)
    {
      var p := n;
      while p > 0 && anchors[order[p - 1]] > anchors[n]
        invariant 0 <= p <= n && forall k :: p <= k < n ==> anchors[order[k]] > anchors[n]
      {
        p := p - 1;
      }
      Inserted(order, p, n, anchors);
      order := order[..p] + [n] + order[p..];
    }
  }

  // ---- the downward pass --------------------------------------------------------------------------------

  /** The greedy stack of cards already in anchor order. */
  function Stack(anchors: seq<real>, heights: seq<real>, gap: real): (tops: seq<real>)
    requires |anchors| == |heights|
    ensures |tops| == |anchors|
  {
    var n := |anchors|;
    if n == 0 then []
    else
      var before := Stack(anchors[..n - 1], heights[..n - 1], gap);
      before + [if n == 1 then anchors[0] else MaxReal(anchors[n - 1], before[n - 2] + heights[n - 2] + gap)]
  }

  lemma StackNext(a: seq<real>, h: seq<real>, gap: real, k: nat)
    requires |a| == |h| && k < |a|
    ensures var before := Stack(a[..k], h[..k], gap);
            Stack(a[..k + 1], h[..k + 1], gap)
            == before + [if k == 0 then a[0] else MaxReal(a[k], before[k - 1] + h[k - 1] + gap)]
  {
    assert a[..k + 1][..k] == a[..k] && h[..k + 1][..k] == h[..k];
  }

  lemma StackNone(a: seq<real>, h: seq<real>, gap: real)
    requires |a| == |h|
    ensures Stack(a[..0], h[..0], gap) == []
  {
  }

  /** The loop of `stackCards` over the cards in their sorted order. */
  method StackInOrder(a: seq<real>, h: seq<real>, gap: real) returns (tops: seq<real>)
    requires |a| == |h|
    ensures tops == Stack(a, h, gap)
  {
    hide Stack;
    StackNone(a, h, gap);
    tops := [];
    var prevBottom := 0.0;
    for k := 0 to |a|
      invariant tops == Stack(a[..k], h[..k], gap)
      invariant k > 0 ==> prevBottom == tops[k - 1] + h[k - 1]
    {
      var top := if k == 0 then a[k] else MaxReal(a[k], prevBottom + gap);
      StackNext(a, h, gap, k);
      tops := tops + [top];
      prevBottom := top + h[k];
    }
    assert a[..|a|] == a && h[..|h|] == h;
  }

  /** `stackCards`: the tops in ascending anchor order. */
  method StackCards(anchors: seq<real>, heights: seq<real>, gap: real) returns (tops: seq<real>, order: seq<nat>)
    requires |anchors| == |heights|
    ensures Permutes(order, |anchors|) && Ascends(order, anchors)
    ensures tops == Stack(Pick(anchors, order), Pick(heights, order), gap)
  {
    order := SortByAnchor(anchors);
    tops := StackInOrder(Pick(anchors, order), Pick(heights, order), gap);
  }

  lemma ApartSnoc(t: seq<real>, h: seq<real>, gap: real)
    requires |t| == |h| > 0
    ensures var n := |t| - 1;
            Apart(t, h, gap) <==> Apart(t[..n], h[..n], gap) && (n > 0 ==> t[n - 1] + h[n - 1] + gap <= t[n])
  {
    var n := |t| - 1;
    var (t', h') := (t[..n], h[..n]);
    assert forall k :: 0 <= k < n ==> t'[k] == t[k] && h'[k] == h[k];
  }

  lemma AtOrBelowSnoc(t: seq<real>, a: seq<real>)
    requires |t| == |a| > 0
    ensures var n := |t| - 1; AtOrBelow(t, a) <==> AtOrBelow(t[..n], a[..n]) && t[n] >= a[n]
  {
    var n := |t| - 1;
    var (t', a') := (t[..n], a[..n]);
    assert forall k :: 0 <= k < n ==> t'[k] == t[k] && a'[k] == a[k];
  }

  /**
   The stack keeps every card at or below its anchor and apart from the next, and no placement that does is
   higher.
   */
  lemma {:induction false} StackIsLeast(anchors: seq<real>, heights: seq<real>, gap: real, other: seq<real>)
    requires |anchors| == |heights| == |other|
    ensures var tops := Stack(anchors, heights, gap); AtOrBelow(tops, anchors) && Apart(tops, heights, gap)
    ensures AtOrBelow(other, anchors) && Apart(other, heights, gap) ==> AtOrBelow(other, Stack(anchors, heights, gap))
  {
    var n := |anchors|;
    if n > 0 {
      hide Apart, AtOrBelow;
      var (a, h, o) := (anchors[..n - 1], heights[..n - 1], other[..n - 1]);
      StackIsLeast(a, h, gap, o);
      var tops := Stack(anchors, heights, gap);
      assert tops[..n - 1] == Stack(a, h, gap);
      ApartSnoc(tops, heights, gap);
      AtOrBelowSnoc(tops, anchors);
      ApartSnoc(other, heights, gap);
      AtOrBelowSnoc(other, anchors);
      AtOrBelowSnoc(other, tops);
      if n > 1 && AtOrBelow(o, Stack(a, h, gap)) {
        AtOrBelowSnoc(o, Stack(a, h, gap));
      }
    }
  }

  function Shift(values: seq<real>, offset: real): (r: seq<real>)
    ensures |r| == |values| && forall k :: 0 <= k < |r| ==> r[k] == values[k] - offset
  {
    seq(|values|, k requires 0 <= k < |values| => values[k] - offset)
  }

  /** Stacking and then scrolling is stacking the scrolled anchors. */
  lemma {:induction false} StackShifts(anchors: seq<real>, heights: seq<real>, gap: real, offset: real)
    requires |anchors| == |heights|
    ensures Stack(Shift(anchors, offset), heights, gap) == Shift(Stack(anchors, heights, gap), offset)
  {
    var n := |anchors|;
    if n > 0 {
      StackShifts(anchors[..n - 1], heights[..n - 1], gap, offset);
      assert Shift(anchors, offset)[..n - 1] == Shift(anchors[..n - 1], offset);
    }
  }

  ghost function Numbers(n: nat): (s: set<nat>)
    ensures |s| == n && forall c: nat :: c in s <==> c < n
  {
    if n == 0 then {} else Numbers(n - 1) + {n - 1}
  }

  /** A permutation of `n` cards leaves none out. */
  lemma {:induction false} NoneLeftOut(order: seq<nat>, n: nat, c: nat) returns (k: nat)
    requires Permutes(order, n) && c < n
    ensures k < n && order[k] == c
  {
    if forall i :: 0 <= i < n ==> order[i] != c {
      DistinctCount(order, Numbers(n) - {c});
      assert false;
    }
    k :| 0 <= k < n && order[k] == c;
  }

  lemma {:induction false} DistinctCount(order: seq<nat>, among: set<nat>)
    requires forall i, j :: 0 <= i < j < |order| ==> order[i] != order[j]
    requires forall i :: 0 <= i < |order| ==> order[i] in among
    ensures |order| <= |among|
  {
    if order != [] {
      DistinctCount(order[1..], among - {order[0]});
    }
  }

  /** Anchors and stability leave one order only. */
  lemma {:induction false} OrderIsUnique(a: seq<nat>, b: seq<nat>, anchors: seq<real>, n: nat)
    requires Permutes(a, |anchors|) && Permutes(b, |anchors|) && Ascends(a, anchors) && Ascends(b, anchors)
    requires n <= |anchors|
    ensures a[..n] == b[..n]
    decreases n
  {
    if n > 0 {
      var m := n - 1;
      OrderIsUnique(a, b, anchors, m);
      assert forall i :: 0 <= i < m ==> a[i] == a[..m][i] == b[..m][i] == b[i];
      var i := NoneLeftOut(a, |anchors|, b[m]);
      var j := NoneLeftOut(b, |anchors|, a[m]);
      assert a[m] == b[m];
      assert a[..n] == a[..m] + [a[m]] && b[..n] == b[..m] + [b[m]];
    }
  }

  /** Scrolling moves every anchor alike, so the sort puts the cards in the same order. */
  lemma ScrollKeepsOrder(anchors: seq<real>, offset: real, order: seq<nat>, scrolled: seq<nat>)
    requires Permutes(order, |anchors|) && Ascends(order, anchors)
    requires Permutes(scrolled, |anchors|) && Ascends(scrolled, Shift(anchors, offset))
    ensures scrolled == order
  {
    assert Ascends(scrolled, anchors);
    OrderIsUnique(order, scrolled, anchors, |anchors|);
    assert order[..|anchors|] == order && scrolled[..|anchors|] == scrolled;
  }

  /**
   `stackCards` is translation invariant: the cards of the scrolled anchors stand where the scroll moves the
   stack.
   */
  method StackScrolled(anchors: seq<real>, heights: seq<real>, gap: real, offset: real)
    returns (tops: seq<real>, scrolled: seq<real>, order: seq<nat>)
    requires |anchors| == |heights|
    ensures scrolled == Shift(tops, offset) && Permutes(order, |anchors|) && Ascends(order, anchors)
    ensures tops == Stack(Pick(anchors, order), Pick(heights, order), gap)
  {
    hide Stack, Ascends;
    var again;
    tops, order := StackCards(anchors, heights, gap);
    scrolled, again := StackCards(Shift(anchors, offset), heights, gap);
    ScrollKeepsOrder(anchors, offset, order, again);
    PickShifts(anchors, order, offset);
    hide Permutes;
    StackShifts(Pick(anchors, order), Pick(heights, order), gap, offset);
  }

  lemma PickShifts(values: seq<real>, order: seq<nat>, offset: real)
    requires forall k :: 0 <= k < |order| ==> order[k] < |values|
    ensures Pick(Shift(values, offset), order) == Shift(Pick(values, order), offset)
  {
  }

  // ---- the upward pass ----------------------------------------------------------------------------------

  /** At or above the given tops, apart, and the last card's end inside the band. */
  ghost predicate Fits(tops: seq<real>, under: seq<real>, heights: seq<real>, gap: real, band: real)
    requires |tops| == |under| == |heights|
  {
    && AtOrBelow(under, tops) && Apart(tops, heights, gap)
    && (|tops| > 0 ==> tops[|tops| - 1] + heights[|tops| - 1] <= band)
  }

  /** The upward caps over tops already shifted into the column. */
  function Cap(tops: seq<real>, heights: seq<real>, gap: real, band: real): (r: seq<real>)
    requires |tops| == |heights|
    ensures |r| == |tops|
  {
    if tops == [] then []
    else
      var below := Cap(tops[1..], heights[1..], gap, band);
      var ceiling := if |tops| == 1 then band - heights[0] else below[0] - gap - heights[0];
      [if tops[0] > ceiling then ceiling else tops[0]] + below
  }

  lemma CapNext(tops: seq<real>, heights: seq<real>, gap: real, band: real, i: nat)
    requires |tops| == |heights| && i < |tops|
    ensures var below := Cap(tops[i + 1..], heights[i + 1..], gap, band);
            var ceiling := if i == |tops| - 1 then band - heights[i] else below[0] - gap - heights[i];
            Cap(tops[i..], heights[i..], gap, band) == [if tops[i] > ceiling then ceiling else tops[i]] + below
  {
    assert tops[i..][1..] == tops[i + 1..] && heights[i..][1..] == heights[i + 1..];
  }

  lemma CapNone(gap: real, band: real)
    ensures Cap([], [], gap, band) == []
  {
  }

  /** `fitColumn`. */
  method FitColumn(docTops: seq<real>, heights: seq<real>, gap: real, band: real, scrolled: real) returns (r: seq<real>)
    requires |docTops| == |heights|
    ensures r == Cap(Shift(docTops, scrolled), heights, gap, band)
  {
    hide Cap;
    var n := |docTops|;
    var tops := new real[n](k requires 0 <= k < n => docTops[k] - scrolled);
    ghost var shifted := Shift(docTops, scrolled);
    CapNone(gap, band);
    var i := n;
    while i > 0
      invariant 0 <= i <= n
      invariant forall k :: 0 <= k < i ==> tops[k] == shifted[k]
      invariant tops[i..] == Cap(shifted[i..], heights[i..], gap, band)
    {
      i := i - 1;
      ghost var below := tops[i + 1..];
      CapNext(shifted, heights, gap, band, i);
      var ceiling := if i == n - 1 then band - heights[i] else tops[i + 1] - gap - heights[i];
      assert i < n - 1 ==> below[0] == tops[i + 1];
      if tops[i] > ceiling {
        tops[i] := ceiling;
      }
      assert tops[i + 1..] == below && tops[i..] == [tops[i]] + below;
    }
    assert shifted[0..] == shifted && heights[0..] == heights && tops[0..] == tops[..];
    r := tops[..];
  }

  lemma ApartCons(t: seq<real>, h: seq<real>, gap: real)
    requires |t| == |h| > 0
    ensures Apart(t, h, gap) <==> Apart(t[1..], h[1..], gap) && (|t| > 1 ==> t[0] + h[0] + gap <= t[1])
  {
    var (t', h') := (t[1..], h[1..]);
    assert forall k :: 1 <= k < |t| ==> t[k] == t'[k - 1] && h[k] == h'[k - 1];
  }

  lemma AtOrBelowCons(t: seq<real>, a: seq<real>)
    requires |t| == |a| > 0
    ensures AtOrBelow(t, a) <==> AtOrBelow(t[1..], a[1..]) && t[0] >= a[0]
  {
    var (t', a') := (t[1..], a[1..]);
    assert forall k :: 1 <= k < |t| ==> t[k] == t'[k - 1] && a[k] == a'[k - 1];
  }

  lemma FitsCons(t: seq<real>, u: seq<real>, h: seq<real>, gap: real, band: real)
    requires |t| == |u| == |h| > 0
    ensures Fits(t, u, h, gap, band) <==>
      && Fits(t[1..], u[1..], h[1..], gap, band) && u[0] >= t[0]
      && if |t| == 1 then t[0] + h[0] <= band else t[0] + h[0] + gap <= t[1]
  {
    hide Apart, AtOrBelow;
    ApartCons(t, h, gap);
    AtOrBelowCons(u, t);
    NoneApart(gap);
  }

  lemma NoneApart(gap: real)
    ensures Apart([], [], gap) && AtOrBelow([], [])
  {
  }

  lemma {:induction false} CapFits(tops: seq<real>, heights: seq<real>, gap: real, band: real)
    requires |tops| == |heights|
    ensures Fits(Cap(tops, heights, gap, band), tops, heights, gap, band)
  {
    if tops != [] {
      hide Fits;
      var r := Cap(tops, heights, gap, band);
      assert r[1..] == Cap(tops[1..], heights[1..], gap, band);
      CapFits(tops[1..], heights[1..], gap, band);
      FitsCons(r, tops, heights, gap, band);
    }
  }

  lemma {:induction false} CapUnder(tops: seq<real>, heights: seq<real>, gap: real, band: real, other: seq<real>)
    requires |tops| == |heights| == |other| && Fits(other, tops, heights, gap, band)
    ensures AtOrBelow(Cap(tops, heights, gap, band), other)
  {
    if tops != [] {
      hide Fits, AtOrBelow;
      var r := Cap(tops, heights, gap, band);
      assert r[1..] == Cap(tops[1..], heights[1..], gap, band);
      FitsCons(other, tops, heights, gap, band);
      CapUnder(tops[1..], heights[1..], gap, band, other[1..]);
      if |tops| > 1 {
        AtOrBelowCons(r[1..], other[1..]);
      }
      AtOrBelowCons(r, other);
    }
  }

  /** The capped column fits, and every placement that fits lies at or above it. */
  lemma CapIsGreatest(tops: seq<real>, heights: seq<real>, gap: real, band: real, other: seq<real>)
    requires |tops| == |heights| == |other|
    ensures Fits(Cap(tops, heights, gap, band), tops, heights, gap, band)
    ensures Fits(other, tops, heights, gap, band) ==> AtOrBelow(Cap(tops, heights, gap, band), other)
  {
    hide Fits, AtOrBelow, Cap;
    CapFits(tops, heights, gap, band);
    if Fits(other, tops, heights, gap, band) {
      CapUnder(tops, heights, gap, band, other);
    }
  }

  /** With gaps and heights that are not negative, every card of a fitting column ends inside the band. */
  lemma {:induction false} AllInsideTheBand(tops: seq<real>, under: seq<real>, heights: seq<real>, gap: real,
      band: real, k: nat)
    requires |tops| == |under| == |heights| && k < |tops| && Fits(tops, under, heights, gap, band)
    requires gap >= 0.0 && forall i :: 0 <= i < |heights| ==> heights[i] >= 0.0
    ensures tops[k] + heights[k] <= band
    decreases |tops| - k
  {
    if k + 1 < |tops| {
      AllInsideTheBand(tops, under, heights, gap, band, k + 1);
    }
  }

  /** A column that fits as it stands is left as it stands, and only then. */
  lemma UntouchedIffItFits(tops: seq<real>, heights: seq<real>, gap: real, band: real)
    requires |tops| == |heights|
    ensures Cap(tops, heights, gap, band) == tops <==> Fits(tops, tops, heights, gap, band)
  {
    CapIsGreatest(tops, heights, gap, band, tops);
  }
}
