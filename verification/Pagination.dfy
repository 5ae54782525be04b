/**
 Pagination (chat/turn-engine.js): an older page lands in front of the store, and only the segments
 at the boundary are derived again. Also what every derivation conserves.
 */
module Pagination {
  import opened Transcript
  import opened SpanRule
  import opened Derivation

  // ---- nothing is lost, doubled or moved further than one turn ------------------------------------

  function Flatten(shapes: seq<Shape>): seq<Entry> {
    if shapes == [] then [] else shapes[0].entries + Flatten(shapes[1..])
  }

  lemma {:induction false} FlattenConcat(a: seq<Shape>, b: seq<Shape>)
    ensures Flatten(a + b) == Flatten(a) + Flatten(b)
  {
    if a == [] {
      assert a + b == b;
    } else {
      assert (a + b)[1..] == a[1..] + b;
      FlattenConcat(a[1..], b);
    }
  }

  lemma FlattenOne(shape: Shape)
    ensures Flatten([shape]) == shape.entries
  {
    assert Flatten([shape][1..]) == [];
  }

  lemma {:induction false} SettledConserves(entries: seq<Entry>)
    ensures multiset(Flatten(Settled(Spans(entries)))) + multiset(TailOf(Spans(entries))) == multiset(entries)
  {
    if entries != [] {
      var n := |entries| - 1;
      var (a, e) := (entries[..n], entries[n]);
      assert entries == a + [e];
      SettledConserves(a);
      ReferenceSnoc(a, e);
      var span := TailOf(Spans(a)) + [e];
      if Closes(e) {
        CloseConserves(Settled(Spans(a)), span);
      }
    }
  }

  lemma CloseConserves(settled: seq<Shape>, span: seq<Entry>)
    ensures var closed := CloseOf(span);
            multiset(Flatten(settled + [closed.shape])) + multiset(closed.carried)
                == multiset(Flatten(settled)) + multiset(span)
  {
    var shape := CloseOf(span).shape;
    FlattenConcat(settled, [shape]);
    FlattenOne(shape);
    assert shape.entries == Early(span);
    EarlyLateMultiset(span);
  }

  /** Derivation loses and doubles no entry. */
  lemma DerivationConserves(entries: seq<Entry>)
    ensures multiset(Flatten(Reference(entries))) == multiset(entries)
  {
    var (settled, tail) := (Settled(Spans(entries)), TailOf(Spans(entries)));
    SettledConserves(entries);
    FlattenConcat(settled, PendingTail(tail));
    if tail != [] {
      FlattenOne(Flat(tail, true));
    }
  }

  lemma {:induction false} DistinctCount<T>(s: seq<T>)
    ensures Distinct(s) <==> forall x :: multiset(s)[x] <= 1
  {
    if s != [] {
      var (h, t) := (s[0], s[1..]);
      DistinctCount(t);
      assert s == [h] + t;
      DistinctConcat([h], t);
      assert multiset(s) == multiset{h} + multiset(t);
      assert h in t <==> multiset(t)[h] >= 1;
      if Distinct(s) {
        assert h in [h];
      } else if Distinct(t) {
        assert h in t;
        assert multiset(s)[h] >= 2;
      } else {
        var x :| multiset(t)[x] > 1;
        assert multiset(s)[x] > 1;
      }
    }
  }

  /** The entries segment `k` of a cut store shows, the open tail being the last one. */
  function Shown(spans: seq<seq<Entry>>, k: nat): seq<Entry>
    requires k < |spans|
  {
    CarryIn(spans, k) + if k == |spans| - 1 then spans[k] else Early(spans[k])
  }

  lemma ReferenceLayout(entries: seq<Entry>)
    ensures var (spans, ref) := (Spans(entries), Reference(entries));
            && |spans| - 1 <= |ref| <= |spans|
            && ref[..|spans| - 1] == Settled(spans)
            && (|ref| == |spans| <==> TailOf(spans) != [])
            && (|ref| == |spans| ==> ref[|spans| - 1] == Flat(TailOf(spans), true))
  {
  }

  /** Segment `k` shows the late inputs of arrival span k-1 and what stays of arrival span k. */
  lemma ReferenceShows(entries: seq<Entry>, k: nat)
    requires k < |Reference(entries)|
    ensures k < |Spans(entries)| && Reference(entries)[k].entries == Shown(Spans(entries), k)
  {
    var (spans, ref) := (Spans(entries), Reference(entries));
    ReferenceLayout(entries);
    if k < |spans| - 1 {
      assert ref[k] == ref[..|spans| - 1][k] == SettledAt(spans, k);
    }
  }

  /**
   An entry shows in the segment of the span it arrived in, or in the very next one. It moves exactly
   when it is an input behind its span's first assistant message, and it moves once: what span `k`
   carries out never holds what it carried in.
   */
  lemma ArrivalOrNext(entries: seq<Entry>, k: nat, e: Entry)
    requires Distinct(entries) && k < |Spans(entries)| - 1 && e in Spans(entries)[k]
    ensures var spans := Spans(entries);
            && (e in Shown(spans, k) <==> !(IsInput(e) && e in After(spans[k])))
            && (e in Shown(spans, k + 1) <==> IsInput(e) && e in After(spans[k]))
            && (forall c :: c in CarryIn(spans, k) ==> c !in CarryIn(spans, k + 1))
  {
    var spans := Spans(entries);
    hide Late, Early, After, Spans;
    SpansApart(entries, k);
    SpanDistinct(entries, k);
    KeptApart(spans[k]);
    CarryFrom(spans, k);
    CarryFrom(spans, k + 1);
    if k > 0 {
      SpansApart(entries, k - 1);
    }
    EarlyInside(spans[k + 1]);
    LateInside(spans[k]);
  }

  lemma LateInside(s: seq<Entry>)
    ensures forall x :: x in Late(s) <==> IsInput(x) && x in After(s)
    ensures forall x :: x in After(s) ==> x in s
  {
    Parts(s);
    KeepMembers(IsInput, After(s));
  }

  lemma EarlyInside(s: seq<Entry>)
    ensures forall x :: x in Early(s) ==> x in s
  {
    Parts(s);
    KeepMembers(NotInput, After(s));
  }

  lemma CarryFrom(spans: seq<seq<Entry>>, k: nat)
    requires k < |spans|
    ensures forall c :: c in CarryIn(spans, k) ==> k > 0 && c in spans[k - 1]
  {
    if k > 0 {
      LateInside(spans[k - 1]);
    }
  }

  function Joined(spans: seq<seq<Entry>>): seq<Entry> {
    if spans == [] then [] else spans[0] + Joined(spans[1..])
  }

  lemma {:induction false} SpansJoin(entries: seq<Entry>)
    ensures Joined(Spans(entries)) == entries
  {
    if entries == [] {
      assert Joined([[]][1..]) == [];
    } else {
      SpansJoin(entries[1..]);
      var (all, rest) := (Spans(entries), Spans(entries[1..]));
      if Closes(entries[0]) {
        assert all[1..] == rest;
      } else {
        assert all[1..] == rest[1..];
      }
      assert entries == [entries[0]] + entries[1..];
    }
  }

  lemma {:induction false} JoinedApart(spans: seq<seq<Entry>>, k: nat)
    requires k < |spans| && Distinct(Joined(spans))
    ensures Distinct(spans[k])
    ensures k + 1 < |spans| ==> forall x :: x in spans[k] ==> x !in spans[k + 1]
  {
    DistinctConcat(spans[0], Joined(spans[1..]));
    if k > 0 {
      JoinedApart(spans[1..], k - 1);
    } else if |spans| > 1 {
      assert Joined(spans[1..]) == spans[1] + Joined(spans[1..][1..]);
      assert forall x :: x in spans[1] ==> x in Joined(spans[1..]);
    }
  }

  lemma SpansApart(entries: seq<Entry>, k: nat)
    requires Distinct(entries) && k < |Spans(entries)| - 1
    ensures forall x :: x in Spans(entries)[k] ==> x !in Spans(entries)[k + 1]
  {
    SpansJoin(entries);
    JoinedApart(Spans(entries), k);
  }

  lemma SpanDistinct(entries: seq<Entry>, k: nat)
    requires Distinct(entries) && k < |Spans(entries)|
    ensures Distinct(Spans(entries)[k])
  {
    SpansJoin(entries);
    JoinedApart(Spans(entries), k);
  }

  // ---- merging a page -----------------------------------------------------------------------------

  datatype Merged = Merged(front: seq<Shape>, used: nat)

  /**
   The boundary loop of `prependMessages`: the segments that replace the first `used` of `rest`
   when an unclosed `region` lands in front of them.
   */
  function Merge(region: seq<Entry>, rest: seq<Shape>): (m: Merged)
    ensures m.used <= |rest|
    decreases |rest|
  {
    if region == [] then Merged([], 0)
    else if rest == [] then Merged([Flat(region, true)], 0)
    else
      var spans := Spans(region + rest[0].entries);
      if TailOf(spans) == [] then Merged(Settled(spans), 1)
      else var m := Merge(TailOf(spans), rest[1..]); Merged(Settled(spans) + m.front, 1 + m.used)
  }

  /** A closing run cuts into itself and nothing. */
  lemma ClosingSpans(s: seq<Entry>, sep: Entry)
    requires Open(s) && Closes(sep)
    ensures Spans(s + [sep]) == [s + [sep], []]
    ensures Settled(Spans(s + [sep])) == [CloseOf(s + [sep]).shape]
    ensures TailOf(Spans(s + [sep])) == Late(s + [sep])
  {
    SpansOfOpen(s);
    SpansSnoc(s, sep);
    var spans := Spans(s + [sep]);
    assert spans == [s + [sep], []];
    CloseAt(spans, 0);
    assert [] + (s + [sep]) == s + [sep];
    assert Settled(spans) == [SettledAt(spans, 0)];
    assert TailOf(spans) == Late(spans[0]) + [];
  }

  lemma OpenConcat(a: seq<Entry>, b: seq<Entry>)
    requires Open(a) && Open(b)
    ensures Open(a + b)
  {
  }

  /** A run of an open part and the early part of a closing span closes exactly once, at its end. */
  lemma OpenThenEarly(a: seq<Entry>, q: seq<Entry>)
    requires Open(a) && Closing(q) && Open(q[..|q| - 1])
    ensures var run := a + Early(q);
            && Settled(Spans(run)) == [CloseOf(run).shape] && TailOf(Spans(run)) == Late(run)
    ensures CloseOf(a + Early(q)).shape == ShapeOf(Early(a + q))
  {
    var (s, sep) := (q[..|q| - 1], q[|q| - 1]);
    assert q == s + [sep];
    ClosingParts(s, sep);
    KeepMembers(NotInput, After(s));
    Parts(s);
    assert forall e :: e in Early(s) ==> e in s;
    assert forall i :: 0 <= i < |Early(s)| ==> Early(s)[i] in Early(s);
    OpenConcat(a, Early(s));
    assert a + Early(q) == (a + Early(s)) + [sep];
    ClosingSpans(a + Early(s), sep);
    EarlyAcross(a, q);
  }

  lemma OpenRun(s: seq<Entry>)
    requires Open(s)
    ensures Settled(Spans(s)) == [] && TailOf(Spans(s)) == s
  {
    SpansOfOpen(s);
    assert [] + s == s;
  }

  // ---- incremental equals batch ---------------------------------------------------------------------

  /** The cuts of a store: every span but the last closes at its end, and the last is open. */
  ghost predicate Cuts(spans: seq<seq<Entry>>) {
    spans != [] && Open(Last(spans))
    && forall k :: 0 <= k < |spans| - 1 ==> Closing(spans[k]) && Open(spans[k][..|spans[k]| - 1])
  }

  lemma SpansAreCuts(entries: seq<Entry>)
    ensures Cuts(Spans(entries))
  {
    var spans := Spans(entries);
    SpansClosed(entries);
    assert Last(spans)[..Body(spans, |spans| - 1)] == Last(spans);
    assert forall k :: 0 <= k < |spans| - 1 ==> Body(spans, k) == |spans[k]| - 1;
  }

  lemma CutsStep(spans: seq<seq<Entry>>)
    requires Cuts(spans)
    ensures |spans| == 1 ==> Open(spans[0])
    ensures |spans| > 1 ==> Closing(spans[0]) && Open(spans[0][..|spans[0]| - 1]) && Cuts(spans[1..])
  {
    if |spans| > 1 {
      var rest := spans[1..];
      assert forall k :: 0 <= k < |rest| - 1 ==> rest[k] == spans[k + 1];
    }
  }

  /** The segments of a cut store behind the inputs `carry`, one span after the other. */
  function Segs(carry: seq<Entry>, spans: seq<seq<Entry>>): seq<Shape>
    requires spans != []
    decreases |spans|
  {
    if |spans| == 1 then PendingTail(carry + spans[0])
    else [ShapeOf(carry + Early(spans[0]))] + Segs(Late(spans[0]), spans[1..])
  }

  lemma {:induction false} SegsAreReference(spans: seq<seq<Entry>>, k: nat)
    requires k < |spans|
    ensures Segs(CarryIn(spans, k), spans[k..]) == Settled(spans)[k..] + PendingTail(TailOf(spans))
    decreases |spans| - k
  {
    hide ShapeOf, Late, Early, PendingTail;
    var settled := Settled(spans);
    if k < |spans| - 1 {
      SegsAreReference(spans, k + 1);
      assert spans[k..][1..] == spans[k + 1..] && spans[k..][0] == spans[k];
      assert settled[k] == SettledAt(spans, k);
      hide Settled;
      assert settled[k..] == [settled[k]] + settled[k + 1..];
    } else {
      assert settled[k..] == [];
    }
  }

  /** What one pass of the loop does. */
  lemma MergeStep(region: seq<Entry>, rest: seq<Shape>)
    requires region != [] && rest != []
    ensures var spans := Spans(region + rest[0].entries);
            Merge(region, rest) ==
            if TailOf(spans) == [] then Merged(Settled(spans), 1)
            else var m := Merge(TailOf(spans), rest[1..]); Merged(Settled(spans) + m.front, 1 + m.used)
  {
    hide Spans, TailOf, Settled;
  }

  lemma MergeNothing(rest: seq<Shape>)
    ensures Merge([], rest) == Merged([], 0)
  {
  }

  /** An open region in front of an open tail: one pass at most, and the tail is open still. */
  lemma MergeOpen(region: seq<Entry>, tail: seq<Entry>)
    requires Open(region) && Open(tail)
    ensures var m := Merge(region, PendingTail(tail));
            m.used <= 1 && m.front + PendingTail(tail)[m.used..] == PendingTail(region + tail)
  {
    hide ShapeOf, Spans, TailOf, Settled;
    if region != [] && tail != [] {
      OpenConcat(region, tail);
      OpenRun(region + tail);
      MergeStep(region, [Flat(tail, true)]);
    } else if region == [] {
      assert region + tail == tail;
    } else {
      assert region + tail == region;
    }
  }

  ghost predicate OnlyInputs(s: seq<Entry>) { Inputs(s) == s }

  lemma OnlyInputsOpen(s: seq<Entry>)
    requires OnlyInputs(s)
    ensures Open(s)
  {
    KeepMembers(IsInput, s);
    assert forall i :: 0 <= i < |s| ==> s[i] in s;
  }

  lemma OnlyInputsConcat(a: seq<Entry>, b: seq<Entry>)
    requires OnlyInputs(a) && OnlyInputs(b)
    ensures OnlyInputs(a + b)
  {
    KeepConcat(IsInput, a, b);
  }

  lemma LateOnlyInputs(s: seq<Entry>)
    ensures OnlyInputs(Late(s))
  {
    InputsOnly(After(s));
  }

  /** Inputs in front of a closing span stay with it, and hand nothing on. */
  lemma InputsThenEarly(inputs: seq<Entry>, q: seq<Entry>)
    requires OnlyInputs(inputs) && Closing(q) && Open(q[..|q| - 1])
    ensures var spans := Spans(inputs + Early(q));
            Settled(spans) == [ShapeOf(inputs + Early(q))] && TailOf(spans) == []
  {
    hide ShapeOf, Spans, Settled, TailOf;
    OnlyInputsOpen(inputs);
    OpenThenEarly(inputs, q);
    CarriedInFront(inputs, q);
    CarriedInFront(inputs, Early(q));
    EarlyIsFixed(q);
  }

  /** The second pass: inputs handed on meet the segment behind the boundary, and the loop is done. */
  lemma MergeHanded(handed: seq<Entry>, carry: seq<Entry>, spans: seq<seq<Entry>>)
    requires spans != [] && OnlyInputs(handed) && OnlyInputs(carry) && Cuts(spans)
    ensures var had := Segs(carry, spans);
            var m := Merge(handed, had);
            m.used <= 1 && m.front + had[m.used..] == Segs(handed + carry, spans)
  {
    hide ShapeOf, Spans, Settled, TailOf, Late, Early, Keep, Cuts, Merge, OnlyInputs, Open, Closing;
    CutsStep(spans);
    var all := handed + carry;
    if |spans| == 1 {
      OnlyInputsOpen(handed);
      OnlyInputsOpen(carry);
      OpenConcat(carry, spans[0]);
      MergeOpen(handed, carry + spans[0]);
      assert handed + (carry + spans[0]) == all + spans[0];
    } else if handed == [] {
      assert all == carry;
      MergeNothing(Segs(carry, spans));
    } else {
      HandedMeetsSettled(handed, carry, spans);
    }
  }

  lemma HandedMeetsSettled(handed: seq<Entry>, carry: seq<Entry>, spans: seq<seq<Entry>>)
    requires |spans| > 1 && handed != [] && OnlyInputs(handed) && OnlyInputs(carry) && Cuts(spans)
    ensures var had := Segs(carry, spans);
            var m := Merge(handed, had);
            m.used == 1 && m.front + had[m.used..] == Segs(handed + carry, spans)
  {
    hide ShapeOf, Spans, Settled, TailOf, Late, Early, Keep, Cuts, Merge, OnlyInputs, Open, Closing;
    CutsStep(spans);
    var (all, had) := (handed + carry, Segs(carry, spans));
    OnlyInputsConcat(handed, carry);
    InputsThenEarly(all, spans[0]);
    ShapeEntries(carry + Early(spans[0]));
    assert handed + (carry + Early(spans[0])) == all + Early(spans[0]);
    MergeStep(handed, had);
    assert had[1..] == Segs(Late(spans[0]), spans[1..]);
  }

  lemma ShapeEntries(kept: seq<Entry>)
    ensures ShapeOf(kept).entries == kept
  {
  }

  /** The first pass: the open region takes the first settled segment apart, or the open tail in. */
  lemma MergeRegion(carry: seq<Entry>, p: seq<Entry>, q: seq<seq<Entry>>)
    requires q != [] && OnlyInputs(carry) && Open(p) && Cuts(q)
    ensures var had := Segs([], q);
            var m := Merge(carry + p, had);
            m.used <= 2 && m.front + had[m.used..] == Segs(carry, [p + q[0]] + q[1..])
  {
    hide ShapeOf, Spans, Settled, TailOf, Late, Early, Keep, Cuts, OnlyInputs, Open, Closing, Merge;
    CutsStep(q);
    var region := carry + p;
    OnlyInputsOpen(carry);
    OpenConcat(carry, p);
    var glued := [p + q[0]] + q[1..];
    assert glued[1..] == q[1..];
    assert [] + q[0] == q[0];
    if |q| == 1 {
      MergeOpen(region, q[0]);
      assert region + q[0] == carry + (p + q[0]);
    } else if region == [] {
      assert p == [] && carry == [] && glued == q;
      MergeNothing(Segs([], q));
    } else {
      RegionMeetsSettled(carry, p, q);
    }
  }

  /** The region and the first settled segment close together, and hand on what the region made late. */
  lemma FirstPass(carry: seq<Entry>, p: seq<Entry>, q0: seq<Entry>)
    requires OnlyInputs(carry) && Open(carry + p) && Closing(q0) && Open(q0[..|q0| - 1])
    ensures var spans := Spans(carry + p + Early(q0));
            && Settled(spans) == [ShapeOf(carry + Early(p + q0))]
            && TailOf(spans) == Late(p + Early(q0))
  {
    hide ShapeOf, Spans, Settled, TailOf, Late, Early, OnlyInputs, Open;
    assert Inputs(carry) == carry by {
      hide *;
      OnlyInputsMeans(carry);
    }
    var region := carry + p;
    OpenThenEarly(region, q0);
    assert region + q0 == carry + (p + q0) && region + Early(q0) == carry + (p + Early(q0));
    CarriedInFront(carry, p + q0);
    CarriedInFront(carry, p + Early(q0));
  }

  lemma OnlyInputsMeans(s: seq<Entry>)
    requires OnlyInputs(s)
    ensures Inputs(s) == s
  {
  }

  lemma RegionMeetsSettled(carry: seq<Entry>, p: seq<Entry>, q: seq<seq<Entry>>)
    requires OnlyInputs(carry) && Open(carry + p) && |q| > 1 && Cuts(q) && carry + p != []
    ensures var had := Segs([], q);
            var m := Merge(carry + p, had);
            m.used <= 2 && m.front + had[m.used..] == Segs(carry, [p + q[0]] + q[1..])
  {
    hide ShapeOf, Spans, Settled, TailOf, Late, Early, Keep, Cuts, OnlyInputs, Merge, Open, Closing, Segs;
    CutsStep(q);
    var (had, behind) := (Segs([], q), Segs(Late(q[0]), q[1..]));
    var handed := Late(p + Early(q[0]));
    SegsHead([], q);
    assert [] + Early(q[0]) == Early(q[0]);
    ShapeEntries(Early(q[0]));
    FirstPass(carry, p, q[0]);
    MergeStep(carry + p, had);
    EarlyAcross(p, q[0]);
    LateOnlyInputs(p + Early(q[0]));
    LateOnlyInputs(q[0]);
    MergeHanded(handed, Late(q[0]), q[1..]);
    MergeNothing(behind);
    var glued := [p + q[0]] + q[1..];
    assert glued[1..] == q[1..];
    SegsHead(carry, glued);
    var m := Merge(handed, behind);
    BehindFirst(had[0], behind, ShapeOf(carry + Early(p + q[0])), m.front, m.used);
  }

  lemma SegsHead(carry: seq<Entry>, spans: seq<seq<Entry>>)
    requires |spans| > 1
    ensures Segs(carry, spans) == [ShapeOf(carry + Early(spans[0]))] + Segs(Late(spans[0]), spans[1..])
  {
  }

  lemma BehindFirst<T>(x: T, behind: seq<T>, y: T, front: seq<T>, used: nat)
    requires used <= |behind|
    ensures [y] + front + ([x] + behind)[1 + used..] == [y] + (front + behind[used..])
    ensures ([x] + behind)[1..] == behind
  {
    assert ([x] + behind)[1 + used..] == behind[used..];
  }

  /** The page's settled segments stand unchanged in front of the boundary. */
  lemma {:induction false} SegsSkip(p: seq<seq<Entry>>, q: seq<seq<Entry>>, k: nat)
    requires p != [] && q != [] && k < |p|
    ensures var (n, b) := (Glue(p, q), |p| - 1);
            Segs(CarryIn(n, k), n[k..]) == Settled(p)[k..] + Segs(CarryIn(p, b), [Last(p) + q[0]] + q[1..])
    decreases |p| - k
  {
    hide ShapeOf, Late, Early;
    var (n, b) := (Glue(p, q), |p| - 1);
    assert k > 0 ==> n[k - 1] == p[k - 1];
    if k == b {
      assert n[k..] == [Last(p) + q[0]] + q[1..];
    } else {
      SegsSkip(p, q, k + 1);
      assert n[k] == p[k] && n[k..][1..] == n[k + 1..];
      assert Settled(p)[k..] == [SettledAt(p, k)] + Settled(p)[k + 1..];
    }
  }

  /** The spliced list: the page's settled prefix, the merged boundary, and the old segments behind it. */
  function Spliced(page: seq<Entry>, store: seq<Entry>): seq<Shape> {
    var (p, had) := (Spans(page), Reference(store));
    var m := Merge(TailOf(p), had);
    Settled(p) + m.front + had[m.used..]
  }

  /**
   Prepending a page by merging at the boundary gives the segments of the whole store, and derives at
   most two existing segments again, whatever the page and the store hold.
   */
  lemma PrependIsBatch(page: seq<Entry>, store: seq<Entry>)
    ensures Spliced(page, store) == Reference(page + store)
    ensures Merge(TailOf(Spans(page)), Reference(store)).used <= 2
  {
    hide ShapeOf, Late, Early, Spans, Merge, Segs, Settled, Cuts;
    var (p, q, b) := (Spans(page), Spans(store), |Spans(page)| - 1);
    var n := Glue(p, q);
    SpansConcat(page, store);
    SpansAreCuts(page);
    SpansAreCuts(store);
    SegsWhole(store);
    SegsWhole(page + store);
    SegsSkip(p, q, 0);
    assert n[0..] == n && Settled(p)[0..] == Settled(p);
    CarryInIsInputs(p, b);
    LastCutOpen(p);
    MergeRegion(CarryIn(p, b), Last(p), q);
    var (had, m) := (Reference(store), Merge(TailOf(p), Reference(store)));
    assert Settled(p) + m.front + had[m.used..] == Settled(p) + (m.front + had[m.used..]);
  }

  lemma LastCutOpen(p: seq<seq<Entry>>)
    requires Cuts(p)
    ensures Open(Last(p))
  {
  }

  lemma SegsWhole(entries: seq<Entry>)
    ensures Segs([], Spans(entries)) == Reference(entries)
  {
    hide ShapeOf, Late, Early, Spans, Segs;
    var spans := Spans(entries);
    SegsAreReference(spans, 0);
    assert spans[0..] == spans && Settled(spans)[0..] == Settled(spans);
  }

  /** A prepend never leaves fewer segments than there were. */
  lemma PrependGrows(page: seq<Entry>, store: seq<Entry>)
    ensures |Reference(page + store)| >= |Reference(store)|
  {
    hide ShapeOf, Late, Early, Spans, Settled;
    var (p, q) := (Spans(page), Spans(store));
    SpansConcat(page, store);
    ReferenceLayout(page + store);
    ReferenceLayout(store);
    if |p| == 1 && TailOf(q) != [] {
      EarlyAcross(p[0], q[0]);
    }
  }

  /** Re-deriving a run keeps the entries it hands on apart from the ones behind it. */
  lemma HandedDistinct(run: seq<Entry>, rest: seq<Entry>)
    requires Distinct(run + rest)
    ensures Distinct(run) && Distinct(TailOf(Spans(run)) + rest)
  {
    hide Spans, TailOf, Settled;
    var tail := TailOf(Spans(run));
    SettledConserves(run);
    DistinctConcat(run, rest);
    DistinctCount(run);
    DistinctCount(tail);
    assert forall x :: multiset(tail)[x] <= multiset(run)[x];
    forall x | x in tail
      ensures x in run
    {
      assert multiset(tail)[x] >= 1;
      assert multiset(run)[x] >= 1;
    }
    DistinctConcat(tail, rest);
  }

  /** Two stores without a common entry derive into segments and tails without one. */
  lemma DerivedDistinct(page: seq<Entry>, store: seq<Entry>)
    requires Distinct(page + store)
    ensures Distinct(page) && Distinct(TailOf(Spans(page)) + Flatten(Reference(store)))
  {
    hide Reference, Spans, TailOf;
    DerivationConserves(store);
    var flat := Flatten(Reference(store));
    assert multiset(page + store) == multiset(page + flat);
    DistinctCount(page + store);
    DistinctCount(page + flat);
    HandedDistinct(page, flat);
  }

  // ---- whole runs -------------------------------------------------------------------------------------

  /** What can happen to a store: a mount, a live message, an older page, a view switch. */
  datatype Event = Mounted(page: seq<Entry>) | Appended(entry: Entry) | Prepended(page: seq<Entry>) | Switched

  datatype Chat = Chat(store: seq<Entry>, shapes: seq<Shape>)

  predicate IsPending(shape: Shape) { shape.Flat? && shape.pending }

  /** The incremental step of a live message: the last pending segment grows, or closes. */
  function Grown(shapes: seq<Shape>, entry: Entry): seq<Shape> {
    var n := |shapes| - 1;
    var open := shapes != [] && IsPending(shapes[n]);
    var (front, span) := (if open then shapes[..n] else shapes, if open then shapes[n].entries + [entry] else [entry]);
    if Closes(entry) then front + [CloseOf(span).shape] + PendingTail(CloseOf(span).carried)
    else front + [Flat(span, true)]
  }

  /** One event: mount and switch derive everything, the two others only touch the ends. */
  function Step(chat: Chat, event: Event): Chat {
    match event
    case Mounted(page) => Chat(chat.store + page, Reference(chat.store + page))
    case Switched => Chat(chat.store, Reference(chat.store))
    case Appended(entry) => Chat(chat.store + [entry], Grown(chat.shapes, entry))
    case Prepended(page) =>
      var m := Merge(TailOf(Spans(page)), chat.shapes);
      Chat(page + chat.store, Settled(Spans(page)) + m.front + chat.shapes[m.used..])
  }

  function Run(chat: Chat, events: seq<Event>): Chat
    decreases |events|
  {
    if events == [] then chat else Run(Step(chat, events[0]), events[1..])
  }

  lemma GrownIsBatch(store: seq<Entry>, entry: Entry)
    ensures Grown(Reference(store), entry) == Reference(store + [entry])
  {
    hide Spans, TailOf, CloseOf, SettledAt;
    var (settled, tail) := (Settled(Spans(store)), TailOf(Spans(store)));
    ReferenceSnoc(store, entry);
    NoneSettledPending(Spans(store));
    var shapes := Reference(store);
    if tail == [] {
      assert shapes == settled;
      assert tail + [entry] == [entry];
    } else {
      assert shapes[|shapes| - 1] == Flat(tail, true) && shapes[..|shapes| - 1] == settled;
    }
  }

  lemma NoneSettledPending(spans: seq<seq<Entry>>)
    requires spans != []
    ensures forall k :: 0 <= k < |Settled(spans)| ==> !IsPending(Settled(spans)[k])
  {
  }

  /** After any interleaving the segments are the batch derivation of the whole store. */
  lemma {:induction false} RunIsBatch(chat: Chat, events: seq<Event>)
    requires chat.shapes == Reference(chat.store)
    ensures Run(chat, events).shapes == Reference(Run(chat, events).store)
    decreases |events|
  {
    hide Reference, Merge, Spans, TailOf, Settled, Grown, Spliced;
    if events != [] {
      match events[0] {
        case Appended(entry) => GrownIsBatch(chat.store, entry);
        case Prepended(page) =>
          PrependIsBatch(page, chat.store);
          SplicedIs(page, chat.store);
        case _ =>
      }
      RunIsBatch(Step(chat, events[0]), events[1..]);
    }
  }

  lemma SplicedIs(page: seq<Entry>, store: seq<Entry>)
    ensures var m := Merge(TailOf(Spans(page)), Reference(store));
            Spliced(page, store) == Settled(Spans(page)) + m.front + Reference(store)[m.used..]
  {
  }
}
