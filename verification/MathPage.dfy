/** The pre-render walk over a page (prerender_math.js): protected ranges are copied, the runs between them rendered. */
module MathPage {
  import opened MathSpans

  /** A stretch of the page that the scan never enters. */
  datatype Range = Range(start: nat, end: nat)

  ghost predicate Covers(ranges: seq<Range>, p: nat) { exists r :: r in ranges && r.start <= p < r.end }

  ghost predicate ByStart(ranges: seq<Range>) {
    forall i, j :: 0 <= i < j < |ranges| ==> ranges[i].start <= ranges[j].start
  }
  ghost predicate Inside(ranges: seq<Range>, n: nat) {
    forall k :: 0 <= k < |ranges| ==> ranges[k].start <= ranges[k].end <= n
  }

  /** In order, and with at least one place between each and the next. */
  ghost predicate Separated(ranges: seq<Range>) {
    forall i, j :: 0 <= i < j < |ranges| ==> ranges[i].end < ranges[j].start
  }

  // ---- sorting and merging ------------------------------------------------------------------------------

  ghost predicate SameRanges(a: seq<Range>, b: seq<Range>) { |a| == |b| && forall r :: r in a <==> r in b }

  method SortByStart(ranges: seq<Range>) returns (sorted: seq<Range>)
    ensures ByStart(sorted) && SameRanges(sorted, ranges)
  {
    sorted := [];
    for n := 0 to |ranges|
      invariant ByStart(sorted) && SameRanges(sorted, ranges[..n])
    {
      hide SameRanges;
      var r, p := ranges[n], n;
      while p > 0 && sorted[p - 1].start > r.start
        invariant 0 <= p <= n && forall k :: p <= k < n ==> sorted[k].start > r.start
      {
        p := p - 1;
      }
      Inserted(sorted, p, r);
      InsertedHolds(sorted, p, r, ranges[..n]);
      assert ranges[..n + 1] == ranges[..n] + [r];
      sorted := sorted[..p] + [r] + sorted[p..];
    }
    assert ranges[..|ranges|] == ranges;
  }

  lemma Inserted(sorted: seq<Range>, p: nat, r: Range)
    requires p <= |sorted| && ByStart(sorted) && (p > 0 ==> sorted[p - 1].start <= r.start)
    requires forall k :: p <= k < |sorted| ==> sorted[k].start > r.start
    ensures ByStart(sorted[..p] + [r] + sorted[p..])
  {
    var now := sorted[..p] + [r] + sorted[p..];
    assert forall k :: 0 <= k < |now| ==> now[k] == if k < p then sorted[k] else if k == p then r else sorted[k - 1];
    assert forall k :: 0 <= k < p ==> sorted[k].start <= r.start;
  }

  lemma InsertedHolds(sorted: seq<Range>, p: nat, r: Range, before: seq<Range>)
    requires p <= |sorted| && SameRanges(sorted, before)
    ensures SameRanges(sorted[..p] + [r] + sorted[p..], before + [r])
  {
    assert sorted == sorted[..p] + sorted[p..];
  }

  /** One more range: grown into the last merged one when it starts at or before its end, else a new one. */
  function MergeNext(merged: seq<Range>, r: Range): seq<Range> {
    if merged != [] && r.start <= merged[|merged| - 1].end then
      var last := merged[|merged| - 1];
      merged[..|merged| - 1] + [Range(last.start, if last.end >= r.end then last.end else r.end)]
    else merged + [r]
  }

  lemma MergeKeeps(merged: seq<Range>, r: Range, n: nat)
    requires Separated(merged) && Inside(merged, n) && r.start <= r.end <= n
    requires merged != [] ==> merged[|merged| - 1].start <= r.start
    ensures var next := MergeNext(merged, r);
            Separated(next) && Inside(next, n) && next != [] && next[|next| - 1].start <= r.start
  {
  }

  lemma MergeCovers(merged: seq<Range>, r: Range, p: nat)
    requires merged != [] ==>
             merged[|merged| - 1].start <= r.start && merged[|merged| - 1].start <= merged[|merged| - 1].end
    requires r.start <= r.end
    ensures Covers(MergeNext(merged, r), p) <==> Covers(merged, p) || r.start <= p < r.end
  {
    var next := MergeNext(merged, r);
    if merged != [] && r.start <= merged[|merged| - 1].end {
      var (front, last) := (merged[..|merged| - 1], merged[|merged| - 1]);
      var grown := next[|merged| - 1];
      assert merged == front + [last] && next == front + [grown];
      CoversSnoc(front, last, p);
      CoversSnoc(front, grown, p);
    } else {
      CoversSnoc(merged, r, p);
    }
  }

  lemma CoversSnoc(ranges: seq<Range>, r: Range, p: nat)
    ensures Covers(ranges + [r], p) <==> Covers(ranges, p) || r.start <= p < r.end
  {
    if Covers(ranges, p) {
      var q :| q in ranges && q.start <= p < q.end;
      assert q in ranges + [r];
    }
    assert r in ranges + [r];
  }

  /** The sort and merge of `protectedRanges`: sorted, apart, and covering exactly what the ranges cover. */
  method MergeRanges(ranges: seq<Range>, n: nat) returns (merged: seq<Range>)
    requires Inside(ranges, n)
    ensures Separated(merged) && Inside(merged, n)
    ensures forall p: nat :: Covers(merged, p) <==> Covers(ranges, p)
  {
    var sorted := SortByStart(ranges);
    InsideSame(ranges, sorted, n);
    merged := [];
    for k := 0 to |sorted|
      invariant Separated(merged) && Inside(merged, n)
      invariant merged != [] ==> k > 0 && merged[|merged| - 1].start <= sorted[k - 1].start
      invariant forall p: nat :: Covers(merged, p) <==> Covers(sorted[..k], p)
    {
      hide Covers;
      var r := sorted[k];
      assert sorted[..k + 1] == sorted[..k] + [r];
      forall p: nat
        ensures Covers(MergeNext(merged, r), p) <==> Covers(sorted[..k + 1], p)
      {
        MergeCovers(merged, r, p);
        CoversSnoc(sorted[..k], r, p);
      }
      MergeKeeps(merged, r, n);
      if merged != [] && r.start <= merged[|merged| - 1].end {
        var last := merged[|merged| - 1];
        merged := merged[..|merged| - 1] + [Range(last.start, if last.end >= r.end then last.end else r.end)];
      } else {
        merged := merged + [r];
      }
    }
    assert sorted[..|sorted|] == sorted;
  }

  lemma InsideSame(ranges: seq<Range>, sorted: seq<Range>, n: nat)
    requires Inside(ranges, n) && SameRanges(sorted, ranges)
    ensures Inside(sorted, n)
  {
    forall k | 0 <= k < |sorted|
      ensures sorted[k].start <= sorted[k].end <= n
    {
      assert sorted[k] in ranges;
    }
  }

  // ---- rendering ----------------------------------------------------------------------------------------

  /** What a run between protected ranges becomes. */
  function Run(text: string, show: Show): string {
    ScanIsLeftmost(text);
    LeftmostAscends(text, Scan(text, 0), 0);
    Assembled(text, Scan(text, 0), 0, show)
  }

  lemma {:induction false} AssembledNext(text: string, spans: seq<Span>, k: nat, from: nat, show: Show)
    requires k < |spans| && Ordered(text, spans[k..], from)
    ensures Ordered(text, spans[k + 1..], spans[k].end)
    ensures Assembled(text, spans[k..], from, show)
         == text[from..spans[k].start] + show(text[spans[k].start..spans[k].end], spans[k].display)
            + Assembled(text, spans[k + 1..], spans[k].end, show)
  {
    var rest := spans[k..];
    assert rest[0] == spans[k] && rest[1..] == spans[k + 1..];
    assert forall j :: 1 <= j < |rest| ==> rest[j] == rest[1..][j - 1];
  }

  type Katex = (string, bool) -> string

  /** Where the output goes on behind span `k - 1`, and the text. */
  function OutAt(ends: seq<nat>, k: nat): nat
    requires k <= |ends|
  {
    if k == 0 then 0 else ends[k - 1]
  }
  function TextAt(spans: seq<Span>, k: nat): nat
    requires k <= |spans|
  {
    if k == 0 then 0 else spans[k - 1].end
  }

  /** The output up to `starts[k]` is the text before span `k`, and from there to `ends[k]` KaTeX of its content. */
  ghost predicate SpanLaid(text: string, spans: seq<Span>, out: string, katex: Katex, starts: seq<nat>, ends: seq<nat>,
                           k: nat)
    requires k < |spans| && k < |starts| && k < |ends|
  {
    var s := spans[k];
    && TextAt(spans, k) <= s.start < s.end <= |text| && OutAt(ends, k) <= starts[k] <= ends[k] <= |out|
    && out[OutAt(ends, k)..starts[k]] == text[TextAt(spans, k)..s.start]
    && out[starts[k]..ends[k]] == katex(ContentOf(text[s.start..s.end]), s.display)
  }

  /** The whole output: the spans in order, each rendered, and the text around them as it stands. */
  ghost predicate Laid(text: string, spans: seq<Span>, out: string, katex: Katex, starts: seq<nat>, ends: seq<nat>) {
    && |starts| == |ends| == |spans|
    && (forall k :: 0 <= k < |spans| ==> SpanLaid(text, spans, out, katex, starts, ends, k))
    && TextAt(spans, |spans|) <= |text| && OutAt(ends, |spans|) <= |out|
    && out[OutAt(ends, |spans|)..] == text[TextAt(spans, |spans|)..]
  }

  /** A rendered run: its leftmost math spans are rendered, and nothing else of it is touched. */
  ghost predicate Rendered(text: string, out: string, katex: Katex) {
    exists spans: seq<Span>, starts: seq<nat>, ends: seq<nat> ::
      Leftmost(text, spans, 0) && Laid(text, spans, out, katex, starts, ends)
  }

  /** What was laid stays as the output grows. */
  lemma LaidStays(text: string, spans: seq<Span>, out: string, katex: Katex, starts: seq<nat>, ends: seq<nat>, k: nat,
                  more: string, starts': seq<nat>, ends': seq<nat>)
    requires k < |spans| && k < |starts| && k < |ends| && SpanLaid(text, spans, out, katex, starts, ends, k)
    requires starts <= starts' && ends <= ends'
    ensures SpanLaid(text, spans, out + more, katex, starts', ends', k)
  {
    var longer := out + more;
    assert starts'[k] == starts[k] && ends'[k] == ends[k] && OutAt(ends', k) == OutAt(ends, k);
    assert longer[OutAt(ends, k)..starts[k]] == out[OutAt(ends, k)..starts[k]];
    assert longer[starts[k]..ends[k]] == out[starts[k]..ends[k]];
  }

  lemma LaidNext(text: string, spans: seq<Span>, out: string, katex: Katex, starts: seq<nat>, ends: seq<nat>, k: nat,
                 plain: string, shown: string, out': string, starts': seq<nat>, ends': seq<nat>)
    requires out' == out + plain + shown && starts' == starts + [|out| + |plain|] && ends' == ends + [|out'|]
    requires |starts| == |ends| == k < |spans| && OutAt(ends, k) == |out|
    requires TextAt(spans, k) <= spans[k].start < spans[k].end <= |text|
    requires plain == text[TextAt(spans, k)..spans[k].start]
    requires shown == katex(ContentOf(text[spans[k].start..spans[k].end]), spans[k].display)
    requires forall i :: 0 <= i < k ==> SpanLaid(text, spans, out, katex, starts, ends, i)
    ensures forall i :: 0 <= i <= k ==> SpanLaid(text, spans, out', katex, starts', ends', i)
  {
    var more := plain + shown;
    assert out + more == out';
    forall i | 0 <= i <= k
      ensures SpanLaid(text, spans, out', katex, starts', ends', i)
    {
      if i < k {
        LaidStays(text, spans, out, katex, starts, ends, i, more, starts', ends');
      } else {
        assert OutAt(ends', k) == |out|;
        assert out'[|out|..|out| + |plain|] == plain && out'[|out| + |plain|..|out'|] == shown;
      }
    }
  }

  lemma LaidWhole(text: string, spans: seq<Span>, out: string, katex: Katex, starts: seq<nat>, ends: seq<nat>)
    requires |starts| == |ends| == |spans| && OutAt(ends, |spans|) == |out| && TextAt(spans, |spans|) <= |text|
    requires forall i :: 0 <= i < |spans| ==> SpanLaid(text, spans, out, katex, starts, ends, i)
    ensures Laid(text, spans, out + text[TextAt(spans, |spans|)..], katex, starts, ends)
  {
    var tail := text[TextAt(spans, |spans|)..];
    forall i | 0 <= i < |spans|
      ensures SpanLaid(text, spans, out + tail, katex, starts, ends, i)
    {
      LaidStays(text, spans, out, katex, starts, ends, i, tail, starts, ends);
    }
    assert (out + tail)[|out|..] == tail;
  }

  /** An output laid out so is the assembled text: there is one only. */
  lemma {:induction false} LaidIsAssembled(text: string, spans: seq<Span>, out: string, katex: Katex, starts: seq<nat>,
                                           ends: seq<nat>, show: Show, k: nat)
    requires Laid(text, spans, out, katex, starts, ends) && k <= |spans| && Ordered(text, spans[k..], TextAt(spans, k))
    requires forall raw, display :: show(raw, display) == katex(ContentOf(raw), display)
    ensures OutAt(ends, k) <= |out| && out[OutAt(ends, k)..] == Assembled(text, spans[k..], TextAt(spans, k), show)
    decreases |spans| - k
  {
    if k < |spans| {
      assert SpanLaid(text, spans, out, katex, starts, ends, k);
      AssembledNext(text, spans, k, TextAt(spans, k), show);
      LaidIsAssembled(text, spans, out, katex, starts, ends, show, k + 1);
      hide Assembled, Laid, ContentOf;
      assert out[OutAt(ends, k)..] == out[OutAt(ends, k)..starts[k]] + out[starts[k]..ends[k]] + out[ends[k]..];
    }
  }

  lemma RenderedIsRun(text: string, out: string, katex: Katex, show: Show)
    requires Rendered(text, out, katex)
    requires forall raw, display :: show(raw, display) == katex(ContentOf(raw), display)
    ensures out == Run(text, show)
  {
    hide Laid, Assembled, ContentOf;
    var spans: seq<Span>, starts: seq<nat>, ends: seq<nat> :|
      Leftmost(text, spans, 0) && Laid(text, spans, out, katex, starts, ends);
    ScanIsLeftmost(text);
    LeftmostIsUnique(text, spans, Scan(text, 0), 0);
    LeftmostAscends(text, spans, 0);
    hide Leftmost;
    assert spans[0..] == spans && out[0..] == out;
    LaidIsAssembled(text, spans, out, katex, starts, ends, show, 0);
  }

  /** `renderRun`, with KaTeX as any function of a span's content and mode. */
  method RenderRun(text: string, katex: Katex) returns (out: string)
    ensures Rendered(text, out, katex)
    ensures out == Run(text, (raw, display) => katex(ContentOf(raw), display))
  {
    hide SpanLaid, Laid, Ordered, ContentOf, Run, Rendered;
    var spans := ScanMathSpans(text);
    LeftmostAscends(text, spans, 0);
    OrderedFrom(text, spans);
    out := "";
    var cursor: nat := 0;
    ghost var starts: seq<nat>, ends: seq<nat> := [], [];
    for k := 0 to |spans|
      invariant cursor == TextAt(spans, k) <= |text|
      invariant |starts| == |ends| == k && OutAt(ends, k) == |out|
      invariant forall i :: 0 <= i < k ==> SpanLaid(text, spans, out, katex, starts, ends, i)
    {
      var span := spans[k];
      var (plain, shown) := (text[cursor..span.start], katex(ContentOf(text[span.start..span.end]), span.display));
      ghost var before := out;
      out := out + plain;
      out := out + shown;
      ghost var (starts', ends') := (starts + [|before| + |plain|], ends + [|out|]);
      LaidNext(text, spans, before, katex, starts, ends, k, plain, shown, out, starts', ends');
      starts, ends := starts', ends';
      cursor := span.end;
    }
    LaidWhole(text, spans, out, katex, starts, ends);
    out := out + text[cursor..];
    RenderedBy(text, spans, out, katex, starts, ends);
    RenderedIsRun(text, out, katex, (raw, display) => katex(ContentOf(raw), display));
  }

  lemma RenderedBy(text: string, spans: seq<Span>, out: string, katex: Katex, starts: seq<nat>, ends: seq<nat>)
    requires Leftmost(text, spans, 0) && Laid(text, spans, out, katex, starts, ends)
    ensures Rendered(text, out, katex)
  {
  }

  lemma OrderedFrom(text: string, spans: seq<Span>)
    requires Ordered(text, spans, 0)
    ensures forall k :: 0 <= k < |spans| ==> TextAt(spans, k) <= spans[k].start < spans[k].end <= |text|
    ensures forall k :: 0 <= k <= |spans| ==> TextAt(spans, k) <= |text|
  {
  }

  ghost predicate Walkable(html: string, ranges: seq<Range>, cursor: nat) {
    cursor <= |html| && Inside(ranges, |html|) && Separated(ranges) && (ranges != [] ==> cursor <= ranges[0].start)
  }

  /** The page from `cursor` on: each protected range as it stands, each run between them rendered. */
  function Page(html: string, ranges: seq<Range>, cursor: nat, show: Show): string
    requires Walkable(html, ranges, cursor)
  {
    if ranges == [] then Run(html[cursor..], show)
    else
      var r := ranges[0];
      Run(html[cursor..r.start], show) + html[r.start..r.end] + Page(html, ranges[1..], r.end, show)
  }

  function HtmlAt(ranges: seq<Range>, k: nat): nat
    requires k <= |ranges|
  {
    if k == 0 then 0 else ranges[k - 1].end
  }

  /**
   The output up to `starts[k]` is the run before range `k`, rendered, and from there to `ends[k]` the range
   itself.
   */
  ghost predicate RangeLaid(html: string, ranges: seq<Range>, out: string, katex: Katex, starts: seq<nat>,
                            ends: seq<nat>, k: nat)
    requires k < |ranges| && k < |starts| && k < |ends|
  {
    var r := ranges[k];
    && HtmlAt(ranges, k) <= r.start <= r.end <= |html| && OutAt(ends, k) <= starts[k] <= ends[k] <= |out|
    && Rendered(html[HtmlAt(ranges, k)..r.start], out[OutAt(ends, k)..starts[k]], katex)
    && out[starts[k]..ends[k]] == html[r.start..r.end]
  }

  /** The whole page: every protected range as it stands, every run between them rendered, in order. */
  ghost predicate PageLaid(html: string, ranges: seq<Range>, out: string, katex: Katex, starts: seq<nat>,
      ends: seq<nat>) {
    && |starts| == |ends| == |ranges|
    && (forall k :: 0 <= k < |ranges| ==> RangeLaid(html, ranges, out, katex, starts, ends, k))
    && HtmlAt(ranges, |ranges|) <= |html| && OutAt(ends, |ranges|) <= |out|
    && Rendered(html[HtmlAt(ranges, |ranges|)..], out[OutAt(ends, |ranges|)..], katex)
  }

  lemma RangeStays(html: string, ranges: seq<Range>, out: string, katex: Katex, starts: seq<nat>, ends: seq<nat>,
                   k: nat, more: string, starts': seq<nat>, ends': seq<nat>)
    requires k < |ranges| && k < |starts| && k < |ends| && RangeLaid(html, ranges, out, katex, starts, ends, k)
    requires starts <= starts' && ends <= ends'
    ensures RangeLaid(html, ranges, out + more, katex, starts', ends', k)
  {
    hide Rendered;
    var longer := out + more;
    assert starts'[k] == starts[k] && ends'[k] == ends[k] && OutAt(ends', k) == OutAt(ends, k);
    assert longer[OutAt(ends, k)..starts[k]] == out[OutAt(ends, k)..starts[k]];
    assert longer[starts[k]..ends[k]] == out[starts[k]..ends[k]];
  }

  lemma RangeNext(html: string, ranges: seq<Range>, out: string, katex: Katex, starts: seq<nat>, ends: seq<nat>, k: nat,
                  run: string, plain: string, out': string, starts': seq<nat>, ends': seq<nat>)
    requires out' == out + run + plain && starts' == starts + [|out| + |run|] && ends' == ends + [|out'|]
    requires |starts| == |ends| == k < |ranges| && OutAt(ends, k) == |out|
    requires HtmlAt(ranges, k) <= ranges[k].start <= ranges[k].end <= |html|
    requires Rendered(html[HtmlAt(ranges, k)..ranges[k].start], run, katex)
    requires plain == html[ranges[k].start..ranges[k].end]
    requires forall i :: 0 <= i < k ==> RangeLaid(html, ranges, out, katex, starts, ends, i)
    ensures forall i :: 0 <= i <= k ==> RangeLaid(html, ranges, out', katex, starts', ends', i)
  {
    hide Rendered;
    var more := run + plain;
    assert out + more == out';
    forall i | 0 <= i <= k
      ensures RangeLaid(html, ranges, out', katex, starts', ends', i)
    {
      if i < k {
        RangeStays(html, ranges, out, katex, starts, ends, i, more, starts', ends');
      } else {
        assert OutAt(ends', k) == |out|;
        assert out'[|out|..|out| + |run|] == run && out'[|out| + |run|..|out'|] == plain;
      }
    }
  }

  lemma PageWhole(html: string, ranges: seq<Range>, out: string, katex: Katex, starts: seq<nat>, ends: seq<nat>,
                  run: string)
    requires |starts| == |ends| == |ranges| && OutAt(ends, |ranges|) == |out| && HtmlAt(ranges, |ranges|) <= |html|
    requires forall i :: 0 <= i < |ranges| ==> RangeLaid(html, ranges, out, katex, starts, ends, i)
    requires Rendered(html[HtmlAt(ranges, |ranges|)..], run, katex)
    ensures PageLaid(html, ranges, out + run, katex, starts, ends)
  {
    hide Rendered;
    forall i | 0 <= i < |ranges|
      ensures RangeLaid(html, ranges, out + run, katex, starts, ends, i)
    {
      RangeStays(html, ranges, out, katex, starts, ends, i, run, starts, ends);
    }
    assert (out + run)[|out|..] == run;
  }

  /** A page laid out so is `Page`: there is one only. */
  lemma {:induction false} LaidIsPage(html: string, ranges: seq<Range>, out: string, katex: Katex, starts: seq<nat>,
                                      ends: seq<nat>, show: Show, k: nat)
    requires PageLaid(html, ranges, out, katex, starts, ends) && k <= |ranges|
    requires Walkable(html, ranges[k..], HtmlAt(ranges, k))
    requires forall raw, display :: show(raw, display) == katex(ContentOf(raw), display)
    ensures OutAt(ends, k) <= |out| && out[OutAt(ends, k)..] == Page(html, ranges[k..], HtmlAt(ranges, k), show)
    decreases |ranges| - k
  {
    hide Rendered, Run, ContentOf;
    if k < |ranges| {
      var r := ranges[k];
      assert RangeLaid(html, ranges, out, katex, starts, ends, k);
      PageNext(html, ranges, k, HtmlAt(ranges, k), show);
      RenderedIsRun(html[HtmlAt(ranges, k)..r.start], out[OutAt(ends, k)..starts[k]], katex, show);
      LaidIsPage(html, ranges, out, katex, starts, ends, show, k + 1);
      hide Page, PageLaid, Walkable;
      assert out[OutAt(ends, k)..] == out[OutAt(ends, k)..starts[k]] + out[starts[k]..ends[k]] + out[ends[k]..];
    } else {
      RenderedIsRun(html[HtmlAt(ranges, k)..], out[OutAt(ends, k)..], katex, show);
    }
  }

  /** `prerenderMath` over the protected ranges found in the page. */
  method PrerenderMath(html: string, found: seq<Range>, katex: Katex)
      returns (out: string, merged: seq<Range>, ghost starts: seq<nat>, ghost ends: seq<nat>)
    requires Inside(found, |html|)
    ensures Separated(merged) && Inside(merged, |html|) && forall p: nat :: Covers(merged, p) <==> Covers(found, p)
    ensures PageLaid(html, merged, out, katex, starts, ends)
    ensures out == Page(html, merged, 0, (raw, display) => katex(ContentOf(raw), display))
  {
    hide Rendered, RangeLaid, PageLaid, Separated, Inside, Covers, Run, ContentOf, Page, Walkable;
    merged := MergeRanges(found, |html|);
    var ranges := merged;
    WalksFrom(html, ranges);
    out := "";
    var cursor: nat := 0;
    starts, ends := [], [];
    for k := 0 to |ranges|
      invariant cursor == HtmlAt(ranges, k) <= |html|
      invariant |starts| == |ends| == k && OutAt(ends, k) == |out|
      invariant forall i :: 0 <= i < k ==> RangeLaid(html, ranges, out, katex, starts, ends, i)
    {
      var r := ranges[k];
      var run := RenderRun(html[cursor..r.start], katex);
      ghost var before := out;
      out := out + run;
      out := out + html[r.start..r.end];
      ghost var (starts', ends') := (starts + [|before| + |run|], ends + [|out|]);
      RangeNext(html, ranges, before, katex, starts, ends, k, run, html[r.start..r.end], out, starts', ends');
      starts, ends := starts', ends';
      cursor := r.end;
    }
    var run := RenderRun(html[cursor..], katex);
    PageWhole(html, ranges, out, katex, starts, ends, run);
    out := out + run;
    assert ranges[0..] == ranges && out[0..] == out;
    LaidIsPage(html, ranges, out, katex, starts, ends, (raw, display) => katex(ContentOf(raw), display), 0);
  }

  lemma WalksFrom(html: string, ranges: seq<Range>)
    requires Separated(ranges) && Inside(ranges, |html|)
    ensures Walkable(html, ranges, 0)
    ensures forall k :: 0 <= k < |ranges| ==> HtmlAt(ranges, k) <= ranges[k].start <= ranges[k].end <= |html|
    ensures forall k :: 0 <= k <= |ranges| ==> HtmlAt(ranges, k) <= |html|
  {
  }

  lemma PageNext(html: string, ranges: seq<Range>, k: nat, cursor: nat, show: Show)
    requires k < |ranges| && Walkable(html, ranges[k..], cursor)
    ensures var r := ranges[k];
            && cursor <= r.start <= r.end <= |html| && Walkable(html, ranges[k + 1..], r.end)
            && Page(html, ranges[k..], cursor, show)
               == Run(html[cursor..r.start], show) + html[r.start..r.end] + Page(html, ranges[k + 1..], r.end, show)
  {
    hide Run;
    var rest := ranges[k..];
    assert rest[0] == ranges[k] && rest[1..] == ranges[k + 1..];
    assert forall j :: 1 <= j < |rest| ==> rest[1..][j - 1] == rest[j];
  }

  lemma RunRaw(text: string)
    ensures Run(text, (raw, display) => raw) == text
  {
    ScanIsLeftmost(text);
    LeftmostAscends(text, Scan(text, 0), 0);
    RawComesBack(text, Scan(text, 0), 0);
    assert text[0..] == text;
  }

  /** With each span shown as itself the page comes back: every character outside the spans is copied, in order. */
  lemma {:induction false} PageIsFaithful(html: string, ranges: seq<Range>, cursor: nat)
    requires Walkable(html, ranges, cursor)
    ensures Page(html, ranges, cursor, (raw, display) => raw) == html[cursor..]
  {
    hide Run;
    if ranges == [] {
      RunRaw(html[cursor..]);
    } else {
      var r := ranges[0];
      RunRaw(html[cursor..r.start]);
      PageIsFaithful(html, ranges[1..], r.end);
      assert html[cursor..] == html[cursor..r.start] + html[r.start..r.end] + html[r.end..];
    }
  }
}
