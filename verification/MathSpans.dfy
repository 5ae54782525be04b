/** The math-span scanner (math-scanner.js) and the pre-render driver that walks a page with it (prerender_math.js). */
module MathSpans {
  import opened Common

  predicate IsWs(c: char) { c == ' ' || c == '\t' || c == '\n' || c == '\r' || c == '\U{000C}' || c == '\U{000B}' }
  predicate IsDigit(c: char) { '0' <= c <= '9' }
  predicate At(src: string, j: nat, c: char) { j < |src| && src[j] == c }

  // ---- the four delimiter classes -----------------------------------------------------------------------

  /** The end of `$...$` scanned from `j`. */
  function InlineEnd(src: string, j: nat): Option<nat>
    requires j >= 1
    decreases |src| - j
  {
    if j >= |src| then None
    else if src[j] == '\\' then InlineEnd(src, j + 2)
    else if src[j] == '\n' then None
    else if src[j] != '$' || IsWs(src[j - 1]) || src[j - 1] == '$' || (j + 1 < |src| && IsDigit(src[j + 1]))
    then InlineEnd(src, j + 1)
    else Some(j + 1)
  }

  function InlineDollar(src: string): Option<nat> {
    if |src| < 2 || IsWs(src[1]) then None else InlineEnd(src, 1)
  }

  method ScanInlineDollar(src: string) returns (end: Option<nat>)
    ensures end == InlineDollar(src)
  {
    if |src| < 2 || IsWs(src[1]) {
      return None;
    }
    var j := 1;
    while j < |src|
      invariant j >= 1 && InlineEnd(src, j) == InlineEnd(src, 1)
      decreases |src| - j
    {
      var c := src[j];
      if c == '\\' {
        j := j + 2;
        continue;
      }
      if c == '\n' {
        return None;
      }
      if c != '$' || IsWs(src[j - 1]) || src[j - 1] == '$' || (j + 1 < |src| && IsDigit(src[j + 1])) {
        j := j + 1;
        continue;
      }
      return Some(j + 1);
    }
    return None;
  }

  /** The end of `$$...$$` scanned from `j`. */
  function DisplayEnd(src: string, j: nat): Option<nat>
    decreases |src| - j
  {
    if j >= |src| then None
    else if src[j] != '$' then DisplayEnd(src, j + 1)
    else if !At(src, j + 1, '$') || j == 2 then None
    else Some(j + 2)
  }

  method ScanDisplayDollar(src: string) returns (end: Option<nat>)
    ensures end == DisplayEnd(src, 2)
  {
    var j := 2;
    while j < |src|
      invariant j >= 2 && DisplayEnd(src, j) == DisplayEnd(src, 2)
    {
      if src[j] != '$' {
        j := j + 1;
        continue;
      }
      if !At(src, j + 1, '$') || j == 2 {
        return None;
      }
      return Some(j + 2);
    }
    return None;
  }

  /** The end of a bracket span with closing letter `close`, scanned from `j`. */
  function BracketEnd(src: string, close: char, singleLine: bool, j: nat): Option<nat>
    decreases |src| - j
  {
    if j >= |src| then None
    else if src[j] == '\\' && At(src, j + 1, close) then
      if close == ']' && At(src, j + 2, ']') then BracketEnd(src, close, singleLine, j + 2)
      else if j == 2 then None else Some(j + 2)
    else if src[j] == '\\' then BracketEnd(src, close, singleLine, j + 2)
    else if src[j] == '\n' && singleLine then None
    else BracketEnd(src, close, singleLine, j + 1)
  }

  method ScanBracket(src: string, close: char, singleLine: bool) returns (end: Option<nat>)
    ensures end == BracketEnd(src, close, singleLine, 2)
  {
    var j := 2;
    while j < |src|
      invariant j >= 2 && BracketEnd(src, close, singleLine, j) == BracketEnd(src, close, singleLine, 2)
      decreases |src| - j
    {
      if src[j] == '\\' && At(src, j + 1, close) {
        if close == ']' && At(src, j + 2, ']') {
          j := j + 2;
          continue;
        }
        return if j == 2 then None else Some(j + 2);
      }
      if src[j] == '\\' {
        j := j + 2;
        continue;
      }
      if src[j] == '\n' && singleLine {
        return None;
      }
      j := j + 1;
    }
    return None;
  }

  datatype Class = DisplayDollars | InlineDollars | Square | Round

  /** The class that opens a text, by its first characters. */
  function Opens(src: string): Option<Class> {
    if |src| >= 2 && src[0] == '$' && src[1] == '$' then Some(DisplayDollars)
    else if |src| >= 1 && src[0] == '$' then Some(InlineDollars)
    else if |src| >= 2 && src[0] == '\\' && src[1] == '[' then Some(Square)
    else if |src| >= 2 && src[0] == '\\' && src[1] == '(' then Some(Round)
    else None
  }

  datatype Hit = Hit(length: nat, display: bool)

  /** `mathSpan`: the span a text opens with. */
  function MathSpan(src: string): Option<Hit> {
    match Opens(src)
    case None => None
    case Some(DisplayDollars) => Found(DisplayEnd(src, 2), true)
    case Some(InlineDollars) => Found(InlineDollar(src), false)
    case Some(Square) => Found(BracketEnd(src, ']', false, 2), true)
    case Some(Round) => Found(BracketEnd(src, ')', true, 2), false)
  }

  function Found(end: Option<nat>, display: bool): Option<Hit> {
    if end.None? then None else Some(Hit(end.value, display))
  }

  method ScanMathSpan(src: string) returns (hit: Option<Hit>)
    ensures hit == MathSpan(src)
    ensures forall n: nat, display: bool :: hit == Some(Hit(n, display)) <==> SpanAt(src, n, display)
  {
    forall n: nat, display: bool
      ensures MathSpan(src) == Some(Hit(n, display)) <==> SpanAt(src, n, display)
    {
      SpanIsAt(src, n, display);
    }
    hide DisplayEnd, InlineDollar, BracketEnd, SpanAt;
    var end: Option<nat>;
    match Opens(src) {
      case None => return None;
      case Some(DisplayDollars) => end := ScanDisplayDollar(src);
      case Some(InlineDollars) => end := ScanInlineDollar(src);
      case Some(Square) => end := ScanBracket(src, ']', false);
      case Some(Round) => end := ScanBracket(src, ')', true);
    }
    hit := Found(end, Opens(src).value in {DisplayDollars, Square});
  }

  function OpenOf(c: Class): string {
    match c
    case DisplayDollars => "$$"
    case InlineDollars => "$"
    case Square => "\\["
    case Round => "\\("
  }
  function CloseOf(c: Class): string {
    match c
    case DisplayDollars => "$$"
    case InlineDollars => "$"
    case Square => "\\]"
    case Round => "\\)"
  }

  /** `contentOf`. */
  function ContentOf(raw: string): string {
    if "$$" <= raw || "\\" <= raw then (if |raw| >= 4 then raw[2..|raw| - 2] else "")
    else if |raw| >= 2 then raw[1..|raw| - 1] else ""
  }

  lemma {:induction false} InlineEndIs(src: string, j: nat)
    requires j >= 1 && InlineEnd(src, j).Some? && (j == 1 ==> |src| > 1 && src[1] != '$')
    ensures var end := InlineEnd(src, j).value; j < end <= |src| && end >= 3 && src[end - 1] == '$'
    decreases |src| - j
  {
    if src[j] == '\\' {
      InlineEndIs(src, j + 2);
    } else if src[j] != '$' || IsWs(src[j - 1]) || src[j - 1] == '$' || (j + 1 < |src| && IsDigit(src[j + 1])) {
      InlineEndIs(src, j + 1);
    }
  }

  lemma {:induction false} DisplayEndIs(src: string, j: nat)
    requires j >= 2 && DisplayEnd(src, j).Some?
    ensures var end := DisplayEnd(src, j).value;
            5 <= end <= |src| && j + 2 <= end && src[end - 2] == '$' && src[end - 1] == '$'
    ensures forall k :: j <= k < DisplayEnd(src, j).value - 2 ==> src[k] != '$'
    decreases |src| - j
  {
    if src[j] != '$' {
      DisplayEndIs(src, j + 1);
    }
  }

  lemma {:induction false} BracketEndIs(src: string, close: char, singleLine: bool, j: nat)
    requires j >= 2 && BracketEnd(src, close, singleLine, j).Some?
    ensures var end := BracketEnd(src, close, singleLine, j).value;
            5 <= end <= |src| && j + 2 <= end && src[end - 2] == '\\' && src[end - 1] == close
    decreases |src| - j
  {
    if src[j] == '\\' && At(src, j + 1, close) {
      if close == ']' && At(src, j + 2, ']') {
        BracketEndIs(src, close, singleLine, j + 2);
      }
    } else if src[j] == '\\' {
      BracketEndIs(src, close, singleLine, j + 2);
    } else {
      BracketEndIs(src, close, singleLine, j + 1);
    }
  }

  lemma HitBounds(src: string)
    requires MathSpan(src).Some?
    ensures Opens(src).Some?
    ensures var (n, c) := (MathSpan(src).value.length, Opens(src).value);
            && |OpenOf(c)| + |CloseOf(c)| < n <= |src| && OpenOf(c) <= src
            && src[n - |CloseOf(c)|..n] == CloseOf(c)
  {
    match Opens(src).value {
      case DisplayDollars => DisplayEndIs(src, 2);
      case InlineDollars => InlineEndIs(src, 1);
      case Square => BracketEndIs(src, ']', false, 2);
      case Round => BracketEndIs(src, ')', true, 2);
    }
    hide DisplayEnd, InlineEnd, BracketEnd;
  }

  /** A span is its delimiters around what `contentOf` takes out of it, and that is never empty. */
  lemma SpanIsDelimited(src: string)
    requires MathSpan(src).Some?
    ensures Opens(src).Some? && 3 <= MathSpan(src).value.length <= |src|
    ensures var (raw, c) := (src[..MathSpan(src).value.length], Opens(src).value);
            raw == OpenOf(c) + ContentOf(raw) + CloseOf(c) && ContentOf(raw) != ""
  {
    HitBounds(src);
    var (n, c) := (MathSpan(src).value.length, Opens(src).value);
    var raw := src[..n];
    hide MathSpan;
    assert raw[0] == src[0] && raw[1] == src[1];
    assert ("$$" <= raw <==> raw[0] == '$' && raw[1] == '$') && ("\\" <= raw <==> raw[0] == '\\');
    assert raw[n - |CloseOf(c)|..] == CloseOf(c);
    assert raw[..|OpenOf(c)|] == OpenOf(c);
  }

  // ---- the scan of a run --------------------------------------------------------------------------------

  datatype Span = Span(start: nat, end: nat, display: bool)

  function HitAt(text: string, i: nat): Option<Hit>
    requires i <= |text|
  {
    MathSpan(text[i..])
  }

  function Scan(text: string, i: nat): seq<Span>
    decreases |text| - i
  {
    if i >= |text| then []
    else if HitAt(text, i).Some? then
      var h := HitAt(text, i).value;
      if h.length == 0 then [] else [Span(i, i + h.length, h.display)] + Scan(text, i + h.length)
    else Scan(text, if text[i] == '\\' then i + 2 else i + 1)
  }

  /** How many backslashes stand directly before `i`, none of them before `from`. */
  function Backs(text: string, from: nat, i: nat): nat {
    if from < i <= |text| && text[i - 1] == '\\' then 1 + Backs(text, from, i - 1) else 0
  }

  predicate Unescaped(text: string, from: nat, i: nat) { Backs(text, from, i) % 2 == 0 }

  /** A place where `$...$` may close. */
  predicate InlineCloses(src: string, p: nat) {
    1 <= p && At(src, p, '$') && !IsWs(src[p - 1]) && src[p - 1] != '$' && !(p + 1 < |src| && IsDigit(src[p + 1]))
  }

  /** The first unescaped place from `j` on that closes stands at `p`, with no unescaped line break before it. */
  ghost predicate InlineEndsAt(src: string, j: nat, p: nat) {
    && j <= p < |src| && Unescaped(src, 1, p) && InlineCloses(src, p)
    && forall q :: j <= q < p && Unescaped(src, 1, q) ==> src[q] != '\n' && !InlineCloses(src, q)
  }

  lemma {:induction false} InlineEndExact(src: string, j: nat, p: nat)
    requires j >= 1 && (j <= |src| ==> Unescaped(src, 1, j))
    ensures InlineEnd(src, j) == Some(p + 1) <==> InlineEndsAt(src, j, p)
    decreases |src| - j
  {
    if j < |src| {
      StepKeepsUnescaped(src, 1, j);
      if src[j] == '\\' {
        InlineEndExact(src, j + 2, p);
      } else if src[j] != '\n' && !InlineCloses(src, j) {
        InlineEndExact(src, j + 1, p);
      }
      hide Unescaped;
    }
  }

  /** A place where a bracket span may close: a closing square bracket not directly followed by another. */
  predicate BracketCloses(src: string, close: char, p: nat) {
    At(src, p, '\\') && At(src, p + 1, close) && !(close == ']' && At(src, p + 2, ']'))
  }

  ghost predicate BracketEndsAt(src: string, close: char, singleLine: bool, j: nat, p: nat) {
    && j <= p < |src| && Unescaped(src, 2, p) && BracketCloses(src, close, p)
    && forall q :: j <= q < p && Unescaped(src, 2, q) ==>
         !(singleLine && src[q] == '\n') && !BracketCloses(src, close, q)
  }

  lemma {:induction false} BracketEndExact(src: string, close: char, singleLine: bool, j: nat, p: nat)
    requires j >= 2 && close != '\\' && (j <= |src| ==> Unescaped(src, 2, j))
    ensures BracketEnd(src, close, singleLine, j) == Some(p + 2)
            <==> p > 2 && BracketEndsAt(src, close, singleLine, j, p)
    decreases |src| - j
  {
    if j < |src| {
      StepKeepsUnescaped(src, 2, j);
      if src[j] == '\\' && !BracketCloses(src, close, j) {
        BracketEndExact(src, close, singleLine, j + 2, p);
      } else if src[j] != '\\' && !(singleLine && src[j] == '\n') {
        BracketEndExact(src, close, singleLine, j + 1, p);
      }
      hide Unescaped;
    }
  }

  lemma StepKeepsUnescaped(src: string, from: nat, j: nat)
    requires from <= j < |src| && Unescaped(src, from, j)
    ensures src[j] == '\\' ==> !Unescaped(src, from, j + 1) && (j + 2 <= |src| ==> Unescaped(src, from, j + 2))
    ensures src[j] != '\\' ==> Unescaped(src, from, j + 1)
  {
    assert Backs(src, from, j + 1) == if src[j] == '\\' then 1 + Backs(src, from, j) else 0;
  }

  /** The first dollar after the opening two closes the span when another follows it and something came before. */
  lemma {:induction false} DisplayEndExact(src: string, j: nat, p: nat)
    requires j >= 2
    ensures DisplayEnd(src, j) == Some(p + 2) <==>
      p > 2 && At(src, p, '$') && At(src, p + 1, '$') && p >= j && forall q :: j <= q < p ==> !At(src, q, '$')
    decreases |src| - j
  {
    if j < |src| {
      assert At(src, j, '$') <==> src[j] == '$';
      if src[j] != '$' {
        DisplayEndExact(src, j + 1, p);
      }
    }
  }

  /**
   What each class takes for its end, said without the scan: the first unescaped closing place, refused
   behind an unescaped line break for the single-line classes and where it would leave the content empty.
   */
  lemma ClassEnds(src: string, p: nat)
    ensures |src| >= 2 && !IsWs(src[1]) ==> (InlineDollar(src) == Some(p + 1) <==> InlineEndsAt(src, 1, p))
    ensures BracketEnd(src, ']', false, 2) == Some(p + 2) <==> p > 2 && BracketEndsAt(src, ']', false, 2, p)
    ensures BracketEnd(src, ')', true, 2) == Some(p + 2) <==> p > 2 && BracketEndsAt(src, ')', true, 2, p)
  {
    NothingYet(src, 1);
    NothingYet(src, 2);
    hide InlineEnd, BracketEnd, InlineEndsAt, BracketEndsAt, Unescaped;
    InlineEndExact(src, 1, p);
    BracketEndExact(src, ']', false, 2, p);
    BracketEndExact(src, ')', true, 2, p);
  }

  /** The first dollar behind the opening two stands at `p` with another behind it, and something between. */
  ghost predicate DisplayEndsAt(src: string, p: nat) {
    p > 2 && At(src, p, '$') && At(src, p + 1, '$') && forall q :: 2 <= q < p ==> !At(src, q, '$')
  }

  /** A text opens with a span of length `n`, said without the scan: one class by its opening, and that class's end. */
  ghost predicate SpanAt(src: string, n: nat, display: bool) {
    if "$$" <= src then display && n >= 2 && DisplayEndsAt(src, n - 2)
    else if "$" <= src then !display && n >= 1 && |src| >= 2 && !IsWs(src[1]) && InlineEndsAt(src, 1, n - 1)
    else if "\\[" <= src then display && n > 4 && BracketEndsAt(src, ']', false, 2, n - 2)
    else "\\(" <= src && !display && n > 4 && BracketEndsAt(src, ')', true, 2, n - 2)
  }

  /** The span a text opens with is exactly that. */
  lemma SpanIsAt(src: string, n: nat, display: bool)
    ensures MathSpan(src) == Some(Hit(n, display)) <==> SpanAt(src, n, display)
  {
    assert "$$" <= src <==> |src| >= 2 && src[0] == '$' && src[1] == '$';
    assert "$" <= src <==> |src| >= 1 && src[0] == '$';
    assert "\\[" <= src <==> |src| >= 2 && src[0] == '\\' && src[1] == '[';
    assert "\\(" <= src <==> |src| >= 2 && src[0] == '\\' && src[1] == '(';
    hide InlineEndsAt, BracketEndsAt, DisplayEnd, BracketEnd;
    DisplayEnds(src, n);
    if n >= 1 {
      ClassEnds(src, n - 1);
    }
    if n >= 2 {
      ClassEnds(src, n - 2);
    }
    ShortEnds(src, n);
  }

  lemma DisplayEnds(src: string, n: nat)
    ensures DisplayEnd(src, 2) == Some(n) <==> n >= 2 && DisplayEndsAt(src, n - 2)
  {
    if n >= 2 {
      DisplayEndExact(src, 2, n - 2);
    } else if DisplayEnd(src, 2).Some? {
      DisplayEndIs(src, 2);
    }
  }

  /** No span is shorter than its delimiters. */
  lemma ShortEnds(src: string, n: nat)
    ensures n < 2 ==> BracketEnd(src, ']', false, 2) != Some(n) && BracketEnd(src, ')', true, 2) != Some(n)
    ensures n < 1 ==> InlineDollar(src) != Some(n)
  {
    if BracketEnd(src, ']', false, 2).Some? {
      BracketEndIs(src, ']', false, 2);
    }
    if BracketEnd(src, ')', true, 2).Some? {
      BracketEndIs(src, ')', true, 2);
    }
    InlineEndPast(src, 1);
  }

  lemma {:induction false} InlineEndPast(src: string, j: nat)
    requires j >= 1
    ensures InlineEnd(src, j).Some? ==> InlineEnd(src, j).value > j
    decreases |src| - j
  {
    if j < |src| {
      InlineEndPast(src, j + 1);
      InlineEndPast(src, j + 2);
    }
  }

  /** No unescaped place of a stretch opens a span. */
  ghost predicate NoneOpens(text: string, from: nat, to: nat) {
    forall p: nat :: from <= p < to && p <= |text| && Unescaped(text, from, p) ==> HitAt(text, p).None?
  }

  /**
   The spans of a text from `from` on, said without the scan: each is the first unescaped place that opens
   one, an escape counted afresh from the end of the span before, and after the last none opens.
   */
  ghost predicate Leftmost(text: string, spans: seq<Span>, from: nat) {
    if spans == [] then NoneOpens(text, from, |text|)
    else
      var s := spans[0];
      && from <= s.start < s.end <= |text| && Unescaped(text, from, s.start) && NoneOpens(text, from, s.start)
      && HitAt(text, s.start) == Some(Hit(s.end - s.start, s.display))
      && Leftmost(text, spans[1..], s.end)
  }

  lemma OnlyDelimitersOpen(text: string, i: nat)
    requires i < |text|
    ensures HitAt(text, i).Some? ==> text[i] == '$' || text[i] == '\\'
    ensures HitAt(text, i).Some? ==> 3 <= HitAt(text, i).value.length <= |text| - i
  {
    assert text[i..][0] == text[i];
    if HitAt(text, i).Some? {
      SpanIsDelimited(text[i..]);
    }
  }

  lemma NoneOpensMore(text: string, from: nat, i: nat, next: nat)
    requires from <= i < |text| && NoneOpens(text, from, i) && HitAt(text, i).None? && Unescaped(text, from, i)
    requires next == if text[i] == '\\' then i + 2 else i + 1
    ensures NoneOpens(text, from, next) && Unescaped(text, from, next)
  {
    hide HitAt;
    assert Backs(text, from, i + 1) == if text[i] == '\\' then 1 + Backs(text, from, i) else 0;
  }

  lemma {:induction false} ScanFrom(text: string, i: nat, from: nat)
    requires from <= i && NoneOpens(text, from, i) && (i < |text| ==> Unescaped(text, from, i))
    ensures Leftmost(text, Scan(text, i), from)
    decreases |text| - i
  {
    hide NoneOpens, HitAt;
    if i < |text| {
      OnlyDelimitersOpen(text, i);
      if HitAt(text, i).Some? {
        var end := i + HitAt(text, i).value.length;
        NothingYet(text, end);
        ScanFrom(text, end, end);
      } else {
        var next := if text[i] == '\\' then i + 2 else i + 1;
        NoneOpensMore(text, from, i, next);
        ScanFrom(text, next, from);
      }
    } else {
      NoneOpensLess(text, from, i);
    }
  }

  lemma NothingYet(text: string, from: nat)
    ensures NoneOpens(text, from, from) && Unescaped(text, from, from)
  {
  }

  lemma NoneOpensLess(text: string, from: nat, i: nat)
    requires NoneOpens(text, from, i) && i >= |text|
    ensures NoneOpens(text, from, |text|)
  {
  }

  /** The scan finds exactly the leftmost unescaped spans. */
  lemma ScanIsLeftmost(text: string)
    ensures Leftmost(text, Scan(text, 0), 0)
  {
    NothingYet(text, 0);
    ScanFrom(text, 0, 0);
  }

  /** That description leaves no choice: two lists of spans that both meet it are the same. */
  lemma {:induction false} LeftmostIsUnique(text: string, a: seq<Span>, b: seq<Span>, from: nat)
    requires Leftmost(text, a, from) && Leftmost(text, b, from)
    ensures a == b
  {
    hide HitAt, Unescaped;
    if a != [] && b != [] {
      assert a[0].start == b[0].start;
      LeftmostIsUnique(text, a[1..], b[1..], a[0].end);
      assert a == [a[0]] + a[1..] && b == [b[0]] + b[1..];
    }
  }

  /** Spans lie inside the text, in ascending order and apart. */
  lemma {:induction false} LeftmostAscends(text: string, spans: seq<Span>, from: nat)
    requires Leftmost(text, spans, from)
    ensures forall k :: 0 <= k < |spans| ==> from <= spans[k].start < spans[k].end <= |text|
    ensures forall i, j :: 0 <= i < j < |spans| ==> spans[i].end <= spans[j].start
  {
    hide NoneOpens, HitAt, Unescaped;
    if spans != [] {
      LeftmostAscends(text, spans[1..], spans[0].end);
      assert forall k :: 1 <= k < |spans| ==> spans[k] == spans[1..][k - 1];
    }
  }

  /** `scanMathSpans`. */
  method ScanMathSpans(text: string) returns (spans: seq<Span>)
    ensures spans == Scan(text, 0) && Leftmost(text, spans, 0)
  {
    hide Leftmost, HitAt;
    spans := [];
    var i := 0;
    while i < |text|
      invariant spans + Scan(text, i) == Scan(text, 0)
      decreases |text| - i
    {
      OnlyDelimitersOpen(text, i);
      var hit: Option<Hit> := None;
      if text[i] == '$' || text[i] == '\\' {
        hit := ScanHit(text, i);
      }
      ghost var before := spans;
      if hit.Some? {
        var span := Span(i, i + hit.value.length, hit.value.display);
        spans := spans + [span];
        assert before + ([span] + Scan(text, span.end)) == spans + Scan(text, span.end);
        i := span.end;
      } else if text[i] == '\\' {
        i := i + 2;
      } else {
        i := i + 1;
      }
    }
    assert Scan(text, i) == [] && spans + [] == spans;
    ScanIsLeftmost(text);
  }

  method ScanHit(text: string, i: nat) returns (hit: Option<Hit>)
    requires i < |text|
    ensures hit == HitAt(text, i)
  {
    hit := ScanMathSpan(text[i..]);
  }

  // ---- rendering a run ----------------------------------------------------------------------------------

  /** What stands in the output for a span's raw text. */
  type Show = (string, bool) -> string

  /** The text from `from` on with every span shown and every character outside the spans as it stands. */
  function Assembled(text: string, spans: seq<Span>, from: nat, show: Show): string
    requires from <= |text|
    requires forall k :: 0 <= k < |spans| ==> from <= spans[k].start < spans[k].end <= |text|
    requires forall i, j :: 0 <= i < j < |spans| ==> spans[i].end <= spans[j].start
  {
    if spans == [] then text[from..]
    else
      var s := spans[0];
      assert forall k :: 1 <= k < |spans| ==> spans[k] == spans[1..][k - 1];
      text[from..s.start] + show(text[s.start..s.end], s.display) + Assembled(text, spans[1..], s.end, show)
  }

  ghost predicate Ordered(text: string, spans: seq<Span>, from: nat) {
    && from <= |text| && (forall k :: 0 <= k < |spans| ==> from <= spans[k].start < spans[k].end <= |text|)
    && (forall i, j :: 0 <= i < j < |spans| ==> spans[i].end <= spans[j].start)
  }

  /** With each span shown as itself the text comes back: nothing else is touched, dropped or moved. */
  lemma {:induction false} RawComesBack(text: string, spans: seq<Span>, from: nat)
    requires Ordered(text, spans, from)
    ensures Assembled(text, spans, from, (raw, display) => raw) == text[from..]
  {
    if spans != [] {
      var s := spans[0];
      assert forall k :: 1 <= k < |spans| ==> spans[k] == spans[1..][k - 1];
      RawComesBack(text, spans[1..], s.end);
      assert text[from..] == text[from..s.start] + text[s.start..s.end] + text[s.end..];
    }
  }
}
