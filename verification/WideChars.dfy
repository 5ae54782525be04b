/** The two-column boxes around wide characters in code blocks (markdown-renderer.js), over UTF-16 code units. */
module WideChars {

  type Units = seq<nat>
  datatype Range = Range(lo: nat, hi: nat)

  /** The table of wide ranges and the class of combining marks, both fixed outside this model. */
  datatype Font = Font(table: seq<Range>, mark: nat -> bool)

  /** What the generated table promises: sorted, disjoint, nothing under U+1100 and no surrogate. */
  ghost predicate Sorted(table: seq<Range>) {
    && (forall i :: 0 <= i < |table| ==> table[i].lo <= table[i].hi)
    && (forall i, j :: 0 <= i < j < |table| ==> table[i].hi < table[j].lo)
  }
  ghost predicate Sound(f: Font) {
    && Sorted(f.table)
    && forall i :: 0 <= i < |f.table| ==>
         f.table[i].lo >= 0x1100 && (f.table[i].hi < 0xD800 || f.table[i].lo > 0xDFFF)
  }

  predicate Wide(table: seq<Range>, cp: nat) { exists i :: 0 <= i < |table| && table[i].lo <= cp <= table[i].hi }

  /** `wc2chIsWide`: the binary search decides membership in any sorted table of disjoint ranges. */
  method IsWide(table: seq<Range>, cp: nat) returns (wide: bool)
    requires Sorted(table)
    ensures wide <==> Wide(table, cp)
  {
    var lo, hi := 0, |table| - 1;
    while lo <= hi
      invariant 0 <= lo <= hi + 1 <= |table|
      invariant forall i :: 0 <= i < |table| && table[i].lo <= cp <= table[i].hi ==> lo <= i <= hi
    {
      var mid := (lo + hi) / 2;
      var range := table[mid];
      if cp < range.lo {
        hi := mid - 1;
      } else if cp > range.hi {
        lo := mid + 1;
      } else {
        return true;
      }
    }
    return false;
  }

  // ---- code points --------------------------------------------------------------------------------------

  predicate High(u: nat) { 0xD800 <= u <= 0xDBFF }
  predicate Low(u: nat) { 0xDC00 <= u <= 0xDFFF }

  function CodePointAt(text: Units, i: nat): nat
    requires i < |text|
  {
    if High(text[i]) && i + 1 < |text| && Low(text[i + 1])
    then (text[i] - 0xD800) * 0x400 + (text[i + 1] - 0xDC00) + 0x10000
    else text[i]
  }

  function Size(cp: nat): nat { if cp > 0xFFFF then 2 else 1 }

  /** A place that does not fall between the two halves of a surrogate pair. */
  predicate Boundary(text: Units, p: nat) { !(0 < p < |text| && High(text[p - 1]) && Low(text[p])) }

  /** Every code unit is 16 bits wide. */
  ghost predicate Utf16(text: Units) { forall i :: 0 <= i < |text| ==> text[i] <= 0xFFFF }

  lemma NextBoundary(text: Units, i: nat)
    requires Utf16(text) && i < |text|
    ensures i + Size(CodePointAt(text, i)) <= |text| && Boundary(text, i + Size(CodePointAt(text, i)))
  {
  }

  // ---- one text segment ---------------------------------------------------------------------------------

  /** A piece of the output: one unit copied, or the units of a box. */
  datatype Piece = Unit(at: nat) | Box(from: nat, to: nat)
  function From(p: Piece): nat { if p.Unit? then p.at else p.from }
  function To(p: Piece): nat { if p.Unit? then p.at + 1 else p.to }

  predicate Joins(f: Font, cp: nat) { cp == 0xFE0F || f.mark(cp) }

  /** Where the box that has reached `end` stops: after the marks that follow. */
  function BoxEnd(f: Font, text: Units, end: nat): (r: nat)
    requires Utf16(text) && end <= |text|
    ensures end <= r <= |text|
    decreases |text| - end
  {
    if end < |text| && Joins(f, CodePointAt(text, end)) then
      NextBoundary(text, end);
      BoxEnd(f, text, end + Size(CodePointAt(text, end)))
    else end
  }

  function Scan(f: Font, text: Units, i: nat): seq<Piece>
    requires Utf16(text) && i <= |text|
    decreases |text| - i
  {
    if i == |text| then []
    else if !Wide(f.table, CodePointAt(text, i)) then [Unit(i)] + Scan(f, text, i + 1)
    else
      NextBoundary(text, i);
      var end := BoxEnd(f, text, i + Size(CodePointAt(text, i)));
      [Box(i, end)] + Scan(f, text, end)
  }

  /** The inner loop of `wc2chWrapText`. */
  method FindBoxEnd(f: Font, text: Units, start: nat) returns (end: nat)
    requires Utf16(text) && start <= |text|
    ensures end == BoxEnd(f, text, start)
  {
    end := start;
    while end < |text|
      invariant end <= |text| && BoxEnd(f, text, end) == BoxEnd(f, text, start)
    {
      var tail := CodePointAt(text, end);
      if tail != 0xFE0F && !f.mark(tail) {
        break;
      }
      NextBoundary(text, end);
      end := end + Size(tail);
    }
  }

  lemma ScanNext(f: Font, text: Units, i: nat, pieces: seq<Piece>)
    requires Utf16(text) && i < |text|
    ensures var cp := CodePointAt(text, i);
            && i + Size(cp) <= |text|
            && var end := BoxEnd(f, text, i + Size(cp));
            pieces + Scan(f, text, i)
            == if Wide(f.table, cp) then pieces + [Box(i, end)] + Scan(f, text, end)
               else pieces + [Unit(i)] + Scan(f, text, i + 1)
  {
    NextBoundary(text, i);
    hide Wide, CodePointAt, BoxEnd, Size;
  }

  /** `wc2chWrapText`. */
  method WrapText(f: Font, text: Units) returns (pieces: seq<Piece>)
    requires Utf16(text) && Sorted(f.table)
    ensures pieces == Scan(f, text, 0)
  {
    hide Wide, CodePointAt, BoxEnd, Sorted, Utf16;
    var i := 0;
    pieces := [];
    while i < |text|
      invariant i <= |text| && pieces + Scan(f, text, i) == Scan(f, text, 0)
      decreases |text| - i
    {
      var cp := CodePointAt(text, i);
      var wide := IsWide(f.table, cp);
      ScanNext(f, text, i, pieces);
      hide Scan;
      if !wide {
        pieces := pieces + [Unit(i)];
        i := i + 1;
      } else {
        var end := FindBoxEnd(f, text, i + Size(cp));
        pieces := pieces + [Box(i, end)];
        i := end;
      }
    }
  }

  // ---- what the pieces are ------------------------------------------------------------------------------

  /** The pieces lie end to end from `i` to the end of the text. */
  ghost predicate Tile(pieces: seq<Piece>, i: nat, n: nat) {
    if pieces == [] then i == n
    else From(pieces[0]) == i && i < To(pieces[0]) <= n && Tile(pieces[1..], To(pieces[0]), n)
  }

  function Flatten(text: Units, pieces: seq<Piece>): Units
    requires forall k :: 0 <= k < |pieces| ==> From(pieces[k]) <= To(pieces[k]) <= |text|
  {
    if pieces == [] then [] else text[From(pieces[0])..To(pieces[0])] + Flatten(text, pieces[1..])
  }

  /** Between `p` and `q` stand marks only. */
  ghost predicate MarksOnly(f: Font, text: Units, p: nat, q: nat)
    requires Utf16(text)
  {
    forall m :: p <= m < q && m < |text| && Boundary(text, m) ==> Joins(f, CodePointAt(text, m))
  }

  /**
   A box opens at a wide code point, splits no surrogate pair at either end, and holds the marks behind its
   first code point, all of them and nothing else; a copied unit is not the start of a wide code point.
   */
  ghost predicate Right(f: Font, text: Units, p: Piece)
    requires Utf16(text)
  {
    match p
    case Unit(at) => at < |text| && (Boundary(text, at) ==> !Wide(f.table, CodePointAt(text, at)))
    case Box(from, to) =>
      && from < to <= |text| && Boundary(text, from) && Boundary(text, to) && Wide(f.table, CodePointAt(text, from))
      && from + Size(CodePointAt(text, from)) <= to
      && MarksOnly(f, text, from + Size(CodePointAt(text, from)), to)
      && (to < |text| ==> !Joins(f, CodePointAt(text, to)))
  }

  lemma {:induction false} BoxEndIs(f: Font, text: Units, end: nat)
    requires Utf16(text) && end <= |text| && Boundary(text, end)
    ensures Boundary(text, BoxEnd(f, text, end)) && MarksOnly(f, text, end, BoxEnd(f, text, end))
    ensures BoxEnd(f, text, end) < |text| ==> !Joins(f, CodePointAt(text, BoxEnd(f, text, end)))
    decreases |text| - end
  {
    if end < |text| && Joins(f, CodePointAt(text, end)) {
      NextBoundary(text, end);
      BoxEndIs(f, text, end + Size(CodePointAt(text, end)));
    }
  }

  /** A wide code point never starts at the second half of a pair, since no surrogate is wide. */
  lemma WideIsWhole(f: Font, text: Units, i: nat)
    requires Sound(f) && Utf16(text) && i < |text| && Wide(f.table, CodePointAt(text, i))
    ensures Boundary(text, i)
  {
  }

  lemma {:induction false} ScanIsRight(f: Font, text: Units, i: nat)
    requires Sound(f) && Utf16(text) && i <= |text|
    ensures Tile(Scan(f, text, i), i, |text|)
    ensures forall k :: 0 <= k < |Scan(f, text, i)| ==> Right(f, text, Scan(f, text, i)[k])
    decreases |text| - i
  {
    hide Wide, Sound, BoxEnd, MarksOnly;
    if i < |text| {
      var cp := CodePointAt(text, i);
      if !Wide(f.table, cp) {
        ScanIsRight(f, text, i + 1);
      } else {
        WideIsWhole(f, text, i);
        NextBoundary(text, i);
        BoxEndIs(f, text, i + Size(cp));
        ScanIsRight(f, text, BoxEnd(f, text, i + Size(cp)));
      }
    }
  }

  lemma {:induction false} TileFlattens(text: Units, pieces: seq<Piece>, i: nat)
    requires i <= |text| && Tile(pieces, i, |text|)
    ensures forall k :: 0 <= k < |pieces| ==> From(pieces[k]) <= To(pieces[k]) <= |text|
    ensures Flatten(text, pieces) == text[i..]
  {
    if pieces != [] {
      TileFlattens(text, pieces[1..], To(pieces[0]));
      assert text[i..] == text[i..To(pieces[0])] + text[To(pieces[0])..];
    }
  }

  /** Erasing the boxes gives the text back, unit for unit. */
  lemma ErasedIsTheText(f: Font, text: Units)
    requires Sound(f) && Utf16(text)
    ensures var pieces := Scan(f, text, 0);
            (forall k :: 0 <= k < |pieces| ==> From(pieces[k]) <= To(pieces[k]) <= |text|)
                && Flatten(text, pieces) == text
  {
    ScanIsRight(f, text, 0);
    TileFlattens(text, Scan(f, text, 0), 0);
  }

  /** In pieces that lie end to end, each place lies in exactly one. */
  lemma {:induction false} OnePiece(pieces: seq<Piece>, i: nat, n: nat, at: nat) returns (k: nat)
    requires Tile(pieces, i, n) && i <= at < n
    ensures k < |pieces| && From(pieces[k]) <= at < To(pieces[k])
    ensures forall j :: 0 <= j < |pieces| && From(pieces[j]) <= at < To(pieces[j]) ==> j == k
    ensures forall j :: 0 <= j < |pieces| ==> From(pieces[j]) >= i
  {
    if at < To(pieces[0]) {
      k := 0;
      TileStarts(pieces[1..], To(pieces[0]), n);
      assert forall j :: 1 <= j < |pieces| ==> pieces[j] == pieces[1..][j - 1];
    } else {
      var m := OnePiece(pieces[1..], To(pieces[0]), n, at);
      k := m + 1;
      assert forall j :: 1 <= j < |pieces| ==> pieces[j] == pieces[1..][j - 1];
    }
  }

  lemma {:induction false} TileStarts(pieces: seq<Piece>, i: nat, n: nat)
    requires Tile(pieces, i, n)
    ensures forall j :: 0 <= j < |pieces| ==> From(pieces[j]) >= i
  {
    if pieces != [] {
      TileStarts(pieces[1..], To(pieces[0]), n);
      assert forall j :: 1 <= j < |pieces| ==> pieces[j] == pieces[1..][j - 1];
    }
  }

  /** Every wide code point lies whole in exactly one box. */
  lemma WideIsBoxedOnce(f: Font, text: Units, at: nat) returns (k: nat)
    requires Sound(f) && Utf16(text) && at < |text| && Boundary(text, at) && Wide(f.table, CodePointAt(text, at))
    ensures var pieces := Scan(f, text, 0);
            && k < |pieces| && pieces[k].Box? && pieces[k].from <= at
            && at + Size(CodePointAt(text, at)) <= pieces[k].to
            && forall j :: 0 <= j < |pieces| && From(pieces[j]) <= at < To(pieces[j]) ==> j == k
  {
    hide Scan, Wide, Tile, Sound;
    ScanIsRight(f, text, 0);
    k := OnePiece(Scan(f, text, 0), 0, |text|, at);
    NextBoundary(text, at);
    assert Right(f, text, Scan(f, text, 0)[k]);
  }

  // ---- the rendered block -------------------------------------------------------------------------------

  function Ascii(s: string): Units { seq(|s|, i requires 0 <= i < |s| => s[i] as nat) }
  const OPEN: Units := Ascii("<span class=\"wc2ch\">")
  const CLOSE: Units := Ascii("</span>")

  function Shown(text: Units, p: Piece): Units {
    if !(From(p) <= To(p) <= |text|) then []
    else if p.Unit? then [text[p.at]] else OPEN + text[p.from..p.to] + CLOSE
  }

  /** The output of a text segment from `i` on. */
  function Render(f: Font, text: Units, i: nat): Units
    requires Utf16(text) && i <= |text|
    decreases |text| - i
  {
    if i == |text| then []
    else if !Wide(f.table, CodePointAt(text, i)) then [text[i]] + Render(f, text, i + 1)
    else
      NextBoundary(text, i);
      var end := BoxEnd(f, text, i + Size(CodePointAt(text, i)));
      OPEN + text[i..end] + CLOSE + Render(f, text, end)
  }

  predicate Probe(text: Units) { exists i :: 0 <= i < |text| && text[i] >= 0x1100 }

  /** The probe skips only segments the scan would leave as they are. */
  lemma {:induction false} ProbeIsSafe(f: Font, text: Units, i: nat)
    requires Sound(f) && Utf16(text) && i <= |text| && !Probe(text)
    ensures Render(f, text, i) == text[i..]
    decreases |text| - i
  {
    if i < |text| {
      assert text[i] < 0x1100;
      ProbeIsSafe(f, text, i + 1);
      assert text[i..] == [text[i]] + text[i + 1..];
    }
  }

  lemma {:induction false} RenderIsScan(f: Font, text: Units, i: nat, pieces: seq<Piece>)
    requires Utf16(text) && i <= |text| && pieces == Scan(f, text, i)
    ensures Joined(text, pieces) == Render(f, text, i)
    decreases |text| - i
  {
    hide Wide, CodePointAt, BoxEnd;
    if i < |text| {
      NextBoundary(text, i);
      RenderIsScan(f, text, To(pieces[0]), pieces[1..]);
    }
  }

  function Joined(text: Units, pieces: seq<Piece>): Units {
    if pieces == [] then [] else Shown(text, pieces[0]) + Joined(text, pieces[1..])
  }

  // ---- tags and text ------------------------------------------------------------------------------------

  const LT: nat := 60
  const GT: nat := 62

  /** The first `u` at or after `i`, or the length of the text. */
  function Find(html: Units, i: nat, u: nat): (p: nat)
    requires i <= |html|
    ensures i <= p <= |html| && (p < |html| ==> html[p] == u) && forall k :: i <= k < p ==> html[k] != u
    decreases |html| - i
  {
    if i == |html| || html[i] == u then i else Find(html, i + 1, u)
  }

  datatype Segment = Text(units: Units) | Tag(units: Units)

  /** The split at `<[^>]*>`: text and tags in turn, beginning and ending with a text, empty ones included. */
  function Split(html: Units, i: nat): seq<Segment>
    requires i <= |html|
    decreases |html| - i
  {
    var p := Find(html, i, LT);
    var q := Find(html, p, GT);
    if q == |html| then [Text(html[i..])]
    else [Text(html[i..p]), Tag(html[p..q + 1])] + Split(html, q + 1)
  }

  function AllUnits(segments: seq<Segment>): Units {
    if segments == [] then [] else segments[0].units + AllUnits(segments[1..])
  }

  /** A tag opens at its first unit and closes at its last, and no text holds a tag. */
  ghost predicate RightSegment(s: Segment) {
    match s
    case Tag(u) => |u| >= 2 && u[0] == LT && u[|u| - 1] == GT && forall k :: 0 <= k < |u| - 1 ==> u[k] != GT
    case Text(u) => forall a, b :: 0 <= a < b < |u| ==> !(u[a] == LT && u[b] == GT)
  }

  lemma {:induction false} SplitUnits(html: Units, i: nat)
    requires i <= |html|
    ensures AllUnits(Split(html, i)) == html[i..]
    decreases |html| - i
  {
    hide Find;
    var p := Find(html, i, LT);
    var q := Find(html, p, GT);
    var segments := Split(html, i);
    if q == |html| {
      assert segments[1..] == [];
    } else {
      SplitUnits(html, q + 1);
      assert segments[1..][0] == Tag(html[p..q + 1]) && segments[1..][1..] == Split(html, q + 1);
      assert html[i..] == html[i..p] + (html[p..q + 1] + html[q + 1..]);
    }
  }

  /** Text and tags in turn, a text first and last. */
  ghost predicate Alternates(segments: seq<Segment>) {
    |segments| % 2 == 1 && forall k :: 0 <= k < |segments| ==> (segments[k].Tag? <==> k % 2 == 1)
  }

  lemma OneAlternates(s: Segment)
    requires s.Text?
    ensures Alternates([s])
  {
  }

  lemma AlternatesMore(head: Segment, tag: Segment, rest: seq<Segment>)
    requires head.Text? && tag.Tag? && Alternates(rest)
    ensures Alternates([head, tag] + rest)
  {
    var segments := [head, tag] + rest;
    assert forall k :: 2 <= k < |segments| ==> segments[k] == rest[k - 2];
  }

  lemma {:induction false} SplitAlternates(html: Units, i: nat)
    requires i <= |html|
    ensures Alternates(Split(html, i))
    decreases |html| - i
  {
    hide Find, Alternates;
    var p := Find(html, i, LT);
    var q := Find(html, p, GT);
    if q == |html| {
      OneAlternates(Text(html[i..]));
    } else {
      SplitAlternates(html, q + 1);
      assert Split(html, i) == [Text(html[i..p]), Tag(html[p..q + 1])] + Split(html, q + 1);
      hide Split;
      AlternatesMore(Text(html[i..p]), Tag(html[p..q + 1]), Split(html, q + 1));
    }
  }

  lemma FirstText(html: Units, i: nat, p: nat, q: nat)
    requires i <= p <= q <= |html| && (forall k :: i <= k < p ==> html[k] != LT)
             && (forall k :: p <= k < q ==> html[k] != GT)
    ensures RightSegment(Text(html[i..q]))
  {
    var u := html[i..q];
    assert forall k :: 0 <= k < |u| ==> u[k] == html[i + k];
  }

  lemma FirstTag(html: Units, p: nat, q: nat)
    requires p < q < |html| && html[p] == LT && html[q] == GT && forall k :: p <= k < q ==> html[k] != GT
    ensures RightSegment(Tag(html[p..q + 1]))
  {
    var u := html[p..q + 1];
    assert forall k :: 0 <= k < |u| ==> u[k] == html[p + k];
  }

  lemma {:induction false} SplitSegments(html: Units, i: nat)
    requires i <= |html|
    ensures forall k :: 0 <= k < |Split(html, i)| ==> RightSegment(Split(html, i)[k])
    decreases |html| - i
  {
    hide Find, RightSegment;
    var p := Find(html, i, LT);
    var q := Find(html, p, GT);
    if q < |html| {
      var (segments, head, tag, rest) := (Split(html, i), Text(html[i..p]), Tag(html[p..q + 1]), Split(html, q + 1));
      assert segments == [head, tag] + rest;
      FirstText(html, i, p, p);
      FirstTag(html, p, q);
      SplitSegments(html, q + 1);
      hide Split;
      forall k | 0 <= k < |segments|
        ensures RightSegment(segments[k])
      {
        if k >= 2 {
          assert segments[k] == rest[k - 2];
        }
      }
    } else {
      FirstText(html, i, p, q);
      assert html[i..q] == html[i..];
    }
  }

  /** The split loses nothing, alternates, and cuts exactly at tags. */
  lemma SplitIsRight(html: Units)
    ensures var segments := Split(html, 0);
            && AllUnits(segments) == html && Alternates(segments)
            && forall k :: 0 <= k < |segments| ==> RightSegment(segments[k])
  {
    hide Split, RightSegment, AllUnits;
    SplitUnits(html, 0);
    SplitAlternates(html, 0);
    SplitSegments(html, 0);
    assert html[0..] == html;
  }

  /** The block with every text segment scanned, tags untouched. */
  function Wrapped(f: Font, segments: seq<Segment>): Units
    requires forall k :: 0 <= k < |segments| ==> Utf16(segments[k].units)
  {
    if segments == [] then []
    else
      var s := segments[0];
      (if s.Tag? then s.units else Render(f, s.units, 0)) + Wrapped(f, segments[1..])
  }

  lemma {:induction false} WrappedSnoc(f: Font, segments: seq<Segment>, s: Segment)
    requires (forall k :: 0 <= k < |segments| ==> Utf16(segments[k].units)) && Utf16(s.units)
    ensures Wrapped(f, segments + [s]) == Wrapped(f, segments) + if s.Tag? then s.units else Render(f, s.units, 0)
  {
    if segments == [] {
      assert segments + [s] == [s] && [s][1..] == [];
    } else {
      assert (segments + [s])[1..] == segments[1..] + [s] && (segments + [s])[0] == segments[0];
      WrappedSnoc(f, segments[1..], s);
    }
  }

  lemma {:induction false} SegmentsUtf16(html: Units, i: nat)
    requires Utf16(html) && i <= |html|
    ensures forall k :: 0 <= k < |Split(html, i)| ==> Utf16(Split(html, i)[k].units)
    decreases |html| - i
  {
    var q := Find(html, Find(html, i, LT), GT);
    if q < |html| {
      SegmentsUtf16(html, q + 1);
    }
  }

  method Show(text: Units, pieces: seq<Piece>) returns (out: Units)
    ensures out == Joined(text, pieces)
  {
    out := [];
    var k := |pieces|;
    while k > 0
      invariant 0 <= k <= |pieces| && out == Joined(text, pieces[k..])
    {
      k := k - 1;
      assert pieces[k..][0] == pieces[k] && pieces[k..][1..] == pieces[k + 1..];
      out := Shown(text, pieces[k]) + out;
    }
    assert pieces[0..] == pieces;
  }

  /** `wrapWideChars`: the probe and the per-segment loop give the block with every text segment scanned. */
  method WrapWideChars(f: Font, html: Units) returns (out: Units)
    requires Sound(f) && Utf16(html)
    ensures (forall k :: 0 <= k < |Split(html, 0)| ==> Utf16(Split(html, 0)[k].units))
            && out == Wrapped(f, Split(html, 0))
  {
    hide Split, Render, Scan, Wrapped, Sound;
    var parts := Split(html, 0);
    SegmentsUtf16(html, 0);
    SplitIsRight(html);
    out := [];
    WrappedNone(f);
    for i := 0 to |parts|
      invariant out == Wrapped(f, parts[..i])
    {
      var text := parts[i].units;
      WrappedSnoc(f, parts[..i], parts[i]);
      assert parts[..i + 1] == parts[..i] + [parts[i]];
      if i % 2 == 1 {
        out := out + text;
      } else if Probe(text) {
        SortedOf(f);
        var pieces := WrapText(f, text);
        RenderIsScan(f, text, 0, pieces);
        var shown := Show(text, pieces);
        out := out + shown;
      } else {
        ProbeIsSafe(f, text, 0);
        assert text[0..] == text;
        out := out + text;
      }
    }
    assert parts[..|parts|] == parts;
  }

  // ---- the boxes come off again -------------------------------------------------------------------------

  /** A part of the output: one unit of the block, or some of its units in a box. */
  datatype Part = Bare(unit: nat) | Boxed(units: Units)

  function SpelledPart(p: Part): Units { if p.Bare? then [p.unit] else OPEN + p.units + CLOSE }
  function ContentOf(p: Part): Units { if p.Bare? then [p.unit] else p.units }

  function Spelled(parts: seq<Part>): Units {
    if parts == [] then [] else SpelledPart(parts[0]) + Spelled(parts[1..])
  }

  function Contents(parts: seq<Part>): Units {
    if parts == [] then [] else ContentOf(parts[0]) + Contents(parts[1..])
  }

  /** Where the first closing tag starts, or the end. */
  function CloseAt(out: Units): (p: nat)
    ensures p <= |out|
  {
    if out == [] || CLOSE <= out then 0 else 1 + CloseAt(out[1..])
  }

  /** The text without its boxes: every opening tag of a box goes, and the first closing tag after it. */
  function Erase(out: Units): Units {
    if out == [] then []
    else if OPEN <= out then
      OpenTag();
      var inside := out[|OPEN|..];
      var p := CloseAt(inside);
      inside[..p] + if p + |CLOSE| <= |inside| then Erase(inside[p + |CLOSE|..]) else []
    else [out[0]] + Erase(out[1..])
  }

  lemma OpenTag()
    ensures |OPEN| == 20 && OPEN[0] == LT && OPEN[1] == 115 && forall k :: 1 <= k < |OPEN| ==> OPEN[k] != LT
    ensures |CLOSE| == 7 && CLOSE[0] == LT && CLOSE[1] == 47
  {
    var text := "<span class=\"wc2ch\">";
    assert forall k :: 0 <= k < |text| ==> OPEN[k] == text[k] as nat;
  }

  ghost predicate NoBoxHolds(parts: seq<Part>, u: nat) {
    forall k :: 0 <= k < |parts| && parts[k].Boxed? ==> u !in parts[k].units
  }

  /** Where the output goes on without an angle bracket, so does the block. */
  lemma {:induction false} SameWord(parts: seq<Part>, word: Units)
    requires LT !in word && |word| <= |Spelled(parts)| && Spelled(parts)[..|word|] == word
    ensures |word| <= |Contents(parts)| && Contents(parts)[..|word|] == word
  {
    if word != [] {
      assert Spelled(parts)[0] == word[0] && word[0] in word;
      BareFirst(parts);
      var (u, out, block, n) := (parts[0].unit, Spelled(parts[1..]), Contents(parts[1..]), |word| - 1);
      assert ([u] + out)[..|word|] == [u] + out[..n] && word == [word[0]] + word[1..];
      hide Spelled, Contents;
      assert out[..n] == word[1..];
      SameWord(parts[1..], word[1..]);
      assert ([u] + block)[..|word|] == [u] + block[..n];
    }
  }

  /** An output that does not start with an angle bracket starts with a bare unit. */
  lemma BareFirst(parts: seq<Part>)
    requires Spelled(parts) != [] && Spelled(parts)[0] != LT
    ensures parts != [] && parts[0].Bare? && Spelled(parts) == [parts[0].unit] + Spelled(parts[1..])
    ensures Contents(parts) == [parts[0].unit] + Contents(parts[1..])
  {
    OpenTag();
  }

  /** The text holds no opening tag of a box. */
  ghost predicate NoOpen(text: Units) { forall i :: 0 <= i <= |text| ==> !(OPEN <= text[i..]) }

  lemma NoOpenBehind(text: Units, n: nat)
    requires NoOpen(text) && n <= |text|
    ensures NoOpen(text[n..])
  {
    forall i | 0 <= i <= |text| - n
      ensures !(OPEN <= text[n..][i..])
    {
      assert text[n..][i..] == text[n + i..];
    }
  }

  lemma {:induction false} CloseIs(units: Units, rest: Units)
    requires LT !in units
    ensures CloseAt(units + (CLOSE + rest)) == |units|
  {
    OpenTag();
    if units == [] {
      assert [] + (CLOSE + rest) == CLOSE + rest;
    } else {
      assert (units + (CLOSE + rest))[0] == units[0] && units[0] in units;
      assert (units + (CLOSE + rest))[1..] == units[1..] + (CLOSE + rest);
      CloseIs(units[1..], rest);
    }
  }

  lemma EraseBox(units: Units, rest: Units)
    requires LT !in units
    ensures Erase(OPEN + units + CLOSE + rest) == units + Erase(rest)
  {
    OpenTag();
    CloseIs(units, rest);
    var (out, inside) := (OPEN + units + CLOSE + rest, units + (CLOSE + rest));
    hide CloseAt;
    assert OPEN <= out && out[|OPEN|..] == inside;
    assert inside[..|units|] == units && inside[|units| + |CLOSE|..] == rest;
  }

  /** An opening tag spelled from a bare unit on stands in the block itself. */
  lemma OpenShows(u: nat, rest: seq<Part>)
    requires OPEN <= [u] + Spelled(rest)
    ensures OPEN <= [u] + Contents(rest)
  {
    OpenTag();
    var (word, out) := (OPEN[1..], Spelled(rest));
    assert ([u] + out)[..|OPEN|] == OPEN && ([u] + out)[..|OPEN|] == [u] + out[..|word|];
    assert out[..|word|] == word && OPEN == [u] + word;
    SameWord(rest, word);
    assert ([u] + Contents(rest))[..|OPEN|] == [u] + Contents(rest)[..|word|];
  }

  lemma EraseBare(parts: seq<Part>)
    requires parts != [] && parts[0].Bare? && NoOpen(Contents(parts))
    ensures Erase(Spelled(parts)) == [parts[0].unit] + Erase(Spelled(parts[1..]))
  {
    var (u, out, block) := (parts[0].unit, Spelled(parts[1..]), Contents(parts[1..]));
    assert Spelled(parts) == [u] + out && Contents(parts) == [u] + block;
    hide Spelled, Contents;
    assert Contents(parts)[0..] == [u] + block;
    if OPEN <= [u] + out {
      OpenShows(u, parts[1..]);
    }
    assert ([u] + out)[1..] == out;
  }

  /** Erasing the boxes from the spelled-out parts leaves their contents. */
  lemma {:induction false} EraseSpelled(parts: seq<Part>)
    requires NoBoxHolds(parts, LT) && NoOpen(Contents(parts))
    ensures Erase(Spelled(parts)) == Contents(parts)
  {
    if parts != [] {
      var (head, rest) := (parts[0], parts[1..]);
      var n := if head.Bare? then 1 else |head.units|;
      assert Contents(parts)[n..] == Contents(rest);
      NoOpenBehind(Contents(parts), n);
      EraseSpelled(rest);
      hide NoOpen, Erase;
      if head.Bare? {
        EraseBare(parts);
      } else {
        EraseBox(head.units, Spelled(rest));
      }
    }
  }

  // ---- the parts of a block -----------------------------------------------------------------------------

  function TagParts(units: Units): seq<Part> { seq(|units|, i requires 0 <= i < |units| => Bare(units[i])) }

  function TextParts(text: Units, pieces: seq<Piece>): seq<Part>
    requires forall k :: 0 <= k < |pieces| ==> From(pieces[k]) <= To(pieces[k]) <= |text|
  {
    if pieces == [] then []
    else
      var p := pieces[0];
      assert To(p) <= |text|;
      [if p.Unit? then Bare(text[From(p)]) else Boxed(text[From(p)..To(p)])] + TextParts(text, pieces[1..])
  }

  lemma {:induction false} Spellings(a: seq<Part>, b: seq<Part>)
    ensures Spelled(a + b) == Spelled(a) + Spelled(b) && Contents(a + b) == Contents(a) + Contents(b)
  {
    hide SpelledPart, ContentOf;
    if a == [] {
      assert a + b == b;
    } else {
      assert (a + b)[0] == a[0] && (a + b)[1..] == a[1..] + b;
      Spellings(a[1..], b);
    }
  }

  lemma {:induction false} TagSpells(units: Units)
    ensures Spelled(TagParts(units)) == units && Contents(TagParts(units)) == units
  {
    if units != [] {
      assert TagParts(units)[1..] == TagParts(units[1..]);
      TagSpells(units[1..]);
      assert units == [units[0]] + units[1..];
    }
  }

  lemma {:induction false} TextSpells(text: Units, pieces: seq<Piece>)
    requires forall k :: 0 <= k < |pieces| ==> From(pieces[k]) <= To(pieces[k]) <= |text|
    ensures Spelled(TextParts(text, pieces)) == Joined(text, pieces)
    ensures Contents(TextParts(text, pieces)) == Flatten(text, pieces)
  {
    if pieces != [] {
      TextSpells(text, pieces[1..]);
      var parts := TextParts(text, pieces);
      assert parts[1..] == TextParts(text, pieces[1..]);
      PartSpells(text, pieces[0]);
      hide SpelledPart, ContentOf, Shown, From, To;
    }
  }

  lemma PartSpells(text: Units, p: Piece)
    requires From(p) <= To(p) <= |text|
    ensures var part := if p.Unit? then Bare(text[From(p)]) else Boxed(text[From(p)..To(p)]);
            SpelledPart(part) == Shown(text, p) && ContentOf(part) == text[From(p)..To(p)]
  {
  }

  /** No box holds an angle bracket, since none is wide or a mark. */
  lemma BoxHolds(f: Font, text: Units, p: Piece)
    requires Sound(f) && Utf16(text) && !f.mark(LT) && p.Box? && Right(f, text, p)
    ensures LT !in text[p.from..p.to]
  {
    var first := CodePointAt(text, p.from);
    forall m | p.from <= m < p.to
      ensures text[m] != LT
    {
      assert text[m] == LT ==> Boundary(text, m) && CodePointAt(text, m) == LT;
      assert m >= p.from + Size(first) && Boundary(text, m) ==> Joins(f, CodePointAt(text, m));
    }
  }

  lemma {:induction false} TextBoxesHold(f: Font, text: Units, pieces: seq<Piece>)
    requires Sound(f) && Utf16(text) && !f.mark(LT)
    requires forall k :: 0 <= k < |pieces| ==> Right(f, text, pieces[k])
    requires forall k :: 0 <= k < |pieces| ==> From(pieces[k]) <= To(pieces[k]) <= |text|
    ensures NoBoxHolds(TextParts(text, pieces), LT)
  {
    hide Sound, Right;
    if pieces != [] {
      TextBoxesHold(f, text, pieces[1..]);
      if pieces[0].Box? {
        BoxHolds(f, text, pieces[0]);
      }
      var parts := TextParts(text, pieces);
      assert forall k :: 1 <= k < |parts| ==> parts[k] == parts[1..][k - 1];
    }
  }

  /** The parts of a list of segments: tags unit by unit, texts as they were scanned. */
  lemma {:induction false} BlockParts(f: Font, segments: seq<Segment>) returns (parts: seq<Part>)
    requires Sound(f) && !f.mark(LT) && forall k :: 0 <= k < |segments| ==> Utf16(segments[k].units)
    ensures Spelled(parts) == Wrapped(f, segments) && Contents(parts) == AllUnits(segments)
    ensures NoBoxHolds(parts, LT)
  {
    if segments == [] {
      parts := [];
    } else {
      var rest := BlockParts(f, segments[1..]);
      var s := segments[0];
      hide Sound;
      if s.Tag? {
        parts := TagParts(s.units) + rest;
        TagSpells(s.units);
        Spellings(TagParts(s.units), rest);
      } else {
        var pieces := Scan(f, s.units, 0);
        ErasedIsTheText(f, s.units);
        ScanIsRight(f, s.units, 0);
        RenderIsScan(f, s.units, 0, pieces);
        TextSpells(s.units, pieces);
        hide Right, Scan, Render;
        TextBoxesHold(f, s.units, pieces);
        parts := TextParts(s.units, pieces) + rest;
        Spellings(TextParts(s.units, pieces), rest);
      }
    }
  }

  /** Erasing the boxes of the output gives the block back, whatever tags it holds but a box's own. */
  lemma BoxesComeOff(f: Font, html: Units)
    requires Sound(f) && !f.mark(LT) && Utf16(html) && NoOpen(html)
    ensures forall k :: 0 <= k < |Split(html, 0)| ==> Utf16(Split(html, 0)[k].units)
    ensures Erase(Wrapped(f, Split(html, 0))) == html
  {
    SegmentsUtf16(html, 0);
    SplitIsRight(html);
    hide Split, Sound, Wrapped, NoOpen, Alternates, RightSegment;
    var parts := BlockParts(f, Split(html, 0));
    EraseSpelled(parts);
  }

  lemma WrappedNone(f: Font)
    ensures Wrapped(f, []) == []
  {
  }

  lemma SortedOf(f: Font)
    requires Sound(f)
    ensures Sorted(f.table)
  {
  }
}
