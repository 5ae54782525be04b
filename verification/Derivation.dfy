/**
 Turn derivation (chat/turn-engine.js): closing a span into a segment, deriving the segments of a
 whole store, and merging an older page in front of segments that already exist.
 */
module Derivation {
  import opened Common
  import opened Transcript
  import opened SpanRule

  /** A segment's content: a flat run, pending or settled, or a turn with its key and fold. */
  datatype Shape =
    | Flat(entries: seq<Entry>, pending: bool)
    | Turn(entries: seq<Entry>, key: string, fold: seq<Entry>, separator: Entry)

  datatype Described = Described(head: Entry, conclusion: Option<Entry>, separator: Entry,
                                 fold: seq<Entry>, carried: seq<Entry>)
  datatype Closed = Closed(shape: Shape, carried: seq<Entry>)

  function Stable(s: seq<Entry>): seq<Entry> { Keep(StableEntry, s) }

  function TurnKey(head: Entry, conclusion: Option<Entry>, separator: Entry): string {
    head.msg.id + "|" + (if conclusion.Some? then conclusion.value.msg.id else "") + "|" + separator.msg.id
  }

  /** An id of a message that the server or this client made holds no bar. */
  ghost predicate NoBar(id: string) { '|' !in id }

  /** Around the first bar there is one way to cut. */
  lemma FirstBar(a: string, b: string, x: string, y: string)
    requires a + "|" + b == x + "|" + y && NoBar(a) && NoBar(x)
    ensures a == x && b == y
  {
    var (left, right) := (a + "|" + b, x + "|" + y);
    assert left[|a|] == '|' && right[|x|] == '|';
    assert forall i :: 0 <= i < |a| ==> left[i] == a[i] && a[i] in a;
    assert forall i :: 0 <= i < |x| ==> right[i] == x[i] && x[i] in x;
    assert |a| == |x|;
    assert left[..|a|] == a && right[..|x|] == x;
    assert left[|a| + 1..] == b && right[|x| + 1..] == y;
  }

  function IdOf(e: Option<Entry>): string { if e.Some? then e.value.msg.id else "" }

  /** Two turns have one key if and only if head, conclusion and separator have the same ids. */
  lemma KeyTells(h: Entry, c: Option<Entry>, s: Entry, h': Entry, c': Option<Entry>, s': Entry)
    requires NoBar(h.msg.id) && NoBar(IdOf(c)) && NoBar(h'.msg.id) && NoBar(IdOf(c'))
    ensures TurnKey(h, c, s) == TurnKey(h', c', s')
            <==> h.msg.id == h'.msg.id && IdOf(c) == IdOf(c') && s.msg.id == s'.msg.id
  {
    if TurnKey(h, c, s) == TurnKey(h', c', s') {
      var (rest, rest') := (IdOf(c) + "|" + s.msg.id, IdOf(c') + "|" + s'.msg.id);
      assert TurnKey(h, c, s) == h.msg.id + "|" + rest && TurnKey(h', c', s') == h'.msg.id + "|" + rest';
      FirstBar(h.msg.id, rest, h'.msg.id, rest');
      FirstBar(IdOf(c), s.msg.id, IdOf(c'), s'.msg.id);
    }
  }

  function DescriptionOf(span: seq<Entry>): Option<Described> {
    var stable := Stable(span);
    if stable == [] then None else
    var split := SplitOf(stable[..|stable| - 1]);
    if split.head == None then None
    else Some(Described(split.head.value, split.conclusion, stable[|stable| - 1], split.fold, split.carried))
  }

  /** The settled segment of the entries that stay in a span: a turn, or a flat run without a body. */
  function ShapeOf(kept: seq<Entry>): Shape {
    match DescriptionOf(kept)
    case None => Flat(kept, false)
    case Some(turn) => Turn(kept, TurnKey(turn.head, turn.conclusion, turn.separator), turn.fold, turn.separator)
  }

  /** Closing a span keeps its early part and hands its late inputs on. */
  function CloseOf(span: seq<Entry>): Closed { Closed(ShapeOf(Early(span)), Late(span)) }

  ghost predicate Closing(span: seq<Entry>) { span != [] && Closes(span[|span| - 1]) }

  // ---- closing a span -------------------------------------------------------------------------------

  /** Unstable entries neither open, answer nor close anything. */
  lemma {:induction false} StableParts(s: seq<Entry>)
    ensures Prelude(Stable(s)) == Stable(Prelude(s)) && After(Stable(s)) == Stable(After(s))
  {
    if s != [] {
      StableParts(s[1..]);
      var (x, rest) := (if StableEntry(s[0]) then [s[0]] else [], s[1..]);
      if !IsReply(s[0]) {
        assert After(x) == [] && Prelude(x) == x;
        PartsConcat(x, Stable(rest));
        KeepConcat(StableEntry, [s[0]], Prelude(rest));
        assert Stable([s[0]]) == x;
      }
    }
  }

  lemma StableLateEarly(s: seq<Entry>)
    ensures Late(Stable(s)) == Late(s) && Early(Stable(s)) == Stable(Early(s))
  {
    StableParts(s);
    KeepCommutes(StableEntry, IsInput, After(s));
    KeepCommutes(StableEntry, NotInput, After(s));
    KeepMembers(IsInput, After(s));
    assert forall i :: 0 <= i < |Late(s)| ==> Late(s)[i] in Late(s);
    KeepAll(StableEntry, Late(s));
    KeepConcat(StableEntry, Prelude(s), Others(After(s)));
  }

  /** A closing separator stays last on every view of its span. */
  lemma ClosingParts(s: seq<Entry>, sep: Entry)
    requires Closes(sep)
    ensures Stable(s + [sep]) == Stable(s) + [sep]
    ensures Late(s + [sep]) == Late(s) && Early(s + [sep]) == Early(s) + [sep]
  {
    KeepConcat(StableEntry, s, [sep]);
    AcrossParts(s, [sep]);
    KeepNone(IsInput, [sep]);
    KeepAll(NotInput, [sep]);
    KeepAll(StableEntry, [sep]);
    NoReply([sep]);
    if After(s) == [] {
      Parts(s);
      assert Early(s) == s;
    }
  }

  /** The description reads only the entries that stay, so a settled segment re-derives to itself. */
  lemma DescriptionReadsKept(span: seq<Entry>)
    requires Closing(span)
    ensures DescriptionOf(Early(span)).Some? == DescriptionOf(span).Some?
    ensures DescriptionOf(span).Some? ==>
              && DescriptionOf(span).value.carried == Late(span)
              && DescriptionOf(Early(span)).value == DescriptionOf(span).value.(carried := [])
    ensures DescriptionOf(span).None? ==> Late(span) == [] && Early(span) == span
  {
    var (s, sep) := (span[..|span| - 1], span[|span| - 1]);
    assert span == s + [sep];
    ClosingParts(s, sep);
    ClosingParts(Early(s), sep);
    StableLateEarly(s);
    var body := Stable(s);
    SplitReadsKept(body);
    assert Stable(Early(span)) == Early(body) + [sep];
    assert (body + [sep])[..|body|] == body && (Early(body) + [sep])[..|Early(body)|] == Early(body);
    Parts(body);
    if DescriptionOf(span).None? {
      assert body == [] by {
        if body != [] {
          HeadPlace(body);
        }
      }
      NoStable(s);
    } else if body != [] {
      HeadPlace(body);
    }
  }

  lemma NoStable(s: seq<Entry>)
    requires Stable(s) == []
    ensures Late(s) == [] && Early(s) == s
  {
    KeepMembers(StableEntry, s);
    assert forall i :: 0 <= i < |s| ==> s[i] in s;
    NoReply(s);
  }

  /** The last stable entry separates, and the body before it is dealt by the turn-input rule. */
  ghost predicate Describes(span: seq<Entry>, t: Described) {
    var stable := Stable(span);
    && |stable| > 1 && t.separator == stable[|stable| - 1]
    && exists own: seq<Entry> ::
         Dealt(stable[..|stable| - 1], Split(own, t.carried, Some(t.head), t.conclusion, t.fold))
  }

  /** A closed span: a flat run without a body, or a turn under the ids of its head, conclusion and separator. */
  ghost predicate ClosesAs(span: seq<Entry>, closed: Closed) {
    match closed.shape
    case Flat(_, pending) => |Stable(span)| <= 1 && !pending && closed.carried == []
    case Turn(_, key, fold, separator) =>
      exists t: Described ::
        && Describes(span, t) && t.fold == fold && t.separator == separator && t.carried == closed.carried
        && key == t.head.msg.id + "|" + IdOf(t.conclusion) + "|" + separator.msg.id
  }

  lemma HeadExists(body: seq<Entry>, split: Split)
    requires Dealt(body, split)
    ensures split.head.None? <==> body == []
  {
    var first: nat, last: int :| DealtAt(body, split, first, last);
    LastUserMember(split.ownInputs);
    if split.ownInputs != [] && LastUser(split.ownInputs).Some? {
      var i := LastUserPlace(split.ownInputs);
    }
    KeepMembers(IsInput, body[..first]);
  }

  lemma {:induction false} LastUserPlace(s: seq<Entry>) returns (i: nat)
    requires LastUser(s).Some?
    ensures i < |s| && s[i].msg.role.User? && forall k :: i < k < |s| ==> !s[k].msg.role.User?
  {
    if s[|s| - 1].msg.role.User? {
      i := |s| - 1;
    } else {
      i := LastUserPlace(s[..|s| - 1]);
    }
  }

  method DescribeSpan(span: seq<Entry>) returns (turn: Option<Described>)
    requires Distinct(span)
    ensures turn == DescriptionOf(span)
    ensures turn.None? <==> |Stable(span)| <= 1
    ensures turn.Some? ==> Describes(span, turn.value)
  {
    hide SplitOf, Keep, Dealt;
    var stable := Stable(span);
    if stable == [] {
      return None;
    }
    var separator := stable[|stable| - 1];
    var body := stable[..|stable| - 1];
    KeepDistinct(StableEntry, span);
    KeepMembers(StableEntry, span);
    assert forall i :: 0 <= i < |body| ==> body[i] in stable;
    var split := SplitTurnSpan(body);
    HeadExists(body, split);
    if split.head == None {
      return None;
    }
    assert split == Split(split.ownInputs, split.carried, Some(split.head.value), split.conclusion, split.fold);
    turn := Some(Described(split.head.value, split.conclusion, separator, split.fold, split.carried));
  }

  lemma {:induction false} KeepCongruent<T>(p: T -> bool, q: T -> bool, s: seq<T>)
    requires forall i :: 0 <= i < |s| ==> p(s[i]) == q(s[i])
    ensures Keep(p, s) == Keep(q, s)
  {
    if s != [] {
      KeepCongruent(p, q, s[1..]);
    }
  }

  /** Filtering the carry out by identity leaves exactly the early part, in order. */
  lemma FilterCarried(span: seq<Entry>, stays: Entry -> bool)
    requires Distinct(span) && forall e :: stays(e) <==> e !in Late(span)
    ensures Keep(stays, span) == Early(span)
  {
    var (pre, post) := (Prelude(span), After(span));
    Parts(span);
    DistinctConcat(pre, post);
    KeepMembers(IsInput, post);
    hide Keep, Prelude, After, Distinct;
    KeepConcat(stays, pre, post);
    assert forall i :: 0 <= i < |pre| ==> pre[i] in pre;
    KeepAll(stays, pre);
    assert forall i :: 0 <= i < |post| ==> post[i] in post;
    KeepCongruent(stays, NotInput, post);
  }

  /** `closeSpan`: the thrown error of the fold check is never reached. */
  method CloseSpan(span: seq<Entry>) returns (closed: Result<Closed>)
    requires Distinct(span) && Closing(span)
    ensures closed == Ok(CloseOf(span)) && ClosesAs(span, closed.value)
  {
    hide Describes;
    DescriptionReadsKept(span);
    var turn := DescribeSpan(span);
    if turn == None {
      return Ok(Closed(Flat(span, false), []));
    }
    var carriedSet := set e | e in turn.value.carried;
    var entries := Keep(e => e !in carriedSet, span);
    FilterCarried(span, e => e !in carriedSet);
    FoldStays(span);
    var foldEntries := turn.value.fold;
    for i := 0 to |foldEntries| {
      if foldEntries[i] !in entries {
        return Err("fold entry outside its segment");
      }
    }
    var key := TurnKey(turn.value.head, turn.value.conclusion, turn.value.separator);
    closed := Ok(Closed(Turn(entries, key, foldEntries, turn.value.separator), turn.value.carried));
  }

  /** Every fold entry is an entry of the segment being closed. */
  lemma FoldStays(span: seq<Entry>)
    requires Distinct(span) && Closing(span) && DescriptionOf(span).Some?
    ensures forall e :: e in DescriptionOf(span).value.fold ==> e in Early(span)
  {
    var (s, sep) := (span[..|span| - 1], span[|span| - 1]);
    assert span == s + [sep];
    ClosingParts(s, sep);
    StableLateEarly(s);
    var body := Stable(s);
    assert (body + [sep])[..|body|] == body;
    DistinctConcat(s, [sep]);
    KeepDistinct(StableEntry, s);
    FoldPlace(body);
    KeepMembers(StableEntry, Early(s));
  }

  // ---- the batch derivation -------------------------------------------------------------------------

  /** The store cut after every stable separator; the last span is the one still open. */
  function Spans(entries: seq<Entry>): (spans: seq<seq<Entry>>)
    ensures spans != []
  {
    if entries == [] then [[]]
    else if Closes(entries[0]) then [[entries[0]]] + Spans(entries[1..])
    else var rest := Spans(entries[1..]); [[entries[0]] + rest[0]] + rest[1..]
  }

  function Last<T>(s: seq<T>): T
    requires s != []
  {
    s[|s| - 1]
  }

  /** What span `k` takes over: the late inputs of the span before it, and of no earlier one. */
  function CarryIn(spans: seq<seq<Entry>>, k: nat): seq<Entry>
    requires k < |spans|
  {
    if k == 0 then [] else Late(spans[k - 1])
  }

  function SettledAt(spans: seq<seq<Entry>>, k: nat): Shape
    requires k < |spans|
  {
    ShapeOf(CarryIn(spans, k) + Early(spans[k]))
  }

  function Settled(spans: seq<seq<Entry>>): seq<Shape>
    requires spans != []
  {
    seq(|spans| - 1, k requires 0 <= k < |spans| - 1 => SettledAt(spans, k))
  }

  function TailOf(spans: seq<seq<Entry>>): seq<Entry>
    requires spans != []
  {
    CarryIn(spans, |spans| - 1) + Last(spans)
  }

  function PendingTail(tail: seq<Entry>): seq<Shape> {
    if tail == [] then [] else [Flat(tail, true)]
  }

  /**
   The segment list a store stands for, segment by segment and with no state passed along:
   segment k holds the late inputs of arrival span k-1 and the early part of arrival span k.
   */
  function Reference(entries: seq<Entry>): seq<Shape> {
    Settled(Spans(entries)) + PendingTail(TailOf(Spans(entries)))
  }

  /** Two cut runs put together: the spans that meet become one. */
  function Glue(p: seq<seq<Entry>>, q: seq<seq<Entry>>): seq<seq<Entry>>
    requires p != [] && q != []
  {
    p[..|p| - 1] + [Last(p) + q[0]] + q[1..]
  }

  /** Cutting a concatenation glues the two spans that meet. */
  lemma {:induction false} SpansConcat(a: seq<Entry>, b: seq<Entry>)
    ensures Spans(a + b) == Glue(Spans(a), Spans(b))
  {
    if a == [] {
      assert a + b == b;
      assert [] + Spans(b)[0] == Spans(b)[0];
    } else {
      assert (a + b)[1..] == a[1..] + b;
      SpansConcat(a[1..], b);
      GlueFront(a[0], Spans(a[1..]), Spans(b));
    }
  }

  lemma GlueFront(e: Entry, p: seq<seq<Entry>>, q: seq<seq<Entry>>)
    requires p != [] && q != []
    ensures Glue([[e]] + p, q) == [[e]] + Glue(p, q)
    ensures Glue([[e] + p[0]] + p[1..], q) == [[e] + Glue(p, q)[0]] + Glue(p, q)[1..]
  {
    assert Last([[e]] + p) == Last(p);
    var front := [[e] + p[0]] + p[1..];
    if |p| == 1 {
      assert [e] + (p[0] + q[0]) == [e] + p[0] + q[0];
    } else {
      assert Last(front) == Last(p);
      assert front[..|front| - 1] == [[e] + p[0]] + p[1..|p| - 1];
    }
  }

  lemma SpansSnoc(a: seq<Entry>, e: Entry)
    ensures var s := Spans(a);
            Spans(a + [e]) == s[..|s| - 1] + [Last(s) + [e]] + if Closes(e) then [[]] else []
  {
    SpansConcat(a, [e]);
    assert [e][1..] == [] && [e] + [] == [e];
    assert Spans([e]) == if Closes(e) then [[e], []] else [[e]];
  }

  ghost predicate Open(s: seq<Entry>) { forall i :: 0 <= i < |s| ==> !Closes(s[i]) }

  /** The length of span `k` without its closing separator. */
  function Body(spans: seq<seq<Entry>>, k: nat): (n: nat)
    requires k < |spans|
    ensures n <= |spans[k]|
  {
    if k == |spans| - 1 || spans[k] == [] then |spans[k]| else |spans[k]| - 1
  }

  /** Each span but the last ends at its only separator; the last has none. */
  ghost predicate WellCut(spans: seq<seq<Entry>>) {
    && (forall k :: 0 <= k < |spans| - 1 ==> Closing(spans[k]))
    && (forall k :: 0 <= k < |spans| ==> Open(spans[k][..Body(spans, k)]))
  }

  lemma CutBefore(e: Entry, rest: seq<seq<Entry>>)
    requires rest != [] && WellCut(rest) && Closes(e)
    ensures WellCut([[e]] + rest)
  {
    var all := [[e]] + rest;
    assert forall k :: 1 <= k < |all| ==> all[k] == rest[k - 1] && Body(all, k) == Body(rest, k - 1);
  }

  lemma CutFurther(e: Entry, rest: seq<seq<Entry>>)
    requires rest != [] && WellCut(rest) && !Closes(e)
    ensures WellCut([[e] + rest[0]] + rest[1..])
  {
    var all := [[e] + rest[0]] + rest[1..];
    assert forall k :: 1 <= k < |all| ==> all[k] == rest[k] && Body(all, k) == Body(rest, k);
    assert all[0][..Body(all, 0)] == [e] + rest[0][..Body(rest, 0)];
    assert Open(rest[0][..Body(rest, 0)]);
  }

  lemma {:induction false} SpansClosed(entries: seq<Entry>)
    ensures WellCut(Spans(entries))
  {
    if entries != [] {
      hide WellCut, Closes;
      SpansClosed(entries[1..]);
      if Closes(entries[0]) {
        CutBefore(entries[0], Spans(entries[1..]));
      } else {
        CutFurther(entries[0], Spans(entries[1..]));
      }
    }
  }

  lemma {:induction false} SpansOfOpen(s: seq<Entry>)
    requires Open(s)
    ensures Spans(s) == [s]
  {
    if s != [] {
      SpansOfOpen(s[1..]);
      assert s == [s[0]] + s[1..];
    }
  }

  lemma CarryInIsInputs(spans: seq<seq<Entry>>, k: nat)
    requires k < |spans|
    ensures Inputs(CarryIn(spans, k)) == CarryIn(spans, k) && After(CarryIn(spans, k)) == []
  {
    if k > 0 {
      InputsOnly(After(spans[k - 1]));
    }
  }

  /** Closing what span `k` holds gives segment `k`, and carries exactly its own late inputs. */
  lemma CloseAt(spans: seq<seq<Entry>>, k: nat)
    requires k < |spans|
    ensures CloseOf(CarryIn(spans, k) + spans[k]) == Closed(SettledAt(spans, k), Late(spans[k]))
  {
    CarryInIsInputs(spans, k);
    CarriedInFront(CarryIn(spans, k), spans[k]);
  }

  /** One more entry: the tail grows, or closes into one more settled segment. */
  lemma ReferenceSnoc(a: seq<Entry>, e: Entry)
    ensures var (s, t) := (Spans(a), Spans(a + [e]));
            var span := TailOf(s) + [e];
            if Closes(e) then Settled(t) == Settled(s) + [CloseOf(span).shape] && TailOf(t) == CloseOf(span).carried
            else Settled(t) == Settled(s) && TailOf(t) == span
  {
    hide ShapeOf, Late, Early, Spans, Closes, CloseOf;
    var (s, t) := (Spans(a), Spans(a + [e]));
    SpansSnoc(a, e);
    var n := |s| - 1;
    assert (forall k :: 0 <= k < n ==> t[k] == s[k]) && t[n] == Last(s) + [e];
    SameUpTo(s, t, n);
    assert CarryIn(s, n) + (Last(s) + [e]) == TailOf(s) + [e];
    hide CarryIn, SettledAt;
    if Closes(e) {
      CloseAt(t, n);
      OneSettledMore(s, t);
    }
  }

  /** The settled segments and the carry of the first `n` spans are read off those spans alone. */
  lemma SameUpTo(s: seq<seq<Entry>>, t: seq<seq<Entry>>, n: nat)
    requires n < |s| && n < |t| && forall k :: 0 <= k < n ==> t[k] == s[k]
    ensures (forall k :: 0 <= k < n ==> SettledAt(t, k) == SettledAt(s, k)) && CarryIn(t, n) == CarryIn(s, n)
  {
    hide ShapeOf, Late, Early;
  }

  lemma OneSettledMore(s: seq<seq<Entry>>, t: seq<seq<Entry>>)
    requires s != [] && |t| == |s| + 1 && Last(t) == []
    requires forall k :: 0 <= k < |s| - 1 ==> SettledAt(t, k) == SettledAt(s, k)
    ensures Settled(t) == Settled(s) + [SettledAt(t, |s| - 1)] && TailOf(t) == Late(t[|s| - 1])
  {
    hide ShapeOf, Early, SettledAt;
    assert CarryIn(t, |s|) == Late(t[|s| - 1]);
    assert Late(t[|s| - 1]) + [] == Late(t[|s| - 1]);
  }

  /** The carried part and the rest of the store stay distinct when a span closes. */
  lemma CarryDistinct(span: seq<Entry>, rest: seq<Entry>)
    requires Distinct(span + rest)
    ensures Distinct(span) && Distinct(Late(span) + rest)
  {
    DistinctConcat(span, rest);
    Parts(span);
    DistinctConcat(Prelude(span), After(span));
    KeepDistinct(IsInput, After(span));
    KeepMembers(IsInput, After(span));
    DistinctConcat(Late(span), rest);
  }

  /** `deriveSegments`: one pass over a run of entries. */
  method DeriveSegments(entries: seq<Entry>) returns (segments: seq<Shape>, tailSpan: seq<Entry>)
    requires Distinct(entries)
    ensures segments == Settled(Spans(entries)) && tailSpan == TailOf(Spans(entries))
  {
    hide ClosesAs;
    segments := [];
    var span: seq<Entry> := [];
    assert entries[0..] == entries && [] + entries == entries;
    for i := 0 to |entries|
      invariant segments == Settled(Spans(entries[..i])) && span == TailOf(Spans(entries[..i]))
      invariant Distinct(span + entries[i..])
    {
      DeriveStep(entries, i);
      span := span + [entries[i]];
      if Closes(entries[i]) {
        var closed := CloseSpan(span);
        segments := segments + [closed.value.shape];
        span := closed.value.carried;
      }
    }
    assert entries[..|entries|] == entries;
    tailSpan := span;
  }

  lemma DeriveStep(entries: seq<Entry>, i: nat)
    requires i < |entries| && Distinct(TailOf(Spans(entries[..i])) + entries[i..])
    ensures var (s, t) := (Spans(entries[..i]), Spans(entries[..i + 1]));
            var span := TailOf(s) + [entries[i]];
            && Distinct(span) && Distinct(span + entries[i + 1..]) && Distinct(Late(span) + entries[i + 1..])
            && if Closes(entries[i])
               then Settled(t) == Settled(s) + [CloseOf(span).shape] && TailOf(t) == CloseOf(span).carried
               else Settled(t) == Settled(s) && TailOf(t) == span
  {
    hide Spans, Settled, TailOf, Late, Closes, Distinct, ShapeOf, Early;
    assert entries[..i + 1] == entries[..i] + [entries[i]];
    ReferenceSnoc(entries[..i], entries[i]);
    var span := TailOf(Spans(entries[..i]));
    assert span + entries[i..] == span + [entries[i]] + entries[i + 1..];
    CarryDistinct(span + [entries[i]], entries[i + 1..]);
  }
}
