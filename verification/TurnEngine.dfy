/**
 The turn engine (chat/turn-engine.js): one ordered store of entries, the segments derived from it,
 and the window of rows the container shows.
 */
module TurnEngine {
  import opened Common
  import opened Transcript
  import opened Derivation
  import opened Pagination
  import opened TurnWindow
  import opened RowList
  import SpanRule

  datatype View = Everything | ForYou

  /** A segment object; `sid` is its identity, which growing in place keeps and re-deriving does not. */
  datatype Segment = Segment(sid: nat, shape: Shape)

  datatype Anchor = AtMessage(id: string) | AtTurn(key: string)
  datatype Reason = OnScroll | OnPrepend | OnUpdate
  datatype Outcome = Hidden | FlatList | Skipped | Projected

  /**
   What one projection reads of the page: the viewport, whether it follows the bottom, the anchor to
   hold, the height of each segment before and after the swap, and the signature of the
   materialization each segment currently needs.
   */
  datatype Layout = Layout(clientHeight: Height, scrollTop: real, pinned: bool, anchor: Option<Anchor>,
                           before: nat -> Height, after: nat -> Height, sig: nat -> int)

  datatype Key = Key(role: Role, id: string, content: string)

  function MessageKey(m: Message): Option<Key> {
    if m.id == "" then None else Some(Key(m.role, m.id, m.content))
  }

  function Sids(segments: seq<Segment>): (r: seq<nat>)
    ensures |r| == |segments|
  {
    seq(|segments|, i requires 0 <= i < |segments| => segments[i].sid)
  }

  function Shapes(segments: seq<Segment>): (r: seq<Shape>)
    ensures |r| == |segments|
  {
    seq(|segments|, i requires 0 <= i < |segments| => segments[i].shape)
  }

  /** New segment objects for these shapes, with identities from `first` on. */
  function NewSegments(first: nat, shapes: seq<Shape>): (r: seq<Segment>)
    ensures |r| == |shapes| && Shapes(r) == shapes
    ensures forall i :: 0 <= i < |r| ==> r[i].sid == first + i
  {
    seq(|shapes|, i requires 0 <= i < |shapes| => Segment(first + i, shapes[i]))
  }

  function Heights(segments: seq<Segment>, height: nat -> Height): (h: seq<Height>)
    ensures |h| == |segments|
  {
    seq<Height>(|segments|, i requires 0 <= i < |segments| => height(segments[i].sid))
  }

  predicate HoldsAnchor(s: Segment, a: Anchor) {
    match a
    case AtMessage(id) => exists i :: 0 <= i < |s.shape.entries| && s.shape.entries[i].msg.id == id
    case AtTurn(key) => s.shape.Turn? && s.shape.key == key
  }

  /** Segment `i` is the first to hold the anchor. */
  ghost predicate IsAnchorSegment(segments: seq<Segment>, a: Anchor, i: int) {
    && 0 <= i < |segments| && HoldsAnchor(segments[i], a)
    && forall k :: 0 <= k < i ==> !HoldsAnchor(segments[k], a)
  }

  /** `segmentIndexOfAnchor`: the first segment that holds the anchor, or -1. */
  method AnchorIndex(segments: seq<Segment>, a: Anchor) returns (index: int)
    ensures -1 <= index < |segments|
    ensures forall i :: IsAnchorSegment(segments, a, i) <==> i == index && index >= 0
  {
    for i := 0 to |segments|
      invariant forall k :: 0 <= k < i ==> !HoldsAnchor(segments[k], a)
    {
      if HoldsAnchor(segments[i], a) {
        return i;
      }
    }
    index := -1;
  }

  /**
   The base of a projected window: the trailing segments while it follows the bottom, else those around the
   viewport.
   */
  ghost predicate BaseRange(segments: seq<Segment>, reason: Reason, layout: Layout, base: Range) {
    var h := Heights(segments, layout.before);
    && base.ValidFor(|segments|)
    && if layout.pinned && !reason.OnPrepend? then Trails(h, layout.clientHeight, base)
       else Surrounds(h, layout.scrollTop, layout.clientHeight, base)
  }

  /** The segment a projection keeps in view: the restore anchor's, unless it snaps to the bottom. */
  ghost predicate Restores(segments: seq<Segment>, reason: Reason, layout: Layout, i: int) {
    && layout.anchor.Some? && (layout.pinned ==> reason.OnScroll? || reason.OnPrepend?)
    && IsAnchorSegment(segments, layout.anchor.value, i)
  }

  /** Which segments a projection shows: its base, widened to the segment it keeps in view. */
  ghost predicate Chosen(segments: seq<Segment>, reason: Reason, layout: Layout, r: Range) {
    exists base: Range ::
      && BaseRange(segments, reason, layout, base)
      && (forall i: nat :: Restores(segments, reason, layout, i) ==> Widens(base, i, r))
      && ((forall i: nat :: !Restores(segments, reason, layout, i)) ==> r == base)
  }

  /** That is one range only. */
  lemma ChosenOne(segments: seq<Segment>, reason: Reason, layout: Layout, a: Range, b: Range)
    requires Chosen(segments, reason, layout, a) && Chosen(segments, reason, layout, b)
    ensures a == b
  {
    hide BaseRange, Restores, Widens;
    var v: Range :| && BaseRange(segments, reason, layout, v)
                    && (forall i: nat :: Restores(segments, reason, layout, i) ==> Widens(v, i, a))
                    && ((forall i: nat :: !Restores(segments, reason, layout, i)) ==> a == v);
    var w: Range :| && BaseRange(segments, reason, layout, w)
                    && (forall i: nat :: Restores(segments, reason, layout, i) ==> Widens(w, i, b))
                    && ((forall i: nat :: !Restores(segments, reason, layout, i)) ==> b == w);
    BaseOne(segments, reason, layout, v, w);
    if i: nat :| Restores(segments, reason, layout, i) {
      RestoresSome(segments, reason, layout, i);
      ValidBase(segments, reason, layout, v);
      WidensOne(v, i, a, b);
    }
  }

  lemma BaseOne(segments: seq<Segment>, reason: Reason, layout: Layout, v: Range, w: Range)
    requires BaseRange(segments, reason, layout, v) && BaseRange(segments, reason, layout, w)
    ensures v == w
  {
    hide Trails, Surrounds;
    var h := Heights(segments, layout.before);
    if layout.pinned && !reason.OnPrepend? {
      TrailsOne(h, layout.clientHeight, v, w);
    } else {
      SurroundsOne(h, layout.scrollTop, layout.clientHeight, v, w);
    }
  }

  lemma RestoresSome(segments: seq<Segment>, reason: Reason, layout: Layout, i: int)
    requires Restores(segments, reason, layout, i)
    ensures 0 <= i < |segments|
  {
  }

  lemma ValidBase(segments: seq<Segment>, reason: Reason, layout: Layout, base: Range)
    requires BaseRange(segments, reason, layout, base) && segments != []
    ensures base.start <= base.end && base.Size() <= MAX_WINDOW_TURNS
  {
  }

  function Decimal(n: nat): (s: string)
    ensures s != ""
  {
    if n < 10 then ["0123456789"[n]] else Decimal(n / 10) + ["0123456789"[n % 10]]
  }

  lemma {:induction false} DecimalTells(m: nat, n: nat)
    requires Decimal(m) == Decimal(n)
    ensures m == n
  {
    var (a, b) := (Decimal(m), Decimal(n));
    var digits := "0123456789";
    assert forall i, j :: 0 <= i < j < 10 ==> digits[i] != digits[j];
    DecimalParts(m);
    DecimalParts(n);
    assert a[|a| - 1] == digits[m % 10] && b[|b| - 1] == digits[n % 10];
    if m >= 10 && n >= 10 {
      assert a[..|a| - 1] == Decimal(m / 10) && b[..|b| - 1] == Decimal(n / 10);
      DecimalTells(m / 10, n / 10);
    }
  }

  lemma DecimalParts(n: nat)
    ensures Decimal(n)[|Decimal(n)| - 1] == "0123456789"[n % 10] && (n < 10 <==> |Decimal(n)| == 1)
    ensures n >= 10 ==> Decimal(n)[..|Decimal(n)| - 1] == Decimal(n / 10)
  {
  }

  /** What a view of the segment list needs of the row table. */
  ghost predicate RowsMatch(sids: seq<nat>, table: map<nat, nat>, dom: seq<nat>, nextNode: nat) {
    && Unique(sids) && Injective(table)
    && (forall s :: s in table ==> s in sids && table[s] < nextNode)
    && dom == Rows(sids, table)
  }

  /** Every row whose signature is known was built from what its segment holds now. */
  ghost predicate RowsCurrent(segments: seq<Segment>, table: map<nat, nat>, sigs: map<nat, int>,
                              built: map<nat, Shape>) {
    && (forall s :: s in table ==> table[s] in built)
    && forall i :: 0 <= i < |segments| && segments[i].sid in table && segments[i].sid in sigs
         ==> built[table[segments[i].sid]] == segments[i].shape
  }

  /** A row, if there is one, carries the signature its segment needs now. */
  ghost predicate UpToDate(s: nat, table: map<nat, nat>, sigs: map<nat, int>, layout: Layout) {
    s in table ==> s in sigs && sigs[s] == layout.sig(s)
  }

  /**
   A list on its way through the boundary loop: new segments holding `done`, then the old ones from
   `used` on, untouched.
   */
  ghost predicate Layered(segments: seq<Segment>, done: seq<Shape>, had: seq<Segment>, used: nat, lo: nat, hi: nat) {
    && used <= |had| && |segments| == |done| + |had| - used
    && segments[|done|..] == had[used..] && Shapes(segments[..|done|]) == done
    && (forall i :: 0 <= i < |done| ==> lo <= segments[i].sid < hi)
    && (forall i, j :: 0 <= i < j < |done| ==> segments[i].sid < segments[j].sid)
    && (forall i :: 0 <= i < |had| ==> had[i].sid < lo) && Unique(Sids(had)) && lo <= hi
  }

  lemma LayeredFirst(had: seq<Segment>, lo: nat)
    requires Unique(Sids(had)) && forall i :: 0 <= i < |had| ==> had[i].sid < lo
    ensures Layered(had, [], had, 0, lo, lo)
  {
    assert had[0..] == had;
  }

  /** New shapes in place of the next `take` old segments. */
  lemma LayeredMore(segments: seq<Segment>, done: seq<Shape>, had: seq<Segment>, used: nat, lo: nat, hi: nat,
                    derived: seq<Shape>, take: nat)
    requires Layered(segments, done, had, used, lo, hi) && |done| + take <= |segments|
    ensures Layered(segments[..|done|] + NewSegments(hi, derived) + segments[|done| + take..],
                    done + derived, had, used + take, lo, hi + |derived|)
  {
    var (front, added) := (segments[..|done|], NewSegments(hi, derived));
    var next := front + added + segments[|done| + take..];
    assert segments[|done| + take..] == had[used + take..] by {
      assert segments[|done|..][take..] == segments[|done| + take..];
      assert had[used..][take..] == had[used + take..];
    }
    assert next[..|done + derived|] == front + added;
    ShapesConcat(front, added);
    assert next[|done + derived|..] == had[used + take..];
  }

  lemma LayeredAt(segments: seq<Segment>, done: seq<Shape>, had: seq<Segment>, used: nat, lo: nat, hi: nat)
    requires Layered(segments, done, had, used, lo, hi)
    ensures |segments| == |done| + |had| - used
    ensures used < |had| ==> segments[|done|].shape == Shapes(had)[used]
  {
    if used < |had| {
      assert segments[|done|..][0] == had[used..][0];
    }
  }

  lemma LayeredShapes(segments: seq<Segment>, done: seq<Shape>, had: seq<Segment>, used: nat, lo: nat, hi: nat)
    requires Layered(segments, done, had, used, lo, hi)
    ensures Shapes(segments) == done + Shapes(had)[used..]
    ensures Unique(Sids(segments)) && forall i :: 0 <= i < |segments| ==> segments[i].sid < hi
    ensures forall i :: 0 <= i < |done| ==> segments[i].sid >= lo
    ensures segments[|segments| - (|had| - used)..] == had[used..]
  {
    var b := |done|;
    assert segments == segments[..b] + had[used..];
    ShapesConcat(segments[..b], had[used..]);
    assert Shapes(had[used..]) == Shapes(had)[used..];
    forall i | b <= i < |segments|
      ensures segments[i] == had[used + i - b]
    {
      assert segments[b..][i - b] == had[used..][i - b];
    }
    forall i, j | 0 <= i < j < |segments|
      ensures Sids(segments)[i] != Sids(segments)[j]
    {
      if b <= i {
        assert Sids(had)[used + i - b] != Sids(had)[used + j - b];
      }
    }
  }

  lemma MergeEnd(region: seq<Entry>)
    requires region != []
    ensures Merge(region, []) == Merged([Flat(region, true)], 0)
  {
  }

  /** One pass over the old segment `used`. */
  lemma MergePass(region: seq<Entry>, rest: seq<Shape>, used: nat)
    requires used < |rest| && region != [] && Distinct(region + Flatten(rest[used..]))
    ensures var run := region + rest[used].entries;
            var (m, left) := (Merge(region, rest[used..]), TailOf(Spans(run)));
            && Distinct(run) && Distinct(left + Flatten(rest[used + 1..]))
            && m.front == Derivation.Settled(Spans(run)) + Merge(left, rest[used + 1..]).front
            && m.used == 1 + Merge(left, rest[used + 1..]).used
  {
    hide Spans, TailOf, Derivation.Settled, Merge, Distinct;
    var (run, behind) := (region + rest[used].entries, rest[used + 1..]);
    assert rest[used..][1..] == behind && rest[used..][0] == rest[used];
    assert Flatten(rest[used..]) == rest[used].entries + Flatten(behind);
    assert region + (rest[used].entries + Flatten(behind)) == run + Flatten(behind);
    HandedDistinct(run, Flatten(behind));
    MergeStep(region, rest[used..]);
    MergeNothing(behind);
    assert Derivation.Settled(Spans(run)) + [] == Derivation.Settled(Spans(run));
  }

  /** The messages of a page that are new to the records, each key once. */
  function FreshOf(messages: seq<Message>, records: set<Key>, seen: set<Key>): seq<Message> {
    if messages == [] then []
    else
      var key := MessageKey(messages[0]);
      if key.None? then [messages[0]] + FreshOf(messages[1..], records, seen)
      else if key.value in records || key.value in seen then FreshOf(messages[1..], records, seen)
      else [messages[0]] + FreshOf(messages[1..], records, seen + {key.value})
  }

  lemma FreshNone(records: set<Key>, seen: set<Key>)
    ensures FreshOf([], records, seen) == []
  {
  }

  lemma FreshNext(messages: seq<Message>, i: nat, records: set<Key>, seen: set<Key>, kept: seq<Message>)
    requires i < |messages|
    ensures var (m, key, rest) := (messages[i], MessageKey(messages[i]), messages[i + 1..]);
            kept + FreshOf(messages[i..], records, seen)
            == if key.None? then kept + [m] + FreshOf(rest, records, seen)
               else if key.value in records || key.value in seen then kept + FreshOf(rest, records, seen)
               else kept + [m] + FreshOf(rest, records, seen + {key.value})
  {
    hide MessageKey;
    assert messages[i..][0] == messages[i] && messages[i..][1..] == messages[i + 1..];
  }

  /** `news` are the messages at the places `at`, in the order of the page, every one without a key among them. */
  ghost predicate PickedAt(messages: seq<Message>, news: seq<Message>, at: seq<nat>) {
    && |at| == |news| && (forall k :: 0 <= k < |at| ==> at[k] < |messages| && news[k] == messages[at[k]])
    && (forall i, j :: 0 <= i < j < |at| ==> at[i] < at[j])
    && forall m: nat :: m < |messages| && MessageKey(messages[m]).None? ==> m in at
  }

  function Moved(at: seq<nat>): (r: seq<nat>)
    ensures |r| == |at| && (forall i :: 0 <= i < |r| ==> r[i] == at[i] + 1)
  {
    if at == [] then [] else [at[0] + 1] + Moved(at[1..])
  }

  /** A message in front that is taken stands at place 0. */
  lemma PickedTake(first: Message, messages: seq<Message>, news: seq<Message>, at: seq<nat>)
    requires PickedAt(messages, news, at)
    ensures PickedAt([first] + messages, [first] + news, [0] + Moved(at))
  {
    hide MessageKey, Moved;
    var (all, taken, places) := ([first] + messages, [first] + news, [0] + Moved(at));
    assert places[0] == 0;
    forall k | 0 <= k < |places|
      ensures places[k] < |all| && taken[k] == all[places[k]] && (k > 0 ==> places[k] == at[k - 1] + 1)
    {
      assert k > 0 ==> places[k] == Moved(at)[k - 1];
    }
    forall m: nat | m < |all| && MessageKey(all[m]).None?
      ensures m in places
    {
      if m > 0 {
        assert messages[m - 1] == all[m];
        var k: nat :| k < |at| && at[k] == m - 1;
        assert places[k + 1] == m;
      }
    }
  }

  /** A message in front may be left out if it has a key. */
  lemma PickedSkip(first: Message, messages: seq<Message>, news: seq<Message>, at: seq<nat>)
    requires PickedAt(messages, news, at) && MessageKey(first).Some?
    ensures PickedAt([first] + messages, news, Moved(at))
  {
    hide MessageKey, Moved;
    var all := [first] + messages;
    assert forall k :: 0 <= k < |at| ==> all[at[k] + 1] == messages[at[k]];
    forall m: nat | m < |all| && MessageKey(all[m]).None?
      ensures m in Moved(at)
    {
      assert m > 0 && all[m] == messages[m - 1];
      var k: nat :| k < |at| && at[k] == m - 1;
      assert Moved(at)[k] == m;
    }
  }

  lemma {:induction false} FreshInOrder(messages: seq<Message>, records: set<Key>, seen: set<Key>)
    returns (at: seq<nat>)
    ensures PickedAt(messages, FreshOf(messages, records, seen), at)
  {
    hide MessageKey;
    if messages == [] {
      at := [];
    } else {
      var key := MessageKey(messages[0]);
      var keeps := key.None? || (key.value !in records && key.value !in seen);
      var seen' := if key.Some? && keeps then seen + {key.value} else seen;
      var rest := FreshInOrder(messages[1..], records, seen');
      if keeps {
        PickedTake(messages[0], messages[1..], FreshOf(messages[1..], records, seen'), rest);
      } else {
        PickedSkip(messages[0], messages[1..], FreshOf(messages[1..], records, seen'), rest);
      }
      at := if keeps then [0] + Moved(rest) else Moved(rest);
      assert [messages[0]] + messages[1..] == messages;
      hide PickedAt;
    }
  }

  function KeysOf(messages: seq<Message>): set<Key> {
    if messages == [] then {}
    else (if MessageKey(messages[0]).Some? then {MessageKey(messages[0]).value} else {}) + KeysOf(messages[1..])
  }

  lemma {:induction false} KeyAt(messages: seq<Message>, i: nat)
    requires i < |messages| && MessageKey(messages[i]).Some?
    ensures MessageKey(messages[i]).value in KeysOf(messages)
  {
    if i > 0 {
      KeyAt(messages[1..], i - 1);
    }
  }

  /** A key survives exactly when a message has it and no record holds it, and none survives twice. */
  lemma {:induction false} FreshOnce(messages: seq<Message>, records: set<Key>, seen: set<Key>)
    ensures var news := FreshOf(messages, records, seen);
            && KeysOf(news) == KeysOf(messages) - records - seen
            && (forall j, k :: 0 <= j < k < |news| && MessageKey(news[j]).Some? ==>
                MessageKey(news[j]) != MessageKey(news[k]))
  {
    if messages != [] {
      var key := MessageKey(messages[0]);
      var keeps := key.None? || (key.value !in records && key.value !in seen);
      var seen' := if key.Some? && keeps then seen + {key.value} else seen;
      FreshOnce(messages[1..], records, seen');
      var rest := FreshOf(messages[1..], records, seen');
      if keeps {
        var news := [messages[0]] + rest;
        assert news[1..] == rest;
        forall k | 1 <= k < |news| && key.Some?
          ensures MessageKey(news[k]) != key
        {
          if MessageKey(news[k]).Some? {
            KeyAt(rest, k - 1);
          }
        }
      }
    }
  }

  lemma MountDistinct(entries: seq<Entry>, added: seq<Entry>, first: nat)
    requires Distinct(entries) && forall e :: e in entries ==> e.uid < first
    requires forall k :: 0 <= k < |added| ==> added[k].uid == first + k
    ensures Distinct(entries + added) && forall e :: e in entries + added ==> e.uid < first + |added|
  {
    DistinctConcat(entries, added);
  }

  lemma FreshDistinct(added: seq<Entry>, entries: seq<Entry>, first: nat)
    requires Distinct(entries) && forall e :: e in entries ==> e.uid < first
    requires forall k :: 0 <= k < |added| ==> added[k].uid == first + k
    ensures Distinct(added + entries) && forall e :: e in added + entries ==> e.uid < first + |added|
  {
    DistinctConcat(added, entries);
  }

  lemma RowsUnique(sids: seq<nat>, table: map<nat, nat>, dom: seq<nat>, nextNode: nat)
    requires RowsMatch(sids, table, dom, nextNode)
    ensures Unique(sids)
  {
  }

  /** The two lists end alike: what stays is behind what came in front and what went. */
  lemma SameEnds(had: seq<Segment>, segments: seq<Segment>, used: nat)
    requires used <= |had| <= |segments| && segments[|segments| - (|had| - used)..] == had[used..]
    ensures var b := |segments| - (|had| - used);
            Sids(segments) == Sids(segments[..b]) + Sids(had[used..])
                && Sids(had) == Sids(had[..used]) + Sids(had[used..])
    ensures forall i :: |segments| - (|had| - used) <= i < |segments| ==> segments[i] == had[i - (|segments| - |had|)]
  {
    var b := |segments| - (|had| - used);
    assert segments == segments[..b] + had[used..] && had == had[..used] + had[used..];
    forall i | b <= i < |segments|
      ensures segments[i] == had[i - (|segments| - |had|)]
    {
      assert segments[b..][i - b] == had[used..][i - b];
    }
  }

  /** The rows of the untouched segments are the rows of the new list. */
  lemma RowsCarryOver(had: seq<Segment>, segments: seq<Segment>, used: nat, lo: nat,
                      table: map<nat, nat>, sigs: map<nat, int>, built: map<nat, Shape>)
    requires Unique(Sids(had)) && Unique(Sids(segments))
    requires used <= |had| <= |segments| && segments[|segments| - (|had| - used)..] == had[used..]
    requires forall i :: 0 <= i < |had| ==> had[i].sid < lo
    requires forall i :: 0 <= i < |segments| - (|had| - used) ==> segments[i].sid >= lo
    requires forall s :: s in table ==> s in Sids(had) && s in Sids(segments)
    requires RowsCurrent(had, table, sigs, built)
    ensures Rows(Sids(segments), table) == Rows(Sids(had), table) && RowsCurrent(segments, table, sigs, built)
  {
    hide Rows, Unique;
    var b := |segments| - (|had| - used);
    var (front, gone, stay) := (Sids(segments[..b]), Sids(had[..used]), Sids(had[used..]));
    SameEnds(had, segments, used);
    FrontHasNone(had, segments, b, lo, table);
    GoneHasNone(had, used, front, table);
    RowsOfNone(front, table);
    RowsOfNone(gone, table);
    RowsConcat(front, stay, table);
    RowsConcat(gone, stay, table);
    assert forall i :: 0 <= i < |segments| && segments[i].sid in table ==> i >= b;
  }

  lemma FrontHasNone(had: seq<Segment>, segments: seq<Segment>, b: nat, lo: nat, table: map<nat, nat>)
    requires b <= |segments| && (forall i :: 0 <= i < |had| ==> had[i].sid < lo)
    requires forall i :: 0 <= i < b ==> segments[i].sid >= lo
    requires forall s :: s in table ==> s in Sids(had)
    ensures forall s :: s in Sids(segments[..b]) ==> s !in table
    ensures forall i :: 0 <= i < b ==> segments[i].sid !in table
  {
    assert forall s :: s in table ==> s < lo;
    assert forall s :: s in Sids(segments[..b]) ==> s >= lo;
  }

  lemma GoneHasNone(had: seq<Segment>, used: nat, front: seq<nat>, table: map<nat, nat>)
    requires Unique(Sids(had)) && used <= |had| && (forall s :: s in front ==> s !in table)
    requires forall s :: s in table ==> s in front + Sids(had[used..])
    ensures forall s :: s in Sids(had[..used]) ==> s !in table
  {
    forall s | s in Sids(had[..used])
      ensures s !in table
    {
      InEither(front, Sids(had[used..]), s);
      GoneIsDead(had, used, s);
    }
  }

  lemma InEither(a: seq<nat>, b: seq<nat>, s: nat)
    ensures s in a + b <==> s in a || s in b
  {
  }

  lemma GoneIsDead(had: seq<Segment>, used: nat, s: nat)
    requires Unique(Sids(had)) && used <= |had| && s in Sids(had[..used])
    ensures s !in Sids(had[used..]) && exists i :: 0 <= i < |had| && had[i].sid == s
  {
    var i :| 0 <= i < used && Sids(had[..used])[i] == s;
    assert Sids(had)[i] == s && had[i].sid == s;
    var stay := Sids(had[used..]);
    forall k | 0 <= k < |stay|
      ensures stay[k] != s
    {
      assert stay[k] == Sids(had)[used + k];
    }
  }

  /** What one more entry does to the store, its settled segments and its tail. */
  lemma AppendFacts(entries: seq<Entry>, entry: Entry)
    requires Distinct(entries) && forall e :: e in entries ==> e.uid != entry.uid
    ensures var (settled, tail) := (Derivation.Settled(Spans(entries)), TailOf(Spans(entries)));
            && Distinct(entries + [entry]) && Distinct(tail + [entry])
            && Reference(entries) == settled + PendingTail(tail)
            && (forall k :: 0 <= k < |settled| ==> !IsPending(settled[k]))
            && Reference(entries + [entry]) ==
               if Closes(entry)
               then settled + [CloseOf(tail + [entry]).shape] + PendingTail(CloseOf(tail + [entry]).carried)
               else settled + [Flat(tail + [entry], true)]
  {
    hide Spans, TailOf, CloseOf;
    ReferenceSnoc(entries, entry);
    DistinctConcat(entries, [entry]);
    HandedDistinct(entries, [entry]);
  }

  /** A new segment at the end has no row and changes none. */
  lemma AddedLast(segments: seq<Segment>, table: map<nat, nat>, sigs: map<nat, int>, built: map<nat, Shape>,
      next: Segment)
    requires Unique(Sids(segments)) && RowsCurrent(segments, table, sigs, built)
    requires forall i :: 0 <= i < |segments| ==> segments[i].sid < next.sid
    requires forall s :: s in table ==> s in Sids(segments)
    ensures var longer := segments + [next];
            Unique(Sids(longer)) && Rows(Sids(longer), table) == Rows(Sids(segments), table)
            && RowsCurrent(longer, table, sigs, built) && forall s :: s in table ==> s in Sids(longer)
  {
    var sids := Sids(segments);
    assert Sids(segments + [next]) == sids + [next.sid];
    assert next.sid !in sids;
    RowsConcat(sids, [next.sid], table);
    RowsOfNone([next.sid], table);
  }

  /** Growing the last segment in place forgets its signature, so its row counts as stale. */
  lemma GrownLast(segments: seq<Segment>, table: map<nat, nat>, sigs: map<nat, int>, built: map<nat, Shape>,
      entry: Entry)
    requires segments != [] && RowsCurrent(segments, table, sigs, built) && Unique(Sids(segments))
    ensures var at := |segments| - 1;
            var grown := segments[at := segments[at].(shape := Flat(segments[at].shape.entries + [entry], true))];
            Sids(grown) == Sids(segments) && RowsCurrent(grown, table, sigs - {segments[at].sid}, built)
  {
    var at := |segments| - 1;
    var grown := segments[at := segments[at].(shape := Flat(segments[at].shape.entries + [entry], true))];
    assert Sids(grown) == Sids(segments);
    assert forall k :: 0 <= k < at ==> grown[k] == segments[k];
  }

  /** Replacing a last segment without a row by a new one changes no row. */
  lemma RenamedLast(segments: seq<Segment>, table: map<nat, nat>, sigs: map<nat, int>, built: map<nat, Shape>,
      next: Segment)
    requires segments != [] && Unique(Sids(segments)) && RowsCurrent(segments, table, sigs, built)
    requires forall i :: 0 <= i < |segments| ==> segments[i].sid < next.sid
    requires segments[|segments| - 1].sid !in table
    requires forall s :: s in table ==> s in Sids(segments)
    ensures var swapped := segments[|segments| - 1 := next];
            Unique(Sids(swapped)) && Rows(Sids(swapped), table) == Rows(Sids(segments), table)
            && RowsCurrent(swapped, table, sigs, built) && forall s :: s in table ==> s in Sids(swapped)
  {
    var at := |segments| - 1;
    var (front, last) := (segments[..at], segments[at]);
    assert segments == front + [last] && segments[at := next] == front + [next];
    var sids := Sids(front);
    assert Sids(segments) == sids + [last.sid] && Sids(segments[at := next]) == sids + [next.sid];
    assert next.sid !in Sids(segments);
    assert forall k :: 0 <= k < |sids| ==> sids[k] == Sids(segments)[k];
    RowsConcat(sids, [last.sid], table);
    RowsConcat(sids, [next.sid], table);
    RowsOfNone([last.sid], table);
    RowsOfNone([next.sid], table);
  }

  lemma OneOpen(e: Entry)
    requires !Closes(e)
    ensures |Reference([e])| == 1 && Derivation.Settled(Spans([e])) == []
  {
    SpansOfOpen([e]);
    assert Spans([e]) == [[e]];
    assert TailOf([[e]]) == [e];
  }

  lemma FirstTall(segments: seq<Segment>, tall: nat -> Height)
    requires segments != [] && tall(segments[0].sid) == 1000.0
    ensures var h := Heights(segments, tall);
            Top(h, 0) == 0.0 && Bottom(h, 0) == 1000.0
  {
    var h := Heights(segments, tall);
    SumStep(h, 0);
    assert h[..0] == [];
  }

  /** When the table holds exactly the window's segments, the rows are the window's, one each. */
  lemma WindowRows(sids: seq<nat>, m: map<nat, nat>, range: Range)
    requires Unique(sids) && range.ValidFor(|sids|)
    requires forall s :: s in m <==> s in sids[range.start..range.end + 1]
    ensures var (rows, shown) := (Rows(sids, m), sids[range.start..range.end + 1]);
            |rows| == |shown| && forall i :: 0 <= i < |shown| ==> shown[i] in m && rows[i] == m[shown[i]]
  {
    var (a, shown, b) := (sids[..range.start], sids[range.start..range.end + 1], sids[range.end + 1..]);
    assert sids == a + (shown + b);
    OutsideWindow(sids, range);
    RowsConcat(a, shown + b, m);
    RowsConcat(shown, b, m);
    RowsOfNone(a, m);
    RowsOfNone(b, m);
    RowsOfAll(shown, m);
  }

  lemma AllShown(segments: seq<Segment>, m: map<nat, nat>, range: Range)
    requires range.ValidFor(|segments|)
    requires forall s :: s in m <==> s in Sids(segments)[range.start..range.end + 1]
    ensures forall i :: range.start <= i <= range.end ==> segments[i].sid in m
  {
    forall i | range.start <= i <= range.end
      ensures segments[i].sid in m
    {
      assert Sids(segments)[range.start..range.end + 1][i - range.start] == segments[i].sid;
    }
  }

  lemma ShapesConcat(a: seq<Segment>, b: seq<Segment>)
    ensures Shapes(a + b) == Shapes(a) + Shapes(b)
  {
  }

  lemma ShapesLast(segments: seq<Segment>, last: Segment)
    requires segments != []
    ensures Shapes(segments[|segments| - 1 := last]) == Shapes(segments)[..|segments| - 1] + [last.shape]
  {
  }

  lemma SidAt(segments: seq<Segment>, i: nat)
    requires i < |segments|
    ensures |Sids(segments)| == |segments| && Sids(segments)[i] == segments[i].sid
  {
  }

  lemma CurrentAfter(segments: seq<Segment>, table: map<nat, nat>, sigs: map<nat, int>, built: map<nat, Shape>,
                     i: nat, node: nat, sig: int)
    requires i < |segments| && Unique(Sids(segments)) && RowsCurrent(segments, table, sigs, built)
    requires forall s :: s in table ==> table[s] < node
    ensures var s := segments[i].sid;
            RowsCurrent(segments, table[s := node], sigs[s := sig], built[node := segments[i].shape])
  {
    var s := segments[i].sid;
    forall k | 0 <= k < |segments| && k != i
      ensures segments[k].sid != s
    {
      assert Sids(segments)[k] == segments[k].sid && Sids(segments)[i] == s;
    }
  }

  /** Segments behind the window have no row, so they do not decide where a row goes. */
  lemma NoRowsBehind(sids: seq<nat>, m: map<nat, nat>, from: nat, range: Range)
    requires Unique(sids) && range.ValidFor(|sids|) && range.start <= from <= range.end + 1
    requires forall s :: s in m ==> s in sids[range.start..range.end + 1]
    ensures FirstRow(sids[from..], m) == FirstRow(sids[from..range.end + 1], m)
  {
    var (a, b) := (sids[from..range.end + 1], sids[range.end + 1..]);
    assert sids[from..] == a + b;
    OutsideWindow(sids, range);
    RowsOfNone(b, m);
    RowsConcat(a, b, m);
    FirstRowIs(sids[from..], m);
    FirstRowIs(a, m);
  }

  /** Inserting before the next row of the window keeps the whole list in segment order. */
  lemma InsertInWindow(sids: seq<nat>, m: map<nat, nat>, i: nat, node: nat, range: Range)
    requires Unique(sids) && Injective(m) && range.ValidFor(|sids|) && range.start <= i <= range.end && sids[i] !in m
    requires forall s :: s in m ==> s in sids[range.start..range.end + 1]
    ensures InsertBefore(Rows(sids, m), node, FirstRow(sids[i + 1..range.end + 1], m)) == Rows(sids, m[sids[i] := node])
  {
    hide Rows, FirstRow, InsertBefore, Unique, Injective;
    NoRowsBehind(sids, m, i + 1, range);
    InsertRow(sids, m, i, node, FirstRow(sids[i + 1..], m));
  }

  lemma OutsideWindow(sids: seq<nat>, range: Range)
    requires Unique(sids) && range.ValidFor(|sids|)
    ensures forall s :: s in sids[range.start..range.end + 1] ==>
            s !in sids[..range.start] && s !in sids[range.end + 1..]
  {
    var shown := sids[range.start..range.end + 1];
    forall s | s in shown
      ensures s !in sids[..range.start] && s !in sids[range.end + 1..]
    {
      var i :| 0 <= i < |shown| && shown[i] == s;
      assert sids[range.start + i] == s;
    }
  }

  // ---- when the rows are exactly the window's ---------------------------------------------------------------

  /** The rendered segments are exactly those of a window the list can show. */
  ghost predicate Covered(sids: seq<nat>, table: map<nat, nat>, w: Range) {
    w.ValidFor(|sids|) && forall s :: s in table <==> s in sids[w.start..w.end + 1]
  }

  /** One row for each of the window's segments, in their order. */
  ghost predicate Listed(sids: seq<nat>, table: map<nat, nat>, dom: seq<nat>, w: Range)
    requires w.ValidFor(|sids|)
  {
    var shown := sids[w.start..w.end + 1];
    && |dom| == |shown|
    && forall i :: 0 <= i < |shown| ==> shown[i] in table && dom[i] == table[shown[i]]
  }

  lemma {:induction false} NoneListed(sids: seq<nat>, m: map<nat, nat>)
    requires Rows(sids, m) == []
    ensures forall s :: s in sids ==> s !in m
  {
    if sids != [] {
      NoneListed(sids[1..], m);
    }
  }

  /** A list in segment order shows the window's rows exactly when the table holds just its segments. */
  lemma ListedIsCovered(sids: seq<nat>, m: map<nat, nat>, w: Range)
    requires Unique(sids) && w.ValidFor(|sids|) && forall s :: s in m ==> s in sids
    ensures Listed(sids, m, Rows(sids, m), w) <==> Covered(sids, m, w)
  {
    hide Rows, Unique;
    if Covered(sids, m, w) {
      WindowRows(sids, m, w);
    } else if Listed(sids, m, Rows(sids, m), w) {
      ListedCovers(sids, m, w);
    }
  }

  lemma ListedFacts(sids: seq<nat>, m: map<nat, nat>, dom: seq<nat>, w: Range)
    requires w.ValidFor(|sids|) && Listed(sids, m, dom, w)
    ensures |dom| == |sids[w.start..w.end + 1]| && forall s :: s in sids[w.start..w.end + 1] ==> s in m
  {
  }

  lemma ListedCovers(sids: seq<nat>, m: map<nat, nat>, w: Range)
    requires w.ValidFor(|sids|) && forall s :: s in m ==> s in sids
    requires Listed(sids, m, Rows(sids, m), w)
    ensures Covered(sids, m, w)
  {
    hide Rows, Listed;
    ListedFacts(sids, m, Rows(sids, m), w);
    RowsCounted(sids, m, w);
    var (a, b) := (sids[..w.start], sids[w.end + 1..]);
    NoneListed(a, m);
    NoneListed(b, m);
    forall s | s in m
      ensures s in sids[w.start..w.end + 1]
    {
      OnlyShown(sids, w, s);
      assert s !in a && s !in b;
    }
  }

  lemma OnlyShown(sids: seq<nat>, w: Range, s: nat)
    requires w.ValidFor(|sids|) && s in sids
    ensures s in sids[..w.start] || s in sids[w.start..w.end + 1] || s in sids[w.end + 1..]
  {
    var (a, shown, b) := (sids[..w.start], sids[w.start..w.end + 1], sids[w.end + 1..]);
    assert sids == a + (shown + b);
  }

  lemma RowsCounted(sids: seq<nat>, m: map<nat, nat>, w: Range)
    requires w.ValidFor(|sids|) && (forall s :: s in sids[w.start..w.end + 1] ==> s in m)
    requires |Rows(sids, m)| == |sids[w.start..w.end + 1]|
    ensures Rows(sids[..w.start], m) == [] && Rows(sids[w.end + 1..], m) == []
  {
    hide Rows;
    var (a, shown, b) := (sids[..w.start], sids[w.start..w.end + 1], sids[w.end + 1..]);
    assert sids == a + (shown + b);
    RowsConcat(a, shown + b, m);
    RowsConcat(shown, b, m);
    RowsOfAll(shown, m);
  }

  /**
   While the list is hidden its rows are among those of the window the last projection chose, which the pages
   taken in since then moved `drift` places further back.
   */
  ghost predicate Within(sids: seq<nat>, m: map<nat, nat>, w: Range, drift: nat) {
    && w.start <= w.end + 1 && w.end + 1 + drift <= |sids|
    && forall s :: s in m ==> s in sids[w.start + drift..w.end + 1 + drift]
  }

  /** Every segment of an exact window has a row, and a list with segments has a window with some. */
  lemma CoveredHas(sids: seq<nat>, m: map<nat, nat>, w: Range)
    requires Covered(sids, m, w) && sids != []
    ensures w.start <= w.end < |sids| && forall i :: w.start <= i <= w.end ==> sids[i] in m
  {
    forall i | w.start <= i <= w.end
      ensures sids[i] in m
    {
      assert sids[w.start..w.end + 1][i - w.start] == sids[i];
    }
  }

  lemma CoveredMeans(sids: seq<nat>, m: map<nat, nat>, w: Range)
    ensures Covered(sids, m, w) <==>
              && w.ValidFor(|sids|) && (forall s :: s in m ==> s in sids[w.start..w.end + 1])
              && forall s :: s in sids[w.start..w.end + 1] ==> s in m
  {
  }

  lemma WithinMeans(sids: seq<nat>, m: map<nat, nat>, w: Range, drift: nat)
    requires Within(sids, m, w, drift)
    ensures w.start <= w.end + 1 && w.end + 1 + drift <= |sids|
    ensures drift == 0 ==> forall s :: s in m ==> s in sids[w.start..w.end + 1]
  {
  }

  lemma CoveredIsWithin(sids: seq<nat>, m: map<nat, nat>, w: Range)
    requires Covered(sids, m, w)
    ensures Within(sids, m, w, 0)
  {
  }

  /** A window whose first segment has a row did not drift. */
  lemma FirstHasNoRow(sids: seq<nat>, m: map<nat, nat>, w: Range, drift: nat)
    requires Unique(sids) && Within(sids, m, w, drift) && w.start <= w.end && sids[w.start] in m
    ensures drift == 0
  {
    var rows := sids[w.start + drift..w.end + 1 + drift];
    var k :| 0 <= k < |rows| && rows[k] == sids[w.start];
    assert sids[w.start + drift + k] == sids[w.start];
  }

  /** Segments added behind: a window is exact if and only if it was, and the list was not empty. */
  lemma CoveredGrows(sids: seq<nat>, longer: seq<nat>, m: map<nat, nat>, w: Range, drift: nat)
    requires Within(sids, m, w, drift) && sids <= longer && longer != []
    ensures Covered(longer, m, w) <==> Covered(sids, m, w) && sids != []
    ensures Within(longer, m, w, drift)
  {
    assert longer[w.start..w.end + 1] == sids[w.start..w.end + 1];
    assert longer[w.start + drift..w.end + 1 + drift] == sids[w.start + drift..w.end + 1 + drift];
  }

  /**
   A segment replaced at place `kept`, with its row gone: the window is exact if and only if it was, the list
   was not empty and the window does not hold that place.
   */
  lemma CoveredCloses(sids: seq<nat>, next: seq<nat>, m: map<nat, nat>, w: Range, drift: nat, kept: nat, gone: nat)
    requires Unique(sids) && Within(sids, m, w, drift) && kept <= |sids| <= kept + 1 && kept < |next|
    requires (forall i :: 0 <= i < kept ==> next[i] == sids[i]) && next[kept] !in m
    requires if kept < |sids| then gone == sids[kept] else gone !in m
    ensures Covered(next, m - {gone}, w) <==> Covered(sids, m, w) && sids != [] && !w.Holds(kept)
  {
    hide Covered, Within, Unique;
    if Covered(next, m - {gone}, w) {
      ClosedWasCovered(sids, next, m, w, drift, kept, gone);
    }
    if Covered(sids, m, w) && sids != [] && !w.Holds(kept) {
      StaysCovered(sids, next, m, w, kept, gone);
    }
  }

  lemma StaysCovered(sids: seq<nat>, next: seq<nat>, m: map<nat, nat>, w: Range, kept: nat, gone: nat)
    requires Unique(sids) && Covered(sids, m, w) && sids != [] && !w.Holds(kept)
    requires kept <= |sids| <= kept + 1 && kept < |next| && forall i :: 0 <= i < kept ==> next[i] == sids[i]
    requires if kept < |sids| then gone == sids[kept] else gone !in m
    ensures Covered(next, m - {gone}, w)
  {
    CoveredMeans(sids, m, w);
    CoveredMeans(next, m - {gone}, w);
    hide Covered;
    SameSlice(sids, next, kept, w.start, w.end + 1);
    NotInSlice(sids, kept, w.start, w.end + 1);
    hide Unique;
    assert gone !in next[w.start..w.end + 1];
  }

  lemma ClosedWasCovered(sids: seq<nat>, next: seq<nat>, m: map<nat, nat>, w: Range, drift: nat, kept: nat, gone: nat)
    requires Unique(sids) && Within(sids, m, w, drift) && kept <= |sids| <= kept + 1 && kept < |next|
    requires (forall i :: 0 <= i < kept ==> next[i] == sids[i]) && next[kept] !in m
    requires if kept < |sids| then gone == sids[kept] else gone !in m
    requires Covered(next, m - {gone}, w)
    ensures Covered(sids, m, w) && sids != [] && !w.Holds(kept)
  {
    CoveredHas(next, m - {gone}, w);
    WithinMeans(sids, m, w, drift);
    hide Covered;
    assert !w.Holds(kept);
    FirstHasNoRow(sids, m, w, drift);
    hide Within;
    SameSlice(sids, next, kept, w.start, w.end + 1);
    NotInSlice(sids, kept, w.start, w.end + 1);
    hide Unique;
    CoveredMeans(next, m - {gone}, w);
    CoveredMeans(sids, m, w);
    assert gone !in m;
  }

  /** The rows that are left stay where they were. */
  lemma WithinCloses(sids: seq<nat>, next: seq<nat>, m: map<nat, nat>, w: Range, drift: nat, kept: nat, gone: nat)
    requires Within(sids, m, w, drift) && kept <= |sids| <= kept + 1 && kept < |next|
    requires forall i :: 0 <= i < kept ==> next[i] == sids[i]
    requires if kept < |sids| then gone == sids[kept] else gone !in m
    ensures Within(next, m - {gone}, w, drift)
  {
    var (from, to) := (w.start + drift, w.end + 1 + drift);
    forall s | s in m - {gone}
      ensures s in next[from..to]
    {
      var k :| 0 <= k < |sids[from..to]| && sids[from..to][k] == s;
      assert sids[from + k] == s;
      assert next[from + k] == s;
      assert next[from..to][k] == s;
    }
  }

  lemma SameSlice(a: seq<nat>, b: seq<nat>, k: nat, from: nat, to: nat)
    requires from <= to <= k <= |a| && k <= |b| && forall i :: 0 <= i < k ==> b[i] == a[i]
    ensures a[from..to] == b[from..to]
  {
  }

  lemma NotInSlice(sids: seq<nat>, k: nat, from: nat, to: nat)
    requires Unique(sids) && from <= to <= k && to <= |sids|
    ensures k < |sids| ==> sids[k] !in sids[from..to]
  {
  }

  lemma AppendedSids(had: seq<Segment>, grown: seq<Segment>, now: seq<Segment>, kept: nat)
    requires kept <= |had| && kept < |now| && kept < |grown| && Sids(had) <= Sids(grown) && had[..kept] == now[..kept]
    ensures forall i :: 0 <= i < kept ==> Sids(now)[i] == Sids(had)[i]
    ensures Sids(now)[kept] == now[kept].sid && (kept < |had| ==> grown[kept].sid == Sids(had)[kept])
  {
    forall i | 0 <= i < kept
      ensures Sids(now)[i] == Sids(had)[i]
    {
      assert had[i] == had[..kept][i] == now[..kept][i] == now[i];
    }
    assert Sids(grown)[kept] == grown[kept].sid;
  }

  lemma SidsBelow(segments: seq<Segment>, lo: nat)
    requires forall i :: 0 <= i < |segments| ==> segments[i].sid < lo
    ensures forall s :: s in Sids(segments) ==> s < lo
  {
  }

  lemma AppendCloses(had: seq<Segment>, grown: seq<Segment>, now: seq<Segment>, m: map<nat, nat>, w: Range, drift: nat,
                     kept: nat, lo: nat)
    requires Unique(Sids(had)) && Within(Sids(had), m, w, drift) && kept <= |had| <= kept + 1
    requires kept < |now| && kept < |grown|
    requires Sids(had) <= Sids(grown) && had[..kept] == now[..kept] && now[kept].sid !in m
    requires forall i :: 0 <= i < |had| ==> had[i].sid < lo
    requires kept == |had| ==> grown[kept].sid >= lo
    ensures var left := m - {grown[kept].sid};
            && (Covered(Sids(now), left, w) <==> Covered(Sids(had), m, w) && had != [] && !w.Holds(kept))
            && Within(Sids(now), left, w, drift)
  {
    var (a, b) := (Sids(had), Sids(now));
    AppendedSids(had, grown, now, kept);
    if kept == |had| && grown[kept].sid in m {
      WithinMember(a, m, w, drift, grown[kept].sid);
      SidsBelow(had, lo);
    }
    hide Unique, Sids, Within, Covered;
    CoveredCloses(a, b, m, w, drift, kept, grown[kept].sid);
    WithinCloses(a, b, m, w, drift, kept, grown[kept].sid);
  }

  lemma TailAligned(sids: seq<nat>, next: seq<nat>, used: nat)
    requires Paged(sids, next, used)
    ensures used <= |sids| <= |next|
    ensures forall i :: 0 <= i < |next| - |sids| + used ==> next[i] !in sids
    ensures forall i :: |next| - |sids| + used <= i < |next| ==> next[i] == sids[i - (|next| - |sids|)]
  {
    var d := |next| - |sids|;
    forall i | d + used <= i < |next|
      ensures next[i] == sids[i - d]
    {
      assert next[d + used..][i - d - used] == sids[used..][i - d - used];
    }
  }

  /** All but the first `used` identities come back at the end of the list, and what stands before them is new. */
  ghost predicate Paged(sids: seq<nat>, next: seq<nat>, used: nat) {
    && used <= |sids| <= |next| && next[|next| - |sids| + used..] == sids[used..]
    && forall i :: 0 <= i < |next| - |sids| + used ==> next[i] !in sids
  }

  /**
   A page in front: the window is exact if and only if it was, no segment was added and none it shows was
   derived again.
   */
  lemma CoveredShifts(sids: seq<nat>, next: seq<nat>, m: map<nat, nat>, live: map<nat, nat>, w: Range, drift: nat,
                      used: nat)
    requires Unique(sids) && Unique(next) && Within(sids, m, w, drift) && Paged(sids, next, used) && next != []
    requires forall s :: s in live <==> s in m && s in next
    ensures Covered(next, live, w) <==> Covered(sids, m, w) && |next| == |sids| && used <= w.start
    ensures Within(next, live, w, drift + |next| - |sids|)
  {
    WithinShifts(sids, next, m, live, w, drift, used);
    TailAligned(sids, next, used);
    hide Paged, Unique, Within, Covered;
    if Covered(next, live, w) {
      ShiftWasCovered(sids, next, m, live, w, drift, used);
    }
    if Covered(sids, m, w) && |next| == |sids| && used <= w.start {
      CoveredMeans(sids, m, w);
      CoveredMeans(next, live, w);
      BehindStays(sids, next, w, used);
    }
  }

  lemma ShiftWasCovered(sids: seq<nat>, next: seq<nat>, m: map<nat, nat>, live: map<nat, nat>, w: Range, drift: nat,
                        used: nat)
    requires Unique(next) && Within(sids, m, w, drift) && Paged(sids, next, used) && next != []
    requires forall s :: s in live <==> s in m && s in next
    requires Within(next, live, w, drift + |next| - |sids|) && Covered(next, live, w)
    ensures Covered(sids, m, w) && |next| == |sids| && used <= w.start
  {
    hide Paged, Unique, Covered, Within;
    CoveredHas(next, live, w);
    TailAligned(sids, next, used);
    FirstHasNoRow(next, live, w, drift + |next| - |sids|);
    WithinMember(sids, m, w, drift, next[w.start]);
    assert |next| == |sids| && used <= w.start;
    SameSlices(sids, next, m, live, w, used);
  }

  lemma SameSlices(sids: seq<nat>, next: seq<nat>, m: map<nat, nat>, live: map<nat, nat>, w: Range, used: nat)
    requires Within(sids, m, w, 0) && Covered(next, live, w) && |next| == |sids| && next != [] && used <= w.start
    requires forall i :: used <= i < |next| ==> next[i] == sids[i]
    requires forall s :: s in live ==> s in m
    ensures Covered(sids, m, w)
  {
    WithinMeans(sids, m, w, 0);
    CoveredMeans(next, live, w);
    CoveredMeans(sids, m, w);
    hide Covered, Within;
    BehindStays(sids, next, w, used);
  }

  lemma WithinMember(sids: seq<nat>, m: map<nat, nat>, w: Range, drift: nat, s: nat)
    requires Within(sids, m, w, drift) && s in m
    ensures s in sids
  {
    var rows := sids[w.start + drift..w.end + 1 + drift];
    var k :| 0 <= k < |rows| && rows[k] == s;
    assert sids[w.start + drift + k] == s;
  }

  /** The rows that are left move back by as many places as segments were added. */
  lemma WithinShifts(sids: seq<nat>, next: seq<nat>, m: map<nat, nat>, live: map<nat, nat>, w: Range, drift: nat,
                     used: nat)
    requires Unique(sids) && Within(sids, m, w, drift) && Paged(sids, next, used)
    requires forall s :: s in live <==> s in m && s in next
    ensures Within(next, live, w, drift + |next| - |sids|)
  {
    hide *;
    var from, to := WithinSlice(sids, m, w, drift);
    var from', to' := MoveBack(sids, next, m, live, from, to, used);
    WithinIs(next, live, w, drift + |next| - |sids|, from', to');
  }

  lemma MoveBack(sids: seq<nat>, next: seq<nat>, m: map<nat, nat>, live: map<nat, nat>, from: nat, to: nat, used: nat)
    returns (from': nat, to': nat)
    requires Unique(sids) && Paged(sids, next, used) && from <= to <= |sids|
    requires forall s :: s in m ==> s in sids[from..to]
    requires forall s :: s in live <==> s in m && s in next
    ensures |sids| <= |next| && from' == from + |next| - |sids| && to' == to + |next| - |sids| && from' <= to' <= |next|
    ensures forall s :: s in live ==> s in next[from'..to']
  {
    var d := |next| - |sids|;
    from', to' := from + d, to + d;
    forall s | s in live
      ensures s in next[from'..to']
    {
      TailAligned(sids, next, used);
      hide Paged, Unique;
      MovesBack(sids, next, from, to, from', to', d, used, s);
    }
  }

  lemma WithinSlice(sids: seq<nat>, m: map<nat, nat>, w: Range, drift: nat) returns (from: nat, to: nat)
    requires Within(sids, m, w, drift)
    ensures from == w.start + drift && to == w.end + 1 + drift && from <= to <= |sids|
    ensures forall s :: s in m ==> s in sids[from..to]
  {
    from, to := w.start + drift, w.end + 1 + drift;
  }

  lemma WithinIs(sids: seq<nat>, m: map<nat, nat>, w: Range, drift: nat, from: nat, to: nat)
    requires from == w.start + drift && to == w.end + 1 + drift && from <= to <= |sids|
    requires forall s :: s in m ==> s in sids[from..to]
    ensures Within(sids, m, w, drift)
  {
  }

  lemma MovesBack(sids: seq<nat>, next: seq<nat>, from: nat, to: nat, from': nat, to': nat, d: nat, used: nat, s: nat)
    requires Unique(sids) && from <= to <= |sids| && d == |next| - |sids| && from' == from + d && to' == to + d
    requires s in sids[from..to] && s in next
    requires forall i :: d + used <= i < |next| ==> next[i] == sids[i - d]
    requires forall i :: 0 <= i < d + used && i < |next| ==> next[i] !in sids
    ensures s in next[from'..to']
  {
    var k :| 0 <= k < |sids[from..to]| && sids[from..to][k] == s;
    assert sids[from + k] == s;
    var i :| 0 <= i < |next| && next[i] == s;
    assert s in sids;
    assert i - d == from + k;
    assert next[from'..to'][k] == s;
  }

  lemma BehindStays(sids: seq<nat>, next: seq<nat>, w: Range, used: nat)
    requires w.ValidFor(|sids|) && sids != [] && |next| == |sids| && used <= w.start
    requires forall i :: used <= i < |next| ==> next[i] == sids[i]
    ensures next[w.start..w.end + 1] == sids[w.start..w.end + 1]
    ensures forall s :: s in next[w.start..w.end + 1] ==> s in next
  {
    assert next[w.start..w.end + 1] == sids[w.start..w.end + 1];
  }

  /** The segments behind the first `used` come back at the end of the list, untouched. */
  ghost predicate PagedSegments(had: seq<Segment>, now: seq<Segment>, used: nat) {
    && used <= |had| <= |now| && Paged(Sids(had), Sids(now), used)
    && (|now| == |had| ==> forall i :: used <= i < |had| ==> now[i] == had[i])
  }

  lemma PageSids(had: seq<Segment>, now: seq<Segment>, used: nat, lo: nat)
    requires used <= |had| <= |now| && now[|now| - (|had| - used)..] == had[used..]
    requires forall i :: 0 <= i < |had| ==> had[i].sid < lo
    requires forall i :: 0 <= i < |now| - (|had| - used) ==> now[i].sid >= lo
    ensures PagedSegments(had, now, used)
  {
    var (a, b, k) := (Sids(had), Sids(now), |now| - (|had| - used));
    assert forall i :: 0 <= i < |had| - used ==> now[k..][i] == had[used..][i];
    assert forall i :: k <= i < |now| ==> now[i] == now[k..][i - k];
    assert forall i :: used <= i < |had| ==> had[i] == had[used..][i - used];
    assert b[k..] == a[used..];
    assert forall s :: s in a ==> s < lo;
  }

  // ---- when the rows show what their segments hold ------------------------------------------------------------

  /** Every row of the window has the signature its segment needs and was built from its content. */
  ghost predicate RowsFit(segments: seq<Segment>, table: map<nat, nat>, sigs: map<nat, int>, built: map<nat, Shape>,
                          w: Range, sig: nat -> int)
    requires w.end < |segments|
  {
    forall i :: w.start <= i <= w.end ==>
      var s := segments[i].sid;
      s in table && s in sigs && sigs[s] == sig(s) && table[s] in built && built[table[s]] == segments[i].shape
  }

  /** Up to `kept` the rows are as they were, and the segment there has no row, or a stale one. */
  ghost predicate SameRows(had: seq<Segment>, now: seq<Segment>, table: map<nat, nat>, live: map<nat, nat>,
                           sigs: map<nat, int>, left: map<nat, int>, kept: nat)
  {
    && kept <= |had| <= kept + 1 && kept < |now|
    && (now[kept].sid !in live || now[kept].sid !in left)
    && forall i :: 0 <= i < kept ==>
         && now[i] == had[i] && (had[i].sid in live <==> had[i].sid in table)
         && (had[i].sid in table && had[i].sid in live ==> live[had[i].sid] == table[had[i].sid])
         && (had[i].sid in left <==> had[i].sid in sigs)
         && (had[i].sid in sigs && had[i].sid in left ==> left[had[i].sid] == sigs[had[i].sid])
  }

  lemma FitsAppended(had: seq<Segment>, now: seq<Segment>, table: map<nat, nat>, live: map<nat, nat>,
                     sigs: map<nat, int>, left: map<nat, int>, built: map<nat, Shape>, w: Range, sig: nat -> int,
                     kept: nat)
    requires SameRows(had, now, table, live, sigs, left, kept) && w.start <= w.end < |had|
    ensures RowsFit(now, live, left, built, w, sig) <==> RowsFit(had, table, sigs, built, w, sig) && !w.Holds(kept)
  {
  }

  /** The grown or closed segment is the only one whose row goes or loses its signature. */
  lemma AppendedRows(had: seq<Segment>, grown: seq<Segment>, now: seq<Segment>, table: map<nat, nat>,
                     sigs: map<nat, int>, kept: nat, closes: bool)
    requires Unique(Sids(grown)) && kept <= |had| <= kept + 1 && kept < |grown| && kept < |now|
    requires had[..kept] == grown[..kept] && had[..kept] == now[..kept]
    requires if closes then now[kept].sid !in table else now == grown
    ensures var gone := grown[kept].sid;
            SameRows(had, now, table, if closes then table - {gone} else table, sigs, sigs - {gone}, kept)
  {
    var gone := grown[kept].sid;
    forall i | 0 <= i < kept
      ensures now[i] == had[i] && had[i].sid != gone
    {
      assert had[i] == had[..kept][i] == grown[..kept][i] == now[..kept][i];
      assert Sids(grown)[i] == grown[i].sid && Sids(grown)[kept] == gone;
    }
  }

  /** A page that moves none of the window's segments leaves their rows as they are. */
  lemma FitsPaged(had: seq<Segment>, now: seq<Segment>, table: map<nat, nat>, live: map<nat, nat>,
                  sigs: map<nat, int>, built: map<nat, Shape>, w: Range, sig: nat -> int, used: nat)
    requires used <= w.start <= w.end < |had| == |now| && forall i :: used <= i < |had| ==> now[i] == had[i]
    requires forall s :: s in live ==> s in table && live[s] == table[s]
    requires forall i :: w.start <= i <= w.end ==> now[i].sid in live
    ensures RowsFit(now, live, sigs, built, w, sig) <==> RowsFit(had, table, sigs, built, w, sig)
  {
  }

  /** No row is built again whose signature is the one its segment needs. */
  ghost predicate NodesKept(before: map<nat, nat>, sigs: map<nat, int>, after: map<nat, nat>, sig: nat -> int) {
    forall s :: s in before && s in after && s in sigs && sigs[s] == sig(s) ==> after[s] == before[s]
  }

  /** A signature that was current still is. */
  ghost predicate SigsStay(before: map<nat, int>, after: map<nat, int>, sig: nat -> int) {
    forall s :: s in before && before[s] == sig(s) ==> s in after && after[s] == sig(s)
  }

  lemma NoneRebuilt(table: map<nat, nat>, sigs: map<nat, int>, sig: nat -> int)
    ensures NodesKept(table, sigs, table, sig) && SigsStay(sigs, sigs, sig)
  {
  }

  /** A row whose signature is not current may be built again. */
  lemma OneRebuilt(before: map<nat, nat>, was: map<nat, int>, table: map<nat, nat>, sigs: map<nat, int>,
                   sig: nat -> int, s: nat, node: nat)
    requires NodesKept(before, was, table, sig) && SigsStay(was, sigs, sig) && !(s in sigs && sigs[s] == sig(s))
    ensures NodesKept(before, was, table[s := node], sig) && SigsStay(was, sigs[s := sig(s)], sig)
  {
  }

  /** A store with an entry has a segment. */
  lemma SomeSegment(entries: seq<Entry>)
    requires entries != []
    ensures Reference(entries) != []
  {
    hide Reference;
    DerivationConserves(entries);
    assert entries[0] in multiset(entries);
    var shown := Flatten(Reference(entries));
    assert multiset(shown) == multiset(entries) && shown != [];
  }

  /** Messages as entries with identities from `first` on. */
  function NewEntries(first: nat, messages: seq<Message>): (r: seq<Entry>)
    ensures |r| == |messages| && forall i :: 0 <= i < |r| ==> r[i] == Entry(first + i, messages[i])
  {
    seq(|messages|, i requires 0 <= i < |messages| => Entry(first + i, messages[i]))
  }

  lemma NoRowsYet(segments: seq<Segment>, first: nat, sigs: map<nat, int>, built: map<nat, Shape>, nextNode: nat)
    requires forall i :: 0 <= i < |segments| ==> segments[i].sid == first + i
    ensures RowsMatch(Sids(segments), map[], [], nextNode) && RowsCurrent(segments, map[], sigs, built)
  {
    RowsOfNone(Sids(segments), map[]);
    assert Unique(Sids(segments));
  }

  /** The keys under which the entries of a store are recorded. */
  ghost function Keys(entries: seq<Entry>): set<Key> {
    set e | e in entries && MessageKey(e.msg).Some? :: MessageKey(e.msg).value
  }

  lemma KeysConcat(a: seq<Entry>, b: seq<Entry>)
    ensures Keys(a + b) == Keys(a) + Keys(b)
  {
    forall k | k in Keys(a) + Keys(b)
      ensures k in Keys(a + b)
    {
      var e :| (e in a || e in b) && MessageKey(e.msg) == Some(k);
      assert e in a + b;
    }
  }

  lemma KeysNone()
    ensures Keys([]) == {}
  {
  }

  lemma KeysOne(e: Entry)
    ensures Keys([e]) == if MessageKey(e.msg).Some? then {MessageKey(e.msg).value} else {}
  {
    assert e in [e];
  }

  class TurnEngine {
    const sessionId: string
    var view: View
    var entries: seq<Entry>
    var records: set<Key>
    var segments: seq<Segment>
    var liveSequence: nat
    var nextUid: nat
    var nextSid: nat

    var domBySeg: map<nat, nat>
    var cachedSig: map<nat, int>
    var dom: seq<nat>
    var window: Option<Range>
    var topSpacer: Height
    var bottomSpacer: Height
    var nextNode: nat
    ghost var built: map<nat, Shape>
    ghost var drift: nat               // the segments that pages added in front since the last projection

    /** The segments are the batch derivation of the store. */
    ghost predicate DerivedValid()
      reads this`entries, this`nextUid, this`segments, this`nextSid
    {
      && Distinct(entries) && (forall e :: e in entries ==> e.uid < nextUid)
      && Shapes(segments) == Reference(entries)
      && (forall i :: 0 <= i < |segments| ==> segments[i].sid < nextSid)
    }

    /** The store and its segments, and the records, which are the keys of its entries. */
    ghost predicate StoreValid()
      reads this`entries, this`nextUid, this`segments, this`nextSid, this`records
    {
      DerivedValid() && records == Keys(entries)
    }

    /** The rows are the rendered segments, in segment order. */
    ghost predicate RowsValid()
      reads this
    {
      && RowsMatch(Sids(segments), domBySeg, dom, nextNode)
      && RowsCurrent(segments, domBySeg, cachedSig, built)
      && (view.ForYou? ==> domBySeg == map[] && window.None?)
      && (window.Some? ==> Within(Sids(segments), domBySeg, window.value, drift))
    }

    ghost predicate Valid()
      reads this
    {
      StoreValid() && RowsValid()
    }

    /** The rows are exactly the window's segments. */
    ghost predicate Exact()
      reads this`window, this`segments, this`domBySeg, this`dom
    {
      window.Some? && window.value.ValidFor(|segments|) && Listed(Sids(segments), domBySeg, dom, window.value)
    }

    lemma ExactIsCovered()
      requires RowsMatch(Sids(segments), domBySeg, dom, nextNode)
      ensures Exact() <==> window.Some? && Covered(Sids(segments), domBySeg, window.value)
    {
      hide Listed, Sids, Unique, Rows;
      if window.Some? && window.value.ValidFor(|segments|) {
        ListedIsCovered(Sids(segments), domBySeg, window.value);
      }
    }

    constructor (sessionId: string, view: View)
      ensures Valid() && entries == [] && segments == [] && this.view == view
    {
      this.sessionId, this.view := sessionId, view;
      entries, records, segments, liveSequence, nextUid, nextSid := [], {}, [], 0, 0, 0;
      domBySeg, cachedSig, dom, window, nextNode, built, drift := map[], map[], [], None, 0, map[], 0;
      topSpacer, bottomSpacer := 0.0, 0.0;
      new;
      assert Spans([]) == [[]] && TailOf([[]]) == [];
      assert Shapes(segments) == Reference(entries);
    }

    /** `nextInWindow`: the first row among segments `from` to `last`. */
    method NextInWindow(from: nat, last: int) returns (next: Option<nat>)
      requires from <= last + 1 <= |segments|
      ensures next == FirstRow(Sids(segments)[from..last + 1], domBySeg)
    {
      var sids := Sids(segments);
      for i := from to last + 1
        invariant FirstRow(sids[from..last + 1], domBySeg) == FirstRow(sids[i..last + 1], domBySeg)
      {
        assert sids[i..last + 1][1..] == sids[i + 1..last + 1];
        if segments[i].sid in domBySeg {
          return Some(domBySeg[segments[i].sid]);
        }
      }
      next := None;
    }

    /** Removes the rows of `dead` from the list. */
    method DropRows(dead: set<nat>, ghost listed: seq<nat>)
      requires RowsMatch(listed, domBySeg, dom, nextNode)
      modifies this`domBySeg, this`dom
      ensures domBySeg == old(domBySeg) - dead
      ensures RowsMatch(listed, domBySeg, dom, nextNode)
    {
      var due := set s | s in domBySeg && s in dead;
      while due != {}
        invariant due <= domBySeg.Keys && due <= dead
        invariant domBySeg - due == old(domBySeg) - dead
        invariant RowsMatch(listed, domBySeg, dom, nextNode)
      {
        var s :| s in due;
        ghost var i :| 0 <= i < |listed| && listed[i] == s;
        RemoveRow(listed, domBySeg, i);
        dom := RemoveNode(dom, domBySeg[s]);
        domBySeg := domBySeg - {s};
        due := due - {s};
      }
      assert domBySeg - {} == domBySeg;
    }

    /** The window a projection shows: at the bottom when pinned, around the viewport otherwise, and
        around the restore anchor's segment in any case. */
    method ChooseRange(reason: Reason, layout: Layout) returns (range: Range)
      ensures range.ValidFor(|segments|) && Chosen(segments, reason, layout, range)
      ensures layout.anchor.Some? && (layout.pinned ==> reason.OnScroll? || reason.OnPrepend?) ==>
                forall i :: IsAnchorSegment(segments, layout.anchor.value, i) ==> range.Holds(i)
    {
      hide Trails, Surrounds, HoldsAnchor, Widens;
      var heights := Heights(segments, layout.before);
      var wasPinned := layout.pinned && !reason.OnPrepend?;
      var snapToBottom := wasPinned && !reason.OnScroll?;
      if wasPinned {
        range := PinnedRange(heights, layout.clientHeight);
        TrailsIsValid(heights, layout.clientHeight, range);
      } else {
        range := ComputeTargetRange(heights, layout.scrollTop, layout.clientHeight);
      }
      ghost var base := range;
      assert BaseRange(segments, reason, layout, base);
      if !snapToBottom && layout.anchor.Some? {
        var anchorSeg := AnchorIndex(segments, layout.anchor.value);
        if anchorSeg >= 0 {
          range := WidenForAnchor(range, anchorSeg, |segments|);
          assert Restores(segments, reason, layout, anchorSeg);
        }
      }
    }

    /** The hysteresis band: the viewport sits half a screen or more inside the current window. */
    ghost predicate InsideWindow(layout: Layout)
      requires window.Some? && window.value.end < |segments|
      reads this
    {
      var (h, ws) := (Heights(segments, layout.before), window.value);
      var top: real := if ws.start < |h| then Top(h, ws.start) else 0.0;
      var bottom: real := if ws.end >= ws.start then Bottom(h, ws.end) else top;
      && layout.scrollTop >= top + 0.5 * layout.clientHeight
      && layout.scrollTop + layout.clientHeight <= bottom - 0.5 * layout.clientHeight
    }

    method Comfortable(layout: Layout) returns (inside: bool)
      requires window.Some? && window.value.end < |segments|
      ensures inside <==> InsideWindow(layout)
    {
      var heights := Heights(segments, layout.before);
      var offsets, _ := EnsureOffsets(heights);
      var ws := window.value;
      var winTop: real := if ws.start < |offsets| then offsets[ws.start] else 0.0;
      var winBottom: real := if ws.end >= ws.start then offsets[ws.end] + heights[ws.end] else winTop;
      if ws.end >= ws.start {
        SumStep(heights, ws.end);
      }
      var half: real := 0.5 * layout.clientHeight;
      inside := layout.scrollTop >= winTop + half && layout.scrollTop + layout.clientHeight <= winBottom - half;
    }

    /** Rebuilds in place every row of the window whose materialization moved. */
    method ReplaceStale(range: Range, layout: Layout)
      requires RowsMatch(Sids(segments), domBySeg, dom, nextNode) && RowsCurrent(segments, domBySeg, cachedSig, built)
      requires range.ValidFor(|segments|)
      modifies this`domBySeg, this`dom, this`cachedSig, this`nextNode, this`built
      ensures RowsMatch(Sids(segments), domBySeg, dom, nextNode) && RowsCurrent(segments, domBySeg, cachedSig, built)
      ensures domBySeg.Keys == old(domBySeg.Keys)
      ensures forall i :: range.start <= i <= range.end ==> UpToDate(segments[i].sid, domBySeg, cachedSig, layout)
      ensures NodesKept(old(domBySeg), old(cachedSig), domBySeg, layout.sig)
    {
      hide Rows, ReplaceNode, Unique, Injective, RowsCurrent, Sids, NodesKept, SigsStay;
      ghost var sids := Sids(segments);
      NoneRebuilt(domBySeg, cachedSig, layout.sig);
      for i := range.start to range.end + 1
        invariant RowsMatch(sids, domBySeg, dom, nextNode) && RowsCurrent(segments, domBySeg, cachedSig, built)
        invariant domBySeg.Keys == old(domBySeg.Keys)
        invariant NodesKept(old(domBySeg), old(cachedSig), domBySeg, layout.sig)
        invariant SigsStay(old(cachedSig), cachedSig, layout.sig)
        invariant forall k :: range.start <= k < i ==> UpToDate(segments[k].sid, domBySeg, cachedSig, layout)
      {
        var s := segments[i].sid;
        SidAt(segments, i);
        if s in domBySeg && !(s in cachedSig && cachedSig[s] == layout.sig(s)) {
          ReplaceRow(sids, domBySeg, i, nextNode);
          OneRebuilt(old(domBySeg), old(cachedSig), domBySeg, cachedSig, layout.sig, s, nextNode);
          dom := ReplaceNode(dom, domBySeg[s], nextNode);
          PlaceRow(i, layout.sig(s));
        }
      }
    }

    /** Registers the node just built for segment `i`. */
    method PlaceRow(i: nat, sig: int)
      requires i < |segments| && Unique(Sids(segments)) && Injective(domBySeg)
      requires forall s :: s in domBySeg ==> s in Sids(segments) && domBySeg[s] < nextNode
      requires RowsCurrent(segments, domBySeg, cachedSig, built)
      modifies this`domBySeg, this`cachedSig, this`nextNode, this`built
      ensures domBySeg == old(domBySeg)[segments[i].sid := old(nextNode)]
      ensures cachedSig == old(cachedSig)[segments[i].sid := sig]
      ensures nextNode == old(nextNode) + 1
      ensures Injective(domBySeg) && forall s :: s in domBySeg ==> s in Sids(segments) && domBySeg[s] < nextNode
      ensures RowsCurrent(segments, domBySeg, cachedSig, built)
    {
      var s := segments[i].sid;
      assert Sids(segments)[i] == s;
      CurrentAfter(segments, domBySeg, cachedSig, built, i, nextNode, sig);
      built := built[nextNode := segments[i].shape];
      domBySeg := domBySeg[s := nextNode];
      cachedSig := cachedSig[s := sig];
      nextNode := nextNode + 1;
    }

    /** Builds a row for every segment of the window that has none. */
    method InsertMissing(range: Range, layout: Layout)
      requires RowsMatch(Sids(segments), domBySeg, dom, nextNode) && RowsCurrent(segments, domBySeg, cachedSig, built)
      requires range.ValidFor(|segments|)
      requires forall s :: s in domBySeg ==> s in Sids(segments)[range.start..range.end + 1]
      requires forall i :: range.start <= i <= range.end ==> UpToDate(segments[i].sid, domBySeg, cachedSig, layout)
      modifies this`domBySeg, this`dom, this`cachedSig, this`nextNode, this`built
      ensures RowsMatch(Sids(segments), domBySeg, dom, nextNode) && RowsCurrent(segments, domBySeg, cachedSig, built)
      ensures forall s :: s in domBySeg <==> s in Sids(segments)[range.start..range.end + 1]
      ensures forall i :: range.start <= i <= range.end ==> UpToDate(segments[i].sid, domBySeg, cachedSig, layout)
      ensures forall s :: s in old(domBySeg) ==> s in domBySeg && domBySeg[s] == old(domBySeg)[s]
    {
      hide RowsMatch, RowsCurrent, Sids;
      ghost var sids := Sids(segments);
      ghost var shown := sids[range.start..range.end + 1];
      for i := range.start to range.end + 1
        invariant RowsMatch(sids, domBySeg, dom, nextNode) && RowsCurrent(segments, domBySeg, cachedSig, built)
        invariant forall s :: s in domBySeg ==> s in shown
        invariant forall s :: s in old(domBySeg) ==> s in domBySeg && domBySeg[s] == old(domBySeg)[s]
        invariant forall k :: range.start <= k < i ==> sids[k] in domBySeg
        invariant forall k :: range.start <= k <= range.end ==> UpToDate(segments[k].sid, domBySeg, cachedSig, layout)
      {
        SidAt(segments, i);
        assert shown[i - range.start] == segments[i].sid;
        if segments[i].sid !in domBySeg {
          InsertAt(i, range, layout.sig(segments[i].sid));
        }
      }
    }

    method InsertAt(i: nat, range: Range, sig: int)
      requires RowsMatch(Sids(segments), domBySeg, dom, nextNode) && RowsCurrent(segments, domBySeg, cachedSig, built)
      requires range.ValidFor(|segments|) && range.start <= i <= range.end && segments[i].sid !in domBySeg
      requires forall s :: s in domBySeg ==> s in Sids(segments)[range.start..range.end + 1]
      modifies this`domBySeg, this`dom, this`cachedSig, this`nextNode, this`built
      ensures domBySeg == old(domBySeg)[segments[i].sid := old(nextNode)]
      ensures cachedSig == old(cachedSig)[segments[i].sid := sig]
      ensures RowsMatch(Sids(segments), domBySeg, dom, nextNode) && RowsCurrent(segments, domBySeg, cachedSig, built)
    {
      hide Rows, InsertBefore, Unique, Injective, RowsCurrent, FirstRow, Sids;
      SidAt(segments, i);
      var next := NextInWindow(i + 1, range.end);
      InsertInWindow(Sids(segments), domBySeg, i, nextNode, range);
      dom := InsertBefore(dom, nextNode, next);
      PlaceRow(i, sig);
    }

    /**
     `reproject`: evict, replace, insert, then size the spacers. A hidden list, a For-you list and a
     scroll frame that stays inside the window change nothing. Every other projection leaves exactly
     the window's rows, each built from what its segment holds and needs now.
     */
    method Reproject(reason: Reason, layout: Layout) returns (outcome: Outcome)
      requires Valid()
      modifies this`domBySeg, this`dom, this`cachedSig, this`nextNode, this`built, this`window, this`topSpacer,
               this`bottomSpacer, this`drift
      ensures Valid()
      ensures outcome == Hidden <==> layout.clientHeight == 0.0
      ensures outcome == FlatList <==> layout.clientHeight != 0.0 && view.ForYou?
      ensures outcome == Skipped <==> layout.clientHeight != 0.0 && view.Everything? && reason.OnScroll?
                                      && old(window).Some? && old(InsideWindow(layout))
      ensures outcome != FlatList ==> (Exact() <==> outcome == Projected || old(Exact()))
      ensures outcome != FlatList ==> (Clean(layout) <==> outcome == Projected || old(Clean(layout)))
      ensures outcome != Projected ==>
                dom == old(dom) && domBySeg == old(domBySeg) && window == old(window) && cachedSig == old(cachedSig)
      ensures NodesKept(old(domBySeg), old(cachedSig), domBySeg, layout.sig)
      ensures outcome == Projected ==> Exact() && AllCurrent(layout) && SpacersFit(layout)
      ensures outcome == Projected ==> AnchorShown(reason, layout) && WindowChosen(reason, layout)
    {
      hide StoreValid, RowsMatch, RowsCurrent, Exact, AllCurrent, SpacersFit, AnchorShown, WindowChosen, Within;
      WindowEnds();
      if layout.clientHeight == 0.0 {
        return Hidden;
      }
      if view.ForYou? {
        return FlatList;
      }
      if reason.OnScroll? && window.Some? {
        var inside := Comfortable(layout);
        if inside {
          return Skipped;
        }
      }
      outcome := Projected;
      Project(reason, layout);
    }

    method Project(reason: Reason, layout: Layout)
      requires Valid() && view.Everything?
      modifies this`domBySeg, this`dom, this`cachedSig, this`nextNode, this`built, this`window, this`topSpacer,
               this`bottomSpacer, this`drift
      ensures RowsValid() && Exact() && AllCurrent(layout) && SpacersFit(layout)
      ensures AnchorShown(reason, layout) && WindowChosen(reason, layout)
      ensures NodesKept(old(domBySeg), old(cachedSig), domBySeg, layout.sig)
    {
      hide Reference, Unique, Injective, Rows, HoldsAnchor, Heights, Sum, Sids, StoreValid, IsAnchorSegment;
      hide RowsMatch, RowsCurrent, Exact, Covered, AllCurrent, Within, NodesKept, Chosen;
      var range := ChooseRange(reason, layout);
      Reconcile(range, layout);
      window, drift := Some(range), 0;
      CoveredIsWithin(Sids(segments), domBySeg, range);
      topSpacer, bottomSpacer := Spacers(Heights(segments, layout.after), range);
      ExactIsCovered();
      CoveredIsCurrent(layout);
    }

    /** Evict, replace, insert: exactly the range's segments have a row, each carrying the signature it needs. */
    method Reconcile(range: Range, layout: Layout)
      requires RowsMatch(Sids(segments), domBySeg, dom, nextNode) && RowsCurrent(segments, domBySeg, cachedSig, built)
      requires range.ValidFor(|segments|)
      modifies this`domBySeg, this`dom, this`cachedSig, this`nextNode, this`built
      ensures RowsMatch(Sids(segments), domBySeg, dom, nextNode) && RowsCurrent(segments, domBySeg, cachedSig, built)
      ensures Covered(Sids(segments), domBySeg, range)
      ensures forall i :: range.start <= i <= range.end ==> UpToDate(segments[i].sid, domBySeg, cachedSig, layout)
      ensures NodesKept(old(domBySeg), old(cachedSig), domBySeg, layout.sig)
    {
      hide RowsMatch, RowsCurrent, Sids;
      EvictOutside(range);
      ReplaceStale(range, layout);
      InsertMissing(range, layout);
    }

    lemma CoveredIsCurrent(layout: Layout)
      requires RowsCurrent(segments, domBySeg, cachedSig, built)
      requires window.Some? && Covered(Sids(segments), domBySeg, window.value)
      requires forall i :: window.value.start <= i <= window.value.end ==>
                 UpToDate(segments[i].sid, domBySeg, cachedSig, layout)
      ensures window.value.ValidFor(|segments|) && AllCurrent(layout)
    {
      AllShown(segments, domBySeg, window.value);
      hide Covered, Sids;
    }

    /** The restore anchor's segment lies in the window, unless the projection snaps to the bottom. */
    ghost predicate AnchorShown(reason: Reason, layout: Layout)
      reads this
    {
      window.Some? && layout.anchor.Some? && (layout.pinned ==> reason.OnScroll? || reason.OnPrepend?) ==>
        forall i :: IsAnchorSegment(segments, layout.anchor.value, i) ==> window.value.Holds(i)
    }

    /** The window is the one the projection's layout calls for. */
    ghost predicate WindowChosen(reason: Reason, layout: Layout)
      reads this`window, this`segments
    {
      window.Some? && Chosen(segments, reason, layout, window.value)
    }

    /** Each row of the window has the signature its segment needs and was built from its content. */
    ghost predicate AllCurrent(layout: Layout)
      requires window.Some? && window.value.ValidFor(|segments|)
      reads this`window, this`segments, this`domBySeg, this`cachedSig, this`built
    {
      RowsFit(segments, domBySeg, cachedSig, built, window.value, layout.sig)
    }

    /** The rows are exactly the window's, and each shows what its segment holds. */
    ghost predicate Clean(layout: Layout)
      reads this`window, this`segments, this`domBySeg, this`dom, this`cachedSig, this`built
    {
      Exact() && AllCurrent(layout)
    }

    /** An exact window of a list with segments holds some. */
    lemma WindowShows()
      ensures Exact() && segments != [] ==> window.value.start <= window.value.end
    {
    }

    lemma CleanMeans(layout: Layout)
      ensures Clean(layout) <==> Exact() && window.value.end < |segments|
                                 && RowsFit(segments, domBySeg, cachedSig, built, window.value, layout.sig)
    {
      hide Listed, RowsFit;
    }

    lemma WindowEnds()
      requires window.Some? ==> Within(Sids(segments), domBySeg, window.value, drift)
      ensures window.Some? ==> window.value.start <= window.value.end + 1 <= |segments|
    {
    }

    /** Spacers and window rows together take the height of the whole list. */
    ghost predicate SpacersFit(layout: Layout)
      requires window.Some? && window.value.ValidFor(|segments|)
      reads this
    {
      var h := Heights(segments, layout.after);
      && topSpacer == Top(h, window.value.start) && bottomSpacer == Sum(h[window.value.end + 1..])
      && topSpacer + Sum(h[window.value.start..window.value.end + 1]) + bottomSpacer == Sum(h)
    }

    // ---- ingest -------------------------------------------------------------------------------------

    method MakeEntry(msg: Message) returns (entry: Entry)
      modifies this`records, this`nextUid
      ensures entry == Entry(old(nextUid), msg) && nextUid == old(nextUid) + 1
      ensures records == old(records) + (if MessageKey(msg).Some? then {MessageKey(msg).value} else {})
    {
      entry := Entry(nextUid, msg);
      nextUid := nextUid + 1;
      var key := MessageKey(msg);
      if key.Some? {
        records := records + {key.value};
      }
    }

    method MakeEntries(messages: seq<Message>) returns (added: seq<Entry>)
      modifies this`records, this`nextUid
      ensures added == NewEntries(old(nextUid), messages) && nextUid == old(nextUid) + |messages|
      ensures records == old(records) + Keys(added)
    {
      hide Keys, MessageKey;
      added := [];
      KeysNone();
      for i := 0 to |messages|
        invariant |added| == i && nextUid == old(nextUid) + i && records == old(records) + Keys(added)
        invariant forall k :: 0 <= k < i ==> added[k] == Entry(old(nextUid) + k, messages[k])
      {
        var entry := MakeEntry(messages[i]);
        KeysConcat(added, [entry]);
        KeysOne(entry);
        added := added + [entry];
      }
    }

    /** `attach`: derives the whole store again and projects it from scratch. */
    method Attach(layout: Layout) returns (outcome: Outcome)
      requires Distinct(entries) && (forall e :: e in entries ==> e.uid < nextUid) && records == Keys(entries)
      modifies this`segments, this`nextSid, this`domBySeg, this`dom, this`cachedSig, this`nextNode, this`built,
               this`window, this`topSpacer, this`bottomSpacer, this`drift
      ensures Valid()
      ensures outcome == Projected <==> layout.clientHeight != 0.0 && view.Everything?
      ensures outcome == Projected ==>
              Exact() && AllCurrent(layout) && SpacersFit(layout) && WindowChosen(OnUpdate, layout)
      ensures outcome != Projected ==> dom == [] && window.None?
    {
      hide Keys, Spans, TailOf, Derivation.Settled, Distinct, RowsMatch, RowsCurrent, Exact, AllCurrent, SpacersFit,
           AnchorShown, NewSegments, WindowChosen;
      domBySeg, dom, window := map[], [], None;
      var derived, tailSpan := DeriveSegments(entries);
      var shapes := derived + (if tailSpan == [] then [] else [Flat(tailSpan, true)]);
      segments := NewSegments(nextSid, shapes);
      nextSid := nextSid + |shapes|;
      NoRowsYet(segments, old(nextSid), cachedSig, built, nextNode);
      outcome := Reproject(OnUpdate, layout);
    }

    /** `mount`: the store takes the bootstrap's messages, and everything is derived from it. */
    method Mount(messages: seq<Message>, layout: Layout) returns (outcome: Outcome)
      requires Valid()
      modifies this
      ensures Valid() && view == old(view)
      ensures entries == old(entries) + NewEntries(old(nextUid), messages)
      ensures outcome == Projected <==> layout.clientHeight != 0.0 && view.Everything?
      ensures outcome == Projected ==>
              Exact() && AllCurrent(layout) && SpacersFit(layout) && WindowChosen(OnUpdate, layout)
    {
      hide Reference, RowsMatch, RowsCurrent, Exact, AllCurrent, SpacersFit, Distinct, Keys, NewEntries, WindowChosen;
      var added := MakeEntries(messages);
      KeysConcat(entries, added);
      MountDistinct(entries, added, old(nextUid));
      entries := entries + added;
      outcome := Attach(layout);
    }

    /** `setView`: the store carries over, every row is built again. */
    method SetView(next: View, layout: Layout)
      requires Valid()
      modifies this
      ensures Valid() && entries == old(entries) && view == next
      ensures next == old(view) ==>
              segments == old(segments) && dom == old(dom) && domBySeg == old(domBySeg) && window == old(window)
      ensures next != old(view) && layout.clientHeight != 0.0 && next.Everything? ==>
                Exact() && AllCurrent(layout) && SpacersFit(layout) && WindowChosen(OnUpdate, layout)
      ensures next != old(view) && !(layout.clientHeight != 0.0 && next.Everything?) ==> dom == [] && window.None?
    {
      hide Reference, Keys, RowsMatch, RowsCurrent, Exact, AllCurrent, SpacersFit, Distinct, WindowChosen;
      if next == view {
        return;
      }
      view := next;
      var _ := Attach(layout);
    }

    /** What appending and paging need of the rows while the segment list changes under them. */
    ghost predicate RowsHold()
      reads this
    {
      && RowsMatch(Sids(segments), domBySeg, dom, nextNode)
      && RowsCurrent(segments, domBySeg, cachedSig, built)
      && (forall i :: 0 <= i < |segments| ==> segments[i].sid < nextSid)
    }

    /** The open tail has a pending segment from its first entry on. */
    method EnsurePending(ghost settled: seq<Shape>, ghost tail: seq<Entry>)
      requires RowsHold() && Shapes(segments) == settled + PendingTail(tail)
      requires forall k :: 0 <= k < |settled| ==> !IsPending(settled[k])
      modifies this`segments, this`nextSid
      ensures RowsHold() && Shapes(segments) == settled + [Flat(tail, true)]
      ensures old(segments)[..|settled|] == segments[..|settled|] && Sids(old(segments)) <= Sids(segments)
      ensures forall i :: |old(segments)| <= i < |segments| ==> segments[i].sid >= old(nextSid)
    {
      hide Unique, Rows, Injective, RowsCurrent;
      assert tail != [] ==> Shapes(segments)[|segments| - 1] == Flat(tail, true);
      if segments == [] || !IsPending(segments[|segments| - 1].shape) {
        var pending := Segment(nextSid, Flat([], true));
        AddedLast(segments, domBySeg, cachedSig, built, pending);
        ShapesConcat(segments, [pending]);
        segments := segments + [pending];
        nextSid := nextSid + 1;
      } else {
        assert Shapes(segments)[|segments| - 1] == segments[|segments| - 1].shape;
      }
    }

    /** The new entry joins the pending segment in place. */
    method GrowTail(entry: Entry, ghost settled: seq<Shape>, ghost tail: seq<Entry>)
      requires RowsHold() && Shapes(segments) == settled + PendingTail(tail)
      requires forall k :: 0 <= k < |settled| ==> !IsPending(settled[k])
      modifies this`segments, this`nextSid, this`cachedSig
      ensures RowsHold() && Shapes(segments) == settled + [Flat(tail + [entry], true)]
      ensures old(segments)[..|settled|] == segments[..|settled|] && Sids(old(segments)) <= Sids(segments)
      ensures |segments| >= |old(segments)| && cachedSig == old(cachedSig) - {segments[|settled|].sid}
      ensures forall i :: |old(segments)| <= i < |segments| ==> segments[i].sid >= old(nextSid)
    {
      hide Unique, Rows, Injective, RowsCurrent;
      EnsurePending(settled, tail);
      var at := |segments| - 1;
      var pending := segments[at];
      assert Shapes(segments)[at] == Flat(tail, true);
      GrownLast(segments, domBySeg, cachedSig, built, entry);
      ShapesLast(segments, pending.(shape := Flat(tail + [entry], true)));
      segments := segments[at := pending.(shape := Flat(pending.shape.entries + [entry], true))];
      cachedSig := cachedSig - {pending.sid};
    }

    /** The pending segment closes: a settled one takes its place, and the carry opens the next tail. */
    method CloseTail(ghost settled: seq<Shape>, ghost span: seq<Entry>) returns (closed: Segment)
      requires RowsHold() && Shapes(segments) == settled + [Flat(span, true)] && Distinct(span) && Closing(span)
      modifies this`segments, this`nextSid, this`domBySeg, this`dom
      ensures RowsHold()
      ensures Shapes(segments) == settled + [CloseOf(span).shape] + PendingTail(CloseOf(span).carried)
      ensures old(segments)[..|settled|] == segments[..|settled|]
      ensures |segments| >= |old(segments)| && domBySeg == old(domBySeg) - {old(segments)[|settled|].sid}
      ensures segments[|settled|] == closed && closed.sid !in old(domBySeg)
    {
      hide Unique, Rows, Injective, CloseOf, Closing, Distinct, ClosesAs;
      var at := |segments| - 1;
      var pending := segments[at];
      assert Shapes(segments)[at] == Flat(span, true);
      assert nextSid !in Sids(segments);
      var result := CloseSpan(pending.shape.entries);
      DropRows({pending.sid}, Sids(segments));
      closed := Segment(nextSid, result.value.shape);
      RenamedLast(segments, domBySeg, cachedSig, built, closed);
      ShapesLast(segments, closed);
      segments := segments[at := closed];
      nextSid := nextSid + 1;
      if result.value.carried != [] {
        var carried := Segment(nextSid, Flat(result.value.carried, true));
        AddedLast(segments, domBySeg, cachedSig, built, carried);
        ShapesConcat(segments, [carried]);
        segments := segments + [carried];
        nextSid := nextSid + 1;
      }
    }

    /** The store and segment part of `appendMessage`: the pending tail grows, or closes. */
    method AppendEntry(entry: Entry, ghost layout: Layout) returns (closed: Option<Segment>)
      requires DerivedValid() && RowsValid() && records == Keys(entries + [entry])
      requires entry.uid < nextUid && forall e :: e in entries ==> e.uid != entry.uid
      modifies this`entries, this`segments, this`nextSid, this`domBySeg, this`dom, this`cachedSig
      ensures Valid() && entries == old(entries) + [entry]
      ensures closed.Some? <==> Closes(entry)
      ensures var kept := |Derivation.Settled(Spans(old(entries)))|;
              && kept <= |old(segments)| && kept <= |segments| && segments[..kept] == old(segments)[..kept]
              && (closed.Some? ==> kept < |segments| && segments[kept] == closed.value && closed.value.sid !in domBySeg)
      ensures var kept := |Derivation.Settled(Spans(old(entries)))|;
              && (Exact() <==> old(Exact()) && old(segments) != [] && (closed.Some? ==> !window.value.Holds(kept)))
              && (Clean(layout) <==> old(Clean(layout)) && old(segments) != [] && !window.value.Holds(kept))
    {
      hide Reference, Spans, TailOf, Unique, Rows, Injective, Derivation.Settled, CloseOf, Closes, RowsMatch,
           RowsCurrent, Keys, Exact, Clean, Covered, Distinct, Sids, Within;
      ghost var (settled, tail) := (Derivation.Settled(Spans(entries)), TailOf(Spans(entries)));
      ghost var (had, table, sigs, kept) := (segments, domBySeg, cachedSig, |settled|);
      ghost var (wasExact, wasClean) := (Exact(), Clean(layout));
      AppendFacts(entries, entry);
      ExactIsCovered();
      CleanMeans(layout);
      RowsUnique(Sids(segments), domBySeg, dom, nextNode);
      entries := entries + [entry];
      ghost var grown;
      closed, grown := AppendSegment(entry, settled, tail);
      AppendJudged(had, grown, table, sigs, kept, old(nextSid), closed.Some?, layout, wasExact, wasClean);
    }

    /** The segments of the appended entry: the tail has grown to `grown`, and closed if the entry closes it. */
    method AppendSegment(entry: Entry, ghost settled: seq<Shape>, ghost tail: seq<Entry>)
      returns (closed: Option<Segment>, ghost grown: seq<Segment>)
      requires RowsHold() && Shapes(segments) == settled + PendingTail(tail) && Distinct(tail + [entry])
      requires forall k :: 0 <= k < |settled| ==> !IsPending(settled[k])
      modifies this`segments, this`nextSid, this`domBySeg, this`dom, this`cachedSig
      ensures RowsHold() && (closed.Some? <==> Closes(entry))
      ensures Shapes(segments) ==
              if Closes(entry)
              then settled + [CloseOf(tail + [entry]).shape] + PendingTail(CloseOf(tail + [entry]).carried)
              else settled + [Flat(tail + [entry], true)]
      ensures var kept := |settled|;
              && kept <= |old(segments)| <= kept + 1 && kept < |grown| && kept < |segments|
              && old(segments)[..kept] == grown[..kept] && old(segments)[..kept] == segments[..kept]
              && Unique(Sids(grown)) && Sids(old(segments)) <= Sids(grown)
              && (kept == |old(segments)| ==> grown[kept].sid >= old(nextSid))
              && (if closed.Some? then segments[kept] == closed.value && closed.value.sid !in old(domBySeg)
                  else segments == grown)
              && domBySeg == (if closed.Some? then old(domBySeg) - {grown[kept].sid} else old(domBySeg))
              && cachedSig == old(cachedSig) - {grown[kept].sid}
    {
      hide Unique, Rows, Injective, CloseOf, Closes, RowsMatch, RowsCurrent, Distinct, Sids;
      GrowTail(entry, settled, tail);
      RowsUnique(Sids(segments), domBySeg, dom, nextNode);
      grown := segments;
      closed := None;
      if Closes(entry) {
        var segment := CloseTail(settled, tail + [entry]);
        closed := Some(segment);
      }
    }

    /** What an append does to an exact window and to its rows. */
    lemma AppendJudged(had: seq<Segment>, grown: seq<Segment>, table: map<nat, nat>, sigs: map<nat, int>, kept: nat,
                       lo: nat, closes: bool, layout: Layout, wasExact: bool, wasClean: bool)
      requires RowsMatch(Sids(segments), domBySeg, dom, nextNode) && Unique(Sids(had)) && Unique(Sids(grown))
      requires kept <= |had| <= kept + 1 && kept < |grown| && kept < |segments|
      requires had[..kept] == grown[..kept] && had[..kept] == segments[..kept] && Sids(had) <= Sids(grown)
      requires forall i :: 0 <= i < |had| ==> had[i].sid < lo
      requires kept == |had| ==> grown[kept].sid >= lo
      requires if closes then segments[kept].sid !in table else segments == grown
      requires domBySeg == (if closes then table - {grown[kept].sid} else table)
      requires cachedSig == sigs - {grown[kept].sid}
      requires window.Some? ==> Within(Sids(had), table, window.value, drift)
      requires wasExact <==> window.Some? && Covered(Sids(had), table, window.value)
      requires wasClean <==> wasExact && window.value.end < |had|
                             && RowsFit(had, table, sigs, built, window.value, layout.sig)
      ensures window.Some? ==> Within(Sids(segments), domBySeg, window.value, drift)
      ensures Exact() <==> wasExact && had != [] && (closes ==> !window.value.Holds(kept))
      ensures Clean(layout) <==> wasClean && had != [] && !window.value.Holds(kept)
    {
      hide Unique, Covered, Sids, Within, RowsFit, SameRows, RowsMatch, Exact;
      ExactIsCovered();
      WindowShows();
      AppendedRows(had, grown, segments, table, sigs, kept, closes);
      if window.Some? {
        if closes {
          AppendCloses(had, grown, segments, table, window.value, drift, kept, lo);
        } else {
          CoveredGrows(Sids(had), Sids(segments), table, window.value, drift);
        }
        if Exact() {
          CoveredHas(Sids(had), table, window.value);
          FitsAppended(had, segments, table, domBySeg, sigs, cachedSig, built, window.value, layout.sig, kept);
        }
      }
    }

    /** A live message as an entry; one without an id gets one of this client's own. */
    method LiveEntry(msg: Message) returns (entry: Entry)
      requires records == Keys(entries)
      modifies this`liveSequence, this`records, this`nextUid
      ensures entry == Entry(old(nextUid), msg.(id := LiveId(msg, old(liveSequence)))) && nextUid == old(nextUid) + 1
      ensures records == Keys(entries + [entry])
    {
      hide Keys, MessageKey, Decimal;
      var m := msg;
      if m.id == "" {
        liveSequence := liveSequence + 1;
        m := m.(id := "client:" + sessionId + ":" + Decimal(liveSequence));
      }
      entry := MakeEntry(m);
      KeysConcat(entries, [entry]);
      KeysOne(entry);
    }

    function LiveId(msg: Message, sequence: nat): string {
      if msg.id == "" then "client:" + sessionId + ":" + Decimal(sequence + 1) else msg.id
    }

    /** `appendMessage`: a live message lands at the back of the store, and no settled segment moves. */
    method AppendMessage(msg: Message, layout: Layout) returns (closed: Option<Segment>)
      requires Valid()
      modifies this
      ensures Valid() && view == old(view)
      ensures entries == old(entries) + [Entry(old(nextUid), msg.(id := LiveId(msg, old(liveSequence))))]
      ensures closed.Some? <==> Closes(entries[|entries| - 1])
      ensures var kept := |Derivation.Settled(Spans(old(entries)))|;
              && kept <= |old(segments)| && kept <= |segments| && segments[..kept] == old(segments)[..kept]
              && (closed.Some? ==> kept < |segments| && segments[kept] == closed.value)
      ensures layout.clientHeight == 0.0 ==> window == old(window) && (closed.Some? ==> closed.value.sid !in domBySeg)
      ensures layout.clientHeight == 0.0 ==> var kept := |Derivation.Settled(Spans(old(entries)))|;
                && (Exact() <==> old(Exact()) && old(segments) != [] && (closed.Some? ==> !window.value.Holds(kept)))
                && (Clean(layout) <==> old(Clean(layout)) && old(segments) != [] && !window.value.Holds(kept))
      ensures layout.clientHeight != 0.0 && view.Everything? ==>
                Exact() && AllCurrent(layout) && SpacersFit(layout) && WindowChosen(OnUpdate, layout)
    {
      hide Reference, Derivation.Settled, Spans, RowsMatch, RowsCurrent, Distinct, AllCurrent, Exact, SpacersFit, Keys,
           AnchorShown, InsideWindow, Closes, LiveId, Within, NodesKept, WindowChosen;
      var entry := LiveEntry(msg);
      closed := AppendEntry(entry, layout);
      var _ := Reproject(OnUpdate, layout);
    }

    /** The messages of a page the store does not hold yet, each once, as new entries. */
    method FreshEntries(messages: seq<Message>) returns (added: seq<Entry>)
      modifies this`records, this`nextUid
      ensures var news := FreshOf(messages, old(records), {});
              && |added| == |news| && nextUid == old(nextUid) + |added|
              && forall k :: 0 <= k < |added| ==> added[k] == Entry(old(nextUid) + k, news[k])
      ensures records == old(records) + Keys(added)
    {
      hide MessageKey, Keys, FreshOf;
      var kept: seq<Message> := [];
      var pageRecords: set<Key> := {};
      assert messages[0..] == messages;
      for i := 0 to |messages|
        invariant records == old(records) && nextUid == old(nextUid)
        invariant FreshOf(messages, records, {}) == kept + FreshOf(messages[i..], records, pageRecords)
      {
        FreshNext(messages, i, records, pageRecords, kept);
        var key := MessageKey(messages[i]);
        if key.None? {
          kept := kept + [messages[i]];
        } else if key.value !in records && key.value !in pageRecords {
          pageRecords := pageRecords + {key.value};
          kept := kept + [messages[i]];
        }
      }
      FreshNone(records, pageRecords);
      assert messages[|messages|..] == [] && kept + [] == kept;
      added := MakeEntries(kept);
    }

    /** The boundary loop: re-derives existing segments one at a time while a region is left over. */
    method MergeLoop(tail: seq<Entry>, at: nat, ghost first: seq<Shape>, ghost had: seq<Segment>, ghost lo: nat)
      returns (ghost done: seq<Shape>, ghost used: nat)
      requires at == |first| && Layered(segments, first, had, 0, lo, nextSid)
      requires Distinct(tail + Flatten(Shapes(had)))
      modifies this`segments, this`nextSid
      ensures Layered(segments, done, had, used, lo, nextSid)
      ensures done == first + Merge(tail, Shapes(had)).front && used == Merge(tail, Shapes(had)).used
    {
      hide Merge, Spans, Derivation.Settled, TailOf, Distinct, Flatten, Layered, Shapes, Sids, NewSegments;
      ghost var rest := Shapes(had);
      ghost var all := Merge(tail, rest);
      var boundaryIndex, region := at, tail;
      done, used := first, 0;
      assert rest[0..] == rest;
      LayeredAt(segments, done, had, used, lo, nextSid);
      while region != []
        invariant used <= |had| && boundaryIndex == |done| && |segments| == |done| + |had| - used
        invariant Layered(segments, done, had, used, lo, nextSid)
        invariant done + Merge(region, rest[used..]).front == first + all.front
        invariant used + Merge(region, rest[used..]).used == all.used
        invariant Distinct(region + Flatten(rest[used..]))
        decreases |segments| - boundaryIndex, |region|
      {
        LayeredAt(segments, done, had, used, lo, nextSid);
        if boundaryIndex >= |segments| {
          LayeredMore(segments, done, had, used, lo, nextSid, [Flat(region, true)], 0);
          segments := segments[..boundaryIndex] + NewSegments(nextSid, [Flat(region, true)])
              + segments[boundaryIndex..];
          nextSid := nextSid + 1;
          MergeEnd(region);
          done := done + [Flat(region, true)];
          return;
        }
        var settled := segments[boundaryIndex];
        MergePass(region, rest, used);
        var derived, left := DeriveSegments(region + settled.shape.entries);
        LayeredMore(segments, done, had, used, lo, nextSid, derived, 1);
        segments := segments[..boundaryIndex] + NewSegments(nextSid, derived) + segments[boundaryIndex + 1..];
        nextSid := nextSid + |derived|;
        ghost var m := Merge(left, rest[used + 1..]);
        assert done + (derived + m.front) == done + derived + m.front;
        done := done + derived;
        used := used + 1;
        region := left;
        boundaryIndex := boundaryIndex + |derived|;
      }
      MergeNothing(rest[used..]);
      assert done + [] == done;
    }

    /** The segment part of a prepend: the page's settled segments first, then the boundary loop. */
    method SplicePage(page: seq<Entry>, ghost store: seq<Entry>) returns (ghost used: nat)
      requires Shapes(segments) == Reference(store) && Distinct(page + store)
      requires Unique(Sids(segments)) && forall i :: 0 <= i < |segments| ==> segments[i].sid < nextSid
      modifies this`segments, this`nextSid
      ensures Shapes(segments) == Reference(page + store)
      ensures used <= 2 && used <= |old(segments)|
      ensures |segments| >= |old(segments)|
      ensures segments[|segments| - (|old(segments)| - used)..] == old(segments)[used..]
      ensures Unique(Sids(segments)) && forall i :: 0 <= i < |segments| ==> segments[i].sid < nextSid
      ensures forall i :: 0 <= i < |segments| - (|old(segments)| - used) ==> segments[i].sid >= old(nextSid)
    {
      hide Reference, Merge, Spans, Derivation.Settled, TailOf, Unique, Distinct, Flatten, Layered, Sids, NewSegments,
           Spliced;
      ghost var (had, lo) := (segments, nextSid);
      DerivedDistinct(page, store);
      LayeredFirst(had, lo);
      var first, region := DeriveSegments(page);
      ghost var none: seq<Shape> := [];
      LayeredMore(segments, none, had, 0, lo, nextSid, first, 0);
      assert none + first == first;
      assert segments[..|none|] + NewSegments(nextSid, first) + segments[|none| + 0..]
             == NewSegments(nextSid, first) + segments;
      segments := NewSegments(nextSid, first) + segments;
      nextSid := nextSid + |first|;
      ghost var done;
      done, used := MergeLoop(region, |first|, first, had, lo);
      LayeredShapes(segments, done, had, used, lo, nextSid);
      PrependIsBatch(page, store);
      PrependGrows(page, store);
      SplicedIs(page, store);
    }

    /**
     `prependMessages`: an older page lands in front of the store. At most two existing segments are
     derived again; every later one is the same object with the same row.
     */
    method PrependMessages(messages: seq<Message>, layout: Layout) returns (ghost used: nat)
      requires Valid()
      modifies this
      ensures Valid() && view == old(view)
      ensures var news := FreshOf(messages, old(records), {});
              && |entries| == |news| + |old(entries)| && entries[|news|..] == old(entries)
              && forall k :: 0 <= k < |news| ==> entries[k].msg == news[k]
      ensures used <= 2 && used <= |old(segments)| <= |segments|
      ensures segments[|segments| - (|old(segments)| - used)..] == old(segments)[used..]
      ensures FreshOf(messages, old(records), {}) == [] ==>
                segments == old(segments) && dom == old(dom) && domBySeg == old(domBySeg) && window == old(window)
      ensures FreshOf(messages, old(records), {}) != [] && layout.clientHeight != 0.0 && view.Everything? ==>
                Exact() && AllCurrent(layout) && SpacersFit(layout) && WindowChosen(OnPrepend, layout)
      ensures FreshOf(messages, old(records), {}) != [] && layout.clientHeight == 0.0 ==>
                var stays := |segments| == |old(segments)| && old(window).Some? && used <= old(window).value.start;
                && (Exact() <==> old(Exact()) && stays) && (Clean(layout) <==> old(Clean(layout)) && stays)
    {
      hide Reference, RowsMatch, RowsCurrent, Distinct, AllCurrent, Exact, SpacersFit, Unique, FreshOf, Sids, Shapes,
           AnchorShown, Keys, Within, NodesKept, WindowChosen;
      hide InsideWindow, NewEntries, MessageKey;
      used := 0;
      var added := FreshEntries(messages);
      KeysConcat(added, entries);
      if added == [] {
        assert [] + entries == entries;
        return;
      }
      FreshDistinct(added, entries, old(nextUid));
      used := TakePage(added, layout);
      var _ := Reproject(OnPrepend, layout);
    }

    /** The store, its segments and their rows take the page in. */
    method TakePage(added: seq<Entry>, ghost layout: Layout) returns (ghost used: nat)
      requires Distinct(added + entries) && forall e :: e in added + entries ==> e.uid < nextUid
      requires Shapes(segments) == Reference(entries) && RowsHold() && records == Keys(added + entries) && added != []
      requires view.ForYou? ==> domBySeg == map[] && window.None?
      requires window.Some? ==> Within(Sids(segments), domBySeg, window.value, drift)
      modifies this`entries, this`segments, this`nextSid, this`domBySeg, this`dom, this`drift
      ensures Valid() && entries == added + old(entries)
      ensures used <= 2 && used <= |old(segments)| <= |segments|
      ensures segments[|segments| - (|old(segments)| - used)..] == old(segments)[used..]
      ensures var stays := |segments| == |old(segments)| && window.Some? && used <= window.value.start;
              && (Exact() <==> old(Exact()) && stays) && (Clean(layout) <==> old(Clean(layout)) && stays)
    {
      hide Reference, RowsMatch, RowsCurrent, Distinct, Unique, Sids, Shapes, Keys, Exact, Clean, Covered, Within,
           PagedSegments;
      ghost var (had, table) := (segments, domBySeg);
      ghost var (wasExact, wasClean) := (Exact(), Clean(layout));
      RowsUnique(Sids(segments), domBySeg, dom, nextNode);
      ExactIsCovered();
      CleanMeans(layout);
      used := SpliceRows(added);
      drift := drift + |segments| - |had|;
      RowsUnique(Sids(segments), domBySeg, dom, nextNode);
      PageJudged(had, table, used, old(drift), layout, wasExact, wasClean);
    }

    /** The page's segments are spliced in, and the rows of the segments they replace go. */
    method SpliceRows(added: seq<Entry>) returns (ghost used: nat)
      requires Distinct(added + entries) && Shapes(segments) == Reference(entries) && RowsHold() && added != []
      modifies this`entries, this`segments, this`nextSid, this`domBySeg, this`dom
      ensures entries == added + old(entries) && Shapes(segments) == Reference(entries) && RowsHold() && segments != []
      ensures used <= 2 && used <= |old(segments)| <= |segments|
      ensures segments[|segments| - (|old(segments)| - used)..] == old(segments)[used..]
      ensures PagedSegments(old(segments), segments, used)
      ensures forall s :: s in domBySeg <==> s in old(domBySeg) && s in Sids(segments)
      ensures forall s :: s in domBySeg ==> domBySeg[s] == old(domBySeg)[s]
    {
      hide Reference, RowsMatch, RowsCurrent, Distinct, Unique, Sids, PagedSegments;
      ghost var (store, had) := (entries, segments);
      RowsUnique(Sids(segments), domBySeg, dom, nextNode);
      entries := added + entries;
      used := SplicePage(added, store);
      SomeSegment(entries);
      PageSids(had, segments, used, old(nextSid));
      DropDead(had, used, old(nextSid));
    }

    /** What a page in front does to an exact window and to its rows. */
    lemma PageJudged(had: seq<Segment>, table: map<nat, nat>, used: nat, was: nat, layout: Layout, wasExact: bool,
                     wasClean: bool)
      requires RowsMatch(Sids(segments), domBySeg, dom, nextNode) && Unique(Sids(had)) && Unique(Sids(segments))
      requires segments != [] && PagedSegments(had, segments, used) && drift == was + |segments| - |had|
      requires forall s :: s in domBySeg <==> s in table && s in Sids(segments)
      requires forall s :: s in domBySeg ==> domBySeg[s] == table[s]
      requires window.Some? ==> Within(Sids(had), table, window.value, was)
      requires wasExact <==> window.Some? && Covered(Sids(had), table, window.value)
      requires wasClean <==> wasExact && window.value.end < |had|
                             && RowsFit(had, table, cachedSig, built, window.value, layout.sig)
      ensures window.Some? ==> Within(Sids(segments), domBySeg, window.value, drift)
      ensures var stays := |segments| == |had| && window.Some? && used <= window.value.start;
              && (Exact() <==> wasExact && stays) && (Clean(layout) <==> wasClean && stays)
    {
      hide Unique, Covered, Sids, Within, RowsFit, RowsMatch, Exact, Paged;
      ExactIsCovered();
      CleanMeans(layout);
      if window.Some? {
        CoveredShifts(Sids(had), Sids(segments), table, domBySeg, window.value, was, used);
        if Exact() {
          ExactRows();
          FitsPaged(had, segments, table, domBySeg, cachedSig, built, window.value, layout.sig, used);
        }
      }
    }

    lemma ExactRows()
      requires RowsMatch(Sids(segments), domBySeg, dom, nextNode) && Exact() && segments != []
      ensures window.value.start <= window.value.end < |segments|
      ensures forall i :: window.value.start <= i <= window.value.end ==> segments[i].sid in domBySeg
    {
      ExactIsCovered();
      hide Exact;
      AllShown(segments, domBySeg, window.value);
    }

    /** Removes the rows of the segments the splice replaced. */
    method DropDead(ghost had: seq<Segment>, ghost used: nat, ghost lo: nat)
      requires RowsMatch(Sids(had), domBySeg, dom, nextNode) && RowsCurrent(had, domBySeg, cachedSig, built)
      requires Unique(Sids(segments)) && used <= |had| <= |segments|
               && segments[|segments| - (|had| - used)..] == had[used..]
      requires forall i :: 0 <= i < |had| ==> had[i].sid < lo
      requires forall i :: 0 <= i < |segments| - (|had| - used) ==> segments[i].sid >= lo
      modifies this`domBySeg, this`dom
      ensures RowsMatch(Sids(segments), domBySeg, dom, nextNode) && RowsCurrent(segments, domBySeg, cachedSig, built)
      ensures forall s :: s in domBySeg <==> s in old(domBySeg) && s in Sids(segments)
      ensures forall s :: s in domBySeg ==> domBySeg[s] == old(domBySeg)[s]
    {
      hide Rows, Unique, Injective, Sids;
      var live := Sids(segments);
      var dead := set s | s in domBySeg && s !in live;
      DropRows(dead, Sids(had));
      RowsCarryOver(had, segments, used, lo, domBySeg, cachedSig, built);
    }

    method EvictOutside(range: Range)
      requires RowsMatch(Sids(segments), domBySeg, dom, nextNode) && RowsCurrent(segments, domBySeg, cachedSig, built)
      requires range.ValidFor(|segments|)
      modifies this`domBySeg, this`dom
      ensures RowsMatch(Sids(segments), domBySeg, dom, nextNode) && RowsCurrent(segments, domBySeg, cachedSig, built)
      ensures forall s :: s in domBySeg <==> s in old(domBySeg) && s in Sids(segments)[range.start..range.end + 1]
      ensures forall s :: s in domBySeg ==> domBySeg[s] == old(domBySeg)[s]
    {
      var shown := Sids(segments)[range.start..range.end + 1];
      var evicted := set s | s in domBySeg && s !in shown;
      DropRows(evicted, Sids(segments));
    }
  }

  /** An engine with one open message, shown. */
  method MountedOnce(shown: Layout) returns (engine: TurnEngine)
    requires shown.clientHeight != 0.0
    ensures fresh(engine) && engine.Valid() && engine.view.Everything? && engine.Exact() && engine.segments != []
    ensures engine.window == Some(Range(0, 0)) && Derivation.Settled(Spans(engine.entries)) == []
  {
    hide Reference, Derivation.Settled, Spans, RowsMatch, RowsCurrent, Distinct, Heights, MessageKey, Keys,
         TurnEngine.AllCurrent, TurnEngine.SpacersFit, Listed, TurnEngine.WindowChosen;
    engine := new TurnEngine("s", Everything);
    var first := engine.Mount([Message("1", User, "hello")], shown);
    ghost var e := engine.entries[0];
    assert engine.entries == [e] && !Closes(e);
    OneOpen(e);
  }

  /**
   The window claim fails for one family of frames: the store changed while the list was hidden, and
   the first frame after is a scroll frame the hysteresis band skips. Here a turn closes behind a
   hidden list, and its segment is in the window but has no row.
   */
  method StaleWindow() returns (engine: TurnEngine, outcome: Outcome)
    ensures engine.Valid() && outcome == Skipped && !engine.Exact()
  {
    hide Reference, Derivation.Settled, Spans, Sum, Heights, TurnEngine.AllCurrent, TurnEngine.SpacersFit,
         TurnEngine.AnchorShown, TurnEngine.Exact, TurnEngine.WindowChosen;
    hide TurnEngine.StoreValid, RowsMatch, RowsCurrent;
    var tall := (sid: nat) => 1000.0;
    var shown := Layout(100.0, 400.0, false, None, tall, tall, (sid: nat) => 0);
    engine := MountedOnce(shown);
    var closed := engine.AppendMessage(Message("2", Separator, ""), shown.(clientHeight := 0.0));
    FirstTall(engine.segments, tall);
    outcome := engine.Reproject(OnScroll, shown);
  }

  /**
   The rows can be the window's and still not show what their segments hold: the shown tail grows behind a
   hidden list, and the next frame is again one the band skips.
   */
  method StaleRow() returns (engine: TurnEngine, shown: Layout, outcome: Outcome)
    ensures engine.Valid() && outcome == Skipped && engine.Exact() && !engine.Clean(shown)
  {
    hide Reference, Derivation.Settled, Spans, Sum, Heights, RowsFit, TurnEngine.SpacersFit,
         TurnEngine.AnchorShown, TurnEngine.Exact, TurnEngine.WindowChosen, NodesKept;
    hide TurnEngine.StoreValid, RowsMatch, RowsCurrent, Within;
    var tall := (sid: nat) => 1000.0;
    shown := Layout(100.0, 400.0, false, None, tall, tall, (sid: nat) => 0);
    engine := MountedOnce(shown);
    var closed := engine.AppendMessage(Message("2", User, "more"), shown.(clientHeight := 0.0));
    engine.WindowEnds();
    FirstTall(engine.segments, tall);
    outcome := engine.Reproject(OnScroll, shown);
  }
}
