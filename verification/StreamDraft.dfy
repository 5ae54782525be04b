/**
 The streamed draft (stream-draft.js, websocket-handlers.js): the page accumulates a draft from
 frames that carry only new text, and a committed message takes the accumulated text over.
 */
module StreamDraft {
  import opened Common

  /** Text as UTF-16 code units, the unit the frame lengths count. */
  type Text = seq<nat>

  /** `String.prototype.slice` with two arguments: negative positions count from the end. */
  function Slice(s: Text, from: int, to: int): Text {
    var a := if from < 0 then Max(|s| + from, 0) else Min(from, |s|);
    var b := if to < 0 then Max(|s| + to, 0) else Min(to, |s|);
    if a < b then s[a..b] else []
  }

  /** `extendedStreamText`: the text a frame extends; `end` is missing when the frame carries no length. */
  function ExtendedStreamText(held: Text, append: Text, end: Option<int>): Text {
    if append == [] then held
    else if end.None? then held + append
    else
      var start := end.value - |append|;
      var overlap := Min(|held|, end.value) - start;
      if overlap <= 0 then held + append
      else if Slice(held, start, start + overlap) != Slice(append, 0, overlap) then append
      else if |held| > end.value then held
      else held + Slice(append, overlap, |append|)
  }

  lemma SliceInside(s: Text, a: nat, b: nat)
    requires a <= b <= |s|
    ensures Slice(s, a, b) == s[a..b]
  {
  }

  /** A frame that starts inside the held text: the overlap matches and only the rest is added. */
  lemma FrameInReach(draft: Text, held: nat, s: nat, e: nat)
    requires s <= held <= |draft| && s < e <= |draft|
    ensures ExtendedStreamText(draft[..held], draft[s..e], Some(e)) == draft[..Max(held, e)]
  {
    hide Slice;
    var (have, append, overlap) := (draft[..held], draft[s..e], Min(held, e) - s);
    if overlap > 0 {
      SliceInside(have, s, s + overlap);
      SliceInside(append, 0, overlap);
      assert have[s..s + overlap] == append[0..overlap];
    }
    SliceInside(append, overlap, |append|);
    if held <= e {
      assert have + append[overlap..] == draft[..e];
      assert append[overlap..|append|] == append[overlap..];
    }
  }

  /**
   A frame of the draft the page holds part of: the page ends up holding the draft up to the larger
   end exactly when the frame does not start past what it holds.
   */
  lemma FrameExtends(draft: Text, held: nat, s: nat, e: nat)
    requires held <= |draft| && s <= e <= |draft|
    ensures ExtendedStreamText(draft[..held], draft[s..e], Some(e)) == draft[..Max(held, e)] <==> s <= held
  {
    hide Slice;
    var r := ExtendedStreamText(draft[..held], draft[s..e], Some(e));
    assert |draft[..Max(held, e)]| == Max(held, e);
    if s < e && s <= held {
      FrameInReach(draft, held, s, e);
    } else if s < e {
      assert |r| == held + (e - s) < e;
    }
  }

  /**
   A frame from zero that does not match the held text replaces it: the first one of another draft, or one
   that mends what a snapshot of another draft left.
   */
  lemma OtherDraftReplaces(held: Text, append: Text)
    requires held != [] && append != []
    requires var n := Min(|held|, |append|); held[..n] != append[..n]
    ensures ExtendedStreamText(held, append, Some(|append|)) == append
  {
    var n := Min(|held|, |append|);
    assert Slice(held, 0, n) == held[..n] && Slice(append, 0, n) == append[..n];
  }

  // ---- one draft, any deliveries ----------------------------------------------------------------------

  /** What can reach the page of one draft: a frame, a snapshot, or a catch-up frame with the whole draft. */
  datatype Delivery = Piece(s: nat, e: nat) | Snapshot(n: nat) | Whole(n: nat)

  function Receive(draft: Text, held: Text, d: Delivery): Text
    requires Fits(draft, d)
  {
    match d
    case Piece(s, e) => ExtendedStreamText(held, draft[s..e], Some(e))
    case Snapshot(n) => ExtendedStreamText(held, draft[..n], Some(n))
    case Whole(n) => ExtendedStreamText([], draft[..n], Some(n))
  }

  predicate Fits(draft: Text, d: Delivery) {
    match d
    case Piece(s, e) => s <= e <= |draft|
    case Snapshot(n) => n <= |draft|
    case Whole(n) => n <= |draft|
  }

  function EndAfter(held: nat, d: Delivery): nat {
    match d
    case Piece(s, e) => Max(held, e)
    case Snapshot(n) => Max(held, n)
    case Whole(n) => n
  }

  /** No delivery starts past the end held when it arrives. */
  predicate NoGap(draft: Text, held: nat, ds: seq<Delivery>)
    decreases |ds|
  {
    ds == [] || (Fits(draft, ds[0]) && (ds[0].Piece? ==> ds[0].s <= held)
        && NoGap(draft, EndAfter(held, ds[0]), ds[1..]))
  }

  function ReceiveAll(draft: Text, held: Text, ds: seq<Delivery>): Text
    requires forall i :: 0 <= i < |ds| ==> Fits(draft, ds[i])
    decreases |ds|
  {
    if ds == [] then held else ReceiveAll(draft, Receive(draft, held, ds[0]), ds[1..])
  }

  function EndAfterAll(held: nat, ds: seq<Delivery>): nat
    decreases |ds|
  {
    if ds == [] then held else EndAfterAll(EndAfter(held, ds[0]), ds[1..])
  }

  /** Frames, repeats and snapshots in any order leave exactly the draft up to the end they reach. */
  lemma {:induction false} DeliveriesHold(draft: Text, held: nat, ds: seq<Delivery>)
    requires held <= |draft| && NoGap(draft, held, ds)
    ensures forall i :: 0 <= i < |ds| ==> Fits(draft, ds[i])
    ensures EndAfterAll(held, ds) <= |draft|
    ensures ReceiveAll(draft, draft[..held], ds) == draft[..EndAfterAll(held, ds)]
    decreases |ds|
  {
    if ds != [] {
      var next := EndAfter(held, ds[0]);
      match ds[0] {
        case Piece(s, e) => FrameExtends(draft, held, s, e);
        case Snapshot(n) =>
          assert draft[0..n] == draft[..n];
          FrameExtends(draft, held, 0, n);
        case Whole(n) =>
          assert draft[0..n] == draft[..n] && draft[..0] == [];
          FrameExtends(draft, 0, 0, n);
      }
      DeliveriesHold(draft, next, ds[1..]);
      assert forall i :: 1 <= i < |ds| ==> ds[i] == ds[1..][i - 1];
    }
  }

  lemma {:induction false} LargestEnd(held: nat, ds: seq<Delivery>)
    requires forall i :: 0 <= i < |ds| ==> !ds[i].Whole?
    ensures EndAfterAll(held, ds) >= held
    ensures forall i :: 0 <= i < |ds| ==> (if ds[i].Piece? then ds[i].e else ds[i].n) <= EndAfterAll(held, ds)
    ensures EndAfterAll(held, ds) == held
            || exists i :: 0 <= i < |ds| && EndAfterAll(held, ds) == if ds[i].Piece? then ds[i].e else ds[i].n
    decreases |ds|
  {
    if ds != [] {
      var next := EndAfter(held, ds[0]);
      LargestEnd(next, ds[1..]);
      assert forall i :: 1 <= i < |ds| ==> ds[i] == ds[1..][i - 1];
      var last := EndAfterAll(held, ds);
      if last != held && last != next {
        var i :| 0 <= i < |ds[1..]| && last == if ds[1..][i].Piece? then ds[1..][i].e else ds[1..][i].n;
        assert ds[i + 1] == ds[1..][i];
      } else if last != held {
        assert last == if ds[0].Piece? then ds[0].e else ds[0].n;
      }
    }
  }

  // ---- the page ---------------------------------------------------------------------------------------

  type Tools = Option<seq<nat>>
  datatype Frame = Frame(reset: bool, append: Text, length: Option<int>,
                         thinkingAppend: Text, thinkingLength: Option<int>, tools: Tools)
  datatype Draft = Draft(content: Text, thinking: Text, tools: Tools)
  const EMPTY_DRAFT := Draft([], [], None)

  datatype Role = User | Assistant | Plan | OtherRole
  datatype Message = Message(id: Option<nat>, role: Role, request: Option<nat>, streamed: bool,
                             content: Text, thinking: Text, tools: Tools)
  datatype Key = Key(role: Role, id: nat, content: Text)

  /** The identity the engine records of a message; one without an id has none. */
  function KeyOf(m: Message): Option<Key> {
    if m.id.None? then None else Some(Key(m.role, m.id.value, m.content))
  }

  /** `streamDraftFingerprint`, with `json` for the text of the tool rows. */
  function Fingerprint(d: Draft, json: Tools -> Text): Text { d.content + [0] + d.thinking + [0] + json(d.tools) }

  /** What `JSON.stringify` promises: different rows have different texts, and a NUL is always escaped. */
  ghost predicate Clear(json: Tools -> Text) {
    (forall t :: 0 !in json(t)) && forall t, u :: json(t) == json(u) ==> t == u
  }

  /** Around a zero with none behind it there is one way to cut. */
  lemma LastZero(a: Text, b: Text, x: Text, y: Text)
    requires a + [0] + b == x + [0] + y && 0 !in b && 0 !in y
    ensures a == x && b == y
  {
    var (left, right) := (a + [0] + b, x + [0] + y);
    assert left[|a|] == 0 && right[|x|] == 0;
    assert forall i :: |a| < i < |left| ==> left[i] == b[i - |a| - 1] != 0;
    assert forall i :: |x| < i < |right| ==> right[i] == y[i - |x| - 1] != 0;
    assert |a| == |x|;
    assert left[..|a|] == a && right[..|x|] == x;
    assert left[|a| + 1..] == b && right[|x| + 1..] == y;
  }

  function Joined(d: Draft): Text { d.content + [0] + d.thinking }

  /** Fingerprints agree if and only if the tool rows do and the two texts join to the same one. */
  lemma FingerprintTells(a: Draft, b: Draft, json: Tools -> Text)
    requires Clear(json)
    ensures Fingerprint(a, json) == Fingerprint(b, json) <==> a.tools == b.tools && Joined(a) == Joined(b)
  {
    if Fingerprint(a, json) == Fingerprint(b, json) {
      LastZero(Joined(a), json(a.tools), Joined(b), json(b.tools));
    }
  }

  /** A joined text without a further zero comes from one pair of texts. */
  lemma OneJoin(a: Draft, b: Draft)
    requires 0 !in a.content + a.thinking && Joined(a) == Joined(b)
    ensures a.content == b.content && a.thinking == b.thinking
  {
    var (left, right) := (Joined(a), Joined(b));
    assert right[|b.content|] == 0;
    assert forall i :: 0 <= i < |left| && i != |a.content| ==> left[i] in a.content + a.thinking;
    assert |a.content| == |b.content|;
    assert left[..|a.content|] == a.content && right[..|b.content|] == b.content;
    assert left[|a.content| + 1..] == a.thinking && right[|b.content| + 1..] == b.thinking;
  }

  /** A NUL in a text can pass for the joint: the same joined text comes from another pair. */
  lemma OtherJoin(a: Draft) returns (b: Draft)
    requires 0 in a.content + a.thinking
    ensures b != a && b.tools == a.tools && Joined(b) == Joined(a)
  {
    if 0 in a.content {
      var i :| 0 <= i < |a.content| && a.content[i] == 0;
      var (p, q) := (a.content[..i], a.content[i + 1..]);
      b := Draft(p, q + [0] + a.thinking, a.tools);
      assert a.content == p + [0] + q;
      assert |b.content| < |a.content|;
    } else {
      var i :| 0 <= i < |a.thinking| && a.thinking[i] == 0;
      var (p, q) := (a.thinking[..i], a.thinking[i + 1..]);
      b := Draft(a.content + [0] + p, q, a.tools);
      assert a.thinking == p + [0] + q;
      assert |b.content| > |a.content|;
    }
  }

  /** The draft a frame leaves: extended, from empty when it resets. */
  function FrameApplied(d: Draft, f: Frame): Draft {
    var base := if f.reset then EMPTY_DRAFT else d;
    Draft(ExtendedStreamText(base.content, f.append, f.length),
          ExtendedStreamText(base.thinking, f.thinkingAppend, f.thinkingLength),
          if f.tools.Some? then f.tools else base.tools)
  }

  /**
   What one channel of a frame does to the text held of it: a part of the held draft leaves the draft up to the
   larger end exactly when it does not start past what is held; one from zero that differs replaces; none
   at all, or one without a length, adds what it has.
   */
  ghost predicate Grows(held: Text, append: Text, end: Option<int>, now: Text) {
    && (append == [] ==> now == held) && (end.None? ==> now == held + append)
    && (forall d: Text, s: nat, e: nat :: held <= d && s <= e <= |d| && append == d[s..e] && end == Some(e) ==>
          (now == d[..Max(|held|, e)] <==> s <= |held|))
    && ((held != [] && append != [] && end == Some(|append|)
         && held[..Min(|held|, |append|)] != append[..Min(|held|, |append|)]) ==> now == append)
  }

  lemma ExtendedGrows(held: Text, append: Text, end: Option<int>)
    ensures Grows(held, append, end, ExtendedStreamText(held, append, end))
  {
    var now := ExtendedStreamText(held, append, end);
    assert held + [] == held;
    forall d: Text, s: nat, e: nat | held <= d && s <= e <= |d| && append == d[s..e] && end == Some(e)
      ensures now == d[..Max(|held|, e)] <==> s <= |held|
    {
      assert held == d[..|held|];
      FrameExtends(d, |held|, s, e);
    }
    if held != [] && append != [] && end == Some(|append|)
       && held[..Min(|held|, |append|)] != append[..Min(|held|, |append|)] {
      OtherDraftReplaces(held, append);
    }
  }

  /** The catch-up frame of a draft leaves that draft, whatever the page held. */
  lemma CatchUp(d: Draft, b: Draft) returns (f: Frame)
    ensures FrameApplied(d, f) == b
  {
    f := Frame(true, b.content, Some(|b.content|), b.thinking, Some(|b.thinking|), b.tools);
  }

  /** Every frame that changes the held draft is reported as a change if and only if the draft holds no NUL. */
  lemma ChangesAreSeen(a: Draft, json: Tools -> Text)
    requires Clear(json)
    ensures (forall f: Frame :: FrameApplied(a, f) != a ==>
            Fingerprint(FrameApplied(a, f), json) != Fingerprint(a, json))
            <==> 0 !in a.content + a.thinking
  {
    hide Clear, FrameApplied, Fingerprint, Joined;
    if 0 !in a.content + a.thinking {
      forall f: Frame | Fingerprint(FrameApplied(a, f), json) == Fingerprint(a, json)
        ensures FrameApplied(a, f) == a
      {
        FingerprintTells(FrameApplied(a, f), a, json);
        OneJoin(a, FrameApplied(a, f));
      }
    } else {
      var b := OtherJoin(a);
      FingerprintTells(b, a, json);
      var f := CatchUp(a, b);
      assert FrameApplied(a, f) == b;
    }
  }

  datatype Landing = Echo | Known | Committed

  /** The module's `streamDraft`, the request ids whose echoes are due, and the messages of the page. */
  class Page {
    const json: Tools -> Text
    var draft: Draft
    var pending: set<nat>
    var records: set<Key>
    var committed: seq<Message>

    constructor (json: Tools -> Text)
      ensures draft == EMPTY_DRAFT && committed == [] && records == {} && this.json == json
    {
      this.json := json;
      draft, pending, records, committed := EMPTY_DRAFT, {}, {}, [];
    }

    /** Whatever was held, the next draft's text is then taken as it comes. */
    method ResetStreamDraft()
      modifies this`draft
      ensures draft == EMPTY_DRAFT
      ensures forall next: Text :: ExtendedStreamText(draft.content, next, Some(|next|)) == next
    {
      draft := EMPTY_DRAFT;
    }

    /**
     `seedStreamDraft`. Of one draft the page ends up with the longer of what it held and what the snapshot
     has; the tool rows are the snapshot's.
     */
    method SeedStreamDraft(whole: Option<Draft>)
      modifies this`draft
      ensures var w := if whole.Some? then whole.value else EMPTY_DRAFT;
              && draft.content == ExtendedStreamText(old(draft.content), w.content, Some(|w.content|))
              && draft.thinking == ExtendedStreamText(old(draft.thinking), w.thinking, Some(|w.thinking|))
              && draft.tools == w.tools
              && (forall d: Text :: old(draft.content) <= d && w.content <= d ==>
                    draft.content == d[..Max(|old(draft.content)|, |w.content|)])
    {
      var content := if whole.Some? then whole.value.content else [];
      var thinking := if whole.Some? then whole.value.thinking else [];
      forall d: Text | draft.content <= d && content <= d
        ensures ExtendedStreamText(draft.content, content, Some(|content|)) == d[..Max(|draft.content|, |content|)]
      {
        SnapshotExtends(d, draft.content, content);
      }
      hide ExtendedStreamText;
      draft := Draft(ExtendedStreamText(draft.content, content, Some(|content|)),
                     ExtendedStreamText(draft.thinking, thinking, Some(|thinking|)),
                     if whole.Some? then whole.value.tools else None);
    }

    method ApplyStreamFrame(f: Frame) returns (changed: bool)
      modifies this`draft
      ensures draft == FrameApplied(old(draft), f)
      ensures var base := if f.reset then EMPTY_DRAFT else old(draft);
              && Grows(base.content, f.append, f.length, draft.content)
              && Grows(base.thinking, f.thinkingAppend, f.thinkingLength, draft.thinking)
              && draft.tools == if f.tools.Some? then f.tools else base.tools
      ensures Clear(json) && 0 !in old(draft).content + old(draft).thinking ==> (changed <==> draft != old(draft))
      ensures changed <==> Fingerprint(draft, json) != Fingerprint(old(draft), json)
    {
      ghost var base := if f.reset then EMPTY_DRAFT else draft;
      ExtendedGrows(base.content, f.append, f.length);
      ExtendedGrows(base.thinking, f.thinkingAppend, f.thinkingLength);
      hide ExtendedStreamText, Fingerprint, Clear, Grows;
      if Clear(json) && 0 !in draft.content + draft.thinking {
        ChangesAreSeen(draft, json);
      }
      var before := Fingerprint(draft, json);
      if f.reset {
        ResetStreamDraft();
      }
      draft := draft.(content := ExtendedStreamText(draft.content, f.append, f.length));
      draft := draft.(thinking := ExtendedStreamText(draft.thinking, f.thinkingAppend, f.thinkingLength));
      if f.tools.Some? {
        draft := draft.(tools := f.tools);
      }
      changed := before != Fingerprint(draft, json);
    }

    /**
     `_commitMessage`: the echo of an optimistic send and a message already on the page change nothing but
     the record of the former; any other message lands, a streamed one with the held draft.
     */
    method CommitMessage(msg: Message) returns (landing: Landing)
      modifies this
      ensures landing == Echo <==> msg.role.User? && msg.request.Some? && msg.request.value in old(pending)
      ensures landing == Known <==> landing != Echo && KeyOf(msg).Some? && KeyOf(msg).value in old(records)
      ensures landing != Committed ==> committed == old(committed) && draft == old(draft)
      ensures pending == if landing == Echo then old(pending) - {msg.request.value} else old(pending)
      ensures landing == Known ==> records == old(records)
      ensures landing == Echo ==>
        var sent := Key(msg.role, msg.request.value, msg.content);
        records == if KeyOf(msg).Some? && sent in old(records)
                   then old(records) - {sent} + {KeyOf(msg).value} else old(records)
      ensures landing == Committed ==>
        var m := if !msg.streamed then msg
                 else msg.(content := old(draft).content, thinking := old(draft).thinking,
                           tools := if old(draft).tools.Some? then old(draft).tools else msg.tools);
        && committed == old(committed) + [m]
        && draft == (if msg.role.Assistant? || msg.role.Plan? then EMPTY_DRAFT else old(draft))
        && records == old(records) + (if KeyOf(m).Some? then {KeyOf(m).value} else {})
    {
      if msg.role.User? && msg.request.Some? && msg.request.value in pending {
        pending := pending - {msg.request.value};
        var previous := Key(msg.role, msg.request.value, msg.content);
        if KeyOf(msg).Some? && previous in records {
          records := records - {previous} + {KeyOf(msg).value};
        }
        return Echo;
      }
      if KeyOf(msg).Some? && KeyOf(msg).value in records {
        return Known;
      }
      var m := msg;
      if m.streamed {
        m := m.(content := draft.content, thinking := draft.thinking);
        if draft.tools.Some? {
          m := m.(tools := draft.tools);
        }
      }
      if m.role.Assistant? || m.role.Plan? {
        ResetStreamDraft();
      }
      committed := committed + [m];
      records := records + (if KeyOf(m).Some? then {KeyOf(m).value} else {});
      landing := Committed;
    }
  }

  /**
   A page that holds a NUL as its thinking takes a catch-up frame with the NUL as its content: the draft
   changes, and the frame reports no change.
   */
  method ChangeGoesUnseen(json: Tools -> Text) returns (page: Page, ghost held: Draft, changed: bool)
    ensures held == Draft([], [0], None) && page.draft == Draft([0], [], None) && !changed
  {
    page := new Page(json);
    var _ := page.ApplyStreamFrame(Frame(false, [], None, [0], Some(1), None));
    held := page.draft;
    changed := page.ApplyStreamFrame(Frame(true, [0], Some(1), [], None, None));
    assert [0] + [0] + [] + [0] + json(None) == [] + [0] + [0] + [0] + json(None);
  }

  /** A snapshot of the draft the page holds part of leaves the longer of the two. */
  lemma SnapshotExtends(d: Text, held: Text, snapshot: Text)
    requires held <= d && snapshot <= d
    ensures ExtendedStreamText(held, snapshot, Some(|snapshot|)) == d[..Max(|held|, |snapshot|)]
  {
    hide ExtendedStreamText;
    assert held == d[..|held|] && snapshot == d[0..|snapshot|];
    FrameExtends(d, |held|, 0, |snapshot|);
  }

  // ---- server, wire and page together -------------------------------------------------------------------

  /** What travels in order to the page: a frame, a commit without its text, a replayed commit with it. */
  datatype Packet = Stream(append: Text, end: nat) | Reset(whole: Text) | Streamed | Full(text: Text)

  /** The server's closed drafts and open draft, the packets in flight, and what the page holds and committed. */
  datatype World = World(closed: seq<Text>, draft: Text, wire: seq<Packet>, held: Text, committed: seq<Text>)

  datatype Action =
    | Extend(text: Text)        // the model adds text; the frame carries only the new part
    | Repeat(s: nat, e: nat)    // part of the open draft is sent again
    | Close                     // the draft commits without its text, and the next one starts at zero
    | Reconnect                 // packets in flight are lost, replayed commits and one whole-draft frame follow
    | Poll(n: nat)              // a snapshot of the draft the page is on reaches it beside the socket
    | Deliver                   // the page handles the oldest packet

  predicate IsCommit(p: Packet) { p.Streamed? || p.Full? }

  function DraftAt(closed: seq<Text>, draft: Text, k: nat): Text { if k < |closed| then closed[k] else draft }

  /** The draft the page is on: the first one it has not seen committed. */
  function Current(w: World): Text { DraftAt(w.closed, w.draft, |w.committed|) }

  predicate Enabled(w: World, a: Action) {
    match a
    case Repeat(s, e) => s <= e <= |w.draft|
    case Poll(n) => n <= |Current(w)|
    case Deliver => w.wire != []
    case _ => true
  }

  /** The commits among lost packets come back with the text of the draft they closed. */
  function Replayed(wire: seq<Packet>, closed: seq<Text>, k: nat): seq<Packet> {
    if wire == [] then []
    else if IsCommit(wire[0]) then (if k < |closed| then [Full(closed[k])] else []) + Replayed(wire[1..], closed, k + 1)
    else Replayed(wire[1..], closed, k)
  }

  /** The catch-up frame: the whole open draft, if there is one. */
  function Resent(draft: Text): seq<Packet> { if draft == [] then [] else [Reset(draft)] }

  function Handle(w: World, p: Packet): World {
    match p
    case Stream(append, end) => w.(held := ExtendedStreamText(w.held, append, Some(end)))
    case Reset(whole) => w.(held := ExtendedStreamText([], whole, Some(|whole|)))
    case Streamed => w.(committed := w.committed + [w.held], held := [])
    case Full(text) => w.(committed := w.committed + [text], held := [])
  }

  /** A snapshot reaches the page. */
  function Polled(w: World, snapshot: Text): World {
    w.(held := ExtendedStreamText(w.held, snapshot, Some(|snapshot|)))
  }

  function Act(w: World, a: Action): World
    requires Enabled(w, a)
  {
    match a
    case Extend(text) =>
      w.(draft := w.draft + text, wire := w.wire + [Stream(text, |w.draft| + |text|)])
    case Repeat(s, e) => w.(wire := w.wire + [Stream(w.draft[s..e], e)])
    case Close => w.(closed := w.closed + [w.draft], draft := [], wire := w.wire + [Streamed])
    case Reconnect =>
      w.(wire := Replayed(w.wire, w.closed, |w.committed|) + Resent(w.draft))
    case Poll(n) => Polled(w, Current(w)[..n])
    case Deliver => Handle(w.(wire := w.wire[1..]), w.wire[0])
  }

  /**
   The packets in flight tell the page, which holds the first `h` units of draft `k`, the rest of that
   draft and of every later one, without a gap, and each commit comes when its draft is complete.
   */
  ghost predicate Tells(wire: seq<Packet>, closed: seq<Text>, draft: Text, k: nat, h: nat)
    decreases |wire|
  {
    var d := DraftAt(closed, draft, k);
    k <= |closed| && h <= |d| &&
    if wire == [] then k == |closed| && h == |d|
    else match wire[0]
      case Stream(append, end) =>
        |append| <= end <= |d| && append == d[end - |append|..end] && end - |append| <= h
        && Tells(wire[1..], closed, draft, k, Max(h, end))
      case Reset(whole) => whole <= d && Tells(wire[1..], closed, draft, k, |whole|)
      case Streamed => k < |closed| && h == |d| && Tells(wire[1..], closed, draft, k + 1, 0)
      case Full(text) => k < |closed| && text == d && Tells(wire[1..], closed, draft, k + 1, 0)
  }

  ghost predicate Inv(w: World) {
    var k := |w.committed|;
    && k <= |w.closed| && w.committed == w.closed[..k]
    && w.held <= DraftAt(w.closed, w.draft, k)
    && Tells(w.wire, w.closed, w.draft, k, |w.held|)
  }

  /** More held text never breaks what is in flight. */
  lemma {:induction false} TellsMore(wire: seq<Packet>, closed: seq<Text>, draft: Text, k: nat, h: nat, h': nat)
    requires Tells(wire, closed, draft, k, h) && h <= h' <= |DraftAt(closed, draft, k)|
    ensures Tells(wire, closed, draft, k, h')
    decreases |wire|
  {
    if wire != [] && wire[0].Stream? {
      TellsMore(wire[1..], closed, draft, k, Max(h, wire[0].end), Max(h', wire[0].end));
    }
  }

  /** The open draft grows by a frame that starts where the last one ended. */
  lemma {:induction false} TellsExtend(wire: seq<Packet>, closed: seq<Text>, draft: Text, k: nat, h: nat, text: Text)
    requires Tells(wire, closed, draft, k, h)
    ensures Tells(wire + [Stream(text, |draft| + |text|)], closed, draft + text, k, h)
    decreases |wire|
  {
    var p := Stream(text, |draft| + |text|);
    if wire == [] {
      assert [p][1..] == [];
      assert (draft + text)[|draft|..|draft| + |text|] == text;
    } else {
      assert (wire + [p])[1..] == wire[1..] + [p];
      var d := DraftAt(closed, draft, k);
      match wire[0] {
        case Stream(append, end) =>
          TellsExtend(wire[1..], closed, draft, k, Max(h, end), text);
          assert (draft + text)[..|draft|] == draft;
          if k >= |closed| {
            assert (draft + text)[end - |append|..end] == draft[end - |append|..end];
          }
        case Reset(whole) => TellsExtend(wire[1..], closed, draft, k, |whole|, text);
        case _ => TellsExtend(wire[1..], closed, draft, k + 1, 0, text);
      }
    }
  }

  lemma {:induction false} TellsRepeat(wire: seq<Packet>, closed: seq<Text>, draft: Text, k: nat, h: nat, s: nat,
      e: nat)
    requires Tells(wire, closed, draft, k, h) && s <= e <= |draft|
    ensures Tells(wire + [Stream(draft[s..e], e)], closed, draft, k, h)
    decreases |wire|
  {
    var p := Stream(draft[s..e], e);
    if wire == [] {
      assert [p][1..] == [];
    } else {
      assert (wire + [p])[1..] == wire[1..] + [p];
      match wire[0] {
        case Stream(append, end) => TellsRepeat(wire[1..], closed, draft, k, Max(h, end), s, e);
        case Reset(whole) => TellsRepeat(wire[1..], closed, draft, k, |whole|, s, e);
        case _ => TellsRepeat(wire[1..], closed, draft, k + 1, 0, s, e);
      }
    }
  }

  lemma {:induction false} TellsClose(wire: seq<Packet>, closed: seq<Text>, draft: Text, k: nat, h: nat)
    requires Tells(wire, closed, draft, k, h)
    ensures Tells(wire + [Streamed], closed + [draft], [], k, h)
    decreases |wire|
  {
    assert DraftAt(closed + [draft], [], k) == DraftAt(closed, draft, k);
    if wire == [] {
      assert [Streamed][1..] == [];
    } else {
      assert (wire + [Streamed])[1..] == wire[1..] + [Streamed];
      match wire[0] {
        case Stream(append, end) => TellsClose(wire[1..], closed, draft, k, Max(h, end));
        case Reset(whole) => TellsClose(wire[1..], closed, draft, k, |whole|);
        case _ => TellsClose(wire[1..], closed, draft, k + 1, 0);
      }
    }
  }

  /** After a reconnect the replay and the whole-draft frame tell everything the lost packets did. */
  lemma {:induction false} TellsReplay(wire: seq<Packet>, closed: seq<Text>, draft: Text, k: nat, h: nat, h': nat)
    requires Tells(wire, closed, draft, k, h) && h' <= |DraftAt(closed, draft, k)|
    ensures Tells(Replayed(wire, closed, k) + Resent(draft), closed, draft, k, h')
    decreases |wire|
  {
    hide Resent;
    if wire == [] {
      assert Replayed(wire, closed, k) + Resent(draft) == Resent(draft);
      TellsResent(closed, draft, h');
    } else {
      TellsTail(wire, closed, draft, k, h);
      ReplayedNext(wire, closed, k, Resent(draft));
      hide Tells, HeldAfter, Replayed;
      if IsCommit(wire[0]) {
        TellsReplay(wire[1..], closed, draft, k + 1, HeldAfter(wire[0], h), 0);
        TellsFull(Replayed(wire[1..], closed, k + 1) + Resent(draft), closed, draft, k, h');
      } else {
        TellsReplay(wire[1..], closed, draft, k, HeldAfter(wire[0], h), h');
      }
    }
  }

  lemma ReplayedNext(wire: seq<Packet>, closed: seq<Text>, k: nat, tail: seq<Packet>)
    requires wire != []
    ensures !IsCommit(wire[0]) ==> Replayed(wire, closed, k) == Replayed(wire[1..], closed, k)
    ensures IsCommit(wire[0]) && k < |closed| ==>
              Replayed(wire, closed, k) + tail == [Full(closed[k])] + (Replayed(wire[1..], closed, k + 1) + tail)
  {
  }

  function HeldAfter(p: Packet, h: nat): nat {
    match p
    case Stream(append, end) => Max(h, end)
    case Reset(whole) => |whole|
    case _ => 0
  }

  lemma TellsTail(wire: seq<Packet>, closed: seq<Text>, draft: Text, k: nat, h: nat)
    requires wire != [] && Tells(wire, closed, draft, k, h)
    ensures IsCommit(wire[0]) ==> k < |closed|
    ensures Tells(wire[1..], closed, draft, if IsCommit(wire[0]) then k + 1 else k, HeldAfter(wire[0], h))
  {
  }

  lemma TellsResent(closed: seq<Text>, draft: Text, h: nat)
    requires h <= |draft|
    ensures Tells(Resent(draft), closed, draft, |closed|, h)
  {
    if draft != [] {
      assert Resent(draft)[1..] == [];
    }
  }

  lemma TellsFull(rest: seq<Packet>, closed: seq<Text>, draft: Text, k: nat, h: nat)
    requires k < |closed| && h <= |closed[k]| && Tells(rest, closed, draft, k + 1, 0)
    ensures Tells([Full(closed[k])] + rest, closed, draft, k, h)
  {
    assert ([Full(closed[k])] + rest)[1..] == rest;
  }

  lemma DeliverKeepsInv(w: World)
    requires Inv(w) && w.wire != []
    ensures Inv(Act(w, Deliver))
  {
    var (k, h) := (|w.committed|, |w.held|);
    var d := DraftAt(w.closed, w.draft, k);
    hide ExtendedStreamText;
    assert w.held == d[..h];
    match w.wire[0] {
      case Stream(append, end) => FrameExtends(d, h, end - |append|, end);
      case Reset(whole) => SnapshotExtends(d, [], whole);
      case Streamed => assert w.held == w.closed[k];
      case Full(text) =>
    }
  }

  /** Every step keeps the invariant. */
  lemma StepKeepsInv(w: World, a: Action)
    requires Inv(w) && Enabled(w, a)
    ensures Inv(Act(w, a))
  {
    var (k, h) := (|w.committed|, |w.held|);
    match a {
      case Extend(text) =>
        TellsExtend(w.wire, w.closed, w.draft, k, h, text);
        assert w.draft <= w.draft + text;
      case Repeat(s, e) => TellsRepeat(w.wire, w.closed, w.draft, k, h, s, e);
      case Close =>
        TellsClose(w.wire, w.closed, w.draft, k, h);
        assert DraftAt(w.closed + [w.draft], [], k) == DraftAt(w.closed, w.draft, k);
      case Reconnect => TellsReplay(w.wire, w.closed, w.draft, k, h, h);
      case Poll(n) =>
        hide ExtendedStreamText;
        SnapshotExtends(Current(w), w.held, Current(w)[..n]);
        TellsMore(w.wire, w.closed, w.draft, k, h, Max(h, n));
      case Deliver => DeliverKeepsInv(w);
    }
  }

  ghost predicate Reachable(w: World, actions: seq<Action>, last: World)
    decreases |actions|
  {
    if actions == [] then w == last
    else Enabled(w, actions[0]) && Reachable(Act(w, actions[0]), actions[1..], last)
  }

  const START := World([], [], [], [], [])

  /**
   Over every run, each committed message holds exactly the text of the draft it closed: never text of
   an earlier draft, and no part missing.
   */
  lemma {:induction false} CommitsTakeTheirOwnDraft(w: World, actions: seq<Action>, last: World)
    requires Inv(w) && Reachable(w, actions, last)
    ensures Inv(last) && last.committed == last.closed[..|last.committed|]
    decreases |actions|
  {
    if actions != [] {
      StepKeepsInv(w, actions[0]);
      CommitsTakeTheirOwnDraft(Act(w, actions[0]), actions[1..], last);
    }
  }

  lemma StartsInv()
    ensures Inv(START)
  {
    assert START.closed[..0] == [];
  }

  // ---- the page through a run -----------------------------------------------------------------------------

  function Contents(messages: seq<Message>): (r: seq<Text>)
    ensures |r| == |messages|
  {
    seq(|messages|, i requires 0 <= i < |messages| => messages[i].content)
  }

  /** The page holds what the run says: the draft's text and the committed texts, under ids below their number. */
  ghost predicate Shows(page: Page, w: World)
    reads page
  {
    && page.draft.content == w.held && Contents(page.committed) == w.committed
    && (forall k :: k in page.records ==> k.id < |w.committed|)
  }

  /** The page handles one packet as the run does. */
  method HandlePacket(page: Page, p: Packet, ghost w: World)
    requires Shows(page, w)
    modifies page
    ensures Shows(page, Handle(w, p))
  {
    hide ExtendedStreamText;
    var n := |page.committed|;
    ghost var before := page.committed;
    match p {
      case Stream(append, end) =>
        var _ := page.ApplyStreamFrame(Frame(false, append, Some(end), [], None, None));
      case Reset(whole) =>
        var _ := page.ApplyStreamFrame(Frame(true, whole, Some(|whole|), [], None, None));
      case Streamed =>
        var landing := page.CommitMessage(Message(Some(n), Assistant, None, true, [], [], None));
        ContentsSnoc(before, page.committed[n]);
      case Full(text) =>
        var landing := page.CommitMessage(Message(Some(n), Assistant, None, false, text, [], None));
        ContentsSnoc(before, page.committed[n]);
    }
  }

  lemma ContentsSnoc(messages: seq<Message>, m: Message)
    ensures Contents(messages + [m]) == Contents(messages) + [m.content]
  {
  }

  /**
   Any run of the server, the wire and the page's own code: whatever is delivered, repeated, lost and
   polled, every committed message holds exactly the text of the draft it closed, never text of an earlier
   draft and no part missing, and the page holds a part of the draft it is on.
   */
  method Drive(page: Page, start: World, actions: seq<Action>, ghost last: World)
    requires Inv(start) && Shows(page, start) && Reachable(start, actions, last)
    modifies page
    ensures Inv(last) && Shows(page, last)
    ensures Contents(page.committed) == last.closed[..|page.committed|] && page.draft.content <= Current(last)
  {
    hide ExtendedStreamText, Shows, Inv, Tells;
    var w := start;
    assert actions[0..] == actions;
    for i := 0 to |actions|
      invariant Inv(w) && Shows(page, w) && Reachable(w, actions[i..], last)
    {
      assert actions[i..][0] == actions[i] && actions[i..][1..] == actions[i + 1..];
      StepKeepsInv(w, actions[i]);
      Perform(page, w, actions[i]);
      w := Act(w, actions[i]);
    }
    ShowsContents(page, last);
  }

  lemma ShowsContents(page: Page, w: World)
    requires Inv(w) && Shows(page, w)
    ensures Contents(page.committed) == w.closed[..|page.committed|] && page.draft.content <= Current(w)
  {
    hide Tells;
  }

  /** What an action means for the page: a packet to handle, a snapshot to take over, or nothing. */
  method Perform(page: Page, w: World, a: Action)
    requires Shows(page, w) && Enabled(w, a)
    modifies page
    ensures Shows(page, Act(w, a))
  {
    hide ExtendedStreamText;
    match a {
      case Deliver => HandlePacket(page, w.wire[0], w.(wire := w.wire[1..]));
      case Poll(n) => page.SeedStreamDraft(Some(Draft(Current(w)[..n], [], None)));
      case _ =>
    }
  }

  // ---- a snapshot of another draft --------------------------------------------------------------------------

  /** A snapshot replaces what the page holds, unless it is part of it. */
  lemma SnapshotOrPart(held: Text, snapshot: Text)
    ensures ExtendedStreamText(held, snapshot, Some(|snapshot|)) == snapshot || snapshot <= held
  {
    var n := Min(|held|, |snapshot|);
    SliceInside(held, 0, n);
    SliceInside(snapshot, 0, n);
    SliceInside(snapshot, n, |snapshot|);
    hide Slice;
    if held[..n] == snapshot[..n] && |held| <= |snapshot| {
      assert held + snapshot[n..] == snapshot;
    }
  }

  /** A snapshot that is no part of the draft the page is on replaces what the page holds. */
  lemma OtherSnapshotReplaces(d: Text, held: Text, snapshot: Text)
    requires held <= d && !(snapshot <= d)
    ensures ExtendedStreamText(held, snapshot, Some(|snapshot|)) == snapshot
  {
    hide ExtendedStreamText;
    SnapshotOrPart(held, snapshot);
    assert snapshot <= held ==> snapshot <= d;
  }

  /**
   When every frame of a closed draft has arrived and its commit is next, a snapshot that arrives first
   leaves the commit its own text if and only if the snapshot is a prefix of that text.
   */
  lemma OvertakingSnapshot(w: World, snapshot: Text)
    requires Inv(w) && w.wire != [] && w.wire[0].Streamed?
    ensures var k := |w.committed|;
            k < |w.closed| && (Act(Polled(w, snapshot), Deliver).committed == w.closed[..k + 1]
                <==> snapshot <= w.closed[k])
  {
    var (k, d, r) := (|w.committed|, Current(w), Polled(w, snapshot).held);
    assert w.held == d == w.closed[k];
    assert Act(Polled(w, snapshot), Deliver).committed == w.committed + [r];
    if snapshot <= d {
      SnapshotExtends(d, w.held, snapshot);
      assert d[..|d|] == d;
    } else {
      OtherSnapshotReplaces(d, w.held, snapshot);
      assert r == snapshot != d;
    }
    assert r == d <==> snapshot <= d;
    hide ExtendedStreamText, Tells;
    assert w.closed[..k + 1] == w.committed + [d];
    assert (w.committed + [r])[k] == r;
  }

  /** A run in which a snapshot of the next draft overtakes a commit, and the commit takes that draft's text. */
  lemma SnapshotSteals()
    ensures var w := World([[97]], [98], [Streamed, Stream([98], 1)], [97], []);
            && Reachable(START, [Extend([97]), Deliver, Close, Extend([98])], w)
            && var last := Act(Polled(w, [98]), Deliver); last.closed == [[97]] && last.committed == [[98]]
  {
    var w := World([[97]], [98], [Streamed, Stream([98], 1)], [97], []);
    StealingRun(w);
    StartsInv();
    hide Tells, Reachable;
    CommitsTakeTheirOwnDraft(START, [Extend([97]), Deliver, Close, Extend([98])], w);
    assert [98][0] != [97][0];
    OtherSnapshotReplaces([97], [97], [98]);
    hide ExtendedStreamText;
    assert Polled(w, [98]).held == [98] && [] + [[98]] == [[98]];
  }

  lemma StealingRun(w: World)
    requires w == World([[97]], [98], [Streamed, Stream([98], 1)], [97], [])
    ensures Reachable(START, [Extend([97]), Deliver, Close, Extend([98])], w)
  {
    var actions := [Extend([97]), Deliver, Close, Extend([98])];
    var w1 := World([], [97], [Stream([97], 1)], [], []);
    var w2 := World([], [97], [], [97], []);
    var w3 := World([[97]], [], [Streamed], [97], []);
    assert [] + [97] == [97] && [Stream([97], 1)][1..] == [] && [] + [98] == [98]
           && [Streamed] + [Stream([98], 1)] == w.wire;
    assert Act(START, actions[0]) == w1;
    assert Act(w1, Deliver) == w2 && Act(w2, Close) == w3 && Act(w3, Extend([98])) == w;
    hide Act;
    assert actions[1..] == [Deliver, Close, Extend([98])] && actions[1..][1..] == [Close, Extend([98])];
    assert [Close, Extend([98])][1..] == [Extend([98])] && [Extend([98])][1..] == [];
    assert Reachable(w, [], w);
    assert Reachable(w3, [Extend([98])], w);
    assert Reachable(w2, [Close, Extend([98])], w);
    assert Reachable(w1, [Deliver, Close, Extend([98])], w);
  }
}
