/** The synthetic event log (session.rs, generate.rs): turns of random events, cut to an exact size. */
module EventLog {
  import Words

  datatype Kind = Stimulus | Answer | Separator | Filler | Final

  /** One written line and its length in bytes, its newline included. */
  datatype Line = Line(kind: Kind, bytes: nat)

  /** One draw of the random stream: an event, labelled, and the separator that would close a turn before it. */
  datatype Draw = Draw(stimulus: bool, bytes: nat, separator: nat)

  /** The random stream: what the `n`-th draw yields when `room` bytes are left. Every line has at least its newline. */
  type Stream = (nat, int) -> Draw
  ghost predicate Lines(stream: Stream) {
    forall n: nat, room: int :: stream(n, room).bytes >= 1 && stream(n, room).separator >= 1
  }

  const FILLER_THRESHOLD_BYTES: int := 4096

  function Total(lines: seq<Line>): nat {
    if lines == [] then 0 else Total(lines[..|lines| - 1]) + lines[|lines| - 1].bytes
  }

  /** A separator directly follows an answer, and no stimulus does: the turn before it is closed first. */
  ghost predicate TurnsClosed(lines: seq<Line>) {
    && (forall k :: 0 <= k < |lines| && lines[k].kind == Separator ==> k > 0 && lines[k - 1].kind == Answer)
    && (forall k, j :: 0 <= k && j == k + 1 && j < |lines| && lines[j].kind == Stimulus ==> lines[k].kind != Answer)
    && (forall k :: 0 <= k < |lines| ==> lines[k].kind in {Stimulus, Answer, Separator})
  }

  /** The log stops inside a turn: its last line is an answer. */
  ghost predicate TurnOpen(lines: seq<Line>) { lines != [] && lines[|lines| - 1].kind == Answer }

  lemma TotalSnoc(lines: seq<Line>, l: Line)
    ensures Total(lines + [l]) == Total(lines) + l.bytes
  {
    assert (lines + [l])[..|lines|] == lines;
  }

  /** The events among the lines: everything but the separators. */
  function Events(lines: seq<Line>): seq<Line> {
    if lines == [] then []
    else
      var (front, last) := (Events(lines[..|lines| - 1]), lines[|lines| - 1]);
      if last.kind == Separator then front else front + [last]
  }

  function EventOf(draw: Draw): Line { Line(if draw.stimulus then Stimulus else Answer, draw.bytes) }

  /** The events are the first draws of the stream, each taken with the room noted for it, at most one draw unused. */
  ghost predicate Taken(lines: seq<Line>, stream: Stream, rooms: seq<int>) {
    && |Events(lines)| <= |rooms| <= |Events(lines)| + 1
    && forall m :: 0 <= m < |Events(lines)| ==> Events(lines)[m] == EventOf(stream(m, rooms[m]))
  }

  lemma TakenMore(lines: seq<Line>, stream: Stream, rooms: seq<int>, room: int)
    requires Taken(lines, stream, rooms) && |rooms| == |Events(lines)|
    ensures Taken(lines, stream, rooms + [room])
    ensures Taken(lines + [EventOf(stream(|rooms|, room))], stream, rooms + [room])
    ensures |Events(lines + [EventOf(stream(|rooms|, room))])| == |rooms| + 1
  {
    var l := EventOf(stream(|rooms|, room));
    assert (lines + [l])[..|lines|] == lines;
  }

  lemma SeparatorIsNoEvent(lines: seq<Line>, bytes: nat)
    ensures Events(lines + [Line(Separator, bytes)]) == Events(lines)
  {
    assert (lines + [Line(Separator, bytes)])[..|lines|] == lines;
  }

  // ---- which lines a stream makes -------------------------------------------------------------------------

  /** The lines with the turn closed that a drawn stimulus finds open. */
  ghost function ClosedFor(lines: seq<Line>, d: Draw): seq<Line> {
    if d.stimulus && TurnOpen(lines) then lines + [Line(Separator, d.separator)] else lines
  }

  ghost predicate SeparatorFits(lines: seq<Line>, limit: int, d: Draw) {
    d.stimulus && TurnOpen(lines) ==> d.separator <= limit - Total(lines)
  }

  /** The draw made behind `lines`. */
  ghost function DrawAt(lines: seq<Line>, limit: int, stream: Stream, n: nat): Draw { stream(n, limit - Total(lines)) }

  /** Draw `m` was made with room enough, and its event written behind the separator it needs, both within the limit. */
  ghost predicate Writes(lines: seq<Line>, limit: int, stream: Stream, marks: seq<nat>, m: nat)
    requires m + 1 < |marks|
  {
    && marks[m] <= marks[m + 1] <= |lines|
    && var before := lines[..marks[m]];
       var d := DrawAt(before, limit, stream, m);
       && limit - Total(before) >= FILLER_THRESHOLD_BYTES && SeparatorFits(before, limit, d)
       && d.bytes <= limit - Total(ClosedFor(before, d))
       && lines[..marks[m + 1]] == ClosedFor(before, d) + [EventOf(d)]
  }

  /**
   Behind `before` the writing stops, with `after` written and `drawn` draws made: the room is used up, or the
   separator that the next draw needs does not fit, or its event does not fit behind that.
   */
  ghost predicate Stops(before: seq<Line>, after: seq<Line>, limit: int, stream: Stream, n: nat, drawn: nat) {
    var (room, d) := (limit - Total(before), DrawAt(before, limit, stream, n));
    if room < FILLER_THRESHOLD_BYTES then after == before && drawn == n
    else if !SeparatorFits(before, limit, d) then after == before && drawn == n + 1
    else d.bytes > limit - Total(ClosedFor(before, d)) && after == ClosedFor(before, d) && drawn == n + 1
  }

  /** A turn left open is closed if the separator drawn next fits. */
  ghost function Finished(lines: seq<Line>, limit: int, stream: Stream, drawn: nat): seq<Line> {
    var d := DrawAt(lines, limit, stream, drawn);
    if TurnOpen(lines) && d.separator <= limit - Total(lines) then lines + [Line(Separator, d.separator)] else lines
  }

  /** `marks` tells how many lines stand before each draw whose event is written, and behind the last. */
  ghost predicate Marked(lines: seq<Line>, limit: int, stream: Stream, marks: seq<nat>) {
    && marks != [] && marks[0] == 0 && marks[|marks| - 1] <= |lines|
    && forall m: nat :: m + 1 < |marks| ==> Writes(lines, limit, stream, marks, m)
  }

  /** The whole log of a stream. */
  ghost predicate Wrote(lines: seq<Line>, limit: int, stream: Stream, marks: seq<nat>, body: seq<Line>, drawn: nat) {
    && Marked(body, limit, stream, marks)
    && Stops(body[..marks[|marks| - 1]], body, limit, stream, |marks| - 1, drawn)
    && lines == Finished(body, limit, stream, drawn)
  }

  /** A stream makes one log only. */
  lemma WroteOne(a: seq<Line>, b: seq<Line>, limit: int, stream: Stream, v: seq<nat>, w: seq<nat>, x: seq<Line>,
                 y: seq<Line>, d: nat, e: nat)
    requires Wrote(a, limit, stream, v, x, d) && Wrote(b, limit, stream, w, y, e)
    ensures a == b
  {
    hide Writes, TurnOpen, Total, SeparatorFits;
    var (m, n) := (|v| - 1, |w| - 1);
    if m < n {
      SamePrefix(x, y, limit, stream, v, w, m);
      NoneWritten(y, limit, stream, w, m, x, d);
    } else if n < m {
      SamePrefix(y, x, limit, stream, w, v, n);
      NoneWritten(x, limit, stream, v, n, y, e);
    } else {
      SamePrefix(x, y, limit, stream, v, w, m);
    }
  }

  lemma {:induction false} SamePrefix(x: seq<Line>, y: seq<Line>, limit: int, stream: Stream, v: seq<nat>, w: seq<nat>,
                                      m: nat)
    requires Marked(x, limit, stream, v) && Marked(y, limit, stream, w) && m < |v| && m < |w|
    ensures v[m] <= |x| && w[m] <= |y| && x[..v[m]] == y[..w[m]]
    decreases m
  {
    if m > 0 {
      SamePrefix(x, y, limit, stream, v, w, m - 1);
      assert Writes(x, limit, stream, v, m - 1) && Writes(y, limit, stream, w, m - 1);
    }
  }

  /** Where a draw is written the writing does not stop. */
  lemma NoneWritten(y: seq<Line>, limit: int, stream: Stream, w: seq<nat>, m: nat, after: seq<Line>, drawn: nat)
    requires Marked(y, limit, stream, w) && m + 1 < |w| && w[m] <= |y|
    ensures !Stops(y[..w[m]], after, limit, stream, m, drawn)
  {
    assert Writes(y, limit, stream, w, m);
  }

  lemma WritesStays(lines: seq<Line>, more: seq<Line>, limit: int, stream: Stream, marks: seq<nat>, marks': seq<nat>,
                    m: nat)
    requires m + 1 < |marks| && marks <= marks' && Writes(lines, limit, stream, marks, m)
    ensures Writes(lines + more, limit, stream, marks', m)
  {
    assert (lines + more)[..marks[m]] == lines[..marks[m]] && (lines + more)[..marks[m + 1]] == lines[..marks[m + 1]];
  }

  lemma MarkedStays(lines: seq<Line>, more: seq<Line>, limit: int, stream: Stream, marks: seq<nat>)
    requires Marked(lines, limit, stream, marks)
    ensures Marked(lines + more, limit, stream, marks)
  {
    hide Writes;
    forall m: nat | m + 1 < |marks|
      ensures Writes(lines + more, limit, stream, marks, m)
    {
      WritesStays(lines, more, limit, stream, marks, marks, m);
    }
  }

  /** One draw more is written. */
  lemma MarkedNext(before: seq<Line>, now: seq<Line>, limit: int, stream: Stream, marks: seq<nat>)
    requires Marked(before, limit, stream, marks) && marks[|marks| - 1] == |before|
    requires limit - Total(before) >= FILLER_THRESHOLD_BYTES
    requires var d := DrawAt(before, limit, stream, |marks| - 1);
             && SeparatorFits(before, limit, d) && d.bytes <= limit - Total(ClosedFor(before, d))
             && now == ClosedFor(before, d) + [EventOf(d)]
    ensures Marked(now, limit, stream, marks + [|now|])
  {
    var (n, marks') := (|marks| - 1, marks + [|now|]);
    var more := now[|before|..];
    assert now == before + more;
    assert now[..|before|] == before && now[..|now|] == now;
    forall m: nat | m + 1 < |marks'|
      ensures Writes(now, limit, stream, marks', m)
    {
      if m + 1 < |marks| {
        WritesStays(before, more, limit, stream, marks, marks', m);
      }
    }
  }

  lemma TurnsSnoc(lines: seq<Line>, l: Line)
    requires TurnsClosed(lines) && l.kind in {Stimulus, Answer, Separator}
    requires l.kind == Separator ==> TurnOpen(lines)
    requires l.kind == Stimulus ==> !TurnOpen(lines)
    ensures TurnsClosed(lines + [l]) && (TurnOpen(lines + [l]) <==> l.kind == Answer)
  {
  }

  class Log {
    var written: int
    var count: nat
    var lines: seq<Line>               // the file

    ghost predicate Valid()
      reads this
    {
      written == Total(lines) && count == |lines|
    }

    constructor ()
      ensures Valid() && lines == []
    {
      written, count, lines := 0, 0, [];
    }

    method Push(l: Line)
      requires Valid()
      modifies this
      ensures Valid() && lines == old(lines) + [l] && written == old(written) + l.bytes
    {
      TotalSnoc(lines, l);
      lines := lines + [l];
      written := written + l.bytes;
      count := count + 1;
    }

    /**
     `write_turns`: ends for every stream with exactly the log that stream makes. It never passes the limit,
     closes every turn but possibly the last, and stops only when the room is used up or a draw does not fit;
     `rooms` notes the room of every draw of the loop, `body` what the loop wrote.
     */
    method WriteTurns(limit: int, stream: Stream)
      returns (ghost rooms: seq<int>, ghost marks: seq<nat>, ghost body: seq<Line>)
      requires Valid() && lines == [] && Lines(stream)
      modifies this
      ensures Valid() && TurnsClosed(lines) && (lines == [] || written <= limit)
      ensures limit >= FILLER_THRESHOLD_BYTES || lines == []
      ensures Taken(lines, stream, rooms) && forall m :: 0 <= m < |rooms| ==> rooms[m] >= FILLER_THRESHOLD_BYTES
      ensures TurnOpen(lines) ==> stream(|rooms|, limit - written).separator > limit - written
      ensures Wrote(lines, limit, stream, marks, body, |rooms|)
    {
      hide TurnsClosed, TurnOpen, Total, Taken, Events, Marked;
      NoTurns(stream);
      NothingMarked(limit, stream);
      rooms, marks := [], [0];
      var turnOpen, n := false, 0;
      while true
        invariant Valid() && TurnsClosed(lines) && (turnOpen <==> TurnOpen(lines))
        invariant lines == [] || (written <= limit && limit >= FILLER_THRESHOLD_BYTES)
        invariant n == |rooms| == |Events(lines)| && Taken(lines, stream, rooms)
        invariant forall m :: 0 <= m < |rooms| ==> rooms[m] >= FILLER_THRESHOLD_BYTES
        invariant Marked(lines, limit, stream, marks) && |marks| == n + 1 && marks[n] == |lines|
        decreases limit - written
      {
        ghost var before := lines;
        assert before[..marks[n]] == before;
        var room := limit - written;
        if room < FILLER_THRESHOLD_BYTES {
          break;
        }
        var draw := stream(n, room);
        TakenMore(lines, stream, rooms, room);
        if draw.stimulus && turnOpen {
          if draw.separator > room {
            n, rooms := n + 1, rooms + [room];
            break;
          }
          Separate(draw.separator, stream, rooms);
          TakenMore(lines, stream, rooms, room);
          turnOpen := false;
        }
        n, rooms := n + 1, rooms + [room];
        if draw.bytes > limit - written {
          ClosedIs(before, limit, stream, marks, draw, lines);
          break;
        }
        TurnsSnoc(lines, EventOf(draw));
        Push(EventOf(draw));
        MarkedNext(before, lines, limit, stream, marks);
        marks := marks + [|lines|];
        if !draw.stimulus {
          turnOpen := true;
        }
      }
      body := lines;
      if turnOpen {
        var draw := stream(n, limit - written);
        if draw.separator <= limit - written {
          Separate(draw.separator, stream, rooms);
        }
      }
    }

    /** A separator closes the turn under way, and is no event of the stream. */
    method Separate(bytes: nat, ghost stream: Stream, ghost rooms: seq<int>)
      requires Valid() && TurnsClosed(lines) && TurnOpen(lines) && Taken(lines, stream, rooms)
      modifies this
      ensures Valid() && lines == old(lines) + [Line(Separator, bytes)] && written == old(written) + bytes
      ensures TurnsClosed(lines) && !TurnOpen(lines) && Taken(lines, stream, rooms)
      ensures Events(lines) == Events(old(lines))
    {
      hide TurnsClosed, TurnOpen, Total, Events;
      TurnsSnoc(lines, Line(Separator, bytes));
      SeparatorIsNoEvent(lines, bytes);
      Push(Line(Separator, bytes));
    }
  }

  lemma NothingMarked(limit: int, stream: Stream)
    ensures Marked([], limit, stream, [0])
  {
  }

  /** The lines the loop leaves when the event of a draw does not fit. */
  lemma ClosedIs(before: seq<Line>, limit: int, stream: Stream, marks: seq<nat>, d: Draw, now: seq<Line>)
    requires Marked(before, limit, stream, marks) && now == ClosedFor(before, d)
    ensures Marked(now, limit, stream, marks) && before <= now
  {
    hide Marked;
    var more := now[|before|..];
    assert now == before + more;
    MarkedStays(before, more, limit, stream, marks);
  }

  lemma NoTurns(stream: Stream)
    ensures TurnsClosed([]) && !TurnOpen([]) && Total([]) == 0 && Events([]) == [] && Taken([], stream, [])
  {
  }

  // ---- the filler and the final line --------------------------------------------------------------------

  function Repeat(source: string, n: nat): (r: string)
    ensures |r| == |source| * n
  {
    if n == 0 then "" else Repeat(source, n - 1) + source
  }

  /** `filler_event`: content that makes the line exactly `room` bytes, or none when an empty line is already longer. */
  method FillerEvent(room: nat, empty: nat, source: string) returns (content: string, fits: bool)
    requires source != ""
    ensures fits <==> room >= empty
    ensures fits ==> empty + |content| == room && forall k :: 0 <= k < |content| ==> content[k] == source[k % |source|]
  {
    content, fits := "", room >= empty;
    if fits {
      var n := room / |source| + 1;
      var repeated := Repeat(source, n);
      Enough(room, |source|);
      forall k | 0 <= k < room - empty
        ensures repeated[k] == source[k % |source|]
      {
        RepeatAt(source, n, k);
      }
      content := repeated[..room - empty];
    }
  }

  lemma Enough(room: nat, len: nat)
    requires len > 0
    ensures len * (room / len + 1) >= room
  {
    assert room == len * (room / len) + room % len;
  }

  lemma {:induction false} RepeatAt(source: string, n: nat, k: nat)
    requires source != "" && k < |source| * n
    ensures Repeat(source, n)[k] == source[k % |source|]
  {
    var before := |source| * (n - 1);
    if k < before {
      RepeatAt(source, n - 1, k);
    } else {
      Words.DivModUnique(k, |source|, n - 1, k - before);
    }
  }

  /**
   `write_event_log`: `final` and `empty` are the lengths of the final line and of an empty filler line,
   the same at every fixed-width stamp.
   */
  method WriteEventLog(target: nat, stream: Stream, final: nat, empty: nat, source: string)
    returns (log: Log, ghost turns: seq<Line>, ghost marks: seq<nat>, ghost body: seq<Line>, ghost drawn: nat)
    requires Lines(stream) && source != ""
    ensures Wrote(turns, target - final, stream, marks, body, drawn) && TurnsClosed(turns)
    ensures var room := target - final - Total(turns);
            log.lines == turns + (if room > 0 && room >= empty then [Line(Filler, room)] else []) + [Line(Final, final)]
    ensures log.Valid() && log.lines != [] && log.lines[|log.lines| - 1] == Line(Final, final)
    ensures log.written <= target <==> final <= target
    ensures final <= target && log.written < target ==> target - log.written < empty
  {
    hide Total, TurnsClosed, TurnOpen, Wrote;
    log := new Log();
    ghost var rooms;
    rooms, marks, body := log.WriteTurns(target - final, stream);
    drawn := |rooms|;
    NoTurns(stream);
    turns := log.lines;
    var room := target - log.written - final;
    if room > 0 {
      var content, fits := FillerEvent(room, empty, source);
      if fits {
        log.Push(Line(Filler, empty + |content|));
      }
    }
    log.Push(Line(Final, final));
  }
}
