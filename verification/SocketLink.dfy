/**
 The page's WebSocket (websocket.js) with the events that drive it from the page (app.js,
 session-view.js): which socket is heard, where a reconnect resumes, and when an open reloads the
 session list because a sidebar frame may have been missed.
 */
module SocketLink {
  import opened Common

  type Sid = string
  datatype Phase = Connecting | Open | Closed

  /** A socket, and whether its handlers are still attached. */
  datatype Socket = Socket(target: Sid, generation: nat, phase: Phase, attached: bool)

  /** What a frame does to the cursor: nothing, or a raise past the index it may carry. */
  datatype Frame = Ignored | Indexed(index: Option<int>)

  // ---- the record of the link ---------------------------------------------------------------------------

  /**
   What befell the link: it came up, it went down (or the page found itself without one), or the server
   turned the page away as out of date (close code 4409).
   */
  datatype Turn = Up | Down | TurnedAway

  ghost predicate IsUp(log: seq<Turn>) { log != [] && log[|log| - 1] == Up }

  /** Since the link last came up, it went down some other way than by being turned away. */
  ghost predicate Missed(log: seq<Turn>) {
    log != [] && (log[|log| - 1] == Down || (log[|log| - 1] == TurnedAway && Missed(log[..|log| - 1])))
  }

  ghost function Ups(log: seq<Turn>): nat {
    if log == [] then 0 else Ups(log[..|log| - 1]) + if log[|log| - 1] == Up then 1 else 0
  }

  /** The opens that followed a missed stretch: those that owe a resync. */
  ghost function Owed(log: seq<Turn>): nat {
    if log == [] then 0
    else var earlier := log[..|log| - 1]; Owed(earlier) + if log[|log| - 1] == Up && Missed(earlier) then 1 else 0
  }

  /** Two opens never stand side by side: the link went down, or was turned away, in between. */
  ghost predicate Alternates(log: seq<Turn>) {
    forall i, j :: 0 <= i && j == i + 1 && j < |log| ==> !(log[i] == Up && log[j] == Up)
  }

  lemma LogGrows(log: seq<Turn>, t: Turn)
    ensures (log + [t])[..|log + [t]| - 1] == log
    ensures IsUp(log + [t]) <==> t == Up
    ensures Missed(log + [t]) <==> t == Down || (t == TurnedAway && Missed(log))
    ensures Owed(log + [t]) == Owed(log) + if t == Up && Missed(log) then 1 else 0
    ensures Alternates(log) && !(t == Up && IsUp(log)) ==> Alternates(log + [t])
  {
    assert (log + [t])[..|log + [t]| - 1] == log;
  }

  /** On a link that was up once and is not now, frames were missed unless every turn since was a turning away. */
  lemma {:induction false} DownIsMissed(log: seq<Turn>, up: nat)
    requires up < |log| && log[up] == Up && forall j :: up < j < |log| ==> log[j] != Up
    ensures Missed(log) <==> exists j :: up < j < |log| && log[j] == Down
  {
    var earlier := log[..|log| - 1];
    if up < |log| - 1 {
      DownIsMissed(earlier, up);
      if exists j :: up < j < |earlier| && earlier[j] == Down {
        var j :| up < j < |earlier| && earlier[j] == Down;
        assert log[j] == Down;
      }
      if log[|log| - 1] == TurnedAway && exists j :: up < j < |log| && log[j] == Down {
        var j :| up < j < |log| && log[j] == Down;
        assert earlier[j] == Down;
      }
    }
  }

  /** Without a turning away, a link that was up and is not up now has missed frames. */
  lemma {:induction false} UpOrMissed(log: seq<Turn>)
    requires TurnedAway !in log
    ensures IsUp(log) || Missed(log) || log == []
  {
  }

  /** Without a turning away, every open after the page's first owes exactly one resync. */
  lemma {:induction false} EveryLaterOpenOwes(log: seq<Turn>)
    requires TurnedAway !in log && Alternates(log)
    ensures Owed(log) == Ups(log) - if log != [] && log[0] == Up then 1 else 0
  {
    if log != [] {
      var earlier := log[..|log| - 1];
      EveryLaterOpenOwes(earlier);
      UpOrMissed(earlier);
      if earlier != [] {
        assert earlier[0] == log[0];
        assert !(log[|log| - 2] == Up && log[|log| - 1] == Up);
      }
    }
  }

  /** What giving up a socket adds to the record: a loss, if it had opened. */
  ghost function Lost(open: bool): seq<Turn> { if open then [Down] else [] }

  /** The record goes on, by `ups` opens and, but for a turning away, by nothing else than losses. */
  ghost predicate Continues(before: seq<Turn>, after: seq<Turn>, ups: nat, away: bool) {
    before <= after && Ups(after) == Ups(before) + ups && (TurnedAway in after ==> TurnedAway in before || away)
  }

  lemma ContinuesBy(log: seq<Turn>, t: Turn)
    ensures Continues(log, log + [t], if t == Up then 1 else 0, t == TurnedAway)
    ensures Continues(log, log, 0, false) && log + [] == log
  {
    assert (log + [t])[..|log|] == log;
  }

  lemma RecordedLess(log: seq<Turn>, away: bool)
    ensures Continues(log, log, 0, away)
  {
  }

  lemma BlindStart()
    ensures !Missed([]) && !Missed([Up]) && !Missed([Up, TurnedAway])
  {
    LogGrows([], Up);
    LogGrows([Up], TurnedAway);
    assert [] + [Up] == [Up] && [Up] + [TurnedAway] == [Up, TurnedAway];
  }

  lemma BlindLog()
    ensures Ups([Up, TurnedAway, Up]) == 2
  {
    assert [Up][..0] == [] && [Up, TurnedAway][..1] == [Up] && [Up, TurnedAway, Up][..2] == [Up, TurnedAway];
    assert Ups([Up]) == 1 && Ups([Up, TurnedAway]) == 1;
  }

  lemma ContinuesOn(a: seq<Turn>, b: seq<Turn>, c: seq<Turn>, ups: nat, more: nat, away: bool, later: bool)
    requires Continues(a, b, ups, away) && Continues(b, c, more, later)
    ensures Continues(a, c, ups + more, away || later)
  {
  }

  // ---- the link -----------------------------------------------------------------------------------------

  /** Generations rise from socket to socket, none past `top`. */
  ghost predicate Rising(sockets: seq<Socket>, top: int) {
    && (forall i, j :: 0 <= i < j < |sockets| ==> sockets[i].generation < sockets[j].generation)
    && (forall i :: 0 <= i < |sockets| ==> sockets[i].generation <= top)
  }

  lemma RisingMore(sockets: seq<Socket>, top: int, more: int)
    requires Rising(sockets, top) && top <= more
    ensures Rising(sockets, more)
  {
  }

  lemma RisingPush(sockets: seq<Socket>, top: int, s: Socket)
    requires Rising(sockets, top) && s.generation == top + 1
    ensures Rising(sockets + [s], top + 1)
  {
  }

  lemma RisingUpdate(sockets: seq<Socket>, top: int, i: nat, s: Socket)
    requires Rising(sockets, top) && i < |sockets| && s.generation == sockets[i].generation
    ensures Rising(sockets[i := s], top)
  {
  }

  class Link {
    var session: Option<Sid>
    var switching: bool
    var target: Option<Sid>              // the switch under way
    var ws: Option<nat>
    var wsOpen: bool
    var wsGeneration: nat
    var sockets: seq<Socket>             // every socket ever made, in order
    var reconnectTimer: bool
    var quickRetryTimer: bool
    var resyncPending: bool
    var cursor: int
    var resyncs: nat                     // session-list reloads asked for
    ghost var log: seq<Turn>

    /** Generations rise with the sockets; the heard one is the newest, of the newest generation and session. */
    ghost predicate SocketsValid()
      reads this`sockets, this`ws, this`wsGeneration, this`session
    {
      match ws
      case None => Rising(sockets, wsGeneration - 1)
      case Some(k) =>
        && Rising(sockets, wsGeneration) && k == |sockets| - 1
        && sockets[k].generation == wsGeneration && Some(sockets[k].target) == session
    }

    ghost predicate SwitchValid()
      reads this`ws, this`switching, this`target, this`session, this`reconnectTimer, this`quickRetryTimer
    {
      && (switching ==> ws.None?) && (target.Some? ==> switching && target != session)
      && (reconnectTimer || quickRetryTimer ==> ws.Some?)
    }

    ghost predicate LogValid()
      reads this`ws, this`wsOpen, this`sockets, this`resyncPending, this`resyncs, this`log
    {
      && (wsOpen ==> ws.Some? && ws.value < |sockets| && sockets[ws.value].phase != Connecting)
      && RecordValid()
    }

    /** The flags are what the record says: up, owing a resync, and the resyncs already asked for. */
    ghost predicate RecordValid()
      reads this`wsOpen, this`resyncPending, this`resyncs, this`log
    {
      (wsOpen <==> IsUp(log)) && (resyncPending <==> Missed(log)) && resyncs == Owed(log) && Alternates(log)
    }

    ghost predicate Valid()
      reads this
    {
      SocketsValid() && SwitchValid() && LogValid()
    }

    constructor (s: Option<Sid>, eventCount: int)
      ensures Valid() && session == s && cursor == eventCount && log == [] && sockets == []
      ensures !switching && !wsOpen && resyncs == 0
    {
      session, switching, target, ws, wsOpen, wsGeneration := s, false, None, None, false, 0;
      sockets, cursor, resyncs := [], eventCount, 0;
      reconnectTimer, quickRetryTimer, resyncPending := false, false, false;
      log := [];
    }

    predicate IsStaleSocket(i: nat)
      requires i < |sockets|
      reads this`ws, this`wsGeneration, this`session, this`sockets
    {
      ws != Some(i) || sockets[i].generation != wsGeneration || Some(sockets[i].target) != session
    }

    /**
     Only the page's own socket passes the stale check, and the shorter check of the frame dispatcher, by
     session and generation alone, tells exactly the same sockets apart.
     */
    lemma OnlyTheNewestIsHeard(i: nat)
      requires SocketsValid() && i < |sockets|
      ensures !IsStaleSocket(i) <==> ws == Some(i)
      ensures !IsStaleSocket(i) ==> i == |sockets| - 1
      ensures !IsStaleSocket(i) <==> Some(sockets[i].target) == session && sockets[i].generation == wsGeneration
    {
    }

    /** A socket gone stale stays stale, and while the page stays in its session the cursor only rises. */
    twostate predicate Onward()
      reads this
    {
      && |old(sockets)| <= |sockets| && (ws == old(ws) || ws.None? || ws.value >= |old(sockets)|)
      && (session == old(session) ==> cursor >= old(cursor))
      && wsGeneration >= old(wsGeneration)
    }

    /** The record went on by `ups` opens; `away` tells whether a turning away may be among the rest. */
    twostate predicate Recorded(ups: nat, away: bool)
      reads this`log
    {
      Continues(old(log), log, ups, away)
    }

    lemma ChangePhase(i: nat, phase: Phase, attached: bool)
      requires SocketsValid() && i < |sockets|
      ensures var changed := sockets[i := sockets[i].(phase := phase, attached := attached)];
              Rising(changed, if ws.None? then wsGeneration - 1 else wsGeneration)
    {
      hide Rising;
      RisingUpdate(sockets, if ws.None? then wsGeneration - 1 else wsGeneration, i,
          sockets[i].(phase := phase, attached := attached));
    }

    // ---- the socket's own events ----------------------------------------------------------------------

    ghost method Note(t: Turn)
      requires !(t == Up && IsUp(log)) && Alternates(log)
      modifies this`log
      ensures IsUp(log) <==> t == Up
      ensures Missed(log) <==> t == Down || (t == TurnedAway && Missed(old(log)))
      ensures Owed(log) == Owed(old(log)) + if t == Up && Missed(old(log)) then 1 else 0
      ensures Alternates(log) && log == old(log) + [t]
    {
      hide Missed, Owed, IsUp, Alternates;
      LogGrows(log, t);
      log := log + [t];
    }

    /** The page's socket is given up; one that had opened takes the frames it may have missed with it. */
    method GiveUp()
      requires RecordValid()
      modifies this`wsOpen, this`resyncPending, this`log
      ensures RecordValid() && !wsOpen && log == old(log) + Lost(old(wsOpen)) && Recorded(0, false)
      ensures resyncPending <==> old(wsOpen || resyncPending)
    {
      hide Missed, Owed, IsUp, Alternates, Continues;
      ContinuesBy(log, Down);
      if wsOpen {
        resyncPending := true;
        Note(Down);
      }
      wsOpen := false;
    }

    /** The page has no session to link to, or a close it did not start: frames may be missed from here on. */
    method MissFrames()
      requires RecordValid()
      modifies this`wsOpen, this`resyncPending, this`log
      ensures RecordValid() && !wsOpen && log == old(log) + [Down] && resyncPending && Recorded(0, false)
    {
      hide Missed, Owed, IsUp, Alternates, Continues;
      ContinuesBy(log, Down);
      wsOpen := false;
      resyncPending := true;
      Note(Down);
    }

    /** The server turned the page away: the link is down, and no resync is marked. */
    method BeTurnedAway()
      requires RecordValid()
      modifies this`wsOpen, this`log
      ensures RecordValid() && !wsOpen && log == old(log) + [TurnedAway] && Recorded(0, true)
    {
      hide Missed, Owed, IsUp, Alternates, Continues;
      ContinuesBy(log, TurnedAway);
      wsOpen := false;
      Note(TurnedAway);
    }

    /** A new socket for the session is the one heard; without a session, or giving up an open one, a resync is due. */
    method ConnectWS()
      requires Valid() && !switching
      modifies this`sockets, this`ws, this`wsOpen, this`wsGeneration, this`resyncPending
      modifies this`reconnectTimer, this`quickRetryTimer, this`log
      ensures Valid() && Onward() && Recorded(0, false)
      ensures log == old(log) + Lost(session.None? || old(wsOpen))
      ensures resyncPending <==> session.None? || old(wsOpen || resyncPending)
      ensures session.None? ==> ws == old(ws) && sockets == old(sockets)
      ensures session.Some? ==> Connected(old(sockets)) && !reconnectTimer && !quickRetryTimer
    {
      hide RecordValid, Rising, Continues;
      if session.None? {
        MissFrames();
        return;
      }
      hide SocketsValid;
      reconnectTimer, quickRetryTimer := false, false;
      GiveUp();
      NewSocket();
    }

    /** A socket of the next generation, for the session, becomes the page's own. */
    method NewSocket()
      requires SocketsValid() && session.Some? && !wsOpen
      modifies this`sockets, this`ws, this`wsGeneration
      ensures SocketsValid() && Connected(old(sockets)) && wsGeneration == old(wsGeneration) + 1
    {
      hide Rising;
      var socket := Socket(session.value, wsGeneration + 1, Connecting, true);
      if ws.None? {
        RisingMore(sockets, wsGeneration - 1, wsGeneration);
      }
      RisingPush(sockets, wsGeneration, socket);
      wsGeneration := wsGeneration + 1;
      ws := Some(|sockets|);
      sockets := sockets + [socket];
    }

    /** The page's own socket loses its handlers, and no socket is of the next generation. */
    method DropSocket()
      requires SocketsValid()
      modifies this`sockets, this`ws, this`wsGeneration
      ensures SocketsValid() && ws.None? && |sockets| == |old(sockets)| && wsGeneration == old(wsGeneration) + 1
    {
      hide Rising;
      wsGeneration := wsGeneration + 1;
      if ws.None? {
        RisingMore(sockets, wsGeneration - 2, wsGeneration - 1);
      } else {
        RisingUpdate(sockets, wsGeneration - 1, ws.value, sockets[ws.value].(attached := false, phase := Closed));
        sockets := sockets[ws.value := sockets[ws.value].(attached := false, phase := Closed)];
      }
      ws := None;
    }

    /** After the sockets `before`, a new one for the session is connecting, and it is the one heard. */
    ghost predicate Connected(before: seq<Socket>)
      reads this`ws, this`wsOpen, this`sockets, this`session
    {
      && ws == Some(|before|) && |sockets| == |before| + 1 && !wsOpen
      && sockets[|before|].phase == Connecting && sockets[|before|].attached
      && Some(sockets[|before|].target) == session
    }

    /** `disconnectWS` and the `cancelReconnect` that follows it on every path. */
    method DisconnectWS()
      requires Valid()
      modifies this`sockets, this`ws, this`wsOpen, this`wsGeneration, this`resyncPending
      modifies this`reconnectTimer, this`quickRetryTimer, this`log
      ensures Valid() && Onward() && Recorded(0, false) && ws.None? && |sockets| == |old(sockets)|
      ensures log == old(log) + Lost(old(wsOpen)) && (resyncPending <==> old(wsOpen || resyncPending))
      ensures forall i :: 0 <= i < |sockets| ==> IsStaleSocket(i)
      ensures !reconnectTimer && !quickRetryTimer && !wsOpen
    {
      hide RecordValid, SocketsValid, Continues;
      GiveUp();
      DropSocket();
      reconnectTimer, quickRetryTimer := false, false;
    }

    /** `onopen`: an open that missed frames asks for the session list once, and one that missed none does not. */
    method Opened(i: nat) returns (heard: bool)
      requires Valid() && i < |sockets| && sockets[i].phase == Connecting
      modifies this`sockets, this`wsOpen, this`resyncPending, this`resyncs, this`log
      ensures Valid() && Onward() && Recorded(if heard then 1 else 0, false)
      ensures heard <==> ws == Some(i) && old(sockets)[i].attached
      ensures |sockets| == |old(sockets)| && (heard ==> sockets == old(sockets)[i := old(sockets)[i].(phase := Open)])
      ensures heard ==> wsOpen && log == old(log) + [Up] && resyncs == old(resyncs) + if Missed(old(log)) then 1 else 0
      ensures !heard ==> log == old(log) && resyncs == old(resyncs)
    {
      hide Missed, Owed, IsUp, Alternates, Rising, Continues;
      ContinuesBy(log, Up);
      heard := sockets[i].attached && !IsStaleSocket(i);
      ChangePhase(i, if heard then Open else Closed, heard);
      if !heard {
        sockets := sockets[i := sockets[i].(phase := Closed, attached := false)];
        return;
      }
      sockets := sockets[i := sockets[i].(phase := Open)];
      wsOpen := true;
      Note(Up);
      if resyncPending {
        resyncPending := false;
        resyncs := resyncs + 1;
      }
    }

    /** `onmessage`, the dispatcher's own check and `_bumpEventCursor`. */
    method Received(i: nat, frame: Frame)
      requires Valid() && i < |sockets|
      modifies this`cursor
      ensures Valid() && Onward()
      ensures cursor != old(cursor) ==>
              ws == Some(i) && frame.Indexed? && frame.index.Some? && cursor == frame.index.value + 1
      ensures ws == Some(i) && frame.Indexed? && frame.index.Some? ==> cursor > frame.index.value
    {
      hide RecordValid, Rising;
      if IsStaleSocket(i) || Some(sockets[i].target) != session || sockets[i].generation != wsGeneration {
        return;
      }
      if frame.Indexed? && frame.index.Some? && cursor < frame.index.value + 1 {
        cursor := frame.index.value + 1;
      }
    }

    /**
     `onclose`, also the late one of a socket that died silently; `code4409` is the server's verdict that this
     page is out of date.
     */
    method ClosedBy(i: nat, code4409: bool, quickRetry: bool) returns (heard: bool)
      requires Valid() && i < |sockets|
      modifies this`sockets, this`wsOpen, this`resyncPending, this`reconnectTimer, this`quickRetryTimer, this`log
      ensures Valid() && Onward() && Recorded(0, code4409)
      ensures heard <==> ws == Some(i) && old(sockets)[i].attached
      ensures sockets == old(sockets)[i := old(sockets)[i].(phase := Closed)]
      ensures heard ==> !wsOpen && log == old(log) + [if code4409 then TurnedAway else Down]
      ensures heard && !code4409 ==> reconnectTimer && (quickRetryTimer <==> old(quickRetryTimer) || quickRetry)
      ensures heard && !code4409 ==> resyncPending
      ensures heard && code4409 ==> reconnectTimer == old(reconnectTimer) && resyncPending == old(resyncPending)
      ensures !heard ==> log == old(log) && wsOpen == old(wsOpen) && resyncPending == old(resyncPending)
                         && reconnectTimer == old(reconnectTimer) && quickRetryTimer == old(quickRetryTimer)
    {
      hide RecordValid, Rising, Continues;
      RecordedLess(log, code4409);
      heard := sockets[i].attached && !IsStaleSocket(i);
      ChangePhase(i, Closed, sockets[i].attached);
      sockets := sockets[i := sockets[i].(phase := Closed)];
      if !heard {
        return;
      }
      if code4409 {
        BeTurnedAway();
        return;
      }
      MissFrames();
      reconnectTimer := true;
      quickRetryTimer := quickRetryTimer || quickRetry;
    }

    /** A socket dies without a word. */
    method DiesSilently(i: nat)
      requires Valid() && i < |sockets|
      modifies this`sockets
      ensures Valid() && Onward() && sockets == old(sockets)[i := old(sockets)[i].(phase := Closed)]
    {
      hide RecordValid, Rising;
      ChangePhase(i, Closed, sockets[i].attached);
      sockets := sockets[i := sockets[i].(phase := Closed)];
    }

    // ---- the page's events ----------------------------------------------------------------------------

    /** A retry timer fires, or (with `answered`) a request came back: `noteRequestSuccess`. */
    method RetryFires(answered: bool)
      requires Valid()
      modifies this
      ensures Valid() && Onward() && Recorded(0, false) && session == old(session)
      ensures var due := old(reconnectTimer || (!answered && quickRetryTimer));
              if due && session.Some? then Connected(old(sockets)) else ws == old(ws) && sockets == old(sockets)
    {
      hide Missed, Owed, IsUp, Alternates, LogValid, SocketsValid, Continues, Connected;
      RecordedLess(log, false);
      if reconnectTimer || (!answered && quickRetryTimer) {
        ConnectWS();
      }
    }

    /** The tab becomes visible: a socket that is not open is replaced. */
    method BecomesVisible()
      requires Valid()
      modifies this
      ensures Valid() && Onward() && Recorded(0, false) && session == old(session) && resyncs == old(resyncs)
      ensures var due := !old(switching) && (old(ws).None? || old(sockets)[old(ws).value].phase != Open);
              && log == old(log) + Lost(due && (session.None? || old(wsOpen)))
              && if due && session.Some? then Connected(old(sockets)) else ws == old(ws) && sockets == old(sockets)
    {
      hide Missed, Owed, IsUp, Alternates, LogValid, Continues, Connected;
      RecordedLess(log, false);
      if switching {
        return;
      }
      if ws.None? || sockets[ws.value].phase != Open {
        reconnectTimer, quickRetryTimer := false, false;
        ConnectWS();
      }
    }

    /** `switchSession` up to its await: the link comes down at the click. */
    method Click(sid: Sid)
      requires Valid()
      modifies this
      ensures Valid() && Onward() && Recorded(0, false) && session == old(session)
      ensures session.Some? && session != Some(sid) ==> switching && target == Some(sid) && ws.None?
      ensures session.None? || session == Some(sid) ==>
                && ws == old(ws) && sockets == old(sockets) && log == old(log)
                && switching == old(switching) && target == old(target)
    {
      hide Missed, Owed, IsUp, Alternates, LogValid, SocketsValid, Continues;
      RecordedLess(log, false);
      if session.None? || session == Some(sid) {
        return;
      }
      DisconnectWS();
      switching, target := true, Some(sid);
    }

    /** The newest switch lands; when its render throws, the link stays down. */
    method Land(eventCount: int, renders: bool)
      requires Valid() && target.Some?
      modifies this
      ensures Valid() && Onward() && Recorded(0, false)
      ensures session == old(target) && session != old(session) && cursor == eventCount
      ensures if renders then Connected(old(sockets)) else ws.None?
      ensures target.None? && (switching <==> !renders)
    {
      hide Missed, Owed, IsUp, Alternates, LogValid, Continues, Connected;
      RecordedLess(log, false);
      session, cursor, target := target, eventCount, None;
      if renders {
        switching := false;
        ConnectWS();
      }
    }

    /** The newest switch fails: the page stays in its session, without a socket. */
    method FailSwitch()
      requires Valid() && target.Some?
      modifies this`switching, this`target
      ensures Valid() && Onward() && ws.None? && !switching && target.None?
    {
      hide RecordValid, Rising;
      switching, target := false, None;
    }

    /** `createTaskNode` after its POST; the server mints an id the page is not in. */
    method Create(created: Sid, eventCount: int, renders: bool)
      requires Valid() && Some(created) != session
      modifies this
      ensures Valid() && Onward() && Recorded(0, false)
      ensures old(session).None? ==> session.None? && ws == old(ws) && sockets == old(sockets)
      ensures old(session).Some? ==> session == Some(created) && cursor == eventCount
      ensures old(session).Some? && renders ==> ws == Some(|old(sockets)|) && sockets[ws.value].target == created
      ensures old(session).Some? ==> target.None? && (switching <==> !renders) && (!renders ==> ws.None?)
      ensures old(session).None? ==> switching == old(switching) && target == old(target) && log == old(log)
    {
      hide Missed, Owed, IsUp, Alternates, LogValid, SocketsValid, Continues;
      RecordedLess(log, false);
      if session.None? {
        return;
      }
      DisconnectWS();
      ghost var middle := log;
      switching, target := true, Some(created);
      Land(eventCount, renders);
      ContinuesOn(old(log), middle, log, 0, 0, false, false);
    }

    /** `renderNoActiveSessionView`, called when the page's own session is archived. */
    method Archive()
      requires Valid() && session.Some?
      modifies this
      ensures Valid() && Onward() && Recorded(0, false) && session.None? && ws.None? && cursor == 0
      ensures !switching && target.None? && !reconnectTimer && !quickRetryTimer
    {
      hide Missed, Owed, IsUp, Alternates, LogValid, Continues;
      DisconnectWS();
      session, cursor, switching, target := None, 0, false, None;
    }
  }

  // ---- every run ----------------------------------------------------------------------------------------

  datatype Event =
    | Opens(i: nat)
    | Receives(i: nat, frame: Frame)
    | Closes(i: nat, code4409: bool, quickRetry: bool)
    | Dies(i: nat)
    | Retries(answered: bool)
    | Shows
    | Clicks(sid: Sid)
    | Lands(eventCount: int, renders: bool)
    | Fails
    | Creates(created: Sid, eventCount: int, renders: bool)
    | Archives

  /** One event at the page, and whether it was an open the page heard; an event that cannot be raised never comes. */
  method Handle(link: Link, e: Event) returns (heard: bool)
    requires link.Valid()
    modifies link
    ensures link.Valid() && link.Onward() && link.Recorded(if heard then 1 else 0, e.Closes? && e.code4409)
    ensures heard ==> e.Opens?
  {
    hide Link.SocketsValid, Link.LogValid, Link.SwitchValid, Link.Connected, Continues;
    RecordedLess(link.log, e.Closes? && e.code4409);
    heard := false;
    match e {
      case Opens(i) =>
        if i < |link.sockets| && link.sockets[i].phase == Connecting {
          heard := link.Opened(i);
        }
      case Receives(i, frame) =>
        if i < |link.sockets| {
          link.Received(i, frame);
        }
      case Closes(i, code4409, quickRetry) =>
        if i < |link.sockets| {
          var _ := link.ClosedBy(i, code4409, quickRetry);
        }
      case Dies(i) =>
        if i < |link.sockets| {
          link.DiesSilently(i);
        }
      case Retries(answered) => link.RetryFires(answered);
      case Shows => link.BecomesVisible();
      case Clicks(sid) => link.Click(sid);
      case Lands(eventCount, renders) =>
        if link.target.Some? {
          link.Land(eventCount, renders);
        }
      case Fails =>
        if link.target.Some? {
          link.FailSwitch();
        }
      case Creates(created, eventCount, renders) =>
        if Some(created) != link.session {
          link.Create(created, eventCount, renders);
        }
      case Archives =>
        if link.session.Some? {
          link.Archive();
        }
    }
  }

  /** Some event of the run is the server's verdict that the page is out of date. */
  ghost predicate TurnsAway(events: seq<Event>) {
    exists k :: 0 <= k < |events| && events[k].Closes? && events[k].code4409
  }

  /**
   Any run of events, and the opens the page heard in it. Of the sockets there were, only the page's own can
   still be heard; while the page never left its session the cursor did not fall; and unless the server
   turned the page away, a new page has asked for the session list once for each open but its first, and
   for that one too if the link was lost before it ever heard.
   */
  method Interleave(link: Link, events: seq<Event>) returns (moved: bool, opens: nat)
    requires link.Valid()
    modifies link
    ensures link.Valid() && |old(link.sockets)| <= |link.sockets|
    ensures forall i: nat :: i < |old(link.sockets)| && old(link.ws) != Some(i) ==> link.IsStaleSocket(i)
    ensures !moved ==> link.cursor >= old(link.cursor) && link.session == old(link.session)
    ensures old(link.log) <= link.log && Ups(link.log) == Ups(old(link.log)) + opens
    ensures TurnedAway !in old(link.log) && !TurnsAway(events) ==> TurnedAway !in link.log
    ensures old(link.log) == [] && !TurnsAway(events) ==>
              link.resyncs == opens - if link.log != [] && link.log[0] == Up then 1 else 0
  {
    moved, opens := false, 0;
    RecordedLess(link.log, TurnsAway(events));
    for k := 0 to |events|
      invariant link.Valid() && |old(link.sockets)| <= |link.sockets|
      invariant link.ws == old(link.ws) || link.ws.None? || link.ws.value >= |old(link.sockets)|
      invariant !moved ==> link.cursor >= old(link.cursor) && link.session == old(link.session)
      invariant Continues(old(link.log), link.log, opens, TurnsAway(events))
    {
      hide Link.Valid, Continues;
      var before := link.session;
      ghost var log := link.log;
      var heard := Handle(link, events[k]);
      moved := moved || link.session != before;
      ghost var away := events[k].Closes? && events[k].code4409;
      ContinuesOn(old(link.log), log, link.log, opens, if heard then 1 else 0, TurnsAway(events), away);
      opens := opens + if heard then 1 else 0;
    }
    if TurnedAway !in link.log {
      EveryLaterOpenOwes(link.log);
    }
  }

  /** A run in which the server turns an open page away, the page becomes visible and opens again: no resync. */
  method TurnedAwayComesBackBlind() returns (link: Link)
    ensures link.Valid() && link.log == [Up, TurnedAway, Up] && Ups(link.log) == 2 && link.resyncs == 0
  {
    hide Missed, Owed, IsUp, Alternates, Rising, Link.LogValid, Link.SwitchValid, Continues, Ups;
    link := new Link(Some("s"), 0);
    link.ConnectWS();
    BlindStart();
    assert link.log == [];
    var first := link.Opened(0);
    assert link.log == [Up];
    var away := link.ClosedBy(0, true, false);
    assert link.log == [Up, TurnedAway];
    link.BecomesVisible();
    assert link.log == [Up, TurnedAway];
    var second := link.Opened(1);
    BlindLog();
  }
}
