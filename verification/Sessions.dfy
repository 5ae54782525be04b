/**
 The displayed session (displayed-session.js), the switch protocol (session-view.js) and the send lock
 (file-upload.js): which session the page shows, which one it has loaded, and what happens to the
 composer actions pressed in between.
 */
module Sessions {
  import opened Common

  type Sid = string

  /** A message posts whatever happens; a stop and an attachment need their session loaded. */
  datatype Kind = SendMessage | Stop | Upload
  datatype Action = Action(id: nat, session: Sid, kind: Kind)
  datatype Fate = Waiting | Ran | Dropped
  datatype Click = Navigates | AlreadyThere | Started(generation: nat)

  function Due(held: seq<Action>, session: Option<Sid>): seq<Action> {
    if held == [] then []
    else (if Some(held[0].session) == session then [held[0]] else []) + Due(held[1..], session)
  }
  function NotDue(held: seq<Action>, session: Option<Sid>): seq<Action> {
    if held == [] then []
    else (if Some(held[0].session) == session then [] else [held[0]]) + NotDue(held[1..], session)
  }

  lemma SomebodyFor(held: seq<Action>, session: Option<Sid>)
    requires AllFor(held, session)
    ensures held != [] ==> session.Some?
  {
    if held != [] {
      assert Some(held[0].session) == session;
    }
  }

  lemma NobodyFor(session: Option<Sid>)
    ensures AllFor([], session)
  {
  }

  /** Held actions name the session, and stand in the order they were pressed in. */
  ghost predicate AllFor(held: seq<Action>, session: Option<Sid>) {
    && (forall i :: 0 <= i < |held| ==> Some(held[i].session) == session)
    && forall i, j :: 0 <= i < j < |held| ==> held[i].id < held[j].id
  }

  lemma {:induction false} AllDue(held: seq<Action>, session: Option<Sid>)
    requires AllFor(held, session)
    ensures Due(held, session) == held && NotDue(held, session) == []
  {
    if held != [] {
      AllDue(held[1..], session);
      assert held == [held[0]] + held[1..];
    }
  }

  function Uploads(actions: seq<Action>): nat {
    if actions == [] then 0 else (if actions[0].kind.Upload? then 1 else 0) + Uploads(actions[1..])
  }

  lemma NoUploads()
    ensures Uploads([]) == 0
  {
  }

  function Ids(actions: seq<Action>): multiset<nat> {
    if actions == [] then multiset{} else multiset{actions[0].id} + Ids(actions[1..])
  }

  /** What is counted of a list of actions: their identities, and how many are uploads. */
  lemma {:induction false} CountsConcat(a: seq<Action>, b: seq<Action>)
    ensures Ids(a + b) == Ids(a) + Ids(b) && Uploads(a + b) == Uploads(a) + Uploads(b)
  {
    if a == [] {
      assert a + b == b;
    } else {
      assert (a + b)[0] == a[0] && (a + b)[1..] == a[1..] + b;
      CountsConcat(a[1..], b);
    }
  }

  lemma CountsOne(a: Action)
    ensures Ids([a]) == multiset{a.id} && Uploads([a]) == if a.kind.Upload? then 1 else 0
  {
    assert [a][1..] == [];
  }

  /** Every action ever bound: its kind, what became of it, the uploads under way, and what ran, in that order. */
  datatype Ledger = Ledger(kinds: map<nat, Kind>, fates: map<nat, Fate>, running: set<nat>, ran: seq<nat>)

  ghost predicate WaitingAre(l: Ledger, out: seq<Action>) {
    && (forall id: nat :: Ids(out)[id] == if id in l.fates && l.fates[id] == Waiting then 1 else 0)
    && (forall a :: a in out ==> a.id in l.kinds && l.kinds[a.id] == a.kind)
  }

  /** No message was ever dropped, only an upload that ran is under way, and what ran did so once. */
  ghost predicate Honest(l: Ledger, next: nat) {
    && l.kinds.Keys == l.fates.Keys && (forall id :: id in l.fates ==> id < next)
    && (forall id :: id in l.fates && l.fates[id] == Dropped ==> id in l.kinds && l.kinds[id] != SendMessage)
    && (forall id :: id in l.running ==> id in l.fates && l.fates[id] == Ran && id in l.kinds && l.kinds[id] == Upload)
    && RanOnce(l)
  }

  ghost predicate RanOnce(l: Ledger) {
    forall id: nat :: multiset(l.ran)[id] == if id in l.fates && l.fates[id] == Ran then 1 else 0
  }

  /** Each waiting action stands in `out` exactly once. */
  ghost predicate Accounts(l: Ledger, out: seq<Action>, next: nat) {
    WaitingAre(l, out) && Honest(l, next)
  }

  /** Every action known before keeps its kind, and a fate once met never changes; what ran stays as it ran. */
  ghost predicate Keeps(before: Ledger, after: Ledger) {
    before.ran <= after.ran && forall id :: id in before.fates && id in before.kinds ==>
      && id in after.fates && id in after.kinds && after.kinds[id] == before.kinds[id]
      && (before.fates[id] != Waiting ==> after.fates[id] == before.fates[id])
  }

  /** The same, no upload under way ends, and only actions that were waiting or new start one. */
  ghost predicate Follows(before: Ledger, after: Ledger) {
    && Keeps(before, after) && before.running <= after.running
    && forall id :: id in after.running && id !in before.running && id in before.fates && id in before.kinds ==>
         before.fates[id] == Waiting
  }

  lemma KeepsTransitive(a: Ledger, b: Ledger, c: Ledger)
    requires Keeps(a, b) && Keeps(b, c)
    ensures Keeps(a, c)
  {
  }

  lemma FollowsTransitive(a: Ledger, b: Ledger, c: Ledger)
    requires Follows(a, b) && Follows(b, c)
    ensures Follows(a, c)
  {
  }

  lemma FollowsSelf(a: Ledger)
    ensures Follows(a, a)
  {
  }

  /** Every one of `actions` met its fate: run when its switch landed, and when it never will, run if a message. */
  ghost predicate AllMet(l: Ledger, actions: seq<Action>, landed: bool) {
    forall a :: a in actions ==>
      a.id in l.fates && l.fates[a.id] == if landed || a.kind.SendMessage? then Ran else Dropped
  }

  /** The actions that run when their switch lands, or, when it never will, the messages among them. */
  function RunIds(actions: seq<Action>, landed: bool): seq<nat> {
    if actions == [] then []
    else
      var (front, last) := (RunIds(actions[..|actions| - 1], landed), actions[|actions| - 1]);
      if landed || last.kind.SendMessage? then front + [last.id] else front
  }

  /** The uploads among some actions that run. */
  function UploadIds(actions: seq<Action>, landed: bool): set<nat> {
    set i | 0 <= i < |actions| && landed && actions[i].kind.Upload? :: actions[i].id
  }

  /** All met their fate, what ran did so in the order it was held in, and the uploads of that are under way. */
  ghost predicate MetInOrder(before: Ledger, after: Ledger, actions: seq<Action>, landed: bool) {
    && AllMet(after, actions, landed) && after.ran == before.ran + RunIds(actions, landed)
    && after.running == before.running + UploadIds(actions, landed)
  }

  /** One of the actions that run has this identity. */
  ghost predicate Among(held: seq<Action>, landed: bool, id: nat) {
    exists k :: 0 <= k < |held| && held[k].id == id && (landed || held[k].kind.SendMessage?)
  }

  /** What runs of the held actions runs in the order they were pressed in: all of them, or just the messages. */
  lemma {:induction false} RunInPressOrder(held: seq<Action>, session: Option<Sid>, landed: bool)
    requires AllFor(held, session)
    ensures var ran := RunIds(held, landed);
            && (forall i, j :: 0 <= i < j < |ran| ==> ran[i] < ran[j])
            && forall id: nat :: id in ran <==> Among(held, landed, id)
  {
    if held != [] {
      var (front, last) := (held[..|held| - 1], held[|held| - 1]);
      RunInPressOrder(front, session, landed);
      var before := RunIds(front, landed);
      forall i | 0 <= i < |before|
        ensures before[i] < last.id
      {
        assert before[i] in before && Among(front, landed, before[i]);
        var k :| 0 <= k < |front| && front[k].id == before[i] && (landed || front[k].kind.SendMessage?);
        assert held[k].id < last.id;
      }
      forall id: nat
        ensures id in RunIds(held, landed) <==> Among(held, landed, id)
      {
        RunsIfAmong(held, front, landed, id);
      }
    }
  }

  lemma RunsIfAmong(held: seq<Action>, front: seq<Action>, landed: bool, id: nat)
    requires held != [] && front == held[..|held| - 1] && (id in RunIds(front, landed) <==> Among(front, landed, id))
    ensures id in RunIds(held, landed) <==> Among(held, landed, id)
  {
    if Among(front, landed, id) {
      var k :| 0 <= k < |front| && front[k].id == id && (landed || front[k].kind.SendMessage?);
      assert held[k] == front[k];
    }
    if Among(held, landed, id) {
      var k :| 0 <= k < |held| && held[k].id == id && (landed || held[k].kind.SendMessage?);
      assert k < |front| ==> front[k] == held[k];
    }
  }

  function Bind(l: Ledger, a: Action): Ledger {
    l.(kinds := l.kinds[a.id := a.kind], fates := l.fates[a.id := Waiting])
  }

  function Settle(l: Ledger, a: Action, fate: Fate): Ledger {
    l.(fates := l.fates[a.id := fate],
       running := if fate == Ran && a.kind.Upload? then l.running + {a.id} else l.running,
       ran := if fate == Ran then l.ran + [a.id] else l.ran)
  }

  /** A new action joins the outstanding ones, at the back or at the front. */
  lemma Bound(l: Ledger, out: seq<Action>, a: Action, next: nat)
    requires Accounts(l, out, next) && a.id == next
    ensures Accounts(Bind(l, a), out + [a], next + 1) && Accounts(Bind(l, a), [a] + out, next + 1)
    ensures Follows(l, Bind(l, a)) && Bind(l, a).running == l.running
    ensures Uploads(out + [a]) == Uploads([a] + out) == Uploads(out) + if a.kind.Upload? then 1 else 0
  {
    CountsOne(a);
    CountsConcat([a], out);
    CountsConcat(out, [a]);
    BoundHonest(l, a, next);
    BoundWaits(l, out, a);
    hide Ids, Uploads, Honest, WaitingAre, Follows;
  }

  lemma BoundHonest(l: Ledger, a: Action, next: nat)
    requires Honest(l, next) && a.id == next
    ensures Honest(Bind(l, a), next + 1) && Follows(l, Bind(l, a)) && a.id !in l.fates
  {
    assert RanOnce(Bind(l, a));
    hide RanOnce;
  }

  lemma BoundWaits(l: Ledger, out: seq<Action>, a: Action)
    requires WaitingAre(l, out) && a.id !in l.fates && l.kinds.Keys == l.fates.Keys
    ensures WaitingAre(Bind(l, a), out + [a]) && WaitingAre(Bind(l, a), [a] + out)
  {
    CountsOne(a);
    CountsConcat([a], out);
    CountsConcat(out, [a]);
    hide Ids;
    assert forall b :: b in out ==> b.id in l.fates;
  }

  /** A new action is pressed after every held one. */
  lemma PressedLast(l: Ledger, held: seq<Action>, a: Action)
    requires Accounts(l, held, a.id) && AllFor(held, Some(a.session))
    ensures AllFor(held + [a], Some(a.session))
  {
    forall i | 0 <= i < |held|
      ensures held[i].id < a.id
    {
      assert held[i] in held && held[i].id in l.kinds;
    }
  }

  /** Settling the first outstanding action leaves exactly the others waiting. */
  lemma SettledFirst(l: Ledger, a: Action, rest: seq<Action>)
    requires WaitingAre(l, [a] + rest)
    ensures a.id in l.fates && l.fates[a.id] == Waiting && a.id in l.kinds && l.kinds[a.id] == a.kind
    ensures forall fate :: fate != Waiting ==> WaitingAre(Settle(l, a, fate), rest)
  {
    CountsOne(a);
    CountsConcat([a], rest);
    hide Ids, Uploads;
    assert a in [a] + rest && Ids([a] + rest)[a.id] >= 1;
    assert forall b :: b in rest ==> b in [a] + rest;
  }

  lemma Settled(l: Ledger, a: Action, rest: seq<Action>, next: nat, fate: Fate)
    requires Accounts(l, [a] + rest, next) && fate != Waiting && (fate == Dropped ==> !a.kind.SendMessage?)
    ensures Accounts(Settle(l, a, fate), rest, next) && Follows(l, Settle(l, a, fate))
    ensures Uploads(rest) == Uploads([a] + rest) - if a.kind.Upload? then 1 else 0
    ensures |Settle(l, a, fate).running| == |l.running| + if fate == Ran && a.kind.Upload? then 1 else 0
  {
    CountsOne(a);
    CountsConcat([a], rest);
    SettledFirst(l, a, rest);
    hide Ids, Uploads, WaitingAre;
    SettledHonest(l, a, next, fate);
    hide Honest, Keeps, Settle;
  }

  lemma SettledHonest(l: Ledger, a: Action, next: nat, fate: Fate)
    requires Honest(l, next) && a.id in l.fates && l.fates[a.id] == Waiting && l.kinds[a.id] == a.kind
    requires fate != Waiting && (fate == Dropped ==> !a.kind.SendMessage?)
    ensures Honest(Settle(l, a, fate), next) && Follows(l, Settle(l, a, fate))
    ensures |Settle(l, a, fate).running| == |l.running| + if fate == Ran && a.kind.Upload? then 1 else 0
  {
    var after := Settle(l, a, fate);
    assert a.id !in l.running;
    SettledOnce(l, a, fate);
    SettledFollows(l, a, fate);
    hide RanOnce, Follows;
    assert after.kinds == l.kinds && after.fates.Keys == l.fates.Keys;
    forall id | id in after.fates
      ensures id < next && (after.fates[id] == Dropped ==> id in after.kinds && after.kinds[id] != SendMessage)
    {
      assert id != a.id ==> after.fates[id] == l.fates[id];
    }
    forall id | id in after.running
      ensures id in after.fates && after.fates[id] == Ran && id in after.kinds && after.kinds[id] == Upload
    {
      assert id != a.id ==> id in l.running;
    }
    hide Settle;
  }

  lemma SettledFollows(l: Ledger, a: Action, fate: Fate)
    requires a.id in l.fates && l.fates[a.id] == Waiting
    ensures Follows(l, Settle(l, a, fate))
  {
  }

  lemma SettledOnce(l: Ledger, a: Action, fate: Fate)
    requires RanOnce(l) && a.id in l.fates && l.fates[a.id] == Waiting && fate != Waiting
    ensures RanOnce(Settle(l, a, fate))
  {
    var after := Settle(l, a, fate);
    assert fate == Ran ==> multiset(after.ran) == multiset(l.ran) + multiset{a.id};
  }

  lemma MetNext(first: Ledger, before: Ledger, a: Action, met: seq<Action>, landed: bool)
    requires MetInOrder(first, before, met, landed)
    requires a.id in before.fates ==> before.fates[a.id] == Waiting
    ensures var after := Settle(before, a, if landed || a.kind.SendMessage? then Ran else Dropped);
            MetInOrder(first, after, met + [a], landed)
  {
    var after := Settle(before, a, if landed || a.kind.SendMessage? then Ran else Dropped);
    hide AllMet, RunIds, UploadIds;
    AllMetNext(before, a, met, landed);
    RunIdsNext(met, a, landed);
    UploadIdsNext(met, a, landed);
    assert after.ran == first.ran + RunIds(met + [a], landed);
    assert after.running == first.running + UploadIds(met + [a], landed);
    hide Settle;
  }

  lemma UploadIdsNext(met: seq<Action>, a: Action, landed: bool)
    ensures UploadIds(met + [a], landed) == UploadIds(met, landed) + if landed && a.kind.Upload? then {a.id} else {}
  {
    var all := met + [a];
    forall id | id in UploadIds(met, landed)
      ensures id in UploadIds(all, landed)
    {
      var i :| 0 <= i < |met| && met[i].kind.Upload? && met[i].id == id;
      assert all[i] == met[i];
    }
    assert all[|met|] == a;
  }

  /** Dropped uploads give their places in the counter back; nothing else leaves it. */
  lemma NoneUnderWayMore(before: Ledger, after: Ledger, actions: seq<Action>)
    requires MetInOrder(before, after, actions, false)
    ensures after.running == before.running
  {
  }

  lemma AllMetNext(before: Ledger, a: Action, met: seq<Action>, landed: bool)
    requires AllMet(before, met, landed) && (a.id in before.fates ==> before.fates[a.id] == Waiting)
    ensures AllMet(Settle(before, a, if landed || a.kind.SendMessage? then Ran else Dropped), met + [a], landed)
  {
  }

  lemma RunIdsNext(met: seq<Action>, a: Action, landed: bool)
    ensures RunIds(met + [a], landed) == RunIds(met, landed) + if landed || a.kind.SendMessage? then [a.id] else []
  {
    assert (met + [a])[..|met|] == met;
  }

  lemma NoneMet(l: Ledger, landed: bool)
    ensures MetInOrder(l, l, [], landed)
  {
  }

  /** The map counts the open input-work windows of each message, and names only open ones. */
  ghost predicate Tallies(inputWork: map<string, nat>, windows: multiset<string>) {
    && (forall m :: m in inputWork <==> windows[m] > 0)
    && (forall m :: m in inputWork ==> inputWork[m] == windows[m])
  }

  lemma TalliesOpen(inputWork: map<string, nat>, windows: multiset<string>, m: string)
    requires Tallies(inputWork, windows)
    ensures Tallies(inputWork[m := (if m in inputWork then inputWork[m] else 0) + 1], windows + multiset{m})
    ensures windows + multiset{m} != multiset{}
  {
    assert m in windows + multiset{m};
  }

  /** A window of `m` closes: the count drops by one, and the last one takes the entry out. */
  function Closing(inputWork: map<string, nat>, m: string): map<string, nat> {
    if m in inputWork && inputWork[m] > 1 then inputWork[m := inputWork[m] - 1] else inputWork - {m}
  }

  lemma TalliesClose(inputWork: map<string, nat>, windows: multiset<string>, m: string)
    requires Tallies(inputWork, windows)
    ensures Tallies(Closing(inputWork, m), windows - multiset{m})
  {
    var less := windows - multiset{m};
    assert forall n :: n != m ==> less[n] == windows[n];
    assert less[m] == if windows[m] > 0 then windows[m] - 1 else 0;
  }

  lemma TalliesNone(inputWork: map<string, nat>, windows: multiset<string>)
    requires Tallies(inputWork, windows)
    ensures |inputWork| > 0 <==> windows != multiset{}
  {
    if windows != multiset{} {
      var m :| m in windows;
      assert m in inputWork;
      assert |inputWork.Keys| > 0;
    } else {
      assert inputWork.Keys == {};
    }
  }

  /**
   Where the page is: what it has loaded, what it displays, the switches under way, and whether the newest
   one, or a creation, ended without running what the page holds.
   */
  datatype Nav = Nav(active: Option<Sid>, displayed: Option<Sid>, generation: nat, inFlight: map<nat, Sid>,
                     stranded: bool)
  datatype Snapshot = Snapshot(ledger: Ledger, windows: multiset<string>, nav: Nav, held: seq<Action>)

  class SessionPage {
    var active: Option<Sid>            // SESSION_ID
    var displayed: Option<Sid>
    var generation: nat
    var switching: bool
    var inFlight: map<nat, Sid>        // awaited bootstraps, by switch generation
    var held: seq<Action>
    var nextAction: nat
    var uploadsInFlight: int
    var inputWork: map<string, nat>
    var sendDisabled: bool
    var ledger: Ledger                 // the requests sent on behalf of composer actions
    ghost var windows: multiset<string>
    ghost var stranded: bool           // the newest switch ended without running what the page holds for it

    ghost predicate LockValid()
      reads this`uploadsInFlight, this`inputWork, this`sendDisabled, this`windows
    {
      && Tallies(inputWork, windows)
      && (sendDisabled <==> uploadsInFlight > 0 || windows != multiset{})
    }

    /** The outstanding actions are `out`; the upload counter counts the held and the running uploads. */
    ghost predicate Outstanding(out: seq<Action>)
      reads this`ledger, this`nextAction, this`uploadsInFlight
    {
      Accounts(ledger, out, nextAction) && uploadsInFlight == Uploads(out) + |ledger.running|
    }

    /**
     The newest switch, while it is under way, is the one the page displays. Otherwise the page has loaded
     what it displays and holds nothing, unless that switch left the page stranded.
     */
    ghost predicate SwitchValid()
      reads this`inFlight, this`generation, this`displayed, this`active, this`held, this`stranded
    {
      && (forall g :: g in inFlight ==> g <= generation)
      && (generation in inFlight ==> !stranded && displayed == Some(inFlight[generation]))
      && (generation !in inFlight && !stranded ==> displayed == active && held == [])
    }

    ghost predicate Valid()
      reads this
    {
      AllFor(held, displayed) && Outstanding(held) && LockValid() && SwitchValid()
    }

    ghost function At(): Nav
      reads this`generation, this`active, this`displayed, this`inFlight, this`stranded
    {
      Nav(active, displayed, generation, inFlight, stranded)
    }

    /** What of the page an event is judged by. */
    ghost function Snap(): Snapshot
      reads this`ledger, this`windows, this`held
      reads this`generation, this`active, this`displayed, this`inFlight, this`stranded
    {
      Snapshot(ledger, windows, At(), held)
    }

    constructor (session: Option<Sid>)
      ensures Valid() && active == displayed == session && held == [] && !sendDisabled && inFlight == map[]
    {
      active, displayed, generation, switching, inFlight := session, session, 0, false, map[];
      held, nextAction, uploadsInFlight, inputWork, sendDisabled := [], 0, 0, map[], false;
      ledger, windows, stranded := Ledger(map[], map[], {}, []), multiset{}, false;
    }

    // ---- the send lock ----------------------------------------------------------------------------------

    method RefreshSendLock()
      requires Tallies(inputWork, windows)
      modifies this`sendDisabled
      ensures LockValid()
    {
      hide Tallies;
      TalliesNone(inputWork, windows);
      sendDisabled := uploadsInFlight > 0 || |inputWork| > 0;
    }

    lemma LockTallies()
      requires LockValid()
      ensures Tallies(inputWork, windows)
    {
    }

    method SetUploadingState(busy: bool)
      requires LockValid()
      modifies this`uploadsInFlight, this`sendDisabled
      ensures LockValid() && uploadsInFlight == old(uploadsInFlight) + (if busy then 1 else -1)
    {
      uploadsInFlight := uploadsInFlight + (if busy then 1 else -1);
      RefreshSendLock();
    }

    method InputWorkStarted(message: string)
      requires Valid()
      modifies this`inputWork, this`sendDisabled, this`windows
      ensures Valid() && windows == old(windows) + multiset{message} && sendDisabled
    {
      hide Outstanding, AllFor, Tallies, SwitchValid;
      TalliesOpen(inputWork, windows, message);
      inputWork := inputWork[message := (if message in inputWork then inputWork[message] else 0) + 1];
      windows := windows + multiset{message};
      RefreshSendLock();
    }

    method InputWorkSettled(message: string)
      requires Valid()
      modifies this`inputWork, this`sendDisabled, this`windows
      ensures Valid() && windows == old(windows) - multiset{message}
    {
      hide Outstanding, AllFor, LockValid, Tallies, SwitchValid, Closing;
      LockTallies();
      TalliesClose(inputWork, windows, message);
      inputWork := Closing(inputWork, message);
      windows := windows - multiset{message};
      RefreshSendLock();
    }

    // ---- running, dropping and holding actions --------------------------------------------------------------

    /** An action's `run`: a message posts, a stop is sent, an upload starts. */
    method Run(a: Action, ghost rest: seq<Action>)
      requires Outstanding([a] + rest)
      modifies this`ledger
      ensures Outstanding(rest) && Follows(old(ledger), ledger) && ledger == Settle(old(ledger), a, Ran)
    {
      Settled(ledger, a, rest, nextAction, Ran);
      hide Accounts, Follows, Uploads, Settle;
      ledger := Settle(ledger, a, Ran);
    }

    /** An action's `drop`: an attachment gives its place in the counter back. */
    method Drop(a: Action, ghost rest: seq<Action>)
      requires Outstanding([a] + rest) && LockValid() && !a.kind.SendMessage?
      modifies this`ledger, this`uploadsInFlight, this`sendDisabled
      ensures Outstanding(rest) && LockValid() && Follows(old(ledger), ledger)
              && ledger == Settle(old(ledger), a, Dropped)
    {
      Settled(ledger, a, rest, nextAction, Dropped);
      hide Accounts, Follows, Uploads, LockValid, Settle;
      ledger := Settle(ledger, a, Dropped);
      if a.kind.Upload? {
        SetUploadingState(false);
      }
    }

    /** Of the actions `due`, the first `k` have met their fate and the others are all that waits. */
    ghost predicate Through(due: seq<Action>, k: nat, landed: bool, first: Ledger)
      requires k <= |due|
      reads this`ledger, this`nextAction, this`uploadsInFlight
    {
      Outstanding(due[k..]) && MetInOrder(first, ledger, due[..k], landed) && Follows(first, ledger)
    }

    lemma ThroughStart(due: seq<Action>, landed: bool)
      requires Outstanding(due)
      ensures Through(due, 0, landed, ledger)
    {
      hide Outstanding, MetInOrder;
      NoneMet(ledger, landed);
      FollowsSelf(ledger);
      assert due[0..] == due && due[..0] == [];
    }

    lemma ThroughEnd(due: seq<Action>, landed: bool, first: Ledger)
      requires Through(due, |due|, landed, first)
      ensures Outstanding([]) && MetInOrder(first, ledger, due, landed) && Follows(first, ledger)
    {
      hide Outstanding, MetInOrder, Follows;
      assert due[..|due|] == due && due[|due|..] == [];
    }

    method RunNext(due: seq<Action>, k: nat, ghost landed: bool, ghost first: Ledger)
      requires k < |due| && Through(due, k, landed, first) && (landed || due[k].kind.SendMessage?)
      modifies this`ledger
      ensures Through(due, k + 1, landed, first)
    {
      hide Outstanding, MetInOrder, Follows, Settle;
      assert due[k..] == [due[k]] + due[k + 1..] && due[..k + 1] == due[..k] + [due[k]];
      ghost var before := ledger;
      FirstWaits(due[k], due[k + 1..]);
      Run(due[k], due[k + 1..]);
      MetNext(first, before, due[k], due[..k], landed);
      FollowsTransitive(first, before, ledger);
    }

    method DropNext(due: seq<Action>, k: nat, ghost first: Ledger)
      requires k < |due| && Through(due, k, false, first) && LockValid() && !due[k].kind.SendMessage?
      modifies this`ledger, this`uploadsInFlight, this`sendDisabled
      ensures Through(due, k + 1, false, first) && LockValid()
    {
      hide Outstanding, MetInOrder, Follows, Settle, LockValid;
      assert due[k..] == [due[k]] + due[k + 1..] && due[..k + 1] == due[..k] + [due[k]];
      ghost var before := ledger;
      FirstWaits(due[k], due[k + 1..]);
      Drop(due[k], due[k + 1..]);
      MetNext(first, before, due[k], due[..k], false);
      FollowsTransitive(first, before, ledger);
    }

    /** `runHeldComposerActions` for the session every held action names. */
    method RunHeldComposerActions(session: Option<Sid>)
      requires AllFor(held, session) && Outstanding(held)
      modifies this`held, this`ledger
      ensures held == [] && Outstanding([]) && Follows(old(ledger), ledger)
      ensures MetInOrder(old(ledger), ledger, old(held), true)
    {
      hide Outstanding, AllFor, Follows, Due, NotDue, MetInOrder, Through;
      AllDue(held, session);
      var due := Due(held, session);
      held := NotDue(held, session);
      ThroughStart(due, true);
      for i := 0 to |due|
        invariant Through(due, i, true, old(ledger)) && held == []
      {
        RunNext(due, i, true, old(ledger));
      }
      ThroughEnd(due, true, old(ledger));
    }

    /** `abandonHeldComposerActions`: a held message posts, anything else is dropped. */
    method AbandonHeldComposerActions(session: Option<Sid>)
      requires AllFor(held, session) && Outstanding(held) && LockValid()
      modifies this`held, this`ledger, this`uploadsInFlight, this`sendDisabled
      ensures held == [] && Outstanding([]) && LockValid() && Follows(old(ledger), ledger)
      ensures MetInOrder(old(ledger), ledger, old(held), false)
      ensures uploadsInFlight == old(uploadsInFlight) - Uploads(old(held))
    {
      hide Outstanding, AllFor, Follows, Due, NotDue, MetInOrder, Through, LockValid;
      AllDue(held, session);
      CounterIs(held);
      var due := Due(held, session);
      held := NotDue(held, session);
      ThroughStart(due, false);
      for i := 0 to |due|
        invariant Through(due, i, false, old(ledger)) && held == [] && LockValid()
      {
        if due[i].kind.SendMessage? {
          RunNext(due, i, false, old(ledger));
        } else {
          DropNext(due, i, old(ledger));
        }
      }
      ThroughEnd(due, false, old(ledger));
      NoneUnderWayMore(old(ledger), ledger, due);
      CounterIs([]);
    }

    lemma CounterIs(out: seq<Action>)
      requires Outstanding(out)
      ensures uploadsInFlight == Uploads(out) + |ledger.running| && Uploads([]) == 0
    {
      hide Accounts;
    }

    lemma FirstWaits(a: Action, rest: seq<Action>)
      requires Outstanding([a] + rest)
      ensures a.id in ledger.fates && ledger.fates[a.id] == Waiting
    {
      hide WaitingAre;
      SettledFirst(ledger, a, rest);
    }

    /** `blockIfUploadsInFlight`: the gate of the message paths refuses exactly while the button is locked. */
    method BlockIfUploadsInFlight() returns (refused: bool)
      requires LockValid()
      ensures refused <==> sendDisabled
    {
      refused := !(uploadsInFlight <= 0 && |inputWork| == 0);
      TalliesNone(inputWork, windows);
    }

    lemma NextIsUnbound()
      requires Outstanding(held)
      ensures nextAction !in ledger.fates
    {
      hide WaitingAre;
    }

    /**
     From ledger and held list `l` and `h`, action `a` runs at once when its session is loaded and waits
     otherwise.
     */
    ghost predicate Takes(l: Ledger, h: seq<Action>, a: Action)
      reads this`ledger, this`held, this`active
    {
      if active == Some(a.session) then ledger == Settle(Bind(l, a), a, Ran) && held == h
      else ledger == Bind(l, a) && held == h + [a]
    }

    /** `bindComposerAction`, with the place in the counter an upload takes just before. */
    method BindComposerAction(a: Action)
      requires AllFor(held, displayed) && Outstanding(held) && LockValid()
      requires a.id == nextAction && Some(a.session) == displayed
      modifies this`held, this`ledger, this`nextAction, this`uploadsInFlight, this`sendDisabled
      ensures AllFor(held, displayed) && Outstanding(held) && LockValid() && Follows(old(ledger), ledger)
      ensures nextAction == old(nextAction) + 1
      ensures Takes(old(ledger), old(held), a)
    {
      hide LockValid, Uploads, Bind, Settle, Follows, Accounts, Honest, WaitingAre;
      Bound(ledger, held, a, nextAction);
      PressedLast(ledger, held, a);
      hide AllFor;
      nextAction := nextAction + 1;
      ledger := Bind(ledger, a);
      ghost var before, during := old(ledger), ledger;
      if a.kind.Upload? {
        SetUploadingState(true);
      }
      if active == Some(a.session) {
        Run(a, held);
        FollowsTransitive(before, during, ledger);
      } else {
        held := held + [a];
      }
    }

    /**
     A press binds the displayed session: it runs at once when that one is loaded, and waits otherwise.
     A message press passes the gate first, and an upload takes its place in the counter before it binds.
     */
    method Press(kind: Kind) returns (bound: Option<nat>)
      requires Valid()
      modifies this`held, this`ledger, this`nextAction, this`uploadsInFlight, this`sendDisabled
      ensures Valid() && Follows(old(ledger), ledger)
      ensures bound.None? <==> displayed.None? || (kind.SendMessage? && old(sendDisabled))
      ensures bound.None? ==> held == old(held) && ledger == old(ledger)
      ensures bound.Some? ==> bound.value == old(nextAction) && bound.value !in old(ledger).fates
      ensures bound.Some? ==> Takes(old(ledger), old(held), Action(bound.value, displayed.value, kind))
      ensures HeldBy(old(Snap()), Snap(), Pressed(kind))
    {
      ghost var was := Snap();
      RefusedIs(kind);
      FollowsSelf(ledger);
      hide Outstanding, Follows, AllFor, LockValid, Bind, Settle, HeldBy, Refuses;
      bound := TakePress(kind);
      PressedHeld(was, Snap(), kind, bound);
    }

    lemma RefusedIs(kind: Kind)
      requires Valid()
      ensures Refuses(Snap(), kind) <==> displayed.None? || (kind.SendMessage? && sendDisabled)
    {
      WhatValidMeans(this);
      hide Uploads;
    }

    method TakePress(kind: Kind) returns (bound: Option<nat>)
      requires Valid()
      modifies this`held, this`ledger, this`nextAction, this`uploadsInFlight, this`sendDisabled
      ensures Valid() && Follows(old(ledger), ledger)
      ensures bound.None? <==> displayed.None? || (kind.SendMessage? && old(sendDisabled))
      ensures bound.None? ==> held == old(held) && ledger == old(ledger)
      ensures bound.Some? ==> bound.value == old(nextAction) && bound.value !in old(ledger).fates
      ensures bound.Some? ==> Takes(old(ledger), old(held), Action(bound.value, displayed.value, kind))
    {
      FollowsSelf(ledger);
      hide Outstanding, Follows, AllFor, LockValid, Bind, Settle;
      NextIsUnbound();
      bound := None;
      if kind.SendMessage? {
        var refused := BlockIfUploadsInFlight();
        if refused {
          return;
        }
      }
      if displayed.None? {
        return;
      }
      bound := Some(nextAction);
      BindComposerAction(Action(nextAction, displayed.value, kind));
    }

    /** An upload's request settles, whatever its answer. */
    method FinishUpload(id: nat)
      requires Valid() && id in ledger.running
      modifies this`ledger, this`uploadsInFlight, this`sendDisabled
      ensures Valid() && Keeps(old(ledger), ledger) && ledger == old(ledger).(running := old(ledger).running - {id})
    {
      hide Ids, LockValid, Uploads;
      ledger := ledger.(running := ledger.running - {id});
      SetUploadingState(false);
    }

    // ---- switching sessions -----------------------------------------------------------------------------

    method SetDisplayedSession(session: Option<Sid>)
      requires AllFor(held, displayed) && Outstanding(held) && LockValid()
      modifies this`displayed, this`held, this`ledger, this`uploadsInFlight, this`sendDisabled
      ensures AllFor(held, displayed) && Outstanding(held) && LockValid() && Follows(old(ledger), ledger)
      ensures displayed == session
      ensures session == old(displayed) ==> held == old(held) && ledger == old(ledger)
      ensures session != old(displayed) ==> held == [] && MetInOrder(old(ledger), ledger, old(held), false)
      ensures session != old(displayed) ==> uploadsInFlight == old(uploadsInFlight) - Uploads(old(held))
    {
      FollowsSelf(ledger);
      NobodyFor(session);
      hide Outstanding, Follows, LockValid, MetInOrder, AllFor, SwitchValid;
      if session != displayed {
        AbandonHeldComposerActions(displayed);
      }
      displayed := session;
    }

    /** `switchSession` up to its await: the page shows the target at once, and only its generation may land. */
    method SwitchSession(target: Sid) returns (click: Click)
      requires Valid()
      modifies this`switching, this`generation, this`inFlight, this`displayed, this`held, this`ledger
      modifies this`uploadsInFlight, this`sendDisabled, this`stranded
      ensures Valid() && Follows(old(ledger), ledger) && active == old(active)
      ensures At() == NavAfter(old(At()), Clicked(target))
      ensures Resolved(old(Snap()), Snap(), Resolves(old(At()), Clicked(target)))
      ensures click == Navigates <==> active.None?
      ensures click == AlreadyThere <==> active == Some(target)
      ensures click.Started? ==> generation == old(generation) + 1 && click.generation == generation
                                 && inFlight == old(inFlight)[generation := target] && displayed == Some(target)
                                 && !stranded
      ensures click.Started? && old(displayed) != Some(target) ==>
                && held == [] && MetInOrder(old(ledger), ledger, old(held), false)
                && uploadsInFlight == old(uploadsInFlight) - Uploads(old(held))
      ensures click.Started? && old(displayed) == Some(target) ==> held == old(held) && ledger == old(ledger)
      ensures !click.Started? ==> generation == old(generation) && displayed == old(displayed) && held == old(held)
                                  && ledger == old(ledger) && stranded == old(stranded) && inFlight == old(inFlight)
    {
      FollowsSelf(ledger);
      NobodyFor(displayed);
      hide Outstanding, Follows, LockValid, MetInOrder, AllFor;
      if active.None? {
        return Navigates;
      }
      if active == Some(target) {
        return AlreadyThere;
      }
      switching := true;
      generation := generation + 1;
      SetDisplayedSession(Some(target));
      inFlight := inFlight[generation := target];
      stranded := false;
      click := Started(generation);
    }

    /**
     The bootstrap of switch `gen` answers. Only the newest generation writes the active session; its
     landing runs every held action, unless its render throws.
     */
    method Land(gen: nat, renders: bool) returns (landed: bool)
      requires Valid() && gen in inFlight
      modifies this`inFlight, this`active, this`switching, this`held, this`ledger, this`stranded
      ensures Valid() && Follows(old(ledger), ledger) && generation == old(generation) && displayed == old(displayed)
      ensures At() == NavAfter(old(At()), Answered(gen, renders))
      ensures Resolved(old(Snap()), Snap(), Resolves(old(At()), Answered(gen, renders)))
      ensures landed <==> gen == generation
      ensures active == if landed then Some(old(inFlight)[gen]) else old(active)
      ensures landed ==> active == displayed
      ensures landed && renders ==> held == [] && MetInOrder(old(ledger), ledger, old(held), true)
      ensures !(landed && renders) ==> held == old(held) && ledger == old(ledger)
      ensures inFlight == old(inFlight) - {gen} && stranded == if landed then !renders else old(stranded)
    {
      FollowsSelf(ledger);
      NobodyFor(displayed);
      hide Outstanding, Follows, LockValid, MetInOrder, AllFor;
      var target := inFlight[gen];
      inFlight := inFlight - {gen};
      landed := gen == generation;
      if !landed {
        return;
      }
      active := Some(target);
      stranded := !renders;
      if renders {
        switching := false;
        RunHeldComposerActions(Some(target));
      }
    }

    /** The bootstrap of switch `gen` is refused: the newest switch resolves what it held, an older one nothing. */
    method FailSwitch(gen: nat) returns (current: bool)
      requires Valid() && gen in inFlight
      modifies this`inFlight, this`switching, this`held, this`ledger, this`uploadsInFlight, this`sendDisabled,
               this`stranded
      ensures Valid() && Follows(old(ledger), ledger) && active == old(active) && generation == old(generation)
      ensures At() == NavAfter(old(At()), Refused(gen))
      ensures Resolved(old(Snap()), Snap(), Resolves(old(At()), Refused(gen)))
      ensures displayed == old(displayed) && (current <==> gen == generation)
      ensures current ==> held == [] && MetInOrder(old(ledger), ledger, old(held), false)
                          && uploadsInFlight == old(uploadsInFlight) - Uploads(old(held))
      ensures !current ==> held == old(held) && ledger == old(ledger)
      ensures inFlight == old(inFlight) - {gen} && (stranded <==> current || old(stranded))
    {
      FollowsSelf(ledger);
      NobodyFor(displayed);
      hide Outstanding, Follows, LockValid, MetInOrder, AllFor;
      var target := inFlight[gen];
      inFlight := inFlight - {gen};
      current := gen == generation;
      if current {
        AbandonHeldComposerActions(Some(target));
        switching := false;
        stranded := true;
      }
    }

    /** `createTaskNode` after its POST: the new session is displayed and loaded in one step. */
    method CreateTaskNode(created: Sid, renders: bool)
      requires Valid()
      modifies this`switching, this`generation, this`active, this`displayed, this`held, this`ledger
      modifies this`uploadsInFlight, this`sendDisabled, this`stranded
      ensures Valid() && Follows(old(ledger), ledger)
      ensures At() == NavAfter(old(At()), Created(created, renders))
      ensures Resolved(old(Snap()), Snap(), Resolves(old(At()), Created(created, renders)))
      ensures old(active).None? ==>
              active == old(active) && displayed == old(displayed) && held == old(held) && generation == old(generation)
      ensures old(active).Some? ==> active == displayed == Some(created) && generation == old(generation) + 1
                                    && generation !in inFlight && (stranded <==> old(displayed) == Some(created))
      ensures old(active).Some? && old(displayed) != Some(created) ==>
                && held == [] && MetInOrder(old(ledger), ledger, old(held), false)
                && uploadsInFlight == old(uploadsInFlight) - Uploads(old(held))
      ensures old(active).Some? && old(displayed) == Some(created) ==> held == old(held) && ledger == old(ledger)
      ensures old(active).None? ==> ledger == old(ledger) && stranded == old(stranded)
    {
      FollowsSelf(ledger);
      NobodyFor(displayed);
      CreatedMeans(At(), created, renders);
      hide Outstanding, Follows, LockValid, MetInOrder, AllFor, Tallies, Uploads, NavAfter, Resolves;
      if active.None? {
        return;
      }
      switching := true;
      generation := generation + 1;
      stranded := displayed == Some(created);
      SetDisplayedSession(Some(created));
      active := Some(created);
      if renders {
        switching := false;
      }
    }

    /** `renderNoActiveSessionView`: back to the welcome page. */
    method RenderNoActiveSessionView()
      requires Valid()
      modifies this`switching, this`generation, this`active, this`displayed, this`held, this`ledger
      modifies this`uploadsInFlight, this`sendDisabled, this`stranded
      ensures Valid() && Follows(old(ledger), ledger)
      ensures At() == NavAfter(old(At()), Archived)
      ensures Resolved(old(Snap()), Snap(), Resolves(old(At()), Archived))
      ensures MetInOrder(old(ledger), ledger, old(held), false)
      ensures uploadsInFlight == old(uploadsInFlight) - Uploads(old(held))
      ensures active == displayed == None && held == [] && generation == old(generation) + 1 && generation !in inFlight
              && !stranded
    {
      hide Outstanding, Follows, LockValid, MetInOrder, AllFor, Uploads;
      switching := true;
      generation := generation + 1;
      active := None;
      ShowNoSession();
      stranded := false;
      switching := false;
    }

    /** `setDisplayedSession(null, null)`. */
    method ShowNoSession()
      requires AllFor(held, displayed) && Outstanding(held) && LockValid()
      modifies this`displayed, this`held, this`ledger, this`uploadsInFlight, this`sendDisabled
      ensures AllFor(held, displayed) && Outstanding(held) && LockValid() && Follows(old(ledger), ledger)
      ensures displayed == None && held == [] && MetInOrder(old(ledger), ledger, old(held), false)
      ensures uploadsInFlight == old(uploadsInFlight) - Uploads(old(held))
    {
      SomebodyFor(held, displayed);
      NoneMet(ledger, false);
      NoUploads();
      hide Outstanding, Follows, LockValid, MetInOrder, AllFor, Uploads;
      SetDisplayedSession(None);
    }
  }

  datatype Event =
    | Pressed(kind: Kind)
    | Clicked(target: Sid)
    | Answered(generation: nat, renders: bool)
    | Refused(generation: nat)
    | Created(created: Sid, renders: bool)
    | Archived
    | Uploaded(id: nat)
    | WorkOpened(message: string)
    | WorkSettled(message: string)

  /** What an event does to the open input-work windows. */
  ghost function WindowsAfter(windows: multiset<string>, e: Event): multiset<string> {
    match e
    case WorkOpened(message) => windows + multiset{message}
    case WorkSettled(message) => windows - multiset{message}
    case _ => windows
  }

  /**
   Where an event takes the page. A click that starts shows its target at once, the newest switch's answer
   loads it, a refusal leaves it unloaded, a creation shows and loads at once, an archive leaves nothing.
   */
  ghost function NavAfter(n: Nav, e: Event): Nav {
    match e
    case Clicked(target) =>
      if n.active.None? || n.active == Some(target) then n
      else n.(displayed := Some(target), generation := n.generation + 1,
              inFlight := n.inFlight[n.generation + 1 := target], stranded := false)
    case Answered(g, renders) =>
      if g !in n.inFlight then n
      else if g != n.generation then n.(inFlight := n.inFlight - {g})
      else n.(active := Some(n.inFlight[g]), inFlight := n.inFlight - {g}, stranded := !renders)
    case Refused(g) =>
      if g !in n.inFlight then n
      else n.(inFlight := n.inFlight - {g}, stranded := n.stranded || g == n.generation)
    case Created(created, _) =>
      if n.active.None? then n
      else n.(active := Some(created), displayed := Some(created), generation := n.generation + 1,
              stranded := n.displayed == Some(created))
    case Archived => n.(active := None, displayed := None, generation := n.generation + 1, stranded := false)
    case _ => n
  }

  lemma CreatedMeans(n: Nav, created: Sid, renders: bool)
    ensures var (now, r) := (NavAfter(n, Created(created, renders)), Resolves(n, Created(created, renders)));
            if n.active.None? then now == n && r == None
            else now == Nav(Some(created), Some(created), n.generation + 1, n.inFlight, n.displayed == Some(created))
                 && r == if n.displayed == Some(created) then None else Some(false)
  {
  }

  /** Only the newest switch's answer, a creation or an archive writes the active session. */
  lemma NewestWrites(was: Nav, e: Event)
    ensures var now := NavAfter(was, e);
            && was.generation <= now.generation
            && (now.active != was.active ==>
                  || (e.Answered? && e.generation == was.generation && e.generation in was.inFlight
                      && now.active == Some(was.inFlight[e.generation]))
                  || (e.Created? && now.active == Some(e.created)) || (e.Archived? && now.active == None))
  {
  }

  /**
   What an event settles of the held actions: the newest switch's landing runs them all, and its refusal, or
   a move to another session, runs the messages and drops the rest; `None` leaves them held.
   */
  ghost function Resolves(n: Nav, e: Event): Option<bool> {
    match e
    case Clicked(target) =>
      if n.active.Some? && n.active != Some(target) && n.displayed != Some(target) then Some(false) else None
    case Answered(g, renders) => if g in n.inFlight && g == n.generation && renders then Some(true) else None
    case Refused(g) => if g in n.inFlight && g == n.generation then Some(false) else None
    case Created(created, _) => if n.active.Some? && n.displayed != Some(created) then Some(false) else None
    case Archived => Some(false)
    case _ => None
  }

  ghost predicate Resolved(was: Snapshot, now: Snapshot, r: Option<bool>) {
    match r
    case None => now.held == was.held && now.ledger == was.ledger
    case Some(landed) => now.held == [] && MetInOrder(was.ledger, now.ledger, was.held, landed)
  }

  /** A press is refused without a displayed session, and a message also while an upload or input work is open. */
  ghost predicate Refuses(was: Snapshot, kind: Kind) {
    || was.nav.displayed.None?
    || (kind.SendMessage? && (Uploads(was.held) + |was.ledger.running| > 0 || was.windows != multiset{}))
  }

  /** A new action of the displayed session runs at once when that one is loaded, and joins the held ones otherwise. */
  ghost predicate PressTakes(was: Snapshot, now: Snapshot, kind: Kind, a: Action) {
    && a.kind == kind && Some(a.session) == was.nav.displayed && a.id !in was.ledger.fates
    && if was.nav.active == Some(a.session)
       then now.held == was.held && now.ledger == Settle(Bind(was.ledger, a), a, Ran)
       else now.held == was.held + [a] && now.ledger == Bind(was.ledger, a)
  }

  /** What an event does to the held actions and their fates. */
  ghost predicate HeldBy(was: Snapshot, now: Snapshot, e: Event) {
    match e
    case Pressed(kind) =>
      if Refuses(was, kind) then now.held == was.held && now.ledger == was.ledger
      else exists a: Action :: PressTakes(was, now, kind, a)
    case Uploaded(_) => now.held == was.held && now.ledger.fates == was.ledger.fates && now.ledger.ran == was.ledger.ran
    case _ => Resolved(was, now, Resolves(was.nav, e))
  }

  /**
   What one event may do. Only the events of input work open and close windows, only the end of its own
   request ends a running upload, and only an action that was new or waiting starts one.
   */
  ghost predicate Handled(was: Snapshot, now: Snapshot, e: Event) {
    && Keeps(was.ledger, now.ledger) && now.nav == NavAfter(was.nav, e) && now.windows == WindowsAfter(was.windows, e)
    && HeldBy(was, now, e)
    && (if e.Uploaded? then now.ledger.running == was.ledger.running - {e.id} else Follows(was.ledger, now.ledger))
  }

  lemma FollowsKeeps(a: Ledger, b: Ledger)
    requires Follows(a, b)
    ensures Keeps(a, b)
  {
  }

  /** An answer or a refusal for no switch under way moves nothing. */
  lemma NoneUnderWay(was: Snapshot, e: Event)
    ensures (e.Answered? || e.Refused?) && e.generation !in was.nav.inFlight ==>
              NavAfter(was.nav, e) == was.nav && Resolved(was, was, Resolves(was.nav, e))
  {
  }

  lemma MoveHandled(was: Snapshot, now: Snapshot, e: Event)
    requires e.Clicked? || e.Answered? || e.Refused? || e.Created? || e.Archived?
    requires Follows(was.ledger, now.ledger) && now.windows == was.windows && now.nav == NavAfter(was.nav, e)
    requires Resolved(was, now, Resolves(was.nav, e))
    ensures Handled(was, now, e)
  {
    hide NavAfter, Resolves, Resolved;
  }

  lemma PressHandled(was: Snapshot, now: Snapshot, e: Event)
    requires e.Pressed? && Follows(was.ledger, now.ledger) && now.windows == was.windows && now.nav == was.nav
    requires HeldBy(was, now, e)
    ensures Handled(was, now, e)
  {
    hide HeldBy;
  }

  lemma WorkHandled(was: Snapshot, now: Snapshot, e: Event)
    requires (e.WorkOpened? || e.WorkSettled?) && now.ledger == was.ledger && now.held == was.held
    requires now.nav == was.nav && now.windows == WindowsAfter(was.windows, e)
    ensures Handled(was, now, e)
  {
    FollowsSelf(was.ledger);
    hide Follows, WindowsAfter;
    FollowsKeeps(was.ledger, now.ledger);
  }

  /** The events that move the page between sessions. */
  method HandleMove(page: SessionPage, e: Event)
    requires page.Valid() && (e.Clicked? || e.Answered? || e.Refused? || e.Created? || e.Archived?)
    modifies page
    ensures page.Valid() && Follows(old(page.ledger), page.ledger) && page.windows == old(page.windows)
    ensures page.At() == NavAfter(old(page.At()), e)
    ensures Resolved(old(page.Snap()), page.Snap(), Resolves(old(page.At()), e))
    ensures Handled(old(page.Snap()), page.Snap(), e)
  {
    ghost var was := page.Snap();
    FollowsSelf(page.ledger);
    NoneUnderWay(page.Snap(), e);
    hide SessionPage.Valid, Follows, MetInOrder, NavAfter, Resolves, Resolved, Uploads, Handled;
    match e {
      case Clicked(target) =>
        var _ := page.SwitchSession(target);
      case Answered(g, renders) =>
        if g in page.inFlight {
          var _ := page.Land(g, renders);
        }
      case Refused(g) =>
        if g in page.inFlight {
          var _ := page.FailSwitch(g);
        }
      case Created(created, renders) =>
        page.CreateTaskNode(created, renders);
      case Archived =>
        page.RenderNoActiveSessionView();
    }
    MoveHandled(was, page.Snap(), e);
  }

  lemma PressedHeld(was: Snapshot, now: Snapshot, kind: Kind, bound: Option<nat>)
    requires bound.None? <==> Refuses(was, kind)
    requires bound.None? ==> now.held == was.held && now.ledger == was.ledger
    requires bound.Some? ==>
      && was.nav.displayed.Some? && bound.value !in was.ledger.fates
      && var a := Action(bound.value, was.nav.displayed.value, kind);
         if was.nav.active == Some(a.session)
         then now.ledger == Settle(Bind(was.ledger, a), a, Ran) && now.held == was.held
         else now.ledger == Bind(was.ledger, a) && now.held == was.held + [a]
    ensures HeldBy(was, now, Pressed(kind))
  {
    if bound.Some? {
      assert PressTakes(was, now, kind, Action(bound.value, was.nav.displayed.value, kind));
    }
  }

  /** A press: what it binds runs or waits, and the page stays where it is. */
  method HandlePressed(page: SessionPage, kind: Kind)
    requires page.Valid()
    modifies page`held, page`ledger, page`nextAction, page`uploadsInFlight, page`sendDisabled
    ensures page.Valid() && Follows(old(page.ledger), page.ledger)
    ensures HeldBy(old(page.Snap()), page.Snap(), Pressed(kind))
    ensures Handled(old(page.Snap()), page.Snap(), Pressed(kind))
  {
    ghost var was := page.Snap();
    hide SessionPage.Valid, Follows, Handled, HeldBy, NavAfter, WindowsAfter, SessionPage.Takes;
    var _ := page.Press(kind);
    PressHandled(was, page.Snap(), Pressed(kind));
  }

  /** A request ends; one that is not an upload under way changes nothing. */
  method HandleUploaded(page: SessionPage, id: nat)
    requires page.Valid()
    modifies page`ledger, page`uploadsInFlight, page`sendDisabled
    ensures page.Valid() && Keeps(old(page.ledger), page.ledger)
    ensures page.ledger == old(page.ledger).(running := old(page.ledger).running - {id})
    ensures Handled(old(page.Snap()), page.Snap(), Uploaded(id))
  {
    ghost var was := page.Snap();
    FollowsSelf(page.ledger);
    FollowsKeeps(page.ledger, page.ledger);
    hide SessionPage.Valid, Follows, Keeps, Handled;
    if id in page.ledger.running {
      page.FinishUpload(id);
    }
    assert page.ledger.running == old(page.ledger).running - {id};
    UploadedHandled(was, page.Snap(), Uploaded(id));
  }

  lemma WorkWindows(windows: multiset<string>, e: Event)
    ensures e.WorkOpened? ==> WindowsAfter(windows, e) == windows + multiset{e.message}
    ensures e.WorkSettled? ==> WindowsAfter(windows, e) == windows - multiset{e.message}
  {
  }

  /** Input work opens or closes a window, and nothing else. */
  method HandleWork(page: SessionPage, e: Event)
    requires page.Valid() && (e.WorkOpened? || e.WorkSettled?)
    modifies page`inputWork, page`sendDisabled, page`windows
    ensures page.Valid() && page.windows == WindowsAfter(old(page.windows), e)
    ensures Handled(old(page.Snap()), page.Snap(), e)
  {
    ghost var was := page.Snap();
    WorkWindows(page.windows, e);
    hide SessionPage.Valid, Handled, WindowsAfter, Follows, Keeps, NavAfter, HeldBy, Resolves, Resolved, Tallies;
    if e.WorkOpened? {
      page.InputWorkStarted(e.message);
    } else {
      page.InputWorkSettled(e.message);
    }
    WorkHandled(was, page.Snap(), e);
  }

  /** One event at the page; an answer to a request that is not under way never comes. */
  method Handle(page: SessionPage, e: Event)
    requires page.Valid()
    modifies page
    ensures page.Valid() && Handled(old(page.Snap()), page.Snap(), e)
  {
    hide *;
    if e.Uploaded? {
      HandleUploaded(page, e.id);
    } else if e.Pressed? {
      HandlePressed(page, e.kind);
    } else if e.WorkOpened? || e.WorkSettled? {
      HandleWork(page, e);
    } else {
      HandleMove(page, e);
    }
  }

  lemma UploadedHandled(was: Snapshot, now: Snapshot, e: Event)
    requires e.Uploaded? && Keeps(was.ledger, now.ledger) && now.nav == was.nav && now.windows == was.windows
    requires now.ledger == was.ledger.(running := was.ledger.running - {e.id}) && now.held == was.held
    ensures Handled(was, now, e)
  {
    hide Keeps;
  }

  /** Where a run of events takes the page. */
  ghost function NavThrough(n: Nav, events: seq<Event>): Nav {
    if events == [] then n else NavAfter(NavThrough(n, events[..|events| - 1]), events[|events| - 1])
  }

  /** What the first event of a run that settles the held actions settles them by. */
  ghost function FirstResolution(n: Nav, events: seq<Event>): Option<bool> {
    if events == [] then None
    else
      var front := events[..|events| - 1];
      var r := FirstResolution(n, front);
      if r.Some? then r else Resolves(NavThrough(n, front), events[|events| - 1])
  }

  /** What became of the actions held at the start: still held, or met as that first event settles them. */
  ghost predicate HeldMet(first: seq<Action>, ledger: Ledger, held: seq<Action>, r: Option<bool>) {
    match r
    case None => first <= held
    case Some(landed) => AllMet(ledger, first, landed)
  }

  /** One event more. */
  lemma HeldMetMore(first: seq<Action>, was: Snapshot, now: Snapshot, e: Event, r: Option<bool>)
    requires HeldMet(first, was.ledger, was.held, r) && HeldBy(was, now, e) && Keeps(was.ledger, now.ledger)
    requires was.ledger.kinds.Keys == was.ledger.fates.Keys
    ensures HeldMet(first, now.ledger, now.held, if r.Some? then r else Resolves(was.nav, e))
  {
    hide Resolves, Bind, Settle, RunIds, UploadIds, Refuses;
    if r.None? && !e.Pressed? && !e.Uploaded? && Resolves(was.nav, e).Some? {
      forall a | a in first
        ensures a in was.held
      {
        var k :| 0 <= k < |first| && first[k] == a;
        assert was.held[k] == a;
      }
    }
    if e.Pressed? || e.Uploaded? {
      NeverResolves(was.nav, e);
    }
  }

  lemma NeverResolves(n: Nav, e: Event)
    requires e.Pressed? || e.Uploaded?
    ensures Resolves(n, e) == None
  {
  }

  /** The open windows after a run of events. */
  ghost function WindowsThrough(windows: multiset<string>, events: seq<Event>): multiset<string> {
    if events == [] then windows
    else WindowsAfter(WindowsThrough(windows, events[..|events| - 1]), events[|events| - 1])
  }

  /**
   An upload under way at the start is still under way, or its own request ended in the run, and one under
   way at the end is that or an action that was waiting at the start or not yet pressed.
   */
  ghost predicate UploadsLast(before: Ledger, after: Ledger, events: seq<Event>) {
    && (forall id :: id in before.running && id !in after.running ==> Uploaded(id) in events)
    && (forall id :: id in after.running && id !in before.running && id in before.fates && id in before.kinds ==>
          before.fates[id] == Waiting)
  }

  lemma UploadsLastMore(first: Ledger, before: Ledger, after: Ledger, events: seq<Event>, e: Event)
    requires UploadsLast(first, before, events) && Keeps(first, before)
    requires if e.Uploaded? then after.running == before.running - {e.id} else Follows(before, after)
    ensures UploadsLast(first, after, events + [e])
  {
    assert e in events + [e] && forall x :: x in events ==> x in events + [e];
  }

  lemma NoneEnded(l: Ledger)
    ensures UploadsLast(l, l, [])
  {
  }

  lemma LedgerKeys(page: SessionPage)
    requires page.Valid()
    ensures page.ledger.kinds.Keys == page.ledger.fates.Keys
  {
    hide WaitingAre, Tallies, Uploads;
  }

  lemma WhatValidMeans(page: SessionPage)
    requires page.Valid()
    ensures forall id :: id in page.ledger.fates && page.ledger.fates[id] == Dropped ==>
              id in page.ledger.kinds && page.ledger.kinds[id] != SendMessage
    ensures forall a :: a in page.held ==> Some(a.session) == page.displayed
    ensures page.sendDisabled <==> Uploads(page.held) + |page.ledger.running| > 0 || page.windows != multiset{}
    ensures page.held != [] ==> (page.generation in page.inFlight <==> !page.stranded)
  {
    hide WaitingAre, Tallies, Uploads;
  }

  lemma HandledMeans(was: Snapshot, now: Snapshot, e: Event)
    requires Handled(was, now, e)
    ensures Keeps(was.ledger, now.ledger) && now.windows == WindowsAfter(was.windows, e)
    ensures now.nav == NavAfter(was.nav, e) && HeldBy(was, now, e)
    ensures if e.Uploaded? then now.ledger.running == was.ledger.running - {e.id} else Follows(was.ledger, now.ledger)
  {
    hide NavAfter, Keeps, WindowsAfter, Follows, HeldBy;
  }

  /**
   Any interleaving of events, from any reachable page: every action known at the start keeps its fate if
   it has one, no message is ever dropped, every held action names the displayed session, and the button
   is locked exactly while an upload is held or under way or an input-work window is open. The open windows
   are those the run opened and did not settle, and an upload under way ends only with its own request. The
   page is where the events took it, the actions held at the start are still held or met their fate by the
   first event that settled them, and what is held has a switch under way to resolve it exactly when
   the events did not leave the page stranded.
   */
  method Interleave(page: SessionPage, events: seq<Event>)
    requires page.Valid()
    modifies page
    ensures page.Valid() && Keeps(old(page.ledger), page.ledger)
    ensures forall id :: id in page.ledger.fates && page.ledger.fates[id] == Dropped ==>
              id in page.ledger.kinds && page.ledger.kinds[id] != SendMessage
    ensures forall a :: a in page.held ==> Some(a.session) == page.displayed
    ensures page.sendDisabled <==> Uploads(page.held) + |page.ledger.running| > 0 || page.windows != multiset{}
    ensures page.windows == WindowsThrough(old(page.windows), events)
    ensures UploadsLast(old(page.ledger), page.ledger, events)
    ensures HeldMet(old(page.held), page.ledger, page.held, FirstResolution(old(page.At()), events))
    ensures page.At() == NavThrough(old(page.At()), events)
    ensures page.held != [] ==>
            var n := NavThrough(old(page.At()), events); (n.generation in n.inFlight <==> !n.stranded)
  {
    hide SessionPage.Valid, Keeps, Follows, UploadsLast, WindowsAfter, Handled, NavAfter, Resolves, HeldBy;
    FollowsSelf(page.ledger);
    FollowsKeeps(page.ledger, page.ledger);
    NoneEnded(page.ledger);
    assert events[..0] == [];
    for i := 0 to |events|
      invariant page.Valid() && Keeps(old(page.ledger), page.ledger)
      invariant page.windows == WindowsThrough(old(page.windows), events[..i])
      invariant UploadsLast(old(page.ledger), page.ledger, events[..i])
      invariant page.At() == NavThrough(old(page.At()), events[..i])
      invariant HeldMet(old(page.held), page.ledger, page.held, FirstResolution(old(page.At()), events[..i]))
    {
      ghost var was := page.Snap();
      ghost var before := page.ledger;
      LedgerKeys(page);
      Handle(page, events[i]);
      HandledMeans(was, page.Snap(), events[i]);
      HeldMetMore(old(page.held), was, page.Snap(), events[i], FirstResolution(old(page.At()), events[..i]));
      UploadsLastMore(old(page.ledger), before, page.ledger, events[..i], events[i]);
      KeepsTransitive(old(page.ledger), before, page.ledger);
      assert events[..i + 1] == events[..i] + [events[i]];
      assert (events[..i] + [events[i]])[..i] == events[..i];
    }
    assert events[..|events|] == events;
    WhatValidMeans(page);
  }

  /**
   A run that leaves a press with nothing to resolve it: the switch to another session fails, and a stop is
   pressed on the page that still displays it.
   */
  method StrandedPress() returns (page: SessionPage)
    ensures page.Valid() && page.held != [] && page.inFlight == map[] && page.displayed != page.active
  {
    hide SessionPage.Valid, SessionPage.LockValid, SessionPage.Outstanding, Follows, MetInOrder, NavAfter, Bind, Settle;
    page := new SessionPage(Some("a"));
    var click := page.SwitchSession("b");
    var _ := page.FailSwitch(page.generation);
    assert page.inFlight == map[];
    var _ := page.Press(Stop);
  }
}
