/** The sidebar's row indicators (status.js) over the session tree of the last grouped paint (groups.js). */
module Sidebar {
  import opened Common

  type Sid = string
  datatype Activity = Idle | Thinking | WorkerOnly | Waiting

  /** A listed session, and what a status reply says of one. */
  datatype Session = Session(id: Sid, parent: Option<Sid>, worker: bool, node: bool, updated: int, status: Status)
  datatype Status = Status(thinking: bool, running: bool, waiting: bool, unread: bool, pendingTrigger: bool)

  function IndicatorState(s: Status): Activity {
    if s.thinking then Thinking else if s.running then WorkerOnly else if s.waiting then Waiting else Idle
  }

  /** The facts a paint reads. */
  datatype Facts = Facts(own: map<Sid, Activity>, unread: set<Sid>, paused: set<Sid>,
                         workers: set<Sid>, nodes: set<Sid>)

  /** The icon of the activity family, the filled dot and the hollow mark of one row. */
  datatype Marks = Marks(icon: Activity, dot: bool, hollow: bool)

  // ---- the tree -----------------------------------------------------------------------------------------

  datatype Tree = Tree(children: map<Sid, seq<Sid>>, parents: map<Sid, Sid>)

  function Children(t: Tree, sid: Sid): seq<Sid> { if sid in t.children then t.children[sid] else [] }

  /** The two maps say the same; a rank that rises from child to parent shows there is no cycle. */
  ghost predicate Acyclic(t: Tree, rank: Sid -> nat) {
    && (forall p, i :: 0 <= i < |Children(t, p)| ==>
        Children(t, p)[i] in t.parents && t.parents[Children(t, p)[i]] == p)
    && (forall c :: c in t.parents ==> c in Children(t, t.parents[c]))
    && (forall c :: c in t.parents ==> rank(c) < rank(t.parents[c]))
  }

  /** Whether one of `hits` stands anywhere below a row: the walk of `subtreeHasState` and its two siblings. */
  predicate Below(t: Tree, ghost rank: Sid -> nat, sid: Sid, hits: set<Sid>)
    requires Acyclic(t, rank)
    decreases rank(sid)
  {
    exists i :: 0 <= i < |Children(t, sid)| &&
      (Children(t, sid)[i] in hits || Below(t, rank, Children(t, sid)[i], hits))
  }

  /** The row `n` steps up from a row. */
  function Climb(t: Tree, sid: Sid, n: nat): Option<Sid>
    decreases n
  {
    if n == 0 then Some(sid) else if sid in t.parents then Climb(t, t.parents[sid], n - 1) else None
  }

  /** One of `hits` stands below a row, at whatever depth: the climb from it passes the row. */
  ghost predicate Under(t: Tree, sid: Sid, hits: set<Sid>) {
    exists hit, n: nat :: hit in hits && n > 0 && Climb(t, hit, n) == Some(sid)
  }

  lemma {:induction false} ClimbLast(t: Tree, sid: Sid, n: nat)
    requires Climb(t, sid, n).Some?
    ensures var up := Climb(t, sid, n).value;
            Climb(t, sid, n + 1) == if up in t.parents then Some(t.parents[up]) else None
    decreases n
  {
    if n > 0 {
      ClimbLast(t, t.parents[sid], n - 1);
    }
  }

  lemma {:induction false} ClimbMeets(t: Tree, rank: Sid -> nat, sid: Sid, hits: set<Sid>, hit: Sid, n: nat)
    requires Acyclic(t, rank) && hit in hits && n > 0 && Climb(t, hit, n) == Some(sid)
    ensures Below(t, rank, sid, hits)
    decreases n
  {
    var up := t.parents[hit];
    var i :| 0 <= i < |Children(t, up)| && Children(t, up)[i] == hit;
    assert Below(t, rank, up, hits);
    if n > 1 {
      AboveToo(t, rank, up, sid, hits, n - 1);
    }
  }

  lemma {:induction false} AboveToo(t: Tree, rank: Sid -> nat, low: Sid, high: Sid, hits: set<Sid>, n: nat)
    requires Acyclic(t, rank) && Below(t, rank, low, hits) && Climb(t, low, n) == Some(high)
    ensures Below(t, rank, high, hits)
    decreases n
  {
    if n > 0 {
      var up := t.parents[low];
      var i :| 0 <= i < |Children(t, up)| && Children(t, up)[i] == low;
      assert Below(t, rank, up, hits);
      AboveToo(t, rank, up, high, hits, n - 1);
    }
  }

  lemma {:induction false} MeetsClimb(t: Tree, rank: Sid -> nat, sid: Sid, hits: set<Sid>) returns (hit: Sid, n: nat)
    requires Acyclic(t, rank) && Below(t, rank, sid, hits)
    ensures hit in hits && n > 0 && Climb(t, hit, n) == Some(sid)
    decreases rank(sid)
  {
    var i :| 0 <= i < |Children(t, sid)| && (Children(t, sid)[i] in hits || Below(t, rank, Children(t, sid)[i], hits));
    var child := Children(t, sid)[i];
    assert child in t.parents && t.parents[child] == sid;
    if child in hits {
      hit, n := child, 1;
      assert Climb(t, sid, 0) == Some(sid);
    } else {
      var m;
      hit, m := MeetsClimb(t, rank, child, hits);
      ClimbLast(t, hit, m);
      n := m + 1;
    }
  }

  /** The walk down finds a hit exactly when the climb from some hit, at any depth, passes the row. */
  lemma BelowIsAnyDepth(t: Tree, rank: Sid -> nat, sid: Sid, hits: set<Sid>)
    requires Acyclic(t, rank)
    ensures Below(t, rank, sid, hits) <==> Under(t, sid, hits)
  {
    if Below(t, rank, sid, hits) {
      var hit, n := MeetsClimb(t, rank, sid, hits);
    }
    if Under(t, sid, hits) {
      var hit, n: nat :| hit in hits && n > 0 && Climb(t, hit, n) == Some(sid);
      ClimbMeets(t, rank, sid, hits, hit, n);
    }
  }

  function InState(own: map<Sid, Activity>, a: Activity): set<Sid> { set s | s in own && own[s] == a }
  function Own(f: Facts, sid: Sid): Activity { if sid in f.own then f.own[sid] else Idle }

  /** A row's own running work reads as the spinner on worker and task-tree rows. */
  function Display(f: Facts, sid: Sid, a: Activity): Activity {
    if a == WorkerOnly && (sid in f.workers || sid in f.nodes) then Thinking else a
  }

  /** The activities that a row without one of its own stands in for, or a paused worker. */
  function Busy(f: Facts): set<Sid> { InState(f.own, WorkerOnly) + InState(f.own, Thinking) + f.paused }

  /**
   What a row should show, from the facts alone: its own activity, else the gear exactly when something
   at any depth below is busy; the dot exactly when it is unread itself, and the hollow mark exactly when it
   is not and something at any depth below is.
   */
  ghost function Due(f: Facts, t: Tree, sid: Sid): Marks {
    Marks(if Own(f, sid) != Idle then Display(f, sid, Own(f, sid))
          else if Under(t, sid, Busy(f)) then WorkerOnly else Idle,
          sid in f.unread,
          sid !in f.unread && Under(t, sid, f.unread))
  }

  /** One climb sees a union of facts as the climbs for each of them do. */
  lemma UnderEither(t: Tree, sid: Sid, a: set<Sid>, b: set<Sid>)
    ensures Under(t, sid, a + b) <==> Under(t, sid, a) || Under(t, sid, b)
  {
    if Under(t, sid, a + b) {
      var hit, n: nat :| hit in a + b && n > 0 && Climb(t, hit, n) == Some(sid);
      assert hit in a ==> Under(t, sid, a);
    }
    if Under(t, sid, a) {
      var hit, n: nat :| hit in a && n > 0 && Climb(t, hit, n) == Some(sid);
      assert hit in a + b;
    }
    if Under(t, sid, b) {
      var hit, n: nat :| hit in b && n > 0 && Climb(t, hit, n) == Some(sid);
      assert hit in a + b;
    }
  }

  /** `subtreeStandInState`: three walks below the row decide what its subtree calls for. */
  function StandIn(f: Facts, t: Tree, ghost rank: Sid -> nat, sid: Sid): (a: Activity)
    requires Acyclic(t, rank)
    ensures a == if Under(t, sid, Busy(f)) then WorkerOnly else Idle
  {
    BelowIsAnyDepth(t, rank, sid, InState(f.own, WorkerOnly));
    BelowIsAnyDepth(t, rank, sid, InState(f.own, Thinking));
    BelowIsAnyDepth(t, rank, sid, f.paused);
    UnderEither(t, sid, InState(f.own, WorkerOnly) + InState(f.own, Thinking), f.paused);
    UnderEither(t, sid, InState(f.own, WorkerOnly), InState(f.own, Thinking));
    if Below(t, rank, sid, InState(f.own, WorkerOnly)) || Below(t, rank, sid, InState(f.own, Thinking))
       || Below(t, rank, sid, f.paused)
    then WorkerOnly else Idle
  }

  /** The rows above `x`: its parent, and the parent of every row above it. */
  ghost predicate Above(t: Tree, x: Sid, above: set<Sid>) {
    forall c :: (c == x || c in above) && c in t.parents ==> t.parents[c] in above
  }

  /** The same climb stopped at `row`. */
  ghost predicate AboveTo(t: Tree, x: Sid, above: set<Sid>, row: Sid) {
    && (row == x || row in above)
    && forall c :: (c == x || c in above) && c in t.parents && c != row ==> t.parents[c] in above
  }

  lemma AboveStart(t: Tree, x: Sid)
    ensures AboveTo(t, x, {}, x)
  {
  }

  lemma AboveNext(t: Tree, x: Sid, above: set<Sid>, row: Sid)
    requires AboveTo(t, x, above, row) && row in t.parents
    ensures AboveTo(t, x, above + {t.parents[row]}, t.parents[row])
  {
  }

  lemma AboveEnd(t: Tree, x: Sid, above: set<Sid>, row: Sid)
    requires AboveTo(t, x, above, row) && row !in t.parents
    ensures Above(t, x, above)
  {
  }

  ghost predicate AgreeBut(a: set<Sid>, b: set<Sid>, x: Sid) { forall s :: s != x ==> (s in a <==> s in b) }

  /** What stands below a row that is not above `x` does not depend on `x`. */
  lemma UnderElsewhere(t: Tree, sid: Sid, x: Sid, above: set<Sid>, a: set<Sid>, b: set<Sid>)
    requires Above(t, x, above) && sid !in above && AgreeBut(a, b, x)
    ensures Under(t, sid, a) <==> Under(t, sid, b)
  {
    if Under(t, sid, a) {
      UnderStill(t, sid, x, above, a, b);
    }
    if Under(t, sid, b) {
      UnderStill(t, sid, x, above, b, a);
    }
  }

  lemma UnderStill(t: Tree, sid: Sid, x: Sid, above: set<Sid>, a: set<Sid>, b: set<Sid>)
    requires Above(t, x, above) && sid !in above && AgreeBut(a, b, x) && Under(t, sid, a)
    ensures Under(t, sid, b)
  {
    var hit, n: nat :| hit in a && n > 0 && Climb(t, hit, n) == Some(sid);
    if hit == x {
      ClimbsInto(t, x, above, hit, n);
    }
    assert hit in b;
  }

  /** Every climb from `x`, or from a row above it, goes on among the rows above it. */
  lemma {:induction false} ClimbsInto(t: Tree, x: Sid, above: set<Sid>, c: Sid, n: nat)
    requires Above(t, x, above) && (c == x || c in above) && n > 0 && Climb(t, c, n).Some?
    ensures Climb(t, c, n).value in above
    decreases n
  {
    if n > 1 {
      ClimbsInto(t, x, above, t.parents[c], n - 1);
    } else {
      assert Climb(t, t.parents[c], 0) == Some(t.parents[c]);
    }
  }

  /** Two sets of facts that differ only in what they say of `x`. */
  ghost predicate SameBut(f: Facts, g: Facts, x: Sid) {
    && (forall s :: s != x ==> (s in f.own <==> s in g.own))
    && (forall s :: s != x && s in f.own ==> f.own[s] == g.own[s])
    && AgreeBut(f.unread, g.unread, x) && AgreeBut(f.paused, g.paused, x)
    && f.workers == g.workers && f.nodes == g.nodes
  }

  lemma SameButSets(f: Facts, g: Facts, x: Sid)
    requires g == f.(unread := g.unread, paused := g.paused) && AgreeBut(f.unread, g.unread, x)
             && AgreeBut(f.paused, g.paused, x)
    ensures SameBut(f, g, x)
  {
  }

  /** A change at `x` can change what is due only on `x` itself and the rows above it. */
  lemma DueElsewhere(f: Facts, g: Facts, t: Tree, sid: Sid, x: Sid, above: set<Sid>)
    requires Above(t, x, above) && SameBut(f, g, x) && sid != x && sid !in above
    ensures Due(f, t, sid) == Due(g, t, sid)
  {
    hide Under, Above;
    assert AgreeBut(Busy(f), Busy(g), x);
    UnderElsewhere(t, sid, x, above, Busy(f), Busy(g));
    UnderElsewhere(t, sid, x, above, f.unread, g.unread);
  }

  /** A row that stands for one of `stale`, or above one. */
  ghost predicate Touches(t: Tree, sid: Sid, stale: set<Sid>) { sid in stale || Under(t, sid, stale) }

  /** A row that is neither `x` nor above it touches what it touched without `x`. */
  lemma TouchesLess(t: Tree, sid: Sid, x: Sid, above: set<Sid>, stale: set<Sid>)
    requires Above(t, x, above) && sid != x && sid !in above && Touches(t, sid, stale)
    ensures Touches(t, sid, stale - {x})
  {
    hide Above, Under;
    assert AgreeBut(stale, stale - {x}, x);
    UnderElsewhere(t, sid, x, above, stale, stale - {x});
  }

  function WithUnread(f: Facts, sid: Sid, unread: bool): Facts {
    f.(unread := if unread then f.unread + {sid} else f.unread - {sid})
  }

  /** A row above `sid` shows the same whatever `sid` is: it is unread itself, or something else below it is. */
  ghost predicate Overshadows(f: Facts, t: Tree, row: Sid, sid: Sid) {
    row in f.unread || Under(t, row, f.unread - {sid})
  }

  /** A changed unread fact changes what is due on its own row and on the rows above that nothing else marks. */
  lemma UnreadIsDue(f: Facts, t: Tree, row: Sid, sid: Sid)
    ensures Due(f, t, row) == Due(WithUnread(f, sid, sid !in f.unread), t, row)
            <==> row != sid && (Under(t, row, {sid}) ==> Overshadows(f, t, row, sid))
  {
    hide Under;
    var (g, base) := (WithUnread(f, sid, sid !in f.unread), f.unread - {sid});
    UnderEither(t, row, base, {sid});
    assert sid in f.unread ==> f.unread == base + {sid} && g.unread == base;
    assert sid !in f.unread ==> f.unread == base && g.unread == base + {sid};
    assert Busy(f) == Busy(g) && Own(f, row) == Own(g, row);
  }

  // ---- the grouped paint's tree and facts ---------------------------------------------------------------

  function Ids(sessions: seq<Session>): set<Sid> { set i | 0 <= i < |sessions| :: sessions[i].id }
  ghost predicate DistinctIds(sessions: seq<Session>) {
    forall i, j :: 0 <= i < j < |sessions| ==> sessions[i].id != sessions[j].id
  }

  predicate Nested(s: Session, ids: set<Sid>) { s.parent.Some? && s.parent.value in ids }

  ghost predicate Consistent(t: Tree) {
    && (forall p, i :: 0 <= i < |Children(t, p)| ==>
        Children(t, p)[i] in t.parents && t.parents[Children(t, p)[i]] == p)
    && (forall c :: c in t.parents ==> c in Children(t, t.parents[c]))
  }

  /** Each session nests under its listed parent, and under nothing else. */
  ghost predicate NestsAs(t: Tree, sessions: seq<Session>, ids: set<Sid>) {
    && (forall i :: 0 <= i < |sessions| ==> (sessions[i].id in t.parents <==> Nested(sessions[i], ids)))
    && (forall i :: 0 <= i < |sessions| && Nested(sessions[i], ids) ==>
          sessions[i].id in t.parents && t.parents[sessions[i].id] == sessions[i].parent.value)
    && (forall c :: c in t.parents ==> c in Ids(sessions))
  }

  function Nest(t: Tree, c: Sid, p: Sid): Tree {
    Tree(t.children[p := Children(t, p) + [c]], t.parents[c := p])
  }

  lemma NestKeeps(t: Tree, c: Sid, p: Sid)
    requires Consistent(t) && c !in t.parents
    ensures Consistent(Nest(t, c, p))
  {
    var n := Nest(t, c, p);
    forall q, i | 0 <= i < |Children(n, q)|
      ensures Children(n, q)[i] in n.parents && n.parents[Children(n, q)[i]] == q
    {
      assert q != p ==> Children(n, q) == Children(t, q);
      if q != p || i < |Children(t, p)| {
        assert Children(n, q)[i] == Children(t, q)[i];
      }
    }
  }

  lemma NestsMore(t: Tree, sessions: seq<Session>, i: nat, ids: set<Sid>)
    requires i < |sessions| && DistinctIds(sessions) && NestsAs(t, sessions[..i], ids)
    ensures sessions[i].id !in t.parents
    ensures var s := sessions[i];
            NestsAs(if Nested(s, ids) then Nest(t, s.id, s.parent.value) else t, sessions[..i + 1], ids)
  {
    var (before, after, s) := (sessions[..i], sessions[..i + 1], sessions[i]);
    assert after == before + [s];
    assert forall k :: 0 <= k < i ==> before[k] == sessions[k];
    assert Ids(after) == Ids(before) + {s.id};
    assert s.id !in Ids(before);
  }

  // ---- the order of siblings ----------------------------------------------------------------------------

  /** What the order of siblings reads of a session, and its place in the list. */
  datatype Place = Place(worker: bool, updated: int, at: nat)

  function PlaceOf(sessions: seq<Session>, sid: Sid): (r: Place)
    ensures r.at < |sessions| ==> sessions[r.at].id == sid
  {
    if sessions == [] then Place(false, 0, 0)
    else if sessions[0].id == sid then Place(sessions[0].worker, sessions[0].updated, 0)
    else var r := PlaceOf(sessions[1..], sid); r.(at := r.at + 1)
  }

  lemma {:induction false} PlaceAt(sessions: seq<Session>, k: nat)
    requires DistinctIds(sessions) && k < |sessions|
    ensures PlaceOf(sessions, sessions[k].id) == Place(sessions[k].worker, sessions[k].updated, k)
    decreases k
  {
    if k > 0 {
      assert sessions[0].id != sessions[k].id && sessions[1..][k - 1] == sessions[k];
      PlaceAt(sessions[1..], k - 1);
    }
  }

  /** Logical sessions stand before workers, each newest first, and equals as they were listed. */
  predicate Leads(a: Place, b: Place) {
    if a.worker != b.worker then b.worker
    else if a.updated != b.updated then a.updated > b.updated else a.at < b.at
  }

  ghost predicate InOrder(sessions: seq<Session>, row: seq<Sid>) {
    forall i, j :: 0 <= i < j < |row| ==> Leads(PlaceOf(sessions, row[i]), PlaceOf(sessions, row[j]))
  }

  ghost predicate Listed(sessions: seq<Session>, row: seq<Sid>) {
    forall i :: 0 <= i < |row| ==> row[i] in Ids(sessions)
  }

  ghost predicate NoneTwice(row: seq<Sid>) { forall i, j :: 0 <= i < j < |row| ==> row[i] != row[j] }

  lemma OneLeads(sessions: seq<Session>, a: Sid, b: Sid)
    requires DistinctIds(sessions) && a in Ids(sessions) && b in Ids(sessions) && a != b
    ensures Leads(PlaceOf(sessions, a), PlaceOf(sessions, b)) <==> !Leads(PlaceOf(sessions, b), PlaceOf(sessions, a))
  {
    var i :| 0 <= i < |sessions| && sessions[i].id == a;
    var j :| 0 <= j < |sessions| && sessions[j].id == b;
    PlaceAt(sessions, i);
    PlaceAt(sessions, j);
  }

  /** One row added to a list of siblings in order. */
  function Placed(sessions: seq<Session>, row: seq<Sid>, x: Sid): (placed: seq<Sid>)
    ensures forall y :: y in placed <==> y == x || y in row
  {
    if row == [] then [x]
    else if Leads(PlaceOf(sessions, x), PlaceOf(sessions, row[0])) then [x] + row
    else [row[0]] + Placed(sessions, row[1..], x)
  }

  /** The sort of one list of siblings. */
  function Sorted(sessions: seq<Session>, row: seq<Sid>): (sorted: seq<Sid>)
    ensures forall y :: y in sorted <==> y in row
  {
    if row == [] then [] else Placed(sessions, Sorted(sessions, row[1..]), row[0])
  }

  lemma {:induction false} PlacedInOrder(sessions: seq<Session>, row: seq<Sid>, x: Sid)
    requires DistinctIds(sessions) && Listed(sessions, row) && x in Ids(sessions) && x !in row && InOrder(sessions, row)
    ensures InOrder(sessions, Placed(sessions, row, x))
  {
    if row != [] && !Leads(PlaceOf(sessions, x), PlaceOf(sessions, row[0])) {
      OneLeads(sessions, x, row[0]);
      PlacedInOrder(sessions, row[1..], x);
      var rest := Placed(sessions, row[1..], x);
      forall j | 0 <= j < |rest|
        ensures Leads(PlaceOf(sessions, row[0]), PlaceOf(sessions, rest[j]))
      {
        assert rest[j] in rest;
      }
    }
  }

  /** The siblings end up in order, whatever order they were pushed in. */
  lemma {:induction false} SortedInOrder(sessions: seq<Session>, row: seq<Sid>)
    requires DistinctIds(sessions) && Listed(sessions, row) && NoneTwice(row)
    ensures InOrder(sessions, Sorted(sessions, row))
  {
    if row != [] {
      var sorted := Sorted(sessions, row[1..]);
      SortedInOrder(sessions, row[1..]);
      forall i | 0 <= i < |sorted|
        ensures sorted[i] in Ids(sessions)
      {
        assert sorted[i] in sorted;
      }
      assert row[0] !in row[1..];
      PlacedInOrder(sessions, sorted, row[0]);
    }
  }

  /** No list of siblings holds a row twice, and each holds listed sessions only. */
  ghost predicate Tidy(t: Tree, sessions: seq<Session>) {
    forall p :: p in t.children ==> NoneTwice(t.children[p]) && Listed(sessions, t.children[p])
  }

  lemma NestTidy(t: Tree, sessions: seq<Session>, c: Sid, p: Sid)
    requires Consistent(t) && Tidy(t, sessions) && c !in t.parents && c in Ids(sessions)
    ensures Tidy(Nest(t, c, p), sessions)
  {
    var row := Children(t, p);
    forall i | 0 <= i < |row|
      ensures row[i] != c
    {
      assert row[i] in t.parents;
    }
  }

  lemma SortedTree(t: Tree, sessions: seq<Session>, children: map<Sid, seq<Sid>>)
    requires Consistent(t) && Tidy(t, sessions) && DistinctIds(sessions) && children.Keys == t.children.Keys
    requires forall p :: p in children ==> children[p] == Sorted(sessions, t.children[p])
    ensures Consistent(t.(children := children))
    ensures forall p :: InOrder(sessions, Children(t.(children := children), p))
  {
    var n := t.(children := children);
    forall p
      ensures InOrder(sessions, Children(n, p)) && forall c :: c in Children(n, p) <==> c in Children(t, p)
    {
      if p in t.children {
        SortedInOrder(sessions, t.children[p]);
      }
    }
    hide InOrder, Sorted, Tidy, DistinctIds;
    forall p, i | 0 <= i < |Children(n, p)|
      ensures Children(n, p)[i] in n.parents && n.parents[Children(n, p)[i]] == p
    {
      var c := Children(n, p)[i];
      assert c in Children(n, p);
      var j :| 0 <= j < |Children(t, p)| && Children(t, p)[j] == c;
    }
  }

  /** The rows without a listed parent, as they were listed. */
  function Roots(sessions: seq<Session>, ids: set<Sid>): (roots: seq<Session>) {
    if sessions == [] then []
    else
      var front := Roots(sessions[..|sessions| - 1], ids);
      var s := sessions[|sessions| - 1];
      if Nested(s, ids) then front else front + [s]
  }

  /** Two siblings: no worker before another session, newest first among equals, and then as they were listed. */
  ghost predicate Precedes(sessions: seq<Session>, a: nat, b: nat)
    requires a < |sessions| && b < |sessions|
  {
    var (x, y) := (sessions[a], sessions[b]);
    && (x.worker ==> y.worker) && (x.worker == y.worker ==> x.updated >= y.updated)
    && (x.worker == y.worker && x.updated == y.updated ==> a < b)
  }

  /** Every sibling stands behind those that precede it. */
  ghost predicate SiblingsStand(sessions: seq<Session>, t: Tree) {
    forall p, i, j, a, b ::
      (0 <= i < j < |Children(t, p)| && 0 <= a < |sessions| && 0 <= b < |sessions|
       && sessions[a].id == Children(t, p)[i] && sessions[b].id == Children(t, p)[j]) ==> Precedes(sessions, a, b)
  }

  /** The roots are the sessions that do not nest, in list order, each once. */
  ghost predicate RootsStand(sessions: seq<Session>, roots: seq<Session>) {
    exists at: seq<nat> :: RootsAt(sessions, Ids(sessions), roots, at)
  }

  ghost predicate RootsAt(sessions: seq<Session>, ids: set<Sid>, roots: seq<Session>, at: seq<nat>) {
    && |at| == |roots| && (forall k :: 0 <= k < |at| ==> at[k] < |sessions| && roots[k] == sessions[at[k]])
    && (forall i, j :: 0 <= i < j < |at| ==> at[i] < at[j])
    && forall m: nat :: m < |sessions| ==> (m in at <==> !Nested(sessions[m], ids))
  }

  lemma RootsNone(ids: set<Sid>)
    ensures RootsAt([], ids, [], [])
  {
  }

  lemma RootsMore(sessions: seq<Session>, ids: set<Sid>, roots: seq<Session>, at: seq<nat>, s: Session)
    requires RootsAt(sessions, ids, roots, at)
    ensures Nested(s, ids) ==> RootsAt(sessions + [s], ids, roots, at)
    ensures !Nested(s, ids) ==> RootsAt(sessions + [s], ids, roots + [s], at + [|sessions|])
  {
    var n := |sessions|;
    assert forall k :: 0 <= k < |at| ==> at[k] in at;
    assert forall m: nat :: m in at + [n] <==> m in at || m == n;
    assert forall m: nat :: m < n ==> (sessions + [s])[m] == sessions[m];
  }

  lemma SiblingsDo(sessions: seq<Session>, t: Tree)
    requires DistinctIds(sessions) && forall p :: InOrder(sessions, Children(t, p))
    ensures SiblingsStand(sessions, t)
  {
    forall p, i, j, a, b | && 0 <= i < j < |Children(t, p)| && 0 <= a < |sessions| && 0 <= b < |sessions|
      && sessions[a].id == Children(t, p)[i] && sessions[b].id == Children(t, p)[j]
      ensures Precedes(sessions, a, b)
    {
      PlaceAt(sessions, a);
      PlaceAt(sessions, b);
      assert InOrder(sessions, Children(t, p));
    }
  }

  lemma {:induction false} RootsDo(sessions: seq<Session>, ids: set<Sid>) returns (at: seq<nat>)
    ensures RootsAt(sessions, ids, Roots(sessions, ids), at)
  {
    RootsNone(ids);
    hide RootsAt;
    if sessions == [] {
      at := [];
    } else {
      var n := |sessions| - 1;
      var front := RootsDo(sessions[..n], ids);
      at := if Nested(sessions[n], ids) then front else front + [n];
      RootsMore(sessions[..n], ids, Roots(sessions[..n], ids), front, sessions[n]);
      assert sessions[..n] + [sessions[n]] == sessions;
    }
  }

  /** `buildSessionTree`: the sessions nest as they say, and siblings stand in their order. */
  method BuildSessionTree(sessions: seq<Session>) returns (t: Tree, roots: seq<Session>)
    requires DistinctIds(sessions)
    ensures Consistent(t) && NestsAs(t, sessions, Ids(sessions))
    ensures forall p :: InOrder(sessions, Children(t, p))
    ensures SiblingsStand(sessions, t)
    ensures roots == Roots(sessions, Ids(sessions)) && RootsStand(sessions, roots)
  {
    var ids := Ids(sessions);
    t, roots := Tree(map[], map[]), [];
    for i := 0 to |sessions|
      invariant Consistent(t) && NestsAs(t, sessions[..i], ids) && Tidy(t, sessions)
      invariant roots == Roots(sessions[..i], ids)
    {
      hide Consistent, NestsAs, DistinctIds, Tidy;
      var s := sessions[i];
      NestsMore(t, sessions, i, ids);
      assert sessions[..i + 1][..i] == sessions[..i];
      if Nested(s, ids) {
        NestTidy(t, sessions, s.id, s.parent.value);
        NestKeeps(t, s.id, s.parent.value);
        t := Nest(t, s.id, s.parent.value);
      } else {
        roots := roots + [s];
      }
    }
    assert sessions[..|sessions|] == sessions;
    hide Consistent, NestsAs, DistinctIds, Tidy, InOrder;
    var sorted := map p | p in t.children :: Sorted(sessions, t.children[p]);
    SortedTree(t, sessions, sorted);
    NestsStill(t, sessions, ids, sorted);
    t := t.(children := sorted);
    SiblingsDo(sessions, t);
    ghost var at := RootsDo(sessions, ids);
  }

  lemma NestsStill(t: Tree, sessions: seq<Session>, ids: set<Sid>, children: map<Sid, seq<Sid>>)
    requires NestsAs(t, sessions, ids)
    ensures NestsAs(t.(children := children), sessions, ids)
  {
  }

  /** `recordRenderedSessionStatus`. */
  function Recorded(f: Facts, s: Session): Facts {
    Facts(f.own[s.id := IndicatorState(s.status)], f.unread,
          if s.worker && s.status.pendingTrigger then f.paused + {s.id} else f.paused - {s.id},
          if s.worker then f.workers + {s.id} else f.workers - {s.id},
          if s.node then f.nodes + {s.id} else f.nodes - {s.id})
  }

  /** The facts of a listed session are those the list carries. */
  predicate AsListed(f: Facts, s: Session) {
    && s.id in f.own && f.own[s.id] == IndicatorState(s.status)
    && (s.id in f.paused <==> s.worker && s.status.pendingTrigger)
    && (s.id in f.workers <==> s.worker) && (s.id in f.nodes <==> s.node)
  }

  /** Nothing else is known of any other session than before. */
  ghost predicate SameOff(f: Facts, g: Facts, ids: set<Sid>) {
    forall x :: x !in ids ==>
      && (x in f.own <==> x in g.own) && (x in f.own ==> f.own[x] == g.own[x])
      && (x in f.unread <==> x in g.unread) && (x in f.paused <==> x in g.paused)
      && (x in f.workers <==> x in g.workers) && (x in f.nodes <==> x in g.nodes)
  }

  /** What a row shows when it is first rendered, from its own facts. */
  function FirstMarks(f: Facts, s: Session): Marks {
    Marks(Display(f, s.id, IndicatorState(s.status)), s.status.unread, false)
  }

  lemma RecordedElsewhere(f: Facts, s: Session, r: Session)
    requires r.id != s.id && AsListed(f, r)
    ensures FirstMarks(Recorded(f, s), r) == FirstMarks(f, r) && AsListed(Recorded(f, s), r)
  {
  }

  /** Recording the next session leaves what is recorded of the others, listed or not. */
  lemma RecordKeeps(f: Facts, sessions: seq<Session>, n: nat, before: Facts)
    requires n < |sessions| && DistinctIds(sessions) && SameOff(before, f, Ids(sessions))
    requires forall k :: 0 <= k < n ==> AsListed(f, sessions[k])
    ensures var g := Recorded(f, sessions[n]);
            && SameOff(before, g, Ids(sessions)) && (forall k :: 0 <= k <= n ==> AsListed(g, sessions[k]))
            && forall k :: 0 <= k < n ==> FirstMarks(g, sessions[k]) == FirstMarks(f, sessions[k])
  {
    var g := Recorded(f, sessions[n]);
    assert sessions[n].id in Ids(sessions) && AsListed(g, sessions[n]);
    assert SameOff(before, g, Ids(sessions));
    hide SameOff, FirstMarks, AsListed;
    forall k | 0 <= k < n
      ensures FirstMarks(g, sessions[k]) == FirstMarks(f, sessions[k]) && AsListed(g, sessions[k])
    {
      RecordedElsewhere(f, sessions[n], sessions[k]);
    }
  }

  /** The first `n` sessions are rendered: recorded in the facts, and each row showing its first marks. */
  ghost predicate Rendered(f: Facts, shown: map<Sid, Marks>, sessions: seq<Session>, n: nat, before: Facts)
    requires n <= |sessions|
  {
    && shown.Keys == Ids(sessions[..n]) && SameOff(before, f, Ids(sessions))
    && (forall k :: 0 <= k < n ==> AsListed(f, sessions[k]))
    && (forall k :: 0 <= k < n ==> sessions[k].id in shown && shown[sessions[k].id] == FirstMarks(f, sessions[k]))
  }

  lemma IdsNext(sessions: seq<Session>, n: nat)
    requires n < |sessions|
    ensures Ids(sessions[..n + 1]) == Ids(sessions[..n]) + {sessions[n].id}
  {
    assert sessions[..n + 1] == sessions[..n] + [sessions[n]];
  }

  lemma RenderedNext(f: Facts, shown: map<Sid, Marks>, sessions: seq<Session>, n: nat, before: Facts)
    requires n < |sessions| && DistinctIds(sessions) && Rendered(f, shown, sessions, n, before)
    ensures var g := Recorded(f, sessions[n]);
            Rendered(g, shown[sessions[n].id := FirstMarks(g, sessions[n])], sessions, n + 1, before)
  {
    var s := sessions[n];
    RecordKeeps(f, sessions, n, before);
    var g := Recorded(f, s);
    IdsNext(sessions, n);
    hide FirstMarks, Recorded, AsListed, SameOff, Ids;
    var now := shown[s.id := FirstMarks(g, s)];
    assert now.Keys == shown.Keys + {s.id};
    forall k | 0 <= k <= n
      ensures sessions[k].id in now && now[sessions[k].id] == FirstMarks(g, sessions[k])
    {
      assert k < n ==> sessions[k].id != s.id;
    }
  }

  /** A row with nothing below it is right from its own facts. */
  lemma LeafIsDue(f: Facts, t: Tree, rank: Sid -> nat, s: Session)
    requires Acyclic(t, rank) && Children(t, s.id) == []
    requires s.id in f.own && f.own[s.id] == IndicatorState(s.status) && (s.id in f.unread <==> s.status.unread)
    ensures FirstMarks(f, s) == Due(f, t, s.id)
  {
    BelowIsAnyDepth(t, rank, s.id, Busy(f));
    BelowIsAnyDepth(t, rank, s.id, f.unread);
    hide Under, Acyclic;
  }

  // ---- the painted sidebar ------------------------------------------------------------------------------

  class Painter {
    var facts: Facts
    var tree: Tree
    var shown: map<Sid, Marks>         // the rows on the page, and what each shows
    var unreadSeq: nat
    var unreadSeqOf: map<Sid, nat>
    ghost var rank: Sid -> nat
    ghost var top: nat
    ghost var stale: set<Sid>          // the sessions whose last fact was recorded without a repaint

    /** A page before its first list. */
    constructor ()
      ensures Valid() && shown == map[] && tree == Tree(map[], map[]) && facts == Facts(map[], {}, {}, {}, {})
      ensures stale == {}
    {
      facts, tree, shown := Facts(map[], {}, {}, {}, {}), Tree(map[], map[]), map[];
      unreadSeq, unreadSeqOf, rank, top, stale := 0, map[], s => 0, 0, {};
    }

    ghost predicate Valid()
      reads this`tree, this`rank, this`top
    {
      Acyclic(tree, rank) && forall c :: c in tree.parents ==> rank(tree.parents[c]) < top
    }

    /** Every row shows what is due: the page is as a full repaint would leave it. */
    ghost predicate Fresh()
      requires Valid()
      reads this`facts, this`tree, this`shown, this`rank, this`top
    {
      forall s :: s in shown ==> shown[s] == Due(facts, tree, s)
    }

    /** Every row shows what is due that neither stands for a stale session nor above one. */
    ghost predicate FreshButStale()
      requires Valid()
      reads this
    {
      forall s :: s in shown && !Touches(tree, s, stale) ==> shown[s] == Due(facts, tree, s)
    }

    lemma NothingStale()
      requires Valid() && stale == {}
      ensures FreshButStale() <==> Fresh()
    {
      hide Due, Acyclic;
    }

    method PaintSessionIndicator(sid: Sid)
      requires Valid()
      modifies this`shown
      ensures shown == if sid in old(shown) then old(shown)[sid := Due(facts, tree, sid)] else old(shown)
    {
      var own := Own(facts, sid);
      var icon := if own != Idle then Display(facts, sid, own) else StandIn(facts, tree, rank, sid);
      var unread := sid in facts.unread;
      BelowIsAnyDepth(tree, rank, sid, facts.unread);
      var hollow := !unread && Below(tree, rank, sid, facts.unread);
      hide Under, Below, Acyclic;
      if sid in shown {
        shown := shown[sid := Marks(icon, unread, hollow)];
      }
    }

    lemma Higher(c: Sid)
      requires Valid()
      ensures c in tree.parents ==> rank(c) < rank(tree.parents[c]) < top
    {
    }

    /** The rows of `done` show what the facts say now, the others what the facts said before, unless stale. */
    ghost predicate PaintedIn(done: set<Sid>, before: Facts)
      requires Valid()
      reads this
    {
      && (forall s :: s in shown && s in done ==> shown[s] == Due(facts, tree, s))
      && (forall s :: s in shown && s !in done && !Touches(tree, s, stale) ==> shown[s] == Due(before, tree, s))
    }

    lemma PaintedAll(sid: Sid, above: set<Sid>, before: Facts)
      requires Valid() && SameBut(before, facts, sid) && Above(tree, sid, above) && PaintedIn({sid} + above, before)
      ensures forall s :: s in shown && !Touches(tree, s, stale - {sid}) ==> shown[s] == Due(facts, tree, s)
    {
      hide Touches, Due, SameBut, Acyclic, Above;
      forall s | s in shown && !Touches(tree, s, stale - {sid})
        ensures shown[s] == Due(facts, tree, s)
      {
        if s != sid && s !in above {
          DueElsewhere(before, facts, tree, s, sid, above);
          if Touches(tree, s, stale) {
            TouchesLess(tree, s, sid, above, stale);
          }
        }
      }
    }

    /** The row and its ancestors are repainted; that is enough whenever only the row's own facts changed. */
    method RefreshSessionIndicator(sid: Sid, ghost before: Facts)
      requires Valid() && SameBut(before, facts, sid) && PaintedIn({}, before)
      modifies this`shown, this`stale
      ensures FreshButStale() && shown.Keys == old(shown).Keys && stale == old(stale) - {sid}
    {
      hide Under, Touches, Due, SameBut, Acyclic, AboveTo, Above, PaintedIn, Fresh;
      AboveStart(tree, sid);
      PaintNext(sid, {}, before);
      ghost var above, done: set<Sid> := {}, {} + {sid};
      var row := sid;
      while row in tree.parents
        invariant shown.Keys == old(shown).Keys && PaintedIn(done, before) && done == {sid} + above
        invariant stale == old(stale)
        invariant AboveTo(tree, sid, above, row)
        decreases if row in tree.parents then top - rank(tree.parents[row]) else -1
      {
        AboveNext(tree, sid, above, row);
        row := tree.parents[row];
        Higher(row);
        PaintNext(row, done, before);
        above, done := above + {row}, done + {row};
      }
      AboveEnd(tree, sid, above, row);
      PaintedAll(sid, above, before);
      stale := stale - {sid};
    }

    method PaintNext(sid: Sid, ghost done: set<Sid>, ghost before: Facts)
      requires Valid() && PaintedIn(done, before)
      modifies this`shown
      ensures shown.Keys == old(shown).Keys && PaintedIn(done + {sid}, before)
    {
      hide Touches, Due, Acyclic;
      PaintSessionIndicator(sid);
    }

    /** `setSessionIndicator`. */
    method SetSessionIndicator(sid: Sid, state: Activity, ghost before: Facts)
      requires Valid() && PaintedIn({}, before) && SameBut(before, facts, sid)
      modifies this`facts, this`shown, this`stale
      ensures FreshButStale() && shown.Keys == old(shown).Keys && stale == old(stale) - {sid}
      ensures facts == old(facts).(own := old(facts).own[sid := state])
      ensures SameBut(before, facts, sid)
    {
      hide Touches, Due, Acyclic;
      facts := facts.(own := facts.own[sid := state]);
      RefreshSessionIndicator(sid, before);
    }

    /** A reply captured before a newer unread fact may not overwrite it. */
    method RecordUnreadFact(sid: Sid, unread: bool)
      modifies this`facts, this`unreadSeq, this`unreadSeqOf
      ensures facts == old(facts).(unread := if unread then old(facts).unread + {sid} else old(facts).unread - {sid})
      ensures unreadSeq == old(unreadSeq) + 1 && unreadSeqOf == old(unreadSeqOf)[sid := unreadSeq]
    {
      facts := facts.(unread := if unread then facts.unread + {sid} else facts.unread - {sid});
      unreadSeq := unreadSeq + 1;
      unreadSeqOf := unreadSeqOf[sid := unreadSeq];
    }

    /** `applySessionStatus` for one row of a poll reply asked for at `requestSeq`. */
    method ApplySessionStatus(sid: Sid, status: Status, requestSeq: nat)
      requires Valid() && FreshButStale()
      modifies this`facts, this`shown, this`unreadSeq, this`unreadSeqOf, this`stale
      ensures FreshButStale() && shown.Keys == old(shown).Keys && stale == old(stale) - {sid}
      ensures Own(facts, sid) == IndicatorState(status) && SameBut(old(facts), facts, sid)
      ensures Own(facts, sid) == Thinking <==> status.thinking
      ensures Own(facts, sid) == WorkerOnly <==> status.running && !status.thinking
      ensures Own(facts, sid) == Waiting <==> status.waiting && !status.running && !status.thinking
      ensures sid in facts.paused <==> sid in facts.workers && status.pendingTrigger
      ensures sid in facts.unread <==> if sid in old(unreadSeqOf) && requestSeq < old(unreadSeqOf)[sid]
                                       then sid in old(facts).unread else status.unread
    {
      hide Touches, Due, Acyclic, SameBut;
      ghost var before := facts;
      if requestSeq >= (if sid in unreadSeqOf then unreadSeqOf[sid] else 0) {
        RecordUnreadFact(sid, status.unread);
      }
      if sid in facts.workers && status.pendingTrigger {
        facts := facts.(paused := facts.paused + {sid});
      } else {
        facts := facts.(paused := facts.paused - {sid});
      }
      SameButSets(before, facts, sid);
      hide Fresh;
      SetSessionIndicator(sid, IndicatorState(status), before);
    }

    /** A session was read, or a reply arrived in one the page does not show: the fact is recorded and repainted. */
    method ApplyUnread(sid: Sid, unread: bool)
      requires Valid() && FreshButStale()
      modifies this`facts, this`shown, this`unreadSeq, this`unreadSeqOf, this`stale
      ensures FreshButStale() && shown.Keys == old(shown).Keys && stale == old(stale) - {sid}
      ensures (sid in facts.unread <==> unread) && SameBut(old(facts), facts, sid)
    {
      hide Touches, Due;
      ghost var before := facts;
      RecordUnreadFact(sid, unread);
      RefreshSessionIndicator(sid, before);
    }

    /**
     The unread broadcast. For the session the page has open the fact is recorded and nothing repainted: from
     a page where every row shows what is due they all still do if and only if the fact did not change, or
     its row is not on the page and every row above it is marked by something else anyway.
     */
    method UnreadChanged(sid: Sid, unread: bool, active: Option<Sid>)
      requires Valid() && FreshButStale()
      modifies this`facts, this`shown, this`unreadSeq, this`unreadSeqOf, this`stale
      ensures FreshButStale() && shown.Keys == old(shown).Keys
      ensures stale == if active == Some(sid) then old(stale) + {sid} else old(stale) - {sid}
      ensures (sid in facts.unread <==> unread) && SameBut(old(facts), facts, sid)
      ensures active == Some(sid) ==> shown == old(shown)
      ensures active == Some(sid) && old(Fresh()) ==>
        (Fresh() <==> || (unread <==> sid in old(facts).unread)
                      || (sid !in shown && forall row :: row in shown && Under(tree, row, {sid}) ==>
                            Overshadows(old(facts), tree, row, sid)))
    {
      if active != Some(sid) {
        ApplyUnread(sid, unread);
        return;
      }
      ghost var before := facts;
      RecordUnreadFact(sid, unread);
      UnreadUnseen(sid, before, unread);
      stale := stale + {sid};
    }

    lemma UnreadUnseen(sid: Sid, before: Facts, unread: bool)
      requires Valid() && facts == WithUnread(before, sid, unread)
      ensures SameBut(before, facts, sid)
      ensures (forall s :: s in shown && !Touches(tree, s, stale) ==> shown[s] == Due(before, tree, s)) ==>
                forall s :: s in shown && !Touches(tree, s, stale + {sid}) ==> shown[s] == Due(facts, tree, s)
      ensures (forall s :: s in shown ==> shown[s] == Due(before, tree, s)) ==>
                (Fresh() <==> || (sid in facts.unread <==> sid in before.unread)
                              || (sid !in shown && forall row :: row in shown && Under(tree, row, {sid}) ==>
                                    Overshadows(before, tree, row, sid)))
    {
      if sid in facts.unread <==> sid in before.unread {
        assert facts.unread == before.unread;
      } else {
        assert facts == WithUnread(before, sid, sid !in before.unread);
      }
      hide Due, Acyclic, Under, Overshadows;
      forall s
        ensures Touches(tree, s, stale + {sid}) <==> Touches(tree, s, stale) || s == sid || Under(tree, s, {sid})
        ensures facts != before ==> (Due(before, tree, s) == Due(facts, tree, s)
                  <==> s != sid && (Under(tree, s, {sid}) ==> Overshadows(before, tree, s, sid)))
      {
        UnderEither(tree, s, stale, {sid});
        if facts != before {
          UnreadIsDue(before, tree, s, sid);
        }
      }
    }

    // ---- the grouped paint ----------------------------------------------------------------------------

    /** `resyncSessionUnread`. */
    method ResyncUnread(sessions: seq<Session>)
      requires DistinctIds(sessions)
      modifies this`facts
      ensures forall k :: 0 <= k < |sessions| ==> (sessions[k].id in facts.unread <==> sessions[k].status.unread)
      ensures facts == old(facts).(unread := facts.unread)
      ensures forall x :: x !in Ids(sessions) ==> (x in facts.unread <==> x in old(facts).unread)
    {
      for i := 0 to |sessions|
        invariant forall k :: 0 <= k < i ==> (sessions[k].id in facts.unread <==> sessions[k].status.unread)
        invariant facts == old(facts).(unread := facts.unread)
        invariant forall x :: x !in Ids(sessions) ==> (x in facts.unread <==> x in old(facts).unread)
      {
        var s := sessions[i];
        assert s.id in Ids(sessions);
        facts := facts.(unread := if s.status.unread then facts.unread + {s.id} else facts.unread - {s.id});
      }
    }

    /** `refreshTreeIndicators`: the rows with children take their stand-ins and their hollow marks. */
    method RefreshTreeIndicators()
      requires Valid()
      requires forall s :: s in shown && Children(tree, s) == [] ==> shown[s] == Due(facts, tree, s)
      requires shown.Keys <= facts.own.Keys
      modifies this`shown
      ensures Fresh() && shown.Keys == old(shown).Keys
    {
      hide Under, Due, Acyclic, Children;
      var todo := facts.own.Keys;
      while todo != {}
        invariant shown.Keys == old(shown).Keys
        invariant forall s :: s in shown && (s !in todo || Children(tree, s) == []) ==> shown[s] == Due(facts, tree, s)
      {
        var sid :| sid in todo;
        todo := todo - {sid};
        if |Children(tree, sid)| > 0 {
          PaintSessionIndicator(sid);
        }
      }
    }

    /** The grouped paint: the list's facts are recorded, and every row of the list shows what is due. */
    method GroupedPaint(sessions: seq<Session>, ghost newRank: Sid -> nat, ghost newTop: nat)
      requires Valid() && DistinctIds(sessions)
      requires forall i :: 0 <= i < |sessions| && Nested(sessions[i], Ids(sessions)) ==>
                 newRank(sessions[i].id) < newRank(sessions[i].parent.value) < newTop
      modifies this`facts, this`tree, this`shown, this`rank, this`top, this`stale
      ensures Valid() && Fresh() && stale == {} && shown.Keys == Ids(sessions)
      ensures sessions != [] ==>
                NestsAs(tree, sessions, Ids(sessions)) && forall p :: InOrder(sessions, Children(tree, p))
      ensures sessions == [] ==> tree == old(tree)
      ensures forall k :: 0 <= k < |sessions| ==> AsListed(facts, sessions[k])
      ensures forall k :: 0 <= k < |sessions| ==> (sessions[k].id in facts.unread <==> sessions[k].status.unread)
      ensures SameOff(old(facts), facts, Ids(sessions))
    {
      shown := map[];
      if sessions == [] {
        stale := {};
        return;
      }
      var t, roots := BuildSessionTree(sessions);
      tree, rank, top := t, newRank, newTop;
      RankedTree(t, sessions, newRank, newTop);
      ghost var before := facts;
      assert SameOff(before, facts, Ids(sessions));
      hide DistinctIds, NestsAs, Consistent, Acyclic, Recorded, InOrder, SameOff, AsListed;
      for i := 0 to |sessions|
        invariant Rendered(facts, shown, sessions, i, before) && tree == t && rank == newRank && top == newTop
      {
        hide Rendered, FirstMarks;
        RenderedNext(facts, shown, sessions, i, before);
        facts := Recorded(facts, sessions[i]);
        shown := shown[sessions[i].id := FirstMarks(facts, sessions[i])];
      }
      assert sessions[..|sessions|] == sessions;
      ghost var recorded := facts;
      ResyncUnread(sessions);
      UnreadOnly(before, recorded, facts, sessions);
      LeavesAreDue(sessions);
      RefreshTreeIndicators();
      stale := {};
    }

    lemma LeavesAreDue(sessions: seq<Session>)
      requires Valid() && shown.Keys == Ids(sessions)
      requires forall k :: 0 <= k < |sessions| ==> AsListed(facts, sessions[k])
      requires forall k :: 0 <= k < |sessions| ==>
               sessions[k].id in shown && shown[sessions[k].id] == FirstMarks(facts, sessions[k])
      requires forall k :: 0 <= k < |sessions| ==> (sessions[k].id in facts.unread <==> sessions[k].status.unread)
      ensures forall s :: s in shown && Children(tree, s) == [] ==> shown[s] == Due(facts, tree, s)
      ensures shown.Keys <= facts.own.Keys
    {
      hide Acyclic, FirstMarks, Due, Under;
      forall s | s in shown && Children(tree, s) == []
        ensures shown[s] == Due(facts, tree, s)
      {
        var k :| 0 <= k < |sessions| && sessions[k].id == s;
        LeafIsDue(facts, tree, rank, sessions[k]);
      }
    }
  }

  /** The unread facts change nothing else that was recorded. */
  lemma UnreadOnly(before: Facts, f: Facts, g: Facts, sessions: seq<Session>)
    requires SameOff(before, f, Ids(sessions)) && g == f.(unread := g.unread)
    requires forall x :: x !in Ids(sessions) ==> (x in g.unread <==> x in f.unread)
    requires forall k :: 0 <= k < |sessions| ==> AsListed(f, sessions[k])
    ensures SameOff(before, g, Ids(sessions))
    ensures forall k :: 0 <= k < |sessions| ==> AsListed(g, sessions[k])
    ensures forall k :: 0 <= k < |sessions| ==> FirstMarks(g, sessions[k]) == FirstMarks(f, sessions[k])
  {
  }

  lemma RankedTree(t: Tree, sessions: seq<Session>, rank: Sid -> nat, top: nat)
    requires Consistent(t) && NestsAs(t, sessions, Ids(sessions))
    requires forall i :: 0 <= i < |sessions| && Nested(sessions[i], Ids(sessions)) ==>
               rank(sessions[i].id) < rank(sessions[i].parent.value) < top
    ensures Acyclic(t, rank) && forall c :: c in t.parents ==> rank(t.parents[c]) < top
  {
    forall c | c in t.parents
      ensures rank(c) < rank(t.parents[c]) < top
    {
      assert c in Ids(sessions);
      var i :| 0 <= i < |sessions| && sessions[i].id == c;
    }
  }

  // ---- every run ----------------------------------------------------------------------------------------

  datatype Event =
    | Polled(sid: Sid, status: Status, requestSeq: nat)
    | Broadcast(sid: Sid, unread: bool, active: Option<Sid>)
    | Read(sid: Sid)

  /** The sessions whose last event was a broadcast while they were open. */
  ghost function StaleThrough(stale: set<Sid>, events: seq<Event>): set<Sid> {
    if events == [] then stale
    else
      var (before, e) := (StaleThrough(stale, events[..|events| - 1]), events[|events| - 1]);
      if e.Broadcast? && e.active == Some(e.sid) then before + {e.sid} else before - {e.sid}
  }

  /**
   Any run of poll replies, broadcasts and reads: every row shows what is due, as a full repaint would, but
   those at and above a session whose last event was a broadcast while the page had it open.
   */
  method Follow(painter: Painter, events: seq<Event>)
    requires painter.Valid() && painter.FreshButStale()
    modifies painter`facts, painter`shown, painter`unreadSeq, painter`unreadSeqOf, painter`stale
    ensures painter.FreshButStale() && painter.shown.Keys == old(painter.shown).Keys
    ensures painter.stale == StaleThrough(old(painter.stale), events)
    ensures painter.stale == {} ==> painter.Fresh()
  {
    hide Touches, Due, Acyclic, SameBut, Overshadows, Under, Painter.FreshButStale, Painter.Fresh;
    assert events[..0] == [];
    for i := 0 to |events|
      invariant painter.FreshButStale() && painter.shown.Keys == old(painter.shown).Keys
      invariant painter.stale == StaleThrough(old(painter.stale), events[..i])
    {
      assert events[..i + 1][..i] == events[..i];
      match events[i] {
        case Polled(sid, status, requestSeq) => painter.ApplySessionStatus(sid, status, requestSeq);
        case Broadcast(sid, unread, active) => painter.UnreadChanged(sid, unread, active);
        case Read(sid) => painter.ApplyUnread(sid, false);
      }
    }
    assert events[..|events|] == events;
    if painter.stale == {} {
      painter.NothingStale();
    }
  }
}
