/** Message entries of one chat, the roles the turn rule reads, and the filter it is built on. */
module Transcript {

  /** The roles the turn engine tells apart; `NoRole` is a message whose role is missing. */
  datatype Role =
    | User | ScheduledTrigger | AgentMessage | WorkerSummary | ChildReport
    | Assistant | Separator | NoRole | Other(name: string)

  /** `id == ""` stands for a missing or empty id. */
  datatype Message = Message(id: string, role: Role, content: string)

  /** An entry is an object of its own: two entries are the same one exactly when their `uid`s agree. */
  datatype Entry = Entry(uid: nat, msg: Message)

  /** STIMULUS_ROLES: the roles whose messages open a turn. */
  predicate IsStimulus(r: Role) {
    r.User? || r.ScheduledTrigger? || r.AgentMessage? || r.WorkerSummary? || r.ChildReport?
  }

  predicate IsStable(m: Message) {
    m.id != "" && !m.role.NoRole?
  }

  predicate StableEntry(e: Entry) { IsStable(e.msg) }

  /** A stable separator closes a span. */
  predicate Closes(e: Entry) { StableEntry(e) && e.msg.role.Separator? }

  /** An input of a round, and the assistant messages that answer it, as the span rule sees them. */
  predicate IsInput(e: Entry) { StableEntry(e) && IsStimulus(e.msg.role) }
  predicate NotInput(e: Entry) { !IsInput(e) }
  predicate IsReply(e: Entry) { StableEntry(e) && e.msg.role.Assistant? }

  ghost predicate Distinct<T>(s: seq<T>) {
    forall i, j :: 0 <= i < j < |s| ==> s[i] != s[j]
  }

  /** The sub-sequence of the items that satisfy `p`, in order. */
  function Keep<T>(p: T -> bool, s: seq<T>): seq<T> {
    if s == [] then [] else (if p(s[0]) then [s[0]] else []) + Keep(p, s[1..])
  }

  lemma {:induction false} KeepConcat<T>(p: T -> bool, a: seq<T>, b: seq<T>)
    ensures Keep(p, a + b) == Keep(p, a) + Keep(p, b)
  {
    if a == [] {
      assert a + b == b;
    } else {
      assert (a + b)[0] == a[0] && (a + b)[1..] == a[1..] + b;
      KeepConcat(p, a[1..], b);
      var first := if p(a[0]) then [a[0]] else [];
      assert Keep(p, a + b) == first + Keep(p, a[1..] + b);
      assert first + (Keep(p, a[1..]) + Keep(p, b)) == first + Keep(p, a[1..]) + Keep(p, b);
    }
  }

  lemma {:induction false} KeepMembers<T>(p: T -> bool, s: seq<T>)
    ensures forall x :: x in Keep(p, s) <==> x in s && p(x)
    ensures |Keep(p, s)| <= |s|
  {
    if s != [] {
      KeepMembers(p, s[1..]);
      assert s == [s[0]] + s[1..];
    }
  }

  lemma {:induction false} KeepAll<T>(p: T -> bool, s: seq<T>)
    requires forall i :: 0 <= i < |s| ==> p(s[i])
    ensures Keep(p, s) == s
  {
    if s != [] {
      KeepAll(p, s[1..]);
      assert s == [s[0]] + s[1..];
    }
  }

  lemma {:induction false} KeepNone<T>(p: T -> bool, s: seq<T>)
    requires forall i :: 0 <= i < |s| ==> !p(s[i])
    ensures Keep(p, s) == []
  {
    if s != [] {
      KeepNone(p, s[1..]);
    }
  }

  /** Two filters commute. */
  lemma {:induction false} KeepCommutes<T>(p: T -> bool, q: T -> bool, s: seq<T>)
    ensures Keep(p, Keep(q, s)) == Keep(q, Keep(p, s))
  {
    if s != [] {
      KeepCommutes(p, q, s[1..]);
      var (x, y) := (if q(s[0]) then [s[0]] else [], if p(s[0]) then [s[0]] else []);
      KeepConcat(p, x, Keep(q, s[1..]));
      KeepConcat(q, y, Keep(p, s[1..]));
    }
  }

  /** A filter followed by its negation keeps every item exactly once. */
  lemma {:induction false} KeepPartition<T>(p: T -> bool, q: T -> bool, s: seq<T>)
    requires forall i :: 0 <= i < |s| ==> (p(s[i]) <==> !q(s[i]))
    ensures multiset(Keep(p, s)) + multiset(Keep(q, s)) == multiset(s)
  {
    if s != [] {
      KeepPartition(p, q, s[1..]);
      assert s == [s[0]] + s[1..];
    }
  }

  lemma {:induction false} KeepDistinct<T>(p: T -> bool, s: seq<T>)
    requires Distinct(s)
    ensures Distinct(Keep(p, s))
  {
    if s != [] {
      KeepDistinct(p, s[1..]);
      KeepMembers(p, s[1..]);
    }
  }

  lemma DistinctConcat<T>(a: seq<T>, b: seq<T>)
    ensures Distinct(a + b) <==> Distinct(a) && Distinct(b) && forall x :: x in a ==> x !in b
  {
    var s := a + b;
    assert forall i :: 0 <= i < |a| ==> s[i] == a[i];
    assert forall j :: 0 <= j < |b| ==> b[j] == s[|a| + j];
    if Distinct(s) {
      forall i, j | 0 <= i < j < |b|
        ensures b[i] != b[j]
      {
        assert b[i] == s[|a| + i] && b[j] == s[|a| + j];
      }
      forall x | x in a
        ensures x !in b
      {
        var i :| 0 <= i < |a| && a[i] == x;
        forall j | 0 <= j < |b|
          ensures b[j] != x
        {
          assert b[j] == s[|a| + j] && x == s[i];
        }
      }
    } else if Distinct(a) && Distinct(b) && forall x :: x in a ==> x !in b {
      forall i, j | 0 <= i < j < |s|
        ensures s[i] != s[j]
      {
        assert s[j] == if j < |a| then a[j] else b[j - |a|];
        assert s[i] == if i < |a| then a[i] else b[i - |a|];
        if i < |a| <= j {
          assert a[i] in a && b[j - |a|] in b;
        }
      }
    }
  }
}
