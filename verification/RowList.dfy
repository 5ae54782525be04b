/**
 The rows between the two spacers of the message list: a list of DOM nodes, edited by `remove`,
 `replaceWith` and `insertBefore`, and the segment-to-node table that says which segments have one.
 */
module RowList {
  import opened Common

  /** The place of a node among its siblings, or their number when it is not among them. */
  function Position(dom: seq<nat>, node: nat): (i: nat)
    ensures i <= |dom|
    ensures i < |dom| ==> dom[i] == node
  {
    if dom == [] || dom[0] == node then 0 else 1 + Position(dom[1..], node)
  }

  function RemoveNode(dom: seq<nat>, node: nat): seq<nat> {
    var i := Position(dom, node);
    if i < |dom| then dom[..i] + dom[i + 1..] else dom
  }

  function ReplaceNode(dom: seq<nat>, node: nat, other: nat): seq<nat> {
    var i := Position(dom, node);
    if i < |dom| then dom[i := other] else dom
  }

  /** Before `next`, or before the bottom spacer when there is none. */
  function InsertBefore(dom: seq<nat>, node: nat, next: Option<nat>): seq<nat> {
    if next.None? then dom + [node]
    else var i := Position(dom, next.value); dom[..i] + [node] + dom[i..]
  }

  lemma {:induction false} PositionAfter(a: seq<nat>, node: nat, b: seq<nat>)
    requires node !in a
    ensures Position(a + [node] + b, node) == |a|
  {
    var s := a + [node] + b;
    if a != [] {
      assert s[0] == a[0] && s[1..] == a[1..] + [node] + b;
      PositionAfter(a[1..], node, b);
    }
  }

  /** The nodes of the segments `sids` that have one, in segment order. */
  function Rows(sids: seq<nat>, m: map<nat, nat>): seq<nat> {
    if sids == [] then [] else (if sids[0] in m then [m[sids[0]]] else []) + Rows(sids[1..], m)
  }

  lemma {:induction false} RowsConcat(a: seq<nat>, b: seq<nat>, m: map<nat, nat>)
    ensures Rows(a + b, m) == Rows(a, m) + Rows(b, m)
  {
    if a == [] {
      assert a + b == b;
    } else {
      assert (a + b)[0] == a[0] && (a + b)[1..] == a[1..] + b;
      RowsConcat(a[1..], b, m);
    }
  }

  lemma {:induction false} RowsAgree(sids: seq<nat>, m: map<nat, nat>, m': map<nat, nat>)
    requires forall s :: s in sids ==> (s in m <==> s in m') && (s in m ==> m[s] == m'[s])
    ensures Rows(sids, m) == Rows(sids, m')
  {
    if sids != [] {
      assert sids[0] in sids;
      RowsAgree(sids[1..], m, m');
    }
  }

  lemma {:induction false} RowsMember(sids: seq<nat>, m: map<nat, nat>, node: nat)
    ensures node in Rows(sids, m) <==> exists s :: s in sids && s in m && m[s] == node
  {
    if sids != [] {
      RowsMember(sids[1..], m, node);
      assert sids == [sids[0]] + sids[1..];
      if node in Rows(sids, m) && sids[0] in m && m[sids[0]] == node {
        assert sids[0] in sids;
      }
    }
  }

  lemma {:induction false} RowsOfNone(sids: seq<nat>, m: map<nat, nat>)
    requires forall s :: s in sids ==> s !in m
    ensures Rows(sids, m) == []
  {
    if sids != [] {
      assert sids[0] in sids;
      RowsOfNone(sids[1..], m);
    }
  }

  lemma {:induction false} RowsOfAll(sids: seq<nat>, m: map<nat, nat>)
    requires forall s :: s in sids ==> s in m
    ensures |Rows(sids, m)| == |sids|
    ensures forall i :: 0 <= i < |sids| ==> Rows(sids, m)[i] == m[sids[i]]
  {
    if sids != [] {
      assert sids[0] in sids;
      RowsOfAll(sids[1..], m);
    }
  }

  ghost predicate Unique(s: seq<nat>) { forall i, j :: 0 <= i < j < |s| ==> s[i] != s[j] }

  ghost predicate Injective(m: map<nat, nat>) {
    forall s, t :: s in m && t in m && s != t ==> m[s] != m[t]
  }

  /** Segment `i`'s place in the list, whether or not it has a node yet. */
  lemma RowsAround(sids: seq<nat>, m: map<nat, nat>, i: nat)
    requires i < |sids| && Unique(sids)
    ensures var (a, b) := (Rows(sids[..i], m), Rows(sids[i + 1..], m));
            Rows(sids, m) == a + (if sids[i] in m then [m[sids[i]]] else []) + b
    ensures sids[i] !in sids[..i] && sids[i] !in sids[i + 1..]
  {
    assert sids == sids[..i] + [sids[i]] + sids[i + 1..];
    RowsConcat(sids[..i] + [sids[i]], sids[i + 1..], m);
    RowsConcat(sids[..i], [sids[i]], m);
    assert [sids[i]][1..] == [];
    assert Rows([sids[i]], m) == if sids[i] in m then [m[sids[i]]] else [];
  }

  /** In a list of distinct nodes, a segment's node is found at the segment's place. */
  lemma NodeAt(sids: seq<nat>, m: map<nat, nat>, i: nat)
    requires i < |sids| && Unique(sids) && Injective(m) && sids[i] in m
    ensures var a := Rows(sids[..i], m);
            Position(Rows(sids, m), m[sids[i]]) == |a| < |Rows(sids, m)|
            && Rows(sids, m)[..|a|] == a && Rows(sids, m)[|a| + 1..] == Rows(sids[i + 1..], m)
  {
    var (a, b, node) := (Rows(sids[..i], m), Rows(sids[i + 1..], m), m[sids[i]]);
    RowsAround(sids, m, i);
    RowsMember(sids[..i], m, node);
    PositionAfter(a, node, b);
  }

  lemma RemoveRow(sids: seq<nat>, m: map<nat, nat>, i: nat)
    requires i < |sids| && Unique(sids) && Injective(m) && sids[i] in m
    ensures RemoveNode(Rows(sids, m), m[sids[i]]) == Rows(sids, m - {sids[i]})
  {
    NodeAt(sids, m, i);
    var m' := m - {sids[i]};
    RowsAround(sids, m', i);
    RowsAgree(sids[..i], m, m');
    RowsAgree(sids[i + 1..], m, m');
  }

  lemma ReplaceRow(sids: seq<nat>, m: map<nat, nat>, i: nat, node: nat)
    requires i < |sids| && Unique(sids) && Injective(m) && sids[i] in m
    ensures ReplaceNode(Rows(sids, m), m[sids[i]], node) == Rows(sids, m[sids[i] := node])
  {
    var m' := m[sids[i] := node];
    var (a, b) := (Rows(sids[..i], m), Rows(sids[i + 1..], m));
    hide Rows, Position;
    NodeAt(sids, m, i);
    RowsAround(sids, m, i);
    RowsAround(sids, m', i);
    hide Unique, Injective;
    RowsAgree(sids[..i], m, m');
    RowsAgree(sids[i + 1..], m, m');
    assert Rows(sids, m') == a + [node] + b;
    assert Rows(sids, m) == a + [m[sids[i]]] + b;
  }

  /** Inserting in front of the next segment with a node, or at the end, keeps segment order. */
  lemma InsertRow(sids: seq<nat>, m: map<nat, nat>, i: nat, node: nat, next: Option<nat>)
    requires i < |sids| && Unique(sids) && Injective(m) && sids[i] !in m
    requires next == FirstRow(sids[i + 1..], m)
    ensures InsertBefore(Rows(sids, m), node, next) == Rows(sids, m[sids[i] := node])
  {
    var m' := m[sids[i] := node];
    var (a, b) := (Rows(sids[..i], m), Rows(sids[i + 1..], m));
    RowsAround(sids, m, i);
    RowsAround(sids, m', i);
    RowsAgree(sids[..i], m, m');
    RowsAgree(sids[i + 1..], m, m');
    FirstRowIs(sids[i + 1..], m);
    assert Rows(sids, m) == a + b;
    if b != [] {
      assert next == Some(b[0]);
      RowsMember(sids[..i], m, b[0]);
      RowsMember(sids[i + 1..], m, b[0]);
      assert b[0] !in a;
      assert a + b == a + [b[0]] + b[1..];
      PositionAfter(a, b[0], b[1..]);
    } else {
      assert a + [] == a;
    }
  }

  /** The first node among the segments `sids`. */
  function FirstRow(sids: seq<nat>, m: map<nat, nat>): Option<nat> {
    if sids == [] then None else if sids[0] in m then Some(m[sids[0]]) else FirstRow(sids[1..], m)
  }

  lemma {:induction false} FirstRowIs(sids: seq<nat>, m: map<nat, nat>)
    ensures FirstRow(sids, m) == if Rows(sids, m) == [] then None else Some(Rows(sids, m)[0])
  {
    if sids != [] && sids[0] !in m {
      FirstRowIs(sids[1..], m);
    }
  }
}
