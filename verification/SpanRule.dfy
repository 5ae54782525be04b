/**
 The turn-input rule (chat/shared.js): how one separator-terminated span of messages splits into
 its own inputs, the inputs carried to the next span, a head, a conclusion and a fold.
 */
module SpanRule {
  import opened Common
  import opened Transcript

  /** What `splitTurnSpan` returns for one span body. */
  datatype Split = Split(ownInputs: seq<Entry>, carried: seq<Entry>,
                         head: Option<Entry>, conclusion: Option<Entry>, fold: seq<Entry>)

  function Inputs(s: seq<Entry>): seq<Entry> { Keep(IsInput, s) }
  function Others(s: seq<Entry>): seq<Entry> { Keep(NotInput, s) }

  /** The entries before the first assistant message, and the entries from it on. */
  function Prelude(s: seq<Entry>): seq<Entry> {
    if s == [] || IsReply(s[0]) then [] else [s[0]] + Prelude(s[1..])
  }
  function After(s: seq<Entry>): seq<Entry> {
    if s == [] || IsReply(s[0]) then s else After(s[1..])
  }

  /** Inputs that arrive after the first assistant message leave for the next span; the rest stays. */
  function Late(s: seq<Entry>): seq<Entry> { Inputs(After(s)) }
  function Early(s: seq<Entry>): seq<Entry> { Prelude(s) + Others(After(s)) }

  function LastReply(s: seq<Entry>): Option<Entry> {
    if s == [] then None
    else if IsReply(s[|s| - 1]) then Some(s[|s| - 1])
    else LastReply(s[..|s| - 1])
  }
  function BeforeLastReply(s: seq<Entry>): seq<Entry> {
    if s == [] then []
    else if IsReply(s[|s| - 1]) then s[..|s| - 1]
    else BeforeLastReply(s[..|s| - 1])
  }

  function LastUser(s: seq<Entry>): Option<Entry> {
    if s == [] then None
    else if s[|s| - 1].msg.role.User? then Some(s[|s| - 1])
    else LastUser(s[..|s| - 1])
  }

  /** The last user input, else the last input, else the first entry that stays. */
  function HeadOf(own: seq<Entry>, kept: seq<Entry>): Option<Entry> {
    if LastUser(own).Some? then LastUser(own)
    else if own != [] then Some(own[|own| - 1])
    else if kept != [] then Some(kept[0])
    else None
  }

  function Rest(s: seq<Entry>): seq<Entry> { if s == [] then [] else s[1..] }

  /** The work between the head and the conclusion. */
  function FoldOf(pre: seq<Entry>, work: seq<Entry>): seq<Entry> {
    if work == [] then []
    else if Inputs(pre) != [] then BeforeLastReply(work)
    else Rest(pre + BeforeLastReply(work))
  }

  /** The split, stated from the prelude and the work of the body, with no index in sight. */
  function SplitOf(body: seq<Entry>): Split {
    var pre, work := Prelude(body), Others(After(body));
    Split(Inputs(pre), Late(body), HeadOf(Inputs(pre), pre + work), LastReply(work), FoldOf(pre, work))
  }

  // ---- Prelude, After, Late and Early over concatenations ---------------------------------------

  lemma {:induction false} Parts(s: seq<Entry>)
    ensures s == Prelude(s) + After(s)
    ensures forall i :: 0 <= i < |Prelude(s)| ==> !IsReply(Prelude(s)[i])
    ensures After(s) != [] ==> IsReply(After(s)[0])
  {
    if s != [] && !IsReply(s[0]) {
      Parts(s[1..]);
      assert s == [s[0]] + s[1..];
    }
  }

  lemma {:induction false} PartsConcat(a: seq<Entry>, b: seq<Entry>)
    ensures After(a) != [] ==> Prelude(a + b) == Prelude(a) && After(a + b) == After(a) + b
    ensures After(a) == [] ==> Prelude(a + b) == a + Prelude(b) && After(a + b) == After(b)
  {
    if a == [] {
      assert a + b == b;
    } else if !IsReply(a[0]) {
      assert (a + b)[1..] == a[1..] + b;
      PartsConcat(a[1..], b);
      assert a == [a[0]] + a[1..];
    }
  }

  lemma {:induction false} PartsAt(s: seq<Entry>, i: nat)
    requires i <= |s|
    requires forall k :: 0 <= k < i ==> !IsReply(s[k])
    requires i < |s| ==> IsReply(s[i])
    ensures Prelude(s) == s[..i] && After(s) == s[i..]
  {
    if i > 0 {
      PartsAt(s[1..], i - 1);
      assert s[..i] == [s[0]] + s[1..][..i - 1];
    }
  }

  lemma {:induction false} NoReply(s: seq<Entry>)
    requires forall i :: 0 <= i < |s| ==> !IsReply(s[i])
    ensures Prelude(s) == s && After(s) == [] && Late(s) == [] && Early(s) == s
  {
    PartsAt(s, |s|);
    assert s[..|s|] == s;
  }

  /** Inputs alone hold no reply and are all kept. */
  lemma InputsOnly(s: seq<Entry>)
    ensures Inputs(Inputs(s)) == Inputs(s) && Others(Inputs(s)) == [] && Inputs(Others(s)) == []
    ensures Others(Others(s)) == Others(s)
    ensures After(Inputs(s)) == []
  {
    KeepMembers(IsInput, s);
    KeepMembers(NotInput, s);
    KeepAll(IsInput, Inputs(s));
    KeepAll(NotInput, Others(s));
    KeepNone(NotInput, Inputs(s));
    KeepNone(IsInput, Others(s));
    NoReply(Inputs(s));
  }

  /** What opens with a reply still does without its inputs. */
  lemma WorkStarts(s: seq<Entry>)
    requires s != [] ==> IsReply(s[0])
    ensures Prelude(Others(s)) == [] && After(Others(s)) == Others(s)
  {
    if s != [] {
      assert Others(s) == [s[0]] + Others(s[1..]);
      hide Keep;
    } else {
      assert Others(s) == [];
    }
  }

  lemma FirstIsReply(items: seq<Entry>)
    ensures After(items) != [] ==> IsReply(After(items)[0])
  {
    Parts(items);
  }

  lemma NoReplyInPrelude(s: seq<Entry>)
    ensures s == Prelude(s) + After(s)
    ensures Prelude(Prelude(s)) == Prelude(s) && After(Prelude(s)) == []
  {
    Parts(s);
    NoReply(Prelude(s));
  }

  /** A span whose late inputs left has none to give, and giving them up again changes nothing. */
  lemma EarlyIsFixed(s: seq<Entry>)
    ensures Prelude(Early(s)) == Prelude(s) && After(Early(s)) == Others(After(s))
    ensures Early(Early(s)) == Early(s) && Late(Early(s)) == []
    ensures Inputs(s) == Inputs(Early(s)) + Late(s) && Others(Early(s)) == Others(s)
  {
    hide Prelude, After, Keep;
    FirstIsReply(s);
    NoReplyInPrelude(s);
    var work := Others(After(s));
    WorkStarts(After(s));
    PartsConcat(Prelude(s), work);
    InputsOnly(After(s));
    KeepConcat(IsInput, Prelude(s), After(s));
    KeepConcat(IsInput, Prelude(s), work);
    KeepConcat(NotInput, Prelude(s), After(s));
    KeepConcat(NotInput, Prelude(s), work);
    assert Prelude(s) + [] == Prelude(s);
  }

  /** Carried-in inputs sit in front of the span and are never carried out of it again. */
  lemma CarriedInFront(x: seq<Entry>, s: seq<Entry>)
    requires Inputs(x) == x
    ensures Late(x + s) == Late(s) && Early(x + s) == x + Early(s)
  {
    InputsOnly(x);
    PartsConcat(x, s);
    assert x + (Prelude(s) + Others(After(s))) == x + Prelude(s) + Others(After(s));
  }

  /** Splitting `p + q` after `q` already gave up its late inputs loses nothing. */
  lemma EarlyAcross(p: seq<Entry>, q: seq<Entry>)
    ensures Early(p + Early(q)) == Early(p + q)
    ensures Late(p + Early(q)) + Late(q) == Late(p + q)
  {
    EarlyIsFixed(q);
    AcrossParts(p, q);
    AcrossParts(p, Early(q));
    if After(p) != [] {
      assert Late(p) + Inputs(Early(q)) + Late(q) == Late(p) + (Inputs(Early(q)) + Late(q));
    }
  }

  /** The halves of `p + q`, from the halves of `p` and `q`. */
  lemma AcrossParts(p: seq<Entry>, q: seq<Entry>)
    ensures After(p) != [] ==> Late(p + q) == Late(p) + Inputs(q) && Early(p + q) == Early(p) + Others(q)
    ensures After(p) == [] ==> Late(p + q) == Late(q) && Early(p + q) == p + Early(q)
  {
    hide Prelude, After, Keep;
    PartsConcat(p, q);
    if After(p) != [] {
      KeepConcat(IsInput, After(p), q);
      KeepConcat(NotInput, After(p), q);
    }
  }

  lemma EarlyLateMultiset(s: seq<Entry>)
    ensures multiset(Early(s)) + multiset(Late(s)) == multiset(s)
  {
    Parts(s);
    KeepPartition(IsInput, NotInput, After(s));
  }

  // ---- the split reads only what stays in the span ------------------------------------------------

  /** Everything but the carry is a function of the entries that stay. */
  lemma SplitReadsKept(body: seq<Entry>)
    ensures SplitOf(Early(body)) == SplitOf(body).(carried := [])
  {
    EarlyIsFixed(body);
    InputsOnly(After(body));
  }

  lemma {:induction false} LastReplyAt(s: seq<Entry>, i: nat)
    requires i < |s| && IsReply(s[i])
    requires forall k :: i < k < |s| ==> !IsReply(s[k])
    ensures LastReply(s) == Some(s[i]) && BeforeLastReply(s) == s[..i]
  {
    if i < |s| - 1 {
      LastReplyAt(s[..|s| - 1], i);
      assert s[..|s| - 1][..i] == s[..i];
    }
  }

  lemma {:induction false} LastReplyNone(s: seq<Entry>)
    requires forall k :: 0 <= k < |s| ==> !IsReply(s[k])
    ensures LastReply(s) == None
  {
    if s != [] {
      LastReplyNone(s[..|s| - 1]);
    }
  }

  lemma OthersAround(s: seq<Entry>, i: nat)
    requires i < |s| && NotInput(s[i])
    ensures Others(s) == Others(s[..i]) + [s[i]] + Others(s[i + 1..])
  {
    assert s == s[..i] + [s[i]] + s[i + 1..];
    KeepConcat(NotInput, s[..i] + [s[i]], s[i + 1..]);
    KeepConcat(NotInput, s[..i], [s[i]]);
    assert Others([s[i]]) == [s[i]];
    hide Keep;
  }

  lemma NoReplyAmongOthers(s: seq<Entry>)
    requires forall k :: 0 <= k < |s| ==> !IsReply(s[k])
    ensures forall k :: 0 <= k < |Others(s)| ==> !IsReply(Others(s)[k])
  {
    KeepMembers(NotInput, s);
    hide Keep;
    assert forall k :: 0 <= k < |Others(s)| ==> Others(s)[k] in s;
  }

  /** Dropping the inputs neither moves the conclusion nor changes the work before it. */
  lemma LastReplyOfOthers(s: seq<Entry>, i: nat)
    requires i < |s| && IsReply(s[i])
    requires forall k :: i < k < |s| ==> !IsReply(s[k])
    ensures LastReply(Others(s)) == Some(s[i]) && BeforeLastReply(Others(s)) == Others(s[..i])
  {
    hide Keep, LastReply, BeforeLastReply;
    var (all, a, b) := (Others(s), Others(s[..i]), Others(s[i + 1..]));
    OthersAround(s, i);
    NoReplyAmongOthers(s[i + 1..]);
    assert all == a + [s[i]] + b;
    assert forall k :: |a| < k < |all| ==> all[k] == b[k - |a| - 1];
    LastReplyAt(all, |a|);
  }

  // ---- the code: index loops over the body --------------------------------------------------------

  function IndexOf(s: seq<Entry>, e: Entry): (i: nat)
    ensures i <= |s|
    ensures i < |s| ==> s[i] == e
    ensures e in s ==> i < |s|
  {
    if s == [] || s[0] == e then 0 else 1 + IndexOf(s[1..], e)
  }

  /** The first assistant message stands at `first`, or there is none. */
  ghost predicate FirstReplyAt(items: seq<Entry>, first: nat) {
    && first <= |items| && (forall k :: 0 <= k < first ==> !IsReply(items[k]))
    && (first < |items| ==> IsReply(items[first]))
  }

  /** The last assistant message stands at `last`, or there is none and `last` is -1. */
  ghost predicate LastReplyIs(items: seq<Entry>, last: int) {
    && -1 <= last < |items| && (forall k :: last < k < |items| ==> !IsReply(items[k]))
    && (last >= 0 ==> IsReply(items[last]))
  }

  /** The last user message among the own inputs, else the last own input, else the first item. */
  ghost predicate HeadIs(items: seq<Entry>, own: seq<Entry>, head: Option<Entry>) {
    && (forall i :: (0 <= i < |own| && own[i].msg.role.User?
                     && forall k :: i < k < |own| ==> !own[k].msg.role.User?) ==> head == Some(own[i]))
    && (own != [] && (forall k :: 0 <= k < |own| ==> !own[k].msg.role.User?) ==> head == Some(own[|own| - 1]))
    && (own == [] ==> head == if items == [] then None else Some(items[0]))
  }

  /** What the split is, by the places of the first and the last assistant message. */
  ghost predicate DealtAt(items: seq<Entry>, split: Split, first: nat, last: int) {
    && FirstReplyAt(items, first) && LastReplyIs(items, last)
    && split.ownInputs == Keep(IsInput, items[..first]) && split.carried == Keep(IsInput, items[first..])
    && HeadIs(items, split.ownInputs, split.head)
    && split.conclusion == (if last < 0 then None else Some(items[last]))
    && var from := if split.ownInputs != [] then first else 1;
       split.fold == if last < from then [] else Keep(NotInput, items[from..last])
  }

  ghost predicate Dealt(items: seq<Entry>, split: Split) {
    exists first: nat, last: int :: DealtAt(items, split, first, last)
  }

  /** The walk back to the last assistant message. */
  method FindConclusion(items: seq<Entry>) returns (conclusion: Option<Entry>, ghost last: int)
    requires forall i :: 0 <= i < |items| ==> StableEntry(items[i])
    ensures -1 <= last < |items| && (conclusion.Some? <==> last >= 0)
    ensures forall k :: last < k < |items| ==> !IsReply(items[k])
    ensures conclusion.Some? ==> conclusion.value == items[last] && IsReply(items[last])
    ensures conclusion.None? <==> forall k :: 0 <= k < |items| ==> !IsReply(items[k])
    ensures conclusion.Some? ==> IsReply(conclusion.value) && conclusion.value in items
    ensures LastReplyIs(items, last)
  {
    conclusion := None;
    var at := |items| - 1;
    while at >= 0
      invariant -1 <= at < |items| && conclusion == None
      invariant forall k :: at < k < |items| ==> !IsReply(items[k])
    {
      if items[at].msg.role.Assistant? {
        conclusion := Some(items[at]);
        break;
      }
      at := at - 1;
    }
    last := at;
  }

  /** The walk to the first assistant message, where the prelude ends. */
  method FindFirst(items: seq<Entry>) returns (firstIdx: nat)
    requires forall i :: 0 <= i < |items| ==> StableEntry(items[i])
    ensures firstIdx <= |items| && Prelude(items) == items[..firstIdx] && After(items) == items[firstIdx..]
    ensures FirstReplyAt(items, firstIdx)
  {
    firstIdx := |items|;
    var f := 0;
    while f < |items|
      invariant 0 <= f <= |items| && firstIdx == |items|
      invariant forall k :: 0 <= k < f ==> !IsReply(items[k])
    {
      if items[f].msg.role.Assistant? {
        firstIdx := f;
        break;
      }
      f := f + 1;
    }
    PartsAt(items, firstIdx);
  }

  /** The head: the last user input before the first reply, else the last input there, else the first item. */
  method FindHead(items: seq<Entry>, own: seq<Entry>, ghost kept: seq<Entry>) returns (head: Option<Entry>)
    requires (kept == [] <==> items == []) && (items != [] ==> kept[0] == items[0])
    requires own != [] ==> items != []
    ensures head == HeadOf(own, kept) && (head.None? <==> items == [])
    ensures HeadIs(items, own, head)
  {
    head := None;
    var h := |own| - 1;
    assert own[..h + 1] == own;
    while h >= 0
      invariant -1 <= h < |own| && head == None && LastUser(own) == LastUser(own[..h + 1])
      invariant forall k :: h < k < |own| ==> !own[k].msg.role.User?
    {
      assert own[..h + 1][..h] == own[..h];
      if own[h].msg.role.User? {
        head := Some(own[h]);
        break;
      }
      h := h - 1;
    }
    if head == None && own != [] {
      head := Some(own[|own| - 1]);
    }
    if head == None && items != [] {
      head := Some(items[0]);
    }
  }

  /** `splitTurnSpan`: the loops of the source deal the items by their places, and so compute `SplitOf`. */
  method SplitTurnSpan(items: seq<Entry>) returns (split: Split)
    requires Distinct(items)
    requires forall i :: 0 <= i < |items| ==> StableEntry(items[i])
    ensures split == SplitOf(items) && Dealt(items, split)
  {
    hide Prelude, After, Keep, LastReply, BeforeLastReply, HeadOf, FoldOf, FoldSlice, HeadIs, FirstReplyAt, LastReplyIs;
    var conclusion, last := FindConclusion(items);
    var conclusionIdx := if conclusion.Some? then IndexOf(items, conclusion.value) else |items|;
    assert conclusion.Some? ==> conclusionIdx == last;
    hide Distinct, IndexOf;
    var firstIdx := FindFirst(items);
    var ownInputs, carried := CollectInputs(items, firstIdx);
    HeadFacts(items, firstIdx);
    NoneOfNone();
    var head := FindHead(items, ownInputs, Prelude(items) + Others(After(items)));
    if head == None {
      assert items[..firstIdx] == [] && items[firstIdx..] == [];
      split := Split(ownInputs, carried, None, None, []);
      assert DealtAt(items, split, firstIdx, last);
      return;
    }
    var fold: seq<Entry> := [];
    if conclusion.Some? {
      FirstNotPast(items, firstIdx, conclusionIdx);
      fold := CollectFold(items, firstIdx, conclusionIdx, ownInputs, carried);
      FoldIsBetween(items, firstIdx, conclusionIdx);
      ConclusionFacts(items, firstIdx, conclusionIdx);
    } else {
      NoConclusion(items);
    }
    split := Split(ownInputs, carried, head, conclusion, fold);
    assert DealtAt(items, split, firstIdx, last);
  }

  lemma FoldIsBetween(items: seq<Entry>, firstIdx: nat, conclusionIdx: nat)
    requires firstIdx <= conclusionIdx < |items|
    ensures var from := if Inputs(items[..firstIdx]) != [] then firstIdx else 1;
            FoldSlice(items, firstIdx, conclusionIdx)
            == if conclusionIdx < from then [] else Keep(NotInput, items[from..conclusionIdx])
  {
    hide Keep;
  }

  lemma NoneOfNone()
    ensures Inputs([]) == [] && Others([]) == [] && LastReply([]) == None && FoldOf([], []) == []
  {
  }

  /** The first reply is not behind the last. */
  lemma FirstNotPast(items: seq<Entry>, firstIdx: nat, at: nat)
    requires firstIdx <= |items| && Prelude(items) == items[..firstIdx] && at < |items| && IsReply(items[at])
    ensures firstIdx <= at
  {
    Parts(items);
    hide Prelude;
    assert forall k :: 0 <= k < firstIdx ==> items[..firstIdx][k] == items[k];
  }

  lemma NoConclusion(items: seq<Entry>)
    requires forall k :: 0 <= k < |items| ==> !IsReply(items[k])
    ensures LastReply(Others(After(items))) == None && FoldOf(Prelude(items), Others(After(items))) == []
  {
    NoReply(items);
    hide Prelude, After;
    NoneOfNone();
  }

  /** The forEach that deals each stimulus to the own inputs or to the carry. */
  method CollectInputs(items: seq<Entry>, firstIdx: nat) returns (own: seq<Entry>, carried: seq<Entry>)
    requires firstIdx <= |items|
    requires forall i :: 0 <= i < |items| ==> StableEntry(items[i])
    ensures own == Inputs(items[..firstIdx]) && carried == Inputs(items[firstIdx..])
  {
    own, carried := [], [];
    for i := 0 to |items|
      invariant own == Inputs(items[..if i < firstIdx then i else firstIdx])
      invariant carried == Inputs(items[firstIdx..if i < firstIdx then firstIdx else i])
    {
      if i < firstIdx {
        assert items[..i + 1] == items[..i] + [items[i]];
        KeepConcat(IsInput, items[..i], [items[i]]);
      } else {
        assert items[firstIdx..i + 1] == items[firstIdx..i] + [items[i]];
        KeepConcat(IsInput, items[firstIdx..i], [items[i]]);
      }
      if IsStimulus(items[i].msg.role) {
        if i < firstIdx {
          own := own + [items[i]];
        } else {
          carried := carried + [items[i]];
        }
      }
    }
    assert items[firstIdx..|items|] == items[firstIdx..];
  }

  /** The loop that fills the fold, skipping what was carried. */
  method CollectFold(items: seq<Entry>, firstIdx: nat, conclusionIdx: nat,
                     own: seq<Entry>, carried: seq<Entry>) returns (fold: seq<Entry>)
    requires firstIdx <= conclusionIdx < |items|
    requires own == Inputs(items[..firstIdx]) && carried == Inputs(items[firstIdx..])
    ensures fold == FoldSlice(items, firstIdx, conclusionIdx)
  {
    var queued := set e | e in carried;
    var foldStart := if own != [] then firstIdx else 1;
    fold := [];
    if foldStart > conclusionIdx {
      return;
    }
    for i := foldStart to conclusionIdx
      invariant fold == Others(items[foldStart..i])
    {
      assert items[foldStart..i + 1] == items[foldStart..i] + [items[i]];
      KeepConcat(NotInput, items[foldStart..i], [items[i]]);
      QueuedAt(items, firstIdx, i);
      if items[i] !in queued {
        fold := fold + [items[i]];
      }
    }
  }

  function FoldSlice(items: seq<Entry>, firstIdx: nat, conclusionIdx: nat): seq<Entry>
    requires firstIdx <= conclusionIdx < |items|
  {
    var start := if Inputs(items[..firstIdx]) != [] then firstIdx else 1;
    if start <= conclusionIdx then Others(items[start..conclusionIdx]) else []
  }

  /** From the fold's start on, "carried" and "an input" say the same of an entry. */
  lemma QueuedAt(items: seq<Entry>, firstIdx: nat, i: nat)
    requires firstIdx <= |items| && i < |items|
    requires i < firstIdx ==> Inputs(items[..firstIdx]) == []
    ensures items[i] in Inputs(items[firstIdx..]) <==> IsInput(items[i])
  {
    KeepMembers(IsInput, items[firstIdx..]);
    if i < firstIdx {
      KeepMembers(IsInput, items[..firstIdx]);
      assert items[i] in items[..firstIdx];
    } else {
      assert items[firstIdx..][i - firstIdx] == items[i];
    }
  }

  lemma HeadFacts(items: seq<Entry>, firstIdx: nat)
    requires firstIdx <= |items| && Prelude(items) == items[..firstIdx] && After(items) == items[firstIdx..]
    ensures items == [] <==> Prelude(items) + Others(After(items)) == []
    ensures items != [] ==> (Prelude(items) + Others(After(items)))[0] == items[0]
  {
    Parts(items);
    var after := After(items);
    hide Prelude, After;
    if after != [] {
      assert NotInput(after[0]);
      assert Others(after) == [after[0]] + Others(after[1..]);
    }
    hide Keep;
  }

  lemma FoldOfIs(pre: seq<Entry>, work: seq<Entry>, between: seq<Entry>)
    requires LastReply(work).Some? && BeforeLastReply(work) == between
    ensures FoldOf(pre, work) == if Inputs(pre) != [] then between else Rest(pre + between)
  {
  }

  lemma FoldSliceIs(items: seq<Entry>, firstIdx: nat, conclusionIdx: nat)
    requires firstIdx <= conclusionIdx < |items| && Inputs(items[..firstIdx]) != []
    ensures FoldSlice(items, firstIdx, conclusionIdx) == Others(items[firstIdx..conclusionIdx])
  {
    hide Keep;
  }

  lemma ConclusionFacts(items: seq<Entry>, firstIdx: nat, conclusionIdx: nat)
    requires firstIdx <= conclusionIdx < |items|
    requires Prelude(items) == items[..firstIdx] && After(items) == items[firstIdx..]
    requires IsReply(items[conclusionIdx])
    requires forall k :: conclusionIdx < k < |items| ==> !IsReply(items[k])
    ensures LastReply(Others(After(items))) == Some(items[conclusionIdx])
    ensures FoldOf(Prelude(items), Others(After(items))) == FoldSlice(items, firstIdx, conclusionIdx)
  {
    hide Keep, Prelude, After, LastReply, BeforeLastReply, FoldOf, FoldSlice, Rest;
    FirstIsReply(items);
    var (pre, post, at) := (items[..firstIdx], items[firstIdx..], conclusionIdx - firstIdx);
    var between := items[firstIdx..conclusionIdx];
    assert post[at] == items[conclusionIdx] && post[..at] == between;
    assert forall k :: at < k < |post| ==> post[k] == items[firstIdx + k];
    LastReplyOfOthers(post, at);
    FoldOfIs(pre, Others(post), Others(between));
    if Inputs(pre) == [] {
      assert firstIdx == 0 ==> post[0] == items[0];
      FoldWithoutInputs(items, firstIdx, conclusionIdx);
    } else {
      FoldSliceIs(items, firstIdx, conclusionIdx);
    }
  }

  lemma FoldWithoutInputs(items: seq<Entry>, firstIdx: nat, conclusionIdx: nat)
    requires firstIdx <= conclusionIdx < |items| && Inputs(items[..firstIdx]) == []
    requires firstIdx == 0 && conclusionIdx > 0 ==> NotInput(items[0])
    ensures Rest(items[..firstIdx] + Others(items[firstIdx..conclusionIdx]))
            == FoldSlice(items, firstIdx, conclusionIdx)
  {
    var (pre, work) := (items[..firstIdx], items[firstIdx..conclusionIdx]);
    NoInputs(pre);
    KeepConcat(NotInput, pre, work);
    var all := items[..conclusionIdx];
    assert pre + work == all;
    if conclusionIdx > 0 {
      assert all[1..] == items[1..conclusionIdx];
      assert NotInput(all[0]);
      assert Others(all) == [all[0]] + Others(all[1..]);
    }
  }

  lemma NoInputs(s: seq<Entry>)
    requires Inputs(s) == []
    ensures Others(s) == s
    ensures s != [] ==> NotInput(s[0])
  {
    KeepMembers(IsInput, s);
    assert forall k :: 0 <= k < |s| ==> s[k] in s;
    KeepAll(NotInput, s);
  }

  // ---- what the split promises ---------------------------------------------------------------------

  lemma {:induction false} LastReplyMember(s: seq<Entry>)
    ensures LastReply(s).Some? ==> |BeforeLastReply(s)| < |s| && IsReply(LastReply(s).value)
    ensures LastReply(s).Some? ==> s[|BeforeLastReply(s)|] == LastReply(s).value
    ensures LastReply(s).Some? ==> forall k :: |BeforeLastReply(s)| < k < |s| ==> !IsReply(s[k])
    ensures BeforeLastReply(s) <= s
  {
    if s != [] && !IsReply(s[|s| - 1]) {
      LastReplyMember(s[..|s| - 1]);
    }
  }

  lemma {:induction false} LastUserMember(s: seq<Entry>)
    ensures LastUser(s).Some? ==> LastUser(s).value in s && LastUser(s).value.msg.role.User?
    ensures LastUser(s).None? ==> forall k :: 0 <= k < |s| ==> !s[k].msg.role.User?
  {
    if s != [] && !s[|s| - 1].msg.role.User? {
      LastUserMember(s[..|s| - 1]);
    }
  }

  lemma {:induction false} LastUserAt(s: seq<Entry>, i: nat)
    requires i < |s| && s[i].msg.role.User? && forall k :: i < k < |s| ==> !s[k].msg.role.User?
    ensures LastUser(s) == Some(s[i])
  {
    if i < |s| - 1 {
      LastUserAt(s[..|s| - 1], i);
    }
  }

  /** The carry and the entries that stay share nothing, and no entry stays twice. */
  lemma KeptApart(body: seq<Entry>)
    requires Distinct(body)
    ensures Distinct(Early(body))
    ensures forall e :: e in Late(body) ==> e in body && e !in Early(body)
    ensures forall e :: e in Early(body) <==> e in body && e !in Late(body)
  {
    var (pre, post) := (Prelude(body), After(body));
    Parts(body);
    KeepMembers(IsInput, post);
    KeepMembers(NotInput, post);
    DistinctConcat(pre, post);
    DistinctConcat(pre, Others(post));
    KeepDistinct(NotInput, post);
  }

  /** Where the head comes from. */
  lemma HeadPlace(body: seq<Entry>)
    requires body != []
    ensures SplitOf(body).head.Some? && SplitOf(body).head.value in Early(body)
    ensures Inputs(Prelude(body)) != [] ==>
            IsInput(SplitOf(body).head.value) && SplitOf(body).head.value in Prelude(body)
    ensures Inputs(Prelude(body)) == [] ==> Early(body) != [] && SplitOf(body).head.value == Early(body)[0] == body[0]
    ensures HeadIs(body, Inputs(Prelude(body)), SplitOf(body).head)
  {
    Parts(body);
    LastUserMember(Inputs(Prelude(body)));
    KeepMembers(IsInput, Prelude(body));
    HeadOfIs(body, Inputs(Prelude(body)), Prelude(body) + Others(After(body)));
    hide HeadIs;
  }

  /** What `HeadOf` picks, by place. */
  lemma HeadOfIs(items: seq<Entry>, own: seq<Entry>, kept: seq<Entry>)
    requires (kept == [] <==> items == []) && (items != [] ==> kept[0] == items[0])
    ensures HeadIs(items, own, HeadOf(own, kept))
  {
    LastUserMember(own);
    forall i | 0 <= i < |own| && own[i].msg.role.User? && (forall k :: i < k < |own| ==> !own[k].msg.role.User?)
      ensures LastUser(own) == Some(own[i])
    {
      LastUserAt(own, i);
    }
    hide LastUser;
  }

  /** The fold is a stretch of the entries that stay: after the head, before the conclusion. */
  lemma FoldPlace(body: seq<Entry>)
    requires Distinct(body) && body != []
    ensures var split := SplitOf(body);
            forall e :: e in split.fold ==> e in Early(body) && split.head != Some(e) && split.conclusion != Some(e)
  {
    var (pre, work) := (Prelude(body), Others(After(body)));
    KeptApart(body);
    HeadPlace(body);
    DistinctConcat(pre, work);
    WorkEnds(work);
    var split := SplitOf(body);
    forall e | e in split.fold
      ensures e in Early(body) && split.head != Some(e) && split.conclusion != Some(e)
    {
      if Inputs(pre) == [] {
        RestPlace(pre, work, e);
      }
    }
  }

  lemma RestPlace(pre: seq<Entry>, work: seq<Entry>, e: Entry)
    requires Distinct(pre + work) && e in Rest(pre + BeforeLastReply(work))
    ensures e in pre + work && (pre + work)[0] != e && LastReply(work) != Some(e)
  {
    DistinctConcat(pre, work);
    WorkEnds(work);
    LastReplyMember(work);
    var stay := pre + BeforeLastReply(work);
    var i :| 0 <= i < |stay| - 1 && stay[1..][i] == e;
    assert e == stay[i + 1] == (pre + work)[i + 1];
    if i + 1 < |pre| {
      assert e == pre[i + 1];
    } else {
      assert e == BeforeLastReply(work)[i + 1 - |pre|];
    }
  }

  /** The entries before the last reply are entries of the work, and the last reply is not among them. */
  lemma WorkEnds(work: seq<Entry>)
    requires Distinct(work)
    ensures BeforeLastReply(work) <= work
    ensures forall e :: e in BeforeLastReply(work) ==> e in work && LastReply(work) != Some(e)
  {
    LastReplyMember(work);
    var before := BeforeLastReply(work);
    forall e | e in before
      ensures e in work && LastReply(work) != Some(e)
    {
      var i :| 0 <= i < |before| && before[i] == e;
      assert work[i] == e;
    }
  }

  /**
   Head, conclusion, fold and carry are pairwise disjoint, but for one overlap: the head is the
   conclusion exactly when the body opens with its only assistant message.
   */
  lemma SplitDisjoint(body: seq<Entry>)
    requires Distinct(body) && body != []
    ensures var split := SplitOf(body);
            && (forall e :: e in split.carried ==>
                  e !in split.fold && split.head != Some(e) && split.conclusion != Some(e))
            && (forall e :: e in split.fold ==> split.head != Some(e) && split.conclusion != Some(e))
            && (split.head == split.conclusion <==>
                  IsReply(body[0]) && forall k :: 1 <= k < |body| ==> !IsReply(body[k]))
  {
    KeptApart(body);
    HeadPlace(body);
    FoldPlace(body);
    Parts(body);
    var work := Others(After(body));
    KeepMembers(NotInput, After(body));
    LastReplyMember(work);
    if !IsReply(body[0]) {
      if Inputs(Prelude(body)) == [] {
        assert SplitOf(body).head == Some(body[0]);
      }
    } else {
      HeadIsConclusion(body);
    }
  }

  lemma HeadIsConclusion(body: seq<Entry>)
    requires Distinct(body) && body != [] && IsReply(body[0])
    ensures SplitOf(body).head == SplitOf(body).conclusion <==> forall k :: 1 <= k < |body| ==> !IsReply(body[k])
  {
    var work := Others(body);
    LastReplyMember(work);
    KeepMembers(NotInput, body);
    assert work[0] == body[0];
    assert SplitOf(body).head == Some(body[0]);
    if forall k :: 1 <= k < |body| ==> !IsReply(body[k]) {
      LastReplyOfOthers(body, 0);
    } else {
      var k :| 1 <= k < |body| && IsReply(body[k]);
      assert body[k] in work;
      var j :| 0 <= j < |work| && work[j] == body[k];
      assert body[k] != body[0];
      KeepDistinct(NotInput, body);
      if LastReply(work) == None {
        LastReplyNoneGivesNone(work, j);
      }
    }
  }

  lemma {:induction false} LastReplyNoneGivesNone(s: seq<Entry>, j: nat)
    requires j < |s| && IsReply(s[j])
    ensures LastReply(s).Some?
  {
    if !IsReply(s[|s| - 1]) {
      LastReplyNoneGivesNone(s[..|s| - 1], j);
    }
  }
}
