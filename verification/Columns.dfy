/** The sidebar's row columns: how the server writes them (listing.rs) and the page expands them (groups.js). */
module Columns {
  import opened Common
  import opened Base64

  // ---- session ids as text ------------------------------------------------------------------------------

  function HexDigit(n: nat): char
    requires n < 16
  {
    if n < 10 then '0' + n as char else 'a' + (n - 10) as char
  }

  function HexValue(c: char): (n: int)
    ensures -1 <= n < 16
  {
    if '0' <= c <= '9' then c as int - '0' as int else if 'a' <= c <= 'f' then c as int - 'a' as int + 10 else -1
  }

  lemma HexInverse(n: nat)
    requires n < 16
    ensures HexValue(HexDigit(n)) == n
  {
  }

  /** Two digits per byte. */
  function Hex(bytes: seq<Byte>): (h: string)
    ensures |h| == 2 * |bytes|
  {
    seq(2 * |bytes|, i requires 0 <= i < 2 * |bytes| =>
      HexDigit(if i % 2 == 0 then bytes[i / 2] / 16 else bytes[i / 2] % 16))
  }

  /** `sessionIdOf`: the canonical UUID spelling of 16 bytes. */
  function SessionIdOf(bytes: seq<Byte>): (id: string)
    requires |bytes| == 16
    ensures |id| == 36
  {
    var hex := Hex(bytes);
    hex[..8] + "-" + hex[8..12] + "-" + hex[12..16] + "-" + hex[16..20] + "-" + hex[20..]
  }

  /** Where digit `k` stands among the dashes. */
  function Place(k: nat): (p: nat)
    requires k < 32
    ensures p < 36
  {
    if k < 8 then k else if k < 12 then k + 1 else if k < 16 then k + 2 else if k < 20 then k + 3 else k + 4
  }

  lemma DigitAt(bytes: seq<Byte>, k: nat)
    requires |bytes| == 16 && k < 32
    ensures SessionIdOf(bytes)[Place(k)] == Hex(bytes)[k]
  {
    hide Hex;
  }

  function ByteAt(id: string, i: nat): Byte
    requires |id| == 36 && i < 16
  {
    var (high, low) := (HexValue(id[Place(2 * i)]), HexValue(id[Place(2 * i + 1)]));
    if high >= 0 && low >= 0 then high * 16 + low else 0
  }

  /** `canonical_uuid`: the bytes an id's text spells, when it is exactly their canonical spelling. */
  function CanonicalUuid(id: string): Option<seq<Byte>> {
    if |id| != 36 then None
    else
      var bytes: seq<Byte> := seq(16, i requires 0 <= i < 16 => ByteAt(id, i));
      if SessionIdOf(bytes) == id then Some(bytes) else None
  }

  lemma ByteBack(bytes: seq<Byte>, i: nat)
    requires |bytes| == 16 && i < 16
    ensures ByteAt(SessionIdOf(bytes), i) == bytes[i]
  {
    DigitAt(bytes, 2 * i);
    DigitAt(bytes, 2 * i + 1);
    HexInverse(bytes[i] / 16);
    HexInverse(bytes[i] % 16);
    hide SessionIdOf, HexValue, HexDigit, Place;
    assert Hex(bytes)[2 * i] == HexDigit(bytes[i] / 16) && Hex(bytes)[2 * i + 1] == HexDigit(bytes[i] % 16);
  }

  /** An id travels encoded exactly when it is the spelling of 16 bytes, and then as those bytes. */
  lemma CanonicalIsTheSpelling(id: string, bytes: seq<Byte>)
    ensures CanonicalUuid(id) == Some(bytes) <==> |bytes| == 16 && SessionIdOf(bytes) == id
  {
    hide SessionIdOf, ByteAt;
    if |bytes| == 16 && SessionIdOf(bytes) == id {
      forall i | 0 <= i < 16
        ensures ByteAt(id, i) == bytes[i]
      {
        ByteBack(bytes, i);
      }
      assert bytes == seq(16, i requires 0 <= i < 16 => ByteAt(id, i));
    }
  }

  // ---- the id column ------------------------------------------------------------------------------------

  datatype Column = Blob(text: string) | Cells(cells: seq<Option<string>>)

  function Canonical(id: Option<string>): Option<seq<Byte>> { if id.None? then None else CanonicalUuid(id.value) }
  predicate AllCanonical(ids: seq<Option<string>>) { forall i :: 0 <= i < |ids| ==> Canonical(ids[i]).Some? }

  function Joined(ids: seq<Option<string>>): seq<Byte>
    requires AllCanonical(ids)
  {
    if ids == [] then [] else Joined(ids[..|ids| - 1]) + Canonical(ids[|ids| - 1]).value
  }

  function WriteCell(id: Option<string>): Option<string> {
    if id.None? then None
    else if CanonicalUuid(id.value).Some? then Some(Encode(CanonicalUuid(id.value).value)) else Some("~" + id.value)
  }

  /** `write_id_column`: one blob when every id is a canonical UUID, and one cell per row otherwise. */
  function WriteIdColumn(ids: seq<Option<string>>): Column {
    if AllCanonical(ids) then Blob(Encode(Joined(ids)))
    else Cells(seq(|ids|, i requires 0 <= i < |ids| => WriteCell(ids[i])))
  }

  /** The row count the page reads off the column: 16 bytes a row, three bytes in four letters. */
  function RowCount(c: Column): nat {
    match c
    case Blob(text) => (|text| * 3) / 64
    case Cells(cells) => |cells|
  }

  lemma {:induction false} JoinedLength(ids: seq<Option<string>>)
    requires AllCanonical(ids)
    ensures |Joined(ids)| == 16 * |ids|
  {
    if ids != [] {
      JoinedLength(ids[..|ids| - 1]);
      CanonicalIsTheSpelling(ids[|ids| - 1].value, Canonical(ids[|ids| - 1]).value);
      hide CanonicalUuid;
    }
  }

  /** The blob's length alone gives the row count back. */
  lemma RowCountIs(ids: seq<Option<string>>)
    ensures RowCount(WriteIdColumn(ids)) == |ids|
  {
    hide CanonicalUuid, Encode;
    if AllCanonical(ids) {
      JoinedLength(ids);
      EncodeCarries(Joined(ids));
    }
  }

  // ---- the page's side ----------------------------------------------------------------------------------

  function CarriedIds(text: string): (bytes: seq<Byte>)
    requires WellFormed(text)
    ensures bytes == Carried(text)
  {
    CarriedBytes(text);
    Carried(text)
  }

  /** The id a cell stands for; none where the page throws. */
  function CellId(cell: string): Option<string> {
    if cell != "" && cell[0] == '~' then Some(cell[1..])
    else if |cell| != 22 || !WellFormed(cell) then None
    else CarriedBytes(cell); Some(SessionIdOf(CarriedIds(cell)))
  }

  method ExpandSessionId(cell: string) returns (r: Result<string>)
    ensures r.Ok? <==> CellId(cell).Some?
    ensures r.Ok? ==> Some(r.value) == CellId(cell)
  {
    if cell != "" && cell[0] == '~' {
      return Ok(cell[1..]);
    }
    if |cell| != 22 {
      return Err("Encoded session id length");
    }
    var bytes := DecodeBase64Url(cell);
    if bytes.Err? {
      return Err(bytes.error);
    }
    CarriedBytes(cell);
    r := Ok(SessionIdOf(bytes.value));
  }

  function Chunk(bytes: seq<Byte>, i: nat): (c: seq<Byte>)
    requires 16 * i + 16 <= |bytes|
    ensures |c| == 16
  {
    bytes[16 * i..16 * i + 16]
  }

  /** The ids a column stands for; none where the page throws. */
  function Expanded(values: Column, count: nat): Option<seq<Option<string>>> {
    match values
    case Blob(text) =>
      if !WellFormed(text) || |Carried(text)| != 16 * count then None
      else Some(seq(count, i requires 0 <= i < count => Some(SessionIdOf(Chunk(CarriedIds(text), i)))))
    case Cells(cells) =>
      if exists i :: 0 <= i < |cells| && cells[i].Some? && CellId(cells[i].value).None? then None
      else Some(seq(|cells|, i requires 0 <= i < |cells| => if cells[i].None? then None else CellId(cells[i].value)))
  }

  method ExpandSessionIds(values: Column, count: nat) returns (r: Result<seq<Option<string>>>)
    ensures r.Ok? <==> Expanded(values, count).Some?
    ensures r.Ok? ==> Some(r.value) == Expanded(values, count)
  {
    hide Carried, SessionIdOf, WellFormed, CellId;
    match values {
      case Cells(cells) =>
        var ids: seq<Option<string>> := [];
        for i := 0 to |cells|
          invariant |ids| == i
          invariant forall k :: 0 <= k < i ==> cells[k].Some? ==> CellId(cells[k].value).Some?
          invariant forall k :: 0 <= k < i ==> ids[k] == if cells[k].None? then None else CellId(cells[k].value)
        {
          if cells[i].None? {
            ids := ids + [None];
          } else {
            var id := ExpandSessionId(cells[i].value);
            if id.Err? {
              return Err(id.error);
            }
            ids := ids + [Some(id.value)];
          }
        }
        assert Expanded(values, count).Some? ==> ids == Expanded(values, count).value;
        r := Ok(ids);
      case Blob(text) =>
        var bytes := DecodeBase64Url(text);
        if bytes.Err? {
          return Err(bytes.error);
        }
        if |bytes.value| != 16 * count {
          return Err("Encoded session id blob length");
        }
        var all := CarriedIds(text);
        var ids := seq(count, i requires 0 <= i < count => Some(SessionIdOf(Chunk(all, i))));
        assert ids == Expanded(values, count).value;
        r := Ok(ids);
    }
  }

  /** Every id survives its own cell, a canonical UUID as its bytes and any other as its text. */
  lemma CellRoundTrip(id: string)
    ensures CellId(WriteCell(Some(id)).value) == Some(id)
  {
    match CanonicalUuid(id) {
      case None =>
        assert ("~" + id)[1..] == id;
      case Some(bytes) =>
        CanonicalIsTheSpelling(id, bytes);
        EncodeCarries(bytes);
        var cell := Encode(bytes);
        assert IndexOf('~') < 0 && IndexOf(cell[0]) >= 0;
        hide Encode, Carried, SessionIdOf, CanonicalUuid, IndexOf;
    }
  }

  lemma {:induction false} JoinedChunk(ids: seq<Option<string>>, i: nat)
    requires AllCanonical(ids) && i < |ids|
    ensures 16 * i + 16 <= |Joined(ids)| && Chunk(Joined(ids), i) == Canonical(ids[i]).value
  {
    hide Canonical;
    var front := ids[..|ids| - 1];
    JoinedLength(ids);
    JoinedLength(front);
    if i < |front| {
      JoinedChunk(front, i);
    }
  }

  /** Whatever ids the rows have, canonical or not or none, the page expands exactly those, and never throws. */
  lemma IdColumnRoundTrip(ids: seq<Option<string>>)
    ensures Expanded(WriteIdColumn(ids), RowCount(WriteIdColumn(ids))) == Some(ids)
  {
    RowCountIs(ids);
    if AllCanonical(ids) {
      BlobRoundTrip(ids);
    } else {
      hide CellId, WriteCell, AllCanonical;
      forall i | 0 <= i < |ids| && ids[i].Some?
        ensures WriteCell(ids[i]).Some? && CellId(WriteCell(ids[i]).value) == ids[i]
      {
        CellIsThere(ids[i]);
        CellRoundTrip(ids[i].value);
      }
      forall i | 0 <= i < |ids|
        ensures ids[i].None? ==> WriteCell(ids[i]).None?
      {
        CellIsThere(ids[i]);
      }
      hide RowCount;
      var cells := WriteIdColumn(ids).cells;
      assert Expanded(Cells(cells), |ids|).value == ids;
    }
  }

  lemma CellIsThere(id: Option<string>)
    ensures WriteCell(id).Some? <==> id.Some?
  {
  }

  lemma BlobRoundTrip(ids: seq<Option<string>>)
    requires AllCanonical(ids)
    ensures Expanded(Blob(Encode(Joined(ids))), |ids|) == Some(ids)
  {
    hide Encode, Carried, SessionIdOf, WellFormed, Joined, CanonicalUuid, Chunk;
    var text := Encode(Joined(ids));
    EncodeCarries(Joined(ids));
    JoinedLength(ids);
    forall i | 0 <= i < |ids|
      ensures Some(SessionIdOf(Chunk(CarriedIds(text), i))) == ids[i]
    {
      JoinedChunk(ids, i);
      CanonicalIsTheSpelling(ids[i].value, Canonical(ids[i]).value);
    }
    assert Expanded(Blob(text), |ids|).value == ids;
  }

  // ---- delta columns ------------------------------------------------------------------------------------

  /** `write_updated_at_column`: the first value as it stands, then each difference; a missing cell stays missing. */
  function WriteDeltas(values: seq<Option<int>>, previous: Option<int>): (cells: seq<Option<int>>)
    ensures |cells| == |values|
  {
    if values == [] then []
    else if values[0].None? then [None] + WriteDeltas(values[1..], previous)
    else
      var cell := if previous.None? then values[0].value else values[0].value - previous.value;
      [Some(cell)] + WriteDeltas(values[1..], values[0])
  }

  function Sums(cells: seq<Option<int>>, running: int): (values: seq<Option<int>>)
    ensures |values| == |cells|
  {
    if cells == [] then []
    else if cells[0].None? then [None] + Sums(cells[1..], running)
    else [Some(running + cells[0].value)] + Sums(cells[1..], running + cells[0].value)
  }

  lemma DeltasNext(values: seq<Option<int>>, previous: Option<int>, next: Option<int>)
    requires values != [] && next == if values[0].None? then previous else values[0]
    ensures Sums(WriteDeltas(values, previous), if previous.None? then 0 else previous.value)
         == [values[0]] + Sums(WriteDeltas(values[1..], next), if next.None? then 0 else next.value)
  {
    hide Sums, WriteDeltas;
    var running := if previous.None? then 0 else previous.value;
    var cell := if values[0].None? then None else Some(values[0].value - running);
    DeltasCons(values, previous, next, cell);
    SumsCons(cell, WriteDeltas(values[1..], next), running);
  }

  lemma DeltasCons(values: seq<Option<int>>, previous: Option<int>, next: Option<int>, cell: Option<int>)
    requires values != [] && next == if values[0].None? then previous else values[0]
    requires cell == if values[0].None? then None
                     else Some(values[0].value - if previous.None? then 0 else previous.value)
    ensures WriteDeltas(values, previous) == [cell] + WriteDeltas(values[1..], next)
  {
  }

  lemma SumsCons(cell: Option<int>, rest: seq<Option<int>>, running: int)
    ensures var next := if cell.None? then running else running + cell.value;
            Sums([cell] + rest, running) == [if cell.None? then None else Some(next)] + Sums(rest, next)
  {
    assert ([cell] + rest)[1..] == rest;
  }

  lemma {:induction false} SumsOfDeltas(values: seq<Option<int>>, previous: Option<int>)
    ensures Sums(WriteDeltas(values, previous), if previous.None? then 0 else previous.value) == values
  {
    if values != [] {
      var next := if values[0].None? then previous else values[0];
      SumsOfDeltas(values[1..], next);
      DeltasNext(values, previous, next);
      hide Sums, WriteDeltas;
      assert values == [values[0]] + values[1..];
    }
  }

  /** Place `j` is the last one before `i` with a value. */
  ghost predicate Previous(values: seq<Option<int>>, i: int, j: int) {
    0 <= j < i < |values| && values[j].Some? && forall k :: j < k < i ==> values[k].None?
  }

  /** No place before `i` has a value. */
  ghost predicate IsFirst(values: seq<Option<int>>, i: int) {
    0 <= i < |values| && forall k :: 0 <= k < i ==> values[k].None?
  }

  /** Cells are the differences of the values: each from the one before it, the first from `start`. */
  ghost predicate Differences(cells: seq<Option<int>>, values: seq<Option<int>>, start: int) {
    && |cells| == |values| && (forall i :: 0 <= i < |cells| ==> (cells[i].None? <==> values[i].None?))
    && (forall i :: IsFirst(values, i) && values[i].Some? && cells[i].Some? ==>
          values[i].value - start == cells[i].value)
    && (forall i, j :: Previous(values, i, j) && values[i].Some? && cells[i].Some? ==>
          values[i].value - values[j].value == cells[i].value)
  }

  /** Sums are what the cells are the differences of. */
  lemma {:induction false} SumsDiffer(cells: seq<Option<int>>, running: int)
    ensures Differences(cells, Sums(cells, running), running)
  {
    if cells != [] {
      var next := if cells[0].None? then running else running + cells[0].value;
      SumsDiffer(cells[1..], next);
      DifferencesNext(cells, Sums(cells, running), running, next, cells[1..], Sums(cells[1..], next));
    }
  }

  lemma DifferencesNext(cells: seq<Option<int>>, values: seq<Option<int>>, start: int, next: int,
                        rest: seq<Option<int>>, tail: seq<Option<int>>)
    requires cells != [] && |values| == |cells| && rest == cells[1..] && tail == values[1..]
    requires cells[0].None? <==> values[0].None?
    requires next == (if values[0].None? then start else values[0].value)
    requires values[0].Some? ==> values[0].value - start == cells[0].value
    requires Differences(rest, tail, next)
    ensures Differences(cells, values, start)
  {
    assert forall i :: 0 < i < |cells| ==> cells[i] == rest[i - 1] && values[i] == tail[i - 1];
    hide IsFirst, Previous;
    forall i | IsFirst(values, i) && 0 <= i < |values| && values[i].Some? && cells[i].Some?
      ensures values[i].value - start == cells[i].value
    {
      FirstInTail(values, i);
    }
    forall i, j | Previous(values, i, j) && 0 <= j < i < |values|
                  && values[i].Some? && cells[i].Some? && values[j].Some?
      ensures values[i].value - values[j].value == cells[i].value
    {
      PreviousInTail(values, i, j);
    }
    PlacesInside(values);
  }

  lemma PlacesInside(values: seq<Option<int>>)
    ensures forall i :: IsFirst(values, i) ==> 0 <= i < |values|
    ensures forall i, j :: Previous(values, i, j) ==> 0 <= j < i < |values| && values[j].Some?
  {
  }

  lemma FirstInTail(values: seq<Option<int>>, i: int)
    requires IsFirst(values, i)
    ensures 0 <= i < |values| && (i > 0 ==> values[0].None? && IsFirst(values[1..], i - 1))
  {
  }

  lemma PreviousInTail(values: seq<Option<int>>, i: int, j: int)
    requires Previous(values, i, j)
    ensures 0 <= j < i < |values|
    ensures if j > 0 then Previous(values[1..], i - 1, j - 1) else values[0].Some? && IsFirst(values[1..], i - 1)
  {
  }

  /** The server's writer writes those differences. */
  lemma DeltasDiffer(values: seq<Option<int>>)
    ensures Differences(WriteDeltas(values, None), values, 0)
  {
    SumsOfDeltas(values, None);
    SumsDiffer(WriteDeltas(values, None), 0);
    hide WriteDeltas, Sums, Differences;
  }

  lemma {:induction false} SumsSnoc(cells: seq<Option<int>>, running: int, total: int, last: Option<int>)
    requires total == running + Total(cells)
    ensures Sums(cells + [last], running)
         == Sums(cells, running) + [if last.None? then None else Some(total + last.value)]
  {
    if cells == [] {
      assert cells + [last] == [last] && [last][1..] == [];
    } else {
      assert (cells + [last])[1..] == cells[1..] + [last] && (cells + [last])[0] == cells[0];
      var next := if cells[0].None? then running else running + cells[0].value;
      SumsSnoc(cells[1..], next, total, last);
      var first := if cells[0].None? then None else Some(next);
      assert Sums(cells + [last], running) == [first] + Sums(cells[1..] + [last], next);
      assert Sums(cells, running) == [first] + Sums(cells[1..], next);
      hide Sums;
    }
  }

  function Total(cells: seq<Option<int>>): int {
    if cells == [] then 0 else (if cells[0].None? then 0 else cells[0].value) + Total(cells[1..])
  }

  lemma {:induction false} TotalSnoc(cells: seq<Option<int>>, last: Option<int>)
    ensures Total(cells + [last]) == Total(cells) + if last.None? then 0 else last.value
  {
    if cells == [] {
      assert cells + [last] == [last] && [last][1..] == [];
    } else {
      assert (cells + [last])[1..] == cells[1..] + [last] && (cells + [last])[0] == cells[0];
      TotalSnoc(cells[1..], last);
    }
  }

  /** The delta loop of `expandSessionColumns`. */
  method ExpandDeltas(cells: seq<Option<int>>) returns (values: seq<Option<int>>)
    ensures values == Sums(cells, 0)
    ensures Differences(cells, values, 0)
    ensures forall original :: cells == WriteDeltas(original, None) ==> values == original
  {
    SumsDiffer(cells, 0);
    hide Sums, Total, Differences;
    var running := 0;
    values := [];
    EmptySums();
    assert cells[..0] == [];
    for i := 0 to |cells|
      invariant values == Sums(cells[..i], 0) && running == Total(cells[..i])
    {
      assert cells[..i + 1] == cells[..i] + [cells[i]];
      SumsSnoc(cells[..i], 0, running, cells[i]);
      TotalSnoc(cells[..i], cells[i]);
      if cells[i].None? {
        values := values + [None];
      } else {
        running := running + cells[i].value;
        values := values + [Some(running)];
      }
    }
    assert cells[..|cells|] == cells;
    forall original | cells == WriteDeltas(original, None)
      ensures values == original
    {
      SumsOfDeltas(original, None);
    }
  }

  lemma EmptySums()
    ensures Sums([], 0) == [] && Total([]) == 0
  {
  }
}
