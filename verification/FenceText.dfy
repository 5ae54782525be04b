/** The fence rewrite on text (markdown-renderer.js): FENCE_RE, the line rewrite, and `fixNestedFences`. */
module FenceText {
  import opened Common
  import opened Fences

  // ---- FENCE_RE ---------------------------------------------------------------------------------------

  /** How many times `c` stands at the start of `s`. */
  function Run(s: string, c: char): (n: nat)
    ensures n <= |s| && (n < |s| ==> s[n] != c) && forall i :: 0 <= i < n ==> s[i] == c
  {
    if s == [] || s[0] != c then 0 else 1 + Run(s[1..], c)
  }

  lemma RunIs(s: string, c: char, k: nat)
    requires k <= |s| && (k < |s| ==> s[k] != c) && forall i :: 0 <= i < k ==> s[i] == c
    ensures Run(s, c) == k
  {
  }

  /** A character `.` does not match, and a character `trim` removes. */
  predicate IsLineEnd(c: char) { c == '\n' || c == '\r' || c == '\U{2028}' || c == '\U{2029}' }
  predicate IsBlank(c: char) {
    c == ' ' || c == '\t' || c == '\U{000B}' || c == '\U{000C}' || c == '\U{00A0}' || c == '\U{FEFF}' || c == '\U{1680}'
    || '\U{2000}' <= c <= '\U{200A}' || c == '\U{202F}' || c == '\U{205F}' || c == '\U{3000}'
  }

  /** The third group of FENCE_RE trims to nothing. */
  predicate BareInfo(rest: string) {
    rest == [] || IsLineEnd(rest[0]) || (IsBlank(rest[0]) && BareInfo(rest[1..]))
  }

  datatype FenceLine = FenceLine(indent: nat, fence: Fence)

  /** FENCE_RE: at most three spaces, then three or more backticks or tildes. */
  function Match(line: string): (m: Option<FenceLine>)
    ensures m.Some? ==> m.value.indent <= 3 && m.value.fence.len >= 3 && m.value.indent + m.value.fence.len <= |line|
  {
    var k := Run(line, ' ');
    if k > 3 || k == |line| || (line[k] != '`' && line[k] != '~') then None
    else
      var n := Run(line[k..], line[k]);
      if n < 3 then None
      else Some(FenceLine(k, Fence(line[k], n, BareInfo(line[k + n..]))))
  }

  function Times(c: char, n: nat): string { seq(n, _ => c) }

  /** The delimiter of a fence line, replaced by one of `newLen` characters. */
  function Resized(line: string, newLen: nat): string {
    var m := Match(line);
    if m.None? then line
    else line[..m.value.indent] + Times(m.value.fence.ch, newLen) + line[m.value.indent + m.value.fence.len..]
  }

  lemma MatchIs(line: string, k: nat, c: char, n: nat)
    requires k <= 3 && n >= 3 && k + n <= |line| && (c == '`' || c == '~')
    requires (forall i :: 0 <= i < k ==> line[i] == ' ') && forall i :: k <= i < k + n ==> line[i] == c
    requires k + n < |line| ==> line[k + n] != c
    ensures Match(line) == Some(FenceLine(k, Fence(c, n, BareInfo(line[k + n..]))))
  {
    hide BareInfo;
    RunIs(line, ' ', k);
    assert line[k] == c;
    var tail := line[k..];
    assert forall i :: 0 <= i < n ==> tail[i] == line[k + i];
    RunIs(tail, c, n);
  }

  /** What stands around the delimiter of a fence line. */
  lemma MatchFacts(line: string)
    requires Match(line).Some?
    ensures var m := Match(line).value;
            && (m.fence.ch == '`' || m.fence.ch == '~') && (forall i :: 0 <= i < m.indent ==> line[i] == ' ')
            && (forall i :: m.indent <= i < m.indent + m.fence.len ==> line[i] == m.fence.ch)
            && m.fence.bare == BareInfo(line[m.indent + m.fence.len..])
            && (m.indent + m.fence.len < |line| ==> line[m.indent + m.fence.len] != m.fence.ch)
  {
    hide BareInfo;
    var k := Run(line, ' ');
    var n := Run(line[k..], line[k]);
    assert k + n < |line| ==> line[k + n] == line[k..][n];
    assert forall i :: k <= i < k + n ==> line[i] == line[k..][i - k];
  }

  /** At most three spaces, then `n` of `c` and no more, at least three, a backtick or a tilde. */
  ghost predicate FenceAt(line: string, k: nat, c: char, n: nat) {
    && k <= 3 && n >= 3 && k + n <= |line| && (c == '`' || c == '~')
    && (forall i :: 0 <= i < k ==> line[i] == ' ') && (forall i :: k <= i < k + n ==> line[i] == c)
    && (k + n < |line| ==> line[k + n] != c)
  }

  /** FENCE_RE said without its scan. */
  lemma MatchExact(line: string, k: nat, c: char, n: nat, bare: bool)
    ensures Match(line) == Some(FenceLine(k, Fence(c, n, bare)))
            <==> FenceAt(line, k, c, n) && bare == BareInfo(line[k + n..])
  {
    hide BareInfo, Match;
    if Match(line) == Some(FenceLine(k, Fence(c, n, bare))) {
      MatchFacts(line);
    }
    if FenceAt(line, k, c, n) {
      MatchIs(line, k, c, n);
    }
  }

  /** Resizing changes the length FENCE_RE reads and nothing else it reads. */
  lemma ResizedMatches(line: string, newLen: nat)
    requires Match(line).Some? && newLen >= 3
    ensures Match(Resized(line, newLen)) == Some(Match(line).value.(fence := Match(line).value.fence.(len := newLen)))
  {
    hide BareInfo, Match;
    MatchFacts(line);
    var m := Match(line).value;
    var (k, c, rest) := (m.indent, m.fence.ch, line[m.indent + m.fence.len..]);
    var out := Resized(line, newLen);
    assert out == line[..k] + Times(c, newLen) + rest;
    assert out[k + newLen..] == rest;
    MatchIs(out, k, c, newLen);
  }

  function Parse(lines: seq<string>): Lines {
    seq(|lines|, i requires 0 <= i < |lines| =>
      if Match(lines[i]).Some? then Some(Match(lines[i]).value.fence) else None)
  }

  lemma ParseIsLong(lines: seq<string>)
    ensures LongEnough(Parse(lines))
  {
  }

  // ---- the scan and the rewrite -------------------------------------------------------------------------

  function Applied(lines: seq<string>, ups: map<nat, nat>): seq<string> {
    seq(|lines|, i requires 0 <= i < |lines| => if i in ups then Resized(lines[i], ups[i]) else lines[i])
  }

  lemma AppliedParses(lines: seq<string>, ups: map<nat, nat>)
    requires forall k :: k in ups ==> ups[k] > 3
    ensures Parse(Applied(lines, ups)) == Rewritten(Parse(lines), ups)
  {
    var (a, b) := (Parse(Applied(lines, ups)), Rewritten(Parse(lines), ups));
    forall i | 0 <= i < |lines|
      ensures a[i] == b[i]
    {
      if i in ups && Match(lines[i]).Some? {
        ResizedMatches(lines[i], ups[i]);
      }
    }
  }

  /** `scanFences`: the loop over the lines, with its stack and its upgrades. */
  method ScanFences(lines: seq<string>) returns (upgrades: map<nat, nat>)
    ensures upgrades == ScanAll(Parse(lines)).upgrades
  {
    hide Match, Step;
    ghost var fs := Parse(lines);
    var stack: seq<Frame> := [];
    upgrades := map[];
    for i := 0 to |lines|
      invariant stack == ScanTo(fs, i).stack && upgrades == ScanTo(fs, i).upgrades
    {
      var m := Match(lines[i]);
      if m.None? {
        continue;
      }
      assert fs[i] == Some(m.value.fence);
      stack, upgrades := ScanLine(ScanTo(fs, i), stack, upgrades, i, m.value.fence);
    }
  }

  /** One fence line: it closes the top of the stack, or opens a fence of its own. */
  method ScanLine(ghost s: Scan, stack0: seq<Frame>, upgrades0: map<nat, nat>, i: nat, f: Fence)
    returns (stack: seq<Frame>, upgrades: map<nat, nat>)
    requires s.stack == stack0 && s.upgrades == upgrades0
    ensures stack == Step(s, i, f).stack && upgrades == Step(s, i, f).upgrades
  {
    stack, upgrades := stack0, upgrades0;
    if stack != [] && f.ch == stack[|stack| - 1].ch && f.len >= stack[|stack| - 1].len && f.bare {
      var top := stack[|stack| - 1];
      if top.maxInner > 0 && top.len <= top.maxInner {
        var newLen := top.maxInner + 1;
        upgrades := upgrades[top.line := newLen];
        upgrades := upgrades[i := newLen];
      }
      var effectiveLen := if top.line in upgrades then upgrades[top.line] else top.len;
      stack := stack[..|stack| - 1];
      if stack != [] {
        var parent := stack[|stack| - 1];
        if effectiveLen > parent.maxInner {
          stack := stack[|stack| - 1 := parent.(maxInner := effectiveLen)];
        }
      }
    } else {
      if stack != [] {
        var parent := stack[|stack| - 1];
        if f.len > parent.maxInner {
          stack := stack[|stack| - 1 := parent.(maxInner := f.len)];
        }
      }
      stack := stack + [Frame(i, f.ch, f.len, 0)];
    }
  }

  /** `applyFenceUpgrades`: the lines are rewritten in place, last line first. */
  method ApplyFenceUpgrades(lines: array<string>, upgrades: map<nat, nat>)
    modifies lines
    ensures lines[..] == Applied(old(lines[..]), upgrades)
  {
    hide Resized;
    for j := lines.Length downto 0
      invariant forall i :: 0 <= i < j ==> lines[i] == old(lines[i])
      invariant forall i :: j <= i < lines.Length ==> lines[i] == Applied(old(lines[..]), upgrades)[i]
    {
      if j in upgrades {
        lines[j] := Resized(lines[j], upgrades[j]);
      }
    }
  }

  // ---- lines and text -----------------------------------------------------------------------------------

  function Split(md: string): (lines: seq<string>)
    ensures lines != []
  {
    if md == [] then [[]]
    else if md[0] == '\n' then [[]] + Split(md[1..])
    else var rest := Split(md[1..]); [[md[0]] + rest[0]] + rest[1..]
  }

  function Join(lines: seq<string>): string
    requires lines != []
  {
    if |lines| == 1 then lines[0] else lines[0] + ['\n'] + Join(lines[1..])
  }

  lemma {:induction false} JoinOfSplit(md: string)
    ensures Join(Split(md)) == md
  {
    if md != [] {
      JoinOfSplit(md[1..]);
      var rest := Split(md[1..]);
      if md[0] == '\n' {
        assert Split(md)[1..] == rest;
      } else if |rest| > 1 {
        assert Split(md)[1..] == rest[1..];
      }
      assert md == [md[0]] + md[1..];
    }
  }

  ghost predicate OneLine(line: string) { forall i :: 0 <= i < |line| ==> line[i] != '\n' }

  lemma {:induction false} SplitLines(md: string)
    ensures forall k :: 0 <= k < |Split(md)| ==> OneLine(Split(md)[k])
  {
    if md != [] {
      SplitLines(md[1..]);
      var (all, rest) := (Split(md), Split(md[1..]));
      if md[0] == '\n' {
        assert forall k :: 1 <= k < |all| ==> all[k] == rest[k - 1];
      } else {
        assert forall k :: 1 <= k < |all| ==> all[k] == rest[k];
        assert OneLine(rest[0]);
      }
    }
  }

  lemma {:induction false} SplitOfLine(line: string, rest: string)
    requires OneLine(line)
    ensures Split(line + ['\n'] + rest) == [line] + Split(rest)
    ensures Split(line) == [line]
  {
    var md := line + ['\n'] + rest;
    if line == [] {
      assert md[1..] == rest;
    } else {
      SplitOfLine(line[1..], rest);
      assert md[1..] == line[1..] + ['\n'] + rest;
      assert line == [line[0]] + line[1..];
    }
  }

  lemma {:induction false} SplitOfJoin(lines: seq<string>)
    requires lines != [] && forall k :: 0 <= k < |lines| ==> OneLine(lines[k])
    ensures Split(Join(lines)) == lines
  {
    if |lines| == 1 {
      SplitOfLine(lines[0], []);
    } else {
      SplitOfJoin(lines[1..]);
      SplitOfLine(lines[0], Join(lines[1..]));
    }
  }

  lemma ResizedIsOneLine(line: string, newLen: nat)
    requires OneLine(line)
    ensures OneLine(Resized(line, newLen))
  {
    var m := Match(line);
    assert m.Some? ==> m.value.fence.ch != '\n';
    hide Match;
  }

  lemma AppliedLines(lines: seq<string>, ups: map<nat, nat>)
    requires forall k :: 0 <= k < |lines| ==> OneLine(lines[k])
    ensures forall k :: 0 <= k < |lines| ==> OneLine(Applied(lines, ups)[k])
  {
    hide OneLine, Resized;
    forall k | 0 <= k < |lines|
      ensures OneLine(Applied(lines, ups)[k])
    {
      if k in ups {
        ResizedIsOneLine(lines[k], ups[k]);
      }
    }
  }

  /** The text with its nested fences fixed, without the source's early return. */
  function Fixed(md: string): string {
    var lines := Split(md);
    Join(Applied(lines, ScanAll(Parse(lines)).upgrades))
  }

  predicate HasRun(md: string, c: char) {
    exists i :: 0 <= i < |md| - 2 && md[i] == c && md[i + 1] == c && md[i + 2] == c
  }

  lemma {:induction false} RunReachesText(md: string, k: nat, c: char)
    requires k < |Split(md)| && HasRun(Split(md)[k], c)
    ensures HasRun(md, c)
  {
    if md != [] {
      var rest := Split(md[1..]);
      if md[0] == '\n' {
        if k > 0 {
          RunReachesText(md[1..], k - 1, c);
          RunShifts(md, c);
        }
      } else if k > 0 {
        RunReachesText(md[1..], k, c);
        RunShifts(md, c);
      } else {
        var line := Split(md)[0];
        LineStarts(md);
        var i :| 0 <= i < |line| - 2 && line[i] == c && line[i + 1] == c && line[i + 2] == c;
        assert md[i] == c && md[i + 1] == c && md[i + 2] == c;
      }
    }
  }

  lemma {:induction false} LineStarts(md: string)
    ensures Split(md)[0] <= md
  {
    if md != [] && md[0] != '\n' {
      LineStarts(md[1..]);
    }
  }

  lemma RunShifts(md: string, c: char)
    requires md != [] && HasRun(md[1..], c)
    ensures HasRun(md, c)
  {
    var t := md[1..];
    var i :| 0 <= i < |t| - 2 && t[i] == c && t[i + 1] == c && t[i + 2] == c;
    assert md[i + 1] == c && md[i + 1 + 1] == c && md[i + 1 + 2] == c;
  }

  /** A text without three backticks or tildes in a row has no fence line, so nothing is rewritten. */
  lemma NothingToFix(md: string)
    requires !HasRun(md, '`') && !HasRun(md, '~')
    ensures Fixed(md) == md
  {
    var lines := Split(md);
    forall k | 0 <= k < |lines|
      ensures Match(lines[k]).None?
    {
      if Match(lines[k]).Some? {
        var m := Match(lines[k]).value;
        var (t, i) := (lines[k][m.indent..], m.indent);
        assert t[0] == m.fence.ch && t[1] == m.fence.ch && t[2] == m.fence.ch;
        assert lines[k][i] == m.fence.ch && lines[k][i + 1] == m.fence.ch && lines[k][i + 2] == m.fence.ch;
        RunReachesText(md, k, m.fence.ch);
      }
    }
    NoFencesScan(Parse(lines), |lines|);
    assert Applied(lines, map[]) == lines;
    JoinOfSplit(md);
  }

  lemma {:induction false} NoFencesScan(fs: Lines, i: nat)
    requires i <= |fs| && forall k :: 0 <= k < |fs| ==> fs[k].None?
    ensures ScanTo(fs, i) == EMPTY_SCAN
  {
    if i > 0 {
      NoFencesScan(fs, i - 1);
    }
  }

  /** `fixNestedFences`: the early return gives what the whole pass would. */
  method FixNestedFences(md: string) returns (out: string)
    ensures out == Fixed(md)
  {
    if !HasRun(md, '`') && !HasRun(md, '~') {
      NothingToFix(md);
      return md;
    }
    var lines := Split(md);
    var upgrades := ScanFences(lines);
    var buffer := new string[|lines|](i requires 0 <= i < |lines| => lines[i]);
    assert buffer[..] == lines;
    ApplyFenceUpgrades(buffer, upgrades);
    out := Join(buffer[..]);
  }

  // ---- what the rewrite promises ------------------------------------------------------------------------

  lemma UpgradesAreLong(fs: Lines)
    requires LongEnough(fs)
    ensures forall k :: k in ScanAll(fs).upgrades ==> ScanAll(fs).upgrades[k] > 3
  {
    hide ScanTo, LongEnough;
    ScanInv(fs, |fs|);
  }

  /** The lines of a fixed text are the lines of the text with the upgrades applied, and parse so. */
  lemma FixedLines(md: string)
    ensures Split(Fixed(md)) == Applied(Split(md), ScanAll(Parse(Split(md))).upgrades)
    ensures Parse(Split(Fixed(md))) == Again(Parse(Split(md)))
  {
    hide Split, Join, ScanTo, Match;
    var lines := Split(md);
    var ups := ScanAll(Parse(lines)).upgrades;
    ParseIsLong(lines);
    UpgradesAreLong(Parse(lines));
    AppliedParses(lines, ups);
    SplitLines(md);
    AppliedLines(lines, ups);
    SplitOfJoin(Applied(lines, ups));
  }

  /**
   On a balanced text the fixed text reads flat as the scan read it nested, the same outermost fences on
   the same lines and none left open, if and only if no loose closer intrudes.
   */
  lemma FixedIsFaithful(md: string)
    requires Balanced(Parse(Split(md)))
    ensures var fs := Parse(Split(md));
            FlatTo(Parse(Split(Fixed(md))), |Split(Fixed(md))|) == FlatRead(None, Outermost(ScanAll(fs).pairs))
            <==> forall i :: 0 <= i < |fs| ==> !Intrudes(fs, i)
  {
    hide Split, Join, ScanTo, FlatTo, Match, Intrudes, Rewritten;
    FixedLines(md);
    ParseIsLong(Split(md));
    FlatReadsOutermost(Parse(Split(md)));
  }

  /** The pass changes nothing if and only if every matched fence is longer than every fence opened inside it. */
  lemma FixedIsTheText(md: string)
    ensures Fixed(md) == md <==> Nested(Parse(Split(md)))
  {
    hide Split, Join, ScanTo, Match, Nested;
    var (lines, fs) := (Split(md), Parse(Split(md)));
    FixedLines(md);
    ParseIsLong(lines);
    RewriteIsIdle(fs);
    IdleIffNested(fs);
    if Nested(fs) {
      assert Applied(lines, map[]) == lines;
      JoinOfSplit(md);
    }
  }

  /** A second pass changes nothing if and only if the first one left every fence longer than those opened inside. */
  lemma FixedTwice(md: string)
    ensures Fixed(Fixed(md)) == Fixed(md) <==> Nested(Again(Parse(Split(md))))
  {
    hide Split, Join, ScanTo, Match, Nested, Rewritten;
    FixedLines(md);
    FixedIsTheText(Fixed(md));
  }

  /** So it is on every balanced text, and on every other one where no line outgrows the fence around it. */
  lemma FixedOnce(md: string)
    requires var fs := Parse(Split(md)); Balanced(fs) || forall i :: 0 <= i < |fs| ==> !Outgrows(fs, i)
    ensures Fixed(Fixed(md)) == Fixed(md)
  {
    hide Split, Join, ScanTo, Match, Outgrows, Rewritten, Nested;
    var fs := Parse(Split(md));
    FixedLines(md);
    ParseIsLong(Split(md));
    ParseIsLong(Split(Fixed(md)));
    SecondScanIsIdle(fs);
    IdleIffNested(Again(fs));
    FixedTwice(md);
  }
}
