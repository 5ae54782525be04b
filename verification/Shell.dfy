/** The command strings of the launcher (launcher.rs), and a reader of the shell's words to judge them by. */
module Shell {
  import opened Common

  // ---- a reader of shell words (POSIX Shell Command Language, sections 2.2 Quoting and 2.3 Token Recognition) ----

  /** Operator characters are reported one by one, in the order they stand. */
  datatype Token = Word(text: string) | Op(c: char)
  datatype Mode =
    | Between
    | InWord(acc: string)
    | Escaped(acc: string)
    | Single(acc: string)
    | Double(acc: string)
    | DoubleEscaped(acc: string)
    | Param(acc: string, name: string, double: bool)
    | Comment
    | Failed
  datatype Reader = Reader(tokens: seq<Token>, mode: Mode)

  predicate Blank(c: char) { c == ' ' || c == '\t' }
  predicate Operator(c: char) { c in "&|;<>()\n" }
  predicate NameStart(c: char) { 'a' <= c <= 'z' || 'A' <= c <= 'Z' || c == '_' }
  predicate NameChar(c: char) { NameStart(c) || '0' <= c <= '9' }

  /** One more character of a word, outside quotes. Substitutions and patterns are outside this reader. */
  function WordChar(acc: string, c: char): Mode {
    if c == '\'' then Single(acc)
    else if c == '"' then Double(acc)
    else if c == '\\' then Escaped(acc)
    else if c == '$' then Param(acc, "", false)
    else if c in "`*?[~" then Failed
    else InWord(acc + [c])
  }

  function DoubleChar(acc: string, c: char): Mode {
    if c == '"' then InWord(acc)
    else if c == '\\' then DoubleEscaped(acc)
    else if c == '$' then Param(acc, "", true)
    else if c == '`' then Failed
    else Double(acc + [c])
  }

  /**
   `env` gives each parameter its value; an unquoted named parameter, which would be split, is outside this
   reader.
   */
  function Step(r: Reader, c: char, env: string -> string): Reader {
    match r.mode
    case Between =>
      if Blank(c) then r
      else if Operator(c) then r.(tokens := r.tokens + [Op(c)])
      else r.(mode := if c == '#' then Comment else WordChar("", c))
    case InWord(acc) =>
      if Blank(c) then Reader(r.tokens + [Word(acc)], Between)
      else if Operator(c) then Reader(r.tokens + [Word(acc), Op(c)], Between)
      else r.(mode := WordChar(acc, c))
    case Escaped(acc) => r.(mode := if c == '\n' then Failed else InWord(acc + [c]))
    case Single(acc) => r.(mode := if c == '\'' then InWord(acc) else Single(acc + [c]))
    case Double(acc) => r.(mode := DoubleChar(acc, c))
    case DoubleEscaped(acc) =>
      r.(mode := if c in "$`\"\\" then Double(acc + [c])
                 else if c == '\n' then Double(acc)
                 else Double(acc + ['\\', c]))
    case Param(acc, name, double) =>
      r.(mode :=
        if name == "" && c in "?!" then (if double then Double(acc + env([c])) else InWord(acc + env([c])))
        else if double && (NameChar(c) && (name != "" || NameStart(c))) then Param(acc, name + [c], double)
        else if double && name != "" then DoubleChar(acc + env(name), c)
        else Failed)
    case Comment => if c == '\n' then Reader(r.tokens + [Op(c)], Between) else r
    case Failed => r
  }

  function ReadFrom(r: Reader, text: string, env: string -> string): Reader {
    if text == "" then r else Step(ReadFrom(r, text[..|text| - 1], env), text[|text| - 1], env)
  }

  function Finish(r: Reader): Option<seq<Token>> {
    match r.mode
    case Between => Some(r.tokens)
    case Comment => Some(r.tokens)
    case InWord(acc) => Some(r.tokens + [Word(acc)])
    case _ => None
  }

  function Read(text: string, env: string -> string): Option<seq<Token>> {
    Finish(ReadFrom(Reader([], Between), text, env))
  }

  lemma {:induction false} ReadConcat(r: Reader, a: string, b: string, env: string -> string)
    ensures ReadFrom(r, a + b, env) == ReadFrom(ReadFrom(r, a, env), b, env)
  {
    if b == "" {
      assert a + b == a;
    } else {
      ReadConcat(r, a, b[..|b| - 1], env);
      assert (a + b)[..|a + b| - 1] == a + b[..|b| - 1];
    }
  }

  lemma ReadNext(r: Reader, text: string, c: char, env: string -> string)
    ensures ReadFrom(r, text + [c], env) == Step(ReadFrom(r, text, env), c, env)
  {
    hide Step;
    assert (text + [c])[..|text + [c]| - 1] == text;
  }

  lemma ReadOne(r: Reader, c: char, env: string -> string)
    ensures ReadFrom(r, [c], env) == Step(r, c, env)
  {
    hide Step;
    ReadNext(r, "", c, env);
    assert "" + [c] == [c];
  }

  // ---- the quoting --------------------------------------------------------------------------------------

  predicate Safe(c: char) {
    'a' <= c <= 'z' || 'A' <= c <= 'Z' || '0' <= c <= '9' || c in "_@%+=:,./-"
  }
  predicate AllSafe(text: string) { forall i :: 0 <= i < |text| ==> Safe(text[i]) }

  /** Every single quote closes the quotes, stands in double quotes, and opens them again. */
  function Broken(text: string): string {
    if text == "" then ""
    else Broken(text[..|text| - 1]) + if text[|text| - 1] == '\'' then "'\"'\"'" else [text[|text| - 1]]
  }

  function ShellQuote(text: string): string {
    if text == "" then "''" else if AllSafe(text) then text else "'" + Broken(text) + "'"
  }

  /** The word a reader is in the middle of; a blank start counts as an empty one. */
  predicate Ready(r: Reader) { r.mode.Between? || r.mode.InWord? }
  function Acc(r: Reader): string requires Ready(r) { if r.mode.Between? then "" else r.mode.acc }

  lemma SafeIsPlain(c: char)
    requires Safe(c)
    ensures !Blank(c) && !Operator(c) && c != '#' && forall acc :: WordChar(acc, c) == InWord(acc + [c])
  {
  }

  lemma StepSafe(r: Reader, c: char, env: string -> string)
    requires Ready(r) && Safe(c)
    ensures Step(r, c, env) == r.(mode := InWord(Acc(r) + [c]))
  {
    hide Safe, Blank, Operator, WordChar;
    SafeIsPlain(c);
  }

  lemma {:induction false} ReadSafe(r: Reader, text: string, env: string -> string)
    requires Ready(r) && AllSafe(text)
    ensures ReadFrom(r, text, env) == if text == "" then r else r.(mode := InWord(Acc(r) + text))
  {
    hide Step, Safe;
    if text != "" {
      var (front, c) := (text[..|text| - 1], text[|text| - 1]);
      ReadSafe(r, front, env);
      StepSafe(ReadFrom(r, front, env), c, env);
      assert Acc(r) + text == Acc(r) + front + [c];
      assert front == "" ==> Acc(r) + front == Acc(r);
    }
  }

  lemma ReadQuote(r: Reader, acc: string, env: string -> string)
    requires r.mode == Single(acc)
    ensures ReadFrom(r, "'\"'\"'", env) == r.(mode := Single(acc + ['\'']))
  {
    hide ReadFrom;
    ReadOne(r, '\'', env);
    ReadNext(r, "'", '"', env);
    ReadNext(r, "'\"", '\'', env);
    ReadNext(r, "'\"'", '"', env);
    ReadNext(r, "'\"'\"", '\'', env);
    assert "'" + ['"'] == "'\"" && "'\"" + ['\''] == "'\"'" && "'\"'" + ['"'] == "'\"'\"";
    assert "'\"'\"" + ['\''] == "'\"'\"'";
  }

  lemma {:induction false} ReadBroken(r: Reader, acc: string, text: string, env: string -> string)
    requires r.mode == Single(acc)
    ensures ReadFrom(r, Broken(text), env) == r.(mode := Single(acc + text))
  {
    hide Step, ReadFrom;
    if text == "" {
      assert acc + text == acc;
      ReadNone(r, env);
    } else {
      var (front, c) := (text[..|text| - 1], text[|text| - 1]);
      ReadBroken(r, acc, front, env);
      var mid := r.(mode := Single(acc + front));
      ReadConcat(r, Broken(front), if c == '\'' then "'\"'\"'" else [c], env);
      assert acc + text == acc + front + [c];
      if c == '\'' {
        ReadQuote(mid, acc + front, env);
      } else {
        ReadOne(mid, c, env);
        StepSingle(mid, c, env);
      }
    }
  }

  lemma ReadNone(r: Reader, env: string -> string)
    ensures ReadFrom(r, "", env) == r
  {
  }

  lemma StepSingle(r: Reader, c: char, env: string -> string)
    requires r.mode.Single?
    ensures Step(r, c, env) == r.(mode := if c == '\'' then InWord(r.mode.acc) else Single(r.mode.acc + [c]))
  {
  }

  lemma StepOpen(r: Reader, env: string -> string)
    requires Ready(r)
    ensures Step(r, '\'', env) == r.(mode := Single(Acc(r)))
  {
  }

  /** Read anywhere a word may stand or go on, quoted text adds exactly itself to the word. */
  lemma ReadQuoted(r: Reader, text: string, env: string -> string)
    requires Ready(r)
    ensures ReadFrom(r, ShellQuote(text), env) == r.(mode := InWord(Acc(r) + text))
  {
    hide Step, ReadFrom, Broken;
    StepOpen(r, env);
    ReadOne(r, '\'', env);
    var open := r.(mode := Single(Acc(r)));
    if text == "" {
      ReadNext(r, "'", '\'', env);
      StepSingle(open, '\'', env);
      assert "'" + ['\''] == "''" && Acc(r) + text == Acc(r);
    } else if AllSafe(text) {
      ReadSafe(r, text, env);
    } else {
      ReadConcat(r, "'" + Broken(text), "'", env);
      ReadConcat(r, "'", Broken(text), env);
      ReadBroken(open, Acc(r), text, env);
      var closing := r.(mode := Single(Acc(r) + text));
      ReadOne(closing, '\'', env);
      StepSingle(closing, '\'', env);
    }
  }

  /** Quoted text is read back as exactly one word, the text itself. */
  lemma QuoteIsOneWord(text: string, env: string -> string)
    ensures Read(ShellQuote(text), env) == Some([Word(text)])
  {
    hide ReadFrom, ShellQuote;
    ReadQuoted(Reader([], Between), text, env);
    assert "" + text == text && [] + [Word(text)] == [Word(text)];
  }

  // ---- the remote paths ---------------------------------------------------------------------------------

  const HOME: string := "$HOME"
  const QUOTED_HOME: string := "\"$HOME\""
  const RUNS_DIR: string := "$HOME/charliebot_runs"

  predicate UnderHome(path: string) { HOME <= path }

  /** `remote_shell_word` and `absolute_remote_path`; a path that does not start with the variable is refused. */
  function RemoteShellWord(path: string): Option<string> {
    if UnderHome(path) then Some(QUOTED_HOME + ShellQuote(path[|HOME|..])) else None
  }
  function AbsoluteRemotePath(path: string, home: string): Option<string> {
    if UnderHome(path) then Some(home + path[|HOME|..]) else None
  }

  lemma StepName(r: Reader, name: string, c: char, env: string -> string)
    requires r.mode == Param("", name, true) && NameStart(c)
    ensures Step(r, c, env) == r.(mode := Param("", name + [c], true))
  {
  }

  lemma StepNameEnd(r: Reader, name: string, env: string -> string)
    requires r.mode == Param("", name, true) && name != ""
    ensures Step(r, '"', env) == r.(mode := InWord(env(name)))
  {
    assert "" + env(name) == env(name);
  }

  lemma StepDollar(r: Reader, env: string -> string)
    requires r.mode == Double("")
    ensures Step(r, '$', env) == r.(mode := Param("", "", true))
  {
  }

  /** Reading on in the middle of a quoted parameter's name. */
  lemma NameNext(r: Reader, text: string, name: string, c: char, env: string -> string)
    requires ReadFrom(r, text, env) == r.(mode := Param("", name, true)) && NameStart(c)
    ensures ReadFrom(r, text + [c], env) == r.(mode := Param("", name + [c], true))
  {
    hide *;
    StepName(r.(mode := Param("", name, true)), name, c, env);
    ReadNext(r, text, c, env);
  }

  lemma StepHome(r: Reader, env: string -> string)
    requires r.mode == Double("")
    ensures ReadFrom(r, "$HOME\"", env) == r.(mode := InWord(env("HOME")))
  {
    assert NameStart('H') && NameStart('O') && NameStart('M') && NameStart('E');
    hide *;
    ReadOne(r, '$', env);
    StepDollar(r, env);
    var (a, b) := ("$" + ['H'], "$" + ['H'] + ['O']);
    var (c, d) := (b + ['M'], b + ['M'] + ['E']);
    NameNext(r, "$", "", 'H', env);
    NameNext(r, a, "" + ['H'], 'O', env);
    NameNext(r, b, "" + ['H'] + ['O'], 'M', env);
    NameNext(r, c, "" + ['H'] + ['O'] + ['M'], 'E', env);
    HomeSpelled();
    ReadNext(r, d, '"', env);
    StepNameEnd(r.(mode := Param("", "HOME", true)), "HOME", env);
  }

  lemma HomeSpelled()
    ensures "" + ['H'] + ['O'] + ['M'] + ['E'] == "HOME"
    ensures "$" + ['H'] + ['O'] + ['M'] + ['E'] + ['"'] == "$HOME\""
  {
  }

  lemma ReadHome(r: Reader, env: string -> string)
    requires r.mode.Between?
    ensures ReadFrom(r, QUOTED_HOME, env) == r.(mode := InWord(env("HOME")))
  {
    assert QUOTED_HOME == "\"" + "$HOME\"";
    ReadConcat(r, "\"", "$HOME\"", env);
    ReadOne(r, '"', env);
    StepHome(r.(mode := Double("")), env);
    hide ReadFrom;
  }

  /** Expanded by a shell whose home is `env("HOME")`, the remote word is the absolute path: one word, never split. */
  lemma RemoteWordIsThePath(r: Reader, path: string, env: string -> string)
    requires r.mode.Between? && UnderHome(path)
    ensures ReadFrom(r, RemoteShellWord(path).value, env)
         == r.(mode := InWord(AbsoluteRemotePath(path, env("HOME")).value))
  {
    hide ReadFrom, ShellQuote;
    ReadConcat(r, QUOTED_HOME, ShellQuote(path[|HOME|..]), env);
    ReadHome(r, env);
    ReadQuoted(r.(mode := InWord(env("HOME"))), path[|HOME|..], env);
  }

  // ---- whole command lines ------------------------------------------------------------------------------

  /** Pieces of a command line, separated by single blanks. */
  function Line(pieces: seq<string>): string {
    if pieces == [] then "" else if |pieces| == 1 then pieces[0]
    else Line(pieces[..|pieces| - 1]) + " " + pieces[|pieces| - 1]
  }

  /** What a piece stands for: text that, read between words, yields its tokens when the next blank or the end comes. */
  ghost predicate Stands(piece: string, tokens: seq<Token>, env: string -> string) {
    forall before: seq<Token> ::
      var r := ReadFrom(Reader(before, Between), piece, env);
      Step(r, ' ', env) == Reader(before + tokens, Between) && Finish(r) == Some(before + tokens)
  }

  function Flat(tokens: seq<seq<Token>>): seq<Token> {
    if tokens == [] then [] else Flat(tokens[..|tokens| - 1]) + tokens[|tokens| - 1]
  }

  lemma {:induction false} LineReads(pieces: seq<string>, tokens: seq<seq<Token>>, env: string -> string)
    requires |pieces| == |tokens| > 0
    requires forall i :: 0 <= i < |pieces| ==> Stands(pieces[i], tokens[i], env)
    ensures Stands(Line(pieces), Flat(tokens), env)
  {
    hide Step, ReadFrom, Finish;
    var n := |pieces| - 1;
    if n == 0 {
      assert Flat(tokens) == tokens[0] by { assert tokens[..0] == []; assert [] + tokens[0] == tokens[0]; }
    } else {
      var (front, last) := (Line(pieces[..n]), pieces[n]);
      LineReads(pieces[..n], tokens[..n], env);
      assert Stands(last, tokens[n], env);
      var firsts := Flat(tokens[..n]);
      forall before: seq<Token>
        ensures var r := ReadFrom(Reader(before, Between), Line(pieces), env);
                Step(r, ' ', env) == Reader(before + Flat(tokens), Between) && Finish(r) == Some(before + Flat(tokens))
      {
        var start := Reader(before, Between);
        ReadConcat(start, front + " ", last, env);
        ReadNext(start, front, ' ', env);
        assert before + firsts + tokens[n] == before + Flat(tokens);
      }
    }
  }

  lemma StandsRead(piece: string, tokens: seq<Token>, env: string -> string)
    requires Stands(piece, tokens, env)
    ensures Read(piece, env) == Some(tokens)
  {
    hide Step, ReadFrom, Finish;
    assert [] + tokens == tokens;
  }

  lemma QuotedStands(text: string, env: string -> string)
    ensures Stands(ShellQuote(text), [Word(text)], env)
  {
    hide ReadFrom, ShellQuote;
    forall before: seq<Token>
      ensures var r := ReadFrom(Reader(before, Between), ShellQuote(text), env);
              Step(r, ' ', env) == Reader(before + [Word(text)], Between) && Finish(r) == Some(before + [Word(text)])
    {
      ReadQuoted(Reader(before, Between), text, env);
      assert "" + text == text;
    }
  }

  lemma SafeStands(text: string, env: string -> string)
    requires text != "" && AllSafe(text)
    ensures Stands(text, [Word(text)], env)
  {
    QuotedStands(text, env);
  }

  lemma RemoteStands(path: string, env: string -> string)
    requires UnderHome(path)
    ensures Stands(RemoteShellWord(path).value, [Word(AbsoluteRemotePath(path, env("HOME")).value)], env)
    ensures Stands(RemoteShellWord(path).value + ";", [Word(AbsoluteRemotePath(path, env("HOME")).value), Op(';')], env)
  {
    var (word, text) := (RemoteShellWord(path).value, AbsoluteRemotePath(path, env("HOME")).value);
    hide ReadFrom, RemoteShellWord, AbsoluteRemotePath;
    forall before: seq<Token>
      ensures var r := ReadFrom(Reader(before, Between), word, env);
              Step(r, ' ', env) == Reader(before + [Word(text)], Between) && Finish(r) == Some(before + [Word(text)])
      ensures var r := ReadFrom(Reader(before, Between), word + ";", env);
              Step(r, ' ', env) == Reader(before + [Word(text), Op(';')], Between)
                  && Finish(r) == Some(before + [Word(text), Op(';')])
    {
      RemoteWordIsThePath(Reader(before, Between), path, env);
      ReadNext(Reader(before, Between), word, ';', env);
    }
  }

  /** A piece read to the inside of a word stands for that word. */
  lemma WordStands(piece: string, text: string, env: string -> string)
    requires forall before: seq<Token> :: ReadFrom(Reader(before, Between), piece, env) == Reader(before, InWord(text))
    ensures Stands(piece, [Word(text)], env)
  {
    hide ReadFrom;
  }

  lemma OperatorStands(c: char, env: string -> string)
    requires c in "&<>"
    ensures Stands([c], [Op(c)], env) && Stands([c, c], [Op(c), Op(c)], env)
  {
    hide ReadFrom;
    forall before: seq<Token>
      ensures ReadFrom(Reader(before, Between), [c], env) == Reader(before + [Op(c)], Between)
      ensures ReadFrom(Reader(before, Between), [c, c], env) == Reader(before + [Op(c), Op(c)], Between)
    {
      var start := Reader(before, Between);
      ReadOne(start, c, env);
      ReadNext(start, [c], c, env);
      assert [c] + [c] == [c, c] && before + [Op(c)] + [Op(c)] == before + [Op(c), Op(c)];
    }
  }

  lemma BraceStands(c: char, env: string -> string)
    requires c in "{}"
    ensures Stands([c], [Word([c])], env)
  {
    hide ReadFrom;
    forall before: seq<Token>
      ensures ReadFrom(Reader(before, Between), [c], env) == Reader(before, InWord([c]))
    {
      ReadOne(Reader(before, Between), c, env);
      assert "" + [c] == [c];
    }
    WordStands([c], [c], env);
  }

  lemma OperatorsStand(env: string -> string)
    ensures Stands("&", [Op('&')], env) && Stands(">", [Op('>')], env) && Stands("&&", [Op('&'), Op('&')], env)
    ensures Stands("<", [Op('<')], env)
    ensures Stands("{", [Word("{")], env) && Stands("}", [Word("}")], env)
  {
    hide Stands;
    OperatorStands('&', env);
    OperatorStands('>', env);
    OperatorStands('<', env);
    BraceStands('{', env);
    BraceStands('}', env);
  }

  lemma HomeStands(env: string -> string)
    ensures Stands(QUOTED_HOME, [Word(env("HOME"))], env)
  {
    hide ReadFrom, Stands;
    forall before: seq<Token>
      ensures ReadFrom(Reader(before, Between), QUOTED_HOME, env) == Reader(before, InWord(env("HOME")))
    {
      ReadHome(Reader(before, Between), env);
    }
    WordStands(QUOTED_HOME, env("HOME"), env);
  }

  /** `$!` and `$?` outside quotes. */
  lemma StatusStands(c: char, env: string -> string)
    requires c in "!?"
    ensures Stands(['$', c], [Word(env([c]))], env)
  {
    hide ReadFrom, Stands;
    forall before: seq<Token>
      ensures ReadFrom(Reader(before, Between), ['$', c], env) == Reader(before, InWord(env([c])))
    {
      var start := Reader(before, Between);
      ReadOne(start, '$', env);
      ReadNext(start, ['$'], c, env);
      assert ['$'] + [c] == ['$', c] && "" + env([c]) == env([c]);
    }
    WordStands(['$', c], env([c]), env);
  }

  lemma ParametersStand(env: string -> string)
    ensures Stands("$!", [Word(env("!"))], env) && Stands("$?", [Word(env("?"))], env)
    ensures Stands(QUOTED_HOME, [Word(env("HOME"))], env)
  {
    hide Stands;
    HomeStands(env);
    StatusStands('!', env);
    StatusStands('?', env);
  }

  // ---- the launch ---------------------------------------------------------------------------------------

  /** `wrapper_command`: the command in a subshell, then its exit code into the exit file. */
  function WrapperCommand(cmd: string, exitWord: string): string {
    "(" + cmd + "\n" + Line([");", "echo", "$?", ">", exitWord])
  }

  /** A path in the launch's run directory. */
  function RunPath(id: string, leaf: string): (path: string)
    ensures UnderHome(path)
  {
    RUNS_DIR + "/" + id + leaf
  }

  function RemoteRunWord(id: string, leaf: string): string { RemoteShellWord(RunPath(id, leaf)).value }

  /** What the detached remote shell is told to run. */
  function Inner(cmd: string, id: string): string {
    "{ " + WrapperCommand(cmd, RemoteRunWord(id, "/exit")) + "; } < /dev/null > " + RemoteRunWord(id, "/log") + " 2>&1"
  }

  /** The pieces of the launch line, a blank between each and the next. */
  function Opening(id: string): seq<string> {
    ["mkdir", "-p", RemoteRunWord(id, ""), "&&", "echo", QUOTED_HOME, "&&"]
  }
  function Entering(cwd: Option<string>): seq<string> {
    if cwd.None? then [] else ["cd", ShellQuote(cwd.value), "&&"]
  }
  function Starting(inner: string): seq<string> { ["{", "setsid", "bash", "-lc", ShellQuote(inner), "&"] }
  function Reporting(id: string): seq<string> {
    ["echo", "$!", ">", RemoteRunWord(id, "/pid"), "&&", "cat", RemoteRunWord(id, "/pid") + ";", "}"]
  }
  function Wrapper(cmd: string, cwd: Option<string>, id: string): string {
    Line(Opening(id) + Entering(cwd) + Starting(Inner(cmd, id)) + Reporting(id))
  }

  /** The command line ssh hands to the remote login shell. */
  function SshLine(cmd: string, cwd: Option<string>, id: string): string {
    Line(["bash", "-c", ShellQuote(Wrapper(cmd, cwd, id))])
  }

  function Absolute(id: string, leaf: string, home: string): string {
    AbsoluteRemotePath(RunPath(id, leaf), home).value
  }

  /** What the launch line is meant to say, piece by piece. */
  function OpeningMeans(id: string, env: string -> string): seq<seq<Token>> {
    [[Word("mkdir")], [Word("-p")], [Word(Absolute(id, "", env("HOME")))], [Op('&'), Op('&')],
     [Word("echo")], [Word(env("HOME"))], [Op('&'), Op('&')]]
  }
  function EnteringMeans(cwd: Option<string>): seq<seq<Token>> {
    if cwd.None? then [] else [[Word("cd")], [Word(cwd.value)], [Op('&'), Op('&')]]
  }
  function StartingMeans(inner: string): seq<seq<Token>> {
    [[Word("{")], [Word("setsid")], [Word("bash")], [Word("-lc")], [Word(inner)], [Op('&')]]
  }
  function ReportingMeans(id: string, env: string -> string): seq<seq<Token>> {
    var pid := Word(Absolute(id, "/pid", env("HOME")));
    [[Word("echo")], [Word(env("!"))], [Op('>')], [pid], [Op('&'), Op('&')], [Word("cat")], [pid, Op(';')], [Word("}")]]
  }

  ghost predicate AllStand(pieces: seq<string>, tokens: seq<seq<Token>>, env: string -> string) {
    |pieces| == |tokens| && forall i :: 0 <= i < |pieces| ==> Stands(pieces[i], tokens[i], env)
  }

  lemma AllStandConcat(a: seq<string>, x: seq<seq<Token>>, b: seq<string>, y: seq<seq<Token>>, env: string -> string)
    requires AllStand(a, x, env) && AllStand(b, y, env)
    ensures AllStand(a + b, x + y, env)
  {
    hide Stands;
  }

  lemma OpeningStands(id: string, env: string -> string)
    ensures AllStand(Opening(id), OpeningMeans(id, env), env)
  {
    hide Stands, ReadFrom, RemoteShellWord, AbsoluteRemotePath;
    SafeStands("mkdir", env);
    SafeStands("-p", env);
    SafeStands("echo", env);
    RemoteStands(RunPath(id, ""), env);
    OperatorsStand(env);
    ParametersStand(env);
  }

  lemma EnteringStands(cwd: Option<string>, env: string -> string)
    ensures AllStand(Entering(cwd), EnteringMeans(cwd), env)
  {
    hide Stands, ReadFrom, ShellQuote;
    SafeStands("cd", env);
    OperatorsStand(env);
    if cwd.Some? {
      QuotedStands(cwd.value, env);
    }
  }

  lemma StartingStands(inner: string, env: string -> string)
    ensures AllStand(Starting(inner), StartingMeans(inner), env)
  {
    hide Stands, ReadFrom, ShellQuote;
    SafeStands("setsid", env);
    SafeStands("bash", env);
    SafeStands("-lc", env);
    OperatorsStand(env);
    QuotedStands(inner, env);
  }

  lemma ReportingStands(id: string, env: string -> string)
    ensures AllStand(Reporting(id), ReportingMeans(id, env), env)
  {
    hide Stands, ReadFrom, RemoteShellWord, AbsoluteRemotePath;
    SafeStands("echo", env);
    SafeStands("cat", env);
    RemoteStands(RunPath(id, "/pid"), env);
    OperatorsStand(env);
    ParametersStand(env);
  }

  /**
   For every command, directory and launch id: the remote login shell hands the launch line whole to
   `bash -c`, and that shell reads it as meant, with the inner command as one word after `-lc`, the
   directory as one word after `cd`, and the run directory and the pid file expanded to their absolute form.
   */
  lemma LaunchArrives(cmd: string, cwd: Option<string>, id: string, login: string -> string, env: string -> string)
    ensures Read(SshLine(cmd, cwd, id), login)
         == Some(Flat([[Word("bash")], [Word("-c")], [Word(Wrapper(cmd, cwd, id))]]))
    ensures Read(Wrapper(cmd, cwd, id), env)
         == Some(Flat(OpeningMeans(id, env) + EnteringMeans(cwd) + StartingMeans(Inner(cmd, id))
             + ReportingMeans(id, env)))
  {
    SshLineArrives(Wrapper(cmd, cwd, id), login);
    var (o, e, s, r) := (Opening(id), Entering(cwd), Starting(Inner(cmd, id)), Reporting(id));
    var (om, em, sm, rm) := (OpeningMeans(id, env), EnteringMeans(cwd), StartingMeans(Inner(cmd, id)),
        ReportingMeans(id, env));
    OpeningStands(id, env);
    EnteringStands(cwd, env);
    StartingStands(Inner(cmd, id), env);
    ReportingStands(id, env);
    assert |r| == |rm| == 8;
    hide Stands, ReadFrom, Opening, Entering, Starting, Reporting, OpeningMeans, EnteringMeans, StartingMeans,
         ReportingMeans, Inner, Line, Flat;
    AllStandConcat(o, om, e, em, env);
    AllStandConcat(o + e, om + em, s, sm, env);
    AllStandConcat(o + e + s, om + em + sm, r, rm, env);
    LineReads(o + e + s + r, om + em + sm + rm, env);
    StandsRead(Line(o + e + s + r), Flat(om + em + sm + rm), env);
  }

  lemma SshLineArrives(wrapper: string, env: string -> string)
    ensures Read(Line(["bash", "-c", ShellQuote(wrapper)]), env)
            == Some(Flat([[Word("bash")], [Word("-c")], [Word(wrapper)]]))
  {
    hide Stands, ReadFrom, ShellQuote, Line, Flat;
    SafeStands("bash", env);
    SafeStands("-c", env);
    QuotedStands(wrapper, env);
    LineReads(["bash", "-c", ShellQuote(wrapper)], [[Word("bash")], [Word("-c")], [Word(wrapper)]], env);
    StandsRead(Line(["bash", "-c", ShellQuote(wrapper)]), Flat([[Word("bash")], [Word("-c")], [Word(wrapper)]]), env);
  }

  // ---- the subshell closes ------------------------------------------------------------------------------

  /** What was read before changes nothing in how the rest is read. */
  lemma {:induction false} ReadAfter(before: seq<Token>, r: Reader, text: string, env: string -> string)
    ensures ReadFrom(Reader(before + r.tokens, r.mode), text, env)
         == var end := ReadFrom(r, text, env); Reader(before + end.tokens, end.mode)
  {
    if text != "" {
      ReadAfter(before, r, text[..|text| - 1], env);
      StepAfter(before, ReadFrom(r, text[..|text| - 1], env), text[|text| - 1], env);
      hide Step;
    }
  }

  lemma StepAfter(before: seq<Token>, r: Reader, c: char, env: string -> string)
    ensures var end := Step(r, c, env);
            Step(Reader(before + r.tokens, r.mode), c, env) == Reader(before + end.tokens, end.mode)
  {
    hide WordChar, DoubleChar, Blank, Operator, NameChar, NameStart;
    assert forall t: seq<Token> :: before + r.tokens + t == before + (r.tokens + t);
  }

  lemma StepNewline(r: Reader, env: string -> string)
    requires Finish(r).Some?
    ensures Step(r, '\n', env) == Reader(Finish(r).value + [Op('\n')], Between)
  {
  }

  lemma FinishAfter(before: seq<Token>, r: Reader)
    requires Finish(r).Some?
    ensures Finish(Reader(before + r.tokens, r.mode)) == Some(before + Finish(r).value)
  {
    assert r.mode.InWord? ==> before + r.tokens + [Word(r.mode.acc)] == before + (r.tokens + [Word(r.mode.acc)]);
  }

  lemma ClosingStands(env: string -> string)
    ensures Stands(");", [Op(')'), Op(';')], env)
  {
    hide ReadFrom;
    forall before: seq<Token>
      ensures ReadFrom(Reader(before, Between), ");", env) == Reader(before + [Op(')'), Op(';')], Between)
    {
      var start := Reader(before, Between);
      ReadOne(start, ')', env);
      ReadNext(start, ")", ';', env);
      assert ")" + [';'] == ");" && before + [Op(')')] + [Op(';')] == before + [Op(')'), Op(';')];
    }
  }

  lemma FlatFive(a: seq<Token>, b: seq<Token>, c: seq<Token>, d: seq<Token>, e: seq<Token>)
    ensures Flat([a, b, c, d, e]) == a + b + c + d + e
  {
    hide Flat;
    FlatSnoc([], a);
    FlatSnoc([a], b);
    FlatSnoc([a, b], c);
    FlatSnoc([a, b, c], d);
    FlatSnoc([a, b, c, d], e);
    assert [] + [a] == [a] && [a] + [b] == [a, b] && [a, b] + [c] == [a, b, c];
    assert [a, b, c] + [d] == [a, b, c, d] && [a, b, c, d] + [e] == [a, b, c, d, e];
  }

  lemma FlatSnoc(tokens: seq<seq<Token>>, last: seq<Token>)
    ensures Flat(tokens + [last]) == Flat(tokens) + last && Flat([]) == []
  {
    assert (tokens + [last])[..|tokens|] == tokens;
  }

  /** What the wrapper says after the command. */
  function EpilogueMeans(path: string, env: string -> string): seq<Token> {
    [Op(')'), Op(';'), Word("echo"), Word(env("?")), Op('>'), Word(path)]
  }

  /** The epilogue ends in whatever its last piece stands for. */
  lemma EpilogueReads(last: string, tokens: seq<Token>, env: string -> string)
    requires Stands(last, tokens, env)
    ensures Stands(Line([");", "echo", "$?", ">", last]),
                   [Op(')'), Op(';'), Word("echo"), Word(env("?")), Op('>')] + tokens, env)
  {
    hide Stands, ReadFrom, Line, Flat;
    ClosingStands(env);
    SafeStands("echo", env);
    ParametersStand(env);
    OperatorsStand(env);
    LineReads([");", "echo", "$?", ">", last],
              [[Op(')'), Op(';')], [Word("echo")], [Word(env("?"))], [Op('>')], tokens], env);
    FlatFive([Op(')'), Op(';')], [Word("echo")], [Word(env("?"))], [Op('>')], tokens);
    assert [Op(')'), Op(';'), Word("echo"), Word(env("?")), Op('>')]
        == [Op(')'), Op(';')] + [Word("echo")] + [Word(env("?"))] + [Op('>')];
  }

  /**
   A command the reader can finish, even one that ends in a comment, is all that its subshell holds: what
   follows it on the next line is read as if the command were not there.
   */
  lemma SubshellCloses(before: seq<Token>, cmd: string, rest: string, means: seq<Token>, env: string -> string)
    requires Read(cmd, env).Some? && Stands(rest, means, env)
    ensures Finish(ReadFrom(Reader(before, Between), "(" + cmd + "\n" + rest, env))
         == Some(before + [Op('(')] + Read(cmd, env).value + [Op('\n')] + means)
  {
    hide ReadFrom, Step, Stands, Finish;
    var (start, opener) := (Reader(before, Between), before + [Op('(')]);
    ReadConcat(start, "(" + cmd + "\n", rest, env);
    ReadConcat(start, "(" + cmd, "\n", env);
    ReadConcat(start, "(", cmd, env);
    ReadOne(start, '(', env);
    StepParen(before, env);
    var end := ReadFrom(Reader([], Between), cmd, env);
    assert opener + [] == opener;
    ReadAfter(opener, Reader([], Between), cmd, env);
    FinishAfter(opener, end);
    var inside := Reader(opener + end.tokens, end.mode);
    StepNewline(inside, env);
    ReadOne(inside, '\n', env);
    StandsAt(rest, means, opener + Read(cmd, env).value + [Op('\n')], env);
  }

  /** The wrapper stays whole: the parenthesis closes the subshell and the exit code goes to the exit file. */
  lemma WrapperCloses(cmd: string, exitWord: string, path: string, env: string -> string)
    requires Read(cmd, env).Some? && Stands(exitWord, [Word(path)], env)
    ensures Read(WrapperCommand(cmd, exitWord), env)
         == Some([Op('(')] + Read(cmd, env).value + [Op('\n')] + EpilogueMeans(path, env))
  {
    hide ReadFrom, Stands, Line, Finish;
    EpilogueReads(exitWord, [Word(path)], env);
    assert [Op(')'), Op(';'), Word("echo"), Word(env("?")), Op('>')] + [Word(path)] == EpilogueMeans(path, env);
    SubshellCloses([], cmd, Line([");", "echo", "$?", ">", exitWord]), EpilogueMeans(path, env), env);
    assert [] + [Op('(')] == [Op('(')];
  }

  // ---- the inner command --------------------------------------------------------------------------------

  lemma LineSnoc(pieces: seq<string>, last: string)
    requires pieces != []
    ensures Line(pieces + [last]) == Line(pieces) + " " + last
  {
    assert (pieces + [last])[..|pieces|] == pieces;
  }

  lemma StepsJoined(r: Reader, env: string -> string)
    requires r.mode.Between?
    ensures Step(r, '2', env) == r.(mode := InWord("2")) && Step(r, '1', env) == r.(mode := InWord("1"))
    ensures Step(r, '&', env) == r.(tokens := r.tokens + [Op('&')])
    ensures Step(r.(mode := InWord("2")), '>', env) == r.(tokens := r.tokens + [Word("2"), Op('>')])
  {
    assert "" + ['2'] == "2" && "" + ['1'] == "1";
  }

  /** `2>&1`, read without blanks. */
  lemma JoinedStands(env: string -> string)
    ensures Stands("2>&1", [Word("2"), Op('>'), Op('&'), Word("1")], env)
  {
    forall before: seq<Token>
      ensures ReadFrom(Reader(before, Between), "2>&1", env)
           == Reader(before + [Word("2"), Op('>'), Op('&')], InWord("1"))
    {
      hide ReadFrom, Step;
      var start := Reader(before, Between);
      StepsJoined(start, env);
      ReadOne(start, '2', env);
      ReadNext(start, "2", '>', env);
      assert "2" + ['>'] == "2>" && "2>" + ['&'] == "2>&" && "2>&" + ['1'] == "2>&1";
      StepsJoined(Reader(before + [Word("2"), Op('>')], Between), env);
      ReadNext(start, "2>", '&', env);
      assert before + [Word("2"), Op('>')] + [Op('&')] == before + [Word("2"), Op('>'), Op('&')];
      StepsJoined(Reader(before + [Word("2"), Op('>'), Op('&')], Between), env);
      ReadNext(start, "2>&", '1', env);
    }
    hide ReadFrom;
    forall before: seq<Token>
      ensures before + [Word("2"), Op('>'), Op('&')] + [Word("1")]
           == before + [Word("2"), Op('>'), Op('&'), Word("1")]
    {
    }
  }

  /** Where the inner command's streams go. */
  function StreamsMean(id: string, env: string -> string): seq<seq<Token>> {
    [[Word("}")], [Op('<')], [Word("/dev/null")], [Op('>')], [Word(Absolute(id, "/log", env("HOME")))],
     [Word("2"), Op('>'), Op('&'), Word("1")]]
  }

  lemma StreamsStand(id: string, env: string -> string)
    ensures Stands("} < /dev/null > " + RemoteRunWord(id, "/log") + " 2>&1", Flat(StreamsMean(id, env)), env)
  {
    hide Stands, ReadFrom, RemoteShellWord, AbsoluteRemotePath, Line, Flat;
    var pieces := ["}", "<", "/dev/null", ">", RemoteRunWord(id, "/log"), "2>&1"];
    OperatorsStand(env);
    SafeStands("/dev/null", env);
    RemoteStands(RunPath(id, "/log"), env);
    JoinedStands(env);
    LineReads(pieces, StreamsMean(id, env), env);
    LineOfStreams(RemoteRunWord(id, "/log"));
  }

  lemma LineOfStreams(log: string)
    ensures Line(["}", "<", "/dev/null", ">", log, "2>&1"]) == "} < /dev/null > " + log + " 2>&1"
  {
    hide Line;
    assert Line(["}"]) == "}" by {
      LineOne("}");
    }
    LineSnoc(["}"], "<");
    LineSnoc(["}", "<"], "/dev/null");
    LineSnoc(["}", "<", "/dev/null"], ">");
    LineSnoc(["}", "<", "/dev/null", ">"], log);
    LineSnoc(["}", "<", "/dev/null", ">", log], "2>&1");
    assert ["}"] + ["<"] == ["}", "<"] && ["}", "<"] + ["/dev/null"] == ["}", "<", "/dev/null"];
    assert ["}", "<", "/dev/null"] + [">"] == ["}", "<", "/dev/null", ">"];
    assert ["}", "<", "/dev/null", ">"] + [log] == ["}", "<", "/dev/null", ">", log];
    assert ["}", "<", "/dev/null", ">", log] + ["2>&1"] == ["}", "<", "/dev/null", ">", log, "2>&1"];
    assert "}" + " " + "<" + " " + "/dev/null" + " " + ">" + " " == "} < /dev/null > ";
  }

  lemma LineOne(piece: string)
    ensures Line([piece]) == piece
  {
  }

  /**
   The detached shell reads the inner command as meant, for every command it can finish: the command alone
   in its subshell, its exit code into the absolute exit path, and both streams into the absolute log path.
   */
  lemma InnerReads(cmd: string, id: string, env: string -> string)
    requires Read(cmd, env).Some?
    ensures Read(Inner(cmd, id), env)
         == Some([Word("{"), Op('(')] + Read(cmd, env).value + [Op('\n')]
                 + EpilogueMeans(Absolute(id, "/exit", env("HOME")), env) + [Op(';')] + Flat(StreamsMean(id, env)))
  {
    hide Stands, ReadFrom, RemoteShellWord, AbsoluteRemotePath, Line, Flat, Finish, StreamsMean;
    var (exit, path) := (RemoteRunWord(id, "/exit"), Absolute(id, "/exit", env("HOME")));
    var (close, streams) := (Line([");", "echo", "$?", ">", exit + ";"]),
                             "} < /dev/null > " + RemoteRunWord(id, "/log") + " 2>&1");
    var means := EpilogueMeans(path, env) + [Op(';')] + Flat(StreamsMean(id, env));
    RestStands(id, env);
    SubshellCloses([Word("{")], cmd, close + " " + streams, means, env);
    OpenBrace("(" + cmd + "\n" + (close + " " + streams), env);
    InnerIs(cmd, id);
    var opener := [Word("{")] + [Op('(')] + Read(cmd, env).value + [Op('\n')];
    assert opener + means == opener + EpilogueMeans(path, env) + [Op(';')] + Flat(StreamsMean(id, env));
    assert [Word("{")] + [Op('(')] == [Word("{"), Op('(')];
  }

  lemma OpenBrace(rest: string, env: string -> string)
    ensures ReadFrom(Reader([], Between), "{ " + rest, env) == ReadFrom(Reader([Word("{")], Between), rest, env)
  {
    hide ReadFrom;
    var start := Reader([], Between);
    ReadConcat(start, "{ ", rest, env);
    ReadOne(start, '{', env);
    ReadNext(start, "{", ' ', env);
    assert "{" + [' '] == "{ " && "" + ['{'] == "{" && [] + [Word("{")] == [Word("{")];
  }

  lemma InnerIs(cmd: string, id: string)
    ensures Inner(cmd, id)
         == "{ " + ("(" + cmd + "\n" + (Line([");", "echo", "$?", ">", RemoteRunWord(id, "/exit") + ";"])
            + " " + ("} < /dev/null > " + RemoteRunWord(id, "/log") + " 2>&1")))
  {
    var (exit, log, front) := (RemoteRunWord(id, "/exit"), RemoteRunWord(id, "/log"), [");", "echo", "$?", ">"]);
    hide Line, RemoteRunWord;
    LineSnoc(front, exit);
    LineSnoc(front, exit + ";");
    assert front + [exit] == [");", "echo", "$?", ">", exit];
    assert front + [exit + ";"] == [");", "echo", "$?", ">", exit + ";"];
    var (a, b, c) := ("(" + cmd + "\n", Line(front) + " " + exit, "} < /dev/null > ");
    assert "; } < /dev/null > " == ";" + " " + c;
    Regroup("{ ", a, b, ";", " ", c, log, " 2>&1");
    assert Line(front) + " " + (exit + ";") == b + ";";
  }

  lemma Regroup(o: string, a: string, b: string, s: string, t: string, c: string, l: string, e: string)
    ensures o + (a + b) + (s + t + c) + l + e == o + (a + (b + s + t + (c + l + e)))
  {
  }

  lemma RestStands(id: string, env: string -> string)
    ensures Stands(Line([");", "echo", "$?", ">", RemoteRunWord(id, "/exit") + ";"])
                   + " " + ("} < /dev/null > " + RemoteRunWord(id, "/log") + " 2>&1"),
                   EpilogueMeans(Absolute(id, "/exit", env("HOME")), env) + [Op(';')] + Flat(StreamsMean(id, env)), env)
  {
    var (exit, path) := (RemoteRunWord(id, "/exit"), Absolute(id, "/exit", env("HOME")));
    var (close, streams) := (Line([");", "echo", "$?", ">", exit + ";"]),
                             "} < /dev/null > " + RemoteRunWord(id, "/log") + " 2>&1");
    hide Stands, ReadFrom, RemoteShellWord, AbsoluteRemotePath, Line, Flat, StreamsMean;
    RemoteStands(RunPath(id, "/exit"), env);
    EpilogueReads(exit + ";", [Word(path), Op(';')], env);
    assert [Op(')'), Op(';'), Word("echo"), Word(env("?")), Op('>')] + [Word(path), Op(';')]
        == EpilogueMeans(path, env) + [Op(';')];
    StreamsStand(id, env);
    var (first, second) := (EpilogueMeans(path, env) + [Op(';')], Flat(StreamsMean(id, env)));
    LineReads([close, streams], [first, second], env);
    LineSnoc([close], streams);
    LineOne(close);
    assert [close] + [streams] == [close, streams];
    FlatSnoc([], first);
    FlatSnoc([first], second);
    assert [] + [first] == [first] && [first] + [second] == [first, second] && [] + first == first;
  }

  lemma StepParen(before: seq<Token>, env: string -> string)
    ensures Step(Reader(before, Between), '(', env) == Reader(before + [Op('(')], Between)
  {
  }

  lemma StandsAt(piece: string, tokens: seq<Token>, before: seq<Token>, env: string -> string)
    requires Stands(piece, tokens, env)
    ensures Finish(ReadFrom(Reader(before, Between), piece, env)) == Some(before + tokens)
  {
    hide ReadFrom, Step, Finish;
  }
}
