/** runcmd lists flattened to one shell command, and an independent reader for it: the token
    recognition of section 2.3 of the Shell Command Language, POSIX.1-2017, as a machine that
    takes one character at a time, with the quoting rules of section 2.2. */
module Shell {
  import opened Text

  // ---- the printer ---------------------------------------------------------------------

  /** A decoded YAML value: a string, a list, or anything else. */
  datatype Value = Str(s: string) | List(items: seq<Value>) | Other

  const SPECIAL := " \t\n'\"\\$`*?[]&;|<>(){}#~!"

  predicate ContainsAny(s: string, chars: string) {
    exists c | c in s :: c in chars
  }

  /** strings.ReplaceAll(s, "'", r). */
  function ReplaceQuotes(s: string, r: string): string {
    if s == "" then ""
    else (if s[0] == '\'' then r else [s[0]]) + ReplaceQuotes(s[1..], r)
  }

  function ShellQuote(s: string): string {
    if s == "" then "''"
    else if !ContainsAny(s, SPECIAL) then s
    else "'" + ReplaceQuotes(s, "'\\''") + "'"
  }

  /** The strings among the items. */
  function Strings(items: seq<Value>): seq<string> {
    if items == [] then []
    else (if items[0].Str? then [items[0].s] else []) + Strings(items[1..])
  }

  function Quoted(args: seq<string>): (r: seq<string>)
    ensures |r| == |args| && forall i | 0 <= i < |args| :: r[i] == ShellQuote(args[i])
  {
    seq(|args|, i requires 0 <= i < |args| => ShellQuote(args[i]))
  }

  function Command(args: seq<string>): string {
    Join(Quoted(args), " ")
  }

  function Flattened(v: seq<Value>): seq<string> {
    if v == [] then []
    else
      var rest := Flattened(v[1..]);
      match v[0]
      case Str(s) => [s] + rest
      case List(items) => [Command(Strings(items))] + rest
      case Other => rest
  }

  lemma {:induction false} FlattenedSnoc(v: seq<Value>, x: Value)
    ensures Flattened(v + [x]) == Flattened(v) + Flattened([x])
    decreases v
  {
    assert [x][1..] == [];
    if v == [] {
      assert v + [x] == [x];
    } else {
      assert (v + [x])[1..] == v[1..] + [x];
      FlattenedSnoc(v[1..], x);
    }
  }

  lemma {:induction false} StringsSnoc(v: seq<Value>, x: Value)
    ensures Strings(v + [x]) == Strings(v) + if x.Str? then [x.s] else []
    decreases v
  {
    var e := if x.Str? then [x.s] else [];
    if v == [] {
      assert v + [x] == [x] && [x][1..] == [];
    } else {
      var f := if v[0].Str? then [v[0].s] else [];
      assert (v + [x])[1..] == v[1..] + [x];
      StringsSnoc(v[1..], x);
      assert f + (Strings(v[1..]) + e) == (f + Strings(v[1..])) + e;
    }
  }

  /** One list entry: its strings quoted and joined. */
  method FlattenEntry(x: seq<Value>) returns (cmd: string)
    ensures cmd == Command(Strings(x))
  {
    var parts: seq<string> := [];
    for j := 0 to |x|
      invariant parts == Quoted(Strings(x[..j]))
    {
      StringsSnoc(x[..j], x[j]);
      assert x[..j + 1] == x[..j] + [x[j]];
      if x[j].Str? {
        parts := parts + [ShellQuote(x[j].s)];
      }
    }
    assert x[..|x|] == x;
    cmd := Join(parts, " ");
  }

  method FlattenRunCmd(v: seq<Value>) returns (out: seq<string>)
    ensures out == Flattened(v)
  {
    out := [];
    for i := 0 to |v|
      invariant out == Flattened(v[..i])
    {
      FlattenedSnoc(v[..i], v[i]);
      assert v[..i + 1] == v[..i] + [v[i]];
      assert [v[i]][1..] == [];
      match v[i] {
        case Str(x) =>
          out := out + [x];
        case List(x) =>
          var cmd := FlattenEntry(x);
          out := out + [cmd];
        case Other =>
      }
    }
    assert v[..|v|] == v;
  }

  // ---- the reader ----------------------------------------------------------------------

  /** A character of a word, with whether it is quoted. */
  datatype Mark = Mark(c: char, quoted: bool)
  datatype Token = Word(marks: seq<Mark>) | Operator(text: string)

  /** What the reader is inside of: nothing quoted, an escape, '...', "...", an escape in "...",
      an operator being extended, or a comment. */
  datatype Mode = Plain | Escape | Single | Double | DoubleEscape | InOperator(op: string) | Comment

  /** word is the token being built, if one has begun. */
  datatype State = State(done: seq<Token>, word: Option<seq<Mark>>, mode: Mode)

  predicate IsOperator(s: string) {
    s in {"&", "&&", "|", "||", ";", ";;", "<", ">", "<<", ">>", "<&", ">&", "<>", "<<-", ">|", "(", ")", "\n"}
  }

  function Delimited(st: State): State {
    match st.word
    case None => st
    case Some(w) => State(st.done + [Word(w)], None, st.mode)
  }

  function Extended(st: State, c: char, quoted: bool): State {
    st.(word := Some((if st.word.Some? then st.word.value else []) + [Mark(c, quoted)]),
        mode := if quoted then st.mode else Plain)
  }

  /** A quote begins or continues a word without adding a character to it. */
  function Opened(st: State, mode: Mode): State {
    st.(word := Some(if st.word.Some? then st.word.value else []), mode := mode)
  }

  /** The rules of section 2.3 outside quotes, in their order, but for the one on an unquoted $ or
      backquote: such a character is kept as an unquoted one of the word. No printed command has one. */
  function PlainStep(st: State, c: char): State {
    if c == '\\' then st.(mode := Escape)
    else if c == '\'' then Opened(st, Single)
    else if c == '"' then Opened(st, Double)
    else if IsOperator([c]) then Delimited(st).(mode := InOperator([c]))
    else if c == ' ' || c == '\t' then Delimited(st)
    else if st.word.None? && c == '#' then st.(mode := Comment)
    else Extended(st, c, false)
  }

  function Step(st: State, c: char): State {
    match st.mode
    case Plain => PlainStep(st, c)
    case Escape =>
      if c == '\n' then st.(mode := Plain)  // a line continuation
      else Extended(st, c, true).(mode := Plain)
    case Single => if c == '\'' then st.(mode := Plain) else Extended(st, c, true)
    case Double =>
      if c == '"' then st.(mode := Plain)
      else if c == '\\' then st.(mode := DoubleEscape)
      else if c == '$' || c == '`' then Extended(st, c, false).(mode := Double)  // still expanded
      else Extended(st, c, true)
    case DoubleEscape =>
      if c == '\n' then st.(mode := Double)
      else if c in "$`\"\\" then Extended(st, c, true).(mode := Double)
      else Extended(Extended(st, '\\', true), c, true).(mode := Double)
    case InOperator(op) =>
      if IsOperator(op + [c]) then st.(mode := InOperator(op + [c]))
      else PlainStep(State(st.done + [Operator(op)], None, Plain), c)
    case Comment => if c == '\n' then st.(mode := InOperator("\n")) else st
  }

  function Read(st: State, s: string): State
    decreases |s|
  {
    if s == "" then st else Read(Step(st, s[0]), s[1..])
  }

  /** None when the input ends inside quotes or after a backslash. */
  function Tokens(s: string): Option<seq<Token>> {
    var st := Read(State([], None, Plain), s);
    match st.mode
    case Plain => Some(Delimited(st).done)
    case Comment => Some(st.done)
    case InOperator(op) => Some(st.done + [Operator(op)])
    case _ => None
  }

  function Unquoted(w: seq<Mark>): (r: string)
    ensures |r| == |w| && forall i | 0 <= i < |w| :: r[i] == w[i].c
  {
    seq(|w|, i requires 0 <= i < |w| => w[i].c)
  }

  /** Nothing in the word is left for the expansions: no parameter, command or arithmetic
      expansion, no pattern, no tilde prefix, no brace or history special. */
  predicate Inert(w: seq<Mark>) {
    forall m | m in w && !m.quoted :: m.c !in "$`*?[]~{}!"
  }

  /** The command is exactly the given words: quote removal gives them back, and nothing else
      happens to them. */
  predicate ReadsAs(t: Option<seq<Token>>, args: seq<string>) {
    t.Some? && |t.value| == |args| &&
    forall i | 0 <= i < |args| :: t.value[i].Word? && Unquoted(t.value[i].marks) == args[i] && Inert(t.value[i].marks)
  }

  // ---- the reader inverts the printer --------------------------------------------------

  lemma {:induction false} ReadAppend(st: State, a: string, b: string)
    ensures Read(st, a + b) == Read(Read(st, a), b)
    decreases |a|
  {
    if a == "" {
      assert a + b == b;
    } else {
      assert (a + b)[1..] == a[1..] + b;
      ReadAppend(Step(st, a[0]), a[1..], b);
    }
  }

  function Marked(s: string, quoted: bool): (r: seq<Mark>)
    ensures |r| == |s| && forall i | 0 <= i < |s| :: r[i] == Mark(s[i], quoted)
  {
    seq(|s|, i requires 0 <= i < |s| => Mark(s[i], quoted))
  }

  lemma MarkedSnoc(w: seq<Mark>, s: string, quoted: bool)
    requires s != ""
    ensures w + Marked(s, quoted) == (w + [Mark(s[0], quoted)]) + Marked(s[1..], quoted)
  {
  }

  function Begun(st: State): seq<Mark> {
    if st.word.Some? then st.word.value else []
  }

  /** Characters that need no quoting go into the word one by one. */
  lemma {:induction false} ReadBare(st: State, s: string)
    requires st.mode.Plain? && s != "" && !ContainsAny(s, SPECIAL)
    ensures Read(st, s) == State(st.done, Some(Begun(st) + Marked(s, false)), Plain)
    decreases |s|
  {
    var c := s[0];
    BareChar(s);
    assert Step(st, c) == Extended(st, c, false);
    MarkedSnoc(Begun(st), s, false);
    if |s| == 1 {
      var w := Begun(st) + [Mark(c, false)];
      assert s[1..] == "" && w + Marked("", false) == w;
    } else {
      ReadBare(Step(st, c), s[1..]);
    }
  }

  lemma BareChar(s: string)
    requires s != "" && !ContainsAny(s, SPECIAL)
    ensures s[0] !in SPECIAL && !IsOperator([s[0]]) && !ContainsAny(s[1..], SPECIAL)
    ensures var c := s[0]; c != '\\' && c != '\'' && c != '"' && c != ' ' && c != '\t' && c != '#'
  {
    var c := s[0];
    assert c in s && forall x :: x in s[1..] ==> x in s;
    assert SPECIAL[3] == '\'' && SPECIAL[0] == ' ' && SPECIAL[1] == '\t' && SPECIAL[2] == '\n'
           && SPECIAL[4] == '"' && SPECIAL[5] == '\\';
    assert SPECIAL[12] == '&' && SPECIAL[13] == ';' && SPECIAL[14] == '|' && SPECIAL[15] == '<' && SPECIAL[16] == '>';
    assert SPECIAL[17] == '(' && SPECIAL[18] == ')' && SPECIAL[21] == '#';
    forall o: string | |o| == 1 && IsOperator(o) ensures o[0] in SPECIAL {
    }
  }

  /** Inside single quotes every character is taken as it is; a quote is closed, escaped and
      opened again. */
  lemma {:induction false} ReadSingle(st: State, s: string)
    requires st.mode.Single? && st.word.Some?
    ensures Read(st, ReplaceQuotes(s, "'\\''")) == State(st.done, Some(st.word.value + Marked(s, true)), Single)
    decreases |s|
  {
    if s == "" {
      assert st.word.value + Marked(s, true) == st.word.value;
    } else {
      var p := if s[0] == '\'' then "'\\''" else [s[0]];
      var st' := State(st.done, Some(st.word.value + [Mark(s[0], true)]), Single);
      ReadAppend(st, p, ReplaceQuotes(s[1..], "'\\''"));
      ReadOneQuoted(st, s[0]);
      MarkedSnoc(st.word.value, s, true);
      ReadSingle(st', s[1..]);
    }
  }

  lemma ReadOneQuoted(st: State, c: char)
    requires st.mode.Single? && st.word.Some?
    ensures Read(st, if c == '\'' then "'\\''" else [c])
            == State(st.done, Some(st.word.value + [Mark(c, true)]), Single)
  {
    if c == '\'' {
      var a := Step(st, '\'');
      var b := Step(a, '\\');
      var d := Step(b, '\'');
      var s := "'\\''";
      assert s[1..] == "\\''" && s[1..][1..] == "''" && s[1..][1..][1..] == "'" && s[1..][1..][1..][1..] == "";
      assert Read(st, s) == Read(a, s[1..]) == Read(b, s[1..][1..]) == Read(d, s[1..][1..][1..]);
      assert Read(d, "'") == Step(d, '\'');
    } else {
      assert [c][1..] == "";
    }
  }

  /** The word the reader builds from a printed argument. */
  function WordOf(s: string): seq<Mark> {
    Marked(s, ContainsAny(s, SPECIAL))
  }

  lemma ReadOpening(st: State, rest: string)
    requires st.mode.Plain?
    ensures Read(st, ['\''] + rest) == Read(Opened(st, Single), rest)
  {
    assert Step(st, '\'') == Opened(st, Single);
    ReadCons(st, '\'', rest);
  }

  lemma ReadClosing(st: State)
    requires st.mode.Single?
    ensures Read(st, ['\'']) == st.(mode := Plain)
  {
    assert ['\''][1..] == "";
  }

  lemma ReadQuoted(st: State, s: string)
    requires st.mode.Plain? && st.word.None?
    ensures Read(st, ShellQuote(s)) == State(st.done, Some(WordOf(s)), Plain)
  {
    hide Read, Step, ReplaceQuotes, ContainsAny;
    var a, body := Opened(st, Single), ReplaceQuotes(s, "'\\''");
    if s != "" && !ContainsAny(s, SPECIAL) {
      ReadBare(st, s);
      assert [] + Marked(s, false) == Marked(s, false);
    } else if s != "" {
      assert "'" + body + "'" == ['\''] + (body + ['\'']);
      ReadOpening(st, body + ['\'']);
      ReadAppend(a, body, ['\'']);
      ReadSingle(a, s);
      assert [] + Marked(s, true) == Marked(s, true);
      ReadClosing(Read(a, body));
    } else {
      assert "''" == ['\''] + ['\''];
      ReadOpening(st, ['\'']);
      ReadClosing(a);
      assert WordOf("") == [];
    }
  }

  lemma ReadCons(st: State, c: char, rest: string)
    ensures Read(st, [c] + rest) == Read(Step(st, c), rest)
  {
    assert ([c] + rest)[1..] == rest;
  }

  function Words(args: seq<string>): (r: seq<Token>)
    ensures |r| == |args| && forall i | 0 <= i < |args| :: r[i] == Word(WordOf(args[i]))
  {
    seq(|args|, i requires 0 <= i < |args| => Word(WordOf(args[i])))
  }

  lemma {:induction false} ReadCommand(st: State, args: seq<string>)
    requires st.mode.Plain? && st.word.None?
    ensures var r := Read(st, Command(args)); r.mode.Plain? && Delimited(r).done == st.done + Words(args)
    decreases args
  {
    if args == [] {
      assert st.done + [] == st.done;
    } else if |args| == 1 {
      ReadQuoted(st, args[0]);
      assert Words(args) == [Word(WordOf(args[0]))];
    } else {
      var st' := State(st.done + [Word(WordOf(args[0]))], None, Plain);
      CommandCons(args);
      ReadFirst(st, args[0], Command(args[1..]));
      ReadCommand(st', args[1..]);
      WordsCons(st.done, args);
    }
  }

  lemma CommandCons(args: seq<string>)
    requires |args| > 1
    ensures Command(args) == ShellQuote(args[0]) + " " + Command(args[1..])
  {
    assert Quoted(args)[1..] == Quoted(args[1..]);
  }

  lemma WordsCons(done: seq<Token>, args: seq<string>)
    requires args != []
    ensures done + Words(args) == done + [Word(WordOf(args[0]))] + Words(args[1..])
  {
    assert Words(args) == [Word(WordOf(args[0]))] + Words(args[1..]);
  }

  /** A blank ends the word. */
  lemma ReadBlank(st: State, rest: string)
    requires st.mode.Plain?
    ensures Read(st, [' '] + rest) == Read(Delimited(st), rest)
  {
    assert Step(st, ' ') == Delimited(st);
    ReadCons(st, ' ', rest);
  }

  /** A printed argument and the blank after it make one whole word. */
  lemma ReadFirst(st: State, s: string, rest: string)
    requires st.mode.Plain? && st.word.None?
    ensures Read(st, ShellQuote(s) + " " + rest) == Read(State(st.done + [Word(WordOf(s))], None, Plain), rest)
  {
    hide Read, Step, ShellQuote, WordOf;
    var q := ShellQuote(s);
    assert q + " " + rest == q + ([' '] + rest);
    ReadQuoted(st, s);
    ReadAppend(st, q, [' '] + rest);
    ReadBlank(State(st.done, Some(WordOf(s)), Plain), rest);
  }

  lemma CommandTokens(args: seq<string>)
    ensures Tokens(Command(args)) == Some(Words(args))
  {
    ReadCommand(State([], None, Plain), args);
    assert [] + Words(args) == Words(args);
  }

  /** Reading a printed list of arguments gives back the list: no word is split, merged, expanded
      or lost. */
  lemma CommandReadsBack(args: seq<string>)
    ensures ReadsAs(Tokens(Command(args)), args)
  {
    CommandTokens(args);
    forall i | 0 <= i < |args|
      ensures Unquoted(WordOf(args[i])) == args[i] && Inert(WordOf(args[i]))
    {
      WordIsInert(args[i]);
    }
  }

  lemma WordIsInert(s: string)
    ensures Unquoted(WordOf(s)) == s && Inert(WordOf(s))
  {
    assert SPECIAL[6] == '$' && SPECIAL[7] == '`' && SPECIAL[8] == '*' && SPECIAL[9] == '?' && SPECIAL[10] == '[';
    assert SPECIAL[11] == ']' && SPECIAL[19] == '{' && SPECIAL[20] == '}' && SPECIAL[22] == '~' && SPECIAL[23] == '!';
    var w := WordOf(s);
    forall m | m in w && !m.quoted ensures m.c !in "$`*?[]~{}!" {
      var i :| 0 <= i < |w| && w[i] == m;
      assert s[i] in s;
    }
  }

  lemma {:induction false} StringsAppend(a: seq<Value>, b: seq<Value>)
    ensures Strings(a + b) == Strings(a) + Strings(b)
    decreases a
  {
    if a == [] {
      assert a + b == b;
    } else {
      assert (a + b)[1..] == a[1..] + b;
      StringsAppend(a[1..], b);
      var f := if a[0].Str? then [a[0].s] else [];
      assert f + (Strings(a[1..]) + Strings(b)) == (f + Strings(a[1..])) + Strings(b);
    }
  }

  /** The arguments of a list entry: its strings, each kept, in order; nothing else. */
  lemma StringsAre(a: seq<Value>, x: Value, b: seq<Value>)
    ensures Strings([]) == []
    ensures Strings(a + ([x] + b)) == Strings(a) + (if x.Str? then [x.s] else []) + Strings(b)
  {
    StringsAppend(a, [x] + b);
    StringsAppend([x], b);
    assert [x][1..] == [];
    var e := if x.Str? then [x.s] else [];
    assert Strings(a) + (e + Strings(b)) == Strings(a) + e + Strings(b);
  }

  lemma {:induction false} FlattenedAppend(a: seq<Value>, b: seq<Value>)
    ensures Flattened(a + b) == Flattened(a) + Flattened(b)
    decreases b
  {
    if b == [] {
      assert a + b == a && Flattened(a) + [] == Flattened(a);
    } else {
      var n := |b| - 1;
      assert a + b == (a + b[..n]) + [b[n]] && b == b[..n] + [b[n]];
      FlattenedAppend(a, b[..n]);
      FlattenedSnoc(a + b[..n], b[n]);
      FlattenedSnoc(b[..n], b[n]);
      var x, y, z := Flattened(a), Flattened(b[..n]), Flattened([b[n]]);
      assert x + y + z == x + (y + z);
    }
  }

  /** What one entry gives: a string itself, a list one command that reads back as its strings,
      anything else nothing. */
  lemma EntryReadsBack(x: Value)
    ensures var f := Flattened([x]);
            match x
            case Str(s) => f == [s]
            case List(items) => |f| == 1 && ReadsAs(Tokens(f[0]), Strings(items))
            case Other => f == []
  {
    hide ReadsAs, Tokens, Command, Strings;
    assert [x][1..] == [];
    if x.List? {
      CommandReadsBack(Strings(x.items));
    }
  }

  /** And the commands of a runcmd are those of its entries, in order. */
  lemma FlattenedReadsBack(a: seq<Value>, x: Value, b: seq<Value>)
    ensures Flattened([]) == []
    ensures Flattened(a + ([x] + b)) == Flattened(a) + Flattened([x]) + Flattened(b)
    ensures x.List? ==> |Flattened([x])| == 1 && ReadsAs(Tokens(Flattened([x])[0]), Strings(x.items))
    ensures x.Str? ==> Flattened([x]) == [x.s]
    ensures x.Other? ==> Flattened([x]) == []
  {
    hide ReadsAs, Tokens, Command, Strings;
    FlattenedAppend(a, [x] + b);
    FlattenedAppend([x], b);
    EntryReadsBack(x);
    assert Flattened(a) + (Flattened([x]) + Flattened(b)) == Flattened(a) + Flattened([x]) + Flattened(b);
  }

  /** Two argument lists never print the same command. */
  lemma CommandIsInjective(a: seq<string>, b: seq<string>)
    requires Command(a) == Command(b)
    ensures a == b
  {
    CommandReadsBack(a);
    CommandReadsBack(b);
  }
}
