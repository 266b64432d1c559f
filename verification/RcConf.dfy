/** NetBSD's rewrite of the hostname line in /etc/rc.conf. */
module RcConf {
  import opened Text

  predicate IsBlank(c: char) { c == ' ' || c == '\t' }

  const KEY := "hostname="

  predicate IsHostnameLine(l: string) {
    KEY <= TrimLeft(l, IsBlank)
  }

  function Rewritten(l: string, name: string): string {
    if IsHostnameLine(l) then KEY + name else l
  }

  predicate HasHostname(ls: seq<string>) {
    exists l | l in ls :: IsHostnameLine(l)
  }

  function RewriteAll(ls: seq<string>, name: string): (r: seq<string>)
    ensures |r| == |ls| && forall i | 0 <= i < |ls| :: r[i] == Rewritten(ls[i], name)
  {
    seq(|ls|, i requires 0 <= i < |ls| => Rewritten(ls[i], name))
  }

  /** The lines of the new file: every hostname line replaced, one appended if there was none. */
  function NewLines(ls: seq<string>, name: string): seq<string> {
    RewriteAll(ls, name) + if HasHostname(ls) then [] else [KEY + name]
  }

  function Rewrite(existing: string, name: string): string {
    Unlines(NewLines(ScanLines(existing), name))
  }

  /** rewriteRcConfHostname on the text of the file; wrote is false on the no-op exit. */
  method RewriteHostname(existing: string, name: string) returns (out: string, wrote: bool)
    ensures out == Rewrite(existing, name)
    ensures wrote <==> out != existing
  {
    var wanted := KEY + name;
    out := "";
    var replaced := false;
    var lines := ScanLines(existing);
    for i := 0 to |lines|
      invariant out == Unlines(RewriteAll(lines[..i], name))
      invariant replaced <==> HasHostname(lines[..i])
    {
      var line := lines[i];
      var trimmed := TrimLeft(line, IsBlank);
      Snoc(lines, i, name);
      if KEY <= trimmed {
        if line == wanted {
          out := out + (line + "\n");
        } else {
          out := out + (wanted + "\n");
        }
        replaced := true;
      } else {
        out := out + (line + "\n");
      }
    }
    assert lines[..|lines|] == lines;
    var r := RewriteAll(lines, name);
    if !replaced {
      out := out + (wanted + "\n");
      assert (r + [wanted])[..|r|] == r;
    } else {
      assert r + [] == r;
    }
    wrote := existing != out;
  }

  lemma Snoc(ls: seq<string>, i: nat, name: string)
    requires i < |ls|
    ensures Unlines(RewriteAll(ls[..i + 1], name))
            == Unlines(RewriteAll(ls[..i], name)) + (Rewritten(ls[i], name) + "\n")
    ensures HasHostname(ls[..i + 1]) <==> HasHostname(ls[..i]) || IsHostnameLine(ls[i])
  {
    var r := RewriteAll(ls[..i + 1], name);
    assert r[..i] == RewriteAll(ls[..i], name);
    assert ls[..i + 1] == ls[..i] + [ls[i]];
    assert ls[i] in ls[..i + 1];
  }

  // ---- what the rewrite does to the lines ----------------------------------------------

  lemma NewLinesAreOneLiners(existing: string, name: string)
    requires '\n' !in name
    ensures OneLiners(NewLines(ScanLines(existing), name))
  {
    LinesAreOneLiners(existing);
    var ls := Lines(existing);
    var sc := ScanLines(existing);
    forall i | 0 <= i < |sc| ensures '\n' !in sc[i] {
      assert '\n' !in ls[i];
      assert forall c :: c in DropCR(ls[i]) ==> c in ls[i];
    }
  }

  /** The rewritten file has exactly the new lines. */
  lemma RewriteLines(existing: string, name: string)
    requires '\n' !in name
    ensures Lines(Rewrite(existing, name)) == NewLines(ScanLines(existing), name)
  {
    NewLinesAreOneLiners(existing, name);
    LinesOfUnlines(NewLines(ScanLines(existing), name));
  }

  lemma WantedIsHostnameLine(name: string)
    ensures TrimLeft(KEY + name, IsBlank) == KEY + name && IsHostnameLine(KEY + name)
  {
    TrimLeftOf("", KEY + name, IsBlank);
    assert "" + (KEY + name) == KEY + name;
  }

  /** The lines that are not hostname lines, in order. */
  function Others(ls: seq<string>): seq<string> {
    if ls == [] then []
    else Others(ls[..|ls| - 1]) + if IsHostnameLine(ls[|ls| - 1]) then [] else [ls[|ls| - 1]]
  }

  lemma {:induction false} OthersSurvive(ls: seq<string>, name: string)
    ensures Others(RewriteAll(ls, name)) == Others(ls)
    decreases ls
  {
    if ls != [] {
      var n := |ls| - 1;
      WantedIsHostnameLine(name);
      assert RewriteAll(ls, name)[..n] == RewriteAll(ls[..n], name);
      OthersSurvive(ls[..n], name);
    }
  }

  /** What a shell reading the file assigns to hostname last. */
  function LastAssignment(ls: seq<string>): Option<string> {
    if ls == [] then None
    else if IsHostnameLine(ls[|ls| - 1]) then Some(TrimLeft(ls[|ls| - 1], IsBlank)[|KEY|..])
    else LastAssignment(ls[..|ls| - 1])
  }

  lemma {:induction false} LastAssignmentIs(ls: seq<string>, name: string)
    requires HasHostname(ls) && forall l | l in ls && IsHostnameLine(l) :: l == KEY + name
    ensures LastAssignment(ls) == Some(name)
    decreases ls
  {
    var n := |ls| - 1;
    WantedIsHostnameLine(name);
    assert ls == ls[..n] + [ls[n]];
    if !IsHostnameLine(ls[n]) {
      LastAssignmentIs(ls[..n], name);
    }
  }

  /** Every other line survives in order, every hostname line is the wanted one, and reading the
      file gives the name. */
  lemma RewriteIsFaithful(existing: string, name: string)
    requires '\n' !in name
    ensures var ls := Lines(Rewrite(existing, name));
            && Others(ls) == Others(ScanLines(existing))
            && (forall l | l in ls && IsHostnameLine(l) :: l == KEY + name)
            && LastAssignment(ls) == Some(name)
  {
    RewriteLines(existing, name);
    NewLinesAreFaithful(ScanLines(existing), name);
    LastAssignmentIs(NewLines(ScanLines(existing), name), name);
  }

  lemma NewLinesAreFaithful(sc: seq<string>, name: string)
    ensures var ls := NewLines(sc, name);
            Others(ls) == Others(sc) && HasHostname(ls) && forall l | l in ls && IsHostnameLine(l) :: l == KEY + name
  {
    var ls, r := NewLines(sc, name), RewriteAll(sc, name);
    OthersSurvive(sc, name);
    WantedIsHostnameLine(name);
    assert forall i | 0 <= i < |r| :: IsHostnameLine(r[i]) ==> r[i] == KEY + name;
    if HasHostname(sc) {
      assert ls == r;
      var l :| l in sc && IsHostnameLine(l);
      var i :| 0 <= i < |sc| && sc[i] == l;
      assert r[i] in ls;
    } else {
      assert ls[..|r|] == r && ls[|r|] == KEY + name;
      assert KEY + name in ls;
      assert Others(r) + [] == Others(r);
    }
  }

  /** A file without carriage returns is scanned as it is. */
  lemma NoCRScan(existing: string)
    requires '\r' !in existing
    ensures ScanLines(existing) == Lines(existing)
  {
    LinesHaveNoCR(existing);
    assert forall i | 0 <= i < |Lines(existing)| :: DropCR(Lines(existing)[i]) == Lines(existing)[i] by {
      forall i | 0 <= i < |Lines(existing)| ensures DropCR(Lines(existing)[i]) == Lines(existing)[i] {
        assert Lines(existing)[i] in Lines(existing);
      }
    }
  }

  lemma {:induction false} LinesHaveNoCR(s: string)
    requires '\r' !in s
    ensures forall l | l in Lines(s) :: '\r' !in l
    decreases |s|
  {
    if s != "" {
      LinesHaveNoCR(s[1..]);
    }
  }

  // ---- rewriting again -----------------------------------------------------------------

  /** No line that stays still ends in a carriage return after the scanner dropped one. */
  predicate SettledCR(ls: seq<string>) {
    forall i | 0 <= i < |ls| :: IsHostnameLine(ls[i]) || DropCR(ls[i]) == ls[i]
  }

  lemma DropCRKeepsHostname(l: string)
    ensures IsHostnameLine(DropCR(l)) ==> IsHostnameLine(l)
    ensures forall name :: l == KEY + name ==> IsHostnameLine(DropCR(l))
  {
    if l != "" && DropCR(l) != l {
      TrimLeftPrefix(DropCR(l), "\r");
      assert l == DropCR(l) + "\r";
      forall name | l == KEY + name ensures IsHostnameLine(DropCR(l)) {
        assert KEY + "" == KEY && KEY[8] == '=' && l[|l| - 1] == '\r';
        assert DropCR(l) == KEY + name[..|name| - 1];
        WantedIsHostnameLine(name[..|name| - 1]);
      }
    } else {
      forall name | l == KEY + name ensures IsHostnameLine(DropCR(l)) {
        WantedIsHostnameLine(name);
      }
    }
  }

  lemma {:induction false} TrimLeftPrefix(a: string, b: string)
    ensures TrimLeft(a, IsBlank) != "" ==> TrimLeft(a + b, IsBlank) == TrimLeft(a, IsBlank) + b
    decreases |a|
  {
    if a != "" && IsBlank(a[0]) {
      assert (a + b)[1..] == a[1..] + b;
      TrimLeftPrefix(a[1..], b);
    }
  }

  /** Rewriting again is byte-identical, and so writes nothing, exactly when no line that stays
      ends in a carriage return once scanned. */
  lemma RewriteTwice(existing: string, name: string)
    requires '\n' !in name
    ensures Rewrite(Rewrite(existing, name), name) == Rewrite(existing, name) <==> SettledCR(ScanLines(existing))
  {
    var out := Rewrite(existing, name);
    var sc := ScanLines(existing);
    var ls := NewLines(sc, name);
    RewriteLines(existing, name);
    RewriteLines(out, name);
    RewriteIsFaithful(existing, name);
    RescanLine(sc, out, name);
    if SettledCR(sc) {
      assert NewLines(ScanLines(out), name) == ls;
    } else {
      var i :| 0 <= i < |sc| && !IsHostnameLine(sc[i]) && DropCR(sc[i]) != sc[i];
      assert NewLines(ScanLines(out), name)[i] == DropCR(sc[i]) && ls[i] == sc[i];
    }
  }

  lemma RescanLine(sc: seq<string>, out: string, name: string)
    requires Lines(out) == NewLines(sc, name)
    ensures var ls, again := NewLines(sc, name), NewLines(ScanLines(out), name);
            && |again| == |ls|
            && forall i | 0 <= i < |ls| ::
                 again[i] == if i < |sc| && !IsHostnameLine(sc[i]) then DropCR(sc[i]) else KEY + name
  {
    var ls := NewLines(sc, name);
    var sc' := ScanLines(out);
    WantedIsHostnameLine(name);
    DropCRKeepsHostname(KEY + name);
    forall i | 0 <= i < |ls|
      ensures Rewritten(sc'[i], name) == if i < |sc| && !IsHostnameLine(sc[i]) then DropCR(sc[i]) else KEY + name
    {
      DropCRKeepsHostname(ls[i]);
    }
    HasHostnameAfter(sc, sc', name);
  }

  lemma HasHostnameAfter(sc: seq<string>, sc': seq<string>, name: string)
    requires |sc'| == |NewLines(sc, name)|
    requires forall i | 0 <= i < |sc'| :: sc'[i] == DropCR(NewLines(sc, name)[i])
    ensures HasHostname(sc')
  {
    DropCRKeepsHostname(KEY + name);
    var i := |sc'| - 1;
    if HasHostname(sc) {
      var l :| l in sc && IsHostnameLine(l);
      i :| 0 <= i < |sc| && sc[i] == l;
    }
    assert NewLines(sc, name)[i] == KEY + name;
    assert sc'[i] in sc' && IsHostnameLine(sc'[i]);
  }

  /** A line that ends in two carriage returns loses one per rewrite. */
  lemma TwoCarriageReturns()
    ensures Rewrite(Rewrite("x\r\r\n", "host"), "host") != Rewrite("x\r\r\n", "host")
  {
    var l := "x\r\r";
    LinesOfOne(l);
    assert l + "\n" == "x\r\r\n";
    var sc := ScanLines("x\r\r\n");
    assert sc[0] == "x\r" && DropCR(sc[0]) == "x";
    assert TrimLeft(sc[0], IsBlank) == sc[0] && sc[0][0] == 'x' && KEY[0] == 'h';
    RewriteTwice("x\r\r\n", "host");
  }

  // ---- told without the rewriter's own test --------------------------------------------

  /** The line is blanks, then "hostname=", then a value. */
  predicate AssignsHostname(l: string, lead: string, value: string) {
    (forall c | c in lead :: c == ' ' || c == '\t') && l == lead + ("hostname=" + value)
  }

  lemma HostnameLineIff(l: string)
    ensures IsHostnameLine(l) <==> exists lead, value :: AssignsHostname(l, lead, value)
    ensures forall lead, value | AssignsHostname(l, lead, value) :: TrimLeft(l, IsBlank)[|KEY|..] == value
  {
    hide TrimLeft;
    var lead := TrimLeftTrims(l, IsBlank);
    if IsHostnameLine(l) {
      var rest := TrimLeft(l, IsBlank);
      assert AssignsHostname(l, lead, rest[|KEY|..]);
    }
    forall lead, value | AssignsHostname(l, lead, value)
      ensures TrimLeft(l, IsBlank) == "hostname=" + value
    {
      TrimLeftOf(lead, "hostname=" + value, IsBlank);
    }
  }

  /** A line of the usual form. */
  datatype Setting = Setting(key: string, value: string)

  predicate Plain(s: Setting) {
    && s.key != "" && !IsBlank(s.key[0]) && '=' !in s.key
    && '\n' !in s.key && '\n' !in s.value && '\r' !in s.key && '\r' !in s.value
  }

  function SettingLine(s: Setting): string {
    s.key + ("=" + s.value)
  }

  function SettingLines(ss: seq<Setting>): (r: seq<string>)
    ensures |r| == |ss| && forall i | 0 <= i < |ss| :: r[i] == SettingLine(ss[i])
  {
    seq(|ss|, i requires 0 <= i < |ss| => SettingLine(ss[i]))
  }

  /** It assigns hostname exactly when that is its key. */
  lemma SettingIsHostname(s: Setting)
    requires Plain(s)
    ensures IsHostnameLine(SettingLine(s)) <==> s.key == "hostname"
  {
    hide Split, TrimLeft;
    var l := SettingLine(s);
    NothingToTrim(l);
    FirstPiece(s.key, s.value);
    if KEY <= l {
      KeyAndValue(l);
      FirstPiece("hostname", l[|KEY|..]);
    }
  }

  lemma NothingToTrim(l: string)
    requires l != "" && !IsBlank(l[0])
    ensures TrimLeft(l, IsBlank) == l
  {
  }

  lemma KeyAndValue(l: string)
    requires KEY <= l
    ensures l == "hostname" + ("=" + l[|KEY|..]) && '=' !in "hostname"
  {
    assert l == KEY + l[|KEY|..];
  }

  /** What stands before the first equals sign. */
  lemma FirstPiece(a: string, b: string)
    requires '=' !in a
    ensures Split(a + ("=" + b), '=')[0] == a
  {
    SplitAt(a, b, '=');
    SplitWhole(a, '=');
  }

  predicate SetsHostname(ss: seq<Setting>) {
    exists s | s in ss :: s.key == "hostname"
  }

  /** Over a file of settings: each one with another key survives in its place, each hostname gets the
      name, and one is added at the end if there was none. */
  lemma SettingsRewritten(ss: seq<Setting>, name: string)
    requires (forall s | s in ss :: Plain(s)) && '\n' !in name
    ensures var after := Lines(Rewrite(Unlines(SettingLines(ss)), name));
            && |after| == |ss| + (if SetsHostname(ss) then 0 else 1)
            && (forall i | 0 <= i < |ss| ::
                  after[i] == if ss[i].key == "hostname" then "hostname=" + name else SettingLine(ss[i]))
            && (!SetsHostname(ss) ==> after[|ss|] == "hostname=" + name)
  {
    var ls := SettingLines(ss);
    forall i | 0 <= i < |ls|
      ensures '\n' !in ls[i] && DropCR(ls[i]) == ls[i] && (IsHostnameLine(ls[i]) <==> ss[i].key == "hostname")
    {
      assert ss[i] in ss;
      SettingIsHostname(ss[i]);
    }
    LinesOfUnlines(ls);
    var existing := Unlines(ls);
    assert ScanLines(existing) == ls;
    RewriteLines(existing, name);
    if SetsHostname(ss) {
      var s :| s in ss && s.key == "hostname";
      var i :| 0 <= i < |ss| && ss[i] == s;
      assert ls[i] in ls;
    }
  }
}
