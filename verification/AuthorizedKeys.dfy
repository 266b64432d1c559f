/** The text of an authorized_keys file after AddAuthorizedKey, on each operating system. */
module AuthorizedKeys {
  import opened Text

  predicate HasLine(lines: seq<string>, t: string) {
    exists l | l in lines :: TrimSpace(l) == t
  }

  /** The text with t as a new last line, a cut-off last line being closed first. */
  function Appended(text: string, t: string): string {
    (if EndsLine(text) then text else text + "\n") + (t + "\n")
  }

  function AddLine(text: string, t: string): string {
    if HasLine(Split(text, '\n'), t) then text else Appended(text, t)
  }

  function LinuxAdd(text: string, key: string): string {
    AddLine(text, TrimSpace(key))
  }

  predicate IsNewline(c: char) { c == '\n' }

  function FreeBsdAdd(text: string, key: string): string {
    AddLine(text, TrimRight(key, IsNewline))
  }

  function NetBsdAdd(text: string, key: string): string {
    var t := TrimSpace(key);
    if HasLine(ScanLines(text), t) then text else text + (t + "\n")
  }

  // ---- the methods, loop by loop -------------------------------------------------------

  method FindLine(lines: seq<string>, t: string) returns (found: bool)
    ensures found == HasLine(lines, t)
  {
    for i := 0 to |lines|
      invariant !HasLine(lines[..i], t)
    {
      assert lines[..i + 1] == lines[..i] + [lines[i]];
      if TrimSpace(lines[i]) == t {
        return true;
      }
    }
    assert lines[..|lines|] == lines;
    return false;
  }

  /** The Linux text is built in a buffer. */
  method LinuxAddKey(existing: string, key: string) returns (buf: string, present: bool)
    ensures buf == LinuxAdd(existing, key)
    ensures present <==> HasLine(Split(existing, '\n'), TrimSpace(key))
  {
    var trimmed := TrimSpace(key);
    present := FindLine(Split(existing, '\n'), trimmed);
    if present {
      return existing, true;
    }
    buf := existing;
    if |existing| > 0 && existing[|existing| - 1] != '\n' {
      buf := buf + "\n";
    }
    buf := buf + trimmed;
    buf := buf + "\n";
    assert buf == Appended(existing, trimmed);
  }

  /** OpenBSD appends into the slice it read, after the same test: the Linux bytes. */
  method OpenBsdAddKey(existing: string, key: string) returns (buf: string)
    ensures buf == LinuxAdd(existing, key)
  {
    buf := existing;
    var trimmedKey := TrimSpace(key);
    var present := FindLine(Split(existing, '\n'), trimmedKey);
    if !present {
      if |buf| > 0 && buf[|buf| - 1] != '\n' {
        buf := buf + "\n";
      }
      buf := buf + (trimmedKey + "\n");
    }
  }

  method FreeBsdAddKey(existing: string, key: string) returns (buf: string)
    ensures buf == FreeBsdAdd(existing, key)
  {
    buf := existing;
    var trimmed := TrimRight(key, IsNewline);
    var present := FindLine(Split(existing, '\n'), trimmed);
    if !present {
      if |buf| > 0 && buf[|buf| - 1] != '\n' {
        buf := buf + "\n";
      }
      buf := buf + (trimmed + "\n");
    }
  }

  /** NetBSD opens the file for appending and writes only the key. */
  method NetBsdAddKey(existing: string, key: string) returns (file: string)
    ensures file == NetBsdAdd(existing, key)
  {
    file := existing;
    var keyTrim := TrimSpace(key);
    var present := FindLine(ScanLines(existing), keyTrim);
    if !present {
      file := file + (keyTrim + "\n");
    }
  }

  // ---- what an append does to the lines ------------------------------------------------

  lemma AppendedLines(text: string, t: string)
    requires '\n' !in t
    ensures Lines(Appended(text, t)) == Lines(text) + [t]
    ensures EndsLine(Appended(text, t))
  {
    LinesOfOne(t);
    var a := if EndsLine(text) then text else text + "\n";
    if !EndsLine(text) {
      LinesClosed(text);
    }
    LinesAppend(a, t + "\n");
  }

  /** Closing a cut-off last line changes no line. */
  lemma {:induction false} LinesClosed(text: string)
    requires !EndsLine(text)
    ensures Lines(text + "\n") == Lines(text)
  {
    assert (text + "\n")[1..] == text[1..] + "\n";
    if |text| == 1 {
      LinesOfOne(text);
      assert text == [text[0]] && Lines(text[1..]) == [];
    } else {
      LinesClosed(text[1..]);
    }
  }

  lemma HasLineSplit(text: string, t: string)
    ensures HasLine(Split(text, '\n'), t) <==> HasLine(Lines(text), t) || (t == "" && EndsLine(text))
  {
    SplitIsLines(text);
    TrimmedStays("");
    var e := if EndsLine(text) then [""] else [];
    assert forall l :: l in Lines(text) + e <==> l in Lines(text) || l in e;
  }

  lemma HasLineSnoc(lines: seq<string>, l: string, t: string)
    ensures HasLine(lines + [l], t) <==> HasLine(lines, t) || TrimSpace(l) == t
  {
    assert l in lines + [l];
    assert forall x :: x in lines + [l] <==> x in lines || x == l;
  }

  /** Every line keeps its place, and a one-line key ends up as a whole line of its own. */
  lemma LinuxAddKeepsLines(text: string, key: string)
    requires '\n' !in TrimSpace(key)
    ensures var r := LinuxAdd(text, key);
            && Lines(text) <= Lines(r) <= Lines(text) + [TrimSpace(key)]
            && HasLine(Split(r, '\n'), TrimSpace(key))
            && (r != text ==> Lines(r) == Lines(text) + [TrimSpace(key)] && EndsLine(r))
  {
    var t := TrimSpace(key);
    var l, e := TrimSpaceTrims(key);
    TrimmedStays(t);
    AddLineAdds(text, t);
    AppendedLines(text, t);
  }

  lemma AddLineAdds(text: string, t: string)
    requires '\n' !in t && TrimSpace(t) == t
    ensures HasLine(Split(AddLine(text, t), '\n'), t)
  {
    AppendedLines(text, t);
    HasLineSnoc(Lines(text), t, t);
    HasLineSplit(AddLine(text, t), t);
  }

  /** A line once there survives every later append. */
  lemma AddLineKeeps(text: string, t: string, kept: string)
    requires HasLine(Split(text, '\n'), kept)
    ensures HasLine(Split(AddLine(text, t), '\n'), kept)
  {
    var a := if EndsLine(text) then text else text + "\n";
    if !EndsLine(text) {
      LinesClosed(text);
    }
    LinesAppend(a, t + "\n");
    HasLineSplit(text, kept);
    HasLineSplit(AddLine(text, t), kept);
    assert forall l :: l in Lines(text) ==> l in Lines(text) + Lines(t + "\n");
  }

  /** No line of any file matches text with a newline in it, or with white space around it. */
  lemma NeverALine(text: string, t: string)
    requires '\n' in t || !Trimmed(t)
    ensures !HasLine(Split(text, '\n'), t)
  {
    SplitPiecesAreFree(text, '\n');
    forall l | l in Split(text, '\n') ensures TrimSpace(l) != t {
      TrimSpaceKeepsOut(l, '\n');
      var a, b := TrimSpaceTrims(l);
    }
  }

  /** Adding a line twice is adding it once exactly when it is one trimmed line. */
  lemma AddLineTwice(text: string, t: string)
    requires !HasLine(Split(text, '\n'), t)
    ensures AddLine(AddLine(text, t), t) == AddLine(text, t) <==> '\n' !in t && Trimmed(t)
  {
    if '\n' in t || !Trimmed(t) {
      NeverALine(Appended(text, t), t);
    } else {
      TrimmedStays(t);
      AddLineAdds(text, t);
    }
  }

  /** Linux, OpenBSD: re-adding a key is a no-op exactly when the trimmed key is one line. */
  lemma LinuxAddTwice(text: string, key: string)
    ensures LinuxAdd(LinuxAdd(text, key), key) == LinuxAdd(text, key)
            <==> '\n' !in TrimSpace(key)
  {
    var l, e := TrimSpaceTrims(key);
    if HasLine(Split(text, '\n'), TrimSpace(key)) {
      if '\n' in TrimSpace(key) {
        NeverALine(text, TrimSpace(key));
      }
    } else {
      AddLineTwice(text, TrimSpace(key));
    }
  }

  /** FreeBSD strips only newlines, so the key must also carry no white space around it. */
  lemma FreeBsdAddTwice(text: string, key: string)
    ensures var t := TrimRight(key, IsNewline);
            FreeBsdAdd(FreeBsdAdd(text, key), key) == FreeBsdAdd(text, key)
            <==> '\n' !in t && Trimmed(t)
  {
    var t := TrimRight(key, IsNewline);
    if HasLine(Split(text, '\n'), t) {
      if '\n' in t || !Trimmed(t) {
        NeverALine(text, t);
      }
    } else {
      AddLineTwice(text, t);
    }
  }

  function LinuxAddAll(text: string, keys: seq<string>): string
    decreases keys
  {
    if keys == [] then text else LinuxAddAll(LinuxAdd(text, keys[0]), keys[1..])
  }

  lemma {:induction false} LinuxAddAllKeeps(text: string, keys: seq<string>, t: string)
    requires HasLine(Split(text, '\n'), t)
    ensures HasLine(Split(LinuxAddAll(text, keys), '\n'), t)
    decreases keys
  {
    if keys != [] {
      AddLineKeeps(text, TrimSpace(keys[0]), t);
      LinuxAddAllKeeps(LinuxAdd(text, keys[0]), keys[1..], t);
    }
  }

  lemma {:induction false} LinuxAddAllAdds(text: string, keys: seq<string>)
    ensures forall k | k in keys && '\n' !in TrimSpace(k) :: HasLine(Split(LinuxAddAll(text, keys), '\n'), TrimSpace(k))
    decreases keys
  {
    if keys != [] && '\n' in TrimSpace(keys[0]) {
      LinuxAddAllAdds(LinuxAdd(text, keys[0]), keys[1..]);
    } else if keys != [] {
      LinuxAddKeepsLines(text, keys[0]);
      LinuxAddAllKeeps(LinuxAdd(text, keys[0]), keys[1..], TrimSpace(keys[0]));
      LinuxAddAllAdds(LinuxAdd(text, keys[0]), keys[1..]);
    }
  }

  /** A list of keys appended after a run that stopped part way through the same list. */
  lemma {:induction false} LinuxAddAllResumes(text: string, keys: seq<string>, k: nat)
    requires forall x | x in keys :: '\n' !in TrimSpace(x)
    requires k <= |keys|
    ensures LinuxAddAll(LinuxAddAll(text, keys[..k]), keys) == LinuxAddAll(text, keys)
  {
    var mid := LinuxAddAll(text, keys[..k]);
    LinuxAddAllAdds(text, keys[..k]);
    LinuxAddAllSkips(mid, keys, k);
    LinuxAddAllSplits(text, keys, k);
  }

  lemma {:induction false} LinuxAddAllSkips(text: string, keys: seq<string>, k: nat)
    requires k <= |keys|
    requires forall x | x in keys[..k] :: HasLine(Split(text, '\n'), TrimSpace(x))
    ensures LinuxAddAll(text, keys) == LinuxAddAll(text, keys[k..])
  {
    if k > 0 {
      assert keys[0] in keys[..k];
      assert forall x :: x in keys[1..][..k - 1] ==> x in keys[..k];
      LinuxAddAllSkips(text, keys[1..], k - 1);
      assert keys[1..][k - 1..] == keys[k..];
    }
  }

  lemma {:induction false} LinuxAddAllSplits(text: string, keys: seq<string>, k: nat)
    requires k <= |keys|
    ensures LinuxAddAll(text, keys) == LinuxAddAll(LinuxAddAll(text, keys[..k]), keys[k..])
    decreases keys
  {
    if k > 0 {
      LinuxAddAllSplits(LinuxAdd(text, keys[0]), keys[1..], k - 1);
      assert keys[1..][k - 1..] == keys[k..];
      assert keys[..k][1..] == keys[1..][..k - 1];
    }
  }

  predicate Listed(text: string, t: string) {
    HasLine(Split(text, '\n'), t)
  }

  predicate IsKey(keys: seq<string>, t: string) {
    exists k | k in keys :: TrimSpace(k) == t
  }

  /** The lines of a file after one-line keys were added: those it had, and the keys. */
  lemma {:induction false} LinuxAddAllLists(text: string, keys: seq<string>, t: string)
    requires forall k | k in keys :: '\n' !in TrimSpace(k)
    ensures Listed(text, t) ==> Listed(LinuxAddAll(text, keys), t)
    ensures t != "" ==> (Listed(LinuxAddAll(text, keys), t) <==> Listed(text, t) || IsKey(keys, t))
    decreases keys
  {
    if keys != [] {
      assert forall k :: k in keys <==> k == keys[0] || k in keys[1..];
      LinuxAddLists(text, keys[0], t);
      LinuxAddAllLists(LinuxAdd(text, keys[0]), keys[1..], t);
    }
  }

  lemma LinuxAddLists(text: string, key: string, t: string)
    requires '\n' !in TrimSpace(key)
    ensures Listed(text, t) ==> Listed(LinuxAdd(text, key), t)
    ensures t != "" ==> (Listed(LinuxAdd(text, key), t) <==> Listed(text, t) || TrimSpace(key) == t)
  {
    var k := TrimSpace(key);
    var lead, tail := TrimSpaceTrims(key);
    TrimmedStays(k);
    if !HasLine(Split(text, '\n'), k) {
      AppendedLines(text, k);
      HasLineSplit(text, t);
      HasLineSplit(LinuxAdd(text, key), t);
      HasLineSnoc(Lines(text), k, t);
    }
  }

  // ---- agreement between the operating systems -----------------------------------------

  /** FreeBSD writes the Linux bytes exactly when stripping newlines already trims the key. */
  lemma FreeBsdAgrees(text: string, key: string)
    ensures FreeBsdAdd(text, key) == LinuxAdd(text, key)
            <==> TrimRight(key, IsNewline) == TrimSpace(key)
  {
    var t, b := TrimSpace(key), TrimRight(key, IsNewline);
    if b != t {
      TrimRightStripsLess(key);
      NeverALine(text, b);
      assert FreeBsdAdd(text, key) == Appended(text, b);
      assert |Appended(text, b)| > |Appended(text, t)|;
    }
  }

  /** What is left after stripping newlines is longer than the trimmed key, if not equal to it. */
  lemma TrimRightStripsLess(key: string)
    requires TrimRight(key, IsNewline) != TrimSpace(key)
    ensures |TrimRight(key, IsNewline)| > |TrimSpace(key)|
    ensures !Trimmed(TrimRight(key, IsNewline))
  {
    var b := TrimRight(key, IsNewline);
    var nl := TrimRightTrims(key, IsNewline);
    var l, e := TrimSpaceTrims(b);
    assert AllSpace(e + nl);
    assert key == l + TrimSpace(b) + (e + nl);
    TrimSpaceOf(l, TrimSpace(b), e + nl);
    if Trimmed(b) {
      TrimmedStays(b);
    }
  }

  /** NetBSD writes the Linux bytes exactly when it finds the key, or has one to write and
      the file ends in a newline. */
  lemma NetBsdAgrees(text: string, key: string)
    ensures var t := TrimSpace(key);
            NetBsdAdd(text, key) == LinuxAdd(text, key)
            <==> HasLine(ScanLines(text), t) || (t != "" && EndsLine(text))
  {
    var t := TrimSpace(key);
    ScanFinds(text, t);
    HasLineSplit(text, t);
    if !HasLine(ScanLines(text), t) {
      assert NetBsdAdd(text, key) == text + (t + "\n");
    }
  }

  lemma ScanFinds(text: string, t: string)
    ensures HasLine(ScanLines(text), t) <==> HasLine(Lines(text), t)
  {
    var l := Lines(text);
    forall i | 0 <= i < |l| ensures TrimSpace(DropCR(l[i])) == TrimSpace(l[i]) {
      DropCRTrims(l[i]);
    }
    if HasLine(l, t) {
      var x :| x in l && TrimSpace(x) == t;
      var i :| 0 <= i < |l| && l[i] == x;
      assert ScanLines(text)[i] in ScanLines(text);
    }
  }

  lemma DropCRTrims(l: string)
    ensures TrimSpace(DropCR(l)) == TrimSpace(l)
  {
    var a, b := TrimSpaceTrims(DropCR(l));
    var t := TrimSpace(DropCR(l));
    if DropCR(l) != l {
      assert l == a + t + (b + "\r");
      TrimSpaceOf(a, t, b + "\r");
    }
  }

  /** What follows the last newline. */
  function LastPart(text: string): string {
    if text == "" || text[|text| - 1] == '\n' then "" else LastPart(text[..|text| - 1]) + [text[|text| - 1]]
  }

  lemma {:induction false} CutLastPart(text: string) returns (a: string)
    ensures text == a + LastPart(text) && EndsLine(a) && '\n' !in LastPart(text)
  {
    a := text;
    if !EndsLine(text) {
      a := CutLastPart(text[..|text| - 1]);
    }
  }

  lemma TrimSpaceGlued(l: string, t: string)
    requires Trimmed(t)
    ensures TrimSpace(l + t) == t <==> AllSpace(l)
  {
    if AllSpace(l) {
      TrimSpaceOf(l, t, "");
      assert l + t + "" == l + t;
    }
    if TrimSpace(l + t) == t {
      var lead, tail := TrimSpaceTrims(l + t);
      if t == "" {
        assert l + t == l && lead + t + tail == lead + tail;
      } else {
        assert (l + t)[|l + t| - 1] == t[|t| - 1];
        SpaceAtEnd(lead + t, tail);
        assert l + t == lead + t;
        assert l == (l + t)[..|l|] == lead;
      }
    }
  }

  lemma SpaceAtEnd(s: string, tail: string)
    ensures tail != "" && AllSpace(tail) ==> IsSpace((s + tail)[|s + tail| - 1])
  {
    if tail != "" {
      assert tail[|tail| - 1] in tail;
    }
  }

  /** NetBSD: re-adding a key is a no-op exactly when the key was there already, or is one line
      and was not glued to the text of a cut-off last line. */
  lemma NetBsdAddTwice(text: string, key: string)
    ensures var t := TrimSpace(key);
            NetBsdAdd(NetBsdAdd(text, key), key) == NetBsdAdd(text, key)
            <==> HasLine(ScanLines(text), t) || ('\n' !in t && AllSpace(LastPart(text)))
  {
    var t := TrimSpace(key);
    var k0, k1 := TrimSpaceTrims(key);
    ScanFinds(text, t);
    ScanFinds(text + (t + "\n"), t);
    if HasLine(Lines(text), t) {
    } else if '\n' in t {
      NeverALine(text + (t + "\n"), t);
      HasLineSplit(text + (t + "\n"), t);
    } else {
      NetBsdFindsGlued(text, t);
    }
  }

  lemma GluedText(a: string, l: string, t: string)
    ensures (a + l) + (t + "\n") == a + (l + t + "\n")
  {
  }

  lemma NetBsdFindsGlued(text: string, t: string)
    requires '\n' !in t && Trimmed(t) && !HasLine(Lines(text), t)
    ensures HasLine(Lines(text + (t + "\n")), t) <==> AllSpace(LastPart(text))
  {
    var a := CutLastPart(text);
    var l := LastPart(text);
    GluedText(a, l, t);
    LinesAppend(a, l + t + "\n");
    LinesOfOne(l + t);
    HasLineSnoc(Lines(a), l + t, t);
    NotInPrefix(a, l, t);
    TrimSpaceGlued(l, t);
  }

  lemma NotInPrefix(a: string, l: string, t: string)
    requires EndsLine(a) && !HasLine(Lines(a + l), t)
    ensures !HasLine(Lines(a), t)
  {
    LinesAppend(a, l);
    assert forall x :: x in Lines(a) ==> x in Lines(a) + Lines(l);
  }

  // ---- inputs on which re-adding a key is not a no-op ----------------------------------

  /** Linux and OpenBSD: a key with a newline inside is appended on every run. */
  lemma NewlineKeyRepeats()
    ensures LinuxAdd(LinuxAdd("", "a\nb"), "a\nb") != LinuxAdd("", "a\nb")
  {
    var k := "a\nb";
    assert k[1] == '\n';
    TrimmedStays(k);
    LinuxAddTwice("", k);
  }

  /** FreeBSD: so is a key with a blank in front. */
  lemma PaddedKeyRepeats()
    ensures FreeBsdAdd(FreeBsdAdd("", " k"), " k") != FreeBsdAdd("", " k")
  {
    FreeBsdAddTwice("", " k");
  }

  /** NetBSD: a key appended to a file that does not end in a newline is glued to its last line,
      and appended again by the next run. */
  lemma CutOffLineIsGlued()
    ensures NetBsdAdd("old", "new") == "oldnew\n"
    ensures NetBsdAdd(NetBsdAdd("old", "new"), "new") != NetBsdAdd("old", "new")
  {
    var text := "old";
    TrimmedStays("new");
    assert text[2] == 'd' && !IsSpace('d');
    SplitIsLines(text);
    SplitWhole(text, '\n');
    TrimmedStays(text);
    ScanFinds(text, "new");
    assert LastPart(text)[|LastPart(text)| - 1] == 'd';
    NetBsdAddTwice(text, "new");
  }
}
