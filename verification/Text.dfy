/** String primitives the program takes from Go's strings, strconv and bufio packages.
    A string is its sequence of code points. */
module Text {

  datatype Option<+T> = None | Some(value: T)

  /** unicode.IsSpace. */
  predicate IsSpace(c: char) {
    '\t' <= c <= '\r' || c == ' ' || c == '\U{0085}' || c == '\U{00A0}' || c == '\U{1680}' ||
    '\U{2000}' <= c <= '\U{200A}' || c == '\U{2028}' || c == '\U{2029}' || c == '\U{202F}' ||
    c == '\U{205F}' || c == '\U{3000}'
  }

  /** The code points with the Unicode property White_Space, by number. */
  lemma SpacesAre(c: char)
    ensures IsSpace(c) <==> c as int in {9, 10, 11, 12, 13, 32, 133, 160, 5760, 8192, 8193, 8194, 8195, 8196,
                                         8197, 8198, 8199, 8200, 8201, 8202, 8232, 8233, 8239, 8287, 12288}
  {
  }

  function TrimLeft(s: string, cut: char -> bool): string {
    if s != "" && cut(s[0]) then TrimLeft(s[1..], cut) else s
  }

  function TrimRight(s: string, cut: char -> bool): string {
    if s != "" && cut(s[|s| - 1]) then TrimRight(s[..|s| - 1], cut) else s
  }

  function TrimSpace(s: string): string {
    TrimRight(TrimLeft(s, IsSpace), IsSpace)
  }

  predicate Trimmed(s: string) {
    s != "" ==> !IsSpace(s[0]) && !IsSpace(s[|s| - 1])
  }

  predicate AllSpace(s: string) {
    forall c | c in s :: IsSpace(c)
  }

  lemma {:induction false} TrimLeftTrims(s: string, cut: char -> bool) returns (lead: string)
    ensures var r := TrimLeft(s, cut); s == lead + r && (r != "" ==> !cut(r[0]))
    ensures forall c | c in lead :: cut(c)
  {
    lead := "";
    if s != "" && cut(s[0]) {
      var l := TrimLeftTrims(s[1..], cut);
      lead := [s[0]] + l;
    }
  }

  lemma {:induction false} TrimRightTrims(s: string, cut: char -> bool) returns (tail: string)
    ensures var r := TrimRight(s, cut); s == r + tail && (r != "" ==> !cut(r[|r| - 1]))
    ensures forall c | c in tail :: cut(c)
  {
    tail := "";
    if s != "" && cut(s[|s| - 1]) {
      var l := TrimRightTrims(s[..|s| - 1], cut);
      tail := l + [s[|s| - 1]];
    }
  }

  lemma {:induction false} TrimLeftOf(lead: string, s: string, cut: char -> bool)
    requires forall c | c in lead :: cut(c)
    requires s != "" ==> !cut(s[0])
    ensures TrimLeft(lead + s, cut) == s
  {
    if lead == "" {
      assert lead + s == s;
    } else {
      assert lead[0] in lead && (lead + s)[1..] == lead[1..] + s;
      TrimLeftOf(lead[1..], s, cut);
    }
  }

  lemma {:induction false} TrimRightOf(s: string, tail: string, cut: char -> bool)
    requires forall c | c in tail :: cut(c)
    requires s != "" ==> !cut(s[|s| - 1])
    ensures TrimRight(s + tail, cut) == s
  {
    if tail == "" {
      assert s + tail == s;
    } else {
      var n := |tail| - 1;
      assert tail[n] in tail && (s + tail)[..|s| + n] == s + tail[..n];
      TrimRightOf(s, tail[..n], cut);
    }
  }

  /** TrimSpace returns the trimmed middle of its argument. */
  lemma TrimSpaceTrims(s: string) returns (lead: string, tail: string)
    ensures s == lead + TrimSpace(s) + tail
    ensures AllSpace(lead) && AllSpace(tail) && Trimmed(TrimSpace(s))
  {
    lead := TrimLeftTrims(s, IsSpace);
    tail := TrimRightTrims(TrimLeft(s, IsSpace), IsSpace);
    assert lead + (TrimSpace(s) + tail) == lead + TrimSpace(s) + tail;
  }

  /** The trimmed middle is the only one: whatever white space surrounds trimmed text goes. */
  lemma TrimSpaceOf(lead: string, t: string, tail: string)
    requires AllSpace(lead) && AllSpace(tail) && Trimmed(t)
    ensures TrimSpace(lead + t + tail) == t
  {
    if t == "" {
      assert lead + t + tail == (lead + tail) + "";
      TrimLeftOf(lead + tail, "", IsSpace);
    } else {
      assert lead + t + tail == lead + (t + tail);
      TrimLeftOf(lead, t + tail, IsSpace);
      TrimRightOf(t, tail, IsSpace);
    }
  }

  lemma TrimmedStays(t: string)
    requires Trimmed(t)
    ensures TrimSpace(t) == t
  {
    TrimSpaceOf("", t, "");
    assert "" + t + "" == t;
  }

  lemma TrimSpaceKeepsOut(s: string, c: char)
    requires c !in s
    ensures c !in TrimSpace(s)
  {
    var l, t := TrimSpaceTrims(s);
  }

  /** The pieces of a text that begins with c, from the pieces of what follows c. */
  function Widen(c: char, parts: seq<string>): (r: seq<string>)
    ensures r != []
  {
    if parts == [] then [[c]] else [[c] + parts[0]] + parts[1..]
  }

  lemma WidenAppend(c: char, x: seq<string>, y: seq<string>)
    requires x != []
    ensures Widen(c, x + y) == Widen(c, x) + y
  {
    assert (x + y)[1..] == x[1..] + y;
  }

  /** strings.Split with a one-character separator. */
  function Split(s: string, sep: char): (r: seq<string>)
    ensures r != []
  {
    if s == "" then [""]
    else
      var rest := Split(s[1..], sep);
      if s[0] == sep then [""] + rest else Widen(s[0], rest)
  }

  function Join(parts: seq<string>, sep: string): string {
    if parts == [] then ""
    else if |parts| == 1 then parts[0]
    else parts[0] + sep + Join(parts[1..], sep)
  }

  lemma {:induction false} JoinKeepsOut(parts: seq<string>, sep: char, c: char)
    requires c != sep && forall p | p in parts :: c !in p
    ensures c !in Join(parts, [sep])
    decreases parts
  {
    if parts != [] {
      JoinKeepsOut(parts[1..], sep, c);
      assert parts[0] in parts;
    }
  }

  lemma {:induction false} SplitPiecesAreFree(s: string, sep: char)
    ensures forall p | p in Split(s, sep) :: sep !in p
  {
    if s != "" {
      SplitPiecesAreFree(s[1..], sep);
    }
  }

  lemma {:induction false} SplitWhole(s: string, sep: char)
    requires sep !in s
    ensures Split(s, sep) == [s]
  {
    if s != "" {
      SplitWhole(s[1..], sep);
      assert [s[0]] + s[1..] == s;
    }
  }

  lemma SplitCons(c: char, s: string, sep: char)
    ensures Split([c] + s, sep) == if c == sep then [""] + Split(s, sep) else Widen(c, Split(s, sep))
  {
    assert ([c] + s)[1..] == s;
  }

  lemma {:induction false} SplitAt(a: string, b: string, sep: char)
    ensures Split(a + ([sep] + b), sep) == Split(a, sep) + Split(b, sep)
    decreases |a|
  {
    SplitCons(sep, b, sep);
    if a == "" {
      assert a + ([sep] + b) == [sep] + b;
    } else {
      var x, y := Split(a[1..], sep), Split(b, sep);
      SplitAt(a[1..], b, sep);
      SplitCons(a[0], a[1..] + ([sep] + b), sep);
      assert a + ([sep] + b) == [a[0]] + (a[1..] + ([sep] + b));
      if a[0] == sep {
        assert [""] + (x + y) == ([""] + x) + y;
      } else {
        WidenAppend(a[0], x, y);
      }
    }
  }

  /** The lines bufio.Scanner cuts a file into, before it drops carriage returns: the pieces
      between newlines, without an empty piece after a final newline. */
  function Lines(s: string): seq<string> {
    if s == "" then []
    else
      var rest := Lines(s[1..]);
      if s[0] == '\n' then [""] + rest
      else Widen(s[0], rest)
  }

  predicate EndsLine(s: string) {
    s == "" || s[|s| - 1] == '\n'
  }

  lemma {:induction false} SplitIsLines(s: string)
    ensures Split(s, '\n') == Lines(s) + if EndsLine(s) then [""] else []
  {
    if s != "" {
      SplitIsLines(s[1..]);
      var e := if EndsLine(s[1..]) then [""] else [];
      if s[0] == '\n' {
        assert [""] + (Lines(s[1..]) + e) == ([""] + Lines(s[1..])) + e;
      } else if |s| > 1 {
        WidenAppend(s[0], Lines(s[1..]), e);
      } else {
        assert s[1..] == "" && [s[0]] + "" == [s[0]];
      }
    }
  }

  lemma {:induction false} LinesAppend(a: string, b: string)
    requires EndsLine(a)
    ensures Lines(a + b) == Lines(a) + Lines(b)
  {
    if a == "" {
      assert a + b == b;
    } else {
      assert (a + b)[1..] == a[1..] + b;
      LinesAppend(a[1..], b);
      if |a| > 1 {
        WidenAppend(a[0], Lines(a[1..]), Lines(b));
      }
    }
  }

  lemma {:induction false} LinesOfOne(l: string)
    requires '\n' !in l
    ensures Lines(l + "\n") == [l]
  {
    if l != "" {
      assert (l + "\n")[1..] == l[1..] + "\n";
      LinesOfOne(l[1..]);
      assert [l[0]] + l[1..] == l;
    }
  }

  /** Lines, each ended. */
  function Unlines(ls: seq<string>): string {
    if ls == [] then "" else Unlines(ls[..|ls| - 1]) + (ls[|ls| - 1] + "\n")
  }

  predicate OneLiners(ls: seq<string>) {
    forall i | 0 <= i < |ls| :: '\n' !in ls[i]
  }

  lemma {:induction false} LinesOfUnlines(ls: seq<string>)
    requires OneLiners(ls)
    ensures Lines(Unlines(ls)) == ls && EndsLine(Unlines(ls))
    decreases ls
  {
    if ls != [] {
      var n := |ls| - 1;
      LinesOfUnlines(ls[..n]);
      LinesOfOne(ls[n]);
      LinesAppend(Unlines(ls[..n]), ls[n] + "\n");
    }
  }

  lemma {:induction false} LinesAreOneLiners(s: string)
    ensures OneLiners(Lines(s))
    decreases |s|
  {
    if s != "" {
      LinesAreOneLiners(s[1..]);
    }
  }

  function DropCR(l: string): string {
    if l != "" && l[|l| - 1] == '\r' then l[..|l| - 1] else l
  }

  /** bufio.Scanner's lines: one carriage return is dropped from the end of each. */
  function ScanLines(text: string): (r: seq<string>)
    ensures |r| == |Lines(text)|
    ensures forall i | 0 <= i < |r| :: r[i] == DropCR(Lines(text)[i])
  {
    var l := Lines(text);
    seq(|l|, i requires 0 <= i < |l| => DropCR(l[i]))
  }
}
