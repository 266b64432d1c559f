/** The line scan of /etc/passwd against the database it prints. */
module Passwd {
  import opened Text
  import opened Numbers

  datatype Entry = Entry(name: string, passwd: string, uid: nat, gid: nat, gecos: string, home: string, shell: string)

  predicate Field(s: string) {
    ':' !in s && '\n' !in s
  }

  predicate WellFormed(e: Entry) {
    Field(e.name) && Field(e.passwd) && Field(e.gecos) && Field(e.home) && Field(e.shell) &&
    e.uid <= MAX_INT64 && e.gid <= MAX_INT64
  }

  function Fields(e: Entry): seq<string> {
    [e.name, e.passwd, Decimal(e.uid), Decimal(e.gid), e.gecos, e.home, e.shell]
  }

  function Line(e: Entry): string {
    Join(Fields(e), ":")
  }

  /** The file: one line per entry. */
  function Printed(es: seq<Entry>): string {
    if es == [] then "" else Line(es[0]) + ("\n" + Printed(es[1..]))
  }

  datatype Lookup = Found(home: string, uid: int, gid: int) | Malformed | BadId | NotFound

  // ---- the scans -----------------------------------------------------------------------

  predicate Matches(line: string, name: string) {
    name + ":" <= line
  }

  /** UserExists, on the contents of the file. */
  method UserExists(data: string, name: string) returns (found: bool)
    ensures found <==> exists l | l in Split(data, '\n') :: Matches(l, name)
  {
    var lines := Split(data, '\n');
    for i := 0 to |lines|
      invariant forall l | l in lines[..i] :: !Matches(l, name)
    {
      assert lines[..i + 1] == lines[..i] + [lines[i]];
      if name + ":" <= lines[i] {
        assert lines[i] in lines && Matches(lines[i], name);
        return true;
      }
    }
    assert lines[..|lines|] == lines;
    return false;
  }

  function ReadEntry(line: string): Lookup {
    var f := Split(line, ':');
    if |f| < 7 then Malformed
    else if Atoi(f[2]).None? || Atoi(f[3]).None? then BadId
    else Found(f[5], Atoi(f[2]).value, Atoi(f[3]).value)
  }

  /** The first line for the name. */
  function FirstMatch(lines: seq<string>, name: string): Lookup {
    if lines == [] then NotFound
    else if Matches(lines[0], name) then ReadEntry(lines[0])
    else FirstMatch(lines[1..], name)
  }

  /** lookupHomeAndIDs, on the contents of the file. */
  method LookupHomeAndIDs(data: string, username: string) returns (r: Lookup)
    ensures r == FirstMatch(Split(data, '\n'), username)
  {
    var lines := Split(data, '\n');
    for i := 0 to |lines|
      invariant FirstMatch(lines, username) == FirstMatch(lines[i..], username)
    {
      assert lines[i..][1..] == lines[i + 1..];
      if !(username + ":" <= lines[i]) {
        continue;
      }
      var f := Split(lines[i], ':');
      if |f| < 7 {
        return Malformed;
      }
      var uid := Atoi(f[2]);
      if uid.None? {
        return BadId;
      }
      var gid := Atoi(f[3]);
      if gid.None? {
        return BadId;
      }
      return Found(f[5], uid.value, gid.value);
    }
    return NotFound;
  }

  // ---- the printed database ------------------------------------------------------------

  lemma {:induction false} SplitInvertsJoin(parts: seq<string>, sep: char)
    requires parts != [] && forall p | p in parts :: sep !in p
    ensures Split(Join(parts, [sep]), sep) == parts
    decreases parts
  {
    SplitWhole(parts[0], sep);
    assert parts == [parts[0]] + parts[1..];
    if |parts| > 1 {
      SplitInvertsJoin(parts[1..], sep);
      var rest := Join(parts[1..], [sep]);
      SplitAt(parts[0], rest, sep);
      assert parts[0] + [sep] + rest == parts[0] + ([sep] + rest);
    }
  }

  lemma FieldsAreFields(e: Entry)
    requires WellFormed(e)
    ensures forall p | p in Fields(e) :: Field(p)
  {
    DecimalDigits(e.uid);
    DecimalDigits(e.gid);
  }

  lemma LineFacts(e: Entry)
    requires WellFormed(e)
    ensures Split(Line(e), ':') == Fields(e) && '\n' !in Line(e)
    ensures e.name + ":" <= Line(e)
  {
    FieldsAreFields(e);
    SplitInvertsJoin(Fields(e), ':');
    JoinKeepsOut(Fields(e), ':', '\n');
    var rest := Join(Fields(e)[1..], ":");
    assert Line(e) == (e.name + ":") + rest;
  }

  /** The line of an entry matches that entry's name and no other colon-free one. */
  lemma LineMatches(e: Entry, name: string)
    requires WellFormed(e) && ':' !in name
    ensures Matches(Line(e), name) <==> name == e.name
  {
    LineFacts(e);
    if Matches(Line(e), name) {
      var rest := Line(e)[|name| + 1..];
      assert Line(e) == name + ([':'] + rest);
      SplitAt(name, rest, ':');
      SplitWhole(name, ':');
      assert Split(Line(e), ':')[0] == name;
    }
  }

  lemma EntryReads(e: Entry)
    requires WellFormed(e)
    ensures ReadEntry(Line(e)) == Found(e.home, e.uid, e.gid)
  {
    LineFacts(e);
    AtoiInvertsDecimal(e.uid);
    AtoiInvertsDecimal(e.gid);
  }

  function PrintedLines(es: seq<Entry>): seq<string> {
    if es == [] then [""] else [Line(es[0])] + PrintedLines(es[1..])
  }

  lemma {:induction false} SplitPrinted(es: seq<Entry>)
    requires forall e | e in es :: WellFormed(e)
    ensures Split(Printed(es), '\n') == PrintedLines(es)
    decreases es
  {
    if es != [] {
      assert es[0] in es;
      LineFacts(es[0]);
      SplitPrinted(es[1..]);
      SplitAt(Line(es[0]), Printed(es[1..]), '\n');
      SplitWhole(Line(es[0]), '\n');
    }
  }

  /** What the database holds for a name: its first entry. */
  function FirstEntry(es: seq<Entry>, name: string): Lookup {
    if es == [] then NotFound
    else if es[0].name == name then Found(es[0].home, es[0].uid, es[0].gid)
    else FirstEntry(es[1..], name)
  }

  /** UserExists finds a name exactly when the printed database has an entry for it. */
  lemma {:induction false} ScanFindsUsers(es: seq<Entry>, name: string)
    requires (forall e | e in es :: WellFormed(e)) && ':' !in name
    ensures (exists l | l in Split(Printed(es), '\n') :: Matches(l, name)) <==> (exists e | e in es :: e.name == name)
    decreases es
  {
    SplitPrinted(es);
    if es != [] {
      assert es[0] in es;
      LineMatches(es[0], name);
      ScanFindsUsers(es[1..], name);
      SplitPrinted(es[1..]);
      assert forall l :: l in PrintedLines(es) <==> l == Line(es[0]) || l in PrintedLines(es[1..]);
      assert forall e :: e in es <==> e == es[0] || e in es[1..];
    }
  }

  /** And lookupHomeAndIDs returns home, uid and gid of the first such entry. */
  lemma {:induction false} ScanFindsFirstEntry(es: seq<Entry>, name: string)
    requires (forall e | e in es :: WellFormed(e)) && ':' !in name
    ensures FirstMatch(Split(Printed(es), '\n'), name) == FirstEntry(es, name)
    decreases es
  {
    SplitPrinted(es);
    if es == [] {
      assert [""][1..] == [];
      assert FirstMatch([], name) == NotFound;
    } else {
      assert es[0] in es;
      LineMatches(es[0], name);
      EntryReads(es[0]);
      ScanFindsFirstEntry(es[1..], name);
      SplitPrinted(es[1..]);
      assert PrintedLines(es)[1..] == PrintedLines(es[1..]);
    }
  }
}
