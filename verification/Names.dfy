/** Finding user-data in the root directory of an ISO 9660 or FAT file system. Names are ASCII. */
module Names {
  import opened Text

  function Upper(c: char): char {
    if 'a' <= c <= 'z' then ((c as int) - 32) as char else c
  }

  function ToUpper(s: string): (r: string)
    ensures |r| == |s| && forall i | 0 <= i < |s| :: r[i] == Upper(s[i])
  {
    seq(|s|, i requires 0 <= i < |s| => Upper(s[i]))
  }

  /** strings.EqualFold on ASCII. */
  predicate EqualFold(a: string, b: string) {
    ToUpper(a) == ToUpper(b)
  }

  function UpToLast(s: string, c: char): string {
    if c !in s then s
    else if s[|s| - 1] == c then s[..|s| - 1]
    else UpToLast(s[..|s| - 1], c)
  }

  function TrimISOSuffix(s: string): string {
    var t := UpToLast(s, ';');
    if t != "" && t[|t| - 1] == '.' then t[..|t| - 1] else t
  }

  predicate Allowed(c: char) {
    'A' <= c <= 'Z' || '0' <= c <= '9' || c == '_'
  }

  function MangleChar(c: char): char {
    if 'a' <= c <= 'z' then Upper(c)
    else if 'A' <= c <= 'Z' || '0' <= c <= '9' then c
    else '_'
  }

  function Mangle(s: string): (r: string)
    ensures |r| == |s| && forall i | 0 <= i < |s| :: r[i] == MangleChar(s[i])
  {
    seq(|s|, i requires 0 <= i < |s| => MangleChar(s[i]))
  }

  predicate ExactName(got: string, want: string) {
    EqualFold(TrimISOSuffix(got), want)
  }

  predicate MangledName(got: string, want: string) {
    var g, w := Mangle(TrimISOSuffix(got)), Mangle(want);
    g == w || (|g| >= 8 && |g| < |w| && g == w[..|g|])
  }

  /** What ECMA-119 level 1 (sections 7.5 and 10.1) makes of a name without a dot: the characters
      it allows, eight of them. */
  function Level1(name: string): string {
    var m := Mangle(name);
    if |m| <= 8 then m else m[..8]
  }

  lemma {:induction false} UpToLastOf(s: string, c: char, t: string)
    requires c !in t
    ensures UpToLast(s + [c] + t, c) == s
    decreases |t|
  {
    if t == "" {
      assert (s + [c] + t)[..|s|] == s;
    } else {
      var n := |t| - 1;
      assert (s + [c] + t)[..|s| + 1 + n] == s + [c] + t[..n];
      assert t[n] in t && c in s + [c] + t;
      UpToLastOf(s, c, t[..n]);
    }
  }

  lemma MangleIsAllowed(s: string)
    ensures forall c | c in Mangle(s) :: Allowed(c) && MangleChar(c) == c
  {
    var m := Mangle(s);
    forall c | c in m ensures Allowed(c) && MangleChar(c) == c {
      var i :| 0 <= i < |m| && m[i] == c;
    }
  }

  lemma MangleTwice(s: string)
    ensures Mangle(Mangle(s)) == Mangle(s)
  {
    MangleIsAllowed(s);
    var m := Mangle(s);
    forall i | 0 <= i < |m| ensures MangleChar(m[i]) == m[i] {
      assert m[i] in m;
    }
  }

  /** A name as it may be listed: with a trailing dot, a version suffix, both or neither. */
  function Suffixed(base: string, dot: bool, version: Option<string>): string {
    base + (if dot then "." else "") + (if version.Some? then ";" + version.value else "")
  }

  predicate Base(s: string) {
    ';' !in s && (s != "" ==> s[|s| - 1] != '.')
  }

  lemma TrimSuffixed(base: string, dot: bool, version: Option<string>)
    requires Base(base) && (version.Some? ==> ';' !in version.value)
    ensures TrimISOSuffix(Suffixed(base, dot, version)) == base
  {
    var d := base + if dot then "." else "";
    assert ';' !in d;
    if version.Some? {
      UpToLastOf(d, ';', version.value);
      assert d + (";" + version.value) == d + [';'] + version.value;
    } else {
      assert d + "" == d;
    }
    if dot {
      assert d[..|base|] == base;
    } else {
      assert d == base;
    }
  }

  lemma Level1IsBase(name: string)
    ensures Base(Level1(name))
  {
    var l := Level1(name);
    MangleIsAllowed(name);
    assert forall c :: c in l ==> c in Mangle(name);
    assert l != "" ==> l[|l| - 1] in l;
  }

  /** Completeness: every name is matched by its level-1 form, however it is suffixed. */
  lemma Level1IsMatched(name: string, dot: bool, version: Option<string>)
    requires version.Some? ==> ';' !in version.value
    ensures MangledName(Suffixed(Level1(name), dot, version), name)
  {
    Level1IsBase(name);
    TrimSuffixed(Level1(name), dot, version);
    MangleTwice(name);
    var m, l := Mangle(name), Level1(name);
    assert Mangle(l) == l by {
      forall i | 0 <= i < |l| ensures MangleChar(l[i]) == l[i] {
        assert MangleChar(m[i]) == Mangle(m)[i];
      }
    }
  }

  /** The first pass accepts nothing the second would not. */
  lemma ExactIsMangled(got: string, want: string)
    requires ExactName(got, want)
    ensures Mangle(TrimISOSuffix(got)) == Mangle(want) && MangledName(got, want)
  {
    var g := TrimISOSuffix(got);
    forall i | 0 <= i < |g| ensures MangleChar(g[i]) == MangleChar(want[i]) {
      assert ToUpper(g)[i] == ToUpper(want)[i];
    }
  }

  /** Soundness: two accepted names, normalised, are prefixes one of the other, and each is at
      least eight characters of the wanted name or all of it. */
  lemma AcceptedNamesCompare(a: string, b: string, want: string)
    requires ExactName(a, want) || MangledName(a, want)
    requires ExactName(b, want) || MangledName(b, want)
    ensures var x, y, w := Mangle(TrimISOSuffix(a)), Mangle(TrimISOSuffix(b)), Mangle(want);
            && (x <= y || y <= x)
            && x <= w && (x == w || 8 <= |x|)
  {
    if ExactName(a, want) {
      ExactIsMangled(a, want);
    }
    if ExactName(b, want) {
      ExactIsMangled(b, want);
    }
  }

  // ---- which names those are, character by character -----------------------------------

  predicate Capital(c: char) {
    'A' <= c <= 'Z'
  }

  predicate Plain(c: char) {
    Capital(c) || 'a' <= c <= 'z' || '0' <= c <= '9'
  }

  /** A capital and its small letter, or the same character. */
  predicate SameLetter(c: char, d: char) {
    || c == d
    || (Capital(c) && d as int == c as int + 32)
    || (Capital(d) && c as int == d as int + 32)
  }

  /** To level 1, all characters but letters and figures are one. */
  predicate Alike(c: char, d: char) {
    SameLetter(c, d) || (!Plain(c) && !Plain(d))
  }

  lemma AlikeIff(c: char, d: char)
    ensures SameLetter(c, d) <==> Upper(c) == Upper(d)
    ensures Alike(c, d) <==> MangleChar(c) == MangleChar(d)
  {
  }

  /** The exact pass takes a listed name for the wanted one exactly when, dot and version aside, it is
      that name but for case. */
  lemma ExactNameIff(base: string, dot: bool, version: Option<string>, want: string)
    requires Base(base) && (version.Some? ==> ';' !in version.value)
    ensures ExactName(Suffixed(base, dot, version), want)
            <==> |base| == |want| && forall i | 0 <= i < |base| :: SameLetter(base[i], want[i])
  {
    hide SameLetter, Upper;
    TrimSuffixed(base, dot, version);
    var a, b := ToUpper(base), ToUpper(want);
    forall i | 0 <= i < |base| && |base| == |want| ensures a[i] == b[i] <==> SameLetter(base[i], want[i]) {
      AlikeIff(base[i], want[i]);
    }
    if forall i | 0 <= i < |base| :: |base| == |want| && SameLetter(base[i], want[i]) {
      if |base| == |want| {
        assert a == b;
      }
    }
    if a == b {
      assert |base| == |want| && forall i | 0 <= i < |base| :: a[i] == b[i];
    }
  }

  /** The fuzzy pass does exactly when it is all of that name, or at least its first eight characters,
      as far as level 1 can tell characters apart. */
  lemma MangledNameIff(base: string, dot: bool, version: Option<string>, want: string)
    requires Base(base) && (version.Some? ==> ';' !in version.value)
    ensures MangledName(Suffixed(base, dot, version), want)
            <==> (|base| == |want| || 8 <= |base| < |want|)
                 && forall i | 0 <= i < |base| :: Alike(base[i], want[i])
  {
    hide Alike, MangleChar;
    TrimSuffixed(base, dot, version);
    if |base| <= |want| {
      var a, b := Mangle(base), Mangle(want)[..|base|];
      forall i | 0 <= i < |base| ensures a[i] == b[i] <==> Alike(base[i], want[i]) {
        AlikeIff(base[i], want[i]);
      }
      assert |base| == |want| ==> b == Mangle(want);
      if forall i | 0 <= i < |base| :: Alike(base[i], want[i]) {
        assert a == b;
      } else {
        var i :| 0 <= i < |base| && !Alike(base[i], want[i]);
        assert a[i] != b[i];
      }
    }
  }

  // ---- the three passes ----------------------------------------------------------------

  /** A root directory: what reading a path gives, and its listing if it can be listed. */
  datatype Fs = Fs(read: string -> Option<string>, listing: Option<seq<string>>)

  /** Where the file comes from: the exact path, or a pass over the listing and a position. */
  datatype Choice = ByPath | Entry(pass: nat, at: nat) | Nothing

  predicate Accepts(pass: nat, got: string, want: string) {
    if pass == 0 then ExactName(got, want) else MangledName(got, want)
  }

  /** The choice is the least (pass, position) there is, after the exact path. */
  predicate IsLeast(fs: Fs, want: string, c: Choice) {
    match c
    case ByPath => fs.read("/" + want).Some?
    case Entry(pass, at) =>
      fs.read("/" + want).None? && fs.listing.Some? && pass < 2 && at < |fs.listing.value| &&
      var ls := fs.listing.value;
      && Accepts(pass, ls[at], want)
      && (forall i | 0 <= i < at :: !Accepts(pass, ls[i], want))
      && (pass == 1 ==> forall i | 0 <= i < |ls| :: !Accepts(0, ls[i], want))
    case Nothing =>
      fs.read("/" + want).None? &&
      (fs.listing.Some? ==> forall pass: nat, i | pass < 2 && 0 <= i < |fs.listing.value| ::
                              !Accepts(pass, fs.listing.value[i], want))
  }

  method ReadNamed(fs: Fs, name: string) returns (data: Option<string>)
    ensures exists c :: IsLeast(fs, name, c) &&
                        match c
                        case ByPath => data == fs.read("/" + name)
                        case Entry(_, at) => data == fs.read("/" + fs.listing.value[at])
                        case Nothing => data == None
  {
    data := fs.read("/" + name);
    if data.Some? {
      assert IsLeast(fs, name, ByPath);
      return;
    }
    if fs.listing.None? {
      assert IsLeast(fs, name, Nothing);
      return None;
    }
    var entries := fs.listing.value;
    for pass := 0 to 2
      invariant forall p: nat, i | p < pass && 0 <= i < |entries| :: !Accepts(p, entries[i], name)
    {
      for i := 0 to |entries|
        invariant forall j | 0 <= j < i :: !Accepts(pass, entries[j], name)
      {
        var matches := if pass == 0 then ExactName(entries[i], name) else MangledName(entries[i], name);
        if matches {
          assert IsLeast(fs, name, Entry(pass, i));
          return fs.read("/" + entries[i]);
        }
      }
    }
    assert IsLeast(fs, name, Nothing);
    return None;
  }

  /** The least choice is unique, and a fuzzy entry never beats an exact one. */
  lemma LeastIsUnique(fs: Fs, want: string, c: Choice, d: Choice)
    requires IsLeast(fs, want, c) && IsLeast(fs, want, d)
    ensures c == d
    ensures c.Entry? && c.pass == 1 ==> forall e | e in fs.listing.value :: !ExactName(e, want)
  {
    if c.Entry? && d.Entry? {
      var ls := fs.listing.value;
      assert Accepts(c.pass, ls[c.at], want) && Accepts(d.pass, ls[d.at], want);
    }
  }
}
