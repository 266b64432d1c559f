/** Choosing the parser by the #cloud-config header, and stripping the header. */
module Header {
  import opened Text

  const MAGIC := "#cloud-config"

  /** The white space Parse skips. */
  predicate IsSkipped(c: char) {
    c == ' ' || c == '\t' || c == '\n' || c == '\r'
  }

  predicate IsCloud(raw: string) {
    MAGIC <= TrimLeft(raw, IsSkipped)
  }

  /** Parse's choice: true for cloud-config, false for HCL. */
  method Route(raw: string) returns (cloud: bool)
    ensures cloud == IsCloud(raw)
  {
    for i := 0 to |raw|
      invariant TrimLeft(raw, IsSkipped) == TrimLeft(raw[i..], IsSkipped)
    {
      var c := raw[i];
      assert raw[i..][1..] == raw[i + 1..];
      if IsSkipped(c) {
        continue;
      }
      HeaderAt(raw, i);
      if c == '#' && |raw| >= i + |MAGIC| && raw[i..i + |MAGIC|] == MAGIC {
        return true;
      }
      return false;
    }
    assert raw[|raw|..] == "";
    return false;
  }

  lemma HeaderAt(raw: string, i: nat)
    requires i < |raw|
    ensures MAGIC <= raw[i..] <==> raw[i] == '#' && |raw| >= i + |MAGIC| && raw[i..i + |MAGIC|] == MAGIC
  {
    if |raw| >= i + |MAGIC| {
      assert raw[i..][..|MAGIC|] == raw[i..i + |MAGIC|];
    }
  }

  function AfterNewline(s: string): string {
    if s == "" then "" else if s[0] == '\n' then s[1..] else AfterNewline(s[1..])
  }

  /** What ParseCloudConfig hands to the YAML decoder. */
  function Stripped(src: string): string {
    var t := TrimSpace(src);
    if MAGIC <= t then AfterNewline(t) else src
  }

  /** Both tests see the header unless it stands behind white space only the second one knows. */
  lemma RoutedIffStripped(raw: string)
    ensures IsCloud(raw) <==> MAGIC <= TrimSpace(raw) && TrimLeft(raw, IsSkipped) == TrimLeft(raw, IsSpace)
  {
    var a := TrimLeft(raw, IsSpace);
    var b := TrimLeft(raw, IsSkipped);
    var tail := TrimRightTrims(a, IsSpace);
    var t := TrimSpace(raw);
    assert MAGIC[0] == '#' && MAGIC[|MAGIC| - 1] == 'g' && !IsSpace('#') && !IsSpace('g');
    if MAGIC <= b {
      TwoTrims(raw);
      HeaderSurvives(t, tail);
    }
  }

  /** Where the narrower trim stops at a character that is no white space, the wider one does too. */
  lemma {:induction false} TwoTrims(raw: string)
    ensures var b := TrimLeft(raw, IsSkipped);
            b != "" && !IsSpace(b[0]) ==> TrimLeft(raw, IsSpace) == b
  {
    if raw != "" && IsSkipped(raw[0]) {
      TwoTrims(raw[1..]);
    }
  }

  lemma HeaderSurvives(t: string, tail: string)
    requires MAGIC <= t + tail && AllSpace(tail)
    ensures MAGIC <= t
  {
    CharOfTail(t, tail, |MAGIC| - 1);
    assert MAGIC[|MAGIC| - 1] == 'g' && !IsSpace('g');
    assert (t + tail)[|MAGIC| - 1] == MAGIC[|MAGIC| - 1];
    assert (t + tail)[..|MAGIC|] == t[..|MAGIC|];
  }

  lemma CharOfTail(t: string, tail: string, k: nat)
    ensures |t| <= k < |t + tail| ==> (t + tail)[k] in tail
  {
  }

  lemma {:induction false} AfterNewlineSplits(s: string) returns (line: string)
    ensures '\n' !in line
    ensures (s == line && AfterNewline(s) == "") || s == line + "\n" + AfterNewline(s)
  {
    if s == "" {
      line := "";
    } else if s[0] == '\n' {
      line := "";
      assert s == "" + "\n" + s[1..];
    } else {
      var rest := AfterNewlineSplits(s[1..]);
      line := [s[0]] + rest;
      assert s == [s[0]] + s[1..];
    }
  }

  lemma HeaderInFirstLine(t: string, line: string, rest: string)
    requires MAGIC <= t && t == line + "\n" + rest
    ensures |MAGIC| <= |line|
  {
    assert t[|line|] == '\n';
    assert forall i | 0 <= i < |MAGIC| :: t[i] == MAGIC[i] != '\n';
  }

  /** A document routed to the cloud-config parser is decoded without its header line: what is left
      out is white space and one line that starts with the header. */
  lemma RoutedLosesHeader(raw: string) returns (line: string)
    requires IsCloud(raw)
    ensures MAGIC <= line && '\n' !in line
    ensures (TrimSpace(raw) == line && Stripped(raw) == "") || TrimSpace(raw) == line + "\n" + Stripped(raw)
  {
    var t := TrimSpace(raw);
    RoutedIffStripped(raw);
    line := AfterNewlineSplits(t);
    if t != line {
      HeaderInFirstLine(t, line, Stripped(raw));
    }
    assert line[..|MAGIC|] == t[..|MAGIC|];
  }

  /** The header after lead, which is made of blanks, tabs and line ends. */
  predicate HeaderAfter(raw: string, lead: string, rest: string) {
    (forall c | c in lead :: c in " \t\n\r") && raw == lead + ("#cloud-config" + rest)
  }

  lemma IsCloudIff(raw: string)
    ensures IsCloud(raw) <==> exists lead, rest :: HeaderAfter(raw, lead, rest)
  {
    if IsCloud(raw) {
      var lead := TrimLeftTrims(raw, IsSkipped);
      var t := TrimLeft(raw, IsSkipped);
      forall c | c in lead ensures c in " \t\n\r" {
        SkippedIff(c);
      }
      assert HeaderAfter(raw, lead, t[|MAGIC|..]);
    }
    forall lead, rest | HeaderAfter(raw, lead, rest) ensures IsCloud(raw) {
      forall c | c in lead ensures IsSkipped(c) {
        SkippedIff(c);
      }
      TrimLeftOf(lead, MAGIC + rest, IsSkipped);
    }
  }

  lemma SkippedIff(c: char)
    ensures IsSkipped(c) <==> c in " \t\n\r"
  {
    assert " \t\n\r" == [' ', '\t', '\n', '\r'];
  }

  /** The header after white space of any kind. */
  predicate HasHeader(src: string, lead: string, rest: string) {
    AllSpace(lead) && src == lead + ("#cloud-config" + rest)
  }

  /** A document without the header is decoded as it is. */
  lemma HeaderlessStays(src: string)
    ensures Stripped(src) == src || exists lead, rest :: HasHeader(src, lead, rest)
  {
    var lead, tail := TrimSpaceTrims(src);
    var t := TrimSpace(src);
    if MAGIC <= t {
      var rest := t[|MAGIC|..];
      assert t == MAGIC + rest;
      assert src == lead + (MAGIC + (rest + tail));
      assert HasHeader(src, lead, rest + tail);
    }
  }
}
