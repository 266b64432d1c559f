/** Group lists: reconciling a user's groups, and the comma-separated form of a config. */
module Groups {
  import opened Text
  import opened Host

  // ---- reconciling ---------------------------------------------------------------------

  function Union(current: seq<string>, extra: seq<string>): seq<string>
    decreases extra
  {
    if extra == [] then current
    else Union(if extra[0] in current then current else current + [extra[0]], extra[1..])
  }

  predicate Subset(extra: seq<string>, current: seq<string>) {
    forall g | g in extra :: g in current
  }

  lemma {:induction false} UnionSnoc(current: seq<string>, extra: seq<string>, g: string)
    ensures Union(current, extra + [g])
            == var u := Union(current, extra); if g in u then u else u + [g]
    decreases extra
  {
    if extra == [] {
      assert extra + [g] == [g] && [g][1..] == [];
    } else {
      assert (extra + [g])[1..] == extra[1..] + [g];
      UnionSnoc(if extra[0] in current then current else current + [extra[0]], extra[1..], g);
    }
  }

  /** Current groups come first and in order, nothing is lost or invented, and what is appended
      was not there before. */
  lemma {:induction false} UnionIsUnion(current: seq<string>, extra: seq<string>)
    ensures var u := Union(current, extra);
            && current <= u
            && (forall g :: g in u <==> g in current || g in extra)
            && (forall j | |current| <= j < |u| :: u[j] !in u[..j])
    decreases extra
  {
    if extra != [] {
      var n := |extra| - 1;
      var g, v := extra[n], Union(current, extra[..n]);
      assert extra == extra[..n] + [g];
      UnionSnoc(current, extra[..n], g);
      UnionIsUnion(current, extra[..n]);
      var u := Union(current, extra);
      assert forall x :: x in u <==> x in v || x == g;
      forall j | |current| <= j < |u| ensures u[j] !in u[..j] {
        assert u[..j] == v[..j];
        assert j == |v| ==> v[..j] == v;
      }
    }
  }

  /** It changes the list exactly when something requested is missing. */
  lemma UnionChanges(current: seq<string>, extra: seq<string>)
    ensures |Union(current, extra)| == |current| <==> Subset(extra, current)
    ensures Union(current, extra) == current <==> Subset(extra, current)
  {
    UnionIsUnion(current, extra);
    var u := Union(current, extra);
    if |u| == |current| {
      assert u == current;
      assert forall g | g in extra :: g in u;
    } else {
      var g := u[|current|];
      assert g in u && u[..|current|] == current && g !in current;
    }
  }

  /** FreeBSD compares lengths. */
  method FreeBsdReconcile(current: seq<string>, extraGroups: seq<string>) returns (union: seq<string>, changed: bool)
    ensures union == Union(current, extraGroups)
    ensures changed <==> !Subset(extraGroups, current)
  {
    UnionChanges(current, extraGroups);
    if |extraGroups| == 0 {
      return current, false;
    }
    union := current;
    for i := 0 to |extraGroups|
      invariant union == Union(current, extraGroups[..i])
    {
      UnionSnoc(current, extraGroups[..i], extraGroups[i]);
      assert extraGroups[..i + 1] == extraGroups[..i] + [extraGroups[i]];
      if extraGroups[i] !in union {
        union := union + [extraGroups[i]];
      }
    }
    assert extraGroups[..|extraGroups|] == extraGroups;
    changed := |union| != |current|;
  }

  /** NetBSD keeps a flag. */
  method NetBsdReconcile(current: seq<string>, extraGroups: seq<string>) returns (union: seq<string>, added: bool)
    ensures union == Union(current, extraGroups)
    ensures added <==> !Subset(extraGroups, current)
  {
    union, added := current, false;
    for i := 0 to |extraGroups|
      invariant union == Union(current, extraGroups[..i])
      invariant added <==> union != current
    {
      UnionSnoc(current, extraGroups[..i], extraGroups[i]);
      UnionIsUnion(current, extraGroups[..i]);
      assert extraGroups[..i + 1] == extraGroups[..i] + [extraGroups[i]];
      if extraGroups[i] !in union {
        union := union + [extraGroups[i]];
        added := true;
      }
    }
    assert extraGroups[..|extraGroups|] == extraGroups;
    UnionChanges(current, extraGroups);
  }

  /** With wheel folded in as Apply does, reconciling again changes nothing, the user ends up in
      every requested group, and in wheel when sudo or doas asks for it. */
  lemma ReconcileIsFixedPoint(current: seq<string>, u: UserSpec)
    ensures var r := Union(current, WantedGroups(u));
            && Union(r, WantedGroups(u)) == r
            && Subset(u.groups, r) && (u.sudo || u.doas ==> "wheel" in r)
            && ToSet(r) == ToSet(current) + ToSet(WantedGroups(u))
            && forall g :: g in r <==> g in current || AsksFor(u, g)
  {
    var w := WantedGroups(u);
    var r := Union(current, w);
    UnionIsUnion(current, w);
    UnionChanges(r, w);
    assert "wheel" in u.groups + ["wheel"];
  }

  // ---- the comma list ------------------------------------------------------------------

  function Kept(parts: seq<string>): seq<string> {
    if parts == [] then []
    else Kept(parts[..|parts| - 1]) + var p := TrimSpace(parts[|parts| - 1]); if p == "" then [] else [p]
  }

  function GroupNames(g: string): seq<string> {
    Kept(Split(g, ','))
  }

  method NormaliseGroups(g: string) returns (out: seq<string>)
    ensures out == GroupNames(g)
  {
    out := [];
    var parts := Split(g, ',');
    for i := 0 to |parts|
      invariant out == Kept(parts[..i])
    {
      assert parts[..i + 1][..i] == parts[..i];
      var part := TrimSpace(parts[i]);
      if part != "" {
        out := out + [part];
      }
    }
    assert parts[..|parts|] == parts;
  }

  predicate GroupName(s: string) {
    s != "" && Trimmed(s) && ',' !in s
  }

  lemma {:induction false} KeptAreNames(parts: seq<string>)
    requires forall p | p in parts :: ',' !in p
    ensures forall n | n in Kept(parts) :: GroupName(n)
    decreases parts
  {
    if parts != [] {
      var n := |parts| - 1;
      assert parts[n] in parts;
      KeptAreNames(parts[..n]);
      TrimSpaceKeepsOut(parts[n], ',');
      var l, t := TrimSpaceTrims(parts[n]);
    }
  }

  /** Every name that comes out is non-empty, trimmed and free of commas. */
  lemma NamesAreNames(g: string)
    ensures forall n | n in GroupNames(g) :: GroupName(n)
  {
    SplitPiecesAreFree(g, ',');
    KeptAreNames(Split(g, ','));
  }

  lemma KeptSnoc(x: seq<string>, p: string)
    ensures Kept(x + [p]) == Kept(x) + if TrimSpace(p) == "" then [] else [TrimSpace(p)]
  {
    assert (x + [p])[..|x|] == x;
  }

  lemma NothingKept()
    ensures Kept([]) == []
  {
  }

  lemma {:induction false} KeptAppend(x: seq<string>, y: seq<string>)
    ensures Kept(x + y) == Kept(x) + Kept(y)
    decreases y
  {
    hide TrimSpace, Kept;
    if y == [] {
      NothingKept();
      assert x + y == x && Kept(x) + [] == Kept(x);
    } else {
      var n := |y| - 1;
      var k := if TrimSpace(y[n]) == "" then [] else [TrimSpace(y[n])];
      assert x + y == (x + y[..n]) + [y[n]] && y == y[..n] + [y[n]];
      KeptSnoc(x + y[..n], y[n]);
      KeptSnoc(y[..n], y[n]);
      KeptAppend(x, y[..n]);
      assert Kept(x) + Kept(y[..n]) + k == Kept(x) + (Kept(y[..n]) + k);
    }
  }

  /** The names of a list are those of its two sides, at any comma. */
  lemma GroupNamesAtComma(a: string, b: string)
    ensures GroupNames(a + ("," + b)) == GroupNames(a) + GroupNames(b)
  {
    SplitAt(a, b, ',');
    KeptAppend(Split(a, ','), Split(b, ','));
  }

  /** A piece without commas is its trimmed self, unless it is blank. */
  lemma GroupNamesOfPiece(p: string)
    requires ',' !in p
    ensures AllSpace(p) ==> GroupNames(p) == []
    ensures !AllSpace(p) ==> GroupNames(p) == [TrimSpace(p)] && GroupName(TrimSpace(p))
  {
    SplitWhole(p, ',');
    var lead, tail := TrimSpaceTrims(p);
    assert [p][..0] == [] && Kept([p]) == if TrimSpace(p) == "" then [] else [TrimSpace(p)];
    if AllSpace(p) {
      TrimSpaceOf(p, "", "");
      assert p + "" + "" == p;
    }
    TrimSpaceKeepsOut(p, ',');
  }

  function Spaced(names: seq<string>): (r: seq<string>)
    ensures |r| == |names| && forall i | 0 <= i < |names| :: r[i] == " " + names[i]
  {
    seq(|names|, i requires 0 <= i < |names| => " " + names[i])
  }

  /** After the first name, every piece of the printed list begins with a blank. */
  lemma {:induction false} SplitPrinted(lead: string, names: seq<string>)
    requires names != [] && ',' !in lead && forall n | n in names :: ',' !in n
    ensures Split(lead + Join(names, ", "), ',') == [lead + names[0]] + Spaced(names[1..])
    decreases names
  {
    var first := lead + names[0];
    assert names[0] in names;
    SplitWhole(first, ',');
    if |names| > 1 {
      var rest := Join(names[1..], ", ");
      SplitPrinted(" ", names[1..]);
      SplitAt(first, " " + rest, ',');
      assert lead + Join(names, ", ") == first + ([','] + (" " + rest));
      assert Spaced(names[1..]) == [" " + names[1]] + Spaced(names[1..][1..]);
    }
  }

  lemma {:induction false} KeptTrims(parts: seq<string>, names: seq<string>)
    requires |parts| == |names|
    requires forall i | 0 <= i < |names| :: TrimSpace(parts[i]) == names[i] && names[i] != ""
    ensures Kept(parts) == names
    decreases parts
  {
    if parts != [] {
      var n := |parts| - 1;
      KeptTrims(parts[..n], names[..n]);
      assert names == names[..n] + [names[n]];
    }
  }

  /** Printing a list of names and normalising it gives the list back. */
  lemma GroupListRoundTrip(names: seq<string>)
    requires forall n | n in names :: GroupName(n)
    ensures GroupNames(Join(names, ", ")) == names
  {
    if names == [] {
      TrimmedStays("");
      assert Split("", ',') == [""] && [""][..0] == [];
    } else {
      SplitPrinted("", names);
      var parts := Split(Join(names, ", "), ',');
      assert "" + Join(names, ", ") == Join(names, ", ") && "" + names[0] == names[0];
      forall i | 0 <= i < |names| ensures TrimSpace(parts[i]) == names[i] && names[i] != "" {
        assert GroupName(names[i]);
        TrimSpaceOf("", names[i], "");
        TrimSpaceOf(" ", names[i], "");
        assert "" + names[i] + "" == names[i] && " " + names[i] + "" == " " + names[i];
      }
      KeptTrims(parts, names);
    }
  }
}
