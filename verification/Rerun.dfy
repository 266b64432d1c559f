/** A second Apply right after a successful one. */
module Rerun {
  import opened Text
  import opened Numbers
  import opened AuthorizedKeys
  import opened Host
  import opened Convergence
  import opened Resume

  /** The step calls SetHostname, replaces a file, creates a user or appends a key. */
  predicate Mutates(db: Accounts, h: Host, s: Step) {
    match s
    case Rename(name, probe) => Seen(probe.apply, h.kernel) != name
    case Drop(f) => Resolve(db, h, f).Some? && !InPlace(h.files, f.path, Resolve(db, h, f).value)
    case Ensure(u) => u.name !in h.users
    case AddKey(name, key) =>
      name in h.users && !HasLine(Split(TextAt(h.files, KeyFile(db, name)), '\n'), TrimSpace(key))
    case _ => false
  }

  /** How many steps of a run do. */
  function Mutations(db: Accounts, h: Host, p: seq<Step>): nat
    decreases p
  {
    if p == [] || Blocked(db, h, p[0]) then 0
    else (if Mutates(db, h, p[0]) then 1 else 0) + Mutations(db, Do(db, h, p[0]), p[1..])
  }

  /** Nothing escapes the count: a run without a mutation changes no hostname, no file and no account's
      being there. */
  lemma {:induction false} NoMutationNoChange(db: Accounts, h: Host, p: seq<Step>)
    requires Mutations(db, h, p) == 0
    ensures var x := Run(db, h, p); x.kernel == h.kernel && x.files == h.files && x.users.Keys == h.users.Keys
    decreases p
  {
    if p != [] && !Blocked(db, h, p[0]) {
      NoMutationNoChange(db, Do(db, h, p[0]), p[1..]);
    }
  }

  lemma {:induction false} MutationsAppend(db: Accounts, h: Host, p: seq<Step>, q: seq<Step>)
    requires Completes(db, h, p)
    ensures Mutations(db, h, p + q) == Mutations(db, h, p) + Mutations(db, Run(db, h, p), q)
    decreases p
  {
    if p == [] {
      assert p + q == q;
    } else {
      assert (p + q)[1..] == p[1..] + q;
      MutationsAppend(db, Do(db, h, p[0]), p[1..], q);
    }
  }

  predicate OneLineKeys(cfg: Config) {
    forall u, k | u in cfg.users && k in u.keys :: '\n' !in TrimSpace(k)
  }

  lemma UserPlanIsOneLine(cfg: Config)
    requires OneLineKeys(cfg)
    ensures UserPlan(UserSteps(cfg.users)) && OneLinePlan(UserSteps(cfg.users))
  {
    UserStepsAreUserSteps(cfg.users);
    forall s | s in UserSteps(cfg.users) ensures OneLine(s) {
      if s.AddKey? {
        var u := KeyStepFrom(cfg.users, s);
      }
    }
  }

  /** A run that completes appends a key of several lines. */
  lemma {:induction false} RepeatedKeyMutates(db: Accounts, h: Host, p: seq<Step>, s: Step)
    requires s in p && !OneLine(s) && Completes(db, h, p)
    ensures Mutations(db, h, p) > 0
    decreases p
  {
    if p[0] == s {
      NeverALine(TextAt(h.files, KeyFile(db, s.name)), TrimSpace(s.key));
    } else {
      RepeatedKeyMutates(db, Do(db, h, p[0]), p[1..], s);
    }
  }

  predicate Fits(w: Wanted) {
    0 <= w.uid < 0xFFFF_FFFF && 0 <= w.gid < 0xFFFF_FFFF
  }

  predicate Same(f: FileSpec, g: FileSpec) { f.path == g.path }

  /** The configuration agrees with itself: every owner id is one a file can have, entries for
      one path ask for one record, and keys bound for a dropped file are in its content. */
  predicate Tidy(db: Accounts, h: Host, cfg: Config) {
    && (forall f | f in cfg.writeFiles && Resolve(db, h, f).Some? :: Fits(Resolve(db, h, f).value))
    && (forall f, g | f in cfg.writeFiles && g in cfg.writeFiles && Same(f, g) ::
          Resolve(db, h, f) == Resolve(db, h, g))
    && (forall f, u, k | f in cfg.writeFiles && u in cfg.users && k in u.keys && KeyFile(db, u.name) == f.path ::
          HasLine(Split(f.content, '\n'), TrimSpace(k)))
  }

  predicate AllInPlace(db: Accounts, h: Host, x: Host, fs: seq<FileSpec>) {
    forall f | f in fs :: Resolve(db, h, f).Some? && InPlace(x.files, f.path, Resolve(db, h, f).value)
  }

  lemma {:induction false} DropsMutate(db: Accounts, x: Host, fs: seq<FileSpec>)
    requires AllResolve(db, x, fs)
    ensures Mutations(db, x, Drops(fs)) == 0 <==> AllInPlace(db, x, x, fs)
    ensures AllInPlace(db, x, x, fs) ==> Run(db, x, Drops(fs)) == x
    decreases fs
  {
    if fs != [] {
      var s := Drop(fs[0]);
      AllResolveCons(db, x, fs);
      assert Drops(fs)[1..] == Drops(fs[1..]);
      assert forall f :: f in fs <==> f == fs[0] || f in fs[1..];
      if !Mutates(db, x, s) {
        DropsMutate(db, x, fs[1..]);
      }
    }
  }

  lemma {:induction false} SettledMutates(db: Accounts, x: Host, p: seq<Step>)
    requires AllSettled(db, x, p)
    ensures Mutations(db, x, p) == 0
    decreases p
  {
    if p != [] {
      assert Settled(db, x, p[0]);
      SettledIsNoOp(db, x, p[0]);
      SettledMutates(db, x, p[1..]);
    }
  }

  lemma {:induction false} TailMutates(db: Accounts, x: Host, p: seq<Step>)
    requires forall s | s in p :: s.Install? || s.Shell?
    ensures Mutations(db, x, p) == 0
    decreases p
  {
    if p != [] {
      assert p[0] in p;
      TailMutates(db, Do(db, x, p[0]), p[1..]);
    }
  }

  /** The steps of the last three phases mutate nothing on a host where the users phase ran. */
  lemma RestMutates(db: Accounts, x: Host, cfg: Config)
    requires AllSettled(db, x, UserSteps(cfg.users))
    ensures Mutations(db, x, Rest(cfg)) == 0
  {
    var u, t := UserSteps(cfg.users), Installs(cfg.packages) + Shells(cfg.runCmds);
    SettledRunIsNoOp(db, x, u);
    SettledMutates(db, x, u);
    TailMutates(db, x, t);
    MutationsAppend(db, x, u, t);
  }

  /** A second run mutates nothing exactly when every dropped file is in place. */
  lemma SecondRunMutates(db: Accounts, h: Host, cfg: Config)
    requires OneLineKeys(cfg) && Completes(db, h, Plan(cfg, ALL_READ))
    ensures var x := Run(db, h, Plan(cfg, ALL_READ));
            && AllSettled(db, x, UserSteps(cfg.users))
            && (Mutations(db, x, Plan(cfg, ALL_READ)) == 0 <==> AllInPlace(db, h, x, cfg.writeFiles))
  {
    var x := Finished(db, h, cfg, ALL_READ);
    RunPlan(db, h, cfg, ALL_READ);
    FirstRunSettles(db, h, cfg);
    var r, d := Renames(cfg, ALL_READ), Drops(cfg.writeFiles);
    RunRenames(db, x, cfg, ALL_READ);
    assert Mutations(db, x, r) == 0;
    TargetsGrow(db, h, x, cfg.writeFiles);
    AllResolveGrows(db, h, x, cfg.writeFiles);
    InPlaceAlike(db, h, x, cfg.writeFiles);
    PlanSplits(cfg, ALL_READ);
    MutationsAppend(db, x, r, d + Rest(cfg));
    RunDrops(db, x, cfg.writeFiles);
    MutationsAppend(db, x, d, Rest(cfg));
    DropsMutate(db, x, cfg.writeFiles);
    assert Plan(cfg, ALL_READ) == r + (d + Rest(cfg));
    if AllInPlace(db, x, x, cfg.writeFiles) {
      RestMutates(db, x, cfg);
    }
  }

  lemma FirstRunSettles(db: Accounts, h: Host, cfg: Config)
    requires OneLineKeys(cfg) && AllResolve(db, h, cfg.writeFiles)
    ensures var x := Finished(db, h, cfg, ALL_READ);
            && AllSettled(db, x, UserSteps(cfg.users))
            && h.users.Keys <= x.users.Keys && h.groups <= x.groups
            && x.kernel == Renamed(h, cfg, ALL_READ).kernel
  {
    var g, p := Dropped(db, h, cfg, ALL_READ), UserSteps(cfg.users);
    UserPlanIsOneLine(cfg);
    UsersComplete(db, g, cfg.users);
    RunSettles(db, g, p);
    RunGrows(db, g, p);
    var u, x := Run(db, g, p), Finished(db, h, cfg, ALL_READ);
    forall s | s in p ensures Settled(db, x, s) {
      assert Settled(db, u, s);
    }
  }

  lemma InPlaceAlike(db: Accounts, h: Host, x: Host, fs: seq<FileSpec>)
    requires h.users.Keys <= x.users.Keys && h.groups <= x.groups && AllResolve(db, h, fs)
    ensures AllInPlace(db, h, x, fs) <==> AllInPlace(db, x, x, fs)
  {
    forall f | f in fs ensures Resolve(db, x, f) == Resolve(db, h, f) {
      ResolveGrows(db, h, x, f);
    }
  }

  // ---- the exact condition -------------------------------------------------------------

  /** A dropped path has the record of some entry for it. */
  lemma {:induction false} TargetsNamedBy(db: Accounts, h: Host, fs: seq<FileSpec>, path: string) returns (g: FileSpec)
    requires path in Targets(db, h, fs)
    ensures g in fs && g.path == path && Resolve(db, h, g).Some?
    ensures Targets(db, h, fs)[path] == Target(Resolve(db, h, g).value)
    decreases fs
  {
    TargetsCons(db, h, fs);
    g := fs[0];
    if path in Targets(db, h, fs[1..]) {
      g := TargetsNamedBy(db, h, fs[1..], path);
    }
  }

  lemma TargetsFirst(db: Accounts, h: Host, fs: seq<FileSpec>)
    requires fs != [] && Resolve(db, h, fs[0]).Some?
    requires forall e | e in fs[1..] :: !Same(e, fs[0])
    ensures fs[0].path in Targets(db, h, fs)
    ensures Targets(db, h, fs)[fs[0].path] == Target(Resolve(db, h, fs[0]).value)
  {
    TargetsCons(db, h, fs);
    forall e | e in fs[1..] ensures e.path != fs[0].path {
      assert !Same(e, fs[0]);
    }
    TargetsOnlyNamed(db, h, fs[1..], fs[0].path);
  }

  lemma TargetsCons(db: Accounts, h: Host, fs: seq<FileSpec>)
    requires fs != [] && Resolve(db, h, fs[0]).Some?
    ensures var t, r := Targets(db, h, fs), Targets(db, h, fs[1..]);
            && (forall p | p in r :: p in t && t[p] == r[p])
            && t.Keys == r.Keys + {fs[0].path}
            && (fs[0].path !in r ==> t[fs[0].path] == Target(Resolve(db, h, fs[0]).value))
  {
  }

  lemma {:induction false} TargetsOnlyNamed(db: Accounts, h: Host, fs: seq<FileSpec>, path: string)
    requires forall e | e in fs :: e.path != path
    ensures path !in Targets(db, h, fs)
    decreases fs
  {
    if fs != [] {
      assert fs[0] in fs;
      TargetsOnlyNamed(db, h, fs[1..], path);
    }
  }

  lemma TidyStaysInPlace(db: Accounts, h: Host, cfg: Config, f: FileSpec)
    requires OneLineKeys(cfg) && AllResolve(db, h, cfg.writeFiles) && Tidy(db, h, cfg) && f in cfg.writeFiles
    ensures InPlace(Finished(db, h, cfg, ALL_READ).files, f.path, Resolve(db, h, f).value)
  {
    var g, p := Dropped(db, h, cfg, ALL_READ), UserSteps(cfg.users);
    var w := Resolve(db, h, f).value;
    var i :| 0 <= i < |cfg.writeFiles| && cfg.writeFiles[i] == f;
    NextIsTarget(db, h, cfg.writeFiles, i);
    var e := TargetsNamedBy(db, h, cfg.writeFiles, f.path);
    assert Same(f, e) && g.files[f.path] == Target(w);
    forall s | s in p && s.AddKey? && KeyFile(db, s.name) == f.path
      ensures HasLine(Split(f.content, '\n'), TrimSpace(s.key))
    {
      var u := KeyStepFrom(cfg.users, s);
    }
    UserStepsAreUserSteps(cfg.users);
    RunLeavesFile(db, g, p, f.path);
    assert Fits(w);
    FittingTarget(Finished(db, h, cfg, ALL_READ).files, f.path, w);
  }

  lemma FittingTarget(files: map<string, File>, path: string, w: Wanted)
    requires path in files && files[path] == Target(w) && Fits(w)
    ensures InPlace(files, path, w)
  {
  }

  lemma InPlaceIsTidy(db: Accounts, h: Host, x: Host, cfg: Config)
    requires AllInPlace(db, h, x, cfg.writeFiles) && AllSettled(db, x, UserSteps(cfg.users))
    ensures Tidy(db, h, cfg)
  {
    forall f, g | f in cfg.writeFiles && g in cfg.writeFiles && Same(f, g)
      ensures Resolve(db, h, f) == Resolve(db, h, g)
    {
      assert InPlace(x.files, f.path, Resolve(db, h, f).value);
      assert InPlace(x.files, g.path, Resolve(db, h, g).value);
    }
    forall f | f in cfg.writeFiles
      ensures Fits(Resolve(db, h, f).value)
    {
      assert InPlace(x.files, f.path, Resolve(db, h, f).value);
    }
    forall f, u, k | f in cfg.writeFiles && u in cfg.users && k in u.keys && KeyFile(db, u.name) == f.path
      ensures HasLine(Split(f.content, '\n'), TrimSpace(k))
    {
      KeyStepOf(cfg.users, u, k);
      assert Settled(db, x, AddKey(u.name, k));
      assert InPlace(x.files, f.path, Resolve(db, h, f).value);
    }
  }

  /** Right after a successful Apply, a second one calls no SetHostname, replaces no file, creates no
      user and appends no key exactly when the keys are one line each and the configuration agrees
      with itself. */
  lemma SecondApplyIsNoOpIff(db: Accounts, h: Host, cfg: Config)
    requires Completes(db, h, Plan(cfg, ALL_READ))
    ensures Mutations(db, Run(db, h, Plan(cfg, ALL_READ)), Plan(cfg, ALL_READ)) == 0
            <==> OneLineKeys(cfg) && Tidy(db, h, cfg)
  {
    if OneLineKeys(cfg) {
      OneLineSecondApply(db, h, cfg);
    } else {
      RepeatedKeySecondApply(db, h, cfg);
    }
  }

  lemma RepeatedKeySecondApply(db: Accounts, h: Host, cfg: Config)
    requires !OneLineKeys(cfg) && Completes(db, h, Plan(cfg, ALL_READ))
    ensures Mutations(db, Run(db, h, Plan(cfg, ALL_READ)), Plan(cfg, ALL_READ)) > 0
  {
    var p, g, us := Plan(cfg, ALL_READ), Dropped(db, h, cfg, ALL_READ), UserSteps(cfg.users);
    var x := Run(db, h, p);
    var u, k :| u in cfg.users && k in u.keys && '\n' in TrimSpace(k);
    KeyStepOf(cfg.users, u, k);
    RunPlan(db, h, cfg, ALL_READ);
    UserStepsAreUserSteps(cfg.users);
    RunGrows(db, g, us);
    AllResolveGrows(db, h, x, cfg.writeFiles);
    RunPlan(db, x, cfg, ALL_READ);
    assert AddKey(u.name, k) in p;
    RepeatedKeyMutates(db, x, p, AddKey(u.name, k));
  }

  lemma OneLineSecondApply(db: Accounts, h: Host, cfg: Config)
    requires OneLineKeys(cfg) && Completes(db, h, Plan(cfg, ALL_READ))
    ensures Mutations(db, Run(db, h, Plan(cfg, ALL_READ)), Plan(cfg, ALL_READ)) == 0 <==> Tidy(db, h, cfg)
  {
    var x := Finished(db, h, cfg, ALL_READ);
    RunPlan(db, h, cfg, ALL_READ);
    SecondRunMutates(db, h, cfg);
    if Tidy(db, h, cfg) {
      forall f | f in cfg.writeFiles
        ensures Resolve(db, h, f).Some? && InPlace(x.files, f.path, Resolve(db, h, f).value)
      {
        TidyStaysInPlace(db, h, cfg, f);
      }
    }
    if AllInPlace(db, h, x, cfg.writeFiles) {
      InPlaceIsTidy(db, h, x, cfg);
    }
  }

  /** In particular for distinct paths, none of them an authorized_keys file, with owner ids a
      file can have. */
  lemma SecondApplyIsNoOp(db: Accounts, h: Host, cfg: Config)
    requires OneLineKeys(cfg) && Completes(db, h, Plan(cfg, ALL_READ))
    requires DistinctPaths(cfg.writeFiles)
    requires forall f, u | f in cfg.writeFiles && u in cfg.users :: KeyFile(db, u.name) != f.path
    requires forall f | f in cfg.writeFiles && Resolve(db, h, f).Some? :: Fits(Resolve(db, h, f).value)
    ensures Mutations(db, Run(db, h, Plan(cfg, ALL_READ)), Plan(cfg, ALL_READ)) == 0
  {
    forall f, g | f in cfg.writeFiles && g in cfg.writeFiles && Same(f, g) ensures f == g {
      OneEntryPerPath(cfg.writeFiles, f, g);
    }
    assert Tidy(db, h, cfg);
    SecondApplyIsNoOpIff(db, h, cfg);
  }

  predicate DistinctPaths(fs: seq<FileSpec>) {
    forall i, j | 0 <= i < |fs| && 0 <= j < |fs| && Same(fs[i], fs[j]) :: i == j
  }

  lemma OneEntryPerPath(fs: seq<FileSpec>, f: FileSpec, g: FileSpec)
    requires DistinctPaths(fs) && f in fs && g in fs && Same(f, g)
    ensures f == g
  {
    var i :| 0 <= i < |fs| && fs[i] == f;
    var j :| 0 <= j < |fs| && fs[j] == g;
  }

  lemma RootOwnedResolves(db: Accounts, h: Host, f: FileSpec)
    requires f.mode == "0644" && f.owner == "0" && f.group == "0"
    ensures Resolve(db, h, f).Some?
  {
    DecimalParses(0, MAX_INT64);
    assert Decimal(0) == "0";
    AtoiInvertsDecimal(0);
    var m := "0644";
    assert TrimPrefix(TrimPrefix(m, "0o"), "0O") == m by {
      assert m[1] == '6';
    }
    assert m[1..] == "644" && m[2..] == "44" && m[3..] == "4" && m[4..] == "";
    assert m[1..][1..] == m[2..] && m[2..][1..] == m[3..] && m[3..][1..] == m[4..];
    assert ParseDigits(m, 8, MAX_UINT32, 0) == ParseDigits(m[1..], 8, MAX_UINT32, 0);
    assert ParseDigits(m[1..], 8, MAX_UINT32, 0) == ParseDigits(m[2..], 8, MAX_UINT32, 6);
    assert ParseDigits(m[2..], 8, MAX_UINT32, 6) == ParseDigits(m[3..], 8, MAX_UINT32, 52);
    assert ParseDigits(m[3..], 8, MAX_UINT32, 52) == ParseDigits(m[4..], 8, MAX_UINT32, 420);
  }

  /** Two entries for one path that differ: the first Apply succeeds, and both are written again by
      every run. */
  lemma ConflictingEntriesRewrite(db: Accounts, h: Host, path: string)
    ensures var a, b := FileSpec(path, "a", "0644", "0", "0"), FileSpec(path, "b", "0644", "0", "0");
            var cfg := Config("", [], [a, b], [], []);
            Completes(db, h, Plan(cfg, ALL_READ)) &&
              Mutations(db, Run(db, h, Plan(cfg, ALL_READ)), Plan(cfg, ALL_READ)) > 0
  {
    var a, b := FileSpec(path, "a", "0644", "0", "0"), FileSpec(path, "b", "0644", "0", "0");
    var cfg := Config("", [], [a, b], [], []);
    RootOwnedResolves(db, h, a);
    RootOwnedResolves(db, h, b);
    RunPlan(db, h, cfg, ALL_READ);
    assert a in cfg.writeFiles && b in cfg.writeFiles && Same(a, b);
    SecondApplyIsNoOpIff(db, h, cfg);
  }
}
