/** Crash and resume: runs stopped after any number of System calls, then one complete run. */
module Resume {
  import opened Text
  import opened Numbers
  import opened Host
  import opened Convergence
  import opened KeyOwners

  /** Nothing is appended again by a later run: each key is one line, or bound for a file that
      write_files drops first; or the run ends before the users phase. */
  predicate Replayable(db: Accounts, h: Host, cfg: Config) {
    AllResolve(db, h, cfg.writeFiles) ==>
      forall u, k | u in cfg.users && k in u.keys ::
        '\n' !in TrimSpace(k) || KeyFile(db, u.name) in Targets(db, h, cfg.writeFiles)
  }

  // ---- the phases of one run -----------------------------------------------------------

  function Renamed(h: Host, cfg: Config, probe: Probe): Host {
    if cfg.hostname == "" || Seen(probe.apply, h.kernel) == cfg.hostname then h else SetHostname(h, cfg.hostname, probe)
  }

  function Dropped(db: Accounts, h: Host, cfg: Config, probe: Probe): Host {
    var g := Renamed(h, cfg, probe);
    g.(files := g.files + Targets(db, h, cfg.writeFiles))
  }

  function Finished(db: Accounts, h: Host, cfg: Config, probe: Probe): Host {
    var g := Dropped(db, h, cfg, probe);
    if !AllResolve(db, h, cfg.writeFiles) then g
    else
      var u := Run(db, g, UserSteps(cfg.users));
      u.(packages := u.packages + ToSet(cfg.packages), ran := u.ran + cfg.runCmds)
  }

  lemma {:induction false} KeysComplete(db: Accounts, h: Host, name: string, keys: seq<string>)
    requires name in h.users
    ensures Completes(db, h, KeySteps(name, keys))
    decreases keys
  {
    if keys != [] {
      var s := AddKey(name, keys[0]);
      assert KeySteps(name, keys)[1..] == KeySteps(name, keys[1..]);
      KeysComplete(db, Do(db, h, s), name, keys[1..]);
    }
  }

  /** The users phase never fails on its own: a key is only added to an account that exists. */
  lemma {:induction false} UsersComplete(db: Accounts, h: Host, us: seq<UserSpec>)
    ensures Completes(db, h, UserSteps(us))
    decreases us
  {
    if us != [] {
      var n := |us| - 1;
      UsersComplete(db, h, us[..n]);
      OneUserCompletes(db, Run(db, h, UserSteps(us[..n])), us[n]);
      RunAppend(db, h, UserSteps(us[..n]), OneUser(us[n]));
    }
  }

  lemma OneUserCompletes(db: Accounts, h: Host, u: UserSpec)
    ensures Completes(db, h, OneUser(u))
  {
    var x := Do(db, h, Ensure(u));
    assert OneUser(u)[1..] == KeySteps(u.name, u.keys);
    KeysComplete(db, x, u.name, u.keys);
  }

  lemma {:induction false} UserStepsAreUserSteps(us: seq<UserSpec>)
    ensures UserPlan(UserSteps(us))
    decreases us
  {
    if us != [] {
      UserStepsAreUserSteps(us[..|us| - 1]);
    }
  }

  lemma {:induction false} RunShells(db: Accounts, h: Host, cmds: seq<string>)
    ensures Run(db, h, Shells(cmds)) == h.(ran := h.ran + cmds)
    ensures Completes(db, h, Shells(cmds))
    decreases cmds
  {
    if cmds == [] {
      assert h.ran + cmds == h.ran;
    } else {
      var x := Do(db, h, Shell(cmds[0]));
      assert Shells(cmds)[1..] == Shells(cmds[1..]);
      RunShells(db, x, cmds[1..]);
      LogSnoc(h.ran, cmds);
    }
  }

  lemma LogSnoc(log: seq<string>, cmds: seq<string>)
    requires cmds != []
    ensures log + [cmds[0]] + cmds[1..] == log + cmds
  {
  }

  /** How many of the shell commands are among the first k steps of the last two phases. */
  function ShellsIn(cfg: Config, k: nat): nat {
    var i := |Installs(cfg.packages)|;
    if k <= i then 0 else k - i
  }

  lemma RunTail(db: Accounts, h: Host, cfg: Config, k: nat)
    requires k <= |Installs(cfg.packages) + Shells(cfg.runCmds)|
    ensures var p := (Installs(cfg.packages) + Shells(cfg.runCmds))[..k];
            && Completes(db, h, p)
            && Run(db, h, p) == h.(packages := h.packages + if k == 0 then {} else ToSet(cfg.packages),
                                   ran := h.ran + cfg.runCmds[..ShellsIn(cfg, k)])
  {
    var p, q := Installs(cfg.packages), Shells(cfg.runCmds);
    if k <= |p| {
      assert (p + q)[..k] == p[..k];
      assert h.ran + cfg.runCmds[..0] == h.ran;
      if k == 0 {
        assert h.packages + {} == h.packages;
      } else {
        assert p[..k] == [Install(cfg.packages)] && p[..k][1..] == [];
      }
    } else {
      var j := k - |p|;
      assert (p + q)[..k] == p + q[..j];
      assert q[..j] == Shells(cfg.runCmds[..j]);
      RunAppend(db, h, p, q[..j]);
      if p != [] {
        assert p[1..] == [];
      } else {
        assert h.packages + ToSet(cfg.packages) == h.packages;
      }
      RunShells(db, Run(db, h, p), cfg.runCmds[..j]);
    }
  }

  lemma RunRenames(db: Accounts, h: Host, cfg: Config, probe: Probe)
    ensures Run(db, h, Renames(cfg, probe)) == Renamed(h, cfg, probe)
    ensures Completes(db, h, Renames(cfg, probe))
  {
    if cfg.hostname != "" {
      assert Renames(cfg, probe)[1..] == [];
    }
  }

  lemma RunToDrops(db: Accounts, h: Host, cfg: Config, probe: Probe)
    ensures var p := Renames(cfg, probe) + Drops(cfg.writeFiles);
            && Run(db, h, p) == Dropped(db, h, cfg, probe)
            && (Completes(db, h, p) <==> AllResolve(db, h, cfg.writeFiles))
  {
    var g := Renamed(h, cfg, probe);
    RunRenames(db, h, cfg, probe);
    RunAppend(db, h, Renames(cfg, probe), Drops(cfg.writeFiles));
    RunDrops(db, g, cfg.writeFiles);
    TargetsGrow(db, h, g, cfg.writeFiles);
    AllResolveGrows(db, h, g, cfg.writeFiles);
  }

  lemma PlanSplits(cfg: Config, probe: Probe)
    ensures Plan(cfg, probe) == (Renames(cfg, probe) + Drops(cfg.writeFiles)) + Rest(cfg)
  {
  }

  /** What one undisturbed run leaves, phase by phase, and exactly when it succeeds. */
  lemma RunPlan(db: Accounts, h: Host, cfg: Config, probe: Probe)
    ensures Run(db, h, Plan(cfg, probe)) == Finished(db, h, cfg, probe)
    ensures Completes(db, h, Plan(cfg, probe)) <==> AllResolve(db, h, cfg.writeFiles)
  {
    var p := Renames(cfg, probe) + Drops(cfg.writeFiles);
    var q := Installs(cfg.packages) + Shells(cfg.runCmds);
    PlanSplits(cfg, probe);
    RunToDrops(db, h, cfg, probe);
    RunAppend(db, h, p, Rest(cfg));
    if AllResolve(db, h, cfg.writeFiles) {
      var g := Dropped(db, h, cfg, probe);
      UsersComplete(db, g, cfg.users);
      RunAppend(db, g, UserSteps(cfg.users), q);
      RunTail(db, Run(db, g, UserSteps(cfg.users)), cfg, |q|);
      assert q[..|q|] == q;
      TailWhole(cfg, Run(db, g, UserSteps(cfg.users)));
    }
  }

  lemma TailWhole(cfg: Config, h: Host)
    ensures var n := |Installs(cfg.packages) + Shells(cfg.runCmds)|;
            && cfg.runCmds[..ShellsIn(cfg, n)] == cfg.runCmds
            && h.packages + (if n == 0 then {} else ToSet(cfg.packages)) == h.packages + ToSet(cfg.packages)
  {
  }

  // ---- where a stopped run can leave the host ------------------------------------------

  datatype Stage = Untouched | TornName | Dropping(files: nat) | TornDrop(file: nat)
                 | InUsers(steps: nat, cmds: nat) | TornUser(step: nat, part: set<string>)
                 | TornKey(step: nat, part: set<string>)

  /** Host x is what a run over h leaves when stopped at the stage. */
  predicate At(db: Accounts, h: Host, cfg: Config, probe: Probe, x: Host, s: Stage) {
    match s
    case Untouched => x == h
    case Dropping(j) =>
      j <= |cfg.writeFiles| &&
      var g := Renamed(h, cfg, probe);
      x == g.(files := g.files + Targets(db, h, cfg.writeFiles[..j]))
    case TornName =>
      cfg.hostname != "" && x == Torn(db, h, Rename(cfg.hostname, probe), {})
    case TornDrop(j) =>
      j < |cfg.writeFiles| && AllResolve(db, h, cfg.writeFiles[..j]) &&
      var g := Renamed(h, cfg, probe);
      x == Torn(db, g.(files := g.files + Targets(db, h, cfg.writeFiles[..j])), Drop(cfg.writeFiles[j]), {})
    case TornUser(j, part) =>
      AllResolve(db, h, cfg.writeFiles) && j < |UserSteps(cfg.users)| && UserSteps(cfg.users)[j].Ensure? &&
      x == Torn(db, Run(db, Dropped(db, h, cfg, probe), UserSteps(cfg.users)[..j]), UserSteps(cfg.users)[j], part)
    case TornKey(j, part) =>
      AllResolve(db, h, cfg.writeFiles) && j < |UserSteps(cfg.users)| && UserSteps(cfg.users)[j].AddKey? &&
      x == Torn(db, Run(db, Dropped(db, h, cfg, probe), UserSteps(cfg.users)[..j]), UserSteps(cfg.users)[j], part)
    case InUsers(j, c) =>
      AllResolve(db, h, cfg.writeFiles) && j <= |UserSteps(cfg.users)| && c <= |cfg.runCmds| &&
      var u := Run(db, Dropped(db, h, cfg, probe), UserSteps(cfg.users)[..j]);
      x == u.(packages := x.packages, ran := u.ran + cfg.runCmds[..c]) &&
      u.packages <= x.packages <= u.packages + ToSet(cfg.packages) &&
      (c > 0 ==> ToSet(cfg.packages) <= x.packages) &&
      (c > 0 || x.packages != u.packages ==> j == |UserSteps(cfg.users)|)
  }

  lemma StageOfDrops(db: Accounts, h: Host, cfg: Config, probe: Probe, k: nat) returns (s: Stage)
    requires k <= |Renames(cfg, probe) + Drops(cfg.writeFiles)|
    ensures At(db, h, cfg, probe, Run(db, h, (Renames(cfg, probe) + Drops(cfg.writeFiles))[..k]), s) && !s.TornKey?
  {
    var r, d := Renames(cfg, probe), Drops(cfg.writeFiles);
    RunRenames(db, h, cfg, probe);
    RunCut(db, h, r, d, k);
    if k < |r| {
      assert r[..k] == [];
      s := Untouched;
    } else {
      s := Dropping(k - |r|);
      DropsCut(db, h, cfg, probe, k - |r|);
    }
  }

  lemma DropsCut(db: Accounts, h: Host, cfg: Config, probe: Probe, j: nat)
    requires j <= |cfg.writeFiles|
    ensures At(db, h, cfg, probe, Run(db, Renamed(h, cfg, probe), Drops(cfg.writeFiles)[..j]), Dropping(j))
  {
    var g := Renamed(h, cfg, probe);
    var fs := cfg.writeFiles[..j];
    assert Drops(cfg.writeFiles)[..j] == Drops(fs);
    RunDrops(db, g, fs);
    assert SameNames(h, g);
    TargetsGrow(db, h, g, fs);
  }

  lemma StageOfRest(db: Accounts, h: Host, cfg: Config, probe: Probe, k: nat) returns (s: Stage)
    requires k <= |Rest(cfg)| && AllResolve(db, h, cfg.writeFiles)
    ensures At(db, h, cfg, probe, Run(db, Dropped(db, h, cfg, probe), Rest(cfg)[..k]), s) && !s.TornKey?
  {
    var u := UserSteps(cfg.users);
    var g := Dropped(db, h, cfg, probe);
    RunCut(db, g, u, Installs(cfg.packages) + Shells(cfg.runCmds), k);
    UsersComplete(db, g, cfg.users);
    if k <= |u| {
      s := InUsers(k, 0);
      assert Run(db, g, u[..k]).ran + cfg.runCmds[..0] == Run(db, g, u[..k]).ran;
    } else {
      s := InUsers(|u|, ShellsIn(cfg, k - |u|));
      assert u[..|u|] == u;
      RunTail(db, Run(db, g, u), cfg, k - |u|);
    }
  }

  lemma StageOf(db: Accounts, h: Host, cfg: Config, probe: Probe, k: nat) returns (s: Stage)
    requires k <= |Plan(cfg, probe)|
    ensures At(db, h, cfg, probe, Run(db, h, Plan(cfg, probe)[..k]), s) && !s.TornKey?
  {
    hide At, Plan, Rest, Run, Completes, Do, Blocked, Resolve, AllResolve, Dropped;
    var p := Renames(cfg, probe) + Drops(cfg.writeFiles);
    PlanSplits(cfg, probe);
    RunCut(db, h, p, Rest(cfg), k);
    RunToDrops(db, h, cfg, probe);
    if k <= |p| {
      s := StageOfDrops(db, h, cfg, probe, k);
    } else if AllResolve(db, h, cfg.writeFiles) {
      s := StageOfRest(db, h, cfg, probe, k - |p|);
    } else {
      assert p[..|p|] == p;
      s := StageOfDrops(db, h, cfg, probe, |p|);
    }
  }

  /** A step that stopped part way adds only a few more. */
  lemma TornStageOf(db: Accounts, h: Host, cfg: Config, probe: Probe, k: nat, part: set<string>) returns (s: Stage)
    requires k < |Plan(cfg, probe)| && Completes(db, h, Plan(cfg, probe)[..k])
    ensures var p := Plan(cfg, probe); At(db, h, cfg, probe, Torn(db, Run(db, h, p[..k]), p[k], part), s)
    ensures s.TornKey? ==> Plan(cfg, probe)[k].AddKey?
  {
    hide Completes, Do, Blocked, Resolve, AllResolve, Dropped, UserSteps, Torn;
    var p, r := Plan(cfg, probe), |Renames(cfg, probe)|;
    if k < r {
      assert p[..k] == [] && p[k] == Rename(cfg.hostname, probe);
      TornByName(db, h, p[k], part);
      s := TornName;
    } else if k < r + |cfg.writeFiles| {
      s := TornDrop(k - r);
      TornDropStage(db, h, cfg, probe, k - r, part);
    } else {
      s := TornRestStage(db, h, cfg, probe, k - r - |cfg.writeFiles|, part);
    }
  }

  /** A torn rename or drop has no parts to choose from. */
  lemma TornByName(db: Accounts, h: Host, s: Step, part: set<string>)
    requires s.Rename? || s.Drop?
    ensures Torn(db, h, s, part) == Torn(db, h, s, {})
  {
  }

  lemma TornDropStage(db: Accounts, h: Host, cfg: Config, probe: Probe, j: nat, part: set<string>)
    requires j < |cfg.writeFiles|
    requires Completes(db, h, Plan(cfg, probe)[..|Renames(cfg, probe)| + j])
    ensures var p, k := Plan(cfg, probe), |Renames(cfg, probe)| + j;
            At(db, h, cfg, probe, Torn(db, Run(db, h, p[..k]), p[k], part), TornDrop(j))
  {
    hide Run, Completes, Do, Blocked, Resolve, AllResolve, Torn;
    TornByName(db, Run(db, h, Plan(cfg, probe)[..|Renames(cfg, probe)| + j]), Drop(cfg.writeFiles[j]), part);
    var r, d := Renames(cfg, probe), Drops(cfg.writeFiles);
    var g, fs := Renamed(h, cfg, probe), cfg.writeFiles[..j];
    assert d[..j] == Drops(fs);
    assert Plan(cfg, probe)[..|r| + j] == r + d[..j];
    assert Plan(cfg, probe)[|r| + j] == Drop(cfg.writeFiles[j]);
    RunRenames(db, h, cfg, probe);
    RunAppend(db, h, r, Drops(fs));
    RunDrops(db, g, fs);
    TargetsGrow(db, h, g, fs);
    AllResolveGrows(db, h, g, fs);
  }

  lemma TornRestStage(db: Accounts, h: Host, cfg: Config, probe: Probe, i: nat, part: set<string>) returns (s: Stage)
    requires i < |Rest(cfg)|
    requires var k := |Renames(cfg, probe)| + |cfg.writeFiles| + i; Completes(db, h, Plan(cfg, probe)[..k])
    ensures var p, k := Plan(cfg, probe), |Renames(cfg, probe)| + |cfg.writeFiles| + i;
            At(db, h, cfg, probe, Torn(db, Run(db, h, p[..k]), p[k], part), s) && (s.TornKey? ==> p[k].AddKey?)
  {
    hide Torn, Do, Blocked, Run, Completes, Dropped, AllResolve;
    var d, u := Renames(cfg, probe) + Drops(cfg.writeFiles), UserSteps(cfg.users);
    var g := Dropped(db, h, cfg, probe);
    PlanSplits(cfg, probe);
    assert Plan(cfg, probe)[..|d| + i] == d + Rest(cfg)[..i] && Plan(cfg, probe)[|d| + i] == Rest(cfg)[i];
    RunAppend(db, h, d, Rest(cfg)[..i]);
    RunToDrops(db, h, cfg, probe);
    if i < |u| {
      assert Rest(cfg)[..i] == u[..i] && Rest(cfg)[i] == u[i];
      UserStepsAreUserSteps(cfg.users);
      assert u[i] in u && UserStep(u[i]);
      s := if u[i].Ensure? then TornUser(i, part) else TornKey(i, part);
    } else {
      s := TornTailStage(db, h, cfg, probe, i, part);
    }
  }

  lemma TornTailStage(db: Accounts, h: Host, cfg: Config, probe: Probe, i: nat, part: set<string>) returns (s: Stage)
    requires |UserSteps(cfg.users)| <= i < |Rest(cfg)| && AllResolve(db, h, cfg.writeFiles)
    ensures At(db, h, cfg, probe, Torn(db, Run(db, Dropped(db, h, cfg, probe), Rest(cfg)[..i]), Rest(cfg)[i], part), s)
    ensures s.InUsers?
  {
    hide Resolve, Do, Blocked, Run, Completes, Dropped, AllResolve, UserSteps, Torn, Tail, ShellsIn;
    var g, u := Dropped(db, h, cfg, probe), UserSteps(cfg.users);
    var k := i - |u|;
    s := InUsers(|u|, ShellsIn(cfg, k));
    RunCut(db, g, u, Tail(cfg), i);
    UsersComplete(db, g, cfg.users);
    assert u[..|u|] == u && Rest(cfg)[i] == Tail(cfg)[k];
    TornTail(db, Run(db, g, u), cfg, k, part);
  }

  lemma TornTail(db: Accounts, v: Host, cfg: Config, k: nat, part: set<string>)
    requires k < |Tail(cfg)|
    ensures var x := Torn(db, Run(db, v, Tail(cfg)[..k]), Tail(cfg)[k], part);
            && ShellsIn(cfg, k) <= |cfg.runCmds|
            && x == v.(packages := x.packages, ran := v.ran + cfg.runCmds[..ShellsIn(cfg, k)])
            && v.packages <= x.packages <= v.packages + ToSet(cfg.packages)
            && (ShellsIn(cfg, k) > 0 ==> ToSet(cfg.packages) <= x.packages)
  {
    hide Resolve, Do, Blocked, Run, Completes;
    RunTail(db, v, cfg, k);
    TailKinds(cfg, k);
  }

  lemma TailKinds(cfg: Config, k: nat)
    requires k < |Tail(cfg)|
    ensures Tail(cfg)[k].Shell? || (k == 0 && Tail(cfg)[k] == Install(cfg.packages))
  {
  }

  // ---- a second run over what a stopped run left ---------------------------------------

  /** Everything but the log of shell commands. */
  function Core(h: Host): Host {
    h.(ran := [])
  }

  /** A run whose Hostname probe fails calls SetHostname even on a host that has the name, and when
      that cannot read either, it rewrites the file. That is harmless when the file has that very
      record, or write_files replaces it. */
  predicate ProbeHarmless(db: Accounts, h: Host, cfg: Config) {
    cfg.hostname == "" || h.kernel != cfg.hostname
    || (HOSTNAME_FILE in h.files && h.files[HOSTNAME_FILE] == HostnameRecord(cfg.hostname))
    || HOSTNAME_FILE in Targets(db, h, cfg.writeFiles)
  }

  /** SetHostname on a host that has the name, live and on file, is a no-op, and only there. */
  lemma SetHostnameIsNoOpIff(h: Host, name: string)
    ensures SetHostname(h, name, ALL_READ) == h
            <==> h.kernel == name
                 && (TrimSpace(TextAt(h.files, HOSTNAME_FILE)) == name
                     || (HOSTNAME_FILE in h.files && h.files[HOSTNAME_FILE] == File(name + "\n", 0x1A4, 0, 0)))
    ensures h.kernel != name ==>
              SetHostname(h, name, ALL_READ)
              == h.(kernel := name, files := h.files[HOSTNAME_FILE := File(name + "\n", 0x1A4, 0, 0)])
  {
    var r := HostnameRecord(name);
    if HOSTNAME_FILE in h.files && h.files[HOSTNAME_FILE] == r {
      assert h.files[HOSTNAME_FILE := r] == h.files;
    }
    assert h.files[HOSTNAME_FILE := r] == h.files ==> HOSTNAME_FILE in h.files && h.files[HOSTNAME_FILE] == r;
  }

  /** Whatever the reads gave, the first two phases leave the same host. */
  lemma ProbeForgotten(db: Accounts, h: Host, cfg: Config, probe: Probe)
    requires probe.apply || ProbeHarmless(db, h, cfg)
    ensures Dropped(db, h, cfg, probe) == Dropped(db, h, cfg, ALL_READ)
  {
    hide Targets, Resolve, TrimSpace;
    var t := Targets(db, h, cfg.writeFiles);
    var m := h.files[HOSTNAME_FILE := HostnameRecord(cfg.hostname)];
    if !probe.apply && cfg.hostname != "" && h.kernel == cfg.hostname {
      if HOSTNAME_FILE in t {
        assert m + t == h.files + t;
      } else {
        assert m == h.files;
      }
    }
  }

  lemma RenamedIsFixed(h: Host, cfg: Config, probe: Probe, x: Host)
    requires x.kernel == Renamed(h, cfg, probe).kernel
    ensures Renamed(x, cfg, ALL_READ) == x
  {
  }

  lemma MergeTwice(m: map<string, File>, s: map<string, File>, t: map<string, File>)
    requires s.Keys <= t.Keys
    ensures (m + s) + t == m + t
  {
  }

  /** Whatever the files phase got to, replaying it ends the same. */
  lemma ResumeInDrops(db: Accounts, h: Host, cfg: Config, probe: Probe, x: Host)
    requires probe.apply || ProbeHarmless(db, h, cfg)
    requires var g, t := Renamed(h, cfg, probe), Targets(db, h, cfg.writeFiles);
             x == g.(files := x.files) && x.files + t == g.files + t
    ensures Finished(db, x, cfg, ALL_READ) == Finished(db, h, cfg, ALL_READ)
  {
    RenamedIsFixed(h, cfg, probe, x);
    assert SameNames(h, x);
    TargetsGrow(db, h, x, cfg.writeFiles);
    AllResolveGrows(db, h, x, cfg.writeFiles);
    ProbeForgotten(db, h, cfg, probe);
    assert Dropped(db, x, cfg, ALL_READ) == Dropped(db, h, cfg, probe);
  }

  lemma DroppingMerges(db: Accounts, h: Host, cfg: Config, probe: Probe, x: Host, s: Stage)
    requires At(db, h, cfg, probe, x, s) && (s.Dropping? || s.TornDrop?)
    ensures var g, t := Renamed(h, cfg, probe), Targets(db, h, cfg.writeFiles);
            x == g.(files := x.files) && x.files + t == g.files + t
  {
    var g, fs := Renamed(h, cfg, probe), cfg.writeFiles;
    var j := if s.Dropping? then s.files else s.file;
    TargetsCut(db, h, fs, j);
    MergeTwice(g.files, Targets(db, h, fs[..j]), Targets(db, h, fs));
    if s.TornDrop? {
      TornDropIsTarget(db, h, fs, j, g.(files := g.files + Targets(db, h, fs[..j])));
    }
  }

  /** Dying inside a drop only touches a path the whole phase writes. */
  lemma TornDropIsTarget(db: Accounts, h: Host, fs: seq<FileSpec>, j: nat, y: Host)
    requires j < |fs| && AllResolve(db, h, fs[..j]) && SameNames(h, y)
    ensures var x, t := Torn(db, y, Drop(fs[j]), {}), Targets(db, h, fs);
            && x == y.(files := x.files) && x.files + t == y.files + t
            && forall p | p !in t :: SameAt(x.files, y.files, p)
  {
    hide Resolve, Targets;
    ResolveGrows(db, h, y, fs[j]);
    if Torn(db, y, Drop(fs[j]), {}) != y {
      assert forall i | 0 <= i < j :: fs[i] == fs[..j][i] && Resolve(db, h, fs[i]).Some?;
      NextIsTarget(db, h, fs, j);
      PutIsMerged(y.files, fs[j].path, Torn(db, y, Drop(fs[j]), {}).files[fs[j].path], Targets(db, h, fs));
    }
  }

  lemma PutIsMerged(m: map<string, File>, path: string, f: File, t: map<string, File>)
    requires path in t
    ensures m[path := f] + t == m + t
  {
  }

  /** An entry that resolves, as all before it do, has a record. */
  lemma {:induction false} NextIsTarget(db: Accounts, h: Host, fs: seq<FileSpec>, j: nat)
    requires j < |fs| && forall i | 0 <= i <= j :: Resolve(db, h, fs[i]).Some?
    ensures fs[j].path in Targets(db, h, fs)
    decreases j
  {
    var rest := fs[1..];
    if j > 0 {
      assert forall i | 0 <= i <= j - 1 :: rest[i] == fs[i + 1];
      NextIsTarget(db, h, rest, j - 1);
    }
  }

  /** Dying inside SetHostname: the kernel still has the old name, so it is done again. */
  lemma ResumeTornName(db: Accounts, h: Host, cfg: Config, probe: Probe, x: Host)
    requires probe.apply || ProbeHarmless(db, h, cfg)
    requires At(db, h, cfg, probe, x, TornName)
    ensures Finished(db, x, cfg, ALL_READ) == Finished(db, h, cfg, ALL_READ)
  {
    if h.kernel == cfg.hostname {
      if x != h {
        assert x == Renamed(h, cfg, probe);
        ResumeInDrops(db, h, cfg, probe, x);
      }
    } else {
      TornNameRedone(h, cfg, probe, x);
      assert SameNames(h, x);
      TargetsGrow(db, h, x, cfg.writeFiles);
      AllResolveGrows(db, h, x, cfg.writeFiles);
      assert Dropped(db, x, cfg, ALL_READ) == Dropped(db, h, cfg, ALL_READ);
    }
  }

  lemma TornNameRedone(h: Host, cfg: Config, probe: Probe, x: Host)
    requires cfg.hostname != "" && h.kernel != cfg.hostname
    requires x == h.(files := h.files[HOSTNAME_FILE := HostnameRecord(cfg.hostname)])
    ensures Renamed(x, cfg, ALL_READ) == Renamed(h, cfg, ALL_READ)
  {
    assert x.files[HOSTNAME_FILE := HostnameRecord(cfg.hostname)] == x.files;
  }

  /** The write_files phase over a host x that went on into the users phase, then the users
      phase: if the users phase alone makes x good elsewhere, this makes all of it good. */
  lemma ReplayUsers(db: Accounts, g: Host, x: Host, t: map<string, File>, p: seq<Step>)
    requires UserPlan(p) && Completes(db, g, p)
    requires forall path | path in t :: path in g.files && g.files[path] == t[path]
    requires Completes(db, x, p) && Completes(db, x.(files := x.files + t), p)
    requires var a, b := Run(db, x, p), Run(db, g, p);
             && a.users == b.users && a.groups == b.groups
             && forall path | path !in t :: SameAt(a.files, b.files, path)
    ensures var a, b := Run(db, x.(files := x.files + t), p), Run(db, g, p);
            a.users == b.users && a.groups == b.groups && a.files == b.files
  {
    var y := x.(files := x.files + t);
    var a, b := Run(db, y, p), Run(db, g, p);
    RunUsersAlike(db, x, y, p);
    forall path ensures SameAt(a.files, b.files, path) {
      if path in t {
        RunFileAlike(db, y, g, p, path);
      } else {
        RunFileAlike(db, y, x, p, path);
      }
    }
    SameEverywhere(a.files, b.files);
  }

  lemma SameEverywhere(f: map<string, File>, g: map<string, File>)
    requires forall path :: SameAt(f, g, path)
    ensures f == g
  {
    assert forall path :: path in f <==> path in g by {
      forall path ensures path in f <==> path in g { assert SameAt(f, g, path); }
    }
    forall path | path in f ensures f[path] == g[path] { assert SameAt(f, g, path); }
  }

  /** What every host left in the users phase has in common. */
  lemma StageGrows(db: Accounts, h: Host, cfg: Config, probe: Probe, x: Host, s: Stage)
    requires At(db, h, cfg, probe, x, s) && (s.InUsers? || s.TornUser? || s.TornKey?)
    ensures var g := Dropped(db, h, cfg, probe);
            && h.users.Keys <= x.users.Keys && h.groups <= x.groups && x.kernel == g.kernel
            && g.packages <= x.packages <= g.packages + ToSet(cfg.packages)
  {
    hide Run, Completes, Do, Blocked, Targets, AllResolve, UserSteps, Resolve;
    var g, p := Dropped(db, h, cfg, probe), UserSteps(cfg.users);
    var j := if s.InUsers? then s.steps else s.step;
    UserStepsAreUserSteps(cfg.users);
    RunGrows(db, g, p[..j]);
  }

  /** The users phase over it gives what it would have given at once. */
  lemma StageInUsers(db: Accounts, h: Host, cfg: Config, probe: Probe, x: Host, s: Stage)
    requires At(db, h, cfg, probe, x, s) && (s.InUsers? || s.TornUser?)
    ensures var g, p := Dropped(db, h, cfg, probe), UserSteps(cfg.users);
            Resumed(db, p, Run(db, x, p), Run(db, g, p))
  {
    hide Run, Completes, Do, Blocked, Targets, AllResolve, UserSteps, Resolve, Resumed;
    var g, p := Dropped(db, h, cfg, probe), UserSteps(cfg.users);
    UserStepsAreUserSteps(cfg.users);
    UsersComplete(db, g, cfg.users);
    UsersComplete(db, x, cfg.users);
    if s.InUsers? {
      UsersResume(db, g, p, s.steps, x);
    } else {
      UsersResumeTorn(db, g, p, s.step, s.part);
    }
  }

  /** Outside the dropped files, the keys are one line each. */
  lemma OneLineElsewhere(db: Accounts, h: Host, cfg: Config, path: string)
    requires Replayable(db, h, cfg) && AllResolve(db, h, cfg.writeFiles) && path !in Targets(db, h, cfg.writeFiles)
    ensures OneLineAt(db, UserSteps(cfg.users), path)
  {
    forall s | s in UserSteps(cfg.users) && s.AddKey? && KeyFile(db, s.name) == path ensures OneLine(s) {
      var u := KeyStepFrom(cfg.users, s);
    }
  }

  lemma ResumeInUsers(db: Accounts, h: Host, cfg: Config, probe: Probe, x: Host, s: Stage)
    requires Replayable(db, h, cfg) && (probe.apply || ProbeHarmless(db, h, cfg))
    requires At(db, h, cfg, probe, x, s) && (s.InUsers? || s.TornUser?)
    ensures Core(Finished(db, x, cfg, ALL_READ)) == Core(Finished(db, h, cfg, ALL_READ))
    ensures AllResolve(db, x, cfg.writeFiles)
  {
    var p := UserSteps(cfg.users);
    var t := Targets(db, h, cfg.writeFiles);
    var g := Dropped(db, h, cfg, probe);
    ProbeForgotten(db, h, cfg, probe);
    UserStepsAreUserSteps(cfg.users);
    StageInUsers(db, h, cfg, probe, x, s);
    StageGrows(db, h, cfg, probe, x, s);
    RunGrows(db, g, p);
    TargetsGrow(db, h, x, cfg.writeFiles);
    AllResolveGrows(db, h, x, cfg.writeFiles);
    RenamedIsFixed(h, cfg, probe, x);
    var y := x.(files := x.files + t);
    assert Dropped(db, x, cfg, ALL_READ) == y;
    UsersComplete(db, g, cfg.users);
    UsersComplete(db, x, cfg.users);
    UsersComplete(db, y, cfg.users);
    forall path | path !in t ensures SameAt(Run(db, x, p).files, Run(db, g, p).files, path) {
      OneLineElsewhere(db, h, cfg, path);
    }
    ReplayUsers(db, g, x, t, p);
    RunGrows(db, y, p);
    var a, b := Run(db, y, p), Run(db, g, p);
    assert a.packages + ToSet(cfg.packages) == b.packages + ToSet(cfg.packages);
  }

  lemma ResumeAt(db: Accounts, h: Host, cfg: Config, probe: Probe, x: Host, s: Stage)
    requires Replayable(db, h, cfg) && (probe.apply || ProbeHarmless(db, h, cfg))
    requires At(db, h, cfg, probe, x, s) && !s.TornKey?
    ensures Core(Finished(db, x, cfg, ALL_READ)) == Core(Finished(db, h, cfg, ALL_READ))
    ensures AllResolve(db, x, cfg.writeFiles) <==> AllResolve(db, h, cfg.writeFiles)
  {
    hide Run, Completes, Do, Blocked, Targets, AllResolve, UserSteps, Resolve, Finished;
    match s
    case Untouched =>
    case TornName =>
      ResumeTornName(db, h, cfg, probe, x);
      AllResolveGrows(db, h, x, cfg.writeFiles);
    case InUsers(_, _) =>
      ResumeInUsers(db, h, cfg, probe, x, s);
    case TornUser(_, _) =>
      ResumeInUsers(db, h, cfg, probe, x, s);
    case TornKey(_, _) =>
      assert false;
    case _ =>
      DroppingMerges(db, h, cfg, probe, x, s);
      ResumeInDrops(db, h, cfg, probe, x);
      assert SameNames(h, x);
      AllResolveGrows(db, h, x, cfg.writeFiles);
  }

  // ---- the hostname file ---------------------------------------------------------------

  lemma KeyFileIsNotHostnameFile(db: Accounts, name: string)
    ensures KeyFile(db, name) != HOSTNAME_FILE
  {
    var p := KeyFile(db, name);
    assert p[|p| - 1] == "/.ssh/authorized_keys"[20] == 's';
    assert HOSTNAME_FILE[|HOSTNAME_FILE| - 1] == 'e';
  }

  lemma RunLeavesHostnameFile(db: Accounts, h: Host, p: seq<Step>)
    requires UserPlan(p)
    ensures SameAt(Run(db, h, p).files, h.files, HOSTNAME_FILE)
  {
    forall s | s in p && s.AddKey? ensures KeyFile(db, s.name) != HOSTNAME_FILE {
      KeyFileIsNotHostnameFile(db, s.name);
    }
    RunLeavesFile(db, h, p, HOSTNAME_FILE);
  }

  lemma UsersLeaveHostnameFile(db: Accounts, h: Host, cfg: Config, probe: Probe, j: nat)
    requires j <= |UserSteps(cfg.users)|
    requires HOSTNAME_FILE !in Targets(db, h, cfg.writeFiles)
    ensures var g, r := Dropped(db, h, cfg, probe), Renamed(h, cfg, probe);
            var x := Run(db, g, UserSteps(cfg.users)[..j]);
            SameAt(x.files, r.files, HOSTNAME_FILE) && x.kernel == r.kernel
  {
    var g := Dropped(db, h, cfg, probe);
    UserStepsAreUserSteps(cfg.users);
    RunLeavesHostnameFile(db, g, UserSteps(cfg.users)[..j]);
    RunGrows(db, g, UserSteps(cfg.users)[..j]);
  }

  /** Outside write_files, a stopped run leaves /etc/hostname as SetHostname left it. */
  lemma StageLeavesHostnameFile(db: Accounts, h: Host, cfg: Config, probe: Probe, x: Host, s: Stage)
    requires At(db, h, cfg, probe, x, s) && !s.Untouched? && !s.TornName? && !s.TornKey?
    requires HOSTNAME_FILE !in Targets(db, h, cfg.writeFiles)
    ensures SameAt(x.files, Renamed(h, cfg, probe).files, HOSTNAME_FILE)
    ensures x.kernel == Renamed(h, cfg, probe).kernel
  {
    match s
    case Dropping(j) =>
      TargetsCut(db, h, cfg.writeFiles, j);
    case TornDrop(j) =>
      var g, fs := Renamed(h, cfg, probe), cfg.writeFiles;
      TargetsCut(db, h, fs, j);
      TornDropIsTarget(db, h, fs, j, g.(files := g.files + Targets(db, h, fs[..j])));
    case InUsers(j, c) =>
      UsersLeaveHostnameFile(db, h, cfg, probe, j);
    case TornUser(j, part) =>
      UsersLeaveHostnameFile(db, h, cfg, probe, j);
      UserStepsAreUserSteps(cfg.users);
      var p := UserSteps(cfg.users);
      assert p[j] in p && UserStep(p[j]);
    case _ =>
  }

  lemma StageKeepsTargets(db: Accounts, h: Host, cfg: Config, probe: Probe, x: Host, s: Stage)
    requires At(db, h, cfg, probe, x, s)
    ensures Targets(db, x, cfg.writeFiles) == Targets(db, h, cfg.writeFiles)
  {
    hide Run, Completes, Do, Blocked, Targets, AllResolve, UserSteps;
    if s.InUsers? || s.TornUser? || s.TornKey? {
      StageGrows(db, h, cfg, probe, x, s);
    }
    TargetsGrow(db, h, x, cfg.writeFiles);
  }

  lemma HarmlessStays(db: Accounts, h: Host, cfg: Config, probe: Probe, x: Host, s: Stage)
    requires ProbeHarmless(db, h, cfg) && At(db, h, cfg, probe, x, s) && !s.TornKey?
    ensures ProbeHarmless(db, x, cfg)
  {
    StageKeepsTargets(db, h, cfg, probe, x, s);
    if !s.Untouched? && !s.TornName? && cfg.hostname != "" && HOSTNAME_FILE !in Targets(db, h, cfg.writeFiles) {
      StageLeavesHostnameFile(db, h, cfg, probe, x, s);
    }
  }

  // ---- no file goes away ---------------------------------------------------------------

  lemma {:induction false} RunKeepsFiles(db: Accounts, h: Host, p: seq<Step>)
    ensures h.files.Keys <= Run(db, h, p).files.Keys
    decreases p
  {
    if p != [] && !Blocked(db, h, p[0]) {
      RunKeepsFiles(db, Do(db, h, p[0]), p[1..]);
    }
  }

  lemma TornKeepsFiles(db: Accounts, h: Host, s: Step, part: set<string>)
    ensures h.files.Keys <= Torn(db, h, s, part).files.Keys
  {
  }

  // ---- any number of stopped runs ------------------------------------------------------

  /** A run stopped before step number steps of its plan, or part way through that step, with the
      outcome of its Hostname probe. */
  datatype Stop = Stop(probe: Probe, steps: nat, torn: Option<set<string>>)

  function Stopped(db: Accounts, h: Host, cfg: Config, s: Stop): Host {
    var p := Plan(cfg, s.probe);
    if s.steps >= |p| then Run(db, h, p)
    else
      var x := Run(db, h, p[..s.steps]);
      if s.torn.Some? && Completes(db, h, p[..s.steps]) then Torn(db, x, p[s.steps], s.torn.value) else x
  }

  function Runs(db: Accounts, h: Host, cfg: Config, stops: seq<Stop>): Host {
    if stops == [] then h
    else Stopped(db, Runs(db, h, cfg, stops[..|stops| - 1]), cfg, stops[|stops| - 1])
  }

  /** The run stops between the rename and the chown of a key file. */
  predicate CutsKey(cfg: Config, s: Stop) {
    var p := Plan(cfg, s.probe);
    s.torn.Some? && s.steps < |p| && p[s.steps].AddKey?
  }

  predicate KeysWhole(cfg: Config, stops: seq<Stop>) {
    forall s | s in stops :: !CutsKey(cfg, s)
  }

  lemma StoppedAt(db: Accounts, h: Host, cfg: Config, s: Stop) returns (at: Stage)
    ensures At(db, h, cfg, s.probe, Stopped(db, h, cfg, s), at)
    ensures !CutsKey(cfg, s) ==> !at.TornKey?
  {
    var p := Plan(cfg, s.probe);
    assert p[..|p|] == p;
    if s.torn.Some? && s.steps < |p| && Completes(db, h, p[..s.steps]) {
      at := TornStageOf(db, h, cfg, s.probe, s.steps, s.torn.value);
    } else {
      at := StageOf(db, h, cfg, s.probe, if s.steps <= |p| then s.steps else |p|);
    }
  }

  lemma {:induction false} RunsResume(db: Accounts, h: Host, cfg: Config, stops: seq<Stop>)
    requires Replayable(db, h, cfg) && KeysWhole(cfg, stops)
    requires ProbeHarmless(db, h, cfg) || forall s | s in stops :: s.probe.apply
    ensures Replayable(db, Runs(db, h, cfg, stops), cfg)
    ensures var x := Runs(db, h, cfg, stops);
            && Core(Finished(db, x, cfg, ALL_READ)) == Core(Finished(db, h, cfg, ALL_READ))
            && (AllResolve(db, x, cfg.writeFiles) <==> AllResolve(db, h, cfg.writeFiles))
            && (ProbeHarmless(db, h, cfg) ==> ProbeHarmless(db, x, cfg))
    decreases stops
  {
    if stops != [] {
      var n := |stops| - 1;
      var x := Runs(db, h, cfg, stops[..n]);
      assert stops[n] in stops;
      RunsResume(db, h, cfg, stops[..n]);
      var at := StoppedAt(db, x, cfg, stops[n]);
      ResumeAt(db, x, cfg, stops[n].probe, Runs(db, h, cfg, stops), at);
      StageKeepsTargets(db, x, cfg, stops[n].probe, Runs(db, h, cfg, stops), at);
      if ProbeHarmless(db, h, cfg) {
        HarmlessStays(db, x, cfg, stops[n].probe, Runs(db, h, cfg, stops), at);
      }
    }
  }

  lemma WholeKeysResume(db: Accounts, h: Host, cfg: Config, stops: seq<Stop>)
    requires Replayable(db, h, cfg) && KeysWhole(cfg, stops)
    requires ProbeHarmless(db, h, cfg) || forall s | s in stops :: s.probe.apply
    ensures var x, p := Runs(db, h, cfg, stops), Plan(cfg, ALL_READ);
            && Core(Run(db, x, p)) == Core(Run(db, h, p))
            && (Completes(db, x, p) <==> Completes(db, h, p))
            && (cfg.runCmds == [] ==> Run(db, x, p) == Run(db, h, p))
  {
    var x := Runs(db, h, cfg, stops);
    RunsResume(db, h, cfg, stops);
    RunPlan(db, h, cfg, ALL_READ);
    RunPlan(db, x, cfg, ALL_READ);
    if cfg.runCmds == [] {
      NoCommandsNoLog(db, h, cfg, stops);
      FinishedLog(db, h, cfg, ALL_READ);
      FinishedLog(db, x, cfg, ALL_READ);
    }
  }

  /** But for who owns it, a key file whose run stopped before the chown is as if it had not. */
  lemma CutKeyIsClose(db: Accounts, x: Host, cfg: Config, s: Stop)
    requires CutsKey(cfg, s)
    ensures Close(Stopped(db, x, cfg, s), Stopped(db, x, cfg, Stop(s.probe, s.steps + 1, None)),
                  KeyFiles(db, cfg.users))
  {
    hide Run, Completes, Do, Torn, Close, Plan, KeyFiles, Resolve;
    var p, k, keyFiles := Plan(cfg, s.probe), s.steps, KeyFiles(db, cfg.users);
    var y := Run(db, x, p[..k]);
    assert p[..k + 1] == p[..k] + [p[k]] && [p[k]][1..] == [] && p[..|p|] == p;
    RunAppend(db, x, p[..k], [p[k]]);
    RunStep(db, y, p[k]);
    CloseIsEquivalence(y, y, y, keyFiles);
    if Completes(db, x, p[..k]) && !Blocked(db, y, p[k]) {
      KeyStepIsConfigured(db, cfg, s.probe, k);
      TornKeyIsClose(db, y, p[k].name, p[k].key, s.torn.value, keyFiles);
    } else if Completes(db, x, p[..k]) {
      TornBlocked(db, y, p[k].name, p[k].key, s.torn.value);
    }
  }

  lemma RunStep(db: Accounts, h: Host, s: Step)
    ensures Run(db, h, [s]) == if Blocked(db, h, s) then h else Do(db, h, s)
  {
    assert [s][1..] == [];
  }

  lemma TornBlocked(db: Accounts, h: Host, name: string, key: string, part: set<string>)
    requires name !in h.users
    ensures Torn(db, h, AddKey(name, key), part) == h
  {
  }

  lemma KeyStepIsConfigured(db: Accounts, cfg: Config, probe: Probe, k: nat)
    requires k < |Plan(cfg, probe)| && Plan(cfg, probe)[k].AddKey?
    ensures KeyFile(db, Plan(cfg, probe)[k].name) in KeyFiles(db, cfg.users)
  {
    var p := Plan(cfg, probe);
    assert p[k] in p;
    assert p[k] !in Renames(cfg, probe) && p[k] !in Drops(cfg.writeFiles) && p[k] !in Tail(cfg);
    var u := KeyStepFrom(cfg.users, p[k]);
  }

  lemma {:induction false} KeyStepFrom(us: seq<UserSpec>, s: Step) returns (u: UserSpec)
    requires s in UserSteps(us) && s.AddKey?
    ensures u in us && u.name == s.name && s.key in u.keys
    decreases us
  {
    var n := |us| - 1;
    u := us[n];
    var ks := KeySteps(u.name, u.keys);
    if s in ks {
      var i :| 0 <= i < |ks| && ks[i] == s;
    } else {
      assert s in UserSteps(us[..n]);
      u := KeyStepFrom(us[..n], s);
    }
  }

  lemma {:induction false} KeyStepOf(us: seq<UserSpec>, u: UserSpec, k: string)
    requires u in us && k in u.keys
    ensures AddKey(u.name, k) in UserSteps(us)
    decreases us
  {
    var n := |us| - 1;
    if us[n] == u {
      var i :| 0 <= i < |u.keys| && u.keys[i] == k;
      assert KeySteps(u.name, u.keys)[i] == AddKey(u.name, k);
    } else {
      assert u in us[..n];
      KeyStepOf(us[..n], u, k);
    }
  }

  lemma StoppedClose(db: Accounts, x: Host, y: Host, cfg: Config, s: Stop)
    requires Close(x, y, KeyFiles(db, cfg.users))
    ensures Close(Stopped(db, x, cfg, s), Stopped(db, y, cfg, s), KeyFiles(db, cfg.users))
  {
    var p, keyFiles := Plan(cfg, s.probe), KeyFiles(db, cfg.users);
    if s.steps >= |p| {
      CloseRun(db, x, y, p, keyFiles);
    } else {
      var q := p[..s.steps];
      CloseRun(db, x, y, q, keyFiles);
      if s.torn.Some? && Completes(db, x, q) {
        CloseTorn(db, Run(db, x, q), Run(db, y, q), p[s.steps], s.torn.value, keyFiles);
      }
    }
  }

  /** Key files aside, stopped runs leave what some runs that cut no key would. */
  lemma {:induction false} RunsClose(db: Accounts, h: Host, cfg: Config, stops: seq<Stop>) returns (whole: seq<Stop>)
    ensures KeysWhole(cfg, whole) && Close(Runs(db, h, cfg, stops), Runs(db, h, cfg, whole), KeyFiles(db, cfg.users))
    ensures (forall s | s in stops :: s.probe.apply) ==> forall s | s in whole :: s.probe.apply
    decreases stops
  {
    hide Stopped, Close, KeyFiles;
    var keyFiles := KeyFiles(db, cfg.users);
    whole := [];
    if stops == [] {
      CloseIsEquivalence(h, h, h, keyFiles);
    } else {
      var n := |stops| - 1;
      var s := stops[n];
      assert s in stops;
      var ws := RunsClose(db, h, cfg, stops[..n]);
      var x, y := Runs(db, h, cfg, stops[..n]), Runs(db, h, cfg, ws);
      var w := if CutsKey(cfg, s) then Stop(s.probe, s.steps + 1, None) else s;
      whole := ws + [w];
      assert whole[..|ws|] == ws;
      StoppedClose(db, x, y, cfg, w);
      if CutsKey(cfg, s) {
        CutKeyIsClose(db, x, cfg, s);
        CloseIsEquivalence(Stopped(db, x, cfg, s), Stopped(db, x, cfg, w), Stopped(db, y, cfg, w), keyFiles);
      }
    }
  }

  /** Host a is as host b, but for the log, and the owner of key files if some run cut one. */
  ghost predicate Recovered(db: Accounts, cfg: Config, stops: seq<Stop>, a: Host, b: Host) {
    && Close(Core(a), Core(b), KeyFiles(db, cfg.users))
    && (KeysWhole(cfg, stops) ==> Core(a) == Core(b))
    && (cfg.runCmds == [] ==> a.ran == b.ran)
  }

  /** Failed reads that are harmless before any stopped runs are harmless after them. */
  lemma HarmlessAfterRuns(db: Accounts, h: Host, cfg: Config, stops: seq<Stop>)
    requires Replayable(db, h, cfg) && ProbeHarmless(db, h, cfg)
    ensures ProbeHarmless(db, Runs(db, h, cfg, stops), cfg)
  {
    var whole := RunsClose(db, h, cfg, stops);
    var x, y, keyFiles := Runs(db, h, cfg, stops), Runs(db, h, cfg, whole), KeyFiles(db, cfg.users);
    RunsResume(db, h, cfg, whole);
    assert SameNames(y, x);
    TargetsGrow(db, y, x, cfg.writeFiles);
    assert HOSTNAME_FILE !in keyFiles by {
      forall u | u in cfg.users ensures KeyFile(db, u.name) != HOSTNAME_FILE {
        KeyFileIsNotHostnameFile(db, u.name);
      }
    }
    assert CloseAt(x.files, y.files, HOSTNAME_FILE, keyFiles);
  }

  // ---- one cut key file ----------------------------------------------------------------

  /** Step k of the plan is reached, has a key to add, and stops before its chown. */
  predicate CutsNewKey(db: Accounts, h: Host, cfg: Config, s: Stop) {
    CutsKey(cfg, s) &&
    var p := Plan(cfg, s.probe);
    Completes(db, h, p[..s.steps]) && KeyMissing(db, Run(db, h, p[..s.steps]), p[s.steps].name, p[s.steps].key)
  }

  /** Where such a run is in the users phase. */
  lemma CutsNewKeyAt(db: Accounts, h: Host, cfg: Config, s: Stop) returns (k: nat)
    requires CutsNewKey(db, h, cfg, s)
    ensures var p, u, g := Plan(cfg, s.probe), UserSteps(cfg.users), Dropped(db, h, cfg, s.probe);
            && AllResolve(db, h, cfg.writeFiles) && k < |u| && u[k] == p[s.steps]
            && p[s.steps + 1..] == u[k + 1..] + Tail(cfg)
            && Run(db, h, p[..s.steps]) == Run(db, g, u[..k])
  {
    hide Do, Blocked, Torn, Run, Completes, Resolve, AllResolve, Dropped, KeyMissing, UserSteps;
    var p, u, g := Plan(cfg, s.probe), UserSteps(cfg.users), Dropped(db, h, cfg, s.probe);
    var d := Renames(cfg, s.probe) + Drops(cfg.writeFiles);
    PlanSplits(cfg, s.probe);
    assert p == d + (u + Tail(cfg));
    assert s.steps >= |d|;
    k := s.steps - |d|;
    assert k < |u|;
    assert p[s.steps + 1..] == u[k + 1..] + Tail(cfg);
    assert p[..s.steps] == d + u[..k];
    RunAppend(db, h, d, u[..k]);
    RunToDrops(db, h, cfg, s.probe);
  }

  /** A run that stops between the rename and the chown of a key file is made up for exactly when
      the owner is root anyway, when write_files replaces the file first, or when the torn file
      still misses a later key of the plan, so that it is written once more. */
  lemma CutKeyRecoversIff(db: Accounts, h: Host, cfg: Config, s: Stop)
    requires Replayable(db, h, cfg) && CutsNewKey(db, h, cfg, s) && (s.probe.apply || ProbeHarmless(db, h, cfg))
    ensures var p, x := Plan(cfg, s.probe), Stopped(db, h, cfg, s);
            var path := KeyFile(db, p[s.steps].name);
            Core(Run(db, x, Plan(cfg, ALL_READ))) == Core(Run(db, h, Plan(cfg, ALL_READ)))
            <==> RootOwned(db, p[s.steps].name) || path in Targets(db, h, cfg.writeFiles)
                 || !KeysPresent(db, p[s.steps + 1..], path, TextAt(x.files, path))
  {
    hide Do, Blocked, Torn, Run, Completes, Resolve, Targets;
    var p, u, g, t := Plan(cfg, s.probe), UserSteps(cfg.users), Dropped(db, h, cfg, s.probe),
                      Targets(db, h, cfg.writeFiles);
    var k := CutsNewKeyAt(db, h, cfg, s);
    var x, path := Torn(db, Run(db, g, u[..k]), u[k], s.torn.value), KeyFile(db, u[k].name);
    UserStepsAreUserSteps(cfg.users);
    UsersComplete(db, g, cfg.users);
    UsersComplete(db, x, cfg.users);
    TornKeyReplay(db, g, u, k, s.torn.value);
    forall other | other !in t ensures OneLineAt(db, u, other) {
      OneLineElsewhere(db, h, cfg, other);
    }
    KeysPresentTail(db, u[k + 1..], cfg, path, TextAt(x.files, path));
    var y := x.(files := x.files + t);
    CutKeyReplay(db, h, cfg, s.probe, k, s.torn.value);
    UsersComplete(db, y, cfg.users);
    var a, b, c := Run(db, y, u), Run(db, g, u), Run(db, x, u);
    if path in t || SameAt(c.files, b.files, path) {
      ReplayUsers(db, g, x, t, u);
    } else {
      RunFileAlike(db, y, x, u, path);
    }
  }

  lemma KeysPresentTail(db: Accounts, q: seq<Step>, cfg: Config, path: string, text: string)
    ensures KeysPresent(db, q + Tail(cfg), path, text) <==> KeysPresent(db, q, path, text)
  {
    assert forall s :: s in q + Tail(cfg) <==> s in q || s in Tail(cfg);
  }

  /** What is left of the comparison is the users phase over both hosts. */
  lemma CutKeyReplay(db: Accounts, h: Host, cfg: Config, probe: Probe, k: nat, part: set<string>)
    requires (probe.apply || ProbeHarmless(db, h, cfg)) && AllResolve(db, h, cfg.writeFiles)
    requires k < |UserSteps(cfg.users)| && UserSteps(cfg.users)[k].AddKey?
    ensures var u, g := UserSteps(cfg.users), Dropped(db, h, cfg, probe);
            var x := Torn(db, Run(db, g, u[..k]), u[k], part);
            var y := x.(files := x.files + Targets(db, h, cfg.writeFiles));
            var a, b := Run(db, y, u), Run(db, g, u);
            Core(Run(db, x, Plan(cfg, ALL_READ))) == Core(Run(db, h, Plan(cfg, ALL_READ)))
            <==> a.users == b.users && a.groups == b.groups && a.files == b.files
  {
    hide Do, Blocked, Run, Completes, Resolve, Targets;
    var u, g := UserSteps(cfg.users), Dropped(db, h, cfg, probe);
    var v := Run(db, g, u[..k]);
    var x := Torn(db, v, u[k], part);
    ProbeForgotten(db, h, cfg, probe);
    UserStepsAreUserSteps(cfg.users);
    RunGrows(db, g, u[..k]);
    RunPlan(db, h, cfg, ALL_READ);
    RunPlan(db, x, cfg, ALL_READ);
    TargetsGrow(db, h, x, cfg.writeFiles);
    AllResolveGrows(db, h, x, cfg.writeFiles);
    RenamedIsFixed(h, cfg, probe, x);
    RunGrows(db, g, u);
    RunGrows(db, Dropped(db, x, cfg, ALL_READ), u);
  }

  /** After any stopped runs, one complete run leaves the host one undisturbed run leaves, and
      succeeds when that one does; only a key file cut before its chown may be left with root. */
  lemma CrashResume(db: Accounts, h: Host, cfg: Config, stops: seq<Stop>)
    requires Replayable(db, h, cfg)
    requires ProbeHarmless(db, h, cfg) || forall s | s in stops :: s.probe.apply
    ensures var x, p := Runs(db, h, cfg, stops), Plan(cfg, ALL_READ);
            && Recovered(db, cfg, stops, Run(db, x, p), Run(db, h, p))
            && (Completes(db, x, p) <==> Completes(db, h, p))
  {
    var p, keyFiles := Plan(cfg, ALL_READ), KeyFiles(db, cfg.users);
    var whole := RunsClose(db, h, cfg, stops);
    var x, y := Runs(db, h, cfg, stops), Runs(db, h, cfg, whole);
    WholeKeysResume(db, h, cfg, whole);
    CloseRun(db, x, y, p, keyFiles);
    if KeysWhole(cfg, stops) {
      WholeKeysResume(db, h, cfg, stops);
    }
  }

  lemma FinishedLog(db: Accounts, h: Host, cfg: Config, probe: Probe)
    ensures Finished(db, h, cfg, probe).ran
            == h.ran + if AllResolve(db, h, cfg.writeFiles) then cfg.runCmds else []
  {
    UserStepsAreUserSteps(cfg.users);
    RunGrows(db, Dropped(db, h, cfg, probe), UserSteps(cfg.users));
    assert h.ran + [] == h.ran;
  }

  /** A stopped run appends a prefix of the commands to the log. */
  lemma StageLog(db: Accounts, h: Host, cfg: Config, probe: Probe, x: Host, s: Stage)
    requires At(db, h, cfg, probe, x, s)
    ensures x.ran == h.ran + if s.InUsers? then cfg.runCmds[..s.cmds] else []
  {
    hide Run, Completes, Do, Blocked, Targets, AllResolve, UserSteps, Resolve;
    assert h.ran + [] == h.ran;
    if s.InUsers? {
      UserStepsAreUserSteps(cfg.users);
      RunGrows(db, Dropped(db, h, cfg, probe), UserSteps(cfg.users)[..s.steps]);
    } else if s.TornUser? || s.TornKey? {
      var p := UserSteps(cfg.users);
      UserStepsAreUserSteps(cfg.users);
      RunGrows(db, Dropped(db, h, cfg, probe), p[..s.step]);
      assert p[s.step] in p && UserStep(p[s.step]);
    }
  }

  lemma {:induction false} NoCommandsNoLog(db: Accounts, h: Host, cfg: Config, stops: seq<Stop>)
    requires cfg.runCmds == []
    ensures Runs(db, h, cfg, stops).ran == h.ran
    decreases stops
  {
    if stops != [] {
      var n := |stops| - 1;
      var x := Runs(db, h, cfg, stops[..n]);
      NoCommandsNoLog(db, h, cfg, stops[..n]);
      var at := StoppedAt(db, x, cfg, stops[n]);
      StageLog(db, x, cfg, stops[n].probe, Runs(db, h, cfg, stops), at);
    }
  }

  const NONE_READ := Probe(false, false, false)

  lemma StoppedAfterProbe(db: Accounts, h: Host, cfg: Config)
    requires cfg.hostname != ""
    ensures Runs(db, h, cfg, [Stop(NONE_READ, 1, None)]) == SetHostname(h, cfg.hostname, NONE_READ)
  {
    var p := Plan(cfg, NONE_READ);
    var s := Stop(NONE_READ, 1, None);
    assert p[..1] == [Rename(cfg.hostname, NONE_READ)];
    assert p[..1][1..] == [];
    var x := Do(db, h, p[0]);
    assert Run(db, x, []) == x && Run(db, h, p[..1]) == x;
    assert Stopped(db, h, cfg, s) == SetHostname(h, cfg.hostname, NONE_READ);
    assert [s][..0] == [];
  }

  /** When it is not harmless, one run stopped just after its failed reads: the next complete run
      does not undo the rewritten file. */
  lemma FailedProbeShows(db: Accounts, h: Host, cfg: Config)
    requires !ProbeHarmless(db, h, cfg)
    ensures var x := Runs(db, h, cfg, [Stop(NONE_READ, 1, None)]);
            !SameAt(Run(db, x, Plan(cfg, ALL_READ)).files, Run(db, h, Plan(cfg, ALL_READ)).files, HOSTNAME_FILE)
  {
    var x := SetHostname(h, cfg.hostname, NONE_READ);
    StoppedAfterProbe(db, h, cfg);
    RunPlan(db, h, cfg, ALL_READ);
    RunPlan(db, x, cfg, ALL_READ);
    FinishedHostnameFile(db, h, cfg);
    assert SameNames(h, x);
    TargetsGrow(db, h, x, cfg.writeFiles);
    FinishedHostnameFile(db, x, cfg);
  }

  lemma FinishedHostnameFile(db: Accounts, h: Host, cfg: Config)
    requires h.kernel == cfg.hostname
    requires HOSTNAME_FILE !in Targets(db, h, cfg.writeFiles)
    ensures SameAt(Finished(db, h, cfg, ALL_READ).files, h.files, HOSTNAME_FILE)
  {
    UserStepsAreUserSteps(cfg.users);
    RunLeavesHostnameFile(db, Dropped(db, h, cfg, ALL_READ), UserSteps(cfg.users));
  }

  /** A key of several lines for a file that no drop replaces: one whole run before the complete one
      and it is there twice. */
  lemma RepeatedKeyShows(db: Accounts, h: Host, cfg: Config) returns (path: string)
    requires !Replayable(db, h, cfg)
    ensures var x, p := Runs(db, h, cfg, [Stop(ALL_READ, |Plan(cfg, ALL_READ)|, None)]), Plan(cfg, ALL_READ);
            |TextAt(Run(db, x, p).files, path)| > |TextAt(Run(db, h, p).files, path)|
  {
    var p, us, stop := Plan(cfg, ALL_READ), UserSteps(cfg.users), Stop(ALL_READ, |Plan(cfg, ALL_READ)|, None);
    var u, k :| u in cfg.users && k in u.keys && '\n' in TrimSpace(k)
                && KeyFile(db, u.name) !in Targets(db, h, cfg.writeFiles);
    path := KeyFile(db, u.name);
    var x := Run(db, h, p);
    assert [stop][..0] == [] && Runs(db, h, cfg, [stop]) == x;
    RunPlan(db, h, cfg, ALL_READ);
    RunPlan(db, x, cfg, ALL_READ);
    var g := Dropped(db, h, cfg, ALL_READ);
    UserStepsAreUserSteps(cfg.users);
    RunGrows(db, g, us);
    RenamedIsFixed(h, cfg, ALL_READ, x);
    TargetsGrow(db, h, x, cfg.writeFiles);
    AllResolveGrows(db, h, x, cfg.writeFiles);
    var y := Dropped(db, x, cfg, ALL_READ);
    UsersComplete(db, y, cfg.users);
    KeyStepOf(cfg.users, u, k);
    assert !OneLine(AddKey(u.name, k)) && !OneLineAt(db, us, path);
    assert SameAt(y.files, x.files, path);
    RunLengthens(db, y, us, path);
  }

  lemma SomeStopsShow(db: Accounts, h: Host, cfg: Config) returns (stops: seq<Stop>)
    requires !Replayable(db, h, cfg) || !ProbeHarmless(db, h, cfg)
    ensures var p := Plan(cfg, ALL_READ); !Recovered(db, cfg, stops, Run(db, Runs(db, h, cfg, stops), p), Run(db, h, p))
  {
    hide Replayable, ProbeHarmless, Run, Runs, Close, CutsKey, Plan;
    var p := Plan(cfg, ALL_READ);
    stops := [Stop(NONE_READ, 1, None)];
    if ProbeHarmless(db, h, cfg) {
      stops := [Stop(ALL_READ, |p|, None)];
      var path := RepeatedKeyShows(db, h, cfg);
    } else {
      FailedProbeShows(db, h, cfg);
    }
    assert KeysWhole(cfg, stops) by {
      NothingTorn(cfg, stops[0]);
    }
    var a, b := Run(db, Runs(db, h, cfg, stops), p), Run(db, h, p);
    assert Core(a).files == a.files && Core(b).files == b.files;
  }

  lemma NothingTorn(cfg: Config, s: Stop)
    requires s.torn.None?
    ensures !CutsKey(cfg, s)
  {
  }

  /** Exactly when every pattern of stopped runs, failed reads included, is recovered from. */
  lemma CrashResumeIff(db: Accounts, h: Host, cfg: Config)
    ensures Replayable(db, h, cfg) && ProbeHarmless(db, h, cfg)
            <==> forall stops: seq<Stop> ::
                   Recovered(db, cfg, stops, Run(db, Runs(db, h, cfg, stops), Plan(cfg, ALL_READ)),
                             Run(db, h, Plan(cfg, ALL_READ)))
  {
    var p := Plan(cfg, ALL_READ);
    if Replayable(db, h, cfg) && ProbeHarmless(db, h, cfg) {
      forall stops: seq<Stop>
        ensures Recovered(db, cfg, stops, Run(db, Runs(db, h, cfg, stops), p), Run(db, h, p))
      {
        CrashResume(db, h, cfg, stops);
      }
    } else {
      var stops := SomeStopsShow(db, h, cfg);
      assert !Recovered(db, cfg, stops, Run(db, Runs(db, h, cfg, stops), p), Run(db, h, p));
    }
  }

  lemma StageBeforeUsers(db: Accounts, h: Host, cfg: Config, probe: Probe, x: Host, s: Stage)
    requires At(db, h, cfg, probe, x, s) && !s.InUsers? && !s.TornUser? && !s.TornKey?
    ensures x.users == h.users && x.groups == h.groups && x.packages == h.packages && x.ran == h.ran
  {
    match s
    case TornDrop(j) =>
      var g := Renamed(h, cfg, probe);
      var y := g.(files := g.files + Targets(db, h, cfg.writeFiles[..j]));
      assert x == y.(files := x.files);
    case _ =>
  }

  lemma UnresolvedFileStops(db: Accounts, h: Host, cfg: Config, probe: Probe, x: Host, s: Stage)
    requires !AllResolve(db, h, cfg.writeFiles) && At(db, h, cfg, probe, x, s)
    ensures x.users == h.users && x.groups == h.groups && x.packages == h.packages && x.ran == h.ran
    ensures !AllResolve(db, x, cfg.writeFiles)
  {
    StageBeforeUsers(db, h, cfg, probe, x, s);
    assert SameNames(h, x);
    AllResolveGrows(db, h, x, cfg.writeFiles);
  }

  /** A write_file whose owner, group or mode does not resolve, an account the same config
      creates being the usual case, stops every run before the users phase: no number of runs
      creates an account, installs a package or runs a command. */
  lemma {:induction false} UnresolvedFileBlocksForever(db: Accounts, h: Host, cfg: Config, stops: seq<Stop>)
    requires !AllResolve(db, h, cfg.writeFiles)
    ensures var x := Runs(db, h, cfg, stops);
            && x.users == h.users && x.groups == h.groups && x.packages == h.packages && x.ran == h.ran
            && !AllResolve(db, x, cfg.writeFiles) && !Completes(db, x, Plan(cfg, ALL_READ))
    decreases stops
  {
    RunPlan(db, Runs(db, h, cfg, stops), cfg, ALL_READ);
    if stops != [] {
      var n := |stops| - 1;
      var x := Runs(db, h, cfg, stops[..n]);
      UnresolvedFileBlocksForever(db, h, cfg, stops[..n]);
      var at := StoppedAt(db, x, cfg, stops[n]);
      UnresolvedFileStops(db, x, cfg, stops[n].probe, Runs(db, h, cfg, stops), at);
    }
  }

  /** The usual case: an owner named before its account exists. */
  lemma OwnerToBeCreatedBlocks(db: Accounts, h: Host, cfg: Config, f: FileSpec, stops: seq<Stop>)
    requires f in cfg.writeFiles && f.owner != "" && Atoi(f.owner).None? && f.owner !in h.users
    ensures f.owner !in Runs(db, h, cfg, stops).users
  {
    assert Resolve(db, h, f).None?;
    UnresolvedFileBlocksForever(db, h, cfg, stops);
  }
}
