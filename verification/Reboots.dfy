/** Stopped runs with reboots between them: each run finds some live hostname, whatever the last one
    left. */
module Reboots {
  import opened Text
  import opened Host
  import opened Convergence
  import opened KeyOwners
  import opened Resume

  function Woken(h: Host, live: string): Host {
    h.(kernel := live)
  }

  /** Everything but the live hostname and the log of shell commands. */
  function Bare(h: Host): Host {
    h.(kernel := "", ran := [])
  }

  /** Writing the hostname file, or not, comes to the same. */
  predicate NameStands(db: Accounts, h: Host, cfg: Config) {
    cfg.hostname == ""
    || (HOSTNAME_FILE in h.files && h.files[HOSTNAME_FILE] == HostnameRecord(cfg.hostname))
    || HOSTNAME_FILE in Targets(db, h, cfg.writeFiles)
  }

  lemma WokenAlike(db: Accounts, h: Host, cfg: Config, live: string)
    ensures var x := Woken(h, live);
            && Targets(db, x, cfg.writeFiles) == Targets(db, h, cfg.writeFiles)
            && (AllResolve(db, x, cfg.writeFiles) <==> AllResolve(db, h, cfg.writeFiles))
            && (Replayable(db, x, cfg) <==> Replayable(db, h, cfg))
            && (NameStands(db, x, cfg) <==> NameStands(db, h, cfg))
            && (ProbeHarmless(db, x, cfg) <==> NameStands(db, h, cfg) || live != cfg.hostname)
  {
    var x := Woken(h, live);
    assert SameNames(h, x);
    TargetsGrow(db, h, x, cfg.writeFiles);
    AllResolveGrows(db, h, x, cfg.writeFiles);
  }

  lemma {:induction false} RunWoken(db: Accounts, h: Host, p: seq<Step>, live: string)
    requires UserPlan(p)
    ensures Run(db, Woken(h, live), p) == Woken(Run(db, h, p), live)
    decreases p
  {
    if p != [] && !Blocked(db, h, p[0]) {
      assert UserStep(p[0]);
      assert Do(db, Woken(h, live), p[0]) == Woken(Do(db, h, p[0]), live);
      RunWoken(db, Do(db, h, p[0]), p[1..], live);
    }
  }

  /** Two live names under which a run leaves the same. */
  predicate SameFor(db: Accounts, h: Host, cfg: Config, a: string, b: string) {
    a == b || NameStands(db, h, cfg) || (a != cfg.hostname && b != cfg.hostname)
  }

  lemma DroppedWoken(db: Accounts, h: Host, cfg: Config, a: string, b: string)
    requires SameFor(db, h, cfg, a, b)
    ensures var x, y := Dropped(db, Woken(h, a), cfg, ALL_READ), Dropped(db, Woken(h, b), cfg, ALL_READ);
            y == Woken(x, y.kernel)
  {
    hide Targets, Resolve, TrimSpace, AllResolve, Replayable, ProbeHarmless;
    WokenAlike(db, h, cfg, a);
    WokenAlike(db, h, cfg, b);
    var t, m := Targets(db, h, cfg.writeFiles), h.files[HOSTNAME_FILE := HostnameRecord(cfg.hostname)];
    if HOSTNAME_FILE in t {
      assert m + t == h.files + t;
    } else if HOSTNAME_FILE in h.files && h.files[HOSTNAME_FILE] == HostnameRecord(cfg.hostname) {
      assert m == h.files;
    }
  }

  lemma LiveForgotten(db: Accounts, h: Host, cfg: Config, a: string, b: string)
    requires SameFor(db, h, cfg, a, b)
    ensures Bare(Finished(db, Woken(h, a), cfg, ALL_READ)) == Bare(Finished(db, Woken(h, b), cfg, ALL_READ))
  {
    var x, y := Dropped(db, Woken(h, a), cfg, ALL_READ), Dropped(db, Woken(h, b), cfg, ALL_READ);
    DroppedWoken(db, h, cfg, a, b);
    WokenAlike(db, h, cfg, a);
    WokenAlike(db, h, cfg, b);
    UserStepsAreUserSteps(cfg.users);
    RunWoken(db, x, UserSteps(cfg.users), y.kernel);
  }

  // ---- what one stopped run does to the name -------------------------------------------

  lemma StageName(db: Accounts, h: Host, cfg: Config, probe: Probe, x: Host, s: Stage)
    requires At(db, h, cfg, probe, x, s) && !s.TornKey?
    ensures NameStands(db, h, cfg) ==> NameStands(db, x, cfg)
    ensures h.kernel != cfg.hostname ==> NameStands(db, x, cfg) || x == h
    ensures h.kernel == cfg.hostname ==> x.kernel == cfg.hostname
  {
    StageKeepsTargets(db, h, cfg, probe, x, s);
    if s.InUsers? || s.TornUser? {
      StageGrows(db, h, cfg, probe, x, s);
    }
    if !s.Untouched? && !s.TornName? && cfg.hostname != "" && HOSTNAME_FILE !in Targets(db, h, cfg.writeFiles) {
      StageLeavesHostnameFile(db, h, cfg, probe, x, s);
    }
  }

  // ---- any number of runs --------------------------------------------------------------

  /** One run: the live name it finds, and where it stops. */
  datatype Life = Life(live: string, stop: Stop)

  function Lives(db: Accounts, h: Host, cfg: Config, ls: seq<Life>): Host {
    if ls == [] then h
    else
      var l := ls[|ls| - 1];
      Stopped(db, Woken(Lives(db, h, cfg, ls[..|ls| - 1]), l.live), cfg, l.stop)
  }

  /** Every run finds another live name than the configured one, until the file stands. */
  predicate SafeLives(db: Accounts, h: Host, cfg: Config, ls: seq<Life>) {
    forall i | 0 <= i < |ls| :: NameStands(db, Lives(db, h, cfg, ls[..i]), cfg) || ls[i].live != cfg.hostname
  }

  /** The name is no obstacle to recovering what an undisturbed run that finds live name a leaves:
      either it is not set yet and every run knows, or it is set, and every run sees it. */
  predicate Steady(db: Accounts, h: Host, cfg: Config, ls: seq<Life>, a: string) {
    || ((NameStands(db, h, cfg) || a != cfg.hostname) && SafeLives(db, h, cfg, ls))
    || (a == cfg.hostname && SetLives(cfg, ls))
  }

  /** Every run finds the configured name. */
  predicate SetLives(cfg: Config, ls: seq<Life>) {
    forall l | l in ls :: l.live == cfg.hostname && l.stop.probe.apply
  }

  lemma SteadyPrefix(db: Accounts, h: Host, cfg: Config, ls: seq<Life>, a: string)
    requires ls != [] && Steady(db, h, cfg, ls, a)
    ensures Steady(db, h, cfg, ls[..|ls| - 1], a)
  {
    var ms := ls[..|ls| - 1];
    if SafeLives(db, h, cfg, ls) {
      forall i | 0 <= i < |ms| ensures NameStands(db, Lives(db, h, cfg, ms[..i]), cfg) || ms[i].live != cfg.hostname {
        assert ms[..i] == ls[..i] && ms[i] == ls[i];
      }
    }
  }

  lemma SafeSnoc(db: Accounts, h: Host, cfg: Config, ls: seq<Life>, l: Life)
    requires SafeLives(db, h, cfg, ls) && (NameStands(db, Lives(db, h, cfg, ls), cfg) || l.live != cfg.hostname)
    ensures SafeLives(db, h, cfg, ls + [l])
  {
    var ms := ls + [l];
    forall i | 0 <= i < |ms| ensures NameStands(db, Lives(db, h, cfg, ms[..i]), cfg) || ms[i].live != cfg.hostname {
      assert ms[..i] == ls[..i];
      assert ls[..|ls|] == ls;
    }
  }

  predicate KeysKept(cfg: Config, ls: seq<Life>) {
    forall l | l in ls :: !CutsKey(cfg, l.stop)
  }

  /** One more run, and the next one still ends where an undisturbed one does. */
  lemma OneLife(db: Accounts, h: Host, cfg: Config, l: Life, a: string)
    requires Replayable(db, h, cfg) && !CutsKey(cfg, l.stop)
    requires || ((NameStands(db, h, cfg) || a != cfg.hostname) && (NameStands(db, h, cfg) || l.live != cfg.hostname))
             || (a == cfg.hostname && l.live == a && l.stop.probe.apply)
    ensures var x := Stopped(db, Woken(h, l.live), cfg, l.stop);
            && Replayable(db, x, cfg)
            && (NameStands(db, h, cfg) ==> NameStands(db, x, cfg))
            && (AllResolve(db, x, cfg.writeFiles) <==> AllResolve(db, h, cfg.writeFiles))
            && Bare(Finished(db, Woken(x, a), cfg, ALL_READ)) == Bare(Finished(db, Woken(h, a), cfg, ALL_READ))
  {
    hide Finished, At, Stopped, Run, Targets, AllResolve;
    var w := Woken(h, l.live);
    var x := Stopped(db, w, cfg, l.stop);
    WokenAlike(db, h, cfg, l.live);
    var at := StoppedAt(db, w, cfg, l.stop);
    ResumeAt(db, w, cfg, l.stop.probe, x, at);
    StageKeepsTargets(db, w, cfg, l.stop.probe, x, at);
    StageName(db, w, cfg, l.stop.probe, x, at);
    assert Woken(x, x.kernel) == x
           && Bare(Core(Finished(db, x, cfg, ALL_READ))) == Bare(Finished(db, x, cfg, ALL_READ));
    assert Bare(Core(Finished(db, w, cfg, ALL_READ))) == Bare(Finished(db, w, cfg, ALL_READ));
    LiveForgotten(db, h, cfg, l.live, a);
    if x == w {
      assert Woken(x, a) == Woken(h, a);
    } else {
      LiveForgotten(db, x, cfg, x.kernel, a);
    }
  }

  lemma {:induction false} LivesResume(db: Accounts, h: Host, cfg: Config, ls: seq<Life>, a: string)
    requires Replayable(db, h, cfg) && Steady(db, h, cfg, ls, a) && KeysKept(cfg, ls)
    ensures var x := Lives(db, h, cfg, ls);
            && Replayable(db, x, cfg)
            && (NameStands(db, h, cfg) ==> NameStands(db, x, cfg))
            && (AllResolve(db, x, cfg.writeFiles) <==> AllResolve(db, h, cfg.writeFiles))
            && Bare(Finished(db, Woken(x, a), cfg, ALL_READ)) == Bare(Finished(db, Woken(h, a), cfg, ALL_READ))
    decreases ls
  {
    hide Finished, Replayable, NameStands, AllResolve, Stopped;
    if ls != [] {
      var n := |ls| - 1;
      SteadyPrefix(db, h, cfg, ls, a);
      assert ls[n] in ls;
      LivesResume(db, h, cfg, ls[..n], a);
      OneLife(db, Lives(db, h, cfg, ls[..n]), cfg, ls[n], a);
    }
  }

  // ---- runs that cut a key file --------------------------------------------------------

  /** The run with its cut key step done instead. */
  function MendedLife(cfg: Config, l: Life): Life {
    if CutsKey(cfg, l.stop) then Life(l.live, Stop(l.stop.probe, l.stop.steps + 1, None)) else l
  }

  function Mended(cfg: Config, ls: seq<Life>): (r: seq<Life>)
    ensures |r| == |ls| && forall i | 0 <= i < |ls| :: r[i] == MendedLife(cfg, ls[i])
  {
    seq(|ls|, i requires 0 <= i < |ls| => MendedLife(cfg, ls[i]))
  }

  lemma {:induction false} LivesClose(db: Accounts, h: Host, cfg: Config, ls: seq<Life>)
    ensures Close(Lives(db, h, cfg, ls), Lives(db, h, cfg, Mended(cfg, ls)), KeyFiles(db, cfg.users))
    decreases ls
  {
    var keyFiles, ms := KeyFiles(db, cfg.users), Mended(cfg, ls);
    if ls == [] {
      CloseIsEquivalence(h, h, h, keyFiles);
    } else {
      var n := |ls| - 1;
      var l, m := ls[n], ms[n];
      assert ms[..n] == Mended(cfg, ls[..n]);
      LivesClose(db, h, cfg, ls[..n]);
      var x, y := Woken(Lives(db, h, cfg, ls[..n]), l.live), Woken(Lives(db, h, cfg, ms[..n]), l.live);
      StoppedClose(db, x, y, cfg, m.stop);
      if CutsKey(cfg, l.stop) {
        CutKeyIsClose(db, x, cfg, l.stop);
        CloseIsEquivalence(Stopped(db, x, cfg, l.stop), Stopped(db, x, cfg, m.stop), Stopped(db, y, cfg, m.stop),
                           keyFiles);
      }
    }
  }

  lemma CloseNameStands(db: Accounts, cfg: Config, x: Host, y: Host)
    requires Close(x, y, KeyFiles(db, cfg.users))
    ensures NameStands(db, x, cfg) <==> NameStands(db, y, cfg)
    ensures AllResolve(db, x, cfg.writeFiles) <==> AllResolve(db, y, cfg.writeFiles)
  {
    assert SameNames(y, x);
    TargetsGrow(db, y, x, cfg.writeFiles);
    AllResolveGrows(db, y, x, cfg.writeFiles);
    forall u | u in cfg.users ensures KeyFile(db, u.name) != HOSTNAME_FILE {
      KeyFileIsNotHostnameFile(db, u.name);
    }
    assert CloseAt(x.files, y.files, HOSTNAME_FILE, KeyFiles(db, cfg.users));
  }

  lemma MendedKeys(cfg: Config, ls: seq<Life>)
    ensures KeysKept(cfg, Mended(cfg, ls))
  {
  }

  lemma MendedSteady(db: Accounts, h: Host, cfg: Config, ls: seq<Life>, a: string)
    requires Steady(db, h, cfg, ls, a)
    ensures Steady(db, h, cfg, Mended(cfg, ls), a) && KeysKept(cfg, Mended(cfg, ls))
  {
    hide Lives, NameStands, Close, CutsKey;
    var ms := Mended(cfg, ls);
    MendedKeys(cfg, ls);
    forall i | 0 <= i < |ms| && SafeLives(db, h, cfg, ls)
      ensures NameStands(db, Lives(db, h, cfg, ms[..i]), cfg) || ms[i].live != cfg.hostname
    {
      assert ms[..i] == Mended(cfg, ls[..i]);
      LivesClose(db, h, cfg, ls[..i]);
      CloseNameStands(db, cfg, Lives(db, h, cfg, ls[..i]), Lives(db, h, cfg, ms[..i]));
    }
    forall m | m in ms && SetLives(cfg, ls) ensures m.live == cfg.hostname && m.stop.probe.apply
    {
      var i :| 0 <= i < |ms| && ms[i] == m;
      assert ls[i] in ls;
    }
  }

  /** Host x is, but for the live name and the log, and the owner of key files unless they are whole,
      as an undisturbed run from h that finds live name a leaves it. */
  ghost predicate AsUndisturbed(db: Accounts, h: Host, cfg: Config, a: string, x: Host, whole: bool) {
    var y := Bare(Run(db, Woken(h, a), Plan(cfg, ALL_READ)));
    && Close(Bare(x), y, KeyFiles(db, cfg.users))
    && (whole ==> Bare(x) == y)
  }

  /** After any number of stopped runs and reboots, a run that completes leaves what an undisturbed
      one leaves, and it completes when that one does. */
  lemma RebootResume(db: Accounts, h: Host, cfg: Config, ls: seq<Life>, l: Life, a: string)
    requires Replayable(db, h, cfg) && Steady(db, h, cfg, ls + [l], a)
    ensures var x, p := Woken(Lives(db, h, cfg, ls), l.live), Plan(cfg, l.stop.probe);
            && (Completes(db, x, p) <==> Completes(db, Woken(h, a), Plan(cfg, ALL_READ)))
            && AsUndisturbed(db, h, cfg, a, Run(db, x, p), KeysKept(cfg, ls))
            && (cfg.hostname != "" ==> Run(db, x, p).kernel == cfg.hostname)
  {
    var ms, keyFiles, p := Mended(cfg, ls), KeyFiles(db, cfg.users), Plan(cfg, l.stop.probe);
    var x, y := Woken(Lives(db, h, cfg, ls), l.live), Woken(Lives(db, h, cfg, ms), l.live);
    LivesClose(db, h, cfg, ls);
    RunPlan(db, x, cfg, l.stop.probe);
    FinishedName(db, x, cfg, l.stop.probe);
    MendedLast(db, h, cfg, ls, l, a);
    LastLife(db, h, cfg, ms, l, a);
    CloseRun(db, x, y, p, keyFiles);
    BareClose(Run(db, x, p), Run(db, y, p), keyFiles);
    if KeysKept(cfg, ls) {
      assert ms == ls by {
        forall i | 0 <= i < |ls| ensures ms[i] == ls[i] { assert ls[i] in ls; }
      }
    }
  }

  /** Whatever live name it found, a run that gets past the rename has the configured one. */
  lemma FinishedName(db: Accounts, h: Host, cfg: Config, probe: Probe)
    ensures cfg.hostname != "" ==> Finished(db, h, cfg, probe).kernel == cfg.hostname
  {
    UserStepsAreUserSteps(cfg.users);
    RunGrows(db, Dropped(db, h, cfg, probe), UserSteps(cfg.users));
  }

  lemma BareClose(x: Host, y: Host, keyFiles: set<string>)
    requires Close(x, y, keyFiles)
    ensures Close(Bare(x), Bare(y), keyFiles)
  {
  }

  lemma MendedLast(db: Accounts, h: Host, cfg: Config, ls: seq<Life>, l: Life, a: string)
    requires Steady(db, h, cfg, ls + [l], a)
    ensures var ms := Mended(cfg, ls);
            KeysKept(cfg, ms) && Steady(db, h, cfg, ms, a) && LastSteady(db, h, cfg, ms, l, a)
  {
    var ns := ls + [l];
    SteadyPrefix(db, h, cfg, ns, a);
    assert ns[..|ls|] == ls && ns[|ls|] == l;
    MendedSteady(db, h, cfg, ls, a);
    LivesClose(db, h, cfg, ls);
    CloseNameStands(db, cfg, Lives(db, h, cfg, ls), Lives(db, h, cfg, Mended(cfg, ls)));
    assert l in ns;
  }

  predicate LastSteady(db: Accounts, h: Host, cfg: Config, ls: seq<Life>, l: Life, a: string) {
    || ((NameStands(db, h, cfg) || a != cfg.hostname)
        && (NameStands(db, Lives(db, h, cfg, ls), cfg) || l.live != cfg.hostname))
    || (a == cfg.hostname && l.live == a && l.stop.probe.apply)
  }

  lemma LastLife(db: Accounts, h: Host, cfg: Config, ls: seq<Life>, l: Life, a: string)
    requires Replayable(db, h, cfg) && Steady(db, h, cfg, ls, a) && KeysKept(cfg, ls)
             && LastSteady(db, h, cfg, ls, l, a)
    ensures var x, p := Woken(Lives(db, h, cfg, ls), l.live), Plan(cfg, l.stop.probe);
            && (Completes(db, x, p) <==> Completes(db, Woken(h, a), Plan(cfg, ALL_READ)))
            && Bare(Run(db, x, p)) == Bare(Run(db, Woken(h, a), Plan(cfg, ALL_READ)))
  {
    hide Replayable, Steady, Run, Completes, AllResolve;
    var v := Lives(db, h, cfg, ls);
    var x := Woken(v, l.live);
    LivesResume(db, h, cfg, ls, a);
    WokenAlike(db, v, cfg, l.live);
    WokenAlike(db, h, cfg, a);
    ProbeForgotten(db, x, cfg, l.stop.probe);
    LiveForgotten(db, v, cfg, l.live, a);
    RunPlan(db, x, cfg, l.stop.probe);
    RunPlan(db, Woken(h, a), cfg, ALL_READ);
    assert Finished(db, x, cfg, l.stop.probe) == Finished(db, x, cfg, ALL_READ);
  }
}
