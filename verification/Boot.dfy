/** runApply over any sequence of boots: sentinel check, load, dry run, apply, sentinel write. */
module Boot {
  import opened Text
  import opened AuthorizedKeys
  import opened Host
  import opened Convergence
  import opened KeyOwners
  import opened Resume
  import opened Reboots
  import opened Rerun
  import opened LinuxSystem

  /** os.WriteFile of the sentinel: not created, or created, with all its text or only part. */
  datatype Mark = NotCreated | Created(text: string)

  /** One boot. live is the hostname the kernel comes up with; seen is false when os.Stat of the
      sentinel fails, which counts as no sentinel; load is what reading or discovering the
      configuration gave. The run stops before step stop of its plan, or part way through it if torn;
      ok is false when Apply returned an error or the process died, which can also happen on the last
      step. */
  datatype Boot = Boot(live: string, force: bool, seen: bool, dryRun: bool, load: Option<Config>, probe: Probe,
                       stop: nat, torn: Option<set<string>>, ok: bool, mark: Mark)

  /** os.WriteFile truncates a file that is there, and gives a new one to root with mode 0644. */
  function PutText(files: map<string, File>, path: string, text: string): map<string, File> {
    files[path := if path in files then files[path].(text := text) else File(text, 0x1A4, 0, 0)]
  }

  predicate Skips(h: Host, b: Boot, sentinel: string) {
    (!b.force && b.seen && sentinel in h.files) || b.load.None? || b.dryRun
  }

  function Applied(db: Accounts, h: Host, b: Boot): Host
    requires b.load.Some?
  {
    Stopped(db, Woken(h, b.live), b.load.value, Stop(b.probe, b.stop, b.torn))
  }

  predicate Succeeds(db: Accounts, h: Host, b: Boot, sentinel: string) {
    !Skips(h, b, sentinel) && b.ok &&
    var p := Plan(b.load.value, b.probe);
    b.stop >= |p| && Completes(db, Woken(h, b.live), p)
  }

  function AfterBoot(db: Accounts, h: Host, b: Boot, sentinel: string): Host {
    if Skips(h, b, sentinel) then Woken(h, b.live)
    else
      var x := Applied(db, h, b);
      if Succeeds(db, h, b, sentinel) && b.mark.Created?
      then x.(files := PutText(x.files, sentinel, b.mark.text)) else x
  }

  /** The boots, one after another. */
  function AfterBoots(db: Accounts, h: Host, bs: seq<Boot>, sentinel: string): Host {
    if bs == [] then h
    else AfterBoot(db, AfterBoots(db, h, bs[..|bs| - 1], sentinel), bs[|bs| - 1], sentinel)
  }

  /** runApply against the host. seen, load and mark are what the file system and the network did;
      the returned boot says how far the run went. */
  method RunApply(sys: System, sentinel: string, force: bool, seen: bool, dryRun: bool, load: Option<Config>,
                  mark: Mark)
    returns (o: Outcome, ghost b: Boot)
    modifies sys
    ensures b.live == old(sys.kernel) && b.force == force && b.seen == seen
            && b.dryRun == dryRun && b.load == load && b.mark == mark
    ensures sys.State() == AfterBoot(sys.db, old(sys.State()), b, sentinel)
    ensures o.Done? <==> Succeeds(sys.db, old(sys.State()), b, sentinel)
                         || (load.Some? && dryRun) || (!force && seen && sentinel in old(sys.State()).files)
    ensures Skips(old(sys.State()), b, sentinel) ==> unchanged(sys)
    ensures o.Done? && !dryRun && (force || !seen || sentinel !in old(sys.State()).files) && mark.Created? ==>
              sentinel in sys.files && sys.files[sentinel].text == mark.text
  {
    hide Ran, Blocked, Do, Torn, Run, Completes;
    ghost var h, m, probe, n := sys.State(), sys.mutations, ALL_READ, 0;
    assert Woken(h, h.kernel) == h;
    b := Boot(h.kernel, force, seen, dryRun, load, probe, 0, None, false, mark);
    if !force && seen && sentinel in sys.files {
      return Done, b;
    }
    if load.None? {
      return Failed, b;
    }
    if dryRun {
      return Done, b;
    }
    o, probe, n := sys.Apply(load.value);
    b := Boot(h.kernel, force, seen, dryRun, load, probe, n, PartOf(o), o.Done?, mark);
    RanIsStopped(sys.db, h, load.value, probe, n, PartOf(o), sys.State(), sys.mutations - m);
    if !o.Done? {
      return;
    }
    if mark.Created? {
      sys.files := PutText(sys.files, sentinel, mark.text);
    }
  }

  lemma RanIsStopped(db: Accounts, h: Host, cfg: Config, probe: Probe, n: nat, torn: Option<set<string>>, x: Host,
                     m: int)
    requires Ran(db, h, Plan(cfg, probe), n, torn, x, m)
    ensures x == Stopped(db, h, cfg, Stop(probe, n, torn))
    ensures n == |Plan(cfg, probe)| ==> Completes(db, h, Plan(cfg, probe))
  {
    var p := Plan(cfg, probe);
    RanIsRun(db, h, p, n, torn, x, m);
    assert p[..|p|] == p;
  }

  // ---- who can create a file -----------------------------------------------------------

  /** The paths a run can create: /etc/hostname when it renames, the dropped files, and the key
      files of accounts with a key to add. */
  predicate Creates(db: Accounts, h: Host, cfg: Config, probe: Probe, path: string) {
    || (path == HOSTNAME_FILE && Renamed(h, cfg, probe) != h)
    || path in Targets(db, h, cfg.writeFiles)
    || (AllResolve(db, h, cfg.writeFiles) && AddsKeyAt(db, cfg.users, path))
  }

  predicate AddsKeyAt(db: Accounts, us: seq<UserSpec>, path: string) {
    exists u, k | u in us && k in u.keys :: KeyFile(db, u.name) == path && TrimSpace(k) != ""
  }

  /** The user steps create exactly the key files they have a key for. */
  lemma {:induction false} RunCreates(db: Accounts, h: Host, p: seq<Step>, path: string)
    requires UserPlan(p) && Completes(db, h, p)
    ensures path in Run(db, h, p).files
            <==> path in h.files
                 || exists s | s in p :: s.AddKey? && KeyFile(db, s.name) == path && TrimSpace(s.key) != ""
    decreases p
  {
    if p != [] {
      assert UserStep(p[0]);
      StepGrows(db, h, p[0]);
      RunCreates(db, Do(db, h, p[0]), p[1..], path);
      assert forall s :: s in p <==> s == p[0] || s in p[1..];
      if p[0].AddKey? && KeyFile(db, p[0].name) == path && path !in h.files {
        AddLineToNothing(TrimSpace(p[0].key));
      }
    }
  }

  /** A blank key is found in an empty file, and any other is not. */
  lemma AddLineToNothing(t: string)
    ensures HasLine(Split("", '\n'), t) <==> t == ""
  {
    assert Split("", '\n') == [""];
    TrimmedStays("");
    assert "" in Split("", '\n');
  }

  lemma FinishedCreates(db: Accounts, h: Host, cfg: Config, probe: Probe, path: string)
    ensures path in Finished(db, h, cfg, probe).files <==> path in h.files || Creates(db, h, cfg, probe, path)
  {
    var g, p := Dropped(db, h, cfg, probe), UserSteps(cfg.users);
    RenamedFiles(h, cfg, probe, path);
    if AllResolve(db, h, cfg.writeFiles) {
      UserStepsAreUserSteps(cfg.users);
      UsersComplete(db, g, cfg.users);
      RunCreates(db, g, p, path);
      if s :| s in p && s.AddKey? && KeyFile(db, s.name) == path && TrimSpace(s.key) != "" {
        var u := KeyStepFrom(cfg.users, s);
      }
      if AddsKeyAt(db, cfg.users, path) {
        var u, k :| u in cfg.users && k in u.keys && KeyFile(db, u.name) == path && TrimSpace(k) != "";
        KeyStepOf(cfg.users, u, k);
        var s := AddKey(u.name, k);
        assert s in p && s.AddKey? && KeyFile(db, s.name) == path && TrimSpace(s.key) != "";
      }
    }
  }

  lemma RenamedFiles(h: Host, cfg: Config, probe: Probe, path: string)
    ensures path in Renamed(h, cfg, probe).files
            <==> path in h.files || (path == HOSTNAME_FILE && Renamed(h, cfg, probe) != h)
  {
  }

  /** A stopped run creates no more than the whole run would. */
  lemma StoppedCreates(db: Accounts, h: Host, cfg: Config, s: Stop, path: string)
    requires path in Stopped(db, h, cfg, s).files
    ensures path in h.files || Creates(db, h, cfg, s.probe, path)
  {
    var p := Plan(cfg, s.probe);
    RunPlan(db, h, cfg, s.probe);
    FinishedCreates(db, h, cfg, s.probe, path);
    if s.steps < |p| {
      CutCreates(db, h, p, s.steps);
    }
  }

  lemma CutCreates(db: Accounts, h: Host, p: seq<Step>, k: nat)
    requires k < |p|
    ensures Run(db, h, p[..k]).files.Keys <= Run(db, h, p).files.Keys
    ensures Completes(db, h, p[..k]) ==>
              forall part :: Torn(db, Run(db, h, p[..k]), p[k], part).files.Keys <= Run(db, h, p).files.Keys
  {
    var x, q := Run(db, h, p[..k]), p[k..];
    assert p == p[..k] + q && q[0] == p[k];
    RunAppend(db, h, p[..k], q);
    RunKeepsFiles(db, x, q);
    if !Blocked(db, x, p[k]) {
      TornCreates(db, x, p[k]);
      RunKeepsFiles(db, Do(db, x, p[k]), q[1..]);
    }
  }

  /** A step that stops part way creates no more files than the whole step. */
  lemma TornCreates(db: Accounts, h: Host, s: Step)
    requires !Blocked(db, h, s)
    ensures forall part :: Torn(db, h, s, part).files.Keys <= Do(db, h, s).files.Keys
  {
  }

  // ---- safety over every sequence of boots ---------------------------------------------

  /** No configuration the boots load can create the sentinel itself: stated on the config alone. */
  predicate Leaves(db: Accounts, cfg: Config, sentinel: string) {
    && sentinel != HOSTNAME_FILE
    && (forall f | f in cfg.writeFiles :: f.path != sentinel)
    && !AddsKeyAt(db, cfg.users, sentinel)
  }

  predicate BootsLeave(db: Accounts, bs: seq<Boot>, sentinel: string) {
    forall b | b in bs && b.load.Some? :: Leaves(db, b.load.value, sentinel)
  }

  /** A boot creates the sentinel only by succeeding and writing it, or by a step of its plan. */
  lemma BootCreatesSentinel(db: Accounts, h: Host, b: Boot, sentinel: string)
    ensures sentinel in AfterBoot(db, h, b, sentinel).files
            ==> sentinel in h.files || (Succeeds(db, h, b, sentinel) && b.mark.Created?)
                || Creates(db, Woken(h, b.live), b.load.value, b.probe, sentinel)
  {
    if !Skips(h, b, sentinel) && sentinel in Applied(db, h, b).files && sentinel !in h.files {
      StoppedCreates(db, Woken(h, b.live), b.load.value, Stop(b.probe, b.stop, b.torn), sentinel);
    }
  }

  lemma LeavesCreatesNot(db: Accounts, h: Host, cfg: Config, probe: Probe, sentinel: string)
    requires Leaves(db, cfg, sentinel)
    ensures !Creates(db, h, cfg, probe, sentinel)
  {
    forall f | f in cfg.writeFiles ensures f.path != sentinel {
    }
    TargetsOnlyNamed(db, h, cfg.writeFiles, sentinel);
  }

  /** Without that, the promise fails: over a host with no sentinel, some boot that finds it so and
      whose Apply did not return nil leaves the sentinel exactly when a step of the plan creates that
      path. */
  lemma UnfinishedBootLeavesSentinelIff(db: Accounts, h: Host, cfg: Config, probe: Probe, sentinel: string)
    requires sentinel !in h.files
    ensures (exists b: Boot ::
               && sentinel in AfterBoot(db, h, b, sentinel).files
               && b.live == h.kernel && b.load == Some(cfg) && b.probe == probe && !Succeeds(db, h, b, sentinel))
            <==> Creates(db, h, cfg, probe, sentinel)
  {
    if Creates(db, h, cfg, probe, sentinel) {
      var p := Plan(cfg, probe);
      var b := Boot(h.kernel, false, true, false, Some(cfg), probe, |p|, None, false, NotCreated);
      assert Woken(h, h.kernel) == h;
      StoppedWhole(db, h, cfg, probe, |p|);
      FinishedCreates(db, h, cfg, probe, sentinel);
      assert sentinel in AfterBoot(db, h, b, sentinel).files;
    }
    forall b: Boot | sentinel in AfterBoot(db, h, b, sentinel).files && b.live == h.kernel && b.load == Some(cfg)
                     && b.probe == probe && !Succeeds(db, h, b, sentinel)
      ensures Creates(db, h, cfg, probe, sentinel)
    {
      assert Woken(h, h.kernel) == h;
      BootCreatesSentinel(db, h, b, sentinel);
    }
  }

  /** The sentinel is there only if some boot's Apply returned nil. */
  lemma {:induction false} SentinelMeansSuccess(db: Accounts, h: Host, bs: seq<Boot>, sentinel: string) returns (i: nat)
    requires BootsLeave(db, bs, sentinel)
    requires sentinel !in h.files && sentinel in AfterBoots(db, h, bs, sentinel).files
    ensures i < |bs| && Succeeds(db, AfterBoots(db, h, bs[..i], sentinel), bs[i], sentinel)
    decreases bs
  {
    var n := |bs| - 1;
    var x := AfterBoots(db, h, bs[..n], sentinel);
    assert bs[n] in bs;
    if sentinel in x.files {
      i := SentinelMeansSuccess(db, h, bs[..n], sentinel);
      assert bs[..n][..i] == bs[..i];
    } else {
      i := n;
      BootCreatesSentinel(db, x, bs[n], sentinel);
      if bs[n].load.Some? {
        LeavesCreatesNot(db, Woken(x, bs[n].live), bs[n].load.value, bs[n].probe, sentinel);
      }
    }
  }

  /** Once the sentinel is there, boots without --force that see it, and dry runs, change nothing,
      whatever live name they come up with. */
  lemma {:induction false} LaterBootsChangeNothing(db: Accounts, h: Host, bs: seq<Boot>, sentinel: string)
    requires sentinel in h.files && forall b | b in bs :: (!b.force && b.seen) || b.load.None? || b.dryRun
    ensures Woken(AfterBoots(db, h, bs, sentinel), h.kernel) == h
    decreases bs
  {
    if bs != [] {
      assert bs[|bs| - 1] in bs;
      LaterBootsChangeNothing(db, h, bs[..|bs| - 1], sentinel);
    }
  }

  /** Dry runs, and boots that load nothing, change nothing on any host. */
  lemma {:induction false} DryRunsChangeNothing(db: Accounts, h: Host, bs: seq<Boot>, sentinel: string)
    requires forall b | b in bs :: b.dryRun || b.load.None?
    ensures Woken(AfterBoots(db, h, bs, sentinel), h.kernel) == h
    decreases bs
  {
    if bs != [] {
      assert bs[|bs| - 1] in bs;
      DryRunsChangeNothing(db, h, bs[..|bs| - 1], sentinel);
    }
  }

  /** A boot that is to apply, forced or finding no sentinel, and is not stopped, runs every command and
      leaves the sentinel if it could be created: root's and readable, where there was nothing. */
  lemma SuccessLeavesSentinel(db: Accounts, h: Host, b: Boot, cfg: Config, sentinel: string)
    requires b.load == Some(cfg) && !b.dryRun && (b.force || !b.seen || sentinel !in h.files)
    requires AllResolve(db, h, cfg.writeFiles) && b.stop >= |Plan(cfg, b.probe)| && b.ok
    ensures var x := AfterBoot(db, h, b, sentinel);
            && x.ran == h.ran + cfg.runCmds
            && (b.mark.Created? ==> sentinel in x.files && x.files[sentinel].text == b.mark.text)
            && (b.mark.Created? && sentinel !in h.files && Leaves(db, cfg, sentinel) ==>
                  x.files[sentinel] == File(b.mark.text, 0x1A4, 0, 0))
            && (b.mark.NotCreated? && sentinel !in h.files && Leaves(db, cfg, sentinel) ==> sentinel !in x.files)
  {
    var w := Woken(h, b.live);
    WokenAlike(db, h, cfg, b.live);
    StoppedWhole(db, w, cfg, b.probe, b.stop);
    FinishedLog(db, w, cfg, b.probe);
    FinishedCreates(db, w, cfg, b.probe, sentinel);
    if Leaves(db, cfg, sentinel) {
      LeavesCreatesNot(db, w, cfg, b.probe, sentinel);
    }
  }

  lemma {:induction false} AfterBootsCons(db: Accounts, h: Host, b: Boot, bs: seq<Boot>, sentinel: string)
    ensures AfterBoots(db, h, [b] + bs, sentinel) == AfterBoots(db, AfterBoot(db, h, b, sentinel), bs, sentinel)
    decreases bs
  {
    var all := [b] + bs;
    if bs == [] {
      assert all == [b] && [b][..0] == [];
    } else {
      assert all[..|all| - 1] == [b] + bs[..|bs| - 1];
      AfterBootsCons(db, h, b, bs[..|bs| - 1], sentinel);
    }
  }

  /** So one such boot is enough: over any sequence of unforced boots after it that see the sentinel, or
      dry runs, each command has run once. */
  lemma OneSuccessIsEnough(db: Accounts, h: Host, b: Boot, cfg: Config, later: seq<Boot>, sentinel: string)
    requires b.load == Some(cfg) && !b.dryRun && (b.force || !b.seen || sentinel !in h.files)
    requires AllResolve(db, h, cfg.writeFiles) && b.stop >= |Plan(cfg, b.probe)| && b.ok && b.mark.Created?
    requires forall c | c in later :: (!c.force && c.seen) || c.dryRun
    ensures var x := AfterBoots(db, h, [b] + later, sentinel);
            x.ran == h.ran + cfg.runCmds && SameDisk(x, AfterBoot(db, h, b, sentinel))
  {
    var y := AfterBoot(db, h, b, sentinel);
    SuccessLeavesSentinel(db, h, b, cfg, sentinel);
    AfterBootsCons(db, h, b, later, sentinel);
    LaterBootsChangeNothing(db, y, later, sentinel);
    var x := AfterBoots(db, h, [b] + later, sentinel);
    assert Woken(Woken(x, y.kernel), "") == Woken(x, "");
  }

  /** An unforced boot that cannot examine the sentinel takes it for absent and runs every command
      again. */
  lemma UnseenSentinelRunsAgain(db: Accounts, h: Host, b: Boot, cfg: Config, sentinel: string)
    requires sentinel in h.files && !b.force && !b.dryRun && b.load == Some(cfg) && b.stop >= |Plan(cfg, b.probe)|
    requires AllResolve(db, h, cfg.writeFiles)
    ensures AfterBoot(db, h, b, sentinel).ran == h.ran + if b.seen then [] else cfg.runCmds
  {
    var w := Woken(h, b.live);
    WokenAlike(db, h, cfg, b.live);
    StoppedWhole(db, w, cfg, b.probe, b.stop);
    FinishedLog(db, w, cfg, b.probe);
    assert h.ran + [] == h.ran;
  }

  /** The commands that ran, as one prefix of RunCmds after another. */
  function Prefixes(cmds: seq<string>, ns: seq<nat>): seq<string>
    requires forall i | 0 <= i < |ns| :: ns[i] <= |cmds|
  {
    if ns == [] then [] else Prefixes(cmds, ns[..|ns| - 1]) + cmds[..ns[|ns| - 1]]
  }

  predicate Loads(bs: seq<Boot>, cfg: Config) {
    forall b | b in bs && b.load.Some? :: b.load.value == cfg
  }

  /** A run that was not stopped. */
  lemma StoppedWhole(db: Accounts, h: Host, cfg: Config, probe: Probe, stop: nat)
    requires stop >= |Plan(cfg, probe)|
    ensures forall torn :: Stopped(db, h, cfg, Stop(probe, stop, torn)) == Finished(db, h, cfg, probe)
    ensures Completes(db, h, Plan(cfg, probe)) <==> AllResolve(db, h, cfg.writeFiles)
  {
    var p := Plan(cfg, probe);
    assert p[..|p|] == p;
    RunPlan(db, h, cfg, probe);
  }

  lemma BootLog(db: Accounts, h: Host, b: Boot, cfg: Config, sentinel: string) returns (c: nat)
    requires (b.load.Some? ==> b.load.value == cfg)
    ensures c <= |cfg.runCmds| && AfterBoot(db, h, b, sentinel).ran == h.ran + cfg.runCmds[..c]
    ensures Succeeds(db, h, b, sentinel) ==> c == |cfg.runCmds|
  {
    var w := Woken(h, b.live);
    c := 0;
    assert h.ran + cfg.runCmds[..0] == h.ran;
    if Succeeds(db, h, b, sentinel) {
      c := |cfg.runCmds|;
      assert cfg.runCmds[..c] == cfg.runCmds;
      StoppedWhole(db, w, cfg, b.probe, b.stop);
      FinishedLog(db, w, cfg, b.probe);
    } else if !Skips(h, b, sentinel) {
      var s := Stop(b.probe, b.stop, b.torn);
      var at := StoppedAt(db, w, cfg, s);
      StageLog(db, w, cfg, b.probe, Stopped(db, w, cfg, s), at);
      c := if at.InUsers? then at.cmds else 0;
    }
  }

  /** For one configuration, the log is a concatenation of prefixes of its commands, one of
      them complete once the sentinel is there. */
  lemma {:induction false} LogIsPrefixes(db: Accounts, h: Host, bs: seq<Boot>, cfg: Config, sentinel: string)
    returns (ns: seq<nat>)
    requires Loads(bs, cfg) && Leaves(db, cfg, sentinel) && sentinel !in h.files
    ensures forall i | 0 <= i < |ns| :: ns[i] <= |cfg.runCmds|
    ensures var x := AfterBoots(db, h, bs, sentinel);
            && x.ran == h.ran + Prefixes(cfg.runCmds, ns)
            && (sentinel in x.files ==> |cfg.runCmds| in ns)
    decreases bs
  {
    ns := [];
    if bs == [] {
      assert h.ran + [] == h.ran;
    } else {
      var n := |bs| - 1;
      var x := AfterBoots(db, h, bs[..n], sentinel);
      assert bs[n] in bs;
      var ms := LogIsPrefixes(db, h, bs[..n], cfg, sentinel);
      var c := BootLog(db, x, bs[n], cfg, sentinel);
      ns := ms + [c];
      PrefixesSnoc(h.ran, cfg.runCmds, ms, c);
      BootCreatesSentinel(db, x, bs[n], sentinel);
      LeavesCreatesNot(db, Woken(x, bs[n].live), cfg, bs[n].probe, sentinel);
      assert c in ns && forall m :: m in ms ==> m in ns;
    }
  }

  lemma PrefixesSnoc(log: seq<string>, cmds: seq<string>, ms: seq<nat>, c: nat)
    requires c <= |cmds| && forall i | 0 <= i < |ms| :: ms[i] <= |cmds|
    ensures log + Prefixes(cmds, ms) + cmds[..c] == log + Prefixes(cmds, ms + [c])
  {
    var ns := ms + [c];
    assert ns[..|ms|] == ms && ns[|ms|] == c;
  }

  // ---- from boots back to runs ---------------------------------------------------------

  lemma StoppedKeepsFiles(db: Accounts, h: Host, cfg: Config, s: Stop)
    ensures h.files.Keys <= Stopped(db, h, cfg, s).files.Keys
  {
    var p := Plan(cfg, s.probe);
    var q := if s.steps < |p| then p[..s.steps] else p;
    RunKeepsFiles(db, h, q);
    if s.steps < |p| && s.torn.Some? {
      TornKeepsFiles(db, Run(db, h, q), p[s.steps], s.torn.value);
    }
  }

  lemma BootKeepsFiles(db: Accounts, h: Host, b: Boot, sentinel: string)
    ensures h.files.Keys <= AfterBoot(db, h, b, sentinel).files.Keys
  {
    if !Skips(h, b, sentinel) {
      StoppedKeepsFiles(db, Woken(h, b.live), b.load.value, Stop(b.probe, b.stop, b.torn));
    }
  }

  /** No boot stopped between the rename and the chown of a key file. */
  predicate BootsKeepKeys(bs: seq<Boot>) {
    forall b | b in bs && b.load.Some? :: !CutsKey(b.load.value, Stop(b.probe, b.stop, b.torn))
  }

  /** Every boot that applies comes up with another name than the configured one, until the hostname
      file stands. */
  predicate SafeBoots(db: Accounts, h: Host, cfg: Config, bs: seq<Boot>, sentinel: string) {
    forall i | 0 <= i < |bs| ::
      var x := AfterBoots(db, h, bs[..i], sentinel);
      Skips(x, bs[i], sentinel) || NameStands(db, x, cfg) || bs[i].live != cfg.hostname
  }

  /** The name is no obstacle to recovering what an undisturbed run that finds live name a leaves. */
  predicate SteadyBoots(db: Accounts, h: Host, cfg: Config, bs: seq<Boot>, sentinel: string, a: string) {
    || ((NameStands(db, h, cfg) || a != cfg.hostname) && SafeBoots(db, h, cfg, bs, sentinel))
    || (a == cfg.hostname && SetBoots(cfg, bs))
  }

  /** Every boot comes up with the configured name, and sees it. */
  predicate SetBoots(cfg: Config, bs: seq<Boot>) {
    forall b | b in bs :: b.live == cfg.hostname && b.probe.apply
  }

  lemma SafeBootsPrefix(db: Accounts, h: Host, cfg: Config, bs: seq<Boot>, sentinel: string)
    requires bs != [] && SafeBoots(db, h, cfg, bs, sentinel)
    ensures SafeBoots(db, h, cfg, bs[..|bs| - 1], sentinel)
    ensures var b, x := bs[|bs| - 1], AfterBoots(db, h, bs[..|bs| - 1], sentinel);
            Skips(x, b, sentinel) || NameStands(db, x, cfg) || b.live != cfg.hostname
  {
    var cs := bs[..|bs| - 1];
    forall i | 0 <= i < |cs|
      ensures var x := AfterBoots(db, h, cs[..i], sentinel);
              Skips(x, cs[i], sentinel) || NameStands(db, x, cfg) || cs[i].live != cfg.hostname
    {
      assert cs[..i] == bs[..i] && cs[i] == bs[i];
    }
  }

  function LifeOf(b: Boot): Life {
    Life(b.live, Stop(b.probe, b.stop, b.torn))
  }

  /** The same host, but for the live name. */
  predicate SameDisk(x: Host, y: Host) {
    Woken(x, "") == Woken(y, "")
  }

  lemma SameDiskAlike(db: Accounts, cfg: Config, x: Host, y: Host)
    requires SameDisk(x, y)
    ensures (NameStands(db, x, cfg) <==> NameStands(db, y, cfg)) && forall live :: Woken(x, live) == Woken(y, live)
  {
    WokenAlike(db, x, cfg, "");
    WokenAlike(db, y, cfg, "");
    forall live ensures Woken(x, live) == Woken(y, live) {
      assert Woken(Woken(x, ""), live) == Woken(x, live) && Woken(Woken(y, ""), live) == Woken(y, live);
    }
  }

  /** While there is no sentinel, boots are stopped runs with reboots between them. */
  lemma {:induction false} BootsAreLives(db: Accounts, h: Host, bs: seq<Boot>, cfg: Config, sentinel: string)
    returns (ls: seq<Life>)
    requires Loads(bs, cfg) && sentinel !in AfterBoots(db, h, bs, sentinel).files
    ensures SameDisk(AfterBoots(db, h, bs, sentinel), Lives(db, h, cfg, ls))
    ensures SafeBoots(db, h, cfg, bs, sentinel) ==> SafeLives(db, h, cfg, ls)
    ensures SetBoots(cfg, bs) ==> SetLives(cfg, ls)
    ensures BootsKeepKeys(bs) ==> KeysKept(cfg, ls)
    decreases bs
  {
    hide NameStands, SafeBoots, SafeLives;
    ls := [];
    if bs == [] {
      NoLivesSafe(db, h, cfg);
    } else {
      var n := |bs| - 1;
      var x, b := AfterBoots(db, h, bs[..n], sentinel), bs[n];
      assert b in bs;
      BootKeepsFiles(db, x, b, sentinel);
      if SafeBoots(db, h, cfg, bs, sentinel) {
        SafeBootsPrefix(db, h, cfg, bs, sentinel);
      }
      var ms := BootsAreLives(db, h, bs[..n], cfg, sentinel);
      ls := ms;
      if !Skips(x, b, sentinel) {
        SameDiskAlike(db, cfg, x, Lives(db, h, cfg, ms));
        ls := ms + [LifeOf(b)];
        assert ls[..|ms|] == ms && ls[|ms|] == LifeOf(b);
        if SafeBoots(db, h, cfg, bs, sentinel) {
          SafeSnoc(db, h, cfg, ms, LifeOf(b));
        }
      }
    }
  }

  lemma NoLivesSafe(db: Accounts, h: Host, cfg: Config)
    ensures SafeLives(db, h, cfg, [])
  {
  }

  /** Sentinel, live name and log aside, and the owner of key files unless they are whole, host x is
      as an undisturbed run from h that finds live name a leaves it. */
  ghost predicate Converged(db: Accounts, h: Host, cfg: Config, a: string, x: Host, sentinel: string, whole: bool) {
    AsUndisturbed(db, h, cfg, a, x.(files := x.files - {sentinel}), whole)
  }

  lemma SuccessfulBoot(db: Accounts, x: Host, cfg: Config, b: Boot, sentinel: string)
    requires Leaves(db, cfg, sentinel) && b.load == Some(cfg)
    requires sentinel !in x.files && Succeeds(db, x, b, sentinel) && b.mark.Created?
    ensures var y := AfterBoot(db, x, b, sentinel);
            y.(files := y.files - {sentinel}) == Run(db, Woken(x, b.live), Plan(cfg, b.probe))
  {
    var w := Woken(x, b.live);
    var y := Finished(db, w, cfg, b.probe);
    StoppedWhole(db, w, cfg, b.probe, b.stop);
    RunPlan(db, w, cfg, b.probe);
    FinishedCreates(db, w, cfg, b.probe, sentinel);
    LeavesCreatesNot(db, w, cfg, b.probe, sentinel);
    PutThenRemove(y.files, sentinel, b.mark.text);
  }

  lemma PutThenRemove(files: map<string, File>, path: string, text: string)
    requires path !in files
    ensures PutText(files, path, text) - {path} == files
  {
  }

  /** The boot that first writes the sentinel leaves the host one undisturbed run leaves. */
  lemma FinalBoot(db: Accounts, h: Host, cfg: Config, ls: seq<Life>, x: Host, b: Boot, sentinel: string, a: string)
    requires Replayable(db, h, cfg) && Leaves(db, cfg, sentinel) && b.load == Some(cfg)
    requires SameDisk(x, Lives(db, h, cfg, ls)) && Steady(db, h, cfg, ls + [LifeOf(b)], a)
    requires sentinel !in x.files && Succeeds(db, x, b, sentinel) && b.mark.Created?
    ensures Converged(db, h, cfg, a, AfterBoot(db, x, b, sentinel), sentinel, KeysKept(cfg, ls))
    ensures cfg.hostname != "" ==> AfterBoot(db, x, b, sentinel).kernel == cfg.hostname
  {
    hide Run, Completes, Plan, AfterBoot, Succeeds, Leaves, Replayable, Lives, Steady, AsUndisturbed, KeysKept;
    SameDiskAlike(db, cfg, x, Lives(db, h, cfg, ls));
    SuccessfulBoot(db, x, cfg, b, sentinel);
    RebootResume(db, h, cfg, ls, LifeOf(b), a);
  }

  /** End to end: whatever crashed, failed and was skipped on the way, once unforced boots of one
      configuration that see the sentinel have left it, the rest of the host is what one undisturbed
      run of Apply leaves; only a key file cut before its chown may be left with root. */
  lemma {:induction false} SentinelMeansConverged(db: Accounts, h: Host, bs: seq<Boot>, cfg: Config, sentinel: string,
                                                  a: string)
    requires Replayable(db, h, cfg) && Leaves(db, cfg, sentinel) && Loads(bs, cfg)
    requires SteadyBoots(db, h, cfg, bs, sentinel, a)
    requires sentinel !in h.files && forall b | b in bs :: !b.force && b.seen
    requires sentinel in AfterBoots(db, h, bs, sentinel).files
    ensures Converged(db, h, cfg, a, AfterBoots(db, h, bs, sentinel), sentinel, BootsKeepKeys(bs))
    decreases bs
  {
    hide Replayable, Leaves, NameStands, SafeBoots, SafeLives, Succeeds, Run, Lives;
    var n := |bs| - 1;
    var x, b := AfterBoots(db, h, bs[..n], sentinel), bs[n];
    assert b in bs;
    if SafeBoots(db, h, cfg, bs, sentinel) {
      SafeBootsPrefix(db, h, cfg, bs, sentinel);
    }
    if sentinel in x.files {
      SentinelMeansConverged(db, h, bs[..n], cfg, sentinel, a);
      assert Bare(Woken(x, b.live)) == Bare(x);
    } else {
      var ls := BootsAreLives(db, h, bs[..n], cfg, sentinel);
      BootCreatesSentinel(db, x, b, sentinel);
      LeavesCreatesNot(db, Woken(x, b.live), cfg, b.probe, sentinel);
      SameDiskAlike(db, cfg, x, Lives(db, h, cfg, ls));
      if SafeBoots(db, h, cfg, bs, sentinel) {
        SafeSnoc(db, h, cfg, ls, LifeOf(b));
      }
      FinalBoot(db, h, cfg, ls, x, b, sentinel, a);
    }
  }

  /** A write_file aimed at the sentinel: the boot is killed right after it, and from then on every
      unforced boot that sees it skips the rest of the configuration. */
  lemma SentinelWrittenByConfig(db: Accounts, h: Host, sentinel: string, later: seq<Boot>)
    requires sentinel !in h.files && forall b | b in later :: !b.force && b.seen
    ensures var cfg := Config("", [], [FileSpec(sentinel, "", "0644", "0", "0")], ["nginx"], []);
            var b := Boot(h.kernel, false, true, false, Some(cfg), ALL_READ, 1, None, false, NotCreated);
            var x := AfterBoot(db, h, b, sentinel);
            !Succeeds(db, h, b, sentinel) && sentinel in x.files && x.packages == h.packages
            && SameDisk(AfterBoots(db, x, later, sentinel), x)
  {
    var f := FileSpec(sentinel, "", "0644", "0", "0");
    var cfg := Config("", [], [f], ["nginx"], []);
    var b := Boot(h.kernel, false, true, false, Some(cfg), ALL_READ, 1, None, false, NotCreated);
    assert Woken(h, h.kernel) == h;
    RootOwnedResolves(db, h, f);
    var p := Plan(cfg, ALL_READ);
    assert p[..1] == [Drop(f)] && p[..1][1..] == [];
    var x := Do(db, h, Drop(f));
    assert Run(db, x, []) == x && Run(db, h, p[..1]) == x;
    assert AfterBoot(db, h, b, sentinel) == x;
    LaterBootsChangeNothing(db, x, later, sentinel);
    assert Woken(Woken(AfterBoots(db, x, later, sentinel), x.kernel), "")
           == Woken(AfterBoots(db, x, later, sentinel), "");
  }
}
