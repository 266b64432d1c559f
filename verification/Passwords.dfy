/** An account that useradd made and the password command did not reach. */
module Passwords {
  import opened Text
  import opened AuthorizedKeys
  import opened Host
  import opened Convergence
  import opened Resume

  /** CreateUser stopped between useradd and the password: the account is there, and locked. */
  function HalfMade(h: Host, u: UserSpec): Host {
    CreateUser(h, u.name, u.shell, "", WantedGroups(u))
  }

  /** The hosts differ in nothing but the password of one account. */
  predicate SameButHash(x: Host, y: Host, name: string) {
    name in x.users && name in y.users
    && x == y.(users := y.users[name := y.users[name].(hash := x.users[name].hash)])
  }

  /** From x to y the account keeps its password. */
  predicate HashKept(x: Host, y: Host, name: string) {
    name in x.users && name in y.users && x.users[name].hash == y.users[name].hash
  }

  lemma EnsureSameButHash(db: Accounts, x: Host, y: Host, u: UserSpec, name: string)
    requires SameButHash(x, y, name)
    ensures SameButHash(Do(db, x, Ensure(u)), Do(db, y, Ensure(u)), name) && HashKept(x, Do(db, x, Ensure(u)), name)
  {
    hide WantedGroups, ToSet;
  }

  lemma DropSameButHash(db: Accounts, x: Host, y: Host, f: FileSpec, name: string)
    requires SameButHash(x, y, name)
    ensures Blocked(db, x, Drop(f)) <==> Blocked(db, y, Drop(f))
    ensures !Blocked(db, x, Drop(f)) ==>
              SameButHash(Do(db, x, Drop(f)), Do(db, y, Drop(f)), name) && HashKept(x, Do(db, x, Drop(f)), name)
  {
    hide Resolve, Target, InPlace;
    ResolveSame(db, x, y, f, name);
  }

  lemma DoSameButHash(db: Accounts, x: Host, y: Host, s: Step, name: string)
    requires SameButHash(x, y, name)
    ensures Blocked(db, x, s) <==> Blocked(db, y, s)
    ensures !Blocked(db, x, s) ==> SameButHash(Do(db, x, s), Do(db, y, s), name) && HashKept(x, Do(db, x, s), name)
  {
    hide Resolve, TrimSpace, HasLine, LinuxAdd, WantedGroups, ToSet, CreateUser, AddUserToGroups, WriteFile;
    match s
    case Ensure(u) => EnsureSameButHash(db, x, y, u, name);
    case Drop(f) => DropSameButHash(db, x, y, f, name);
    case _ =>
  }

  lemma ResolveSame(db: Accounts, x: Host, y: Host, f: FileSpec, name: string)
    requires SameButHash(x, y, name)
    ensures Resolve(db, x, f) == Resolve(db, y, f)
  {
    assert SameNames(y, x);
    ResolveGrows(db, y, x, f);
  }

  lemma {:induction false} RunSameButHash(db: Accounts, x: Host, y: Host, p: seq<Step>, name: string)
    requires SameButHash(x, y, name)
    ensures Completes(db, x, p) <==> Completes(db, y, p)
    ensures SameButHash(Run(db, x, p), Run(db, y, p), name) && HashKept(x, Run(db, x, p), name)
    decreases p
  {
    if p != [] {
      DoSameButHash(db, x, y, p[0], name);
      if !Blocked(db, x, p[0]) {
        RunSameButHash(db, Do(db, x, p[0]), Do(db, y, p[0]), p[1..], name);
      }
    }
  }

  lemma TornSameButHash(db: Accounts, x: Host, y: Host, s: Step, part: set<string>, name: string)
    requires SameButHash(x, y, name)
    ensures SameButHash(Torn(db, x, s, part), Torn(db, y, s, part), name) && HashKept(x, Torn(db, x, s, part), name)
  {
    hide Resolve, TrimSpace, HasLine, LinuxAdd, WantedGroups, ToSet, Target, InPlace;
    if s.Drop? {
      ResolveSame(db, x, y, s.file, name);
    }
  }

  lemma StoppedSameButHash(db: Accounts, x: Host, y: Host, cfg: Config, s: Stop, name: string)
    requires SameButHash(x, y, name)
    ensures SameButHash(Stopped(db, x, cfg, s), Stopped(db, y, cfg, s), name)
            && HashKept(x, Stopped(db, x, cfg, s), name)
  {
    hide SameButHash, Run, Completes, Torn;
    var p := Plan(cfg, s.probe);
    var q := if s.steps < |p| then p[..s.steps] else p;
    RunSameButHash(db, x, y, q, name);
    if s.steps < |p| && s.torn.Some? {
      TornSameButHash(db, Run(db, x, q), Run(db, y, q), p[s.steps], s.torn.value, name);
    }
  }

  lemma {:induction false} RunsSameButHash(db: Accounts, x: Host, y: Host, cfg: Config, stops: seq<Stop>, name: string)
    requires SameButHash(x, y, name)
    ensures SameButHash(Runs(db, x, cfg, stops), Runs(db, y, cfg, stops), name)
            && HashKept(x, Runs(db, x, cfg, stops), name)
    decreases stops
  {
    hide SameButHash, Stopped;
    if stops == [] {
      HashesAreKept(x, y, name);
    } else {
      var n := |stops| - 1;
      RunsSameButHash(db, x, y, cfg, stops[..n], name);
      StoppedSameButHash(db, Runs(db, x, cfg, stops[..n]), Runs(db, y, cfg, stops[..n]), cfg, stops[n], name);
    }
  }

  lemma HashesAreKept(x: Host, y: Host, name: string)
    requires SameButHash(x, y, name)
    ensures HashKept(x, x, name) && SameButHash(y, y, name)
  {
    assert y.users[name := y.users[name]] == y.users;
  }

  lemma {:induction false} RunsAfter(db: Accounts, h: Host, cfg: Config, s: Stop, stops: seq<Stop>)
    ensures Runs(db, h, cfg, [s] + stops) == Runs(db, Stopped(db, h, cfg, s), cfg, stops)
    decreases stops
  {
    var all := [s] + stops;
    if stops == [] {
      assert all == [s] && [s][..0] == [];
    } else {
      assert all[..|all| - 1] == [s] + stops[..|stops| - 1];
      RunsAfter(db, h, cfg, s, stops[..|stops| - 1]);
    }
  }

  /** Step k of the plan makes an account. */
  predicate MakesAccount(db: Accounts, h: Host, cfg: Config, probe: Probe, k: nat, u: UserSpec) {
    var p := Plan(cfg, probe);
    k < |p| && p[k] == Ensure(u) && Completes(db, h, p[..k]) && u.name !in Run(db, h, p[..k]).users
  }

  lemma MadeWithPassword(db: Accounts, v: Host, u: UserSpec)
    requires u.name !in v.users
    ensures var x, y := HalfMade(v, u), Do(db, v, Ensure(u));
            && SameButHash(x, y, u.name) && x.users[u.name].hash == "" && y.users[u.name].hash == u.hash
  {
    hide WantedGroups, ToSet;
  }

  lemma MadeAccount(db: Accounts, h: Host, cfg: Config, probe: Probe, k: nat, u: UserSpec)
    requires MakesAccount(db, h, cfg, probe, k, u)
    ensures var x, y := HalfMade(Run(db, h, Plan(cfg, probe)[..k]), u), Stopped(db, h, cfg, Stop(probe, k + 1, None));
            && SameButHash(x, y, u.name) && x.users[u.name].hash == "" && y.users[u.name].hash == u.hash
  {
    hide Run, Completes, Do, HalfMade, SameButHash, Plan;
    var p := Plan(cfg, probe);
    assert p[..k + 1] == p[..k] + [p[k]] && p[..|p|] == p;
    RunAppend(db, h, p[..k], [p[k]]);
    RunStep(db, Run(db, h, p[..k]), p[k]);
    MadeWithPassword(db, Run(db, h, p[..k]), u);
  }

  /** However many runs follow, stopped or not, the password is never set, and nothing else differs
      from runs that had set it. */
  lemma PasswordNeverSet(db: Accounts, h: Host, cfg: Config, probe: Probe, k: nat, u: UserSpec, stops: seq<Stop>)
    requires MakesAccount(db, h, cfg, probe, k, u)
    ensures var v := Run(db, h, Plan(cfg, probe)[..k]);
            var x, y := Runs(db, HalfMade(v, u), cfg, stops), Runs(db, h, cfg, [Stop(probe, k + 1, None)] + stops);
            && SameButHash(x, y, u.name) && x.users[u.name].hash == "" && y.users[u.name].hash == u.hash
  {
    hide Stopped, HalfMade;
    var s := Stop(probe, k + 1, None);
    var v := Run(db, h, Plan(cfg, probe)[..k]);
    MadeAccount(db, h, cfg, probe, k, u);
    RunsAfter(db, h, cfg, s, stops);
    var x, y := HalfMade(v, u), Stopped(db, h, cfg, s);
    RunsSameButHash(db, x, y, cfg, stops, u.name);
    HashesAreKept(x, y, u.name);
    RunsSameButHash(db, y, y, cfg, stops, u.name);
  }

  /** So the complete run after them leaves what an undisturbed run leaves if and only if the account
      was to have no password. */
  lemma HalfMadeRecoversIff(db: Accounts, h: Host, cfg: Config, probe: Probe, k: nat, u: UserSpec, stops: seq<Stop>)
    requires MakesAccount(db, h, cfg, probe, k, u) && Replayable(db, h, cfg) && KeysWhole(cfg, stops)
    requires ProbeHarmless(db, h, cfg) || (probe.apply && forall s | s in stops :: s.probe.apply)
    ensures var v, p := Run(db, h, Plan(cfg, probe)[..k]), Plan(cfg, ALL_READ);
            var a, b := Run(db, Runs(db, HalfMade(v, u), cfg, stops), p), Run(db, h, p);
            && SameButHash(Core(a), Core(b), u.name) && a.users[u.name].hash == ""
            && (Core(a) == Core(b) <==> u.hash == "")
  {
    hide Stopped, HalfMade, Run, Runs, Completes, Replayable, ProbeHarmless;
    var v, p := Run(db, h, Plan(cfg, probe)[..k]), Plan(cfg, ALL_READ);
    var all := [Stop(probe, k + 1, None)] + stops;
    var x, y := Runs(db, HalfMade(v, u), cfg, stops), Runs(db, h, cfg, all);
    PasswordNeverSet(db, h, cfg, probe, k, u, stops);
    WholeKeysResume(db, h, cfg, all);
    RunSameButHash(db, x, y, p, u.name);
    HashesAreKept(x, y, u.name);
    RunSameButHash(db, y, y, p, u.name);
    var a, b := Run(db, x, p), Run(db, h, p);
    assert Core(Run(db, y, p)) == Core(b) && Core(b).users == b.users;
    CoreSameButHash(a, Run(db, y, p), u.name);
  }

  lemma CoreSameButHash(a: Host, b: Host, name: string)
    requires SameButHash(a, b, name)
    ensures SameButHash(Core(a), Core(b), name)
    ensures Core(a) == Core(b) <==> a.users[name].hash == b.users[name].hash
  {
    if a.users[name].hash == b.users[name].hash {
      assert b.users[name := b.users[name]] == b.users;
    }
  }
}
