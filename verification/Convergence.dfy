/** Replaying a configuration over a half-provisioned host. */
module Convergence {
  import opened Text
  import opened AuthorizedKeys
  import opened Host

  // ---- the write_files phase -----------------------------------------------------------

  /** The records the phase leaves: later entries win, and it ends at the first unresolvable one. */
  function Targets(db: Accounts, h: Host, fs: seq<FileSpec>): map<string, File>
    decreases fs
  {
    if fs == [] || Resolve(db, h, fs[0]).None? then map[]
    else map[fs[0].path := Target(Resolve(db, h, fs[0]).value)] + Targets(db, h, fs[1..])
  }

  predicate AllResolve(db: Accounts, h: Host, fs: seq<FileSpec>) {
    forall f | f in fs :: Resolve(db, h, f).Some?
  }

  lemma WriteFileLands(h: Host, path: string, w: Wanted)
    ensures WriteFile(h, path, w) == h.(files := h.files[path := Target(w)])
  {
    if InPlace(h.files, path, w) {
      assert h.files[path := Target(w)] == h.files;
    }
  }

  predicate SameNames(h: Host, x: Host) {
    h.users.Keys == x.users.Keys && h.groups == x.groups
  }

  /** Accounts that appear later change no lookup that succeeded. */
  lemma ResolveGrows(db: Accounts, h: Host, x: Host, f: FileSpec)
    requires h.users.Keys <= x.users.Keys && h.groups <= x.groups
    ensures Resolve(db, h, f).Some? || SameNames(h, x) ==> Resolve(db, x, f) == Resolve(db, h, f)
  {
  }

  lemma {:induction false} TargetsGrow(db: Accounts, h: Host, x: Host, fs: seq<FileSpec>)
    requires h.users.Keys <= x.users.Keys && h.groups <= x.groups
    requires AllResolve(db, h, fs) || SameNames(h, x)
    ensures Targets(db, x, fs) == Targets(db, h, fs)
    decreases fs
  {
    if fs != [] {
      assert AllResolve(db, h, fs) ==> Resolve(db, h, fs[0]).Some?;
      ResolveGrows(db, h, x, fs[0]);
      assert forall f :: f in fs[1..] ==> f in fs;
      TargetsGrow(db, h, x, fs[1..]);
    }
  }

  lemma AllResolveGrows(db: Accounts, h: Host, x: Host, fs: seq<FileSpec>)
    requires h.users.Keys <= x.users.Keys && h.groups <= x.groups
    requires AllResolve(db, h, fs) || SameNames(h, x)
    ensures AllResolve(db, h, fs) <==> AllResolve(db, x, fs)
  {
    forall f | f in fs ensures Resolve(db, h, f).Some? ==> Resolve(db, x, f).Some? {
      ResolveGrows(db, h, x, f);
    }
    if AllResolve(db, x, fs) {
      forall f | f in fs ensures Resolve(db, h, f).Some? {
        ResolveGrows(db, h, x, f);
      }
    }
  }

  lemma {:induction false} TargetsCut(db: Accounts, h: Host, fs: seq<FileSpec>, j: nat)
    requires j <= |fs|
    ensures Targets(db, h, fs[..j]).Keys <= Targets(db, h, fs).Keys
    decreases fs
  {
    if j > 0 {
      assert fs[..j][1..] == fs[1..][..j - 1];
      TargetsCut(db, h, fs[1..], j - 1);
    }
  }

  lemma {:induction false} RunDrops(db: Accounts, h: Host, fs: seq<FileSpec>)
    ensures Run(db, h, Drops(fs)) == h.(files := h.files + Targets(db, h, fs))
    ensures Completes(db, h, Drops(fs)) <==> AllResolve(db, h, fs)
    decreases fs
  {
    if fs == [] {
      assert h.files + map[] == h.files;
    } else if Resolve(db, h, fs[0]).None? {
      assert h.files + map[] == h.files;
      assert fs[0] in fs;
    } else {
      var x := Do(db, h, Drop(fs[0]));
      assert Drops(fs)[1..] == Drops(fs[1..]);
      RunDrops(db, x, fs[1..]);
      DropThenTargets(db, h, fs);
    }
  }

  lemma DropThenTargets(db: Accounts, h: Host, fs: seq<FileSpec>)
    requires fs != [] && Resolve(db, h, fs[0]).Some?
    ensures var x := Do(db, h, Drop(fs[0]));
            && x.(files := x.files + Targets(db, x, fs[1..])) == h.(files := h.files + Targets(db, h, fs))
            && (AllResolve(db, x, fs[1..]) <==> AllResolve(db, h, fs))
  {
    var w := Resolve(db, h, fs[0]).value;
    var x := WriteFile(h, fs[0].path, w);
    WriteFileLands(h, fs[0].path, w);
    assert Do(db, h, Drop(fs[0])) == x && SameNames(h, x);
    TargetsGrow(db, h, x, fs[1..]);
    AllResolveGrows(db, h, x, fs[1..]);
    AllResolveCons(db, h, fs);
    PutThenMerge(h.files, fs[0].path, Target(w), Targets(db, h, fs[1..]));
  }

  lemma AllResolveCons(db: Accounts, h: Host, fs: seq<FileSpec>)
    requires fs != []
    ensures AllResolve(db, h, fs) <==> Resolve(db, h, fs[0]).Some? && AllResolve(db, h, fs[1..])
  {
    assert forall f :: f in fs <==> f == fs[0] || f in fs[1..];
  }

  lemma PutThenMerge(m: map<string, File>, path: string, f: File, t: map<string, File>)
    ensures m[path := f] + t == m + (map[path := f] + t)
  {
  }

  // ---- the users phase -----------------------------------------------------------------

  predicate UserStep(s: Step) {
    s.Ensure? || s.AddKey?
  }

  /** A key of several lines is never found and so appended by every run. */
  predicate OneLine(s: Step) {
    s.AddKey? ==> '\n' !in TrimSpace(s.key)
  }

  predicate OneLinePlan(p: seq<Step>) {
    forall s | s in p :: OneLine(s)
  }

  predicate OneLineAt(db: Accounts, p: seq<Step>, path: string) {
    forall s | s in p && s.AddKey? && KeyFile(db, s.name) == path :: OneLine(s)
  }

  predicate UserPlan(p: seq<Step>) {
    forall s | s in p :: UserStep(s)
  }

  /** The step has nothing left to do. */
  predicate Settled(db: Accounts, h: Host, s: Step) {
    match s
    case Ensure(u) =>
      var g := ToSet(WantedGroups(u));
      u.name in h.users && g <= h.users[u.name].groups && g <= h.groups
    case AddKey(name, key) =>
      name in h.users && HasLine(Split(TextAt(h.files, KeyFile(db, name)), '\n'), TrimSpace(key))
    case _ => false
  }

  predicate AllSettled(db: Accounts, h: Host, p: seq<Step>) {
    forall s | s in p :: Settled(db, h, s)
  }

  lemma SettledIsNoOp(db: Accounts, h: Host, s: Step)
    requires Settled(db, h, s)
    ensures !Blocked(db, h, s) && Do(db, h, s) == h
  {
    if s.Ensure? {
      var u := h.users[s.user.name];
      var g := ToSet(WantedGroups(s.user));
      assert u.groups + g == u.groups && h.groups + g == h.groups;
      assert h.users[s.user.name := u] == h.users;
    }
  }

  lemma StepSettles(db: Accounts, h: Host, s: Step)
    requires UserStep(s) && OneLine(s) && !Blocked(db, h, s)
    ensures Settled(db, Do(db, h, s), s)
  {
    if s.AddKey? {
      LinuxAddKeepsLines(TextAt(h.files, KeyFile(db, s.name)), s.key);
    }
  }

  lemma StepKeepsSettled(db: Accounts, h: Host, s: Step, t: Step)
    requires UserStep(t) && Settled(db, h, s) && !Blocked(db, h, t)
    ensures Settled(db, Do(db, h, t), s)
  {
    StepGrows(db, h, t);
    if s.AddKey? && t.AddKey? {
      AddLineKeeps(TextAt(h.files, KeyFile(db, s.name)), TrimSpace(t.key), TrimSpace(s.key));
    }
  }

  lemma StepGrows(db: Accounts, h: Host, t: Step)
    requires UserStep(t) && !Blocked(db, h, t)
    ensures var x := Do(db, h, t);
            && h.users.Keys <= x.users.Keys && h.groups <= x.groups
            && (forall n | n in h.users :: h.users[n].groups <= x.users[n].groups)
            && x.kernel == h.kernel && x.packages == h.packages && x.ran == h.ran
            && (t.Ensure? ==> t.user.name in x.users && x.files == h.files)
  {
  }

  lemma {:induction false} RunGrows(db: Accounts, h: Host, p: seq<Step>)
    requires UserPlan(p)
    ensures var x := Run(db, h, p);
            && h.users.Keys <= x.users.Keys && h.groups <= x.groups
            && x.kernel == h.kernel && x.packages == h.packages && x.ran == h.ran
    decreases p
  {
    if p != [] && !Blocked(db, h, p[0]) {
      StepGrows(db, h, p[0]);
      RunGrows(db, Do(db, h, p[0]), p[1..]);
    }
  }

  lemma {:induction false} RunKeepsSettled(db: Accounts, h: Host, p: seq<Step>, s: Step)
    requires UserPlan(p) && Settled(db, h, s)
    ensures Settled(db, Run(db, h, p), s)
    decreases p
  {
    if p != [] && !Blocked(db, h, p[0]) {
      StepKeepsSettled(db, h, s, p[0]);
      RunKeepsSettled(db, Do(db, h, p[0]), p[1..], s);
    }
  }

  lemma {:induction false} RunSettles(db: Accounts, h: Host, p: seq<Step>)
    requires UserPlan(p) && OneLinePlan(p) && Completes(db, h, p)
    ensures AllSettled(db, Run(db, h, p), p)
    decreases p
  {
    if p != [] {
      var x := Do(db, h, p[0]);
      assert UserStep(p[0]) && OneLine(p[0]);
      StepSettles(db, h, p[0]);
      RunKeepsSettled(db, x, p[1..], p[0]);
      RunSettles(db, x, p[1..]);
      assert forall s :: s in p <==> s == p[0] || s in p[1..];
    }
  }

  lemma {:induction false} SettledRunIsNoOp(db: Accounts, h: Host, p: seq<Step>)
    requires AllSettled(db, h, p)
    ensures Run(db, h, p) == h && Completes(db, h, p)
    decreases p
  {
    if p != [] {
      SettledIsNoOp(db, h, p[0]);
      SettledRunIsNoOp(db, h, p[1..]);
    }
  }

  // ---- what the users phase reads ------------------------------------------------------

  predicate SameAt(f: map<string, File>, g: map<string, File>, path: string) {
    (path in f <==> path in g) && (path in f ==> f[path] == g[path])
  }

  /** Accounts evolve independently of files. */
  lemma {:induction false} RunUsersAlike(db: Accounts, x: Host, y: Host, p: seq<Step>)
    requires UserPlan(p) && x.users == y.users && x.groups == y.groups
    ensures var a, b := Run(db, x, p), Run(db, y, p);
            a.users == b.users && a.groups == b.groups
    ensures Completes(db, x, p) <==> Completes(db, y, p)
    decreases p
  {
    if p != [] && !Blocked(db, x, p[0]) {
      assert UserStep(p[0]);
      StepUsersAlike(db, x, y, p[0]);
      RunUsersAlike(db, Do(db, x, p[0]), Do(db, y, p[0]), p[1..]);
    }
  }

  lemma StepUsersAlike(db: Accounts, x: Host, y: Host, s: Step)
    requires UserStep(s) && x.users == y.users && x.groups == y.groups && !Blocked(db, x, s)
    ensures !Blocked(db, y, s)
    ensures var a, b := Do(db, x, s), Do(db, y, s);
            a.users == b.users && a.groups == b.groups
  {
  }

  /** Each file evolves independently of the others and of the accounts. */
  lemma {:induction false} RunFileAlike(db: Accounts, x: Host, y: Host, p: seq<Step>, path: string)
    requires UserPlan(p) && Completes(db, x, p) && Completes(db, y, p) && SameAt(x.files, y.files, path)
    ensures SameAt(Run(db, x, p).files, Run(db, y, p).files, path)
    decreases p
  {
    if p != [] {
      StepFileAlike(db, x, y, p[0], path);
      RunFileAlike(db, Do(db, x, p[0]), Do(db, y, p[0]), p[1..], path);
    }
  }

  lemma StepFileAlike(db: Accounts, x: Host, y: Host, s: Step, path: string)
    requires UserStep(s) && !Blocked(db, x, s) && !Blocked(db, y, s) && SameAt(x.files, y.files, path)
    ensures SameAt(Do(db, x, s).files, Do(db, y, s).files, path)
  {
    if s.AddKey? && KeyFile(db, s.name) == path {
      assert TextAt(x.files, path) == TextAt(y.files, path);
    }
  }

  /** Every key the steps add to the file at path is a line of the text already. */
  predicate KeysPresent(db: Accounts, p: seq<Step>, path: string, text: string) {
    forall s | s in p && s.AddKey? && KeyFile(db, s.name) == path :: HasLine(Split(text, '\n'), TrimSpace(s.key))
  }

  lemma {:induction false} RunLeavesFile(db: Accounts, h: Host, p: seq<Step>, path: string)
    requires UserPlan(p) && KeysPresent(db, p, path, TextAt(h.files, path))
    ensures SameAt(Run(db, h, p).files, h.files, path)
    decreases p
  {
    if p != [] && !Blocked(db, h, p[0]) {
      StepLeavesFile(db, h, p, path);
      RunLeavesFile(db, Do(db, h, p[0]), p[1..], path);
    }
  }

  lemma StepLeavesFile(db: Accounts, h: Host, p: seq<Step>, path: string)
    requires UserPlan(p) && KeysPresent(db, p, path, TextAt(h.files, path))
    requires p != [] && !Blocked(db, h, p[0])
    ensures SameAt(Do(db, h, p[0]).files, h.files, path)
    ensures UserPlan(p[1..]) && KeysPresent(db, p[1..], path, TextAt(h.files, path))
  {
    assert UserStep(p[0]);
    StepGrows(db, h, p[0]);
    assert forall s :: s in p[1..] ==> s in p;
  }

  // ---- replaying the users phase -------------------------------------------------------

  lemma {:induction false} RunSettlesAccounts(db: Accounts, h: Host, p: seq<Step>)
    requires UserPlan(p) && Completes(db, h, p)
    ensures forall s | s in p && s.Ensure? :: Settled(db, Run(db, h, p), s)
    decreases p
  {
    if p != [] {
      var x := Do(db, h, p[0]);
      if p[0].Ensure? {
        StepSettles(db, h, p[0]);
        RunKeepsSettled(db, x, p[1..], p[0]);
      }
      RunSettlesAccounts(db, x, p[1..]);
      assert forall s :: s in p <==> s == p[0] || s in p[1..];
    }
  }

  lemma {:induction false} SettledAccountsStay(db: Accounts, x: Host, p: seq<Step>)
    requires UserPlan(p) && forall s | s in p && s.Ensure? :: Settled(db, x, s)
    ensures var y := Run(db, x, p); y.users == x.users && y.groups == x.groups
    decreases p
  {
    if p != [] && !Blocked(db, x, p[0]) {
      var y := Do(db, x, p[0]);
      assert p[0] in p && UserStep(p[0]);
      if p[0].Ensure? {
        SettledIsNoOp(db, x, p[0]);
      }
      forall s | s in p[1..] && s.Ensure? ensures Settled(db, y, s) {
        assert s in p && Settled(db, x, s);
      }
      SettledAccountsStay(db, y, p[1..]);
    }
  }

  /** The groups that step k may have made before it stopped. */
  function GroupsOf(p: seq<Step>, k: nat): set<string> {
    if k < |p| && p[k].Ensure? then ToSet(WantedGroups(p[k].user)) else {}
  }

  /** User steps replayed after a run that stopped at step k, or part way through it, give the
      accounts and groups of one run. */
  lemma ReplayAccounts(db: Accounts, g: Host, p: seq<Step>, k: nat, x: Host)
    requires UserPlan(p) && k <= |p| && Completes(db, g, p) && Completes(db, x, p)
    requires var u := Run(db, g, p[..k]); x.users == u.users && u.groups <= x.groups <= u.groups + GroupsOf(p, k)
    ensures var a, b := Run(db, x, p), Run(db, g, p); a.users == b.users && a.groups == b.groups
  {
    hide Do, Settled, WantedGroups, ToSet;
    var u, y, q := Run(db, g, p[..k]), Run(db, x, p[..k]), p[k..];
    assert p == p[..k] + q;
    RunAppend(db, g, p[..k], q);
    RunAppend(db, x, p[..k], q);
    RunSettlesAccounts(db, g, p[..k]);
    forall s | s in p[..k] && s.Ensure? ensures Settled(db, x, s) {
      SettledMoreGroups(db, u, x, s);
    }
    SettledAccountsStay(db, x, p[..k]);
    if x.groups == u.groups {
      RunUsersAlike(db, y, u, q);
    } else {
      assert q[0] == p[k] && p[k].Ensure?;
      EnsureMakesUp(db, u, y, p[k].user);
      RunUsersAlike(db, Do(db, y, q[0]), Do(db, u, q[0]), q[1..]);
    }
  }

  lemma SettledMoreGroups(db: Accounts, u: Host, x: Host, s: Step)
    requires s.Ensure? && Settled(db, u, s) && x.users == u.users && u.groups <= x.groups
    ensures Settled(db, x, s)
  {
  }

  /** The groups made before the step stopped are among those it makes. */
  lemma EnsureMakesUp(db: Accounts, u: Host, y: Host, user: UserSpec)
    requires y.users == u.users && u.groups <= y.groups <= u.groups + ToSet(WantedGroups(user))
    ensures var a, b := Do(db, y, Ensure(user)), Do(db, u, Ensure(user)); a.users == b.users && a.groups == b.groups
  {
    hide WantedGroups, ToSet;
    SameGroupsMade(u.groups, y.groups, ToSet(WantedGroups(user)));
  }

  lemma SameGroupsMade(a: set<string>, b: set<string>, g: set<string>)
    requires a <= b <= a + g
    ensures a + g == b + g
  {
  }

  lemma {:induction false} RunKeepsLine(db: Accounts, h: Host, p: seq<Step>, path: string, t: string)
    requires UserPlan(p) && HasLine(Split(TextAt(h.files, path), '\n'), t)
    ensures HasLine(Split(TextAt(Run(db, h, p).files, path), '\n'), t)
    decreases p
  {
    if p != [] && !Blocked(db, h, p[0]) {
      assert p[0] in p && UserStep(p[0]);
      StepGrows(db, h, p[0]);
      if p[0].AddKey? && KeyFile(db, p[0].name) == path {
        AddLineKeeps(TextAt(h.files, path), TrimSpace(p[0].key), t);
      }
      RunKeepsLine(db, Do(db, h, p[0]), p[1..], path, t);
    }
  }

  /** After a run of them, the one-line keys bound for a file are in it. */
  lemma {:induction false} RunPresents(db: Accounts, h: Host, p: seq<Step>, path: string)
    requires UserPlan(p) && OneLineAt(db, p, path) && Completes(db, h, p)
    ensures KeysPresent(db, p, path, TextAt(Run(db, h, p).files, path))
    decreases p
  {
    if p != [] {
      var x := Do(db, h, p[0]);
      assert p[0] in p && UserStep(p[0]);
      assert forall s :: s in p <==> s == p[0] || s in p[1..];
      RunPresents(db, x, p[1..], path);
      if p[0].AddKey? && KeyFile(db, p[0].name) == path {
        StepSettles(db, h, p[0]);
        RunKeepsLine(db, x, p[1..], path, TrimSpace(p[0].key));
      }
    }
  }

  /** And the files of one run, as long as the keys bound for them are one line each. */
  lemma ReplayFile(db: Accounts, g: Host, p: seq<Step>, k: nat, x: Host, path: string)
    requires UserPlan(p) && k <= |p| && Completes(db, g, p) && Completes(db, x, p) && OneLineAt(db, p, path)
    requires SameAt(x.files, Run(db, g, p[..k]).files, path)
    ensures SameAt(Run(db, x, p).files, Run(db, g, p).files, path)
  {
    var u, y, q := Run(db, g, p[..k]), Run(db, x, p[..k]), p[k..];
    assert p == p[..k] + q;
    RunAppend(db, g, p[..k], q);
    RunAppend(db, x, p[..k], q);
    RunPresents(db, g, p[..k], path);
    assert TextAt(x.files, path) == TextAt(u.files, path);
    RunLeavesFile(db, x, p[..k], path);
    RunFileAlike(db, y, u, q, path);
  }

  /** Host a is as b, but for packages, log, and the files for which keys of several lines are bound. */
  ghost predicate Resumed(db: Accounts, p: seq<Step>, a: Host, b: Host) {
    a.users == b.users && a.groups == b.groups && forall path | OneLineAt(db, p, path) :: SameAt(a.files, b.files, path)
  }

  /** User steps replayed after a run that stopped part way through them. */
  lemma UsersResume(db: Accounts, h: Host, p: seq<Step>, k: nat, x: Host)
    requires UserPlan(p) && k <= |p| && Completes(db, h, p) && Completes(db, x, p)
    requires var u := Run(db, h, p[..k]); x.users == u.users && x.groups == u.groups && x.files == u.files
    ensures Resumed(db, p, Run(db, x, p), Run(db, h, p))
  {
    ReplayAccounts(db, h, p, k, x);
    forall path | OneLineAt(db, p, path) ensures SameAt(Run(db, x, p).files, Run(db, h, p).files, path) {
      ReplayFile(db, h, p, k, x, path);
    }
  }

  /** A step can stop with any part of its work done: the hostname file without the live name, any of
      the groups asked for, any of the packages. */
  lemma PartialEffectsAreTorn(db: Accounts, h: Host, name: string, u: UserSpec, pkgs: seq<string>, part: set<string>)
    ensures name != "" && h.kernel != name ==>
              Torn(db, h, Rename(name, ALL_READ), part)
              == h.(files := h.files["/etc/hostname" := File(name + "\n", 0x1A4, 0, 0)])
    ensures (forall g | g in part :: AsksFor(u, g)) ==> Torn(db, h, Ensure(u), part) == h.(groups := h.groups + part)
    ensures (forall p | p in part :: p in pkgs) ==> Torn(db, h, Install(pkgs), part) == h.(packages := h.packages + part)
  {
    if forall g | g in part :: AsksFor(u, g) {
      assert part * ToSet(WantedGroups(u)) == part;
    }
    if forall p | p in part :: p in pkgs {
      assert part * ToSet(pkgs) == part;
    }
  }

  /** User steps replayed after a run in which account step k stopped part way. */
  lemma UsersResumeTorn(db: Accounts, h: Host, p: seq<Step>, k: nat, part: set<string>)
    requires UserPlan(p) && k < |p| && Completes(db, h, p) && p[k].Ensure?
    requires Completes(db, Torn(db, Run(db, h, p[..k]), p[k], part), p)
    ensures Resumed(db, p, Run(db, Torn(db, Run(db, h, p[..k]), p[k], part), p), Run(db, h, p))
  {
    var x := Torn(db, Run(db, h, p[..k]), p[k], part);
    ReplayAccounts(db, h, p, k, x);
    forall path | OneLineAt(db, p, path) ensures SameAt(Run(db, x, p).files, Run(db, h, p).files, path) {
      ReplayFile(db, h, p, k, x, path);
    }
  }

  // ---- a key file left unowned ---------------------------------------------------------

  /** AddAuthorizedKey stopped between its rename and its chown: the whole text, but root's. */
  lemma TornKeyHasText(db: Accounts, h: Host, name: string, key: string, part: set<string>)
    requires name in h.users && KeyMissing(db, h, name, key)
    ensures var path := KeyFile(db, name);
            var x, y := Torn(db, h, AddKey(name, key), part), Do(db, h, AddKey(name, key));
            && path in x.files && path in y.files && y == x.(files := x.files[path := y.files[path]])
            && y.files[path] == x.files[path].(uid := db.uid(name), gid := db.gid(name))
            && x.files[path].uid == 0 && x.files[path].gid == 0
  {
  }

  predicate RootOwned(db: Accounts, name: string) {
    db.uid(name) == 0 && db.gid(name) == 0
  }

  /** A file that a later key is still missing from is written whole again, whoever owns it. */
  lemma {:induction false} RunFileRewritten(db: Accounts, x: Host, y: Host, p: seq<Step>, path: string)
    requires UserPlan(p) && Completes(db, x, p) && Completes(db, y, p)
    requires TextAt(x.files, path) == TextAt(y.files, path) && !KeysPresent(db, p, path, TextAt(x.files, path))
    ensures SameAt(Run(db, x, p).files, Run(db, y, p).files, path)
    decreases p
  {
    var s := p[0];
    var a, b := Do(db, x, s), Do(db, y, s);
    assert UserStep(s);
    if s.AddKey? && KeyFile(db, s.name) == path && KeyMissing(db, x, s.name, s.key) {
      RunFileAlike(db, a, b, p[1..], path);
    } else {
      StepGrows(db, x, s);
      StepGrows(db, y, s);
      assert TextAt(a.files, path) == TextAt(x.files, path) == TextAt(b.files, path);
      var t :| t in p && t.AddKey? && KeyFile(db, t.name) == path
               && !HasLine(Split(TextAt(x.files, path), '\n'), TrimSpace(t.key));
      assert t in p[1..];
      RunFileRewritten(db, a, b, p[1..], path);
    }
  }

  /** The user steps replayed after key step k stopped there: everything comes out as in one run,
      but the file gets its owner only if that is root, or if a later key of the plan is still
      missing from it. Files for which keys of several lines are bound are left out. */
  lemma TornKeyReplay(db: Accounts, g: Host, p: seq<Step>, k: nat, part: set<string>)
    requires UserPlan(p) && k < |p| && Completes(db, g, p) && p[k].AddKey?
    requires KeyMissing(db, Run(db, g, p[..k]), p[k].name, p[k].key)
    requires Completes(db, Torn(db, Run(db, g, p[..k]), p[k], part), p)
    ensures var x, path := Torn(db, Run(db, g, p[..k]), p[k], part), KeyFile(db, p[k].name);
            var a, b := Run(db, x, p), Run(db, g, p);
            && a.users == b.users && a.groups == b.groups
            && (forall other | other != path && OneLineAt(db, p, other) :: SameAt(a.files, b.files, other))
            && (OneLineAt(db, p, path) ==>
                  (SameAt(a.files, b.files, path)
                   <==> RootOwned(db, p[k].name) || !KeysPresent(db, p[k + 1..], path, TextAt(x.files, path))))
  {
    var u, q, path := Run(db, g, p[..k]), p[k + 1..], KeyFile(db, p[k].name);
    var x, y := Torn(db, u, p[k], part), Run(db, g, p[..k + 1]);
    StepDone(db, g, p, k);
    TornKeyHasText(db, u, p[k].name, p[k].key, part);
    ReplayAccounts(db, g, p, k, x);
    forall other | other != path && OneLineAt(db, p, other)
      ensures SameAt(Run(db, x, p).files, Run(db, g, p).files, other) {
      ReplayFile(db, g, p, k, x, other);
    }
    if OneLineAt(db, p, path) {
      var z := Run(db, x, p[..k + 1]);
      assert p == p[..k + 1] + q;
      RunAppend(db, x, p[..k + 1], q);
      RunAppend(db, g, p[..k + 1], q);
      RunPresents(db, g, p[..k + 1], path);
      RunLeavesFile(db, x, p[..k + 1], path);
      assert TextAt(x.files, path) == TextAt(y.files, path) == TextAt(z.files, path);
      if KeysPresent(db, q, path, TextAt(x.files, path)) {
        RunLeavesFile(db, z, q, path);
        RunLeavesFile(db, y, q, path);
      } else {
        RunFileRewritten(db, z, y, q, path);
      }
    }
  }

  /** A plan that completes is not blocked at step k. */
  lemma StepDone(db: Accounts, g: Host, p: seq<Step>, k: nat)
    requires k < |p| && Completes(db, g, p)
    ensures var u := Run(db, g, p[..k]);
            && Completes(db, g, p[..k]) && !Blocked(db, u, p[k]) && Run(db, g, p[..k + 1]) == Do(db, u, p[k])
            && Completes(db, g, p[..k + 1])
  {
    var q := p[k..];
    assert p == p[..k] + q && q[0] == p[k];
    RunAppend(db, g, p[..k], q);
    assert p[..k + 1] == p[..k] + [p[k]] && [p[k]][1..] == [];
    RunAppend(db, g, p[..k], [p[k]]);
  }

  // ---- keys of several lines -----------------------------------------------------------

  lemma AddKeyLengthens(db: Accounts, h: Host, s: Step, path: string)
    requires UserStep(s) && !Blocked(db, h, s)
    ensures |TextAt(Do(db, h, s).files, path)| >= |TextAt(h.files, path)|
    ensures !OneLine(s) && KeyFile(db, s.name) == path ==> |TextAt(Do(db, h, s).files, path)| > |TextAt(h.files, path)|
  {
    if !OneLine(s) {
      NeverALine(TextAt(h.files, KeyFile(db, s.name)), TrimSpace(s.key));
    }
  }

  /** A run that has a key of several lines for a file makes it longer. */
  lemma {:induction false} RunLengthens(db: Accounts, h: Host, p: seq<Step>, path: string)
    requires UserPlan(p) && Completes(db, h, p)
    ensures |TextAt(Run(db, h, p).files, path)| >= |TextAt(h.files, path)|
    ensures !OneLineAt(db, p, path) ==> |TextAt(Run(db, h, p).files, path)| > |TextAt(h.files, path)|
    decreases p
  {
    if p != [] {
      assert UserStep(p[0]);
      AddKeyLengthens(db, h, p[0], path);
      RunLengthens(db, Do(db, h, p[0]), p[1..], path);
      assert forall s :: s in p <==> s == p[0] || s in p[1..];
    }
  }
}
