/** What the host looks like after an Apply that returned nil, told from the configuration alone. */
module Delivers {
  import opened Text
  import opened Numbers
  import opened AuthorizedKeys
  import opened Host
  import opened Convergence
  import opened Resume
  import opened Rerun

  // ---- accounts ------------------------------------------------------------------------

  /** The first entry for a name: later ones only reconcile. */
  function FirstSpec(us: seq<UserSpec>, name: string): Option<UserSpec> {
    if us == [] then None
    else
      var earlier := FirstSpec(us[..|us| - 1], name);
      if earlier.Some? then earlier
      else if us[|us| - 1].name == name then Some(us[|us| - 1]) else None
  }

  /** Every group the entries for a name ask for. */
  function GroupsFor(us: seq<UserSpec>, name: string): set<string> {
    if us == [] then {}
    else GroupsFor(us[..|us| - 1], name)
         + if us[|us| - 1].name == name then ToSet(WantedGroups(us[|us| - 1])) else {}
  }

  /** An account there before keeps its shell and password and gains groups; a new one takes shell
      and password from its first entry; nobody else gets an account. */
  predicate AccountDelivered(before: map<string, User>, after: map<string, User>, us: seq<UserSpec>, name: string) {
    if name in before then
      name in after && after[name] == before[name].(groups := before[name].groups + GroupsFor(us, name))
    else match FirstSpec(us, name)
      case None => name !in after
      case Some(u) => name in after && after[name] == User(Or(u.shell, "/bin/bash"), u.hash, GroupsFor(us, name))
  }

  lemma {:induction false} KeyStepsKeepAccounts(db: Accounts, h: Host, name: string, keys: seq<string>)
    ensures Run(db, h, KeySteps(name, keys)).users == h.users
    decreases keys
  {
    if keys != [] && name in h.users {
      assert KeySteps(name, keys)[1..] == KeySteps(name, keys[1..]);
      KeyStepsKeepAccounts(db, Do(db, h, AddKey(name, keys[0])), name, keys[1..]);
    }
  }

  lemma RunOneUser(db: Accounts, h: Host, u: UserSpec)
    ensures Run(db, h, OneUser(u)) == Run(db, Do(db, h, Ensure(u)), KeySteps(u.name, u.keys))
    ensures Run(db, h, OneUser(u)).users == Do(db, h, Ensure(u)).users
  {
    assert OneUser(u)[1..] == KeySteps(u.name, u.keys);
    KeyStepsKeepAccounts(db, Do(db, h, Ensure(u)), u.name, u.keys);
  }

  lemma {:induction false} AccountsDelivered(db: Accounts, h: Host, us: seq<UserSpec>, name: string)
    ensures AccountDelivered(h.users, Run(db, h, UserSteps(us)).users, us, name)
    decreases us
  {
    if us == [] {
      if name in h.users {
        assert h.users[name].groups + {} == h.users[name].groups;
      }
    } else {
      var n := |us| - 1;
      var x := Run(db, h, UserSteps(us[..n]));
      AccountsDelivered(db, h, us[..n], name);
      UsersComplete(db, h, us[..n]);
      RunAppend(db, h, UserSteps(us[..n]), OneUser(us[n]));
      RunOneUser(db, x, us[n]);
      EnsureDelivers(h.users, x.users, Do(db, x, Ensure(us[n])).users, us, name);
    }
  }

  lemma EnsureDelivers(before: map<string, User>, mid: map<string, User>, after: map<string, User>, us: seq<UserSpec>,
                       name: string)
    requires us != [] && AccountDelivered(before, mid, us[..|us| - 1], name)
    requires var u := us[|us| - 1]; var g := ToSet(WantedGroups(u));
             after == if u.name in mid then mid[u.name := mid[u.name].(groups := mid[u.name].groups + g)]
                      else mid[u.name := User(Or(u.shell, "/bin/bash"), u.hash, g)]
    ensures AccountDelivered(before, after, us, name)
  {
    var u := us[|us| - 1];
    var old_, new_ := GroupsFor(us[..|us| - 1], name), GroupsFor(us, name);
    if name in before {
      assert before[name].groups + old_ + (if u.name == name then ToSet(WantedGroups(u)) else {})
             == before[name].groups + new_;
    } else if FirstSpec(us[..|us| - 1], name).None? {
      NobodyNoGroups(us[..|us| - 1], name);
    }
  }

  lemma {:induction false} NobodyNoGroups(us: seq<UserSpec>, name: string)
    requires FirstSpec(us, name).None?
    ensures GroupsFor(us, name) == {}
    decreases us
  {
    if us != [] {
      NobodyNoGroups(us[..|us| - 1], name);
    }
  }

  // ---- groups --------------------------------------------------------------------------

  /** The groups the entries leave: those they ask for, and one for each new account. */
  function GroupsMade(us: seq<UserSpec>, before: set<string>): set<string> {
    if us == [] then {}
    else
      var u := us[|us| - 1];
      GroupsMade(us[..|us| - 1], before) + ToSet(WantedGroups(u)) + if u.name in before then {} else {u.name}
  }

  function Names(us: seq<UserSpec>): set<string> {
    set u | u in us :: u.name
  }

  lemma {:induction false} KeyStepsKeepGroups(db: Accounts, h: Host, name: string, keys: seq<string>)
    ensures Run(db, h, KeySteps(name, keys)).groups == h.groups
    decreases keys
  {
    if keys != [] && name in h.users {
      assert KeySteps(name, keys)[1..] == KeySteps(name, keys[1..]);
      KeyStepsKeepGroups(db, Do(db, h, AddKey(name, keys[0])), name, keys[1..]);
    }
  }

  lemma {:induction false} GroupsDelivered(db: Accounts, h: Host, us: seq<UserSpec>)
    ensures var x := Run(db, h, UserSteps(us));
            && x.groups == h.groups + GroupsMade(us, h.users.Keys)
            && x.users.Keys == h.users.Keys + Names(us)
            && Names(us) - h.users.Keys <= GroupsMade(us, h.users.Keys)
    decreases us
  {
    hide GroupsMade, Names, WantedGroups, ToSet;
    if us == [] {
      NobodyMakesNoGroups(h.users.Keys);
    } else {
      var n := |us| - 1;
      var u, x := us[n], Run(db, h, UserSteps(us[..n]));
      GroupsDelivered(db, h, us[..n]);
      UsersComplete(db, h, us[..n]);
      RunAppend(db, h, UserSteps(us[..n]), OneUser(u));
      RunOneUser(db, x, u);
      KeyStepsKeepGroups(db, Do(db, x, Ensure(u)), u.name, u.keys);
      EnsureMakesGroups(h, x, Do(db, x, Ensure(u)), us);
    }
  }

  lemma NobodyMakesNoGroups(before: set<string>)
    ensures GroupsMade([], before) == {} && Names([]) == {}
  {
  }

  lemma NamesSnoc(us: seq<UserSpec>)
    requires us != []
    ensures Names(us) == Names(us[..|us| - 1]) + {us[|us| - 1].name}
  {
    var u, us' := us[|us| - 1], us[..|us| - 1];
    assert us == us' + [u];
  }

  /** A name that has an account already, and had none before, has its group. */
  lemma NewGroup(before: set<string>, names: set<string>, made: set<string>, w: set<string>, old_: set<string>,
                 name: string)
    requires names - before <= made
    ensures old_ + made + w + (if name in before + names then {} else {name})
            == old_ + (made + w + if name in before then {} else {name})
    ensures names + {name} - before <= made + w + if name in before then {} else {name}
  {
  }

  lemma EnsureMakesGroups(h: Host, x: Host, y: Host, us: seq<UserSpec>)
    requires us != []
    requires var u, us' := us[|us| - 1], us[..|us| - 1];
             && x.groups == h.groups + GroupsMade(us', h.users.Keys)
             && x.users.Keys == h.users.Keys + Names(us') && Names(us') - h.users.Keys <= GroupsMade(us', h.users.Keys)
             && y.users.Keys == x.users.Keys + {u.name}
             && y.groups == x.groups + ToSet(WantedGroups(u)) + if u.name in x.users.Keys then {} else {u.name}
    ensures y.groups == h.groups + GroupsMade(us, h.users.Keys)
    ensures y.users.Keys == h.users.Keys + Names(us)
    ensures Names(us) - h.users.Keys <= GroupsMade(us, h.users.Keys)
  {
    hide WantedGroups, ToSet, Names;
    var u, us' := us[|us| - 1], us[..|us| - 1];
    NamesSnoc(us);
    NewGroup(h.users.Keys, Names(us'), GroupsMade(us', h.users.Keys), ToSet(WantedGroups(u)), h.groups, u.name);
  }

  /** Entry i is the first for an account there is not, and by the time useradd runs for it, no
      group of that name is there: none was, no entry so far asks for one. */
  predicate NameIsFree(h: Host, us: seq<UserSpec>, i: nat)
    requires i < |us|
  {
    us[i].name in h.users || us[i].name in Names(us[..i])
    || us[i].name !in h.groups + GroupsMade(us[..i], h.users.Keys) + ToSet(WantedGroups(us[i]))
  }

  /** The real useradd also refuses a name that a group has. Told from the configuration alone, when
      it never meets one. */
  lemma UseraddMeetsNoGroupIff(db: Accounts, h: Host, us: seq<UserSpec>, i: nat)
    requires i < |us|
    ensures var x, u := Run(db, h, UserSteps(us[..i])), us[i];
            NameIsFree(h, us, i) <==> u.name in x.users || u.name !in x.groups + ToSet(WantedGroups(u))
  {
    GroupsDelivered(db, h, us[..i]);
  }

  // ---- key files -----------------------------------------------------------------------

  /** The keys bound for a path, in order. */
  function KeysFor(db: Accounts, us: seq<UserSpec>, path: string): seq<string> {
    if us == [] then []
    else KeysFor(db, us[..|us| - 1], path) + if KeyFile(db, us[|us| - 1].name) == path then us[|us| - 1].keys else []
  }

  lemma LinuxAddAllAppend(text: string, a: seq<string>, b: seq<string>)
    ensures LinuxAddAll(text, a + b) == LinuxAddAll(LinuxAddAll(text, a), b)
  {
    LinuxAddAllSplits(text, a + b, |a|);
    assert (a + b)[..|a|] == a && (a + b)[|a|..] == b;
  }

  lemma {:induction false} KeyStepsDeliver(db: Accounts, h: Host, name: string, keys: seq<string>, path: string)
    requires name in h.users
    ensures TextAt(Run(db, h, KeySteps(name, keys)).files, path)
            == LinuxAddAll(TextAt(h.files, path), if KeyFile(db, name) == path then keys else [])
    decreases keys
  {
    if keys != [] {
      var x := Do(db, h, AddKey(name, keys[0]));
      assert KeySteps(name, keys)[1..] == KeySteps(name, keys[1..]);
      KeyStepsDeliver(db, x, name, keys[1..], path);
    }
  }

  /** The text at any path is the text before with exactly the keys bound for it added in order. */
  lemma {:induction false} KeysDelivered(db: Accounts, h: Host, us: seq<UserSpec>, path: string)
    ensures TextAt(Run(db, h, UserSteps(us)).files, path) == LinuxAddAll(TextAt(h.files, path), KeysFor(db, us, path))
    decreases us
  {
    if us != [] {
      var n := |us| - 1;
      var x := Run(db, h, UserSteps(us[..n]));
      KeysDelivered(db, h, us[..n], path);
      UsersComplete(db, h, us[..n]);
      RunAppend(db, h, UserSteps(us[..n]), OneUser(us[n]));
      RunOneUser(db, x, us[n]);
      var y := Do(db, x, Ensure(us[n]));
      assert y.files == x.files && us[n].name in y.users;
      KeyStepsDeliver(db, y, us[n].name, us[n].keys, path);
      LinuxAddAllAppend(TextAt(h.files, path), KeysFor(db, us[..n], path),
                        if KeyFile(db, us[n].name) == path then us[n].keys else []);
    }
  }

  /** A file the users phase changed is private to an account whose key file it is. */
  predicate PrivateTo(db: Accounts, f: File, us: seq<UserSpec>, path: string) {
    f.mode == 0x180 &&
    exists u | u in us :: KeyFile(db, u.name) == path && f.uid == db.uid(u.name) && f.gid == db.gid(u.name)
  }

  lemma {:induction false} KeyFilesArePrivate(db: Accounts, h: Host, us: seq<UserSpec>, p: seq<Step>, path: string)
    requires forall s | s in p && s.AddKey? :: exists u | u in us :: u.name == s.name
    requires UserPlan(p)
    ensures var x := Run(db, h, p);
            SameAt(x.files, h.files, path) || (path in x.files && PrivateTo(db, x.files[path], us, path))
    decreases p
  {
    if p != [] && !Blocked(db, h, p[0]) {
      assert UserStep(p[0]) && p[0] in p;
      StepGrows(db, h, p[0]);
      assert forall s :: s in p[1..] ==> s in p;
      KeyFilesArePrivate(db, Do(db, h, p[0]), us, p[1..], path);
    }
  }

  // ---- dropped files -------------------------------------------------------------------

  /** The last entry for a path is the one that counts. */
  lemma {:induction false} LastDropWins(db: Accounts, h: Host, fs: seq<FileSpec>, i: nat)
    requires AllResolve(db, h, fs) && i < |fs| && forall j | i < j < |fs| :: fs[j].path != fs[i].path
    ensures fs[i].path in Targets(db, h, fs)
    ensures Targets(db, h, fs)[fs[i].path] == Target(Resolve(db, h, fs[i]).value)
    decreases i
  {
    AllResolveCons(db, h, fs);
    if i == 0 {
      forall e | e in fs[1..] ensures !Same(e, fs[0]) {
        var j :| 0 <= j < |fs| - 1 && fs[1..][j] == e;
        assert fs[j + 1].path != fs[0].path;
      }
      TargetsFirst(db, h, fs);
    } else {
      assert fs[1..][i - 1] == fs[i];
      forall j | i - 1 < j < |fs[1..]| ensures fs[1..][j].path != fs[i].path {
        assert fs[1..][j] == fs[j + 1];
      }
      LastDropWins(db, h, fs[1..], i - 1);
      TargetsCons(db, h, fs);
    }
  }

  // ---- the whole host ------------------------------------------------------------------

  /** After a nil Apply: the live hostname is the configured one; every account and group is as the
      configuration says; the packages are in and the commands ran in order. */
  lemma ApplyDelivers(db: Accounts, h: Host, cfg: Config)
    requires Completes(db, h, Plan(cfg, ALL_READ))
    ensures var x := Run(db, h, Plan(cfg, ALL_READ));
            && x.kernel == (if cfg.hostname == "" then h.kernel else cfg.hostname)
            && (forall name :: AccountDelivered(h.users, x.users, cfg.users, name))
            && x.groups == h.groups + GroupsMade(cfg.users, h.users.Keys)
            && (forall p :: p in x.packages <==> p in h.packages || p in cfg.packages)
            && x.ran == h.ran + cfg.runCmds
  {
    var g := Dropped(db, h, cfg, ALL_READ);
    RunPlan(db, h, cfg, ALL_READ);
    FinishedLog(db, h, cfg, ALL_READ);
    UserStepsAreUserSteps(cfg.users);
    RunGrows(db, g, UserSteps(cfg.users));
    GroupsDelivered(db, g, cfg.users);
    forall name ensures AccountDelivered(h.users, Finished(db, h, cfg, ALL_READ).users, cfg.users, name) {
      AccountsDelivered(db, g, cfg.users, name);
    }
  }

  /** Every file: the last content dropped there, or else the old one or the new hostname, with the
      keys bound for it added in order; private to an account whose keys it holds if that changed it;
      untouched if nothing names it. */
  lemma FilesDelivered(db: Accounts, h: Host, cfg: Config, path: string)
    requires Completes(db, h, Plan(cfg, ALL_READ))
    ensures var x := Run(db, h, Plan(cfg, ALL_READ)).files;
            var t, named := Targets(db, h, cfg.writeFiles), Renamed(h, cfg, ALL_READ).files;
            var dropped := if path in t then t[path].text else TextAt(named, path);
            && TextAt(x, path) == LinuxAddAll(dropped, KeysFor(db, cfg.users, path))
            && ((path in x && PrivateTo(db, x[path], cfg.users, path)) || SameAt(x, named + t, path))
            && (KeysFor(db, cfg.users, path) == [] && path !in t ==> SameAt(x, named, path))
            && (path != HOSTNAME_FILE ==> SameAt(named, h.files, path))
  {
    var g, p := Dropped(db, h, cfg, ALL_READ), UserSteps(cfg.users);
    var t := Targets(db, h, cfg.writeFiles);
    RunPlan(db, h, cfg, ALL_READ);
    UserStepsAreUserSteps(cfg.users);
    KeysDelivered(db, g, cfg.users, path);
    forall s | s in p && s.AddKey? ensures exists u | u in cfg.users :: u.name == s.name {
      var u := KeyStepFrom(cfg.users, s);
    }
    KeyFilesArePrivate(db, g, cfg.users, p, path);
    assert SameAt(g.files, Renamed(h, cfg, ALL_READ).files + t, path);
    if KeysFor(db, cfg.users, path) == [] {
      NoKeysNoChange(db, cfg.users, p, path);
      RunLeavesFile(db, g, p, path);
    }
  }

  lemma NewlineTrims(name: string)
    ensures TrimSpace(name + "\n") == TrimSpace(name)
  {
    var lead, tail := TrimSpaceTrims(name);
    assert name + "\n" == lead + TrimSpace(name) + (tail + "\n");
    TrimSpaceOf(lead, TrimSpace(name), tail + "\n");
  }

  /** What a nil Apply leaves in /etc/hostname, and exactly when that is the configured name: when the
      live name was right already, Apply never looks at the file. */
  lemma HostnameDelivered(db: Accounts, h: Host, cfg: Config)
    requires Completes(db, h, Plan(cfg, ALL_READ)) && cfg.hostname != ""
    ensures var x, t := Run(db, h, Plan(cfg, ALL_READ)).files, Targets(db, h, cfg.writeFiles);
            var name := TrimSpace(cfg.hostname);
            && SameAt(x, Renamed(h, cfg, ALL_READ).files + t, "/etc/hostname")
            && ("/etc/hostname" !in t && h.kernel != cfg.hostname ==>
                  "/etc/hostname" in x && x["/etc/hostname"] == File(cfg.hostname + "\n", 0x1A4, 0, 0))
            && ("/etc/hostname" !in t && h.kernel == cfg.hostname ==> SameAt(x, h.files, "/etc/hostname"))
            && (TrimSpace(TextAt(x, "/etc/hostname")) == name
                <==> if "/etc/hostname" in t then TrimSpace(t["/etc/hostname"].text) == name
                     else h.kernel != cfg.hostname || TrimSpace(TextAt(h.files, "/etc/hostname")) == name)
  {
    RunPlan(db, h, cfg, ALL_READ);
    UserStepsAreUserSteps(cfg.users);
    RunLeavesHostnameFile(db, Dropped(db, h, cfg, ALL_READ), UserSteps(cfg.users));
    NewlineTrims(cfg.hostname);
  }

  lemma {:induction false} NoKeysFor(db: Accounts, us: seq<UserSpec>, path: string, u: UserSpec)
    requires KeysFor(db, us, path) == [] && u in us && KeyFile(db, u.name) == path
    ensures u.keys == []
    decreases us
  {
    var n := |us| - 1;
    if u != us[n] {
      assert u in us[..n];
      NoKeysFor(db, us[..n], path, u);
    }
  }

  lemma NoKeysNoChange(db: Accounts, us: seq<UserSpec>, p: seq<Step>, path: string)
    requires p == UserSteps(us) && KeysFor(db, us, path) == []
    ensures forall s | s in p && s.AddKey? :: KeyFile(db, s.name) != path
  {
    forall s | s in p && s.AddKey? ensures KeyFile(db, s.name) != path {
      var u := KeyStepFrom(us, s);
      if KeyFile(db, u.name) == path {
        NoKeysFor(db, us, path, u);
        assert false;
      }
    }
  }

  // ---- told from the entries -----------------------------------------------------------

  lemma WantedIsAsked(u: UserSpec, g: string)
    ensures g in ToSet(WantedGroups(u)) <==> AsksFor(u, g)
  {
  }

  lemma {:induction false} GroupsForAsked(us: seq<UserSpec>, name: string, g: string)
    ensures g in GroupsFor(us, name) <==> exists u | u in us :: u.name == name && AsksFor(u, g)
    decreases us
  {
    hide WantedGroups, ToSet, AsksFor;
    if us != [] {
      var n := |us| - 1;
      GroupsForAsked(us[..n], name, g);
      assert forall u :: u in us <==> u in us[..n] || u == us[n];
      WantedIsAsked(us[n], g);
    }
  }

  /** The entry puts the group on the host: it asks for it, or makes an account of that name. */
  predicate Brings(u: UserSpec, before: set<string>, g: string) {
    AsksFor(u, g) || (u.name == g && g !in before)
  }

  lemma {:induction false} GroupsMadeAsked(us: seq<UserSpec>, before: set<string>, g: string)
    ensures g in GroupsMade(us, before) <==> exists u | u in us :: Brings(u, before, g)
    decreases us
  {
    hide WantedGroups, ToSet, AsksFor;
    if us != [] {
      var n := |us| - 1;
      GroupsMadeAsked(us[..n], before, g);
      assert forall u :: u in us <==> u in us[..n] || u == us[n];
      WantedIsAsked(us[n], g);
      assert g in GroupsMade(us, before) <==> g in GroupsMade(us[..n], before) || Brings(us[n], before, g);
    }
  }

  /** After a nil Apply the accounts are those there were and those with an entry; each has the groups it
      had and those some entry for it lists, wheel among them if one has sudo or doas; and the groups
      there are come from nowhere else. */
  lemma MembershipDelivered(db: Accounts, h: Host, cfg: Config, name: string, g: string)
    requires Completes(db, h, Plan(cfg, ALL_READ))
    ensures var x := Run(db, h, Plan(cfg, ALL_READ));
            && (name in x.users <==> name in h.users || exists u | u in cfg.users :: u.name == name)
            && (name in x.users ==>
                  (g in x.users[name].groups
                   <==> (name in h.users && g in h.users[name].groups)
                        || exists u | u in cfg.users :: u.name == name && AsksFor(u, g)))
            && (g in x.groups
                <==> g in h.groups || exists u | u in cfg.users :: Brings(u, h.users.Keys, g))
  {
    var d := Dropped(db, h, cfg, ALL_READ);
    RunPlan(db, h, cfg, ALL_READ);
    AccountsDelivered(db, d, cfg.users, name);
    GroupsDelivered(db, d, cfg.users);
    GroupsForAsked(cfg.users, name, g);
    GroupsMadeAsked(cfg.users, h.users.Keys, g);
    assert name in Names(cfg.users) <==> exists u | u in cfg.users :: u.name == name;
  }

  lemma {:induction false} KeyIsFor(db: Accounts, us: seq<UserSpec>, u: UserSpec, k: string)
    requires u in us && k in u.keys
    ensures k in KeysFor(db, us, KeyFile(db, u.name))
    decreases us
  {
    var n := |us| - 1;
    if u != us[n] {
      assert u in us[..n];
      KeyIsFor(db, us[..n], u, k);
    }
  }

  /** Each key of one line ends up as a line of .ssh/authorized_keys under the home of its account. */
  lemma EveryKeyIsListed(db: Accounts, h: Host, cfg: Config, u: UserSpec, k: string)
    requires Completes(db, h, Plan(cfg, ALL_READ)) && u in cfg.users && k in u.keys && '\n' !in TrimSpace(k)
    ensures var x := Run(db, h, Plan(cfg, ALL_READ));
            Listed(TextAt(x.files, db.home(u.name) + "/.ssh/authorized_keys"), TrimSpace(k))
  {
    var path := KeyFile(db, u.name);
    var t, named := Targets(db, h, cfg.writeFiles), Renamed(h, cfg, ALL_READ).files;
    FilesDelivered(db, h, cfg, path);
    KeyIsFor(db, cfg.users, u, k);
    LinuxAddAllAdds(if path in t then t[path].text else TextAt(named, path), KeysFor(db, cfg.users, path));
  }

  // ---- mode and owner of a dropped file ------------------------------------------------

  /** The mode in octal digits, bare or with a customary prefix. */
  predicate SaysMode(mode: string, n: nat) {
    var digits := Printed(n, 8);
    mode == digits || mode == "0" + digits || mode == "0o" + digits || mode == "0O" + digits
  }

  lemma PrefixedOctal(n: nat)
    requires n <= MAX_UINT32
    ensures ParseUint(Printed(n, 8), 8, MAX_UINT32) == Num(n) && ParseUint("0" + Printed(n, 8), 8, MAX_UINT32) == Num(n)
  {
    var d := Printed(n, 8);
    PrintedReadsBack(n, 8, MAX_UINT32);
    assert ("0" + d)[0] == '0' && ("0" + d)[1..] == d;
    assert ParseDigits("0" + d, 8, MAX_UINT32, 0) == ParseDigits(d, 8, MAX_UINT32, 0);
  }

  lemma {:induction false} OctalDigits(n: nat)
    ensures forall c | c in Printed(n, 8) :: '0' <= c <= '7'
    decreases n
  {
    var d := Digit(n % 8);
    assert '0' <= d <= '7';
    if n >= 8 {
      OctalDigits(n / 8);
      ManyDigits(n, 8);
      assert Printed(n, 8) == Printed(n / 8, 8) + [d];
    } else {
      SingleDigit(n, 8, n);
      assert Printed(n, 8) == [d];
    }
  }

  lemma ModeReads(mode: string, n: nat)
    requires SaysMode(mode, n) && n <= MAX_UINT32
    ensures ParseMode(mode) == Num(n)
  {
    var d := Printed(n, 8);
    OctalDigits(n);
    assert forall i | 0 <= i < |d| :: d[i] in d;
    PrefixedOctal(n);
    if mode == "0o" + d || mode == "0O" + d {
      assert mode[..2] in ["0o", "0O"] && mode[2..] == d && mode[1] in ['o', 'O'];
      NoPrefix(d);
    } else {
      NoPrefix(mode);
    }
  }

  lemma NoPrefix(d: string)
    requires |d| >= 2 ==> d[1] != 'o' && d[1] != 'O'
    ensures TrimPrefix(d, "0o") == d && TrimPrefix(d, "0O") == d
  {
  }

  /** The name says the id: it is that number, or no number but an entry of the table. */
  predicate SaysId(name: string, id: Id, table: set<string>, ids: string -> Id) {
    name == Decimal(id) || (Atoi(name) == None && name in table && ids(name) == id)
  }

  predicate SaysIdOrRoot(name: string, id: Id, table: set<string>, ids: string -> Id) {
    SaysId(if name == "" then "root" else name, id, table, ids)
  }

  lemma IdReads(db: Accounts, h: Host, name: string, id: Id)
    ensures SaysId(name, id, h.users.Keys, db.uid) ==> LookupUID(db, h, name) == Some(id as int)
    ensures SaysId(name, id, h.groups, db.groupId) ==> LookupGID(db, h, name) == Some(id as int)
    ensures Chowned(id) == id && Chowned(-1) == 0
  {
    hide Atoi, Decimal;
    AtoiInvertsDecimal(id);
  }

  /** No key of the configuration is bound for the path. */
  predicate NoKeyBound(db: Accounts, cfg: Config, path: string) {
    forall u | u in cfg.users && u.keys != [] :: db.home(u.name) + "/.ssh/authorized_keys" != path
  }

  lemma {:induction false} NoKeysBound(db: Accounts, us: seq<UserSpec>, path: string)
    requires forall u | u in us && u.keys != [] :: KeyFile(db, u.name) != path
    ensures KeysFor(db, us, path) == []
    decreases us
  {
    if us != [] {
      NoKeysBound(db, us[..|us| - 1], path);
      assert us[|us| - 1] in us;
    }
  }

  /** After a nil Apply, the file of the last entry for its path, no key being bound for it, has the
      content of the entry, the permission bits its mode says in octal, or 0644, and the owner and group
      it names, by number or by name, or root. */
  lemma DropDelivered(db: Accounts, h: Host, cfg: Config, i: nat)
    requires Completes(db, h, Plan(cfg, ALL_READ))
    requires i < |cfg.writeFiles|
    requires forall j | i < j < |cfg.writeFiles| :: cfg.writeFiles[j].path != cfg.writeFiles[i].path
    requires NoKeyBound(db, cfg, cfg.writeFiles[i].path)
    ensures var f, files := cfg.writeFiles[i], Run(db, h, Plan(cfg, ALL_READ)).files;
            && f.path in files && files[f.path].text == f.content
            && (f.mode == "" ==> files[f.path].mode == 0x1A4)
            && (forall n: nat | n <= MAX_UINT32 && SaysMode(f.mode, n) :: files[f.path].mode == n % 0x200)
            && (forall id: Id | SaysIdOrRoot(f.owner, id, h.users.Keys, db.uid) :: files[f.path].uid == id)
            && (forall id: Id | SaysIdOrRoot(f.group, id, h.groups, db.groupId) :: files[f.path].gid == id)
  {
    hide Atoi, ParseMode, Chowned, SaysMode, SaysId, LookupUID, LookupGID;
    var f, x := cfg.writeFiles[i], Run(db, h, Plan(cfg, ALL_READ));
    RunPlan(db, h, cfg, ALL_READ);
    LastDropWins(db, h, cfg.writeFiles, i);
    NoKeysBound(db, cfg.users, f.path);
    DroppedStays(db, h, cfg, f.path);
    var w := Resolve(db, h, f).value;
    assert x.files[f.path] == Target(w);
    DefaultMode();
    forall n: nat | n <= MAX_UINT32 && SaysMode(f.mode, n) ensures x.files[f.path].mode == n % 0x200 {
      ModeReads(f.mode, n);
      ModeIsSaid(n);
    }
    forall id: Id | SaysIdOrRoot(f.owner, id, h.users.Keys, db.uid) ensures x.files[f.path].uid == id {
      IdReads(db, h, if f.owner == "" then "root" else f.owner, id);
    }
    forall id: Id | SaysIdOrRoot(f.group, id, h.groups, db.groupId) ensures x.files[f.path].gid == id {
      IdReads(db, h, if f.group == "" then "root" else f.group, id);
    }
  }

  lemma DefaultMode()
    ensures ParseMode("0644") == Num(0x1A4)
  {
    SayDefaultMode();
    ModeReads("0644", 0x1A4);
  }

  lemma SayDefaultMode()
    ensures SaysMode("0644", 0x1A4)
  {
    assert Printed(6, 8) == "6";
    assert Printed(52, 8) == "64";
    assert Printed(420, 8) == "644";
    assert "0" + "644" == "0644";
  }

  lemma ModeIsSaid(n: nat)
    ensures !SaysMode("", n)
  {
  }

  lemma DroppedStays(db: Accounts, h: Host, cfg: Config, path: string)
    requires Completes(db, h, Plan(cfg, ALL_READ))
    requires path in Targets(db, h, cfg.writeFiles) && KeysFor(db, cfg.users, path) == []
    ensures var files := Run(db, h, Plan(cfg, ALL_READ)).files;
            path in files && files[path] == Targets(db, h, cfg.writeFiles)[path]
  {
    var g, p := Dropped(db, h, cfg, ALL_READ), UserSteps(cfg.users);
    RunPlan(db, h, cfg, ALL_READ);
    UserStepsAreUserSteps(cfg.users);
    NoKeysNoChange(db, cfg.users, p, path);
    RunLeavesFile(db, g, p, path);
  }

  // ---- the order of the phases ---------------------------------------------------------

  /** However a run stops: a command has run only if all packages are in; a package is in, or a command
      has run, only if all accounts, groups and keys are there; an account or a group is new only if all
      files were dropped; and any of these, or a file other than /etc/hostname, is new only if the
      hostname is set. */
  lemma PhasesInOrder(db: Accounts, h: Host, cfg: Config, s: Stop)
    ensures var x := Stopped(db, h, cfg, s);
            var whole := Run(db, h, Plan(cfg, s.probe));
            && (x.ran != h.ran ==> forall p | p in cfg.packages :: p in x.packages)
            && (x.ran != h.ran || x.packages != h.packages ==>
                  x.users == whole.users && x.groups == whole.groups && x.files == whole.files)
            && (x.users != h.users || x.groups != h.groups ==>
                  forall f | f in cfg.writeFiles :: f.path in x.files)
            && ((exists path | path != HOSTNAME_FILE :: !SameAt(x.files, h.files, path)) || x.users != h.users
                || x.groups != h.groups || x.packages != h.packages || x.ran != h.ran ==>
                  cfg.hostname == "" || x.kernel == cfg.hostname)
  {
    var x, p := Stopped(db, h, cfg, s), UserSteps(cfg.users);
    var at := StoppedAt(db, h, cfg, s);
    StageLog(db, h, cfg, s.probe, x, at);
    RunPlan(db, h, cfg, s.probe);
    if at.InUsers? || at.TornUser? || at.TornKey? {
      UsersStageOrder(db, h, cfg, s.probe, x, at);
    } else {
      EarlyStageOrder(db, h, cfg, s.probe, x, at);
    }
  }

  lemma EarlyStageOrder(db: Accounts, h: Host, cfg: Config, probe: Probe, x: Host, at: Stage)
    requires At(db, h, cfg, probe, x, at) && !at.InUsers? && !at.TornUser? && !at.TornKey?
    ensures x.users == h.users && x.groups == h.groups && x.packages == h.packages && x.ran == h.ran
    ensures (exists path | path != HOSTNAME_FILE :: !SameAt(x.files, h.files, path)) ==>
              cfg.hostname == "" || x.kernel == cfg.hostname
  {
    StageBeforeUsers(db, h, cfg, probe, x, at);
  }

  lemma UsersStageOrder(db: Accounts, h: Host, cfg: Config, probe: Probe, x: Host, at: Stage)
    requires At(db, h, cfg, probe, x, at) && (at.InUsers? || at.TornUser? || at.TornKey?)
    ensures x.ran != h.ran ==> forall p | p in cfg.packages :: p in x.packages
    ensures var whole := Finished(db, h, cfg, probe);
            x.ran != h.ran || x.packages != h.packages ==>
              x.users == whole.users && x.groups == whole.groups && x.files == whole.files
    ensures forall f | f in cfg.writeFiles :: f.path in x.files
    ensures cfg.hostname == "" || x.kernel == cfg.hostname
  {
    hide Run, UserSteps, Resolve, Targets, Do, Blocked, WantedGroups;
    var g, p := Dropped(db, h, cfg, probe), UserSteps(cfg.users);
    var j := if at.InUsers? then at.steps else at.step;
    UserStepsAreUserSteps(cfg.users);
    RunGrows(db, g, p[..j]);
    StageLog(db, h, cfg, probe, x, at);
    RunKeepsFiles(db, g, p[..j]);
    assert p[..|p|] == p;
    forall f | f in cfg.writeFiles ensures f.path in x.files {
      var i :| 0 <= i < |cfg.writeFiles| && cfg.writeFiles[i] == f;
      NextIsTarget(db, h, cfg.writeFiles, i);
    }
    if at.InUsers? {
      assert h.ran + [] == h.ran;
      forall q | q in cfg.packages && x.ran != h.ran ensures q in x.packages {
        assert q in ToSet(cfg.packages);
      }
    } else {
      assert p[j] in p && UserStep(p[j]);
      TornKeepsFiles(db, Run(db, g, p[..j]), p[j], at.part);
    }
  }
}
