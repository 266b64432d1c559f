/** The Linux System over one host, and Apply. */
module LinuxSystem {
  import opened Text
  import opened AuthorizedKeys
  import opened Host
  import Effects = Host  // the effects whose names the methods below share
  import opened Rerun

  /** What happens to a System call: it returns nil; it returns an error, or the process dies, with
      nothing done; or one of the two happens with part of its work done. */
  datatype Outcome = Done | Failed | Killed | Partly(part: set<string>)

  function PartOf(o: Outcome): Option<set<string>> {
    if o.Partly? then Some(o.part) else None
  }

  function Count(db: Accounts, h: Host, s: Step): int {
    if Mutates(db, h, s) then 1 else 0
  }

  /** From h, n steps of p completed and led to x, that many of them mutations; if torn,
      the next step stopped part way. */
  predicate Ran(db: Accounts, h: Host, p: seq<Step>, n: nat, torn: Option<set<string>>, x: Host, mutations: int)
    decreases n
  {
    if n == 0 then mutations == 0 && if torn.Some? then p != [] && x == Torn(db, h, p[0], torn.value) else x == h
    else p != [] && !Blocked(db, h, p[0]) &&
         Ran(db, Do(db, h, p[0]), p[1..], n - 1, torn, x, mutations - Count(db, h, p[0]))
  }

  predicate Stuck(db: Accounts, p: seq<Step>, n: nat, x: Host) {
    n < |p| && Blocked(db, x, p[n])
  }

  lemma RanNone(db: Accounts, h: Host, p: seq<Step>)
    ensures Ran(db, h, p, 0, None, h, 0)
  {
  }

  lemma IsStuck(db: Accounts, p: seq<Step>, n: nat, x: Host)
    ensures n < |p| && Blocked(db, x, p[n]) ==> Stuck(db, p, n, x)
  {
  }

  /** In terms of Run, Completes and Mutations. */
  lemma {:induction false} RanIsRun(db: Accounts, h: Host, p: seq<Step>, n: nat, torn: Option<set<string>>, x: Host,
                                    m: int)
    requires Ran(db, h, p, n, torn, x, m)
    ensures n <= |p| && (torn.Some? ==> n < |p|)
    ensures Completes(db, h, p[..n]) && m == Mutations(db, h, p[..n])
    ensures x == if torn.Some? then Torn(db, Run(db, h, p[..n]), p[n], torn.value) else Run(db, h, p[..n])
    decreases n
  {
    if n > 0 {
      RanIsRun(db, Do(db, h, p[0]), p[1..], n - 1, torn, x, m - Count(db, h, p[0]));
      assert p[..n][1..] == p[1..][..n - 1];
    }
  }

  lemma {:induction false} RanOne(db: Accounts, h: Host, p: seq<Step>, n: nat, x: Host, m: int)
    requires Ran(db, h, p, n, None, x, m) && n < |p| && !Blocked(db, x, p[n])
    ensures Ran(db, h, p, n + 1, None, Do(db, x, p[n]), m + Count(db, x, p[n]))
    decreases n
  {
    hide Do, Blocked, Mutates;
    if n > 0 {
      RanOne(db, Do(db, h, p[0]), p[1..], n - 1, x, m - Count(db, h, p[0]));
    } else {
      var y := Do(db, h, p[0]);
      assert Ran(db, y, p[1..], 0, None, y, 0);
    }
  }

  /** Step n stops part way. */
  lemma {:induction false} RanTorn(db: Accounts, h: Host, p: seq<Step>, n: nat, part: set<string>, x: Host, m: int)
    requires Ran(db, h, p, n, None, x, m) && n < |p|
    ensures Ran(db, h, p, n, Some(part), Torn(db, x, p[n], part), m)
    decreases n
  {
    if n > 0 {
      RanTorn(db, Do(db, h, p[0]), p[1..], n - 1, part, x, m - Count(db, h, p[0]));
    }
  }

  /** All of p, then n steps of q. */
  lemma {:induction false} RanThen(db: Accounts, h: Host, p: seq<Step>, x: Host, m: int,
                                   q: seq<Step>, n: nat, torn: Option<set<string>>, y: Host, m': int)
    requires Ran(db, h, p, |p|, None, x, m) && Ran(db, x, q, n, torn, y, m')
    ensures Ran(db, h, p + q, |p| + n, torn, y, m + m')
    ensures Stuck(db, q, n, y) ==> Stuck(db, p + q, |p| + n, y)
    decreases p
  {
    if p == [] {
      assert p + q == q;
    } else {
      assert (p + q)[1..] == p[1..] + q;
      RanThen(db, Do(db, h, p[0]), p[1..], x, m - Count(db, h, p[0]), q, n, torn, y, m');
    }
  }

  /** Part of p is part of p + q. */
  lemma {:induction false} RanWithin(db: Accounts, h: Host, p: seq<Step>, q: seq<Step>, n: nat,
                                     torn: Option<set<string>>, x: Host, m: int)
    requires Ran(db, h, p, n, torn, x, m)
    ensures Ran(db, h, p + q, n, torn, x, m)
    ensures Stuck(db, p, n, x) ==> Stuck(db, p + q, n, x)
    decreases n
  {
    if n > 0 {
      assert (p + q)[1..] == p[1..] + q;
      RanWithin(db, Do(db, h, p[0]), p[1..], q, n - 1, torn, x, m - Count(db, h, p[0]));
    }
  }

  /** A run that is stuck has ended, in an error. */
  lemma StuckIsEnd(db: Accounts, h: Host, p: seq<Step>, n: nat, x: Host, m: int)
    requires Ran(db, h, p, n, None, x, m) && Stuck(db, p, n, x)
    ensures Run(db, h, p) == x && !Completes(db, h, p)
  {
    RanIsRun(db, h, p, n, None, x, m);
    assert p == p[..n] + p[n..];
    RunAppend(db, h, p[..n], p[n..]);
  }

  class System {
    const db: Accounts
    var kernel: string
    var files: map<string, File>
    var users: map<string, User>
    var groups: set<string>
    var packages: set<string>
    var ran: seq<string>
    /** What will happen to the next calls; Done once it is used up. */
    var faults: seq<Outcome>
    /** Calls that changed the hostname, replaced a file, created a user or appended a key. */
    var mutations: int

    function State(): Host
      reads this
    {
      Host(kernel, files, users, groups, packages, ran)
    }

    constructor (db: Accounts, h: Host, faults: seq<Outcome>)
      ensures this.db == db && State() == h && this.faults == faults && mutations == 0
    {
      this.db := db;
      kernel, files, users, groups, packages, ran := h.kernel, h.files, h.users, h.groups, h.packages, h.ran;
      this.faults, mutations := faults, 0;
    }

    method Next() returns (o: Outcome)
      modifies this`faults
      ensures old(faults) == [] ==> o == Done && faults == []
    {
      o := Done;
      if faults != [] {
        o, faults := faults[0], faults[1..];
      }
    }

    /** A call that is whole or nothing. */
    method NextWhole() returns (o: Outcome)
      modifies this`faults
      ensures !o.Partly?
      ensures old(faults) == [] ==> o == Done && faults == []
    {
      o := Next();
      if o.Partly? {
        o := Killed;
      }
    }

    method Hostname() returns (o: Outcome, name: string)
      modifies this`faults
      ensures !o.Partly?
      ensures o.Done? ==> name == kernel
      ensures !o.Done? ==> name == ""
      ensures old(faults) == [] ==> o == Done && faults == []
    {
      o := NextWhole();
      name := if o.Done? then kernel else "";
    }

    /** Its two reads are best effort: an error of either is dropped. */
    method SetHostname(name: string) returns (o: Outcome, ghost probe: Probe)
      modifies this
      ensures o.Done? ==> State() == Effects.SetHostname(old(State()), name, probe) && mutations == old(mutations) + 1
      ensures o.Partly? ==> mutations == old(mutations)
      ensures o.Partly? ==>
                State() == if SeesName(old(State()), name, probe) then old(State())
                           else old(State()).(files := old(files)[HOSTNAME_FILE := HostnameRecord(name)])
      ensures o.Failed? || o.Killed? ==> State() == old(State()) && mutations == old(mutations)
      ensures old(faults) == [] ==> o == Done && faults == [] && probe == ALL_READ
    {
      var live, current := Hostname();
      probe := Probe(true, live.Done?, true);
      if live.Killed? {
        return Killed, probe;
      }
      var read := NextWhole();
      probe := Probe(true, live.Done?, read.Done?);
      if read.Killed? {
        return Killed, probe;
      }
      o := Next();
      if o.Failed? || o.Killed? {
        return;
      }
      var existing := if read.Done? then TextAt(files, HOSTNAME_FILE) else "";
      if !(current == name && TrimSpace(existing) == name) {
        files := files[HOSTNAME_FILE := HostnameRecord(name)];
        if o.Partly? {
          return;
        }
        kernel := name;
      }
      if o.Done? {
        mutations := mutations + 1;
      }
    }

    method UserExists(name: string) returns (o: Outcome, found: bool)
      modifies this`faults
      ensures !o.Partly?
      ensures o.Done? ==> found == (name in users)
      ensures old(faults) == [] ==> o == Done && faults == []
    {
      o := NextWhole();
      found := o.Done? && name in users;
    }

    /** groupadd for each group, then useradd and the password. */
    method CreateUser(name: string, shell: string, hash: string, extraGroups: seq<string>) returns (o: Outcome)
      modifies this
      ensures o.Done? ==>
                State() == Effects.CreateUser(old(State()), name, shell, hash, extraGroups)
                && mutations == old(mutations) + 1
      ensures o.Partly? ==> State() == old(State()).(groups := old(groups) + o.part * ToSet(extraGroups))
      ensures o.Failed? || o.Killed? ==> State() == old(State())
      ensures !o.Done? ==> mutations == old(mutations)
      ensures old(faults) == [] ==> o == Done && faults == []
    {
      o := Next();
      if o.Done? {
        mutations := mutations + 1;
        users := users[name := User(Or(shell, "/bin/bash"), hash, ToSet(extraGroups))];
        groups := groups + ToSet(extraGroups) + {name};
      } else if o.Partly? {
        groups := groups + o.part * ToSet(extraGroups);
      }
    }

    /** groupadd for each group, then usermod. */
    method AddUserToGroups(name: string, extraGroups: seq<string>) returns (o: Outcome)
      requires name in users
      modifies this
      ensures o.Done? ==> State() == Effects.AddUserToGroups(old(State()), name, extraGroups)
      ensures o.Partly? ==> State() == old(State()).(groups := old(groups) + o.part * ToSet(extraGroups))
      ensures o.Failed? || o.Killed? ==> State() == old(State())
      ensures mutations == old(mutations)
      ensures old(faults) == [] ==> o == Done && faults == []
    {
      o := Next();
      var u := users[name];
      if |extraGroups| == 0 {
        assert ToSet(extraGroups) == {} && u.groups + {} == u.groups && groups + {} == groups;
        assert users[name := u] == users;
        return;
      }
      if o.Done? {
        groups := groups + ToSet(extraGroups);
        users := users[name := u.(groups := u.groups + ToSet(extraGroups))];
      } else if o.Partly? {
        groups := groups + o.part * ToSet(extraGroups);
      }
    }

    method AddAuthorizedKey(username: string, key: string) returns (o: Outcome)
      modifies this
      ensures var s := AddKey(username, key);
              o.Done? ==> !Blocked(db, old(State()), s) && State() == Do(db, old(State()), s)
                          && mutations == old(mutations) + Count(db, old(State()), s)
      ensures o.Partly? ==>
                State() == Torn(db, old(State()), AddKey(username, key), o.part) && mutations == old(mutations)
      ensures o.Failed? || o.Killed? ==> State() == old(State()) && mutations == old(mutations)
      ensures old(faults) == [] ==> faults == [] &&
                                    o == if Blocked(db, old(State()), AddKey(username, key)) then Failed else Done
    {
      hide Resolve, HasLine, LinuxAdd, TrimSpace, WantedGroups, ToSet;
      o := Next();
      if o.Failed? || o.Killed? {
        return;
      }
      if username !in users {
        return if o.Partly? then o else Failed;
      }
      var akPath := KeyFile(db, username);
      var buf, present := LinuxAddKey(TextAt(files, akPath), key);
      if present {
        return;
      }
      files := files[akPath := File(buf, 0x180, 0, 0)];
      if o.Partly? {
        return;
      }
      mutations := mutations + 1;
      files := files[akPath := File(buf, 0x180, db.uid(username), db.gid(username))];
    }

    /** The defaults, parseMode, lookupUID and lookupGID. */
    method ResolveArguments(f: FileSpec) returns (w: Option<Wanted>)
      ensures w == Resolve(db, State(), f)
    {
      var mode := if f.mode == "" then "0644" else f.mode;
      var owner := if f.owner == "" then "root" else f.owner;
      var group := if f.group == "" then "root" else f.group;
      var parsedMode := ParseMode(mode);
      if !parsedMode.Num? {
        return None;
      }
      var uid := LookupUID(db, State(), owner);
      if uid.None? {
        return None;
      }
      var gid := LookupGID(db, State(), group);
      if gid.None? {
        return None;
      }
      w := Some(Wanted(f.content, parsedMode.n % 0x200, uid.value, gid.value));
    }

    method WriteFile(f: FileSpec) returns (o: Outcome)
      modifies this
      ensures var s := Drop(f);
              o.Done? ==> !Blocked(db, old(State()), s) && State() == Do(db, old(State()), s)
                          && mutations == old(mutations) + Count(db, old(State()), s)
      ensures o.Partly? ==> State() == Torn(db, old(State()), Drop(f), o.part) && mutations == old(mutations)
      ensures o.Failed? || o.Killed? ==> State() == old(State()) && mutations == old(mutations)
      ensures old(faults) == [] ==> faults == [] && o == if Blocked(db, old(State()), Drop(f)) then Failed else Done
    {
      o := Next();
      if o.Failed? || o.Killed? {
        return;
      }
      var w := ResolveArguments(f);
      if w.None? {
        return if o.Partly? then o else Failed;
      }
      if InPlace(files, f.path, w.value) {
        return;
      }
      if o.Partly? {
        files := files[f.path := Fresh(w.value)];
        return;
      }
      mutations := mutations + 1;
      files := files[f.path := Target(w.value)];
    }

    method PackageInstall(pkgs: seq<string>) returns (o: Outcome)
      modifies this
      ensures o.Done? ==> State() == Do(db, old(State()), Install(pkgs))
      ensures o.Partly? ==> State() == Torn(db, old(State()), Install(pkgs), o.part)
      ensures o.Failed? || o.Killed? ==> State() == old(State())
      ensures mutations == old(mutations)
      ensures old(faults) == [] ==> o == Done && faults == []
    {
      o := Next();
      if |pkgs| == 0 {
        assert ToSet(pkgs) == {} && packages + {} == packages;
        return;
      }
      if o.Done? {
        packages := packages + ToSet(pkgs);
      } else if o.Partly? {
        packages := packages + o.part * ToSet(pkgs);
      }
    }

    /** A command that fails has run. */
    method RunShell(cmd: string) returns (o: Outcome)
      modifies this
      ensures !o.Partly?
      ensures State() == if o.Killed? then old(State()) else Do(db, old(State()), Shell(cmd))
      ensures mutations == old(mutations)
      ensures old(faults) == [] ==> o == Done && faults == []
    {
      o := NextWhole();
      if !o.Killed? {
        ran := ran + [cmd];
      }
    }

    // ---- Apply, phase by phase; n counts the steps done --------------------------------

    method ApplyHostname(cfg: Config) returns (o: Outcome, ghost probe: Probe, ghost n: nat)
      modifies this
      ensures Ran(db, old(State()), Renames(cfg, probe), n, PartOf(o), State(), mutations - old(mutations))
      ensures o.Done? ==> n == |Renames(cfg, probe)|
      ensures old(faults) == [] ==> faults == [] && o.Done? && probe == ALL_READ
    {
      probe, n := ALL_READ, 0;
      if cfg.hostname == "" {
        return Done, ALL_READ, 0;
      }
      var first, current := Hostname();
      probe := Probe(first.Done?, true, true);
      if first.Killed? {
        return Killed, probe, 0;
      }
      o := Done;
      if current != cfg.hostname {
        ghost var inner;
        o, inner := SetHostname(cfg.hostname);
        probe := inner.(apply := first.Done?);
      }
      ghost var p := Renames(cfg, probe);
      if o.Partly? {
        RanTorn(db, old(State()), p, 0, o.part, old(State()), 0);
      }
      if o.Done? {
        RanOne(db, old(State()), p, 0, old(State()), 0);
        n := 1;
      }
    }

    method ApplyFiles(fs: seq<FileSpec>) returns (o: Outcome, ghost n: nat)
      modifies this
      ensures Ran(db, old(State()), Drops(fs), n, PartOf(o), State(), mutations - old(mutations))
      ensures o.Done? ==> n == |Drops(fs)|
      ensures old(faults) == [] ==> faults == [] && (o.Done? || (o.Failed? && Stuck(db, Drops(fs), n, State())))
    {
      hide Ran, Stuck, Blocked, Do, Torn;
      n := 0;
      RanNone(db, State(), Drops(fs));
      for i := 0 to |fs|
        invariant n == i && Ran(db, old(State()), Drops(fs), i, None, State(), mutations - old(mutations))
        invariant old(faults) == [] ==> faults == []
      {
        ghost var x, m := State(), mutations;
        o := WriteFile(fs[i]);
        if !o.Done? {
          if o.Partly? {
            RanTorn(db, old(State()), Drops(fs), i, o.part, x, m - old(mutations));
          }
          IsStuck(db, Drops(fs), i, x);
          return;
        }
        RanOne(db, old(State()), Drops(fs), i, x, m - old(mutations));
        n := i + 1;
      }
      o := Done;
    }

    method ApplyKeys(name: string, keys: seq<string>) returns (o: Outcome, ghost n: nat)
      modifies this
      ensures Ran(db, old(State()), KeySteps(name, keys), n, PartOf(o), State(), mutations - old(mutations))
      ensures o.Done? ==> n == |KeySteps(name, keys)|
      ensures old(faults) == [] ==>
                faults == [] && (o.Done? || (o.Failed? && Stuck(db, KeySteps(name, keys), n, State())))
    {
      hide Ran, Stuck, Blocked, Do, Torn;
      n := 0;
      RanNone(db, State(), KeySteps(name, keys));
      for j := 0 to |keys|
        invariant n == j && Ran(db, old(State()), KeySteps(name, keys), j, None, State(), mutations - old(mutations))
        invariant old(faults) == [] ==> faults == []
      {
        ghost var x, m := State(), mutations;
        o := AddAuthorizedKey(name, keys[j]);
        if !o.Done? {
          if o.Partly? {
            RanTorn(db, old(State()), KeySteps(name, keys), j, o.part, x, m - old(mutations));
          }
          IsStuck(db, KeySteps(name, keys), j, x);
          return;
        }
        RanOne(db, old(State()), KeySteps(name, keys), j, x, m - old(mutations));
        n := j + 1;
      }
      o := Done;
    }

    method EnsureUser(u: UserSpec) returns (o: Outcome, ghost n: nat)
      modifies this
      ensures Ran(db, old(State()), [Ensure(u)], n, PartOf(o), State(), mutations - old(mutations))
      ensures o.Done? <==> n == 1
      ensures old(faults) == [] ==> faults == [] && o.Done?
    {
      n := 0;
      var exists_;
      o, exists_ := UserExists(u.name);
      if !o.Done? {
        return;
      }
      var groups := u.groups;
      if (u.doas || u.sudo) && !("wheel" in groups) {
        groups := groups + ["wheel"];
      }
      if !exists_ {
        o := CreateUser(u.name, u.shell, u.hash, groups);
      } else {
        o := AddUserToGroups(u.name, groups);
      }
      if o.Partly? {
        RanTorn(db, old(State()), [Ensure(u)], 0, o.part, old(State()), 0);
      }
      if o.Done? {
        RanOne(db, old(State()), [Ensure(u)], 0, old(State()), 0);
        n := 1;
      }
    }

    method ApplyUser(u: UserSpec) returns (o: Outcome, ghost n: nat)
      modifies this
      ensures Ran(db, old(State()), OneUser(u), n, PartOf(o), State(), mutations - old(mutations))
      ensures o.Done? ==> n == |OneUser(u)|
      ensures old(faults) == [] ==> faults == [] && (o.Done? || (o.Failed? && Stuck(db, OneUser(u), n, State())))
    {
      hide Ran, Stuck, Blocked, Do, Torn;
      ghost var h, m0, p, q := State(), mutations, [Ensure(u)], KeySteps(u.name, u.keys);
      o, n := EnsureUser(u);
      RanWithin(db, h, p, q, n, PartOf(o), State(), mutations - m0);
      if !o.Done? {
        return;
      }
      ghost var x, m, k := State(), mutations, 0;
      o, k := ApplyKeys(u.name, u.keys);
      RanThen(db, h, p, x, m - m0, q, k, PartOf(o), State(), mutations - m);
      n := n + k;
    }

    method ApplyUsers(us: seq<UserSpec>) returns (o: Outcome, ghost n: nat)
      modifies this
      ensures Ran(db, old(State()), UserSteps(us), n, PartOf(o), State(), mutations - old(mutations))
      ensures o.Done? ==> n == |UserSteps(us)|
      ensures old(faults) == [] ==> faults == [] && (o.Done? || (o.Failed? && Stuck(db, UserSteps(us), n, State())))
    {
      hide Ran, Stuck, Blocked, Do, Torn;
      ghost var h, m0 := State(), mutations;
      ghost var p: seq<Step> := [];
      n := 0;
      RanNone(db, h, p);
      for i := 0 to |us|
        invariant p == UserSteps(us[..i]) && n == |p|
        invariant Ran(db, h, p, n, None, State(), mutations - m0)
        invariant old(faults) == [] ==> faults == []
      {
        ghost var x, m, k := State(), mutations, 0;
        o, k := ApplyUser(us[i]);
        p := RanUser(db, h, us, i, p, x, m - m0, k, PartOf(o), State(), mutations - m);
        n := n + k;
        if !o.Done? {
          return;
        }
      }
      assert us[..|us|] == us;
      o := Done;
    }

    method ApplyPackages(pkgs: seq<string>) returns (o: Outcome, ghost n: nat)
      modifies this
      ensures Ran(db, old(State()), Installs(pkgs), n, PartOf(o), State(), mutations - old(mutations))
      ensures o.Done? ==> n == |Installs(pkgs)|
      ensures old(faults) == [] ==> faults == [] && o.Done?
    {
      o, n := Done, 0;
      if |pkgs| > 0 {
        o := PackageInstall(pkgs);
        if o.Partly? {
          RanTorn(db, old(State()), Installs(pkgs), 0, o.part, old(State()), 0);
        }
        if o.Done? {
          RanOne(db, old(State()), Installs(pkgs), 0, old(State()), 0);
          n := 1;
        }
      }
    }

    method ApplyCommands(cmds: seq<string>) returns (o: Outcome, ghost n: nat)
      modifies this
      ensures Ran(db, old(State()), Shells(cmds), n, PartOf(o), State(), mutations - old(mutations))
      ensures o.Done? ==> n == |Shells(cmds)|
      ensures old(faults) == [] ==> faults == [] && o.Done?
    {
      n := 0;
      for i := 0 to |cmds|
        invariant n == i && Ran(db, old(State()), Shells(cmds), i, None, State(), mutations - old(mutations))
        invariant old(faults) == [] ==> faults == []
      {
        ghost var x := State();
        o := RunShell(cmds[i]);
        if o.Killed? {
          return;
        }
        RanOne(db, old(State()), Shells(cmds), i, x, mutations - old(mutations));
        n := i + 1;
        if !o.Done? {
          return;
        }
      }
      o := Done;
    }

    method ApplyFromPackages(cfg: Config) returns (o: Outcome, ghost n: nat)
      modifies this
      ensures Ran(db, old(State()), Tail(cfg), n, PartOf(o), State(), mutations - old(mutations))
      ensures o.Done? ==> n == |Tail(cfg)|
      ensures old(faults) == [] ==> faults == [] && (o.Done? || (o.Failed? && Stuck(db, Tail(cfg), n, State())))
    {
      hide Ran, Stuck, Blocked, Do, Torn;
      ghost var h, m0, p, q := State(), mutations, Installs(cfg.packages), Shells(cfg.runCmds);
      o, n := ApplyPackages(cfg.packages);
      RanWithin(db, h, p, q, n, PartOf(o), State(), mutations - m0);
      if !o.Done? {
        return;
      }
      ghost var x, m, k := State(), mutations, 0;
      o, k := ApplyCommands(cfg.runCmds);
      RanThen(db, h, p, x, m - m0, q, k, PartOf(o), State(), mutations - m);
      n := n + k;
    }

    method ApplyFromUsers(cfg: Config) returns (o: Outcome, ghost n: nat)
      modifies this
      ensures Ran(db, old(State()), Rest(cfg), n, PartOf(o), State(), mutations - old(mutations))
      ensures o.Done? ==> n == |Rest(cfg)|
      ensures old(faults) == [] ==> faults == [] && (o.Done? || (o.Failed? && Stuck(db, Rest(cfg), n, State())))
    {
      hide Ran, Stuck, Blocked, Do, Torn;
      ghost var h, m0, p, q := State(), mutations, UserSteps(cfg.users), Tail(cfg);
      o, n := ApplyUsers(cfg.users);
      RanWithin(db, h, p, q, n, PartOf(o), State(), mutations - m0);
      if !o.Done? {
        return;
      }
      ghost var x, m, k := State(), mutations, 0;
      o, k := ApplyFromPackages(cfg);
      RanThen(db, h, p, x, m - m0, q, k, PartOf(o), State(), mutations - m);
      n := n + k;
    }

    method ApplyFromFiles(cfg: Config) returns (o: Outcome, ghost n: nat)
      modifies this
      ensures Ran(db, old(State()), FromFiles(cfg), n, PartOf(o), State(), mutations - old(mutations))
      ensures o.Done? ==> n == |FromFiles(cfg)|
      ensures old(faults) == [] ==> faults == [] && (o.Done? || (o.Failed? && Stuck(db, FromFiles(cfg), n, State())))
    {
      hide Ran, Stuck, Blocked, Do, Torn;
      ghost var h, m0, p, q := State(), mutations, Drops(cfg.writeFiles), Rest(cfg);
      o, n := ApplyFiles(cfg.writeFiles);
      RanWithin(db, h, p, q, n, PartOf(o), State(), mutations - m0);
      if !o.Done? {
        return;
      }
      ghost var x, m, k := State(), mutations, 0;
      o, k := ApplyFromUsers(cfg);
      RanThen(db, h, p, x, m - m0, q, k, PartOf(o), State(), mutations - m);
      n := n + k;
    }

    /** Apply: whatever the calls do, the host is what some prefix of the plan leaves; a nil
        error means all of the plan ran; and with no injected fault the plan runs to its end
        or to the step that cannot succeed. */
    method Apply(cfg: Config) returns (o: Outcome, ghost probe: Probe, ghost n: nat)
      modifies this
      ensures Ran(db, old(State()), Plan(cfg, probe), n, PartOf(o), State(), mutations - old(mutations))
      ensures o.Done? ==> n == |Plan(cfg, probe)|
      ensures old(faults) == [] ==>
                && faults == [] && probe == ALL_READ
                && State() == Run(db, old(State()), Plan(cfg, ALL_READ))
                && o == if Completes(db, old(State()), Plan(cfg, ALL_READ)) then Done else Failed
    {
      hide Ran, Stuck, Blocked, Do, Torn;
      ghost var h, m0 := State(), mutations;
      o, probe, n := ApplyHostname(cfg);
      ghost var p, q := Renames(cfg, probe), FromFiles(cfg);
      RanWithin(db, h, p, q, n, PartOf(o), State(), mutations - m0);
      if !o.Done? {
        return;
      }
      ghost var x, m, k := State(), mutations, 0;
      o, k := ApplyFromFiles(cfg);
      RanThen(db, h, p, x, m - m0, q, k, PartOf(o), State(), mutations - m);
      n := n + k;
      if !o.Partly? {
        RanToTheEnd(db, h, p + q, n, State(), mutations - m0);
      }
    }
  }

  lemma RanToTheEnd(db: Accounts, h: Host, p: seq<Step>, n: nat, x: Host, m: int)
    requires Ran(db, h, p, n, None, x, m)
    ensures n == |p| ==> Run(db, h, p) == x && Completes(db, h, p)
    ensures Stuck(db, p, n, x) ==> Run(db, h, p) == x && !Completes(db, h, p)
  {
    RanIsRun(db, h, p, n, None, x, m);
    assert p[..|p|] == p;
    if Stuck(db, p, n, x) {
      StuckIsEnd(db, h, p, n, x, m);
    }
  }

  lemma {:induction false} UserStepsPrefix(us: seq<UserSpec>, i: nat)
    requires i <= |us|
    ensures UserSteps(us[..i]) <= UserSteps(us)
    decreases us
  {
    if i < |us| {
      var n := |us| - 1;
      UserStepsPrefix(us[..n], i);
      assert us[..n][..i] == us[..i];
    } else {
      assert us[..i] == us;
    }
  }

  lemma RanPrefix(db: Accounts, h: Host, p: seq<Step>, q: seq<Step>, n: nat, torn: Option<set<string>>, x: Host, m: int)
    requires p <= q && Ran(db, h, p, n, torn, x, m)
    ensures Ran(db, h, q, n, torn, x, m)
    ensures Stuck(db, p, n, x) ==> Stuck(db, q, n, x)
  {
    assert q == p + q[|p|..];
    RanWithin(db, h, p, q[|p|..], n, torn, x, m);
  }

  /** All of the first i users, then k steps of the next one. */
  lemma RanUser(db: Accounts, h: Host, us: seq<UserSpec>, i: nat, p: seq<Step>, x: Host, m: int,
                k: nat, torn: Option<set<string>>, y: Host, m': int) returns (p': seq<Step>)
    requires i < |us| && p == UserSteps(us[..i])
    requires Ran(db, h, p, |p|, None, x, m) && Ran(db, x, OneUser(us[i]), k, torn, y, m')
    ensures p' == UserSteps(us[..i + 1]) && |p'| == |p| + |OneUser(us[i])|
    ensures Ran(db, h, p', |p| + k, torn, y, m + m') && Ran(db, h, UserSteps(us), |p| + k, torn, y, m + m')
    ensures Stuck(db, OneUser(us[i]), k, y) ==> Stuck(db, UserSteps(us), |p| + k, y)
  {
    hide Ran, Stuck, Blocked, Do, Torn;
    p' := UserSteps(us[..i + 1]);
    assert us[..i + 1][..i] == us[..i];
    assert p' == p + OneUser(us[i]);
    RanThen(db, h, p, x, m, OneUser(us[i]), k, torn, y, m');
    UserStepsPrefix(us, i + 1);
    RanPrefix(db, h, p', UserSteps(us), |p| + k, torn, y, m + m');
  }
}
