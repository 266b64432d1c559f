/** The configuration, the host it is applied to, and the effect of one System call on Linux. */
module Host {
  import opened Text
  import opened Numbers
  import opened AuthorizedKeys

  datatype UserSpec = UserSpec(name: string, keys: seq<string>, groups: seq<string>,
                               sudo: bool, doas: bool, shell: string, hash: string)
  datatype FileSpec = FileSpec(path: string, content: string, mode: string, owner: string, group: string)
  datatype Config = Config(hostname: string, users: seq<UserSpec>, writeFiles: seq<FileSpec>,
                           packages: seq<string>, runCmds: seq<string>)

  /** Owner ids a file can have: (uid_t)-1 means "leave alone" to chown and owns nothing. */
  type Id = n: nat | n < MAX_UINT32
  type Mode = n: nat | n < 0x200

  datatype File = File(text: string, mode: Mode, uid: Id, gid: Id)
  datatype User = User(shell: string, hash: string, groups: set<string>)

  /** kernel is the live hostname; users is the passwd database; ran logs the shell commands. */
  datatype Host = Host(kernel: string, files: map<string, File>, users: map<string, User>,
                       groups: set<string>, packages: set<string>, ran: seq<string>)

  /** What the account database holds, or will hold once useradd and groupadd ran, for a name. */
  datatype Accounts = Accounts(uid: string -> Id, gid: string -> Id, groupId: string -> Id, home: string -> string)

  const HOSTNAME_FILE := "/etc/hostname"

  function KeyFile(db: Accounts, user: string): string {
    db.home(user) + "/.ssh/authorized_keys"
  }

  function TextAt(files: map<string, File>, path: string): string {
    if path in files then files[path].text else ""
  }

  // ---- SetHostname ---------------------------------------------------------------------

  function HostnameRecord(name: string): File {
    File(name + "\n", 0x1A4, 0, 0)  // 0644
  }

  /** Whether each read on the way to a rename works: Apply's probe of the live name, the probe that
      SetHostname repeats, and its read of /etc/hostname. The errors are dropped, and a read that
      fails gives an empty string. */
  datatype Probe = Probe(apply: bool, live: bool, file: bool)

  const ALL_READ := Probe(true, true, true)

  function Seen(ok: bool, s: string): string {
    if ok then s else ""
  }

  /** SetHostname's own test. */
  predicate SeesName(h: Host, name: string, probe: Probe) {
    Seen(probe.live, h.kernel) == name && TrimSpace(Seen(probe.file, TextAt(h.files, HOSTNAME_FILE))) == name
  }

  function SetHostname(h: Host, name: string, probe: Probe): Host {
    if SeesName(h, name, probe) then h
    else h.(kernel := name, files := h.files[HOSTNAME_FILE := HostnameRecord(name)])
  }

  // ---- WriteFile -----------------------------------------------------------------------

  function TrimPrefix(s: string, p: string): string {
    if p <= s then s[|p|..] else s
  }

  function ParseMode(mode: string): Parsed {
    ParseUint(TrimPrefix(TrimPrefix(mode, "0o"), "0O"), 8, MAX_UINT32)
  }

  /** A file created by root belongs to uid 0, and chown looks at the low 32 bits only. */
  function Chowned(id: int): Id {
    var w := id % 0x1_0000_0000;
    if w == 0xFFFF_FFFF then 0 else w
  }

  datatype Wanted = Wanted(text: string, mode: Mode, uid: int, gid: int)

  function Or(s: string, d: string): string {
    if s == "" then d else s
  }

  function LookupUID(db: Accounts, h: Host, name: string): Option<int> {
    if Atoi(name).Some? then Atoi(name)
    else if name in h.users then Some(db.uid(name)) else None
  }

  function LookupGID(db: Accounts, h: Host, name: string): Option<int> {
    if Atoi(name).Some? then Atoi(name)
    else if name in h.groups then Some(db.groupId(name)) else None
  }

  /** None is an error from parseMode, lookupUID or lookupGID. */
  function Resolve(db: Accounts, h: Host, f: FileSpec): Option<Wanted> {
    var mode := ParseMode(Or(f.mode, "0644"));
    var uid := LookupUID(db, h, Or(f.owner, "root"));
    var gid := LookupGID(db, h, Or(f.group, "root"));
    if mode.Num? && uid.Some? && gid.Some?
    then Some(Wanted(f.content, mode.n % 0x200, uid.value, gid.value)) else None
  }

  /** The record of a file dropped afresh. */
  function Target(w: Wanted): File {
    File(w.text, w.mode, Chowned(w.uid), Chowned(w.gid))
  }

  /** The record of a file renamed into place and not chowned yet. */
  function Fresh(w: Wanted): File {
    File(w.text, w.mode, 0, 0)
  }

  predicate InPlace(files: map<string, File>, path: string, w: Wanted) {
    path in files &&
    var f := files[path];
    f.text == w.text && f.mode == w.mode && f.uid == w.uid && f.gid == w.gid
  }

  function WriteFile(h: Host, path: string, w: Wanted): Host {
    if InPlace(h.files, path, w) then h else h.(files := h.files[path := Target(w)])
  }

  // ---- users, keys, packages, commands -------------------------------------------------

  /** The requested groups, with wheel folded in for sudo and doas. */
  function WantedGroups(u: UserSpec): seq<string> {
    if (u.doas || u.sudo) && "wheel" !in u.groups then u.groups + ["wheel"] else u.groups
  }

  /** The user is to be in the group: it is listed, or it is wheel and sudo or doas is set. */
  predicate AsksFor(u: UserSpec, g: string) {
    g in u.groups || (g == "wheel" && (u.sudo || u.doas))
  }

  function ToSet(s: seq<string>): set<string> {
    set x | x in s
  }

  function CreateUser(h: Host, name: string, shell: string, hash: string, groups: seq<string>): Host {
    h.(users := h.users[name := User(Or(shell, "/bin/bash"), hash, ToSet(groups))],
       groups := h.groups + ToSet(groups) + {name})
  }

  function AddUserToGroups(h: Host, name: string, groups: seq<string>): Host
    requires name in h.users
  {
    var u := h.users[name];
    h.(users := h.users[name := u.(groups := u.groups + ToSet(groups))], groups := h.groups + ToSet(groups))
  }

  predicate KeyMissing(db: Accounts, h: Host, name: string, key: string) {
    !HasLine(Split(TextAt(h.files, KeyFile(db, name)), '\n'), TrimSpace(key))
  }

  function AddAuthorizedKey(db: Accounts, h: Host, user: string, key: string): Host {
    var path := KeyFile(db, user);
    var text := TextAt(h.files, path);
    if !KeyMissing(db, h, user, key) then h
    else h.(files := h.files[path := File(LinuxAdd(text, key), 0x180, db.uid(user), db.gid(user))])  // 0600
  }

  // ---- Apply as a list of steps --------------------------------------------------------

  datatype Step = Rename(name: string, probe: Probe) | Drop(file: FileSpec) | Ensure(user: UserSpec)
                | AddKey(name: string, key: string) | Install(pkgs: seq<string>) | Shell(cmd: string)

  /** The step ends in an error whatever the injected faults are. */
  predicate Blocked(db: Accounts, h: Host, s: Step) {
    match s
    case Drop(f) => Resolve(db, h, f).None?
    case AddKey(name, _) => name !in h.users
    case _ => false
  }

  function Do(db: Accounts, h: Host, s: Step): Host
    requires !Blocked(db, h, s)
  {
    match s
    case Rename(name, probe) => if Seen(probe.apply, h.kernel) == name then h else SetHostname(h, name, probe)
    case Drop(f) => WriteFile(h, f.path, Resolve(db, h, f).value)
    case Ensure(u) =>
      if u.name in h.users then AddUserToGroups(h, u.name, WantedGroups(u))
      else CreateUser(h, u.name, u.shell, u.hash, WantedGroups(u))
    case AddKey(name, key) => AddAuthorizedKey(db, h, name, key)
    case Install(pkgs) => h.(packages := h.packages + ToSet(pkgs))
    case Shell(cmd) => h.(ran := h.ran + [cmd])
  }

  /** The step stops part way, by an error or a crash: SetHostname has written its file but not told
      the kernel, WriteFile or AddAuthorizedKey has renamed but not chowned, some of the groups of a
      user exist but the account is as before, some of the packages are in. */
  function Torn(db: Accounts, h: Host, s: Step, part: set<string>): Host {
    match s
    case Rename(name, probe) =>
      if Seen(probe.apply, h.kernel) == name || SeesName(h, name, probe) then h
      else h.(files := h.files[HOSTNAME_FILE := HostnameRecord(name)])
    case Drop(f) =>
      var w := Resolve(db, h, f);
      if w.None? || InPlace(h.files, f.path, w.value) then h else h.(files := h.files[f.path := Fresh(w.value)])
    case Ensure(u) => h.(groups := h.groups + part * ToSet(WantedGroups(u)))
    case AddKey(name, key) =>
      if name !in h.users || !KeyMissing(db, h, name, key) then h
      else
        var path := KeyFile(db, name);
        h.(files := h.files[path := File(LinuxAdd(TextAt(h.files, path), key), 0x180, 0, 0)])
    case Install(pkgs) => h.(packages := h.packages + part * ToSet(pkgs))
    case Shell(_) => h
  }

  function Renames(cfg: Config, probe: Probe): seq<Step> {
    if cfg.hostname == "" then [] else [Rename(cfg.hostname, probe)]
  }

  function Drops(fs: seq<FileSpec>): (r: seq<Step>)
    ensures |r| == |fs| && forall i | 0 <= i < |fs| :: r[i] == Drop(fs[i])
  {
    seq(|fs|, i requires 0 <= i < |fs| => Drop(fs[i]))
  }

  function KeySteps(name: string, keys: seq<string>): (r: seq<Step>)
    ensures |r| == |keys| && forall i | 0 <= i < |keys| :: r[i] == AddKey(name, keys[i])
  {
    seq(|keys|, i requires 0 <= i < |keys| => AddKey(name, keys[i]))
  }

  function OneUser(u: UserSpec): seq<Step> {
    [Ensure(u)] + KeySteps(u.name, u.keys)
  }

  function UserSteps(us: seq<UserSpec>): seq<Step> {
    if us == [] then [] else UserSteps(us[..|us| - 1]) + OneUser(us[|us| - 1])
  }

  function Installs(pkgs: seq<string>): seq<Step> {
    if pkgs == [] then [] else [Install(pkgs)]
  }

  function Shells(cmds: seq<string>): (r: seq<Step>)
    ensures |r| == |cmds| && forall i | 0 <= i < |cmds| :: r[i] == Shell(cmds[i])
  {
    seq(|cmds|, i requires 0 <= i < |cmds| => Shell(cmds[i]))
  }

  function Tail(cfg: Config): seq<Step> {
    Installs(cfg.packages) + Shells(cfg.runCmds)
  }

  function Rest(cfg: Config): seq<Step> {
    UserSteps(cfg.users) + Tail(cfg)
  }

  function FromFiles(cfg: Config): seq<Step> {
    Drops(cfg.writeFiles) + Rest(cfg)
  }

  /** Apply, in its documented order. */
  function Plan(cfg: Config, probe: Probe): seq<Step> {
    Renames(cfg, probe) + FromFiles(cfg)
  }

  /** Runs steps until one is blocked: Apply halts on the first error. */
  function Run(db: Accounts, h: Host, p: seq<Step>): Host
    decreases p
  {
    if p == [] || Blocked(db, h, p[0]) then h else Run(db, Do(db, h, p[0]), p[1..])
  }

  predicate Completes(db: Accounts, h: Host, p: seq<Step>)
    decreases p
  {
    p == [] || (!Blocked(db, h, p[0]) && Completes(db, Do(db, h, p[0]), p[1..]))
  }

  lemma {:induction false} RunAppend(db: Accounts, h: Host, p: seq<Step>, q: seq<Step>)
    ensures Completes(db, h, p + q) <==> Completes(db, h, p) && Completes(db, Run(db, h, p), q)
    ensures Run(db, h, p + q) == if Completes(db, h, p) then Run(db, Run(db, h, p), q) else Run(db, h, p)
    decreases p
  {
    if p == [] {
      assert p + q == q;
    } else {
      assert (p + q)[1..] == p[1..] + q;
      if !Blocked(db, h, p[0]) {
        RunAppend(db, Do(db, h, p[0]), p[1..], q);
      }
    }
  }

  /** Stopping before step k of p + q. */
  lemma RunCut(db: Accounts, h: Host, p: seq<Step>, q: seq<Step>, k: nat)
    requires k <= |p + q|
    ensures k <= |p| ==> Run(db, h, (p + q)[..k]) == Run(db, h, p[..k])
    ensures k >= |p| ==>
              Run(db, h, (p + q)[..k])
              == (if Completes(db, h, p) then Run(db, Run(db, h, p), q[..k - |p|]) else Run(db, h, p))
  {
    if k <= |p| {
      assert (p + q)[..k] == p[..k];
    }
    if k >= |p| {
      assert (p + q)[..k] == p + q[..k - |p|];
      RunAppend(db, h, p, q[..k - |p|]);
    }
  }
}
