/** Hosts that differ in nothing but the owner of some files: no step looks at it, but for the diff of
    a dropped file, which is then written again. */
module KeyOwners {
  import opened Text
  import opened AuthorizedKeys
  import opened Host
  import opened Convergence

  function KeyFiles(db: Accounts, us: seq<UserSpec>): set<string> {
    set u | u in us :: KeyFile(db, u.name)
  }

  predicate CloseAt(f: map<string, File>, g: map<string, File>, path: string, keyFiles: set<string>) {
    (path in f <==> path in g) &&
    (path in f ==> f[path] == if path in keyFiles then g[path].(uid := f[path].uid, gid := f[path].gid) else g[path])
  }

  ghost predicate FilesClose(f: map<string, File>, g: map<string, File>, keyFiles: set<string>) {
    forall path :: CloseAt(f, g, path, keyFiles)
  }

  ghost predicate Close(x: Host, y: Host, keyFiles: set<string>) {
    x == y.(files := x.files) && FilesClose(x.files, y.files, keyFiles)
  }

  lemma CloseIsEquivalence(x: Host, y: Host, z: Host, keyFiles: set<string>)
    ensures Close(x, x, keyFiles)
    ensures Close(x, y, keyFiles) ==> Close(y, x, keyFiles)
    ensures Close(x, y, keyFiles) && Close(y, z, keyFiles) ==> Close(x, z, keyFiles)
  {
    if Close(x, y, keyFiles) {
      forall path ensures CloseAt(y.files, x.files, path, keyFiles) {
        assert CloseAt(x.files, y.files, path, keyFiles);
      }
      if Close(y, z, keyFiles) {
        forall path ensures CloseAt(x.files, z.files, path, keyFiles) {
          assert CloseAt(x.files, y.files, path, keyFiles) && CloseAt(y.files, z.files, path, keyFiles);
        }
      }
    }
  }

  lemma PutClose(f: map<string, File>, g: map<string, File>, path: string, r: File, keyFiles: set<string>)
    requires FilesClose(f, g, keyFiles)
    ensures FilesClose(f[path := r], g[path := r], keyFiles)
  {
    var a, b := f[path := r], g[path := r];
    forall p ensures CloseAt(a, b, p, keyFiles) {
      assert CloseAt(f, g, p, keyFiles);
    }
  }

  lemma CloseText(x: Host, y: Host, path: string, keyFiles: set<string>)
    requires Close(x, y, keyFiles)
    ensures TextAt(x.files, path) == TextAt(y.files, path)
  {
    assert CloseAt(x.files, y.files, path, keyFiles);
  }

  lemma CloseDo(db: Accounts, x: Host, y: Host, s: Step, keyFiles: set<string>)
    requires Close(x, y, keyFiles)
    ensures Blocked(db, x, s) <==> Blocked(db, y, s)
    ensures !Blocked(db, x, s) ==> Close(Do(db, x, s), Do(db, y, s), keyFiles)
  {
    hide FilesClose, HasLine, LinuxAdd, TrimSpace, WantedGroups, ToSet;
    match s
    case Drop(f) =>
      assert Resolve(db, x, f) == Resolve(db, y, f);
      if !Blocked(db, x, s) {
        var w := Resolve(db, x, f).value;
        WriteFileLands(x, f.path, w);
        WriteFileLands(y, f.path, w);
        PutClose(x.files, y.files, f.path, Target(w), keyFiles);
      }
    case AddKey(name, key) =>
      var path := KeyFile(db, name);
      CloseText(x, y, path, keyFiles);
      PutClose(x.files, y.files, path,
               File(LinuxAdd(TextAt(x.files, path), key), 0x180, db.uid(name), db.gid(name)), keyFiles);
    case Rename(name, probe) =>
      CloseText(x, y, HOSTNAME_FILE, keyFiles);
      PutClose(x.files, y.files, HOSTNAME_FILE, HostnameRecord(name), keyFiles);
    case _ =>
  }

  lemma {:induction false} CloseRun(db: Accounts, x: Host, y: Host, p: seq<Step>, keyFiles: set<string>)
    requires Close(x, y, keyFiles)
    ensures Close(Run(db, x, p), Run(db, y, p), keyFiles)
    ensures Completes(db, x, p) <==> Completes(db, y, p)
    decreases p
  {
    if p != [] {
      CloseDo(db, x, y, p[0], keyFiles);
      if !Blocked(db, x, p[0]) {
        CloseRun(db, Do(db, x, p[0]), Do(db, y, p[0]), p[1..], keyFiles);
      }
    }
  }

  lemma CloseTornDrop(db: Accounts, x: Host, y: Host, f: FileSpec, part: set<string>, keyFiles: set<string>)
    requires Close(x, y, keyFiles)
    ensures Close(Torn(db, x, Drop(f), part), Torn(db, y, Drop(f), part), keyFiles)
  {
    assert Resolve(db, x, f) == Resolve(db, y, f);
    if Resolve(db, x, f).Some? {
      var a, b := Torn(db, x, Drop(f), part).files, Torn(db, y, Drop(f), part).files;
      forall p ensures CloseAt(a, b, p, keyFiles) {
        assert CloseAt(x.files, y.files, p, keyFiles) && CloseAt(x.files, y.files, f.path, keyFiles);
      }
    }
  }

  lemma CloseTorn(db: Accounts, x: Host, y: Host, s: Step, part: set<string>, keyFiles: set<string>)
    requires Close(x, y, keyFiles)
    ensures Close(Torn(db, x, s, part), Torn(db, y, s, part), keyFiles)
  {
    match s
    case Drop(f) =>
      CloseTornDrop(db, x, y, f, part, keyFiles);
    case AddKey(name, key) =>
      var path := KeyFile(db, name);
      CloseText(x, y, path, keyFiles);
      PutClose(x.files, y.files, path, File(LinuxAdd(TextAt(x.files, path), key), 0x180, 0, 0), keyFiles);
    case Rename(name, probe) =>
      CloseText(x, y, HOSTNAME_FILE, keyFiles);
      PutClose(x.files, y.files, HOSTNAME_FILE, HostnameRecord(name), keyFiles);
    case _ =>
  }

  /** A key step stopped before its chown is, owner aside, a key step done. */
  lemma TornKeyIsClose(db: Accounts, x: Host, name: string, key: string, part: set<string>, keyFiles: set<string>)
    requires name in x.users && KeyFile(db, name) in keyFiles
    ensures Close(Torn(db, x, AddKey(name, key), part), Do(db, x, AddKey(name, key)), keyFiles)
  {
  }
}
