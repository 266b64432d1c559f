/** Dropping a file through a temporary file and a rename, one file-system step at a time. A step
    can fail, or the process can be killed before it; a killed or failed write may be partial. */
module FileDrop {
  import opened Text
  import opened AuthorizedKeys
  import opened Host
  import opened Convergence

  datatype Fault = Go | Fails(part: nat) | Kill(part: nat)
  datatype Exit = Ok | Error | Killed

  type Files = map<string, File>

  /** NetBSD's atomicWrite chowns the temporary file unless an id is negative. */
  function Owned(w: Wanted): File {
    if w.uid >= 0 && w.gid >= 0 then Target(w) else Fresh(w)
  }

  predicate SameOwner(f: File, g: File) {
    f.uid == g.uid && f.gid == g.gid
  }

  /** Nothing but the temporary file differs. */
  predicate OnlyTemp(before: Files, after: Files, tmp: string) {
    after - {tmp} == before - {tmp}
  }

  /** What a Linux WriteFile that did not return nil may leave. */
  predicate Interrupted(before: Files, after: Files, path: string, w: Wanted, tmp: string) {
    OnlyTemp(before, after, tmp) || after == before[path := Fresh(w)]
  }

  /** What an atomicWrite that was killed may leave: the whole old record or the whole new one. */
  predicate OldOrNew(before: Files, after: Files, path: string, record: File, tmp: string) {
    OnlyTemp(before, after, tmp) || after == before[path := record]
  }

  function Part(s: string, n: nat): string {
    if n <= |s| then s[..n] else s
  }

  class Disk {
    var files: Files
    /** What will happen to the next steps; Go once it is used up. */
    var faults: seq<Fault>
    /** How many times removing a temporary file failed, an error that is dropped. */
    var leaks: nat
    /** How many temporary files were asked for. */
    var temps: nat

    constructor (files: Files, faults: seq<Fault>)
      ensures this.files == files && this.faults == faults && leaks == 0 && temps == 0
    {
      this.files, this.faults, leaks, temps := files, faults, 0, 0;
    }

    method Next() returns (f: Fault)
      modifies this`faults
      ensures f == (if old(faults) == [] then Go else old(faults)[0])
      ensures faults == if old(faults) == [] then [] else old(faults)[1..]
    {
      f := Go;
      if faults != [] {
        f, faults := faults[0], faults[1..];
      }
    }

    /** os.CreateTemp: a new file, mode 0600. */
    method CreateTemp(tmp: string) returns (e: Exit)
      requires tmp !in files
      modifies this`files, this`faults, this`temps
      ensures files == if e.Ok? then old(files)[tmp := File("", 0x180, 0, 0)] else old(files)
      ensures old(faults) == [] ==> e.Ok? && faults == []
    {
      temps := temps + 1;
      var f := Next();
      match f {
        case Go => files := files[tmp := File("", 0x180, 0, 0)]; e := Ok;
        case Fails(_) => e := Error;
        case Kill(_) => e := Killed;
      }
    }

    method Write(tmp: string, data: string) returns (e: Exit)
      requires tmp in files
      modifies this`files, this`faults
      ensures exists t :: files == old(files)[tmp := old(files)[tmp].(text := t)] && (e.Ok? ==> t == data)
      ensures old(faults) == [] ==> e.Ok? && faults == []
    {
      var f := Next();
      var t := data;
      match f {
        case Go => e := Ok;
        case Fails(n) => e := Error; t := Part(data, n);
        case Kill(n) => e := Killed; t := Part(data, n);
      }
      files := files[tmp := files[tmp].(text := t)];
    }

    /** chmod, and chown of an open file or a path. */
    method SetRecord(path: string, record: File) returns (e: Exit)
      requires path in files
      modifies this`files, this`faults
      ensures files == if e.Ok? then old(files)[path := record] else old(files)
      ensures old(faults) == [] ==> e.Ok? && faults == []
    {
      e := Plain();
      if e.Ok? {
        files := files[path := record];
      }
    }

    /** sync, close, stat and reading, which change no record. */
    method Plain() returns (e: Exit)
      modifies this`faults
      ensures e.Ok? <==> old(faults) == [] || old(faults)[0].Go?
      ensures faults == if old(faults) == [] then [] else old(faults)[1..]
    {
      var f := Next();
      e := match f case Go => Ok case Fails(_) => Error case Kill(_) => Killed;
    }

    method Rename(tmp: string, path: string) returns (e: Exit)
      requires tmp in files && tmp != path
      modifies this`files, this`faults
      ensures files == if e.Ok? then (old(files) - {tmp})[path := old(files)[tmp]] else old(files)
      ensures old(faults) == [] ==> e.Ok? && faults == []
    {
      e := Plain();
      if e.Ok? {
        files := (files - {tmp})[path := files[tmp]];
      }
    }

    /** The best-effort removal on the way out: a crash can still come before it, and it can fail. */
    method Remove(tmp: string) returns (killed: bool)
      modifies this
      ensures files == old(files) || (!killed && files == old(files) - {tmp})
      ensures leaks == if !killed && tmp in files then old(leaks) + 1 else old(leaks)
      ensures old(faults) == [] ==> !killed && tmp !in files && faults == []
    {
      var f := Next();
      killed := f.Kill?;
      if f.Go? {
        files := files - {tmp};
      } else if f.Fails? && tmp in files {
        leaks := leaks + 1;
      }
    }

    /** The steps before the rename: on nil the temporary file is complete. */
    method FillTemp(tmp: string, data: string, mode: Mode) returns (e: Exit)
      requires tmp !in files
      modifies this`files, this`faults, this`temps
      ensures OnlyTemp(old(files), files, tmp)
      ensures e.Ok? ==> files == old(files)[tmp := File(data, mode, 0, 0)]
      ensures old(faults) == [] ==> e.Ok? && faults == []
    {
      e := CreateTemp(tmp);
      if e.Ok? {
        e := Write(tmp, data);
      }
      if e.Ok? {
        e := SetRecord(tmp, files[tmp].(mode := mode));
      }
    }

    /** os.Remove, deferred or called on the way out, on every exit but a crash. */
    method Cleanup(e: Exit, tmp: string) returns (e': Exit)
      modifies this
      ensures files == old(files) || (!e'.Killed? && files == old(files) - {tmp})
      ensures e'.Killed? || (e' == e && leaks == if tmp in files then old(leaks) + 1 else old(leaks))
      ensures e.Killed? ==> e'.Killed?
      ensures old(faults) == [] ==> e' == e && faults == [] && (e.Killed? || tmp !in files)
    {
      e' := e;
      if !e.Killed? {
        var killed := Remove(tmp);
        if killed {
          e' := Killed;
        }
      }
    }

    /** atomicWrite on Linux. */
    method AtomicWriteLinux(path: string, data: string, mode: Mode, tmp: string) returns (e: Exit)
      requires tmp !in files && tmp != path
      modifies this
      ensures e.Ok? ==> files == old(files)[path := File(data, mode, 0, 0)]
      ensures e.Error? ==> files == old(files) || (OnlyTemp(old(files), files, tmp) && leaks == old(leaks) + 1)
      ensures OldOrNew(old(files), files, path, File(data, mode, 0, 0), tmp)
      ensures old(faults) == [] ==> e.Ok? && faults == []
    {
      e := FillTemp(tmp, data, mode);
      if e.Ok? {
        e := Plain();  // sync
      }
      if e.Ok? {
        e := Plain();  // close
      }
      if e.Ok? {
        e := Rename(tmp, path);
      }
      NoTempLeft(old(files), files, tmp);
      e := Cleanup(e, tmp);
    }

    /** The diff on Linux and NetBSD: a file that cannot be read is an error, unless it is missing,
        and one that cannot be examined is taken to differ. */
    method Diff(path: string, w: Wanted) returns (e: Exit, same: bool)
      modifies this`faults
      ensures same ==> e.Ok? && InPlace(files, path, w)
      ensures old(faults) == [] ==> e.Ok? && faults == [] && same == InPlace(files, path, w)
    {
      same := false;
      e := Plain();  // read
      if e.Ok? && path in files {
        var stat := Plain();
        if stat.Killed? {
          return Killed, false;
        }
        same := stat.Ok? && InPlace(files, path, w);
      }
    }

    /** The diff on OpenBSD and FreeBSD: any failure but a missing file is an error. */
    method FileMatches(path: string, w: Wanted) returns (e: Exit, same: bool)
      modifies this`faults
      ensures same ==> e.Ok? && InPlace(files, path, w)
      ensures old(faults) == [] ==> e.Ok? && faults == [] && same == InPlace(files, path, w)
    {
      same := false;
      e := Plain();  // stat
      if !e.Ok? || path !in files || files[path].mode != w.mode {
        return;
      }
      e := Plain();  // read
      same := e.Ok? && InPlace(files, path, w);
    }

    /** WriteFile on Linux, its arguments resolved: diff, atomic write, then chown. */
    method WriteFileLinux(path: string, w: Wanted, tmp: string) returns (e: Exit)
      requires tmp !in files && tmp != path
      modifies this
      ensures e.Ok? ==> files == old(files)[path := Target(w)]
      ensures e.Error? ==> tmp !in files || leaks == old(leaks) + 1
      ensures !e.Ok? ==> Interrupted(old(files), files, path, w, tmp)
      ensures old(faults) == [] && InPlace(old(files), path, w) ==> unchanged(this)
      ensures old(faults) == [] ==> e.Ok?
    {
      var same;
      e, same := Diff(path, w);
      if !e.Ok? {
        return;
      }
      if same {
        InPlaceIsTarget(files, path, w);
        return;
      }
      e := AtomicWriteLinux(path, w.text, w.mode, tmp);
      if e.Ok? {
        e := SetRecord(path, Target(w));
      }
    }

    /** atomicWrite on NetBSD: chown comes before the rename, so the new record is whole. */
    method AtomicWriteNetBsd(path: string, w: Wanted, tmp: string) returns (e: Exit)
      requires tmp !in files && tmp != path
      modifies this
      ensures e.Ok? ==> files == old(files)[path := Owned(w)]
      ensures e.Error? ==> files == old(files) || (OnlyTemp(old(files), files, tmp) && leaks == old(leaks) + 1)
      ensures OldOrNew(old(files), files, path, Owned(w), tmp)
      ensures e.Ok? && path in old(files) && (w.uid < 0 || w.gid < 0) ==>
                (SameOwner(old(files)[path], files[path]) <==> old(files)[path].uid == 0 && old(files)[path].gid == 0)
      ensures old(faults) == [] ==> e.Ok?
    {
      var cleanup := true;
      e := FillTemp(tmp, w.text, w.mode);
      if e.Ok? && w.uid >= 0 && w.gid >= 0 {
        e := SetRecord(tmp, Target(w));
      }
      if e.Ok? {
        e := Plain();  // sync
      }
      if e.Ok? {
        e := Plain();  // close
      }
      if e.Ok? {
        e := Rename(tmp, path);
        cleanup := !e.Ok?;
      }
      NoTempLeft(old(files), files, tmp);
      if cleanup {
        e := Cleanup(e, tmp);
      }
    }

    /** WriteFile on NetBSD, its arguments resolved. */
    method WriteFileNetBsd(path: string, w: Wanted, tmp: string) returns (e: Exit)
      requires tmp !in files && tmp != path && w.uid >= 0 && w.gid >= 0
      modifies this
      ensures e.Ok? ==> files == old(files)[path := Target(w)]
      ensures e.Error? ==> files == old(files) || (OnlyTemp(old(files), files, tmp) && leaks == old(leaks) + 1)
      ensures OldOrNew(old(files), files, path, Target(w), tmp)
      ensures old(faults) == [] && InPlace(old(files), path, w) ==> unchanged(this)
      ensures old(faults) == [] ==> e.Ok?
    {
      var same;
      e, same := Diff(path, w);
      if !e.Ok? {
        return;
      }
      if same {
        InPlaceIsTarget(files, path, w);
        return;
      }
      e := AtomicWriteNetBsd(path, w, tmp);
    }

    /** WriteFile on OpenBSD and FreeBSD, its arguments resolved: the temporary file is chowned
        once it is closed, and removed by hand on each failure. */
    method WriteFileOpenBsd(path: string, w: Wanted, tmp: string) returns (e: Exit)
      requires tmp !in files && tmp != path
      modifies this
      ensures e.Ok? ==> files == old(files)[path := Target(w)]
      ensures e.Error? ==> files == old(files) || (OnlyTemp(old(files), files, tmp) && leaks == old(leaks) + 1)
      ensures OldOrNew(old(files), files, path, Target(w), tmp)
      ensures old(faults) == [] && InPlace(old(files), path, w) ==> unchanged(this)
      ensures old(faults) == [] ==> e.Ok?
    {
      var same;
      e, same := FileMatches(path, w);
      if !e.Ok? {
        return;
      }
      if same {
        InPlaceIsTarget(files, path, w);
        return;
      }
      e := FillTemp(tmp, w.text, w.mode);
      if e.Ok? {
        e := Plain();  // close
      }
      if e.Ok? {
        e := SetRecord(tmp, Target(w));
      }
      if e.Ok? {
        e := Rename(tmp, path);
      }
      NoTempLeft(old(files), files, tmp);
      if !e.Ok? {
        e := Cleanup(e, tmp);
      }
    }

    /** A Linux drop that is tried again, with a new temporary name, until it returns nil or nobody
        tries any more: the first one that does gives the path its content, mode and owner, and
        until then it holds its old record or the new content and mode; no other file but the
        temporary ones changes. */
    method DropUntilDone(path: string, w: Wanted, tmps: seq<string>) returns (e: Exit)
      requires path !in tmps && forall i | 0 <= i < |tmps| :: tmps[i] !in files && tmps[i] !in tmps[..i]
      modifies this
      ensures e.Ok? ==> path in files && files[path] == Target(w)
      ensures !e.Ok? ==> SameAt(old(files), files, path) || (path in files && files[path] == Fresh(w))
      ensures forall p | p != path && p !in tmps :: SameAt(old(files), files, p)
      ensures old(faults) == [] && tmps != [] ==> e.Ok?
    {
      e := Error;
      ghost var states := [files];
      for i := 0 to |tmps|
        invariant !e.Ok? && (old(faults) == [] ==> i == 0 && faults == [])
        invariant |states| == i + 1 && states[0] == old(files) && states[i] == files
        invariant Attempts(states, path, w, tmps[..i])
        invariant forall j | i <= j < |tmps| :: tmps[j] !in files
      {
        AttemptsLeave(states, path, w, tmps[..i]);
        e := WriteFileLinux(path, w, tmps[i]);
        if e.Ok? {
          assert forall p :: p in tmps[..i] ==> p in tmps;
          return;
        }
        forall j | i < j < |tmps| ensures tmps[j] !in files {
          assert tmps[i] in tmps[..j] && tmps[j] != path;
          InterruptedAt(states[i], files, path, w, tmps[i], tmps[j]);
        }
        AttemptsSnoc(states, path, w, tmps, i, files);
        states := states + [files];
      }
      assert tmps[..|tmps|] == tmps;
      AttemptsLeave(states, path, w, tmps);
    }

    // ---- key files -----------------------------------------------------------------------

    /** AddAuthorizedKey on Linux, the account resolved: whatever fails or kills it, no line of the
        file is lost. */
    method AddKeyLinux(path: string, key: string, uid: Id, gid: Id, tmp: string) returns (e: Exit)
      requires tmp !in files && tmp != path
      modifies this
      ensures forall t | HasLine(Split(TextAt(old(files), path), '\n'), t) ::
                HasLine(Split(TextAt(files, path), '\n'), t)
      ensures var text := TextAt(old(files), path);
              var missing := !HasLine(Split(text, '\n'), TrimSpace(key));
              && (e.Ok? && missing ==> files == old(files)[path := File(LinuxAdd(text, key), 0x180, uid, gid)])
              && (e.Ok? && !missing ==> files == old(files))
              && (!e.Ok? ==> OnlyTemp(old(files), files, tmp)
                             || (missing && files == old(files)[path := File(LinuxAdd(text, key), 0x180, 0, 0)]))
      ensures old(faults) == [] ==> e.Ok?
    {
      e := Plain();  // read
      if !e.Ok? {
        return;
      }
      var existing := TextAt(files, path);
      LinuxAddKeepsAll(existing, key);
      var buf, present := LinuxAddKey(existing, key);
      if present {
        return;
      }
      e := AtomicWriteLinux(path, buf, 0x180, tmp);
      OldOrNewText(old(files), files, path, File(buf, 0x180, 0, 0), tmp);
      if e.Ok? {
        e := SetRecord(path, File(buf, 0x180, uid, gid));
      }
    }

    /** os.WriteFile: opening truncates the file, and only then is it written. */
    method WriteInPlace(path: string, data: string) returns (e: Exit)
      modifies this`files, this`faults
      ensures e.Ok? ==> path in files
      ensures files - {path} == old(files) - {path}
      ensures TextAt(files, path) == TextAt(old(files), path) || TextAt(files, path) <= data
      ensures e.Ok? ==> TextAt(files, path) == data
      ensures old(faults) == [Go, Kill(0)] ==> e.Killed? && TextAt(files, path) == "" && faults == []
      ensures old(faults) == [] ==> e.Ok? && faults == []
    {
      e := Plain();  // open
      if e.Ok? {
        files := files[path := if path in files then files[path].(text := "") else File("", 0x180, 0, 0)];
        var f := Next();
        var t := match f case Go => data case Fails(n) => Part(data, n) case Kill(n) => Part(data, n);
        files := files[path := files[path].(text := t)];
        e := match f case Go => Ok case Fails(_) => Error case Kill(_) => Killed;
      }
    }

    /** AddAuthorizedKey on OpenBSD, the account resolved: the file is written in place, so that it
        may be left with any beginning of the new text, and killed right after the truncation, with
        nothing. */
    method AddKeyOpenBsd(path: string, key: string, uid: Id, gid: Id) returns (e: Exit)
      modifies this`files, this`faults
      ensures files - {path} == old(files) - {path}
      ensures var text := TextAt(old(files), path);
              && (TextAt(files, path) == text || TextAt(files, path) <= LinuxAdd(text, key))
              && (e.Ok? ==> TextAt(files, path) == LinuxAdd(text, key))
              && (old(faults) == [Go, Go, Kill(0)] && LinuxAdd(text, key) != text ==>
                    TextAt(files, path) == "" && faults == [])
      ensures old(faults) == [] ==> e.Ok? && faults == []
    {
      e := Plain();  // read
      if !e.Ok? {
        return;
      }
      var existing := TextAt(files, path);
      var buf := OpenBsdAddKey(existing, key);
      if buf == existing {
        return;  // the key was there
      }
      e := WriteInPlace(path, buf);
      if e.Ok? {
        e := SetRecord(path, files[path].(mode := 0x180));
      }
      if e.Ok? {
        e := SetRecord(path, files[path].(uid := uid, gid := gid));
      }
    }

    /** The loop over the keys of one account, on OpenBSD. */
    method AddKeysOpenBsd(path: string, keys: seq<string>, uid: Id, gid: Id) returns (e: Exit)
      modifies this`files, this`faults
      ensures files - {path} == old(files) - {path}
      ensures e.Ok? ==> TextAt(files, path) == LinuxAddAll(TextAt(old(files), path), keys)
      ensures old(faults) == [] ==> e.Ok?
    {
      e := Ok;
      for i := 0 to |keys|
        invariant e.Ok? && files - {path} == old(files) - {path} && (old(faults) == [] ==> faults == [])
        invariant TextAt(files, path) == LinuxAddAll(TextAt(old(files), path), keys[..i])
      {
        LinuxAddAllSplits(TextAt(old(files), path), keys[..i + 1], i);
        assert keys[..i + 1][..i] == keys[..i] && keys[..i + 1][i..] == [keys[i]] && [keys[i]][1..] == [];
        e := AddKeyOpenBsd(path, keys[i], uid, gid);
        if !e.Ok? {
          return;
        }
      }
      assert keys[..|keys|] == keys;
    }

    /** One run killed right after the truncation, and one that is left alone: of the non-blank lines
        only the keys are in the file. */
    method LoseKeysOpenBsd(path: string, keys: seq<string>, uid: Id, gid: Id)
      requires faults == [Go, Go, Kill(0)] && keys != [] && forall k | k in keys :: '\n' !in TrimSpace(k)
      requires LinuxAdd(TextAt(files, path), keys[0]) != TextAt(files, path)
      modifies this`files, this`faults
      ensures forall t :: Listed(TextAt(files, path), t) <==> t == "" || IsKey(keys, t)
    {
      var e := AddKeyOpenBsd(path, keys[0], uid, gid);
      e := AddKeysOpenBsd(path, keys, uid, gid);
      forall t ensures Listed(TextAt(files, path), t) <==> t == "" || IsKey(keys, t) {
        TruncatedFileLosesKeys(keys, t);
      }
    }

    /** The same on FreeBSD, which trims the key in its own way. */
    method AddKeyFreeBsd(path: string, key: string, uid: Id, gid: Id) returns (e: Exit)
      modifies this`files, this`faults
      ensures files - {path} == old(files) - {path}
      ensures var text := TextAt(old(files), path);
              && (TextAt(files, path) == text || TextAt(files, path) <= FreeBsdAdd(text, key))
              && (e.Ok? ==> TextAt(files, path) == FreeBsdAdd(text, key))
              && (old(faults) == [Go, Go, Kill(0)] && FreeBsdAdd(text, key) != text ==>
                    TextAt(files, path) == "" && faults == [])
      ensures old(faults) == [] ==> e.Ok? && faults == []
    {
      e := Plain();  // read
      if !e.Ok? {
        return;
      }
      var existing := TextAt(files, path);
      var buf := FreeBsdAddKey(existing, key);
      if buf == existing {
        return;  // the key was there
      }
      e := WriteInPlace(path, buf);
      if e.Ok? {
        e := SetRecord(path, files[path].(mode := 0x180));
      }
      if e.Ok? {
        e := SetRecord(path, files[path].(uid := uid, gid := gid));
      }
    }

    /** A write to a file opened with O_APPEND. */
    method Append(path: string, data: string) returns (e: Exit)
      modifies this`files, this`faults
      ensures e.Ok? ==> path in files
      ensures files - {path} == old(files) - {path}
      ensures TextAt(old(files), path) <= TextAt(files, path) <= TextAt(old(files), path) + data
      ensures e.Ok? ==> TextAt(files, path) == TextAt(old(files), path) + data
      ensures forall n | old(faults) == [Go, Kill(n)] :: TextAt(files, path) == TextAt(old(files), path) + Part(data, n)
      ensures old(faults) == [] ==> e.Ok? && faults == []
    {
      e := Plain();  // open
      if e.Ok? {
        var existing := TextAt(files, path);
        var f := Next();
        var t := match f case Go => data case Fails(n) => Part(data, n) case Kill(n) => Part(data, n);
        files := files[path := if path in files then files[path].(text := existing + t) else File(t, 0x180, 0, 0)];
        e := match f case Go => Ok case Fails(_) => Error case Kill(_) => Killed;
      }
    }

    /** AddAuthorizedKey on NetBSD, the account resolved: the key is written at the end of the file, so
        that a crash leaves all the file had, and may leave the beginning of the key after it. */
    method AddKeyNetBsd(path: string, key: string, uid: Id, gid: Id) returns (e: Exit)
      modifies this`files, this`faults
      ensures files - {path} == old(files) - {path}
      ensures var text, after := TextAt(old(files), path), TextAt(files, path);
              && text <= after <= NetBsdAdd(text, key)
              && (e.Ok? ==> after == NetBsdAdd(text, key))
              && forall n | old(faults) == [Go, Go, Kill(n)] && NetBsdAdd(text, key) != text ::
                   after == text + Part(TrimSpace(key) + "\n", n)
      ensures old(faults) == [] ==> e.Ok?
    {
      e := Plain();  // read
      if !e.Ok? {
        return;
      }
      var existing := TextAt(files, path);
      var file := NetBsdAddKey(existing, key);
      if file == existing {
        return;  // the key was there
      }
      e := Append(path, TrimSpace(key) + "\n");
      if e.Ok? {
        e := SetRecord(path, files[path].(mode := 0x180));
      }
      if e.Ok? {
        e := SetRecord(path, files[path].(uid := uid, gid := gid));
      }
    }
  }

  lemma LinuxAddKeepsAll(text: string, key: string)
    ensures forall t | HasLine(Split(text, '\n'), t) :: HasLine(Split(LinuxAdd(text, key), '\n'), t)
  {
    forall t | HasLine(Split(text, '\n'), t) ensures HasLine(Split(LinuxAdd(text, key), '\n'), t) {
      AddLineKeeps(text, TrimSpace(key), t);
    }
  }

  lemma OldOrNewText(before: Files, after: Files, path: string, record: File, tmp: string)
    requires OldOrNew(before, after, path, record, tmp) && tmp != path
    ensures TextAt(after, path) == TextAt(before, path) || TextAt(after, path) == record.text
  {
    if OnlyTemp(before, after, tmp) {
      assert path in before <==> path in before - {tmp};
      assert path in after <==> path in after - {tmp};
      assert path in before ==> (before - {tmp})[path] == before[path] && (after - {tmp})[path] == after[path];
    }
  }

  /** What a truncated key file costs. The runs that follow add their keys to nothing, and every line
      but those keys is gone. */
  lemma TruncatedFileLosesKeys(keys: seq<string>, t: string)
    requires forall k | k in keys :: '\n' !in TrimSpace(k)
    ensures Listed(LinuxAddAll("", keys), t) <==> t == "" || IsKey(keys, t)
  {
    assert Split("", '\n') == [""];
    TrimmedStays("");
    assert "" in Split("", '\n');
    LinuxAddAllLists("", keys, t);
  }

  /** So no line is lost exactly when each that is not blank is one of the keys; an append that is
      not cut short loses none. */
  lemma NoKeyLostIff(text: string, keys: seq<string>)
    requires forall k | k in keys :: '\n' !in TrimSpace(k)
    ensures (forall t | Listed(text, t) :: Listed(LinuxAddAll("", keys), t))
            <==> forall t | Listed(text, t) && t != "" :: IsKey(keys, t)
    ensures forall t | Listed(text, t) :: Listed(LinuxAddAll(text, keys), t)
  {
    forall t ensures Listed(LinuxAddAll("", keys), t) <==> t == "" || IsKey(keys, t) {
      TruncatedFileLosesKeys(keys, t);
    }
    forall t | Listed(text, t) ensures Listed(LinuxAddAll(text, keys), t) {
      LinuxAddAllLists(text, keys, t);
    }
  }

  lemma NoTempLeft(before: Files, after: Files, tmp: string)
    requires tmp !in before
    ensures before - {tmp} == before
    ensures OnlyTemp(before, after, tmp) ==> after - {tmp} == before
  {
  }

  lemma InPlaceIsTarget(files: Files, path: string, w: Wanted)
    requires InPlace(files, path, w)
    ensures files[path := Target(w)] == files
  {
    assert files[path := files[path]] == files;
  }

  // ---- recovery ------------------------------------------------------------------------

  /** Attempts at one drop, each interrupted, each with a new temporary name. */
  predicate Attempts(states: seq<Files>, path: string, w: Wanted, tmps: seq<string>) {
    |states| == |tmps| + 1 &&
    forall i | 0 <= i < |tmps| ::
      tmps[i] !in states[i] && tmps[i] != path && Interrupted(states[i], states[i + 1], path, w, tmps[i])
  }

  /** After any number of interrupted attempts the target still holds the old record or the new
      content and mode, and no other file but the temporary ones has changed. */
  lemma {:induction false} AttemptsLeave(states: seq<Files>, path: string, w: Wanted, tmps: seq<string>)
    requires Attempts(states, path, w, tmps)
    ensures var a, b := states[0], states[|tmps|];
            && (forall p | p != path && p !in tmps :: SameAt(a, b, p))
            && (SameAt(a, b, path) || (path in b && b[path] == Fresh(w)))
    decreases tmps
  {
    if tmps != [] {
      var n := |tmps| - 1;
      AttemptsLeave(states[..n + 1], path, w, tmps[..n]);
      var a, b, c := states[0], states[n], states[n + 1];
      forall p | p != path && p !in tmps ensures SameAt(a, c, p) {
        assert tmps[n] in tmps && p !in tmps[..n];
        InterruptedAt(b, c, path, w, tmps[n], p);
      }
      InterruptedAt(b, c, path, w, tmps[n], path);
    }
  }

  lemma InterruptedAt(b: Files, c: Files, path: string, w: Wanted, tmp: string, p: string)
    requires Interrupted(b, c, path, w, tmp) && p != tmp
    ensures SameAt(b, c, p) || (p == path && path in c && c[path] == Fresh(w))
  {
    if OnlyTemp(b, c, tmp) {
      assert p in b <==> p in b - {tmp};
      assert p in c <==> p in c - {tmp};
      assert p in b ==> (b - {tmp})[p] == b[p];
      assert p in c ==> (c - {tmp})[p] == c[p];
    }
  }

  lemma AttemptsSnoc(states: seq<Files>, path: string, w: Wanted, tmps: seq<string>, i: nat, after: Files)
    requires i < |tmps| && Attempts(states, path, w, tmps[..i])
    requires tmps[i] !in states[i] && tmps[i] != path && Interrupted(states[i], after, path, w, tmps[i])
    ensures Attempts(states + [after], path, w, tmps[..i + 1])
  {
  }

  /** WriteFile with a diff that compares content and mode but not the owner. */
  function WriteFileNoOwnerTest(files: Files, path: string, w: Wanted): Files {
    if path in files && files[path].text == w.text && files[path].mode == w.mode
    then files else files[path := Target(w)]
  }

  /** Without the owner test, a run killed between rename and chown is never repaired, unless
      there was nothing to chown. */
  lemma OwnerTestIsNeeded(files: Files, path: string, w: Wanted)
    ensures WriteFileNoOwnerTest(files[path := Fresh(w)], path, w)[path] == Target(w) <==> Target(w) == Fresh(w)
    ensures Interrupted(files, files[path := Fresh(w)], path, w, path + "'")
  {
  }

  /** A drop that returns nil is the single step Apply counts it as. */
  lemma DropIsOneStep(db: Accounts, h: Host, f: FileSpec, after: Files)
    requires Resolve(db, h, f).Some?
    requires after == h.files[f.path := Target(Resolve(db, h, f).value)]
    ensures h.(files := after) == Do(db, h, Drop(f))
  {
    WriteFileLands(h, f.path, Resolve(db, h, f).value);
  }

  /** An interrupted drop, its temporary file aside, is no step at all or a torn one. */
  lemma InterruptedIsTorn(db: Accounts, h: Host, f: FileSpec, after: Files, tmp: string)
    requires Resolve(db, h, f).Some? && !InPlace(h.files, f.path, Resolve(db, h, f).value)
    requires tmp !in h.files && tmp != f.path
    requires Interrupted(h.files, after, f.path, Resolve(db, h, f).value, tmp)
    ensures var x := h.(files := after - {tmp}); x == h || x == Torn(db, h, Drop(f), {})
  {
    var w := Resolve(db, h, f).value;
    NoTempLeft(h.files, after, tmp);
    if !OnlyTemp(h.files, after, tmp) {
      NoTempLeft(h.files[f.path := Fresh(w)], after, tmp);
    }
  }

  /** An interrupted key step, its temporary file aside, is no step at all or a torn one. */
  lemma InterruptedKeyIsTorn(db: Accounts, h: Host, name: string, key: string, after: Files, tmp: string)
    requires tmp !in h.files && tmp != KeyFile(db, name) && name in h.users
    requires var path := KeyFile(db, name);
             OnlyTemp(h.files, after, tmp)
             || (KeyMissing(db, h, name, key)
                 && after == h.files[path := File(LinuxAdd(TextAt(h.files, path), key), 0x180, 0, 0)])
    ensures var x := h.(files := after - {tmp}); x == h || x == Torn(db, h, AddKey(name, key), {})
  {
    var path := KeyFile(db, name);
    NoTempLeft(h.files, after, tmp);
    if !OnlyTemp(h.files, after, tmp) {
      NoTempLeft(h.files[path := File(LinuxAdd(TextAt(h.files, path), key), 0x180, 0, 0)], after, tmp);
    }
  }
}
