/** Locating user-data: direct reads of the candidate devices, the BSD mount fallback, HTTP. */
module Discovery {
  import opened Text
  import opened Host

  datatype Result = Found(raw: string, config: Config) | NotFound | HardError

  /** A mounted file system: whether it shows user-data, and what reading it gives. */
  datatype Volume = Volume(shows: bool, userData: Option<string>)

  /** What was tried, in order. */
  datatype Event = Direct(dev: string) | Mount(dev: string, fstype: string) | Http

  const FSTYPES: seq<string> := ["cd9660", "msdos"]

  /** Parse as a result: a payload that does not parse is a hard error. */
  function Parsed(parse: string -> Option<Config>, raw: string): Result {
    match parse(raw)
    case Some(c) => Found(raw, c)
    case None => HardError
  }

  /** The outside world: it does not change while user-data is looked for. */
  datatype World = World(
    devices: seq<string>,
    read: string -> Option<string>,                // readCidataFile, any failure being None
    present: string -> bool,                       // os.Stat on the device
    mount: (string, string) -> Option<Volume>,     // the mount command, None when it fails
    tempDir: bool,                                 // os.MkdirTemp succeeds
    parse: string -> Option<Config>,
    overrideHttp: string -> Result,
    gatewayHttp: Result)

  // ---- where user-data comes from ------------------------------------------------------

  /** Device i is the first that yields user-data. */
  predicate FirstReadable(w: World, i: nat) {
    i < |w.devices| && w.read(w.devices[i]).Some? && forall j | 0 <= j < i :: w.read(w.devices[j]).None?
  }

  predicate NoneReadable(w: World) {
    forall d | d in w.devices :: w.read(d).None?
  }

  function Reads(devs: seq<string>): (r: seq<Event>)
    ensures |r| == |devs| && forall i | 0 <= i < |devs| :: r[i] == Direct(devs[i])
  {
    seq(|devs|, i requires 0 <= i < |devs| => Direct(devs[i]))
  }

  /** The file system of device i as type k shows user-data. */
  predicate Shows(w: World, i: int, k: int)
    requires 0 <= i < |w.devices| && 0 <= k < 2
  {
    var d := w.devices[i];
    w.present(d) && w.mount(d, FSTYPES[k]).Some? && w.mount(d, FSTYPES[k]).value.shows
  }

  /** (i, k) is the first pair, devices outermost, whose file system shows user-data. */
  predicate FirstShown(w: World, i: nat, k: nat) {
    i < |w.devices| && k < 2 && Shows(w, i, k) &&
    forall j, l | 0 <= j <= i && 0 <= l < 2 && (j < i || l < k) :: !Shows(w, j, l)
  }

  predicate NoneShown(w: World) {
    forall i, k | 0 <= i < |w.devices| && 0 <= k < 2 :: !Shows(w, i, k)
  }

  predicate OnlyMounts(es: seq<Event>) {
    forall e | e in es :: e.Mount?
  }

  /** What the mount fallback returns. */
  ghost predicate MountResult(w: World, r: Result) {
    if !w.tempDir || NoneShown(w) then r == NotFound
    else exists i: nat, k: nat :: FirstShown(w, i, k) &&
           var v := w.mount(w.devices[i], FSTYPES[k]).value;
           r == if v.userData.Some? then Parsed(w.parse, v.userData.value) else NotFound
  }

  /** What an unmount does to the mount table, n being 1 if it failed. */
  predicate Unmounted(before: seq<Volume>, after: seq<Volume>, n: int) {
    if before == [] then after == [] && n == 0
    else (n == 1 && after == before) || (n == 0 && after == before[..|before| - 1])
  }

  class Prober {
    const w: World
    var trace: seq<Event>
    /** File systems mounted on the temporary directory, innermost last; the most there were. */
    var table: seq<Volume>
    ghost var peak: nat
    /** Whether the temporary directory exists. */
    var dir: bool
    /** Which of the next unmounts will fail, none once it is used up; how many did. */
    var stuck: seq<bool>
    var failed: nat

    constructor (w: World, stuck: seq<bool>)
      ensures this.w == w && this.stuck == stuck
      ensures trace == [] && table == [] && peak == 0 && !dir && failed == 0
    {
      this.w, this.stuck := w, stuck;
      trace, table, peak, dir, failed := [], [], 0, false, 0;
    }

    method FromDiskDirect() returns (r: Result)
      modifies this`trace
      ensures NoneReadable(w) ==> r == NotFound && trace == old(trace) + Reads(w.devices)
      ensures !NoneReadable(w) ==>
                exists i: nat :: FirstReadable(w, i) && r == Parsed(w.parse, w.read(w.devices[i]).value)
                                 && trace == old(trace) + Reads(w.devices[..i + 1])
    {
      for i := 0 to |w.devices|
        invariant trace == old(trace) + Reads(w.devices[..i])
        invariant forall j | 0 <= j < i :: w.read(w.devices[j]).None?
      {
        var dev := w.devices[i];
        trace := trace + [Direct(dev)];
        assert Reads(w.devices[..i + 1]) == Reads(w.devices[..i]) + [Direct(dev)];
        var raw := w.read(dev);
        if raw.None? {
          continue;
        }
        assert FirstReadable(w, i) && dev in w.devices;
        return Parsed(w.parse, raw.value);
      }
      assert w.devices[..|w.devices|] == w.devices;
      return NotFound;
    }

    // ---- the mount table -----------------------------------------------------------------

    /** At most one file system was mounted at once and none is left, but for n failed unmounts. */
    ghost predicate Balanced(before: nat, n: int)
      reads this
    {
      |table| <= n && dir == (table != []) && (peak <= before || peak <= n + 1)
    }

    method MountOn(dev: string, fstype: string) returns (ok: bool)
      requires dir
      modifies this`trace, this`table, this`peak
      ensures trace == old(trace) + [Mount(dev, fstype)]
      ensures ok <==> w.mount(dev, fstype).Some?
      ensures table == if ok then old(table) + [w.mount(dev, fstype).value] else old(table)
      ensures peak == if |table| > old(peak) then |table| else old(peak)
    {
      trace := trace + [Mount(dev, fstype)];
      var v := w.mount(dev, fstype);
      ok := v.Some?;
      if ok {
        table := table + [v.value];
      }
      if |table| > peak {
        peak := |table|;
      }
    }

    /** umount takes the innermost file system off, or fails, which nobody looks at. */
    method Umount()
      modifies this`table, this`stuck, this`failed
      ensures Unmounted(old(table), table, failed - old(failed))
      ensures old(stuck) == [] ==> stuck == [] && failed == old(failed)
    {
      var fails := stuck != [] && stuck[0];
      if stuck != [] {
        stuck := stuck[1..];
      }
      if table != [] && fails {
        failed := failed + 1;
      } else if table != [] {
        table := table[..|table| - 1];
      }
    }

    /** umount, then remove the directory, which stays while something is mounted on it. */
    method Cleanup()
      modifies this`table, this`dir, this`stuck, this`failed
      ensures Unmounted(old(table), table, failed - old(failed))
      ensures dir == (old(dir) && table != [])
      ensures old(stuck) == [] ==> stuck == [] && failed == old(failed)
    {
      Umount();
      dir := dir && table != [];
    }

    /** On success the first file system that shows user-data is on top of the directory, over one
        for each failed unmount, and the caller must clean up; on failure everything is as before,
        unless unmounts failed. */
    method BsdMountCidata() returns (ok: bool)
      requires table == [] && !dir
      modifies this`trace, this`table, this`peak, this`dir, this`stuck, this`failed
      ensures exists es :: OnlyMounts(es) && trace == old(trace) + es
      ensures ok ==> w.tempDir && dir && 1 <= |table| <= failed - old(failed) + 1
                     && exists i: nat, k: nat :: FirstShown(w, i, k)
                                                 && table[|table| - 1] == w.mount(w.devices[i], FSTYPES[k]).value
      ensures !ok ==> |table| <= failed - old(failed) && dir == (table != []) && (!w.tempDir || NoneShown(w))
      ensures peak <= old(peak) || peak <= failed - old(failed) + 1
      ensures old(stuck) == [] ==> stuck == [] && failed == old(failed)
    {
      ghost var es: seq<Event> := [];
      assert trace == old(trace) + es;
      if !w.tempDir {
        return false;
      }
      dir := true;
      for i := 0 to |w.devices|
        invariant dir && |table| <= failed - old(failed) && OnlyMounts(es) && trace == old(trace) + es
        invariant peak <= old(peak) || peak <= failed - old(failed) + 1
        invariant old(stuck) == [] ==> stuck == [] && failed == old(failed)
        invariant forall j, l | 0 <= j < i && 0 <= l < 2 :: !Shows(w, j, l)
      {
        var dev := w.devices[i];
        if !w.present(dev) {
          continue;
        }
        for k := 0 to 2
          invariant dir && |table| <= failed - old(failed) && OnlyMounts(es) && trace == old(trace) + es
          invariant peak <= old(peak) || peak <= failed - old(failed) + 1
          invariant old(stuck) == [] ==> stuck == [] && failed == old(failed)
          invariant forall l | 0 <= l < k :: !Shows(w, i, l)
        {
          es := es + [Mount(dev, FSTYPES[k])];
          var mounted := MountOn(dev, FSTYPES[k]);
          if !mounted {
            continue;
          }
          if table[|table| - 1].shows {
            assert Shows(w, i, k);
            assert FirstShown(w, i, k);
            return true;
          }
          Umount();
        }
      }
      Cleanup();
      return false;
    }

    /** The fallback. Whatever it returns, no more file systems are left mounted than unmounts
        failed, and one more at most ever were; the directory is gone unless one is left. So when
        no unmount fails, nothing is left and at most one file system was ever mounted. */
    method FromDiskMount() returns (r: Result)
      requires table == [] && !dir
      modifies this`trace, this`table, this`peak, this`dir, this`stuck, this`failed
      ensures Balanced(old(peak), failed - old(failed)) && (old(stuck) == [] ==> failed == old(failed))
      ensures MountResult(w, r)
      ensures exists es :: OnlyMounts(es) && trace == old(trace) + es
    {
      var ok := BsdMountCidata();
      if !ok {
        return NotFound;
      }
      ghost var i: nat, k: nat :| FirstShown(w, i, k)
                                        && table[|table| - 1] == w.mount(w.devices[i], FSTYPES[k]).value;
      var raw := table[|table| - 1].userData;
      r := if raw.None? then NotFound else Parsed(w.parse, raw.value);
      assert Shows(w, i, k);
      Cleanup();  // deferred
    }

    /** fromDisk: the fallback runs only when no candidate was readable. */
    method FromDisk() returns (r: Result)
      requires table == [] && !dir
      modifies this`trace, this`table, this`peak, this`dir, this`stuck, this`failed
      ensures Balanced(old(peak), failed - old(failed)) && (old(stuck) == [] ==> failed == old(failed))
      ensures DiskOutcome(w, r, old(trace), trace)
    {
      r := FromDiskDirect();
      if !r.NotFound? {
        return;
      }
      assert NoneReadable(w);
      ghost var mid := trace;
      r := FromDiskMount();
    }

    method Discover(override: string) returns (r: Result)
      requires table == [] && !dir
      modifies this`trace, this`table, this`peak, this`dir, this`stuck, this`failed
      ensures Balanced(old(peak), failed - old(failed)) && (old(stuck) == [] ==> failed == old(failed))
      ensures override != "" ==> r == w.overrideHttp(override) && trace == old(trace) + [Http]
      ensures override == "" ==>
                exists d, mid :: DiskOutcome(w, d, old(trace), mid) &&
                                 if d.NotFound? then r == w.gatewayHttp && trace == mid + [Http]
                                 else r == d && trace == mid
    {
      if override != "" {
        trace := trace + [Http];
        return w.overrideHttp(override);
      }
      r := FromDisk();
      if !r.NotFound? {
        return;
      }
      trace := trace + [Http];
      r := w.gatewayHttp;
    }
  }

  /** The result of fromDisk with the events it took. */
  ghost predicate DiskOutcome(w: World, r: Result, before: seq<Event>, after: seq<Event>) {
    if NoneReadable(w) then
      MountResult(w, r) && exists es :: OnlyMounts(es) && after == before + Reads(w.devices) + es
    else
      exists i: nat :: FirstReadable(w, i) && r == Parsed(w.parse, w.read(w.devices[i]).value)
                       && after == before + Reads(w.devices[..i + 1])
  }

  // ---- what follows --------------------------------------------------------------------

  lemma FirstReadableIsUnique(w: World, i: nat, j: nat)
    requires FirstReadable(w, i) && FirstReadable(w, j)
    ensures i == j && !NoneReadable(w)
  {
    assert w.devices[i] in w.devices;
  }

  /** The first readable device decides: its payload is the result, or, when it does not parse,
      a hard error, and no later device, no mount and no HTTP probe is tried. */
  lemma FirstReadableDecides(w: World, r: Result, before: seq<Event>, after: seq<Event>, i: nat)
    requires DiskOutcome(w, r, before, after) && FirstReadable(w, i)
    ensures r == Parsed(w.parse, w.read(w.devices[i]).value) && !r.NotFound?
    ensures after == before + Reads(w.devices[..i + 1])
  {
    FirstReadableIsUnique(w, i, i);
    var j: nat :| FirstReadable(w, j) && r == Parsed(w.parse, w.read(w.devices[j]).value)
                  && after == before + Reads(w.devices[..j + 1]);
    FirstReadableIsUnique(w, i, j);
  }

  /** fromDisk reports not-found exactly when no device was readable and the fallback found none. */
  lemma DiskNotFoundIff(w: World, r: Result, before: seq<Event>, after: seq<Event>)
    requires DiskOutcome(w, r, before, after)
    ensures r.NotFound? <==> NoneReadable(w) && MountResult(w, NotFound)
  {
    if NoneReadable(w) {
      if w.tempDir && !NoneShown(w) && MountResult(w, NotFound) && MountResult(w, r) {
        FirstShownIsUnique(w);
      }
    }
  }

  lemma FirstShownIsUnique(w: World)
    ensures forall i: nat, k: nat, j: nat, l: nat :: FirstShown(w, i, k) && FirstShown(w, j, l) ==> i == j && k == l
  {
    forall i: nat, k: nat, j: nat, l: nat | FirstShown(w, i, k) && FirstShown(w, j, l) ensures i == j && k == l {
      assert Shows(w, i, k) && Shows(w, j, l);
    }
  }

  // ---- and in terms of what is on the devices ------------------------------------------

  /** A payload is the configuration it parses to, and a hard error if it parses to none. */
  predicate Delivers(w: World, raw: string, r: Result) {
    match w.parse(raw)
    case Some(c) => r == Found(raw, c)
    case None => r == HardError
  }

  /** The direct walk and the mount fallback deliver what they read. */
  lemma DirectDelivers(w: World, r: Result, before: seq<Event>, after: seq<Event>, i: nat)
    requires DiskOutcome(w, r, before, after) && FirstReadable(w, i)
    ensures Delivers(w, w.read(w.devices[i]).value, r)
  {
    FirstReadableDecides(w, r, before, after, i);
  }

  lemma MountDelivers(w: World, r: Result, i: nat, k: nat)
    requires MountResult(w, r) && w.tempDir && FirstShown(w, i, k)
    ensures match w.mount(w.devices[i], FSTYPES[k]).value.userData
            case Some(raw) => Delivers(w, raw, r)
            case None => r == NotFound
  {
    assert Shows(w, i, k);
    FirstShownIsUnique(w);
  }

  /** What Discover returns: without an override, the payload of the first device that can be read; if
      there is none, of the first file system that shows one; if there is none, what HTTP gave. */
  lemma DiscoverDelivers(w: World, d: Result, r: Result, before: seq<Event>, mid: seq<Event>, after: seq<Event>)
    requires DiskOutcome(w, d, before, mid)
    requires if d.NotFound? then r == w.gatewayHttp && after == mid + [Http] else r == d && after == mid
    ensures forall i: nat | FirstReadable(w, i) :: Delivers(w, w.read(w.devices[i]).value, r) && after == mid
    ensures forall i: nat, k: nat, raw |
              NoneReadable(w) && w.tempDir && FirstShown(w, i, k)
              && w.mount(w.devices[i], FSTYPES[k]).value.userData == Some(raw) :: Delivers(w, raw, r) && after == mid
    ensures NoneReadable(w) && (!w.tempDir || NoneShown(w)) ==> r == w.gatewayHttp
  {
    forall i: nat | FirstReadable(w, i) ensures Delivers(w, w.read(w.devices[i]).value, r) && after == mid {
      DirectDelivers(w, d, before, mid, i);
    }
    forall i: nat, k: nat, raw |
      NoneReadable(w) && w.tempDir && FirstShown(w, i, k)
      && w.mount(w.devices[i], FSTYPES[k]).value.userData == Some(raw)
      ensures Delivers(w, raw, r) && after == mid
    {
      MountDelivers(w, d, i, k);
    }
  }

  /** Of one device's types, cd9660 is tried before msdos. */
  lemma IsoBeforeFat(w: World, i: nat, k: nat)
    requires FirstShown(w, i, k)
    ensures var d := w.devices[i];
            var iso := w.mount(d, "cd9660");
            && w.present(d) && w.mount(d, if k == 0 then "cd9660" else "msdos").Some?
            && (k == 0 <==> iso.Some? && iso.value.shows)
  {
    assert Shows(w, i, k);
    assert k == 1 ==> !Shows(w, i, 0);
  }
}
