# Verification of weft-firstboot

weft-firstboot is an agent that provisions a machine on its first boot: it finds user-data, parses it
into a configuration, applies the configuration (hostname, files, users and SSH keys, packages,
commands, in that order) and leaves a sentinel so that later boots do nothing. Its promise is that it
may crash anywhere and be run again. This project models that behaviour in Dafny and proves what the
promise is worth, for every configuration, every host, every pattern of crashes and every input.

`dafny verify dfyconfig.toml` checks everything.

## How the model is built

| file | models |
|---|---|
| `Text.dfy`, `Numbers.dfy` | the functions used from Go's `strings`, `bufio`, `strconv` |
| `AuthorizedKeys.dfy` | the key append of the four operating systems |
| `Host.dfy` | the configuration, the host, the effect of one System call on Linux, `Apply` as a list of steps |
| `System.dfy` | the Linux System as an object whose calls can succeed, fail, stop half done or be the last thing the process does, and `Apply` as the loops over it |
| `Convergence.dfy`, `KeyOwners.dfy`, `Resume.dfy` | runs stopped before or inside any System call, then a complete one |
| `Reboots.dfy` | the same with reboots in between, each with a live hostname of its own |
| `Passwords.dfy` | an account made without its password |
| `Rerun.dfy` | a second `Apply` after a successful one |
| `Delivers.dfy` | what the host looks like after a successful `Apply` |
| `Boot.dfy` | `runApply` over any sequence of boots |
| `Shell.dfy` | runcmd quoting, and a POSIX shell token reader that knows nothing of it |
| `FileDrop.dfy` | `WriteFile` and `atomicWrite` one file-system step at a time |
| `RcConf.dfy`, `Passwd.dfy` | NetBSD's rc.conf rewrite, the passwd scan |
| `Discovery.dfy`, `Names.dfy`, `Header.dfy`, `Route.dfy` | the candidate walk and mount fallback, name matching, format routing, the default route |
| `Groups.dfy` | group reconciling and the comma list |

Code that changes state is a class or a method with loops, proved against a function or predicate; the
theorems are about those.

A host holds one map from path to bytes, mode and owner, shared by `write_files`, `authorized_keys`,
`/etc/hostname` and the sentinel, so a configuration may aim one at another. `Accounts` is an arbitrary
function giving each account its home, uid and gid; the passwd database itself is the map of accounts,
so `write_files` is taken not to write to it (`Passwd.dfy` ties the byte-level scan to it). An owner or
group name resolves only while the account or group exists. File modes are the nine permission bits.

Assumed throughout: strings are valid UTF-8 and are sequences of code points; different path strings are
different files; the account, group and package commands have their documented effect, useradd and the
password command together being one step that succeeds even where a group has the name of the new account
(`UseraddMeetsNoGroupIff` says exactly when none has); a read that fails gives no data; the effects of
shell commands are not modelled beyond the log of which ran; the process runs as root; an empty temporary
directory can be removed.

## Where the code does less than it says

Each of these is proved, with the exact condition under which the promise does hold.

* Re-adding a key is promised to be a no-op. On Linux and OpenBSD it is exactly when the trimmed key is
  one line; on FreeBSD the key must also have no white space around it, because only newlines are
  stripped; on NetBSD the file must also not end in a cut-off line, which the key would be glued to.
* `Apply` drops the error of its `Hostname` probe and goes on to call `SetHostname`, which drops the errors
  of the same probe and of its read of /etc/hostname, and then rewrites the file. Recovery from every
  pattern of stopped runs holds exactly when that would be harmless (`ProbeHarmless`) and no key is
  appended again: each is one line, or bound for a file that `write_files` drops first (`Replayable`).
* `SetHostname` is documented to commit the durable name too, but `Apply` skips it when the live name is
  right. After a nil Apply the durable name is right exactly under the condition of `HostnameDelivered`.
* A second `Apply` is promised to be a no-op. It is exactly when the trimmed keys are one line each
  (`OneLineKeys`) and the configuration agrees with itself (`Tidy`): one record per path, keys bound for a
  dropped file contained in it, and owner ids that a file can have.
* A crash between the rename and the chown of an `authorized_keys` file leaves it with root. The next run
  takes that key for present; it repairs the owner exactly when it writes the file for another reason
  (`CutKeyRecoversIff`). Everything else is recovered (`CrashResume`).
* An account that useradd made and the password command did not reach is never given a password by any
  later run; the host is recovered exactly when it was to have none (`HalfMadeRecoversIff`).
* OpenBSD and FreeBSD write `authorized_keys` in place, and a crash may leave nothing of it. On OpenBSD the
  runs that follow restore the configured keys alone, so nothing is lost exactly when those are all the
  non-blank lines the file had (`NoKeyLostIff`); the Linux append loses none (`AddKeyLinux`). NetBSD keeps
  what was there but may leave the beginning of the key (`AddKeyNetBsd`), a cut-off line.
* `sentinelPresent` drops the error of its stat: a boot that cannot examine the sentinel applies
  everything again (`UnseenSentinelRunsAgain`), and one that sees it changes nothing.
* A dropped file owned by an account that the same configuration creates stops every run before the
  account is created.
* The sentinel means success exactly when no step of a plan can create that path.
* `config/config.go` says the shell of an existing user is reconciled; the code leaves it alone, and the
  model follows the code.
* A comment at `apply/apply_netbsd.go:362` says that negative ids keep the existing ownership. They skip
  the chown of the temporary file, so after the rename the file belongs to root, and the ownership is kept
  exactly when it was root's.

## Model

| member | source | states |
|---|---|---|
| Resume.CrashResume | apply/apply.go:73-137 | After any number of runs, each stopped before an arbitrary System call or part way through it (SetHostname, WriteFile, AddAuthorizedKey, creating groups, installing packages), one complete run leaves the accounts, files, packages and hostname that one undisturbed run leaves, and succeeds exactly when that one does; only if a run stopped between the rename and the chown of a key file can the owner of key files differ; `write_files` may repeat paths or hit key files; a key of several lines may only be bound for a file that `write_files` drops |
| Resume.CrashResumeIff | apply/apply.go:74-84 | For every host and configuration: all patterns of stopped runs, those whose probes fail included (Apply's, the one SetHostname repeats, its read of /etc/hostname), are recovered from if and only if rewriting the hostname file is harmless (another live name, that very record, or a file `write_files` drops) and, unless some file does not resolve, each key of several lines is bound for a dropped file |
| Resume.FailedProbeShows | apply/apply.go:75-80 | When it is not, one run stopped after its failed reads already leaves a hostname file no later run undoes |
| Resume.SetHostnameIsNoOpIff | apply/apply_linux.go:52-72 | SetHostname whose reads work is a no-op exactly on a host that has the name live and on file |
| Resume.RepeatedKeyShows | apply/apply_linux.go:170-185 | A key of several lines bound for another file is there twice after one whole run and the complete one |
| Resume.RunPlan | apply/apply.go:73-137 | What an undisturbed run leaves, phase by phase, and that it succeeds exactly when every file owner, group and mode resolves |
| Resume.StageOf | apply/apply.go:73-137 | Every host a stopped run can leave: untouched, part of the files dropped, or part of the users phase with a prefix of the commands |
| Resume.TornStageOf | apply/apply_linux.go:52-72 | Stopping inside a step adds only four more: /etc/hostname written but the kernel not told, one file renamed but not chowned, some of one user's groups made, or a key file renamed but not chowned |
| Convergence.PartialEffectsAreTorn | apply/apply_linux.go:52-143 | A step can stop with the hostname file written and the live name not, with any of the groups asked for made, with any of the packages in |
| Resume.UsersComplete | apply/apply.go:93-121 | The users phase never fails on its own, because a key is only added to an account ensured before |
| Resume.ReplayUsers | apply/apply.go:86-121 | Dropping the files again over a host that went on into the users phase, then the users phase again, gives accounts and files as if nothing had run |
| Resume.UnresolvedFileBlocksForever | apply/apply_linux.go:211-219 | A file whose owner, group or mode does not resolve stops every run before the users phase: no number of runs creates an account or a package or runs a command |
| Resume.OwnerToBeCreatedBlocks | apply/apply.go:86-121 | In particular an account that owns a dropped file before it exists is never created |
| Convergence.RunDrops | apply/apply.go:86-91 | The files phase merges a fixed map into the files: the last entry for a path wins, up to the first one that does not resolve |
| Convergence.UsersResume | apply/apply.go:93-121 | User steps replayed after a run stopped part way through them end as one run of them: accounts, groups, and every file whose keys are one line each |
| Convergence.UsersResumeTorn | apply/apply.go:93-121 | The same when the account step it stopped in was part done |
| Convergence.StepKeepsSettled | apply/apply.go:93-121 | Once a user or key step has nothing left to do, no other such step gives it work again |
| Convergence.RunFileAlike | apply/apply_linux.go:149-192 | In the users phase each file evolves on its own, whatever the other files and the accounts are |
| Convergence.WriteFileLands | apply/apply_linux.go:221-247 | With or without the diff-skip, the file ends up with the requested content, mode and owner |
| Convergence.TornKeyReplay | apply/apply_linux.go:165-191 | User steps replayed after one stopped between the rename and the chown of a key file: all else comes out right, and the file does if and only if it is root's anyway or a later key is still missing from it |
| Resume.CutKeyRecoversIff | apply/apply_linux.go:165-191 | Over the whole plan: the next run leaves what an undisturbed one leaves if and only if the owner is root anyway, `write_files` drops that file, or the torn file still misses a later key of the plan |
| Resume.RunsClose | apply/apply.go:73-137 | Owner of key files aside, any stopped runs leave what some runs that cut no key file leave |
| KeyOwners.CloseRun | apply/apply.go:73-137 | No step looks at who owns a key file, but for a diff that then writes it: hosts that differ in that alone keep doing so, and fail together |
| Passwords.PasswordNeverSet | apply/apply_linux.go:95-125 | A run that died between useradd and the password at any step of the plan: however many runs follow, stopped or not, the password is never set, and nothing else differs from runs that had set it |
| Passwords.HalfMadeRecoversIff | apply/apply_linux.go:95-125 | So the next complete run leaves what an undisturbed one leaves if and only if the account was to have no password |
| Reboots.RebootResume | apply/apply.go:73-137 | Stopped runs with reboots between them, each run finding a live hostname of its own: a run that completes leaves what one undisturbed run leaves, live name aside, and completes when that one does; either no run found the configured name before the hostname file was right, or all found it and saw it |
| Delivers.ApplyDelivers | apply/apply.go:73-137 | After a nil Apply: the configured live hostname; accounts that were there keep shell and password and gain groups, new ones take both from their first entry, and there are no others; exactly the packages that were there and the listed ones; commands logged in order |
| Delivers.MembershipDelivered | apply/apply.go:93-115 | In terms of the entries: an account has the groups it had, those an entry for it lists, and wheel if one has sudo or doas, no others; the groups of the host come from there, one for each new account among them |
| Delivers.EveryKeyIsListed | apply/apply_linux.go:149-192 | Each key of one line is a line of .ssh/authorized_keys under the home of its account |
| Delivers.DropDelivered | apply/apply_linux.go:198-248 | The last entry for a path no key is bound for has its content, the permission bits its mode says in octal (0644 by default), and the owner and group it names by number or by name (root by default) |
| Delivers.PhasesInOrder | apply/apply.go:73-137 | However a run stops: commands only after all packages, packages only after all accounts, groups and keys, accounts only after all files, and any of it only after the hostname |
| Delivers.FilesDelivered | apply/apply.go:86-121 | Every file, /etc/hostname included, holds the last content dropped there (or its old text, or the new name) with exactly the keys bound for it added in order, is private to an account whose keys it holds if they changed it, and is untouched if nothing names it |
| Delivers.HostnameDelivered | apply/apply.go:24-29 | After a nil Apply /etc/hostname holds the configured name if and only if a dropped file says so, or else the live name was another one (then it is root's, mode 0644) or the file was right already: with the live name right, Apply never looks at the file |
| Delivers.GroupsDelivered | apply/apply.go:93-115 | The groups the users phase leaves: those asked for, and one for each new account |
| Delivers.UseraddMeetsNoGroupIff | apply/apply_linux.go:99-109 | Told from the configuration alone, when useradd never finds a group with the name of the account it makes |
| Delivers.AccountsDelivered | apply/apply.go:93-115 | The account a list of entries leaves for each name |
| Delivers.KeysDelivered | apply/apply.go:116-120 | The text the key steps leave at each path |
| Delivers.LastDropWins | apply/apply.go:86-91 | The last entry for a path decides its record |
| Rerun.SecondApplyIsNoOpIff | apply/apply.go:5-8 | After a successful Apply a second one calls no SetHostname, replaces no file, creates no user and appends no key if and only if the trimmed keys are one line each and the configuration agrees with itself |
| Rerun.SecondApplyIsNoOp | apply/apply.go:73-121 | It does for distinct paths, none a key file, with owner ids a file can have |
| Rerun.NoMutationNoChange | apply/apply.go:18-22 | A run without a counted mutation changes no hostname, no file and no set of accounts |
| Rerun.ConflictingEntriesRewrite | apply/apply.go:86-91 | Two differing entries for one path: the first Apply succeeds, and the promised no-op fails |
| LinuxSystem.System.Apply | apply/apply.go:73-137 | With calls that fail, stop half done, or are the last thing the process does or starts, the host is what a prefix of the plan leaves, its next step perhaps torn, and a nil error means the whole plan ran; undisturbed, the plan runs to its end or to the step that cannot succeed |
| LinuxSystem.System.ApplyUsers | apply/apply.go:93-121 | The loop over users, probes, creations and keys, step for step |
| LinuxSystem.System.EnsureUser | apply/apply.go:94-115 | Probe, wheel folding, then create or reconcile |
| LinuxSystem.System.SetHostname | apply/apply_linux.go:52-72 | /etc/hostname and the kernel name, with the short-circuit and the two reads whose errors are dropped |
| LinuxSystem.System.AddAuthorizedKey | apply/apply_linux.go:149-192 | The key file of an existing account gets the key as a line, or, stopped before the chown, the whole text with owner root; an unknown account is an error |
| LinuxSystem.System.WriteFile | apply/apply_linux.go:198-248 | Defaults, resolution errors, diff and drop, and when it counts as a change |
| LinuxSystem.System.RunShell | apply/apply_linux.go:293-302 | A command that fails has run; one before which the process died has not |
| Boot.RunApply | cmd/weft-firstboot/main.go:127-182 | runApply is one boot of the model: sentinel seen, load error, dry run, failed apply, or apply and sentinel; a nil one that was to apply leaves the sentinel with its text if it could be created |
| Boot.SuccessLeavesSentinel | cmd/weft-firstboot/main.go:171-181 | A boot that is to apply, forced or finding no sentinel, and is not stopped runs every command and leaves the sentinel, root's with mode 0644, if it could be created |
| Boot.OneSuccessIsEnough | cmd/weft-firstboot/main.go:134-181 | After one such boot, over any sequence of unforced boots that see the sentinel and dry runs, each command has run once |
| Boot.DryRunsChangeNothing | cmd/weft-firstboot/main.go:163-167 | Dry runs, and boots that load nothing, change nothing on any host |
| Boot.SentinelMeansSuccess | cmd/weft-firstboot/main.go:171-181 | Over every sequence of boots, failed and crashed ones, forced and dry, with failing stats of the sentinel and any live names, the sentinel is there only if some Apply returned nil |
| Boot.UnfinishedBootLeavesSentinelIff | cmd/weft-firstboot/main.go:134-137 | A boot whose Apply did not return nil can leave the sentinel if and only if a step of the plan creates that path |
| Boot.SentinelWrittenByConfig | cmd/weft-firstboot/main.go:134-137 | A configuration that drops a file at the sentinel path: killed right after, every later unforced boot that sees it skips the rest of it |
| Boot.LaterBootsChangeNothing | cmd/weft-firstboot/main.go:134-167 | With the sentinel there, unforced boots that see it and dry runs change nothing, whatever live name they come up with |
| Boot.UnseenSentinelRunsAgain | cmd/weft-firstboot/main.go:187-190 | An unforced boot whose stat of the sentinel fails runs every command again |
| Boot.LogIsPrefixes | apply/apply.go:130-135 | For one configuration the log of commands is a concatenation of prefixes of its list, one of them complete once the sentinel is there |
| Boot.SentinelMeansConverged | cmd/weft-firstboot/main.go:127-182 | End to end: once unforced boots of one configuration that see the sentinel have left it, the rest of the host is what one undisturbed Apply leaves, whatever crashed, failed and rebooted on the way, live name aside, and but for the owner of key files if a boot died between the rename and the chown of one |
| Boot.FinalBoot | cmd/weft-firstboot/main.go:127-182 | The boot that writes the sentinel leaves that host, and the configured live name |
| Boot.FinishedCreates | apply/apply.go:73-137 | Exactly which paths a run can create |
| Shell.CommandReadsBack | config/cloudconfig.go:190-218 | For every list of strings, POSIX token recognition and quote removal give the list back from the printed command, and no word has anything left to expand |
| Shell.FlattenedReadsBack | config/cloudconfig.go:190-207 | The commands of a runcmd are those of its entries, in order: a string itself, a list one command that reads back as its strings, anything else nothing |
| Shell.StringsAre | config/cloudconfig.go:196-203 | The arguments of a list entry are its strings, each kept, in order, and nothing else |
| Shell.FlattenRunCmd | config/cloudconfig.go:190-207 | The loop prints the strings of each list entry, passes strings through and drops the rest |
| Shell.CommandIsInjective | config/cloudconfig.go:199-204 | Different argument lists print different commands |
| Shell.ReadQuoted | config/cloudconfig.go:210-218 | Whatever came before, the reader makes one word of a printed argument, quoted exactly when it needs to be |
| AuthorizedKeys.LinuxAddKeepsLines | apply/apply_linux.go:165-187 | Every line keeps its place and a one-line key ends up as a whole line |
| AuthorizedKeys.LinuxAddTwice | apply/apply_linux.go:165-187 | Re-adding a key changes nothing if and only if the trimmed key is one line |
| AuthorizedKeys.LinuxAddAllResumes | apply/apply.go:116-120 | Appending a list of keys after any prefix of the list equals appending it once |
| AuthorizedKeys.FreeBsdAddTwice | apply/apply_freebsd.go:184-202 | On FreeBSD re-adding changes nothing if and only if the key less its newlines is one trimmed line |
| AuthorizedKeys.NetBsdAddTwice | apply/apply_netbsd.go:259-279 | On NetBSD if and only if the key was there, or is one line and the file has no cut-off last line to glue it to |
| AuthorizedKeys.NewlineKeyRepeats | apply/apply_linux.go:170-175 | A key with a newline inside is appended again by every run |
| AuthorizedKeys.PaddedKeyRepeats | apply/apply_freebsd.go:184-194 | So is a key with a blank in front on FreeBSD |
| AuthorizedKeys.CutOffLineIsGlued | apply/apply_netbsd.go:272-279 | On NetBSD a key is glued to a cut-off last line |
| AuthorizedKeys.FreeBsdAgrees | apply/apply_freebsd.go:184-202 | FreeBSD writes the Linux bytes if and only if stripping newlines trims the key |
| AuthorizedKeys.NetBsdAgrees | apply/apply_netbsd.go:259-279 | NetBSD does if and only if it finds the key, or the key is not blank and the file is empty or ends in a newline |
| AuthorizedKeys.LinuxAddKey | apply/apply_linux.go:165-184 | The scan and the buffer |
| AuthorizedKeys.OpenBsdAddKey | apply/apply_openbsd.go:183-201 | OpenBSD writes the Linux bytes for every file and key |
| AuthorizedKeys.FreeBsdAddKey | apply/apply_freebsd.go:184-202 | The FreeBSD text |
| AuthorizedKeys.NetBsdAddKey | apply/apply_netbsd.go:259-279 | The NetBSD text |
| FileDrop.Disk.DropUntilDone | apply/apply_linux.go:221-248 | A drop killed or failing any number of times at any file-system steps and tried again: the first attempt that returns nil gives the path its content, mode and owner, before that it holds its old record or the new content and mode, and nothing but temporary files is touched besides |
| FileDrop.AttemptsLeave | apply/apply_linux.go:221-248 | After the interrupted attempts alone the path holds its old record or the new content and mode |
| FileDrop.OwnerTestIsNeeded | apply/apply_linux.go:223-232 | Without the owner test in the diff a run killed between rename and chown is repaired only if there was nothing to chown |
| FileDrop.InterruptedIsTorn | apply/apply_linux.go:198-248 | A drop interrupted between any two file-system steps is, temporary file aside, no step or the torn step of the convergence model |
| FileDrop.DropIsOneStep | apply/apply_linux.go:198-248 | A drop that returns nil is the one step Apply counts it as |
| FileDrop.Disk.AtomicWriteLinux | apply/apply_linux.go:392-419 | Whatever fails or kills it, the target has its whole old record or the whole new content and mode, and every exit but a crash leaves no temporary file, unless removing it is what failed |
| FileDrop.Disk.WriteFileLinux | apply/apply_linux.go:221-248 | Diff with its failing reads, atomic write, chown, with what each failure leaves |
| FileDrop.Disk.AtomicWriteNetBsd | apply/apply_netbsd.go:365-404 | The same on NetBSD with the owner in the record, because chown comes before the rename; with a negative id the file keeps its owner if and only if that was root |
| FileDrop.Disk.WriteFileNetBsd | apply/apply_netbsd.go:308-324 | A NetBSD drop leaves the old file or the whole requested one |
| FileDrop.Disk.WriteFileOpenBsd | apply/apply_openbsd.go:214-268 | The same on OpenBSD and FreeBSD, which chown the closed temporary file and clean up by hand on each failure |
| FileDrop.Disk.AddKeyLinux | apply/apply_linux.go:165-191 | Whatever fails or kills it, no line of the key file is lost, and it is left as before, or with the whole new text |
| FileDrop.InterruptedKeyIsTorn | apply/apply_linux.go:165-191 | An interrupted key append, temporary file aside, is no step or the torn step of the convergence model |
| FileDrop.Disk.AddKeyOpenBsd | apply/apply_openbsd.go:183-207 | OpenBSD writes the key file in place: it may be left with any beginning of the new text, and killed after the truncation, with nothing |
| FileDrop.Disk.AddKeyFreeBsd | apply/apply_freebsd.go:184-206 | The same on FreeBSD, with its own text |
| FileDrop.Disk.LoseKeysOpenBsd | apply/apply_openbsd.go:183-207 | Killed there and then left alone to add all its keys, it leaves a file whose non-blank lines are those keys |
| FileDrop.Disk.AddKeyNetBsd | apply/apply_netbsd.go:259-286 | NetBSD writes at the end: all the file had stays, and a crash leaves the beginning of the key after it, cut off |
| FileDrop.TruncatedFileLosesKeys | apply/apply_openbsd.go:183-199 | The runs that follow a truncation add their keys to nothing: the non-blank lines are exactly those keys |
| FileDrop.NoKeyLostIff | apply/apply_openbsd.go:183-199 | So no line is lost if and only if each non-blank one is a configured key, while an append that is not cut short loses none |
| RcConf.RewriteHostname | apply/apply_netbsd.go:67-109 | The loop with its flag, and that the no-write exit is taken exactly when the text is the same |
| RcConf.RewriteIsFaithful | apply/apply_netbsd.go:67-109 | Every other line survives in order, every hostname line is the wanted one, and the last assignment gives the name |
| RcConf.SettingsRewritten | apply/apply_netbsd.go:67-109 | Over a file of key=value lines: each with another key survives in its place, each hostname gets the name, one is added at the end if there was none |
| RcConf.HostnameLineIff | apply/apply_netbsd.go:80-81 | A line counts as a hostname line exactly when it is blanks, then hostname=, then a value |
| RcConf.RewriteTwice | apply/apply_netbsd.go:67-109 | Rewriting again is byte-identical if and only if no line that stays ends in a carriage return once scanned |
| RcConf.NoCRScan | apply/apply_netbsd.go:78-80 | A file without carriage returns is scanned as it is |
| RcConf.TwoCarriageReturns | apply/apply_netbsd.go:78-80 | A line ending in two carriage returns changes at every rewrite |
| Passwd.ScanFindsUsers | apply/apply_linux.go:77-89 | On every printed database UserExists holds exactly for the names in it |
| Passwd.ScanFindsFirstEntry | apply/apply_linux.go:324-350 | and lookupHomeAndIDs returns home, uid and gid of the first entry |
| Passwd.UserExists | apply/apply_linux.go:77-89 | The line loop |
| Passwd.LookupHomeAndIDs | apply/apply_linux.go:324-350 | The line loop with its error exits |
| Numbers.AtoiInvertsDecimal | apply/apply_linux.go:337-344 | Printed uids and gids read back |
| Numbers.AtoiReadsSigned | apply/apply_linux.go:337-344 | and printed numbers with a sign |
| Numbers.PrintedReadsBack | datasource/gateway_linux.go:52-79 | What is printed in a radix up to 36 reads back if it fits, and is out of range if not |
| Numbers.BadDigitStops | datasource/gateway_linux.go:52-53 | A character that is no digit of the radix makes it a syntax error |
| Numbers.DigitIsItsPlace | datasource/gateway_linux.go:66-79 | A digit is worth its place in either alphabet, and nothing else is a digit |
| Discovery.Prober.FromDiskDirect | datasource/disk.go:55-76 | The first device that yields user-data decides and no later one is read |
| Discovery.Prober.BsdMountCidata | datasource/disk_bsd.go:27-58 | The first device and type that shows user-data is left mounted on top, alone if no unmount failed; on failure nothing is mounted and the directory is gone, but for failed unmounts |
| Discovery.Prober.FromDiskMount | datasource/disk.go:79-98 | On every path out no more file systems are left than unmounts failed, one more at most ever were mounted, and the directory is gone unless one is left; so with no failed unmount the table is as before |
| Discovery.Prober.FromDisk | datasource/disk.go:41-48 | The fallback runs only if no candidate was readable |
| Discovery.Prober.Discover | datasource/datasource.go:61-83 | The probe chain: an override goes to HTTP alone, the gateway is tried only if the disk probe found nothing |
| Discovery.FirstReadableDecides | datasource/disk.go:55-76 | A payload that does not parse is a hard error after which no device, mount or HTTP probe runs |
| Discovery.DiscoverDelivers | datasource/datasource.go:61-83 | What is read is what Discover gives: the configuration the payload parses to, or a hard error, from the first device that can be read, or else the first file system that shows user-data, or else HTTP |
| Discovery.IsoBeforeFat | datasource/disk_bsd.go:41-56 | Of one device's types cd9660 is tried before msdos, and only if the device is there |
| Discovery.DiskNotFoundIff | datasource/disk.go:41-48 | Not found exactly when no device was readable and the fallback found nothing |
| Names.Level1IsMatched | datasource/disk.go:254-286 | Every name is matched by its level-1 form, with or without trailing dot and version suffix |
| Names.AcceptedNamesCompare | datasource/disk.go:245-261 | Accepted names are equal to the wanted one after normalisation or a prefix of at least eight, so any two are prefixes one of the other |
| Names.ExactIsMangled | datasource/disk.go:245-261 | The exact pass accepts nothing the fuzzy pass would not |
| Names.ExactNameIff | datasource/disk.go:245-247 | Dot and version aside, the exact pass takes exactly the wanted name in any case |
| Names.MangledNameIff | datasource/disk.go:254-261 | and the fuzzy pass exactly all of it, or at least its first eight characters, as far as level 1 tells characters apart |
| Names.ReadNamed | datasource/disk.go:225-241 | The least pass and position is read, after the exact path |
| Names.LeastIsUnique | datasource/disk.go:217-224 | That choice is unique, and a fuzzy entry is never taken when an exact one is listed |
| Header.Route | datasource/datasource.go:95-112 | cloud-config exactly when the header comes first after blanks and line ends |
| Header.IsCloudIff | datasource/datasource.go:95-112 | That is: blanks, tabs and line ends, then #cloud-config |
| Header.RoutedLosesHeader | config/cloudconfig.go:55-65 | A document routed to the cloud-config parser is decoded without its header: what is left out is white space and one line that starts with it |
| Header.HeaderlessStays | config/cloudconfig.go:55-65 | A document without the header is decoded as it is |
| Header.RoutedIffStripped | config/cloudconfig.go:55-65 | The two header tests agree unless white space stands first that only the second one skips |
| Route.LinuxDefaultGateway | datasource/gateway_linux.go:27-62 | The gateway of the first row with the least metric among decodable default rows, none exactly when no such row has a metric below the maximum |
| Route.GatewayOfTable | datasource/gateway_linux.go:27-62 | For every table the kernel prints, in terms of its entries: the gateway of the first default route of least metric, none exactly when every default route is at the maximum or beyond |
| Route.ColumnsDecide | datasource/gateway_linux.go:44-53 | Of tab-joined columns, eight at least, the second must be all zeros and the third an address; the seventh is the metric |
| Route.MetricReads | datasource/gateway_linux.go:52-53 | A printed metric is worth its number, one out of range the maximum |
| Route.BadMetricIsZero | datasource/gateway_linux.go:52-53 | and one with a bad character nothing |
| Route.HexLEIPv4 | datasource/gateway_linux.go:66-79 | Decoding byte by byte from the end, or an error |
| Route.DecodeInvertsPrint | datasource/gateway_linux.go:64-79 | Decoding inverts little-endian printing for every address |
| Route.BestIsUnique | datasource/gateway_linux.go:36-57 | The row is determined by the table |
| Groups.FreeBsdReconcile | apply/apply_freebsd.go:122-132 | The union loop, with a change reported by length exactly when a group is missing |
| Groups.NetBsdReconcile | apply/apply_netbsd.go:202-213 | The same union, with a change reported by the flag exactly when a group is missing |
| Groups.UnionIsUnion | apply/apply_freebsd.go:122-127 | Current groups first and in order, nothing lost or invented, no new duplicates |
| Groups.ReconcileIsFixedPoint | apply/apply.go:101-115 | With wheel folded in, reconciling again changes nothing and the groups are exactly the current ones, the listed ones, and wheel for sudo or doas |
| Groups.NormaliseGroups | config/cloudconfig.go:140-151 | The loop over the comma list |
| Groups.GroupListRoundTrip | config/cloudconfig.go:140-151 | Printing names with ", " and normalising gives the names back |
| Groups.GroupNamesAtComma | config/cloudconfig.go:140-151 | At any comma the names are those of the two sides |
| Groups.GroupNamesOfPiece | config/cloudconfig.go:140-151 | and a piece without commas is its trimmed self, or nothing if blank |
| Groups.NamesAreNames | config/cloudconfig.go:140-151 | Every name that comes out is non-empty, trimmed and comma-free |

## Left out

* Recovery from a crash inside `CreateUser` after useradd: the code does not repair the password (`PasswordNeverSet`), so useradd and the password are one step in the recovery theorems; the groups made before it are covered.
* Temporary files left by a crash: the recovery theorems are about the other paths.
* Effects of runcmds beyond the log; alias substitution, reserved words and assignment words in command position when a printed command is read.
* HCL and YAML decoding, HTTP, the BSD gateway command, the file-system drivers and the Linux mount loop: their outcomes are parameters.
* Directories, symbolic links, path aliasing, `.ssh` permissions, the sentinel's timestamp, the scanner's line limit, set-id and sticky mode bits.
* `splitOwner`, `normaliseSudo`, `flattenPackages`, `deviceSize`, the factories: one branch each.
- Resume.UsersComplete: useradd is taken to succeed where a group with the name of the new account exists; `UseraddMeetsNoGroupIff` says when that does not arise.
- Names.Level1IsMatched: names are ASCII, because EqualFold folds all of Unicode and mangle does not.
- LinuxSystem.System.SetHostname: the fallback from the system call to the hostname command is one outcome of the step.
