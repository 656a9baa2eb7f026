# proxmox-rmem in Dafny

proxmox-rmem has two parts. The first is a monitor, `proxmox-rmem.py`. For every enabled VM in its configuration list, it asks the guest how much memory is in use and writes that byte count to `/tmp/pve-vm-<vmid>-mem-override`. It reaches the guest in one of two ways: over `ssh`, or through the QEMU guest agent (`qm guest exec`). From a Linux guest it reads `/proc/meminfo`; from a BSD guest it reads three `sysctl` values. The second part is a one-shot patcher, `patch_pve.py`. It splices a Perl block into the hypervisor's status module, and that block reads the override file instead of the hypervisor's own memory figure.

This project models the computing core of both scripts and proves properties of that model:

- `optional.dfy` (`Optional`): the `Option` type that stands for Python's `None`-or-value.
- `pytext.dfy` (`PyText`): the Python string operations the scripts rely on, each with its own contract:
  - `str.isspace`, `str.splitlines()`, `str.split()`, `str.startswith`;
  - `int()` on a token, and `str()` of an integer.
- `meminfo.dfy` (`Meminfo`): `parse_linux_meminfo`.
  - `MeminfoOf` is a declarative fold over the lines.
  - `ParseLinuxMeminfo` is the source's loop as a method, proved equal to that fold.
- `monitor.dfy` (`Monitor`) covers the rest of the monitor:
  - the four fetchers, with the BSD arithmetic and the guest-exec status check;
  - `update_vm`'s choice of fetcher and its override write;
  - one pass of `main` over the configuration list, with its `enabled` filter.
  
  The outside world is given as values. A `Host` says what each command line prints, what `qm guest exec` replies, and whether a path can be opened for writing. The file system is a map from path to content.
- `patcher.dfy` (`Patcher`): `patch_pve.py`'s `main` without its I/O, written as the function `Patch(content)`. It returns `AlreadyPatched`, `NoInsertionPoint` or `Patched(newContent)`. The two regular expressions become "leftmost position where this shape starts" functions, proved to match declarative descriptions of the shapes.

`parse_linux_meminfo` checks only that both readings are positive, so the count can be zero or negative: `MeminfoCount` and `NegativeCountPossible` state this.

## Model

| member | source | states |
|---|---|---|
| PyText.SplitLines | proxmox-rmem.py:75 | `splitlines()` gives lines that hold no line boundary, and gives no lines exactly for empty text |
| PyText.SplitLinesThen | proxmox-rmem.py:75 | splitting lines that each end in `\n`, followed by more text, gives back those lines and then the lines of the rest |
| PyText.Fields | proxmox-rmem.py:21 | `split()` gives non-empty fields without white space |
| PyText.FieldsJoinWords | proxmox-rmem.py:77 | `split()` of space-free words joined by single spaces gives the words back |
| PyText.FieldsLinesThen | proxmox-rmem.py:62 | `split()` of words printed one per line gives the words back |
| PyText.ParseInt | proxmox-rmem.py:24-26 | `int()` accepts a token iff it is an optional sign followed by ASCII digits with single underscores between two digits; a negative result needs a leading `-` |
| PyText.IntToString | proxmox-rmem.py:110 | `str(n)` is non-empty, starts with `-` exactly when `n < 0`, holds only digits after that, and has no leading zero unless `n == 0` |
| PyText.ParseIntRoundTrip | proxmox-rmem.py:24-26 | `int(str(n)) == n` for every integer |
| PyText.IntToStringInjective | proxmox-rmem.py:110 | different integers print as different decimal strings |
| Meminfo.LastReadingFromLine | proxmox-rmem.py:73-79 | a nonzero reading of a key comes from a line of the input that starts with that key and whose second field is that value |
| Meminfo.MeminfoOf | proxmox-rmem.py:72-83 | any count the parser returns is a multiple of 1024 and needs both last readings to be positive |
| Meminfo.ParseLinuxMeminfo | proxmox-rmem.py:72-83 | the loop over `splitlines()` ends as the fold does: it raises if a key line is malformed, and otherwise returns `total - available` when both last readings are positive, `None` when not |
| Meminfo.LinuxMemory | proxmox-rmem.py:38-42 | the parser as its callers see it (an exception becomes `None`): any count is a multiple of 1024 |
| Meminfo.MeminfoCount | proxmox-rmem.py:73-83 | a count is returned iff no key line is malformed and both last readings are positive, and it is then exactly `T*1024 - A*1024` |
| Meminfo.KeysExclusive | proxmox-rmem.py:76-79 | no line starts with both keys, so the `elif` never hides a reading |
| Meminfo.MissingKeyReadsZero | proxmox-rmem.py:73-74 | a key that never starts a line keeps its initial reading 0 |
| Meminfo.MissingKeyGivesNone | proxmox-rmem.py:81-83 | without a `MemTotal:` line, or without a `MemAvailable:` line, no count is returned |
| Meminfo.OtherLineIgnored | proxmox-rmem.py:75-79 | inserting a line that does not start with a key leaves that key's reading unchanged |
| Meminfo.OtherLineIgnoredByParser | proxmox-rmem.py:75-79 | inserting a line that starts with neither key, anywhere, leaves the parser's outcome unchanged |
| Meminfo.LaterLineWins | proxmox-rmem.py:76-79 | a line with a key is overridden by any later line with the same key: dropping it, wherever the later line and whatever follows, leaves the reading unchanged |
| Meminfo.LaterLineWinsByParser | proxmox-rmem.py:75-83 | dropping a well-formed key line that a later line with the same key follows leaves the parser's outcome unchanged |
| Meminfo.KeyFreeDropped | proxmox-rmem.py:75-79 | any run of lines that start with neither key, anywhere in the input, can be dropped without changing the outcome |
| Meminfo.TailIgnored | proxmox-rmem.py:75-79 | key-free lines after a prefix leave the prefix's readings unchanged |
| Meminfo.MeminfoLineReads | proxmox-rmem.py:77 | a kernel-format line (key, one or more blanks, value, `kB`) starts with its key, holds no line break, and its second field reads back as the value |
| Meminfo.TwoReadings | proxmox-rmem.py:75-82 | a `MemTotal:` line reading T, then a `MemAvailable:` line reading A (T, A > 0), then key-free lines, give the count `T*1024 - A*1024` |
| Meminfo.TwoReadingsApart | proxmox-rmem.py:75-82 | the same with key-free lines before `MemTotal:` and between the two key lines (such as `MemFree:`) |
| Meminfo.WellFormedMeminfo | proxmox-rmem.py:72-83 | the text made of key-free lines, `MemTotal: T kB`, key-free lines such as `MemFree:`, `MemAvailable: A kB` (each key followed by one or more blanks, T, A > 0), then key-free lines, gives exactly `(T - A) * 1024` |
| Meminfo.NegativeCountPossible | proxmox-rmem.py:81-82 | a negative count can be returned: for example, T = 1 and A = 2 give -1024 (the general case is `WellFormedMeminfo`'s) |
| Monitor.BsdMemory | proxmox-rmem.py:21-27 | the `sysctl` output gives a count iff it splits into exactly three integer fields, and the count is then `(active + wired) * page_size` of those fields in order |
| Monitor.Fetch | proxmox-rmem.py:13-70 | a guest-agent fetch gives a count only when the exec reply reports `exited == 1` and `exitcode == 0`, and the count is then the parser's result on `out-data`; a successful exec gives exactly that result; an `ssh` fetch needs a string key path, a failed `ssh` run gives `None`, and when `ssh` prints output the count is the parser's result on it; every Linux count is a multiple of 1024 |
| Monitor.BsdSysctlOutput | proxmox-rmem.py:21-27 | three integers printed one per line give `(active + wired) * page_size`, in that order |
| Monitor.BsdMemoryNone | proxmox-rmem.py:62-70 | output that does not split into exactly three fields, or has a field that is not an integer, gives `None` |
| Monitor.AgentNeedsSuccess | proxmox-rmem.py:49-50 | unless `exited == 1` and `exitcode == 0`, a guest-agent fetch gives `None`, whatever `out-data` holds |
| Monitor.AgentMissingOutput | proxmox-rmem.py:60-62 | a successful exec without `out-data` reads as empty output and gives `None` |
| Monitor.EmptyOutputGivesNone | proxmox-rmem.py:51 | neither parser accepts empty output |
| Monitor.TransportsAgree | proxmox-rmem.py:38-51 | the same output gives the same figure whether it came over `ssh` or from the guest agent |
| Monitor.SelectFetcher | proxmox-rmem.py:86-104 | a fetcher is chosen iff `method` and `type` (with their defaults) are strings; the agent gets `vmid`, and `ssh` gets `ip`, `port` (default 22) and `ssh_key` (default `/etc/proxmox-rmem/id_rsa_monitor`) |
| Monitor.SelectFetcherCases | proxmox-rmem.py:86-104 | a fetcher is chosen iff `method` and `type` (with their defaults) are strings; it is the agent iff `method` lower-cased is `qga`, and BSD iff `type` lower-cased is one of `bsd`, `opnsense`, `freebsd` |
| Monitor.SelectDefaults | proxmox-rmem.py:98-100 | an entry holding only `vmid` is fetched over `ssh` from a Linux guest, on port 22 with key `/etc/proxmox-rmem/id_rsa_monitor` |
| Monitor.SelectIgnoresCase | proxmox-rmem.py:87-88 | `method` and `type` are compared case-insensitively |
| Monitor.OverridePath | proxmox-rmem.py:107 | the override path is `/tmp/pve-vm-`, then the id as `str` prints it, then `-mem-override` |
| Monitor.OverrideWrite | proxmox-rmem.py:106-110 | a write happens iff a count was fetched and the override file can be opened; it goes to the override path, and its content is `str` of the count, which reads back with `int()` as the count |
| Monitor.UpdateVm | proxmox-rmem.py:106-110 | `update_vm` leaves the file system as it was when nothing is written; otherwise the override path holds the content written and every other path holds what it held |
| Monitor.UpdateVmLookup | proxmox-rmem.py:106-110 | after `update_vm`, the override path holds the count it wrote, if it wrote one, and every other path holds what it held |
| Monitor.OverrideRoundTrip | proxmox-rmem.py:106-110 | on success the override file exists and its content reads back with `int()` as the fetched count |
| Monitor.NoCountNoWrite | proxmox-rmem.py:106 | without a count, nothing is written and a previous override stays |
| Monitor.UpdateVmFrame | proxmox-rmem.py:107-110 | no file other than the entry's own override path changes |
| Monitor.OverridePathsDistinct | proxmox-rmem.py:107 | VMs with different integer ids get different override paths |
| Monitor.RunPass | proxmox-rmem.py:126-135 | after one pass, every path holds what the last enabled entry writing it wrote, and every other path is unchanged |
| Monitor.IsEnabled | proxmox-rmem.py:128 | an entry is processed iff it has no `enabled` key or that key's value is truthy |
| Monitor.EnabledByDefault | proxmox-rmem.py:128 | an entry without `enabled` is processed |
| Monitor.DisabledEntryIgnored | proxmox-rmem.py:128-129 | removing a disabled entry from the list changes no path's final content |
| Monitor.NoWriteIgnored | proxmox-rmem.py:127-129 | removing an entry that writes nothing changes no path's last write |
| Monitor.NothingEnabledNothingWritten | proxmox-rmem.py:127-132 | a pass with no enabled entry writes nothing |
| Patcher.FindLiteral | patch_pve.py:51 | `find` gives the leftmost occurrence, or none when there is no occurrence at all |
| Patcher.Contains | patch_pve.py:33 | `pat in s` holds iff `pat` occurs somewhere in `s` |
| Patcher.NewlineFrom | patch_pve.py:44 | `[^\n]*` stops at the first `\n` or at the end |
| Patcher.LineStart | patch_pve.py:58 | `rfind('\n', 0, idx) + 1` is 0 or just after a `\n`, with no `\n` between it and `idx` |
| Patcher.AssignEndSound | patch_pve.py:44 | every match the matcher reports has the shape `lhs`, white space, `=`, white space, `rhs` |
| Patcher.AssignEndComplete | patch_pve.py:53 | every text of that shape is reported as a match, ending where the shape ends |
| Patcher.FirstPreferred | patch_pve.py:44-45 | `re.search` with the memhost pattern finds its leftmost match, or reports that it matches nowhere |
| Patcher.FirstBalloon | patch_pve.py:53 | `re.search` with the ballooninfo pattern finds its leftmost match, or reports that it matches nowhere |
| Patcher.InsertionPoint | patch_pve.py:44-62 | the insertion point lies within the content |
| Patcher.PreferredEndOfLine | patch_pve.py:62 | the end of a memhost match is after its start and sits at a `\n` or at the end of the content, past the rest of that line |
| Patcher.InsertAfterMemhost | patch_pve.py:45 | when the memhost assignment matches, the block goes at the end of its leftmost match |
| Patcher.LiteralIsBalloonMatch | patch_pve.py:50 | the literal `$d->{ballooninfo} = $info;` is also a match of the tolerant pattern |
| Patcher.InsertAtBalloonLine | patch_pve.py:47-59 | without a memhost match, there is an insertion point iff the ballooninfo pattern matches; it is then the start of the line holding the match |
| Patcher.BalloonIndex | patch_pve.py:50-57 | where the ballooninfo assignment is found, the tolerant pattern matches; nothing is found iff the pattern matches nowhere |
| Patcher.LiteralFirst | patch_pve.py:50-51 | the literal's first occurrence is used even if the tolerant pattern matches earlier |
| Patcher.TolerantFallback | patch_pve.py:52-57 | without the literal, the tolerant pattern's leftmost match is used |
| Patcher.Patch | patch_pve.py:33-64 | the result is "already patched" iff the content holds the marker, the error iff it does not and there is no insertion point, and a patched text is longer by exactly `PATCH_CODE` |
| Patcher.AlreadyPatchedIffMarker | patch_pve.py:33-35 | the result is "already patched" iff the content contains `proxmox-rmem` |
| Patcher.NoInsertionPointIff | patch_pve.py:52-56 | the result is the error iff neither the marker, nor the memhost pattern, nor the ballooninfo pattern occurs |
| Patcher.SpliceParts | patch_pve.py:64 | splicing a block in at `p` lengthens the text by the block's length, puts the block at `p`, and cutting it out gives back the text |
| Patcher.PatchIsSplice | patch_pve.py:64 | a patched result is the content with `PATCH_CODE` inserted at the insertion point: longer by exactly `PATCH_CODE`, holding it there, and the original once it is cut out |
| Patcher.MarkerInPatchCode | patch_pve.py:12 | the inserted block carries the marker `proxmox-rmem` |
| Patcher.SpliceCarriesMarker | patch_pve.py:11-23 | any text with the block spliced in carries the marker |
| Patcher.BlockReadsOverrideFile | patch_pve.py:13-14 | the block reads `/tmp/pve-vm-$vmid-mem-override`, which is the monitor's override path with `$vmid` for the id |
| Patcher.PatchIdempotent | patch_pve.py:33 | patching a patched result is the "already patched" no-op |

## Left out

- Process calls (`subprocess.check_output` for `ssh` and `qm guest exec`, with `.decode()`) are not modelled. Their results are fields of `Host`: `None` for any failure, including a non-zero exit or output that is not UTF-8.
- JSON parsing of the `qm` reply and of the configuration file is left out; only the parsed shapes are modelled.
  - `ExecResult` holds `exited` and `exitcode` as optional integers. A non-integer value is represented as absent, which the source treats the same way, with exceptions that are not modelled, because Python's `!=` compares numbers by value: an `exited` of `true` or `1.0` compares equal to 1, and an `exitcode` of `false`, `0.0` or `-0.0` compares equal to 0. The source accepts those replies; the model gives `None` for them.
  - An `out-data` that is null or not a string makes the source raise. That gives `None`, the same result the model gives for an absent one.
  - Configuration values are JSON scalars (`Value`). Floats, arrays and objects are not modelled.
  - A configuration file that is not a list of objects (where `main` itself raises) is not modelled.
- File and console I/O are left out:
  - the timestamped log, and the error message on a failed override write;
  - the backup copy, reads, writes, messages and exit codes of the patcher.
  
  A write that fails after the file was opened (and truncated) is not modelled: `canWrite` decides the whole write.
- Threads, the join and the two-second `while True` cadence of `main` are left out. One pass is modelled as the entries run in list order. When two entries write the same path concurrently, the outcome is not modelled; the model gives the last write in list order.
- The Perl block's own run-time behaviour is left out. `PATCH_CODE` is an exact string constant; only its marker and the file name it reads are stated.
- Regular expressions are not modelled in general; only the two patterns used are written out as matchers.
- PyText.ParseInt: Python's `int()` also accepts non-ASCII decimal digits and surrounding white space (which `split()` has already removed). Its limit of 4300 digits is not modelled either.
- Monitor.Lower: lower-cases ASCII letters only. The only non-ASCII characters that `str.lower()` maps into ASCII are U+212A (to `k`) and U+0130 (to `i` plus a combining dot). Neither can produce `qga`, `bsd`, `opnsense` or `freebsd`, so the fetcher chosen is the same.
