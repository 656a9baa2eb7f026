/**
 * The per-VM logic of proxmox-rmem.py: the BSD `sysctl` arithmetic, the check
 * on a `qm guest exec` result, the choice of one of four fetchers from a VM's
 * configuration entry, the override file `update_vm` writes, and one pass of
 * `main` over the configured entries.
 *
 * The external world (the remote shell, the guest agent, the file system) is
 * given as values: a `Host` says what each command line would produce and
 * whether a path can be opened for writing, and the file system is a map from
 * path to content.
 */
module Monitor {
  import opened Optional
  import opened PyText
  import opened Meminfo

  // ---------------------------------------------------------------------
  // Configuration values (JSON scalars) and the Python operations on them
  // ---------------------------------------------------------------------

  /** A JSON scalar as `json.load` gives it. */
  datatype Value = VInt(i: int) | VStr(s: string) | VBool(b: bool) | VNull

  /** One entry of the configuration list: a JSON object. */
  type VmConfig = map<string, Value>

  /** `cfg.get(key, default)`. */
  function Get(cfg: VmConfig, key: string, default: Value): Value {
    if key in cfg then cfg[key] else default
  }

  /** Python's `str(v)` (and the text an f-string substitutes). */
  function PyStr(v: Value): string {
    match v
    case VInt(i) => IntToString(i)
    case VStr(s) => s
    case VBool(b) => if b then "True" else "False"
    case VNull => "None"
  }

  /** Python's truth value of `v`. */
  predicate Truthy(v: Value) {
    match v
    case VInt(i) => i != 0
    case VStr(s) => s != ""
    case VBool(b) => b
    case VNull => false
  }

  function LowerChar(c: char): char {
    if 'A' <= c <= 'Z' then (c as int - 'A' as int + 'a' as int) as char else c
  }

  function UpperChar(c: char): char {
    if 'a' <= c <= 'z' then (c as int - 'a' as int + 'A' as int) as char else c
  }

  /** `s.lower()` on the ASCII letters. */
  function AsciiLower(s: string): (r: string)
    ensures |r| == |s| && forall k :: 0 <= k < |s| ==> r[k] == LowerChar(s[k])
  {
    seq(|s|, k requires 0 <= k < |s| => LowerChar(s[k]))
  }

  /** `s.upper()` on the ASCII letters. */
  function AsciiUpper(s: string): (r: string)
    ensures |r| == |s| && forall k :: 0 <= k < |s| ==> r[k] == UpperChar(s[k])
  {
    seq(|s|, k requires 0 <= k < |s| => UpperChar(s[k]))
  }

  /** `v.lower()`: `None` where Python raises `AttributeError` (not a string). */
  function Lower(v: Value): Option<string> {
    if v.VStr? then Some(AsciiLower(v.s)) else None
  }

  // ---------------------------------------------------------------------
  // The external world
  // ---------------------------------------------------------------------

  /** The JSON object `qm guest exec` prints; a key that is absent is `None`. */
  datatype ExecResult = ExecResult(exited: Option<int>, exitcode: Option<int>, outData: Option<string>)

  /** What the host does with a command line and a path: the text a command
    * prints (`None` when `check_output` raises: it could not start, exited
    * non-zero, or its output is not UTF-8), the parsed reply of `qm guest exec`
    * (`None` when the command fails or its output is not a JSON object), and
    * whether a path can be opened for writing. */
  datatype Host = Host(
    run: seq<string> -> Option<string>,
    guestExec: seq<string> -> Option<ExecResult>,
    canWrite: string -> bool)

  /** The file system, as far as the monitor touches it. */
  type Files = map<string, string>

  // ---------------------------------------------------------------------
  // The four fetchers
  // ---------------------------------------------------------------------

  datatype OsFamily = Linux | Bsd

  /** A fetcher together with the arguments `update_vm` passes it. */
  datatype Fetcher =
    | Agent(vmid: Value, os: OsFamily)
    | Shell(ip: Value, port: Value, keyPath: Value, os: OsFamily)

  const SYSCTL_NAMES := ["vm.stats.vm.v_active_count", "vm.stats.vm.v_wire_count", "vm.stats.vm.v_page_size"]
  const SYSCTL_COMMAND := "sysctl -n vm.stats.vm.v_active_count vm.stats.vm.v_wire_count vm.stats.vm.v_page_size"
  const MEMINFO_COMMAND := "cat /proc/meminfo"

  /** The `ssh` command line; `None` where building or starting it raises
    * because the key path is not a string. */
  function SshCommand(ip: Value, port: Value, keyPath: Value, remote: string): Option<seq<string>> {
    if keyPath.VStr? then
      Some(["ssh", "-o", "StrictHostKeyChecking=no", "-o", "ConnectTimeout=3",
            "-p", PyStr(port), "-i", keyPath.s, "root@" + PyStr(ip), remote])
    else None
  }

  /** The `qm guest exec` command line. */
  function AgentCommand(vmid: Value, os: OsFamily): seq<string> {
    ["qm", "guest", "exec", PyStr(vmid), "--"]
      + (if os == Bsd then ["sysctl", "-n"] + SYSCTL_NAMES else ["cat", "/proc/meminfo"])
  }

  /** The three-integer `sysctl` output: `(active + wired) * page_size`, or
    * `None` unless it splits into exactly three integers. */
  function BsdMemory(output: string): (r: Option<int>)
    ensures r.Some? <==>
      && |Fields(output)| == 3
      && forall k :: 0 <= k < 3 ==> ParseInt(Fields(output)[k]).Some?
    ensures r.Some? ==>
      r.value == (ParseInt(Fields(output)[0]).value + ParseInt(Fields(output)[1]).value) * ParseInt(Fields(output)[2]).value
  {
    var tokens := Fields(output);
    if |tokens| != 3 then None
    else
      match (ParseInt(tokens[0]), ParseInt(tokens[1]), ParseInt(tokens[2]))
      case (Some(active), Some(wired), Some(pageSize)) => Some((active + wired) * pageSize)
      case _ => None
  }

  /** The guest ran the command to completion with exit code 0. */
  predicate ExecSucceeded(r: ExecResult) {
    r.exited == Some(1) && r.exitcode == Some(0)
  }

  /** `result.get('out-data', '')`. */
  function ExecOutput(r: ExecResult): string {
    r.outData.GetOr("")
  }

  /** The parser a fetcher feeds its output to. */
  function ParseFor(os: OsFamily, output: string): Option<int> {
    if os == Bsd then BsdMemory(output) else LinuxMemory(output)
  }

  /** `fetch_memory_{ssh,qga}_{linux,bsd}`: every failure is `None`. */
  function Fetch(f: Fetcher, host: Host): (r: Option<int>)
    ensures r.Some? && f.Agent? ==>
      && host.guestExec(AgentCommand(f.vmid, f.os)).Some?
      && ExecSucceeded(host.guestExec(AgentCommand(f.vmid, f.os)).value)
      && r == ParseFor(f.os, ExecOutput(host.guestExec(AgentCommand(f.vmid, f.os)).value))
    ensures f.Agent? && host.guestExec(AgentCommand(f.vmid, f.os)).Some?
                     && ExecSucceeded(host.guestExec(AgentCommand(f.vmid, f.os)).value) ==>
      r == ParseFor(f.os, ExecOutput(host.guestExec(AgentCommand(f.vmid, f.os)).value))
    ensures r.Some? && f.Shell? ==>
      (&& f.keyPath.VStr?
       && host.run(SshCommand(f.ip, f.port, f.keyPath, if f.os == Bsd then SYSCTL_COMMAND else MEMINFO_COMMAND).value).Some?)
    ensures f.Shell? && f.keyPath.VStr? ==>
      var cmd := SshCommand(f.ip, f.port, f.keyPath, if f.os == Bsd then SYSCTL_COMMAND else MEMINFO_COMMAND).value;
      host.run(cmd).Some? ==> r == ParseFor(f.os, host.run(cmd).value)
    ensures r.Some? && f.os == Linux ==> r.value % 1024 == 0
  {
    match f
    case Agent(vmid, os) =>
      (match host.guestExec(AgentCommand(vmid, os))
       case None => None
       case Some(r) => if ExecSucceeded(r) then ParseFor(os, ExecOutput(r)) else None)
    case Shell(ip, port, keyPath, os) =>
      var remote := if os == Bsd then SYSCTL_COMMAND else MEMINFO_COMMAND;
      match SshCommand(ip, port, keyPath, remote)
      case None => None
      case Some(cmd) =>
        (match host.run(cmd)
         case None => None
         case Some(output) => ParseFor(os, output))
  }

  // ---------------------------------------------------------------------
  // update_vm
  // ---------------------------------------------------------------------

  const BSD_TYPES := ["bsd", "opnsense", "freebsd"]
  const DEFAULT_KEY := "/etc/proxmox-rmem/id_rsa_monitor"
  const DEFAULT_PORT := 22

  /** The fetcher `update_vm` calls; `None` where it raises first, because
    * `method` or `type` is not a string. */
  function SelectFetcher(cfg: VmConfig): (r: Option<Fetcher>)
    ensures r.Some? <==> Get(cfg, "method", VStr("ssh")).VStr? && Get(cfg, "type", VStr("linux")).VStr?
    ensures r.Some? && r.value.Agent? ==> r.value.vmid == Get(cfg, "vmid", VNull)
    ensures r.Some? && r.value.Shell? ==>
      && r.value.ip == Get(cfg, "ip", VNull)
      && r.value.port == Get(cfg, "port", VInt(DEFAULT_PORT))
      && r.value.keyPath == Get(cfg, "ssh_key", VStr(DEFAULT_KEY))
  {
    match (Lower(Get(cfg, "method", VStr("ssh"))), Lower(Get(cfg, "type", VStr("linux"))))
    case (Some(transport), Some(osType)) =>
      var os := if osType in BSD_TYPES then Bsd else Linux;
      if transport == "qga" then Some(Agent(Get(cfg, "vmid", VNull), os))
      else Some(Shell(Get(cfg, "ip", VNull), Get(cfg, "port", VInt(DEFAULT_PORT)),
                      Get(cfg, "ssh_key", VStr(DEFAULT_KEY)), os))
    case _ => None
  }

  /** The byte count `update_vm` obtains for an entry, if any. */
  function MemoryOf(cfg: VmConfig, host: Host): Option<int> {
    match SelectFetcher(cfg)
    case None => None
    case Some(f) => Fetch(f, host)
  }

  /** `/tmp/pve-vm-{vmid}-mem-override`. */
  function OverridePath(vmid: Value): (p: string)
    ensures |p| == 12 + |PyStr(vmid)| + 13
    ensures p[..12] == "/tmp/pve-vm-" && p[|p| - 13..] == "-mem-override"
    ensures p[12..12 + |PyStr(vmid)|] == PyStr(vmid)
  {
    "/tmp/pve-vm-" + PyStr(vmid) + "-mem-override"
  }

  /** The one write `update_vm` performs, as (path, content); `None` when it
    * writes nothing (no byte count, or the file cannot be opened). */
  function OverrideWrite(cfg: VmConfig, host: Host): (w: Option<(string, string)>)
    ensures w.Some? <==> MemoryOf(cfg, host).Some? && host.canWrite(OverridePath(Get(cfg, "vmid", VNull)))
    ensures w.Some? ==> w.value.0 == OverridePath(Get(cfg, "vmid", VNull))
    ensures w.Some? ==> w.value.1 == IntToString(MemoryOf(cfg, host).value)
    ensures w.Some? ==> ParseInt(w.value.1) == MemoryOf(cfg, host)
  {
    match MemoryOf(cfg, host)
    case None => None
    case Some(bytes) =>
      ParseIntRoundTrip(bytes);
      var path := OverridePath(Get(cfg, "vmid", VNull));
      if host.canWrite(path) then Some((path, IntToString(bytes))) else None
  }

  /** The file system after `update_vm` ran for `cfg`. */
  function UpdateVm(cfg: VmConfig, host: Host, files: Files): (after: Files)
    ensures OverrideWrite(cfg, host).None? ==> after == files
    ensures OverrideWrite(cfg, host).Some? ==>
      after.Keys == files.Keys + {OverrideWrite(cfg, host).value.0}
    ensures forall path ::
      (Lookup(after, path)
       == if OverrideWrite(cfg, host).Some? && OverrideWrite(cfg, host).value.0 == path
          then Some(OverrideWrite(cfg, host).value.1)
          else Lookup(files, path))
  {
    match OverrideWrite(cfg, host)
    case None => files
    case Some((path, content)) => files[path := content]
  }

  // ---------------------------------------------------------------------
  // main: one pass over the configuration list
  // ---------------------------------------------------------------------

  /** `vm.get('enabled', True)` is truthy. */
  predicate IsEnabled(cfg: VmConfig)
    ensures IsEnabled(cfg) <==> "enabled" !in cfg || Truthy(cfg["enabled"])
  {
    Truthy(Get(cfg, "enabled", VBool(true)))
  }

  function Lookup(files: Files, path: string): Option<string> {
    if path in files then Some(files[path]) else None
  }

  /** The write one entry of the list causes: none when it is disabled. */
  function EntryWrite(cfg: VmConfig, host: Host): Option<(string, string)> {
    if IsEnabled(cfg) then OverrideWrite(cfg, host) else None
  }

  /** The writes of a whole list, entry by entry. */
  function Writes(config: seq<VmConfig>, hosts: seq<Host>): (ws: seq<Option<(string, string)>>)
    requires |hosts| == |config|
    ensures |ws| == |config|
    ensures forall k :: 0 <= k < |config| ==> ws[k] == EntryWrite(config[k], hosts[k])
  {
    seq(|config|, k requires 0 <= k < |config| => EntryWrite(config[k], hosts[k]))
  }

  /** The content of the LAST write to `path` among `ws`. */
  function LastWrite(ws: seq<Option<(string, string)>>, path: string): Option<string> {
    if ws == [] then None
    else
      var w := ws[|ws| - 1];
      if w.Some? && w.value.0 == path then Some(w.value.1)
      else LastWrite(ws[..|ws| - 1], path)
  }

  /** One pass of `main` over the configuration list: every enabled entry is
    * updated, in list order (`hosts[i]` is what entry `i` meets). Every path
    * ends up holding what the last write to it wrote, and every other path is
    * as it was. */
  method RunPass(config: seq<VmConfig>, hosts: seq<Host>, files: Files) returns (after: Files)
    requires |hosts| == |config|
    ensures forall path :: Lookup(after, path) == OrElse(LastWrite(Writes(config, hosts), path), Lookup(files, path))
  {
    ghost var ws := Writes(config, hosts);
    after := files;
    for i := 0 to |config|
      invariant forall path :: Lookup(after, path) == OrElse(LastWrite(ws[..i], path), Lookup(files, path))
    {
      LastWriteStep(ws, i);
      if !IsEnabled(config[i]) {
        continue;
      }
      UpdateVmLookup(config[i], hosts[i], after);
      after := UpdateVm(config[i], hosts[i], after);
    }
    assert ws[..|config|] == ws;
  }

  /** One more write either is the last write to a path or leaves its last write. */
  lemma LastWriteStep(ws: seq<Option<(string, string)>>, i: nat)
    requires i < |ws|
    ensures forall path ::
      (LastWrite(ws[..i + 1], path)
       == if ws[i].Some? && ws[i].value.0 == path then Some(ws[i].value.1) else LastWrite(ws[..i], path))
  {
    var front := ws[..i + 1];
    assert front[..i] == ws[..i];
    assert front[|front| - 1] == ws[i];
    forall path
      ensures LastWrite(front, path)
           == if ws[i].Some? && ws[i].value.0 == path then Some(ws[i].value.1) else LastWrite(ws[..i], path)
    {
    }
  }

  /** What `update_vm` leaves at each path: its write, or what was there. */
  lemma UpdateVmLookup(cfg: VmConfig, host: Host, files: Files)
    ensures forall path ::
      (Lookup(UpdateVm(cfg, host, files), path)
       == OrElse(LastWrite([OverrideWrite(cfg, host)], path), Lookup(files, path)))
  {
    var ws := [OverrideWrite(cfg, host)];
    assert ws[..0] == [];
  }

  // ---------------------------------------------------------------------
  // Properties
  // ---------------------------------------------------------------------

  /** `sysctl -n` prints the three values one per line; in that order they
    * give `(active + wired) * page_size`. */
  lemma BsdSysctlOutput(active: int, wired: int, pageSize: int)
    ensures BsdMemory(LinesThen([IntToString(active), IntToString(wired), IntToString(pageSize)], ""))
         == Some((active + wired) * pageSize)
  {
    var ws := [IntToString(active), IntToString(wired), IntToString(pageSize)];
    IntToStringWord(active);
    IntToStringWord(wired);
    IntToStringWord(pageSize);
    FieldsLinesThen(ws);
    ParseIntRoundTrip(active);
    ParseIntRoundTrip(wired);
    ParseIntRoundTrip(pageSize);
  }

  /** Anything but exactly three fields gives no count, and so does a field
    * that is not an integer. */
  lemma BsdMemoryNone(output: string)
    requires
      || |Fields(output)| != 3
      || exists k :: 0 <= k < |Fields(output)| && ParseInt(Fields(output)[k]).None?
    ensures BsdMemory(output) == None
  {
  }

  /** The guest-agent result is looked at only when the command exited with
    * code 0: any other status gives `None`, whatever `out-data` holds. */
  lemma AgentNeedsSuccess(vmid: Value, os: OsFamily, host: Host)
    requires host.guestExec(AgentCommand(vmid, os)).Some?
    requires !ExecSucceeded(host.guestExec(AgentCommand(vmid, os)).value)
    ensures Fetch(Agent(vmid, os), host) == None
  {
  }

  /** A successful exec with no `out-data` is read as empty output, which
    * neither parser accepts. */
  lemma {:induction false} AgentMissingOutput(vmid: Value, os: OsFamily, host: Host)
    requires host.guestExec(AgentCommand(vmid, os)) == Some(ExecResult(Some(1), Some(0), None))
    ensures Fetch(Agent(vmid, os), host) == None
  {
    EmptyOutputGivesNone(os);
  }

  lemma EmptyOutputGivesNone(os: OsFamily)
    ensures ParseFor(os, "") == None
  {
    assert SplitLines("") == [];
    assert Fields("") == [];
    assert LastReading([], MEM_TOTAL) == 0;
  }

  /** The transport does not change the figure: the agent's `out-data` and
    * the same text printed over `ssh` give the same result. */
  lemma TransportsAgree(vmid: Value, ip: Value, port: Value, keyPath: string, os: OsFamily,
                        host: Host, output: string)
    requires host.guestExec(AgentCommand(vmid, os)) == Some(ExecResult(Some(1), Some(0), Some(output)))
    requires host.run(SshCommand(ip, port, VStr(keyPath), if os == Bsd then SYSCTL_COMMAND else MEMINFO_COMMAND).value)
          == Some(output)
    ensures Fetch(Agent(vmid, os), host) == Fetch(Shell(ip, port, VStr(keyPath), os), host) == ParseFor(os, output)
  {
  }

  /** Dispatch: `method` (default `ssh`) and `type` (default `linux`) must be
    * strings; only `qga`, in any letter case, selects the guest agent; `bsd`,
    * `opnsense` and `freebsd`, in any case, select the BSD parser. */
  lemma SelectFetcherCases(cfg: VmConfig)
    ensures SelectFetcher(cfg).Some? <==>
      Get(cfg, "method", VStr("ssh")).VStr? && Get(cfg, "type", VStr("linux")).VStr?
    ensures SelectFetcher(cfg).Some? ==>
      && (SelectFetcher(cfg).value.Agent? <==> AsciiLower(Get(cfg, "method", VStr("ssh")).s) == "qga")
      && (SelectFetcher(cfg).value.os == Bsd <==> AsciiLower(Get(cfg, "type", VStr("linux")).s) in BSD_TYPES)
  {
  }

  /** An entry that names nothing but a VM id is fetched over `ssh` from a
    * Linux guest, on port 22 with the default key. */
  lemma SelectDefaults(vmid: Value)
    ensures SelectFetcher(map["vmid" := vmid]) ==
      Some(Shell(VNull, VInt(22), VStr("/etc/proxmox-rmem/id_rsa_monitor"), Linux))
  {
    var cfg := map["vmid" := vmid];
    assert AsciiLower("ssh") == "ssh";
    assert AsciiLower("linux") == "linux";
    assert "linux" != "bsd" && "linux" != "opnsense" && "linux" != "freebsd";
  }

  /** `.lower()` makes the choice case-insensitive: writing `method` or `type`
    * in upper case selects the same fetcher. */
  lemma SelectIgnoresCase(cfg: VmConfig, key: string, s: string)
    requires key == "method" || key == "type"
    ensures SelectFetcher(cfg[key := VStr(AsciiUpper(s))]) == SelectFetcher(cfg[key := VStr(s)])
  {
    assert AsciiLower(AsciiUpper(s)) == AsciiLower(s);
  }

  /** The override file holds the decimal byte count, which `int()` reads back. */
  lemma OverrideRoundTrip(cfg: VmConfig, host: Host, files: Files)
    requires MemoryOf(cfg, host).Some?
    requires host.canWrite(OverridePath(Get(cfg, "vmid", VNull)))
    ensures OverridePath(Get(cfg, "vmid", VNull)) in UpdateVm(cfg, host, files)
    ensures ParseInt(UpdateVm(cfg, host, files)[OverridePath(Get(cfg, "vmid", VNull))])
         == MemoryOf(cfg, host)
  {
    ParseIntRoundTrip(MemoryOf(cfg, host).value);
  }

  /** Without a byte count nothing is written: a previous override stays. */
  lemma NoCountNoWrite(cfg: VmConfig, host: Host, files: Files)
    requires MemoryOf(cfg, host).None?
    ensures UpdateVm(cfg, host, files) == files
  {
  }

  /** `update_vm` touches no file but its own override file. */
  lemma UpdateVmFrame(cfg: VmConfig, host: Host, files: Files, path: string)
    requires path != OverridePath(Get(cfg, "vmid", VNull))
    ensures Lookup(UpdateVm(cfg, host, files), path) == Lookup(files, path)
  {
  }

  /** Two VMs with different integer ids never share an override file. */
  lemma OverridePathsDistinct(a: int, b: int)
    requires a != b
    ensures OverridePath(VInt(a)) != OverridePath(VInt(b))
  {
    var prefix := "/tmp/pve-vm-";
    var suffix := "-mem-override";
    if OverridePath(VInt(a)) == OverridePath(VInt(b)) {
      var pa := OverridePath(VInt(a));
      var pb := OverridePath(VInt(b));
      assert |IntToString(a)| == |IntToString(b)|;
      assert IntToString(a) == pa[|prefix|..|prefix| + |IntToString(a)|];
      assert IntToString(b) == pb[|prefix|..|prefix| + |IntToString(b)|];
      IntToStringInjective(a, b);
    }
  }

  /** An entry without an `enabled` key is processed. */
  lemma EnabledByDefault(cfg: VmConfig)
    requires "enabled" !in cfg
    ensures IsEnabled(cfg)
  {
  }

  /** A disabled entry has no effect on the pass: dropping it changes no
    * path's final content. */
  lemma DisabledEntryIgnored(config: seq<VmConfig>, hosts: seq<Host>, i: nat, path: string)
    requires |hosts| == |config| && i < |config|
    requires !IsEnabled(config[i])
    ensures LastWrite(Writes(config, hosts), path)
         == LastWrite(Writes(config[..i] + config[i + 1..], hosts[..i] + hosts[i + 1..]), path)
  {
    var ws := Writes(config, hosts);
    var ws' := Writes(config[..i] + config[i + 1..], hosts[..i] + hosts[i + 1..]);
    assert ws' == ws[..i] + ws[i + 1..];
    NoWriteIgnored(ws, i, path);
  }

  /** Dropping an entry that writes nothing changes no path's last write. */
  lemma {:induction false} NoWriteIgnored(ws: seq<Option<(string, string)>>, i: nat, path: string)
    requires i < |ws| && ws[i].None?
    ensures LastWrite(ws, path) == LastWrite(ws[..i] + ws[i + 1..], path)
    decreases |ws|
  {
    var n := |ws| - 1;
    var ws' := ws[..i] + ws[i + 1..];
    if i == n {
      assert ws' == ws[..n];
    } else {
      NoWriteIgnored(ws[..n], i, path);
      assert ws'[..|ws'| - 1] == ws[..n][..i] + ws[..n][i + 1..];
      assert ws'[|ws'| - 1] == ws[n];
    }
  }

  /** When no entry is enabled, a pass writes nothing. */
  lemma NothingEnabledNothingWritten(config: seq<VmConfig>, hosts: seq<Host>, path: string)
    requires |hosts| == |config|
    requires forall k :: 0 <= k < |config| ==> !IsEnabled(config[k])
    ensures LastWrite(Writes(config, hosts), path) == None
  {
    NoWritesNoLast(Writes(config, hosts), path);
  }

  lemma {:induction false} NoWritesNoLast(ws: seq<Option<(string, string)>>, path: string)
    requires forall k :: 0 <= k < |ws| ==> ws[k].None?
    ensures LastWrite(ws, path) == None
    decreases |ws|
  {
    if ws != [] {
      NoWritesNoLast(ws[..|ws| - 1], path);
    }
  }
}
