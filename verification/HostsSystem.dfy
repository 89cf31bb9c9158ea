/**
 * Apply and Restore of the hosts file (internal/hosts/hosts.go) over a disk that holds the
 * files and one rollback state, with a failure or a crash at every point a call touches it.
 */
module HostsSystem {
  import opened Basics
  import opened Text
  import opened HostsText
  import opened Ordering

  const WINDOWS := "windows"
  const HOSTS := "hosts"

  datatype Config = Config(path: string, rollbackPath: string, mapIp: string, entries: seq<Entry>)

  datatype RollbackState = RollbackState(kind: string, mode: string, os: string, path: string, entries: seq<Entry>)

  datatype Disk = Disk(files: map<string, string>, rollback: Option<RollbackState>)

  /** What goes wrong during one call. A failed write leaves the file as it was. */
  datatype Fault =
    | NoFault
    | ReadFault
    | StateFault
    | CrashBeforeWrite
    | WriteFault(removeFails: bool)
    | CrashAfterWrite
    | RemoveFault

  datatype Env = Env(platform: string, cancelled: bool, fault: Fault)

  datatype Error = NoState | Unsupported | Invalid | WrongOs | Cancelled | ReadFailed | StateFailed | WriteFailed | RemoveFailed | Crashed

  predicate ValidConfig(cfg: Config)
  {
    TrimSpace(cfg.path) != "" && TrimSpace(cfg.rollbackPath) != "" && TrimSpace(cfg.mapIp) != "" && cfg.entries != []
  }

  function StateFor(cfg: Config): RollbackState
  {
    RollbackState(HOSTS, HOSTS, WINDOWS, cfg.path, cfg.entries)
  }

  predicate IsHostsState(state: RollbackState) { state.kind == HOSTS || state.mode == HOSTS }

  /** The disk after an Apply call and the error it returns. */
  function ApplyCall(f: Format, d: Disk, cfg: Config, env: Env): (Disk, Option<Error>)
  {
    if env.platform != WINDOWS then (d, Some(Unsupported))
    else if !ValidConfig(cfg) then (d, Some(Invalid))
    else if env.cancelled then (d, Some(Cancelled))
    else if env.fault == ReadFault || cfg.path !in d.files then (d, Some(ReadFailed))
    else if env.fault == StateFault then (d, Some(StateFailed))
    else
      var saved := Some(StateFor(cfg));
      if env.fault == CrashBeforeWrite then (d.(rollback := saved), Some(Crashed))
      else if env.fault.WriteFault? then
        (d.(rollback := if env.fault.removeFails then saved else None), Some(WriteFailed))
      else
        (Disk(d.files[cfg.path := f.Managed(d.files[cfg.path], cfg.entries)], saved),
         if env.fault == CrashAfterWrite then Some(Crashed) else None)
  }

  /** The disk after a Restore call and the error it returns. */
  function RestoreCall(f: Format, d: Disk, env: Env): (Disk, Option<Error>)
  {
    if d.rollback.None? || !IsHostsState(d.rollback.value) then (d, Some(NoState))
    else if env.platform != WINDOWS then (d, Some(Unsupported))
    else if d.rollback.value.os != "" && d.rollback.value.os != env.platform then (d, Some(WrongOs))
    else if env.cancelled then (d, Some(Cancelled))
    else
      var path := d.rollback.value.path;
      if env.fault == ReadFault || path !in d.files then (d, Some(ReadFailed))
      else if env.fault == CrashBeforeWrite then (d, Some(Crashed))
      else if env.fault.WriteFault? then (d, Some(WriteFailed))
      else
        var files := d.files[path := f.Unmanaged(d.files[path])];
        if env.fault == CrashAfterWrite then (d.(files := files), Some(Crashed))
        else if env.fault == RemoveFault then (d.(files := files), Some(RemoveFailed))
        else (Disk(files, None), None)
  }

  class Machine {
    const format: Format
    var files: map<string, string>
    var rollback: Option<RollbackState>

    constructor (format: Format, files: map<string, string>)
      ensures this.format == format && this.files == files && rollback == None
    {
      this.format, this.files, this.rollback := format, files, None;
    }

    function Contents(): Disk reads this { Disk(files, rollback) }

    method ApplyWithPlatform(cfg: Config, env: Env) returns (err: Option<Error>)
      modifies this
      ensures (Contents(), err) == ApplyCall(format, old(Contents()), cfg, env)
    {
      if env.platform != WINDOWS { return Some(Unsupported); }
      if !ValidConfig(cfg) { return Some(Invalid); }
      if env.cancelled { return Some(Cancelled); }
      if env.fault == ReadFault || cfg.path !in files { return Some(ReadFailed); }
      var original := files[cfg.path];
      var next := format.AppendManagedBlock(original, cfg.entries);
      if env.fault == StateFault { return Some(StateFailed); }
      rollback := Some(StateFor(cfg));
      if env.fault == CrashBeforeWrite { return Some(Crashed); }
      if env.fault.WriteFault? {
        if !env.fault.removeFails { rollback := None; }
        return Some(WriteFailed);
      }
      files := files[cfg.path := next];
      return if env.fault == CrashAfterWrite then Some(Crashed) else None;
    }

    method RestoreWithPlatform(env: Env) returns (err: Option<Error>)
      modifies this
      ensures (Contents(), err) == RestoreCall(format, old(Contents()), env)
    {
      if rollback.None? || !IsHostsState(rollback.value) { return Some(NoState); }
      var state := rollback.value;
      if env.platform != WINDOWS { return Some(Unsupported); }
      if state.os != "" && state.os != env.platform { return Some(WrongOs); }
      if env.cancelled { return Some(Cancelled); }
      if env.fault == ReadFault || state.path !in files { return Some(ReadFailed); }
      var next := format.RemoveManagedBlock(files[state.path]);
      if env.fault == CrashBeforeWrite { return Some(Crashed); }
      if env.fault.WriteFault? { return Some(WriteFailed); }
      files := files[state.path := next];
      if env.fault == CrashAfterWrite { return Some(Crashed); }
      if env.fault == RemoveFault { return Some(RemoveFailed); }
      rollback := None;
      return None;
    }
  }

  // ----- every run of calls -----

  datatype Call = Apply(cfg: Config, env: Env) | Restore(env: Env)

  function Do(f: Format, d: Disk, c: Call): (Disk, Option<Error>)
  {
    match c
    case Apply(cfg, env) => ApplyCall(f, d, cfg, env)
    case Restore(env) => RestoreCall(f, d, env)
  }

  function Run(f: Format, d: Disk, calls: seq<Call>): Disk
    decreases |calls|
  {
    if calls == [] then d else Run(f, Do(f, d, calls[0]).0, calls[1..])
  }

  /** If the call is about the file, its entries stay inside the block. */
  ghost predicate InertCall(f: Format, c: Call, p: string)
  {
    c.Apply? && c.cfg.path == p ==> forall e :: e in c.cfg.entries ==> f.Inert(e)
  }

  /** The user's part of the file is the same on both disks, and stays removable exactly. */
  ghost predicate SameUserContent(f: Format, d: Disk, d': Disk, p: string)
  {
    && p in d.files && p in d'.files
    && f.Unmanaged(d'.files[p]) == f.Unmanaged(d.files[p]) && f.Settled(d'.files[p])
  }

  lemma EditKeepsUserContent(f: Format, file: string, entries: seq<Entry>)
    requires f.Proper() && f.Settled(file)
    requires forall e :: e in entries ==> f.Inert(e)
    ensures f.Unmanaged(f.Managed(file, entries)) == f.Unmanaged(file) && f.Settled(f.Managed(file, entries))
    ensures f.Unmanaged(f.Unmanaged(file)) == f.Unmanaged(file) && f.Settled(f.Unmanaged(file))
  {
    hide *;
    f.RemoveUndoesAppend(file, entries);
    f.RemoveIdempotent(file);
    f.SettledByUnmanaged(file, f.Managed(file, entries));
    f.SettledByUnmanaged(file, f.Unmanaged(file));
  }

  lemma CallKeepsUserContent(f: Format, d0: Disk, d: Disk, c: Call, p: string)
    requires f.Proper() && InertCall(f, c, p) && SameUserContent(f, d0, d, p)
    ensures SameUserContent(f, d0, Do(f, d, c).0, p)
  {
    hide Format.Settled, Format.Unmanaged, Format.Managed, Format.Inert, Format.Proper, ValidConfig;
    if c.Apply? && c.cfg.path == p { EditKeepsUserContent(f, d.files[p], c.cfg.entries); }
    if c.Restore? { EditKeepsUserContent(f, d.files[p], []); }
  }

  /**
   * Over every run of Apply and Restore calls, with any entries and any failures or crashes,
   * the user content of a file without stray carriage returns never changes, whatever is in
   * the other files.
   */
  lemma {:induction false} RunKeepsUserContent(f: Format, d0: Disk, d: Disk, calls: seq<Call>, p: string)
    requires f.Proper() && SameUserContent(f, d0, d, p)
    requires forall c :: c in calls ==> InertCall(f, c, p)
    ensures SameUserContent(f, d0, Run(f, d, calls), p)
    decreases |calls|
  {
    hide Do, SameUserContent, InertCall, Format.Proper;
    if calls != [] {
      CallKeepsUserContent(f, d0, d, calls[0], p);
      RunKeepsUserContent(f, d0, Do(f, d, calls[0]).0, calls[1..], p);
    }
  }

  lemma {:induction false} RunKeepsFiles(f: Format, d: Disk, calls: seq<Call>)
    ensures Run(f, d, calls).files.Keys == d.files.Keys
    decreases |calls|
  {
    hide Format.Unmanaged, Format.Managed, ValidConfig;
    if calls != [] { RunKeepsFiles(f, Do(f, d, calls[0]).0, calls[1..]); }
  }

  /**
   * A Restore that completes after any run changes the recorded file alone, and leaves in it
   * exactly the user content of the first disk, if that file has no stray carriage return.
   */
  lemma CompletedRestore(f: Format, d0: Disk, calls: seq<Call>, env: Env)
    requires f.Proper()
    ensures
      var d := Run(f, d0, calls);
      var (d', err) := RestoreCall(f, d, env);
      err == None ==>
        && d.rollback.Some? && d'.rollback == None && var p := d.rollback.value.path;
        && p in d0.files && p in d.files && d'.files == d.files[p := f.Unmanaged(d.files[p])]
        && (f.Settled(d0.files[p]) && (forall c :: c in calls ==> InertCall(f, c, p)) ==> d'.files[p] == f.Unmanaged(d0.files[p]))
  {
    hide Run, Format.Settled, Format.Unmanaged, InertCall, Format.Proper;
    var d := Run(f, d0, calls);
    RunKeepsFiles(f, d0, calls);
    if d.rollback.Some? && d.rollback.value.path in d0.files {
      var p := d.rollback.value.path;
      if f.Settled(d0.files[p]) && forall c :: c in calls ==> InertCall(f, c, p) { RunKeepsUserContent(f, d0, d0, calls, p); }
    }
  }

  // ----- calls that refuse -----

  /** A call that is refused or cannot read leaves the disk as it was and says why. */
  lemma RefusedCalls(f: Format, d: Disk, cfg: Config, env: Env)
    ensures
      var (d', err) := ApplyCall(f, d, cfg, env);
      var bad := TrimSpace(cfg.path) == "" || TrimSpace(cfg.rollbackPath) == "" || TrimSpace(cfg.mapIp) == "" || cfg.entries == [];
      && (env.platform != "windows" ==> err == Some(Unsupported)) && (env.platform == "windows" && bad ==> err == Some(Invalid))
      && (env.platform == "windows" && !bad && env.cancelled ==> err == Some(Cancelled))
      && (env.platform == "windows" && !bad && !env.cancelled && (env.fault == ReadFault || cfg.path !in d.files) ==> err == Some(ReadFailed))
      && (err in {Some(Unsupported), Some(Invalid), Some(Cancelled), Some(ReadFailed), Some(StateFailed)} ==> d' == d)
    ensures
      var (d', err) := RestoreCall(f, d, env);
      var ours := d.rollback.Some? && (d.rollback.value.kind == "hosts" || d.rollback.value.mode == "hosts");
      && (!ours ==> err == Some(NoState)) && (ours && env.platform != "windows" ==> err == Some(Unsupported))
      && (ours && env.platform == "windows" && d.rollback.value.os != "" && d.rollback.value.os != "windows" ==> err == Some(WrongOs))
      && (err in {Some(NoState), Some(Unsupported), Some(WrongOs), Some(Cancelled), Some(ReadFailed), Some(WriteFailed)} ==> d' == d)
      && (d'.rollback == None && d.rollback.Some? ==> err == None)
  {
    hide TrimSpace, Format.Managed, Format.Unmanaged;
  }

  // ----- calls that complete -----

  /** What Restore asks of the state on disk before it touches the file. */
  ghost predicate Restorable(d: Disk)
  {
    d.rollback.Some? ==>
      && (d.rollback.value.kind == "hosts" || d.rollback.value.mode == "hosts")
      && (d.rollback.value.os == "" || d.rollback.value.os == "windows")
      && d.rollback.value.path in d.files
  }

  lemma {:induction false} RunStaysRestorable(f: Format, d: Disk, calls: seq<Call>)
    requires Restorable(d)
    ensures Restorable(Run(f, d, calls))
    decreases |calls|
  {
    hide Format.Unmanaged, Format.Managed, ValidConfig;
    if calls != [] { RunStaysRestorable(f, Do(f, d, calls[0]).0, calls[1..]); }
  }

  /**
   * Restore completes: after any run from a disk with no rollback state, whatever failed on the
   * way, a Restore that nothing disturbs finds no state, or removes the block of the recorded
   * file and the state, and returns no error.
   */
  lemma RestoreCompletes(f: Format, d0: Disk, calls: seq<Call>)
    requires d0.rollback == None
    ensures
      var d := Run(f, d0, calls);
      var done := RestoreCall(f, d, Env("windows", false, NoFault));
      match d.rollback
      case None => done == (d, Some(NoState))
      case Some(state) =>
        && state.path in d.files && done.1 == None && done.0.rollback == None
        && done.0.files == d.files[state.path := f.Unmanaged(d.files[state.path])]
  {
    hide Run, Format.Unmanaged;
    RunStaysRestorable(f, d0, calls);
  }

  /**
   * Apply completes: with a valid configuration of a file that is there, an Apply that nothing
   * disturbs leaves the block in that file, every other file alone, and a state that names the
   * file and its entries; the Restore after it brings the user content back and no state.
   */
  lemma ApplyThenRestore(f: Format, d: Disk, cfg: Config)
    requires f.Proper() && cfg.path in d.files && f.Settled(d.files[cfg.path])
    requires TrimSpace(cfg.path) != "" && TrimSpace(cfg.rollbackPath) != "" && TrimSpace(cfg.mapIp) != "" && cfg.entries != []
    requires forall e :: e in cfg.entries ==> f.Inert(e)
    ensures
      var calm := Env("windows", false, NoFault);
      var (d1, e1) := ApplyCall(f, d, cfg, calm);
      var (d2, e2) := RestoreCall(f, d1, calm);
      && e1 == None && d1.files == d.files[cfg.path := f.Managed(d.files[cfg.path], cfg.entries)] && HasBlock(f, d1.files[cfg.path])
      && d1.rollback.Some? && d1.rollback.value.path == cfg.path && d1.rollback.value.entries == cfg.entries
      && e2 == None && d2.rollback == None && d2.files == d.files[cfg.path := f.Unmanaged(d.files[cfg.path])]
  {
    hide TrimSpace, Format.Managed, Format.Unmanaged, Format.Proper, Format.Settled, Format.Inert, FileLines, Format.BeginCount;
    EditKeepsUserContent(f, d.files[cfg.path], cfg.entries);
    f.ManagedHasBegin(d.files[cfg.path], cfg.entries);
  }

  // ----- write-ahead safety -----

  ghost predicate HasBlock(f: Format, file: string) { f.BeginCount(FileLines(file)) > 0 }

  /** A block that was not in the first disk's file is recorded by the rollback state. */
  ghost predicate Recorded(f: Format, d0: Disk, d: Disk)
  {
    && d.files.Keys == d0.files.Keys
    && forall p :: p in d.files && HasBlock(f, d.files[p]) && !HasBlock(f, d0.files[p]) ==>
         d.rollback.Some? && IsHostsState(d.rollback.value) && d.rollback.value.path == p
  }

  /** Every Apply of the run begins with no rollback state on disk. */
  ghost predicate Guarded(f: Format, d: Disk, calls: seq<Call>)
    decreases |calls|
  {
    calls == [] || ((calls[0].Apply? ==> d.rollback == None) && Guarded(f, Do(f, d, calls[0]).0, calls[1..]))
  }

  lemma CallKeepsRecord(f: Format, d0: Disk, d: Disk, c: Call)
    requires f.Proper() && Recorded(f, d0, d) && (c.Apply? ==> d.rollback == None)
    ensures Recorded(f, d0, Do(f, d, c).0)
  {
    hide Format.Unmanaged, Format.Managed, Format.Proper, ValidConfig, FileLines, Format.BeginCount;
    if d.rollback.Some? && d.rollback.value.path in d.files {
      f.UnmanagedHasNoBegin(d.files[d.rollback.value.path]);
    }
  }

  /** In every guarded run a Restore can always find the block it has to remove. */
  lemma {:induction false} GuardedRunKeepsRecord(f: Format, d0: Disk, d: Disk, calls: seq<Call>)
    requires f.Proper() && Recorded(f, d0, d) && Guarded(f, d, calls)
    ensures Recorded(f, d0, Run(f, d, calls))
    decreases |calls|
  {
    hide Do, Recorded, Format.Proper;
    if calls != [] {
      CallKeepsRecord(f, d0, d, calls[0]);
      GuardedRunKeepsRecord(f, d0, Do(f, d, calls[0]).0, calls[1..]);
    }
  }

  /** The call gets as far as writing its rollback state. */
  predicate WritesState(d: Disk, cfg: Config, env: Env)
  {
    && env.platform == WINDOWS && ValidConfig(cfg) && !env.cancelled && cfg.path in d.files
    && env.fault != ReadFault && env.fault != StateFault
  }

  /** The block of `p` came with the program. */
  ghost predicate Gained(f: Format, d0: Disk, d: Disk, p: string)
    requires p in d.files && d0.files.Keys == d.files.Keys
  {
    HasBlock(f, d.files[p]) && !HasBlock(f, d0.files[p])
  }

  /**
   * An Apply, guarded or not, keeps the record exactly when it does not get to its rollback
   * state, or every block the program has added is in the file it is about, and its own write
   * does not fail with the state then removed.
   */
  lemma ApplyKeepsRecordExactly(f: Format, d0: Disk, d: Disk, cfg: Config, env: Env)
    requires Recorded(f, d0, d)
    ensures Recorded(f, d0, ApplyCall(f, d, cfg, env).0)
       <==> (WritesState(d, cfg, env) ==> forall p :: p in d.files && Gained(f, d0, d, p) ==> p == cfg.path && env.fault != WriteFault(false))
  {
    hide HasBlock, ValidConfig, Format.Managed;
    var d' := ApplyCall(f, d, cfg, env).0;
    assert forall p :: p in d.files && p != cfg.path ==> d'.files[p] == d.files[p];
  }

  /** After such a failed write no Restore does anything: it finds no state. */
  lemma FailedReapplyLosesRecord(f: Format, d: Disk, cfg: Config, env: Env, env': Env)
    requires WritesState(d, cfg, env) && env.fault == WriteFault(false)
    ensures
      var (d', err) := ApplyCall(f, d, cfg, env);
      err == Some(WriteFailed) && d'.files == d.files && RestoreCall(f, d', env') == (d', Some(NoState))
  {
  }

  /** Two Applies to different files, nothing failing, leave the first file's block without a record. */
  lemma SecondPathLosesRecord(f: Format, d0: Disk, a: Config, b: Config)
    requires f.Proper() && a.path != b.path && a.path in d0.files && b.path in d0.files && !HasBlock(f, d0.files[a.path])
    requires ValidConfig(a) && ValidConfig(b) && forall e :: e in a.entries ==> f.Inert(e)
    requires d0.rollback == None
    ensures
      var ok := Env(WINDOWS, false, NoFault);
      Recorded(f, d0, d0) && !Recorded(f, d0, Run(f, d0, [Apply(a, ok), Apply(b, ok)]))
  {
    hide ValidConfig, Format.Managed, Format.Proper, Format.Inert, FileLines, Format.BeginCount;
    var ok := Env(WINDOWS, false, NoFault);
    var calls := [Apply(a, ok), Apply(b, ok)];
    var d1 := Do(f, d0, calls[0]).0;
    var d2 := Do(f, d1, calls[1]).0;
    assert calls[1..] == [calls[1]] && calls[1..][1..] == [];
    assert Run(f, d0, calls) == Run(f, d1, calls[1..]) == Run(f, d2, []) == d2;
    f.ManagedHasBegin(d0.files[a.path], a.entries);
    assert HasBlock(f, d2.files[a.path]) && d2.rollback.value.path == b.path;
  }

  /** The guard is needed: on every clean disk, an Apply followed by one whose write fails loses the record. */
  lemma ReapplyLosesRecord(f: Format, d0: Disk, cfg: Config)
    requires f.Proper() && d0.rollback == None && cfg.path in d0.files && !HasBlock(f, d0.files[cfg.path])
    requires ValidConfig(cfg) && forall e :: e in cfg.entries ==> f.Inert(e)
    ensures
      var calls := [Apply(cfg, Env(WINDOWS, false, NoFault)), Apply(cfg, Env(WINDOWS, false, WriteFault(false)))];
      Recorded(f, d0, d0) && !Recorded(f, d0, Run(f, d0, calls))
  {
    hide ValidConfig, Format.Managed, Format.Proper, Format.Inert, FileLines, Format.BeginCount;
    var calls := [Apply(cfg, Env(WINDOWS, false, NoFault)), Apply(cfg, Env(WINDOWS, false, WriteFault(false)))];
    var d1 := Do(f, d0, calls[0]).0;
    var d2 := Do(f, d1, calls[1]).0;
    assert calls[1..] == [calls[1]] && calls[1..][1..] == [];
    assert Run(f, d0, calls) == Run(f, d1, calls[1..]) == Run(f, d2, []) == d2;
    f.ManagedHasBegin(d0.files[cfg.path], cfg.entries);
    assert d2.rollback == None && d2.files == d1.files;
    assert HasBlock(f, d2.files[cfg.path]);
  }

  // ----- entries from domains -----

  datatype EntriesError = MapIpRequired | WildcardDomain(domain: string) | BadDomain(domain: string)

  /** What the loop makes of the domains: hosts in order, or the first error. */
  function HostsOf(domains: seq<string>, norm: string -> Option<string>): Result<seq<string>, EntriesError>
  {
    if domains == [] then Ok([])
    else
      var domain := TrimSpace(domains[|domains| - 1]);
      var before := HostsOf(domains[..|domains| - 1], norm);
      if before.Err? || domain == "" then before
      else if '*' in domain then Err(WildcardDomain(domain))
      else if norm(domain).None? then Err(BadDomain(domain))
      else Ok(before.value + [norm(domain).value])
  }

  function EntryKey(e: Entry): seq<string> { [e.host, e.ip] }

  /** One entry per normalised host, all at the mapped address, in host order; any sort gives the same list. */
  method EntriesFromDomains(domains: seq<string>, mapIp: string, norm: string -> Option<string>)
    returns (r: Result<seq<Entry>, EntriesError>)
    ensures r == Err(MapIpRequired) <==> TrimSpace(mapIp) == ""
    ensures TrimSpace(mapIp) != "" && HostsOf(domains, norm).Err? ==> r == Err(HostsOf(domains, norm).error)
    ensures TrimSpace(mapIp) != "" && HostsOf(domains, norm).Ok? ==>
      && r.Ok? && Distinct(r.value) && Sorted(r.value, EntryKey)
      && (forall e :: e in r.value <==> e.ip == mapIp && e.host in HostsOf(domains, norm).value)
      && (forall s :: Sorted(s, EntryKey) && multiset(s) == multiset(r.value) ==> s == r.value)
      && (forall i, j :: 0 <= i < j < |r.value| ==> StrLe(r.value[i].host, r.value[j].host))
  {
    hide TrimSpace, Sorted;
    if TrimSpace(mapIp) == "" { return Err(MapIpRequired); }
    var seen: set<string> := {};
    var entries: seq<Entry> := [];
    for i := 0 to |domains|
      invariant HostsOf(domains[..i], norm).Ok?
      invariant forall h :: h in seen <==> h in HostsOf(domains[..i], norm).value
      invariant forall e :: e in entries <==> e.ip == mapIp && e.host in seen
      invariant Distinct(entries)
    {
      assert domains[..i + 1][..i] == domains[..i];
      var domain := TrimSpace(domains[i]);
      if domain == "" { continue; }
      if '*' in domain {
        FirstError(domains, i + 1, norm);
        return Err(WildcardDomain(domain));
      }
      var host := norm(domain);
      if host.None? {
        FirstError(domains, i + 1, norm);
        return Err(BadDomain(domain));
      }
      if host.value !in seen {
        seen := seen + {host.value};
        entries := entries + [Entry(mapIp, host.value)];
      }
    }
    assert domains[..|domains|] == domains;
    var sorted := SortSlice(entries, EntryKey);
    SameElements(entries, sorted);
    OnlySorting(sorted);
    InHostOrder(sorted);
    r := Ok(sorted);
  }

  lemma InHostOrder(sorted: seq<Entry>)
    requires Sorted(sorted, EntryKey)
    ensures forall i, j :: 0 <= i < j < |sorted| ==> StrLe(sorted[i].host, sorted[j].host)
  {
    hide KeyLe;
    forall i, j | 0 <= i < j < |sorted| ensures StrLe(sorted[i].host, sorted[j].host) {
      var a, b := sorted[i], sorted[j];
      assert EntryKey(a) == [a.host] + [a.ip] && EntryKey(b) == [b.host] + [b.ip];
      KeyLeMeans(a.host, b.host, [a.ip], [b.ip]);
      StrLeTotal(a.host, b.host);
    }
  }

  lemma OnlySorting(sorted: seq<Entry>)
    requires Sorted(sorted, EntryKey)
    ensures forall s :: Sorted(s, EntryKey) && multiset(s) == multiset(sorted) ==> s == sorted
  {
    hide Sorted;
    forall s | Sorted(s, EntryKey) && multiset(s) == multiset(sorted) ensures s == sorted {
      EntryKeyInjective();
      SortedUnique(s, sorted, EntryKey);
    }
  }

  /** A domain the list can take: blank, or without a star and with a normal form. */
  ghost predicate Takable(domain: string, norm: string -> Option<string>)
  {
    TrimSpace(domain) == "" || ('*' !in TrimSpace(domain) && norm(TrimSpace(domain)).Some?)
  }

  /** The hosts are the normal forms of the domains that are not blank; the error is that of the first domain it cannot take. */
  lemma {:induction false} HostsAreNormalForms(domains: seq<string>, norm: string -> Option<string>)
    ensures HostsOf(domains, norm).Ok? <==> forall i :: 0 <= i < |domains| ==> Takable(domains[i], norm)
    ensures HostsOf(domains, norm).Ok? ==> forall h ::
      h in HostsOf(domains, norm).value <==> exists i :: 0 <= i < |domains| && TrimSpace(domains[i]) != "" && norm(TrimSpace(domains[i])) == Some(h)
    ensures HostsOf(domains, norm).Err? ==>
      exists n :: 0 <= n < |domains| && !Takable(domains[n], norm) && (forall i :: 0 <= i < n ==> Takable(domains[i], norm))
        && HostsOf(domains, norm).error == (if '*' in TrimSpace(domains[n]) then WildcardDomain(TrimSpace(domains[n])) else BadDomain(TrimSpace(domains[n])))
  {
    hide TrimSpace;
    if domains != [] {
      var init, last := domains[..|domains| - 1], domains[|domains| - 1];
      HostsAreNormalForms(init, norm);
      assert forall i :: 0 <= i < |init| ==> domains[i] == init[i];
      if HostsOf(init, norm).Err? {
        var n :| 0 <= n < |init| && !Takable(init[n], norm) && (forall i :: 0 <= i < n ==> Takable(init[i], norm))
          && HostsOf(init, norm).error == (if '*' in TrimSpace(init[n]) then WildcardDomain(TrimSpace(init[n])) else BadDomain(TrimSpace(init[n])));
        assert !Takable(domains[n], norm) && forall i :: 0 <= i < n ==> Takable(domains[i], norm);
      } else if HostsOf(domains, norm).Ok? {
        LastHost(domains, norm);
      } else {
        assert !Takable(domains[|init|], norm);
      }
    }
  }

  lemma LastHost(domains: seq<string>, norm: string -> Option<string>)
    requires domains != [] && HostsOf(domains, norm).Ok?
    requires var init := domains[..|domains| - 1];
      HostsOf(init, norm).Ok? && forall h ::
        h in HostsOf(init, norm).value <==> exists i :: 0 <= i < |init| && TrimSpace(init[i]) != "" && norm(TrimSpace(init[i])) == Some(h)
    ensures forall h ::
      h in HostsOf(domains, norm).value <==> exists i :: 0 <= i < |domains| && TrimSpace(domains[i]) != "" && norm(TrimSpace(domains[i])) == Some(h)
  {
    hide TrimSpace;
    var init := domains[..|domains| - 1];
    assert forall i :: 0 <= i < |init| ==> domains[i] == init[i];
    assert forall i :: 0 <= i < |domains| ==> i < |init| || domains[i] == domains[|domains| - 1];
  }

  lemma EntryKeyInjective()
    ensures Injective(EntryKey)
  {
    forall a, b | EntryKey(a) == EntryKey(b) ensures a == b {
      assert EntryKey(a)[0] == EntryKey(b)[0] && EntryKey(a)[1] == EntryKey(b)[1];
    }
  }

  lemma {:induction false} FirstError(domains: seq<string>, n: nat, norm: string -> Option<string>)
    requires n <= |domains| && HostsOf(domains[..n], norm).Err?
    ensures HostsOf(domains, norm) == HostsOf(domains[..n], norm)
    decreases |domains|
  {
    if n == |domains| {
      assert domains[..n] == domains;
    } else {
      assert domains[..|domains| - 1][..n] == domains[..n];
      FirstError(domains[..|domains| - 1], n, norm);
    }
  }
}
