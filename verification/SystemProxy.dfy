/**
 * Apply and Restore of the system proxy over any settings platform
 * (internal/systemproxy/systemproxy.go). The platform may change the settings piecemeal
 * and stop anywhere; its one promise is that a Restore that reports success has put the
 * saved settings back.
 */
module SystemProxy {
  import opened Basics
  import opened Text

  datatype Mode = Pac | System | Unsupported

  datatype Saved<S> = Saved(os: string, mode: Mode, settings: S)

  datatype Phase<S> = Idle | Taken(saved: Saved<S>) | Applying | Undoing | Undone

  datatype Machine<S> = Machine(settings: S, rollback: Option<Saved<S>>, phase: Phase<S>, original: S)

  datatype Step<S> =
    | BeginApply(os: string, mode: Mode)
    | WriteRollback(ok: bool)
    | PlatformWrites(settings: S)
    | EndApply
    | BeginRestore(os: string)
    | PlatformRestored
    | RemoveRollback(ok: bool)
    | Crash
    | UserEdit(settings: S)

  /** One step; nothing keeps Apply from starting over a rollback file. */
  function Next<S>(m: Machine<S>, step: Step<S>): Machine<S>
  {
    match step
    case BeginApply(os, mode) =>
      if m.phase.Idle? && mode != Unsupported then m.(phase := Taken(Saved(os, mode, m.settings))) else m
    case WriteRollback(ok) =>
      if !m.phase.Taken? then m
      else if ok then m.(rollback := Some(m.phase.saved), phase := Applying)
      else m.(phase := Idle)
    case PlatformWrites(settings) =>
      if m.phase.Applying? || m.phase.Undoing? then m.(settings := settings) else m
    case EndApply => if m.phase.Applying? then m.(phase := Idle) else m
    case BeginRestore(os) =>
      if m.phase.Idle? && m.rollback.Some? && (m.rollback.value.os == "" || m.rollback.value.os == os)
      then m.(phase := Undoing) else m
    case PlatformRestored =>
      if m.phase.Undoing? && m.rollback.Some? then m.(settings := m.rollback.value.settings, phase := Undone) else m
    case RemoveRollback(ok) =>
      if m.phase.Undone? then m.(rollback := if ok then None else m.rollback, phase := Idle) else m
    case Crash => m.(phase := Idle)
    case UserEdit(settings) =>
      if m.phase.Idle? && m.rollback.None? then m.(settings := settings, original := settings) else m
  }

  function Run<S>(m: Machine<S>, steps: seq<Step<S>>): Machine<S>
    decreases |steps|
  {
    if steps == [] then m else Next(Run(m, steps[..|steps| - 1]), steps[|steps| - 1])
  }

  /** Every Apply of the run begins with no rollback file on disk. */
  ghost predicate Guarded<S>(m: Machine<S>, steps: seq<Step<S>>)
    decreases |steps|
  {
    steps != [] ==>
      var init := steps[..|steps| - 1];
      Guarded(m, init) && (steps[|steps| - 1].BeginApply? ==> Run(m, init).rollback.None?)
  }

  /** Settings that differ from the user's are saved on disk; a finished undo has put them back. */
  ghost predicate Safe<S>(m: Machine<S>)
  {
    && (m.rollback.None? ==> m.settings == m.original)
    && (m.rollback.Some? ==> m.rollback.value.settings == m.original)
    && (m.phase.Taken? ==> m.rollback.None? && m.phase.saved.settings == m.original)
    && (m.phase.Applying? || m.phase.Undoing? || m.phase.Undone? ==> m.rollback.Some?)
    && (m.phase.Undone? ==> m.settings == m.original)
  }

  /** Write-ahead safety in every guarded run, with failures, crashes and user edits anywhere. */
  lemma {:induction false} RunIsSafe<S>(m: Machine<S>, steps: seq<Step<S>>)
    requires Safe(m) && Guarded(m, steps)
    ensures Safe(Run(m, steps))
    ensures var r := Run(m, steps); r.settings != r.original ==> r.rollback.Some? && r.rollback.value.settings == r.original
    decreases |steps|
  {
    if steps != [] { RunIsSafe(m, steps[..|steps| - 1]); }
  }

  /** From every safe state with a rollback file, a completed Restore puts the user's settings back, whatever the platform wrote on the way. */
  lemma RestoreRecovers<S>(m: Machine<S>, os: string, detour: seq<S>)
    requires Safe(m) && m.rollback.Some? && (m.rollback.value.os == "" || m.rollback.value.os == os)
    ensures
      var writes := seq(|detour|, i requires 0 <= i < |detour| => PlatformWrites(detour[i]));
      var r := Run(m, [Crash, BeginRestore(os)] + writes + [PlatformRestored, RemoveRollback(true)]);
      r.settings == m.original && r.rollback.None? && r.phase.Idle?
  {
    var writes := seq(|detour|, i requires 0 <= i < |detour| => PlatformWrites(detour[i]));
    var start: seq<Step<S>> := [Crash, BeginRestore(os)];
    assert start[..1] == [Crash] && start[..1][..0] == [];
    assert Run(m, start[..1]) == Next(Run(m, []), Crash);
    assert Run(m, start).phase.Undoing? && Run(m, start).rollback == m.rollback;
    Detour(m, start, writes);
    var steps := start + writes + [PlatformRestored, RemoveRollback(true)];
    assert steps[..|steps| - 1] == start + writes + [PlatformRestored];
    assert steps[..|steps| - 1][..|start + writes|] == start + writes;
  }

  lemma {:induction false} Detour<S>(m: Machine<S>, start: seq<Step<S>>, writes: seq<Step<S>>)
    requires Run(m, start).phase.Undoing?
    requires forall i :: 0 <= i < |writes| ==> writes[i].PlatformWrites?
    ensures Run(m, start + writes).phase.Undoing?
    ensures Run(m, start + writes).rollback == Run(m, start).rollback
    decreases |writes|
  {
    if writes == [] {
      assert start + writes == start;
    } else {
      Detour(m, start, writes[..|writes| - 1]);
      assert (start + writes)[..|start + writes| - 1] == start + writes[..|writes| - 1];
    }
  }

  /**
   * An Apply that starts over a rollback file and reaches the platform keeps the machine safe
   * exactly when the settings are still the user's, which the file on disk tells.
   */
  lemma ApplyOverIsSafeExactly<S>(m: Machine<S>, os: string, mode: Mode)
    requires Safe(m) && m.phase.Idle? && mode != Unsupported
    ensures
      var steps: seq<Step<S>> := [BeginApply(os, mode), WriteRollback(true)];
      && (Safe(Run(m, steps)) <==> m.settings == m.original)
      && (Safe(Run(m, steps)) <==> (m.rollback.Some? ==> m.settings == m.rollback.value.settings))
  {
    var steps: seq<Step<S>> := [BeginApply(os, mode), WriteRollback(true)];
    assert steps[..1] == [BeginApply(os, mode)] && steps[..1][..0] == [];
    assert Run(m, steps[..1]) == Next(Run(m, []), steps[0]);
  }

  /** A machine taken over once, on which a second Apply loses the user's settings. */
  lemma SecondApplyLosesOriginal<S>(users: S, own: S, os: string, mode: Mode)
    requires users != own && mode != Unsupported
    ensures
      var m := Machine(own, Some(Saved(os, mode, users)), Idle, users);
      var steps: seq<Step<S>> := [BeginApply(os, mode), WriteRollback(true)];
      Safe(m) && !Safe(Run(m, steps))
  {
    hide Run;
    ApplyOverIsSafeExactly(Machine(own, Some(Saved(os, mode, users)), Idle, users), os, mode);
  }

  datatype Config = Config(mode: Mode, rollbackPath: string, proxyAddr: string, pacUrl: string)

  datatype Outcome = Done | Invalid | NoState | WrongOs | Failed | Crashed

  /** The two calls on one machine; `reach` is how the platform leaves the settings. */
  class Host<S(==)> {
    var settings: S
    var rollback: Option<Saved<S>>
    ghost var original: S

    constructor (settings: S)
      ensures this.settings == settings == original && rollback.None?
    {
      this.settings, this.rollback := settings, None;
      this.original := settings;
    }

    ghost function View(): Machine<S> reads this { Machine(settings, rollback, Idle, original) }

    /**
     * `httpUrl` says whether a text is an http URL with a host, `hostPort` whether it splits;
     * `reach` is where the platform leaves the settings, `result` how its call ends.
     */
    method ApplyWithPlatform(os: string, cfg: Config, httpUrl: string -> bool, hostPort: string -> bool,
                             snapshotOk: bool, writeOk: bool, reach: S, result: Outcome)
      returns (outcome: Outcome, ghost steps: seq<Step<S>>)
      requires result in {Done, Failed, Crashed}
      modifies this`settings, this`rollback
      ensures View() == Run(old(View()), steps)
      ensures old(rollback).None? ==> Guarded(old(View()), steps) && (Safe(old(View())) ==> Safe(View()))
      ensures outcome == Invalid <==>
        !(TrimSpace(cfg.rollbackPath) != ""
          && ((cfg.mode == Pac && TrimSpace(cfg.pacUrl) != "" && httpUrl(cfg.pacUrl)) || (cfg.mode == System && hostPort(cfg.proxyAddr))))
      ensures outcome != Invalid ==> outcome == if !snapshotOk || !writeOk then Failed else result
      ensures var reached := outcome != Invalid && snapshotOk && writeOk;
        && settings == (if reached then reach else old(settings))
        && rollback == if reached then Some(Saved(os, cfg.mode, old(settings))) else old(rollback)
    {
      hide Run, Guarded;
      ghost var m := View();
      ghost var m0 := m;
      steps := [];
      RunNothing(m0);
      if TrimSpace(cfg.rollbackPath) == "" { return Invalid, []; }
      match cfg.mode {
        case Pac => if TrimSpace(cfg.pacUrl) == "" || !httpUrl(cfg.pacUrl) { return Invalid, []; }
        case System => if !hostPort(cfg.proxyAddr) { return Invalid, []; }
        case Unsupported => return Invalid, [];
      }
      if !snapshotOk { return Failed, []; }
      var mode := cfg.mode;
      var saved := Saved(os, mode, settings);
      m, steps := Take(m0, m, steps, BeginApply(os, mode));
      m, steps := Take(m0, m, steps, WriteRollback(writeOk));
      if !writeOk {
        EndsSafe(m0, steps);
        return Failed, steps;
      }
      rollback := Some(saved);
      settings := reach;
      m, steps := Take(m0, m, steps, PlatformWrites(reach));
      m, steps := Take(m0, m, steps, EndApply);
      EndsSafe(m0, steps);
      outcome := result;
    }

    /** `reach` is read only when the platform's Restore does not succeed. */
    method RestoreWithPlatform(os: string, platformOk: bool, reach: S, removeOk: bool)
      returns (outcome: Outcome, ghost steps: seq<Step<S>>)
      modifies this`settings, this`rollback
      ensures View() == Run(old(View()), steps)
      ensures outcome == if old(rollback).None? then NoState
                         else if old(rollback).value.os != "" && old(rollback).value.os != os then WrongOs
                         else if platformOk && removeOk then Done else Failed
      ensures settings == if outcome == NoState || outcome == WrongOs then old(settings)
                          else if platformOk then old(rollback).value.settings else reach
      ensures rollback == if outcome == Done then None else old(rollback)
      ensures Guarded(old(View()), steps) && (Safe(old(View())) ==> Safe(View()))
      ensures Safe(old(View())) && outcome == Done ==> settings == original && rollback.None?
    {
      hide Run, Guarded;
      ghost var m := View();
      ghost var m0 := m;
      steps := [];
      RunNothing(m0);
      if rollback.None? { return NoState, []; }
      var saved := rollback.value;
      if saved.os != "" && saved.os != os { return WrongOs, []; }
      m, steps := Take(m0, m, steps, BeginRestore(os));
      if !platformOk {
        settings := reach;
        m, steps := Take(m0, m, steps, PlatformWrites(reach));
        m, steps := Take(m0, m, steps, Crash);
        EndsSafe(m0, steps);
        return Failed, steps;
      }
      settings := saved.settings;
      m, steps := Take(m0, m, steps, PlatformRestored);
      m, steps := Take(m0, m, steps, RemoveRollback(removeOk));
      EndsSafe(m0, steps);
      if !removeOk { return Failed, steps; }
      rollback := None;
      outcome := Done;
    }
  }

  lemma RunNothing<S>(m: Machine<S>) ensures Run(m, []) == m && Guarded(m, []) {}

  lemma EndsSafe<S>(m: Machine<S>, steps: seq<Step<S>>)
    ensures Safe(m) && Guarded(m, steps) ==> Safe(Run(m, steps))
  {
    if Safe(m) && Guarded(m, steps) { RunIsSafe(m, steps); }
  }

  ghost method Take<S>(m0: Machine<S>, m: Machine<S>, steps: seq<Step<S>>, step: Step<S>)
    returns (m': Machine<S>, steps': seq<Step<S>>)
    requires m == Run(m0, steps)
    ensures m' == Next(m, step) == Run(m0, steps') && steps' == steps + [step]
    ensures Guarded(m0, steps') <==> Guarded(m0, steps) && (step.BeginApply? ==> m.rollback.None?)
  {
    m', steps' := Next(m, step), steps + [step];
    assert steps'[..|steps|] == steps;
  }
}
