/**
 * Apply and Restore of the system DNS settings, one disk write or interface change at a
 * time (internal/systemdns/systemdns.go, internal/systemdns/windows_platform.go). Every
 * step may fail, and the program may crash between any two.
 */
module SystemDnsRun {
  import opened Basics
  import opened Text
  import opened SystemDns

  const KIND := "system_dns"
  const MODE := "dns"
  const WINDOWS := "windows"

  datatype State = State(kind: string, os: string, mode: string, interfaces: seq<InterfaceState>, serverIps: seq<string>)

  /** Where a call is; `Idle` also stands for a program that crashed or returned. */
  datatype Phase =
    | Idle
    | Taken(state: State)
    | Applying(done: nat)
    | Undoing(done: nat)

  /**
   * The machine: its adapters, their DNS settings, the rollback file, and the settings the
   * user had (`original`), which the program does not know.
   */
  datatype Machine = Machine(adapters: seq<Adapter>, dns: map<int, Setting>, rollback: Option<State>,
                             phase: Phase, original: map<int, Setting>)

  datatype Step =
    | BeginApply(selectors: seq<string>, serverIps: seq<string>)
    | WriteRollback(ok: bool)
    | SetInterface(ok: bool)
    | EndApply
    | BeginRestore
    | ResetInterface(ok: bool)
    | RemoveRollback(ok: bool)
    | Crash
    | UserEdit(index: int, setting: Setting)

  function Reports(adapters: seq<Adapter>, dns: map<int, Setting>): (r: seq<Item>)
    requires forall i :: 0 <= i < |adapters| ==> adapters[i].index in dns
    ensures |r| == |adapters|
    ensures forall i :: 0 <= i < |r| ==> r[i] == Report(adapters[i], dns[adapters[i].index])
  {
    seq(|adapters|, i requires 0 <= i < |adapters| => Report(adapters[i], dns[adapters[i].index]))
  }

  predicate Selectable(items: seq<Item>, selectors: seq<string>)
  {
    selectors != [] && forall n :: 0 <= n < |selectors| ==> MatchingItems(items, selectors[n]) != []
  }

  ghost function Selected(items: seq<Item>, selectors: seq<string>): seq<InterfaceState>
  {
    FirstByIndex(AllMatches(items, selectors))
  }

  /** `interfaceIndexes`: the indexes the apply script visits. */
  function PositiveIndexes(saved: seq<InterfaceState>): seq<int>
  {
    if saved == [] then []
    else PositiveIndexes(saved[..|saved| - 1]) + (if saved[|saved| - 1].index > 0 then [saved[|saved| - 1].index] else [])
  }

  ghost predicate AdaptersKnown(m: Machine)
  {
    forall i :: 0 <= i < |m.adapters| ==> m.adapters[i].index in m.dns
  }

  /** The checks Restore makes on the file before it touches anything. */
  predicate Accepts(state: State)
  {
    && (state.kind == "" || state.kind == KIND) && (state.mode == "" || state.mode == MODE)
    && (state.os == "" || state.os == WINDOWS) && state.interfaces != []
  }

  /** One step; a step that is not enabled changes nothing. Nothing keeps Apply from starting over a rollback file. */
  ghost function Next(m: Machine, step: Step): Machine
  {
    match step
    case BeginApply(selectors, serverIps) =>
      if m.phase == Idle && AdaptersKnown(m) && Selectable(Reports(m.adapters, m.dns), selectors) then
        m.(phase := Taken(State(KIND, WINDOWS, MODE, Selected(Reports(m.adapters, m.dns), selectors), serverIps)))
      else m
    case WriteRollback(ok) =>
      if !m.phase.Taken? then m
      else if !ok then m.(phase := Idle)
      else m.(rollback := Some(m.phase.state), phase := Applying(0))
    case SetInterface(ok) =>
      if !m.phase.Applying? || m.rollback.None? then m
      else
        var indexes := PositiveIndexes(m.rollback.value.interfaces);
        if m.phase.done >= |indexes| then m
        else if !ok then m.(phase := Idle)
        else m.(dns := m.dns[indexes[m.phase.done] := Static(m.rollback.value.serverIps)], phase := Applying(m.phase.done + 1))
    case EndApply => if m.phase.Applying? then m.(phase := Idle) else m
    case BeginRestore =>
      if m.phase == Idle && m.rollback.Some? && Accepts(m.rollback.value) then m.(phase := Undoing(0)) else m
    case ResetInterface(ok) =>
      if !m.phase.Undoing? || m.rollback.None? || m.phase.done >= |m.rollback.value.interfaces| then m
      else if !ok then m.(phase := Idle)
      else
        var saved := m.rollback.value.interfaces[m.phase.done];
        m.(dns := m.dns[saved.index := Target(saved)], phase := Undoing(m.phase.done + 1))
    case RemoveRollback(ok) =>
      if !m.phase.Undoing? || m.rollback.None? || m.phase.done < |m.rollback.value.interfaces| then m
      else m.(rollback := if ok then None else m.rollback, phase := Idle)
    case Crash => m.(phase := Idle)
    case UserEdit(index, setting) =>
      if m.phase == Idle && m.rollback == None && index in m.dns then
        m.(dns := m.dns[index := setting], original := m.original[index := setting])
      else m
  }

  ghost function Run(m: Machine, steps: seq<Step>): Machine
    decreases |steps|
  {
    if steps == [] then m else Next(Run(m, steps[..|steps| - 1]), steps[|steps| - 1])
  }

  /** Every adapter the selectors match reports the setting it has faithfully. */
  ghost predicate Reported(adapters: seq<Adapter>, dns: map<int, Setting>, selectors: seq<string>)
  {
    forall i :: 0 <= i < |adapters| && adapters[i].index in dns && Wanted(Report(adapters[i], dns[adapters[i].index]), selectors)
      ==> Faithful(adapters[i], dns[adapters[i].index])
  }

  /** Every Apply of the run begins with no rollback file on disk, on interfaces that report what they hold. */
  ghost predicate Guarded(m: Machine, steps: seq<Step>)
    decreases |steps|
  {
    steps != [] ==>
      var init := steps[..|steps| - 1];
      Guarded(m, init) && (steps[|steps| - 1].BeginApply? ==> MayApply(Run(m, init), steps[|steps| - 1].selectors))
  }

  ghost predicate MayApply(m: Machine, selectors: seq<string>) { m.rollback == None && Reported(m.adapters, m.dns, selectors) }

  lemma {:induction false} RestoringIsGuarded(m: Machine, steps: seq<Step>)
    requires forall i :: 0 <= i < |steps| ==> !steps[i].BeginApply?
    ensures Guarded(m, steps)
    decreases |steps|
  {
    hide Run;
    if steps != [] { RestoringIsGuarded(m, steps[..|steps| - 1]); }
  }

  // ----- the invariant -----

  /** The saved interface holds the user's setting. */
  ghost predicate Holds(saved: InterfaceState, original: map<int, Setting>)
  {
    saved.index in original && Target(saved) == original[saved.index]
  }

  ghost predicate AllHold(saved: seq<InterfaceState>, original: map<int, Setting>)
  {
    forall k :: 0 <= k < |saved| ==> Holds(saved[k], original)
  }

  ghost predicate WellFormed(m: Machine)
  {
    && m.dns.Keys == m.original.Keys
    && (forall i :: 0 <= i < |m.adapters| ==> m.adapters[i].index in m.original)
  }

  /** Write-ahead safety: an interface that differs from its original is held by the rollback file. */
  ghost predicate WriteAhead(m: Machine)
  {
    match m.rollback
    case None => m.dns == m.original
    case Some(state) =>
      && Accepts(state) && AllHold(state.interfaces, m.original)
      && forall x :: x in m.dns && x in m.original && m.dns[x] != m.original[x] ==> HasIndex(state.interfaces, x)
  }

  ghost predicate PhaseFits(m: Machine)
  {
    match m.phase
    case Idle => true
    case Taken(state) => m.rollback == None && Accepts(state) && AllHold(state.interfaces, m.original)
    case Applying(done) => m.rollback.Some?
    case Undoing(done) =>
      && m.rollback.Some? && done <= |m.rollback.value.interfaces|
      && forall k :: 0 <= k < done ==> Restored(m, m.rollback.value.interfaces[k].index)
  }

  ghost predicate Restored(m: Machine, x: int) { x in m.dns && x in m.original && m.dns[x] == m.original[x] }

  ghost predicate Safe(m: Machine) { WellFormed(m) && WriteAhead(m) && PhaseFits(m) }

  lemma SnapshotHolds(m: Machine, selectors: seq<string>)
    requires WellFormed(m) && m.dns == m.original && Selectable(Reports(m.adapters, m.dns), selectors) && Reported(m.adapters, m.dns, selectors)
    ensures AllHold(Selected(Reports(m.adapters, m.dns), selectors), m.original)
    ensures Selected(Reports(m.adapters, m.dns), selectors) != []
  {
    hide Target, SaveItem, Report, Faithful, Matches, FirstByIndex, MatchingItems, AllMatches, Holds, Wanted, Reported;
    var items := Reports(m.adapters, m.dns);
    var all := AllMatches(items, selectors);
    AllMatchesComeFromItems(items, selectors);
    FirstByIndexCovers(all);
    forall k | 0 <= k < |FirstByIndex(all)| ensures Holds(FirstByIndex(all)[k], m.original) {
      SavedFromReport(m, selectors, all, FirstByIndex(all)[k]);
    }
    MatchesNotEmpty(items, selectors);
    assert HasIndex(FirstByIndex(all), all[0].index);
  }

  lemma MatchesNotEmpty(items: seq<Item>, selectors: seq<string>)
    requires Selectable(items, selectors)
    ensures AllMatches(items, selectors) != []
  {
    hide MatchingItems;
    assert MatchingItems(items, selectors[|selectors| - 1]) != [];
  }

  lemma SavedFromReport(m: Machine, selectors: seq<string>, all: seq<Item>, saved: InterfaceState)
    requires WellFormed(m) && m.dns == m.original && SavedFrom(saved, all) && Reported(m.adapters, m.dns, selectors)
    requires forall j :: 0 <= j < |all| ==> all[j] in Reports(m.adapters, m.dns) && Wanted(all[j], selectors)
    ensures Holds(saved, m.original)
  {
    hide Target, SaveItem, Report, Faithful, Holds, Wanted;
    var items := Reports(m.adapters, m.dns);
    var j :| 0 <= j < |all| && saved == SaveItem(all[j]);
    var i :| 0 <= i < |items| && items[i] == all[j];
    SavedHolds(m, i);
  }

  lemma SavedHolds(m: Machine, i: nat)
    requires WellFormed(m) && i < |m.adapters| && Faithful(m.adapters[i], m.original[m.adapters[i].index])
    ensures Holds(SaveItem(Report(m.adapters[i], m.original[m.adapters[i].index])), m.original)
  {
    hide Target, SaveItem, Report, Faithful;
    var a := m.adapters[i];
    SaveRestoreRoundTrip(a, m.original[a.index]);
    SaveKeepsIndex(Report(a, m.original[a.index]));
    ReportKeepsIndex(a, m.original[a.index]);
  }

  lemma ReportKeepsIndex(a: Adapter, setting: Setting) ensures Report(a, setting).index == a.index {}

  lemma {:induction false} IndexesAreSaved(saved: seq<InterfaceState>)
    ensures forall k :: 0 <= k < |PositiveIndexes(saved)| ==> HasIndex(saved, PositiveIndexes(saved)[k])
  {
    if saved != [] {
      var init, last := saved[..|saved| - 1], saved[|saved| - 1];
      IndexesAreSaved(init);
      HasIndexSnoc(init, last);
      assert init + [last] == saved;
    }
  }

  /** A saved index names an interface of the machine. */
  lemma SavedIndexKnown(saved: seq<InterfaceState>, original: map<int, Setting>, x: int)
    requires AllHold(saved, original) && HasIndex(saved, x)
    ensures x in original
  {
    hide Target;
    var k :| 0 <= k < |saved| && saved[k].index == x;
    assert Holds(saved[k], original);
  }

  /** Once every saved interface is restored, every interface is. */
  lemma AllRestored(m: Machine)
    requires Safe(m) && m.phase.Undoing? && m.phase.done == |m.rollback.value.interfaces|
    ensures m.dns == m.original
  {
    hide Target;
    var saved := m.rollback.value.interfaces;
    forall x | x in m.dns ensures m.dns[x] == m.original[x] {
      if HasIndex(saved, x) {
        var k :| 0 <= k < |saved| && saved[k].index == x;
        assert Restored(m, saved[k].index);
      }
    }
  }

  lemma ApplyStepsKeepSafe(m: Machine, step: Step)
    requires Safe(m) && (step.BeginApply? ==> MayApply(m, step.selectors))
    requires (step.BeginApply? || step.WriteRollback? || step.SetInterface? || step.EndApply?)
    ensures Safe(Next(m, step))
  {
    hide Target, Selected, Selectable, Reported;
    if step.BeginApply? {
      if m.phase == Idle && m.rollback == None && Selectable(Reports(m.adapters, m.dns), step.selectors) {
        SnapshotHolds(m, step.selectors);
      }
    } else if step.SetInterface? && m.phase.Applying? {
      var saved := m.rollback.value.interfaces;
      var indexes := PositiveIndexes(saved);
      IndexesAreSaved(saved);
      if m.phase.done < |indexes| { SavedIndexKnown(saved, m.original, indexes[m.phase.done]); }
    }
  }

  lemma RestoreStepsKeepSafe(m: Machine, step: Step)
    requires Safe(m) && (step.BeginRestore? || step.ResetInterface? || step.RemoveRollback?)
    ensures Safe(Next(m, step))
    ensures Next(m, step).rollback == None && m.rollback.Some? ==> m.dns == m.original && Next(m, step).dns == m.original
  {
    hide Target;
    if m.phase.Undoing? {
      if m.phase.done == |m.rollback.value.interfaces| { AllRestored(m); }
      else { assert Holds(m.rollback.value.interfaces[m.phase.done], m.original); }
    }
  }

  lemma EditKeepsSafe(m: Machine, step: Step)
    requires Safe(m) && (step.Crash? || step.UserEdit?)
    ensures Safe(Next(m, step))
  {
    hide Target, Selected;
  }

  /** Every step keeps write-ahead safety, and removes the rollback file only with every interface back. */
  lemma StepKeepsSafe(m: Machine, step: Step)
    requires Safe(m) && (step.BeginApply? ==> MayApply(m, step.selectors))
    ensures Safe(Next(m, step))
    ensures Next(m, step).rollback == None && m.rollback.Some? ==> Next(m, step).dns == m.original == Next(m, step).original
  {
    match step
    case BeginApply(_, _) => ApplyStepsKeepSafe(m, step);
    case WriteRollback(_) => ApplyStepsKeepSafe(m, step);
    case SetInterface(_) => ApplyStepsKeepSafe(m, step);
    case EndApply => ApplyStepsKeepSafe(m, step);
    case BeginRestore => RestoreStepsKeepSafe(m, step);
    case ResetInterface(_) => RestoreStepsKeepSafe(m, step);
    case RemoveRollback(_) => RestoreStepsKeepSafe(m, step);
    case Crash => EditKeepsSafe(m, step);
    case UserEdit(_, _) => EditKeepsSafe(m, step);
  }

  /** Write-ahead safety in every guarded run: any steps, failures, crashes and user edits, in any order. */
  lemma {:induction false} RunIsSafe(m: Machine, steps: seq<Step>)
    requires Safe(m) && Guarded(m, steps)
    ensures Safe(Run(m, steps))
    decreases |steps|
  {
    hide Safe, Next;
    if steps != [] {
      RunIsSafe(m, steps[..|steps| - 1]);
      StepKeepsSafe(Run(m, steps[..|steps| - 1]), steps[|steps| - 1]);
    }
  }

  // ----- recovery -----

  function Resets(n: nat): seq<Step> { seq(n, _ => ResetInterface(true)) }

  lemma {:induction false} UndoAll(m: Machine, n: nat)
    requires m.rollback.Some? && Accepts(m.rollback.value) && n <= |m.rollback.value.interfaces|
    ensures
      var r := Run(m, [Crash, BeginRestore] + Resets(n));
      r.phase == Undoing(n) && r.rollback == m.rollback && r.original == m.original
  {
    hide Target;
    if n == 0 {
      var steps := [Crash, BeginRestore];
      assert steps + Resets(0) == steps && steps[..1] == [Crash] && [Crash][..0] == [];
      assert Run(m, [Crash]) == Next(Run(m, []), Crash);
      assert Run(m, steps) == Next(Run(m, [Crash]), BeginRestore);
    } else {
      UndoAll(m, n - 1);
      var steps := [Crash, BeginRestore] + Resets(n);
      assert steps[..|steps| - 1] == [Crash, BeginRestore] + Resets(n - 1);
      assert steps[|steps| - 1] == ResetInterface(true);
    }
  }

  /** From every safe state with a rollback file, crashed anywhere, a completed Restore returns every interface and removes the file. */
  lemma RestoreRecovers(m: Machine)
    requires Safe(m) && m.rollback.Some?
    ensures
      var steps := [Crash, BeginRestore] + Resets(|m.rollback.value.interfaces|) + [RemoveRollback(true)];
      var r := Run(m, steps);
      r.dns == m.original && r.rollback == None && r.phase == Idle
  {
    hide Target, WellFormed, AllHold;
    var n := |m.rollback.value.interfaces|;
    var steps := [Crash, BeginRestore] + Resets(n);
    UndoAll(m, n);
    RestoringIsGuarded(m, steps);
    RunIsSafe(m, steps);
    AllRestored(Run(m, steps));
    assert (steps + [RemoveRollback(true)])[..|steps|] == steps;
  }

  // ----- Apply over a rollback file -----

  /** Writing over an old rollback file. */
  function Over(selectors: seq<string>, serverIps: seq<string>): seq<Step> { [BeginApply(selectors, serverIps), WriteRollback(true)] }

  lemma OverwritesRollback(m: Machine, selectors: seq<string>, serverIps: seq<string>)
    requires m.phase == Idle && AdaptersKnown(m) && Selectable(Reports(m.adapters, m.dns), selectors)
    ensures
      var state := State(KIND, WINDOWS, MODE, Selected(Reports(m.adapters, m.dns), selectors), serverIps);
      Run(m, Over(selectors, serverIps)) == m.(rollback := Some(state), phase := Applying(0))
  {
    hide Selected, Selectable, Reports, AdaptersKnown;
    var steps := Over(selectors, serverIps);
    assert steps[..1] == [BeginApply(selectors, serverIps)] && steps[..1][..0] == [];
    assert Run(m, steps[..1]) == Next(Run(m, []), steps[0]);
  }

  /** Every interface the rollback file holds is set as the file would set it. */
  ghost predicate AsSaved(m: Machine)
  {
    m.rollback.Some? ==> forall k :: 0 <= k < |m.rollback.value.interfaces| ==>
      var saved := m.rollback.value.interfaces[k]; saved.index in m.dns && m.dns[saved.index] == Target(saved)
  }

  /** What the program can see on disk tells whether the interfaces are still the user's. */
  lemma AsSavedIsOriginal(m: Machine)
    requires Safe(m)
    ensures AsSaved(m) <==> m.dns == m.original
  {
    hide Target;
    if m.rollback.Some? {
      var saved := m.rollback.value.interfaces;
      assert forall k :: 0 <= k < |saved| ==> Holds(saved[k], m.original);
      if AsSaved(m) {
        forall x | x in m.dns ensures m.dns[x] == m.original[x] {
          if HasIndex(saved, x) {
            var k :| 0 <= k < |saved| && saved[k].index == x;
            assert Holds(saved[k], m.original);
          }
        }
      }
    }
  }

  /**
   * An Apply that starts over a rollback file, on interfaces that report what they hold, keeps
   * the machine safe exactly when every interface still has the user's setting: when each
   * interface of the file is as the file would set it.
   */
  lemma ApplyOverIsSafeExactly(m: Machine, selectors: seq<string>, serverIps: seq<string>)
    requires Safe(m) && m.phase == Idle && Selectable(Reports(m.adapters, m.dns), selectors) && Reported(m.adapters, m.dns, selectors)
    ensures Safe(Run(m, Over(selectors, serverIps))) <==> m.dns == m.original
    ensures Safe(Run(m, Over(selectors, serverIps))) <==> AsSaved(m)
  {
    AsSavedIsOriginal(m);
    hide AsSaved, Run, Target, Selected, Selectable, Reported, Reports, HasIndex;
    OverwritesRollback(m, selectors, serverIps);
    var r := Run(m, Over(selectors, serverIps));
    SnapshotHolds(m.(original := m.dns), selectors);
    var saved := r.rollback.value.interfaces;
    if Safe(r) {
      forall x | x in m.dns ensures m.dns[x] == m.original[x] {
        if HasIndex(saved, x) { HeldOnce(saved, m.dns, m.original, x); }
      }
    }
  }

  /** A saved interface holds one setting. */
  lemma HeldOnce(saved: seq<InterfaceState>, a: map<int, Setting>, b: map<int, Setting>, x: int)
    requires AllHold(saved, a) && AllHold(saved, b) && HasIndex(saved, x)
    ensures x in a && x in b && a[x] == b[x]
  {
    hide Target;
    var k :| 0 <= k < |saved| && saved[k].index == x;
    assert Holds(saved[k], a) && Holds(saved[k], b);
  }

  lemma OneMatch(item: Item, selector: string)
    requires Matches(item, selector)
    ensures Selectable([item], [selector])
  {
    hide Matches;
    NoMatches(selector);
    MatchingSnoc([item], 0, selector);
    assert [item][..0] == [] && [item][..1] == [item];
  }

  /** Such a machine: one adapter the user had on DHCP, taken over, and an Apply that starts again. */
  lemma SecondApplyLosesOriginal(a: Adapter, own: seq<string>, selector: string)
    requires Faithful(a, Dhcp) && Faithful(a, Static(own)) && Matches(Report(a, Static(own)), selector)
    ensures
      var saved := State(KIND, WINDOWS, MODE, [SaveItem(Report(a, Dhcp))], own);
      var m := Machine([a], map[a.index := Static(own)], Some(saved), Idle, map[a.index := Dhcp]);
      Safe(m) && !Safe(Run(m, Over([selector], own)))
  {
    hide Run, Target, Faithful, Matches, SaveItem, Report, Selectable;
    var interfaces := [SaveItem(Report(a, Dhcp))];
    var m := Machine([a], map[a.index := Static(own)], Some(State(KIND, WINDOWS, MODE, interfaces, own)), Idle, map[a.index := Dhcp]);
    SaveRestoreRoundTrip(a, Dhcp);
    SaveKeepsIndex(Report(a, Dhcp));
    ReportKeepsIndex(a, Dhcp);
    assert interfaces[0].index == a.index;
    assert Reports(m.adapters, m.dns) == [Report(a, Static(own))];
    OneMatch(Report(a, Static(own)), selector);
    ApplyOverIsSafeExactly(m, [selector], own);
    assert m.dns[a.index] != m.original[a.index];
  }

  // ----- the calls -----

  datatype Outcome = Done | Failed | Crashed | Refused

  datatype Config = Config(rollbackPath: string, interfaces: seq<string>, serverIps: seq<string>)

  /** The program on one machine. Each method reports the steps it took. */
  class Host {
    const adapters: seq<Adapter>
    var dns: map<int, Setting>
    var rollback: Option<State>
    ghost var original: map<int, Setting>

    constructor (adapters: seq<Adapter>, dns: map<int, Setting>)
      requires forall i :: 0 <= i < |adapters| ==> adapters[i].index in dns
      ensures Valid() && this.adapters == adapters && this.dns == dns && original == dns && rollback == None
    {
      this.adapters, this.dns, this.rollback := adapters, dns, None;
      this.original := dns;
    }

    ghost function View(): Machine reads this { Machine(adapters, dns, rollback, Idle, original) }

    /** Every adapter has a setting. */
    ghost predicate Valid() reads this { AdaptersKnown(View()) }

    /**
     * `writes` disk writes and interface changes succeed; the next one fails, or the program
     * crashes there. Whatever happens, the host is where the recorded steps lead.
     */
    method ApplyWithPlatform(cfg: Config, loopback: string -> bool, writes: nat, crash: bool)
      returns (outcome: Outcome, ghost steps: seq<Step>)
      requires Valid()
      modifies this`dns, this`rollback
      ensures Valid() && View() == Run(old(View()), steps)
      ensures outcome == Refused <==>
        || TrimSpace(cfg.rollbackPath) == "" || Cleaned(cfg.interfaces) == [] || Cleaned(cfg.serverIps) == []
        || (exists i :: 0 <= i < |Cleaned(cfg.serverIps)| && !loopback(Cleaned(cfg.serverIps)[i]))
        || (exists n :: 0 <= n < |Cleaned(cfg.interfaces)| && MatchingItems(Reports(adapters, old(dns)), Cleaned(cfg.interfaces)[n]) == [])
      ensures outcome == Done ==> rollback.Some? && forall i :: 0 <= i < |rollback.value.interfaces| ==>
        var x := rollback.value.interfaces[i].index;
        x > 0 ==> x in dns && dns[x] == Static(Cleaned(cfg.serverIps))
      ensures MayApply(old(View()), Cleaned(cfg.interfaces)) ==> Guarded(old(View()), steps) && (Safe(old(View())) ==> Safe(View()))
    {
      hide Run, Guarded, Safe, MayApply, Cleaned, Target, Matches, PositiveIndexes, AllMatches, FirstByIndex, MatchingItems;
      ghost var m0 := View();
      ghost var m := m0;
      steps := [];
      RunNothing(m0);
      var selectors := CleanStrings(cfg.interfaces);
      var serverIps := CleanStrings(cfg.serverIps);
      var allLoopback := forall i :: 0 <= i < |serverIps| ==> loopback(serverIps[i]);
      if TrimSpace(cfg.rollbackPath) == "" || selectors == [] || serverIps == [] || !allLoopback { return Refused, []; }
      var selection := SelectInterfaces(Reports(adapters, dns), selectors);
      if selection.Err? { return Refused, []; }
      m, steps := Take(m0, m, steps, BeginApply(selectors, serverIps));
      if writes == 0 {
        m, steps := Take(m0, m, steps, WriteRollback(false));
        EndsSafe(m0, steps);
        return if crash then Crashed else Failed, steps;
      }
      rollback := Some(State(KIND, WINDOWS, MODE, selection.value, serverIps));
      m, steps := Take(m0, m, steps, WriteRollback(true));
      outcome, m, steps := SetInterfaces(m0, m, steps, writes - 1, crash);
      EndsSafe(m0, steps);
    }

    /** The apply script: one interface after the other. */
    method SetInterfaces(ghost m0: Machine, ghost before: Machine, ghost steps0: seq<Step>, writes: nat, crash: bool)
      returns (outcome: Outcome, ghost m: Machine, ghost steps: seq<Step>)
      requires before == Run(m0, steps0) && rollback.Some? && before == View().(phase := Applying(0)) && Valid()
      modifies this`dns
      ensures Valid() && m == View() == Run(m0, steps) && (Guarded(m0, steps0) ==> Guarded(m0, steps))
      ensures outcome != Refused
      ensures outcome == Done ==> forall i :: 0 <= i < |rollback.value.interfaces| ==>
        var x := rollback.value.interfaces[i].index;
        x > 0 ==> x in dns && dns[x] == Static(rollback.value.serverIps)
    {
      hide Run, Guarded, Target, Selectable, Selected, Reports, PositiveIndexes;
      m, steps := before, steps0;
      var servers := rollback.value.serverIps;
      var indexes := InterfaceIndexes(rollback.value.interfaces);
      for n := 0 to |indexes|
        invariant m == Run(m0, steps)
        invariant Valid() && m == View().(phase := Applying(n)) && (Guarded(m0, steps0) ==> Guarded(m0, steps))
        invariant forall k :: 0 <= k < n ==> indexes[k] in dns && dns[indexes[k]] == Static(servers)
      {
        if n >= writes {
          m, steps := Take(m0, m, steps, SetInterface(false));
          return if crash then Crashed else Failed, m, steps;
        }
        dns := dns[indexes[n] := Static(servers)];
        m, steps := Take(m0, m, steps, SetInterface(true));
      }
      m, steps := Take(m0, m, steps, EndApply);
      outcome := if indexes == [] then Failed else Done;
      PositivesVisited(rollback.value.interfaces);
    }

    method RestoreWithPlatform(writes: nat, crash: bool) returns (outcome: Outcome, ghost steps: seq<Step>)
      modifies this`dns, this`rollback
      ensures View() == Run(old(View()), steps) && Guarded(old(View()), steps)
      ensures outcome == Refused <==> old(rollback).None? || !Accepts(old(rollback).value)
      ensures outcome == Done ==> rollback == None
      ensures Safe(old(View())) ==> Safe(View()) && (outcome == Done ==> dns == original)
    {
      hide Run, Guarded, Matches, Safe, Target, Selected, Selectable, PositiveIndexes;
      ghost var m0 := View();
      ghost var m := m0;
      steps := [];
      RunNothing(m0);
      if rollback.None? || !Accepts(rollback.value) { return Refused, []; }
      var saved := rollback.value.interfaces;
      m, steps := Take(m0, m, steps, BeginRestore);
      for n := 0 to |saved|
        invariant m == Run(m0, steps)
        invariant rollback == old(rollback) && m == View().(phase := Undoing(n)) && Guarded(m0, steps)
      {
        if n >= writes {
          m, steps := Take(m0, m, steps, ResetInterface(false));
          EndsSafe(m0, steps);
          return if crash then Crashed else Failed, steps;
        }
        var target := TargetOf(saved[n]);
        dns := dns[saved[n].index := target];
        m, steps := Take(m0, m, steps, ResetInterface(true));
      }
      if writes == |saved| {
        m, steps := Take(m0, m, steps, RemoveRollback(false));
        EndsSafe(m0, steps);
        return if crash then Crashed else Failed, steps;
      }
      if Safe(m0) {
        RunIsSafe(m0, steps);
        AllRestored(m);
      }
      rollback := None;
      m, steps := Take(m0, m, steps, RemoveRollback(true));
      EndsSafe(m0, steps);
      outcome := Done;
    }
  }

  lemma RunNothing(m: Machine) ensures Run(m, []) == m && Guarded(m, []) {}

  lemma EndsSafe(m: Machine, steps: seq<Step>)
    ensures Safe(m) && Guarded(m, steps) ==> Safe(Run(m, steps))
  {
    hide Safe, Guarded, Run;
    if Safe(m) && Guarded(m, steps) { RunIsSafe(m, steps); }
  }

  ghost method Take(m0: Machine, m: Machine, steps: seq<Step>, step: Step) returns (m': Machine, steps': seq<Step>)
    requires m == Run(m0, steps)
    ensures m' == Next(m, step) == Run(m0, steps') && steps' == steps + [step]
    ensures Guarded(m0, steps') <==> Guarded(m0, steps) && (step.BeginApply? ==> MayApply(m, step.selectors))
  {
    m', steps' := Next(m, step), steps + [step];
    assert steps'[..|steps|] == steps;
  }

  method InterfaceIndexes(saved: seq<InterfaceState>) returns (indexes: seq<int>)
    ensures indexes == PositiveIndexes(saved)
  {
    indexes := [];
    for n := 0 to |saved|
      invariant indexes == PositiveIndexes(saved[..n])
    {
      assert saved[..n + 1][..n] == saved[..n];
      if saved[n].index > 0 { indexes := indexes + [saved[n].index]; }
    }
    assert saved[..|saved|] == saved;
  }

  method TargetOf(s: InterfaceState) returns (t: Setting)
    ensures t == Target(s)
  {
    var servers := s.staticServers;
    if servers == [] { servers := CleanStrings(Fields(s.staticNameServer, "")); }
    t := if ToLower(TrimSpace(s.source)) == "static" then Static(servers) else Dhcp;
  }

  ghost predicate Visits(indexes: seq<int>, x: int) { exists k :: 0 <= k < |indexes| && indexes[k] == x }

  lemma {:induction false} PositivesVisited(saved: seq<InterfaceState>)
    ensures forall i :: 0 <= i < |saved| && saved[i].index > 0 ==> Visits(PositiveIndexes(saved), saved[i].index)
  {
    if saved != [] {
      var init, last := saved[..|saved| - 1], saved[|saved| - 1];
      PositivesVisited(init);
      var before, all := PositiveIndexes(init), PositiveIndexes(saved);
      forall i | 0 <= i < |saved| && saved[i].index > 0 ensures Visits(all, saved[i].index) {
        if i < |init| {
          assert init[i] == saved[i] && Visits(before, init[i].index);
          var k :| 0 <= k < |before| && before[k] == init[i].index;
          assert all[k] == before[k];
        } else {
          assert all[|all| - 1] == last.index;
        }
      }
    }
  }
}
