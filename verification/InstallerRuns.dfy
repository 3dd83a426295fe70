/** What whole runs of the installer keep, whatever fails and wherever the process is killed. */
module InstallerRuns {
  import opened PeExports
  import opened Installer

  // ---------- the invariant ----------

  /** The newest real DLL is at the live name if the live file is real, and otherwise at the backup name. */
  predicate NewestKept(d: Files, newest: Dll) {
    && RealDll(newest)
    && if Live in d && RealDll(d[Live]) then d[Live] == newest else Backup in d && d[Backup] == newest
  }

  /** A forwarding live file next to a backup forwards only to what the backup exports. */
  predicate Linked(d: Files) {
    Live in d && Backup in d && Forwarder(d[Live]) ==> ProxyFits(d[Live], d[Backup])
  }

  predicate Safe(d: Files, newest: Dll) {
    NewestKept(d, newest) && Linked(d)
  }

  /** Every directory that the steps pass through is safe. */
  predicate SafeThroughout(d: Files, steps: seq<Step>, newest: Dll)
    decreases |steps|
  {
    Safe(d, newest) && (steps != [] ==> SafeThroughout(Apply(d, steps[0]), steps[1..], newest))
  }

  lemma {:induction false} SafeAtEveryStep(d: Files, steps: seq<Step>, newest: Dll, k: nat)
    requires SafeThroughout(d, steps, newest) && k <= |steps|
    ensures Safe(ApplyAll(d, steps[..k]), newest)
    decreases k
  {
    hide Safe, Apply;
    if k > 0 {
      assert steps[..k][0] == steps[0] && steps[..k][1..] == steps[1..][..k - 1];
      SafeAtEveryStep(Apply(d, steps[0]), steps[1..], newest, k - 1);
    } else {
      assert steps[..0] == [];
    }
  }

  lemma {:induction false} SafeConcat(d: Files, a: seq<Step>, b: seq<Step>, newest: Dll)
    requires SafeThroughout(d, a, newest) && SafeThroughout(ApplyAll(d, a), b, newest)
    ensures SafeThroughout(d, a + b, newest)
    decreases |a|
  {
    hide Safe, Apply;
    if a == [] {
      assert a + b == b;
    } else {
      assert (a + b)[0] == a[0] && (a + b)[1..] == a[1..] + b;
      SafeConcat(Apply(d, a[0]), a[1..], b, newest);
    }
  }

  /** One more step that ends safe. */
  lemma SafeSnoc(d: Files, a: seq<Step>, s: Step, newest: Dll)
    requires SafeThroughout(d, a, newest) && Safe(Apply(ApplyAll(d, a), s), newest)
    ensures SafeThroughout(d, a + [s], newest)
    ensures ApplyAll(d, a + [s]) == Apply(ApplyAll(d, a), s)
  {
    hide Safe, Apply;
    OneApplied(d, a, s);
    var e := ApplyAll(d, a);
    SafeAtEveryStep(d, a, newest, |a|);
    assert a[..|a|] == a;
    assert [s][1..] == [];
    assert SafeThroughout(Apply(e, s), [], newest);
    SafeConcat(d, a, [s], newest);
  }

  // ---------- each operation ----------

  /** Files under the temporary names never matter. */
  lemma TmpIrrelevant(d: Files, e: Files, newest: Dll)
    requires Safe(d, newest)
    requires Live in d <==> Live in e
    requires Backup in d <==> Backup in e
    requires Live in d ==> d[Live] == e[Live]
    requires Backup in d ==> d[Backup] == e[Backup]
    ensures Safe(e, newest)
  {
    hide RealDll, Forwarder, ProxyFits;
  }

  lemma RealIsNotForwarder(b: Dll)
    ensures !(RealDll(b) && Forwarder(b))
  {
    hide Inspect, HasForwarder;
  }

  /** A proxy that passes Install's checks is a forwarder. */
  lemma AcceptedProxyForwards(proxy: Dll, original: Dll)
    requires ProxyFits(proxy, original) && !ExportsNothing(proxy)
    ensures Forwarder(proxy) && !RealDll(proxy)
  {
    hide Inspect;
    var t := Inspect(proxy).value;
    var k :| k in t;
    assert Resolves(t[k], Inspect(original).value);
  }

  lemma CleanedSafe(d: Files, tmp: FileName, newest: Dll)
    requires Safe(d, newest) && tmp != Live && tmp != Backup
    ensures var steps := CleanTmp(d, tmp);
            && SafeThroughout(d, steps, newest)
            && ApplyAll(d, steps) == d - {tmp}
  {
    hide Safe;
    NothingApplied(d);
    if tmp in d {
      FirstApplied(d, Remove(tmp));
      TmpIrrelevant(d, d - {tmp}, newest);
      assert SafeThroughout(d, [], newest);
      SafeSnoc(d, [], Remove(tmp), newest);
      assert [] + [Remove(tmp)] == [Remove(tmp)];
    } else {
      assert d - {tmp} == d;
    }
  }

  /** Install passes only through safe directories. */
  lemma InstallSafe(d: Files, proxy: Dll, p: Preflight, f: InstallFaults, newest: Dll)
    requires Safe(d, newest)
    ensures SafeThroughout(d, InstallPlan(d, proxy, p, f).steps, newest)
  {
    hide Safe, ProxyFits, ExportsNothing, StateOf, SafeThroughout, ApplyAll;
    NoStepsSafe(d, newest);
    if InstallAccepts(d, proxy, p) {
      NotInstalledHasLive(d);
      CleanedSafe(d, TmpInstall, newest);
      if !(TmpInstall in d && f.removeTmp) {
        var cleaned, base := CleanTmp(d, TmpInstall), d - {TmpInstall};
        assert cleaned + [] == cleaned;
        if f.copy.CopyFailed? {
          if f.copy.left.Some? {
            TmpIrrelevant(d, base[TmpInstall := f.copy.left.value], newest);
            SafeSnoc(d, cleaned, Write(TmpInstall, f.copy.left.value), newest);
          }
        } else {
          var copied, d2 := cleaned + [Write(TmpInstall, proxy)], base[TmpInstall := proxy];
          TmpIrrelevant(d, d2, newest);
          SafeSnoc(d, cleaned, Write(TmpInstall, proxy), newest);
          if !f.renameLive {
            SwapInSafe(d, copied, d2, proxy, f, newest);
          }
        }
      }
    }
  }

  lemma NoStepsSafe(d: Files, newest: Dll)
    requires Safe(d, newest)
    ensures SafeThroughout(d, [], newest)
  {
    hide Safe;
  }

  /** The two renames and the rollback. */
  lemma SwapInSafe(d: Files, copied: seq<Step>, d2: Files, proxy: Dll, f: InstallFaults, newest: Dll)
    requires Live in d2 && Backup !in d2 && RealDll(d2[Live])
    requires TmpInstall in d2 && d2[TmpInstall] == proxy
    requires ProxyFits(proxy, d2[Live]) && !ExportsNothing(proxy)
    requires Safe(d2, newest) && SafeThroughout(d, copied, newest) && ApplyAll(d, copied) == d2
    ensures var aside := copied + [Rename(Live, Backup)];
            && SafeThroughout(d, aside, newest)
            && SafeThroughout(d, aside + [Rename(TmpInstall, Live)], newest)
            && SafeThroughout(d, aside + [Rename(Backup, Live)], newest)
  {
    hide RealDll, Forwarder, ProxyFits, ExportsNothing, SafeThroughout, ApplyAll;
    AcceptedProxyForwards(proxy, d2[Live]);
    var aside := copied + [Rename(Live, Backup)];
    var d3 := Apply(d2, Rename(Live, Backup));
    SafeSnoc(d, copied, Rename(Live, Backup), newest);
    SafeSnoc(d, aside, Rename(TmpInstall, Live), newest);
    SafeSnoc(d, aside, Rename(Backup, Live), newest);
  }

  lemma UninstallSafe(d: Files, p: Preflight, f: UninstallFaults, newest: Dll)
    requires Safe(d, newest)
    ensures SafeThroughout(d, UninstallPlan(d, p, f).steps, newest)
  {
    hide ProxyFits, RealDll, Forwarder, StateOf, SafeThroughout, ApplyAll, UninstallSteps;
    NoStepsSafe(d, newest);
    if StateOf(d) == UpdateDetected {
      UpdateHasBoth(d);
      NothingApplied(d);
      SafeSnoc(d, [], Remove(Backup), newest);
      assert [] + [Remove(Backup)] == [Remove(Backup)];
    } else if StateOf(d) == Installed {
      InstalledHasBoth(d);
      RealIsNotForwarder(d[Live]);
      SwapOutSafe(d, f, newest);
    }
  }

  lemma SwapOutSafe(d: Files, f: UninstallFaults, newest: Dll)
    requires Safe(d, newest) && Live in d && Backup in d && !RealDll(d[Live])
    ensures SafeThroughout(d, UninstallSteps(d, f).steps, newest)
  {
    hide ProxyFits, RealDll, Forwarder, SafeThroughout, ApplyAll;
    NoStepsSafe(d, newest);
    CleanedSafe(d, TmpRemove, newest);
    var cleaned, d1 := CleanTmp(d, TmpRemove), d - {TmpRemove};
    TmpIrrelevant(d, d1, newest);
    var aside := cleaned + [Rename(Live, TmpRemove)];
    SafeSnoc(d, cleaned, Rename(Live, TmpRemove), newest);
    assert aside + [] == aside;
    SafeSnoc(d, aside, Rename(TmpRemove, Live), newest);
    SafeSnoc(d, aside, Rename(Backup, Live), newest);
    var restored := aside + [Rename(Backup, Live)];
    assert restored + [] == restored;
    SafeSnoc(d, restored, Remove(TmpRemove), newest);
  }

  lemma RepairSafe(d: Files, proxy: Dll, p: Preflight, removeFails: bool, again: Preflight, f: InstallFaults,
                   newest: Dll)
    requires Safe(d, newest)
    ensures SafeThroughout(d, RepairPlan(d, proxy, p, removeFails, again, f).steps, newest)
  {
    hide ProxyFits, RealDll, Forwarder, StateOf, SafeThroughout, ApplyAll, InstallPlan;
    NoStepsSafe(d, newest);
    if StateOf(d) == UpdateDetected {
      UpdateHasBoth(d);
      NothingApplied(d);
      SafeSnoc(d, [], Remove(Backup), newest);
      assert [] + [Remove(Backup)] == [Remove(Backup)];
      InstallSafe(d - {Backup}, proxy, again, f, newest);
      SafeConcat(d, [Remove(Backup)], InstallPlan(d - {Backup}, proxy, again, f).steps, newest);
    }
  }

  // ---------- whole runs ----------

  /** An operation with everything that goes wrong in it; it may be killed after any number of its file operations. */
  datatype Event =
    | DoInstall(proxy: Dll, p: Preflight, f: InstallFaults, killedAfter: nat)
    | DoUninstall(p: Preflight, u: UninstallFaults, killedAfter: nat)
    | DoRepair(proxy: Dll, p: Preflight, removeFails: bool, again: Preflight, f: InstallFaults, killedAfter: nat)
    | Update(newLive: Dll)

  datatype World = World(files: Files, newest: Dll)

  function PlanOf(d: Files, e: Event): seq<Step> {
    match e
    case DoInstall(proxy, p, f, _) => InstallPlan(d, proxy, p, f).steps
    case DoUninstall(p, u, _) => UninstallPlan(d, p, u).steps
    case DoRepair(proxy, p, r, again, f, _) => RepairPlan(d, proxy, p, r, again, f).steps
    case Update(b) => [Write(Live, b)]
  }

  /** The steps made by an operation that is killed after `k` of them. */
  function Made(steps: seq<Step>, k: nat): seq<Step> {
    if k < |steps| then steps[..k] else steps
  }

  /** The world after an event: as many of its steps as were made before it was killed. */
  function After(w: World, e: Event): World {
    var steps := PlanOf(w.files, e);
    if e.Update? then World(ApplyAll(w.files, steps), e.newLive)
    else World(ApplyAll(w.files, Made(steps, e.killedAfter)), w.newest)
  }

  function AfterAll(w: World, events: seq<Event>): World
    decreases |events|
  {
    if events == [] then w else AfterAll(After(w, events[0]), events[1..])
  }

  /** PotPlayer updates bring real DLLs. */
  predicate RealUpdates(events: seq<Event>) {
    forall i | 0 <= i < |events| && events[i].Update? :: RealDll(events[i].newLive)
  }

  lemma EventSafe(w: World, e: Event)
    requires Safe(w.files, w.newest) && (e.Update? ==> RealDll(e.newLive))
    ensures Safe(After(w, e).files, After(w, e).newest)
  {
    hide Safe, SafeThroughout, InstallPlan, UninstallPlan, RepairPlan, RealDll, ApplyAll;
    var steps := PlanOf(w.files, e);
    match e {
      case DoInstall(proxy, p, f, _) => InstallSafe(w.files, proxy, p, f, w.newest);
      case DoUninstall(p, u, _) => UninstallSafe(w.files, p, u, w.newest);
      case DoRepair(proxy, p, r, again, f, _) => RepairSafe(w.files, proxy, p, r, again, f, w.newest);
      case Update(b) =>
        FirstApplied(w.files, Write(Live, b));
        UpdateSafe(w.files, b);
    }
    if !e.Update? {
      var k := if e.killedAfter < |steps| then e.killedAfter else |steps|;
      SafeAtEveryStep(w.files, steps, w.newest, k);
      assert steps[..|steps|] == steps;
    }
  }

  lemma UpdateSafe(d: Files, b: Dll)
    requires RealDll(b)
    ensures Safe(d[Live := b], b)
  {
    hide RealDll, ProxyFits, Forwarder;
    RealIsNotForwarder(b);
  }

  /**
   * In every run, with any operation failing anywhere or killed between any two of its file operations,
   * the newest real DLL survives byte for byte, under the live or the backup name.
   */
  lemma {:induction false} NewestSurvives(w: World, events: seq<Event>)
    requires Safe(w.files, w.newest) && RealUpdates(events)
    ensures Safe(AfterAll(w, events).files, AfterAll(w, events).newest)
    decreases |events|
  {
    hide Safe, After, RealDll;
    if events != [] {
      assert forall i | 0 <= i < |events[1..]| :: events[1..][i] == events[i + 1];
      EventSafe(w, events[0]);
      NewestSurvives(After(w, events[0]), events[1..]);
    }
  }

  /** A pristine install is where such a run may start. */
  lemma PristineIsSafe(d: Files)
    requires StateOf(d) == NotInstalled
    ensures Safe(d, d[Live])
  {
    hide RealDll, Forwarder, StateOf;
    NotInstalledHasLive(d);
  }

  /** From a pristine install on, whatever state is reported Installed, all its exports resolve in the backup. */
  lemma InstalledResolves(d: Files, events: seq<Event>)
    requires StateOf(d) == NotInstalled && RealUpdates(events)
    ensures var w := AfterAll(World(d, d[Live]), events);
            StateOf(w.files) == Installed ==>
              && ProxyFits(w.files[Live], w.files[Backup])
              && w.files[Backup] == w.newest
  {
    hide RealDll, Forwarder, StateOf, ProxyFits, AfterAll, RealUpdates;
    NotInstalledHasLive(d);
    PristineIsSafe(d);
    var start := World(d, d[Live]);
    NewestSurvives(start, events);
    var w := AfterAll(start, events);
    if StateOf(w.files) == Installed {
      InstalledHasBoth(w.files);
      RealIsNotForwarder(w.files[Live]);
    }
  }
}
