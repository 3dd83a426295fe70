/** Exactly what each installer operation leaves behind when it returns or throws. */
module InstallerOutcomes {
  import opened Installer
  import opened InstallerRuns

  /** The live and the backup DLL are byte for byte what they were. */
  predicate SameDlls(d: Files, e: Files) {
    && (Live in d <==> Live in e) && (Live in d ==> d[Live] == e[Live])
    && (Backup in d <==> Backup in e) && (Backup in d ==> d[Backup] == e[Backup])
  }

  // ---------- Install ----------

  /** Nothing failed before the real DLL was renamed aside. */
  predicate ReachesSwap(d: Files, f: InstallFaults) {
    !(TmpInstall in d && f.removeTmp) && f.copy.Copied? && !f.renameLive
  }

  /** Where Install's steps end. */
  lemma InstallFinal(d: Files, proxy: Dll, f: InstallFaults)
    requires Live in d && Backup !in d
    ensures var plan := InstallSteps(d, proxy, f); var e := ApplyAll(d, plan.steps);
            && plan.ok == (ReachesSwap(d, f) && !f.placeProxy)
            && (plan.ok ==> Live in e && e[Live] == proxy && Backup in e && e[Backup] == d[Live])
            && (!plan.ok && !(ReachesSwap(d, f) && f.rollback) ==> SameDlls(d, e))
            && (!plan.ok && ReachesSwap(d, f) && f.rollback ==> Live !in e && Backup in e && e[Backup] == d[Live])
  {
    hide ApplyAll;
    NothingApplied(d);
    var cleaned := CleanTmp(d, TmpInstall);
    if TmpInstall in d {
      FirstApplied(d, Remove(TmpInstall));
    }
    assert cleaned + [] == cleaned;
    if f.copy.CopyFailed? {
      if f.copy.left.Some? {
        OneApplied(d, cleaned, Write(TmpInstall, f.copy.left.value));
      }
    } else {
      OneApplied(d, cleaned, Write(TmpInstall, proxy));
      var copied := cleaned + [Write(TmpInstall, proxy)];
      OneApplied(d, copied, Rename(Live, Backup));
      var aside := copied + [Rename(Live, Backup)];
      OneApplied(d, aside, Rename(TmpInstall, Live));
      OneApplied(d, aside, Rename(Backup, Live));
    }
  }

  /** Install swaps both DLLs or none, except exactly when placing the proxy and the rollback both fail. */
  lemma InstallOutcome(d: Files, proxy: Dll, p: Preflight, f: InstallFaults)
    ensures var plan := InstallPlan(d, proxy, p, f); var e := ApplyAll(d, plan.steps);
            var accepted := InstallAccepts(d, proxy, p);
            && (plan.ok <==> accepted && ReachesSwap(d, f) && !f.placeProxy)
            && (plan.ok ==> StateOf(e) == Installed && e[Live] == proxy && e[Backup] == d[Live])
            && (!accepted ==> plan.steps == [])
            && (!plan.ok ==> (SameDlls(d, e) <==> !(accepted && ReachesSwap(d, f) && f.rollback)))
  {
    hide ApplyAll, InstallSteps, ReachesSwap, ProxyFits, ExportsNothing, Inspect, HasForwarder;
    NothingApplied(d);
    if InstallAccepts(d, proxy, p) {
      NotInstalledHasLive(d);
      InstallFinal(d, proxy, f);
      AcceptedProxyForwards(proxy, d[Live]);
    }
  }

  function FaultCount(f: InstallFaults): nat {
    (if f.removeTmp then 1 else 0) + (if f.copy.CopyFailed? then 1 else 0) + (if f.renameLive then 1 else 0)
    + (if f.placeProxy then 1 else 0) + (if f.rollback then 1 else 0)
  }

  /** Under any single failing file operation Install is all or nothing. */
  lemma InstallAllOrNothing(d: Files, proxy: Dll, p: Preflight, f: InstallFaults)
    requires FaultCount(f) <= 1
    ensures var plan := InstallPlan(d, proxy, p, f); var e := ApplyAll(d, plan.steps);
            if plan.ok then StateOf(e) == Installed && e[Live] == proxy && e[Backup] == d[Live] else SameDlls(d, e)
  {
    hide ApplyAll, InstallPlan, StateOf, InstallAccepts, SameDlls;
    InstallOutcome(d, proxy, p, f);
  }

  // ---------- Uninstall ----------

  predicate ReachesRestore(d: Files, f: UninstallFaults) {
    !(TmpRemove in d && f.removeTmp) && !f.renameLive
  }

  lemma UninstallFinal(d: Files, f: UninstallFaults)
    requires Live in d && Backup in d
    ensures var plan := UninstallSteps(d, f); var e := ApplyAll(d, plan.steps);
            && plan.ok == (ReachesRestore(d, f) && !f.restore)
            && (plan.ok ==> Live in e && e[Live] == d[Backup] && Backup !in e)
            && (!plan.ok && !(ReachesRestore(d, f) && f.rollback) ==> SameDlls(d, e))
            && (!plan.ok && ReachesRestore(d, f) && f.rollback ==>
                  Live !in e && Backup in e && e[Backup] == d[Backup] && TmpRemove in e && e[TmpRemove] == d[Live])
  {
    hide ApplyAll;
    NothingApplied(d);
    var cleaned := CleanTmp(d, TmpRemove);
    if TmpRemove in d {
      FirstApplied(d, Remove(TmpRemove));
    }
    OneApplied(d, cleaned, Rename(Live, TmpRemove));
    var aside := cleaned + [Rename(Live, TmpRemove)];
    assert aside + [] == aside;
    OneApplied(d, aside, Rename(TmpRemove, Live));
    OneApplied(d, aside, Rename(Backup, Live));
    var restored := aside + [Rename(Backup, Live)];
    assert restored + [] == restored;
    OneApplied(d, restored, Remove(TmpRemove));
  }

  /**
   * Uninstall restores the newest real DLL and leaves no backup, or leaves both DLLs alone, unless both renames
   * back fail.
   */
  lemma UninstallOutcome(d: Files, p: Preflight, f: UninstallFaults, newest: Dll)
    requires Safe(d, newest)
    ensures var plan := UninstallPlan(d, p, f); var e := ApplyAll(d, plan.steps);
            var stranded := Clear(p) && StateOf(d) == Installed && ReachesRestore(d, f) && f.restore && f.rollback;
            && (plan.ok ==> Live in e && e[Live] == newest && Backup !in e && StateOf(e) == NotInstalled)
            && (!plan.ok ==> (SameDlls(d, e) <==> !stranded))
            && (!Clear(p) || StateOf(d) in {Missing, Unknown} ==> !plan.ok && plan.steps == [])
  {
    hide ApplyAll, UninstallSteps, ReachesRestore, ProxyFits, Inspect, HasForwarder;
    NothingApplied(d);
    FirstApplied(d, Remove(Backup));
    if StateOf(d) == NotInstalled {
      NotInstalledHasLive(d);
    } else if StateOf(d) == UpdateDetected {
      UpdateHasBoth(d);
    } else if StateOf(d) == Installed {
      InstalledHasBoth(d);
      RealIsNotForwarder(d[Live]);
      UninstallFinal(d, f);
      UninstallOkMeansRestored(d, f);
    }
  }

  lemma UninstallOkMeansRestored(d: Files, f: UninstallFaults)
    ensures UninstallSteps(d, f).ok == (ReachesRestore(d, f) && !f.restore)
  {
  }

  function UninstallFaultCount(f: UninstallFaults): nat {
    (if f.removeBackup then 1 else 0) + (if f.removeTmp then 1 else 0) + (if f.renameLive then 1 else 0)
    + (if f.restore then 1 else 0) + (if f.rollback then 1 else 0) + (if f.removeAside then 1 else 0)
  }

  /** Under any single failing file operation Uninstall is all or nothing. */
  lemma UninstallAllOrNothing(d: Files, p: Preflight, f: UninstallFaults, newest: Dll)
    requires Safe(d, newest) && UninstallFaultCount(f) <= 1
    ensures var plan := UninstallPlan(d, p, f); var e := ApplyAll(d, plan.steps);
            if plan.ok then Live in e && e[Live] == newest && Backup !in e else SameDlls(d, e)
  {
    hide ApplyAll, UninstallPlan, StateOf, SameDlls, Safe;
    UninstallOutcome(d, p, f, newest);
  }

  // ---------- Repair ----------

  /**
   * Repair ends Installed around the updated DLL, or throws. A throw leaves both DLLs alone exactly when the
   * stale backup was not dropped yet; after that the backup is gone, or Install was left half way.
   */
  lemma RepairOutcome(d: Files, proxy: Dll, p: Preflight, removeFails: bool, again: Preflight, f: InstallFaults)
    ensures var plan := RepairPlan(d, proxy, p, removeFails, again, f); var e := ApplyAll(d, plan.steps);
            var dropped := p.proxyExists && Clear(p) && StateOf(d) == UpdateDetected
                           && ProxyFits(proxy, d[Live]) && !removeFails;
            && (plan.ok ==> StateOf(e) == Installed)
            && (plan.ok && dropped ==> e[Live] == proxy && e[Backup] == d[Live])
            && (plan.ok && !dropped ==> e == d)
            && (!plan.ok ==> (SameDlls(d, e) <==> !dropped))
            && (!plan.ok && dropped ==>
                  || (StateOf(e) == NotInstalled && e[Live] == d[Live])
                  || (Live !in e && Backup in e && e[Backup] == d[Live]))
  {
    hide ApplyAll, InstallPlan, ProxyFits, Inspect, HasForwarder, ReachesSwap;
    NothingApplied(d);
    if StateOf(d) == UpdateDetected && ProxyFits(proxy, d[Live]) {
      UpdateHasBoth(d);
      var d1 := d - {Backup};
      var rest := InstallPlan(d1, proxy, again, f);
      FirstApplied(d, Remove(Backup));
      ApplyAllConcat(d, [Remove(Backup)], rest.steps);
      InstallOutcome(d1, proxy, again, f);
      InstallStrands(d1, proxy, again, f);
    }
  }

  /** When a failed Install does not leave both DLLs alone, the real DLL is still the backup. */
  lemma InstallStrands(d: Files, proxy: Dll, p: Preflight, f: InstallFaults)
    ensures var plan := InstallPlan(d, proxy, p, f); var e := ApplyAll(d, plan.steps);
            !plan.ok && !SameDlls(d, e) ==> Live in d && Live !in e && Backup in e && e[Backup] == d[Live]
  {
    hide ApplyAll, InstallSteps, ReachesSwap, ProxyFits, ExportsNothing, StateOf;
    NothingApplied(d);
    if InstallAccepts(d, proxy, p) {
      NotInstalledHasLive(d);
      InstallFinal(d, proxy, f);
    }
  }

  // ---------- across operations ----------

  /** Install followed by Uninstall, both returning normally, restores both DLLs. */
  lemma InstallThenUninstall(d: Files, proxy: Dll, p: Preflight, f: InstallFaults, q: Preflight, u: UninstallFaults)
    requires InstallPlan(d, proxy, p, f).ok
    requires UninstallPlan(ApplyAll(d, InstallPlan(d, proxy, p, f).steps), q, u).ok
    ensures var e := ApplyAll(d, InstallPlan(d, proxy, p, f).steps);
            SameDlls(d, ApplyAll(e, UninstallPlan(e, q, u).steps))
  {
    hide ApplyAll, InstallPlan, UninstallSteps, ReachesRestore, StateOf, Inspect;
    InstallOutcome(d, proxy, p, f);
    var e := ApplyAll(d, InstallPlan(d, proxy, p, f).steps);
    AcceptedWasPristine(d, proxy, p, f);
    InstalledHasBoth(e);
    UninstallFinal(e, u);
  }

  lemma AcceptedWasPristine(d: Files, proxy: Dll, p: Preflight, f: InstallFaults)
    requires InstallPlan(d, proxy, p, f).ok
    ensures Live in d && Backup !in d
  {
    hide Inspect, HasForwarder, ProxyFits, ExportsNothing, InstallSteps;
  }

  // ---------- running again ----------

  /** Installing or repairing, whatever goes wrong and wherever it is killed. */
  predicate Installs(events: seq<Event>) {
    forall i | 0 <= i < |events| :: events[i].DoInstall? || events[i].DoRepair?
  }

  /** Uninstalling or repairing. */
  predicate Uninstalls(events: seq<Event>) {
    forall i | 0 <= i < |events| :: events[i].DoUninstall? || events[i].DoRepair?
  }

  /** Whether an operation returns normally, and is not killed. */
  predicate Returns(d: Files, e: Event) {
    match e
    case DoInstall(proxy, p, f, k) => var plan := InstallPlan(d, proxy, p, f); plan.ok && k >= |plan.steps|
    case DoUninstall(p, u, k) => var plan := UninstallPlan(d, p, u); plan.ok && k >= |plan.steps|
    case DoRepair(proxy, p, r, again, f, k) =>
      var plan := RepairPlan(d, proxy, p, r, again, f); plan.ok && k >= |plan.steps|
    case Update(_) => true
  }

  /**
   * Any sequence of Install and Repair on an installed directory, or of Uninstall and Repair on a pristine one,
   * changes nothing.
   */
  lemma {:induction false} Reruns(w: World, events: seq<Event>)
    ensures StateOf(w.files) == Installed && Installs(events) ==> AfterAll(w, events) == w
    ensures StateOf(w.files) == NotInstalled && Uninstalls(events) ==> AfterAll(w, events) == w
    decreases |events|
  {
    hide StateOf, InstallSteps, UninstallSteps, ProxyFits, ExportsNothing;
    if events != [] {
      NothingApplied(w.files);
      assert forall i | 0 <= i < |events[1..]| :: events[1..][i] == events[i + 1];
      Reruns(w, events[1..]);
    }
  }

  /** Once Install or Repair returned normally, any more of them change nothing; the same holds for Uninstall. */
  lemma Idempotent(w: World, e: Event, again: seq<Event>)
    requires Safe(w.files, w.newest) && Returns(w.files, e)
    ensures (e.DoInstall? || e.DoRepair?) && Installs(again) ==> AfterAll(After(w, e), again) == After(w, e)
    ensures e.DoUninstall? && Uninstalls(again) ==> AfterAll(After(w, e), again) == After(w, e)
  {
    hide StateOf, Safe, AfterAll, ApplyAll, InstallPlan, UninstallPlan, RepairPlan;
    Reruns(After(w, e), again);
    match e {
      case DoInstall(proxy, p, f, _) => InstallOutcome(w.files, proxy, p, f);
      case DoUninstall(p, u, _) => UninstallOutcome(w.files, p, u, w.newest);
      case DoRepair(proxy, p, r, q, f, _) => RepairOutcome(w.files, proxy, p, r, q, f);
      case Update(_) =>
    }
  }
}
