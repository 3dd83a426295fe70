/** Exactly when PotPlayer is left without a live DLL. */
module InstallerStranding {
  import opened Installer
  import opened InstallerRuns
  import opened InstallerOutcomes

  // ---------- the condition ----------

  /** Install is killed right after the first of its two renames, or placing the proxy and the rollback both fail. */
  predicate InstallStrandsLive(d: Files, proxy: Dll, p: Preflight, f: InstallFaults, k: nat) {
    var aside := |CleanTmp(d, TmpInstall)| + 2;
    && InstallAccepts(d, proxy, p) && ReachesSwap(d, f)
    && (k == aside || (f.placeProxy && f.rollback && k >= aside))
  }

  /** Uninstall is killed right after the first of its two renames, or the restore and the rollback both fail. */
  predicate UninstallStrandsLive(d: Files, p: Preflight, u: UninstallFaults, k: nat) {
    var aside := |CleanTmp(d, TmpRemove)| + 1;
    && Clear(p) && StateOf(d) == Installed && ReachesRestore(d, u)
    && (k == aside || (u.restore && u.rollback && k >= aside))
  }

  /** An operation leaves no live DLL; Repair does so through its Install. */
  predicate StrandsLive(d: Files, e: Event) {
    match e
    case DoInstall(proxy, p, f, k) => InstallStrandsLive(d, proxy, p, f, k)
    case DoUninstall(p, u, k) => UninstallStrandsLive(d, p, u, k)
    case DoRepair(proxy, p, removeFails, again, f, k) =>
      && p.proxyExists && Clear(p) && StateOf(d) == UpdateDetected && ProxyFits(proxy, d[Live]) && !removeFails
      && k >= 1 && InstallStrandsLive(d - {Backup}, proxy, again, f, k - 1)
    case Update(_) => false
  }

  // ---------- prefixes of the operations ----------

  lemma MadeConcat(a: seq<Step>, b: seq<Step>, k: nat)
    ensures Made(a + b, k) == if k <= |a| then Made(a, k) else a + Made(b, k - |a|)
  {
    if k <= |a| {
      assert k < |a + b| ==> (a + b)[..k] == a[..k];
      assert a[..|a|] == a;
      assert b == [] ==> a + b == a;
    } else if k < |a + b| {
      assert (a + b)[..k] == a + b[..k - |a|];
    }
  }

  predicate TouchesOnly(s: Step, tmp: FileName) {
    !s.Rename? && s.name == tmp
  }

  /** Writing and removing a temporary file leaves both DLLs alone. */
  lemma {:induction false} TmpStepsKeepDlls(d: Files, steps: seq<Step>, tmp: FileName)
    requires tmp in {TmpInstall, TmpRemove}
    requires forall i | 0 <= i < |steps| :: TouchesOnly(steps[i], tmp)
    ensures SameDlls(d, ApplyAll(d, steps))
    decreases |steps|
  {
    if steps != [] {
      assert forall i | 0 <= i < |steps[1..]| :: steps[1..][i] == steps[i + 1];
      TmpStepsKeepDlls(Apply(d, steps[0]), steps[1..], tmp);
    }
  }

  /** The two renames of Install, cut after `k` steps. */
  lemma SwapCut(d: Files, f: InstallFaults, k: nat)
    requires Live in d && TmpInstall in d && Backup !in d
    ensures var e := ApplyAll(d, Made(SwapSteps(f).steps, k));
            && (Live !in e <==> !f.renameLive && (k == 1 || (f.placeProxy && f.rollback && k >= 1)))
            && (Live !in e ==> Backup in e && e[Backup] == d[Live])
  {
    hide ApplyAll;
    var steps, aside := SwapSteps(f).steps, [Rename(Live, Backup)];
    NothingApplied(d);
    FirstApplied(d, Rename(Live, Backup));
    OneApplied(d, aside, Rename(TmpInstall, Live));
    OneApplied(d, aside, Rename(Backup, Live));
    if k == 0 {
      assert Made(steps, 0) == [];
    } else if k == 1 && |steps| == 2 {
      assert steps[..1] == aside;
    }
  }

  /** The renames of Uninstall, cut after `k` steps. */
  lemma SwapOutCut(d: Files, u: UninstallFaults, k: nat)
    requires Live in d && Backup in d && TmpRemove !in d
    ensures var e := ApplyAll(d, Made(SwapOutSteps(u).steps, k));
            && (Live !in e <==> !u.renameLive && (k == 1 || (u.restore && u.rollback && k >= 1)))
            && (Live !in e ==> Backup in e && e[Backup] == d[Backup])
  {
    hide ApplyAll;
    var steps, aside := SwapOutSteps(u).steps, [Rename(Live, TmpRemove)];
    var restored := aside + [Rename(Backup, Live)];
    NothingApplied(d);
    FirstApplied(d, Rename(Live, TmpRemove));
    OneApplied(d, aside, Rename(TmpRemove, Live));
    OneApplied(d, aside, Rename(Backup, Live));
    OneApplied(d, restored, Remove(TmpRemove));
    if k == 0 {
      assert Made(steps, 0) == [];
    } else if k == 1 && |steps| >= 2 {
      assert steps[..1] == aside;
    } else if k == 2 && |steps| == 3 {
      assert steps[..2] == restored;
    }
  }

  lemma StageCut(d: Files, proxy: Dll, f: InstallFaults, k: nat)
    ensures SameDlls(d, ApplyAll(d, Made(StageSteps(d, proxy, f).steps, k)))
  {
    hide ApplyAll, SameDlls;
    TmpStepsKeepDlls(d, Made(StageSteps(d, proxy, f).steps, k), TmpInstall);
  }

  lemma StageLength(d: Files, proxy: Dll, f: InstallFaults)
    ensures var stage := StageSteps(d, proxy, f);
            && (stage.ok <==> !(TmpInstall in d && f.removeTmp) && f.copy.Copied?)
            && (stage.ok ==> |stage.steps| == |CleanTmp(d, TmpInstall)| + 1)
  {
  }

  lemma CleanCut(d: Files, tmp: FileName, k: nat)
    requires tmp in {TmpInstall, TmpRemove}
    ensures SameDlls(d, ApplyAll(d, Made(CleanTmp(d, tmp), k)))
  {
    hide ApplyAll, SameDlls;
    TmpStepsKeepDlls(d, Made(CleanTmp(d, tmp), k), tmp);
  }

  // ---------- one operation ----------

  lemma InstallCut(d: Files, proxy: Dll, p: Preflight, f: InstallFaults, k: nat)
    requires Live in d
    ensures var e := ApplyAll(d, Made(InstallPlan(d, proxy, p, f).steps, k));
            && (Live !in e <==> InstallStrandsLive(d, proxy, p, f, k))
            && (Live !in e ==> Backup in e && e[Backup] == d[Live])
  {
    hide ApplyAll, InstallSteps, StageSteps, SwapSteps, CleanTmp, ProxyFits, ExportsNothing, StateOf, Made;
    NothingApplied(d);
    NothingMade(k);
    if InstallAccepts(d, proxy, p) {
      NotInstalledHasLive(d);
      StageThenSwap(d, proxy, f);
      StageCut(d, proxy, f, k);
      StageLength(d, proxy, f);
      var stage, swap := StageSteps(d, proxy, f), SwapSteps(f);
      if stage.ok && k > |stage.steps| {
        StageKeepsDlls(d, proxy, f);
        MadeConcat(stage.steps, swap.steps, k);
        ApplyAllConcat(d, stage.steps, Made(swap.steps, k - |stage.steps|));
        SwapCut(d[TmpInstall := proxy], f, k - |stage.steps|);
      } else if stage.ok {
        MadeConcat(stage.steps, swap.steps, k);
      }
    }
  }

  lemma NothingYet(steps: seq<Step>)
    ensures Made(steps, 0) == []
  {
  }

  lemma NothingMade(k: nat)
    ensures Made([], k) == []
  {
  }

  lemma UninstallCut(d: Files, p: Preflight, u: UninstallFaults, k: nat)
    requires Live in d
    ensures var e := ApplyAll(d, Made(UninstallPlan(d, p, u).steps, k));
            && (Live !in e <==> UninstallStrandsLive(d, p, u, k))
            && (Live !in e ==> Backup in d && Backup in e && e[Backup] == d[Backup])
  {
    hide ApplyAll, UninstallSteps, SwapOutSteps, CleanTmp, StateOf, Made;
    NothingApplied(d);
    NothingMade(k);
    if StateOf(d) == UpdateDetected {
      DropBackupCut(d, k);
    } else if StateOf(d) == Installed {
      InstalledHasBoth(d);
      var clean, swap := CleanTmp(d, TmpRemove), SwapOutSteps(u);
      CleanThenSwapOut(d, u);
      CleanCut(d, TmpRemove, k);
      CleanedFiles(d, TmpRemove);
      MadeConcat(clean, swap.steps, k);
      if k > |clean| {
        ApplyAllConcat(d, clean, Made(swap.steps, k - |clean|));
        SwapOutCut(d - {TmpRemove}, u, k - |clean|);
      }
    }
  }

  lemma DropBackupCut(d: Files, k: nat)
    ensures ApplyAll(d, Made([Remove(Backup)], k)) == if k == 0 then d else d - {Backup}
  {
    FirstApplied(d, Remove(Backup));
    NothingApplied(d);
  }

  lemma RepairCut(d: Files, proxy: Dll, p: Preflight, removeFails: bool, again: Preflight, f: InstallFaults, k: nat)
    requires Live in d
    ensures var e := ApplyAll(d, Made(RepairPlan(d, proxy, p, removeFails, again, f).steps, k));
            && (Live !in e <==> StrandsLive(d, DoRepair(proxy, p, removeFails, again, f, k)))
            && (Live !in e ==> Backup in e && e[Backup] == d[Live])
  {
    hide ApplyAll, InstallPlan, InstallStrandsLive, ProxyFits, StateOf, Made;
    NothingApplied(d);
    NothingMade(k);
    var rest := InstallPlan(d - {Backup}, proxy, again, f).steps;
    MadeConcat([Remove(Backup)], rest, k);
    DropBackupCut(d, k);
    if k >= 1 {
      DropBackupCut(d, 1);
      MadeAll([Remove(Backup)], 1);
      InstallCut(d - {Backup}, proxy, again, f, k - 1);
      NothingYet(rest);
      NothingApplied(d - {Backup});
      ApplyAllConcat(d, [Remove(Backup)], Made(rest, k - 1));
    }
  }

  lemma MadeAll(steps: seq<Step>, k: nat)
    requires k >= |steps|
    ensures Made(steps, k) == steps
  {
  }

  /**
   * An operation leaves PotPlayer without a live DLL if and only if it is killed between its two renames, or the
   * second rename and its rollback both fail. The newest real DLL is then the backup.
   */
  lemma LiveLostExactly(w: World, e: Event)
    requires Live in w.files
    ensures Live !in After(w, e).files <==> StrandsLive(w.files, e)
    ensures StrandsLive(w.files, e) && Safe(w.files, w.newest) ==>
              Backup in After(w, e).files && After(w, e).files[Backup] == w.newest
  {
    hide ApplyAll, InstallPlan, UninstallPlan, RepairPlan, InstallStrandsLive, UninstallStrandsLive, Safe, Made;
    match e {
      case DoInstall(proxy, p, f, k) => InstallCut(w.files, proxy, p, f, k);
      case DoUninstall(p, u, k) => UninstallCut(w.files, p, u, k);
      case DoRepair(proxy, p, r, again, f, k) => RepairCut(w.files, proxy, p, r, again, f, k);
      case Update(b) => FirstApplied(w.files, Write(Live, b));
    }
    if Safe(w.files, w.newest) && StrandsLive(w.files, e) {
      EventSafe(w, e);
      NoLiveMeansBackup(After(w, e).files, w.newest);
    }
  }

  lemma NoLiveMeansBackup(d: Files, newest: Dll)
    requires Safe(d, newest) && Live !in d
    ensures Backup in d && d[Backup] == newest
  {
  }

  // ---------- whole runs ----------

  /** Without a live DLL every operation refuses, so only an update ends that state. */
  lemma {:induction false} StrandedStays(w: World, events: seq<Event>)
    requires Live !in w.files && forall i | 0 <= i < |events| :: !events[i].Update?
    ensures AfterAll(w, events) == w
    decreases |events|
  {
    hide InstallAccepts, InstallSteps, UninstallSteps;
    if events != [] {
      NothingAccepted(w.files);
      assert PlanOf(w.files, events[0]) == [];
      NothingApplied(w.files);
      assert forall i | 0 <= i < |events[1..]| :: events[1..][i] == events[i + 1];
      StrandedStays(w, events[1..]);
    }
  }

  lemma NothingAccepted(d: Files)
    requires Live !in d
    ensures StateOf(d) in {Missing, Unknown}
    ensures forall proxy, p :: !InstallAccepts(d, proxy, p)
  {
  }

  lemma {:induction false} AfterAllSnoc(w: World, events: seq<Event>, e: Event)
    ensures AfterAll(w, events + [e]) == After(AfterAll(w, events), e)
    decreases |events|
  {
    hide After;
    if events == [] {
      assert ([] + [e])[1..] == [];
    } else {
      assert (events + [e])[1..] == events[1..] + [e];
      AfterAllSnoc(After(w, events[0]), events[1..], e);
    }
  }

  /** Operation `i` of a run leaves no live DLL, and no update comes after it. */
  predicate StrandedBy(w: World, events: seq<Event>, i: nat)
    requires i < |events|
  {
    && StrandsLive(AfterAll(w, events[..i]).files, events[i])
    && forall j | i < j < |events| :: !events[j].Update?
  }

  lemma StrandsNeedsLive(d: Files, e: Event)
    requires StrandsLive(d, e)
    ensures Live in d
  {
    hide ProxyFits, ExportsNothing, Inspect, HasForwarder;
  }

  /** A run ends without a live DLL if and only if some operation stranded it and no update came after that. */
  lemma {:induction false} RunLosesLiveExactly(w: World, events: seq<Event>)
    requires Live in w.files
    ensures Live !in AfterAll(w, events).files <==> exists i: nat | i < |events| :: StrandedBy(w, events, i)
    decreases |events|
  {
    hide AfterAll, After, StrandsLive;
    if events == [] {
      NoEvents(w);
    } else {
      var n := |events| - 1;
      var before, last := events[..n], events[n];
      var v := AfterAll(w, before);
      assert events == before + [last];
      AfterAllSnoc(w, before, last);
      RunLosesLiveExactly(w, before);
      forall i: nat | i < n
        ensures StrandedBy(w, events, i) <==> !last.Update? && StrandedBy(w, before, i)
      {
        assert events[..i] == before[..i];
        assert forall j | i < j < n :: before[j] == events[j];
      }
      if Live in v.files {
        LiveLostExactly(v, last);
        assert StrandedBy(w, events, n) <==> StrandsLive(v.files, last);
      } else {
        OneEvent(v, last);
        if StrandedBy(w, events, n) {
          StrandsNeedsLive(v.files, last);
        }
      }
    }
  }

  lemma NoEvents(w: World)
    ensures AfterAll(w, []) == w
  {
  }

  /** From a stranded world only an update brings a live DLL back. */
  lemma OneEvent(w: World, e: Event)
    requires Live !in w.files
    ensures Live !in After(w, e).files <==> !e.Update?
  {
    hide After;
    if e.Update? {
      UpdateBringsLive(w, e.newLive);
    } else {
      StrandedStays(w, [e]);
      AfterAllSnoc(w, [], e);
      NoEvents(w);
      assert [] + [e] == [e];
    }
  }

  lemma UpdateBringsLive(w: World, b: Dll)
    ensures Live in After(w, Update(b)).files
  {
    FirstApplied(w.files, Write(Live, b));
  }
}
