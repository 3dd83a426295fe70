/** What the installer checks before it touches a file, and what its operations leave, spelled out in full. */
module InstallerChecks {
  import opened Wrappers
  import opened PeExports
  import opened Installer
  import opened InstallerRuns
  import opened InstallerOutcomes

  // ---------- the states ----------

  /** A parseable DLL with no forwarder. */
  predicate PlainDll(b: Dll) {
    b.info.Ok? && forall k | k in b.info.value :: b.info.value[k].target in {None, Some("")}
  }

  /** A parseable DLL with a forwarder. */
  predicate ForwardingDll(b: Dll) {
    b.info.Ok? && exists k | k in b.info.value :: b.info.value[k].target !in {None, Some("")}
  }

  lemma DllExactly(b: Dll)
    ensures RealDll(b) <==> PlainDll(b)
    ensures Forwarder(b) <==> ForwardingDll(b)
    ensures !(RealDll(b) && Forwarder(b))
  {
  }

  /** The five states by what the two files are; a live file that cannot be parsed is always Unknown. */
  lemma StatesExactly(d: Files)
    ensures StateOf(d) == NotInstalled <==> Live in d && Backup !in d && PlainDll(d[Live])
    ensures StateOf(d) == Installed <==> Live in d && Backup in d && ForwardingDll(d[Live])
    ensures StateOf(d) == UpdateDetected <==> Live in d && Backup in d && PlainDll(d[Live])
    ensures StateOf(d) == Missing <==> Live !in d && Backup !in d
    ensures StateOf(d) == Unknown <==>
            || (Live !in d && Backup in d) || (Live in d && d[Live].info.Err?)
            || (Live in d && Backup !in d && ForwardingDll(d[Live]))
  {
    hide RealDll, Forwarder, PlainDll, ForwardingDll;
    if Live in d {
      DllExactly(d[Live]);
      DllParsed(d[Live]);
    }
  }

  lemma DllParsed(b: Dll)
    ensures b.info.Ok? <==> RealDll(b) || Forwarder(b)
    ensures PlainDll(b) || ForwardingDll(b) ==> b.info.Ok?
  {
  }

  // ---------- the checks ----------

  /** The directory exists, is writable, and the player does not run, unless that is allowed. */
  predicate MayTouch(p: Preflight) {
    p.dirExists && p.writable && (!p.running || p.allowRunning)
  }

  /** Every export of the proxy forwards to a name that the original exports. */
  ghost predicate ForwardsAllInto(proxy: Dll, original: Dll) {
    && proxy.info.Ok? && original.info.Ok?
    && forall k | k in proxy.info.value :: ForwardsInto(proxy.info.value[k], original.info.value)
  }

  lemma FitsExactly(proxy: Dll, original: Dll)
    ensures ProxyFits(proxy, original) <==> ForwardsAllInto(proxy, original)
  {
    hide ForwarderSetMatches, ForwardsInto;
    if proxy.info.Ok? && original.info.Ok? {
      MatchesExactly(proxy.info.value, original.info.value);
    }
  }

  /**
   * Install returns normally if and only if everything it checks holds - among it that each proxy export forwards to
   * a name the live DLL exports - and none of its file operations fails. If a check fails, nothing is touched.
   */
  lemma InstallReturnsExactly(d: Files, proxy: Dll, p: Preflight, f: InstallFaults)
    ensures var plan := InstallPlan(d, proxy, p, f);
            var checked := p.proxyExists && MayTouch(p) && Live in d && Backup !in d && PlainDll(d[Live])
                           && ForwardsAllInto(proxy, d[Live]) && proxy.info.value != map[];
            && (!checked ==> plan == Plan([], false))
            && (plan.ok <==> checked && !(TmpInstall in d && f.removeTmp) && f.copy == Copied
                             && !f.renameLive && !f.placeProxy)
  {
    hide StateOf, ProxyFits, ForwardsAllInto, PlainDll, ForwardingDll;
    StatesExactly(d);
    if Live in d {
      FitsExactly(proxy, d[Live]);
      AllIntoParses(proxy, d[Live]);
    }
  }

  lemma AllIntoParses(proxy: Dll, original: Dll)
    ensures ForwardsAllInto(proxy, original) ==> proxy.info.Ok?
  {
    hide ForwardsInto;
  }

  /** A proxy with one export that does not forward into the live DLL is refused, and nothing is touched. */
  lemma DanglingRefused(d: Files, proxy: Dll, p: Preflight, again: Preflight, r: bool, f: InstallFaults, k: string)
    requires Live in d && proxy.info.Ok? && k in proxy.info.value
    requires d[Live].info.Ok? ==> !ForwardsInto(proxy.info.value[k], d[Live].info.value)
    ensures InstallPlan(d, proxy, p, f) == Plan([], false)
    ensures RepairPlan(d, proxy, p, r, again, f).steps == []
  {
    hide StateOf, ProxyFits, ForwardsInto;
    FitsExactly(proxy, d[Live]);
  }

  /** Repair drops the stale backup if and only if everything it checks holds and the removal works. */
  lemma RepairDropsExactly(d: Files, proxy: Dll, p: Preflight, removeFails: bool, again: Preflight, f: InstallFaults)
    ensures var plan := RepairPlan(d, proxy, p, removeFails, again, f);
            var drops := p.proxyExists && MayTouch(p) && Live in d && Backup in d && PlainDll(d[Live])
                         && ForwardsAllInto(proxy, d[Live]) && !removeFails;
            && (plan.steps != [] <==> drops)
            && (drops ==> plan.steps[0] == Remove(Backup) &&
                          var rest := InstallPlan(d - {Backup}, proxy, again, f);
                          plan.steps[1..] == rest.steps && plan.ok == rest.ok)
            && (!drops ==> (plan.ok <==> p.proxyExists && MayTouch(p) && Live in d && Backup in d
                                         && ForwardingDll(d[Live])))
  {
    hide StateOf, ProxyFits, ForwardsAllInto, PlainDll, ForwardingDll, InstallPlan;
    StatesExactly(d);
    if Live in d {
      FitsExactly(proxy, d[Live]);
      DllExactly(d[Live]);
    }
  }

  /** Uninstall returns normally if and only if it may touch the files, knows the state, and no rename fails. */
  lemma UninstallReturnsExactly(d: Files, p: Preflight, u: UninstallFaults)
    ensures var plan := UninstallPlan(d, p, u);
            && (plan.ok <==>
                && MayTouch(p) && Live in d && d[Live].info.Ok?
                && if Backup !in d then PlainDll(d[Live])
                   else if PlainDll(d[Live]) then !u.removeBackup
                   else !(TmpRemove in d && u.removeTmp) && !u.renameLive && !u.restore)
            && (!MayTouch(p) || Live !in d || d[Live].info.Err? || Backup !in d ==> plan.steps == [])
  {
    hide StateOf, PlainDll, ForwardingDll;
    StatesExactly(d);
    if Live in d {
      DllExactly(d[Live]);
      DllParsed(d[Live]);
    }
  }

  // ---------- forwarders never dangle ----------

  /** The live file forwards every export to a name that the backup exports. */
  ghost predicate LiveForwards(d: Files) {
    Live in d && Backup in d && ForwardsAllInto(d[Live], d[Backup])
  }

  /** After a normal return of Install, and of a Repair that had something to do. */
  lemma InstalledForwards(d: Files, proxy: Dll, p: Preflight, r: bool, again: Preflight, f: InstallFaults)
    ensures var plan := InstallPlan(d, proxy, p, f); plan.ok ==> LiveForwards(ApplyAll(d, plan.steps))
    ensures var plan := RepairPlan(d, proxy, p, r, again, f);
            plan.ok && plan.steps != [] ==> LiveForwards(ApplyAll(d, plan.steps))
  {
    hide StateOf, ApplyAll, ForwardsAllInto, PlainDll, ForwardingDll, ProxyFits, InstallPlan, RepairPlan, SameDlls;
    InstallReturnsExactly(d, proxy, p, f);
    InstallOutcome(d, proxy, p, f);
    StatesExactly(ApplyAll(d, InstallPlan(d, proxy, p, f).steps));
    var plan := RepairPlan(d, proxy, p, r, again, f);
    RepairDropsExactly(d, proxy, p, r, again, f);
    RepairInstalls(d, proxy, p, r, again, f);
    StatesExactly(ApplyAll(d, plan.steps));
  }

  lemma RepairInstalls(d: Files, proxy: Dll, p: Preflight, r: bool, again: Preflight, f: InstallFaults)
    ensures var plan := RepairPlan(d, proxy, p, r, again, f); var e := ApplyAll(d, plan.steps);
            plan.ok && plan.steps != [] ==>
              && StateOf(e) == Installed && Live in d && Live in e && Backup in e
              && e[Live] == proxy && e[Backup] == d[Live]
  {
    hide StateOf, ApplyAll, ProxyFits, InstallPlan, SameDlls;
    RepairOutcome(d, proxy, p, r, again, f);
    InstalledFiles(ApplyAll(d, RepairPlan(d, proxy, p, r, again, f).steps));
    if StateOf(d) == UpdateDetected {
      UpdateHasBoth(d);
    }
  }

  lemma InstalledFiles(d: Files)
    ensures StateOf(d) == Installed ==> Live in d && Backup in d
  {
  }

  /** In every run from a pristine install on, whatever is reported Installed forwards into the newest real DLL. */
  lemma ReachableForwards(d: Files, events: seq<Event>)
    requires StateOf(d) == NotInstalled && RealUpdates(events)
    ensures var w := AfterAll(World(d, d[Live]), events);
            Live in w.files && Backup in w.files && ForwardingDll(w.files[Live]) ==>
              LiveForwards(w.files) && w.files[Backup] == w.newest
  {
    hide StateOf, AfterAll, RealUpdates, ProxyFits, ForwardsAllInto, ForwardingDll;
    NotInstalledHasLive(d);
    InstalledResolves(d, events);
    var w := AfterAll(World(d, d[Live]), events);
    StatesExactly(w.files);
    if Live in w.files && Backup in w.files {
      FitsExactly(w.files[Live], w.files[Backup]);
    }
  }

  // ---------- the whole directory afterwards ----------

  /** A normal return of Install leaves the proxy live, the old DLL as backup, and no temporary copy. */
  lemma InstallLeaves(d: Files, proxy: Dll, p: Preflight, f: InstallFaults)
    ensures var plan := InstallPlan(d, proxy, p, f);
            plan.ok ==> Live in d && ApplyAll(d, plan.steps) == (d - {TmpInstall})[Live := proxy][Backup := d[Live]]
  {
    hide StateOf, ApplyAll, ProxyFits, ExportsNothing, StageSteps, InstallSteps;
    if InstallAccepts(d, proxy, p) {
      NotInstalledHasLive(d);
      StageThenSwap(d, proxy, f);
      StageKeepsDlls(d, proxy, f);
      var stage, d2 := StageSteps(d, proxy, f), d[TmpInstall := proxy];
      ApplyAllConcat(d, stage.steps, SwapSteps(f).steps);
      FirstApplied(d2, Rename(Live, Backup));
      OneApplied(d2, [Rename(Live, Backup)], Rename(TmpInstall, Live));
    }
  }

  /**
   * A normal return of Uninstall leaves the original live and no backup. The proxy set aside is gone as well,
   * unless its removal failed, which is not an error; then it stays under the temporary name.
   */
  lemma UninstallLeaves(d: Files, p: Preflight, u: UninstallFaults)
    ensures var plan := UninstallPlan(d, p, u); var e := ApplyAll(d, plan.steps);
            plan.ok && StateOf(d) == Installed ==>
              && Live in d && Backup in d
              && e == if u.removeAside then (d - {Backup})[Live := d[Backup]][TmpRemove := d[Live]]
                      else (d - {Backup, TmpRemove})[Live := d[Backup]]
    ensures var plan := UninstallPlan(d, p, u);
            plan.ok && StateOf(d) != Installed ==> ApplyAll(d, plan.steps) == d - {Backup}
  {
    hide StateOf, ApplyAll, UninstallSteps, CleanTmp;
    NothingApplied(d);
    FirstApplied(d, Remove(Backup));
    if StateOf(d) == NotInstalled {
      NotInstalledHasLive(d);
      assert d - {Backup} == d;
    } else if StateOf(d) == Installed {
      InstalledHasBoth(d);
      var swap, d1 := SwapOutSteps(u), d - {TmpRemove};
      var aside := [Rename(Live, TmpRemove)];
      var restored := aside + [Rename(Backup, Live)];
      CleanThenSwapOut(d, u);
      CleanedFiles(d, TmpRemove);
      ApplyAllConcat(d, CleanTmp(d, TmpRemove), swap.steps);
      FirstApplied(d1, Rename(Live, TmpRemove));
      OneApplied(d1, aside, Rename(Backup, Live));
      OneApplied(d1, restored, Remove(TmpRemove));
    }
  }
}
