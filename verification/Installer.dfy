/** Install, Uninstall and Repair as sequences of single file operations on the install directory. */
module Installer {
  import opened Wrappers
  import opened PeBytes
  import opened PeExports

  /** MediaDB64.dll, MediaDB64_orig.dll, and the two temporary names. */
  datatype FileName = Live | Backup | TmpInstall | TmpRemove

  /**
   * A file: its bytes, and what Get-PEExportInfo reports about them. Everything below holds for any such report;
   * Load gives the one the reader really makes.
   */
  datatype Dll = Dll(bytes: Bytes, info: Result<ExportTable>)

  function Load(b: Bytes): Dll {
    var r := ReadExports(b);
    Dll(b, if r.Ok? then Ok(r.value.exports) else Err)
  }

  type Files = map<FileName, Dll>

  function Inspect(b: Dll): Result<ExportTable> {
    b.info
  }

  predicate HasForwarder(t: ExportTable) {
    exists k | k in t :: Forwards(t[k])
  }

  /** A parseable DLL that forwards nothing. */
  predicate RealDll(b: Dll) {
    Inspect(b).Ok? && !HasForwarder(Inspect(b).value)
  }

  predicate Forwarder(b: Dll) {
    Inspect(b).Ok? && HasForwarder(Inspect(b).value)
  }

  datatype InstallState = Missing | Unknown | NotInstalled | Installed | UpdateDetected

  /** Get-ProxyInstallState. */
  function StateOf(d: Files): InstallState {
    if Live !in d && Backup !in d then Missing
    else if Live !in d then Unknown
    else if Inspect(d[Live]).Err? then Unknown
    else if Backup !in d then if Forwarder(d[Live]) then Unknown else NotInstalled
    else if Forwarder(d[Live]) then Installed
    else UpdateDetected
  }

  // ---------- single file operations ----------

  datatype Step = Remove(name: FileName) | Write(name: FileName, content: Dll) | Rename(from: FileName, to: FileName)

  /** The directory after one operation; a rename needs its source and an unused target. */
  function Apply(d: Files, s: Step): Files {
    match s
    case Remove(n) => d - {n}
    case Write(n, b) => d[n := b]
    case Rename(a, b) => if a in d && b !in d then (d - {a})[b := d[a]] else d
  }

  function ApplyAll(d: Files, steps: seq<Step>): Files
    decreases |steps|
  {
    if steps == [] then d else ApplyAll(Apply(d, steps[0]), steps[1..])
  }

  lemma {:induction false} ApplyAllConcat(d: Files, a: seq<Step>, b: seq<Step>)
    ensures ApplyAll(d, a + b) == ApplyAll(ApplyAll(d, a), b)
    decreases |a|
  {
    hide Apply;
    if a == [] {
      assert a + b == b;
    } else {
      assert (a + b)[1..] == a[1..] + b;
      ApplyAllConcat(Apply(d, a[0]), a[1..], b);
    }
  }

  // ---------- what may go wrong ----------

  /** The checks made before anything is touched. */
  datatype Preflight = Preflight(proxyExists: bool, dirExists: bool, writable: bool, running: bool, allowRunning: bool)

  predicate Clear(p: Preflight) {
    p.dirExists && p.writable && (p.allowRunning || !p.running)
  }

  /** A copy can also fail half way, leaving anything or nothing. */
  datatype Copy = Copied | CopyFailed(left: Option<Dll>)

  /** Which of Install's file operations throw. */
  datatype InstallFaults =
    InstallFaults(removeTmp: bool, copy: Copy, renameLive: bool, placeProxy: bool, rollback: bool)

  datatype UninstallFaults = UninstallFaults(removeBackup: bool, removeTmp: bool, renameLive: bool, restore: bool,
                                             rollback: bool, removeAside: bool)

  /** The file operations that took effect, and whether the operation returned normally. */
  datatype Plan = Plan(steps: seq<Step>, ok: bool)

  // ---------- the operations ----------

  /** The export check shared by Install and Repair. */
  predicate ProxyFits(proxy: Dll, original: Dll) {
    && Inspect(proxy).Ok? && Inspect(original).Ok?
    && ForwarderSetMatches(Inspect(proxy).value, Inspect(original).value)
  }

  predicate ExportsNothing(b: Dll) {
    Inspect(b).Ok? && Inspect(b).value == map[]
  }

  predicate InstallAccepts(d: Files, proxy: Dll, p: Preflight) {
    && p.proxyExists && Clear(p) && StateOf(d) == NotInstalled
    && !ExportsNothing(proxy) && ProxyFits(proxy, d[Live])
  }

  function CleanTmp(d: Files, tmp: FileName): seq<Step> {
    if tmp in d then [Remove(tmp)] else []
  }

  function InstallSteps(d: Files, proxy: Dll, f: InstallFaults): Plan {
    if TmpInstall in d && f.removeTmp then Plan([], false) else
    var cleaned := CleanTmp(d, TmpInstall);
    match f.copy
    case CopyFailed(left) => Plan(cleaned + (if left.Some? then [Write(TmpInstall, left.value)] else []), false)
    case Copied =>
      var copied := cleaned + [Write(TmpInstall, proxy)];
      if f.renameLive then Plan(copied, false) else
      var aside := copied + [Rename(Live, Backup)];
      if !f.placeProxy then Plan(aside + [Rename(TmpInstall, Live)], true)
      else if !f.rollback then Plan(aside + [Rename(Backup, Live)], false)
      else Plan(aside, false)
  }

  /** Everything up to the copied proxy. */
  function StageSteps(d: Files, proxy: Dll, f: InstallFaults): Plan {
    if TmpInstall in d && f.removeTmp then Plan([], false) else
    var cleaned := CleanTmp(d, TmpInstall);
    match f.copy
    case CopyFailed(left) => Plan(cleaned + (if left.Some? then [Write(TmpInstall, left.value)] else []), false)
    case Copied => Plan(cleaned + [Write(TmpInstall, proxy)], true)
  }

  /** The two renames and the rollback. */
  function SwapSteps(f: InstallFaults): Plan {
    if f.renameLive then Plan([], false) else
    var aside := [Rename(Live, Backup)];
    if !f.placeProxy then Plan(aside + [Rename(TmpInstall, Live)], true)
    else if !f.rollback then Plan(aside + [Rename(Backup, Live)], false)
    else Plan(aside, false)
  }

  function InstallPlan(d: Files, proxy: Dll, p: Preflight, f: InstallFaults): Plan {
    if InstallAccepts(d, proxy, p) then InstallSteps(d, proxy, f) else Plan([], false)
  }

  function UninstallSteps(d: Files, f: UninstallFaults): Plan {
    if TmpRemove in d && f.removeTmp then Plan([], false) else
    var cleaned := CleanTmp(d, TmpRemove);
    if f.renameLive then Plan(cleaned, false) else
    var aside := cleaned + [Rename(Live, TmpRemove)];
    if f.restore then Plan(aside + (if f.rollback then [] else [Rename(TmpRemove, Live)]), false)
    else Plan(aside + [Rename(Backup, Live)] + (if f.removeAside then [] else [Remove(TmpRemove)]), true)
  }

  /** The two renames, the rollback, and the proxy's removal. */
  function SwapOutSteps(f: UninstallFaults): Plan {
    if f.renameLive then Plan([], false) else
    var aside := [Rename(Live, TmpRemove)];
    if f.restore then Plan(if f.rollback then aside else aside + [Rename(TmpRemove, Live)], false) else
    var restored := aside + [Rename(Backup, Live)];
    Plan(if f.removeAside then restored else restored + [Remove(TmpRemove)], true)
  }

  function UninstallPlan(d: Files, p: Preflight, f: UninstallFaults): Plan {
    if !Clear(p) then Plan([], false)
    else match StateOf(d)
    case NotInstalled => Plan([], true)
    case UpdateDetected => if f.removeBackup then Plan([], false) else Plan([Remove(Backup)], true)
    case Installed => UninstallSteps(d, f)
    case _ => Plan([], false)
  }

  /** Repair drops the stale backup, then runs Install, which makes its own checks again. */
  function RepairPlan(d: Files, proxy: Dll, p: Preflight, removeFails: bool, again: Preflight, f: InstallFaults): Plan {
    if !p.proxyExists || !Clear(p) then Plan([], false)
    else match StateOf(d)
    case Installed => Plan([], true)
    case UpdateDetected =>
      if !ProxyFits(proxy, d[Live]) || removeFails then Plan([], false) else
      var rest := InstallPlan(d - {Backup}, proxy, again, f);
      Plan([Remove(Backup)] + rest.steps, rest.ok)
    case _ => Plan([], false)
  }

  // ---------- the directory object ----------

  /** The install directory, with a ghost log of the operations that took effect. */
  class InstallDirectory {
    var files: Files
    ghost var log: seq<Step>

    constructor (initial: Files)
      ensures files == initial && log == []
    {
      files := initial;
      log := [];
    }

    /** One file operation: it takes effect, or throws and changes nothing. */
    method Do(s: Step, fails: bool) returns (ok: bool)
      requires s.Rename? ==> s.from in files && s.to !in files
      modifies this
      ensures ok == !fails
      ensures log == old(log) + (if fails then [] else [s])
      ensures files == if fails then old(files) else Apply(old(files), s)
    {
      ok := !fails;
      if fails {
        return;
      }
      match s {
        case Remove(n) => files := files - {n};
        case Write(n, b) => files := files[n := b];
        case Rename(a, b) =>
          var content := files[a];
          files := files - {a};
          files := files[b := content];
      }
      log := log + [s];
    }

    /** Get-ProxyInstallState, branch by branch. */
    method GetState() returns (state: InstallState)
      ensures state == StateOf(files)
    {
      hide Inspect, HasForwarder;
      if Live !in files && Backup !in files { return Missing; }
      if Live !in files && Backup in files { return Unknown; }
      var info := Inspect(files[Live]);
      if info.Err? { return Unknown; }
      var isForwarder := HasForwarder(info.value);
      if Backup !in files {
        if isForwarder { return Unknown; }
        return NotInstalled;
      }
      if isForwarder { return Installed; }
      return UpdateDetected;
    }

    method Install(proxy: Dll, p: Preflight, f: InstallFaults) returns (ok: bool, state: InstallState)
      modifies this
      ensures var plan := InstallPlan(old(files), proxy, p, f);
              && ok == plan.ok && log == old(log) + plan.steps
              && files == ApplyAll(old(files), plan.steps) && (ok ==> state == StateOf(files))
    {
      hide Inspect, HasForwarder, ForwarderSetMatches, StateOf, Apply, ApplyAll, InstallSteps;
      NothingApplied(files);
      state := GetState();
      if !p.proxyExists || !p.dirExists || !p.writable || (!p.allowRunning && p.running) {
        return false, state;
      }
      if state != NotInstalled {
        return false, state;
      }
      NotInstalledHasLive(files);
      var original := Inspect(files[Live]);
      var info := Inspect(proxy);
      if info.Err? || original.Err? {
        return false, state;
      }
      if info.value == map[] {
        return false, state;
      }
      var matches, missing := TestForwarderSetMatches(info.value, original.value);
      if !matches {
        return false, state;
      }
      ok := PlaceProxy(proxy, f);
      state := GetState();
    }

    /** Install's file operations: stage a copy of the proxy, then swap it in. */
    method PlaceProxy(proxy: Dll, f: InstallFaults) returns (ok: bool)
      requires Live in files && Backup !in files
      modifies this
      ensures var plan := InstallSteps(old(files), proxy, f);
              && ok == plan.ok && log == old(log) + plan.steps && files == ApplyAll(old(files), plan.steps)
    {
      hide Apply, ApplyAll, InstallSteps, StageSteps, SwapSteps;
      ghost var d := files;
      StageThenSwap(d, proxy, f);
      StageKeepsDlls(d, proxy, f);
      ok := Stage(proxy, f);
      if !ok {
        return;
      }
      ApplyAllConcat(d, StageSteps(d, proxy, f).steps, SwapSteps(f).steps);
      ok := SwapIn(f);
    }

    /** A leftover temporary file goes, then the proxy is copied under the temporary name. */
    method Stage(proxy: Dll, f: InstallFaults) returns (ok: bool)
      modifies this
      ensures var plan := StageSteps(old(files), proxy, f);
              && ok == plan.ok && log == old(log) + plan.steps && files == ApplyAll(old(files), plan.steps)
    {
      hide Apply, ApplyAll;
      ghost var d := files;
      ghost var cleaned := CleanTmp(d, TmpInstall);
      NothingApplied(d);
      if TmpInstall in files {
        FirstApplied(d, Remove(TmpInstall));
        ok := Do(Remove(TmpInstall), f.removeTmp);
        if !ok {
          return;
        }
      }
      assert cleaned + [] == cleaned;
      if f.copy.CopyFailed? {
        if f.copy.left.Some? {
          OneApplied(d, cleaned, Write(TmpInstall, f.copy.left.value));
          ok := Do(Write(TmpInstall, f.copy.left.value), false);
        }
        return false;
      }
      OneApplied(d, cleaned, Write(TmpInstall, proxy));
      ok := Do(Write(TmpInstall, proxy), false);
    }

    /** The real DLL is renamed aside and the copy renamed into place, with the rollback of the catch block. */
    method SwapIn(f: InstallFaults) returns (ok: bool)
      requires Live in files && TmpInstall in files && Backup !in files
      modifies this
      ensures var plan := SwapSteps(f);
              && ok == plan.ok && log == old(log) + plan.steps && files == ApplyAll(old(files), plan.steps)
    {
      hide ApplyAll;
      ghost var d := files;
      ghost var aside := [Rename(Live, Backup)];
      NothingApplied(d);
      FirstApplied(d, Rename(Live, Backup));
      OneApplied(d, aside, Rename(TmpInstall, Live));
      OneApplied(d, aside, Rename(Backup, Live));
      ok := Do(Rename(Live, Backup), f.renameLive);
      if !ok {
        return;
      }
      ok := Do(Rename(TmpInstall, Live), f.placeProxy);
      if !ok {
        var rolledBack := Do(Rename(Backup, Live), f.rollback);
      }
    }

    method Uninstall(p: Preflight, f: UninstallFaults) returns (ok: bool, state: InstallState)
      modifies this
      ensures var plan := UninstallPlan(old(files), p, f);
              && ok == plan.ok && log == old(log) + plan.steps
              && files == ApplyAll(old(files), plan.steps) && (ok ==> state == StateOf(files))
    {
      hide Inspect, HasForwarder, StateOf, Apply, ApplyAll, UninstallSteps;
      NothingApplied(files);
      state := GetState();
      if !p.dirExists || !p.writable || (!p.allowRunning && p.running) {
        return false, state;
      }
      if state == NotInstalled {
        return true, state;
      }
      if state != Installed && state != UpdateDetected {
        return false, state;
      }
      if state == UpdateDetected {
        FirstApplied(files, Remove(Backup));
        ok := Do(Remove(Backup), f.removeBackup);
        state := GetState();
        return;
      }
      InstalledHasBoth(files);
      ok := RestoreOriginal(f);
      state := GetState();
    }

    /** Uninstall's file operations: a leftover temporary file goes, then the proxy is swapped out. */
    method RestoreOriginal(f: UninstallFaults) returns (ok: bool)
      requires Live in files && Backup in files
      modifies this
      ensures var plan := UninstallSteps(old(files), f);
              && ok == plan.ok && log == old(log) + plan.steps && files == ApplyAll(old(files), plan.steps)
    {
      hide Apply, ApplyAll, SwapOutSteps;
      ghost var d := files;
      CleanThenSwapOut(d, f);
      CleanedFiles(d, TmpRemove);
      NothingApplied(d);
      if TmpRemove in files {
        FirstApplied(d, Remove(TmpRemove));
        ok := Do(Remove(TmpRemove), f.removeTmp);
        if !ok {
          return;
        }
      }
      ApplyAllConcat(d, CleanTmp(d, TmpRemove), SwapOutSteps(f).steps);
      ok := SwapOut(f);
    }

    /** The proxy is renamed aside and the original back, with the rollback of the catch block. */
    method SwapOut(f: UninstallFaults) returns (ok: bool)
      requires Live in files && Backup in files && TmpRemove !in files
      modifies this
      ensures var plan := SwapOutSteps(f);
              && ok == plan.ok && log == old(log) + plan.steps && files == ApplyAll(old(files), plan.steps)
    {
      hide ApplyAll;
      ghost var d := files;
      ghost var aside := [Rename(Live, TmpRemove)];
      NothingApplied(d);
      FirstApplied(d, Rename(Live, TmpRemove));
      ok := Do(Rename(Live, TmpRemove), f.renameLive);
      if !ok {
        return;
      }
      OneApplied(d, aside, Rename(TmpRemove, Live));
      OneApplied(d, aside, Rename(Backup, Live));
      ok := Do(Rename(Backup, Live), f.restore);
      if !ok {
        var rolledBack := Do(Rename(TmpRemove, Live), f.rollback);
        return;
      }
      ghost var restored := aside + [Rename(Backup, Live)];
      OneApplied(d, restored, Remove(TmpRemove));
      var removed := Do(Remove(TmpRemove), f.removeAside);
    }

    method Repair(proxy: Dll, p: Preflight, removeFails: bool, again: Preflight, f: InstallFaults)
        returns (ok: bool, state: InstallState)
      modifies this
      ensures var plan := RepairPlan(old(files), proxy, p, removeFails, again, f);
              && ok == plan.ok && log == old(log) + plan.steps
              && files == ApplyAll(old(files), plan.steps) && (ok ==> state == StateOf(files))
    {
      hide Inspect, HasForwarder, ForwarderSetMatches, StateOf, ApplyAll, InstallPlan;
      ghost var d := files;
      NothingApplied(d);
      state := GetState();
      if !p.proxyExists || !p.dirExists || !p.writable || (!p.allowRunning && p.running) {
        return false, state;
      }
      if state == Installed {
        return true, state;
      }
      if state != UpdateDetected {
        return false, state;
      }
      UpdateHasBoth(files);
      var original := Inspect(files[Live]);
      var info := Inspect(proxy);
      if info.Err? || original.Err? {
        return false, state;
      }
      var matches, missing := TestForwarderSetMatches(info.value, original.value);
      if !matches {
        return false, state;
      }
      FirstApplied(d, Remove(Backup));
      ok := Do(Remove(Backup), removeFails);
      if !ok {
        return;
      }
      ok, state := Install(proxy, again, f);
      ApplyAllConcat(d, [Remove(Backup)], InstallPlan(d - {Backup}, proxy, again, f).steps);
    }
  }

  lemma NothingApplied(d: Files)
    ensures ApplyAll(d, []) == d
  {
  }

  lemma FirstApplied(d: Files, s: Step)
    ensures ApplyAll(d, [s]) == Apply(d, s)
  {
    hide Apply;
    assert [s][1..] == [];
  }

  lemma OneApplied(d: Files, before: seq<Step>, s: Step)
    ensures ApplyAll(d, before + [s]) == Apply(ApplyAll(d, before), s)
  {
    hide Apply;
    ApplyAllConcat(d, before, [s]);
    FirstApplied(ApplyAll(d, before), s);
  }

  lemma StageThenSwap(d: Files, proxy: Dll, f: InstallFaults)
    ensures var stage, swap := StageSteps(d, proxy, f), SwapSteps(f);
            InstallSteps(d, proxy, f) == if stage.ok then Plan(stage.steps + swap.steps, swap.ok) else stage
  {
    hide CleanTmp;
    var copied := CleanTmp(d, TmpInstall) + [Write(TmpInstall, proxy)];
    assert copied + [] == copied;
    assert copied + ([Rename(Live, Backup)] + [Rename(TmpInstall, Live)])
           == copied + [Rename(Live, Backup)] + [Rename(TmpInstall, Live)];
    assert copied + ([Rename(Live, Backup)] + [Rename(Backup, Live)])
           == copied + [Rename(Live, Backup)] + [Rename(Backup, Live)];
  }

  /** Staging touches neither DLL. */
  lemma StageKeepsDlls(d: Files, proxy: Dll, f: InstallFaults)
    ensures var plan := StageSteps(d, proxy, f);
            plan.ok ==> ApplyAll(d, plan.steps) == d[TmpInstall := proxy]
  {
    hide ApplyAll, CleanTmp;
    CleanedFiles(d, TmpInstall);
    OneApplied(d, CleanTmp(d, TmpInstall), Write(TmpInstall, proxy));
  }

  lemma CleanThenSwapOut(d: Files, f: UninstallFaults)
    ensures var clean, swap := CleanTmp(d, TmpRemove), SwapOutSteps(f);
            UninstallSteps(d, f) ==
            if TmpRemove in d && f.removeTmp then Plan([], false) else Plan(clean + swap.steps, swap.ok)
  {
    hide CleanTmp;
    var clean := CleanTmp(d, TmpRemove);
    assert clean + [] == clean;
    var aside := clean + [Rename(Live, TmpRemove)];
    assert aside + [] == aside;
    assert clean + ([Rename(Live, TmpRemove)] + [Rename(TmpRemove, Live)]) == aside + [Rename(TmpRemove, Live)];
    var restored := [Rename(Live, TmpRemove)] + [Rename(Backup, Live)];
    assert clean + restored == aside + [Rename(Backup, Live)] == aside + [Rename(Backup, Live)] + [];
    assert clean + (restored + [Remove(TmpRemove)]) == aside + [Rename(Backup, Live)] + [Remove(TmpRemove)];
  }

  lemma CleanedFiles(d: Files, tmp: FileName)
    ensures ApplyAll(d, CleanTmp(d, tmp)) == d - {tmp}
  {
    hide ApplyAll;
    NothingApplied(d);
    if tmp in d {
      FirstApplied(d, Remove(tmp));
    } else {
      assert d - {tmp} == d;
    }
  }

  lemma NotInstalledHasLive(d: Files)
    requires StateOf(d) == NotInstalled
    ensures Live in d && Backup !in d && RealDll(d[Live])
  {
    hide Inspect, HasForwarder;
  }

  lemma InstalledHasBoth(d: Files)
    requires StateOf(d) == Installed
    ensures Live in d && Backup in d && Forwarder(d[Live])
  {
    hide Inspect, HasForwarder;
  }

  lemma UpdateHasBoth(d: Files)
    requires StateOf(d) == UpdateDetected
    ensures Live in d && Backup in d && RealDll(d[Live])
  {
    hide Inspect, HasForwarder;
  }
}
