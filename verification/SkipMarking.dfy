/** The pick-then-commit state machine behind the three hotkeys, over whole runs of key presses. */
module SkipMarking {
  import opened Wrappers
  import opened Decimal
  import opened HumanInput
  import opened Pbf
  import opened Timecode

  datatype Action = AltA | AltOpenBracket | AltCloseBracket

  /** What the driver answers while one press is handled; positions are not negative. */
  datatype Answers = Answers(unsupported: bool, fileOpen: bool, position: nat, committed: bool)

  datatype Press = Press(action: Action, answers: Answers)

  /** The pending mark. */
  datatype Mark = Mark(startMs: Option<nat>, endMs: Option<nat>)

  const NO_MARK: Mark := Mark(None, None)

  /** One on-screen line. */
  datatype Osd =
    | NoFileOpen | MarkIgnored | MarkIncomplete | UnsupportedVersion | SaveFailed
    | MarkStart(startMs: nat) | MarkEnd(endMs: nat) | Saved(range: SkipRange)

  /** ComposeOsdText: the times are printed with FormatTimecodeShort, which throws on negative ones. */
  function OsdText(m: Osd): Result<string> {
    match m
    case NoFileOpen => Ok("No file open")
    case MarkIgnored => Ok("Skip mark ignored (invalid range)")
    case MarkIncomplete => Ok("Set start and end first")
    case UnsupportedVersion => Ok("This PotPlayer version isn't supported")
    case SaveFailed => Ok("Couldn't save mark")
    case MarkStart(ms) =>
      var t :- FormatTimecodeShort(ms);
      Ok("Skip start " + t)
    case MarkEnd(ms) =>
      var t :- FormatTimecodeShort(ms);
      Ok("Skip end " + t)
    case Saved(r) =>
      var s :- FormatTimecodeShort(r.startMs);
      var e :- FormatTimecodeShort(r.endMs);
      Ok("Skip " + s + " \U{2013} " + e + " saved")
  }

  /** One call of the driver's commitRange, and what it answered. */
  datatype Attempt = Attempt(range: SkipRange, ok: bool)

  datatype State = State(pending: Mark, attempts: seq<Attempt>, shown: seq<Osd>)

  const START: State := State(NO_MARK, [], [])

  // ---------- one press ----------

  /** The guards every handler starts with. */
  predicate Accepted(p: Press) {
    !p.answers.unsupported && p.answers.fileOpen
  }

  function Refusal(p: Press): Osd {
    if p.answers.unsupported then UnsupportedVersion else NoFileOpen
  }

  /** The range a pending mark stands for, if it is complete and forward. */
  function RangeOf(m: Mark): Option<SkipRange> {
    if m.startMs.Some? && m.endMs.Some? && m.startMs.value < m.endMs.value
    then Some(Interval(m.startMs.value, m.endMs.value)) else None
  }

  function CommitStep(st: State, p: Press): State {
    var r := RangeOf(st.pending);
    if r.None? then
      var complete := st.pending.startMs.Some? && st.pending.endMs.Some?;
      st.(shown := st.shown + [if complete then MarkIgnored else MarkIncomplete])
    else if p.answers.committed then
      State(NO_MARK, st.attempts + [Attempt(r.value, true)], st.shown + [Saved(r.value)])
    else st.(attempts := st.attempts + [Attempt(r.value, false)], shown := st.shown + [SaveFailed])
  }

  function Step(st: State, p: Press): State {
    if !Accepted(p) then st.(shown := st.shown + [Refusal(p)])
    else match p.action
      case AltOpenBracket =>
        var pos := p.answers.position;
        st.(pending := st.pending.(startMs := Some(pos)), shown := st.shown + [MarkStart(pos)])
      case AltCloseBracket =>
        var pos := p.answers.position;
        st.(pending := st.pending.(endMs := Some(pos)), shown := st.shown + [MarkEnd(pos)])
      case AltA => CommitStep(st, p)
  }

  function Run(st: State, ps: seq<Press>): State
    decreases |ps|
  {
    if ps == [] then st else Run(Step(st, ps[0]), ps[1..])
  }

  lemma {:induction false} RunConcat(st: State, a: seq<Press>, b: seq<Press>)
    ensures Run(st, a + b) == Run(Run(st, a), b)
    decreases |a|
  {
    hide Step;
    if a == [] {
      assert a + b == b;
    } else {
      assert (a + b)[1..] == a[1..] + b;
      RunConcat(Step(st, a[0]), a[1..], b);
    }
  }

  // ---------- the object ----------

  class SkipMarkingStateMachine {
    var pending: Mark
    ghost var attempts: seq<Attempt>   // the driver's commitRange calls so far
    ghost var shown: seq<Osd>          // the driver's showOsd calls so far

    ghost function Current(): State
      reads this
    {
      State(pending, attempts, shown)
    }

    constructor ()
      ensures Current() == START
    {
      pending := NO_MARK;
      attempts, shown := [], [];
    }

    /** The driver's showOsd: the composed text never throws for a position a player reports. */
    method ShowOsd(m: Osd)
      requires OsdText(m).Ok?
      modifies this`shown
      ensures shown == old(shown) + [m]
    {
      shown := shown + [m];
    }

    method OnAltOpenBracket(a: Answers)
      modifies this
      ensures Current() == Step(old(Current()), Press(AltOpenBracket, a))
    {
      if a.unsupported {
        ShowOsd(UnsupportedVersion);
        return;
      }
      if !a.fileOpen {
        ShowOsd(NoFileOpen);
        return;
      }
      var pos := a.position;
      pending := pending.(startMs := Some(pos));
      OsdNeverThrows(MarkStart(pos));
      ShowOsd(MarkStart(pos));
    }

    method OnAltCloseBracket(a: Answers)
      modifies this
      ensures Current() == Step(old(Current()), Press(AltCloseBracket, a))
    {
      if a.unsupported {
        ShowOsd(UnsupportedVersion);
        return;
      }
      if !a.fileOpen {
        ShowOsd(NoFileOpen);
        return;
      }
      var pos := a.position;
      pending := pending.(endMs := Some(pos));
      OsdNeverThrows(MarkEnd(pos));
      ShowOsd(MarkEnd(pos));
    }

    method OnAltA(a: Answers)
      modifies this
      ensures Current() == Step(old(Current()), Press(AltA, a))
    {
      hide OsdText;
      if a.unsupported {
        OsdNeverThrows(UnsupportedVersion);
        ShowOsd(UnsupportedVersion);
        return;
      }
      if !a.fileOpen {
        OsdNeverThrows(NoFileOpen);
        ShowOsd(NoFileOpen);
        return;
      }
      if pending.startMs.None? || pending.endMs.None? {
        OsdNeverThrows(MarkIncomplete);
        ShowOsd(MarkIncomplete);
        return;
      }
      if pending.endMs.value <= pending.startMs.value {
        OsdNeverThrows(MarkIgnored);
        ShowOsd(MarkIgnored);
        return;
      }
      var range := CreateRange(pending.startMs.value, pending.endMs.value).value;
      attempts := attempts + [Attempt(range, a.committed)];
      if a.committed {
        OsdNeverThrows(Saved(range));
        ShowOsd(Saved(range));
        pending := NO_MARK;
      } else {
        OsdNeverThrows(SaveFailed);
        ShowOsd(SaveFailed);
      }
    }
  }

  /** No message a handler composes throws. */
  lemma OsdNeverThrows(m: Osd)
    ensures OsdText(m).Ok?
  {
    hide Render;
  }

  /** The times a line shows are the position, or the start and then the end of the range, without milliseconds. */
  lemma OsdSaysTimes(pos: nat, r: SkipRange) returns (p: string, s: string, e: string)
    requires pos <= INT64_MAX && FitsInt64(r)
    ensures HumanValue(p) == Ok(pos - pos % 1000)
    ensures HumanValue(s) == Ok(r.startMs - r.startMs % 1000) && HumanValue(e) == Ok(r.endMs - r.endMs % 1000)
    ensures OsdText(MarkStart(pos)) == Ok("Skip start " + p) && OsdText(MarkEnd(pos)) == Ok("Skip end " + p)
    ensures OsdText(Saved(r)) == Ok("Skip " + s + " \U{2013} " + e + " saved")
  {
    hide FormatTimecodeShort, HumanValue;
    HumanOfShort(pos);
    HumanOfShort(r.startMs);
    HumanOfShort(r.endMs);
    p, s, e := FormatTimecodeShort(pos).value, FormatTimecodeShort(r.startMs).value, FormatTimecodeShort(r.endMs).value;
  }

  // ---------- whole runs ----------

  /** The ranges whose commit succeeded, in order. */
  function Committed(attempts: seq<Attempt>): seq<SkipRange> {
    if attempts == [] then [] else
    var n := |attempts| - 1;
    Committed(attempts[..n]) + if attempts[n].ok then [attempts[n].range] else []
  }

  lemma CommittedSnoc(attempts: seq<Attempt>, a: Attempt)
    ensures Committed(attempts + [a]) == Committed(attempts) + if a.ok then [a.range] else []
  {
    assert (attempts + [a])[..|attempts|] == attempts;
  }

  /** The position of the last accepted press of a bracket key among the first `n`, since the last successful commit. */
  function LastMark(ps: seq<Press>, n: nat, bracket: Action): Option<nat>
    requires n <= |ps|
    decreases n, 0
  {
    if n == 0 then None
    else if Commits(ps, n - 1) then None
    else if Accepted(ps[n - 1]) && ps[n - 1].action == bracket then Some(ps[n - 1].answers.position)
    else LastMark(ps, n - 1, bracket)
  }

  /** Press `i` commits successfully: an accepted Alt+A on a complete, forward mark, confirmed by the driver. */
  predicate Commits(ps: seq<Press>, i: nat)
    requires i < |ps|
    decreases i, 1
  {
    var s, e := LastMark(ps, i, AltOpenBracket), LastMark(ps, i, AltCloseBracket);
    && ps[i].action == AltA && Accepted(ps[i]) && ps[i].answers.committed
    && s.Some? && e.Some? && s.value < e.value
  }

  /** The ranges committed by the first `n` presses, read off the presses alone. */
  function CommittedBy(ps: seq<Press>, n: nat): seq<SkipRange>
    requires n <= |ps|
  {
    if n == 0 then [] else
    CommittedBy(ps, n - 1) +
      if Commits(ps, n - 1)
      then [Interval(LastMark(ps, n - 1, AltOpenBracket).value, LastMark(ps, n - 1, AltCloseBracket).value)] else []
  }

  lemma RunSnoc(ps: seq<Press>, n: nat)
    requires n < |ps|
    ensures Run(START, ps[..n + 1]) == Step(Run(START, ps[..n]), ps[n])
  {
    hide Step;
    assert ps[..n + 1] == ps[..n] + [ps[n]];
    RunConcat(START, ps[..n], [ps[n]]);
    RunOne(Run(START, ps[..n]), ps[n]);
  }

  lemma RunOne(st: State, p: Press)
    ensures Run(st, [p]) == Step(st, p) && Run(st, []) == st
  {
    hide Step;
    assert [p][1..] == [];
  }

  /** A press moves the pending mark as LastMark says, and commits exactly when Commits says. */
  lemma PendingStep(st: State, ps: seq<Press>, n: nat)
    requires n < |ps|
    requires st.pending == Mark(LastMark(ps, n, AltOpenBracket), LastMark(ps, n, AltCloseBracket))
    ensures Step(st, ps[n]).pending == Mark(LastMark(ps, n + 1, AltOpenBracket), LastMark(ps, n + 1, AltCloseBracket))
    ensures Commits(ps, n) <==>
            ps[n].action == AltA && Accepted(ps[n]) && ps[n].answers.committed && RangeOf(st.pending).Some?
  {
  }

  lemma AttemptsStep(st: State, p: Press)
    ensures Committed(Step(st, p).attempts) ==
            Committed(st.attempts) +
            if p.action == AltA && Accepted(p) && p.answers.committed && RangeOf(st.pending).Some?
            then [RangeOf(st.pending).value] else []
  {
    hide Committed;
    var r := RangeOf(st.pending);
    if r.Some? {
      CommittedSnoc(st.attempts, Attempt(r.value, p.answers.committed));
    }
    assert Committed(st.attempts) + [] == Committed(st.attempts);
  }

  /**
   * The pending mark is always the last accepted bracket positions since the last successful commit,
   * and each committed range is exactly those two positions at its Alt+A.
   */
  lemma {:induction false} CommittedAreLastMarks(ps: seq<Press>, n: nat)
    requires n <= |ps|
    ensures var st := Run(START, ps[..n]);
            && st.pending == Mark(LastMark(ps, n, AltOpenBracket), LastMark(ps, n, AltCloseBracket))
            && Committed(st.attempts) == CommittedBy(ps, n)
  {
    hide Run, Step, Committed, LastMark, Commits, Accepted;
    if n == 0 {
      assert ps[..0] == [];
      NothingPressed(ps);
    } else {
      CommittedAreLastMarks(ps, n - 1);
      RunSnoc(ps, n - 1);
      var st := Run(START, ps[..n - 1]);
      PendingStep(st, ps, n - 1);
      AttemptsStep(st, ps[n - 1]);
    }
  }

  lemma NothingPressed(ps: seq<Press>)
    ensures Run(START, []) == START && Committed([]) == []
    ensures LastMark(ps, 0, AltOpenBracket) == LastMark(ps, 0, AltCloseBracket) == None
  {
  }

  /** Accepted presses of one key. */
  function AcceptedCount(ps: seq<Press>, key: Action): nat {
    if ps == [] then 0 else
    var n := |ps| - 1;
    AcceptedCount(ps[..n], key) + if Accepted(ps[n]) && ps[n].action == key then 1 else 0
  }

  /** A commit uses up a pressed start and a pressed end: there are never more commits than either. */
  lemma {:induction false} CommitsNeverExceedMarks(ps: seq<Press>)
    ensures var st := Run(START, ps); var done := |Committed(st.attempts)|;
            && done + (if st.pending.startMs.Some? then 1 else 0) <= AcceptedCount(ps, AltOpenBracket)
            && done + (if st.pending.endMs.Some? then 1 else 0) <= AcceptedCount(ps, AltCloseBracket)
    decreases |ps|
  {
    hide Run, Committed;
    if ps == [] {
      NothingPressed(ps);
    } else {
      var n := |ps| - 1;
      CommitsNeverExceedMarks(ps[..n]);
      assert ps[..n + 1] == ps;
      RunSnoc(ps, n);
      AttemptsStep(Run(START, ps[..n]), ps[n]);
    }
  }

  /** Every press shows exactly one line, after all the earlier ones. */
  lemma {:induction false} OneOsdLinePerPress(st: State, ps: seq<Press>)
    ensures var after := Run(st, ps);
            |after.shown| == |st.shown| + |ps| && after.shown[..|st.shown|] == st.shown
    decreases |ps|
  {
    if ps != [] {
      OneOsdLinePerPress(Step(st, ps[0]), ps[1..]);
      assert Step(st, ps[0]).shown[..|st.shown|] == st.shown;
    }
  }

  /** The line press `i` has to show, read off the presses alone. */
  function LineFor(ps: seq<Press>, i: nat): Osd
    requires i < |ps|
  {
    var a := ps[i].answers;
    if a.unsupported then UnsupportedVersion
    else if !a.fileOpen then NoFileOpen
    else if ps[i].action == AltOpenBracket then MarkStart(a.position)
    else if ps[i].action == AltCloseBracket then MarkEnd(a.position)
    else
      var s, e := LastMark(ps, i, AltOpenBracket), LastMark(ps, i, AltCloseBracket);
      if s.None? || e.None? then MarkIncomplete
      else if e.value <= s.value then MarkIgnored
      else if a.committed then Saved(Interval(s.value, e.value))
      else SaveFailed
  }

  lemma StepShows(st: State, ps: seq<Press>, n: nat)
    requires n < |ps|
    requires st.pending == Mark(LastMark(ps, n, AltOpenBracket), LastMark(ps, n, AltCloseBracket))
    ensures Step(st, ps[n]).shown == st.shown + [LineFor(ps, n)]
  {
    hide LastMark;
  }

  /** Which line each press of a run shows: refusals, marks, and for Alt+A what becomes of the two last marks. */
  lemma {:induction false} LinesShown(ps: seq<Press>, n: nat)
    requires n <= |ps|
    ensures var shown := Run(START, ps[..n]).shown;
            |shown| == n && forall i: nat | i < n :: shown[i] == LineFor(ps, i)
  {
    hide Run, Step, LineFor, LastMark;
    if n == 0 {
      assert ps[..0] == [];
      NothingPressed(ps);
    } else {
      LinesShown(ps, n - 1);
      CommittedAreLastMarks(ps, n - 1);
      RunSnoc(ps, n - 1);
      StepShows(Run(START, ps[..n - 1]), ps, n - 1);
    }
  }

  /** The ranges that were announced as saved. */
  function Announced(shown: seq<Osd>): seq<SkipRange> {
    if shown == [] then [] else
    var n := |shown| - 1;
    Announced(shown[..n]) + if shown[n].Saved? then [shown[n].range] else []
  }

  lemma AnnouncedSnoc(shown: seq<Osd>, m: Osd)
    ensures Announced(shown + [m]) == Announced(shown) + if m.Saved? then [m.range] else []
  {
    assert (shown + [m])[..|shown|] == shown;
  }

  lemma StepAnnounces(st: State, p: Press)
    requires Announced(st.shown) == Committed(st.attempts)
    ensures Announced(Step(st, p).shown) == Committed(Step(st, p).attempts)
  {
    hide Announced, Committed;
    var next := Step(st, p);
    var m := next.shown[|next.shown| - 1];
    assert next.shown == st.shown + [m];
    AnnouncedSnoc(st.shown, m);
    AttemptsStep(st, p);
  }

  /** A range is announced as saved exactly when it was committed: the two lists are the same, in order. */
  lemma {:induction false} AnnouncedAreCommitted(ps: seq<Press>)
    ensures var st := Run(START, ps); Announced(st.shown) == Committed(st.attempts)
    decreases |ps|
  {
    hide Run, Step, Announced, Committed;
    if ps == [] {
      NothingPressed(ps);
      NothingShown();
    } else {
      var n := |ps| - 1;
      assert ps[..n + 1] == ps;
      AnnouncedAreCommitted(ps[..n]);
      RunSnoc(ps, n);
      StepAnnounces(Run(START, ps[..n]), ps[n]);
    }
  }

  lemma NothingShown()
    ensures Announced([]) == [] && Committed([]) == []
  {
  }

  // ---------- refused presses and failed commits leave no trace ----------

  /** Whether a press does anything but show a line. */
  predicate Effective(st: State, p: Press) {
    Accepted(p) && (p.action == AltA ==> RangeOf(st.pending).Some? && p.answers.committed)
  }

  /** The run with every refused press and every failed commit erased. */
  function Erase(st: State, ps: seq<Press>): seq<Press>
    decreases |ps|
  {
    if ps == [] then []
    else (if Effective(st, ps[0]) then [ps[0]] else []) + Erase(Step(st, ps[0]), ps[1..])
  }

  /** Same pending mark and same committed ranges. */
  predicate SameMarks(a: State, b: State) {
    a.pending == b.pending && Committed(a.attempts) == Committed(b.attempts)
  }

  lemma StepKeepsSameMarks(a: State, b: State, p: Press)
    requires SameMarks(a, b)
    ensures SameMarks(Step(a, p), Step(b, p))
    ensures !Effective(a, p) ==> SameMarks(Step(a, p), b)
    ensures Effective(a, p) <==> Effective(b, p)
  {
    hide Committed;
    var r := RangeOf(a.pending);
    if r.Some? {
      CommittedSnoc(a.attempts, Attempt(r.value, p.answers.committed));
      CommittedSnoc(b.attempts, Attempt(r.value, p.answers.committed));
    }
  }

  lemma {:induction false} ErasedRunsAgree(a: State, b: State, ps: seq<Press>)
    requires SameMarks(a, b)
    ensures SameMarks(Run(a, ps), Run(b, Erase(a, ps)))
    decreases |ps|
  {
    hide Step, SameMarks, Effective;
    if ps != [] {
      var p, rest := ps[0], Erase(Step(a, ps[0]), ps[1..]);
      StepKeepsSameMarks(a, b, p);
      if Effective(a, p) {
        ErasedRunsAgree(Step(a, p), Step(b, p), ps[1..]);
        assert ([p] + rest)[1..] == rest;
      } else {
        ErasedRunsAgree(Step(a, p), b, ps[1..]);
        assert [] + rest == rest;
      }
    }
  }

  /** Erasing all refused presses and failed commits changes neither the committed ranges nor the pending mark. */
  lemma RefusalsLeaveNoTrace(ps: seq<Press>)
    ensures SameMarks(Run(START, ps), Run(START, Erase(START, ps)))
  {
    hide Run, Erase;
    ErasedRunsAgree(START, START, ps);
  }
}
