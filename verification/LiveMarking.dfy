/** The state machine wired to the commit protocol and an honest player: what ends up in the player's list. */
module LiveMarking {
  import opened Decimal
  import opened Pbf
  import opened SkipSetup
  import opened HonestPlayer
  import M = SkipMarking

  /** A press before the driver's commit answer is known. */
  datatype LivePress = LivePress(action: M.Action, unsupported: bool, fileOpen: bool, position: nat)

  datatype Live = Live(state: M.State, history: History)

  /** The press with the answer the commit protocol gives, and the dialog traffic it causes. */
  function LiveStep(init: Player, autoEnable: bool, l: Live, p: LivePress): Live {
    var press := M.Press(p.action, M.Answers(p.unsupported, p.fileOpen, p.position, false));
    var r := M.RangeOf(l.state.pending);
    if p.action == M.AltA && M.Accepted(press) && r.Some? then
      var o := Commit(Honest(init), l.history, r.value, autoEnable);
      var answered := M.Press(M.AltA, M.Answers(p.unsupported, p.fileOpen, p.position, o.ok));
      Live(M.Step(l.state, answered), l.history + o.events)
    else Live(M.Step(l.state, press), l.history)
  }

  function LiveRun(init: Player, autoEnable: bool, l: Live, ps: seq<LivePress>): Live
    decreases |ps|
  {
    if ps == [] then l else LiveRun(init, autoEnable, LiveStep(init, autoEnable, l, ps[0]), ps[1..])
  }

  /** The ranges of the commit attempts, successful or not. */
  function Tried(attempts: seq<M.Attempt>): seq<SkipRange> {
    seq(|attempts|, i requires 0 <= i < |attempts| => attempts[i].range)
  }

  function RowsOf(ranges: seq<SkipRange>): seq<Row> {
    seq(|ranges|, i requires 0 <= i < |ranges| => Row(ranges[i].startMs, ranges[i].endMs, FILE_SPECIFIC))
  }

  /** The close of attempt `i` outlives the close timeout. */
  predicate SlowClose(init: Player, i: nat) {
    init.slow(init.closes + i)
  }

  /** The player's list holds its initial rows and one row per attempt; an attempt fails when its close is slow. */
  ghost predicate Saved(init: Player, l: Live) {
    var p, attempts := Replay(init, l.history), l.state.attempts;
    && p.setup.None? && p.slow == init.slow && p.closes == init.closes + |attempts|
    && p.rows == init.rows + RowsOf(Tried(attempts))
    && (forall i: nat | i < |attempts| :: attempts[i].ok <==> !SlowClose(init, i))
  }

  /** Positions a player can report. */
  predicate Int64Mark(m: M.Mark) {
    (m.startMs.Some? ==> m.startMs.value <= INT64_MAX) && (m.endMs.Some? ==> m.endMs.value <= INT64_MAX)
  }

  lemma LiveStepSaves(init: Player, autoEnable: bool, l: Live, p: LivePress)
    requires Saved(init, l) && Int64Mark(l.state.pending) && p.position <= INT64_MAX
    ensures var n := LiveStep(init, autoEnable, l, p); Saved(init, n) && Int64Mark(n.state.pending)
  {
    hide Replay, Commit, Honest;
    var r := M.RangeOf(l.state.pending);
    if p.action == M.AltA && !p.unsupported && p.fileOpen && r.Some? {
      CommitHonest(init, l.history, r.value, autoEnable);
      var o := Commit(Honest(init), l.history, r.value, autoEnable);
      var a := M.Attempt(r.value, o.ok);
      assert RowsOf(Tried(l.state.attempts + [a])) ==
             RowsOf(Tried(l.state.attempts)) + [Row(r.value.startMs, r.value.endMs, FILE_SPECIFIC)];
    }
  }

  lemma {:induction false} LiveRunSaves(init: Player, autoEnable: bool, l: Live, ps: seq<LivePress>)
    requires Saved(init, l) && Int64Mark(l.state.pending)
    requires forall i | 0 <= i < |ps| :: ps[i].position <= INT64_MAX
    ensures Saved(init, LiveRun(init, autoEnable, l, ps))
    decreases |ps|
  {
    hide LiveStep, Saved, Int64Mark;
    if ps != [] {
      LiveStepSaves(init, autoEnable, l, ps[0]);
      LiveRunSaves(init, autoEnable, LiveStep(init, autoEnable, l, ps[0]), ps[1..]);
    }
  }

  lemma NothingSaved(init: Player)
    requires init.setup.None?
    ensures Saved(init, Live(M.START, []))
  {
    assert init.rows + RowsOf(Tried([])) == init.rows;
  }

  /** How many of the first `n` closes are slow. */
  function SlowCloses(init: Player, n: nat): nat {
    if n == 0 then 0 else SlowCloses(init, n - 1) + if SlowClose(init, n - 1) then 1 else 0
  }

  lemma {:induction false} SlowAreFailed(init: Player, attempts: seq<M.Attempt>)
    requires forall i: nat | i < |attempts| :: attempts[i].ok <==> !SlowClose(init, i)
    ensures |attempts| == |M.Committed(attempts)| + SlowCloses(init, |attempts|)
    ensures SlowCloses(init, |attempts|) == 0 <==> forall i: nat | i < |attempts| :: !SlowClose(init, i)
    ensures SlowCloses(init, |attempts|) == 0 ==> M.Committed(attempts) == Tried(attempts)
    decreases |attempts|
  {
    hide SlowClose, Tried, M.Committed;
    if attempts == [] {
      NoAttempts();
    } else {
      var n := |attempts| - 1;
      SlowAreFailed(init, attempts[..n]);
      assert attempts == attempts[..n] + [attempts[n]];
      M.CommittedSnoc(attempts[..n], attempts[n]);
      TriedSnoc(attempts[..n], attempts[n]);
    }
  }

  lemma NoAttempts()
    ensures M.Committed([]) == [] && Tried([]) == []
  {
  }

  lemma TriedSnoc(attempts: seq<M.Attempt>, a: M.Attempt)
    ensures Tried(attempts + [a]) == Tried(attempts) + [a.range]
  {
  }

  /**
   * With an honest player any run of key presses leaves the player's list as its initial rows followed by the
   * ranges of all commit attempts, in order; an attempt fails exactly when its close is slow. So the list has one
   * row too many for every slow close, and holds exactly the committed ranges if and only if no close was slow.
   */
  lemma PlayerListIsCommitted(init: Player, autoEnable: bool, ps: seq<LivePress>)
    requires init.setup.None?
    requires forall i | 0 <= i < |ps| :: ps[i].position <= INT64_MAX
    ensures var l := LiveRun(init, autoEnable, Live(M.START, []), ps);
            var attempts, committed := l.state.attempts, M.Committed(l.state.attempts);
            var rows := Replay(init, l.history).rows;
            && rows == init.rows + RowsOf(Tried(attempts))
            && (forall i: nat | i < |attempts| :: attempts[i].ok <==> !SlowClose(init, i))
            && |rows| == |init.rows| + |committed| + SlowCloses(init, |attempts|)
            && (rows == init.rows + RowsOf(committed) <==>
                forall i: nat | i < |attempts| :: !SlowClose(init, i))
  {
    hide LiveRun, M.Committed, SlowCloses, Replay, SlowClose;
    NothingSaved(init);
    LiveRunSaves(init, autoEnable, Live(M.START, []), ps);
    var l := LiveRun(init, autoEnable, Live(M.START, []), ps);
    SlowAreFailed(init, l.state.attempts);
    assert |Tried(l.state.attempts)| == |l.state.attempts|;
    assert |RowsOf(M.Committed(l.state.attempts))| == |M.Committed(l.state.attempts)|;
    assert |init.rows + RowsOf(M.Committed(l.state.attempts))| == |init.rows| + |M.Committed(l.state.attempts)|;
  }

  /** An Alt+A on a complete mark. */
  lemma CommitPressed(init: Player, autoEnable: bool, l: Live, position: nat)
    requires Saved(init, l) && Int64Mark(l.state.pending) && M.RangeOf(l.state.pending).Some? && position <= INT64_MAX
    ensures var r := M.RangeOf(l.state.pending).value; var ok := !SlowClose(init, |l.state.attempts|);
            var n := LiveStep(init, autoEnable, l, LivePress(M.AltA, false, true, position));
            && Saved(init, n) && n.state.attempts == l.state.attempts + [M.Attempt(r, ok)]
            && n.state.pending == if ok then M.NO_MARK else l.state.pending
  {
    hide Replay, Commit, Honest;
    LiveStepSaves(init, autoEnable, l, LivePress(M.AltA, false, true, position));
    CommitHonest(init, l.history, M.RangeOf(l.state.pending).value, autoEnable);
  }

  /** Retrying a commit that failed because the dialog was slow to close saves the same range twice. */
  lemma RetryDuplicates(init: Player, autoEnable: bool, startMs: nat, endMs: nat)
    requires init.setup.None? && startMs < endMs <= INT64_MAX
    requires SlowClose(init, 0) && !SlowClose(init, 1)
    ensures var start := LivePress(M.AltOpenBracket, false, true, startMs);
            var end := LivePress(M.AltCloseBracket, false, true, endMs);
            var commit := LivePress(M.AltA, false, true, endMs); var ps := [start, end, commit, commit];
            var l := LiveRun(init, autoEnable, Live(M.START, []), ps); var row := Row(startMs, endMs, FILE_SPECIFIC);
            && M.Committed(l.state.attempts) == [Interval(startMs, endMs)]
            && Replay(init, l.history).rows == init.rows + [row, row]
  {
    hide Commit, Honest, Saved, Replay;
    var a, b := LivePress(M.AltOpenBracket, false, true, startMs), LivePress(M.AltCloseBracket, false, true, endMs);
    var c := LivePress(M.AltA, false, true, endMs);
    var l0 := Live(M.START, []);
    var l1 := LiveStep(init, autoEnable, l0, a);
    var l2 := LiveStep(init, autoEnable, l1, b);
    var l3 := LiveStep(init, autoEnable, l2, c);
    var l4 := LiveStep(init, autoEnable, l3, c);
    NothingSaved(init);
    LiveStepSaves(init, autoEnable, l0, a);
    LiveStepSaves(init, autoEnable, l1, b);
    CommitPressed(init, autoEnable, l2, endMs);
    CommitPressed(init, autoEnable, l3, endMs);
    FourPresses(init, autoEnable, l0, a, b, c, c);
    var r := Interval(startMs, endMs);
    assert l4.state.attempts == [M.Attempt(r, false), M.Attempt(r, true)];
    TwoAttempts(init, l4, r);
  }

  lemma FirstPress(init: Player, autoEnable: bool, l: Live, p: LivePress, rest: seq<LivePress>)
    ensures LiveRun(init, autoEnable, l, [p] + rest) ==
            LiveRun(init, autoEnable, LiveStep(init, autoEnable, l, p), rest)
    ensures LiveRun(init, autoEnable, l, []) == l
  {
    hide LiveStep;
    assert ([p] + rest)[1..] == rest;
  }

  lemma FourPresses(init: Player, autoEnable: bool, l: Live, a: LivePress, b: LivePress, c: LivePress, d: LivePress)
    ensures LiveRun(init, autoEnable, l, [a, b, c, d]) ==
            var l1 := LiveStep(init, autoEnable, l, a); var l2 := LiveStep(init, autoEnable, l1, b);
            var l3 := LiveStep(init, autoEnable, l2, c); LiveStep(init, autoEnable, l3, d)
  {
    hide LiveStep, LiveRun;
    var l1 := LiveStep(init, autoEnable, l, a);
    var l2 := LiveStep(init, autoEnable, l1, b);
    var l3 := LiveStep(init, autoEnable, l2, c);
    assert [a, b, c, d] == [a] + [b, c, d] && [b, c, d] == [b] + [c, d] && [c, d] == [c] + [d] && [d] == [d] + [];
    FirstPress(init, autoEnable, l, a, [b, c, d]);
    FirstPress(init, autoEnable, l1, b, [c, d]);
    FirstPress(init, autoEnable, l2, c, [d]);
    FirstPress(init, autoEnable, l3, d, []);
    FirstPress(init, autoEnable, LiveStep(init, autoEnable, l3, d), d, []);
  }

  lemma TwoAttempts(init: Player, l: Live, r: SkipRange)
    requires Saved(init, l) && l.state.attempts == [M.Attempt(r, false), M.Attempt(r, true)]
    ensures M.Committed(l.state.attempts) == [r]
    ensures var row := Row(r.startMs, r.endMs, FILE_SPECIFIC);
            Replay(init, l.history).rows == init.rows + [row, row]
  {
    hide Replay, M.Committed;
    var a, b := M.Attempt(r, false), M.Attempt(r, true);
    assert [] + [a] == [a] && [a] + [b] == [a, b];
    NoAttempts();
    M.CommittedSnoc([], a);
    M.CommittedSnoc([a], b);
    var row := Row(r.startMs, r.endMs, FILE_SPECIFIC);
    assert RowsOf(Tried([a, b])) == [row, row];
  }
}
