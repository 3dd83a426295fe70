/** An honest player: it echoes what is typed, keeps a working list, and saves it on OK. */
module HonestPlayer {
  import opened Wrappers
  import opened Text
  import opened Decimal
  import opened Timecode
  import opened Pbf
  import opened SkipSetup
  import opened CommitSafety

  datatype Row = Row(startMs: int, endMs: int, kind: int)

  datatype IntervalDialog = IntervalDialog(startText: string, endText: string, kind: int)

  datatype SetupDialog =
    SetupDialog(rows: seq<Row>, enabled: bool, selected: Option<int>, interval: Option<IntervalDialog>)

  /**
   * The saved list and switch, the Skip Setup dialog if it is open, how often that dialog was closed so far,
   * and which of its closes outlive the close timeout: any of them may.
   */
  datatype Player = Player(rows: seq<Row>, enabled: bool, setup: Option<SetupDialog>, closes: nat, slow: nat -> bool)

  /** The row an interval dialog stands for. */
  function RowOf(i: IntervalDialog): Option<Row> {
    var s, e := ParseTimecode(i.startText), ParseTimecode(i.endText);
    if s.Ok? && e.Ok? && s.value < e.value then Some(Row(s.value, e.value, i.kind)) else None
  }

  function ReactInterval(d: SetupDialog, i: IntervalDialog, r: Request): SetupDialog {
    match r
    case SetStart(t) => d.(interval := Some(i.(startText := t)))
    case SetEnd(t) => d.(interval := Some(i.(endText := t)))
    case SetType(k) => d.(interval := Some(i.(kind := k)))
    case PostIntervalOk =>
      var row := RowOf(i);
      d.(interval := None, rows := if row.Some? then d.rows + [row.value] else d.rows)
    case PostIntervalCancel => d.(interval := None)
    case _ => d
  }

  function ReactSetup(d: SetupDialog, r: Request): SetupDialog {
    match r
    case ClickCheck => d.(enabled := !d.enabled)
    case PostAdd => d.(interval := Some(IntervalDialog("", "", 0)))
    case ClearSelection => d.(selected := None)
    case SelectRow(i) => d.(selected := Some(i))
    case PostDelete =>
      if d.selected.Some? && 0 <= d.selected.value < |d.rows|
      then d.(rows := d.rows[..d.selected.value] + d.rows[d.selected.value + 1..], selected := None)
      else d
    case _ => if d.interval.Some? then ReactInterval(d, d.interval.value, r) else d
  }

  /** What a request does to the player. */
  function React(p: Player, r: Request): Player {
    if p.setup.None? then
      if r == OpenSetup then p.(setup := Some(SetupDialog(p.rows, p.enabled, None, None))) else p
    else
      var d := p.setup.value;
      match r
      case PostSetupOk => p.(rows := d.rows, enabled := d.enabled, setup := None, closes := p.closes + 1)
      case PostSetupCancel => p.(setup := None, closes := p.closes + 1)
      case _ => p.(setup := Some(ReactSetup(d, r)))
  }

  const YES: Answer := Answer(true, 0, "")

  function ReplyFlag(b: bool): Answer {
    Answer(b, 0, "")
  }

  /** What the player answers; waits and posts by flag, the rest by number or text. */
  function ReplyTo(p: Player, r: Request): Answer {
    if p.setup.None? then
      ReplyFlag(r == OpenSetup || (r == WaitSetupClosed && p.closes > 0 && !p.slow(p.closes - 1)))
    else
    var d := p.setup.value;
    match r
    case OpenSetup => ReplyFlag(false)
    case WaitSetupClosed => ReplyFlag(false)
    case ReadCheck => Answer(true, if d.enabled then 1 else 0, "")
    case ReadCount => Answer(true, |d.rows|, "")
    case WaitInterval => ReplyFlag(d.interval.Some?)
    case WaitIntervalClosed => ReplyFlag(d.interval.None?)
    case ReadStart => Answer(true, 0, if d.interval.Some? then d.interval.value.startText else "")
    case ReadEnd => Answer(true, 0, if d.interval.Some? then d.interval.value.endText else "")
    case ReadType => Answer(true, if d.interval.Some? then d.interval.value.kind else -1, "")
    case WaitCount(n) => ReplyFlag(|d.rows| == n)
    case _ => YES
  }

  /** The player after a history of requests. */
  function Replay(p: Player, h: History): Player {
    if h == [] then p else React(Replay(p, h[..|h| - 1]), h[|h| - 1].request)
  }

  /** The UI of a player that started as `init`. */
  function Honest(init: Player): Ui {
    (h, r) => ReplyTo(Replay(init, h), r)
  }

  lemma ReplaySnoc(init: Player, h: History, e: Event)
    ensures Replay(init, h + [e]) == React(Replay(init, h), e.request)
  {
    assert (h + [e])[..|h + [e]| - 1] == h;
  }

  lemma {:induction false} ReplayConcat(init: Player, a: History, b: History)
    ensures Replay(init, a + b) == Replay(Replay(init, a), b)
    decreases |b|
  {
    if b == [] {
      assert a + b == a;
    } else {
      var n := |b| - 1;
      assert (a + b)[..|a + b| - 1] == a + b[..n];
      ReplayConcat(init, a, b[..n]);
    }
  }

  /** One request to an honest player. */
  lemma AskHonest(init: Player, h: History, r: Request, p: Player)
    requires Replay(init, h) == p
    ensures var e := Ask(Honest(init), h, r);
            e.answer == ReplyTo(p, r) && Replay(init, h + [e]) == React(p, r)
  {
    hide React, ReplyTo;
    ReplaySnoc(init, h, Ask(Honest(init), h, r));
  }

  /** Rendered times fit the window-text buffer and survive narrowing. */
  lemma EchoedTime(ms: nat)
    requires ms <= INT64_MAX
    ensures ParseTimecode(WindowText(Render(ms))) == Ok(ms) && ParseTimecode(Render(ms)) == Ok(ms)
  {
    hide ParseTimecode, Render;
    RenderLength(ms);
    var h, m, s, f := RenderFields(ms);
    var t := Clock(h, m, s, f);
    assert forall i | 0 <= i < |t| :: IsDigit(t[i]) || t[i] == ':' || t[i] == '.';
    assert WindowText(t) == t;
    ParseFormat(ms);
  }

  /** A dialog that echoes what was typed always passes the read-back check. */
  lemma EchoVerifies(range: SkipRange)
    requires FitsInt64(range)
    ensures VerifyReadback(range, WindowText(Render(range.startMs)), WindowText(Render(range.endMs)), FILE_SPECIFIC)
            == None
  {
    hide ParseTimecode, Render, WindowText;
    EchoedTime(range.startMs);
    EchoedTime(range.endMs);
  }

  /** The read-back check passes exactly when both texts show the requested times, up to zeros in front of the hours. */
  lemma VerifyExactly(range: SkipRange, startText: string, endText: string, typeIndex: int)
    requires FitsInt64(range)
    ensures VerifyReadback(range, startText, endText, typeIndex).None? <==>
            Shows(startText, range.startMs) && Shows(endText, range.endMs) && typeIndex == FILE_SPECIFIC
  {
    hide ParseTimecode, Shows;
    ParsesToExactly(startText, range.startMs);
    ParsesToExactly(endText, range.endMs);
  }

  // ---------- the phases of a commit ----------

  predicate SetupIdle(p: Player) {
    p.setup.Some? && p.setup.value.interval.None?
  }

  lemma EnableHonest(init: Player, h: History)
    requires SetupIdle(Replay(init, h))
    ensures var o := EnsureEnabled(Honest(init), h); var p := Replay(init, h);
            && o.ok
            && Replay(init, h + o.events) == p.(setup := Some(p.setup.value.(enabled := true)))
  {
    hide Replay;
    var p, ui := Replay(init, h), Honest(init);
    AskHonest(init, h, ReadCheck, p);
    var c := Ask(ui, h, ReadCheck);
    if !p.setup.value.enabled {
      AskHonest(init, h + [c], ClickCheck, p);
      var k := Ask(ui, h + [c], ClickCheck);
      assert h + [c] + [k] == h + [c, k];
      AskHonest(init, h + [c, k], ReadCheck, React(p, ClickCheck));
      var d := Ask(ui, h + [c, k], ReadCheck);
      assert h + [c, k] + [d] == h + [c, k, d];
    }
  }

  lemma OpenHonest(init: Player, h: History)
    requires SetupIdle(Replay(init, h))
    ensures var o := AddOpen(Honest(init), h); var p := Replay(init, h);
            && o.ok && o.events[0].answer.number == |p.setup.value.rows|
            && Replay(init, h + o.events) ==
               p.(setup := Some(p.setup.value.(interval := Some(IntervalDialog("", "", 0)))))
  {
    hide Replay;
    var p, ui := Replay(init, h), Honest(init);
    AskHonest(init, h, ReadCount, p);
    var c := Ask(ui, h, ReadCount);
    AskHonest(init, h + [c], PostAdd, p);
    var a := Ask(ui, h + [c], PostAdd);
    assert h + [c] + [a] == h + [c, a];
    AskHonest(init, h + [c, a], WaitInterval, React(p, PostAdd));
    var w := Ask(ui, h + [c, a], WaitInterval);
    assert h + [c, a] + [w] == h + [c, a, w];
  }

  /** The dialog's fields after filling. */
  function Filled(range: SkipRange): IntervalDialog {
    IntervalDialog(Render(range.startMs), Render(range.endMs), FILE_SPECIFIC)
  }

  lemma FillHonest(init: Player, h: History, range: SkipRange)
    requires var p := Replay(init, h); p.setup.Some? && p.setup.value.interval.Some?
    ensures var fill := AddFill(Honest(init), h, range); var p := Replay(init, h);
            && fill[3].answer.text == Render(range.startMs) && fill[4].answer.text == Render(range.endMs)
            && fill[5].answer.number == FILE_SPECIFIC
            && Replay(init, h + fill) == p.(setup := Some(p.setup.value.(interval := Some(Filled(range)))))
  {
    hide Replay, Render, React, ReplyTo;
    var p, ui := Replay(init, h), Honest(init);
    var f := AddFill(ui, h, range);
    TypedIn(p, range);
    var p1 := React(p, SetStart(Render(range.startMs)));
    var p2 := React(p1, SetEnd(Render(range.endMs)));
    var p3 := React(p2, SetType(FILE_SPECIFIC));
    AskHonest(init, h, SetStart(Render(range.startMs)), p);
    AskHonest(init, h + [f[0]], SetEnd(Render(range.endMs)), p1);
    assert h + [f[0]] + [f[1]] == h + [f[0], f[1]];
    AskHonest(init, h + [f[0], f[1]], SetType(FILE_SPECIFIC), p2);
    assert h + [f[0], f[1]] + [f[2]] == h + [f[0], f[1], f[2]];
    ReadHonest(init, h, range, f, p3);
  }

  lemma TypedIn(p: Player, range: SkipRange)
    requires p.setup.Some? && p.setup.value.interval.Some?
    ensures React(React(React(p, SetStart(Render(range.startMs))), SetEnd(Render(range.endMs))), SetType(FILE_SPECIFIC))
            == p.(setup := Some(p.setup.value.(interval := Some(Filled(range)))))
  {
    hide Render;
  }

  lemma ReadHonest(init: Player, h: History, range: SkipRange, f: History, p: Player)
    requires f == AddFill(Honest(init), h, range)
    requires Replay(init, h + [f[0], f[1], f[2]]) == p
    requires p.setup.Some? && p.setup.value.interval == Some(Filled(range))
    ensures f[3].answer.text == Render(range.startMs) && f[4].answer.text == Render(range.endMs)
    ensures f[5].answer.number == FILE_SPECIFIC
    ensures Replay(init, h + f) == p
  {
    hide Replay, Render;
    AskHonest(init, h + [f[0], f[1], f[2]], ReadStart, p);
    assert h + [f[0], f[1], f[2]] + [f[3]] == h + [f[0], f[1], f[2], f[3]];
    AskHonest(init, h + [f[0], f[1], f[2], f[3]], ReadEnd, p);
    assert h + [f[0], f[1], f[2], f[3]] + [f[4]] == h + [f[0], f[1], f[2], f[3], f[4]];
    AskHonest(init, h + [f[0], f[1], f[2], f[3], f[4]], ReadType, p);
    assert h + [f[0], f[1], f[2], f[3], f[4]] + [f[5]] == h + f;
  }

  lemma PressHonest(init: Player, h: History, press: Request, wait: Request, p: Player)
    requires Replay(init, h) == p && ReplyTo(p, press).flag
    requires React(React(p, press), wait) == React(p, press)
    ensures var o := PressAndWait(Honest(init), h, press, wait);
            && o.ok == ReplyTo(React(p, press), wait).flag
            && |o.events| == 2 && o.events[0].request == press && o.events[1].request == wait
            && Replay(init, h + o.events) == React(p, press)
  {
    hide Replay, React, ReplyTo;
    var ui := Honest(init);
    AskHonest(init, h, press, p);
    var e := Ask(ui, h, press);
    AskHonest(init, h + [e], wait, React(p, press));
    assert h + [e] + [Ask(ui, h + [e], wait)] == h + [e, Ask(ui, h + [e], wait)];
  }

  lemma ConfirmHonest(init: Player, h: History, range: SkipRange)
    requires var p := Replay(init, h); p.setup.Some? && p.setup.value.interval == Some(Filled(range))
    requires FitsInt64(range)
    ensures var p := Replay(init, h); var d := p.setup.value;
            var o := AddConfirm(Honest(init), h, |d.rows|);
            var rows := d.rows + [Row(range.startMs, range.endMs, FILE_SPECIFIC)];
            o.ok && Replay(init, h + o.events) == p.(setup := Some(d.(interval := None, rows := rows)))
  {
    hide Replay, Render, ParseTimecode, WindowText, PressAndWait;
    var p, ui := Replay(init, h), Honest(init);
    EchoedTime(range.startMs);
    EchoedTime(range.endMs);
    var q := React(p, PostIntervalOk);
    PressHonest(init, h, PostIntervalOk, WaitIntervalClosed, p);
    var o := PressAndWait(ui, h, PostIntervalOk, WaitIntervalClosed);
    AskHonest(init, h + o.events, ReadCount, q);
    var c := Ask(ui, h + o.events, ReadCount);
    assert h + o.events + [c] == h + (o.events + [c]);
  }

  /** The player with one more row in the open dialog. */
  function WithRow(p: Player, range: SkipRange): Player
    requires p.setup.Some?
  {
    var d := p.setup.value;
    p.(setup := Some(d.(interval := None, rows := d.rows + [Row(range.startMs, range.endMs, FILE_SPECIFIC)])))
  }

  lemma AddHonest(init: Player, h: History, range: SkipRange)
    requires SetupIdle(Replay(init, h)) && FitsInt64(range)
    ensures var o := AddRange(Honest(init), h, range);
            o.ok && Replay(init, h + o.events) == WithRow(Replay(init, h), range)
  {
    hide Replay, Render, AddOpen, AddFill, AddConfirm, WindowText, VerifyReadback, PressAndWait;
    var p, ui := Replay(init, h), Honest(init);
    OpenHonest(init, h);
    var open := AddOpen(ui, h);
    var h1 := h + open.events;
    AskHonest(init, h1, ResolveInterval, Replay(init, h1));
    var r := Ask(ui, h1, ResolveInterval);
    var h2 := h1 + [r];
    FillHonest(init, h2, range);
    var fill := AddFill(ui, h2, range);
    EchoVerifies(range);
    ConfirmHonest(init, h2 + fill, range);
    var last := AddConfirm(ui, h2 + fill, |p.setup.value.rows|);
    assert h2 + fill + last.events == h + (open.events + [r] + (fill + last.events));
  }

  lemma SetupOpens(p: Player)
    requires p.setup.None?
    ensures ReplyTo(p, OpenSetup).flag
    ensures React(p, OpenSetup) == p.(setup := Some(SetupDialog(p.rows, p.enabled, None, None)))
  {
  }

  /** OK saves the working list; the wait for the dialog to go fails when this close is slow. */
  lemma SetupCloses(p: Player)
    requires p.setup.Some?
    ensures var d := p.setup.value; var q := React(p, PostSetupOk);
            && ReplyTo(p, PostSetupOk).flag && q == Player(d.rows, d.enabled, None, p.closes + 1, p.slow)
            && React(q, WaitSetupClosed) == q && (ReplyTo(q, WaitSetupClosed).flag <==> !p.slow(p.closes))
  {
  }

  /**
   * Against an honest player every commit appends exactly its range, and enables skipping if asked to. It reports
   * failure exactly when this close of the dialog is slow, although the range was saved then as well.
   */
  lemma CommitHonest(init: Player, h: History, range: SkipRange, autoEnable: bool)
    requires Replay(init, h).setup.None? && FitsInt64(range)
    ensures var o := Commit(Honest(init), h, range, autoEnable); var p := Replay(init, h);
            && (o.ok <==> !p.slow(p.closes))
            && Replay(init, h + o.events) ==
               Player(p.rows + [Row(range.startMs, range.endMs, FILE_SPECIFIC)], p.enabled || autoEnable, None,
                      p.closes + 1, p.slow)
  {
    hide Replay, EnsureEnabled, AddRange, PressAndWait, Commit, React, ReplyTo;
    var p, ui := Replay(init, h), Honest(init);
    SetupOpens(p);
    AskHonest(init, h, OpenSetup, p);
    CommitIsParts(ui, h, range, autoEnable);
    var parts := PartsOf(ui, h, range, autoEnable);
    var h0 := h + [parts.open];
    if autoEnable {
      EnableHonest(init, h0);
    } else {
      assert h0 + [] == h0;
    }
    var h1 := h0 + parts.enable.events;
    AddHonest(init, h1, range);
    var h2 := h1 + parts.add.events;
    SetupCloses(Replay(init, h2));
    PressHonest(init, h2, PostSetupOk, WaitSetupClosed, Replay(init, h2));
    assert h2 + parts.close.events == h + ([parts.open] + parts.enable.events + parts.add.events + parts.close.events);
  }

  // ---------- deleting ----------

  function WithRows(p: Player, rows: seq<Row>): Player
    requires p.setup.Some?
  {
    p.(setup := Some(p.setup.value.(rows := rows, selected := None)))
  }

  /** Deleting a row of an honest list removes exactly that row, with one Delete click. */
  lemma DeleteHonest(init: Player, h: History, index: int)
    requires SetupIdle(Replay(init, h))
    requires 0 <= index < |Replay(init, h).setup.value.rows| <= INT32_MAX
    ensures var o := DeleteRow(Honest(init), h, index); var p := Replay(init, h); var rows := p.setup.value.rows;
            && o.ok && Count(o.events, PostDelete) == 1
            && Replay(init, h + o.events) == WithRows(p, rows[..index] + rows[index + 1..])
  {
    hide Replay, React, ReplyTo, PressAndWait, Count;
    var p, ui := Replay(init, h), Honest(init);
    var n := |p.setup.value.rows|;
    DeleteReplies(p, index);
    AskHonest(init, h, ReadCount, p);
    var c := Ask(ui, h, ReadCount);
    AskHonest(init, h + [c], ClearSelection, p);
    var s := Ask(ui, h + [c], ClearSelection);
    assert h + [c] + [s] == h + [c, s];
    AskHonest(init, h + [c, s], SelectRow(index), React(p, ClearSelection));
    var t := Ask(ui, h + [c, s], SelectRow(index));
    assert h + [c, s] + [t] == h + [c, s, t];
    var h3 := h + [c, s, t];
    PressHonest(init, h3, PostDelete, WaitCount(n - 1), Replay(init, h3));
    var press := PressAndWait(ui, h3, PostDelete, WaitCount(n - 1));
    assert h3 + press.events == h + ([c, s, t] + press.events);
    DeleteCount([c, s, t], press.events);
  }

  lemma DeleteReplies(p: Player, index: int)
    requires SetupIdle(p) && 0 <= index < |p.setup.value.rows| <= INT32_MAX
    ensures var rows := p.setup.value.rows; var q := React(React(p, ClearSelection), SelectRow(index));
            var d := React(q, PostDelete);
            && React(p, ReadCount) == p && ToInt32(ReplyTo(p, ReadCount).number) == |rows|
            && ReplyTo(q, PostDelete).flag && d == WithRows(p, rows[..index] + rows[index + 1..])
            && ReplyTo(d, WaitCount(|rows| - 1)).flag && React(d, WaitCount(|rows| - 1)) == d
  {
    hide React, ReplyTo;
    RowSelected(p, index);
    CountReply(p);
    var q := React(React(p, ClearSelection), SelectRow(index));
    RowDeleted(p, q, index);
    CountAwaited(React(q, PostDelete));
  }

  lemma RowSelected(p: Player, index: int)
    requires SetupIdle(p)
    ensures React(React(p, ClearSelection), SelectRow(index)) ==
            p.(setup := Some(p.setup.value.(selected := Some(index))))
  {
  }

  lemma RowDeleted(p: Player, q: Player, index: int)
    requires SetupIdle(p) && 0 <= index < |p.setup.value.rows|
    requires q == p.(setup := Some(p.setup.value.(selected := Some(index))))
    ensures var rows := p.setup.value.rows;
            ReplyTo(q, PostDelete).flag && React(q, PostDelete) == WithRows(p, rows[..index] + rows[index + 1..])
  {
  }

  lemma CountAwaited(p: Player)
    requires p.setup.Some?
    ensures var n := |p.setup.value.rows|; ReplyTo(p, WaitCount(n)).flag
    ensures forall n :: SetupIdle(p) ==> React(p, WaitCount(n)) == p
  {
  }

  lemma DeleteCount(before: History, press: History)
    requires forall i | 0 <= i < |before| :: before[i].request != PostDelete
    requires |press| == 2 && press[0].request == PostDelete && press[1].request != PostDelete
    ensures Count(before + press, PostDelete) == 1
  {
    hide Count;
    CountConcat(before, press, PostDelete);
    CountZero(before, PostDelete);
    CountOne(press[0], PostDelete);
    CountOne(press[1], PostDelete);
    assert press == [press[0]] + [press[1]];
    CountConcat([press[0]], [press[1]], PostDelete);
  }

  lemma DeleteFirstHonest(init: Player, h: History)
    requires SetupIdle(Replay(init, h))
    requires 0 < |Replay(init, h).setup.value.rows| <= INT32_MAX
    ensures var d := DeleteFirst(Honest(init), h); var p := Replay(init, h); var rows := p.setup.value.rows;
            && d.count == Some(|rows| - 1) && Count(d.events, PostDelete) == 1
            && Replay(init, h + d.events) == WithRows(p, rows[1..])
  {
    hide Replay, React, ReplyTo, DeleteRow, Count;
    var p, ui := Replay(init, h), Honest(init);
    var rows := p.setup.value.rows;
    DeleteHonest(init, h, 0);
    assert rows[..0] + rows[1..] == rows[1..];
    var q := WithRows(p, rows[1..]);
    CountReply(q);
    var o := DeleteRow(ui, h, 0);
    AskHonest(init, h + o.events, ReadCount, q);
    var c := Ask(ui, h + o.events, ReadCount);
    assert h + o.events + [c] == h + (o.events + [c]);
    CountConcat(o.events, [c], PostDelete);
    CountOne(c, PostDelete);
  }

  lemma CountReply(p: Player)
    requires p.setup.Some? && |p.setup.value.rows| <= INT32_MAX
    ensures ToInt32(ReplyTo(p, ReadCount).number) == |p.setup.value.rows| && React(p, ReadCount) == p
  {
  }

  lemma {:induction false} ClearRowsHonest(init: Player, h: History, left: nat)
    requires SetupIdle(Replay(init, h))
    requires 0 < left == |Replay(init, h).setup.value.rows| <= INT32_MAX
    ensures var o := ClearRows(Honest(init), h, left); var p := Replay(init, h);
            && o.ok && Count(o.events, PostDelete) == left
            && Replay(init, h + o.events) == WithRows(p, [])
    decreases left
  {
    hide Replay, DeleteFirst, Count;
    DeleteFirstHonest(init, h);
    var d := DeleteFirst(Honest(init), h);
    if left > 1 {
      ClearRowsHonest(init, h + d.events, left - 1);
      var rest := ClearRows(Honest(init), h + d.events, left - 1);
      assert h + d.events + rest.events == h + (d.events + rest.events);
      CountConcat(d.events, rest.events, PostDelete);
    }
  }

  /** Clearing an honest list of n rows makes exactly n deletions and leaves it empty. */
  lemma ClearAllHonest(init: Player, h: History)
    requires SetupIdle(Replay(init, h)) && |Replay(init, h).setup.value.rows| <= INT32_MAX
    ensures var o := ClearAll(Honest(init), h); var p := Replay(init, h); var n := |p.setup.value.rows|;
            && o.ok && Count(o.events, PostDelete) == n
            && Replay(init, h + o.events).setup.Some? && Replay(init, h + o.events).setup.value.rows == []
  {
    hide Replay, ClearRows, React, ReplyTo, Count;
    var p, ui := Replay(init, h), Honest(init);
    CountReply(p);
    AskHonest(init, h, ReadCount, p);
    var c := Ask(ui, h, ReadCount);
    CountOne(c, PostDelete);
    var n := |p.setup.value.rows|;
    if n > 0 {
      ClearRowsHonest(init, h + [c], n);
      var rest := ClearRows(ui, h + [c], n);
      assert h + [c] + rest.events == h + ([c] + rest.events);
      CountConcat([c], rest.events, PostDelete);
    }
  }
}
