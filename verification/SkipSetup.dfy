/** Driving PotPlayer's Skip Setup dialog: every click and read goes through a UI that need not be trusted. */
module SkipSetup {
  import opened Wrappers
  import opened Timecode
  import opened Pbf

  // ---------- the UI as an oracle ----------

  datatype Request =
    | OpenSetup | ReadCheck | ClickCheck | ReadCount
    | PostAdd | WaitInterval | ResolveInterval
    | SetStart(text: string) | SetEnd(text: string) | SetType(index: int)
    | ReadStart | ReadEnd | ReadType
    | PostIntervalOk | PostIntervalCancel | WaitIntervalClosed
    | PostSetupOk | PostSetupCancel | WaitSetupClosed
    | ClearSelection | SelectRow(row: int) | PostDelete | WaitCount(expected: int)

  /** `flag` answers posts and waits, `number` counts, checks and combo indices, `text` edit controls. */
  datatype Answer = Answer(flag: bool, number: int, text: string)

  datatype Event = Event(request: Request, answer: Answer)

  type History = seq<Event>

  /** Any UI at all: its answer may depend on everything that happened before. */
  type Ui = (History, Request) -> Answer

  /** Whether an operation succeeded, and the requests it made with their answers. */
  datatype Outcome = Outcome(ok: bool, events: History)

  function Ask(ui: Ui, h: History, r: Request): Event {
    Event(r, ui(h, r))
  }

  /** Asking for something, then going on. */
  function Then(e: Event, rest: Outcome): Outcome {
    Outcome(rest.ok, [e] + rest.events)
  }

  const FILE_SPECIFIC: int := 1
  const CHECKED: int := 1

  /** At most 63 characters fit the window-text buffer, and each is narrowed to one byte. */
  function WindowText(text: string): string {
    var t := if |text| > 63 then text[..63] else text;
    seq(|t|, i requires 0 <= i < |t| => (t[i] as int % 256) as char)
  }

  /** Up to 63 one-byte characters arrive unchanged; whatever follows the first 63 is lost. */
  lemma WindowTextExactly(a: string, b: string)
    ensures |a| <= 63 && (forall i | 0 <= i < |a| :: a[i] as int < 256) ==> WindowText(a) == a
    ensures |a| == 63 ==> WindowText(a + b) == WindowText(a)
    ensures forall i | 0 <= i < |a| && i < 63 :: WindowText(a)[i] as int == a[i] as int % 256
  {
    if |a| == 63 {
      assert (a + b)[..63] == a == a[..63];
    }
  }

  datatype MismatchField = StartField | EndField | TypeField

  /** VerifySkipIntervalReadback: the first field that does not read back as requested. */
  function VerifyReadback(range: SkipRange, startText: string, endText: string, typeIndex: int): Option<MismatchField> {
    if ParseTimecode(startText) != Ok(range.startMs) then Some(StartField)
    else if ParseTimecode(endText) != Ok(range.endMs) then Some(EndField)
    else if typeIndex != FILE_SPECIFIC then Some(TypeField)
    else None
  }

  // ---------- what the operations do, for any UI ----------

  /** Posting a button and, if that worked, waiting for its dialog to go away. */
  function PressAndWait(ui: Ui, h: History, press: Request, wait: Request): Outcome {
    var p := Ask(ui, h, press);
    if !p.answer.flag then Outcome(false, [p]) else
    var w := Ask(ui, h + [p], wait);
    Outcome(w.answer.flag, [p, w])
  }

  function EnsureEnabled(ui: Ui, h: History): Outcome {
    var c := Ask(ui, h, ReadCheck);
    if c.answer.number == CHECKED then Outcome(true, [c]) else
    var k := Ask(ui, h + [c], ClickCheck);
    var d := Ask(ui, h + [c, k], ReadCheck);
    Outcome(d.answer.number == CHECKED, [c, k, d])
  }

  /** Add...: open the interval dialog. */
  function AddOpen(ui: Ui, h: History): Outcome {
    var c := Ask(ui, h, ReadCount);
    var a := Ask(ui, h + [c], PostAdd);
    if !a.answer.flag then Outcome(false, [c, a]) else
    var w := Ask(ui, h + [c, a], WaitInterval);
    Outcome(w.answer.flag, [c, a, w])
  }

  /** Fill the fields in and read them back. */
  function AddFill(ui: Ui, h: History, range: SkipRange): (fill: History)
    ensures |fill| == 6
  {
    var e1 := Ask(ui, h, SetStart(Render(range.startMs)));
    var e2 := Ask(ui, h + [e1], SetEnd(Render(range.endMs)));
    var e3 := Ask(ui, h + [e1, e2], SetType(FILE_SPECIFIC));
    var r1 := Ask(ui, h + [e1, e2, e3], ReadStart);
    var r2 := Ask(ui, h + [e1, e2, e3, r1], ReadEnd);
    var r3 := Ask(ui, h + [e1, e2, e3, r1, r2], ReadType);
    [e1, e2, e3, r1, r2, r3]
  }

  /** What was read back is what was asked for. */
  predicate ReadsBack(fill: History, range: SkipRange)
    requires |fill| == 6
  {
    VerifyReadback(range, WindowText(fill[3].answer.text), WindowText(fill[4].answer.text),
                   ToInt32(fill[5].answer.number)).None?
  }

  /** OK the interval and compare the row counts. */
  function AddConfirm(ui: Ui, h: History, countBefore: int): Outcome {
    var p := PressAndWait(ui, h, PostIntervalOk, WaitIntervalClosed);
    if !p.ok then p else
    var c := Ask(ui, h + p.events, ReadCount);
    Outcome(c.answer.number == countBefore + 1, p.events + [c])
  }

  /** Everything after the interval dialog's controls were found. */
  function AddFilled(ui: Ui, h: History, range: SkipRange, countBefore: int): Outcome {
    var fill := AddFill(ui, h, range);
    var last := if ReadsBack(fill, range) then AddConfirm(ui, h + fill, countBefore)
                else Outcome(false, PressAndWait(ui, h + fill, PostIntervalCancel, WaitIntervalClosed).events);
    Outcome(last.ok, fill + last.events)
  }

  function AddRange(ui: Ui, h: History, range: SkipRange): Outcome {
    var open := AddOpen(ui, h);
    if !open.ok then open else
    var h1 := h + open.events;
    var r := Ask(ui, h1, ResolveInterval);
    var rest := if r.answer.flag then AddFilled(ui, h1 + [r], range, open.events[0].answer.number)
                else Outcome(false, PressAndWait(ui, h1 + [r], PostIntervalCancel, WaitIntervalClosed).events);
    Outcome(rest.ok, open.events + [r] + rest.events)
  }

  /** CommitRangeLive. */
  function Commit(ui: Ui, h: History, range: SkipRange, autoEnable: bool): Outcome {
    var o := Ask(ui, h, OpenSetup);
    if !o.answer.flag then Outcome(false, [o]) else
    var enable := if autoEnable then EnsureEnabled(ui, h + [o]) else Outcome(true, []);
    var h1 := h + [o] + enable.events;
    var add := if enable.ok then AddRange(ui, h1, range) else Outcome(false, []);
    var close := PressAndWait(ui, h1 + add.events, if add.ok then PostSetupOk else PostSetupCancel, WaitSetupClosed);
    Outcome(add.ok && close.ok, [o] + enable.events + add.events + close.events)
  }

  /** DeleteSkipRange. */
  function DeleteRow(ui: Ui, h: History, index: int): Outcome {
    var c := Ask(ui, h, ReadCount);
    var count := ToInt32(c.answer.number);
    if index < 0 || index >= count then Outcome(false, [c]) else
    var s := Ask(ui, h + [c], ClearSelection);
    var t := Ask(ui, h + [c, s], SelectRow(index));
    var press := PressAndWait(ui, h + [c, s, t], PostDelete, WaitCount(count - 1));
    Outcome(press.ok, [c, s, t] + press.events)
  }

  /** What one call of the clear-all callback answers: the new count, or nothing if the row was not deleted. */
  datatype Reply = Reply(count: Option<int>, events: History)

  function DeleteFirst(ui: Ui, h: History): Reply {
    var d := DeleteRow(ui, h, 0);
    if !d.ok then Reply(None, d.events) else
    var c := Ask(ui, h + d.events, ReadCount);
    Reply(Some(ToInt32(c.answer.number)), d.events + [c])
  }

  /** The clear-all loop with `left` iterations to go. */
  function ClearRows(ui: Ui, h: History, left: nat): Outcome
    decreases left
  {
    if left == 0 then Outcome(false, []) else
    var d := DeleteFirst(ui, h);
    if d.count.None? then Outcome(false, d.events)
    else if d.count.value == 0 then Outcome(true, d.events)
    else Prefixed(d.events, ClearRows(ui, h + d.events, left - 1))
  }

  function Prefixed(before: History, o: Outcome): Outcome {
    Outcome(o.ok, before + o.events)
  }

  lemma PrefixedTwice(a: History, b: History, o: Outcome)
    ensures Prefixed(a, Prefixed(b, o)) == Prefixed(a + b, o)
    ensures Prefixed([], o) == o
  {
    assert a + (b + o.events) == a + b + o.events;
    assert [] + o.events == o.events;
  }

  function ClearAll(ui: Ui, h: History): Outcome {
    var c := Ask(ui, h, ReadCount);
    var count := ToInt32(c.answer.number);
    if count <= 0 then Outcome(true, [c]) else Then(c, ClearRows(ui, h + [c], count))
  }

  // ---------- the session object ----------

  /** A conversation with one UI; `history` records every request and its answer. */
  class Session {
    const ui: Ui
    var history: History

    constructor (ui: Ui)
      ensures this.ui == ui && history == []
    {
      this.ui := ui;
      history := [];
    }

    method Request(r: Request) returns (a: Answer)
      modifies this
      ensures history == old(history) + [Ask(ui, old(history), r)] && a == ui(old(history), r)
    {
      a := ui(history, r);
      history := history + [Event(r, a)];
    }

    /** ClickAndWaitClosed, and its interval-dialog twin. */
    method ClickAndWaitClosed(press: Request, wait: Request) returns (ok: bool)
      modifies this
      ensures var o := PressAndWait(ui, old(history), press, wait);
              ok == o.ok && history == old(history) + o.events
    {
      var p := Request(press);
      if !p.flag {
        return false;
      }
      var w := Request(wait);
      return w.flag;
    }

    method EnsureSkipEnabled() returns (ok: bool)
      modifies this
      ensures var o := EnsureEnabled(ui, old(history)); ok == o.ok && history == old(history) + o.events
    {
      ghost var h, e := history, Ask(ui, history, ReadCheck);
      var c := Request(ReadCheck);
      if c.number == CHECKED {
        return true;
      }
      var k := Request(ClickCheck);
      assert history == h + [e, Ask(ui, h + [e], ClickCheck)];
      var d := Request(ReadCheck);
      return d.number == CHECKED;
    }

    method OpenInterval() returns (ok: bool, countBefore: int)
      modifies this
      ensures var o := AddOpen(ui, old(history));
              ok == o.ok && history == old(history) + o.events && countBefore == o.events[0].answer.number
    {
      ghost var h := history;
      var c := Request(ReadCount);
      countBefore := c.number;
      ghost var e := Ask(ui, h, ReadCount);
      var a := Request(PostAdd);
      assert history == h + [e, Ask(ui, h + [e], PostAdd)];
      if !a.flag {
        return false, countBefore;
      }
      var w := Request(WaitInterval);
      return w.flag, countBefore;
    }

    /** Fills in start, end and type, and reads them back. */
    method FillAndReadBack(range: SkipRange) returns (mismatch: Option<MismatchField>)
      modifies this
      ensures var fill := AddFill(ui, old(history), range);
              history == old(history) + fill && (mismatch.None? <==> ReadsBack(fill, range))
    {
      hide Render, VerifyReadback, WindowText, ToInt32;
      ghost var h := history;
      ghost var f := AddFill(ui, h, range);
      var a1 := Request(SetStart(Render(range.startMs)));
      var a2 := Request(SetEnd(Render(range.endMs)));
      assert history == h + [f[0], f[1]];
      var a3 := Request(SetType(FILE_SPECIFIC));
      assert history == h + [f[0], f[1], f[2]];
      var r1 := Request(ReadStart);
      assert history == h + [f[0], f[1], f[2], f[3]];
      var r2 := Request(ReadEnd);
      assert history == h + [f[0], f[1], f[2], f[3], f[4]];
      var r3 := Request(ReadType);
      assert history == h + [f[0], f[1], f[2], f[3], f[4], f[5]];
      mismatch := VerifyReadback(range, WindowText(r1.text), WindowText(r2.text), ToInt32(r3.number));
    }

    method AddFileSpecificSkipRange(range: SkipRange) returns (ok: bool)
      modifies this
      ensures var o := AddRange(ui, old(history), range); ok == o.ok && history == old(history) + o.events
    {
      hide AddOpen, AddFill, ReadsBack, PressAndWait;
      ghost var h := history;
      var isOpen, countBefore := OpenInterval();
      if !isOpen {
        return false;
      }
      ghost var h1 := history;
      var r := Request(ResolveInterval);
      ghost var h2 := history;
      if !r.flag {
        var closed := ClickAndWaitClosed(PostIntervalCancel, WaitIntervalClosed);
        return false;
      }
      var mismatch := FillAndReadBack(range);
      if mismatch.Some? {
        var closed := ClickAndWaitClosed(PostIntervalCancel, WaitIntervalClosed);
        return false;
      }
      ok := ConfirmInterval(countBefore);
    }

    method ConfirmInterval(countBefore: int) returns (ok: bool)
      modifies this
      ensures var o := AddConfirm(ui, old(history), countBefore); ok == o.ok && history == old(history) + o.events
    {
      hide PressAndWait;
      ok := ClickAndWaitClosed(PostIntervalOk, WaitIntervalClosed);
      if !ok {
        return;
      }
      var c := Request(ReadCount);
      return c.number == countBefore + 1;
    }

    method CommitRangeLive(range: SkipRange, autoEnable: bool) returns (ok: bool)
      modifies this
      ensures var o := Commit(ui, old(history), range, autoEnable); ok == o.ok && history == old(history) + o.events
    {
      hide EnsureEnabled, AddRange, PressAndWait;
      var dialog := Request(OpenSetup);
      if !dialog.flag {
        return false;
      }
      ok := true;
      ghost var h1 := history;
      if autoEnable {
        ok := EnsureSkipEnabled();
      } else {
        assert h1 + [] == h1;
      }
      ghost var h2 := history;
      if ok {
        ok := AddFileSpecificSkipRange(range);
      } else {
        assert h2 + [] == h2;
      }
      if ok {
        ok := ClickAndWaitClosed(PostSetupOk, WaitSetupClosed);
      } else {
        var closed := ClickAndWaitClosed(PostSetupCancel, WaitSetupClosed);
      }
    }

    method DeleteSkipRange(index: int) returns (ok: bool)
      modifies this
      ensures var o := DeleteRow(ui, old(history), index); ok == o.ok && history == old(history) + o.events
    {
      hide PressAndWait, ToInt32;
      ghost var h := history;
      var c := Request(ReadCount);
      var count := ToInt32(c.number);
      if index < 0 || index >= count {
        return false;
      }
      ghost var e := Ask(ui, h, ReadCount);
      var s := Request(ClearSelection);
      ghost var e2 := Ask(ui, h + [e], ClearSelection);
      assert history == h + [e, e2];
      var t := Request(SelectRow(index));
      ghost var e3 := Ask(ui, h + [e, e2], SelectRow(index));
      assert history == h + [e, e2, e3];
      ok := ClickAndWaitClosed(PostDelete, WaitCount(count - 1));
    }

    /** The clear-all loop over DeleteSkipRange(0). */
    method ClearAllSkipRanges() returns (ok: bool)
      modifies this
      ensures var o := ClearAll(ui, old(history)); ok == o.ok && history == old(history) + o.events
    {
      hide DeleteFirst, ToInt32, Prefixed;
      var c := Request(ReadCount);
      var initialCount := ToInt32(c.number);
      if initialCount <= 0 {
        return true;
      }
      ghost var start := history;
      var i := 0;
      ghost var done: History := [];
      PrefixedTwice([], [], ClearRows(ui, start, initialCount));
      assert start + [] == start;
      while i < initialCount
        invariant 0 <= i <= initialCount
        invariant history == start + done
        invariant ClearRows(ui, start, initialCount) == Prefixed(done, ClearRows(ui, history, initialCount - i))
      {
        ghost var h := history;
        ghost var d := DeleteFirst(ui, h);
        var countAfter := DeleteFirstRow();
        PrefixedEvents(done, Outcome(countAfter.Some?, d.events));
        PrefixedEvents(done, Outcome(false, d.events));
        PrefixedTwice(done, d.events, ClearRows(ui, history, initialCount - i - 1));
        done := done + d.events;
        if countAfter.None? {
          return false;
        }
        if countAfter.value == 0 {
          return true;
        }
        i := i + 1;
      }
      PrefixedEvents(done, Outcome(false, []));
      ok := false;
    }

    /** The callback of clear-all: delete row 0 and report the new count. */
    method DeleteFirstRow() returns (count: Option<int>)
      modifies this
      ensures var d := DeleteFirst(ui, old(history)); count == d.count && history == old(history) + d.events
    {
      hide DeleteRow, ToInt32;
      var deleted := DeleteSkipRange(0);
      if !deleted {
        return None;
      }
      var c := Request(ReadCount);
      return Some(ToInt32(c.number));
    }
  }

  lemma PrefixedEvents(before: History, o: Outcome)
    ensures Prefixed(before, o) == Outcome(o.ok, before + o.events)
  {
  }

  // ---------- the clear-all loop on its own ----------

  /** Whether a clear-all succeeded, and how often it called back. */
  datatype Cleared = Cleared(result: bool, calls: nat)

  /** The loop with any callback, after `k` calls and with `left` iterations to go. */
  function LoopFrom(deleteFirst: nat -> Option<int>, k: nat, left: nat): Cleared
    decreases left
  {
    if left == 0 then Cleared(false, k) else
    var count := deleteFirst(k);
    if count.None? then Cleared(false, k + 1)
    else if count.value == 0 then Cleared(true, k + 1)
    else LoopFrom(deleteFirst, k + 1, left - 1)
  }

  function ClearLoop(initialCount: int, deleteFirst: nat -> Option<int>): Cleared {
    if initialCount <= 0 then Cleared(true, 0) else LoopFrom(deleteFirst, 0, initialCount)
  }

  /** RunClearAllLoop with any callback, given by what its k-th call answers. */
  method RunClearAllLoop(initialCount: int, deleteFirst: nat -> Option<int>) returns (result: bool, calls: nat)
    ensures calls <= if initialCount > 0 then initialCount else 0
    ensures result <==> initialCount <= 0
                        || exists k: nat :: k < initialCount && deleteFirst(k) == Some(0)
                             && forall j: nat :: j < k ==> deleteFirst(j).Some?
    ensures result && initialCount > 0 ==> calls >= 1 && deleteFirst(calls - 1) == Some(0)
    ensures forall j: nat :: j + 1 < calls ==> deleteFirst(j).Some? && deleteFirst(j) != Some(0)
    ensures Cleared(result, calls) == ClearLoop(initialCount, deleteFirst)
  {
    calls := 0;
    if initialCount <= 0 {
      return true, 0;
    }
    var remaining := initialCount;
    for i := 0 to initialCount
      invariant calls == i
      invariant forall j: nat :: j < i ==> deleteFirst(j).Some? && deleteFirst(j) != Some(0)
      invariant remaining != 0
      invariant LoopFrom(deleteFirst, i, initialCount - i) == ClearLoop(initialCount, deleteFirst)
    {
      var countAfter := deleteFirst(i);
      calls := calls + 1;
      if countAfter.None? {
        return false, calls;
      }
      remaining := countAfter.value;
      if remaining == 0 {
        return true, calls;
      }
    }
    result := remaining == 0;
  }

  /** The traffic of the first `k` calls of clear-all's callback. */
  function Deletions(ui: Ui, h: History, k: nat): History {
    if k == 0 then [] else
    var before := Deletions(ui, h, k - 1);
    before + DeleteFirst(ui, h + before).events
  }

  /** What the k-th call of clear-all's callback answers. */
  function Callback(ui: Ui, h: History): nat -> Option<int> {
    (k: nat) => DeleteFirst(ui, h + Deletions(ui, h, k)).count
  }

  lemma CallbackAnswers(ui: Ui, h: History, k: nat)
    ensures var d := DeleteFirst(ui, h + Deletions(ui, h, k));
            Callback(ui, h)(k) == d.count && Deletions(ui, h, k + 1) == Deletions(ui, h, k) + d.events
  {
    hide DeleteFirst;
  }

  /** One iteration on either side. */
  lemma ClearStep(ui: Ui, h: History, k: nat, left: nat)
    requires left > 0
    ensures var now := h + Deletions(ui, h, k); var d := DeleteFirst(ui, now);
            var goesOn := d.count.Some? && d.count.value != 0;
            && ClearRows(ui, now, left) ==
               (if goesOn then Prefixed(d.events, ClearRows(ui, now + d.events, left - 1))
                else Outcome(d.count == Some(0), d.events))
            && LoopFrom(Callback(ui, h), k, left) ==
               (if goesOn then LoopFrom(Callback(ui, h), k + 1, left - 1) else Cleared(d.count == Some(0), k + 1))
  {
    hide DeleteFirst, Prefixed, Callback, Deletions;
    CallbackAnswers(ui, h, k);
  }

  lemma {:induction false} ClearRowsIsLoop(ui: Ui, h: History, k: nat, left: nat)
    ensures var o := ClearRows(ui, h + Deletions(ui, h, k), left); var c := LoopFrom(Callback(ui, h), k, left);
            o.ok == c.result && Deletions(ui, h, k) + o.events == Deletions(ui, h, c.calls)
    decreases left
  {
    hide DeleteFirst, Deletions, Callback, ClearRows, LoopFrom;
    var before := Deletions(ui, h, k);
    if left == 0 {
      NothingToClear(ui, h + before, Callback(ui, h), k);
      assert before + [] == before;
    } else {
      var d := DeleteFirst(ui, h + before);
      CallbackAnswers(ui, h, k);
      ClearStep(ui, h, k, left);
      if d.count.Some? && d.count.value != 0 {
        assert h + before + d.events == h + (before + d.events);
        ClearRowsIsLoop(ui, h, k + 1, left - 1);
        var rest := ClearRows(ui, h + before + d.events, left - 1);
        assert before + (d.events + rest.events) == before + d.events + rest.events;
      }
    }
  }

  lemma NothingToClear(ui: Ui, h: History, deleteFirst: nat -> Option<int>, k: nat)
    ensures ClearRows(ui, h, 0) == Outcome(false, []) && LoopFrom(deleteFirst, k, 0) == Cleared(false, k)
  {
  }

  /** Clearing everything is the loop run with the deletion of row 0 as its callback. */
  lemma ClearAllIsLoop(ui: Ui, h: History)
    ensures var c := Ask(ui, h, ReadCount); var o := ClearAll(ui, h);
            var loop := ClearLoop(ToInt32(c.answer.number), Callback(ui, h + [c]));
            o.ok == loop.result && o.events == [c] + Deletions(ui, h + [c], loop.calls)
  {
    hide LoopFrom, ClearRows, Callback, ToInt32;
    var c := Ask(ui, h, ReadCount);
    var count := ToInt32(c.answer.number);
    var none := Deletions(ui, h + [c], 0);
    assert [c] + none == [c];
    if count > 0 {
      ClearRowsIsLoop(ui, h + [c], 0, count);
      assert h + [c] + none == h + [c];
      var rest := ClearRows(ui, h + [c], count);
      assert none + rest.events == rest.events;
    }
  }
}
