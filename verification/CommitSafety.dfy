/** What the commit protocol guarantees whatever the UI answers. */
module CommitSafety {
  import opened Wrappers
  import opened Timecode
  import opened Pbf
  import opened SkipSetup

  /** How often something was requested. */
  function Count(h: History, r: Request): nat {
    if h == [] then 0 else (if h[0].request == r then 1 else 0) + Count(h[1..], r)
  }

  lemma {:induction false} CountConcat(a: History, b: History, r: Request)
    ensures Count(a + b, r) == Count(a, r) + Count(b, r)
  {
    if a == [] {
      assert a + b == b;
    } else {
      assert (a + b)[1..] == a[1..] + b;
      CountConcat(a[1..], b, r);
    }
  }

  lemma CountOne(e: Event, r: Request)
    ensures Count([e], r) == if e.request == r then 1 else 0
  {
    var none: History := [];
    assert [e][1..] == none;
  }

  lemma {:induction false} CountZero(h: History, r: Request)
    requires forall i | 0 <= i < |h| :: h[i].request != r
    ensures Count(h, r) == 0
  {
    if h != [] {
      CountZero(h[1..], r);
    }
  }

  // ---------- adding one range ----------

  /** The complete conversation of a successful add: filled in, read back as requested, confirmed, counted. */
  predicate VerifiedAdd(e: History, range: SkipRange) {
    && |e| == 13
    && e[0].request == ReadCount
    && e[1].request == PostAdd && e[1].answer.flag
    && e[2].request == WaitInterval && e[2].answer.flag
    && e[3].request == ResolveInterval && e[3].answer.flag
    && e[4].request == SetStart(Render(range.startMs))
    && e[5].request == SetEnd(Render(range.endMs))
    && e[6].request == SetType(FILE_SPECIFIC)
    && e[7].request == ReadStart && ParseTimecode(WindowText(e[7].answer.text)) == Ok(range.startMs)
    && e[8].request == ReadEnd && ParseTimecode(WindowText(e[8].answer.text)) == Ok(range.endMs)
    && e[9].request == ReadType && ToInt32(e[9].answer.number) == FILE_SPECIFIC
    && e[10].request == PostIntervalOk && e[10].answer.flag
    && e[11].request == WaitIntervalClosed && e[11].answer.flag
    && e[12].request == ReadCount && e[12].answer.number == e[0].answer.number + 1
  }

  lemma AddFilledVerified(ui: Ui, h: History, range: SkipRange, countBefore: int)
    ensures var o := AddFilled(ui, h, range, countBefore); var e := o.events; o.ok ==>
            && |e| == 9
            && e[0].request == SetStart(Render(range.startMs)) && e[1].request == SetEnd(Render(range.endMs))
            && e[2].request == SetType(FILE_SPECIFIC)
            && e[3].request == ReadStart && ParseTimecode(WindowText(e[3].answer.text)) == Ok(range.startMs)
            && e[4].request == ReadEnd && ParseTimecode(WindowText(e[4].answer.text)) == Ok(range.endMs)
            && e[5].request == ReadType && ToInt32(e[5].answer.number) == FILE_SPECIFIC
            && e[6].request == PostIntervalOk && e[6].answer.flag
            && e[7].request == WaitIntervalClosed && e[7].answer.flag
            && e[8].request == ReadCount && e[8].answer.number == countBefore + 1
  {
    hide *;
    var fill := AddFill(ui, h, range);
    FillShape(ui, h, range);
    ConfirmShape(ui, h + fill, countBefore);
    FilledParts(ui, h, range, countBefore);
    if AddFilled(ui, h, range, countBefore).ok {
      ReadsBackMeans(fill, range);
    }
  }

  lemma FilledParts(ui: Ui, h: History, range: SkipRange, countBefore: int)
    ensures var o := AddFilled(ui, h, range, countBefore); var fill := AddFill(ui, h, range);
            var confirm := AddConfirm(ui, h + fill, countBefore);
            o.ok ==> ReadsBack(fill, range) && confirm.ok && o.events == fill + confirm.events
  {
    hide AddFill, ReadsBack, AddConfirm, PressAndWait;
  }

  lemma FillShape(ui: Ui, h: History, range: SkipRange)
    ensures var e := AddFill(ui, h, range);
            && |e| == 6
            && e[0].request == SetStart(Render(range.startMs)) && e[1].request == SetEnd(Render(range.endMs))
            && e[2].request == SetType(FILE_SPECIFIC)
            && e[3].request == ReadStart && e[4].request == ReadEnd && e[5].request == ReadType
  {
    hide Render;
  }

  lemma ReadsBackMeans(fill: History, range: SkipRange)
    requires |fill| == 6
    ensures ReadsBack(fill, range) <==>
            && ParseTimecode(WindowText(fill[3].answer.text)) == Ok(range.startMs)
            && ParseTimecode(WindowText(fill[4].answer.text)) == Ok(range.endMs)
            && ToInt32(fill[5].answer.number) == FILE_SPECIFIC
  {
    hide ParseTimecode, WindowText, ToInt32;
  }

  lemma ConfirmShape(ui: Ui, h: History, countBefore: int)
    ensures var o := AddConfirm(ui, h, countBefore); var e := o.events; o.ok ==>
            && |e| == 3
            && e[0].request == PostIntervalOk && e[0].answer.flag
            && e[1].request == WaitIntervalClosed && e[1].answer.flag
            && e[2].request == ReadCount && e[2].answer.number == countBefore + 1
  {
  }

  lemma AddOpenShape(ui: Ui, h: History)
    ensures var o := AddOpen(ui, h); var e := o.events; o.ok ==>
            && |e| == 3 && e[0].request == ReadCount
            && e[1].request == PostAdd && e[1].answer.flag
            && e[2].request == WaitInterval && e[2].answer.flag
  {
  }

  lemma AddParts(ui: Ui, h: History, range: SkipRange)
    ensures var o := AddRange(ui, h, range); var open := AddOpen(ui, h);
            var r := Ask(ui, h + open.events, ResolveInterval);
            var count := if open.ok then open.events[0].answer.number else 0;
            var rest := AddFilled(ui, h + open.events + [r], range, count);
            o.ok ==> open.ok && r.answer.flag && rest.ok && o.events == open.events + [r] + rest.events
  {
    hide AddOpen, AddFilled, PressAndWait;
    AddOpenShape(ui, h);
  }

  /** An add that reports success had exactly the verified conversation. */
  lemma AddOkIsVerified(ui: Ui, h: History, range: SkipRange)
    ensures var o := AddRange(ui, h, range); o.ok ==> VerifiedAdd(o.events, range)
  {
    hide *;
    AddParts(ui, h, range);
    AddOpenShape(ui, h);
    var open := AddOpen(ui, h);
    if AddRange(ui, h, range).ok {
      var r := Ask(ui, h + open.events, ResolveInterval);
      var rest := AddFilled(ui, h + open.events + [r], range, open.events[0].answer.number);
      AddFilledVerified(ui, h + open.events + [r], range, open.events[0].answer.number);
      AskRequests(ui, h + open.events, ResolveInterval);
      VerifiedFromParts(open.events, r, rest.events, range);
    }
  }

  lemma AskRequests(ui: Ui, h: History, r: Request)
    ensures Ask(ui, h, r).request == r
  {
  }

  lemma VerifiedFromParts(a: History, r: Event, b: History, range: SkipRange)
    requires |a| == 3 && a[0].request == ReadCount && a[1].request == PostAdd && a[1].answer.flag
    requires a[2].request == WaitInterval && a[2].answer.flag
    requires r.request == ResolveInterval && r.answer.flag
    requires |b| == 9
    requires b[0].request == SetStart(Render(range.startMs)) && b[1].request == SetEnd(Render(range.endMs))
    requires b[2].request == SetType(FILE_SPECIFIC)
    requires b[3].request == ReadStart && ParseTimecode(WindowText(b[3].answer.text)) == Ok(range.startMs)
    requires b[4].request == ReadEnd && ParseTimecode(WindowText(b[4].answer.text)) == Ok(range.endMs)
    requires b[5].request == ReadType && ToInt32(b[5].answer.number) == FILE_SPECIFIC
    requires b[6].request == PostIntervalOk && b[6].answer.flag
    requires b[7].request == WaitIntervalClosed && b[7].answer.flag
    requires b[8].request == ReadCount && b[8].answer.number == a[0].answer.number + 1
    ensures VerifiedAdd(a + [r] + b, range)
  {
    hide Render, ParseTimecode, WindowText, ToInt32;
  }

  /** A request that is none of the interval buttons and none of the setup buttons. */
  predicate Harmless(r: Request) {
    r !in {PostIntervalOk, PostIntervalCancel, PostSetupOk, PostSetupCancel}
  }

  predicate AllHarmless(h: History) {
    forall i | 0 <= i < |h| :: Harmless(h[i].request)
  }

  lemma HarmlessCounts(h: History)
    requires AllHarmless(h)
    ensures Count(h, PostIntervalOk) == Count(h, PostIntervalCancel) == 0
    ensures Count(h, PostSetupOk) == Count(h, PostSetupCancel) == 0
  {
    CountZero(h, PostIntervalOk);
    CountZero(h, PostIntervalCancel);
    CountZero(h, PostSetupOk);
    CountZero(h, PostSetupCancel);
  }

  /** Pressing a button requests that button once and no other. */
  lemma PressCounts(ui: Ui, h: History, press: Request, wait: Request, r: Request)
    requires wait != r
    ensures Count(PressAndWait(ui, h, press, wait).events, r) == if r == press then 1 else 0
  {
    hide *;
    var e := PressAndWait(ui, h, press, wait).events;
    PressShape(ui, h, press, wait);
    CountOne(e[0], r);
    if |e| == 2 {
      CountOne(e[1], r);
      CountConcat([e[0]], [e[1]], r);
      assert e == [e[0]] + [e[1]];
    } else {
      assert e == [e[0]];
    }
  }

  lemma PressShape(ui: Ui, h: History, press: Request, wait: Request)
    ensures var e := PressAndWait(ui, h, press, wait).events;
            |e| in {1, 2} && e[0].request == press && (|e| == 2 ==> e[1].request == wait)
  {
  }

  lemma FillHarmless(ui: Ui, h: History, range: SkipRange)
    ensures AllHarmless(AddFill(ui, h, range))
  {
    hide Render;
  }

  lemma FilledCounts(ui: Ui, h: History, range: SkipRange, countBefore: int)
    ensures var e := AddFilled(ui, h, range, countBefore).events;
            var matches := ReadsBack(AddFill(ui, h, range), range);
            && Count(e, PostIntervalOk) == (if matches then 1 else 0)
            && Count(e, PostIntervalCancel) == (if matches then 0 else 1)
            && Count(e, PostSetupOk) == Count(e, PostSetupCancel) == 0
  {
    hide AddFill, ReadsBack, PressAndWait, Count;
    var fill := AddFill(ui, h, range);
    FillHarmless(ui, h, range);
    HarmlessCounts(fill);
    var press := if ReadsBack(fill, range) then PostIntervalOk else PostIntervalCancel;
    var p := PressAndWait(ui, h + fill, press, WaitIntervalClosed);
    var last := AddFilled(ui, h, range, countBefore).events[|fill|..];
    var tail := last[|p.events|..];
    forall r | r in {PostIntervalOk, PostIntervalCancel, PostSetupOk, PostSetupCancel}
      ensures Count(AddFilled(ui, h, range, countBefore).events, r) == if r == press then 1 else 0
    {
      PressCounts(ui, h + fill, press, WaitIntervalClosed, r);
      assert AddFilled(ui, h, range, countBefore).events == fill + last;
      CountConcat(fill, last, r);
      assert last == p.events + tail;
      CountConcat(p.events, tail, r);
      CountZero(tail, r);
    }
  }

  /**
   * Once the interval dialog appeared it gets exactly one of OK and Cancel, and OK only after its fields
   * read back as requested; the setup dialog's buttons are never touched.
   */
  lemma AddButtons(ui: Ui, h: History, range: SkipRange)
    ensures var o := AddRange(ui, h, range); var open := AddOpen(ui, h);
            && Count(o.events, PostIntervalOk) + Count(o.events, PostIntervalCancel) == (if open.ok then 1 else 0)
            && Count(o.events, PostSetupOk) == Count(o.events, PostSetupCancel) == 0
            && (Count(o.events, PostIntervalOk) == 1 ==>
                  var r := Ask(ui, h + open.events, ResolveInterval);
                  ReadsBack(AddFill(ui, h + open.events + [r], range), range))
  {
    hide AddFilled, PressAndWait, Count, AddFill, ReadsBack;
    var open := AddOpen(ui, h);
    var h1 := h + open.events;
    var r := Ask(ui, h1, ResolveInterval);
    assert AllHarmless(open.events);
    HarmlessCounts(open.events);
    HarmlessCounts([r]);
    FilledCounts(ui, h1 + [r], range, open.events[0].answer.number);
    var rest := if open.ok then AddRange(ui, h, range).events[|open.events + [r]|..] else [];
    forall q | open.ok && q in {PostIntervalOk, PostIntervalCancel, PostSetupOk, PostSetupCancel}
      ensures Count(AddRange(ui, h, range).events, q) == Count(rest, q)
    {
      assert AddRange(ui, h, range).events == open.events + [r] + rest;
      CountConcat(open.events + [r], rest, q);
      CountConcat(open.events, [r], q);
    }
    PressCounts(ui, h1 + [r], PostIntervalCancel, WaitIntervalClosed, PostIntervalOk);
    PressCounts(ui, h1 + [r], PostIntervalCancel, WaitIntervalClosed, PostIntervalCancel);
    PressCounts(ui, h1 + [r], PostIntervalCancel, WaitIntervalClosed, PostSetupOk);
    PressCounts(ui, h1 + [r], PostIntervalCancel, WaitIntervalClosed, PostSetupCancel);
  }

  // ---------- committing ----------

  /** The conversation of a successful EnsureSkipEnabled: the checkbox was read as checked last. */
  predicate VerifiedEnable(e: History) {
    || (|e| == 1 && e[0].request == ReadCheck && e[0].answer.number == CHECKED)
    || (|e| == 3 && e[0].request == ReadCheck && e[0].answer.number != CHECKED && e[1].request == ClickCheck
        && e[2].request == ReadCheck && e[2].answer.number == CHECKED)
  }

  lemma EnableVerified(ui: Ui, h: History)
    ensures var o := EnsureEnabled(ui, h); AllHarmless(o.events) && (o.ok <==> VerifiedEnable(o.events))
  {
  }

  /** The parts of a commit whose dialog opened. */
  datatype Parts = Parts(open: Event, enable: Outcome, add: Outcome, close: Outcome)

  function PartsOf(ui: Ui, h: History, range: SkipRange, autoEnable: bool): Parts {
    var open := Ask(ui, h, OpenSetup);
    var enable := if autoEnable then EnsureEnabled(ui, h + [open]) else Outcome(true, []);
    var h1 := h + [open] + enable.events;
    var add := if enable.ok then AddRange(ui, h1, range) else Outcome(false, []);
    var close := PressAndWait(ui, h1 + add.events, if add.ok then PostSetupOk else PostSetupCancel, WaitSetupClosed);
    Parts(open, enable, add, close)
  }

  lemma CommitIsParts(ui: Ui, h: History, range: SkipRange, autoEnable: bool)
    requires ui(h, OpenSetup).flag
    ensures var p := PartsOf(ui, h, range, autoEnable);
            Commit(ui, h, range, autoEnable) ==
            Outcome(p.add.ok && p.close.ok, [p.open] + p.enable.events + p.add.events + p.close.events)
  {
    hide EnsureEnabled, AddRange, PressAndWait;
  }

  /** How often a whole commit presses each button. */
  lemma CommitCounts(ui: Ui, h: History, range: SkipRange, autoEnable: bool, r: Request)
    requires ui(h, OpenSetup).flag && !Harmless(r)
    ensures var p := PartsOf(ui, h, range, autoEnable);
            Count(Commit(ui, h, range, autoEnable).events, r) ==
            Count(p.add.events, r) + (if r == (if p.add.ok then PostSetupOk else PostSetupCancel) then 1 else 0)
  {
    hide EnsureEnabled, AddRange, PressAndWait, Count, Commit;
    CommitIsParts(ui, h, range, autoEnable);
    var p := PartsOf(ui, h, range, autoEnable);
    var h1 := h + [p.open] + p.enable.events;
    EnableVerified(ui, h + [p.open]);
    CountOne(p.open, r);
    CountZero(p.enable.events, r);
    PressCounts(ui, h1 + p.add.events, if p.add.ok then PostSetupOk else PostSetupCancel, WaitSetupClosed, r);
    CountConcat([p.open] + p.enable.events + p.add.events, p.close.events, r);
    CountConcat([p.open] + p.enable.events, p.add.events, r);
    CountConcat([p.open], p.enable.events, r);
  }

  /** A Skip Setup that opened gets exactly one of OK and Cancel; one that did not open gets no request at all. */
  lemma ExactlyOneClose(ui: Ui, h: History, range: SkipRange, autoEnable: bool)
    ensures var o := Commit(ui, h, range, autoEnable);
            && (ui(h, OpenSetup).flag ==> Count(o.events, PostSetupOk) + Count(o.events, PostSetupCancel) == 1)
            && (!ui(h, OpenSetup).flag ==> !o.ok && o.events == [Ask(ui, h, OpenSetup)])
  {
    hide EnsureEnabled, AddRange, PressAndWait, Count;
    if ui(h, OpenSetup).flag {
      var p := PartsOf(ui, h, range, autoEnable);
      CommitCounts(ui, h, range, autoEnable, PostSetupOk);
      CommitCounts(ui, h, range, autoEnable, PostSetupCancel);
      NoSetupButtons(ui, h + [p.open] + p.enable.events, range);
      CountZero([], PostSetupOk);
      CountZero([], PostSetupCancel);
    }
  }

  lemma NoSetupButtons(ui: Ui, h: History, range: SkipRange)
    ensures Count(AddRange(ui, h, range).events, PostSetupOk) == 0
    ensures Count(AddRange(ui, h, range).events, PostSetupCancel) == 0
  {
    hide *;
    AddButtons(ui, h, range);
  }

  lemma PresentCounts(h: History, r: Request, i: nat)
    requires i < |h| && h[i].request == r
    ensures Count(h, r) >= 1
  {
    CountConcat(h[..i], h[i..], r);
    assert h == h[..i] + h[i..];
  }

  /**
   * Whatever the UI answers: if Skip Setup's OK was requested at all, everything before it was the complete
   * verified conversation, the checkbox included when it is to be enabled, and no interval button but one OK.
   */
  lemma SetupOkOnlyAfterVerifiedAdd(ui: Ui, h: History, range: SkipRange, autoEnable: bool, k: nat)
      returns (enable: History, add: History)
    ensures var e := Commit(ui, h, range, autoEnable).events; k < |e| && e[k].request == PostSetupOk ==>
            && e[..k] == [Ask(ui, h, OpenSetup)] + enable + add
            && e[0].answer.flag
            && VerifiedAdd(add, range)
            && (if autoEnable then VerifiedEnable(enable) else enable == [])
            && Count(e, PostIntervalOk) == 1 && Count(e, PostIntervalCancel) == 0
            && Count(e, PostSetupOk) == 1 && Count(e, PostSetupCancel) == 0
  {
    hide EnsureEnabled, AddRange, Count, VerifiedAdd, VerifiedEnable;
    enable, add := [], [];
    var e := Commit(ui, h, range, autoEnable).events;
    if k >= |e| || e[k].request != PostSetupOk {
      return;
    }
    PresentCounts(e, PostSetupOk, k);
    var p := PartsOf(ui, h, range, autoEnable);
    CommitIsParts(ui, h, range, autoEnable);
    CommitCounts(ui, h, range, autoEnable, PostSetupOk);
    CountZero([], PostSetupOk);
    NoSetupButtons(ui, h + [p.open] + p.enable.events, range);
    assert p.add.ok;
    AddOkIsVerified(ui, h + [p.open] + p.enable.events, range);
    EnableVerified(ui, h + [p.open]);
    enable, add := p.enable.events, p.add.events;
    VerifiedAddCounts(add, range);
    CommitCounts(ui, h, range, autoEnable, PostIntervalOk);
    CommitCounts(ui, h, range, autoEnable, PostIntervalCancel);
    CommitCounts(ui, h, range, autoEnable, PostSetupCancel);
    OkComesLast([p.open] + enable + add, p.close.events, k) by {
      VerifiedAddHasNoSetupOk(add, range);
    }
  }

  lemma VerifiedAddCounts(e: History, range: SkipRange)
    requires VerifiedAdd(e, range)
    ensures Count(e, PostIntervalOk) == 1 && Count(e, PostIntervalCancel) == 0
    ensures Count(e, PostSetupOk) == 0 && Count(e, PostSetupCancel) == 0
  {
    hide Count, Render, ParseTimecode, WindowText, ToInt32;
    HarmlessCounts(e[..10]);
    HarmlessCounts(e[11..]);
    forall r | r in {PostIntervalOk, PostIntervalCancel, PostSetupOk, PostSetupCancel}
      ensures Count(e, r) == if r == PostIntervalOk then 1 else 0
    {
      CountOne(e[10], r);
      assert e == e[..10] + [e[10]] + e[11..];
      CountConcat(e[..10] + [e[10]], e[11..], r);
      CountConcat(e[..10], [e[10]], r);
    }
  }

  lemma VerifiedAddHasNoSetupOk(e: History, range: SkipRange)
    requires VerifiedAdd(e, range)
    ensures forall i | 0 <= i < |e| :: e[i].request != PostSetupOk
  {
    hide Render, ParseTimecode, WindowText, ToInt32;
  }

  lemma OkComesLast(before: History, close: History, k: nat)
    requires k < |before + close| && (before + close)[k].request == PostSetupOk
    requires forall i | 0 <= i < |before| :: before[i].request != PostSetupOk
    requires |close| in {1, 2} && (|close| == 2 ==> close[1].request != PostSetupOk)
    ensures (before + close)[..k] == before
  {
    assert forall i | 0 <= i < |before| :: (before + close)[i] == before[i];
    assert k == |before|;
  }

  /** Success means the verified conversation ended with an OK that was posted and whose dialog closed. */
  lemma CommitOkMeansPosted(ui: Ui, h: History, range: SkipRange, autoEnable: bool)
    ensures var o := Commit(ui, h, range, autoEnable); var e := o.events; var n := |e|; o.ok ==>
            && n >= 2 && e[n - 2].request == PostSetupOk && e[n - 2].answer.flag
            && e[n - 1].request == WaitSetupClosed && e[n - 1].answer.flag
  {
    hide EnsureEnabled, AddRange;
    if ui(h, OpenSetup).flag {
      CommitIsParts(ui, h, range, autoEnable);
    }
  }

  // ---------- deleting ----------

  /** Delete is clicked at most once, only for an index inside the list as just counted, right after selecting it. */
  lemma DeleteOnlySelected(ui: Ui, h: History, index: int)
    ensures var o := DeleteRow(ui, h, index); var e := o.events;
            && Count(e, PostDelete) == (if 0 <= index < ToInt32(e[0].answer.number) then 1 else 0)
            && (0 <= index < ToInt32(e[0].answer.number) ==>
                  e[1].request == ClearSelection && e[2].request == SelectRow(index) && e[3].request == PostDelete)
  {
    hide Count, ToInt32, PressAndWait;
    var e := DeleteRow(ui, h, index).events;
    if 0 <= index < ToInt32(e[0].answer.number) {
      var wait := WaitCount(ToInt32(e[0].answer.number) - 1);
      var press := PressAndWait(ui, h + e[..3], PostDelete, wait);
      PressShape(ui, h + e[..3], PostDelete, wait);
      PressCounts(ui, h + e[..3], PostDelete, wait, PostDelete);
      assert e == e[..3] + press.events;
      CountZero(e[..3], PostDelete);
      CountConcat(e[..3], press.events, PostDelete);
    } else {
      CountOne(e[0], PostDelete);
    }
  }

  lemma DeleteFirstBounded(ui: Ui, h: History)
    ensures Count(DeleteFirst(ui, h).events, PostDelete) <= 1
  {
    hide Count, DeleteRow, ToInt32;
    DeleteOnlySelected(ui, h, 0);
    var d := DeleteRow(ui, h, 0);
    var c := Ask(ui, h + d.events, ReadCount);
    CountConcat(d.events, [c], PostDelete);
    CountOne(c, PostDelete);
  }

  lemma {:induction false} ClearRowsBounded(ui: Ui, h: History, left: nat)
    ensures Count(ClearRows(ui, h, left).events, PostDelete) <= left
    decreases left
  {
    hide Count, DeleteFirst;
    CountZero([], PostDelete);
    if left > 0 {
      var d := DeleteFirst(ui, h);
      DeleteFirstBounded(ui, h);
      ClearRowsBounded(ui, h + d.events, left - 1);
      CountConcat(d.events, ClearRows(ui, h + d.events, left - 1).events, PostDelete);
    }
  }

  /** Whatever the UI answers, clearing makes at most as many deletions as the list had rows at the start. */
  lemma ClearAllBounded(ui: Ui, h: History)
    ensures var o := ClearAll(ui, h); var count := ToInt32(o.events[0].answer.number);
            Count(o.events, PostDelete) <= if count > 0 then count else 0
  {
    hide Count, ClearRows, ToInt32;
    var c := Ask(ui, h, ReadCount);
    var count := ToInt32(c.answer.number);
    CountOne(c, PostDelete);
    if count > 0 {
      ClearRowsBounded(ui, h + [c], count);
      CountConcat([c], ClearRows(ui, h + [c], count).events, PostDelete);
    }
  }
}
