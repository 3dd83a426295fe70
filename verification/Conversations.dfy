/** The whole conversation of each dialog operation, request by request, whatever the UI answers. */
module Conversations {
  import opened Wrappers
  import opened Timecode
  import opened Pbf
  import opened SkipSetup
  import opened CommitSafety

  // ---------- genuine answers ----------

  /** Every answer is the UI's, to that request, after exactly what went before. */
  predicate Genuine(ui: Ui, h: History, e: History) {
    forall i | 0 <= i < |e| :: e[i].answer == ui(h + e[..i], e[i].request)
  }

  lemma GenuineConcat(ui: Ui, h: History, a: History, b: History)
    requires Genuine(ui, h, a) && Genuine(ui, h + a, b)
    ensures Genuine(ui, h, a + b)
  {
    forall i | 0 <= i < |a + b|
      ensures (a + b)[i].answer == ui(h + (a + b)[..i], (a + b)[i].request)
    {
      if i < |a| {
        assert (a + b)[..i] == a[..i];
      } else {
        assert (a + b)[..i] == a + b[..i - |a|];
        assert h + (a + b)[..i] == h + a + b[..i - |a|];
      }
    }
  }

  lemma GenuineAsk(ui: Ui, h: History, r: Request)
    ensures Genuine(ui, h, [Ask(ui, h, r)])
  {
    assert h + [Ask(ui, h, r)][..0] == h;
  }

  lemma GenuineNothing(ui: Ui, h: History)
    ensures Genuine(ui, h, [])
  {
  }

  /** One more request after a genuine conversation. */
  lemma GenuineNext(ui: Ui, h: History, e: History, r: Request)
    requires Genuine(ui, h, e)
    ensures Genuine(ui, h, e + [Ask(ui, h + e, r)])
  {
    hide Genuine;
    GenuineAsk(ui, h + e, r);
    GenuineConcat(ui, h, e, [Ask(ui, h + e, r)]);
  }

  lemma PressGenuine(ui: Ui, h: History, press: Request, wait: Request)
    ensures Genuine(ui, h, PressAndWait(ui, h, press, wait).events)
  {
    hide Genuine;
    var p := Ask(ui, h, press);
    GenuineAsk(ui, h, press);
    GenuineNext(ui, h, [p], wait);
    assert [p] + [Ask(ui, h + [p], wait)] == [p, Ask(ui, h + [p], wait)];
  }

  lemma EnableGenuine(ui: Ui, h: History)
    ensures Genuine(ui, h, EnsureEnabled(ui, h).events)
  {
    hide Genuine;
    var c := Ask(ui, h, ReadCheck);
    var k := Ask(ui, h + [c], ClickCheck);
    GenuineAsk(ui, h, ReadCheck);
    GenuineNext(ui, h, [c], ClickCheck);
    assert [c] + [k] == [c, k];
    GenuineNext(ui, h, [c, k], ReadCheck);
    assert [c, k] + [Ask(ui, h + [c, k], ReadCheck)] == [c, k, Ask(ui, h + [c, k], ReadCheck)];
  }

  lemma OpenGenuine(ui: Ui, h: History)
    ensures Genuine(ui, h, AddOpen(ui, h).events)
  {
    hide Genuine;
    var c := Ask(ui, h, ReadCount);
    var a := Ask(ui, h + [c], PostAdd);
    GenuineAsk(ui, h, ReadCount);
    GenuineNext(ui, h, [c], PostAdd);
    assert [c] + [a] == [c, a];
    GenuineNext(ui, h, [c, a], WaitInterval);
    assert [c, a] + [Ask(ui, h + [c, a], WaitInterval)] == [c, a, Ask(ui, h + [c, a], WaitInterval)];
  }

  lemma FillGenuine(ui: Ui, h: History, range: SkipRange)
    ensures Genuine(ui, h, AddFill(ui, h, range))
  {
    hide Genuine, Render;
    var f := AddFill(ui, h, range);
    GenuineNothing(ui, h);
    assert h + [] == h;
    GenuineNext(ui, h, [], SetStart(Render(range.startMs)));
    assert [] + [f[0]] == [f[0]];
    GenuineNext(ui, h, [f[0]], SetEnd(Render(range.endMs)));
    assert [f[0]] + [f[1]] == [f[0], f[1]];
    GenuineNext(ui, h, [f[0], f[1]], SetType(1));
    assert [f[0], f[1]] + [f[2]] == [f[0], f[1], f[2]];
    GenuineNext(ui, h, [f[0], f[1], f[2]], ReadStart);
    assert [f[0], f[1], f[2]] + [f[3]] == [f[0], f[1], f[2], f[3]];
    GenuineNext(ui, h, [f[0], f[1], f[2], f[3]], ReadEnd);
    assert [f[0], f[1], f[2], f[3]] + [f[4]] == [f[0], f[1], f[2], f[3], f[4]];
    GenuineNext(ui, h, [f[0], f[1], f[2], f[3], f[4]], ReadType);
    assert [f[0], f[1], f[2], f[3], f[4]] + [f[5]] == f;
  }

  lemma ConfirmGenuine(ui: Ui, h: History, countBefore: int)
    ensures Genuine(ui, h, AddConfirm(ui, h, countBefore).events)
  {
    hide Genuine, PressAndWait;
    PressGenuine(ui, h, PostIntervalOk, WaitIntervalClosed);
    GenuineNext(ui, h, PressAndWait(ui, h, PostIntervalOk, WaitIntervalClosed).events, ReadCount);
  }

  lemma FilledGenuine(ui: Ui, h: History, range: SkipRange, countBefore: int)
    ensures Genuine(ui, h, AddFilled(ui, h, range, countBefore).events)
  {
    hide Genuine, PressAndWait, AddFill, AddConfirm, ReadsBack;
    var fill := AddFill(ui, h, range);
    FillGenuine(ui, h, range);
    if ReadsBack(fill, range) {
      ConfirmGenuine(ui, h + fill, countBefore);
      GenuineConcat(ui, h, fill, AddConfirm(ui, h + fill, countBefore).events);
    } else {
      PressGenuine(ui, h + fill, PostIntervalCancel, WaitIntervalClosed);
      GenuineConcat(ui, h, fill, PressAndWait(ui, h + fill, PostIntervalCancel, WaitIntervalClosed).events);
    }
  }

  lemma AddGenuine(ui: Ui, h: History, range: SkipRange)
    ensures Genuine(ui, h, AddRange(ui, h, range).events)
  {
    hide Genuine, PressAndWait, AddOpen, AddFilled;
    OpenGenuine(ui, h);
    AddOpenShape(ui, h);
    var open := AddOpen(ui, h);
    if open.ok {
      var h1 := h + open.events;
      var r := Ask(ui, h1, ResolveInterval);
      GenuineNext(ui, h, open.events, ResolveInterval);
      assert h1 + [r] == h + (open.events + [r]);
      FilledGenuine(ui, h1 + [r], range, OpenCount(open));
      PressGenuine(ui, h1 + [r], PostIntervalCancel, WaitIntervalClosed);
      var rest := if r.answer.flag then AddFilled(ui, h1 + [r], range, OpenCount(open)).events
                  else PressAndWait(ui, h1 + [r], PostIntervalCancel, WaitIntervalClosed).events;
      GenuineConcat(ui, h, open.events + [r], rest);
    }
  }

  function OpenCount(open: Outcome): int {
    if open.events == [] then 0 else open.events[0].answer.number
  }

  /** All that a commit records are the UI's own answers, each asked after everything before it. */
  lemma CommitGenuine(ui: Ui, h: History, range: SkipRange, autoEnable: bool)
    ensures Genuine(ui, h, Commit(ui, h, range, autoEnable).events)
  {
    hide Genuine, EnsureEnabled, AddRange, PressAndWait;
    var open := Ask(ui, h, OpenSetup);
    GenuineAsk(ui, h, OpenSetup);
    if open.answer.flag {
      var p := PartsOf(ui, h, range, autoEnable);
      CommitIsParts(ui, h, range, autoEnable);
      EnableGenuine(ui, h + [open]);
      GenuineNothing(ui, h + [open]);
      GenuineConcat(ui, h, [open], p.enable.events);
      var h1 := h + [open] + p.enable.events;
      assert h1 == h + ([open] + p.enable.events);
      AddGenuine(ui, h1, range);
      GenuineNothing(ui, h1);
      GenuineConcat(ui, h, [open] + p.enable.events, p.add.events);
      assert h1 + p.add.events == h + ([open] + p.enable.events + p.add.events);
      PressGenuine(ui, h1 + p.add.events, if p.add.ok then PostSetupOk else PostSetupCancel, WaitSetupClosed);
      GenuineConcat(ui, h, [open] + p.enable.events + p.add.events, p.close.events);
    }
  }

  // ---------- the requests ----------

  /** A button is posted; the wait follows exactly if the post worked, and success means that both did. */
  predicate Pressed(e: History, ok: bool, press: Request, wait: Request) {
    && |e| >= 1 && e[0].request == press
    && if e[0].answer.flag then |e| == 2 && e[1].request == wait && ok == e[1].answer.flag
       else |e| == 1 && !ok
  }

  lemma PressConversation(ui: Ui, h: History, press: Request, wait: Request)
    ensures var o := PressAndWait(ui, h, press, wait); Pressed(o.events, o.ok, press, wait)
  {
  }

  /** The checkbox is read; if it is off it is clicked and read again, and the last reading decides. */
  predicate Enabled(e: History, ok: bool) {
    && |e| >= 1 && e[0].request == ReadCheck
    && if e[0].answer.number == 1 then |e| == 1 && ok
       else |e| == 3 && e[1].request == ClickCheck && e[2].request == ReadCheck && ok == (e[2].answer.number == 1)
  }

  lemma EnableConversation(ui: Ui, h: History)
    ensures var o := EnsureEnabled(ui, h); Enabled(o.events, o.ok)
  {
  }

  /** The fields are set, then read back. */
  predicate FilledIn(e: History, range: SkipRange) {
    && |e| >= 6
    && e[0].request == SetStart(Render(range.startMs)) && e[1].request == SetEnd(Render(range.endMs))
    && e[2].request == SetType(1)
    && e[3].request == ReadStart && e[4].request == ReadEnd && e[5].request == ReadType
  }

  predicate ReadAsAsked(e: History, range: SkipRange)
    requires |e| >= 6
  {
    && ParseTimecode(WindowText(e[3].answer.text)) == Ok(range.startMs)
    && ParseTimecode(WindowText(e[4].answer.text)) == Ok(range.endMs)
    && ToInt32(e[5].answer.number) == 1
  }

  /** After the fields: OK and the new row count if they read back as asked, and Cancel otherwise. */
  predicate Decided(e: History, ok: bool, range: SkipRange, countBefore: int) {
    && FilledIn(e, range)
    && if !ReadAsAsked(e, range) then !ok && exists c :: Pressed(e[6..], c, PostIntervalCancel, WaitIntervalClosed)
       else && |e| >= 7 && e[6].request == PostIntervalOk
            && if !e[6].answer.flag then |e| == 7 && !ok
               else && |e| >= 8 && e[7].request == WaitIntervalClosed
                    && if !e[7].answer.flag then |e| == 8 && !ok
                       else |e| == 9 && e[8].request == ReadCount && ok == (e[8].answer.number == countBefore + 1)
  }

  /** The whole add: each step only if the one before it worked; a dialog that appeared but failed is cancelled. */
  predicate Added(e: History, ok: bool, range: SkipRange) {
    && |e| >= 2 && e[0].request == ReadCount && e[1].request == PostAdd
    && if !e[1].answer.flag then |e| == 2 && !ok
       else && |e| >= 3 && e[2].request == WaitInterval
            && if !e[2].answer.flag then |e| == 3 && !ok
               else && |e| >= 4 && e[3].request == ResolveInterval
                    && if e[3].answer.flag then Decided(e[4..], ok, range, e[0].answer.number)
                       else !ok && exists c :: Pressed(e[4..], c, PostIntervalCancel, WaitIntervalClosed)
  }

  lemma ConfirmConversation(ui: Ui, h: History, countBefore: int)
    ensures var o := AddConfirm(ui, h, countBefore); var e := o.events;
            && |e| >= 1 && e[0].request == PostIntervalOk
            && if !e[0].answer.flag then |e| == 1 && !o.ok
               else && |e| >= 2 && e[1].request == WaitIntervalClosed
                    && if !e[1].answer.flag then |e| == 2 && !o.ok
                       else |e| == 3 && e[2].request == ReadCount && o.ok == (e[2].answer.number == countBefore + 1)
  {
  }

  lemma DecidedConversation(ui: Ui, h: History, range: SkipRange, countBefore: int)
    ensures var o := AddFilled(ui, h, range, countBefore); Decided(o.events, o.ok, range, countBefore)
  {
    hide AddFill, AddConfirm, PressAndWait, Pressed, Render, ParseTimecode, WindowText, ToInt32, ReadsBack;
    var fill := AddFill(ui, h, range);
    FillShape(ui, h, range);
    ReadsBackMeans(fill, range);
    var o := AddFilled(ui, h, range, countBefore);
    assert o.events[..6] == fill;
    if ReadsBack(fill, range) {
      ConfirmConversation(ui, h + fill, countBefore);
      assert o.events[6..] == AddConfirm(ui, h + fill, countBefore).events;
      assert forall i | 6 <= i < |o.events| :: o.events[i] == o.events[6..][i - 6];
    } else {
      var press := PressAndWait(ui, h + fill, PostIntervalCancel, WaitIntervalClosed);
      PressConversation(ui, h + fill, PostIntervalCancel, WaitIntervalClosed);
      assert o.events[6..] == press.events;
    }
  }

  /** What an add asks, in which order, and when it stops. */
  lemma AddConversation(ui: Ui, h: History, range: SkipRange)
    ensures var o := AddRange(ui, h, range); Added(o.events, o.ok, range)
  {
    hide AddFilled, PressAndWait, Pressed, Decided;
    var o := AddRange(ui, h, range);
    var open := AddOpen(ui, h);
    if open.ok {
      var h1 := h + open.events;
      var r := Ask(ui, h1, ResolveInterval);
      DecidedConversation(ui, h1 + [r], range, open.events[0].answer.number);
      PressConversation(ui, h1 + [r], PostIntervalCancel, WaitIntervalClosed);
      var rest := if r.answer.flag then AddFilled(ui, h1 + [r], range, open.events[0].answer.number).events
                  else PressAndWait(ui, h1 + [r], PostIntervalCancel, WaitIntervalClosed).events;
      assert o.events == open.events + [r] + rest;
      assert o.events[4..] == rest;
    }
  }

  /** The whole commit: open, enable if asked to, add, and then OK exactly if all of that worked, otherwise Cancel. */
  lemma CommitConversation(ui: Ui, h: History, range: SkipRange, autoEnable: bool)
      returns (enabled: bool, added: bool, enable: History, add: History, close: History)
    ensures var o := Commit(ui, h, range, autoEnable); var open := Ask(ui, h, OpenSetup);
            if !open.answer.flag then !o.ok && o.events == [open]
            else
              && o.events == [open] + enable + add + close
              && (if autoEnable then Enabled(enable, enabled) else enabled && enable == [])
              && (if enabled then Added(add, added, range) else !added && add == [])
              && (if added then Pressed(close, o.ok, PostSetupOk, WaitSetupClosed)
                  else !o.ok && exists c :: Pressed(close, c, PostSetupCancel, WaitSetupClosed))
  {
    hide EnsureEnabled, AddRange, PressAndWait, Commit, Added, Enabled, Pressed;
    enabled, added, enable, add, close := false, false, [], [], [];
    if ui(h, OpenSetup).flag {
      var p := PartsOf(ui, h, range, autoEnable);
      CommitIsParts(ui, h, range, autoEnable);
      enabled, added, enable, add, close := p.enable.ok, p.add.ok, p.enable.events, p.add.events, p.close.events;
      EnableConversation(ui, h + [p.open]);
      var h1 := h + [p.open] + p.enable.events;
      AddConversation(ui, h1, range);
      PressConversation(ui, h1 + add, if added then PostSetupOk else PostSetupCancel, WaitSetupClosed);
    } else {
      CommitNotOpened(ui, h, range, autoEnable);
    }
  }

  lemma CommitNotOpened(ui: Ui, h: History, range: SkipRange, autoEnable: bool)
    requires !ui(h, OpenSetup).flag
    ensures Commit(ui, h, range, autoEnable) == Outcome(false, [Ask(ui, h, OpenSetup)])
  {
    hide EnsureEnabled, AddRange, PressAndWait;
  }

  /** A deletion: the count bounds the index; then exactly that row is selected, deleted and awaited to be gone. */
  lemma DeleteConversation(ui: Ui, h: History, index: int)
    ensures var o := DeleteRow(ui, h, index); var e := o.events;
            && |e| >= 1 && e[0].request == ReadCount
            && var count := ToInt32(e[0].answer.number);
               if index < 0 || index >= count then |e| == 1 && !o.ok
               else && |e| >= 4 && e[1].request == ClearSelection && e[2].request == SelectRow(index)
                    && Pressed(e[3..], o.ok, PostDelete, WaitCount(count - 1))
    ensures Genuine(ui, h, DeleteRow(ui, h, index).events)
  {
    hide ToInt32, PressAndWait, Pressed, Genuine;
    var c := Ask(ui, h, ReadCount);
    var count := ToInt32(c.answer.number);
    GenuineAsk(ui, h, ReadCount);
    if 0 <= index < count {
      var s := Ask(ui, h + [c], ClearSelection);
      var t := Ask(ui, h + [c, s], SelectRow(index));
      GenuineNext(ui, h, [c], ClearSelection);
      assert [c] + [s] == [c, s];
      GenuineNext(ui, h, [c, s], SelectRow(index));
      assert [c, s] + [t] == [c, s, t];
      var press := PressAndWait(ui, h + [c, s, t], PostDelete, WaitCount(count - 1));
      PressConversation(ui, h + [c, s, t], PostDelete, WaitCount(count - 1));
      PressGenuine(ui, h + [c, s, t], PostDelete, WaitCount(count - 1));
      GenuineConcat(ui, h, [c, s, t], press.events);
      assert DeleteRow(ui, h, index).events[3..] == press.events;
    }
  }
}
