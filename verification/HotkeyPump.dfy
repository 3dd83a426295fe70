/** The message queue that feeds key presses to the marking state machine. */
module HotkeyPump {
  import opened Wrappers
  import opened SkipMarking

  /** A queued message; for a hotkey, whether PotPlayer is in front and what the driver answers when it is handled. */
  datatype Message = Hotkey(id: int, foreground: bool, answers: Answers) | Other

  /** ResolveHotkeyAction over the three registered ids. */
  function ActionOf(id: int): Option<Action> {
    if id == 1 then Some(AltA)
    else if id == 2 then Some(AltOpenBracket)
    else if id == 3 then Some(AltCloseBracket)
    else None
  }

  /** The press one message stands for, if any. */
  function PressOf(m: Message, global: bool): seq<Press> {
    if m.Hotkey? && ActionOf(m.id).Some? && (global || m.foreground)
    then [Press(ActionOf(m.id).value, m.answers)] else []
  }

  /** The presses a queue stands for. */
  function Presses(queue: seq<Message>, global: bool): seq<Press> {
    if queue == [] then [] else PressOf(queue[0], global) + Presses(queue[1..], global)
  }

  lemma {:induction false} PressesConcat(a: seq<Message>, b: seq<Message>, global: bool)
    ensures Presses(a + b, global) == Presses(a, global) + Presses(b, global)
    decreases |a|
  {
    if a == [] {
      assert a + b == b;
    } else {
      assert (a + b)[1..] == a[1..] + b;
      PressesConcat(a[1..], b, global);
    }
  }

  class MessageQueue {
    var messages: seq<Message>

    constructor ()
      ensures messages == []
    {
      messages := [];
    }

    method Post(more: seq<Message>)
      modifies this
      ensures messages == old(messages) + more
    {
      messages := messages + more;
    }

    /** PeekMessage with PM_REMOVE. */
    method Take() returns (m: Option<Message>)
      modifies this
      ensures old(messages) == [] ==> m.None? && messages == []
      ensures old(messages) != [] ==> m == Some(old(messages)[0]) && messages == old(messages)[1..]
    {
      if messages == [] {
        return None;
      }
      m := Some(messages[0]);
      messages := messages[1..];
    }
  }

  method Invoke(machine: SkipMarkingStateMachine, action: Action, a: Answers)
    modifies machine
    ensures machine.Current() == Step(old(machine.Current()), Press(action, a))
  {
    hide Step;
    match action {
      case AltA => machine.OnAltA(a);
      case AltOpenBracket => machine.OnAltOpenBracket(a);
      case AltCloseBracket => machine.OnAltCloseBracket(a);
    }
  }

  /** What arrives while the first `n` messages are handled; `arrivals[k]` comes in during message `k`. */
  function Arrived(arrivals: seq<seq<Message>>, n: nat): seq<Message> {
    if n == 0 then [] else Arrived(arrivals, n - 1) + if n <= |arrivals| then arrivals[n - 1] else []
  }

  /** How many messages are still to arrive from message `n` on. */
  function ToCome(arrivals: seq<seq<Message>>, n: nat): nat
    decreases |arrivals| - n
  {
    if n >= |arrivals| then 0 else |arrivals[n]| + ToCome(arrivals, n + 1)
  }

  /**
   * Empties the queue, also of what arrives meanwhile: the machine has then handled exactly the presses that were
   * queued and those that arrived before the queue ran dry, in order.
   */
  method DrainMessageQueue(queue: MessageQueue, machine: SkipMarkingStateMachine, global: bool,
                           arrivals: seq<seq<Message>>) returns (taken: nat)
    modifies queue, machine
    ensures queue.messages == []
    ensures taken == |old(queue.messages) + Arrived(arrivals, taken)|
    ensures forall k: nat | k < taken :: k < |old(queue.messages) + Arrived(arrivals, k)|
    ensures machine.Current() ==
            Run(old(machine.Current()), Presses(old(queue.messages) + Arrived(arrivals, taken), global))
  {
    hide Step, Run, Presses, ActionOf, Arrived, ToCome;
    ghost var queued, start := queue.messages, machine.Current();
    taken := 0;
    NothingTaken(start, queued, global);
    assert queued + Arrived(arrivals, 0) == queued by { NothingArrived(arrivals); }
    while queue.messages != []
      invariant taken <= |queued + Arrived(arrivals, taken)|
      invariant queue.messages == (queued + Arrived(arrivals, taken))[taken..]
      invariant forall k: nat | k < taken :: k < |queued + Arrived(arrivals, k)|
      invariant machine.Current() == Run(start, Presses((queued + Arrived(arrivals, taken))[..taken], global))
      decreases |queue.messages| + ToCome(arrivals, taken)
    {
      ghost var all := queued + Arrived(arrivals, taken);
      ghost var before := machine.Current();
      var m := queue.Take();
      OneMoreTaken(start, all, taken, global);
      if m.value.Hotkey? {
        var action := ActionOf(m.value.id);
        if action.Some? && (global || m.value.foreground) {
          Invoke(machine, action.value, m.value.answers);
        }
      }
      assert machine.Current() == Run(start, Presses(all[..taken + 1], global));
      MoreArrived(queued, arrivals, taken);
      if taken < |arrivals| {
        queue.Post(arrivals[taken]);
      }
      taken := taken + 1;
    }
    assert (queued + Arrived(arrivals, taken))[..taken] == queued + Arrived(arrivals, taken);
  }

  lemma NothingArrived(arrivals: seq<seq<Message>>)
    ensures Arrived(arrivals, 0) == []
  {
  }

  lemma MoreArrived(queued: seq<Message>, arrivals: seq<seq<Message>>, n: nat)
    requires n < |queued + Arrived(arrivals, n)|
    ensures var all, next := queued + Arrived(arrivals, n), queued + Arrived(arrivals, n + 1);
            var more := if n < |arrivals| then arrivals[n] else [];
            && n + 1 <= |all| <= |next| && next[..n + 1] == all[..n + 1] && next[n + 1..] == all[n..][1..] + more
            && ToCome(arrivals, n) == |more| + ToCome(arrivals, n + 1)
  {
    var all, more := queued + Arrived(arrivals, n), if n < |arrivals| then arrivals[n] else [];
    assert queued + Arrived(arrivals, n + 1) == all + more;
  }

  lemma NothingTaken(st: State, queue: seq<Message>, global: bool)
    ensures Run(st, Presses(queue[..0], global)) == st
  {
  }

  /** Handling message `n` extends the presses handled by what it stands for. */
  lemma OneMoreTaken(st: State, all: seq<Message>, n: nat, global: bool)
    requires n < |all|
    ensures var before := Run(st, Presses(all[..n], global)); var p := PressOf(all[n], global);
            Run(st, Presses(all[..n + 1], global)) == if p == [] then before else Step(before, p[0])
  {
    hide Step, Run, Presses, PressOf;
    assert all[..n + 1] == all[..n] + [all[n]];
    SplitWakeUps(st, all[..n], [all[n]], global);
    OneMessage(all[n], global);
    var p := PressOf(all[n], global);
    var before := Run(st, Presses(all[..n], global));
    RunOne(before, Press(AltA, Answers(true, true, 0, true)));
    if p != [] {
      RunOne(before, p[0]);
    }
  }

  lemma OneMessage(m: Message, global: bool)
    ensures Presses([m], global) == PressOf(m, global)
    ensures |PressOf(m, global)| <= 1 && (PressOf(m, global) != [] ==> PressOf(m, global) == [PressOf(m, global)[0]])
  {
    assert [m][1..] == [];
    assert PressOf(m, global) + [] == PressOf(m, global);
  }

  /** The messages that are not hotkeys pressed while another window is in front. */
  function InFront(queue: seq<Message>): seq<Message> {
    if queue == [] then []
    else (if queue[0].Hotkey? && !queue[0].foreground then [] else [queue[0]]) + InFront(queue[1..])
  }

  /** Unless the hotkeys are global, exactly those pressed with the player in front reach the machine. */
  lemma {:induction false} ForegroundOnly(queue: seq<Message>)
    ensures Presses(queue, false) == Presses(InFront(queue), true)
    decreases |queue|
  {
    if queue != [] {
      var m, rest := queue[0], InFront(queue[1..]);
      ForegroundOnly(queue[1..]);
      PressesConcat([m], rest, true);
      OneMessage(m, true);
      OneMessage(m, false);
      assert [] + rest == rest;
    }
  }

  /** With global hotkeys, ids 1, 2 and 3 stand for the three keys with their answers, and nothing else for any. */
  lemma GlobalMessages(id: int, foreground: bool, a: Answers)
    ensures Presses([Hotkey(1, foreground, a)], true) == [Press(AltA, a)]
    ensures Presses([Hotkey(2, foreground, a)], true) == [Press(AltOpenBracket, a)]
    ensures Presses([Hotkey(3, foreground, a)], true) == [Press(AltCloseBracket, a)]
    ensures id !in {1, 2, 3} ==> Presses([Hotkey(id, foreground, a)], true) == []
    ensures Presses([Other], true) == []
  {
    OneMessage(Hotkey(1, foreground, a), true);
    OneMessage(Hotkey(2, foreground, a), true);
    OneMessage(Hotkey(3, foreground, a), true);
    OneMessage(Hotkey(id, foreground, a), true);
    OneMessage(Other, true);
  }

  /** Splitting the queued messages across wake-ups does not change what the machine has done. */
  lemma SplitWakeUps(st: State, a: seq<Message>, b: seq<Message>, global: bool)
    ensures Run(st, Presses(a + b, global)) == Run(Run(st, Presses(a, global)), Presses(b, global))
  {
    hide Run, Presses;
    PressesConcat(a, b, global);
    RunConcat(st, Presses(a, global), Presses(b, global));
  }
}
