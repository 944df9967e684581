/** An application's event queue, its dispatch thread and the threads that send
    to it or stop it, in every interleaving. */
module EventLoop {
  import opened Bytes

  datatype Event = Event(cls: nat, id: nat)

  /** What the queue holds: an event with the phase it is delivered in, or the
      sentinel `stop` puts behind the events. */
  datatype Item = Ev(event: Event, phase: Option<nat>) | Sentinel

  /** Where the dispatch thread is: about to read `is_active`, about to read
      `events.empty()`, in `events.get()`, running handlers, or gone. */
  datatype Pc = AtActive | AtEmpty | AtGet | Handling(item: Item) | Exited

  /** Queue, flag and thread, with what happened so far: every item ever put, the
      items dispatched, the calls of `stop` between clearing the flag and putting
      the sentinel, whether a sentinel was put, and how many items had been put
      when the flag was first cleared. */
  datatype State = State(
    queue: seq<Item>,
    active: bool,
    pc: Pc,
    put: seq<Item>,
    dispatched: seq<Item>,
    stopping: nat,
    signalled: bool,
    stoppedAt: Option<nat>)

  /** Atomic steps: a producer's put, the two halves of `stop`, and one step of
      the dispatch thread. */
  datatype Step = Put(event: Event, phase: Option<nat>) | ClearActive | PutSentinel | Loop

  predicate Enabled(s: State, step: Step) {
    match step
    case Put(_, _) => true
    case ClearActive => true
    case PutSentinel => s.stopping > 0
    // get() blocks on an empty queue.
    case Loop => !s.pc.Exited? && (s.pc.AtGet? ==> s.queue != [])
  }

  function Append(s: State, item: Item): State {
    s.(queue := s.queue + [item], put := s.put + [item])
  }

  function Next(s: State, step: Step): State
    requires Enabled(s, step)
  {
    match step
    case Put(event, phase) => Append(s, Ev(event, phase))
    case ClearActive =>
      s.(active := false, stopping := s.stopping + 1,
         stoppedAt := if s.stoppedAt.None? then Some(|s.put|) else s.stoppedAt)
    case PutSentinel => Append(s, Sentinel).(stopping := s.stopping - 1, signalled := true)
    case Loop =>
      match s.pc
      case AtActive => s.(pc := if s.active then AtGet else AtEmpty)
      case AtEmpty => s.(pc := if s.queue != [] then AtGet else Exited)
      case AtGet =>
        if s.queue[0].Sentinel? then s.(queue := s.queue[1..], pc := AtActive)
        else s.(queue := s.queue[1..], pc := Handling(s.queue[0]))
      case Handling(item) => s.(dispatched := s.dispatched + [item], pc := AtActive)
      case Exited => s
  }

  /** A started application whose queue may already hold events. */
  predicate Initial(s: State) {
    && s.active && s.pc == AtActive && s.put == s.queue && s.dispatched == []
    && s.stopping == 0 && !s.signalled && s.stoppedAt == None
  }

  predicate Possible(s: State, steps: seq<Step>)
    decreases |steps|
  {
    steps == [] || (Enabled(s, steps[0]) && Possible(Next(s, steps[0]), steps[1..]))
  }

  function Run(s: State, steps: seq<Step>): State
    requires Possible(s, steps)
    decreases |steps|
  {
    if steps == [] then s else Run(Next(s, steps[0]), steps[1..])
  }

  /** The events among queued items, in order. */
  function Events(items: seq<Item>): seq<Item> {
    if items == [] then []
    else if items[0].Sentinel? then Events(items[1..])
    else [items[0]] + Events(items[1..])
  }

  lemma {:induction false} EventsConcat(a: seq<Item>, b: seq<Item>)
    ensures Events(a + b) == Events(a) + Events(b)
  {
    if a == [] {
      assert a + b == b;
    } else {
      EventsConcat(a[1..], b);
      assert (a + b)[1..] == a[1..] + b && (a + b)[0] == a[0];
      assert [a[0]] + (Events(a[1..]) + Events(b)) == [a[0]] + Events(a[1..]) + Events(b);
    }
  }

  lemma EventsNext(items: seq<Item>, item: Item)
    ensures Events(items + [item]) == if item.Sentinel? then Events(items) else Events(items) + [item]
  {
    EventsConcat(items, [item]);
    assert [item][1..] == [];
    assert Events(items) + [] == Events(items);
  }

  function Taken(s: State): seq<Item>
    requires |s.queue| <= |s.put|
  {
    s.put[..|s.put| - |s.queue|]
  }

  function InHand(pc: Pc): seq<Item> {
    if pc.Handling? then [pc.item] else []
  }

  /** What every step keeps. */
  ghost predicate Inv(s: State) {
    && |s.queue| <= |s.put| && s.put == Taken(s) + s.queue
    && s.dispatched + InHand(s.pc) == Events(Taken(s))
    && (s.active <==> s.stoppedAt.None?)
    && (s.active ==> s.stopping == 0 && !s.signalled)
    && (s.stoppedAt.Some? ==> s.stoppedAt.value <= |s.put|)
    && (s.pc.AtEmpty? ==> !s.active)
    && (s.pc.Exited? ==> !s.active && s.stoppedAt.value <= |Taken(s)|)
    && (s.pc.AtGet? && s.queue == [] ==> !s.signalled)
    && (s.pc.Handling? ==> s.pc.item.Ev?)
  }

  lemma AppendKeepsTaken(s: State, item: Item)
    requires Inv(s)
    ensures Taken(Append(s, item)) == Taken(s)
    ensures Append(s, item).put == Taken(s) + Append(s, item).queue
  {
    assert s.put + [item] == Taken(s) + (s.queue + [item]);
  }

  lemma TakeKeepsInv(s: State)
    requires Inv(s) && s.pc.AtGet? && s.queue != []
    ensures Inv(Next(s, Loop))
  {
    hide Events;
    var t := Next(s, Loop);
    var item := s.queue[0];
    assert s.queue == [item] + t.queue;
    assert t.put == Taken(s) + [item] + t.queue;
    assert Taken(t) == Taken(s) + [item];
    EventsNext(Taken(s), item);
    assert s.dispatched + [] == s.dispatched;
  }

  /** The steps of the dispatch thread that leave the queue alone. */
  lemma LoopKeepsInv(s: State)
    requires Inv(s) && !s.pc.AtGet? && Enabled(s, Loop)
    ensures Inv(Next(s, Loop))
  {
    hide Events;
    var t := Next(s, Loop);
    assert t.queue == s.queue && t.put == s.put;
    assert Taken(t) == Taken(s);
    assert s.pc.Handling? ==> t.dispatched + [] == s.dispatched + [s.pc.item];
  }

  lemma PutKeepsInv(s: State, item: Item)
    requires Inv(s)
    ensures Inv(Append(s, item))
  {
    hide Events;
    AppendKeepsTaken(s, item);
  }

  lemma StepKeepsInv(s: State, step: Step)
    requires Inv(s) && Enabled(s, step)
    ensures Inv(Next(s, step))
  {
    hide Events, Taken;
    match step
    case Put(event, phase) => PutKeepsInv(s, Ev(event, phase));
    case ClearActive => ClearKeepsInv(s);
    case PutSentinel => SentinelKeepsInv(s);
    case Loop => if s.pc.AtGet? { TakeKeepsInv(s); } else { LoopKeepsInv(s); }
  }

  lemma ClearKeepsInv(s: State)
    requires Inv(s)
    ensures Inv(Next(s, ClearActive))
  {
    hide Events;
    assert Taken(Next(s, ClearActive)) == Taken(s);
  }

  lemma SentinelKeepsInv(s: State)
    requires Inv(s) && s.stopping > 0
    ensures Inv(Next(s, PutSentinel))
  {
    hide Events;
    AppendKeepsTaken(s, Sentinel);
    assert Taken(Next(s, PutSentinel)) == Taken(s);
  }

  lemma {:induction false} RunKeepsInv(s: State, steps: seq<Step>)
    requires Inv(s) && Possible(s, steps)
    ensures Inv(Run(s, steps))
    decreases |steps|
  {
    if steps != [] {
      StepKeepsInv(s, steps[0]);
      RunKeepsInv(Next(s, steps[0]), steps[1..]);
    }
  }

  lemma InitialInv(s: State)
    requires Initial(s)
    ensures Inv(s)
  {
  }

  /** What was queued ahead of the moment `stop` cleared the flag. */
  function PutBeforeStop(s: State): seq<Item>
    requires s.stoppedAt.Some? && s.stoppedAt.value <= |s.put|
  {
    s.put[..s.stoppedAt.value]
  }

  /** In every interleaving: events are dispatched at most once and in queue order;
      when the thread is gone, every event queued before `stop` was dispatched; and
      a thread waiting for an event after the sentinel was put finds one. */
  lemma EveryInterleaving(s: State, steps: seq<Step>)
    requires Initial(s) && Possible(s, steps)
    ensures var t := Run(s, steps);
            && t.dispatched <= Events(t.put)
            && (t.pc.Exited? ==>
                  t.stoppedAt.Some? && t.stoppedAt.value <= |t.put| && Events(PutBeforeStop(t)) <= t.dispatched)
            && (t.signalled && !t.pc.Exited? ==> Enabled(t, Loop))
  {
    InitialInv(s);
    RunKeepsInv(s, steps);
    var t := Run(s, steps);
    EventsConcat(Taken(t), t.queue);
    if t.pc.Exited? {
      var n := t.stoppedAt.value;
      assert Taken(t) == t.put[..n] + Taken(t)[n..];
      EventsConcat(t.put[..n], Taken(t)[n..]);
    }
  }

  // -- draining --------------------------------------------------------------------

  /** Steps the dispatch thread is still away from leaving, if nobody puts more. */
  function Distance(s: State): nat {
    5 * |s.queue| + match s.pc
                    case Handling(_) => 5
                    case AtActive => 3
                    case AtEmpty => 2
                    case AtGet => 1
                    case Exited => 0
  }

  function Loops(n: nat): (steps: seq<Step>)
    ensures |steps| == n
  {
    if n == 0 then [] else [Loop] + Loops(n - 1)
  }

  /** Once the sentinel is in, the dispatch thread on its own leaves after finitely
      many steps, with the queue empty and every event dispatched. */
  lemma {:induction false} StopDrains(s: State) returns (n: nat)
    requires Inv(s) && s.signalled
    ensures n <= Distance(s)
    ensures Possible(s, Loops(n))
    ensures var t := Run(s, Loops(n)); t.pc.Exited? && t.put == s.put
    ensures !s.pc.Exited? ==> Run(s, Loops(n)).dispatched == Events(s.put)
    decreases Distance(s)
  {
    hide Inv, Next, Events, Distance;
    if s.pc.Exited? {
      n := 0;
    } else {
      SignalledEnabled(s);
      var t := Next(s, Loop);
      StepKeepsInv(s, Loop);
      LoopProgress(s);
      n := StopDrains(t);
      assert Loops(n + 1)[0] == Loop && Loops(n + 1)[1..] == Loops(n);
      n := n + 1;
    }
  }

  lemma SignalledEnabled(s: State)
    requires Inv(s) && s.signalled && !s.pc.Exited?
    ensures Enabled(s, Loop)
  {
    hide Events, Taken;
  }

  /** One step of the dispatch thread brings it closer to leaving, and it only
      leaves when everything put has been dispatched. */
  lemma LoopProgress(s: State)
    requires Inv(s) && s.signalled && Enabled(s, Loop)
    ensures var t := Next(s, Loop);
            && Distance(t) < Distance(s) && t.signalled && t.put == s.put
            && (t.pc.Exited? ==> t.dispatched == Events(s.put))
  {
    hide Events;
    var t := Next(s, Loop);
    if t.pc.Exited? {
      assert Taken(s) == s.put;
      assert s.dispatched + [] == s.dispatched;
    }
  }

  // -- the application ---------------------------------------------------------------

  /** A handler and the phases it is restricted to; none means all of them. */
  datatype Handler = Handler(name: nat, phases: seq<nat>)

  predicate Interested(h: Handler, phase: Option<nat>) {
    h.phases == [] || phase.None? || phase.value in h.phases
  }

  /** `get_handlers`, over the handlers registered for the event's class. */
  function GetHandlers(registered: seq<Handler>, phase: Option<nat>): (r: seq<Handler>)
    ensures |r| <= |registered|
  {
    if registered == [] then []
    else
      var h := registered[0];
      var rest := GetHandlers(registered[1..], phase);
      if Interested(h, phase) then [h] + rest else rest
  }

  /** Every interested handler, as often as it was registered, and no other. */
  lemma {:induction false} HandlersExactly(registered: seq<Handler>, phase: Option<nat>, h: Handler)
    ensures multiset(GetHandlers(registered, phase))[h] == if Interested(h, phase) then multiset(registered)[h] else 0
  {
    if registered != [] {
      HandlersExactly(registered[1..], phase, h);
      assert registered == [registered[0]] + registered[1..];
    }
  }

  /** Handlers are chosen one by one and keep the order they were registered in. */
  lemma {:induction false} HandlersInOrder(a: seq<Handler>, b: seq<Handler>, phase: Option<nat>)
    ensures GetHandlers(a + b, phase) == GetHandlers(a, phase) + GetHandlers(b, phase)
  {
    hide Interested;
    if a == [] {
      assert a + b == b;
    } else {
      HandlersInOrder(a[1..], b, phase);
      var whole := a + b;
      assert whole[1..] == a[1..] + b;
      HandlersNext(whole, phase);
      HandlersNext(a, phase);
    }
  }

  lemma HandlersNext(hs: seq<Handler>, phase: Option<nat>)
    requires hs != []
    ensures GetHandlers(hs, phase) == (if Interested(hs[0], phase) then [hs[0]] else []) + GetHandlers(hs[1..], phase)
  {
    hide Interested;
  }

  function For(handlers: map<nat, seq<Handler>>, cls: nat): seq<Handler> {
    if cls in handlers then handlers[cls] else []
  }

  function Pairs(hs: seq<Handler>, e: Event): (r: seq<(Handler, Event)>)
    ensures |r| == |hs|
  {
    if hs == [] then [] else [(hs[0], e)] + Pairs(hs[1..], e)
  }

  lemma {:induction false} PairsSnoc(hs: seq<Handler>, h: Handler, e: Event)
    ensures Pairs(hs + [h], e) == Pairs(hs, e) + [(h, e)]
  {
    if hs == [] {
      assert [h][1..] == [];
    } else {
      PairsSnoc(hs[1..], h, e);
      assert (hs + [h])[1..] == hs[1..] + [h];
    }
  }

  /** The handler calls a list of queued items leads to. */
  function Calls(handlers: map<nat, seq<Handler>>, items: seq<Item>): seq<(Handler, Event)> {
    if items == [] then []
    else if items[0].Sentinel? then Calls(handlers, items[1..])
    else
      var hs := GetHandlers(For(handlers, items[0].event.cls), items[0].phase);
      Pairs(hs, items[0].event) + Calls(handlers, items[1..])
  }

  /** One step more of the dispatch thread on its own. */
  lemma {:induction false} LoopsSnoc(s: State, n: nat)
    requires Possible(s, Loops(n)) && Enabled(Run(s, Loops(n)), Loop)
    ensures Possible(s, Loops(n + 1)) && Run(s, Loops(n + 1)) == Next(Run(s, Loops(n)), Loop)
    decreases n
  {
    hide Next, Enabled;
    assert Loops(n + 1)[0] == Loop && Loops(n + 1)[1..] == Loops(n);
    if n > 0 {
      assert Loops(n)[0] == Loop && Loops(n)[1..] == Loops(n - 1);
      LoopsSnoc(Next(s, Loop), n - 1);
    } else {
      assert Loops(0) == [];
    }
  }

  lemma {:induction false} LoopsJoin(s: State, n: nat, k: nat)
    requires Possible(s, Loops(n)) && Possible(Run(s, Loops(n)), Loops(k))
    ensures Possible(s, Loops(n + k)) && Run(s, Loops(n + k)) == Run(Run(s, Loops(n)), Loops(k))
    decreases k
  {
    hide Next, Enabled, Run, Possible;
    if k == 0 {
      NoSteps(Run(s, Loops(n)));
    } else {
      LastLoop(Run(s, Loops(n)), k - 1);
      LoopsJoin(s, n, k - 1);
      LoopsSnoc(s, n + (k - 1));
      LoopsSnoc(Run(s, Loops(n)), k - 1);
    }
  }

  lemma {:induction false} LastLoop(s: State, k: nat)
    requires Possible(s, Loops(k + 1))
    ensures Possible(s, Loops(k)) && Enabled(Run(s, Loops(k)), Loop)
    decreases k
  {
    hide Next, Enabled;
    assert Loops(k + 1)[0] == Loop && Loops(k + 1)[1..] == Loops(k);
    if k > 0 {
      assert Loops(k)[0] == Loop && Loops(k)[1..] == Loops(k - 1);
      LastLoop(Next(s, Loop), k - 1);
    } else {
      assert Loops(0) == [];
    }
  }

  lemma NoSteps(s: State)
    ensures Possible(s, Loops(0)) && Run(s, Loops(0)) == s
  {
  }

  /** The dispatch thread back at the top of its loop, with one item less. */
  function AfterTurn(s: State): State
    requires s.queue != []
  {
    s.(queue := s.queue[1..], dispatched := s.dispatched + if s.queue[0].Ev? then [s.queue[0]] else [])
  }

  /** One turn of the loop, step by step. */
  lemma TurnSteps(s: State) returns (k: nat)
    requires s.pc.AtActive? && s.queue != []
    ensures Possible(s, Loops(k)) && Run(s, Loops(k)) == AfterTurn(s)
  {
    hide Possible, Run;
    NoSteps(s);
    LoopsSnoc(s, 0);
    k := 1;
    if !s.active {
      LoopsSnoc(s, k);
      k := k + 1;
    }
    LoopsSnoc(s, k);
    k := k + 1;
    if s.queue[0].Ev? {
      LoopsSnoc(s, k);
      k := k + 1;
    }
    assert s.dispatched + [] == s.dispatched;
  }

  /** The end of the loop, or the wait in it. */
  lemma EndSteps(s: State) returns (k: nat)
    requires s.pc.AtActive? && s.queue == []
    ensures Possible(s, Loops(k)) && Run(s, Loops(k)) == s.(pc := if s.active then AtGet else Exited)
  {
    hide Possible, Run;
    NoSteps(s);
    LoopsSnoc(s, 0);
    k := 1;
    if !s.active {
      LoopsSnoc(s, k);
      k := k + 1;
    }
  }

  class OFApp {
    var events: seq<Item>
    var isActive: bool
    var handlers: map<nat, seq<Handler>>
    /** Handler invocations, oldest first. */
    var calls: seq<(Handler, Event)>
    /** The state of the step relation the methods have brought about. */
    ghost var run: State

    ghost predicate Valid()
      reads this
    {
      run.queue == events && run.active == isActive
    }

    constructor ()
      ensures Valid() && Initial(run) && events == [] && handlers == map[] && calls == []
    {
      events, isActive, handlers, calls := [], true, map[], [];
      run := State([], true, AtActive, [], [], 0, false, None);
    }

    /** `register_handler`. */
    method RegisterHandler(cls: nat, h: Handler)
      modifies this`handlers
      ensures handlers == old(handlers)[cls := For(old(handlers), cls) + [h]]
    {
      handlers := handlers[cls := For(handlers, cls) + [h]];
    }

    /** `self.events.put((ev, state))`. */
    method Post(event: Event, phase: Option<nat>)
      requires Valid()
      modifies this`events, this`run
      ensures Valid() && run == Next(old(run), Put(event, phase))
      ensures events == old(events) + [Ev(event, phase)]
    {
      events := events + [Ev(event, phase)];
      run := Next(run, Put(event, phase));
    }

    /** `stop`, up to the wait for the thread. */
    method RequestStop()
      requires Valid()
      modifies this`events, this`isActive, this`run
      ensures Valid() && run == Next(Next(old(run), ClearActive), PutSentinel)
      ensures !isActive && events == old(events) + [Sentinel]
    {
      isActive := false;
      run := Next(run, ClearActive);
      events := events + [Sentinel];
      run := Next(run, PutSentinel);
    }

    /** `for handler in self.get_handlers(ev, state)`. */
    method Dispatch(event: Event, phase: Option<nat>)
      modifies this`calls
      ensures calls == old(calls) + Pairs(GetHandlers(For(handlers, event.cls), phase), event)
    {
      hide GetHandlers;
      var hs := GetHandlers(For(handlers, event.cls), phase);
      for i := 0 to |hs|
        invariant calls == old(calls) + Pairs(hs[..i], event)
      {
        PairsSnoc(hs[..i], hs[i], event);
        assert hs[..i + 1] == hs[..i] + [hs[i]];
        calls := calls + [(hs[i], event)];
      }
      assert hs[..|hs|] == hs;
    }

    /** `_event_loop` as long as nobody else runs: every handler that wants an event
        gets it, in queue order, and nothing is left. The loop has been left if the
        flag is cleared; otherwise it waits in `get` for the next event. It is a run of
        `n` steps of the dispatch thread. */
    method RunEventLoop() returns (left: bool, ghost n: nat)
      requires Valid() && run.pc.AtActive?
      modifies this`events, this`calls, this`run
      ensures Valid() && Possible(old(run), Loops(n)) && run == Run(old(run), Loops(n))
      ensures left <==> !isActive
      ensures run.pc == if left then Exited else AtGet
      ensures events == []
      ensures calls == old(calls) + Calls(handlers, old(events))
    {
      hide Run, Possible, GetHandlers, Pairs, Loops;
      ghost var before, start, first := calls, events, run;
      n := 0;
      NoSteps(run);
      while isActive || events != []
        invariant Valid() && run.pc.AtActive? && isActive == old(isActive)
        invariant Possible(first, Loops(n)) && run == Run(first, Loops(n))
        invariant calls + Calls(handlers, events) == before + Calls(handlers, start)
        decreases |events|
      {
        if events == [] {
          break;
        }
        ghost var k := TurnSteps(run);
        LoopsJoin(first, n, k);
        n, run := n + k, AfterTurn(run);
        var item := events[0];
        events := events[1..];
        if item.Ev? {
          Dispatch(item.event, item.phase);
        }
      }
      ghost var k := EndSteps(run);
      LoopsJoin(first, n, k);
      n, run := n + k, run.(pc := if run.active then AtGet else Exited);
      left := !isActive;
    }
  }
}
