/** The handshake: what a message says about the channel is recorded by the receive
    thread before the message is published; the handshake application, hellos and
    closes change phase and ports from threads of their own. */
module Handshake {
  import opened Bytes

  datatype Phase = Negotiating | Config | Main | Dead

  datatype Port = Port(no: nat, desc: nat)

  /** What happens to one entry of the port map. */
  datatype Change = Set(port: Port) | Drop(no: nat)

  /** The messages the channel reacts to: a features reply, one part of a port
      description (`more` when further parts follow), a port status, which is None
      for an unknown reason, and any other. */
  datatype Msg =
    | Features(id: nat)
    | PortDesc(ports: seq<Port>, more: bool)
    | PortStatus(change: Option<Change>)
    | OtherMsg(n: nat)

  /** What observers are told, in order: phase changes, messages stamped with a
      phase, and the changes the handshake application makes to the ports. */
  datatype Published =
    | PhaseChanged(phase: Phase)
    | Delivered(msg: Msg, phase: Phase)
    | PortChanged(change: Change)

  /** `handled` counts the entries the handshake application has taken off its
      queue. */
  datatype State = State(phase: Phase, id: Option<nat>, ports: map<nat, Port>, log: seq<Published>, handled: nat)

  /** A message read off the wire; a hello with a usable version, handled on another
      thread; the connection closed, by any thread; the handshake application
      handling the next entry of its queue. */
  datatype Step = Receive(msg: Msg) | UsableHello | Close | HandleEvent

  const START := State(Negotiating, None, map[], [PhaseChanged(Negotiating)], 0)

  function SetState(s: State, phase: Phase): State {
    if s.phase == phase then s else s.(phase := phase, log := s.log + [PhaseChanged(phase)])
  }

  function AddPorts(ports: map<nat, Port>, more: seq<Port>): map<nat, Port>
    decreases |more|
  {
    if more == [] then ports else AddPorts(ports[more[0].no := more[0]], more[1..])
  }

  /** `_absorb`. */
  function Absorb(s: State, msg: Msg): State {
    match msg
    case Features(id) => s.(id := Some(id), ports := map[])
    case PortDesc(ports, more) =>
      if s.phase != Config then s
      else
        var t := s.(ports := AddPorts(s.ports, ports));
        if more then t else SetState(t, Main)
    case PortStatus(_) => s
    case OtherMsg(_) => s
  }

  /** `_dispatch`: the stamp is the phase the message arrived in. */
  function Dispatch(s: State, msg: Msg): State {
    var t := Absorb(s, msg);
    t.(log := t.log + [Delivered(msg, s.phase)])
  }

  function Apply(ports: map<nat, Port>, change: Change): map<nat, Port> {
    match change
    case Set(port) => ports[port.no := port]
    case Drop(no) => ports - {no}
  }

  /** The next entry of the handshake application's queue, if it is a port status
      stamped MAIN with a known reason: `port_status_handler` sees no others. */
  function Due(s: State): Option<Change> {
    if s.handled < |s.log| then
      match s.log[s.handled]
      case Delivered(PortStatus(change), Main) => change
      case _ => None
    else None
  }

  function HandleNext(s: State): State {
    if s.handled >= |s.log| then s
    else
      match Due(s)
      case Some(change) =>
        s.(ports := Apply(s.ports, change), log := s.log + [PortChanged(change)], handled := s.handled + 1)
      case None => s.(handled := s.handled + 1)
  }

  function Next(s: State, step: Step): State {
    match step
    case Receive(msg) => Dispatch(s, msg)
    case UsableHello => SetState(s, Config)
    case Close => SetState(s, Dead)
    case HandleEvent => HandleNext(s)
  }

  function Run(s: State, steps: seq<Step>): State
    decreases |steps|
  {
    if steps == [] then s else Run(Next(s, steps[0]), steps[1..])
  }

  // -- reading the log -----------------------------------------------------------------

  /** The phase observers were last told of. */
  function PhaseOf(log: seq<Published>): Phase {
    if log == [] then Negotiating
    else match log[|log| - 1]
      case PhaseChanged(phase) => phase
      case _ => PhaseOf(log[..|log| - 1])
  }

  /** The datapath id of the last features reply. */
  function IdOf(log: seq<Published>): Option<nat> {
    if log == [] then None
    else
      var e := log[|log| - 1];
      if e.Delivered? && e.msg.Features? then Some(e.msg.id) else IdOf(log[..|log| - 1])
  }

  function Sets(ports: seq<Port>): (r: seq<Change>)
    ensures |r| == |ports| && forall i | 0 <= i < |ports| :: r[i] == Set(ports[i])
  {
    seq(|ports|, i requires 0 <= i < |ports| => Set(ports[i]))
  }

  /** One more log entry: a features reply forgets all changes, a port description
      part published under CONFIG sets its ports. */
  function ChangesStep(before: seq<Change>, e: Published): seq<Change> {
    match e
    case PhaseChanged(_) => before
    case PortChanged(change) => before + [change]
    case Delivered(msg, phase) =>
      if msg.Features? then []
      else if msg.PortDesc? && phase == Config then before + Sets(msg.ports)
      else before
  }

  /** Every change to a port since the last features reply, in order. */
  function Changes(log: seq<Published>): seq<Change> {
    if log == [] then [] else ChangesStep(Changes(log[..|log| - 1]), log[|log| - 1])
  }

  function NumberOf(c: Change): nat {
    match c case Set(port) => port.no case Drop(no) => no
  }

  /** The last change to port `no`. */
  function Latest(changes: seq<Change>, no: nat): Option<Change> {
    if changes == [] then None
    else if NumberOf(changes[|changes| - 1]) == no then Some(changes[|changes| - 1])
    else Latest(changes[..|changes| - 1], no)
  }

  lemma {:induction false} LatestIsLast(changes: seq<Change>, no: nat)
    ensures match Latest(changes, no)
            case None => forall c | c in changes :: NumberOf(c) != no
            case Some(c) => exists i :: 0 <= i < |changes| && changes[i] == c && NumberOf(c) == no
                                     && forall j | i < j < |changes| :: NumberOf(changes[j]) != no
  {
    if changes != [] {
      var init := changes[..|changes| - 1];
      if NumberOf(changes[|changes| - 1]) == no {
        assert changes[|changes| - 1] == Latest(changes, no).value;
      } else {
        LatestIsLast(init, no);
        assert changes == init + [changes[|changes| - 1]];
        if Latest(init, no).Some? {
          var i :| 0 <= i < |init| && init[i] == Latest(init, no).value
                && forall j | i < j < |init| :: NumberOf(init[j]) != no;
          assert changes[i] == init[i];
          forall j | i < j < |changes|
            ensures NumberOf(changes[j]) != no
          {
            assert j < |init| ==> changes[j] == init[j];
          }
        }
      }
    }
  }

  /** `m` holds exactly the ports last set, and not dropped since. */
  ghost predicate LastWins(m: map<nat, Port>, changes: seq<Change>) {
    forall no {:trigger Latest(changes, no)} ::
      if no in m then Latest(changes, no) == Some(Set(m[no])) else Latest(changes, no) in {None, Some(Drop(no))}
  }

  lemma LastWinsNext(m: map<nat, Port>, changes: seq<Change>, c: Change)
    requires LastWins(m, changes)
    ensures LastWins(Apply(m, c), changes + [c])
  {
    assert (changes + [c])[..|changes|] == changes;
    forall no
      ensures Latest(changes + [c], no) == if NumberOf(c) == no then Some(c) else Latest(changes, no)
    {
    }
  }

  lemma {:induction false} LastWinsAdd(m: map<nat, Port>, changes: seq<Change>, more: seq<Port>)
    requires LastWins(m, changes)
    ensures LastWins(AddPorts(m, more), changes + Sets(more))
    decreases |more|
  {
    hide LastWins;
    if more == [] {
      assert changes + Sets(more) == changes;
    } else {
      LastWinsNext(m, changes, Set(more[0]));
      LastWinsAdd(m[more[0].no := more[0]], changes + [Set(more[0])], more[1..]);
      assert changes + [Set(more[0])] + Sets(more[1..]) == changes + Sets(more);
    }
  }

  // -- what every step keeps --------------------------------------------------------------

  predicate FinalPart(msg: Msg) { msg.PortDesc? && !msg.more }

  /** A log in which every message is stamped with the phase observers were last
      told of, except that a change to MAIN is followed at once by the message that
      completes the handshake, stamped CONFIG as it was received. */
  predicate Stamped(log: seq<Published>)
    decreases |log|
  {
    if |log| <= 1 then log == [PhaseChanged(Negotiating)]
    else
      var init := log[..|log| - 1];
      match log[|log| - 1]
      case PhaseChanged(phase) => phase != Main && Stamped(init)
      case PortChanged(_) => Stamped(init)
      case Delivered(msg, phase) =>
        || (phase == PhaseOf(init) && Stamped(init))
        || (&& init[|init| - 1] == PhaseChanged(Main) && FinalPart(msg) && phase == Config
            && PhaseOf(init[..|init| - 1]) == Config && Stamped(init[..|init| - 1]))
  }

  /** The message that completes the handshake, right behind the change to MAIN. */
  ghost predicate Completes(log: seq<Published>, k: nat)
    requires 0 < k < |log|
  {
    && log[k - 1] == PhaseChanged(Main) && PhaseOf(log[..k - 1]) == Config
    && log[k].Delivered? && FinalPart(log[k].msg) && log[k].phase == Config
  }

  /** What `Stamped` says about the entry at any place. */
  lemma {:induction false} StampAt(log: seq<Published>, k: nat)
    requires Stamped(log) && k < |log|
    ensures log[k] == PhaseChanged(Main) ==> k + 1 < |log| && Completes(log, k + 1)
    ensures log[k].Delivered? ==> 0 < k && (log[k].phase == PhaseOf(log[..k]) || Completes(log, k))
    decreases |log|
  {
    if |log| > 1 {
      var init := log[..|log| - 1];
      assert init[..|init| - 1] == log[..|log| - 2];
      if k < |init| && Stamped(init) {
        StampAt(init, k);
        assert init[..k] == log[..k];
        assert 0 < k ==> init[..k - 1] == log[..k - 1];
      } else if k < |init| - 1 {
        var before := log[..|log| - 2];
        StampAt(before, k);
        assert before[..k] == log[..k];
        assert 0 < k ==> before[..k - 1] == log[..k - 1];
      }
    }
  }

  ghost predicate Inv(s: State) {
    && s.log != []
    && s.phase == PhaseOf(s.log)
    && s.id == IdOf(s.log)
    && LastWins(s.ports, Changes(s.log))
    && Stamped(s.log)
    && (PhaseChanged(Main) !in s.log ==> forall e | e in s.log :: !e.PortChanged?)
  }

  lemma {:induction false} PhaseWasPublished(log: seq<Published>)
    requires PhaseOf(log) == Main
    ensures PhaseChanged(Main) in log
  {
    if log != [] && !log[|log| - 1].PhaseChanged? {
      PhaseWasPublished(log[..|log| - 1]);
    }
  }

  lemma LogGrows(log: seq<Published>, e: Published)
    ensures PhaseOf(log + [e]) == if e.PhaseChanged? then e.phase else PhaseOf(log)
    ensures IdOf(log + [e]) == if e.Delivered? && e.msg.Features? then Some(e.msg.id) else IdOf(log)
    ensures Changes(log + [e]) == ChangesStep(Changes(log), e)
  {
    assert (log + [e])[..|log|] == log;
  }

  /** Appending one entry that is not a change to MAIN. */
  lemma StampedNext(log: seq<Published>, e: Published)
    requires Stamped(log)
    requires e != PhaseChanged(Main)
    requires e.Delivered? ==> e.phase == PhaseOf(log)
    ensures Stamped(log + [e])
  {
    hide PhaseOf;
    assert (log + [e])[..|log|] == log;
  }

  /** Appending a change to MAIN and the message that caused it. */
  lemma StampedCompletion(log: seq<Published>, msg: Msg)
    requires Stamped(log) && PhaseOf(log) == Config && FinalPart(msg)
    ensures Stamped(log + [PhaseChanged(Main)] + [Delivered(msg, Config)])
  {
    hide PhaseOf;
    var init := log + [PhaseChanged(Main)];
    assert (init + [Delivered(msg, Config)])[..|init|] == init;
    assert init[..|log|] == log;
  }

  lemma StepKeepsInv(s: State, step: Step)
    requires Inv(s)
    ensures Inv(Next(s, step))
  {
    hide LastWins, Stamped;
    match step
    case Receive(msg) =>
      DispatchKeepsInv(s, msg);
    case UsableHello =>
      LogGrows(s.log, PhaseChanged(Config));
      StampedNext(s.log, PhaseChanged(Config));
    case Close =>
      LogGrows(s.log, PhaseChanged(Dead));
      StampedNext(s.log, PhaseChanged(Dead));
    case HandleEvent =>
      HandleKeepsInv(s);
  }

  /** A port status the application may handle was stamped MAIN, so MAIN had been
      reached. */
  lemma HandleKeepsInv(s: State)
    requires Inv(s)
    ensures Inv(HandleNext(s))
  {
    hide LastWins, Stamped, PhaseOf, Changes, IdOf;
    if s.handled < |s.log| && Due(s).Some? {
      var e := PortChanged(Due(s).value);
      StampAt(s.log, s.handled);
      PhaseWasPublished(s.log[..s.handled]);
      LogGrows(s.log, e);
      StampedNext(s.log, e);
      LastWinsNext(s.ports, Changes(s.log), e.change);
    }
  }

  lemma DispatchKeepsInv(s: State, msg: Msg)
    requires Inv(s)
    ensures Inv(Dispatch(s, msg))
  {
    hide LastWins, Stamped, PhaseOf, Changes, IdOf;
    var e := Delivered(msg, s.phase);
    LogGrows(s.log, e);
    if msg.Features? {
      NoPorts();
    }
    if msg.PortDesc? && s.phase == Config {
      LastWinsAdd(s.ports, Changes(s.log), msg.ports);
    }
    if msg.PortDesc? && s.phase == Config && !msg.more {
      LogGrows(s.log, PhaseChanged(Main));
      LogGrows(s.log + [PhaseChanged(Main)], e);
      StampedCompletion(s.log, msg);
    } else {
      StampedNext(s.log, e);
    }
  }

  lemma NoPorts()
    ensures LastWins(map[], [])
  {
  }

  lemma {:induction false} RunKeepsInv(s: State, steps: seq<Step>)
    requires Inv(s)
    ensures Inv(Run(s, steps))
    decreases |steps|
  {
    hide Inv;
    if steps != [] {
      StepKeepsInv(s, steps[0]);
      RunKeepsInv(Next(s, steps[0]), steps[1..]);
    }
  }

  lemma StartInv()
    ensures Inv(START)
  {
    assert [PhaseChanged(Negotiating)][..0] == [];
    NoPorts();
  }

  /** Over every run, however hellos, closes and the handshake application fall
      between the messages: the phase only becomes MAIN by the last part of a port
      description received under CONFIG; at that moment `ports` holds what was last
      set since the last features reply, which the first time is the last-wins union
      of all parts received under CONFIG; and observers see the change to MAIN, right
      behind it that part stamped CONFIG, and the next message, unless another thread
      moves the phase first, stamped MAIN. */
  lemma MainOnlyByPortDescription(steps: seq<Step>, step: Step)
    requires var s := Run(START, steps); s.phase != Main && Next(s, step).phase == Main
    ensures var s := Run(START, steps);
            var t := Next(s, step);
            && s.phase == Config && step.Receive? && step.msg.PortDesc? && !step.msg.more
            && LastWins(t.ports, Changes(s.log) + Sets(step.msg.ports))
            && (PhaseChanged(Main) !in s.log ==> forall e | e in s.log :: !e.PortChanged?)
            && t.log == s.log + [PhaseChanged(Main), Delivered(step.msg, Config)]
            && forall msg :: Next(t, Receive(msg)).log == t.log + [Delivered(msg, Main)]
  {
    hide LastWins, Stamped;
    StartInv();
    RunKeepsInv(START, steps);
    var s := Run(START, steps);
    LastWinsAdd(s.ports, Changes(s.log), step.msg.ports);
  }

  /** The log of every run: phase, id and `ports` are determined by what was
      published, and each stamp by the phase changes published before it. */
  lemma LogExplainsChannel(steps: seq<Step>, k: nat)
    requires k < |Run(START, steps).log|
    ensures var s := Run(START, steps);
            && s.phase == PhaseOf(s.log) && s.id == IdOf(s.log)
            && LastWins(s.ports, Changes(s.log))
            && (s.log[k] == PhaseChanged(Main) ==> k + 1 < |s.log| && Completes(s.log, k + 1))
            && (s.log[k].Delivered? ==> 0 < k && (s.log[k].phase == PhaseOf(s.log[..k]) || Completes(s.log, k)))
  {
    hide LastWins, Stamped, Completes;
    StartInv();
    RunKeepsInv(START, steps);
    StampAt(Run(START, steps).log, k);
  }

  // -- the datapath -------------------------------------------------------------------------

  class Datapath {
    var state: Phase
    var id: Option<nat>
    var ports: map<nat, Port>
    var published: seq<Published>
    var handled: nat

    ghost function View(): State
      reads this
    {
      State(state, id, ports, published, handled)
    }

    constructor ()
      ensures View() == START
    {
      state, id, ports, published, handled := Negotiating, None, map[], [PhaseChanged(Negotiating)], 0;
    }

    /** `set_state`. */
    method SetPhase(phase: Phase)
      modifies this`state, this`published
      ensures View() == SetState(old(View()), phase)
    {
      if state == phase {
        return;
      }
      state := phase;
      published := published + [PhaseChanged(phase)];
    }

    /** `_absorb`. */
    method AbsorbMessage(msg: Msg)
      modifies this
      ensures View() == Absorb(old(View()), msg)
    {
      match msg {
        case Features(dpid) =>
          id, ports := Some(dpid), map[];
        case PortDesc(body, more) =>
          if state == Config {
            ghost var before := ports;
            for i := 0 to |body|
              invariant state == old(state) && id == old(id) && published == old(published) && handled == old(handled)
              invariant AddPorts(ports, body[i..]) == AddPorts(before, body)
            {
              assert body[i..][0] == body[i] && body[i..][1..] == body[i + 1..];
              ports := ports[body[i].no := body[i]];
            }
            if !more {
              SetPhase(Main);
            }
          }
        case PortStatus(_) =>
        case OtherMsg(_) =>
      }
    }

    /** `_dispatch`. */
    method DispatchMessage(msg: Msg)
      modifies this
      ensures View() == Dispatch(old(View()), msg)
    {
      var stamp := state;
      AbsorbMessage(msg);
      published := published + [Delivered(msg, stamp)];
    }

    /** `OFPHandler.port_status_handler` on the next event of the application's
        queue; events of other classes and phases do not reach it. */
    method HandleQueued()
      modifies this
      ensures View() == HandleNext(old(View()))
    {
      if handled >= |published| {
        return;
      }
      var e := published[handled];
      handled := handled + 1;
      if e.Delivered? && e.msg.PortStatus? && e.phase == Main && e.msg.change.Some? {
        match e.msg.change.value {
          case Set(port) => ports := ports[port.no := port];
          case Drop(no) => ports := ports - {no};
        }
        published := published + [PortChanged(e.msg.change.value)];
      }
    }
  }
}
