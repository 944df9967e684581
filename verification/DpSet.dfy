/** The set of connected datapaths, over every run of connects, reconnects, late
    disconnects and port changes. */
module DpSet {
  import opened Bytes
  import Handshake

  type Port = Handshake.Port

  /** A connection: the datapath id it carries throughout, and which connection. */
  datatype Conn = Conn(id: nat, serial: nat)

  type Ports = map<nat, Port>

  /** What DPSet publishes. */
  datatype Notice =
    | Enter(conn: Conn, ports: Ports)
    | Leave(conn: Conn, ports: Ports)
    | Reconnected(conn: Conn, ports: Ports)
    | PortAdded(conn: Conn, port: Port)
    | PortDeleted(conn: Conn, port: Port)
    | PortModified(conn: Conn, port: Port)

  /** Port status reasons; any other is ignored. */
  datatype Reason = Add | Delete | Modify | Unknown

  datatype State = State(dps: map<nat, Conn>, portState: map<nat, Ports>, log: seq<Notice>, closed: seq<Conn>)

  /** Events delivered to DPSet: a connection reaching MAIN with the ports it has
      collected, or going DEAD, or reporting a port change. */
  datatype Step =
    | ReachedMain(conn: Conn, ports: Ports)
    | WentDead(conn: Conn)
    | PortStatus(conn: Conn, reason: Reason, port: Port)

  /** A datapath files its ports under their numbers. */
  predicate Enabled(step: Step) {
    step.ReachedMain? ==> forall no | no in step.ports :: step.ports[no].no == no
  }

  const START := State(map[], map[], [], [])

  /** `_register`. */
  function Register(s: State, conn: Conn, ports: Ports): State {
    var reconnected := conn.id in s.dps;
    var s1 := if reconnected then s.(closed := s.closed + [s.dps[conn.id]]) else s;
    var s2 := s1.(dps := s1.dps[conn.id := conn]);
    var s3 := if conn.id in s2.portState then s2
              else s2.(portState := s2.portState[conn.id := ports], log := s2.log + [Enter(conn, ports)]);
    if reconnected then s3.(log := s3.log + [Reconnected(conn, s3.portState[conn.id])]) else s3
  }

  /** `_unregister`: only the connection that is registered counts. */
  function Unregister(s: State, conn: Conn): State {
    if conn !in s.dps.Values then s
    else
      var ports := if conn.id in s.portState then s.portState[conn.id] else map[];
      s.(dps := s.dps - {conn.id}, portState := s.portState - {conn.id}, log := s.log + [Leave(conn, ports)])
  }

  function SetPorts(s: State, id: nat, ports: Ports, notice: Notice): State {
    s.(portState := s.portState[id := ports], log := s.log + [notice])
  }

  /** `port_status_handler`. A change for an id or a port that is not there raises
      KeyError, which leaves everything as it was. */
  function PortChange(s: State, conn: Conn, reason: Reason, port: Port): State {
    if conn.id !in s.portState then s
    else
      var ports := s.portState[conn.id];
      match reason
      case Add => SetPorts(s, conn.id, ports[port.no := port], PortAdded(conn, port))
      case Delete => if port.no in ports then SetPorts(s, conn.id, ports - {port.no}, PortDeleted(conn, port)) else s
      case Modify => SetPorts(s, conn.id, ports[port.no := port], PortModified(conn, port))
      case Unknown => s
  }

  function Next(s: State, step: Step): State {
    match step
    case ReachedMain(conn, ports) => Register(s, conn, ports)
    case WentDead(conn) => Unregister(s, conn)
    case PortStatus(conn, reason, port) => PortChange(s, conn, reason, port)
  }

  function Run(s: State, steps: seq<Step>): State
    decreases |steps|
  {
    if steps == [] then s else Run(Next(s, steps[0]), steps[1..])
  }

  // -- reading the log --------------------------------------------------------------------

  /** One datapath as an observer knows it: away, connected with these ports, or
      told something that does not fit what it was told before. */
  datatype View = Away | Connected(ports: Ports) | Nonsense

  /** What one notice does to the view of datapath `id`. Entering twice, leaving or
      reconnecting or changing ports while away, deleting an unknown port, leaving
      or reconnecting with other ports than those known: none of it makes sense. */
  function Observe(v: View, n: Notice, id: nat): View {
    if n.conn.id != id || v.Nonsense? then v
    else match n
      case Enter(_, ports) => if v.Away? then Connected(ports) else Nonsense
      case Leave(_, ports) => if v == Connected(ports) then Away else Nonsense
      case Reconnected(_, ports) => if v == Connected(ports) then v else Nonsense
      case PortAdded(_, port) => if v.Connected? then Connected(v.ports[port.no := port]) else Nonsense
      case PortDeleted(_, port) =>
        if v.Connected? && port.no in v.ports then Connected(v.ports - {port.no}) else Nonsense
      case PortModified(_, port) => if v.Connected? then Connected(v.ports[port.no := port]) else Nonsense
  }

  function Account(v: View, log: seq<Notice>, id: nat): View {
    if log == [] then v else Observe(Account(v, log[..|log| - 1], id), log[|log| - 1], id)
  }

  /** What DPSet itself holds for `id`. */
  function Held(s: State, id: nat): View {
    if id in s.portState then Connected(s.portState[id]) else Away
  }

  lemma AccountNext(v: View, log: seq<Notice>, n: Notice, id: nat)
    ensures Account(v, log + [n], id) == Observe(Account(v, log, id), n, id)
  {
    assert (log + [n])[..|log|] == log;
  }

  ghost predicate Inv(s: State) {
    && s.dps.Keys == s.portState.Keys
    && (forall id | id in s.dps :: s.dps[id].id == id)
    && (forall id :: Account(Away, s.log, id) == Held(s, id))
  }

  /** A connection replaced by another is nowhere in the set. */
  lemma ReplacedIsAbsent(s: State, conn: Conn)
    requires forall id | id in s.dps :: s.dps[id].id == id
    ensures conn in s.dps.Values <==> conn.id in s.dps && s.dps[conn.id] == conn
  {
  }

  /** A change that concerns one datapath, published as one notice. */
  lemma NoticeKeepsAccount(s: State, t: State, n: Notice)
    requires forall id :: Account(Away, s.log, id) == Held(s, id)
    requires t.log == s.log + [n]
    requires Observe(Held(s, n.conn.id), n, n.conn.id) == Held(t, n.conn.id)
    requires forall id | id != n.conn.id :: Held(t, id) == Held(s, id)
    ensures forall id :: Account(Away, t.log, id) == Held(t, id)
  {
    hide Held, Account;
    forall id
      ensures Account(Away, t.log, id) == Held(t, id)
    {
      AccountNext(Away, s.log, n, id);
    }
  }

  lemma RegisterKeepsInv(s: State, conn: Conn, ports: Ports)
    requires Inv(s)
    ensures Inv(Register(s, conn, ports))
  {
    hide Account;
    var t := Register(s, conn, ports);
    var n := if conn.id in s.dps then Reconnected(conn, s.portState[conn.id]) else Enter(conn, ports);
    NoticeKeepsAccount(s, t, n);
  }

  lemma UnregisterKeepsInv(s: State, conn: Conn)
    requires Inv(s)
    ensures Inv(Unregister(s, conn))
  {
    hide Account;
    ReplacedIsAbsent(s, conn);
    if conn in s.dps.Values {
      NoticeKeepsAccount(s, Unregister(s, conn), Leave(conn, s.portState[conn.id]));
    }
  }

  lemma PortChangeKeepsInv(s: State, conn: Conn, reason: Reason, port: Port)
    requires Inv(s)
    ensures Inv(PortChange(s, conn, reason, port))
  {
    hide Account;
    var t := PortChange(s, conn, reason, port);
    if t.log != s.log {
      NoticeKeepsAccount(s, t, t.log[|s.log|]);
    }
  }

  lemma StepKeepsInv(s: State, step: Step)
    requires Inv(s) && Enabled(step)
    ensures Inv(Next(s, step))
  {
    hide Inv, Register, Unregister, PortChange;
    match step
    case ReachedMain(conn, ports) => RegisterKeepsInv(s, conn, ports);
    case WentDead(conn) => UnregisterKeepsInv(s, conn);
    case PortStatus(conn, reason, port) => PortChangeKeepsInv(s, conn, reason, port);
  }

  lemma {:induction false} RunKeepsInv(s: State, steps: seq<Step>)
    requires Inv(s) && forall step | step in steps :: Enabled(step)
    ensures Inv(Run(s, steps))
    decreases |steps|
  {
    hide Inv, Enabled;
    if steps != [] {
      StepKeepsInv(s, steps[0]);
      RunKeepsInv(Next(s, steps[0]), steps[1..]);
    }
  }

  /** Over every run: `dps` and `port_state` have the same keys, each connection is
      filed under its own id, and the notices published so far make sense for every
      datapath and add up to exactly the ports held for it. */
  lemma EveryRun(steps: seq<Step>, id: nat)
    requires forall step | step in steps :: Enabled(step)
    ensures var s := Run(START, steps);
            && s.dps.Keys == s.portState.Keys
            && (id in s.dps ==> s.dps[id].id == id)
            && Account(Away, s.log, id) == Held(s, id)
            && Account(Away, s.log, id) != Nonsense
  {
    hide Enabled;
    RunKeepsInv(START, steps);
  }

  /** The DEAD of a connection that has been replaced changes nothing. */
  lemma LateDeadIgnored(steps: seq<Step>, conn: Conn)
    requires forall step | step in steps :: Enabled(step)
    requires var s := Run(START, steps); conn.id in s.dps && s.dps[conn.id] != conn
    ensures Next(Run(START, steps), WentDead(conn)) == Run(START, steps)
  {
    hide Enabled;
    RunKeepsInv(START, steps);
    ReplacedIsAbsent(Run(START, steps), conn);
  }

  // -- connections, as the log tells them ---------------------------------------------------

  /** The connection observers believe to hold `id`. */
  function Holder(log: seq<Notice>, id: nat): Option<Conn> {
    if log == [] then None
    else
      var n := log[|log| - 1];
      if n.conn.id == id && (n.Enter? || n.Reconnected?) then Some(n.conn)
      else if n.conn.id == id && n.Leave? then None
      else Holder(log[..|log| - 1], id)
  }

  /** The connections that a reconnect put another in the place of, in order. */
  function Superseded(log: seq<Notice>): seq<Conn> {
    if log == [] then []
    else
      var init, n := log[..|log| - 1], log[|log| - 1];
      var before := if n.Reconnected? then Holder(init, n.conn.id) else None;
      match before
      case Some(c) => Superseded(init) + [c]
      case None => Superseded(init)
  }

  ghost predicate ConnInv(s: State) {
    && (forall id :: Holder(s.log, id) == if id in s.dps then Some(s.dps[id]) else None)
    && s.closed == Superseded(s.log)
  }

  lemma HolderNext(log: seq<Notice>, n: Notice, id: nat)
    ensures Holder(log + [n], id)
         == if n.conn.id == id && (n.Enter? || n.Reconnected?) then Some(n.conn)
            else if n.conn.id == id && n.Leave? then None else Holder(log, id)
    ensures Superseded(log + [n]) == if n.Reconnected? && Holder(log, n.conn.id).Some?
                                     then Superseded(log) + [Holder(log, n.conn.id).value] else Superseded(log)
  {
    assert (log + [n])[..|log|] == log;
  }

  lemma StepKeepsConnInv(s: State, step: Step)
    requires Inv(s) && ConnInv(s)
    ensures ConnInv(Next(s, step))
  {
    hide Account, Holder, Superseded;
    var t := Next(s, step);
    if t.log != s.log {
      var n := t.log[|s.log|];
      assert t.log == s.log + [n];
      forall id
        ensures Holder(t.log, id) == if id in t.dps then Some(t.dps[id]) else None
      {
        HolderNext(s.log, n, id);
      }
      HolderNext(s.log, n, 0);
    }
  }

  lemma {:induction false} RunKeepsConnInv(s: State, steps: seq<Step>)
    requires Inv(s) && ConnInv(s) && forall step | step in steps :: Enabled(step)
    ensures ConnInv(Run(s, steps))
    decreases |steps|
  {
    hide Inv, ConnInv, Enabled;
    if steps != [] {
      StepKeepsInv(s, steps[0]);
      StepKeepsConnInv(s, steps[0]);
      RunKeepsConnInv(Next(s, steps[0]), steps[1..]);
    }
  }

  /** Over every run: the connection held for a datapath is the last one announced,
      and the connections closed are exactly those a reconnect has superseded. */
  lemma SupersededAreClosed(steps: seq<Step>, id: nat)
    requires forall step | step in steps :: Enabled(step)
    ensures var s := Run(START, steps);
            && s.closed == Superseded(s.log)
            && Holder(s.log, id) == if id in s.dps then Some(s.dps[id]) else None
  {
    hide Enabled;
    RunKeepsConnInv(START, steps);
  }

  // -- the events of one datapath ----------------------------------------------------------

  /** Notices of connecting and disconnecting, as opposed to ports. */
  predicate Milestone(n: Notice, id: nat) {
    n.conn.id == id && (n.Enter? || n.Leave? || n.Reconnected?)
  }

  function Milestones(log: seq<Notice>, id: nat): seq<Notice> {
    if log == [] then []
    else if Milestone(log[|log| - 1], id) then Milestones(log[..|log| - 1], id) + [log[|log| - 1]]
    else Milestones(log[..|log| - 1], id)
  }

  /** (enter, reconnected*, leave)*, the last round possibly unfinished. */
  predicate Rounds(ns: seq<Notice>, connected: bool) {
    if ns == [] then !connected
    else
      var init := ns[..|ns| - 1];
      match ns[|ns| - 1]
      case Enter(_, _) => connected && Rounds(init, false)
      case Reconnected(_, _) => connected && Rounds(init, true)
      case Leave(_, _) => !connected && Rounds(init, true)
      case _ => false
  }

  lemma {:induction false} AccountPrefix(log: seq<Notice>, k: nat, id: nat)
    requires k <= |log| && Account(Away, log, id) != Nonsense
    ensures Account(Away, log[..k], id) != Nonsense
    decreases |log|
  {
    if k == |log| {
      assert log[..k] == log;
    } else {
      AccountPrefix(log[..|log| - 1], k, id);
      assert log[..|log| - 1][..k] == log[..k];
    }
  }

  lemma {:induction false} AccountRounds(log: seq<Notice>, id: nat)
    requires Account(Away, log, id) != Nonsense
    ensures Rounds(Milestones(log, id), Account(Away, log, id).Connected?)
    decreases |log|
  {
    if log != [] {
      var init, last := log[..|log| - 1], log[|log| - 1];
      AccountRounds(init, id);
      if Milestone(last, id) {
        assert Milestones(log, id)[..|Milestones(init, id)|] == Milestones(init, id);
      }
    }
  }

  /** For each datapath the milestones published form (enter, reconnected*, leave)*,
      and the datapath is in the set exactly when the last round is unfinished. */
  lemma MilestonesAreRounds(steps: seq<Step>, id: nat)
    requires forall step | step in steps :: Enabled(step)
    ensures var s := Run(START, steps); Rounds(Milestones(s.log, id), id in s.dps)
  {
    EveryRun(steps, id);
    AccountRounds(Run(START, steps).log, id);
  }

  /** Port changes applied to a snapshot. */
  function Fold(ports: Ports, log: seq<Notice>, id: nat): Ports {
    if log == [] then ports
    else
      var before := Fold(ports, log[..|log| - 1], id);
      var n := log[|log| - 1];
      if n.conn.id != id then before
      else match n
        case PortAdded(_, port) => before[port.no := port]
        case PortModified(_, port) => before[port.no := port]
        case PortDeleted(_, port) => before - {port.no}
        case _ => before
  }

  /** The entry that opened the round still open at the end of the log. */
  lemma {:induction false} OpenRound(log: seq<Notice>, id: nat) returns (j: nat)
    requires Account(Away, log, id).Connected?
    ensures j < |log| && log[j].Enter? && log[j].conn.id == id
    ensures forall i | j < i < |log| :: !(log[i].conn.id == id && (log[i].Enter? || log[i].Leave?))
    ensures Account(Away, log, id).ports == Fold(log[j].ports, log[j + 1..], id)
    decreases |log|
  {
    var init, last := log[..|log| - 1], log[|log| - 1];
    if last.conn.id == id && last.Enter? {
      j := |log| - 1;
      assert log[j + 1..] == [];
    } else {
      j := OpenRound(init, id);
      assert log[j + 1..][..|log[j + 1..]| - 1] == init[j + 1..];
    }
  }

  /** Every leave reports exactly the ports of the enter that opened its round with
      the ports added, modified and deleted since. */
  lemma LeaveReportsPorts(steps: seq<Step>, k: nat) returns (j: nat)
    requires forall step | step in steps :: Enabled(step)
    requires k < |Run(START, steps).log| && Run(START, steps).log[k].Leave?
    ensures var log := Run(START, steps).log;
            var id := log[k].conn.id;
            && j < k && log[j].Enter? && log[j].conn.id == id
            && (forall i | j < i < k :: !(log[i].conn.id == id && (log[i].Enter? || log[i].Leave?)))
            && log[k].ports == Fold(log[j].ports, log[j + 1..k], id)
  {
    var log := Run(START, steps).log;
    var id := log[k].conn.id;
    EveryRun(steps, id);
    AccountPrefix(log, k + 1, id);
    assert log[..k + 1][..k] == log[..k];
    j := OpenRound(log[..k], id);
    assert log[..k][j + 1..] == log[j + 1..k];
  }

  // -- the application ----------------------------------------------------------------------

  class DPSet {
    var dps: map<nat, Conn>
    var portState: map<nat, Ports>
    var published: seq<Notice>
    var closed: seq<Conn>

    ghost function Snapshot(): State
      reads this
    {
      State(dps, portState, published, closed)
    }

    constructor ()
      ensures Snapshot() == START
    {
      dps, portState, published, closed := map[], map[], [], [];
    }

    /** `_register`: the ports are added one by one. */
    method RegisterConn(conn: Conn, ports: Ports)
      requires forall no | no in ports :: ports[no].no == no
      modifies this
      ensures Snapshot() == Register(old(Snapshot()), conn, ports)
    {
      var reconnected := conn.id in dps;
      if reconnected {
        closed := closed + [dps[conn.id]];
      }
      dps := dps[conn.id := conn];
      if conn.id !in portState {
        var added: Ports := map[];
        var todo := ports.Keys;
        while todo != {}
          invariant dps == old(dps)[conn.id := conn] && portState == old(portState) && published == old(published)
          invariant closed == if reconnected then old(closed) + [old(dps)[conn.id]] else old(closed)
          invariant todo <= ports.Keys && added.Keys == ports.Keys - todo
          invariant forall no | no in added :: added[no] == ports[no]
          decreases |todo|
        {
          var no :| no in todo;
          added := added[ports[no].no := ports[no]];
          todo := todo - {no};
        }
        assert added == ports;
        portState := portState[conn.id := added];
        published := published + [Enter(conn, added)];
      }
      if reconnected {
        published := published + [Reconnected(conn, portState[conn.id])];
      }
    }

    /** `_unregister`. */
    method UnregisterConn(conn: Conn)
      modifies this
      ensures Snapshot() == Unregister(old(Snapshot()), conn)
    {
      if conn !in dps.Values {
        return;
      }
      var ports := if conn.id in portState then portState[conn.id] else map[];
      published := published + [Leave(conn, ports)];
      dps := dps - {conn.id};
      portState := portState - {conn.id};
    }

    /** `port_status_handler`; the result is whether it raised KeyError. */
    method HandlePortStatus(conn: Conn, reason: Reason, port: Port) returns (keyError: bool)
      modifies this
      ensures Snapshot() == PortChange(old(Snapshot()), conn, reason, port)
      ensures keyError ==> reason != Unknown && Snapshot() == old(Snapshot())
      ensures !keyError && reason != Unknown ==> |published| == |old(published)| + 1
    {
      if reason == Unknown {
        return false;
      }
      if conn.id !in portState || (reason == Delete && port.no !in portState[conn.id]) {
        return true;
      }
      var ports := portState[conn.id];
      match reason {
        case Add =>
          portState := portState[conn.id := ports[port.no := port]];
          published := published + [PortAdded(conn, port)];
        case Delete =>
          portState := portState[conn.id := ports - {port.no}];
          published := published + [PortDeleted(conn, port)];
        case Modify =>
          portState := portState[conn.id := ports[port.no := port]];
          published := published + [PortModified(conn, port)];
        case Unknown =>
      }
      keyError := false;
    }
  }
}
