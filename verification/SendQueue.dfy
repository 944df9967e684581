/** A datapath's send queue: any number of threads queueing, one thread writing to
    the socket, in every interleaving. */
module SendQueue {
  import opened Bytes

  /** A queued buffer and whether the connection ends behind it; no buffer is the
      sentinel of `close`. */
  datatype Item = Item(buf: Option<seq<byte>>, close: bool)

  const SENTINEL := Item(None, false)

  /** Where the writer is: in `get()`, in `sendall`, in the `finally` clause, gone. */
  datatype Pc = Getting | Sending(item: Item) | Closing | Done

  /** Everything ever queued, how much of it the writer has taken, whether `send_q`
      still refers to the queue, the items of threads that have read `send_q` but
      not yet put, what the socket was given, and whether a socket call raised. */
  datatype State = State(
    queued: seq<Item>,
    taken: nat,
    open: bool,
    promised: multiset<Item>,
    pc: Pc,
    written: seq<byte>,
    failed: bool)

  /** Atomic steps: `send` and `close` read `send_q` and later put; the writer takes
      an item, has it written, fails after `n` octets of it, and clears up. */
  datatype Step = ReadQueue(item: Item) | PutItem(item: Item) | Take | Write | Fail(n: nat) | Finish

  predicate Enabled(s: State, step: Step) {
    match step
    case ReadQueue(_) => s.open
    case PutItem(item) => item in s.promised
    case Take => s.pc.Getting? && s.taken < |s.queued|
    case Write => s.pc.Sending? && s.pc.item.buf.Some?
    case Fail(n) => s.pc.Sending? && s.pc.item.buf.Some? && n <= |s.pc.item.buf.value|
    case Finish => s.pc.Closing?
  }

  function Next(s: State, step: Step): State
    requires Enabled(s, step)
  {
    match step
    case ReadQueue(item) => s.(promised := s.promised + multiset{item})
    case PutItem(item) => s.(promised := s.promised - multiset{item}, queued := s.queued + [item])
    case Take =>
      var item := s.queued[s.taken];
      s.(taken := s.taken + 1, pc := if item.buf.None? then Closing else Sending(item))
    case Write =>
      s.(written := s.written + s.pc.item.buf.value, pc := if s.pc.item.close then Closing else Getting)
    case Fail(n) => s.(written := s.written + s.pc.item.buf.value[..n], failed := true, pc := Closing)
    case Finish => s.(open := false, pc := Done)
  }

  const START := State([], 0, true, multiset{}, Getting, [], false)

  predicate Possible(s: State, steps: seq<Step>)
    decreases |steps|
  {
    steps == [] || (Enabled(s, steps[0]) && Possible(Next(s, steps[0]), steps[1..]))
  }

  function Run(s: State, steps: seq<Step>): State
    requires Possible(s, steps)
    decreases |steps|
  {
    if steps == [] then s else Run(Next(s, steps[0]), steps[1..])
  }

  /** What the writer stops at: the sentinel, or a buffer sent with `close_socket`. */
  predicate Terminator(item: Item) {
    item.buf.None? || item.close
  }

  predicate NoTerminator(items: seq<Item>) {
    forall item | item in items :: !Terminator(item)
  }

  lemma NoTerminatorAt(items: seq<Item>, n: nat)
    requires n <= |items|
    ensures NoTerminator(items[..n]) <==> forall i | 0 <= i < n :: !Terminator(items[i])
  {
    forall i | 0 <= i < n
      ensures items[i] in items[..n]
    {
      assert items[..n][i] == items[i];
    }
  }

  /** The octets of queued items, back to back. */
  function Octets(items: seq<Item>): seq<byte> {
    if items == [] then [] else OwnOctets(items[0]) + Octets(items[1..])
  }

  function OwnOctets(item: Item): seq<byte> {
    match item.buf case Some(b) => b case None => []
  }

  lemma OctetsNone(items: seq<Item>)
    requires items == []
    ensures Octets(items) == []
  {
  }

  lemma OctetsCons(item: Item, items: seq<Item>)
    ensures Octets([item] + items) == OwnOctets(item) + Octets(items)
  {
    assert ([item] + items)[1..] == items;
  }

  lemma {:induction false} OctetsConcat(a: seq<Item>, b: seq<Item>)
    ensures Octets(a + b) == Octets(a) + Octets(b)
  {
    hide Octets;
    if a == [] {
      assert a + b == b;
      OctetsNone(a);
      assert [] + Octets(b) == Octets(b);
    } else {
      OctetsConcat(a[1..], b);
      OctetsCons(a[0], a[1..] + b);
      OctetsCons(a[0], a[1..]);
      assert a + b == [a[0]] + (a[1..] + b) && a == [a[0]] + a[1..];
      assert OwnOctets(a[0]) + (Octets(a[1..]) + Octets(b)) == OwnOctets(a[0]) + Octets(a[1..]) + Octets(b);
    }
  }

  lemma OctetsSnoc(items: seq<Item>, n: nat)
    requires n < |items|
    ensures items[..n + 1] == items[..n] + [items[n]]
    ensures Octets(items[..n + 1]) == Octets(items[..n]) + Octets([items[n]])
  {
    assert items[..n + 1] == items[..n] + [items[n]];
    OctetsConcat(items[..n], [items[n]]);
  }

  /** What every step keeps. */
  ghost predicate Inv(s: State) {
    && s.taken <= |s.queued|
    && (s.open <==> !s.pc.Done?)
    && (s.pc.Getting? ==>
          && !s.failed && NoTerminator(s.queued[..s.taken])
          && s.written == Octets(s.queued[..s.taken]))
    && (!s.pc.Getting? ==> s.taken > 0 && NoTerminator(s.queued[..s.taken - 1]))
    && (s.pc.Sending? ==>
          && !s.failed && s.pc.item == s.queued[s.taken - 1] && s.pc.item.buf.Some?
          && s.written == Octets(s.queued[..s.taken - 1]))
    && ((s.pc.Closing? || s.pc.Done?) && !s.failed ==>
          && Terminator(s.queued[s.taken - 1])
          && s.written == Octets(s.queued[..s.taken]))
    && ((s.pc.Closing? || s.pc.Done?) && s.failed ==>
          && Octets(s.queued[..s.taken - 1]) <= s.written
          && s.written <= Octets(s.queued[..s.taken]))
  }

  lemma StepKeepsInv(s: State, step: Step)
    requires Inv(s) && Enabled(s, step)
    ensures Inv(Next(s, step))
  {
    var t := Next(s, step);
    match step
    case ReadQueue(_) =>
    case PutItem(item) =>
      assert t.queued[..s.taken] == s.queued[..s.taken];
      assert s.taken > 0 ==> t.queued[..s.taken - 1] == s.queued[..s.taken - 1];
    case Take =>
      OctetsSnoc(s.queued, s.taken);
    case Write =>
      OctetsSnoc(s.queued, s.taken - 1);
      assert Octets([s.pc.item]) == s.pc.item.buf.value + Octets([]);
    case Fail(n) =>
      OctetsSnoc(s.queued, s.taken - 1);
      assert Octets([s.pc.item]) == s.pc.item.buf.value + Octets([]);
    case Finish =>
  }

  lemma {:induction false} RunKeepsInv(s: State, steps: seq<Step>)
    requires Inv(s) && Possible(s, steps)
    ensures Inv(Run(s, steps))
    decreases |steps|
  {
    if steps != [] {
      StepKeepsInv(s, steps[0]);
      RunKeepsInv(Next(s, steps[0]), steps[1..]);
    }
  }

  /** The socket was given the first `n` items whole and at most a part of the
      next, with no terminator among the `n`. */
  ghost predicate WrittenUpTo(s: State, n: nat) {
    && n <= |s.queued|
    && NoTerminator(s.queued[..n])
    && Octets(s.queued[..n]) <= s.written
    && s.written <= Octets(s.queued[..if n < |s.queued| then n + 1 else n])
  }

  /** In every interleaving what the socket was given is a prefix of the queue's
      history, and none of it stood behind the first terminator. */
  lemma WrittenIsPrefix(steps: seq<Step>) returns (n: nat)
    requires Possible(START, steps)
    ensures WrittenUpTo(Run(START, steps), n)
  {
    RunKeepsInv(START, steps);
    var s := Run(START, steps);
    n := if s.pc.Getting? then s.taken else s.taken - 1;
    if n < |s.queued| {
      OctetsSnoc(s.queued, n);
    }
  }

  /** Without a socket error the writer stops exactly at the first terminator, with
      everything queued up to it written and nothing else; so an item was written
      if and only if no terminator stood ahead of it in the queue. */
  lemma WriterStopsAtTerminator(steps: seq<Step>, i: nat)
    requires Possible(START, steps)
    requires var s := Run(START, steps); s.pc.Done? && !s.failed && i < |s.queued|
    ensures var s := Run(START, steps);
            && 0 < s.taken <= |s.queued|
            && Terminator(s.queued[s.taken - 1]) && NoTerminator(s.queued[..s.taken - 1])
            && s.written == Octets(s.queued[..s.taken])
            && (i < s.taken <==> NoTerminator(s.queued[..i]))
  {
    RunKeepsInv(START, steps);
    var s := Run(START, steps);
    if i < s.taken {
      assert s.queued[..i] <= s.queued[..s.taken - 1];
      forall item | item in s.queued[..i]
        ensures !Terminator(item)
      {
        assert item in s.queued[..s.taken - 1];
      }
    } else {
      assert s.queued[s.taken - 1] in s.queued[..i];
    }
  }

  /** A terminator in the queue keeps the writer from waiting for ever. */
  lemma WriterNotStuck(steps: seq<Step>)
    requires Possible(START, steps)
    requires !NoTerminator(Run(START, steps).queued)
    ensures var s := Run(START, steps);
            s.pc.Done? || Enabled(s, Take) || Enabled(s, Write) || Enabled(s, Finish)
  {
    RunKeepsInv(START, steps);
    var s := Run(START, steps);
    assert s.queued[..|s.queued|] == s.queued;
  }

  /** The error of `hello_failed`: queued with `close_socket` and followed by the
      sentinel of `close`, it is the last thing written whenever no other
      terminator was queued ahead of it. */
  lemma HelloFailedError(steps: seq<Step>, i: nat, error: seq<byte>)
    requires Possible(START, steps)
    requires var s := Run(START, steps); s.pc.Done? && !s.failed
    requires var s := Run(START, steps);
             i < |s.queued| && s.queued[i] == Item(Some(error), true) && NoTerminator(s.queued[..i])
    ensures var s := Run(START, steps); s.written == Octets(s.queued[..i]) + error
  {
    WriterStopsAtTerminator(steps, i);
    var s := Run(START, steps);
    NoTerminatorAt(s.queued, s.taken - 1);
    OctetsSnoc(s.queued, i);
    assert Octets([s.queued[i]]) == error + Octets([]);
  }

  /** `send` returning true is no promise: a buffer can follow a sentinel into the
      queue and never be written. */
  lemma SendMayBeLost(buf: seq<byte>)
    ensures exists steps :: Possible(START, steps)
                         && var s := Run(START, steps);
                            s.pc.Done? && !s.failed && Item(Some(buf), false) in s.queued && s.written == []
  {
    var item := Item(Some(buf), false);
    var s1 := Next(START, ReadQueue(SENTINEL));
    var s2 := Next(s1, PutItem(SENTINEL));
    var s3 := Next(s2, ReadQueue(item));
    var s4 := Next(s3, PutItem(item));
    var s5 := Next(s4, Take);
    var s6 := Next(s5, Finish);
    var steps := [ReadQueue(SENTINEL), PutItem(SENTINEL), ReadQueue(item), PutItem(item), Take, Finish];
    assert steps[1..] == [PutItem(SENTINEL), ReadQueue(item), PutItem(item), Take, Finish];
    assert steps[1..][1..] == [ReadQueue(item), PutItem(item), Take, Finish];
    assert steps[1..][1..][1..] == [PutItem(item), Take, Finish];
    assert steps[1..][1..][1..][1..] == [Take, Finish];
    assert steps[1..][1..][1..][1..][1..] == [Finish];
    assert steps[1..][1..][1..][1..][1..][1..] == [];
    assert Possible(s6, []) && Run(s6, []) == s6;
    assert Possible(s5, [Finish]) && Run(s5, [Finish]) == s6;
    assert Possible(s4, [Take, Finish]) && Run(s4, [Take, Finish]) == s6;
    assert Possible(s3, steps[1..][1..][1..]) && Run(s3, steps[1..][1..][1..]) == s6;
    assert Possible(s2, steps[1..][1..]) && Run(s2, steps[1..][1..]) == s6;
    assert Possible(s1, steps[1..]) && Run(s1, steps[1..]) == s6;
    assert Possible(START, steps) && Run(START, steps) == s6;
  }

  // -- the writer thread ---------------------------------------------------------------

  /** Index of the first terminator. */
  function FirstTerminator(items: seq<Item>): (n: nat)
    requires !NoTerminator(items)
    ensures n < |items| && Terminator(items[n]) && NoTerminator(items[..n])
  {
    if Terminator(items[0]) then
      assert NoTerminator(items[..0]);
      0
    else
      assert items == [items[0]] + items[1..];
      var n := FirstTerminator(items[1..]);
      assert NoTerminator(items[..n + 1]) by {
        NoTerminatorAt(items[1..], n);
        NoTerminatorAt(items, n + 1);
        assert forall i | 0 < i <= n :: items[i] == items[1..][i - 1];
      }
      n + 1
  }

  lemma FirstIs(items: seq<Item>, n: nat)
    requires n < |items| && Terminator(items[n]) && forall j | 0 <= j < n :: !Terminator(items[j])
    ensures !NoTerminator(items) && FirstTerminator(items) == n
  {
    assert items[n] in items;
    NoTerminatorAt(items, FirstTerminator(items));
  }

  lemma OctetsNext(items: seq<Item>, n: nat)
    requires n < |items|
    ensures Octets(items[..n + 1]) == Octets(items[..n]) + OwnOctets(items[n])
  {
    OctetsSnoc(items, n);
    assert OwnOctets(items[n]) + [] == OwnOctets(items[n]);
  }

  /** The octets of the items up to the first terminator and its own; of all, if there
      is none. */
  function Sent(items: seq<Item>): seq<byte> {
    if NoTerminator(items) then Octets(items) else Octets(items[..FirstTerminator(items) + 1])
  }

  lemma SentAll(items: seq<Item>)
    requires forall j | 0 <= j < |items| :: !Terminator(items[j])
    ensures NoTerminator(items) && Sent(items) == Octets(items[..|items|])
  {
    assert items[..|items|] == items;
    NoTerminatorAt(items, |items|);
  }

  lemma SentFirst(items: seq<Item>, n: nat)
    requires n < |items| && Terminator(items[n]) && forall j | 0 <= j < n :: !Terminator(items[j])
    ensures !NoTerminator(items) && Sent(items) == Octets(items[..n + 1])
  {
    FirstIs(items, n);
  }

  /** A thread that reads `send_q` and puts before anything else happens. */
  function Enqueue(s: State, item: Item): State
    requires s.open
  {
    Next(Next(s, ReadQueue(item)), PutItem(item))
  }

  lemma {:induction false} RunSnoc(s: State, steps: seq<Step>, step: Step)
    requires Possible(s, steps) && Enabled(Run(s, steps), step)
    ensures Possible(s, steps + [step]) && Run(s, steps + [step]) == Next(Run(s, steps), step)
    decreases |steps|
  {
    hide Next, Enabled;
    var all := steps + [step];
    if steps == [] {
      assert all[1..] == [];
    } else {
      assert all[0] == steps[0] && all[1..] == steps[1..] + [step];
      RunSnoc(Next(s, steps[0]), steps[1..], step);
    }
  }

  /** The writer back in `get`, one buffer written; or gone, the terminator's own
      buffer written. */
  function AfterItem(s: State): State
    requires s.taken < |s.queued|
  {
    var item := s.queued[s.taken];
    var t := s.(taken := s.taken + 1, written := s.written + OwnOctets(item));
    if Terminator(item) then t.(open := false, pc := Done) else t
  }

  predicate WritersOwn(steps: seq<Step>) {
    forall step | step in steps :: step == Take || step == Write || step == Finish
  }

  /** The writer's own steps lead from one state to another. */
  predicate Leads(first: State, steps: seq<Step>, s: State) {
    WritersOwn(steps) && Possible(first, steps) && Run(first, steps) == s
  }

  /** One turn of the writer's loop, step by step. */
  lemma ItemSteps(first: State, steps: seq<Step>, s: State) returns (more: seq<Step>)
    requires Leads(first, steps, s)
    requires s.pc.Getting? && s.taken < |s.queued|
    ensures Leads(first, more, AfterItem(s))
  {
    hide Possible, Run;
    var item := s.queued[s.taken];
    RunSnoc(first, steps, Take);
    more := steps + [Take];
    if item.buf.Some? {
      RunSnoc(first, more, Write);
      more := more + [Write];
    }
    if Terminator(item) {
      RunSnoc(first, more, Finish);
      more := more + [Finish];
    }
    assert s.written + [] == s.written;
  }

  class Channel {
    /** `send_q`, or None once the writer is gone. */
    var sendQ: Option<seq<Item>>
    var socket: seq<byte>
    /** The state of the step relation the methods have brought about. */
    ghost var run: State

    ghost predicate Valid()
      reads this
    {
      && (sendQ.Some? <==> run.open) && socket == run.written
      && run.taken <= |run.queued| && (sendQ.Some? ==> sendQ.value == run.queued[run.taken..])
    }

    constructor ()
      ensures Valid() && run == START && sendQ == Some([]) && socket == []
    {
      sendQ, socket := Some([]), [];
      run := START;
    }

    /** `q.put(item)`, if there still is a queue. */
    method Put(item: Item) returns (accepted: bool)
      requires Valid()
      modifies this`sendQ, this`run
      ensures Valid() && accepted == old(run).open
      ensures run == if accepted then Enqueue(old(run), item) else old(run)
      ensures sendQ == if accepted then Some(old(sendQ).value + [item]) else None
    {
      if sendQ.None? {
        return false;
      }
      sendQ := Some(sendQ.value + [item]);
      run := Enqueue(run, item);
      accepted := true;
    }

    /** `Datapath.send`. */
    method Send(buf: seq<byte>, closeSocket: bool) returns (accepted: bool)
      requires Valid()
      modifies this`sendQ, this`run
      ensures Valid() && accepted == old(run).open
      ensures run == if accepted then Enqueue(old(run), Item(Some(buf), closeSocket)) else old(run)
      ensures sendQ == if accepted then Some(old(sendQ).value + [Item(Some(buf), closeSocket)]) else None
    {
      accepted := Put(Item(Some(buf), closeSocket));
    }

    /** The queueing half of `Datapath.close`. */
    method Close()
      requires Valid()
      modifies this`sendQ, this`run
      ensures Valid() && run == if old(run).open then Enqueue(old(run), SENTINEL) else old(run)
      ensures sendQ == if old(sendQ).Some? then Some(old(sendQ).value + [SENTINEL]) else None
    {
      var _ := Put(SENTINEL);
    }

    /** `hello_failed`: the error, then `close`. */
    method HelloFailed(error: seq<byte>)
      requires Valid()
      modifies this`sendQ, this`run
      ensures Valid()
      ensures run == if old(run).open then Enqueue(Enqueue(old(run), Item(Some(error), true)), SENTINEL) else old(run)
      ensures old(sendQ).Some? ==> sendQ == Some(old(sendQ).value + [Item(Some(error), true), SENTINEL])
      ensures old(sendQ).None? ==> sendQ.None?
    {
      ghost var before := sendQ;
      var accepted := Send(error, true);
      Close();
      ghost var last := Item(Some(error), true);
      assert accepted ==> before.value + [last] + [SENTINEL] == before.value + [last, SENTINEL];
    }

    /** `_send_loop` as long as nobody else runs and the socket takes everything. With a
        terminator in the queue it writes what stands ahead of it and the terminator's
        own buffer, and gives the queue up; without one it writes everything and waits
        in `get`, the queue empty. It is a run of `steps` of the writer. */
    method SendLoop() returns (left: bool, ghost steps: seq<Step>)
      requires Valid() && run.pc.Getting? && sendQ.Some?
      modifies this
      ensures Valid() && Leads(old(run), steps, run)
      ensures left <==> !NoTerminator(old(sendQ).value)
      ensures run.pc == if left then Done else Getting
      ensures sendQ == if left then None else Some([])
      ensures socket == old(socket) + Sent(old(sendQ).value)
    {
      hide Octets, NoTerminator, Leads, Sent;
      var queue := sendQ.value;
      ghost var before, first := socket, run;
      steps := [];
      NoSteps(run);
      var i := 0;
      OctetsNone(queue[..0]);
      assert before + [] == before;
      while true
        invariant i <= |queue|
        invariant forall j | 0 <= j < i :: !Terminator(queue[j])
        invariant socket == before + Octets(queue[..i])
        invariant Leads(first, steps, run)
        invariant run == first.(taken := first.taken + i, written := socket)
        decreases |queue| - i
      {
        if i == |queue| {
          SentAll(queue);
          sendQ := Some([]);
          return false, steps;
        }
        var item := queue[i];
        steps := ItemSteps(first, steps, run);
        run := AfterItem(run);
        OctetsNext(queue, i);
        if item.buf.None? {
          assert socket + [] == socket;
          break;
        }
        socket := socket + item.buf.value;
        if item.close {
          break;
        }
        i := i + 1;
      }
      SentFirst(queue, i);
      sendQ := None;
      left := true;
    }
  }

  lemma NoSteps(s: State)
    ensures Leads(s, [], s)
  {
  }
}
