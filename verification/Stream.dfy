/** Framing: whole messages out of a byte stream cut anywhere, and what becomes of
    them when the stream goes bad. */
module Stream {
  import opened Bytes
  import opened Messages

  /** `OFPStreamParser.try_parse`: not enough octets yet, one frame taken (with a
      message, or without one), the version exception, or no return. */
  datatype Try =
    | TooSmall
    | Frame(message: Option<Received>, rest: seq<byte>)
    | Raised
    | Stuck

  datatype Received = Received(message: Message, xid: nat)

  function TryParse(other: Reader, q: seq<byte>): (t: Try)
    ensures t.Frame? ==> |t.rest| <= |q| - HEADER_SIZE
  {
    if |q| < HEADER_SIZE then TooSmall
    else
      var msgLen := Un(q[2..4]);
      if msgLen < HEADER_SIZE then Frame(None, q[HEADER_SIZE..])
      else if |q| < msgLen then TooSmall
      else match ParseMessage(other, Un(q[0..1]), Un(q[1..2]), msgLen, Un(q[4..8]), q[..msgLen])
        case Parsed(m, xid) => Frame(Some(Received(m, xid)), q[msgLen..])
        case Skipped => Frame(None, q[msgLen..])
        case UnknownVersion => Raised
        case Hangs => Stuck
  }

  /** One call of `parse`: the messages returned, with None for a frame that gave
      none, and the octets held back; or the exception; or no return. The messages
      found ahead of the exception go with it. */
  datatype Fed =
    | Fed(messages: seq<Option<Received>>, held: seq<byte>)
    | Dropped
    | Hung

  function ParseAll(other: Reader, q: seq<byte>): Fed
    decreases |q|
  {
    match TryParse(other, q)
    case TooSmall => Fed([], q)
    case Raised => Dropped
    case Stuck => Hung
    case Frame(m, rest) => Prepend(m, ParseAll(other, rest))
  }

  function Prepend(m: Option<Received>, f: Fed): Fed {
    match f
    case Fed(messages, held) => Fed([m] + messages, held)
    case _ => f
  }

  /** The parser with its held buffer. */
  class StreamParser {
    const other: Reader
    var q: seq<byte>

    constructor (other: Reader)
      ensures this.other == other && q == []
    {
      this.other, q := other, [];
    }

    /** Append `data` and take every complete message. An exception leaves the
        frame it came from at the head of the buffer. */
    method Parse(data: seq<byte>) returns (r: Fed)
      modifies this
      ensures r == ParseAll(other, old(q) + data)
      ensures r.Fed? ==> q == r.held
      ensures r.Dropped? ==> TryParse(other, q) == Raised
    {
      hide TryParse;
      q := q + data;
      var messages: seq<Option<Received>> := [];
      var t := TryParse(other, q);
      ghost var whole := ParseAll(other, q);
      assert whole.Fed? ==> [] + whole.messages == whole.messages;
      while t.Frame?
        invariant t == TryParse(other, q)
        invariant whole == After(messages, ParseAll(other, q))
        decreases |q|
      {
        AfterOne(messages, t.message, ParseAll(other, t.rest));
        messages := messages + [t.message];
        q := t.rest;
        t := TryParse(other, q);
      }
      if t.Raised? {
        return Dropped;
      }
      if t.Stuck? {
        return Hung;
      }
      assert messages + [] == messages;
      r := Fed(messages, q);
    }
  }

  function After(done: seq<Option<Received>>, f: Fed): Fed {
    match f
    case Fed(messages, held) => Fed(done + messages, held)
    case _ => f
  }

  lemma AfterOne(done: seq<Option<Received>>, m: Option<Received>, f: Fed)
    ensures After(done, Prepend(m, f)) == After(done + [m], f)
  {
    if f.Fed? {
      assert done + ([m] + f.messages) == done + [m] + f.messages;
    }
  }

  /** A decision about a frame is never revised by octets that come later. */
  lemma TryParseStable(other: Reader, q: seq<byte>, more: seq<byte>)
    ensures match TryParse(other, q)
            case TooSmall => true
            case Frame(m, rest) => TryParse(other, q + more) == Frame(m, rest + more)
            case Raised => TryParse(other, q + more) == Raised
            case Stuck => TryParse(other, q + more) == Stuck
  {
    hide ParseMessage, Un;
    if |q| >= HEADER_SIZE {
      var s := q + more;
      assert s[0..1] == q[0..1] && s[1..2] == q[1..2] && s[2..4] == q[2..4] && s[4..8] == q[4..8];
      var msgLen := Un(q[2..4]);
      assert s[HEADER_SIZE..] == q[HEADER_SIZE..] + more;
      if HEADER_SIZE <= msgLen <= |q| {
        assert s[..msgLen] == q[..msgLen];
        assert s[msgLen..] == q[msgLen..] + more;
      }
    }
  }

  /** Feeding a buffer and then more is feeding both at once. */
  lemma {:induction false} ParseAllSplit(other: Reader, q: seq<byte>, more: seq<byte>)
    ensures match ParseAll(other, q)
            case Fed(messages, held) => ParseAll(other, q + more) == After(messages, ParseAll(other, held + more))
            case Dropped => ParseAll(other, q + more) == Dropped
            case Hung => ParseAll(other, q + more) == Hung
    decreases |q|
  {
    hide TryParse;
    TryParseStable(other, q, more);
    match TryParse(other, q)
    case TooSmall =>
      var f := ParseAll(other, q + more);
      assert f.Fed? ==> [] + f.messages == f.messages;
    case Raised =>
    case Stuck =>
    case Frame(m, rest) =>
      ParseAllSplit(other, rest, more);
      var f := ParseAll(other, rest);
      if f.Fed? {
        var g := ParseAll(other, f.held + more);
        assert g.Fed? ==> [m] + (f.messages + g.messages) == [m] + f.messages + g.messages;
      }
  }

  lemma {:induction false} HeldIsTooSmall(other: Reader, q: seq<byte>)
    requires ParseAll(other, q).Fed?
    ensures TryParse(other, ParseAll(other, q).held) == TooSmall
    decreases |q|
  {
    hide TryParse;
    match TryParse(other, q)
    case Frame(m, rest) => HeldIsTooSmall(other, rest);
    case _ =>
  }

  /** Nothing is invented or lost: every message returned took at least the eight
      octets of a header from the stream, and what is held is its tail. */
  lemma {:induction false} OctetsAccounted(other: Reader, q: seq<byte>)
    requires ParseAll(other, q).Fed?
    ensures HEADER_SIZE * |ParseAll(other, q).messages| + |ParseAll(other, q).held| <= |q|
    ensures ParseAll(other, q).held == q[|q| - |ParseAll(other, q).held|..]
    decreases |q|
  {
    hide TryParse;
    var t := TryParse(other, q);
    if t.Frame? {
      RestIsTail(other, q);
      OctetsAccounted(other, t.rest);
      var held := ParseAll(other, q).held;
      assert held == t.rest[|t.rest| - |held|..];
      TailOfTail(q, t.rest, held);
    }
  }

  lemma RestIsTail(other: Reader, q: seq<byte>)
    requires TryParse(other, q).Frame?
    ensures TryParse(other, q).rest == q[|q| - |TryParse(other, q).rest|..]
  {
    hide ParseMessage, Un;
  }

  lemma TailOfTail(q: seq<byte>, rest: seq<byte>, held: seq<byte>)
    requires |held| <= |rest| <= |q|
    requires rest == q[|q| - |rest|..] && held == rest[|rest| - |held|..]
    ensures held == q[|q| - |held|..]
  {
  }

  // -- the receive loop -------------------------------------------------------------------

  /** How a connection stands after its chunks: waiting with octets held back, dropped
      by the version exception, or with the receive thread lost in a call. */
  datatype Fate = Waiting(held: seq<byte>) | Lost | Looping

  /** The messages dispatched, oldest first, and how the connection stands. */
  datatype Session = Session(delivered: seq<Received>, fate: Fate)

  /** `if msg is not None`. */
  function Present(messages: seq<Option<Received>>): seq<Received> {
    if messages == [] then []
    else (if messages[0].Some? then [messages[0].value] else []) + Present(messages[1..])
  }

  /** `_recv_loop`: `parse` is called for each chunk and what it returns dispatched,
      until a call raises or does not return. */
  function Receive(other: Reader, held: seq<byte>, chunks: seq<seq<byte>>): Session
    decreases |chunks|
  {
    if chunks == [] then Session([], Waiting(held))
    else match ParseAll(other, held + chunks[0])
      case Fed(messages, rest) => Behind(Present(messages), Receive(other, rest, chunks[1..]))
      case Dropped => Session([], Lost)
      case Hung => Session([], Looping)
  }

  function Behind(done: seq<Received>, s: Session): Session {
    s.(delivered := done + s.delivered)
  }

  lemma BehindTwice(a: seq<Received>, b: seq<Received>, s: Session)
    ensures Behind(a, Behind(b, s)) == Behind(a + b, s)
  {
    assert a + (b + s.delivered) == a + b + s.delivered;
  }

  lemma BehindNone(s: Session)
    ensures Behind([], s) == s
  {
    assert [] + s.delivered == s.delivered;
  }

  /** The receive loop over the chunks the socket gives. */
  method ReceiveLoop(other: Reader, chunks: seq<seq<byte>>) returns (s: Session)
    ensures s == Receive(other, [], chunks)
  {
    hide ParseAll, TryParse, Present;
    var stream := new StreamParser(other);
    var delivered: seq<Received> := [];
    BehindNone(Receive(other, [], chunks));
    for i := 0 to |chunks|
      invariant stream.other == other
      invariant Receive(other, [], chunks) == Behind(delivered, Receive(other, stream.q, chunks[i..]))
    {
      assert chunks[i..][0] == chunks[i] && chunks[i..][1..] == chunks[i + 1..];
      var r := stream.Parse(chunks[i]);
      match r {
        case Dropped =>
          assert delivered + [] == delivered;
          return Session(delivered, Lost);
        case Hung =>
          assert delivered + [] == delivered;
          return Session(delivered, Looping);
        case Fed(messages, _) =>
          BehindTwice(delivered, Present(messages), Receive(other, stream.q, chunks[i + 1..]));
          delivered := delivered + Present(messages);
      }
    }
    assert chunks[|chunks|..] == [] && delivered + [] == delivered;
    s := Session(delivered, Waiting(stream.q));
  }

  function Flatten(chunks: seq<seq<byte>>): seq<byte> {
    if chunks == [] then [] else chunks[0] + Flatten(chunks[1..])
  }

  /** The messages of a stream ahead of the first frame that raises or loops, or of
      the first incomplete one. */
  function Ahead(other: Reader, q: seq<byte>): seq<Received>
    decreases |q|
  {
    match TryParse(other, q)
    case Frame(m, rest) => (if m.Some? then [m.value] else []) + Ahead(other, rest)
    case _ => []
  }

  function FateOf(f: Fed): Fate {
    match f
    case Fed(_, held) => Waiting(held)
    case Dropped => Lost
    case Hung => Looping
  }

  lemma {:induction false} AheadIsParsed(other: Reader, q: seq<byte>)
    requires ParseAll(other, q).Fed?
    ensures Ahead(other, q) == Present(ParseAll(other, q).messages)
    decreases |q|
  {
    hide TryParse;
    match TryParse(other, q)
    case Frame(m, rest) =>
      AheadIsParsed(other, rest);
      assert ([m] + ParseAll(other, rest).messages)[1..] == ParseAll(other, rest).messages;
    case _ =>
  }

  lemma {:induction false} AheadSplit(other: Reader, q: seq<byte>, more: seq<byte>)
    requires ParseAll(other, q).Fed?
    ensures Ahead(other, q + more) == Ahead(other, q) + Ahead(other, ParseAll(other, q).held + more)
    decreases |q|
  {
    hide TryParse;
    TryParseStable(other, q, more);
    match TryParse(other, q)
    case Frame(m, rest) =>
      AheadSplit(other, rest, more);
      var own := if m.Some? then [m.value] else [];
      var held := Ahead(other, ParseAll(other, rest).held + more);
      assert own + (Ahead(other, rest) + held) == own + Ahead(other, rest) + held;
    case _ =>
  }

  /** What the receive loop makes of a stream: the fate depends on the octets alone,
      all messages are delivered if the stream stays good, and otherwise a prefix of
      those ahead of the frame that goes wrong. */
  lemma {:induction false} ReceivedOf(other: Reader, held: seq<byte>, chunks: seq<seq<byte>>)
    requires TryParse(other, held) == TooSmall
    ensures var q := held + Flatten(chunks);
            && Receive(other, held, chunks).fate == FateOf(ParseAll(other, q))
            && Receive(other, held, chunks).delivered <= Ahead(other, q)
            && (ParseAll(other, q).Fed? ==> Receive(other, held, chunks).delivered == Ahead(other, q))
    decreases |chunks|
  {
    hide TryParse;
    if chunks == [] {
      assert held + [] == held;
    } else {
      var q := held + chunks[0];
      ParseAllSplit(other, q, Flatten(chunks[1..]));
      assert held + Flatten(chunks) == q + Flatten(chunks[1..]);
      var f := ParseAll(other, q);
      if f.Fed? {
        HeldIsTooSmall(other, q);
        AheadIsParsed(other, q);
        AheadSplit(other, q, Flatten(chunks[1..]));
        ReceivedOf(other, f.held, chunks[1..]);
      }
    }
  }

  /** However a good stream is cut into chunks, the same messages are delivered in the
      same order and the same octets held back: all of them, and the rest. */
  lemma ChunkingInvisible(other: Reader, a: seq<seq<byte>>, b: seq<seq<byte>>)
    requires Flatten(a) == Flatten(b)
    requires ParseAll(other, Flatten(a)).Fed?
    ensures Receive(other, [], a) == Receive(other, [], b)
    ensures Receive(other, [], a) == Session(Ahead(other, Flatten(a)), Waiting(ParseAll(other, Flatten(a)).held))
  {
    hide TryParse, ParseAll, Ahead;
    EmptyTooSmall(other);
    ReceivedOf(other, [], a);
    ReceivedOf(other, [], b);
    assert [] + Flatten(a) == Flatten(a);
  }

  /** On every stream, good or bad: the fate does not depend on the chunking, and what
      is delivered is a prefix of the messages ahead of the first bad frame. */
  lemma DeliveredIsPrefix(other: Reader, chunks: seq<seq<byte>>)
    ensures Receive(other, [], chunks).fate == FateOf(ParseAll(other, Flatten(chunks)))
    ensures Receive(other, [], chunks).delivered <= Ahead(other, Flatten(chunks))
  {
    hide TryParse, ParseAll, Ahead;
    EmptyTooSmall(other);
    ReceivedOf(other, [], chunks);
    assert [] + Flatten(chunks) == Flatten(chunks);
  }

  // -- bad streams ------------------------------------------------------------------------

  /** Every stream falls into frames and a bad rest, or frames and an incomplete one. */
  lemma {:induction false} CutAhead(other: Reader, q: seq<byte>) returns (front: seq<byte>, bad: seq<byte>)
    ensures q == front + bad && !TryParse(other, bad).Frame?
    ensures ParseAll(other, front).Fed? && ParseAll(other, front).held == []
    ensures Ahead(other, front) == Ahead(other, q)
    ensures FateOf(ParseAll(other, bad)) == FateOf(ParseAll(other, q))
    decreases |q|
  {
    hide TryParse;
    EmptyTooSmall(other);
    match TryParse(other, q)
    case Frame(m, rest) =>
      var frame := q[..|q| - |rest|];
      RestIsTail(other, q);
      assert q == frame + rest;
      FrameAlone(other, q);
      var front';
      front', bad := CutAhead(other, rest);
      front := frame + front';
      assert q == front + bad;
      TryParseStable(other, frame, front');
      assert [] + front' == front';
    case _ =>
      front, bad := [], q;
      assert q == front + bad;
  }

  /** A frame reads the same with nothing behind it. */
  lemma FrameAlone(other: Reader, q: seq<byte>)
    requires TryParse(other, q).Frame?
    ensures var t := TryParse(other, q); TryParse(other, q[..|q| - |t.rest|]) == Frame(t.message, [])
  {
    hide ParseMessage, Un;
    var t := TryParse(other, q);
    var s := q[..|q| - |t.rest|];
    var msgLen := Un(q[2..4]);
    assert s[0..1] == q[0..1] && s[1..2] == q[1..2] && s[2..4] == q[2..4] && s[4..8] == q[4..8];
    if msgLen >= HEADER_SIZE {
      assert s[..msgLen] == q[..msgLen];
    }
  }

  /** Cut in front of the bad frame, a bad stream delivers every message ahead of it;
      in one chunk it delivers none. */
  lemma BadStream(other: Reader, q: seq<byte>) returns (front: seq<byte>, bad: seq<byte>)
    requires !ParseAll(other, q).Fed?
    ensures q == front + bad
    ensures Receive(other, [], [front, bad]).delivered == Ahead(other, q)
    ensures Receive(other, [], [q]).delivered == []
  {
    hide TryParse, Present;
    front, bad := CutAhead(other, q);
    AheadIsParsed(other, front);
    assert [] + front == front && [] + bad == bad && [] + q == q;
    assert [front, bad][1..] == [bad];
    assert !ParseAll(other, bad).Fed?;
    assert Receive(other, [], [bad]).delivered == [];
    assert Receive(other, [], [front, bad]).delivered == Ahead(other, front) + [];
  }

  ghost predicate DeliveredAlike(other: Reader, q: seq<byte>) {
    forall a, b | Flatten(a) == q && Flatten(b) == q ::
      Receive(other, [], a).delivered == Receive(other, [], b).delivered
  }

  /** Every chunking of a stream delivers the same list if and only if the stream has
      no frame that raises or loops, or no message stands ahead of the first one. */
  lemma DeliveryExact(other: Reader, q: seq<byte>)
    ensures DeliveredAlike(other, q) <==> ParseAll(other, q).Fed? || Ahead(other, q) == []
  {
    hide TryParse, ParseAll, Ahead, Receive;
    if ParseAll(other, q).Fed? {
      forall a, b | Flatten(a) == q && Flatten(b) == q
        ensures Receive(other, [], a).delivered == Receive(other, [], b).delivered
      {
        ChunkingInvisible(other, a, b);
      }
    } else {
      forall a | Flatten(a) == q
        ensures Receive(other, [], a).delivered <= Ahead(other, q)
      {
        DeliveredIsPrefix(other, a);
      }
      var front, bad := BadStream(other, q);
      TwoChunks(front, bad);
      OneChunk(q);
      assert Flatten([front, bad]) == q && Flatten([q]) == q;
    }
  }

  lemma OneChunk(q: seq<byte>)
    ensures Flatten([q]) == q
  {
    assert [q][1..] == [];
  }

  lemma TwoChunks(a: seq<byte>, b: seq<byte>)
    ensures Flatten([a, b]) == a + b
  {
    OneChunk(b);
    assert [a, b][1..] == [b];
  }

  /** The chunk in which the bad frame comes complete loses its messages; those of the
      chunks before it are delivered, and the chunks behind it are never read. */
  lemma {:induction false} LostWithItsChunk(
    other: Reader, held: seq<byte>, before: seq<seq<byte>>, chunk: seq<byte>, later: seq<seq<byte>>)
    requires TryParse(other, held) == TooSmall
    requires ParseAll(other, held + Flatten(before)).Fed?
    requires !ParseAll(other, held + Flatten(before) + chunk).Fed?
    ensures Receive(other, held, before + [chunk] + later)
         == Session(Ahead(other, held + Flatten(before)), FateOf(ParseAll(other, held + Flatten(before) + chunk)))
    decreases |before|
  {
    hide TryParse, Present;
    var chunks := before + [chunk] + later;
    if before == [] {
      assert held + [] == held && chunks[0] == chunk;
      AheadIsParsed(other, held);
    } else {
      var q, rest := held + before[0], Flatten(before[1..]);
      assert held + Flatten(before) == q + rest;
      assert q + rest + chunk == q + (rest + chunk);
      ParseAllSplit(other, q, rest);
      ParseAllSplit(other, q, rest + chunk);
      HeldIsTooSmall(other, q);
      var f := ParseAll(other, q);
      assert f.held + (rest + chunk) == f.held + rest + chunk;
      assert chunks[0] == before[0] && chunks[1..] == before[1..] + [chunk] + later;
      LostWithItsChunk(other, f.held, before[1..], chunk, later);
      AheadIsParsed(other, q);
      AheadSplit(other, q, rest);
    }
  }

  /** A frame of version 5, of the least length. */
  const BAD_VERSION: seq<byte> := [5, 2, 0, 8, 0, 0, 0, 0]

  /** A barrier reply followed by a frame of an unknown version: delivered when the two
      arrive in two chunks, lost when they arrive in one. */
  lemma ReplyLost(other: Reader, xid: nat)
    requires xid < 0x1_0000_0000
    ensures var m := EncodeMessage(Barrier(true), xid);
            && Receive(other, [], [m, BAD_VERSION]) == Session([Received(Barrier(true), xid)], Lost)
            && Receive(other, [], [m + BAD_VERSION]) == Session([], Lost)
  {
    hide TryParse, EncodeMessage, Present;
    var r := Received(Barrier(true), xid);
    var m := EncodeMessage(Barrier(true), xid);
    assert Sendable(r);
    BadVersionRaises(other);
    EmptyTooSmall(other);
    MessageFramed(other, r, []);
    MessageFramed(other, r, BAD_VERSION);
    assert m + [] == m && [] + m == m && [] + (m + BAD_VERSION) == m + BAD_VERSION;
    assert [] + BAD_VERSION == BAD_VERSION;
    assert [m, BAD_VERSION][1..] == [BAD_VERSION];
    OnePresent(r);
    assert ParseAll(other, m) == Fed([Some(r)], []) by {
      assert [Some(r)] + [] == [Some(r)];
    }
    assert [r] + [] == [r];
  }

  lemma OnePresent(r: Received)
    ensures Present([Some(r)]) == [r]
  {
    assert [Some(r)][1..] == [];
  }

  lemma BadVersionRaises(other: Reader)
    ensures TryParse(other, BAD_VERSION) == Raised
  {
    var q := BAD_VERSION;
    assert q[2..4] == [0, 8] && q[0..1] == [5] && q[1..2] == [2];
    assert Un([0]) == 0 && Un([5]) == 5 && Un([2]) == 2;
    assert [0, 8][..1] == [0];
  }

  // -- end to end ----------------------------------------------------------------------

  /** Messages with the transaction ids they are sent under. */
  function Wire(sent: seq<Received>): seq<byte> {
    if sent == [] then [] else EncodeMessage(sent[0].message, sent[0].xid) + Wire(sent[1..])
  }

  predicate Sendable(r: Received) {
    WellFormedMessage(r.message) && r.xid < 0x1_0000_0000
  }

  function AsReceived(sent: seq<Received>): (r: seq<Received>)
    ensures |r| == |sent|
    ensures forall i | 0 <= i < |sent| :: r[i] == Received(Normal(sent[i].message), sent[i].xid)
  {
    if sent == [] then [] else [Received(Normal(sent[0].message), sent[0].xid)] + AsReceived(sent[1..])
  }

  lemma ReadHeader(m: Message, xid: nat, s: seq<byte>)
    requires WellFormedMessage(m) && xid < 0x1_0000_0000
    requires |s| >= HEADER_SIZE && s[..HEADER_SIZE] == Header(TypeOf(m), |EncodeMessage(m, xid)|, xid)
    ensures Un(s[0..1]) == VERSION && Un(s[1..2]) == TypeOf(m)
    ensures Un(s[2..4]) == |EncodeMessage(m, xid)| && Un(s[4..8]) == xid
  {
    hide Be, EncodeMessage, Un, WellFormedMessage, TypeOf, Header, Pow256;
    SmallMessage(m, xid);
    var len := |EncodeMessage(m, xid)|;
    HeaderSlices(TypeOf(m), len, xid, s);
    FieldWidths();
    UnBe(VERSION, 1);
    UnBe(TypeOf(m), 1);
    UnBe(len, 2);
    UnBe(xid, 4);
  }

  lemma FieldWidths()
    ensures Pow256(1) == 0x100 && Pow256(2) == 0x1_0000 && Pow256(4) == 0x1_0000_0000
  {
  }

  lemma HeaderSlices(kind: nat, len: nat, xid: nat, s: seq<byte>)
    requires |s| >= HEADER_SIZE && s[..HEADER_SIZE] == Header(kind, len, xid)
    ensures s[0..1] == Be(VERSION, 1) && s[1..2] == Be(kind, 1) && s[2..4] == Be(len, 2) && s[4..8] == Be(xid, 4)
  {
    hide Be;
    var head := s[..HEADER_SIZE];
    assert s[0..1] == head[0..1] && s[1..2] == head[1..2] && s[2..4] == head[2..4] && s[4..8] == head[4..8];
  }

  lemma SmallMessage(m: Message, xid: nat)
    requires WellFormedMessage(m)
    ensures HEADER_SIZE <= |EncodeMessage(m, xid)| < 0x1_0000 && TypeOf(m) < 30
  {
    hide EncodeBody, Header;
  }

  lemma MessageFramed(other: Reader, r: Received, tail: seq<byte>)
    requires Sendable(r)
    ensures TryParse(other, EncodeMessage(r.message, r.xid) + tail)
         == Frame(Some(Received(Normal(r.message), r.xid)), tail)
  {
    hide EncodeMessage, ParseMessage, WellFormedMessage, Un;
    var s := EncodeMessage(r.message, r.xid);
    var q := s + tail;
    SmallMessage(r.message, r.xid);
    StartsWithHeader(r.message, r.xid);
    assert q[..HEADER_SIZE] == s[..HEADER_SIZE];
    ReadHeader(r.message, r.xid, q);
    assert q[..|s|] == s && q[|s|..] == tail;
    MessageRoundTrip(other, r.message, r.xid);
  }

  lemma StartsWithHeader(m: Message, xid: nat)
    ensures EncodeMessage(m, xid)[..HEADER_SIZE] == Header(TypeOf(m), |EncodeMessage(m, xid)|, xid)
  {
    hide EncodeBody, Header;
  }

  /** Any list of messages, serialized back to back and cut into chunks anywhere, is
      delivered as the same list with nothing held back. */
  lemma {:induction false} StreamRoundTrip(other: Reader, sent: seq<Received>, chunks: seq<seq<byte>>)
    requires forall r | r in sent :: Sendable(r)
    requires Flatten(chunks) == Wire(sent)
    ensures Receive(other, [], chunks) == Session(AsReceived(sent), Waiting([]))
  {
    WireParsed(other, sent);
    ChunkingInvisible(other, chunks, chunks);
  }

  lemma {:induction false} WireParsed(other: Reader, sent: seq<Received>)
    requires forall r | r in sent :: Sendable(r)
    ensures ParseAll(other, Wire(sent)).Fed? && ParseAll(other, Wire(sent)).held == []
    ensures Ahead(other, Wire(sent)) == AsReceived(sent)
  {
    hide TryParse, EncodeMessage, Sendable, Normal;
    if sent == [] {
      EmptyTooSmall(other);
    } else {
      MessageFramed(other, sent[0], Wire(sent[1..]));
      WireParsed(other, sent[1..]);
    }
  }

  lemma EmptyTooSmall(other: Reader)
    ensures TryParse(other, []) == TooSmall
  {
  }
}
