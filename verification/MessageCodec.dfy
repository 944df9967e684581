/** The message serializers: every structure written in place into the growing
    buffer of the message, the header last. */
module MessageCodec {
  import opened Bytes
  import opened Layout
  import opened Lists
  import opened Oxm
  import opened Match
  import opened Actions
  import opened ActionCodec
  import opened Messages
  import ActionRoundTrip

  predicate InstructionFits(i: Instruction) {
    && |EncodeInstruction(i)| < 0x1_0000
    && match i
       case PlainInstruction(kind, values) => InstructionFormat(kind).Some? && Fits(InstructionFormatOf(kind), values)
       case ApplyActions(kind, actions) => CarriesActions(kind) && ActionsFit(actions)
  }

  /** `serialize` of an instruction. */
  method SerializeInstruction(i: Instruction, buf: ByteBuffer, offset: nat) returns (len: nat)
    requires InstructionFits(i)
    modifies buf
    ensures buf.bytes == Overlay(old(buf.bytes), offset, EncodeInstruction(i))
    ensures len == |EncodeInstruction(i)|
  {
    hide Overlay, Be, Pack, Fits, Size, ActionsFit, EncodeActions;
    match i {
      case PlainInstruction(kind, values) =>
        var body := Pack(InstructionFormatOf(kind), values);
        len := 4 + |body|;
        buf.PackInto(offset, Be(kind, 2) + Be(len, 2) + body);
      case ApplyActions(kind, actions) =>
        var body := SerializeActionList(actions);
        len := 8 + |body.bytes|;
        buf.PackInto(offset, Be(kind, 2) + Be(len, 2) + (Zeros(4) + body.bytes));
    }
  }

  // -- buckets ---------------------------------------------------------------------

  function ActionsLen(actions: seq<Action>): nat {
    if actions == [] then 0 else ActionLen(actions[0]) + ActionsLen(actions[1..])
  }

  /** Actions written one behind the other where each says it ended. */
  function PutActions(buf: seq<byte>, offset: nat, actions: seq<Action>): seq<byte>
    decreases actions
  {
    if actions == [] then buf
    else PutActions(Overlay(buf, offset, EncodeAction(actions[0])), offset + ActionLen(actions[0]), actions[1..])
  }

  lemma {:induction false} PutActionsSnoc(buf: seq<byte>, offset: nat, actions: seq<Action>, a: Action)
    ensures PutActions(buf, offset, actions + [a])
         == Overlay(PutActions(buf, offset, actions), offset + ActionsLen(actions), EncodeAction(a))
    ensures ActionsLen(actions + [a]) == ActionsLen(actions) + ActionLen(a)
    decreases actions
  {
    hide Overlay, EncodeAction, ActionLen;
    if actions == [] {
      assert [a][1..] == [];
    } else {
      PutActionsSnoc(Overlay(buf, offset, EncodeAction(actions[0])), offset + ActionLen(actions[0]), actions[1..], a);
      assert (actions + [a])[1..] == actions[1..] + [a];
    }
  }

  /** Well-formed actions written in place lie end to end. */
  lemma {:induction false} PutActionsEncode(buf: seq<byte>, offset: nat, actions: seq<Action>)
    requires AllWellFormed(actions)
    ensures ActionsLen(actions) == |EncodeActions(actions)|
    ensures actions != [] ==> PutActions(buf, offset, actions) == Overlay(buf, offset, EncodeActions(actions))
    decreases actions
  {
    hide Overlay, EncodeAction, ActionLen, WellFormed;
    if actions != [] {
      var first := EncodeAction(actions[0]);
      ActionRoundTrip.EncodingAligned(actions[0]);
      var next := Overlay(buf, offset, first);
      PutActionsEncode(next, offset + |first|, actions[1..]);
      if actions[1..] == [] {
        assert EncodeActions(actions) == first;
      } else {
        OverlayNext(buf, offset, first, EncodeActions(actions[1..]));
      }
    }
  }

  /** The bucket's head, and room in its length for the actions. */
  predicate BucketFits(b: Bucket) {
    && b.weight < 0x1_0000 && b.watchPort < 0x1_0000_0000 && b.watchGroup < 0x1_0000_0000
    && ActionsFit(b.actions) && BUCKET_SIZE + ActionsLen(b.actions) <= 0xFFF8
  }

  function BucketLen(b: Bucket): nat { RoundUp8(BUCKET_SIZE + ActionsLen(b.actions)) }

  /** A bucket as it is written: the actions behind the place of the header, then the
      header with the rounded-up length. */
  function PutBucket(buf: seq<byte>, offset: nat, b: Bucket): seq<byte> {
    Overlay(PutActions(buf, offset + BUCKET_SIZE, b.actions), offset, BucketHead(BucketLen(b), b))
  }

  /** Buckets written one behind the other where each says it ended. */
  function PutBuckets(buf: seq<byte>, offset: nat, buckets: seq<Bucket>): seq<byte>
    decreases buckets
  {
    if buckets == [] then buf
    else PutBuckets(PutBucket(buf, offset, buckets[0]), offset + BucketLen(buckets[0]), buckets[1..])
  }

  function BucketsLen(buckets: seq<Bucket>): nat {
    if buckets == [] then 0 else BucketLen(buckets[0]) + BucketsLen(buckets[1..])
  }

  lemma {:induction false} PutBucketsSnoc(buf: seq<byte>, offset: nat, buckets: seq<Bucket>, b: Bucket)
    ensures PutBuckets(buf, offset, buckets + [b])
         == PutBucket(PutBuckets(buf, offset, buckets), offset + BucketsLen(buckets), b)
    ensures BucketsLen(buckets + [b]) == BucketsLen(buckets) + BucketLen(b)
    decreases buckets
  {
    hide PutBucket, BucketLen;
    if buckets == [] {
      assert [b][1..] == [];
    } else {
      PutBucketsSnoc(PutBucket(buf, offset, buckets[0]), offset + BucketLen(buckets[0]), buckets[1..], b);
      assert (buckets + [b])[1..] == buckets[1..] + [b];
    }
  }

  /** `OFPBucket.serialize`. */
  method SerializeBucket(b: Bucket, buf: ByteBuffer, offset: nat) returns (len: nat)
    requires BucketFits(b)
    modifies buf
    ensures len == BucketLen(b)
    ensures buf.bytes == PutBucket(old(buf.bytes), offset, b)
  {
    hide Overlay, EncodeAction, ActionLen, ActionFits, BucketHead;
    var actionOffset := offset + BUCKET_SIZE;
    ghost var before := buf.bytes;
    for i := 0 to |b.actions|
      invariant actionOffset == offset + BUCKET_SIZE + ActionsLen(b.actions[..i])
      invariant buf.bytes == PutActions(before, offset + BUCKET_SIZE, b.actions[..i])
    {
      PutActionsSnoc(before, offset + BUCKET_SIZE, b.actions[..i], b.actions[i]);
      assert b.actions[..i + 1] == b.actions[..i] + [b.actions[i]];
      assert b.actions[i] in b.actions;
      var written := SerializeAction(b.actions[i], buf, actionOffset);
      actionOffset := actionOffset + written;
    }
    assert b.actions[..|b.actions|] == b.actions;
    len := RoundUp8(actionOffset - offset);
    buf.PackInto(offset, BucketHead(len, b));
  }

  /** For well-formed actions the bucket written is its encoding, and its length
      the octets written. */
  lemma BucketWritten(b: Bucket, before: seq<byte>, offset: nat)
    requires AllWellFormed(b.actions)
    ensures BucketLen(b) == |EncodeBucket(b)|
    ensures PutBucket(before, offset, b) == Overlay(before, offset, EncodeBucket(b))
  {
    hide Overlay, PutActions, EncodeActions, BucketHead, AllWellFormed;
    PutActionsEncode(before, offset + BUCKET_SIZE, b.actions);
    BucketNeedsNoPadding(b);
    var head := BucketHead(|EncodeBucket(b)|, b);
    OverlayBefore(before, offset, head, EncodeActions(b.actions));
    if b.actions == [] {
      NoActions(b.actions);
      assert head + EncodeActions(b.actions) == head;
      PutNothing(before, offset + BUCKET_SIZE);
    }
  }

  /** Well-formed buckets written at the end of a buffer lie end to end. */
  lemma {:induction false} PutBucketsEncode(buf: seq<byte>, buckets: seq<Bucket>)
    requires forall b | b in buckets :: AllWellFormed(b.actions)
    ensures PutBuckets(buf, |buf|, buckets) == buf + Concat(EncodeBucket, buckets)
    decreases buckets
  {
    hide PutBucket, BucketLen, EncodeBucket, AllWellFormed;
    if buckets != [] {
      var b := buckets[0];
      assert b in buckets;
      BucketWritten(b, buf, |buf|);
      OverlayAppend(buf, EncodeBucket(b));
      PutBucketsEncode(buf + EncodeBucket(b), buckets[1..]);
      assert buf + EncodeBucket(b) + Concat(EncodeBucket, buckets[1..]) == buf + Concat(EncodeBucket, buckets);
    } else {
      assert buf + [] == buf;
    }
  }

  lemma NoActions(actions: seq<Action>)
    requires actions == []
    ensures EncodeActions(actions) == []
  {
  }

  lemma PutNothing(buf: seq<byte>, offset: nat)
    ensures PutActions(buf, offset, []) == buf
  {
  }

  // -- messages ----------------------------------------------------------------------

  /** The assertions a serializer makes about its own message. */
  predicate Serializable(m: Message) {
    match m
    case PacketOut(bufferId, _, _, data) => data.Some? ==> bufferId == NO_BUFFER
    case Echo(reply, payload) => reply ==> payload.Some?
    case _ => true
  }

  /** The body as the serializer writes it behind `buf`. Only buckets are laid where
      the lengths they declare put them. */
  function PutBody(buf: seq<byte>, m: Message): seq<byte> {
    match m
    case GroupMod(fixed, buckets) =>
      var start := buf + Pack(GROUP_MOD_FORMAT, fixed);
      PutBuckets(start, |start|, buckets)
    case _ => buf + EncodeBody(m)
  }

  /** The whole message as written: the header patched in last. */
  function Written(m: Message, xid: nat): seq<byte> {
    var body := PutBody(Zeros(HEADER_SIZE), m);
    Overlay(body, 0, Header(TypeOf(m), |body|, xid))
  }

  /** What the serializers can pack without raising. */
  predicate MessageFits(m: Message) {
    && |PutBody(Zeros(HEADER_SIZE), m)| < 0x1_0000
    && match m
       case FlowMod(fixed, flow, instructions) =>
         Fits(FLOW_MOD_FORMAT, fixed) && MatchFits(flow) && forall i | i in instructions :: InstructionFits(i)
       case GroupMod(fixed, buckets) =>
         Fits(GROUP_MOD_FORMAT, fixed) && forall b | b in buckets :: BucketFits(b)
       case PacketOut(bufferId, inPort, actions, data) =>
         && bufferId < 0x1_0000_0000 && inPort < 0x1_0000_0000 && ActionsFit(actions)
         && |EncodeActions(actions)| < 0x1_0000
       case MeterMod(fixed, bands) =>
         Fits(METER_MOD_FORMAT, fixed) && forall b | b in bands :: WellFormedBand(b)
       case Barrier(_) => true
       case Echo(_, _) => true
       case Other(_, _) => false
  }

  /** `MsgBase.serialize`: eight octets kept for the header, the body behind them,
      the header packed in place once the length is known. */
  method SerializeMessage(m: Message, xid: nat) returns (r: Result<seq<byte>>)
    requires MessageFits(m) && xid < 0x1_0000_0000
    ensures r == if Serializable(m) then Ok(Written(m, xid)) else Err(AssertionError)
  {
    hide Overlay, MessageFits, PutBody, Header;
    var buf := new ByteBuffer(Zeros(HEADER_SIZE));
    if !Serializable(m) {
      return Err(AssertionError);
    }
    SerializeBody(m, buf);
    buf.PackInto(0, Header(TypeOf(m), |buf.bytes|, xid));
    r := Ok(buf.bytes);
  }

  /** A message that reads back can be serialized, and what is written is its
      encoding. */
  lemma WellFormedWritten(m: Message, xid: nat)
    requires WellFormedMessage(m)
    ensures MessageFits(m) && Written(m, xid) == EncodeMessage(m, xid)
  {
    hide EncodeMessage, Overlay, EncodeBody, Header, PutBody, Serializable;
    WellFormedBody(m, Zeros(HEADER_SIZE));
    HeaderInPlace(Header(TypeOf(m), HEADER_SIZE + |EncodeBody(m)|, xid), EncodeBody(m));
    EncodedParts(m, xid);
    WellFormedFitsAll(m);
  }

  lemma EncodedParts(m: Message, xid: nat)
    ensures EncodeMessage(m, xid) == Header(TypeOf(m), HEADER_SIZE + |EncodeBody(m)|, xid) + EncodeBody(m)
  {
    hide Header, EncodeBody;
  }

  lemma WellFormedBody(m: Message, buf: seq<byte>)
    requires WellFormedMessage(m)
    ensures PutBody(buf, m) == buf + EncodeBody(m)
  {
    hide Pack, EncodeBucket, PutBuckets, AllWellFormed, EncodeActions;
    if m.GroupMod? {
      var head := Pack(GROUP_MOD_FORMAT, m.fixed);
      PutBucketsEncode(buf + head, m.buckets);
      AppendTwo(buf, head, Concat(EncodeBucket, m.buckets));
    }
  }

  lemma WellFormedFitsAll(m: Message)
    requires WellFormedMessage(m)
    requires |PutBody(Zeros(HEADER_SIZE), m)| == HEADER_SIZE + |EncodeBody(m)|
    ensures MessageFits(m)
  {
    hide Pack, Fits, WellFormedMatch, MatchFits, WellFormedInstruction, InstructionFits, WellFormedBucket, BucketFits;
    hide WellFormedBand, AllWellFormed, ActionsFit, PutBody, EncodeActions, EncodeBody;
    match m
    case FlowMod(_, flow, instructions) =>
      MatchWellFormedFits(flow);
      forall i | i in instructions
        ensures InstructionFits(i)
      {
        InstructionWellFormedFits(i);
      }
    case GroupMod(_, buckets) =>
      forall b | b in buckets
        ensures BucketFits(b)
      {
        BucketWellFormedFits(b);
      }
    case PacketOut(_, _, actions, _) =>
      ListFits(actions);
      PacketOutSize(m);
    case _ =>
  }

  lemma PacketOutSize(m: Message)
    requires m.PacketOut?
    ensures |EncodeActions(m.actions)| <= |EncodeBody(m)|
  {
    hide EncodeActions, PacketOutHead;
  }

  lemma HeaderInPlace(head: seq<byte>, body: seq<byte>)
    requires |head| == HEADER_SIZE
    ensures Overlay(Zeros(HEADER_SIZE) + body, 0, head) == head + body
  {
  }

  /** `_serialize_body` of each class. */
  method SerializeBody(m: Message, buf: ByteBuffer)
    requires MessageFits(m) && Serializable(m)
    modifies buf
    ensures buf.bytes == PutBody(old(buf.bytes), m)
  {
    hide Overlay, Pack, Fits, MatchFits, EncodeMatch, InstructionFits, BucketFits, WellFormedBand, EncodeActions;
    hide ActionsFit, PacketOutHead, Concat, EncodeInstruction, EncodeBand, PutBuckets, OwnData;
    match m {
      case FlowMod(fixed, flow, instructions) =>
        SerializeFlowMod(fixed, flow, instructions, buf);
      case GroupMod(fixed, buckets) =>
        buf.Extend(Pack(GROUP_MOD_FORMAT, fixed));
        SerializeBuckets(buckets, buf);
      case PacketOut(_, _, _, _) =>
        SerializePacketOut(m, buf);
      case MeterMod(fixed, bands) =>
        AppendTwo(buf.bytes, Pack(METER_MOD_FORMAT, fixed), Concat(EncodeBand, bands));
        buf.Extend(Pack(METER_MOD_FORMAT, fixed));
        SerializeBands(bands, buf);
      case Barrier(_) =>
        assert buf.bytes + [] == buf.bytes;
      case Echo(_, payload) =>
        SerializeEcho(payload, buf);
    }
  }

  /** `_serialize_tail` of the two echo messages. */
  method SerializeEcho(payload: Option<seq<byte>>, buf: ByteBuffer)
    modifies buf
    ensures buf.bytes == old(buf.bytes) + OwnData(payload)
  {
    if payload.Some? {
      buf.Extend(payload.value);
    } else {
      assert buf.bytes + [] == buf.bytes;
    }
  }

  /** `OFPPacketOut._serialize_body`: the actions into a buffer of their own, which
      gives the length the head carries. */
  method SerializePacketOut(m: Message, buf: ByteBuffer)
    requires m.PacketOut? && ActionsFit(m.actions)
    modifies buf
    ensures buf.bytes == old(buf.bytes)
                       + (PacketOutHead(m) + EncodeActions(m.actions) + OwnData(m.data))
  {
    hide EncodeActions, Be, ActionsFit;
    var body := SerializeActionList(m.actions);
    buf.Extend(Be(m.bufferId, 4) + Be(m.inPort, 4) + Be(|body.bytes|, 2) + Zeros(6));
    buf.Extend(body.bytes);
    if m.data.Some? {
      buf.Extend(m.data.value);
    }
  }

  lemma ListFits(actions: seq<Action>)
    requires AllWellFormed(actions)
    ensures ActionsFit(actions)
  {
    hide WellFormed, ActionFits;
    forall a | a in actions
      ensures ActionFits(a)
    {
      WellFormedFits(a);
    }
  }

  lemma InstructionWellFormedFits(i: Instruction)
    requires WellFormedInstruction(i)
    ensures InstructionFits(i)
  {
    hide AllWellFormed, ActionsFit, Fits;
    if i.ApplyActions? {
      ListFits(i.actions);
    }
  }

  /** `OFPFlowMod._serialize_tail`: the match at the end of the buffer, then each
      instruction at the offset the one before it ended. */
  method SerializeFlowMod(fixed: seq<Value>, flow: FlowMatch, instructions: seq<Instruction>, buf: ByteBuffer)
    requires MatchFits(flow)
    requires forall i | i in instructions :: InstructionFits(i)
    modifies buf
    ensures buf.bytes == old(buf.bytes)
                       + (Pack(FLOW_MOD_FORMAT, fixed) + EncodeMatch(flow) + Concat(EncodeInstruction, instructions))
  {
    hide Overlay, Pack, EncodeMatch, MatchFits, InstructionFits, Concat, MatchLength, Size;
    ghost var before := buf.bytes;
    buf.Extend(Pack(FLOW_MOD_FORMAT, fixed));
    OverlayAppend(buf.bytes, EncodeMatch(flow));
    AppendThree(before, Pack(FLOW_MOD_FORMAT, fixed), EncodeMatch(flow), Concat(EncodeInstruction, instructions));
    var offset := |buf.bytes|;
    var paddedLen := SerializeMatch(flow, buf, offset);
    SerializeInstructions(instructions, buf);
  }

  lemma AppendTwo(s: seq<byte>, a: seq<byte>, b: seq<byte>)
    ensures s + a + b == s + (a + b)
  {
  }

  lemma AppendThree(s: seq<byte>, a: seq<byte>, b: seq<byte>, c: seq<byte>)
    ensures s + a + b + c == s + (a + b + c)
  {
  }

  method SerializeInstructions(instructions: seq<Instruction>, buf: ByteBuffer)
    requires forall i | i in instructions :: InstructionFits(i)
    modifies buf
    ensures buf.bytes == old(buf.bytes) + Concat(EncodeInstruction, instructions)
  {
    hide Overlay, InstructionFits, EncodeInstruction;
    var offset := |buf.bytes|;
    ghost var before := buf.bytes;
    for i := 0 to |instructions|
      invariant offset == |buf.bytes|
      invariant buf.bytes == before + Concat(EncodeInstruction, instructions[..i])
    {
      var inst := instructions[i];
      assert inst in instructions;
      OverlayAppend(buf.bytes, EncodeInstruction(inst));
      ConcatSnoc(EncodeInstruction, instructions[..i], inst);
      assert instructions[..i + 1] == instructions[..i] + [inst];
      var len := SerializeInstruction(inst, buf, offset);
      offset := offset + len;
    }
    assert instructions[..|instructions|] == instructions;
  }

  lemma MatchWellFormedFits(m: FlowMatch)
    requires WellFormedMatch(m)
    ensures MatchFits(m)
  {
    hide WellFormedOxm, Writable;
    forall f | f in m.fields
      ensures Writable(f)
    {
      WellFormedOxmWritable(f);
    }
  }

  /** `OFPGroupMod._serialize_tail`: each bucket at the offset the one before it says
      it ended. */
  method SerializeBuckets(buckets: seq<Bucket>, buf: ByteBuffer)
    requires forall b | b in buckets :: BucketFits(b)
    modifies buf
    ensures buf.bytes == PutBuckets(old(buf.bytes), |old(buf.bytes)|, buckets)
  {
    hide PutBucket, BucketFits, BucketLen;
    var offset := |buf.bytes|;
    ghost var before := buf.bytes;
    for i := 0 to |buckets|
      invariant offset == |before| + BucketsLen(buckets[..i])
      invariant buf.bytes == PutBuckets(before, |before|, buckets[..i])
    {
      assert buckets[i] in buckets;
      PutBucketsSnoc(before, |before|, buckets[..i], buckets[i]);
      assert buckets[..i + 1] == buckets[..i] + [buckets[i]];
      var len := SerializeBucket(buckets[i], buf, offset);
      offset := offset + len;
    }
    assert buckets[..|buckets|] == buckets;
  }

  lemma BucketWellFormedFits(b: Bucket)
    requires WellFormedBucket(b)
    ensures BucketFits(b) && AllWellFormed(b.actions)
  {
    hide AllWellFormed, ActionsFit, EncodeActions, ActionsLen, BucketHead, PutActions;
    ListFits(b.actions);
    PutActionsEncode([], 0, b.actions);
    BucketNeedsNoPadding(b);
  }

  /** `OFPMeterMod._serialize_tail`. */
  method SerializeBands(bands: seq<Band>, buf: ByteBuffer)
    modifies buf
    ensures buf.bytes == old(buf.bytes) + Concat(EncodeBand, bands)
  {
    hide Overlay, EncodeBand, Tagged;
    var offset := |buf.bytes|;
    ghost var before := buf.bytes;
    for i := 0 to |bands|
      invariant offset == |buf.bytes|
      invariant buf.bytes == before + Concat(EncodeBand, bands[..i])
    {
      OverlayAppend(buf.bytes, EncodeBand(bands[i]));
      ConcatSnoc(EncodeBand, bands[..i], bands[i]);
      assert bands[..i + 1] == bands[..i] + [bands[i]];
      buf.PackInto(offset, EncodeBand(bands[i]));
      offset := offset + |EncodeBand(bands[i])|;
    }
    assert bands[..|bands|] == bands;
  }
}
