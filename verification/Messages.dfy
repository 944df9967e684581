/** Instructions, buckets, meter bands and the messages that carry them. */
module Messages {
  import opened Bytes
  import opened Layout
  import opened Lists
  import opened Oxm
  import opened Match
  import opened Actions
  import ActionRoundTrip

  // -- instructions ----------------------------------------------------------------

  datatype Instruction =
    | PlainInstruction(kind: nat, values: seq<Value>)
    | ApplyActions(kind: nat, actions: seq<Action>)

  /** Goto-table, write-metadata and meter. */
  function InstructionFormat(kind: nat): Option<Format> {
    match kind
    case 1 => Some([Num(1), Pad(3)])
    case 2 => Some([Pad(4), Num(8), Num(8)])
    case 6 => Some([Num(4)])
    case _ => None
  }

  /** Write, apply and clear actions share one class. */
  predicate CarriesActions(kind: nat) { kind in {3, 4, 5} }

  function InstructionFormatOf(kind: nat): Format {
    match InstructionFormat(kind) case Some(fmt) => fmt case None => []
  }

  function EncodeInstruction(i: Instruction): (s: seq<byte>)
    ensures |s| >= 4
  {
    match i
    case PlainInstruction(kind, values) => Tagged(kind, InstructionFormatOf(kind), values)
    case ApplyActions(kind, actions) =>
      Be(kind, 2) + Be(8 + |EncodeActions(actions)|, 2) + (Zeros(4) + EncodeActions(actions))
  }

  /** `OFPInstruction.parser`: the instruction and its declared length. */
  function ParseInstruction(buf: seq<byte>, offset: nat): Result<(Instruction, nat)> {
    var kind :- ReadNum(buf, offset, 2);
    var len :- ReadNum(buf, offset + 2, 2);
    if InstructionFormat(kind).Some? then
      var values :- UnpackFrom(InstructionFormatOf(kind), buf, offset + 4);
      Ok((PlainInstruction(kind, values), len))
    else if CarriesActions(kind) then
      var actions :- ParseActionsAt(buf, offset + 8, offset + len);
      Ok((ApplyActions(kind, actions), len))
    else Err(ValueError)
  }

  predicate WellFormedInstruction(i: Instruction) {
    && |EncodeInstruction(i)| < 0x1_0000
    && match i
       case PlainInstruction(kind, values) => InstructionFormat(kind).Some? && Fits(InstructionFormatOf(kind), values)
       case ApplyActions(kind, actions) => CarriesActions(kind) && AllWellFormed(actions)
  }

  lemma InstructionFormats(kind: nat)
    ensures InstructionFormat(kind).Some? ==> kind < 7 && !CarriesActions(kind) && Size(InstructionFormatOf(kind)) <= 20
  {
    assert Size([Num(1), Pad(3)]) == 4 && Size([Pad(4), Num(8), Num(8)]) == 20 && Size([Num(4)]) == 4;
  }

  lemma InstructionReadable(i: Instruction)
    requires WellFormedInstruction(i)
    ensures Readable(ParseInstruction, EncodeInstruction, i)
  {
    forall buf: seq<byte>, offset: nat | Has(buf, offset, EncodeInstruction(i))
      ensures ParseInstruction(buf, offset) == Ok((i, |EncodeInstruction(i)|))
    {
      InstructionRoundTrip(i, buf, offset);
    }
  }

  lemma InstructionRoundTrip(i: Instruction, buf: seq<byte>, offset: nat)
    requires WellFormedInstruction(i)
    requires Has(buf, offset, EncodeInstruction(i))
    ensures ParseInstruction(buf, offset) == Ok((i, |EncodeInstruction(i)|))
  {
    hide Be, ReadNum, Has, Tagged, Fits, UnpackFrom, EncodeActions, ParseActionsAt, AllWellFormed, InstructionFormat;
    InstructionFormats(i.kind);
    match i
    case PlainInstruction(kind, values) =>
      ReadTagged(kind, InstructionFormatOf(kind), values, buf, offset);
    case ApplyActions(kind, actions) =>
      NoPlainFormat(kind);
      ReadTag(kind, 8 + |EncodeActions(actions)|, Zeros(4) + EncodeActions(actions), buf, offset);
      HasSplit(buf, offset + 4, Zeros(4), EncodeActions(actions));
      ActionRoundTrip.ActionsAtRoundTrip(actions, buf, offset + 8);
  }

  lemma NoPlainFormat(kind: nat)
    requires CarriesActions(kind)
    ensures InstructionFormat(kind).None? && kind < 0x1_0000
  {
  }

  // -- meter bands -------------------------------------------------------------------

  datatype Band = Band(kind: nat, values: seq<Value>)

  function BandFormat(kind: nat): Option<Format> {
    match kind
    case 1 => Some([Num(4), Num(4), Pad(4)])
    case 2 => Some([Num(4), Num(4), Num(1), Pad(3)])
    case 0xFFFF => Some([Num(4), Num(4), Num(4)])
    case _ => None
  }

  function BandFormatOf(kind: nat): Format {
    match BandFormat(kind) case Some(fmt) => fmt case None => []
  }

  function EncodeBand(b: Band): seq<byte> { Tagged(b.kind, BandFormatOf(b.kind), b.values) }

  function ParseBand(buf: seq<byte>, offset: nat): Result<(Band, nat)> {
    var kind :- ReadNum(buf, offset, 2);
    var len :- ReadNum(buf, offset + 2, 2);
    if BandFormat(kind).None? then Err(ValueError)
    else
      var values :- UnpackFrom(BandFormatOf(kind), buf, offset + 4);
      Ok((Band(kind, values), len))
  }

  predicate WellFormedBand(b: Band) {
    BandFormat(b.kind).Some? && Fits(BandFormatOf(b.kind), b.values)
  }

  lemma BandSize(b: Band)
    requires BandFormat(b.kind).Some?
    ensures Size(BandFormatOf(b.kind)) == 12 && b.kind < 0x1_0000
  {
    assert Size([Num(4), Num(4), Pad(4)]) == 12;
    assert Size([Num(4), Num(4), Num(1), Pad(3)]) == 12;
    assert Size([Num(4), Num(4), Num(4)]) == 12;
  }

  lemma BandReadable(b: Band)
    requires WellFormedBand(b)
    ensures Readable(ParseBand, EncodeBand, b)
  {
    hide Be, ReadNum, Has, Tagged, Fits, UnpackFrom, BandFormat;
    BandSize(b);
    forall buf: seq<byte>, offset: nat | Has(buf, offset, EncodeBand(b))
      ensures ParseBand(buf, offset) == Ok((b, |EncodeBand(b)|))
    {
      ReadTagged(b.kind, BandFormatOf(b.kind), b.values, buf, offset);
    }
  }

  // -- buckets -----------------------------------------------------------------------

  datatype Bucket = Bucket(weight: nat, watchPort: nat, watchGroup: nat, actions: seq<Action>)

  const BUCKET_SIZE := 16

  function BucketHead(len: nat, b: Bucket): (s: seq<byte>)
    ensures |s| == BUCKET_SIZE
  {
    Be(len, 2) + Be(b.weight, 2) + Be(b.watchPort, 4) + Be(b.watchGroup, 4) + Zeros(4)
  }

  function EncodeBucket(b: Bucket): seq<byte> {
    BucketHead(BUCKET_SIZE + |EncodeActions(b.actions)|, b) + EncodeActions(b.actions)
  }

  /** `OFPBucket.parser`. */
  function ParseBucket(buf: seq<byte>, offset: nat): Result<(Bucket, nat)> {
    if offset + BUCKET_SIZE > |buf| then Err(StructError)
    else
      var len := Un(buf[offset..offset + 2]);
      var actions :- ParseActionsAt(buf, offset + BUCKET_SIZE, offset + len);
      var weight := Un(buf[offset + 2..offset + 4]);
      Ok((Bucket(weight, Un(buf[offset + 4..offset + 8]), Un(buf[offset + 8..offset + 12]), actions), len))
  }

  predicate WellFormedBucket(b: Bucket) {
    && |EncodeBucket(b)| < 0x1_0000
    && b.weight < 0x1_0000 && b.watchPort < 0x1_0000_0000 && b.watchGroup < 0x1_0000_0000
    && AllWellFormed(b.actions)
  }

  lemma BucketHeadFields(len: nat, b: Bucket, buf: seq<byte>, offset: nat)
    requires len < 0x1_0000 && b.weight < 0x1_0000 && b.watchPort < 0x1_0000_0000 && b.watchGroup < 0x1_0000_0000
    requires Has(buf, offset, BucketHead(len, b))
    ensures Un(buf[offset..offset + 2]) == len && Un(buf[offset + 2..offset + 4]) == b.weight
    ensures Un(buf[offset + 4..offset + 8]) == b.watchPort && Un(buf[offset + 8..offset + 12]) == b.watchGroup
  {
    hide Be;
    var head := buf[offset..offset + BUCKET_SIZE];
    assert head == BucketHead(len, b);
    assert Pow256(2) == 0x1_0000 && Pow256(4) == 0x1_0000_0000;
    UnBe(len, 2);
    UnBe(b.weight, 2);
    UnBe(b.watchPort, 4);
    UnBe(b.watchGroup, 4);
    assert buf[offset..offset + 2] == head[..2] == Be(len, 2);
    assert buf[offset + 2..offset + 4] == head[2..4] == Be(b.weight, 2);
    assert buf[offset + 4..offset + 8] == head[4..8] == Be(b.watchPort, 4);
    assert buf[offset + 8..offset + 12] == head[8..12] == Be(b.watchGroup, 4);
  }

  lemma BucketReadable(b: Bucket)
    requires WellFormedBucket(b)
    ensures Readable(ParseBucket, EncodeBucket, b)
  {
    hide BucketHead, Un, Has, EncodeActions, ParseActionsAt, AllWellFormed;
    var len := BUCKET_SIZE + |EncodeActions(b.actions)|;
    forall buf: seq<byte>, offset: nat | Has(buf, offset, EncodeBucket(b))
      ensures ParseBucket(buf, offset) == Ok((b, |EncodeBucket(b)|))
    {
      HasSplit(buf, offset, BucketHead(len, b), EncodeActions(b.actions));
      BucketHeadFields(len, b, buf, offset);
      HasLength(buf, offset, EncodeBucket(b));
      ActionRoundTrip.ActionsAtRoundTrip(b.actions, buf, offset + BUCKET_SIZE);
    }
  }

  lemma HasLength(buf: seq<byte>, offset: nat, data: seq<byte>)
    requires Has(buf, offset, data)
    ensures offset + |data| <= |buf|
  {
  }

  /** The round-up of a bucket's length changes nothing: what comes before it is a
      multiple of eight already. */
  lemma BucketNeedsNoPadding(b: Bucket)
    requires AllWellFormed(b.actions)
    ensures RoundUp8(|EncodeBucket(b)|) == |EncodeBucket(b)|
  {
    hide EncodeActions, BucketHead;
    ActionRoundTrip.ListAligned(b.actions);
  }

  // -- messages ------------------------------------------------------------------------

  /** The messages modelled field by field. `Other` is a message of a remaining
      class, kept as the octets it arrived in. */
  datatype Message =
    | FlowMod(fixed: seq<Value>, flow: FlowMatch, instructions: seq<Instruction>)
    | GroupMod(fixed: seq<Value>, buckets: seq<Bucket>)
    | PacketOut(bufferId: nat, inPort: nat, actions: seq<Action>, data: Option<seq<byte>>)
    | MeterMod(fixed: seq<Value>, bands: seq<Band>)
    | Barrier(reply: bool)
    | Echo(reply: bool, payload: Option<seq<byte>>)
    | Other(kind: nat, frame: seq<byte>)

  const VERSION := 4
  const HELLO := 0
  const NO_BUFFER := 0xFFFF_FFFF
  const HEADER_SIZE := 8

  const FLOW_MOD_FORMAT: Format :=
    [Num(8), Num(8), Num(1), Num(1), Num(2), Num(2), Num(2), Num(4), Num(4), Num(4), Num(2), Pad(2)]
  const GROUP_MOD_FORMAT: Format := [Num(2), Num(1), Pad(1), Num(4)]
  const METER_MOD_FORMAT: Format := [Num(2), Num(2), Num(4)]

  lemma FormatSizes()
    ensures Size(FLOW_MOD_FORMAT) == 40 && Size(GROUP_MOD_FORMAT) == 8 && Size(METER_MOD_FORMAT) == 8
  {
    assert Size([Num(4), Num(4), Num(2), Pad(2)]) == 12;
    assert FLOW_MOD_FORMAT[8..] == [Num(4), Num(4), Num(2), Pad(2)];
    assert FLOW_MOD_FORMAT[6..] == [Num(2), Num(4)] + FLOW_MOD_FORMAT[8..];
    assert Size(FLOW_MOD_FORMAT[6..]) == 18;
    assert Size(FLOW_MOD_FORMAT[4..]) == 22 by { assert FLOW_MOD_FORMAT[4..][2..] == FLOW_MOD_FORMAT[6..]; }
    assert Size(FLOW_MOD_FORMAT[2..]) == 24 by { assert FLOW_MOD_FORMAT[2..][2..] == FLOW_MOD_FORMAT[4..]; }
  }

  function TypeOf(m: Message): nat {
    match m
    case FlowMod(_, _, _) => 14
    case GroupMod(_, _) => 15
    case PacketOut(_, _, _, _) => 13
    case MeterMod(_, _) => 29
    case Barrier(reply) => if reply then 21 else 20
    case Echo(reply, _) => if reply then 3 else 2
    case Other(kind, _) => kind
  }

  /** The message types a class is registered for. */
  predicate RegisteredType(kind: nat) { kind < 30 && kind != 18 }

  function PacketOutHead(m: Message): (s: seq<byte>)
    requires m.PacketOut?
    ensures |s| == 16
  {
    Be(m.bufferId, 4) + Be(m.inPort, 4) + Be(|EncodeActions(m.actions)|, 2) + Zeros(6)
  }

  /** What follows the header. */
  function EncodeBody(m: Message): seq<byte> {
    match m
    case FlowMod(fixed, flow, instructions) =>
      Pack(FLOW_MOD_FORMAT, fixed) + EncodeMatch(flow) + Concat(EncodeInstruction, instructions)
    case GroupMod(fixed, buckets) => Pack(GROUP_MOD_FORMAT, fixed) + Concat(EncodeBucket, buckets)
    case PacketOut(_, _, actions, data) =>
      PacketOutHead(m) + EncodeActions(actions) + OwnData(data)
    case MeterMod(fixed, bands) => Pack(METER_MOD_FORMAT, fixed) + Concat(EncodeBand, bands)
    case Barrier(_) => []
    case Echo(_, payload) => OwnData(payload)
    case Other(_, frame) => Drop(frame, HEADER_SIZE)
  }

  function Header(kind: nat, len: nat, xid: nat): (s: seq<byte>)
    ensures |s| == HEADER_SIZE
  {
    Be(VERSION, 1) + Be(kind, 1) + Be(len, 2) + Be(xid, 4)
  }

  function EncodeMessage(m: Message, xid: nat): (s: seq<byte>)
    ensures |s| == HEADER_SIZE + |EncodeBody(m)|
  {
    Header(TypeOf(m), HEADER_SIZE + |EncodeBody(m)|, xid) + EncodeBody(m)
  }

  // -- parsing -------------------------------------------------------------------------

  function ParseFlowMod(buf: seq<byte>, msgLen: nat): Result<Message> {
    var fixed :- UnpackFrom(FLOW_MOD_FORMAT, buf, HEADER_SIZE);
    var (flow, matchLen) :- ParseMatch(buf, HEADER_SIZE + 40);
    var instructions :- ParseItems(ParseInstruction, buf, HEADER_SIZE + 40 + RoundUp8(matchLen), msgLen);
    Ok(FlowMod(fixed, flow, instructions))
  }

  function ParseGroupMod(buf: seq<byte>, msgLen: nat): Result<Message> {
    var fixed :- UnpackFrom(GROUP_MOD_FORMAT, buf, HEADER_SIZE);
    var buckets :- ParseItems(ParseBucket, buf, HEADER_SIZE + 8, msgLen);
    Ok(GroupMod(fixed, buckets))
  }

  function ParseMeterMod(buf: seq<byte>, msgLen: nat): Result<Message> {
    var fixed :- UnpackFrom(METER_MOD_FORMAT, buf, HEADER_SIZE);
    var bands :- ParseItems(ParseBand, buf, HEADER_SIZE + 8, msgLen);
    Ok(MeterMod(fixed, bands))
  }

  function ParsePacketOut(buf: seq<byte>): Result<Message> {
    if |buf| < 24 then Err(StructError)
    else
      var end := 24 + Un(buf[16..18]);
      var actions :- ParseActionsAt(buf, 24, end);
      var data := Drop(buf, end);
      Ok(PacketOut(Un(buf[8..12]), Un(buf[12..16]), actions, if data == [] then None else Some(data)))
  }

  /** The parsers of the remaining classes, whatever they do with a type, a length
      and a frame: make a message of it, raise, or not return. */
  type Reader = (nat, nat, seq<byte>) -> Result<Message>

  /** The parser of a registered class. */
  function ParseBody(other: Reader, kind: nat, msgLen: nat, buf: seq<byte>): Result<Message> {
    match kind
    case 13 => ParsePacketOut(buf)
    case 14 => ParseFlowMod(buf, msgLen)
    case 15 => ParseGroupMod(buf, msgLen)
    case 29 => ParseMeterMod(buf, msgLen)
    case 20 => Ok(Barrier(false))
    case 21 => Ok(Barrier(true))
    case 2 => Ok(Echo(false, Some(Drop(buf, HEADER_SIZE))))
    case 3 => Ok(Echo(true, Some(Drop(buf, HEADER_SIZE))))
    case _ => other(kind, msgLen, buf)
  }

  /** How `msg` ends: with a message and its transaction id, with no message (a
      type nobody registered, or a malformed body, which is logged), with the
      version exception that drops the channel, or not at all. */
  datatype Outcome = Parsed(message: Message, xid: nat) | Skipped | UnknownVersion | Hangs

  function ParseMessage(other: Reader, version: nat, kind: nat, msgLen: nat, xid: nat, buf: seq<byte>): Outcome {
    if version != VERSION && kind != HELLO then UnknownVersion
    else if !RegisteredType(kind) then Skipped
    else match ParseBody(other, kind, msgLen, buf)
      case Ok(m) => Parsed(m, xid)
      case Err(Endless) => Hangs
      case Err(_) => Skipped
  }

  // -- round trip ----------------------------------------------------------------------

  predicate WellFormedMessage(m: Message) {
    && HEADER_SIZE + |EncodeBody(m)| < 0x1_0000
    && match m
       case FlowMod(fixed, flow, instructions) =>
         && Fits(FLOW_MOD_FORMAT, fixed) && WellFormedMatch(flow)
         && forall i | i in instructions :: WellFormedInstruction(i)
       case GroupMod(fixed, buckets) =>
         Fits(GROUP_MOD_FORMAT, fixed) && forall b | b in buckets :: WellFormedBucket(b)
       case PacketOut(bufferId, inPort, actions, data) =>
         && bufferId < 0x1_0000_0000 && inPort < 0x1_0000_0000 && AllWellFormed(actions)
       case MeterMod(fixed, bands) =>
         Fits(METER_MOD_FORMAT, fixed) && forall b | b in bands :: WellFormedBand(b)
       case Barrier(_) => true
       case Echo(_, _) => true
       case Other(_, _) => false
  }

  /** A message as it reads back: empty packet data and no data are one thing, and
      an echo always carries data. */
  function Normal(m: Message): Message {
    match m
    case PacketOut(_, _, _, data) => if data == Some([]) then m.(data := None) else m
    case Echo(reply, None) => Echo(reply, Some([]))
    case _ => m
  }

  lemma BodyAt(m: Message, xid: nat)
    ensures Has(EncodeMessage(m, xid), HEADER_SIZE, EncodeBody(m))
    ensures Drop(EncodeMessage(m, xid), HEADER_SIZE) == EncodeBody(m)
  {
    hide EncodeBody, Header;
  }

  lemma FlowModRoundTrip(m: Message, xid: nat)
    requires m.FlowMod? && WellFormedMessage(m)
    ensures ParseFlowMod(EncodeMessage(m, xid), |EncodeMessage(m, xid)|) == Ok(m)
  {
    hide EncodeMessage, EncodeMatch, Has, Fits, WellFormedMatch, WellFormedInstruction;
    hide ParseMatch, Pack, Concat, ParseItems, UnpackFrom, MatchLength, Size;
    var s := EncodeMessage(m, xid);
    var tail := Concat(EncodeInstruction, m.instructions);
    FormatSizes();
    BodyAt(m, xid);
    assert EncodeBody(m) == Pack(FLOW_MOD_FORMAT, m.fixed) + (EncodeMatch(m.flow) + tail);
    HasSplit(s, HEADER_SIZE, Pack(FLOW_MOD_FORMAT, m.fixed), EncodeMatch(m.flow) + tail);
    UnpackFromHas(FLOW_MOD_FORMAT, m.fixed, s, HEADER_SIZE);
    HasSplit(s, HEADER_SIZE + 40, EncodeMatch(m.flow), tail);
    MatchRoundTrip(m.flow, s, HEADER_SIZE + 40);
    InstructionsReadable(m.instructions);
    ItemsRoundTrip(ParseInstruction, EncodeInstruction, m.instructions, s, HEADER_SIZE + 40 + |EncodeMatch(m.flow)|);
  }

  lemma InstructionsReadable(instructions: seq<Instruction>)
    requires forall i | i in instructions :: WellFormedInstruction(i)
    ensures forall i | i in instructions :: Readable(ParseInstruction, EncodeInstruction, i)
  {
    hide WellFormedInstruction, Readable;
    forall i | i in instructions
      ensures Readable(ParseInstruction, EncodeInstruction, i)
    {
      InstructionReadable(i);
    }
  }

  lemma GroupModRoundTrip(m: Message, xid: nat)
    requires m.GroupMod? && WellFormedMessage(m)
    ensures ParseGroupMod(EncodeMessage(m, xid), |EncodeMessage(m, xid)|) == Ok(m)
  {
    hide EncodeMessage, Has, Fits, WellFormedBucket, Pack, Concat, ParseItems, UnpackFrom, Size, Readable;
    var s := EncodeMessage(m, xid);
    FormatSizes();
    BodyAt(m, xid);
    HasSplit(s, HEADER_SIZE, Pack(GROUP_MOD_FORMAT, m.fixed), Concat(EncodeBucket, m.buckets));
    UnpackFromHas(GROUP_MOD_FORMAT, m.fixed, s, HEADER_SIZE);
    forall b | b in m.buckets
      ensures Readable(ParseBucket, EncodeBucket, b)
    {
      BucketReadable(b);
    }
    ItemsRoundTrip(ParseBucket, EncodeBucket, m.buckets, s, HEADER_SIZE + 8);
  }

  lemma MeterModRoundTrip(m: Message, xid: nat)
    requires m.MeterMod? && WellFormedMessage(m)
    ensures ParseMeterMod(EncodeMessage(m, xid), |EncodeMessage(m, xid)|) == Ok(m)
  {
    hide EncodeMessage, Has, Fits, WellFormedBand, Pack, Concat, ParseItems, UnpackFrom, Size, Readable;
    var s := EncodeMessage(m, xid);
    FormatSizes();
    BodyAt(m, xid);
    HasSplit(s, HEADER_SIZE, Pack(METER_MOD_FORMAT, m.fixed), Concat(EncodeBand, m.bands));
    UnpackFromHas(METER_MOD_FORMAT, m.fixed, s, HEADER_SIZE);
    forall b | b in m.bands
      ensures Readable(ParseBand, EncodeBand, b)
    {
      BandReadable(b);
    }
    ItemsRoundTrip(ParseBand, EncodeBand, m.bands, s, HEADER_SIZE + 8);
  }

  lemma PacketOutFields(m: Message, s: seq<byte>, tail: seq<byte>)
    requires m.PacketOut? && |EncodeActions(m.actions)| < 0x1_0000
    requires m.bufferId < 0x1_0000_0000 && m.inPort < 0x1_0000_0000
    requires |s| >= 24 && s[8..] == PacketOutHead(m) + tail
    ensures Un(s[8..12]) == m.bufferId && Un(s[12..16]) == m.inPort && Un(s[16..18]) == |EncodeActions(m.actions)|
  {
    hide Be, EncodeActions;
    assert Pow256(2) == 0x1_0000 && Pow256(4) == 0x1_0000_0000;
    UnBe(m.bufferId, 4);
    UnBe(m.inPort, 4);
    UnBe(|EncodeActions(m.actions)|, 2);
    var body := s[8..];
    assert s[8..12] == body[..4] == Be(m.bufferId, 4);
    assert s[12..16] == body[4..8] == Be(m.inPort, 4);
    assert s[16..18] == body[8..10] == Be(|EncodeActions(m.actions)|, 2);
  }

  lemma PacketOutRoundTrip(m: Message, xid: nat)
    requires m.PacketOut? && WellFormedMessage(m)
    ensures ParsePacketOut(EncodeMessage(m, xid)) == Ok(Normal(m))
  {
    hide EncodeMessage, Un, PacketOutHead, AllWellFormed, EncodeActions, ParseActionsAt;
    var s := EncodeMessage(m, xid);
    var data := OwnData(m.data);
    var acts := EncodeActions(m.actions);
    BodyAt(m, xid);
    assert EncodeBody(m) == PacketOutHead(m) + (acts + data);
    HasSplit(s, HEADER_SIZE, PacketOutHead(m), acts + data);
    HasSplit(s, 24, acts, data);
    PacketOutFields(m, s, acts + data);
    ActionRoundTrip.ActionsAtRoundTrip(m.actions, s, 24);
    assert Drop(s, 24 + |acts|) == data;
  }

  /** Parsing after serializing gives the message back, for every message. */
  lemma MessageRoundTrip(other: Reader, m: Message, xid: nat)
    requires WellFormedMessage(m)
    ensures var s := EncodeMessage(m, xid);
            ParseMessage(other, VERSION, TypeOf(m), |s|, xid, s) == Parsed(Normal(m), xid)
  {
    hide EncodeMessage, WellFormedMessage, Normal, ParseBody;
    ModelledMessage(m);
    BodyRoundTrip(other, m, xid);
  }

  lemma BodyRoundTrip(other: Reader, m: Message, xid: nat)
    requires WellFormedMessage(m)
    ensures ParseBody(other, TypeOf(m), |EncodeMessage(m, xid)|, EncodeMessage(m, xid)) == Ok(Normal(m))
  {
    hide EncodeMessage, ParseFlowMod, ParseGroupMod, ParseMeterMod, ParsePacketOut, WellFormedMessage, EncodeBody;
    ModelledMessage(m);
    match m
    case FlowMod(_, _, _) => FlowModRoundTrip(m, xid);
    case GroupMod(_, _) => GroupModRoundTrip(m, xid);
    case PacketOut(_, _, _, _) => PacketOutRoundTrip(m, xid);
    case MeterMod(_, _) => MeterModRoundTrip(m, xid);
    case Barrier(_) =>
    case Echo(_, payload) =>
      BodyAt(m, xid);
      EchoBody(m);
  }

  lemma EchoBody(m: Message)
    requires m.Echo?
    ensures Normal(m) == Echo(m.reply, Some(EncodeBody(m)))
  {
  }

  lemma ModelledMessage(m: Message)
    requires WellFormedMessage(m)
    ensures !m.Other? && HEADER_SIZE + |EncodeBody(m)| < 0x1_0000
  {
  }
}
