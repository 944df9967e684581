/** OpenFlow actions and the Nicira extensions, which nest actions to any depth
    inside the connection tracking action. */
module Actions {
  import opened Bytes
  import opened Layout
  import opened Oxm

  /** The zone of a connection tracking action: an immediate, a field holding it,
      or four octets given as a number. */
  datatype Zone = Immediate | Named(num: FieldNum) | Raw(word: nat)

  datatype Action =
    | Plain(kind: nat, values: seq<Value>)
    | SetField(field: OxmField)
    | Foreign(experimenter: nat)
    | Ct(flags: nat, zone: Zone, zoneOfsNbits: nat, recircTable: nat, alg: nat, actions: seq<Action>)
    | CtClear
    | Nat(flags: nat, ranges: seq<Option<seq<byte>>>)
    | NxUnknown(subtype: nat, data: seq<byte>)

  const SET_FIELD := 25
  const EXPERIMENTER := 0xFFFF
  const CT := 35
  const NAT := 36
  const CT_CLEAR := 43

  /** The registry of actions that are exactly their fixed part. */
  function PlainFormat(kind: nat): Option<Format> {
    match kind
    case 0 => Some([Num(4), Num(2), Pad(6)])
    case 11 | 12 | 16 | 18 | 24 | 27 => Some([Pad(4)])
    case 15 | 23 => Some([Num(1), Pad(3)])
    case 17 | 19 | 20 | 26 => Some([Num(2), Pad(2)])
    case 21 | 22 => Some([Num(4)])
    case _ => None
  }

  function FormatOf(kind: nat): Format {
    match PlainFormat(kind)
    case Some(fmt) => fmt
    case None => []
  }

  lemma PlainSize(kind: nat)
    requires PlainFormat(kind).Some?
    ensures Size(FormatOf(kind)) == if kind == 0 then 12 else 4
    ensures kind < 0x1_0000 && kind != SET_FIELD && kind != EXPERIMENTER
  {
    assert Size([Num(4), Num(2), Pad(6)]) == 12;
    assert Size([Pad(4)]) == 4 && Size([Num(4)]) == 4;
    assert Size([Num(1), Pad(3)]) == 4 && Size([Num(2), Pad(2)]) == 4;
  }

  // -- zones --------------------------------------------------------------------

  /** `_ZoneSrc.from_user`, cut to the four octets `4s` packs. */
  function ZoneOctets(zone: Zone): (s: seq<byte>)
    ensures |s| == 4
  {
    match zone
    case Immediate => Zeros(4)
    case Raw(word) => Be(word, 4)
    case Named(num) =>
      var size := match Registered(num) case Some(info) => info.size case None => 0;
      var (t, exp) := ExpHeader(num);
      Be(t * 512 + |exp| + size, 4)
  }

  /** `_ZoneSrc.to_user`. */
  function ZoneOf(octets: seq<byte>): Result<Zone>
    requires |octets| == 4
  {
    if octets == Zeros(4) then Ok(Immediate)
    else
      var h :- ParseHeader(octets, 0);
      if Registered(h.num).Some? || h.num.Std? then Ok(Named(h.num)) else Err(KeyError)
  }

  predicate WellFormedZone(zone: Zone) {
    zone.Immediate? || (zone.Named? && zone.num.Std? && Registered(zone.num).Some?)
  }

  /** The zones that can be packed: an integer of 32 bits, any numbered field, any
      experimenter field with a name. */
  predicate ZonePacks(zone: Zone) {
    match zone
    case Immediate => true
    case Raw(word) => word < 0x1_0000_0000
    case Named(num) => if num.Std? then num.n < 0x80_0000 else Registered(num).Some?
  }

  /** Of all zones that can be packed, exactly the immediate and the registered
      fields without an experimenter read back: an integer comes back as something
      else, an experimenter field is cut off behind its header, and a field of
      unknown width announces no value. */
  lemma ZoneExact(zone: Zone)
    requires ZonePacks(zone)
    ensures ZoneOf(ZoneOctets(zone)) == Ok(zone) <==> WellFormedZone(zone)
  {
    hide Be, BasicField, PacketRegister, Nxm1Field, NshField;
    if zone.Named? {
      if WellFormedZone(zone) {
        ZoneHeader(zone.num.n, Registered(zone.num).value.size);
      } else {
        LostZone(zone.num);
      }
    }
  }

  lemma LostZone(num: FieldNum)
    requires ZonePacks(Named(num)) && !WellFormedZone(Named(num))
    ensures ZoneOctets(Named(num)) == Zeros(4) || ParseHeader(ZoneOctets(Named(num)), 0).Err?
  {
    hide Be, BasicField, PacketRegister, Nxm0Field, Nxm1Field, NshField;
    var octets := ZoneOctets(Named(num));
    var (t, exp) := ExpHeader(num);
    var length := |exp| + match Registered(num) case Some(info) => info.size case None => 0;
    var word := t * 512 + length;
    HeaderFields(t, 0, length);
    assert octets[0..0 + 4] == octets == Be(word, 4);
    ReadNumHas(octets, 0, word, 4);
    assert num.Exp? ==> t / 128 == EXPERIMENTER_CLASS;
  }

  /** A zone held in `tcp_flags` packs, and cannot be read again. */
  lemma TcpFlagsZoneLost()
    ensures var zone := Named(Exp(ONF_ID, EXP_BASE + 42));
            ZonePacks(zone) && ZoneOf(ZoneOctets(zone)) != Ok(zone)
  {
    ZoneExact(Named(Exp(ONF_ID, EXP_BASE + 42)));
  }

  lemma ZoneHeader(n: nat, size: nat)
    requires n / 128 < EXPERIMENTER_CLASS && 1 <= size <= 16
    ensures var s := Be(n * 512 + size, 4);
            s != Zeros(4) && ParseHeader(s, 0).Ok? && ParseHeader(s, 0).value.num == Std(n)
  {
    HeaderFields(n, 0, size);
    var word := n * 512 + size;
    var s := Be(word, 4);
    UnBe(word, 4);
    assert s[0..0 + 4] == s;
    if s == Zeros(4) {
      assert Un(s) == 0 by {
        UnBe(0, 4);
        assert Be(0, 4) == Zeros(4);
      }
    }
    ParseHeaderCases(s, 0, Std(n), n, 0, false, size);
  }

  // -- address translation ranges --------------------------------------------------

  /** Width of each range in packing order; the last two are port numbers. */
  const RANGE_WIDTHS: seq<nat> := [4, 4, 16, 16, 2, 2]

  function RangeBits(ranges: seq<Option<seq<byte>>>): nat {
    if ranges == [] then 0 else (if ranges[0].Some? then 1 else 0) + 2 * RangeBits(ranges[1..])
  }

  function RangeOctets(ranges: seq<Option<seq<byte>>>): seq<byte> {
    if ranges == [] then []
    else (if ranges[0].Some? then ranges[0].value else []) + RangeOctets(ranges[1..])
  }

  /** The range loop of `NXActionNAT.parser`. At the end of the body a slice comes
      out short: a port number is widened, an address refused. */
  function ParseRanges(present: nat, widths: seq<nat>, rest: seq<byte>): Result<seq<Option<seq<byte>>>> {
    if widths == [] then Ok([])
    else if present % 2 == 0 then
      var more :- ParseRanges(present / 2, widths[1..], rest);
      Ok([None] + more)
    else
      var octets := Slice(rest, 0, widths[0]);
      if |octets| < widths[0] && widths[0] != 2 then Err(ValueError)
      else
        var more :- ParseRanges(present / 2, widths[1..], Drop(rest, widths[0]));
        Ok([Some(LeftPad(octets, widths[0]))] + more)
  }

  predicate RangesFit(ranges: seq<Option<seq<byte>>>, widths: seq<nat>) {
    |ranges| == |widths| && forall i | 0 <= i < |ranges| :: ranges[i].Some? ==> |ranges[i].value| == widths[i]
  }

  lemma {:induction false} RangesRoundTrip(ranges: seq<Option<seq<byte>>>, widths: seq<nat>, tail: seq<byte>)
    requires RangesFit(ranges, widths)
    ensures ParseRanges(RangeBits(ranges), widths, RangeOctets(ranges) + tail) == Ok(ranges)
  {
    if ranges != [] {
      RangesRoundTrip(ranges[1..], widths[1..], tail);
      assert ranges == [ranges[0]] + ranges[1..];
      assert RangeBits(ranges) / 2 == RangeBits(ranges[1..]);
      var first := if ranges[0].Some? then ranges[0].value else [];
      assert RangeOctets(ranges) + tail == first + (RangeOctets(ranges[1..]) + tail);
      if ranges[0].Some? {
        assert Drop(first + (RangeOctets(ranges[1..]) + tail), widths[0]) == RangeOctets(ranges[1..]) + tail;
      } else {
        assert RangeOctets(ranges) + tail == RangeOctets(ranges[1..]) + tail;
      }
    }
  }

  lemma {:induction false} RangeBitsBound(ranges: seq<Option<seq<byte>>>)
    requires |ranges| <= 6
    ensures RangeBits(ranges) < 64
    ensures |ranges| == 5 ==> RangeBits(ranges) < 32
    ensures |ranges| == 4 ==> RangeBits(ranges) < 16
    ensures |ranges| == 3 ==> RangeBits(ranges) < 8
    ensures |ranges| == 2 ==> RangeBits(ranges) < 4
    ensures |ranges| <= 1 ==> RangeBits(ranges) < 2
  {
    if ranges != [] { RangeBitsBound(ranges[1..]); }
  }

  // -- encoding ----------------------------------------------------------------------

  /** `NXAction.serialize`: type, length, experimenter, subtype, body, padding. */
  function NxFrame(subtype: nat, data: seq<byte>): (s: seq<byte>)
    ensures |s| == RoundUp8(10 + |data|)
  {
    var len := RoundUp8(10 + |data|);
    Be(EXPERIMENTER, 2) + Be(len, 2) + Be(NX_ID, 4) + Be(subtype, 2) + data + Zeros(len - 10 - |data|)
  }

  /** Octets of the TLV as `OFPActionSetField.serialize` counts them, without an
      experimenter header. */
  function SetFieldPayload(f: OxmField): nat {
    4 + |f.value| * (if HasMask(f) then 2 else 1)
  }

  function SetFieldHead(f: OxmField): (s: seq<byte>)
    ensures |s| == 4
  {
    Be(SET_FIELD, 2) + Be(RoundUp8(4 + SetFieldPayload(f)), 2)
  }

  function SetFieldPad(f: OxmField): nat {
    RoundUp8(4 + SetFieldPayload(f)) - 4 - SetFieldPayload(f)
  }

  /** `OFPActionSetField.serialize`: header, TLV, and padding written where the
      TLV is taken to end. */
  function EncodeSetField(f: OxmField): seq<byte> {
    var tagged := SetFieldHead(f) + Tlv(f);
    if SetFieldPad(f) > 0 then Overlay(tagged, 4 + SetFieldPayload(f), Zeros(SetFieldPad(f))) else tagged
  }

  /** The padding of a set-field action, written where the TLV is taken to end, lies
      inside the declared length and covers nothing but zero octets of the TLV. */
  predicate PaddingHarmless(f: OxmField) {
    && 4 + |Tlv(f)| <= RoundUp8(4 + SetFieldPayload(f))
    && forall i | SetFieldPayload(f) <= i < |Tlv(f)| :: Tlv(f)[i] == 0
  }

  function CtFixed(a: Action): (s: seq<byte>)
    requires a.Ct?
    ensures |s| == 14
  {
    Be(a.flags, 2) + ZoneOctets(a.zone) + Be(a.zoneOfsNbits, 2) + Be(a.recircTable, 1) + Zeros(3) + Be(a.alg, 2)
  }

  function NatBody(a: Action): seq<byte>
    requires a.Nat?
  {
    Zeros(2) + Be(a.flags, 2) + Be(RangeBits(a.ranges), 2) + RangeOctets(a.ranges)
  }

  /** Every octet the action's serializer writes, from its offset on. */
  function EncodeAction(a: Action): seq<byte>
    decreases a, 1
  {
    match a
    case Plain(kind, values) => Tagged(kind, FormatOf(kind), values)
    case SetField(f) => EncodeSetField(f)
    case Foreign(experimenter) => Be(EXPERIMENTER, 2) + Be(8, 2) + Be(experimenter, 4)
    case Ct(_, _, _, _, _, actions) => NxFrame(CT, CtFixed(a) + EncodeActions(actions))
    case CtClear => NxFrame(CT_CLEAR, Zeros(6))
    case Nat(_, _) => NxFrame(NAT, NatBody(a))
    case NxUnknown(subtype, data) => NxFrame(subtype, data)
  }

  /** Actions serialized one behind the other into a fresh buffer. */
  function EncodeActions(actions: seq<Action>): seq<byte>
    decreases actions, 0
  {
    if actions == [] then [] else EncodeAction(actions[0]) + EncodeActions(actions[1..])
  }

  /** The length the action declares, and its serializer returns. */
  function ActionLen(a: Action): nat {
    if a.SetField? then RoundUp8(4 + SetFieldPayload(a.field)) else |EncodeAction(a)|
  }

  /** Every declared length is a multiple of eight, whatever the action holds. */
  lemma ActionAligned(a: Action)
    requires a.Plain? ==> PlainFormat(a.kind).Some?
    ensures ActionLen(a) % 8 == 0 && ActionLen(a) >= 8
  {
    if a.Plain? { PlainSize(a.kind); }
  }

  // -- decoding ----------------------------------------------------------------------

  /** `OFPAction.parser`: the action at `offset` and the length it declares. */
  function ParseAction(buf: seq<byte>, offset: nat): Result<(Action, nat)>
    decreases |buf|, 0
  {
    var kind :- ReadNum(buf, offset, 2);
    var len :- ReadNum(buf, offset + 2, 2);
    if PlainFormat(kind).Some? then
      var values :- UnpackFrom(FormatOf(kind), buf, offset + 4);
      Ok((Plain(kind, values), len))
    else if kind == SET_FIELD then
      var (f, _) :- OxmParse(buf, offset + 4);
      var _ :- ToUser(f);
      Ok((SetField(f), len))
    else if kind == EXPERIMENTER then
      var experimenter :- ReadNum(buf, offset + 4, 4);
      if experimenter != NX_ID then Ok((Foreign(experimenter), len))
      else WithLen(ParseNx(Slice(buf, offset + 8, offset + len)), len)
    else Err(ValueError)
  }

  /** `action.len = len_`. */
  function WithLen(r: Result<Action>, len: nat): Result<(Action, nat)> {
    match r
    case Ok(a) => Ok((a, len))
    case Err(e) => Err(e)
  }

  /** `NXAction.parse`: dispatch on the subtype. */
  function ParseNx(buf: seq<byte>): Result<Action>
    decreases |buf|, 0
  {
    var subtype :- ReadNum(buf, 0, 2);
    var body := Drop(buf, 2);
    if subtype == CT then ParseCt(body)
    else if subtype == NAT then ParseNat(body)
    else if subtype == CT_CLEAR then
      if |body| < 6 then Err(StructError) else Ok(CtClear)
    else Ok(NxUnknown(subtype, body))
  }

  function ParseNat(buf: seq<byte>): Result<Action> {
    var flags :- ReadNum(buf, 2, 2);
    var present :- ReadNum(buf, 4, 2);
    var ranges :- ParseRanges(present, RANGE_WIDTHS, Drop(buf, 6));
    Ok(Nat(flags, ranges))
  }

  /** `NXActionCT.parser`. */
  function ParseCt(buf: seq<byte>): Result<Action>
    decreases |buf|, 0
  {
    if |buf| < 14 then Err(StructError)
    else
      var zone :- ZoneOf(buf[2..6]);
      var actions :- ParseActions(Drop(buf, 14));
      Ok(Ct(Un(buf[0..2]), zone, Un(buf[6..8]), Un(buf[8..9]), Un(buf[12..14]), actions))
  }

  /** The `while rest` loop of the connection tracking action: each action cuts
      its declared length off the front. A declared length of zero cuts nothing,
      so the loop would parse the same action for ever. */
  function ParseActions(rest: seq<byte>): Result<seq<Action>>
    decreases |rest|, 1
  {
    if rest == [] then Ok([])
    else
      var (a, len) :- ParseAction(rest, 0);
      if len == 0 then Err(Endless)
      else Collected([a], ParseActions(Drop(rest, len)))
  }

  /** The `while pos < end` loop of instructions, buckets and packet out. */
  function ParseActionsAt(buf: seq<byte>, pos: nat, end: int): Result<seq<Action>>
    decreases end - pos
  {
    if pos >= end then Ok([])
    else
      var (a, len) :- ParseAction(buf, pos);
      if len == 0 then Err(Endless)
      else Collected([a], ParseActionsAt(buf, pos + len, end))
  }

  // -- round trip ----------------------------------------------------------------------

  /** What round trips: fields in range; a zone that reads back; a set-field whose
      padding does no harm; an experimenter action that is not Nicira's; an unknown
      subtype whose data ends on the boundary. */
  predicate WellFormed(a: Action)
    decreases a
  {
    && |EncodeAction(a)| < 0x1_0000
    && match a
       case Plain(kind, values) => PlainFormat(kind).Some? && Fits(FormatOf(kind), values)
       case SetField(f) => WellFormedOxm(f) && PaddingHarmless(f)
       case Foreign(experimenter) => experimenter < 0x1_0000_0000 && experimenter != NX_ID
       case Ct(flags, zone, zoneOfsNbits, recircTable, alg, actions) =>
         && flags < 0x1_0000 && zoneOfsNbits < 0x1_0000 && recircTable < 0x100 && alg < 0x1_0000
         && WellFormedZone(zone)
         && forall b | b in actions :: WellFormed(b)
       case CtClear => true
       case Nat(flags, ranges) => flags < 0x1_0000 && RangesFit(ranges, RANGE_WIDTHS)
       case NxUnknown(subtype, data) =>
         subtype < 0x1_0000 && subtype != CT && subtype != NAT && subtype != CT_CLEAR && |data| % 8 == 6
  }

  predicate AllWellFormed(actions: seq<Action>) {
    forall a | a in actions :: WellFormed(a)
  }
}
