/** The action serializers and parsers as the loops over buffers they are, each
    proved to compute the encoding and the decoding of module Actions. */
module ActionCodec {
  import opened Bytes
  import opened Layout
  import opened Oxm
  import opened Actions
  import ActionRoundTrip

  /** What the serializers can pack without raising. */
  predicate ActionFits(a: Action)
    decreases a
  {
    && ActionLen(a) < 0x1_0000
    && match a
       case Plain(kind, values) => PlainFormat(kind).Some? && Fits(FormatOf(kind), values)
       case SetField(f) => Writable(f)
       case Foreign(experimenter) => experimenter < 0x1_0000_0000
       case Ct(flags, zone, zoneOfsNbits, recircTable, alg, actions) =>
         && flags < 0x1_0000 && zoneOfsNbits < 0x1_0000 && recircTable < 0x100 && alg < 0x1_0000
         && ZonePacks(zone)
         && forall b | b in actions :: ActionFits(b)
       case CtClear => true
       case Nat(flags, ranges) => flags < 0x1_0000 && RangesFit(ranges, RANGE_WIDTHS)
       case NxUnknown(subtype, _) => subtype < 0x1_0000
  }

  predicate ActionsFit(actions: seq<Action>) {
    forall a | a in actions :: ActionFits(a)
  }

  lemma {:induction false} EncodeActionsSnoc(actions: seq<Action>, a: Action)
    ensures EncodeActions(actions + [a]) == EncodeActions(actions) + EncodeAction(a)
  {
    hide EncodeAction;
    if actions == [] {
      assert [a][1..] == [];
    } else {
      EncodeActionsSnoc(actions[1..], a);
      assert (actions + [a])[1..] == actions[1..] + [a];
    }
  }

  /** The three writes of a set-field action are one write of its encoding. */
  lemma SetFieldWrites(before: seq<byte>, offset: nat, f: OxmField, tagged: seq<byte>)
    requires HasMask(f) ==> |f.mask.value| == |f.value|
    requires tagged == Overlay(Overlay(before, offset, SetFieldHead(f)), offset + 4, Tlv(f))
    ensures SetFieldPad(f) == 0 ==> tagged == Overlay(before, offset, EncodeSetField(f))
    ensures var at, pad := offset + 4 + SetFieldPayload(f), SetFieldPad(f);
            pad > 0 ==> Overlay(tagged, at, Zeros(pad)) == Overlay(before, offset, EncodeSetField(f))
  {
    hide Overlay, Be, Tlv;
    var head := SetFieldHead(f);
    OverlayNext(before, offset, head, Tlv(f));
    TlvCovers(f);
    OverlayTwice(before, offset, head + Tlv(f), 4 + SetFieldPayload(f), Zeros(SetFieldPad(f)));
  }

  /** `OFPActionSetField.serialize`. */
  method SerializeSetField(f: OxmField, buf: ByteBuffer, offset: nat) returns (len: nat)
    requires Writable(f)
    modifies buf
    ensures buf.bytes == Overlay(old(buf.bytes), offset, EncodeSetField(f))
    ensures len == ActionLen(SetField(f))
  {
    hide Overlay, Be, Tlv, Writable, EncodeSetField;
    var payload := SetFieldPayload(f);
    len := RoundUp8(4 + payload);
    var padLen := len - 4 - payload;
    WritableOutcome(f);
    ghost var before := buf.bytes;
    buf.PackInto(offset, Be(SET_FIELD, 2) + Be(len, 2));
    var _ := OxmSerialize(f, buf, offset + 4);
    SetFieldWrites(before, offset, f, buf.bytes);
    if padLen > 0 {
      buf.PackInto(offset + 4 + payload, Zeros(padLen));
    }
  }

  lemma TlvCovers(f: OxmField)
    requires HasMask(f) ==> |f.mask.value| == |f.value|
    ensures |Tlv(f)| >= SetFieldPayload(f)
  {
  }

  /** `serialize` of every action: the octets it writes and the length it
      returns. Nested actions go through a buffer of their own. */
  method SerializeAction(a: Action, buf: ByteBuffer, offset: nat) returns (len: nat)
    requires ActionFits(a)
    modifies buf
    ensures buf.bytes == Overlay(old(buf.bytes), offset, EncodeAction(a))
    ensures len == ActionLen(a)
    decreases a, 1
  {
    hide Overlay, Be, Tlv, Pack, Fits, Registered, EncodeSetField, NxFrame;
    match a {
      case Plain(kind, values) =>
        var body := Pack(FormatOf(kind), values);
        len := 4 + |body|;
        buf.PackInto(offset, Be(kind, 2) + Be(len, 2) + body);
      case SetField(f) =>
        len := SerializeSetField(f, buf, offset);
      case Foreign(experimenter) =>
        len := 8;
        buf.PackInto(offset, Be(EXPERIMENTER, 2) + Be(8, 2) + Be(experimenter, 4));
      case Ct(_, _, _, _, _, actions) =>
        var nested := SerializeActionList(actions);
        len := SerializeNx(CT, CtFixed(a) + nested.bytes, buf, offset);
      case CtClear =>
        len := SerializeNx(CT_CLEAR, Zeros(6), buf, offset);
      case Nat(flags, ranges) =>
        var body := SerializeNatBody(flags, ranges);
        len := SerializeNx(NAT, body, buf, offset);
      case NxUnknown(subtype, data) =>
        len := SerializeNx(subtype, data, buf, offset);
    }
  }

  /** `for action in actions: action.serialize(body, len(body))`. */
  method SerializeActionList(actions: seq<Action>) returns (body: ByteBuffer)
    requires ActionsFit(actions)
    ensures fresh(body) && body.bytes == EncodeActions(actions)
    decreases actions, 0
  {
    hide Overlay, EncodeAction, ActionFits;
    body := new ByteBuffer([]);
    for i := 0 to |actions|
      invariant fresh(body)
      invariant body.bytes == EncodeActions(actions[..i])
    {
      OverlayAppend(body.bytes, EncodeAction(actions[i]));
      EncodeActionsSnoc(actions[..i], actions[i]);
      assert actions[..i + 1] == actions[..i] + [actions[i]];
      assert actions[i] in actions;
      var _ := SerializeAction(actions[i], body, |body.bytes|);
    }
    assert actions[..|actions|] == actions;
  }

  /** `NXAction.serialize`. */
  method SerializeNx(subtype: nat, data: seq<byte>, buf: ByteBuffer, offset: nat) returns (len: nat)
    modifies buf
    ensures buf.bytes == Overlay(old(buf.bytes), offset, NxFrame(subtype, data))
    ensures len == |NxFrame(subtype, data)|
  {
    len := RoundUp8(10 + |data|);
    var padLen := len - 10 - |data|;
    buf.PackInto(offset, Be(EXPERIMENTER, 2) + Be(len, 2) + Be(NX_ID, 4) + Be(subtype, 2) + data + Zeros(padLen));
  }

  function Pow2(k: nat): nat { if k == 0 then 1 else 2 * Pow2(k - 1) }

  lemma {:induction false} RangeBitsSnoc(ranges: seq<Option<seq<byte>>>, r: Option<seq<byte>>)
    ensures RangeBits(ranges + [r]) == RangeBits(ranges) + (if r.Some? then Pow2(|ranges|) else 0)
  {
    if ranges == [] {
      assert RangeBits([r]) == (if r.Some? then 1 else 0) + 2 * RangeBits([r][1..]);
    } else {
      RangeBitsSnoc(ranges[1..], r);
      assert (ranges + [r])[1..] == ranges[1..] + [r] && (ranges + [r])[0] == ranges[0];
      assert Pow2(|ranges|) == 2 * Pow2(|ranges[1..]|);
    }
  }

  lemma {:induction false} RangeOctetsSnoc(ranges: seq<Option<seq<byte>>>, r: Option<seq<byte>>)
    ensures RangeOctets(ranges + [r]) == RangeOctets(ranges) + (if r.Some? then r.value else [])
  {
    if ranges == [] {
      assert [r][1..] == [];
    } else {
      RangeOctetsSnoc(ranges[1..], r);
      assert (ranges + [r])[1..] == ranges[1..] + [r];
    }
  }

  /** `NXActionNAT.serialize_body`: flag and pack each range supplied. */
  method SerializeNatBody(flags: nat, ranges: seq<Option<seq<byte>>>) returns (body: seq<byte>)
    requires RangesFit(ranges, RANGE_WIDTHS)
    ensures body == NatBody(Nat(flags, ranges))
  {
    var optional: seq<byte> := [];
    var present := 0;
    var bit := 1;
    for i := 0 to |ranges|
      invariant bit == Pow2(i)
      invariant present == RangeBits(ranges[..i])
      invariant optional == RangeOctets(ranges[..i])
    {
      RangeBitsSnoc(ranges[..i], ranges[i]);
      RangeOctetsSnoc(ranges[..i], ranges[i]);
      assert ranges[..i + 1] == ranges[..i] + [ranges[i]];
      if ranges[i].Some? {
        present := present + bit;
        optional := optional + ranges[i].value;
      }
      bit := 2 * bit;
    }
    assert ranges[..|ranges|] == ranges;
    body := Zeros(2) + Be(flags, 2) + Be(present, 2) + optional;
  }

  /** The range loop of `NXActionNAT.parser`. */
  method ParseRangesLoop(rangePresent: nat, octets: seq<byte>) returns (r: Result<seq<Option<seq<byte>>>>)
    ensures r == ParseRanges(rangePresent, RANGE_WIDTHS, octets)
  {
    var ranges: seq<Option<seq<byte>>> := [];
    var present := rangePresent;
    var rest := octets;
    CollectedNothing(ParseRanges(present, RANGE_WIDTHS, rest));
    for i := 0 to |RANGE_WIDTHS|
      invariant ParseRanges(rangePresent, RANGE_WIDTHS, octets)
             == Collected(ranges, ParseRanges(present, RANGE_WIDTHS[i..], rest))
    {
      var width := RANGE_WIDTHS[i];
      ghost var widths := RANGE_WIDTHS[i..];
      assert widths[0] == width && widths[1..] == RANGE_WIDTHS[i + 1..];
      if present % 2 == 1 {
        var slice := Slice(rest, 0, width);
        if |slice| < width && width != 2 {
          return Err(ValueError);
        }
        CollectedOne(ranges, Some(LeftPad(slice, width)), ParseRanges(present / 2, widths[1..], Drop(rest, width)));
        ranges := ranges + [Some(LeftPad(slice, width))];
        rest := Drop(rest, width);
      } else {
        CollectedOne(ranges, None, ParseRanges(present / 2, widths[1..], rest));
        ranges := ranges + [None];
      }
      present := present / 2;
    }
    assert ranges + [] == ranges;
    r := Ok(ranges);
  }

  /** `while rest:` of `NXActionCT.parser`. */
  method ParseActionsLoop(octets: seq<byte>) returns (r: Result<seq<Action>>)
    ensures r == ParseActions(octets)
  {
    hide ParseAction;
    var rest := octets;
    var actions: seq<Action> := [];
    CollectedNothing(ParseActions(rest));
    while rest != []
      invariant ParseActions(octets) == Collected(actions, ParseActions(rest))
      decreases |rest|
    {
      var parsed :- ParseAction(rest, 0);
      var (a, len) := parsed;
      if len == 0 {
        return Err(Endless);
      }
      CollectedOne(actions, a, ParseActions(Drop(rest, len)));
      actions := actions + [a];
      rest := Drop(rest, len);
    }
    assert actions + [] == actions;
    r := Ok(actions);
  }

  /** `while pos < end:` of the instruction, bucket and packet-out parsers. */
  method ParseActionsAtLoop(buf: seq<byte>, start: nat, end: int) returns (r: Result<seq<Action>>)
    ensures r == ParseActionsAt(buf, start, end)
  {
    hide ParseAction;
    var pos := start;
    var actions: seq<Action> := [];
    CollectedNothing(ParseActionsAt(buf, pos, end));
    while pos < end
      invariant ParseActionsAt(buf, start, end) == Collected(actions, ParseActionsAt(buf, pos, end))
      decreases end - pos
    {
      var parsed :- ParseAction(buf, pos);
      var (a, len) := parsed;
      if len == 0 {
        return Err(Endless);
      }
      CollectedOne(actions, a, ParseActionsAt(buf, pos + len, end));
      actions := actions + [a];
      pos := pos + len;
    }
    assert actions + [] == actions;
    r := Ok(actions);
  }

  /** Every action that round trips can be serialized. */
  lemma WellFormedFits(a: Action)
    requires WellFormed(a)
    ensures ActionFits(a)
    decreases a
  {
    hide WellFormedOxm, EncodeAction, EncodeSetField, Fits;
    SizeOf(a);
    match a
    case SetField(f) => WellFormedOxmWritable(f);
    case Ct(_, zone, _, _, _, actions) =>
      forall b | b in actions
        ensures ActionFits(b)
      {
        WellFormedFits(b);
      }
    case _ =>
  }

  lemma SizeOf(a: Action)
    requires WellFormed(a)
    ensures ActionLen(a) < 0x1_0000
  {
    ActionRoundTrip.EncodingAligned(a);
  }

}
