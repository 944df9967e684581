/** Parsing what was serialized gives the action back, for every action tree. */
module ActionRoundTrip {
  import opened Bytes
  import opened Layout
  import opened Oxm
  import opened Actions

  lemma PlainFormatLimits()
    ensures PlainFormat(EXPERIMENTER).None? && PlainFormat(SET_FIELD).None?
  {
  }

  lemma PlainRoundTrip(a: Action, buf: seq<byte>, offset: nat)
    requires a.Plain? && WellFormed(a)
    requires Has(buf, offset, EncodeAction(a))
    ensures ParseAction(buf, offset) == Ok((a, |EncodeAction(a)|))
  {
    hide Fits, PlainFormat, Size, Tagged, Has, ReadNum, UnpackFrom, OxmParse, ToUser, ParseNx;
    PlainSize(a.kind);
    ReadTagged(a.kind, FormatOf(a.kind), a.values, buf, offset);
  }

  /** Padding that does no harm amounts to zero octets behind the TLV. */
  lemma SetFieldEncoding(f: OxmField)
    requires WellFormedOxm(f) && PaddingHarmless(f)
    ensures var len := RoundUp8(4 + SetFieldPayload(f));
            EncodeSetField(f) == Be(SET_FIELD, 2) + Be(len, 2) + (Tlv(f) + Zeros(len - 4 - |Tlv(f)|))
  {
    hide Be, Tlv, ExpHeader;
    PayloadLength(f);
    var at := 4 + SetFieldPayload(f);
    var len := RoundUp8(at);
    var tagged := SetFieldHead(f) + Tlv(f);
    var l, r := EncodeSetField(f), SetFieldHead(f) + (Tlv(f) + Zeros(len - 4 - |Tlv(f)|));
    forall i | 0 <= i < |l|
      ensures l[i] == r[i]
    {
      if i >= 4 && i < |tagged| {
        assert tagged[i] == Tlv(f)[i - 4];
      }
      if SetFieldPad(f) > 0 {
        OverlayAt(tagged, at, Zeros(len - at), i);
      }
    }
    assert l == r;
  }

  /** Without an experimenter header the padding begins where the TLV ends. */
  lemma StdHarmless(f: OxmField)
    requires f.num.Std? && WellFormedOxm(f)
    ensures |Tlv(f)| == SetFieldPayload(f) && PaddingHarmless(f)
  {
    PayloadLength(f);
  }

  lemma SetFieldRoundTrip(a: Action, buf: seq<byte>, offset: nat)
    requires a.SetField? && WellFormed(a)
    requires Has(buf, offset, EncodeAction(a))
    ensures ParseAction(buf, offset) == Ok((a, |EncodeAction(a)|))
  {
    hide OxmParse, ToUser, Be, WellFormedOxm, Tlv, EncodeSetField;
    var f := a.field;
    var len := RoundUp8(4 + SetFieldPayload(f));
    var pad := Zeros(len - 4 - |Tlv(f)|);
    SetFieldEncoding(f);
    ReadTag(SET_FIELD, len, Tlv(f) + pad, buf, offset);
    HasSplit(buf, offset + 4, Tlv(f), pad);
    OxmRoundTrip(f, buf, offset + 4);
  }

  /** A plain experimenter action reads back exactly when its experimenter is not
      Nicira: that one is taken for a Nicira action without a subtype. */
  lemma ForeignExact(a: Action, buf: seq<byte>, offset: nat)
    requires a.Foreign? && a.experimenter < 0x1_0000_0000
    requires Has(buf, offset, EncodeAction(a))
    ensures ParseAction(buf, offset) == Ok((a, |EncodeAction(a)|)) <==> a.experimenter != NX_ID
  {
    hide Be, ReadNum, Has, PlainFormat, OxmParse, ToUser, UnpackFrom;
    assert Pow256(4) == 0x1_0000_0000;
    ReadTag(EXPERIMENTER, 8, Be(a.experimenter, 4), buf, offset);
    PlainFormatLimits();
    ReadNumHas(buf, offset + 4, a.experimenter, 4);
    NoSubtype();
  }

  /** So one that names Nicira does not come back. */
  lemma NiciraPlainLost()
    ensures var a := Foreign(NX_ID); ParseAction(EncodeAction(a), 0) != Ok((a, |EncodeAction(a)|))
  {
    hide ParseAction, Be;
    var s := EncodeAction(Foreign(NX_ID));
    assert s[0..0 + |s|] == s;
    ForeignExact(Foreign(NX_ID), s, 0);
  }

  lemma ForeignRoundTrip(a: Action, buf: seq<byte>, offset: nat)
    requires a.Foreign? && WellFormed(a) && Has(buf, offset, EncodeAction(a))
    ensures ParseAction(buf, offset) == Ok((a, |EncodeAction(a)|))
  {
    hide ParseAction, Be;
    ForeignExact(a, buf, offset);
  }

  lemma NoSubtype()
    ensures ParseNx([]).Err?
  {
  }

  /** A framed Nicira action is handed to its subtype with data and padding. */
  lemma NxFrameParse(subtype: nat, data: seq<byte>, buf: seq<byte>, offset: nat)
    requires |NxFrame(subtype, data)| < 0x1_0000
    requires Has(buf, offset, NxFrame(subtype, data))
    ensures var len := |NxFrame(subtype, data)|;
            ParseAction(buf, offset) == WithLen(ParseNx(Be(subtype, 2) + (data + Zeros(len - 10 - |data|))), len)
  {
    hide Be, ParseNx, WithLen, OxmParse, ToUser, UnpackFrom, ReadNum, Slice, FormatOf, Has, PlainFormat;
    PlainFormatLimits();
    var len := RoundUp8(10 + |data|);
    var body := Be(subtype, 2) + (data + Zeros(len - 10 - |data|));
    assert NxFrame(subtype, data) == Be(EXPERIMENTER, 2) + Be(len, 2) + (Be(NX_ID, 4) + body);
    ReadTag(EXPERIMENTER, len, Be(NX_ID, 4) + body, buf, offset);
    ReadNicira(body, buf, offset + 4);
    assert offset + 8 + |body| == offset + len;
  }

  lemma ReadNicira(body: seq<byte>, buf: seq<byte>, offset: nat)
    requires Has(buf, offset, Be(NX_ID, 4) + body)
    ensures ReadNum(buf, offset, 4) == Ok(NX_ID)
    ensures Slice(buf, offset + 4, offset + 4 + |body|) == body
  {
    hide Be;
    assert Pow256(4) == 0x1_0000_0000;
    HasSplit(buf, offset, Be(NX_ID, 4), body);
    ReadNumHas(buf, offset, NX_ID, 4);
    HasSlice(buf, offset + 4, body);
  }

  lemma ParseNxBody(subtype: nat, body: seq<byte>)
    requires subtype < 0x1_0000
    ensures ReadNum(Be(subtype, 2) + body, 0, 2) == Ok(subtype)
    ensures Drop(Be(subtype, 2) + body, 2) == body
  {
    hide Be;
    assert Pow256(2) == 0x1_0000;
    HasAfter([], Be(subtype, 2), body);
    assert [] + Be(subtype, 2) + body == Be(subtype, 2) + body;
    ReadNumHas(Be(subtype, 2) + body, 0, subtype, 2);
  }

  lemma UnknownParse(subtype: nat, data: seq<byte>)
    requires subtype < 0x1_0000 && subtype != CT && subtype != NAT && subtype != CT_CLEAR
    ensures ParseNx(Be(subtype, 2) + data) == Ok(NxUnknown(subtype, data))
  {
    hide Be, ReadNum;
    ParseNxBody(subtype, data);
  }

  lemma NatParse(a: Action, pad: seq<byte>)
    requires a.Nat? && WellFormed(a)
    ensures ParseNx(Be(NAT, 2) + (NatBody(a) + pad)) == Ok(a)
  {
    hide Be, ParseRanges, RangeBits, RangeOctets, ReadNum, Has;
    var body := NatBody(a) + pad;
    ParseNxBody(NAT, body);
    RangeBitsBound(a.ranges);
    assert Pow256(2) == 0x1_0000;
    NatHeader(a, pad);
    ReadNumHas(body, 2, a.flags, 2);
    ReadNumHas(body, 4, RangeBits(a.ranges), 2);
    RangesRoundTrip(a.ranges, RANGE_WIDTHS, pad);
  }

  lemma NatHeader(a: Action, pad: seq<byte>)
    requires a.Nat?
    ensures var body := NatBody(a) + pad;
            && Has(body, 2, Be(a.flags, 2)) && Has(body, 4, Be(RangeBits(a.ranges), 2))
            && Drop(body, 6) == RangeOctets(a.ranges) + pad
  {
    hide Be, RangeBits, RangeOctets;
    var body := NatBody(a) + pad;
    var tail := RangeOctets(a.ranges) + pad;
    HasAfter(Zeros(2), Be(a.flags, 2), Be(RangeBits(a.ranges), 2) + tail);
    assert body == Zeros(2) + Be(a.flags, 2) + (Be(RangeBits(a.ranges), 2) + tail);
    HasAfter(Zeros(2) + Be(a.flags, 2), Be(RangeBits(a.ranges), 2), tail);
    assert body == Zeros(2) + Be(a.flags, 2) + Be(RangeBits(a.ranges), 2) + tail;
  }

  lemma CtHeader(a: Action, tail: seq<byte>)
    requires a.Ct?
    ensures var body := CtFixed(a) + tail;
            && body[0..2] == Be(a.flags, 2) && body[2..6] == ZoneOctets(a.zone) && body[6..8] == Be(a.zoneOfsNbits, 2)
            && body[8..9] == Be(a.recircTable, 1) && body[12..14] == Be(a.alg, 2) && Drop(body, 14) == tail
  {
    hide Be, ZoneOctets;
  }

  /** Everything but the zone, and the nested actions, which read back. */
  predicate CtFits(a: Action)
    requires a.Ct?
  {
    && a.flags < 0x1_0000 && a.zoneOfsNbits < 0x1_0000 && a.recircTable < 0x100 && a.alg < 0x1_0000
    && ZonePacks(a.zone) && AllWellFormed(a.actions)
  }

  lemma CtParse(a: Action)
    requires a.Ct? && CtFits(a)
    requires ParseActions(EncodeActions(a.actions)) == Ok(a.actions)
    ensures ParseNx(Be(CT, 2) + (CtFixed(a) + EncodeActions(a.actions))) == Ok(a) <==> WellFormedZone(a.zone)
  {
    hide Be, ZoneOctets, ZoneOf, EncodeActions, ParseActions, ReadNum, WellFormedZone, AllWellFormed, ZonePacks;
    var body := CtFixed(a) + EncodeActions(a.actions);
    ParseNxBody(CT, body);
    CtHeader(a, EncodeActions(a.actions));
    ZoneExact(a.zone);
    assert Pow256(2) == 0x1_0000 && Pow256(1) == 0x100;
    UnBe(a.flags, 2);
    UnBe(a.zoneOfsNbits, 2);
    UnBe(a.recircTable, 1);
    UnBe(a.alg, 2);
  }

  /** Well-formed actions are laid end to end on eight octet boundaries, so the
      nested list of a connection tracking action needs no padding. */
  lemma {:induction false} EncodingAligned(a: Action)
    requires WellFormed(a)
    ensures |EncodeAction(a)| == ActionLen(a)
    ensures |EncodeAction(a)| % 8 == 0 && |EncodeAction(a)| >= 8
  {
    hide WellFormedOxm, Tlv, EncodeSetField, Fits, Tagged;
    if a.Plain? { PlainSize(a.kind); }
    if a.SetField? {
      PayloadLength(a.field);
      SetFieldEncoding(a.field);
    }
  }

  lemma {:induction false} ListAligned(actions: seq<Action>)
    requires AllWellFormed(actions)
    ensures |EncodeActions(actions)| % 8 == 0
  {
    hide WellFormed, EncodeAction;
    if actions != [] {
      EncodingAligned(actions[0]);
      ListAligned(actions[1..]);
    }
  }

  lemma CtPadding(a: Action)
    requires a.Ct? && AllWellFormed(a.actions)
    ensures |NxFrame(CT, CtFixed(a) + EncodeActions(a.actions))| == 24 + |EncodeActions(a.actions)|
  {
    hide EncodeActions, AllWellFormed;
    ListAligned(a.actions);
  }

  lemma WellFormedCt(a: Action)
    requires a.Ct? && WellFormed(a)
    ensures CtFits(a) && WellFormedZone(a.zone) && AllWellFormed(a.actions)
  {
    hide EncodeAction, BasicField, PacketRegister, Nxm0Field, Nxm1Field, NshField;
  }

  /** For every action tree: parsing the serialized octets, at any offset of any
      buffer, gives the tree back and consumes exactly its declared length. */
  lemma {:induction false} ActionTreeRoundTrip(a: Action, buf: seq<byte>, offset: nat)
    requires WellFormed(a)
    requires Has(buf, offset, EncodeAction(a))
    ensures ParseAction(buf, offset) == Ok((a, |EncodeAction(a)|))
    decreases a, 1
  {
    hide ParseAction, ParseNx, WellFormed, Has, NxFrame, CtFixed, NatBody, CtFits, WellFormedZone;
    match a
    case Plain(_, _) => PlainRoundTrip(a, buf, offset);
    case SetField(_) => SetFieldRoundTrip(a, buf, offset);
    case Foreign(_) => ForeignRoundTrip(a, buf, offset);
    case Ct(_, _, _, _, _, actions) =>
      WellFormedCt(a);
      WellFormedSize(a);
      ActionListRoundTrip(actions);
      CtFrame(a, buf, offset);
    case CtClear =>
      ClearRoundTrip(a, buf, offset);
    case Nat(_, _) =>
      WellFormedSize(a);
      NxFrameParse(NAT, NatBody(a), buf, offset);
      NatParse(a, Zeros(|NxFrame(NAT, NatBody(a))| - 10 - |NatBody(a)|));
    case NxUnknown(subtype, data) =>
      UnknownRoundTrip(a, buf, offset);
  }

  /** A framed connection tracking action whose nested list reads back reads back
      itself exactly when its zone does. */
  lemma CtFrame(a: Action, buf: seq<byte>, offset: nat)
    requires a.Ct? && CtFits(a) && |EncodeAction(a)| < 0x1_0000
    requires ParseActions(EncodeActions(a.actions)) == Ok(a.actions)
    requires Has(buf, offset, EncodeAction(a))
    ensures ParseAction(buf, offset) == Ok((a, |EncodeAction(a)|)) <==> WellFormedZone(a.zone)
  {
    hide ParseAction, ParseNx, Has, NxFrame, CtFixed, EncodeActions, ParseActions;
    hide WellFormedZone, AllWellFormed, ZonePacks;
    CtPadding(a);
    CtParse(a);
    NxFrameParse(CT, CtFixed(a) + EncodeActions(a.actions), buf, offset);
    NothingAppended(CtFixed(a) + EncodeActions(a.actions));
  }

  /** For every connection tracking action that can be packed, around nested actions
      of any depth that read back: it reads back if and only if its zone is immediate
      or a registered field without an experimenter. */
  lemma CtExact(a: Action, buf: seq<byte>, offset: nat)
    requires a.Ct? && CtFits(a) && |EncodeAction(a)| < 0x1_0000
    requires Has(buf, offset, EncodeAction(a))
    ensures ParseAction(buf, offset) == Ok((a, |EncodeAction(a)|)) <==> WellFormedZone(a.zone)
  {
    hide ParseAction, EncodeAction, Has, WellFormedZone, ZonePacks, WellFormed;
    ActionListRoundTrip(a.actions);
    CtFrame(a, buf, offset);
  }

  lemma NothingAppended(s: seq<byte>)
    ensures s + Zeros(0) == s
  {
  }

  lemma WellFormedSize(a: Action)
    requires WellFormed(a)
    ensures |EncodeAction(a)| < 0x1_0000
  {
  }

  lemma ClearRoundTrip(a: Action, buf: seq<byte>, offset: nat)
    requires a.CtClear? && Has(buf, offset, EncodeAction(a))
    ensures ParseAction(buf, offset) == Ok((a, |EncodeAction(a)|))
  {
    hide ParseAction, Be, ReadNum;
    NxFrameParse(CT_CLEAR, Zeros(6), buf, offset);
    assert Zeros(6) + Zeros(0) == Zeros(6);
    ParseNxBody(CT_CLEAR, Zeros(6));
  }

  lemma UnknownRoundTrip(a: Action, buf: seq<byte>, offset: nat)
    requires a.NxUnknown? && WellFormed(a) && Has(buf, offset, EncodeAction(a))
    ensures ParseAction(buf, offset) == Ok((a, |EncodeAction(a)|))
  {
    hide ParseAction, ParseNx;
    NxFrameParse(a.subtype, a.data, buf, offset);
    assert a.data + Zeros(0) == a.data;
    UnknownParse(a.subtype, a.data);
  }

  /** An action of unknown subtype takes its padding for data, so it comes back
      as it was exactly when it needed none, and its subtype really is unknown. */
  lemma UnknownExact(subtype: nat, data: seq<byte>, buf: seq<byte>, offset: nat)
    requires subtype < 0x1_0000 && |NxFrame(subtype, data)| < 0x1_0000
    requires Has(buf, offset, EncodeAction(NxUnknown(subtype, data)))
    ensures ParseAction(buf, offset) == Ok((NxUnknown(subtype, data), |NxFrame(subtype, data)|))
       <==> subtype != CT && subtype != NAT && subtype != CT_CLEAR && |data| % 8 == 6
  {
    hide ParseAction, ParseNx;
    NxFrameParse(subtype, data, buf, offset);
    var pad := Zeros(|NxFrame(subtype, data)| - 10 - |data|);
    if subtype != CT && subtype != NAT && subtype != CT_CLEAR {
      UnknownParse(subtype, data + pad);
      assert |data| % 8 == 6 ==> data + pad == data;
    } else {
      KnownParse(subtype, data + pad);
    }
  }

  /** Without data an action of unknown subtype has six octets of padding, and comes
      back with six octets of data. */
  lemma UnknownLost(subtype: nat)
    requires subtype < 0x1_0000
    ensures var a := NxUnknown(subtype, []); ParseAction(EncodeAction(a), 0) != Ok((a, |EncodeAction(a)|))
  {
    hide ParseAction;
    var s := NxFrame(subtype, []);
    assert s[0..0 + |s|] == s;
    UnknownExact(subtype, [], s, 0);
  }

  lemma KnownParse(subtype: nat, body: seq<byte>)
    requires subtype == CT || subtype == NAT || subtype == CT_CLEAR
    ensures var r := ParseNx(Be(subtype, 2) + body); r.Ok? ==> !r.value.NxUnknown?
  {
    hide Be, ReadNum, ParseRanges, ParseActions, ZoneOf;
    ParseNxBody(subtype, body);
  }

  /** The loop that cuts actions off the front ends exactly at the last one. */
  lemma {:induction false} ActionListRoundTrip(actions: seq<Action>)
    requires AllWellFormed(actions)
    ensures ParseActions(EncodeActions(actions)) == Ok(actions)
    decreases actions, 0
  {
    hide ParseAction, WellFormed, EncodeAction;
    if actions != [] {
      var s := EncodeActions(actions);
      var first := EncodeAction(actions[0]);
      EncodingAligned(actions[0]);
      assert s[0..0 + |first|] == first;
      ActionTreeRoundTrip(actions[0], s, 0);
      assert Drop(s, |first|) == EncodeActions(actions[1..]);
      ActionListRoundTrip(actions[1..]);
      assert actions == [actions[0]] + actions[1..];
    }
  }

  /** The loop that walks a buffer by offset ends exactly at the last one. */
  lemma {:induction false} ActionsAtRoundTrip(actions: seq<Action>, buf: seq<byte>, pos: nat)
    requires AllWellFormed(actions)
    requires Has(buf, pos, EncodeActions(actions))
    ensures ParseActionsAt(buf, pos, pos + |EncodeActions(actions)|) == Ok(actions)
  {
    hide ParseAction, WellFormed, EncodeAction;
    if actions != [] {
      var first := EncodeAction(actions[0]);
      EncodingAligned(actions[0]);
      HasSplit(buf, pos, first, EncodeActions(actions[1..]));
      ActionTreeRoundTrip(actions[0], buf, pos);
      ActionsAtRoundTrip(actions[1..], buf, pos + |first|);
      assert actions == [actions[0]] + actions[1..];
    }
  }
}
