/** Set-field sizes itself without the experimenter header. When exactly does a
    field survive being written that way? */
module SetFieldExact {
  import opened Bytes
  import opened Layout
  import opened Oxm
  import opened Actions
  import ActionRoundTrip

  /** The action reads back, and its declared length is what it wrote. */
  predicate RoundTrips(f: OxmField) {
    ParseAction(EncodeSetField(f), 0) == Ok((SetField(f), |EncodeSetField(f)|))
  }

  lemma Shape(f: OxmField)
    requires WellFormedOxm(f)
    ensures |Tlv(f)| >= SetFieldPayload(f) >= 5
    ensures RoundUp8(4 + SetFieldPayload(f)) < 0x1_0000
    ensures var len := RoundUp8(4 + SetFieldPayload(f));
            && |EncodeSetField(f)| == (if 4 + |Tlv(f)| <= len then len else 4 + |Tlv(f)|)
            && EncodeSetField(f)[..4 + SetFieldPayload(f)] == SetFieldHead(f) + Tlv(f)[..SetFieldPayload(f)]
            && forall i | 4 + SetFieldPayload(f) <= i < len :: EncodeSetField(f)[i] == 0
  {
    hide Be, Tlv, ExpHeader;
    PayloadLength(f);
    var tagged := SetFieldHead(f) + Tlv(f);
    var at := 4 + SetFieldPayload(f);
    OverlayFrame(tagged, at, Zeros(RoundUp8(at) - at));
  }

  /** Reading starts with the type, the length and the TLV header, which the
      padding never touches. */
  lemma ReadSetField(f: OxmField)
    requires WellFormedOxm(f)
    ensures ReadNum(EncodeSetField(f), 0, 2) == Ok(SET_FIELD)
    ensures ReadNum(EncodeSetField(f), 2, 2) == Ok(RoundUp8(4 + SetFieldPayload(f)))
    ensures ReadNum(EncodeSetField(f), 4, 4) == Ok(HeaderWord(f))
  {
    hide Be, EncodeSetField, WellFormedOxm, Tlv;
    Shape(f);
    var s := EncodeSetField(f);
    assert s[..8] == SetFieldHead(f) + Tlv(f)[..4] by {
      assert s[..8] == s[..4 + SetFieldPayload(f)][..8];
    }
    assert Has(s, 0, SetFieldHead(f) + []) by {
      assert s[0..4] == s[..8][..4];
    }
    ReadTag(SET_FIELD, RoundUp8(4 + SetFieldPayload(f)), [], s, 0);
    HeaderOctets(f);
    assert s[4..8] == s[..8][4..];
    ReadNumHas(s, 4, HeaderWord(f), 4);
  }

  lemma HeaderOctets(f: OxmField)
    requires WellFormedOxm(f)
    ensures Tlv(f)[..4] == Be(HeaderWord(f), 4)
    ensures HeaderWord(f) < Pow256(4)
  {
    ExpHeaderShape(f);
    HeaderFields(ExpHeader(f.num).0, if HasMask(f) then 1 else 0, |Payload(f)|);
  }

  /** Octets that read as `f` behind the header of `f` are the TLV of `f`. */
  lemma ParsedIsTlv(f: OxmField, buf: seq<byte>, offset: nat)
    requires WellFormedOxm(f)
    requires ReadNum(buf, offset, 4) == Ok(HeaderWord(f))
    requires offset + |Tlv(f)| <= |buf|
    requires OxmParse(buf, offset).Ok? && OxmParse(buf, offset).value.0 == f
    ensures Has(buf, offset, Tlv(f))
  {
    hide Be, Registered, ExpHeader, OxmParse, WellFormedOxm, ReadNum, Un, HeaderWord, Has, Tlv;
    var exp := ExpHeader(f.num).1;
    var mask := if HasMask(f) then f.mask.value else [];
    PayloadLength(f);
    ReadIsBe(buf, offset, 4);
    ParsedHeaderNum(f, buf, offset);
    ParsedExpHeader(f, buf, offset);
    ParsedLengths(f, buf, offset);
    HasJoin(buf, offset, Be(HeaderWord(f), 4), exp);
    var at := offset + 4 + |exp|;
    assert Has(buf, at + |f.value|, mask) by {
      EmptyHas(buf, at, f.value);
    }
    HasJoin(buf, at, f.value, mask);
    HasJoin(buf, offset, Be(HeaderWord(f), 4) + exp, f.value + mask);
    TlvParts(f);
  }

  lemma EmptyHas(buf: seq<byte>, offset: nat, data: seq<byte>)
    requires Has(buf, offset, data)
    ensures Has(buf, offset + |data|, [])
  {
  }

  lemma TlvParts(f: OxmField)
    ensures Tlv(f) == Be(HeaderWord(f), 4) + ExpHeader(f.num).1 + (f.value + (if HasMask(f) then f.mask.value else []))
  {
    hide Be, ExpHeader, HeaderWord;
  }

  lemma ReadIsBe(buf: seq<byte>, offset: nat, w: nat)
    requires offset + w <= |buf|
    ensures Has(buf, offset, Be(ReadNum(buf, offset, w).value, w))
  {
    BeUn(buf[offset..offset + w]);
  }

  lemma ParsedHeaderNum(f: OxmField, buf: seq<byte>, offset: nat)
    requires OxmParse(buf, offset).Ok? && OxmParse(buf, offset).value.0 == f
    ensures ParseHeader(buf, offset).Ok? && ParseHeader(buf, offset).value.num == f.num
  {
    hide ParseHeader;
  }

  lemma ParsedExpHeader(f: OxmField, buf: seq<byte>, offset: nat)
    requires WellFormedOxm(f)
    requires ReadNum(buf, offset, 4) == Ok(HeaderWord(f))
    requires ParseHeader(buf, offset).Ok? && ParseHeader(buf, offset).value.num == f.num
    ensures Has(buf, offset + 4, ExpHeader(f.num).1)
    ensures ParseHeader(buf, offset) == CheckPayload(f.num, |ExpHeader(f.num).1|, HasMask(f), |Payload(f)|)
  {
    hide Be, Registered, Payload;
    var (t, exp) := ExpHeader(f.num);
    ExpHeaderShape(f);
    SmallPayload(f);
    HeaderFields(t, if HasMask(f) then 1 else 0, |Payload(f)|);
    if f.num.Exp? {
      BeUn(buf[offset + 4..offset + 8]);
      if Ext256(f.num) {
        BeUn(buf[offset + 8..offset + 10]);
        HasJoin(buf, offset + 4, Be(f.num.id, 4), Be(f.num.t, 2));
      }
    }
  }

  lemma SmallPayload(f: OxmField)
    requires WellFormedOxm(f)
    ensures |Payload(f)| < 256
  {
  }

  lemma ParsedLengths(f: OxmField, buf: seq<byte>, offset: nat)
    requires WellFormedOxm(f)
    requires ReadNum(buf, offset, 4) == Ok(HeaderWord(f))
    requires offset + |Tlv(f)| <= |buf|
    requires OxmParse(buf, offset).Ok? && OxmParse(buf, offset).value.0 == f
    ensures var at := offset + 4 + |ExpHeader(f.num).1|;
            Has(buf, at, f.value) && (HasMask(f) ==> Has(buf, at + |f.value|, f.mask.value))
  {
    hide Be, Registered, ExpHeader, ParseHeader;
    ParsedExpHeader(f, buf, offset);
    PayloadLength(f);
  }

  /** A set-field action round trips exactly when its padding is harmless: always
      without an experimenter header, and with one only if the header's octets fit
      into the padding and the TLV ends in as many zero octets. */
  lemma SetFieldExactly(f: OxmField)
    requires WellFormedOxm(f)
    ensures RoundTrips(f) <==> PaddingHarmless(f)
    ensures f.num.Std? ==> PaddingHarmless(f)
  {
    hide Be, EncodeSetField, WellFormedOxm, Tlv, OxmParse, ToUser, HeaderWord, ReadNum, Has;
    Shape(f);
    ReadSetField(f);
    ActionRoundTrip.PlainFormatLimits();
    if PaddingHarmless(f) {
      HarmlessRoundTrip(f);
    }
    if RoundTrips(f) {
      RoundTripHarmless(f);
    }
    if f.num.Std? {
      ActionRoundTrip.StdHarmless(f);
    }
  }

  lemma HarmlessRoundTrip(f: OxmField)
    requires WellFormedOxm(f) && PaddingHarmless(f)
    ensures RoundTrips(f)
  {
    hide Be, EncodeSetField, WellFormedOxm, ParseAction, Tlv;
    Shape(f);
    assert EncodeSetField(f)[0..0 + |EncodeSetField(f)|] == EncodeSetField(f);
    ActionRoundTrip.SetFieldRoundTrip(SetField(f), EncodeSetField(f), 0);
  }

  lemma RoundTripHarmless(f: OxmField)
    requires WellFormedOxm(f) && RoundTrips(f)
    ensures PaddingHarmless(f)
  {
    hide Be, EncodeSetField, Tlv, OxmParse, ToUser, HeaderWord, WellFormedOxm, ReadNum;
    Shape(f);
    ReadSetField(f);
    ActionRoundTrip.PlainFormatLimits();
    var s := EncodeSetField(f);
    ParsedIsTlv(f, s, 4);
    forall i | SetFieldPayload(f) <= i < |Tlv(f)|
      ensures Tlv(f)[i] == 0
    {
      assert s[4..4 + |Tlv(f)|][i] == s[4 + i];
    }
  }

  /** `tcp_flags`, the ONF field 42, never survives without a mask: the padding
      wipes out part of the experimenter id. */
  lemma TcpFlagsLost(value: seq<byte>)
    requires |value| == 2
    ensures !RoundTrips(OxmField(Exp(ONF_ID, EXP_BASE + 42), value, None))
  {
    var f := OxmField(Exp(ONF_ID, EXP_BASE + 42), value, None);
    SetFieldExactly(f);
    TlvOctet(value);
  }

  lemma TlvOctet(value: seq<byte>)
    requires |value| == 2
    ensures var f := OxmField(Exp(ONF_ID, EXP_BASE + 42), value, None);
            |Tlv(f)| == 10 && Tlv(f)[6] == 0x46
  {
    var f := OxmField(Exp(ONF_ID, EXP_BASE + 42), value, None);
    assert Be(ONF_ID, 4) == Be(0x4F4E46, 3) + [0];
    assert Be(0x4F4E46, 3) == Be(0x4F4E, 2) + [0x46];
    assert Tlv(f) == Be(HeaderWord(f), 4) + (Be(ONF_ID, 4) + value);
  }

  /** With a mask the padding covers value and mask instead, so the action survives
      exactly when both are zero. */
  lemma TcpFlagsMasked(value: seq<byte>, mask: seq<byte>)
    requires |value| == 2 && |mask| == 2
    ensures RoundTrips(OxmField(Exp(ONF_ID, EXP_BASE + 42), value, Some(mask))) <==> value == [0, 0] && mask == [0, 0]
  {
    hide Be, HeaderWord, RoundTrips;
    var f := OxmField(Exp(ONF_ID, EXP_BASE + 42), value, Some(mask));
    SetFieldExactly(f);
    var t := Tlv(f);
    assert |t| == 12 && t[8..] == value + mask;
    assert t[8] == value[0] && t[9] == value[1] && t[10] == mask[0] && t[11] == mask[1];
    assert SetFieldPayload(f) == 8 && RoundUp8(12) == 16;
  }
}
