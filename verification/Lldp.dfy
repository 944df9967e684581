/** LLDPDUs: clause 8 of IEEE 802.1AB, as the codec reads and writes them. */
module Lldp {
  import opened Bytes

  const END := 0
  const CHASSIS_ID := 1
  const PORT_ID := 2
  const TTL := 3

  /** The information string of a TLV, split up. A management address keeps the two
      length octets it was read with. */
  datatype Info =
    | EndInfo
    | ChassisInfo(subtype: nat, id: seq<byte>)
    | PortInfo(subtype: nat, id: seq<byte>)
    | TtlInfo(ttl: nat)
    | TextInfo(kind: nat, text: seq<byte>)
    | CapabilitiesInfo(system: nat, enabled: nat)
    | AddressInfo(
        addrLen: nat, addrSubtype: nat, addr: seq<byte>, intfSubtype: nat, intfNum: nat, oidLen: nat, oid: seq<byte>)
    | OrgInfo(oui: seq<byte>, subtype: nat, data: seq<byte>)

  /** One TLV: the length in its header, and its information. */
  datatype Tlv = Tlv(len: nat, info: Info)

  function KindOf(info: Info): nat {
    match info
    case EndInfo => END
    case ChassisInfo(_, _) => CHASSIS_ID
    case PortInfo(_, _) => PORT_ID
    case TtlInfo(_) => TTL
    case TextInfo(kind, _) => kind
    case CapabilitiesInfo(_, _) => 7
    case AddressInfo(_, _, _, _, _, _, _) => 8
    case OrgInfo(_, _, _) => 127
  }

  // -- writing ------------------------------------------------------------------------

  function InfoOctets(info: Info): seq<byte> {
    match info
    case EndInfo => []
    case ChassisInfo(subtype, id) => Be(subtype, 1) + id
    case PortInfo(subtype, id) => Be(subtype, 1) + id
    case TtlInfo(ttl) => Be(ttl, 2)
    case TextInfo(_, text) => text
    case CapabilitiesInfo(system, enabled) => Be(system, 2) + Be(enabled, 2)
    case AddressInfo(addrLen, addrSubtype, addr, intfSubtype, intfNum, oidLen, oid) =>
      Be(addrLen, 1) + Be(addrSubtype, 1) + addr + Be(intfSubtype, 1) + Be(intfNum, 4) + Be(oidLen, 1) + oid
    case OrgInfo(oui, subtype, data) => oui + Be(subtype, 1) + data
  }

  function EncodeTlv(t: Tlv): seq<byte> {
    Be(KindOf(t.info) * 512 + t.len, 2) + InfoOctets(t.info)
  }

  function Encode(tlvs: seq<Tlv>): seq<byte> {
    if tlvs == [] then [] else EncodeTlv(tlvs[0]) + Encode(tlvs[1..])
  }

  lemma {:induction false} EncodeSnoc(tlvs: seq<Tlv>, t: Tlv)
    ensures Encode(tlvs + [t]) == Encode(tlvs) + EncodeTlv(t)
  {
    hide EncodeTlv;
    if tlvs == [] {
      assert [t][1..] == [];
    } else {
      EncodeSnoc(tlvs[1..], t);
      assert (tlvs + [t])[1..] == tlvs[1..] + [t];
    }
  }

  /** `lldp.serialize`. */
  method Serialize(tlvs: seq<Tlv>) returns (data: seq<byte>)
    ensures data == Encode(tlvs)
  {
    hide EncodeTlv;
    data := [];
    for i := 0 to |tlvs|
      invariant data == Encode(tlvs[..i])
    {
      EncodeSnoc(tlvs[..i], tlvs[i]);
      assert tlvs[..i + 1] == tlvs[..i] + [tlvs[i]];
      data := data + EncodeTlv(tlvs[i]);
    }
    assert tlvs[..|tlvs|] == tlvs;
  }

  // -- constructing ---------------------------------------------------------------------

  predicate FieldsFit(info: Info) {
    match info
    case EndInfo => true
    case ChassisInfo(subtype, _) => subtype < 0x100
    case PortInfo(subtype, _) => subtype < 0x100
    case TtlInfo(ttl) => ttl < 0x1_0000
    case TextInfo(kind, _) => kind in {4, 5, 6}
    case CapabilitiesInfo(system, enabled) => system < 0x1_0000 && enabled < 0x1_0000
    case AddressInfo(addrLen, addrSubtype, addr, intfSubtype, intfNum, oidLen, oid) =>
      && addrLen == |addr| + 1 && addrLen < 0x100 && addrSubtype < 0x100 && intfSubtype < 0x100
      && intfNum < 0x1_0000_0000 && oidLen == |oid| <= 128
    case OrgInfo(oui, subtype, _) => |oui| == 3 && subtype < 0x100
  }

  /** The length bounds a constructor asserts. */
  predicate LenValid(info: Info) {
    var len := |InfoOctets(info)|;
    match info
    case EndInfo => true
    case ChassisInfo(_, _) => 2 <= len <= 256
    case PortInfo(_, _) => 2 <= len <= 256
    case TtlInfo(_) => true
    case TextInfo(_, _) => len <= 255
    case CapabilitiesInfo(_, _) => true
    case AddressInfo(_, _, _, _, _, _, _) => 9 <= len <= 167
    case OrgInfo(_, _, _) => len <= 511
  }

  /** What a constructor makes. */
  predicate Constructed(t: Tlv) {
    FieldsFit(t.info) && LenValid(t.info) && t.len == |InfoOctets(t.info)|
  }

  // -- reading ------------------------------------------------------------------------------

  /** `_parse` of the class registered for a type; None stands for the assertion,
      key and struct errors the caller treats alike. */
  function ParseInfo(kind: nat, s: seq<byte>): Option<Info> {
    match kind
    case 0 => Some(EndInfo)
    case 1 => if |s| < 1 then None else Some(ChassisInfo(s[0], s[1..]))
    case 2 => if |s| < 1 then None else Some(PortInfo(s[0], s[1..]))
    case 3 => if |s| < 2 then None else Some(TtlInfo(Un(s[..2])))
    case 4 => Some(TextInfo(4, s))
    case 5 => Some(TextInfo(5, s))
    case 6 => Some(TextInfo(6, s))
    case 7 => if |s| < 4 then None else Some(CapabilitiesInfo(Un(s[..2]), Un(s[2..4])))
    case 8 => ParseAddress(s)
    case 127 => if |s| < 4 then None else Some(OrgInfo(s[..3], s[3], s[4..]))
    case _ => None
  }

  /** `ManagementAddress._parse`. Its check of the address length joins the two
      bounds by `or`, so it never fails. */
  function ParseAddress(s: seq<byte>): Option<Info> {
    if |s| < 2 then None
    else
      var addrLen: nat := s[0];
      var offset := 1 + addrLen;
      if offset + 6 > |s| then None
      else
        var oidLen: nat := s[offset + 5];
        if oidLen > 128 then None
        else
          var intfNum := Un(s[offset + 1..offset + 5]);
          Some(AddressInfo(addrLen, s[1], Slice(s, 2, offset), s[offset], intfNum, oidLen, s[offset + 6..]))
  }

  /** The TLV at the head of a buffer. */
  function ParseTlv(buf: seq<byte>): (t: Option<Tlv>)
    ensures t.Some? ==> 2 + t.value.len <= |buf|
  {
    if |buf| < 2 then None
    else
      var typelen := Un(buf[..2]);
      var len := typelen % 512;
      if |buf| < len + 2 then None
      else match ParseInfo(typelen / 512, buf[2..2 + len])
        case Some(info) => Some(Tlv(len, info))
        case None => None
  }

  /** The loop of `lldp._parser`: up to and including the first End. It ends on
      every input, each TLV taking at least two octets. */
  function ParseTlvs(buf: seq<byte>): Option<(seq<Tlv>, seq<byte>)>
    decreases |buf|
  {
    match ParseTlv(buf)
    case None => None
    case Some(t) =>
      var rest := buf[2 + t.len..];
      if t.info.EndInfo? then Some(([t], rest))
      else if rest == [] then None
      else match ParseTlvs(rest)
        case Some((ts, tail)) => Some(([t] + ts, tail))
        case None => None
  }

  /** Chassis id, port id and TTL first, End last. */
  predicate Mandatory(tlvs: seq<Tlv>) {
    && |tlvs| >= 4
    && tlvs[0].info.ChassisInfo? && tlvs[1].info.PortInfo? && tlvs[2].info.TtlInfo?
    && tlvs[|tlvs| - 1].info.EndInfo?
  }

  /** `lldp.parser`: the TLVs and the octets behind them, or no header and the whole
      buffer. */
  function Parse(buf: seq<byte>): (Option<seq<Tlv>>, seq<byte>) {
    if buf == [] then (None, buf)
    else match ParseTlvs(buf)
      case Some((tlvs, rest)) => if Mandatory(tlvs) then (Some(tlvs), rest) else (None, buf)
      case None => (None, buf)
  }

  /** The parser as the loop it is. */
  method ParseLoop(data: seq<byte>) returns (tlvs: Option<seq<Tlv>>, rest: seq<byte>)
    ensures (tlvs, rest) == Parse(data)
  {
    hide ParseTlv;
    var buf := data;
    var found: seq<Tlv> := [];
    ghost var all := ParseTlvs(data);
    assert all.Some? ==> [] + all.value.0 == all.value.0;
    var ended := false;
    while buf != [] && !ended
      invariant !ended && buf != [] ==> ParseTlvs(data) == Behind(found, ParseTlvs(buf))
      invariant ended ==> ParseTlvs(data) == Some((found, buf))
      invariant buf == [] && data != [] ==> ended
      invariant data == [] ==> !ended
      decreases |buf|, !ended
    {
      var t := ParseTlv(buf);
      if t.None? {
        return None, data;
      }
      BehindOne(found, t.value, buf);
      found := found + [t.value];
      buf := buf[2 + t.value.len..];
      if t.value.info.EndInfo? {
        ended := true;
      } else if buf == [] {
        return None, data;
      }
    }
    if data != [] && Mandatory(found) {
      return Some(found), buf;
    }
    return None, data;
  }

  function Behind(found: seq<Tlv>, r: Option<(seq<Tlv>, seq<byte>)>): Option<(seq<Tlv>, seq<byte>)> {
    match r
    case Some((ts, rest)) => Some((found + ts, rest))
    case None => None
  }

  lemma BehindOne(found: seq<Tlv>, t: Tlv, buf: seq<byte>)
    requires ParseTlv(buf) == Some(t)
    ensures var rest := buf[2 + t.len..];
            && (t.info.EndInfo? ==> Behind(found, ParseTlvs(buf)) == Some((found + [t], rest)))
            && (!t.info.EndInfo? && rest == [] ==> ParseTlvs(buf).None?)
            && (!t.info.EndInfo? && rest != [] ==>
                  Behind(found, ParseTlvs(buf)) == Behind(found + [t], ParseTlvs(rest)))
  {
    hide ParseTlv;
    var rest := buf[2 + t.len..];
    if !t.info.EndInfo? && rest != [] {
      var r := ParseTlvs(rest);
      assert r.Some? ==> found + ([t] + r.value.0) == found + [t] + r.value.0;
    }
  }

  // -- round trip -------------------------------------------------------------------------------

  lemma InfoRoundTrip(info: Info)
    requires FieldsFit(info)
    ensures ParseInfo(KindOf(info), InfoOctets(info)) == Some(info)
  {
    hide ParseAddress;
    assert Pow256(1) == 0x100 && Pow256(2) == 0x1_0000;
    match info
    case ChassisInfo(subtype, id) =>
      OneOctet(subtype);
      assert ([subtype as byte] + id)[1..] == id;
    case PortInfo(subtype, id) =>
      OneOctet(subtype);
      assert ([subtype as byte] + id)[1..] == id;
    case TtlInfo(ttl) =>
      UnBe(ttl, 2);
      assert Be(ttl, 2)[..2] == Be(ttl, 2);
    case CapabilitiesInfo(system, enabled) =>
      UnBe(system, 2);
      UnBe(enabled, 2);
      var s := InfoOctets(info);
      assert s[..2] == Be(system, 2) && s[2..4] == Be(enabled, 2);
    case AddressInfo(_, _, _, _, _, _, _) => AddressRoundTrip(info);
    case OrgInfo(oui, subtype, data) =>
      OneOctet(subtype);
      var s := oui + [subtype as byte] + data;
      assert s[..3] == oui && s[4..] == data;
    case _ =>
  }

  lemma AddressRoundTrip(info: Info)
    requires info.AddressInfo? && FieldsFit(info)
    ensures ParseAddress(InfoOctets(info)) == Some(info)
  {
    hide Be;
    var AddressInfo(addrLen, addrSubtype, addr, intfSubtype, intfNum, oidLen, oid) := info;
    OneOctet(addrLen);
    OneOctet(addrSubtype);
    OneOctet(intfSubtype);
    OneOctet(oidLen);
    assert Pow256(4) == 0x1_0000_0000;
    UnBe(intfNum, 4);
    var s := InfoOctets(info);
    var offset := 1 + addrLen;
    assert Slice(s, 2, offset) == addr;
    assert s[offset] == intfSubtype;
    assert s[offset + 1..offset + 5] == Be(intfNum, 4);
    assert s[offset + 5] == oidLen;
    assert s[offset + 6..] == oid;
  }

  lemma TlvRoundTrip(t: Tlv, tail: seq<byte>)
    requires Constructed(t)
    ensures ParseTlv(EncodeTlv(t) + tail) == Some(t)
    ensures (EncodeTlv(t) + tail)[2 + t.len..] == tail
  {
    hide InfoOctets, ParseInfo, FieldsFit;
    var buf := EncodeTlv(t) + tail;
    KindSmall(t);
    var typelen := KindOf(t.info) * 512 + t.len;
    assert Pow256(2) == 0x1_0000;
    UnBe(typelen, 2);
    assert buf[..2] == Be(typelen, 2);
    assert buf[2..2 + t.len] == InfoOctets(t.info);
    InfoRoundTrip(t.info);
  }

  lemma KindSmall(t: Tlv)
    requires Constructed(t)
    ensures KindOf(t.info) < 128 && t.len < 512
  {
  }

  /** Constructed TLVs, the mandatory three first, End last and only there. */
  predicate ValidList(tlvs: seq<Tlv>) {
    && Mandatory(tlvs)
    && (forall t | t in tlvs :: Constructed(t))
    && forall i | 0 <= i < |tlvs| - 1 :: !tlvs[i].info.EndInfo?
  }

  lemma {:induction false} TlvsRoundTrip(tlvs: seq<Tlv>, padding: seq<byte>)
    requires tlvs != [] && forall t | t in tlvs :: Constructed(t)
    requires tlvs[|tlvs| - 1].info.EndInfo? && forall i | 0 <= i < |tlvs| - 1 :: !tlvs[i].info.EndInfo?
    ensures ParseTlvs(Encode(tlvs) + padding) == Some((tlvs, padding))
  {
    hide ParseTlv, EncodeTlv, Constructed;
    var t := tlvs[0];
    var tail := Encode(tlvs[1..]) + padding;
    assert Encode(tlvs) + padding == EncodeTlv(t) + tail;
    TlvRoundTrip(t, tail);
    if |tlvs| == 1 {
      assert Encode(tlvs[1..]) == [] && tail == padding;
      assert tlvs == [t];
    } else {
      NotEmpty(tlvs[1]);
      TlvsRoundTrip(tlvs[1..], padding);
      assert tlvs == [t] + tlvs[1..];
    }
  }

  lemma NotEmpty(t: Tlv)
    ensures |EncodeTlv(t)| >= 2
  {
  }

  /** For every valid list: its octets followed by any padding read back as the
      list and exactly that padding. */
  lemma LldpRoundTrip(tlvs: seq<Tlv>, padding: seq<byte>)
    requires ValidList(tlvs)
    ensures Parse(Encode(tlvs) + padding) == (Some(tlvs), padding)
  {
    hide EncodeTlv, Constructed, ParseTlvs;
    TlvsRoundTrip(tlvs, padding);
    NotEmpty(tlvs[0]);
  }

  /** Octets the TLVs of a list cover. */
  function Covered(tlvs: seq<Tlv>): nat {
    if tlvs == [] then 0 else 2 + tlvs[0].len + Covered(tlvs[1..])
  }

  lemma {:induction false} ParseTlvsShape(buf: seq<byte>)
    requires ParseTlvs(buf).Some?
    ensures var (tlvs, rest) := ParseTlvs(buf).value;
            && tlvs != [] && tlvs[|tlvs| - 1].info.EndInfo?
            && (forall i | 0 <= i < |tlvs| - 1 :: !tlvs[i].info.EndInfo?)
            && Covered(tlvs) <= |buf| && rest == buf[Covered(tlvs)..]
    decreases |buf|
  {
    hide ParseTlv;
    var t := ParseTlv(buf).value;
    var rest := buf[2 + t.len..];
    if t.info.EndInfo? {
      assert [t][1..] == [];
    } else {
      ParseTlvsShape(rest);
      var (ts, tail) := ParseTlvs(rest).value;
      assert ([t] + ts)[1..] == ts;
      assert rest[Covered(ts)..] == buf[2 + t.len + Covered(ts)..];
    }
  }

  /** On any octets: either a list of the mandatory shape with End last and only
      there, and the rest is what its lengths leave over; or the buffer untouched. */
  lemma LldpAnyInput(buf: seq<byte>)
    ensures match Parse(buf)
            case (Some(tlvs), rest) =>
              && Mandatory(tlvs) && (forall i | 0 <= i < |tlvs| - 1 :: !tlvs[i].info.EndInfo?)
              && Covered(tlvs) <= |buf| && rest == buf[Covered(tlvs)..]
            case (None, rest) => rest == buf
  {
    hide ParseTlvs;
    if Parse(buf).0.Some? {
      ParseTlvsShape(buf);
    }
  }
}
