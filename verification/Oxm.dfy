/** OXM match fields: the field table, one TLV, and the two readings of it.

    A field value is held as the octets of its wire form; the text and integer
    forms of the library are fixed-width views of those octets. */
module Oxm {
  import opened Bytes

  const EXPERIMENTER_CLASS := 0xFFFF
  const NX_ID := 0x2320
  const NSH_ID := 0x5AD650
  const ONF_ID := 0x4F4E4600
  /** `exp_type` of a field in the superseded EXT-256 encoding. */
  const EXT_256 := 2560

  /** A field number: class and field in one integer, or an experimenter id and
      a type. */
  datatype FieldNum = Std(n: nat) | Exp(id: nat, t: nat)

  /** A field's width, and whether it is an integer or an address. Integers
      accept a short octet string; addresses raise. */
  datatype FieldInfo = I(size: nat) | A(size: nat)

  datatype OxmField = OxmField(num: FieldNum, value: seq<byte>, mask: Option<seq<byte>>)

  // -- the field table --------------------------------------------------------

  /** `_BASIC`: the width at each `OFPXMT_OFB_` position, in_port to ipv6_exthdr. */
  function BasicField(field: nat): (info: Option<FieldInfo>)
    ensures info.Some? ==> 1 <= info.value.size <= 16
  {
    match field
    case 0 | 1 | 28 | 34 => Some(I(4))
    case 2 | 38 => Some(I(8))
    case 3 | 4 | 24 | 25 | 32 | 33 => Some(A(6))
    case 5 | 6 | 13 | 14 | 15 | 16 | 17 | 18 | 21 | 39 => Some(I(2))
    case 7 | 8 | 9 | 10 | 19 | 20 | 29 | 30 | 35 | 36 => Some(I(1))
    case 11 | 12 | 22 | 23 => Some(A(4))
    case 26 | 27 | 31 => Some(A(16))
    case 37 => Some(I(3))
    case _ => None
  }

  function PacketRegister(field: nat): (info: Option<FieldInfo>)
    ensures info.Some? ==> 1 <= info.value.size <= 16
  {
    if field < 8 then Some(I(8)) else None
  }

  /** The `NXM_OF_` fields. */
  function Nxm0Field(field: nat): (info: Option<FieldInfo>)
    ensures info.Some? ==> 1 <= info.value.size <= 16
  {
    match field
    case 1 | 2 => Some(A(6))
    case 0 | 3 | 4 | 9 | 10 | 11 | 12 | 15 => Some(I(2))
    case 5 | 6 | 13 | 14 => Some(I(1))
    case 7 | 8 | 16 | 17 => Some(A(4))
    case _ => None
  }

  /** The `NXM_NX_` fields, the registers first. */
  function Nxm1Field(field: nat): (info: Option<FieldInfo>)
    ensures info.Some? ==> 1 <= info.value.size <= 16
  {
    if field < 16 then Some(I(4))
    else match field
      case 16 => Some(I(8))
      case 17 | 18 | 24 | 25 => Some(A(6))
      case 19 | 20 | 23 | 109 | 110 => Some(A(16))
      case 21 | 22 | 26 | 28 | 29 | 30 | 39 => Some(I(1))
      case 27 | 33 | 36 | 37 | 105 | 107 => Some(I(4))
      case 31 | 32 => Some(A(4))
      case 34 | 38 | 104 | 106 => Some(I(2))
      case 108 | 111 | 112 | 113 | 114 => Some(I(16))
      case _ => None
  }

  function NshField(field: nat): (info: Option<FieldInfo>)
    ensures info.Some? ==> 1 <= info.value.size <= 16
  {
    match field
    case 1 | 2 | 3 | 5 | 10 => Some(I(1))
    case 4 | 6 | 7 | 8 | 9 => Some(I(4))
    case _ => None
  }

  const EXP_BASE := 0xFFFF * 128

  function StdField(n: nat): (info: Option<FieldInfo>)
    ensures info.Some? ==> 1 <= info.value.size <= 16
    ensures info.Some? ==> n / 128 < EXPERIMENTER_CLASS
  {
    match n / 128
    case 0x8000 => BasicField(n % 128)
    case 0x8001 => PacketRegister(n % 128)
    case 0 => Nxm0Field(n % 128)
    case 1 => Nxm1Field(n % 128)
    case _ => None
  }

  predicate Ext256(num: FieldNum) {
    num.Exp? && num.id == ONF_ID && num.t == EXT_256
  }

  /** A type in the experimenter class whose four octet header is not taken for
      the EXT-256 form. */
  predicate ExpTyped(num: FieldNum) {
    num.Exp? && num.id < 0x1_0000_0000 && EXP_BASE <= num.t < EXP_BASE + 128 && !(num.id == ONF_ID && num.t == EXP_BASE)
  }

  function ExpField(num: FieldNum): (info: Option<FieldInfo>)
    requires num.Exp?
    ensures info.Some? ==> 1 <= info.value.size <= 16
    ensures info.Some? ==> Ext256(num) || ExpTyped(num)
  {
    if Ext256(num) then Some(I(1))
    else if !ExpTyped(num) then None
    else
      var field := num.t - EXP_BASE;
      if num.id == ONF_ID && field == 42 then Some(I(2))
      else if num.id == ONF_ID && field == 43 then Some(I(4))
      else if num.id == NX_ID && field == 0 then Some(I(4))
      else if num.id == NSH_ID then NshField(field)
      else None
  }

  /** `_num_to_field`. */
  function Registered(num: FieldNum): (info: Option<FieldInfo>)
    ensures info.Some? ==> 1 <= info.value.size <= 16
  {
    if num.Std? then StdField(num.n) else ExpField(num)
  }

  // -- writing ----------------------------------------------------------------

  /** `_exp_header`: the type written in the TLV header and the octets between
      header and value. */
  function ExpHeader(num: FieldNum): (nat, seq<byte>) {
    match num
    case Std(n) => (n, [])
    case Exp(id, t) =>
      if Ext256(num) then (EXP_BASE, Be(id, 4) + Be(t, 2))
      else (t, Be(id, 4))
  }

  /** An empty mask is false to Python, so it is not written. */
  predicate HasMask(f: OxmField) {
    f.mask.Some? && f.mask.value != []
  }

  function Payload(f: OxmField): seq<byte> {
    ExpHeader(f.num).1 + f.value + (if HasMask(f) then f.mask.value else [])
  }

  function HeaderWord(f: OxmField): nat {
    ExpHeader(f.num).0 * 512 + (if HasMask(f) then 256 else 0) + |Payload(f)|
  }

  /** The TLV of one field. */
  function Tlv(f: OxmField): (s: seq<byte>)
    ensures |s| == 4 + |Payload(f)|
  {
    Be(HeaderWord(f), 4) + Payload(f)
  }

  /** The field numbers and lengths the 32 bit header has room for. */
  predicate HeaderFits(f: OxmField) {
    |Payload(f)| <= 255 && ExpHeader(f.num).0 < 0x80_0000
  }

  /** A mask that is not as long as its value. */
  predicate Uneven(f: OxmField) {
    HasMask(f) && |f.mask.value| != |f.value|
  }

  /** An experimenter pair the registry does not know: it is not a number that
      could be shifted into a header. */
  predicate Unshiftable(f: OxmField) {
    f.num.Exp? && Registered(f.num).None?
  }

  /** `oxm_serialize`. Value and mask of different lengths and unknown experimenter
      fields are refused before a single octet is written. */
  method OxmSerialize(f: OxmField, buf: ByteBuffer, offset: nat) returns (r: Result<nat>)
    requires HeaderFits(f)
    modifies buf
    ensures r.Err? <==> Uneven(f) || Unshiftable(f)
    ensures r.Err? ==> r == Err(if Uneven(f) then ValueError else TypeError) && buf.bytes == old(buf.bytes)
    ensures r.Ok? ==> r.value == |Tlv(f)| && buf.bytes == Overlay(old(buf.bytes), offset, Tlv(f))
  {
    var (num, expHdr) := ExpHeader(f.num);
    var valueLen := |f.value|;
    if HasMask(f) && valueLen != |f.mask.value| {
      return Err(ValueError);
    }
    if f.num.Exp? && Registered(f.num).None? {
      return Err(TypeError);
    }
    if HasMask(f) {
      var header := num * 512 + 256 + (|expHdr| + valueLen * 2);
      var packed := Be(header, 4) + expHdr + f.value + f.mask.value;
      assert packed == Tlv(f);
      buf.PackInto(offset, packed);
      r := Ok(|packed|);
    } else {
      var header := num * 512 + (|expHdr| + valueLen);
      var packed := Be(header, 4) + expHdr + f.value;
      assert packed == Tlv(f);
      buf.PackInto(offset, packed);
      r := Ok(|packed|);
    }
  }

  // -- reading ----------------------------------------------------------------

  datatype OxmHeader = OxmHeader(num: FieldNum, headerLen: nat, hasMask: bool, valueLen: nat, fieldLen: nat)

  /** `_parse_header_impl`. A field without a payload is refused, so every field
      accepted covers at least five octets. */
  function ParseHeader(buf: seq<byte>, offset: nat): (r: Result<OxmHeader>)
    ensures r.Ok? ==> r.value.valueLen > 0 && 5 <= r.value.fieldLen <= 259
  {
    var header :- ReadNum(buf, offset, 4);
    var oxmType := header / 512;
    var hasMask := header / 256 % 2 == 1;
    var length := header % 256;
    if oxmType / 128 == EXPERIMENTER_CLASS then
      var expId :- ReadNum(buf, offset + 4, 4);
      if expId == ONF_ID && oxmType % 128 == 0 then
        var expType :- ReadNum(buf, offset + 8, 2);
        CheckPayload(Exp(expId, expType), 6, hasMask, length)
      else
        CheckPayload(Exp(expId, oxmType), 4, hasMask, length)
    else
      CheckPayload(Std(oxmType), 0, hasMask, length)
  }

  function CheckPayload(num: FieldNum, expLen: nat, hasMask: bool, length: nat): (r: Result<OxmHeader>)
    requires length < 256
    ensures r.Ok? ==> r.value.valueLen > 0 && 5 <= r.value.fieldLen <= 259
  {
    // Python floors, so half of a negative length is negative as well.
    var valueLen := if hasMask then (length - expLen) / 2 else length - expLen;
    if valueLen <= 0 then Err(ValueError)
    else Ok(OxmHeader(num, 4 + expLen, hasMask, valueLen, 4 + length))
  }

  /** `oxm_parse`: the field and the octets its TLV covers. Value and mask are
      slices, so at the end of the buffer they come out short. */
  function OxmParse(buf: seq<byte>, offset: nat): (r: Result<(OxmField, nat)>)
    ensures r.Ok? ==> 5 <= r.value.1 <= 259
  {
    var h :- ParseHeader(buf, offset);
    var at := offset + h.headerLen;
    var value := Slice(buf, at, at + h.valueLen);
    var mask := if h.hasMask then Some(Slice(buf, at + h.valueLen, at + 2 * h.valueLen)) else None;
    Ok((OxmField(h.num, value, mask), h.fieldLen))
  }

  /** `oxm_to_user` and back: a registered field must have a value of its own
      width; a short mask is widened for an integer and refused for an address.
      An experimenter field nobody registered has no name. */
  function ToUser(f: OxmField): (r: Result<OxmField>)
    ensures r.Ok? ==> r.value.num == f.num && r.value.value == f.value && r.value.mask.Some? == f.mask.Some?
  {
    match Registered(f.num)
    case None => if f.num.Std? then Ok(f) else Err(KeyError)
    case Some(info) =>
      if |f.value| != info.size then Err(ValueError)
      else match f.mask
        case None => Ok(f)
        case Some(m) =>
          if info.I? then Ok(f.(mask := Some(LeftPad(m, info.size))))
          else if |m| == info.size then Ok(f)
          else Err(ValueError)
  }

  // -- round trip -------------------------------------------------------------

  /** A field of the table with octets of its width, or a numbered field outside
      the table with any octets at all. */
  predicate WellFormedOxm(f: OxmField) {
    && f.value != []
    && (f.mask.Some? ==> |f.mask.value| == |f.value|)
    && |Payload(f)| <= 255
    && match Registered(f.num)
       case Some(info) => |f.value| == info.size
       case None => f.num.Std? && f.num.n / 128 < EXPERIMENTER_CLASS
  }

  /** What `oxm_serialize` can write. */
  predicate Writable(f: OxmField) {
    HeaderFits(f) && !Uneven(f) && !Unshiftable(f)
  }

  lemma WritableOutcome(f: OxmField)
    requires Writable(f)
    ensures HeaderFits(f) && !Uneven(f) && !Unshiftable(f)
    ensures HasMask(f) ==> |f.mask.value| == |f.value|
  {
  }

  lemma WellFormedOxmWritable(f: OxmField)
    requires WellFormedOxm(f)
    ensures Writable(f)
  {
    ExpHeaderShape(f);
  }

  lemma HeaderFields(t: nat, m: nat, len: nat)
    requires t < 0x80_0000 && m < 2 && len < 256
    ensures var h := t * 512 + m * 256 + len;
            h < Pow256(4) && h / 512 == t && h / 256 % 2 == m && h % 256 == len
  {
    var h := t * 512 + m * 256 + len;
    assert h / 256 == 2 * t + m;
    assert Pow256(4) == 0x1_0000_0000;
  }

  /** What the header of a well-formed field says, in the terms the parser
      decides by. */
  lemma ExpHeaderShape(f: OxmField)
    requires WellFormedOxm(f)
    ensures var (t, exp) := ExpHeader(f.num);
            && t < 0x80_0000
            && (f.num.Std? ==> t == f.num.n && t / 128 < EXPERIMENTER_CLASS && exp == [])
            && (f.num.Exp? ==> t / 128 == EXPERIMENTER_CLASS && f.num.id < Pow256(4))
            && (Ext256(f.num) ==> t % 128 == 0 && |exp| == 6)
            && (f.num.Exp? && !Ext256(f.num) ==> t == f.num.t && |exp| == 4 && !(f.num.id == ONF_ID && t % 128 == 0))
  {
    assert Pow256(4) == 0x1_0000_0000;
  }

  /** The branches of the header parser, by what the octets read as. */
  lemma ParseHeaderCases(buf: seq<byte>, offset: nat, num: FieldNum, t: nat, expLen: nat, hasMask: bool, length: nat)
    requires length < 256
    requires ReadNum(buf, offset, 4).Ok?
    requires var h := ReadNum(buf, offset, 4).value; h / 512 == t && (h / 256 % 2 == 1) == hasMask && h % 256 == length
    requires num.Std? ==> t == num.n && t / 128 != EXPERIMENTER_CLASS && expLen == 0
    requires num.Exp? ==> t / 128 == EXPERIMENTER_CLASS && ReadNum(buf, offset + 4, 4) == Ok(num.id)
    requires num.Exp? && expLen == 6 ==> num.id == ONF_ID && t % 128 == 0 && ReadNum(buf, offset + 8, 2) == Ok(num.t)
    requires num.Exp? && expLen != 6 ==> expLen == 4 && !(num.id == ONF_ID && t % 128 == 0) && num.t == t
    ensures ParseHeader(buf, offset) == CheckPayload(num, expLen, hasMask, length)
  {
  }

  lemma PayloadLength(f: OxmField)
    requires WellFormedOxm(f)
    ensures |Payload(f)| == |ExpHeader(f.num).1| + (if HasMask(f) then 2 else 1) * |f.value| && |f.value| > 0
    ensures CheckPayload(f.num, |ExpHeader(f.num).1|, HasMask(f), |Payload(f)|)
         == Ok(OxmHeader(f.num, 4 + |ExpHeader(f.num).1|, HasMask(f), |f.value|, |Tlv(f)|))
  {
  }

  lemma ParseHeaderTlv(f: OxmField, buf: seq<byte>, offset: nat)
    requires WellFormedOxm(f)
    requires Has(buf, offset, Tlv(f))
    ensures ParseHeader(buf, offset)
         == Ok(OxmHeader(f.num, 4 + |ExpHeader(f.num).1|, HasMask(f), |f.value|, |Tlv(f)|))
  {
    ExpHeaderShape(f);
    PayloadLength(f);
    ParseHeaderAt(f, ExpHeader(f.num).0, buf, offset);
  }

  lemma ParseHeaderAt(f: OxmField, t: nat, buf: seq<byte>, offset: nat)
    requires t == ExpHeader(f.num).0 < 0x80_0000
    requires |Payload(f)| < 256
    requires f.num.Std? ==> t == f.num.n && t / 128 < EXPERIMENTER_CLASS
    requires f.num.Exp? ==> t / 128 == EXPERIMENTER_CLASS && f.num.id < Pow256(4)
    requires Ext256(f.num) ==> t % 128 == 0
    requires f.num.Exp? && !Ext256(f.num) ==> t == f.num.t && !(f.num.id == ONF_ID && t % 128 == 0)
    requires Has(buf, offset, Tlv(f))
    ensures ParseHeader(buf, offset) == CheckPayload(f.num, |ExpHeader(f.num).1|, HasMask(f), |Payload(f)|)
  {
    var exp := ExpHeader(f.num).1;
    var word := HeaderWord(f);
    HeaderFields(t, if HasMask(f) then 1 else 0, |Payload(f)|);
    HasSplit(buf, offset, Be(word, 4), Payload(f));
    ReadNumHas(buf, offset, word, 4);
    var rest := f.value + (if HasMask(f) then f.mask.value else []);
    assert Payload(f) == exp + rest;
    HasSplit(buf, offset + 4, exp, rest);
    if f.num.Exp? {
      ExpHeaderRead(f.num, buf, offset + 4);
    }
    ParseHeaderCases(buf, offset, f.num, t, |exp|, HasMask(f), |Payload(f)|);
  }

  lemma ExpHeaderRead(num: FieldNum, buf: seq<byte>, offset: nat)
    requires num.Exp? && num.id < Pow256(4)
    requires Has(buf, offset, ExpHeader(num).1)
    ensures ReadNum(buf, offset, 4) == Ok(num.id)
    ensures Ext256(num) ==> ReadNum(buf, offset + 4, 2) == Ok(num.t)
  {
    if Ext256(num) {
      HasSplit(buf, offset, Be(num.id, 4), Be(num.t, 2));
      assert Pow256(2) == 0x1_0000;
      ReadNumHas(buf, offset + 4, num.t, 2);
    }
    ReadNumHas(buf, offset, num.id, 4);
  }

  /** Reading back what was written, for every field of the table in every
      encoding (plain, experimenter, EXT-256), masked or not, at any offset. */
  lemma OxmRoundTrip(f: OxmField, buf: seq<byte>, offset: nat)
    requires WellFormedOxm(f)
    requires Has(buf, offset, Tlv(f))
    ensures OxmParse(buf, offset) == Ok((f, |Tlv(f)|))
    ensures ToUser(f) == Ok(f)
  {
    hide ExpHeader, ParseHeader, Registered, HeaderWord, Be;
    ParseHeaderTlv(f, buf, offset);
    ValueAndMask(f, buf, offset);
    WellFormedToUser(f);
  }

  /** And of all fields that can be written, only those: an empty value, an empty
      mask, a value of another width than the field's and a number that reads as an
      experimenter's do not come back. */
  lemma OxmExact(f: OxmField, buf: seq<byte>, offset: nat)
    requires Writable(f)
    requires Has(buf, offset, Tlv(f))
    ensures OxmParse(buf, offset) == Ok((f, |Tlv(f)|)) && ToUser(f) == Ok(f) <==> WellFormedOxm(f)
  {
    hide ExpHeader, Registered, Tlv, Has, ParseHeader;
    if WellFormedOxm(f) {
      OxmRoundTrip(f, buf, offset);
    } else if OxmParse(buf, offset) == Ok((f, |Tlv(f)|)) && ToUser(f) == Ok(f) {
      WordRead(f, buf, offset);
      ReadBackShape(f, buf, offset);
    }
  }

  lemma WordRead(f: OxmField, buf: seq<byte>, offset: nat)
    requires Writable(f)
    requires Has(buf, offset, Tlv(f))
    ensures ReadNum(buf, offset, 4) == Ok(HeaderWord(f))
  {
    hide Be, Payload;
    WordFits(f);
    HasSplit(buf, offset, Be(HeaderWord(f), 4), Payload(f));
    ReadNumHas(buf, offset, HeaderWord(f), 4);
  }

  lemma WordFits(f: OxmField)
    requires Writable(f)
    ensures HeaderWord(f) < Pow256(4)
  {
    HeaderFields(ExpHeader(f.num).0, if HasMask(f) then 1 else 0, |Payload(f)|);
  }

  /** Octets that begin with the header word of a field and read as that field are of a
      field that round trips. */
  lemma ReadBackShape(f: OxmField, buf: seq<byte>, offset: nat)
    requires Writable(f)
    requires ReadNum(buf, offset, 4) == Ok(HeaderWord(f))
    requires OxmParse(buf, offset).Ok? && OxmParse(buf, offset).value.0 == f && ToUser(f).Ok?
    ensures WellFormedOxm(f)
  {
    hide ExpHeader, Registered, ReadNum, ParseHeader, HeaderWord;
    ReadNumberShape(f, buf, offset);
    ReadHeaderShape(f, buf, offset);
  }

  lemma ReadHeaderShape(f: OxmField, buf: seq<byte>, offset: nat)
    requires Writable(f)
    requires ReadNum(buf, offset, 4) == Ok(HeaderWord(f))
    requires ParseHeader(buf, offset).Ok? && ParseHeader(buf, offset).value.num == f.num
    ensures ParseHeader(buf, offset) == CheckPayload(f.num, |ExpHeader(f.num).1|, HasMask(f), |Payload(f)|)
  {
    hide Be, Registered;
    ReadNumberShape(f, buf, offset);
    HeaderFields(ExpHeader(f.num).0, if HasMask(f) then 1 else 0, |Payload(f)|);
  }

  /** A number written and read back as itself has the shape the parser decides by. */
  lemma ReadNumberShape(f: OxmField, buf: seq<byte>, offset: nat)
    requires Writable(f)
    requires ReadNum(buf, offset, 4) == Ok(HeaderWord(f))
    requires ParseHeader(buf, offset).Ok? && ParseHeader(buf, offset).value.num == f.num
    ensures var (t, exp) := ExpHeader(f.num);
            && (f.num.Std? ==> t == f.num.n && t / 128 < EXPERIMENTER_CLASS)
            && (f.num.Exp? ==> t / 128 == EXPERIMENTER_CLASS && f.num.id < Pow256(4))
            && (Ext256(f.num) ==> t % 128 == 0)
            && (f.num.Exp? && !Ext256(f.num) ==> t == f.num.t && !(f.num.id == ONF_ID && t % 128 == 0))
  {
    hide Be;
    assert Pow256(4) == 0x1_0000_0000;
    if f.num.Std? {
      HeaderFields(f.num.n, if HasMask(f) then 1 else 0, |Payload(f)|);
    }
  }

  lemma WellFormedToUser(f: OxmField)
    requires WellFormedOxm(f)
    ensures ToUser(f) == Ok(f)
  {
    hide StdField, ExpField;
  }

  lemma ValueAndMask(f: OxmField, buf: seq<byte>, offset: nat)
    requires Has(buf, offset, Tlv(f))
    ensures var at := offset + 4 + |ExpHeader(f.num).1|;
            && Slice(buf, at, at + |f.value|) == f.value
            && (HasMask(f) && |f.mask.value| == |f.value| ==>
                  Slice(buf, at + |f.value|, at + 2 * |f.value|) == f.mask.value)
  {
    hide ExpHeader, HeaderWord, Be, Slice;
    var head := Be(HeaderWord(f), 4) + ExpHeader(f.num).1;
    var mask := if HasMask(f) then f.mask.value else [];
    assert Tlv(f) == head + (f.value + mask);
    HasParts(buf, offset, head, f.value, mask);
  }

  /** Whatever the octets, a TLV that was read and accepted by name can be
      written again, provided the buffer did not end inside it. */
  lemma ParsedFieldFits(buf: seq<byte>, offset: nat)
    requires OxmParse(buf, offset).Ok?
    requires ToUser(OxmParse(buf, offset).value.0).Ok?
    requires offset + OxmParse(buf, offset).value.1 <= |buf|
    ensures WellFormedOxm(ToUser(OxmParse(buf, offset).value.0).value)
  {
    var h := ParseHeader(buf, offset).value;
    ReadNumBound(buf, offset, 4);
    assert Pow256(4) == 0x1_0000_0000;
  }
}
