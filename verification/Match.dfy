/** The OXM flow match: its wire form and the canonical order of its fields. */
module Match {
  import opened Bytes
  import opened Oxm

  datatype FlowMatch = FlowMatch(kind: nat, fields: seq<OxmField>)

  /** `OFPMT_OXM`. */
  const OXM_MATCH := 1

  // -- wire form ---------------------------------------------------------------

  function Tlvs(fields: seq<OxmField>): seq<byte> {
    if fields == [] then [] else Tlv(fields[0]) + Tlvs(fields[1..])
  }

  function MatchLength(m: FlowMatch): nat { 4 + |Tlvs(m.fields)| }

  /** Header, fields in order and zero octets up to a multiple of eight; the
      length does not count the padding. */
  function EncodeMatch(m: FlowMatch): (s: seq<byte>)
    ensures |s| == RoundUp8(MatchLength(m))
  {
    var length := MatchLength(m);
    Be(m.kind, 2) + Be(length, 2) + Tlvs(m.fields) + Zeros(RoundUp8(length) - length)
  }

  predicate MatchFits(m: FlowMatch) {
    m.kind < 0x1_0000 && MatchLength(m) < 0x1_0000 && forall f | f in m.fields :: Writable(f)
  }

  lemma {:induction false} TlvsSnoc(fields: seq<OxmField>, f: OxmField)
    ensures Tlvs(fields + [f]) == Tlvs(fields) + Tlv(f)
  {
    if fields == [] {
      assert [f][1..] == [];
    } else {
      TlvsSnoc(fields[1..], f);
      assert (fields + [f])[1..] == fields[1..] + [f];
    }
  }

  /** The three writes of the serializer are one write of the encoding. */
  lemma MatchWrites(before: seq<byte>, offset: nat, m: FlowMatch, afterFields: seq<byte>)
    requires afterFields == if m.fields == [] then before else Overlay(before, offset + 4, Tlvs(m.fields))
    ensures var length := MatchLength(m);
            var afterHead := Overlay(afterFields, offset, Be(m.kind, 2) + Be(length, 2));
            var padding := Zeros(RoundUp8(length) - length);
            Overlay(afterHead, offset + length, padding) == Overlay(before, offset, EncodeMatch(m))
  {
    hide Overlay, Tlv;
    var length := MatchLength(m);
    var head := Be(m.kind, 2) + Be(length, 2);
    OverlayBefore(before, offset, head, Tlvs(m.fields));
    assert m.fields == [] ==> head + Tlvs(m.fields) == head;
    OverlayNext(before, offset, head + Tlvs(m.fields), Zeros(RoundUp8(length) - length));
  }

  /** `OFPMatch.serialize`: fields first, then the header in front of them, then
      the padding, every write in place. */
  method SerializeMatch(m: FlowMatch, buf: ByteBuffer, offset: nat) returns (paddedLen: nat)
    requires MatchFits(m)
    modifies buf
    ensures paddedLen == |EncodeMatch(m)|
    ensures buf.bytes == Overlay(old(buf.bytes), offset, EncodeMatch(m))
  {
    hide Overlay, Tlv, EncodeMatch, Writable, HeaderFits, Uneven, Unshiftable, Be, RoundUp8;
    var fieldOffset := offset + 4;
    ghost var before := buf.bytes;
    for i := 0 to |m.fields|
      invariant fieldOffset == offset + 4 + |Tlvs(m.fields[..i])|
      invariant buf.bytes == if i == 0 then before else Overlay(before, offset + 4, Tlvs(m.fields[..i]))
    {
      var f := m.fields[i];
      TlvsSnoc(m.fields[..i], f);
      assert m.fields[..i + 1] == m.fields[..i] + [f];
      OverlayNext(before, offset + 4, Tlvs(m.fields[..i]), Tlv(f));
      assert i == 0 ==> Tlvs(m.fields[..i + 1]) == Tlv(f);
      assert f in m.fields;
      WritableOutcome(f);
      var written := OxmSerialize(f, buf, fieldOffset);
      fieldOffset := fieldOffset + written.value;
    }
    assert m.fields[..|m.fields|] == m.fields;
    var length := fieldOffset - offset;
    MatchWrites(before, offset, m, buf.bytes);
    buf.PackInto(offset, Be(m.kind, 2) + Be(length, 2));
    var padLen := RoundUp8(length) - length;
    OverlayEmpty(buf.bytes, fieldOffset);
    if padLen > 0 {
      buf.PackInto(fieldOffset, Zeros(padLen));
    }
    paddedLen := length + padLen;
  }

  /** The field loop of `OFPMatch.parser`. It ends on every input: a field that
      is accepted covers at least five octets of what remains. */
  function ParseFields(buf: seq<byte>, offset: nat, remaining: int): Result<seq<OxmField>>
    decreases remaining
  {
    if remaining <= 0 then Ok([])
    else
      var (f, fieldLen) :- OxmParse(buf, offset);
      var user :- ToUser(f);
      var rest :- ParseFields(buf, offset + fieldLen, remaining - fieldLen);
      Ok([user] + rest)
  }

  /** So a match never has more fields than its length has room for, and reading it
      always comes to an end. */
  lemma {:induction false} FieldsBounded(buf: seq<byte>, offset: nat, remaining: int)
    ensures match ParseFields(buf, offset, remaining)
            case Ok(fields) => fields == [] || 5 * (|fields| - 1) < remaining
            case Err(e) => e != Endless
    decreases remaining
  {
    hide OxmParse, ToUser;
    if remaining > 0 {
      ReadErrors(buf, offset);
      var r := OxmParse(buf, offset);
      if r.Ok? {
        FieldsBounded(buf, offset + r.value.1, remaining - r.value.1);
      }
    }
  }

  lemma ReadErrors(buf: seq<byte>, offset: nat)
    ensures match OxmParse(buf, offset)
            case Ok((f, _)) => ToUser(f) != Err(Endless)
            case Err(e) => e != Endless
  {
    hide Registered;
  }

  /** A match and the length its header declared. */
  function ParseMatch(buf: seq<byte>, offset: nat): Result<(FlowMatch, nat)> {
    var kind :- ReadNum(buf, offset, 2);
    var length :- ReadNum(buf, offset + 2, 2);
    var fields :- ParseFields(buf, offset + 4, length - 4);
    Ok((FlowMatch(kind, fields), length))
  }

  /** `OFPMatch.parser` as the loop it is. */
  method ParseMatchLoop(buf: seq<byte>, start: nat) returns (r: Result<(FlowMatch, nat)>)
    ensures r == ParseMatch(buf, start)
  {
    hide OxmParse, ToUser;
    var offset := start;
    var kind :- ReadNum(buf, offset, 2);
    var length: int :- ReadNum(buf, offset + 2, 2);
    offset := offset + 4;
    var remaining := length - 4;
    var fields: seq<OxmField> := [];
    CollectedNothing(ParseFields(buf, offset, remaining));
    while remaining > 0
      invariant ParseFields(buf, start + 4, length - 4) == Collected(fields, ParseFields(buf, offset, remaining))
      decreases remaining
    {
      var parsed :- OxmParse(buf, offset);
      var (f, fieldLen) := parsed;
      var user :- ToUser(f);
      CollectedOne(fields, user, ParseFields(buf, offset + fieldLen, remaining - fieldLen));
      fields := fields + [user];
      offset := offset + fieldLen;
      remaining := remaining - fieldLen;
    }
    assert fields + [] == fields;
    r := Ok((FlowMatch(kind, fields), length));
  }

  predicate WellFormedMatch(m: FlowMatch) {
    m.kind < 0x1_0000 && MatchLength(m) < 0x1_0000 && forall f | f in m.fields :: WellFormedOxm(f)
  }

  lemma {:induction false} ParseFieldsTlvs(fields: seq<OxmField>, buf: seq<byte>, offset: nat)
    requires forall f | f in fields :: WellFormedOxm(f)
    requires Has(buf, offset, Tlvs(fields))
    ensures ParseFields(buf, offset, |Tlvs(fields)|) == Ok(fields)
  {
    hide WellFormedOxm, OxmParse, ToUser, Tlv, Has;
    if fields != [] {
      HasSplit(buf, offset, Tlv(fields[0]), Tlvs(fields[1..]));
      OxmRoundTrip(fields[0], buf, offset);
      ParseFieldsTlvs(fields[1..], buf, offset + |Tlv(fields[0])|);
      assert fields == [fields[0]] + fields[1..];
    }
  }

  /** A match reads back field for field, with the length it was written with,
      at any offset of any buffer. */
  lemma MatchRoundTrip(m: FlowMatch, buf: seq<byte>, offset: nat)
    requires WellFormedMatch(m)
    requires Has(buf, offset, EncodeMatch(m))
    ensures ParseMatch(buf, offset) == Ok((m, MatchLength(m)))
    ensures MatchFits(m)
  {
    hide WellFormedOxm, ParseFields, Tlv, Writable;
    var length := MatchLength(m);
    assert Pow256(2) == 0x1_0000;
    var pad := Zeros(RoundUp8(length) - length);
    assert EncodeMatch(m) == Be(m.kind, 2) + (Be(length, 2) + (Tlvs(m.fields) + pad));
    HasSplit(buf, offset, Be(m.kind, 2), Be(length, 2) + (Tlvs(m.fields) + pad));
    HasSplit(buf, offset + 2, Be(length, 2), Tlvs(m.fields) + pad);
    HasSplit(buf, offset + 4, Tlvs(m.fields), pad);
    ReadNumHas(buf, offset, m.kind, 2);
    ReadNumHas(buf, offset + 2, length, 2);
    ParseFieldsTlvs(m.fields, buf, offset + 4);
    forall f | f in m.fields
      ensures Writable(f)
    {
      WellFormedOxmWritable(f);
    }
  }

  /** The wire form determines the match. */
  lemma EncodeInjective(a: FlowMatch, b: FlowMatch)
    requires WellFormedMatch(a) && WellFormedMatch(b)
    ensures EncodeMatch(a) == EncodeMatch(b) <==> a == b
  {
    if EncodeMatch(a) == EncodeMatch(b) {
      var s := EncodeMatch(a);
      assert s[0..0 + |s|] == s;
      MatchRoundTrip(a, s, 0);
      MatchRoundTrip(b, s, 0);
    }
  }
}
