/** MLDv2 listener reports, section 5.2 of RFC 3810, and the ICMPv6 header around
    them. */
module Mldv2 {
  import opened Bytes
  import opened InternetChecksum

  /** One group record. Counts of zero are filled in when it is serialized. */
  datatype Record = Record(
    kind: nat, auxLen: nat, num: nat, address: seq<byte>, srcs: seq<seq<byte>>, aux: Option<seq<byte>>)

  datatype Report = Report(recordNum: nat, records: seq<Record>)

  const RECORD_FIXED := 20
  const REPORT_FIXED := 4

  function Join(srcs: seq<seq<byte>>): seq<byte> {
    if srcs == [] then [] else srcs[0] + Join(srcs[1..])
  }

  lemma {:induction false} JoinSnoc(srcs: seq<seq<byte>>, a: seq<byte>)
    ensures Join(srcs + [a]) == Join(srcs) + a
  {
    if srcs == [] {
      assert [a][1..] == [];
    } else {
      JoinSnoc(srcs[1..], a);
      assert (srcs + [a])[1..] == srcs[1..] + [a];
    }
  }

  predicate Addresses(srcs: seq<seq<byte>>) {
    forall a | a in srcs :: |a| == 16
  }

  lemma {:induction false} JoinLength(srcs: seq<seq<byte>>)
    requires Addresses(srcs)
    ensures |Join(srcs)| == 16 * |srcs|
  {
    if srcs != [] {
      assert srcs[0] in srcs;
      JoinLength(srcs[1..]);
    }
  }

  /** Auxiliary data filled up to whole 32 bit words. */
  function PadAux(aux: seq<byte>): (r: seq<byte>)
    ensures |r| % 4 == 0 && |aux| <= |r| < |aux| + 4
  {
    if |aux| % 4 == 0 then aux else aux + Zeros(4 - |aux| % 4)
  }

  // -- writing ------------------------------------------------------------------------

  /** The record as serialize leaves it: counts filled in, auxiliary data padded. */
  function Filled(r: Record): Record {
    var aux := match r.aux case Some(a) => Some(PadAux(a)) case None => None;
    r.(num := if r.num == 0 then |r.srcs| else r.num,
       aux := aux,
       auxLen := if aux.Some? && r.auxLen == 0 then |aux.value| / 4 else r.auxLen)
  }

  function RecordFixed(kind: nat, auxLen: nat, num: nat, address: seq<byte>): seq<byte> {
    Be(kind, 1) + Be(auxLen, 1) + Be(num, 2) + address
  }

  function AuxOctets(r: Record): seq<byte> {
    OwnData(r.aux)
  }

  function RecordOctets(r: Record): seq<byte> {
    RecordFixed(r.kind, r.auxLen, r.num, r.address) + Join(r.srcs) + AuxOctets(r)
  }

  function EncodeRecord(r: Record): seq<byte> { RecordOctets(Filled(r)) }

  predicate Fits(r: Record) {
    && r.kind < 0x100 && |r.address| == 16 && Addresses(r.srcs)
    && r.auxLen < 0x100 && r.num < 0x1_0000
    && Filled(r).auxLen < 0x100 && Filled(r).num < 0x1_0000
  }

  /** `mldv2_report_group.serialize`: the counts are packed as they are and patched
      in place afterwards. */
  method SerializeRecord(r: Record, buf: ByteBuffer)
    requires Fits(r)
    requires buf.bytes == []
    modifies buf
    ensures buf.bytes == EncodeRecord(r)
  {
    hide Be, PadAux, Overlay, Join, RecordFixed;
    buf.Extend(RecordFixed(r.kind, r.auxLen, r.num, r.address));
    assert buf.bytes == RecordFixed(r.kind, r.auxLen, r.num, r.address);
    AppendSrcs(r.srcs, buf);
    var num := r.num;
    if r.num == 0 {
      num := |r.srcs|;
      PatchNum(r, Join(r.srcs), num);
      buf.PackInto(2, Be(num, 2));
    }
    if r.aux.Some? {
      var aux := PadAux(r.aux.value);
      buf.Extend(aux);
      if r.auxLen == 0 {
        PatchAuxLen(r, num, Join(r.srcs), aux, |aux| / 4);
        buf.PackInto(1, Be(|aux| / 4, 1));
      }
    } else {
      assert buf.bytes == RecordFixed(r.kind, r.auxLen, num, r.address) + Join(r.srcs);
      assert EncodeRecord(r) == buf.bytes + [];
    }
  }

  method AppendSrcs(srcs: seq<seq<byte>>, buf: ByteBuffer)
    modifies buf
    ensures buf.bytes == old(buf.bytes) + Join(srcs)
  {
    ghost var before := buf.bytes;
    for i := 0 to |srcs|
      invariant buf.bytes == before + Join(srcs[..i])
    {
      JoinSnoc(srcs[..i], srcs[i]);
      assert srcs[..i + 1] == srcs[..i] + [srcs[i]];
      buf.Extend(srcs[i]);
    }
    assert srcs[..|srcs|] == srcs;
  }

  lemma PatchNum(r: Record, tail: seq<byte>, num: nat)
    ensures Overlay(RecordFixed(r.kind, r.auxLen, r.num, r.address) + tail, 2, Be(num, 2))
         == RecordFixed(r.kind, r.auxLen, num, r.address) + tail
  {
    hide Be;
  }

  lemma PatchAuxLen(r: Record, num: nat, srcs: seq<byte>, aux: seq<byte>, auxLen: nat)
    ensures Overlay(RecordFixed(r.kind, r.auxLen, num, r.address) + srcs + aux, 1, Be(auxLen, 1))
         == RecordFixed(r.kind, auxLen, num, r.address) + srcs + aux
  {
    hide Be;
  }

  function EncodeRecords(records: seq<Record>): seq<byte> {
    if records == [] then [] else EncodeRecord(records[0]) + EncodeRecords(records[1..])
  }

  lemma {:induction false} EncodeRecordsSnoc(records: seq<Record>, r: Record)
    ensures EncodeRecords(records + [r]) == EncodeRecords(records) + EncodeRecord(r)
  {
    hide EncodeRecord;
    if records == [] {
      assert [r][1..] == [];
    } else {
      EncodeRecordsSnoc(records[1..], r);
      assert (records + [r])[1..] == records[1..] + [r];
    }
  }

  function FilledCount(m: Report): nat {
    if m.recordNum == 0 then |m.records| else m.recordNum
  }

  function EncodeReport(m: Report): seq<byte> {
    Zeros(2) + Be(FilledCount(m), 2) + EncodeRecords(m.records)
  }

  /** `mldv2_report.serialize`. */
  method SerializeReport(m: Report) returns (body: seq<byte>)
    requires m.recordNum < 0x1_0000 && |m.records| < 0x1_0000 && forall r | r in m.records :: Fits(r)
    ensures body == EncodeReport(m)
  {
    hide Be, Overlay, EncodeRecord, Fits;
    var buf := new ByteBuffer(Zeros(2) + Be(m.recordNum, 2));
    for i := 0 to |m.records|
      invariant buf.bytes == Zeros(2) + Be(m.recordNum, 2) + EncodeRecords(m.records[..i])
    {
      EncodeRecordsSnoc(m.records[..i], m.records[i]);
      assert m.records[..i + 1] == m.records[..i] + [m.records[i]];
      assert m.records[i] in m.records;
      var record := new ByteBuffer([]);
      SerializeRecord(m.records[i], record);
      buf.Extend(record.bytes);
    }
    assert m.records[..|m.records|] == m.records;
    if m.recordNum == 0 {
      PatchCount(Be(0, 2), EncodeRecords(m.records), |m.records|);
      buf.PackInto(2, Be(|m.records|, 2));
    }
    body := buf.bytes;
  }

  lemma PatchCount(old16: seq<byte>, tail: seq<byte>, count: nat)
    requires |old16| == 2
    ensures Overlay(Zeros(2) + old16 + tail, 2, Be(count, 2)) == Zeros(2) + Be(count, 2) + tail
  {
    hide Be;
  }

  // -- reading --------------------------------------------------------------------------

  /** Sources are read while octets and the count last; a partial one raises. */
  function ParseSrcs(buf: seq<byte>, offset: nat, num: int): Result<seq<seq<byte>>>
    decreases num
  {
    if |buf| <= offset || num <= 0 then Ok([])
    else if offset + 16 > |buf| then Err(StructError)
    else Collected([buf[offset..offset + 16]], ParseSrcs(buf, offset + 16, num - 1))
  }

  /** `mldv2_report_group.parser`. */
  function ParseRecord(buf: seq<byte>): Result<Record> {
    if |buf| < RECORD_FIXED then Err(StructError)
    else
      var auxLen: nat := buf[1];
      var num := Un(buf[2..4]);
      var srcs :- ParseSrcs(buf, RECORD_FIXED, num);
      var at := RECORD_FIXED + 16 * |srcs|;
      if auxLen == 0 then Ok(Record(buf[0], 0, num, buf[4..20], srcs, None))
      else if at + 4 * auxLen > |buf| then Err(StructError)
      else Ok(Record(buf[0], auxLen, num, buf[4..20], srcs, Some(buf[at..at + 4 * auxLen])))
  }

  /** `len(record)`. */
  function RecordLen(r: Record): nat {
    RECORD_FIXED + 16 * |r.srcs| + 4 * r.auxLen
  }

  /** The record loop of `mldv2_report.parser`. */
  function ParseRecords(buf: seq<byte>, offset: nat, count: int): Result<seq<Record>>
    decreases count
  {
    if |buf| <= offset || count <= 0 then Ok([])
    else
      var r :- ParseRecord(Drop(buf, offset));
      Collected([r], ParseRecords(buf, offset + RecordLen(r), count - 1))
  }

  function ParseReport(buf: seq<byte>, offset: nat): Result<Report> {
    if offset + REPORT_FIXED > |buf| then Err(StructError)
    else
      var count := Un(buf[offset + 2..offset + 4]);
      var records :- ParseRecords(buf, offset + REPORT_FIXED, count);
      Ok(Report(count, records))
  }

  /** The record loop as it stands. */
  method ParseRecordsLoop(buf: seq<byte>, start: nat, recordNum: int) returns (r: Result<seq<Record>>)
    ensures r == ParseRecords(buf, start, recordNum)
  {
    hide ParseRecord;
    var offset: nat := start;
    var records: seq<Record> := [];
    CollectedNothing(ParseRecords(buf, offset, recordNum));
    while |buf| > offset && recordNum > |records|
      invariant ParseRecords(buf, start, recordNum)
             == Collected(records, ParseRecords(buf, offset, recordNum - |records|))
      decreases recordNum - |records|
    {
      var record :- ParseRecord(Drop(buf, offset));
      CollectedOne(records, record, ParseRecords(buf, offset + RecordLen(record), recordNum - |records| - 1));
      records := records + [record];
      offset := offset + RecordLen(record);
    }
    assert records + [] == records;
    r := Ok(records);
  }

  // -- round trip -----------------------------------------------------------------------------

  /** The number of sources left zero, or right. */
  predicate NumRight(r: Record) { r.num == 0 || r.num == |r.srcs| }

  /** The auxiliary length left zero, or right. */
  predicate AuxRight(r: Record) {
    r.auxLen == 0 || (r.aux.Some? && r.auxLen == |PadAux(r.aux.value)| / 4)
  }

  /** Counts left zero, or right; and, for the last octets of a report, more sources
      announced than there are, as the loop over them stops with the octets. */
  predicate CountsRight(r: Record, last: bool) {
    AuxRight(r) && (NumRight(r) || (last && r.num > |r.srcs| && AuxOctets(r) == []))
  }

  /** A record as it reads back: filled in, and without empty auxiliary data. */
  function Normal(r: Record): Record {
    var f := Filled(r);
    if f.aux == Some([]) then f.(aux := None) else f
  }

  /** The source loop gives exactly the sources written if and only if it is told their
      number, or more and the octets end with them. */
  lemma {:induction false} SrcsExact(srcs: seq<seq<byte>>, buf: seq<byte>, offset: nat, num: nat)
    requires Addresses(srcs)
    requires Has(buf, offset, Join(srcs))
    ensures ParseSrcs(buf, offset, num) == Ok(srcs)
       <==> num == |srcs| || (num > |srcs| && |buf| == offset + |Join(srcs)|)
    decreases |srcs|
  {
    if srcs != [] && num > 0 {
      assert srcs[0] in srcs;
      HasSplit(buf, offset, srcs[0], Join(srcs[1..]));
      SrcsExact(srcs[1..], buf, offset + 16, num - 1);
      assert srcs == [srcs[0]] + srcs[1..];
    }
  }

  lemma FixedFields(r: Record, tail: seq<byte>)
    requires r.kind < 0x100 && r.auxLen < 0x100 && r.num < 0x1_0000 && |r.address| == 16
    ensures var fixed := RecordFixed(r.kind, r.auxLen, r.num, r.address);
            var buf := fixed + tail;
            && |fixed| == RECORD_FIXED
            && buf[0] == r.kind && buf[1] == r.auxLen && Un(buf[2..4]) == r.num && buf[4..20] == r.address
  {
    hide Be;
    OneOctet(r.kind);
    OneOctet(r.auxLen);
    assert Pow256(2) == 0x1_0000;
    UnBe(r.num, 2);
    var buf := RecordFixed(r.kind, r.auxLen, r.num, r.address) + tail;
    assert buf[2..4] == Be(r.num, 2);
  }

  /** Where everything stands in the octets of a filled record. */
  lemma RecordLayout(f: Record, tail: seq<byte>)
    requires f.kind < 0x100 && f.auxLen < 0x100 && f.num < 0x1_0000 && |f.address| == 16 && Addresses(f.srcs)
    ensures var buf := RecordOctets(f) + tail;
            var at := RECORD_FIXED + 16 * |f.srcs|;
            && |RecordOctets(f)| == at + |AuxOctets(f)|
            && buf[0] == f.kind && buf[1] == f.auxLen && Un(buf[2..4]) == f.num && buf[4..20] == f.address
            && Has(buf, RECORD_FIXED, Join(f.srcs)) && |Join(f.srcs)| == 16 * |f.srcs|
            && buf[at..] == AuxOctets(f) + tail
  {
    hide RecordFixed, Addresses, Un, Join, Has;
    var aux := AuxOctets(f);
    var buf := RecordOctets(f) + tail;
    JoinLength(f.srcs);
    var fixed := RecordFixed(f.kind, f.auxLen, f.num, f.address);
    FixedFields(f, Join(f.srcs) + aux + tail);
    assert buf == fixed + (Join(f.srcs) + aux + tail);
    HasAfter(fixed, Join(f.srcs), aux + tail);
    assert buf == fixed + Join(f.srcs) + (aux + tail);
  }

  /** For any counts that can be packed: a record reads back, filled in and padded, if
      and only if its counts are right; and then its length is exactly the octets it
      occupies. */
  lemma RecordExact(r: Record, tail: seq<byte>)
    requires Fits(r)
    ensures ParseRecord(EncodeRecord(r) + tail) == Ok(Normal(r)) <==> CountsRight(r, tail == [])
    ensures AuxRight(r) ==> |EncodeRecord(r)| == RecordLen(Normal(r))
  {
    hide PadAux, Addresses, ParseSrcs, Un, RecordOctets, Join, Has;
    var f := Filled(r);
    var buf := EncodeRecord(r) + tail;
    var at := RECORD_FIXED + 16 * |f.srcs|;
    RecordLayout(f, tail);
    SrcsExact(f.srcs, buf, RECORD_FIXED, f.num);
    assert |AuxOctets(f)| % 4 == 0 && (AuxOctets(f) == [] <==> AuxOctets(r) == []);
    if at + 4 * f.auxLen <= |buf| {
      assert buf[at..at + 4 * f.auxLen] == buf[at..][..4 * f.auxLen];
    }
  }

  function NormalAll(records: seq<Record>): (r: seq<Record>)
    ensures |r| == |records|
  {
    if records == [] then [] else [Normal(records[0])] + NormalAll(records[1..])
  }

  predicate AllRight(records: seq<Record>) {
    records == [] || (CountsRight(records[0], records[1..] == []) && AllRight(records[1..]))
  }

  lemma {:induction false} RecordsExact(records: seq<Record>, buf: seq<byte>, offset: nat, count: nat)
    requires forall r | r in records :: Fits(r)
    requires offset <= |buf| && buf[offset..] == EncodeRecords(records)
    ensures ParseRecords(buf, offset, count) == Ok(NormalAll(records)) <==> count >= |records| && AllRight(records)
    decreases |records|
  {
    hide Fits, CountsRight, AuxRight, EncodeRecord, ParseRecord, Normal;
    if records != [] && count > 0 {
      var r := records[0];
      var tail := EncodeRecords(records[1..]);
      RecordExact(r, tail);
      BehindIsMore(records);
      BehindIsMore(records[1..]);
      assert Drop(buf, offset) == EncodeRecord(r) + tail;
      if ParseRecord(EncodeRecord(r) + tail) == Ok(Normal(r)) {
        RightAux(r, tail == []);
        var next := offset + RecordLen(Normal(r));
        assert buf[next..] == buf[offset..][|EncodeRecord(r)|..] == tail;
        RecordsExact(records[1..], buf, next, count - 1);
        assert NormalAll(records)[1..] == NormalAll(records[1..]);
      } else {
        var all := ParseRecords(buf, offset, count);
        assert all.Ok? ==> all.value[0] == ParseRecord(EncodeRecord(r) + tail).value;
      }
    }
  }

  lemma RightAux(r: Record, last: bool)
    requires CountsRight(r, last)
    ensures AuxRight(r)
  {
  }

  lemma BehindIsMore(records: seq<Record>)
    requires forall r | r in records :: Fits(r)
    ensures EncodeRecords(records) == [] <==> records == []
  {
    hide PadAux, Join, Be;
    if records != [] {
      assert records[0] in records;
      assert |EncodeRecord(records[0])| >= 4;
    }
  }

  /** For any counts that can be packed: parsing the serialized report, wherever it
      starts, gives its records filled in if and only if all counts are left zero or
      right, or more is announced at the very end than follows. */
  lemma ReportExact(m: Report, prefix: seq<byte>)
    requires m.recordNum < 0x1_0000 && |m.records| < 0x1_0000 && forall r | r in m.records :: Fits(r)
    ensures ParseReport(prefix + EncodeReport(m), |prefix|) == Ok(Report(FilledCount(m), NormalAll(m.records)))
       <==> (m.recordNum == 0 || m.recordNum >= |m.records|) && AllRight(m.records)
  {
    hide Fits, EncodeRecords, Be, AllRight;
    var buf := prefix + EncodeReport(m);
    var count := FilledCount(m);
    assert Pow256(2) == 0x1_0000;
    UnBe(count, 2);
    assert buf[|prefix| + 2..|prefix| + 4] == Be(count, 2);
    assert buf[|prefix| + REPORT_FIXED..] == EncodeRecords(m.records);
    RecordsExact(m.records, buf, |prefix| + REPORT_FIXED, count);
  }

  lemma {:induction false} RightAll(records: seq<Record>)
    requires forall r | r in records :: AuxRight(r) && NumRight(r)
    ensures AllRight(records)
  {
    hide AuxRight, NumRight;
    if records != [] {
      RightAll(records[1..]);
    }
  }

  /** So for any list of group records with counts left zero or right the report reads
      back. */
  lemma ReportRoundTrip(m: Report, prefix: seq<byte>)
    requires |m.records| < 0x1_0000 && (m.recordNum == 0 || m.recordNum == |m.records|)
    requires forall r | r in m.records :: Fits(r) && AuxRight(r) && NumRight(r)
    ensures ParseReport(prefix + EncodeReport(m), |prefix|) == Ok(Report(|m.records|, NormalAll(m.records)))
  {
    hide Fits, AuxRight, NumRight, EncodeReport, ParseReport;
    RightAll(m.records);
    ReportExact(m, prefix);
  }

  // -- ICMPv6 -------------------------------------------------------------------------------------

  /** The IPv6 pseudo header of `checksum_ip`. */
  function PseudoHeader(src: seq<byte>, dst: seq<byte>, length: nat, nxt: nat): seq<byte> {
    src + dst + Be(length, 4) + Zeros(3) + Be(nxt, 1)
  }

  function Icmpv6Octets(kind: nat, code: nat, csum: nat, body: seq<byte>): (s: seq<byte>)
    ensures |s| == 4 + |body|
  {
    Be(kind, 1) + Be(code, 1) + Be(csum, 2) + body
  }

  /** The checksum filled in where it is left zero: over the header, body and payload,
      and a pseudo header that carries the length of header and body and the next
      header field of the IPv6 header. */
  function FilledChecksum(
    kind: nat, code: nat, body: seq<byte>, payload: seq<byte>, src: seq<byte>, dst: seq<byte>, nxt: nat): (c: nat)
    ensures c < 0x1_0000
  {
    Checksum(PseudoHeader(src, dst, 4 + |body|, nxt) + Icmpv6Octets(kind, code, 0, body) + payload)
  }

  /** `icmpv6.serialize`: the header is packed with the checksum as it is; zero is
      replaced by the checksum, patched in place. */
  method SerializeIcmpv6(
    kind: nat, code: nat, given: nat, body: seq<byte>, payload: seq<byte>, src: seq<byte>, dst: seq<byte>, nxt: nat)
    returns (hdr: seq<byte>, csum: nat)
    requires kind < 0x100 && code < 0x100 && given < 0x1_0000 && nxt < 0x100 && |src| == 16 && |dst| == 16
    ensures csum == if given == 0 then FilledChecksum(kind, code, body, payload, src, dst, nxt) else given
    ensures hdr == Icmpv6Octets(kind, code, csum, body)
    // The receiver's test.
    ensures given == 0 && 44 + |body| + |payload| <= EXACT_OCTETS ==>
              (Verifies(hdr, payload, src, dst) <==> (|payload| + ICMPV6 - nxt) % 0xFFFF == 0)
  {
    hide Be, Checksum, Store16, Icmpv6Octets, Verifies;
    hdr, csum := Icmpv6Octets(kind, code, given, body), given;
    if csum == 0 {
      csum := Checksum(PseudoHeader(src, dst, |hdr|, nxt) + hdr + payload);
      ZeroField(kind, code, csum, body);
      hdr := Store16(hdr, 2, csum);
      if 44 + |body| + |payload| <= EXACT_OCTETS {
        ReceiverExact(kind, code, body, payload, src, dst, nxt);
      }
    }
  }

  // -- the receiver ----------------------------------------------------------------------------

  /** The next header value of ICMPv6. */
  const ICMPV6 := 58

  /** A receiver's test, section 8.1 of RFC 2460: the length is that of the whole upper
      layer packet, the next header that of ICMPv6, whatever extension headers stand in
      between. */
  predicate Verifies(hdr: seq<byte>, payload: seq<byte>, src: seq<byte>, dst: seq<byte>) {
    Checksum(PseudoHeader(src, dst, |hdr| + |payload|, ICMPV6) + hdr + payload) == 0
  }

  lemma LongSum(n: nat)
    requires n < 0x1_0000_0000
    ensures WordSum(Be(n, 4)) == n / 0x1_0000 + n % 0x1_0000
  {
    hide WordSum, Be;
    BeHalves(n);
    OneWordSum(n / 0x1_0000);
    OneWordSum(n);
    WordSumSplit(Be(n / 0x1_0000, 2), Be(n, 2));
  }

  lemma BeHalves(n: nat)
    ensures Be(n, 4) == Be(n / 0x1_0000, 2) + Be(n, 2)
  {
    assert n / 256 / 256 == n / 0x1_0000;
    assert Be(n, 4) == Be(n / 256 / 256, 2) + [n / 256 % 256] + [n % 256];
    assert Be(n, 2) == Be(n / 256 / 256, 0) + [n / 256 % 256] + [n % 256];
  }

  lemma TwoOctets(n: nat)
    ensures Be(n, 2) == [n / 256 % 256, n % 256]
  {
    assert Be(n, 2) == Be(n / 256, 1) + [n % 256];
    assert Be(n / 256, 1) == Be(n / 256 / 256, 0) + [n / 256 % 256];
  }

  lemma PairSum(high: byte, low: byte)
    ensures WordSum([high, low]) == 256 * high + low
  {
    assert [high, low][2..] == [];
  }

  lemma OneWordSum(n: nat)
    ensures WordSum(Be(n, 2)) == n % 0x1_0000
  {
    hide WordSum, Be;
    TwoOctets(n);
    PairSum(n / 256 % 256, n % 256);
  }

  /** What the pseudo header adds to a sum. */
  lemma PseudoSum(src: seq<byte>, dst: seq<byte>, length: nat, nxt: nat)
    requires |src| == 16 && |dst| == 16 && length < 0x1_0000_0000 && nxt < 0x100
    ensures WordSum(PseudoHeader(src, dst, length, nxt))
         == WordSum(src) + WordSum(dst) + length / 0x1_0000 + length % 0x1_0000 + nxt
  {
    hide WordSum, Be;
    var last := Zeros(3) + Be(nxt, 1);
    assert PseudoHeader(src, dst, length, nxt) == src + (dst + (Be(length, 4) + last));
    WordSumSplit(src, dst + (Be(length, 4) + last));
    WordSumSplit(dst, Be(length, 4) + last);
    WordSumSplit(Be(length, 4), last);
    LongSum(length);
    LastWords(nxt);
  }

  lemma LastWords(nxt: nat)
    requires nxt < 0x100
    ensures WordSum(Zeros(3) + Be(nxt, 1)) == nxt
  {
    hide WordSum, Be;
    OneOctet(nxt);
    assert Zeros(3) + Be(nxt, 1) == [0, 0] + [0, nxt];
    WordSumSplit([0, 0], [0, nxt]);
    PairSum(0, 0);
    PairSum(0, nxt);
  }

  /** For every message, payload and next header: what the code fills in passes the
      receiver's test if and only if the length it leaves out and the next header it
      puts in cancel, up to a multiple of 0xFFFF. */
  lemma ReceiverExact(
    kind: nat, code: nat, body: seq<byte>, payload: seq<byte>, src: seq<byte>, dst: seq<byte>, nxt: nat)
    requires kind < 0x100 && code < 0x100 && nxt < 0x100 && |src| == 16 && |dst| == 16
    requires 44 + |body| + |payload| <= EXACT_OCTETS
    ensures var hdr := Icmpv6Octets(kind, code, FilledChecksum(kind, code, body, payload, src, dst, nxt), body);
            Verifies(hdr, payload, src, dst) <==> (|payload| + ICMPV6 - nxt) % 0xFFFF == 0
  {
    hide Be, Checksum, Store16, Icmpv6Octets, WordSum, PseudoHeader;
    var csum := FilledChecksum(kind, code, body, payload, src, dst, nxt);
    var hdr := Icmpv6Octets(kind, code, csum, body);
    SenderVerifies(kind, code, body, payload, src, dst, nxt);
    var sent, seen := PseudoHeader(src, dst, |hdr|, nxt), PseudoHeader(src, dst, |hdr| + |payload|, ICMPV6);
    PseudoSize(src, dst, |hdr|, nxt);
    PseudoSize(src, dst, |hdr| + |payload|, ICMPV6);
    assert sent + hdr + payload == sent + (hdr + payload) && seen + hdr + payload == seen + (hdr + payload);
    VerifiesIff(sent + (hdr + payload));
    VerifiesIff(seen + (hdr + payload));
    WordSumSplit(sent, hdr + payload);
    WordSumSplit(seen, hdr + payload);
    PseudoSum(src, dst, |hdr|, nxt);
    PseudoSum(src, dst, |hdr| + |payload|, ICMPV6);
    SumsDiffer(WordSum(src) + WordSum(dst) + WordSum(hdr + payload), |hdr|, |payload|, nxt);
  }

  lemma PseudoSize(src: seq<byte>, dst: seq<byte>, length: nat, nxt: nat)
    ensures |PseudoHeader(src, dst, length, nxt)| == |src| + |dst| + 8
  {
    hide Be;
  }

  lemma SumsDiffer(base: nat, length: nat, more: nat, nxt: nat)
    requires nxt < 0x100
    requires (base + length / 0x1_0000 + length % 0x1_0000 + nxt) % 0xFFFF == 0
    ensures var whole := length + more;
            (base + whole / 0x1_0000 + whole % 0x1_0000 + ICMPV6) % 0xFFFF == 0 <==> (more + ICMPV6 - nxt) % 0xFFFF == 0
  {
    var whole := length + more;
    var a, b := length / 0x1_0000, whole / 0x1_0000;
    var s, t := base + a + length % 0x1_0000 + nxt, base + b + whole % 0x1_0000 + ICMPV6;
    assert t - s == more + ICMPV6 - nxt + 0xFFFF * (a - b);
    MultipleAdded(s, t, a - b, more + ICMPV6 - nxt);
  }

  lemma MultipleAdded(s: int, t: int, k: int, d: int)
    requires s % 0xFFFF == 0 && t == s + d + 0xFFFF * k
    ensures t % 0xFFFF == 0 <==> d % 0xFFFF == 0
  {
    var q := s / 0xFFFF;
    assert t == d + 0xFFFF * (q + k);
  }

  /** The sender's own sum does verify. */
  lemma SenderVerifies(
    kind: nat, code: nat, body: seq<byte>, payload: seq<byte>, src: seq<byte>, dst: seq<byte>, nxt: nat)
    requires |src| == 16 && |dst| == 16 && 44 + |body| + |payload| <= EXACT_OCTETS
    ensures var hdr := Icmpv6Octets(kind, code, FilledChecksum(kind, code, body, payload, src, dst, nxt), body);
            Checksum(PseudoHeader(src, dst, |hdr|, nxt) + hdr + payload) == 0
  {
    hide Be, Checksum, Store16, Icmpv6Octets, PseudoHeader;
    var pseudo, zeroed := PseudoHeader(src, dst, 4 + |body|, nxt), Icmpv6Octets(kind, code, 0, body);
    var covered := pseudo + zeroed + payload;
    var csum := Checksum(covered);
    PseudoSize(src, dst, 4 + |body|, nxt);
    ZeroField(kind, code, csum, body);
    assert covered[42] == zeroed[2] && covered[43] == zeroed[3];
    StoredChecksumVerifies(covered, 42);
    assert Store16(covered, 42, csum) == pseudo + Store16(zeroed, 2, csum) + payload;
  }

  /** One zero octet behind the message, or an extension header in front of it, and the
      receiver refuses what was sent. */
  lemma ChecksumRefused(kind: nat, code: nat, body: seq<byte>, src: seq<byte>, dst: seq<byte>)
    requires kind < 0x100 && code < 0x100 && |src| == 16 && |dst| == 16 && 45 + |body| <= EXACT_OCTETS
    ensures var csum := FilledChecksum(kind, code, body, [0], src, dst, 58);
            !Verifies(Icmpv6Octets(kind, code, csum, body), [0], src, dst)
    ensures var csum := FilledChecksum(kind, code, body, [], src, dst, 43);
            !Verifies(Icmpv6Octets(kind, code, csum, body), [], src, dst)
  {
    hide Verifies, FilledChecksum, Icmpv6Octets;
    ReceiverExact(kind, code, body, [0], src, dst, 58);
    ReceiverExact(kind, code, body, [], src, dst, 43);
  }

  lemma ZeroField(kind: nat, code: nat, csum: nat, body: seq<byte>)
    requires csum < 0x1_0000
    ensures var s := Icmpv6Octets(kind, code, 0, body);
            s[2] == 0 && s[3] == 0 && Store16(s, 2, csum) == Icmpv6Octets(kind, code, csum, body)
  {
    hide Be;
    ZeroWord();
  }
}
