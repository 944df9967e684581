/** Header stacks: Ethernet, VLAN tags, ARP, IPv4 and ICMP, encoded innermost first
    and decoded by walking the next-protocol selectors. */
module PacketStack {
  import opened Bytes
  import opened Layout
  import opened InternetChecksum

  datatype Ethernet = Ethernet(dst: seq<byte>, src: seq<byte>, ethertype: nat)

  /** An 802.1Q or 802.1ad tag. */
  datatype Tag = Tag(service: bool, pcp: nat, cfi: nat, vid: nat, ethertype: nat)

  datatype Arp = Arp(fields: seq<Value>)

  datatype Ipv4 = Ipv4(
    version: nat, headerLength: nat, tos: nat, totalLength: nat, identification: nat, flags: nat, offset: nat,
    ttl: nat, proto: nat, csum: nat, src: seq<byte>, dst: seq<byte>, option: Option<seq<byte>>)

  /** The body of an ICMP message: of one of the three body classes, or raw octets,
      none of them for no body at all. */
  datatype IcmpBody =
    | Echo(id: nat, seqNo: nat, data: Option<seq<byte>>)
    | Unreachable(dataLen: nat, mtu: nat, data: Option<seq<byte>>)
    | Exceeded(dataLen: nat, data: Option<seq<byte>>)
    | RawBody(octets: seq<byte>)

  datatype Icmp = Icmp(kind: nat, code: nat, csum: nat, body: IcmpBody)

  /** A decoded packet is a list of headers, then raw octets; `Foreign` is a header
      of a class not modelled, with everything behind it. */
  datatype Proto =
    | EthernetHeader(eth: Ethernet)
    | TagHeader(tag: Tag)
    | ArpHeader(arp: Arp)
    | Ipv4Header(ip: Ipv4)
    | IcmpHeader(icmp: Icmp)
    | Foreign(selector: nat, octets: seq<byte>)
    | Raw(octets: seq<byte>)

  /** The class that parses what follows. */
  datatype Next =
    | EthernetClass
    | TagClass(service: bool)
    | ArpClass
    | Ipv4Class
    | IcmpClass
    | ForeignClass(selector: nat)
    | NoClass

  const ETH_IP := 0x0800
  const ETH_ARP := 0x0806
  const ETH_8021Q := 0x8100
  const ETH_8021AD := 0x88A8
  const PROTO_ICMP := 1
  const PROTO_ICMPV6 := 58
  const MIN_PAYLOAD := 46

  /** The ethertype registry; IPv6, LLDP and slow protocols are foreign here. */
  function EtherClass(ethertype: nat): Next {
    match ethertype
    case 0x0800 => Ipv4Class
    case 0x0806 => ArpClass
    case 0x8100 => TagClass(false)
    case 0x88A8 => TagClass(true)
    case 0x86DD | 0x88CC | 0x8809 => ForeignClass(ethertype)
    case _ => NoClass
  }

  /** `ethernet.get_packet_type`: 1500 and below is an 802.3 length. */
  function EthernetNext(ethertype: nat): Next {
    EtherClass(if ethertype < 1500 then 1500 else ethertype)
  }

  function IpNext(proto: nat): Next {
    if proto == PROTO_ICMP then IcmpClass else if proto == PROTO_ICMPV6 then ForeignClass(proto) else NoClass
  }

  // -- encoding ------------------------------------------------------------------------

  function EncodeEthernet(e: Ethernet): seq<byte> {
    FixedWidth(e.dst, 6) + FixedWidth(e.src, 6) + Be(e.ethertype, 2)
  }

  function EncodeTag(t: Tag): seq<byte> {
    Be(t.pcp * 8192 + t.cfi * 4096 + t.vid, 2) + Be(t.ethertype, 2)
  }

  const ARP_FORMAT: Format := [Num(2), Num(2), Num(1), Num(1), Num(2), Str(6), Str(4), Str(6), Str(4)]

  function EncodeArp(a: Arp): seq<byte> { Pack(ARP_FORMAT, a.fields) }

  function BodyOctets(b: IcmpBody): seq<byte> {
    match b
    case Echo(id, seqNo, data) => Be(id, 2) + Be(seqNo, 2) + OwnData(data)
    case Unreachable(dataLen, mtu, data) => Be(dataLen, 2) + Be(mtu, 2) + OwnData(data)
    case Exceeded(dataLen, data) => Be(dataLen, 2) + Zeros(2) + OwnData(data)
    // No body at all is sent as an empty echo body.
    case RawBody(octets) => if octets == [] then Zeros(4) else octets
  }

  /** The types a body class is registered for. */
  predicate HasBodyClass(kind: nat) { kind in {0, 3, 8, 11} }

  /** Octets where a body object is asserted, or a body object where octets are
      appended. */
  predicate BodyRefused(m: Icmp) {
    if HasBodyClass(m.kind) then m.body.RawBody? && m.body.octets != [] else !m.body.RawBody?
  }

  function IcmpOctets(m: Icmp): seq<byte> {
    Be(m.kind, 1) + Be(m.code, 1) + Be(m.csum, 2) + BodyOctets(m.body)
  }

  /** The message as serialize leaves it: a checksum of zero is computed. */
  function FillIcmp(m: Icmp): Icmp {
    if m.csum == 0 then m.(csum := Checksum(IcmpOctets(m))) else m
  }

  /** `icmp.serialize`: packed with the checksum as it is; zero is replaced by the
      checksum of header and body, patched in place. */
  method SerializeIcmp(m: Icmp) returns (r: Result<seq<byte>>)
    requires m.kind < 0x100 && m.code < 0x100 && m.csum < 0x1_0000
    ensures r.Err? <==> BodyRefused(m)
    ensures r.Err? ==> r == Err(if HasBodyClass(m.kind) then AssertionError else TypeError)
    ensures r.Ok? ==> r.value == IcmpOctets(FillIcmp(m))
    ensures r.Ok? && m.csum == 0 && |r.value| <= EXACT_OCTETS ==> Checksum(r.value) == 0
  {
    hide Be, Checksum, BodyOctets, Store16;
    if HasBodyClass(m.kind) {
      if m.body.RawBody? && m.body.octets != [] {
        return Err(AssertionError);
      }
    } else if !m.body.RawBody? {
      return Err(TypeError);
    }
    var hdr := IcmpOctets(m);
    if m.csum == 0 {
      var csum := Checksum(hdr);
      IcmpPatched(m, csum);
      if |hdr| <= EXACT_OCTETS {
        IcmpZeroField(m);
        StoredChecksumVerifies(hdr, 2);
      }
      hdr := Store16(hdr, 2, csum);
    }
    r := Ok(hdr);
  }

  lemma IcmpPatched(m: Icmp, csum: nat)
    requires csum < 0x1_0000
    ensures |IcmpOctets(m)| >= 4
    ensures Store16(IcmpOctets(m), 2, csum) == IcmpOctets(m.(csum := csum))
  {
    hide Be, BodyOctets, Store16;
    var s := IcmpOctets(m);
    assert s[..2] == Be(m.kind, 1) + Be(m.code, 1) && s[4..] == BodyOctets(m.body);
  }

  lemma IcmpZeroField(m: Icmp)
    requires m.csum == 0
    ensures IcmpOctets(m)[2] == 0 && IcmpOctets(m)[3] == 0
  {
    hide BodyOctets;
    ZeroWord();
    assert IcmpOctets(m)[2..4] == Be(0, 2);
  }

  /** A checksum filled in does not cover octets serialized behind the message. With
      them the receiver's test passes if and only if they sum to a multiple of 0xFFFF. */
  lemma IcmpReceiver(m: Icmp, behind: seq<byte>)
    requires m.kind < 0x100 && m.code < 0x100 && m.csum == 0
    requires |IcmpOctets(m)| + |behind| <= EXACT_OCTETS
    ensures var sent := IcmpOctets(FillIcmp(m));
            Checksum(sent + behind) == 0 <==> WordSum(Shifted(|sent|, behind)) % 0xFFFF == 0
  {
    hide Be, Checksum, BodyOctets, Store16, WordSum, Shifted;
    var hdr := IcmpOctets(m);
    IcmpPatched(m, Checksum(hdr));
    IcmpZeroField(m);
    StoredChecksumVerifies(hdr, 2);
    AppendVerifies(IcmpOctets(FillIcmp(m)), behind);
  }

  /** An octet behind the message, not zero, and the receiver refuses it. */
  lemma IcmpRefused(m: Icmp, x: byte)
    requires m.kind < 0x100 && m.code < 0x100 && m.csum == 0 && x != 0
    requires |IcmpOctets(m)| < EXACT_OCTETS
    ensures Checksum(IcmpOctets(FillIcmp(m)) + [x]) != 0
  {
    hide Checksum, IcmpOctets;
    IcmpReceiver(m, [x]);
    assert [0, x][2..] == [] && [0] + [x] == [0, x];
  }

  function HeaderOctets(h: Ipv4): nat { 4 * h.headerLength }

  function FillLength(h: Ipv4, payload: nat): Ipv4 {
    if h.totalLength == 0 then h.(totalLength := HeaderOctets(h) + payload) else h
  }

  function Ipv4Fixed(h: Ipv4, csum: nat): (s: seq<byte>)
    ensures |s| == 20
  {
    Be(h.version * 16 + h.headerLength, 1) + Be(h.tos, 1) + Be(h.totalLength, 2) + Be(h.identification, 2)
    + Be(h.flags * 8192 + h.offset, 2) + Be(h.ttl, 1) + Be(h.proto, 1) + Be(csum, 2)
    + FixedWidth(h.src, 4) + FixedWidth(h.dst, 4)
  }

  /** The options area: what was given, filled up with zero octets. */
  function OptionArea(h: Ipv4): seq<byte> {
    var given := Given(h);
    if HeaderOctets(h) >= 20 + |given| then given + Zeros(HeaderOctets(h) - 20 - |given|) else given
  }

  predicate FieldsFit(h: Ipv4) {
    && h.version < 16 && h.headerLength < 16 && h.tos < 0x100 && h.totalLength < 0x1_0000
    && h.identification < 0x1_0000 && h.flags < 8 && h.offset < 8192 && h.ttl < 0x100 && h.proto < 0x100
    && |h.src| == 4 && |h.dst| == 4
  }

  function Given(h: Ipv4): seq<byte> {
    OwnData(h.option)
  }

  /** What serialize raises: a header length without room for the fixed part, or for
      the options. */
  function Ipv4Refused(h: Ipv4): Option<Error> {
    if HeaderOctets(h) < 20 then Some(StructError)
    else if HeaderOctets(h) < 20 + |Given(h)| then Some(AssertionError)
    else None
  }

  predicate Ipv4Fits(h: Ipv4) { FieldsFit(h) && Ipv4Refused(h).None? }

  /** The header of a filled-in length, with its checksum. */
  function EncodeIpv4(h: Ipv4): seq<byte> {
    Ipv4Fixed(h, Ipv4Checksum(h)) + OptionArea(h)
  }

  function Ipv4Checksum(h: Ipv4): (c: nat)
    ensures c < 0x1_0000
  {
    Checksum(Ipv4Fixed(h, 0) + OptionArea(h))
  }

  /** `ipv4.serialize`: the header is packed into a zeroed buffer with checksum zero,
      the options copied in, the checksum computed and patched in place. */
  method SerializeIpv4(h: Ipv4, payload: nat) returns (r: Result<seq<byte>>)
    requires FieldsFit(h) && FillLength(h, payload).totalLength < 0x1_0000
    ensures match Ipv4Refused(h)
            case Some(e) => r == Err(e)
            case None => r == Ok(EncodeIpv4(FillLength(h, payload)))
    // The header has its length, and a receiver's checksum over it is zero.
    ensures r.Ok? ==> |r.value| == HeaderOctets(h) && Checksum(r.value) == 0
  {
    hide Be, Checksum, Overlay, Ipv4Fixed, Store16;
    var filled := FillLength(h, payload);
    var buf := new ByteBuffer(Zeros(HeaderOctets(h)));
    if |buf.bytes| < 20 {
      return Err(StructError);
    }
    var fixed := Ipv4Fixed(filled, 0);
    PackedHeader(fixed, HeaderOctets(h));
    buf.PackInto(0, fixed);
    var given := Given(h);
    if given != [] {
      if HeaderOctets(h) - 20 < |given| {
        return Err(AssertionError);
      }
      CopiedOption(fixed, given, HeaderOctets(h));
      buf.PackInto(20, given);
    } else {
      CopiedOption(fixed, given, HeaderOctets(h));
    }
    assert buf.bytes == fixed + OptionArea(filled);
    var csum := Checksum(buf.bytes);
    ChecksumField(filled, csum);
    StoredChecksumVerifies(buf.bytes, 10);
    r := Ok(Store16(buf.bytes, 10, csum));
  }

  lemma PackedHeader(fixed: seq<byte>, length: nat)
    requires |fixed| == 20 <= length
    ensures Overlay(Zeros(length), 0, fixed) == fixed + Zeros(length - 20)
  {
  }

  lemma CopiedOption(fixed: seq<byte>, given: seq<byte>, length: nat)
    requires |fixed| == 20 && 20 + |given| <= length
    ensures Overlay(fixed + Zeros(length - 20), 20, given) == fixed + (given + Zeros(length - 20 - |given|))
    ensures given == [] ==> fixed + Zeros(length - 20) == fixed + (given + Zeros(length - 20 - |given|))
  {
  }

  lemma ChecksumField(h: Ipv4, csum: nat)
    requires csum < 0x1_0000
    ensures var s := Ipv4Fixed(h, 0) + OptionArea(h);
            && s[10] == 0 && s[11] == 0
            && Store16(s, 10, csum) == Ipv4Fixed(h, csum) + OptionArea(h)
  {
    hide Be, OptionArea, FixedWidth, Store16;
    ZeroWord();
    var head := Be(h.version * 16 + h.headerLength, 1) + Be(h.tos, 1) + Be(h.totalLength, 2) + Be(h.identification, 2)
                + Be(h.flags * 8192 + h.offset, 2) + Be(h.ttl, 1) + Be(h.proto, 1);
    var tail := FixedWidth(h.src, 4) + FixedWidth(h.dst, 4) + OptionArea(h);
    var s := Ipv4Fixed(h, 0) + OptionArea(h);
    assert s == head + Be(0, 2) + tail;
    assert s[..10] == head && s[12..] == tail && s[10..12] == Be(0, 2);
    assert Ipv4Fixed(h, csum) + OptionArea(h) == head + Be(csum, 2) + tail;
  }

  // -- a stack ---------------------------------------------------------------------------

  datatype Inner = ArpInner(arp: Arp) | IpInner(ip: Ipv4, icmp: Icmp)

  datatype Stack = Stack(eth: Ethernet, tags: seq<Tag>, inner: Inner)

  function EncodeInner(i: Inner): seq<byte> {
    match i
    case ArpInner(arp) => EncodeArp(arp)
    case IpInner(ip, icmp) =>
      var payload := IcmpOctets(FillIcmp(icmp));
      EncodeIpv4(FillLength(ip, |payload|)) + payload
  }

  function EncodeTags(tags: seq<Tag>, inner: seq<byte>): seq<byte> {
    if tags == [] then inner else EncodeTag(tags[0]) + EncodeTags(tags[1..], inner)
  }

  /** The payload under the Ethernet header, filled up to 46 octets. */
  function Padded(payload: seq<byte>): seq<byte> {
    if |payload| < MIN_PAYLOAD then payload + Zeros(MIN_PAYLOAD - |payload|) else payload
  }

  function EncodeStack(s: Stack): seq<byte> {
    EncodeEthernet(s.eth) + Padded(EncodeTags(s.tags, EncodeInner(s.inner)))
  }

  lemma {:induction false} EncodeTagsSnoc(tags: seq<Tag>, t: Tag, inner: seq<byte>)
    ensures EncodeTags(tags + [t], inner) == EncodeTags(tags, EncodeTag(t) + inner)
  {
    hide EncodeTag;
    if tags == [] {
      assert [t][1..] == [];
    } else {
      EncodeTagsSnoc(tags[1..], t, inner);
      assert (tags + [t])[1..] == tags[1..] + [t];
    }
  }

  /** `Packet.serialize`: innermost first, each header in front of what it covers;
      Ethernet extends the payload in place before its own header goes in front. */
  method SerializeStack(s: Stack) returns (r: Result<seq<byte>>)
    requires s.inner.IpInner? ==>
               && FieldsFit(s.inner.ip)
               && s.inner.icmp.kind < 0x100 && s.inner.icmp.code < 0x100 && s.inner.icmp.csum < 0x1_0000
               && FillLength(s.inner.ip, |IcmpOctets(s.inner.icmp)|).totalLength < 0x1_0000
    ensures r.Err? <==> s.inner.IpInner? && (BodyRefused(s.inner.icmp) || Ipv4Refused(s.inner.ip).Some?)
    ensures r.Ok? ==> r.value == EncodeStack(s) && |r.value| >= 60
  {
    hide EncodeTag, EncodeArp, EncodeIpv4, IcmpOctets, Ipv4Refused, BodyRefused;
    var data;
    match s.inner {
      case ArpInner(arp) => data := EncodeArp(arp);
      case IpInner(ip, icmp) =>
        data :- SerializeIcmp(icmp);
        IcmpSize(icmp);
        var hdr :- SerializeIpv4(ip, |data|);
        data := hdr + data;
    }
    ghost var inner := data;
    assert s.tags[..|s.tags|] == s.tags;
    var i := |s.tags|;
    while i > 0
      invariant 0 <= i <= |s.tags|
      invariant EncodeTags(s.tags[..i], data) == EncodeTags(s.tags, inner)
    {
      i := i - 1;
      EncodeTagsSnoc(s.tags[..i], s.tags[i], data);
      assert s.tags[..i + 1] == s.tags[..i] + [s.tags[i]];
      data := EncodeTag(s.tags[i]) + data;
    }
    var padLen := MIN_PAYLOAD - |data|;
    if padLen > 0 {
      data := data + Zeros(padLen);
    }
    r := Ok(EncodeEthernet(s.eth) + data);
  }

  lemma IcmpSize(m: Icmp)
    ensures |IcmpOctets(FillIcmp(m))| == |IcmpOctets(m)|
  {
  }

  // -- decoding ----------------------------------------------------------------------------

  /** One header, the class of the next, and what is left; `rest` is None where a
      header takes everything. None for the struct error that ends the walk. */
  datatype Step = Step(proto: Proto, next: Next, rest: Option<seq<byte>>)

  function ParseEthernet(buf: seq<byte>): Option<Step> {
    if |buf| < 14 then None
    else
      var ethertype := Un(buf[12..14]);
      Some(Step(EthernetHeader(Ethernet(buf[..6], buf[6..12], ethertype)), EthernetNext(ethertype), Some(buf[14..])))
  }

  function ParseTag(service: bool, buf: seq<byte>): Option<Step> {
    if |buf| < 4 then None
    else
      var tci := Un(buf[..2]);
      var ethertype := Un(buf[2..4]);
      var tag := Tag(service, tci / 8192, tci / 4096 % 2, tci % 4096, ethertype);
      Some(Step(TagHeader(tag), EtherClass(ethertype), Some(buf[4..])))
  }

  function ParseArp(buf: seq<byte>): Option<Step> {
    if |buf| < Size(ARP_FORMAT) then None
    else Some(Step(ArpHeader(Arp(Unpack(ARP_FORMAT, buf[..Size(ARP_FORMAT)]))), NoClass, Some(buf[Size(ARP_FORMAT)..])))
  }

  /** `ipv4.parser`: the rest ends at the total length, so padding stays outside. */
  function ParseIpv4(buf: seq<byte>): Option<Step> {
    if |buf| < 20 then None
    else
      var headerLength: nat := buf[0] % 16;
      var totalLength := Un(buf[2..4]);
      var frag := Un(buf[6..8]);
      var length := 4 * headerLength;
      var proto: nat := buf[9];
      var ip := Ipv4(buf[0] / 16, headerLength, buf[1], totalLength, Un(buf[4..6]), frag / 8192, frag % 8192,
                     buf[8], proto, Un(buf[10..12]), buf[12..16], buf[16..20],
                     if length > 20 then Some(Slice(buf, 20, length)) else None);
      Some(Step(Ipv4Header(ip), IpNext(proto), Some(Slice(buf, length, totalLength))))
  }

  /** The body of a registered type: its fixed word and the octets behind it. */
  function ParseIcmpBody(kind: nat, buf: seq<byte>): IcmpBody
    requires |buf| >= 8 && HasBodyClass(kind)
  {
    var data := if |buf| > 8 then Some(buf[8..]) else None;
    match kind
    case 3 => Unreachable(buf[5], Un(buf[6..8]), data)
    case 11 => Exceeded(buf[5], data)
    case _ => Echo(Un(buf[4..6]), Un(buf[6..8]), data)
  }

  /** `icmp.parser`. */
  function ParseIcmp(buf: seq<byte>): Option<Step> {
    if |buf| < 4 then None
    else
      var kind: nat := buf[0];
      if HasBodyClass(kind) && |buf| > 4 then
        if |buf| < 8 then None
        else Some(Step(IcmpHeader(Icmp(kind, buf[1], Un(buf[2..4]), ParseIcmpBody(kind, buf))), NoClass, None))
      else Some(Step(IcmpHeader(Icmp(kind, buf[1], Un(buf[2..4]), RawBody(buf[4..]))), NoClass, None))
  }

  function ParseHeader(cls: Next, buf: seq<byte>): Option<Step>
    requires !cls.NoClass? && !cls.ForeignClass?
  {
    match cls
    case EthernetClass => ParseEthernet(buf)
    case TagClass(service) => ParseTag(service, buf)
    case ArpClass => ParseArp(buf)
    case Ipv4Class => ParseIpv4(buf)
    case IcmpClass => ParseIcmp(buf)
  }

  predicate AllZero(s: seq<byte>) {
    forall i | 0 <= i < |s| :: s[i] == 0
  }

  function Leftover(rest: Option<seq<byte>>): seq<Proto> {
    if rest.Some? && !AllZero(rest.value) then [Raw(rest.value)] else []
  }

  /** How far a class still is from the end of the chain; only tags repeat. */
  function Rank(cls: Next): nat {
    match cls
    case EthernetClass => 4
    case TagClass(_) => 3
    case Ipv4Class => 2
    case _ => 1
  }

  /** What the classes not modelled make of the octets from their header on: all that
      the walk appends from there. */
  type Decoder = (nat, seq<byte>) -> seq<Proto>

  /** `if proto`: the length of a header is its truth, and an IPv4 header has the length
      it announces. */
  function Kept(p: Proto): seq<Proto> {
    if p.Ipv4Header? && p.ip.headerLength == 0 then [] else [p]
  }

  /** `Packet._parse`: header after header until there is no class for what follows,
      a header is cut short, or nothing but zero octets is left. */
  function Walk(other: Decoder, cls: Next, rest: seq<byte>): seq<Proto>
    decreases if cls.EthernetClass? then 1 else 0, |rest|, Rank(cls)
  {
    if cls.NoClass? then Leftover(Some(rest))
    else if AllZero(rest) then []
    else if cls.ForeignClass? then other(cls.selector, rest)
    else match ParseHeader(cls, rest)
      case None => Leftover(Some(rest))
      case Some(step) =>
        if step.rest.None? then Kept(step.proto)
        else Kept(step.proto) + Walk(other, step.next, step.rest.value)
  }

  /** `Packet(data)`. */
  function Decode(other: Decoder, data: seq<byte>): seq<Proto> {
    if data == [] then [] else Walk(other, EthernetClass, data)
  }

  /** The walk as the loop it is. */
  method DecodeLoop(other: Decoder, data: seq<byte>) returns (protocols: seq<Proto>)
    ensures protocols == Decode(other, data)
  {
    hide ParseHeader, AllZero, Kept;
    protocols := [];
    if data == [] {
      return;
    }
    var cls := EthernetClass;
    var rest := data;
    while !cls.NoClass?
      invariant Decode(other, data) == protocols + Walk(other, cls, rest)
      decreases if cls.EthernetClass? then 1 else 0, |rest|, Rank(cls)
    {
      if AllZero(rest) {
        assert protocols + [] == protocols;
        return;
      }
      if cls.ForeignClass? {
        return protocols + other(cls.selector, rest);
      }
      var step := ParseHeader(cls, rest);
      if step.None? {
        break;
      }
      if step.value.rest.Some? {
        WalkShrinks(cls, rest);
      }
      var own := Kept(step.value.proto);
      ghost var tail := if step.value.rest.None? then [] else Walk(other, step.value.next, step.value.rest.value);
      assert protocols + (own + tail) == protocols + own + tail && own + [] == own;
      protocols := protocols + own;
      if step.value.rest.None? {
        assert protocols + [] == protocols;
        return;
      }
      cls, rest := step.value.next, step.value.rest.value;
    }
    if !AllZero(rest) {
      protocols := protocols + [Raw(rest)];
    } else {
      assert protocols + [] == protocols;
    }
  }

  /** Every header either shortens what is left or is not parsed again. */
  lemma WalkShrinks(cls: Next, rest: seq<byte>)
    requires !cls.NoClass? && !cls.ForeignClass?
    requires ParseHeader(cls, rest).Some? && ParseHeader(cls, rest).value.rest.Some?
    ensures var step := ParseHeader(cls, rest).value;
            && !step.next.EthernetClass?
            && |step.rest.value| <= |rest|
            && (|step.rest.value| < |rest| || Rank(step.next) < Rank(cls))
  {
    hide Unpack, Un;
  }

  function InnerSelector(i: Inner): nat { if i.ArpInner? then ETH_ARP else ETH_IP }

  /** The ethertype that announces the tags, or what they carry. */
  function Selector(tags: seq<Tag>, inner: Inner): nat {
    if tags == [] then InnerSelector(inner) else if tags[0].service then ETH_8021AD else ETH_8021Q
  }

  predicate Chained(tags: seq<Tag>, inner: Inner)
    decreases |tags|
  {
    tags == [] || (&& tags[0].pcp < 8 && tags[0].cfi < 2 && tags[0].vid < 4096
                   && tags[0].ethertype == Selector(tags[1..], inner)
                   && Chained(tags[1..], inner))
  }

  /** An ICMP message with a body of its type's own class, or none. */
  predicate WellFormedIcmp(m: Icmp) {
    && m.kind < 0x100 && m.code < 0x100 && m.csum < 0x1_0000
    && match m.body
       case Echo(id, seqNo, _) => m.kind in {0, 8} && id < 0x1_0000 && seqNo < 0x1_0000
       case Unreachable(dataLen, mtu, _) => m.kind == 3 && dataLen < 0x100 && mtu < 0x1_0000
       case Exceeded(dataLen, _) => m.kind == 11 && dataLen < 0x100
       case RawBody(octets) => HasBodyClass(m.kind) ==> octets == []
  }

  /** An ARP packet; an IPv4 header, of any total length, carrying ICMP. */
  predicate WellFormedInner(i: Inner) {
    match i
    case ArpInner(arp) => Fits(ARP_FORMAT, arp.fields)
    case IpInner(ip, icmp) =>
      var total := HeaderOctets(ip) + |IcmpOctets(icmp)|;
      Ipv4Fits(ip) && ip.proto == PROTO_ICMP && total < 0x1_0000 && WellFormedIcmp(icmp)
  }

  /** An ARP packet the walk does not take for padding; a total length left zero, or
      right, or too large with no padding behind it. */
  predicate ReadsBack(i: Inner, padding: nat) {
    match i
    case ArpInner(arp) => !AllZero(EncodeArp(arp))
    case IpInner(ip, icmp) =>
      var total := HeaderOctets(ip) + |IcmpOctets(icmp)|;
      ip.totalLength == 0 || ip.totalLength == total || (ip.totalLength > total && padding == 0)
  }

  /** The zero octets the frame is filled up with. */
  function Padding(s: Stack): nat {
    var size := 4 * |s.tags| + match s.inner
                               case ArpInner(_) => Size(ARP_FORMAT)
                               case IpInner(ip, icmp) => HeaderOctets(ip) + |IcmpOctets(icmp)|;
    if size < MIN_PAYLOAD then MIN_PAYLOAD - size else 0
  }

  predicate WellFormedStack(s: Stack) {
    && |s.eth.dst| == 6 && |s.eth.src| == 6 && s.eth.ethertype == Selector(s.tags, s.inner)
    && Chained(s.tags, s.inner) && WellFormedInner(s.inner)
  }

  function NoEmpty(data: Option<seq<byte>>): Option<seq<byte>> {
    if data == Some([]) then None else data
  }

  /** A body as it reads back: no data rather than empty data; for no body the four
      zero octets sent instead. */
  function SeenBody(kind: nat, b: IcmpBody): IcmpBody {
    match b
    case Echo(id, seqNo, data) => Echo(id, seqNo, NoEmpty(data))
    case Unreachable(dataLen, mtu, data) => Unreachable(dataLen, mtu, NoEmpty(data))
    case Exceeded(dataLen, data) => Exceeded(dataLen, NoEmpty(data))
    case RawBody(octets) =>
      if octets != [] then b
      else if kind in {0, 8} then Echo(0, 0, None)
      else if kind == 3 then Unreachable(0, 0, None)
      else if kind == 11 then Exceeded(0, None)
      else RawBody(Zeros(4))
  }

  /** ICMP as it reads back: checksum filled in. */
  function SeenIcmp(m: Icmp): Icmp {
    var f := FillIcmp(m);
    f.(body := SeenBody(f.kind, f.body))
  }

  /** A header with its length filled in, as it reads back: with its checksum and the
      whole option area. */
  function SeenIpv4(f: Ipv4): Ipv4 {
    f.(csum := Ipv4Checksum(f), option := if f.headerLength > 5 then Some(OptionArea(f)) else None)
  }

  function InnerHeaders(i: Inner): seq<Proto>
    requires WellFormedInner(i)
  {
    match i
    case ArpInner(arp) => [ArpHeader(arp)]
    case IpInner(ip, icmp) =>
      [Ipv4Header(SeenIpv4(FillLength(ip, |IcmpOctets(icmp)|))), IcmpHeader(SeenIcmp(icmp))]
  }

  function TagHeaders(tags: seq<Tag>): seq<Proto> {
    if tags == [] then [] else [TagHeader(tags[0])] + TagHeaders(tags[1..])
  }

  lemma NonZeroWord(n: nat)
    requires 0 < n < 0x1_0000
    ensures !AllZero(Be(n, 2))
  {
    UnBe(n, 2);
    assert Pow256(2) == 0x1_0000;
    if AllZero(Be(n, 2)) {
      ZeroWord();
      assert Be(n, 2) == Be(0, 2);
      UnBe(0, 2);
    }
  }

  lemma NonZeroPart(a: seq<byte>, b: seq<byte>, c: seq<byte>)
    requires !AllZero(b)
    ensures !AllZero(a + b + c)
  {
    var i :| 0 <= i < |b| && b[i] != 0;
    assert (a + b + c)[|a| + i] == b[i];
  }

  lemma EthernetStep(e: Ethernet, tail: seq<byte>)
    requires |e.dst| == 6 && |e.src| == 6 && 1500 < e.ethertype < 0x1_0000
    ensures var buf := EncodeEthernet(e) + tail;
            && !AllZero(buf)
            && ParseEthernet(buf) == Some(Step(EthernetHeader(e), EtherClass(e.ethertype), Some(tail)))
  {
    hide Be, Un, EtherClass, AllZero;
    var buf := EncodeEthernet(e) + tail;
    assert Pow256(2) == 0x1_0000;
    UnBe(e.ethertype, 2);
    NonZeroWord(e.ethertype);
    NonZeroPart(e.dst + e.src, Be(e.ethertype, 2), tail);
    assert buf[..6] == e.dst && buf[6..12] == e.src && buf[12..14] == Be(e.ethertype, 2) && buf[14..] == tail;
  }

  lemma TagStep(t: Tag, tail: seq<byte>)
    requires t.pcp < 8 && t.cfi < 2 && t.vid < 4096 && 0 < t.ethertype < 0x1_0000
    ensures var buf := EncodeTag(t) + tail;
            && !AllZero(buf)
            && ParseTag(t.service, buf) == Some(Step(TagHeader(t), EtherClass(t.ethertype), Some(tail)))
  {
    hide Be, Un, EtherClass, AllZero;
    var buf := EncodeTag(t) + tail;
    var tci := t.pcp * 8192 + t.cfi * 4096 + t.vid;
    TciFields(t.pcp, t.cfi, t.vid);
    assert Pow256(2) == 0x1_0000;
    UnBe(tci, 2);
    UnBe(t.ethertype, 2);
    NonZeroWord(t.ethertype);
    NonZeroPart(Be(tci, 2), Be(t.ethertype, 2), tail);
    assert buf[..2] == Be(tci, 2) && buf[2..4] == Be(t.ethertype, 2) && buf[4..] == tail;
  }

  lemma TciFields(pcp: nat, cfi: nat, vid: nat)
    requires pcp < 8 && cfi < 2 && vid < 4096
    ensures var tci := pcp * 8192 + cfi * 4096 + vid;
            tci < 0x1_0000 && tci / 8192 == pcp && tci / 4096 % 2 == cfi && tci % 4096 == vid
  {
    var tci := pcp * 8192 + cfi * 4096 + vid;
    assert tci / 4096 == pcp * 2 + cfi;
  }

  lemma ArpStep(a: Arp, tail: seq<byte>)
    requires Fits(ARP_FORMAT, a.fields)
    ensures ParseArp(EncodeArp(a) + tail) == Some(Step(ArpHeader(a), NoClass, Some(tail)))
  {
    hide Size, Fits, Pack, Unpack;
    var buf := EncodeArp(a) + tail;
    UnpackPack(ARP_FORMAT, a.fields);
    assert buf[..Size(ARP_FORMAT)] == EncodeArp(a) && buf[Size(ARP_FORMAT)..] == tail;
  }

  lemma Ipv4FixedFields(h: Ipv4, csum: nat, tail: seq<byte>)
    requires Ipv4Fits(h) && csum < 0x1_0000
    ensures var buf := Ipv4Fixed(h, csum) + tail;
            && buf[0] / 16 == h.version && buf[0] % 16 == h.headerLength && buf[1] == h.tos
            && Un(buf[2..4]) == h.totalLength && Un(buf[4..6]) == h.identification
            && Un(buf[6..8]) / 8192 == h.flags && Un(buf[6..8]) % 8192 == h.offset
            && buf[8] == h.ttl && buf[9] == h.proto && Un(buf[10..12]) == csum
            && buf[12..16] == h.src && buf[16..20] == h.dst
  {
    hide Be, Un;
    assert Pow256(2) == 0x1_0000;
    OneOctet(h.version * 16 + h.headerLength);
    OneOctet(h.tos);
    OneOctet(h.ttl);
    OneOctet(h.proto);
    UnBe(h.totalLength, 2);
    UnBe(h.identification, 2);
    UnBe(h.flags * 8192 + h.offset, 2);
    UnBe(csum, 2);
    Ipv4Slices(h, csum, tail);
  }

  lemma Ipv4Slices(h: Ipv4, csum: nat, tail: seq<byte>)
    requires |h.src| == 4 && |h.dst| == 4
    ensures var buf := Ipv4Fixed(h, csum) + tail;
            && buf[0..1] == Be(h.version * 16 + h.headerLength, 1) && buf[1..2] == Be(h.tos, 1)
            && buf[2..4] == Be(h.totalLength, 2) && buf[4..6] == Be(h.identification, 2)
            && buf[6..8] == Be(h.flags * 8192 + h.offset, 2)
            && buf[8..9] == Be(h.ttl, 1) && buf[9..10] == Be(h.proto, 1)
            && buf[10..12] == Be(csum, 2) && buf[12..16] == h.src && buf[16..20] == h.dst
  {
    hide Be;
  }

  /** The octets of the payload that the total length takes in. */
  function Within(h: Ipv4, data: seq<byte>): seq<byte> {
    Slice(data, 0, if h.totalLength < HeaderOctets(h) then 0 else h.totalLength - HeaderOctets(h))
  }

  lemma Ipv4Step(h: Ipv4, data: seq<byte>)
    requires Ipv4Fits(h)
    ensures var buf := EncodeIpv4(h) + data;
            && !AllZero(buf)
            && ParseIpv4(buf) == Some(Step(Ipv4Header(SeenIpv4(h)), IpNext(h.proto), Some(Within(h, data))))
  {
    hide Un, Checksum, IpNext, Ipv4Fixed, OptionArea, AllZero;
    var csum := Ipv4Checksum(h);
    var fixed, option := Ipv4Fixed(h, csum), OptionArea(h);
    var buf := EncodeIpv4(h) + data;
    OptionSize(h);
    assert buf == fixed + (option + data);
    Ipv4FixedFields(h, csum, option + data);
    assert Slice(buf, 20, HeaderOctets(h)) == option;
    assert Slice(buf, HeaderOctets(h), h.totalLength) == Within(h, data);
    SomethingThere(buf);
  }

  lemma SomethingThere(buf: seq<byte>)
    requires buf != [] && buf[0] != 0
    ensures !AllZero(buf)
  {
  }

  lemma OptionSize(h: Ipv4)
    requires Ipv4Fits(h)
    ensures |OptionArea(h)| == HeaderOctets(h) - 20
  {
  }

  lemma IcmpStep(m: Icmp)
    requires WellFormedIcmp(m)
    ensures ParseIcmp(IcmpOctets(m)) == Some(Step(IcmpHeader(m.(body := SeenBody(m.kind, m.body))), NoClass, None))
  {
    hide Be, Un, BodyOctets, ParseIcmpBody, SeenBody;
    var buf := IcmpOctets(m);
    assert Pow256(2) == 0x1_0000;
    OneOctet(m.kind);
    OneOctet(m.code);
    UnBe(m.csum, 2);
    BodySize(m.body);
    assert buf[2..4] == Be(m.csum, 2) && buf[4..] == BodyOctets(m.body);
    if HasBodyClass(m.kind) {
      BodyStep(m, buf);
    } else {
      RawStep(m);
    }
  }

  /** The octets a message was read from. */
  function IcmpSpan(m: Icmp): nat {
    match m.body
    case Echo(_, _, data) => 8 + |OwnData(data)|
    case Unreachable(_, _, data) => 8 + |OwnData(data)|
    case Exceeded(_, data) => 8 + |OwnData(data)|
    case RawBody(octets) => 4 + |octets|
  }

  /** No octets more or fewer read as the same message. */
  lemma IcmpSpanExact(buf: seq<byte>)
    requires ParseIcmp(buf).Some?
    ensures ParseIcmp(buf).value.proto.IcmpHeader? && ParseIcmp(buf).value.rest.None?
    ensures IcmpSpan(ParseIcmp(buf).value.proto.icmp) == |buf|
  {
    hide Un;
  }

  lemma BodySize(b: IcmpBody)
    ensures BodyOctets(b) != []
    ensures !b.RawBody? || b.octets == [] ==> |BodyOctets(b)| >= 4
  {
  }

  lemma RawStep(m: Icmp)
    requires WellFormedIcmp(m) && !HasBodyClass(m.kind)
    ensures RawBody(BodyOctets(m.body)) == SeenBody(m.kind, m.body)
  {
  }

  lemma BodyStep(m: Icmp, buf: seq<byte>)
    requires WellFormedIcmp(m) && HasBodyClass(m.kind)
    requires |buf| >= 8 && buf[4..] == BodyOctets(m.body)
    ensures ParseIcmpBody(m.kind, buf) == SeenBody(m.kind, m.body)
  {
    hide Be, Un;
    assert Pow256(2) == 0x1_0000;
    var body := buf[4..];
    assert buf[4..6] == body[..2] && buf[6..8] == body[2..4] && buf[8..] == body[4..] && buf[5] == body[1];
    ZeroWord();
    UnBe(0, 2);
    match m.body
    case Echo(id, seqNo, data) =>
      UnBe(id, 2);
      UnBe(seqNo, 2);
      assert body[..2] == Be(id, 2) && body[2..4] == Be(seqNo, 2) && body[4..] == OwnData(data);
    case Unreachable(dataLen, mtu, data) =>
      LowOctet(dataLen);
      UnBe(mtu, 2);
      assert body[4..] == OwnData(data);
    case Exceeded(dataLen, data) =>
      LowOctet(dataLen);
      assert body[4..] == OwnData(data);
    case RawBody(_) =>
      assert body == Zeros(4) && body[..2] == [0, 0] && body[2..4] == [0, 0];
  }

  lemma LowOctet(n: nat)
    requires n < 0x100
    ensures Be(n, 2) == [0, n]
  {
    assert Be(n, 2) == Be(0, 1) + [n] && Be(0, 1) == Be(0, 0) + [0];
  }

  lemma {:induction false} ZeroSum(s: seq<byte>)
    requires AllZero(s)
    ensures WordSum(s) == 0
  {
    if |s| >= 2 { ZeroSum(s[2..]); }
  }

  /** An ICMP message with its checksum filled in is never zero throughout. */
  lemma IcmpNotZero(m: Icmp)
    requires m.csum < 0x1_0000
    ensures !AllZero(IcmpOctets(FillIcmp(m)))
  {
    hide BodyOctets, Be, AllZero, TwoFolds;
    var f := FillIcmp(m);
    if f.csum > 0 {
      NonZeroWord(f.csum);
      NonZeroPart(Be(m.kind, 1) + Be(m.code, 1), Be(f.csum, 2), BodyOctets(m.body));
    } else {
      // The checksum of zero octets is not zero, so some octet is not zero.
      assert f == m;
      ChecksumOfZero(IcmpOctets(m));
    }
  }

  lemma ChecksumOfZero(s: seq<byte>)
    ensures AllZero(s) ==> Checksum(s) == 0xFFFF
  {
    if AllZero(s) { ZeroSum(s); }
  }

  lemma ArpWalk(other: Decoder, arp: Arp, n: nat)
    requires Fits(ARP_FORMAT, arp.fields)
    ensures Walk(other, ArpClass, EncodeArp(arp) + Zeros(n)) == if AllZero(EncodeArp(arp)) then [] else [ArpHeader(arp)]
  {
    hide ParseArp, AllZero, EncodeArp, Fits;
    ArpStep(arp, Zeros(n));
    ZerosAreZero(n);
    if AllZero(EncodeArp(arp)) {
      ZeroParts(EncodeArp(arp), Zeros(n));
    } else {
      NonZeroPart([], EncodeArp(arp), Zeros(n));
      assert [] + EncodeArp(arp) + Zeros(n) == EncodeArp(arp) + Zeros(n);
      assert [ArpHeader(arp)] + [] == [ArpHeader(arp)];
    }
  }

  lemma IpWalk(other: Decoder, h: Ipv4, data: seq<byte>)
    requires Ipv4Fits(h) && h.proto == PROTO_ICMP
    ensures Walk(other, Ipv4Class, EncodeIpv4(h) + data)
         == [Ipv4Header(SeenIpv4(h))] + Walk(other, IcmpClass, Within(h, data))
  {
    hide ParseIpv4, AllZero, EncodeIpv4, SeenIpv4, Within;
    Ipv4Step(h, data);
    LongHeader(h);
  }

  lemma LongHeader(h: Ipv4)
    requires Ipv4Fits(h)
    ensures h.headerLength >= 5 && SeenIpv4(h).headerLength == h.headerLength
  {
    hide Ipv4Checksum, OptionArea;
  }

  /** An ICMP header is read exactly from the octets of the message: not from fewer,
      nor from more. */
  lemma IcmpWalk(other: Decoder, m: Icmp, data: seq<byte>)
    requires WellFormedIcmp(m)
    ensures var sent := IcmpOctets(FillIcmp(m));
            && (data == sent ==> Walk(other, IcmpClass, data) == [IcmpHeader(SeenIcmp(m))])
            && (|data| != |sent| ==> Walk(other, IcmpClass, data) != [IcmpHeader(SeenIcmp(m))])
  {
    hide ParseIcmp, AllZero, IcmpOctets, FillIcmp, SeenIcmp, IcmpSpan, WellFormedIcmp;
    var sent := IcmpOctets(FillIcmp(m));
    IcmpSeen(m);
    IcmpNotZero(m);
    IcmpSpanExact(sent);
    if ParseIcmp(data).Some? {
      IcmpSpanExact(data);
    }
  }

  /** Behind the tags: ARP or IPv4 with ICMP, and padding. */
  lemma InnerWalk(other: Decoder, i: Inner, n: nat)
    requires WellFormedInner(i)
    ensures Walk(other, EtherClass(InnerSelector(i)), EncodeInner(i) + Zeros(n)) == InnerHeaders(i) <==> ReadsBack(i, n)
    ensures i.ArpInner? && !ReadsBack(i, n) ==>
              Walk(other, EtherClass(InnerSelector(i)), EncodeInner(i) + Zeros(n)) == []
  {
    hide Walk, EncodeIpv4, IcmpOctets, AllZero, Ipv4Fits, EncodeArp, Fits, SeenIcmp, SeenIpv4, WellFormedIcmp, FillIcmp;
    match i
    case ArpInner(arp) =>
      ArpWalk(other, arp, n);
    case IpInner(ip, icmp) =>
      var payload := IcmpOctets(FillIcmp(icmp));
      IcmpSize(icmp);
      IcmpPatched(icmp, 0);
      var h := FillLength(ip, |payload|);
      FilledFits(ip, |payload|);
      assert EncodeIpv4(h) + payload + Zeros(n) == EncodeIpv4(h) + (payload + Zeros(n));
      IpWalk(other, h, payload + Zeros(n));
      IcmpWalk(other, icmp, Within(h, payload + Zeros(n)));
      WithinSize(h, payload, n);
      var behind := Walk(other, IcmpClass, Within(h, payload + Zeros(n)));
      TwoHeaders(Ipv4Header(SeenIpv4(h)), behind, IcmpHeader(SeenIcmp(icmp)));
  }

  lemma TwoHeaders(first: Proto, more: seq<Proto>, second: Proto)
    ensures [first] + more == [first, second] <==> more == [second]
  {
    assert ([first] + more)[1..] == more && [first, second][1..] == [second];
  }

  lemma WithinSize(h: Ipv4, payload: seq<byte>, n: nat)
    ensures var total := HeaderOctets(h) + |payload|;
            var within := Within(h, payload + Zeros(n));
            && (h.totalLength == total || (h.totalLength > total && n == 0) ==> within == payload)
            && (h.totalLength < total && payload != [] ==> |within| < |payload|)
            && (h.totalLength > total && n > 0 ==> |within| > |payload|)
  {
  }

  lemma IcmpSeen(m: Icmp)
    requires WellFormedIcmp(m)
    ensures ParseIcmp(IcmpOctets(FillIcmp(m))) == Some(Step(IcmpHeader(SeenIcmp(m)), NoClass, None))
    ensures m.csum < 0x1_0000
  {
    hide ParseIcmp, IcmpOctets, SeenBody, Checksum;
    IcmpStep(FillIcmp(m));
  }

  lemma ZeroParts(a: seq<byte>, b: seq<byte>)
    requires AllZero(a) && AllZero(b)
    ensures AllZero(a + b)
  {
  }

  lemma ZerosAreZero(n: nat)
    ensures AllZero(Zeros(n))
  {
  }

  lemma FilledFits(h: Ipv4, payload: nat)
    requires Ipv4Fits(h) && HeaderOctets(h) + payload < 0x1_0000
    ensures Ipv4Fits(FillLength(h, payload))
  {
  }

  lemma {:induction false} TagsWalk(other: Decoder, tags: seq<Tag>, inner: Inner, n: nat)
    requires Chained(tags, inner)
    ensures Walk(other, EtherClass(Selector(tags, inner)), EncodeTags(tags, EncodeInner(inner)) + Zeros(n))
         == TagHeaders(tags) + Walk(other, EtherClass(InnerSelector(inner)), EncodeInner(inner) + Zeros(n))
    decreases |tags|
  {
    hide EncodeTag, EncodeInner, EtherClass, Walk, Chained, Selector;
    var seen := Walk(other, EtherClass(InnerSelector(inner)), EncodeInner(inner) + Zeros(n));
    if tags == [] {
      SelectorTag(tags, inner);
      assert TagHeaders(tags) + seen == seen;
    } else {
      var t := tags[0];
      var tail := EncodeTags(tags[1..], EncodeInner(inner)) + Zeros(n);
      assert EncodeTags(tags, EncodeInner(inner)) + Zeros(n) == EncodeTag(t) + tail;
      ChainedTag(tags, inner);
      SelectorTag(tags, inner);
      SelectorTag(tags[1..], inner);
      WalkTag(other, t, tail);
      TagsWalk(other, tags[1..], inner, n);
      assert [TagHeader(t)] + (TagHeaders(tags[1..]) + seen) == TagHeaders(tags) + seen;
    }
  }

  lemma {:induction false} TagsSize(tags: seq<Tag>, inner: seq<byte>)
    ensures |EncodeTags(tags, inner)| == 4 * |tags| + |inner|
  {
    if tags != [] { TagsSize(tags[1..], inner); }
  }

  lemma ChainedTag(tags: seq<Tag>, inner: Inner)
    requires tags != [] && Chained(tags, inner)
    ensures tags[0].pcp < 8 && tags[0].cfi < 2 && tags[0].vid < 4096
    ensures tags[0].ethertype == Selector(tags[1..], inner) && Chained(tags[1..], inner)
  {
  }

  lemma SelectorTag(tags: seq<Tag>, inner: Inner)
    ensures 0 < Selector(tags, inner) < 0x1_0000
    ensures tags == [] ==> Selector(tags, inner) == InnerSelector(inner)
    ensures tags != [] ==> EtherClass(Selector(tags, inner)) == TagClass(tags[0].service)
  {
  }

  lemma WalkTag(other: Decoder, t: Tag, tail: seq<byte>)
    requires t.pcp < 8 && t.cfi < 2 && t.vid < 4096 && 0 < t.ethertype < 0x1_0000
    ensures Walk(other, TagClass(t.service), EncodeTag(t) + tail)
         == [TagHeader(t)] + Walk(other, EtherClass(t.ethertype), tail)
  {
    hide AllZero, EncodeTag, ParseTag, EtherClass;
    TagStep(t, tail);
  }

  lemma FrameSize(e: Ethernet, payload: seq<byte>) returns (n: nat)
    ensures |EncodeEthernet(e) + Padded(payload)| >= 60
    ensures Padded(payload) == payload + Zeros(n)
  {
    hide Be;
    if |payload| >= MIN_PAYLOAD {
      n := 0;
      assert payload + Zeros(0) == payload;
    } else {
      n := MIN_PAYLOAD - |payload|;
    }
  }

  lemma WalkEthernet(other: Decoder, e: Ethernet, tail: seq<byte>)
    requires |e.dst| == 6 && |e.src| == 6 && 1500 < e.ethertype < 0x1_0000
    ensures Walk(other, EthernetClass, EncodeEthernet(e) + tail)
         == [EthernetHeader(e)] + Walk(other, EtherClass(e.ethertype), tail)
    ensures EncodeEthernet(e) + tail != []
  {
    hide EncodeEthernet, ParseEthernet, AllZero, EtherClass;
    EthernetStep(e, tail);
    NoZeros();
  }

  lemma NoZeros()
    ensures AllZero([])
  {
  }

  /** The octets behind the Ethernet header, and the padding behind those. */
  lemma InnerSize(s: Stack)
    requires WellFormedInner(s.inner)
    ensures var payload := EncodeTags(s.tags, EncodeInner(s.inner));
            Padded(payload) == payload + Zeros(Padding(s))
  {
    hide EncodeIpv4, Size, IcmpOctets, FillIcmp, WellFormedIcmp, Ipv4Fits, Fits;
    var payload := EncodeTags(s.tags, EncodeInner(s.inner));
    TagsSize(s.tags, EncodeInner(s.inner));
    match s.inner {
      case ArpInner(_) =>
      case IpInner(ip, icmp) =>
        IcmpSize(icmp);
        FilledFits(ip, |IcmpOctets(icmp)|);
        Ipv4Size(FillLength(ip, |IcmpOctets(icmp)|));
    }
    assert payload + Zeros(0) == payload;
  }

  lemma Ipv4Size(h: Ipv4)
    requires Ipv4Fits(h)
    ensures |EncodeIpv4(h)| == HeaderOctets(h)
  {
    hide Ipv4Fixed, OptionArea, Ipv4Checksum;
    OptionSize(h);
  }

  /** Everything a stack decodes to is its Ethernet header, its tags, and what the walk
      makes of the rest. */
  lemma StackWalk(other: Decoder, s: Stack)
    requires WellFormedStack(s)
    ensures |EncodeStack(s)| >= 60
    ensures Decode(other, EncodeStack(s))
         == [EthernetHeader(s.eth)] + TagHeaders(s.tags)
            + Walk(other, EtherClass(InnerSelector(s.inner)), EncodeInner(s.inner) + Zeros(Padding(s)))
  {
    hide EncodeTags, EncodeInner, WellFormedInner, EncodeEthernet, Walk;
    hide EtherClass, Chained, Padded, TagHeaders, Padding;
    var payload := EncodeTags(s.tags, EncodeInner(s.inner));
    var n := FrameSize(s.eth, payload);
    InnerSize(s);
    WalkEthernet(other, s.eth, payload + Zeros(Padding(s)));
    TagsWalk(other, s.tags, s.inner, Padding(s));
    var seen := Walk(other, EtherClass(InnerSelector(s.inner)), EncodeInner(s.inner) + Zeros(Padding(s)));
    assert [EthernetHeader(s.eth)] + (TagHeaders(s.tags) + seen) == [EthernetHeader(s.eth)] + TagHeaders(s.tags) + seen;
  }

  /** Ethernet, any number of VLAN tags, then ARP or IPv4 of any total length with ICMP:
      the frame has at least 60 octets, and decodes to the same headers, computed fields
      filled in and the padding showing up nowhere, if and only if the ARP packet is not
      zero throughout, and the total length is left zero, or right, or too large with no
      padding to take in. */
  lemma StackRoundTrip(other: Decoder, s: Stack)
    requires WellFormedStack(s)
    ensures |EncodeStack(s)| >= 60
    ensures Decode(other, EncodeStack(s)) == [EthernetHeader(s.eth)] + TagHeaders(s.tags) + InnerHeaders(s.inner)
       <==> ReadsBack(s.inner, Padding(s))
    ensures s.inner.ArpInner? && !ReadsBack(s.inner, Padding(s)) ==>
              Decode(other, EncodeStack(s)) == [EthernetHeader(s.eth)] + TagHeaders(s.tags)
  {
    hide EncodeStack, EncodeInner, Decode, Walk, EtherClass, TagHeaders, InnerHeaders, ReadsBack, Padding;
    StackWalk(other, s);
    InnerWalk(other, s.inner, Padding(s));
    var front := [EthernetHeader(s.eth)] + TagHeaders(s.tags);
    var seen := Walk(other, EtherClass(InnerSelector(s.inner)), EncodeInner(s.inner) + Zeros(Padding(s)));
    assert (front + seen)[|front|..] == seen && (front + InnerHeaders(s.inner))[|front|..] == InnerHeaders(s.inner);
    assert front + [] == front;
  }

  function WithData(m: Icmp, data: seq<byte>): Icmp
    requires m.body.Echo?
  {
    m.(body := Echo(m.body.id, m.body.seqNo, Some(data)))
  }

  /** A total length of 46 over a bare header and an echo without data: the padding of
      the frame becomes the data of the echo. */
  lemma PaddingBecomesData(other: Decoder, eth: Ethernet, ip: Ipv4, icmp: Icmp)
    requires var s := Stack(eth, [], IpInner(ip, icmp));
             WellFormedStack(s) && ip.headerLength == 5 && ip.totalLength == 46
    requires icmp.body.Echo? && icmp.body.data == None
    ensures Decode(other, EncodeStack(Stack(eth, [], IpInner(ip, icmp))))
         == [EthernetHeader(eth), Ipv4Header(SeenIpv4(ip)),
             IcmpHeader(WithData(FillIcmp(icmp), Zeros(18)))]
  {
    hide EncodeStack, Decode, Walk, EncodeIpv4, IcmpOctets, SeenIpv4, Ipv4Fits, WellFormedIcmp, SeenBody, Checksum;
    var s := Stack(eth, [], IpInner(ip, icmp));
    StackWalk(other, s);
    var sent := IcmpOctets(FillIcmp(icmp));
    IcmpSize(icmp);
    EchoOctets(icmp);
    assert Padding(s) == 18;
    assert EncodeIpv4(ip) + sent + Zeros(18) == EncodeIpv4(ip) + (sent + Zeros(18));
    IpWalk(other, ip, sent + Zeros(18));
    assert Within(ip, sent + Zeros(18)) == sent + Zeros(18);
    EchoWithData(other, icmp, Zeros(18));
  }

  lemma EchoOctets(m: Icmp)
    requires m.body.Echo? && m.body.data == None
    ensures |IcmpOctets(m)| == 8
    ensures FillIcmp(m).kind == m.kind && FillIcmp(m).code == m.code && FillIcmp(m).body == m.body
  {
    hide Be, Checksum;
  }

  lemma EchoWithData(other: Decoder, m: Icmp, data: seq<byte>)
    requires WellFormedIcmp(m) && m.body.Echo? && m.body.data == None && data != []
    ensures Walk(other, IcmpClass, IcmpOctets(FillIcmp(m)) + data)
         == [IcmpHeader(WithData(FillIcmp(m), data))]
  {
    hide ParseIcmp, AllZero, Checksum, Be;
    var f := FillIcmp(m);
    var g := WithData(f, data);
    assert IcmpOctets(g) == IcmpOctets(f) + data;
    assert WellFormedIcmp(g);
    IcmpStep(g);
    IcmpNotZero(m);
    NonZeroPart([], IcmpOctets(f), data);
    assert [] + IcmpOctets(f) + data == IcmpOctets(g);
  }

  /** ARP with every field zero. */
  const ZERO_ARP :=
    Arp([N(0), N(0), N(0), N(0), N(0), S([0, 0, 0, 0, 0, 0]), S([0, 0, 0, 0]), S([0, 0, 0, 0, 0, 0]), S([0, 0, 0, 0])])

  /** It is such a packet: lost behind any Ethernet header and tags. */
  lemma ZeroArpLost(other: Decoder, s: Stack)
    requires s.inner == ArpInner(ZERO_ARP)
    requires |s.eth.dst| == 6 && |s.eth.src| == 6
    requires s.eth.ethertype == Selector(s.tags, s.inner) && Chained(s.tags, s.inner)
    ensures Decode(other, EncodeStack(s)) == [EthernetHeader(s.eth)] + TagHeaders(s.tags)
  {
    hide Decode, EncodeStack, Chained, Selector, TagHeaders;
    AllZeroPacks(ARP_FORMAT, ZERO_ARP.fields);
    assert Fits(ARP_FORMAT, ZERO_ARP.fields) by { ZeroFits(); }
    StackRoundTrip(other, s);
  }

  lemma ZeroFits()
    ensures Fits(ARP_FORMAT, ZERO_ARP.fields)
  {
    var v := ZERO_ARP.fields;
    assert Fits(ARP_FORMAT[8..], v[8..]);
    assert Fits(ARP_FORMAT[7..], v[7..]) by { assert ARP_FORMAT[7..][1..] == ARP_FORMAT[8..] && v[7..][1..] == v[8..]; }
    assert Fits(ARP_FORMAT[6..], v[6..]) by { assert ARP_FORMAT[6..][1..] == ARP_FORMAT[7..] && v[6..][1..] == v[7..]; }
    assert Fits(ARP_FORMAT[5..], v[5..]) by { assert ARP_FORMAT[5..][1..] == ARP_FORMAT[6..] && v[5..][1..] == v[6..]; }
    assert Fits(ARP_FORMAT[4..], v[4..]) by { assert ARP_FORMAT[4..][1..] == ARP_FORMAT[5..] && v[4..][1..] == v[5..]; }
    assert Fits(ARP_FORMAT[3..], v[3..]) by { assert ARP_FORMAT[3..][1..] == ARP_FORMAT[4..] && v[3..][1..] == v[4..]; }
    assert Fits(ARP_FORMAT[2..], v[2..]) by { assert ARP_FORMAT[2..][1..] == ARP_FORMAT[3..] && v[2..][1..] == v[3..]; }
    assert Fits(ARP_FORMAT[1..], v[1..]) by { assert ARP_FORMAT[1..][1..] == ARP_FORMAT[2..] && v[1..][1..] == v[2..]; }
  }

  /** Zero numbers and zero octets pack to zero octets. */
  lemma {:induction false} AllZeroPacks(fmt: Format, values: seq<Value>)
    requires forall v | v in values :: if v.N? then v.n == 0 else AllZero(v.octets)
    ensures AllZero(Pack(fmt, values))
  {
    hide Be, FixedWidth;
    if fmt != [] {
      AllZeroPacks(fmt[1..], values);
      AllZeroPacks(fmt[1..], Rest(values));
      var w := fmt[0].width;
      ZeroNumber(w);
      ZeroString([], w);
      if values != [] && values[0].S? {
        assert values[0] in values;
        ZeroString(values[0].octets, w);
      }
      assert values != [] && values[0].N? ==> values[0] in values;
    }
  }

  lemma {:induction false} ZeroNumber(w: nat)
    ensures AllZero(Be(0, w))
  {
    if w > 0 { ZeroNumber(w - 1); }
  }

  lemma ZeroString(s: seq<byte>, w: nat)
    requires AllZero(s)
    ensures AllZero(FixedWidth(s, w))
  {
  }
}
