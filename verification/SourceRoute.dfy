/** The RPL source route header of section 3 of RFC 6554. */
module SourceRoute {
  import opened Bytes

  /** `_pad` is worked out by the constructor. */
  datatype Route = Route(nxt: nat, size: int, kind: nat, seg: nat, cmpi: nat, cmpe: nat, adrs: seq<seq<byte>>)

  const FIXED := 8

  /** Octets the addresses take: all but the last without their first `cmpi`, the
      last without its first `cmpe`. */
  function AddressOctets(r: Route): int {
    (|r.adrs| - 1) * (16 - r.cmpi) + (16 - r.cmpe)
  }

  /** `_pad`, in the constructor's own words: only the last address is reduced
      modulo eight before the sum is. */
  function PadOf(r: Route): int {
    (8 - ((|r.adrs| - 1) * (16 - r.cmpi) + (16 - r.cmpe) % 8)) % 8
  }

  /** `size` as serialize leaves it. */
  function SizeOf(r: Route): int {
    if r.size == 0 then (AddressOctets(r) + PadOf(r)) / 8 else r.size
  }

  function Elided(adrs: seq<seq<byte>>, cut: nat): seq<byte> {
    if adrs == [] then [] else Drop(adrs[0], cut) + Elided(adrs[1..], cut)
  }

  lemma {:induction false} ElidedSnoc(adrs: seq<seq<byte>>, a: seq<byte>, cut: nat)
    ensures Elided(adrs + [a], cut) == Elided(adrs, cut) + Drop(a, cut)
  {
    hide Drop;
    if adrs == [] {
      assert [a][1..] == [];
    } else {
      ElidedSnoc(adrs[1..], a, cut);
      assert (adrs + [a])[1..] == adrs[1..] + [a];
    }
  }

  lemma {:induction false} ElidedLength(adrs: seq<seq<byte>>, cut: nat)
    requires cut < 16 && forall a | a in adrs :: |a| == 16
    ensures |Elided(adrs, cut)| == |adrs| * (16 - cut)
  {
    hide Drop;
    if adrs != [] {
      ElidedLength(adrs[1..], cut);
      assert adrs[0] in adrs;
      OneMore(|adrs[1..]|, 16 - cut);
    }
  }

  lemma OneMore(n: nat, k: nat)
    ensures (n + 1) * k == n * k + k
  {
  }

  function FixedPart(r: Route): (s: seq<byte>)
    ensures |s| == FIXED
  {
    Be(r.nxt, 1) + Be(if SizeOf(r) < 0 then 0 else SizeOf(r), 1) + Be(r.kind, 1) + Be(r.seg, 1)
    + Be(r.cmpi * 16 + r.cmpe, 1) + Be(PadOf(r) * 16, 1) + Zeros(2)
  }

  /** The header as written: the padding is counted in the size but not written. */
  function Encode(r: Route): seq<byte>
    requires r.adrs != []
  {
    FixedPart(r) + Elided(r.adrs[..|r.adrs| - 1], r.cmpi) + Drop(r.adrs[|r.adrs| - 1], r.cmpe)
  }

  predicate AddressesFit(r: Route) {
    r.cmpi < 16 && r.cmpe < 16 && forall a | a in r.adrs :: |a| == 16
  }

  predicate HeaderFits(r: Route) {
    r.nxt < 0x100 && r.kind < 0x100 && r.seg < 0x100
  }

  /** `routing_type3.serialize`. A size out of range cannot be packed; addresses
      are expected as soon as the size is not zero. */
  method Serialize(r: Route) returns (out: Result<seq<byte>>)
    requires HeaderFits(r) && AddressesFit(r)
    ensures out == if !(0 <= SizeOf(r) < 0x100) then Err(StructError)
                   else if SizeOf(r) == 0 then Ok(FixedPart(r))
                   else if r.adrs == [] then Err(IndexError)
                   else Ok(Encode(r))
  {
    hide FixedPart, SizeOf;
    var size := SizeOf(r);
    if !(0 <= size < 0x100) {
      return Err(StructError);
    }
    var buf := FixedPart(r);
    if size == 0 {
      return Ok(buf);
    }
    if r.adrs == [] {
      return Err(IndexError);
    }
    var n := |r.adrs| - 1;
    for i := 0 to n
      invariant buf == FixedPart(r) + Elided(r.adrs[..i], r.cmpi)
    {
      ElidedSnoc(r.adrs[..i], r.adrs[i], r.cmpi);
      assert r.adrs[..i + 1] == r.adrs[..i] + [r.adrs[i]];
      buf := buf + Drop(r.adrs[i], r.cmpi);
    }
    out := Ok(buf + Drop(r.adrs[n], r.cmpe));
  }

  // -- reading ----------------------------------------------------------------------------

  /** Addresses cut to `16 - cut` octets, from `data` up to `end`, their elided
      prefix read as zero octets. */
  function ParseAddresses(buf: seq<byte>, data: nat, end: int, cut: nat): Result<seq<seq<byte>>>
    requires cut < 16
    decreases end - data
  {
    if data >= end then Ok([])
    else if data + (16 - cut) > |buf| then Err(StructError)
    else Collected([Zeros(cut) + buf[data..data + (16 - cut)]], ParseAddresses(buf, data + (16 - cut), end, cut))
  }

  /** `routing_type3.parser`. */
  function Parse(buf: seq<byte>): Result<Route> {
    if |buf| < FIXED then Err(StructError)
    else
      var size: nat := buf[1];
      var cmpi: nat := buf[4] / 16;
      var cmpe: nat := buf[4] % 16;
      var pad: nat := buf[5] / 16;
      if size == 0 then Ok(Route(buf[0], 0, buf[2], buf[3], cmpi, cmpe, []))
      else
        var end := 8 * (size + 1) - ((16 - cmpe) + pad);
        var front :- ParseAddresses(buf, FIXED, end, cmpi);
        var at := FIXED + |front| * (16 - cmpi);
        if at + (16 - cmpe) > |buf| then Err(StructError)
        else Ok(Route(buf[0], size, buf[2], buf[3], cmpi, cmpe, front + [Zeros(cmpe) + buf[at..at + (16 - cmpe)]]))
  }

  /** The address loop of the parser. */
  method ParseAddressesLoop(buf: seq<byte>, end: int, cut: nat) returns (r: Result<seq<seq<byte>>>, data: nat)
    requires cut < 16
    ensures r == ParseAddresses(buf, FIXED, end, cut)
    ensures r.Ok? ==> data == FIXED + |r.value| * (16 - cut)
  {
    data := FIXED;
    var adrs: seq<seq<byte>> := [];
    CollectedNothing(ParseAddresses(buf, data, end, cut));
    while data < end
      invariant ParseAddresses(buf, FIXED, end, cut) == Collected(adrs, ParseAddresses(buf, data, end, cut))
      invariant data == FIXED + |adrs| * (16 - cut)
      decreases end - data
    {
      if data + (16 - cut) > |buf| {
        return Err(StructError), data;
      }
      var adr := Zeros(cut) + buf[data..data + (16 - cut)];
      CollectedOne(adrs, adr, ParseAddresses(buf, data + (16 - cut), end, cut));
      OneMore(|adrs|, 16 - cut);
      adrs := adrs + [adr];
      data := data + (16 - cut);
    }
    assert adrs + [] == adrs;
    r := Ok(adrs);
  }

  // -- round trip ---------------------------------------------------------------------------

  /** The address with its elided prefix zeroed. */
  function ZeroPrefix(a: seq<byte>, cut: nat): seq<byte> {
    Zeros(cut) + Drop(a, cut)
  }

  function ZeroPrefixes(adrs: seq<seq<byte>>, cut: nat): (r: seq<seq<byte>>)
    ensures |r| == |adrs|
  {
    if adrs == [] then [] else [ZeroPrefix(adrs[0], cut)] + ZeroPrefixes(adrs[1..], cut)
  }

  lemma {:induction false} ZeroPrefixesAt(adrs: seq<seq<byte>>, cut: nat, i: nat)
    requires i < |adrs|
    ensures ZeroPrefixes(adrs, cut)[i] == ZeroPrefix(adrs[i], cut)
  {
    if i > 0 { ZeroPrefixesAt(adrs[1..], cut, i - 1); }
  }

  lemma {:induction false} AddressesRoundTrip(adrs: seq<seq<byte>>, cut: nat, buf: seq<byte>, data: nat)
    requires cut < 16 && forall a | a in adrs :: |a| == 16
    requires Has(buf, data, Elided(adrs, cut))
    ensures ParseAddresses(buf, data, data + |Elided(adrs, cut)|, cut) == Ok(ZeroPrefixes(adrs, cut))
  {
    hide Has, Drop, ParseAddresses, ZeroPrefix;
    if adrs == [] {
      NoAddresses(buf, data, cut);
    } else {
      var rest := Elided(adrs[1..], cut);
      var a := adrs[0];
      assert a in adrs;
      HasSplit(buf, data, Drop(a, cut), rest);
      HasHere(buf, data, Drop(a, cut));
      AddressesRoundTrip(adrs[1..], cut, buf, data + (16 - cut));
      OneAddress(buf, data, data + |Elided(adrs, cut)|, cut, a);
    }
  }

  lemma NoAddresses(buf: seq<byte>, data: nat, cut: nat)
    requires cut < 16
    ensures ParseAddresses(buf, data, data, cut) == Ok([])
  {
  }

  lemma OneAddress(buf: seq<byte>, data: nat, end: int, cut: nat, a: seq<byte>)
    requires cut < 16 && |a| == 16 && data < end
    requires data + (16 - cut) <= |buf| && buf[data..data + (16 - cut)] == Drop(a, cut)
    ensures ParseAddresses(buf, data, end, cut)
         == Collected([ZeroPrefix(a, cut)], ParseAddresses(buf, data + (16 - cut), end, cut))
  {
  }

  /** For every address list and every pair of prefix lengths, with `size` left 0:
      the computed length is the octets written plus the padding, a multiple of
      eight. */
  lemma LengthExact(r: Route)
    requires r.adrs != [] && r.size == 0 && AddressesFit(r)
    ensures 8 * (SizeOf(r) + 1) == |Encode(r)| + PadOf(r)
    ensures 0 <= PadOf(r) < 8 && SizeOf(r) >= 1
    ensures |Encode(r)| == FIXED + AddressOctets(r)
    ensures 8 * (SizeOf(r) + 1) == |Encode(r)| <==> PadOf(r) == 0
  {
    hide FixedPart, Elided;
    var n := |r.adrs| - 1;
    ElidedLength(r.adrs[..n], r.cmpi);
    assert r.adrs[n] in r.adrs;
    PaddedSize(n * (16 - r.cmpi), 16 - r.cmpe);
  }

  lemma PaddedSize(front: nat, last: nat)
    requires 1 <= last <= 16
    ensures var pad := (8 - (front + last % 8)) % 8;
            (front + last + pad) % 8 == 0 && (front + last + pad) / 8 >= 1
  {
  }

  lemma FixedFields(r: Route)
    requires HeaderFits(r) && AddressesFit(r) && 0 <= SizeOf(r) < 0x100 && 0 <= PadOf(r) < 8
    ensures var s := FixedPart(r);
            && s[0] == r.nxt && s[1] == SizeOf(r) && s[2] == r.kind && s[3] == r.seg
            && s[4] / 16 == r.cmpi && s[4] % 16 == r.cmpe && s[5] / 16 == PadOf(r)
  {
    hide SizeOf, PadOf, Be;
    OneOctet(r.nxt);
    OneOctet(SizeOf(r));
    OneOctet(r.kind);
    OneOctet(r.seg);
    OneOctet(r.cmpi * 16 + r.cmpe);
    OneOctet(PadOf(r) * 16);
  }

  /** What is expected back: the size filled in, each elided prefix zeroed. */
  function Restored(r: Route): Route
    requires r.adrs != [] && AddressesFit(r)
  {
    var n := |r.adrs| - 1;
    assert r.adrs[n] in r.adrs;
    r.(size := SizeOf(r), adrs := ZeroPrefixes(r.adrs[..n], r.cmpi) + [ZeroPrefix(r.adrs[n], r.cmpe)])
  }

  /** The size makes the address loop run once for every address but the last. */
  predicate SizeMatches(r: Route) {
    Window(|r.adrs| - 1, 8 * (SizeOf(r) + 1) - ((16 - r.cmpe) + PadOf(r)), r.cmpi, FIXED)
  }

  /** From `data`, stepping by `16 - cut`, `end` is reached or passed by step `k` and
      not before. */
  predicate Window(k: int, end: int, cut: nat, data: int) {
    data + k * (16 - cut) >= end && (k > 0 ==> data + (k - 1) * (16 - cut) < end)
  }

  lemma WindowNext(k: int, end: int, cut: nat, data: int)
    ensures k > 0 ==>
              (Window(k, end, cut, data) <==> (k == 1 ==> data < end) && Window(k - 1, end, cut, data + (16 - cut)))
  {
    assert (k - 1) * (16 - cut) == k * (16 - cut) - (16 - cut);
    assert (k - 2) * (16 - cut) == (k - 1) * (16 - cut) - (16 - cut);
  }

  /** How often the loop runs depends on nothing but where it is to end. */
  lemma {:induction false} AddressCount(buf: seq<byte>, data: nat, end: int, cut: nat)
    requires cut < 16 && ParseAddresses(buf, data, end, cut).Ok?
    ensures Window(|ParseAddresses(buf, data, end, cut).value|, end, cut, data)
    decreases end - data
  {
    if data < end {
      AddressCount(buf, data + (16 - cut), end, cut);
      WindowNext(|ParseAddresses(buf, data, end, cut).value|, end, cut, data);
    }
  }

  /** Ends that make it run equally often make it read the same. */
  lemma {:induction false} SameWindow(buf: seq<byte>, data: nat, end: int, end': int, cut: nat, k: nat)
    requires cut < 16 && Window(k, end, cut, data) && Window(k, end', cut, data)
    ensures ParseAddresses(buf, data, end, cut) == ParseAddresses(buf, data, end', cut)
    decreases k
  {
    if k > 0 {
      WindowNext(k, end, cut, data);
      WindowNext(k, end', cut, data);
      WindowReached(k, end, cut, data);
      WindowReached(k, end', cut, data);
      SameWindow(buf, data + (16 - cut), end, end', cut, k - 1);
    }
  }

  lemma WindowReached(k: nat, end: int, cut: nat, data: int)
    requires cut < 16 && k > 0 && Window(k, end, cut, data)
    ensures data < end
  {
    assert (k - 1) * (16 - cut) >= 0;
  }

  /** For every size, left zero or given: the parser returns what was written, each
      address with its elided prefix zeroed, exactly if the size matches the number
      of addresses. */
  lemma SourceRouteExact(r: Route, tail: seq<byte>)
    requires r.adrs != [] && HeaderFits(r) && AddressesFit(r) && 0 < SizeOf(r) < 0x100
    ensures Parse(Encode(r) + tail) == Ok(Restored(r)) <==> SizeMatches(r)
  {
    hide SizeOf, PadOf, FixedPart, ParseAddresses, Has, ZeroPrefixes, Elided, Window;
    var n := |r.adrs| - 1;
    var front := Elided(r.adrs[..n], r.cmpi);
    var last := Drop(r.adrs[n], r.cmpe);
    var buf := Encode(r) + tail;
    assert r.adrs[n] in r.adrs;
    PadRange(r);
    FixedFields(r);
    ElidedLength(r.adrs[..n], r.cmpi);
    assert buf[..FIXED] == FixedPart(r);
    HasAfter(FixedPart(r), front, last + tail);
    assert buf == FixedPart(r) + front + (last + tail);
    var at := FIXED + |front|;
    assert buf[at..at + |last|] == last;
    var end := 8 * (SizeOf(r) + 1) - ((16 - r.cmpe) + PadOf(r));
    if SizeMatches(r) {
      AddressesRoundTrip(r.adrs[..n], r.cmpi, buf, FIXED);
      ExactWindow(n, r.cmpi, FIXED);
      SameWindow(buf, FIXED, end, FIXED + |front|, r.cmpi, n);
    } else if ParseAddresses(buf, FIXED, end, r.cmpi).Ok? {
      AddressCount(buf, FIXED, end, r.cmpi);
      var found := ParseAddresses(buf, FIXED, end, r.cmpi).value;
      assert |found| != n && |Restored(r).adrs| == n + 1;
      assert Parse(buf).Ok? ==> |Parse(buf).value.adrs| == |found| + 1;
    }
  }

  /** One whole address under a size of four words is not read back, whatever
      follows. */
  lemma WrongSize(a: seq<byte>, tail: seq<byte>)
    requires |a| == 16
    ensures var r := Route(6, 4, 3, 0, 0, 0, [a]); Parse(Encode(r) + tail) != Ok(Restored(r))
  {
    hide Parse, Encode;
    var r := Route(6, 4, 3, 0, 0, 0, [a]);
    assert forall b | b in r.adrs :: b == a;
    SourceRouteExact(r, tail);
  }

  /** Without addresses the size is zero or nothing is written; and then it reads
      back. */
  lemma EmptyRoute(r: Route, tail: seq<byte>)
    requires r.adrs == [] && HeaderFits(r) && AddressesFit(r) && SizeOf(r) == 0
    ensures Parse(FixedPart(r) + tail) == Ok(r)
  {
    hide PadOf, FixedPart, SizeOf;
    ZeroSize(r);
    PadRange(r);
    FixedFields(r);
    assert (FixedPart(r) + tail)[..FIXED] == FixedPart(r);
  }

  lemma ZeroSize(r: Route)
    requires SizeOf(r) == 0
    ensures r.size == 0
  {
  }

  lemma ExactWindow(k: nat, cut: nat, data: int)
    requires cut < 16
    ensures Window(k, data + k * (16 - cut), cut, data)
  {
  }

  lemma PadRange(r: Route)
    ensures 0 <= PadOf(r) < 8
  {
  }

  /** So with the size left zero, whatever follows what was written, the parser
      returns exactly as many addresses, each the original with its elided prefix
      zeroed. */
  lemma SourceRouteRoundTrip(r: Route, tail: seq<byte>)
    requires r.adrs != [] && r.size == 0 && HeaderFits(r) && AddressesFit(r) && SizeOf(r) < 0x100
    ensures Parse(Encode(r) + tail) == Ok(Restored(r))
  {
    hide SizeOf, PadOf, Encode, Parse, Window;
    LengthExact(r);
    ExactWindow(|r.adrs| - 1, r.cmpi, FIXED);
    SourceRouteExact(r, tail);
  }
}
