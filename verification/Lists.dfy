/** Structures laid end to end, and the loops that walk them by the length each
    one declares: instructions, buckets, meter bands, multipart bodies. */
module Lists {
  import opened Bytes

  function Concat<T>(encode: T -> seq<byte>, items: seq<T>): seq<byte> {
    if items == [] then [] else encode(items[0]) + Concat(encode, items[1..])
  }

  lemma {:induction false} ConcatSnoc<T>(encode: T -> seq<byte>, items: seq<T>, x: T)
    ensures Concat(encode, items + [x]) == Concat(encode, items) + encode(x)
  {
    if items == [] {
      assert [x][1..] == [];
    } else {
      ConcatSnoc(encode, items[1..], x);
      assert (items + [x])[1..] == items[1..] + [x];
    }
  }

  /** `while offset < end: item = parser(buf, offset); offset += item.len`. An item
      that declares a length of zero is parsed again for ever. */
  function ParseItems<T>(
    parse: (seq<byte>, nat) -> Result<(T, nat)>, buf: seq<byte>, offset: nat, end: int): Result<seq<T>>
    decreases end - offset
  {
    if offset >= end then Ok([])
    else
      var (item, len) :- parse(buf, offset);
      if len == 0 then Err(Endless)
      else Collected([item], ParseItems(parse, buf, offset + len, end))
  }

  /** The loop itself. */
  method ParseItemsLoop<T>(parse: (seq<byte>, nat) -> Result<(T, nat)>, buf: seq<byte>, start: nat, end: int)
    returns (r: Result<seq<T>>)
    ensures r == ParseItems(parse, buf, start, end)
  {
    var offset := start;
    var items: seq<T> := [];
    CollectedNothing(ParseItems(parse, buf, offset, end));
    while offset < end
      invariant ParseItems(parse, buf, start, end) == Collected(items, ParseItems(parse, buf, offset, end))
      decreases end - offset
    {
      var parsed :- parse(buf, offset);
      var (item, len) := parsed;
      if len == 0 {
        return Err(Endless);
      }
      CollectedOne(items, item, ParseItems(parse, buf, offset + len, end));
      items := items + [item];
      offset := offset + len;
    }
    assert items + [] == items;
    r := Ok(items);
  }

  /** The item reads back at any offset, and covers what it declares. */
  ghost predicate Readable<T>(parse: (seq<byte>, nat) -> Result<(T, nat)>, encode: T -> seq<byte>, x: T) {
    && encode(x) != []
    && forall buf, offset | Has(buf, offset, encode(x)) :: parse(buf, offset) == Ok((x, |encode(x)|))
  }

  /** Items that read back one by one read back as a list, and the loop ends
      exactly behind the last. */
  lemma {:induction false} ItemsRoundTrip<T>(
    parse: (seq<byte>, nat) -> Result<(T, nat)>, encode: T -> seq<byte>, items: seq<T>, buf: seq<byte>, offset: nat)
    requires forall x | x in items :: Readable(parse, encode, x)
    requires Has(buf, offset, Concat(encode, items))
    ensures ParseItems(parse, buf, offset, offset + |Concat(encode, items)|) == Ok(items)
  {
    if items != [] {
      var first := encode(items[0]);
      HasSplit(buf, offset, first, Concat(encode, items[1..]));
      assert Readable(parse, encode, items[0]);
      ItemsRoundTrip(parse, encode, items[1..], buf, offset + |first|);
      assert items == [items[0]] + items[1..];
    }
  }

  // -- lists cut off the front of a slice --------------------------------------------------

  /** `while rest: item, rest = parse(rest)`, where `parse` says how many octets it
      cuts off. Cutting nothing would parse the same item for ever. */
  function ParseFronts<T>(parse: seq<byte> -> Result<(T, nat)>, rest: seq<byte>): Result<seq<T>>
    decreases |rest|
  {
    if rest == [] then Ok([])
    else
      var (item, n) :- parse(rest);
      if n == 0 then Err(Endless)
      else Collected([item], ParseFronts(parse, Drop(rest, n)))
  }

  /** The loop itself. */
  method ParseFrontsLoop<T>(parse: seq<byte> -> Result<(T, nat)>, octets: seq<byte>) returns (r: Result<seq<T>>)
    ensures r == ParseFronts(parse, octets)
  {
    var rest := octets;
    var items: seq<T> := [];
    CollectedNothing(ParseFronts(parse, rest));
    while rest != []
      invariant ParseFronts(parse, octets) == Collected(items, ParseFronts(parse, rest))
      decreases |rest|
    {
      var parsed :- parse(rest);
      var (item, n) := parsed;
      if n == 0 {
        return Err(Endless);
      }
      CollectedOne(items, item, ParseFronts(parse, Drop(rest, n)));
      items := items + [item];
      rest := Drop(rest, n);
    }
    assert items + [] == items;
    r := Ok(items);
  }

  /** The item reads back from the front of any octets that begin with it. */
  ghost predicate FrontReadable<T>(parse: seq<byte> -> Result<(T, nat)>, encode: T -> seq<byte>, x: T) {
    && encode(x) != []
    && forall tail {:trigger encode(x) + tail} :: parse(encode(x) + tail) == Ok((x, |encode(x)|))
  }

  lemma {:induction false} FrontsRoundTrip<T>(
    parse: seq<byte> -> Result<(T, nat)>, encode: T -> seq<byte>, items: seq<T>)
    requires forall x | x in items :: FrontReadable(parse, encode, x)
    ensures ParseFronts(parse, Concat(encode, items)) == Ok(items)
  {
    if items != [] {
      var first, tail := encode(items[0]), Concat(encode, items[1..]);
      assert FrontReadable(parse, encode, items[0]);
      assert parse(first + tail) == Ok((items[0], |first|));
      assert Drop(first + tail, |first|) == tail;
      FrontsRoundTrip(parse, encode, items[1..]);
      assert items == [items[0]] + items[1..];
    }
  }

  /** A parser that always cuts something off ends its loop on every input. */
  ghost predicate Advances<T>(parse: seq<byte> -> Result<(T, nat)>) {
    forall buf :: match parse(buf) case Ok((_, n)) => n > 0 case Err(e) => e != Endless
  }

  lemma {:induction false} FrontsTerminate<T>(parse: seq<byte> -> Result<(T, nat)>, rest: seq<byte>)
    requires Advances(parse)
    ensures ParseFronts(parse, rest) != Err(Endless)
    decreases |rest|
  {
    if rest != [] {
      var r := parse(rest);
      if r.Ok? {
        FrontsTerminate(parse, Drop(rest, r.value.1));
      }
    }
  }
}
