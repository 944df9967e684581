/** `struct` formats: the fixed part every structure declares as `_FMT`. */
module Layout {
  import opened Bytes

  /** One element of a big-endian format: an unsigned integer, a string of
      octets (`16s`) or padding (`6x`). */
  datatype Item = Num(width: nat) | Str(width: nat) | Pad(width: nat)

  datatype Value = N(n: nat) | S(octets: seq<byte>)

  type Format = seq<Item>

  function Size(fmt: Format): nat {
    if fmt == [] then 0 else fmt[0].width + Size(fmt[1..])
  }

  /** `values` are what `struct.pack` accepts for `fmt`, one for each item that
      is not padding. */
  predicate Fits(fmt: Format, values: seq<Value>) {
    if fmt == [] then values == []
    else match fmt[0]
      case Pad(_) => Fits(fmt[1..], values)
      case Num(w) => values != [] && values[0].N? && values[0].n < Pow256(w) && Fits(fmt[1..], values[1..])
      case Str(w) => values != [] && values[0].S? && |values[0].octets| == w && Fits(fmt[1..], values[1..])
  }

  function Rest(values: seq<Value>): seq<Value> {
    if values == [] then [] else values[1..]
  }

  /** `16s`: a shorter string is filled with NUL octets, a longer one cut. */
  function FixedWidth(s: seq<byte>, w: nat): (r: seq<byte>)
    ensures |r| == w
    ensures |s| == w ==> r == s
  {
    if |s| < w then s + Zeros(w - |s|) else s[..w]
  }

  /** `struct.pack`; on values that do not fit, where Python raises, the octets
      are of no account. */
  function Pack(fmt: Format, values: seq<Value>): (s: seq<byte>)
    ensures |s| == Size(fmt)
  {
    if fmt == [] then []
    else match fmt[0]
      case Pad(w) => Zeros(w) + Pack(fmt[1..], values)
      case Num(w) => Be(if values != [] && values[0].N? then values[0].n else 0, w) + Pack(fmt[1..], Rest(values))
      case Str(w) =>
        var octets := if values != [] && values[0].S? then values[0].octets else [];
        FixedWidth(octets, w) + Pack(fmt[1..], Rest(values))
  }

  function Unpack(fmt: Format, s: seq<byte>): seq<Value>
    requires |s| == Size(fmt)
  {
    if fmt == [] then []
    else
      var w := fmt[0].width;
      match fmt[0]
      case Pad(_) => Unpack(fmt[1..], s[w..])
      case Num(_) => [N(Un(s[..w]))] + Unpack(fmt[1..], s[w..])
      case Str(_) => [S(s[..w])] + Unpack(fmt[1..], s[w..])
  }

  lemma {:induction false} UnpackPack(fmt: Format, values: seq<Value>)
    requires Fits(fmt, values)
    ensures Unpack(fmt, Pack(fmt, values)) == values
  {
    if fmt != [] {
      var s := Pack(fmt, values);
      var w := fmt[0].width;
      match fmt[0]
      case Pad(_) =>
        UnpackPack(fmt[1..], values);
        assert s[w..] == Pack(fmt[1..], values);
      case Num(_) =>
        UnpackPack(fmt[1..], values[1..]);
        UnBe(values[0].n, w);
        assert s[..w] == Be(values[0].n, w) && s[w..] == Pack(fmt[1..], values[1..]);
      case Str(_) =>
        UnpackPack(fmt[1..], values[1..]);
        assert s[..w] == values[0].octets && s[w..] == Pack(fmt[1..], values[1..]);
    }
  }

  /** What is read always fits the format it was read with. */
  lemma {:induction false} UnpackFits(fmt: Format, s: seq<byte>)
    requires |s| == Size(fmt)
    ensures Fits(fmt, Unpack(fmt, s))
  {
    if fmt != [] {
      var w := fmt[0].width;
      UnpackFits(fmt[1..], s[w..]);
      BeUn(s[..w]);
      var values := Unpack(fmt, s);
      if !fmt[0].Pad? {
        assert values[1..] == Unpack(fmt[1..], s[w..]);
      }
    }
  }

  /** `struct.unpack_from`. */
  function UnpackFrom(fmt: Format, buf: seq<byte>, offset: nat): (r: Result<seq<Value>>)
    ensures r.Ok? <==> offset + Size(fmt) <= |buf|
  {
    if offset + Size(fmt) <= |buf| then Ok(Unpack(fmt, buf[offset..offset + Size(fmt)]))
    else Err(StructError)
  }

  /** Reading a packed structure back, wherever in a buffer it stands. */
  lemma UnpackFromHas(fmt: Format, values: seq<Value>, buf: seq<byte>, offset: nat)
    requires Fits(fmt, values)
    requires Has(buf, offset, Pack(fmt, values))
    ensures UnpackFrom(fmt, buf, offset) == Ok(values)
  {
    UnpackPack(fmt, values);
  }

  // -- type and length -----------------------------------------------------------

  /** A structure that is a 16 bit type, a 16 bit length and its fixed part. */
  function Tagged(kind: nat, fmt: Format, values: seq<Value>): (s: seq<byte>)
    ensures |s| == 4 + Size(fmt)
  {
    Be(kind, 2) + Be(4 + Size(fmt), 2) + Pack(fmt, values)
  }

  /** Type and length read back, and what follows them. */
  lemma ReadTag(kind: nat, len: nat, body: seq<byte>, buf: seq<byte>, offset: nat)
    requires kind < 0x1_0000 && len < 0x1_0000
    requires Has(buf, offset, Be(kind, 2) + Be(len, 2) + body)
    ensures ReadNum(buf, offset, 2) == Ok(kind)
    ensures ReadNum(buf, offset + 2, 2) == Ok(len)
    ensures Has(buf, offset + 4, body)
  {
    hide Be, ReadNum;
    assert Pow256(2) == 0x1_0000;
    assert Be(kind, 2) + Be(len, 2) + body == Be(kind, 2) + (Be(len, 2) + body);
    HasSplit(buf, offset, Be(kind, 2), Be(len, 2) + body);
    HasSplit(buf, offset + 2, Be(len, 2), body);
    ReadNumHas(buf, offset, kind, 2);
    ReadNumHas(buf, offset + 2, len, 2);
  }

  lemma ReadTagged(kind: nat, fmt: Format, values: seq<Value>, buf: seq<byte>, offset: nat)
    requires kind < 0x1_0000 && Size(fmt) < 0xFFFC
    requires Fits(fmt, values)
    requires Has(buf, offset, Tagged(kind, fmt, values))
    ensures ReadNum(buf, offset, 2) == Ok(kind)
    ensures ReadNum(buf, offset + 2, 2) == Ok(4 + Size(fmt))
    ensures UnpackFrom(fmt, buf, offset + 4) == Ok(values)
  {
    hide Be, ReadNum, Has, Pack, Fits, Size, UnpackFrom;
    ReadTag(kind, 4 + Size(fmt), Pack(fmt, values), buf, offset);
    UnpackFromHas(fmt, values, buf, offset + 4);
  }
}
