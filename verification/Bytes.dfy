/** Octets, big-endian integers, Python slices and the growing buffer every
    serializer of the library writes into. */
module Bytes {

  type byte = b: int | 0 <= b < 256

  datatype Option<+T> = None | Some(value: T)

  /** How a Python call can end badly. `Endless` is a loop that never advances:
      the call does not return. */
  datatype Error =
    | StructError
    | ValueError
    | KeyError
    | IndexError
    | TypeError
    | AssertionError
    | Endless

  datatype Result<+T> = Ok(value: T) | Err(error: Error) {
    predicate IsFailure() { Err? }

    function PropagateFailure<U>(): Result<U>
      requires Err?
    {
      Err(error)
    }

    function Extract(): T
      requires Ok?
    {
      value
    }
  }

  /** The outcome of a loop that has collected `done` and has `rest` to come. */
  function Collected<T>(done: seq<T>, rest: Result<seq<T>>): Result<seq<T>> {
    match rest
    case Ok(more) => Ok(done + more)
    case Err(e) => Err(e)
  }

  lemma CollectedNothing<T>(rest: Result<seq<T>>)
    ensures Collected([], rest) == rest
  {
    assert rest.Ok? ==> [] + rest.value == rest.value;
  }

  lemma CollectedOne<T>(done: seq<T>, x: T, rest: Result<seq<T>>)
    ensures Collected(done, Collected([x], rest)) == Collected(done + [x], rest)
  {
    if rest.Ok? {
      assert done + ([x] + rest.value) == done + [x] + rest.value;
    }
  }

  /** Optional octets, none of them when there are none. */
  function OwnData(data: Option<seq<byte>>): seq<byte> {
    match data case Some(d) => d case None => []
  }

  function Min(a: int, b: int): int { if a <= b then a else b }

  /** `round_up` to the eight octets every OpenFlow structure is aligned to:
      the smallest such multiple that is at least `n`. */
  function RoundUp8(n: nat): (r: nat)
    ensures r % 8 == 0
    ensures n <= r < n + 8
  {
    (n + 7) / 8 * 8
  }

  function Zeros(n: nat): (s: seq<byte>)
    ensures |s| == n
    ensures forall i | 0 <= i < n :: s[i] == 0
  {
    seq(n, _ => 0)
  }

  /** `s[a:b]` of Python, for bounds that are not negative. */
  function Slice(s: seq<byte>, a: nat, b: nat): (r: seq<byte>)
    ensures |r| <= |s|
    ensures |r| == if a <= b then Min(b, |s|) - Min(a, |s|) else 0
  {
    var hi := Min(b, |s|);
    if a <= hi then s[a..hi] else []
  }

  lemma OneOctet(n: nat)
    requires n < 0x100
    ensures Be(n, 1) == [n]
  {
    assert Be(n, 1) == Be(n / 256, 0) + [n % 256];
  }

  lemma ZeroWord()
    ensures Be(0, 2) == [0, 0]
  {
    assert Be(0, 2) == Be(0, 1) + [0] && Be(0, 1) == Be(0, 0) + [0];
  }

  /** `s[a:]` of Python. */
  function Drop(s: seq<byte>, a: nat): (r: seq<byte>)
    ensures |r| == if a <= |s| then |s| - a else 0
  {
    if a <= |s| then s[a..] else []
  }

  // -- big-endian integers ----------------------------------------------------

  function Pow256(w: nat): (p: nat)
    ensures p > 0
  {
    if w == 0 then 1 else 256 * Pow256(w - 1)
  }

  /** The low `w` octets of `n`, most significant first. */
  function Be(n: nat, w: nat): (s: seq<byte>)
    ensures |s| == w
  {
    if w == 0 then [] else Be(n / 256, w - 1) + [n % 256]
  }

  /** The number a big-endian octet string denotes. */
  function Un(s: seq<byte>): nat {
    if s == [] then 0 else 256 * Un(s[..|s| - 1]) + s[|s| - 1]
  }

  lemma {:induction false} UnBe(n: nat, w: nat)
    requires n < Pow256(w)
    ensures Un(Be(n, w)) == n
  {
    if w > 0 {
      UnBe(n / 256, w - 1);
      assert Be(n, w)[..w - 1] == Be(n / 256, w - 1);
    }
  }

  lemma {:induction false} BeUn(s: seq<byte>)
    ensures Un(s) < Pow256(|s|)
    ensures Be(Un(s), |s|) == s
  {
    if s != [] {
      BeUn(s[..|s| - 1]);
      assert s == s[..|s| - 1] + [s[|s| - 1]];
    }
  }

  /** Zero octets in front of a short string leave its number alone. */
  function LeftPad(s: seq<byte>, w: nat): (r: seq<byte>)
    ensures |s| <= w ==> |r| == w
  {
    if |s| < w then Zeros(w - |s|) + s else s
  }

  // -- what a buffer holds at an offset ----------------------------------------

  /** `buf` holds exactly `data` at `offset`. */
  ghost predicate Has(buf: seq<byte>, offset: nat, data: seq<byte>) {
    offset + |data| <= |buf| && buf[offset..offset + |data|] == data
  }

  lemma HasSplit(buf: seq<byte>, offset: nat, a: seq<byte>, b: seq<byte>)
    requires Has(buf, offset, a + b)
    ensures Has(buf, offset, a)
    ensures Has(buf, offset + |a|, b)
  {
    var whole := buf[offset..offset + |a + b|];
    assert whole == a + b;
    assert buf[offset..offset + |a|] == whole[..|a|] == a;
    assert buf[offset + |a|..offset + |a| + |b|] == whole[|a|..] == b;
  }

  lemma HasJoin(buf: seq<byte>, offset: nat, a: seq<byte>, b: seq<byte>)
    requires Has(buf, offset, a)
    requires Has(buf, offset + |a|, b)
    ensures Has(buf, offset, a + b)
  {
    assert buf[offset..offset + |a + b|] == buf[offset..offset + |a|] + buf[offset + |a|..offset + |a| + |b|];
  }

  lemma HasAfter(prefix: seq<byte>, data: seq<byte>, suffix: seq<byte>)
    ensures Has(prefix + data + suffix, |prefix|, data)
  {
    assert (prefix + data + suffix)[|prefix|..|prefix| + |data|] == data;
  }

  lemma HasHere(buf: seq<byte>, offset: nat, data: seq<byte>)
    requires Has(buf, offset, data)
    ensures offset + |data| <= |buf| && buf[offset..offset + |data|] == data
  {
  }

  lemma HasSlice(buf: seq<byte>, offset: nat, data: seq<byte>)
    requires Has(buf, offset, data)
    ensures Slice(buf, offset, offset + |data|) == data
  {
  }

  /** The parts of a structure, as slices. */
  lemma HasParts(buf: seq<byte>, offset: nat, a: seq<byte>, b: seq<byte>, c: seq<byte>)
    requires Has(buf, offset, a + (b + c))
    ensures Slice(buf, offset + |a|, offset + |a| + |b|) == b
    ensures Slice(buf, offset + |a| + |b|, offset + |a| + |b| + |c|) == c
  {
    HasSplit(buf, offset, a, b + c);
    HasSplit(buf, offset + |a|, b, c);
  }

  /** `struct.unpack_from` of one unsigned integer of `w` octets. */
  function ReadNum(buf: seq<byte>, offset: nat, w: nat): (r: Result<nat>)
    ensures r.Ok? <==> offset + w <= |buf|
  {
    if offset + w <= |buf| then Ok(Un(buf[offset..offset + w])) else Err(StructError)
  }

  lemma ReadNumHas(buf: seq<byte>, offset: nat, n: nat, w: nat)
    requires n < Pow256(w)
    requires Has(buf, offset, Be(n, w))
    ensures ReadNum(buf, offset, w) == Ok(n)
  {
    UnBe(n, w);
  }

  lemma ReadNumBound(buf: seq<byte>, offset: nat, w: nat)
    requires offset + w <= |buf|
    ensures ReadNum(buf, offset, w).value < Pow256(w)
  {
    BeUn(buf[offset..offset + w]);
  }

  // -- writing at an offset ----------------------------------------------------

  /** `buf` after `data` has been written at `offset`, grown with zero octets
      when it was too short. */
  function Overlay(buf: seq<byte>, offset: nat, data: seq<byte>): (r: seq<byte>)
    ensures |r| == if |buf| < offset + |data| then offset + |data| else |buf|
  {
    var grown := buf + Zeros(if |buf| < offset + |data| then offset + |data| - |buf| else 0);
    grown[..offset] + data + grown[offset + |data|..]
  }

  /** A write changes its own octets and no others: what stood before the offset
      and after the data stays, and a gap is filled with zero octets. */
  lemma OverlayAt(buf: seq<byte>, offset: nat, data: seq<byte>, i: nat)
    requires i < |Overlay(buf, offset, data)|
    ensures Overlay(buf, offset, data)[i]
         == if offset <= i < offset + |data| then data[i - offset] else if i < |buf| then buf[i] else 0
  {
  }

  /** What was written can be read back. */
  lemma OverlayFrame(buf: seq<byte>, offset: nat, data: seq<byte>)
    ensures Has(Overlay(buf, offset, data), offset, data)
    ensures forall i | 0 <= i < |buf| && (i < offset || offset + |data| <= i) ::
              Overlay(buf, offset, data)[i] == buf[i]
  {
  }

  lemma OverlayAppend(buf: seq<byte>, data: seq<byte>)
    ensures Overlay(buf, |buf|, data) == buf + data
  {
  }

  /** Two writes, the second starting inside or just behind the first, are one. */
  lemma OverlayTwice(buf: seq<byte>, offset: nat, a: seq<byte>, k: nat, b: seq<byte>)
    requires k <= |a|
    ensures Overlay(Overlay(buf, offset, a), offset + k, b) == Overlay(buf, offset, Overlay(a, k, b))
  {
    hide Overlay;
    var first, both := Overlay(buf, offset, a), Overlay(a, k, b);
    var l, r := Overlay(first, offset + k, b), Overlay(buf, offset, both);
    forall i | 0 <= i < |l|
      ensures l[i] == r[i]
    {
      OverlayAt(first, offset + k, b, i);
      OverlayAt(buf, offset, both, i);
      if i < |first| {
        OverlayAt(buf, offset, a, i);
      }
      if offset <= i < offset + |both| {
        OverlayAt(a, k, b, i - offset);
      }
    }
  }

  /** The first part of a structure may be written after the rest of it. */
  lemma OverlayBefore(buf: seq<byte>, offset: nat, a: seq<byte>, b: seq<byte>)
    ensures Overlay(Overlay(buf, offset + |a|, b), offset, a) == Overlay(buf, offset, a + b)
  {
    hide Overlay;
    var first := Overlay(buf, offset + |a|, b);
    var l, r := Overlay(first, offset, a), Overlay(buf, offset, a + b);
    forall i | 0 <= i < |l|
      ensures l[i] == r[i]
    {
      OverlayAt(first, offset, a, i);
      OverlayAt(buf, offset, a + b, i);
      if i < |first| {
        OverlayAt(buf, offset + |a|, b, i);
      }
    }
  }

  lemma OverlayNext(buf: seq<byte>, offset: nat, a: seq<byte>, b: seq<byte>)
    ensures Overlay(Overlay(buf, offset, a), offset + |a|, b) == Overlay(buf, offset, a + b)
  {
    OverlayTwice(buf, offset, a, |a|, b);
    OverlayAppend(a, b);
  }

  lemma OverlayEmpty(buf: seq<byte>, offset: nat)
    requires offset <= |buf|
    ensures Overlay(buf, offset, []) == buf
  {
  }

  /** A `bytearray` handed from one serializer to the next. */
  class ByteBuffer {
    var bytes: seq<byte>

    constructor (initial: seq<byte>)
      ensures bytes == initial
    {
      bytes := initial;
    }

    /** `msg_pack_into`: grow to fit, then write in place. */
    method PackInto(offset: nat, data: seq<byte>)
      modifies this
      ensures bytes == Overlay(old(bytes), offset, data)
      ensures forall i | 0 <= i < Min(offset, |old(bytes)|) :: bytes[i] == old(bytes)[i]
    {
      var needed := offset + |data|;
      if |bytes| < needed {
        bytes := bytes + Zeros(needed - |bytes|);
      }
      bytes := bytes[..offset] + data + bytes[needed..];
    }

    /** `buf += data`. */
    method Extend(data: seq<byte>)
      modifies this
      ensures bytes == old(bytes) + data
    {
      bytes := bytes + data;
    }
  }
}
