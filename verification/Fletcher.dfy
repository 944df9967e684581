/** The Fletcher checksum of Annex B of RFC 905, with the reduction modulo 255 put
    off to the end of each block. */
module Fletcher {
  import opened Bytes

  const MODX := 4102

  /** The plain sum of the octets. */
  function Sum(s: seq<byte>): nat {
    if s == [] then 0 else Sum(s[..|s| - 1]) + s[|s| - 1]
  }

  /** The sum of all prefix sums: each octet weighted by its distance to the end. */
  function WeightedSum(s: seq<byte>): nat {
    if s == [] then 0 else WeightedSum(s[..|s| - 1]) + Sum(s)
  }

  // -- modulo 255 -------------------------------------------------------------------------

  ghost predicate Congruent(a: int, b: int) {
    exists k: int :: a == b + 255 * k
  }

  lemma CongruentBy(a: int, b: int, k: int)
    requires a == b + 255 * k
    ensures Congruent(a, b)
  {
  }

  lemma ModCongruent(a: int)
    ensures Congruent(a % 255, a)
  {
    CongruentBy(a % 255, a, -(a / 255));
  }

  lemma CongruentAdd(a: int, b: int, c: int, d: int)
    requires Congruent(a, b) && Congruent(c, d)
    ensures Congruent(a + c, b + d)
  {
    var k: int :| a == b + 255 * k;
    var l: int :| c == d + 255 * l;
    CongruentBy(a + c, b + d, k + l);
  }

  lemma CongruentTrans(a: int, b: int, c: int)
    requires Congruent(a, b) && Congruent(b, c)
    ensures Congruent(a, c)
  {
    var k: int :| a == b + 255 * k;
    var l: int :| b == c + 255 * l;
    CongruentBy(a, c, k + l);
  }

  lemma CongruentMod(a: int, b: int)
    requires Congruent(a, b)
    ensures a % 255 == b % 255
  {
    var k: int :| a == b + 255 * k;
    assert a == 255 * (b / 255 + k) + b % 255;
  }

  // -- the algorithm -------------------------------------------------------------------------

  /** What `c1` can reach within a block of `n` octets, entered with both sums
      reduced. */
  function BlockPeak(n: nat): nat {
    254 + 254 * n + 255 * (n * (n + 1) / 2)
  }

  lemma BlockPeakStep(n: nat)
    ensures BlockPeak(n + 1) == BlockPeak(n) + 254 + 255 * (n + 1)
  {
    var t := n * (n + 1);
    assert (n + 1) * (n + 2) == t + 2 * (n + 1);
    assert (t + 2 * (n + 1)) / 2 == t / 2 + (n + 1);
  }

  lemma {:induction false} BlockPeakGrows(m: nat, n: nat)
    requires m <= n
    ensures BlockPeak(m) <= BlockPeak(n)
    decreases n - m
  {
    if m < n {
      BlockPeakStep(m);
      BlockPeakGrows(m + 1, n);
    }
  }

  /** 4102 is the largest block for which the weighted sum stays below 2^31. */
  lemma ModxIsLargest(n: nat)
    ensures BlockPeak(n) < 0x8000_0000 <==> n <= MODX
  {
    if n <= MODX {
      BlockPeakGrows(n, MODX);
    } else {
      BlockPeakGrows(MODX + 1, n);
    }
  }

  /** The peak is reached: by octets of 255 on reduced sums of 254. */
  function Worst(n: nat): (int, int) {
    if n == 0 then (254, 254) else var (c0, c1) := Worst(n - 1); (c0 + 255, c1 + c0 + 255)
  }

  lemma {:induction false} PeakReached(n: nat)
    ensures Worst(n) == (254 + 255 * n, BlockPeak(n))
  {
    if n > 0 {
      PeakReached(n - 1);
      BlockPeakStep(n - 1);
    }
  }

  /** The checksum loop: octet by octet within a block, reduced between blocks. No
      intermediate sum reaches 2^31. */
  method Sums(data: seq<byte>) returns (c0: nat, c1: nat)
    ensures c0 < 255 && c1 < 255
    ensures c0 == Sum(data) % 255 && c1 == WeightedSum(data) % 255
  {
    hide Congruent;
    c0, c1 := 0, 0;
    var pos := 0;
    CongruentBy(0, 0, 0);
    while pos < |data|
      invariant pos <= |data| && c0 < 255 && c1 < 255
      invariant Congruent(c0, Sum(data[..pos])) && Congruent(c1, WeightedSum(data[..pos]))
    {
      var tlen := Min(|data| - pos, MODX);
      for i := 0 to tlen
        invariant c0 <= 254 + 255 * i && c1 <= BlockPeak(i) < 0x8000_0000
        invariant Congruent(c0, Sum(data[..pos + i])) && Congruent(c1, WeightedSum(data[..pos + i]))
      {
        var octet := data[pos + i];
        SumsNext(data, pos + i, c0, c1);
        BlockPeakStep(i);
        ModxIsLargest(i + 1);
        c0 := c0 + octet;
        c1 := c1 + c0;
      }
      ModCongruent(c0);
      ModCongruent(c1);
      CongruentTrans(c0 % 255, c0, Sum(data[..pos + tlen]));
      CongruentTrans(c1 % 255, c1, WeightedSum(data[..pos + tlen]));
      c0 := c0 % 255;
      c1 := c1 % 255;
      pos := pos + tlen;
    }
    assert data[..pos] == data;
    CongruentMod(c0, Sum(data));
    CongruentMod(c1, WeightedSum(data));
  }

  lemma SumsNext(data: seq<byte>, n: nat, c0: int, c1: int)
    requires n < |data|
    requires Congruent(c0, Sum(data[..n])) && Congruent(c1, WeightedSum(data[..n]))
    ensures Congruent(c0 + data[n], Sum(data[..n + 1]))
    ensures Congruent(c1 + (c0 + data[n]), WeightedSum(data[..n + 1]))
  {
    hide Congruent;
    assert data[..n + 1][..n] == data[..n];
    CongruentBy(data[n], data[n], 0) by { assert data[n] + 255 * 0 == data[n]; }
    CongruentAdd(c0, Sum(data[..n]), data[n], data[n]);
    CongruentAdd(c1, WeightedSum(data[..n]), c0 + data[n], Sum(data[..n + 1]));
  }

  /** `data[offset : offset + 2] = [0] * 2`: at the end of the data the slice is
      shorter than what it is set to, and the data grows. */
  function Zeroed(input: seq<byte>, offset: nat): (r: seq<byte>)
    requires offset <= |input|
    ensures |r| == if offset + 2 <= |input| then |input| else offset + 2
    ensures r[offset] == 0 && r[offset + 1] == 0
    ensures forall i | 0 <= i < |input| && i != offset && i != offset + 1 :: r[i] == input[i]
  {
    input[..offset] + [0, 0] + Drop(input, offset + 2)
  }

  /** Zero octets behind the data add nothing to its sum, and the sum once each to the
      weighted sum. */
  lemma {:induction false} GrownSums(data: seq<byte>, n: nat)
    requires n <= |data| && forall i | n <= i < |data| :: data[i] == 0
    ensures Sum(data) == Sum(data[..n])
    ensures WeightedSum(data) == WeightedSum(data[..n]) + (|data| - n) * Sum(data[..n])
  {
    if n == |data| {
      assert data[..n] == data;
    } else {
      var init := data[..|data| - 1];
      assert init[..n] == data[..n];
      GrownSums(init, n);
      assert (|data| - n) * Sum(data[..n]) == (|init| - n) * Sum(data[..n]) + Sum(data[..n]);
    }
  }

  /** The sums of the data as it was long give the octets for the data as it has
      grown. */
  lemma GrownOctets(data: seq<byte>, length: nat, offset: nat, c0: int, c1: int)
    requires offset <= length && |data| == (if offset + 2 <= length then length else offset + 2)
    requires forall i | length <= i < |data| :: data[i] == 0
    requires c0 == Sum(data[..length]) % 255 && c1 == WeightedSum(data[..length]) % 255
    ensures c0 == Sum(data) % 255
    ensures ((|data| - offset - 1) * c0 - WeightedSum(data) % 255) % 255 == ((length - offset - 1) * c0 - c1) % 255
  {
    hide Sum, WeightedSum, Congruent;
    GrownSums(data, length);
    var s, t, k := Sum(data), WeightedSum(data[..length]), |data| - length;
    var w := length - offset - 1;
    ModCongruent(s);
    ModCongruent(t);
    ModCongruent(t + k * s);
    CongruentGrown(w, k, s, t, c0, c1, (t + k * s) % 255);
    CongruentMod((w + k) * c0 - (t + k * s) % 255, w * c0 - c1);
  }

  lemma CongruentGrown(w: int, k: int, s: int, t: int, c0: int, c1: int, c: int)
    requires Congruent(c0, s) && Congruent(c1, t) && Congruent(c, t + k * s)
    ensures Congruent((w + k) * c0 - c, w * c0 - c1)
  {
    var a: int :| c0 == s + 255 * a;
    var b: int :| c1 == t + 255 * b;
    var d: int :| c == t + k * s + 255 * d;
    assert (w + k) * c0 == w * c0 + k * c0;
    assert k * c0 == k * s + 255 * (k * a) by {
      assert k * (s + 255 * a) == k * s + 255 * (k * a);
    }
    CongruentBy((w + k) * c0 - c, w * c0 - c1, k * a - d + b);
  }

  /** `fletcher_checksum`, at any offset: the sums with both octets zero, then the
      octets that cancel them. Behind the end of the data it raises; at the end the
      data grows by the octets it has no room for, and they still cancel the sums.
      `data` is the copy the function works on. */
  method FletcherChecksum(input: seq<byte>, offset: nat) returns (r: Result<nat>, data: seq<byte>)
    ensures r.Ok? <==> offset <= |input|
    ensures r.Err? ==> r == Err(IndexError)
    ensures r.Ok? ==>
              && |data| == (if offset + 2 <= |input| then |input| else offset + 2)
              && (forall i | 0 <= i < |input| && i != offset && i != offset + 1 :: data[i] == input[i])
              && r.value == 256 * data[offset] as nat + data[offset + 1] as nat
              && 1 <= data[offset] && 1 <= data[offset + 1]
              && Sum(data) % 255 == 0 && WeightedSum(data) % 255 == 0
  {
    hide Sum, WeightedSum, Congruent;
    var length := |input|;
    data := input;
    if offset > length {
      return Err(IndexError), data;
    }
    data := Zeroed(input, offset);
    var c0, c1 := Sums(data[..length]);
    GrownOctets(data, length, offset, c0, c1);
    var x := ((length - offset - 1) * c0 - c1) % 255;
    if x <= 0 {
      x := x + 255;
    }
    var y := 510 - c0 - x;
    if y > 255 {
      y := y - 255;
    }
    CheckOctets(data, offset, c0, WeightedSum(data) % 255, x, y);
    data := data[offset := x][offset + 1 := y];
    r := Ok(256 * x + y % 256);
  }

  /** Octets put into zeroed places add their weights to the two sums. */
  lemma {:induction false} PutOctet(data: seq<byte>, at: nat, x: byte)
    requires at < |data| && data[at] == 0
    ensures Sum(data[at := x]) == Sum(data) + x
    ensures WeightedSum(data[at := x]) == WeightedSum(data) + (|data| - at) * x
  {
    var init := data[..|data| - 1];
    var put := data[at := x];
    if at == |data| - 1 {
      assert put[..|data| - 1] == init;
    } else {
      PutOctet(init, at, x);
      assert put[..|data| - 1] == init[at := x];
      assert (|data| - at) * x == (|init| - at) * x + x;
    }
  }

  lemma CheckOctets(data: seq<byte>, at: nat, c0: int, c1: int, x: int, y: int)
    requires at + 2 <= |data| && data[at] == 0 && data[at + 1] == 0
    requires c0 == Sum(data) % 255 && c1 == WeightedSum(data) % 255
    requires var r := ((|data| - at - 1) * c0 - c1) % 255; x == if r <= 0 then r + 255 else r
    requires var r := 510 - c0 - x; y == if r > 255 then r - 255 else r
    ensures 1 <= x <= 255 && 1 <= y <= 255
    ensures var put := data[at := x][at + 1 := y]; Sum(put) % 255 == 0 && WeightedSum(put) % 255 == 0
  {
    hide Sum, WeightedSum, Congruent;
    var put := data[at := x][at + 1 := y];
    var w := |data| - at - 1;
    PutOctet(data, at, x);
    PutOctet(data[at := x], at + 1, y);
    var s, t := Sum(data), WeightedSum(data);
    Cancels(s, t, w, c0, c1, x, y);
    assert Sum(put) == s + x + y;
    assert WeightedSum(put) == t + (w + 1) * x + w * y;
  }

  lemma Cancels(s: int, t: int, w: int, c0: int, c1: int, x: int, y: int)
    requires c0 == s % 255 && c1 == t % 255
    requires var r := (w * c0 - c1) % 255; x == if r <= 0 then r + 255 else r
    requires var r := 510 - c0 - x; y == if r > 255 then r - 255 else r
    ensures (s + x + y) % 255 == 0
    ensures (t + (w + 1) * x + w * y) % 255 == 0
  {
    hide Congruent;
    ModCongruent(s);
    ModCongruent(t);
    // y is -c0 - x and x is w * c0 - c1, both modulo 255.
    CongruentBy(y, -c0 - x, if y == 510 - c0 - x then 2 else 1);
    var r := (w * c0 - c1) % 255;
    ModCongruent(w * c0 - c1);
    CongruentBy(x, r, if r <= 0 then 1 else 0);
    CongruentTrans(x, r, w * c0 - c1);
    FirstSum(s, c0, x, y);
    SecondSum(t, w, c0, c1, x, y);
  }

  lemma FirstSum(s: int, c0: int, x: int, y: int)
    requires Congruent(c0, s) && Congruent(y, -c0 - x)
    ensures (s + x + y) % 255 == 0
  {
    var k: int :| c0 == s + 255 * k;
    var l: int :| y == -c0 - x + 255 * l;
    assert s + x + y == 255 * (l - k);
  }

  lemma SecondSum(t: int, w: int, c0: int, c1: int, x: int, y: int)
    requires Congruent(c1, t) && Congruent(y, -c0 - x) && Congruent(x, w * c0 - c1)
    ensures (t + (w + 1) * x + w * y) % 255 == 0
  {
    var k: int :| c1 == t + 255 * k;
    var l: int :| y == -c0 - x + 255 * l;
    var m: int :| x == w * c0 - c1 + 255 * m;
    assert w * y == -(w * c0) - w * x + 255 * (w * l) by {
      assert w * (-c0 - x + 255 * l) == -(w * c0) - w * x + 255 * (w * l);
    }
    assert (w + 1) * x == w * x + x;
    assert t + (w + 1) * x + w * y == 255 * (m - k + w * l);
    MultipleOf255(m - k + w * l);
  }

  lemma MultipleOf255(q: int)
    ensures 255 * q % 255 == 0
  {
  }
}
