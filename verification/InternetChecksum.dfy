/** The Internet checksum of section 1 of RFC 1071, computed with exactly two
    folds. */
module InternetChecksum {
  import opened Bytes

  function Word(high: byte, low: byte): (w: nat)
    ensures w <= 0xFFFF
  {
    256 * (high as nat) + low as nat
  }

  /** The 16 bit big-endian words of `s`, summed; an odd last octet is the high half
      of a word. */
  function WordSum(s: seq<byte>): nat {
    if |s| == 0 then 0
    else if |s| == 1 then Word(s[0], 0)
    else Word(s[0], s[1]) + WordSum(s[2..])
  }

  /** `checksum`: fold once, add the carry of the fold, complement. */
  function Checksum(data: seq<byte>): (c: nat)
    ensures c < 0x1_0000
  {
    0xFFFF - TwoFolds(WordSum(data))
  }

  function TwoFolds(total: nat): (r: nat)
    ensures r <= 0xFFFF
  {
    var folded := total % 0x1_0000 + total / 0x1_0000;
    (folded + folded / 0x1_0000) % 0x1_0000
  }

  // -- one's complement arithmetic ---------------------------------------------------

  /** Addition with end-around carry. */
  function OnesAdd(a: nat, b: nat): nat {
    if a + b > 0xFFFF then a + b - 0xFFFF else a + b
  }

  /** The one's complement sum, word by word. */
  function OnesSum(s: seq<byte>): (r: nat)
    ensures r <= 0xFFFF
  {
    if |s| == 0 then 0
    else if |s| == 1 then Word(s[0], 0)
    else OnesAdd(Word(s[0], s[1]), OnesSum(s[2..]))
  }

  /** The 16 bit number a sum of words comes to with all carries brought round. */
  function Reduced(total: nat): (r: nat)
    ensures r <= 0xFFFF
  {
    if total == 0 then 0 else (total - 1) % 0xFFFF + 1
  }

  lemma ReducedAdd(a: nat, total: nat)
    requires a <= 0xFFFF
    ensures OnesAdd(a, Reduced(total)) == Reduced(a + total)
  {
    if total > 0 && a + total > 0 {
      var q := (total - 1) / 0xFFFF;
      assert total - 1 == 0xFFFF * q + (total - 1) % 0xFFFF;
      assert a + total - 1 == 0xFFFF * q + (a + Reduced(total) - 1);
    }
  }

  lemma ReducedSmall(total: nat)
    requires total <= 0xFFFF
    ensures Reduced(total) == total
  {
  }

  lemma {:induction false} OnesSumReduced(s: seq<byte>)
    ensures OnesSum(s) == Reduced(WordSum(s))
  {
    hide Reduced, OnesAdd, Word;
    if |s| < 2 {
      ReducedSmall(WordSum(s));
    } else {
      OnesSumReduced(s[2..]);
      ReducedAdd(Word(s[0], s[1]), WordSum(s[2..]));
    }
  }

  // -- how far two folds reach -----------------------------------------------------------

  /** The longest data on which two folds are always exact. */
  const EXACT_OCTETS := 131076

  lemma {:induction false} WordSumBound(s: seq<byte>)
    ensures WordSum(s) <= 0xFFFF * ((|s| + 1) / 2)
  {
    if |s| >= 2 {
      WordSumBound(s[2..]);
      assert (|s| + 1) / 2 == (|s[2..]| + 1) / 2 + 1;
    }
  }

  lemma TwoFoldsExact(total: nat)
    requires total <= 0xFFFF * 65538
    ensures TwoFolds(total) == Reduced(total)
  {
    var q, r := total / 0x1_0000, total % 0x1_0000;
    var folded := r + q;
    assert total == 0x1_0000 * q + r;
    assert folded <= 131070;
    if folded > 0 {
      assert total - 1 == 0xFFFF * q + (folded - 1);
      if folded <= 0xFFFF {
        assert (total - 1) % 0xFFFF == folded - 1;
      } else {
        assert total - 1 == 0xFFFF * (q + 1) + (folded - 1 - 0xFFFF);
        assert (total - 1) % 0xFFFF == folded - 1 - 0xFFFF;
      }
    }
  }

  /** Up to 131076 octets the two folds give the exact one's complement sum. */
  lemma ChecksumExact(data: seq<byte>)
    requires |data| <= EXACT_OCTETS
    ensures Checksum(data) == 0xFFFF - OnesSum(data)
  {
    hide WordSum, TwoFolds, Reduced, OnesSum;
    WordSumBound(data);
    TwoFoldsExact(WordSum(data));
    OnesSumReduced(data);
  }

  function Ones(n: nat): (s: seq<byte>)
    ensures |s| == 2 * n && forall i | 0 <= i < |s| :: s[i] == 0xFF
  {
    seq(2 * n, _ => 0xFF)
  }

  lemma {:induction false} OnesWordSum(n: nat, tail: seq<byte>)
    ensures WordSum(Ones(n) + tail) == 0xFFFF * n + WordSum(tail)
  {
    if n == 0 {
      assert Ones(0) + tail == tail;
    } else {
      OnesWordSum(n - 1, tail);
      assert (Ones(n) + tail)[2..] == Ones(n - 1) + tail;
    }
  }

  /** One octet more, and there is data on which they do not. */
  lemma ChecksumBoundTight()
    ensures var data := Ones(65537) + [0xFF, 0, 1];
            |data| == EXACT_OCTETS + 1 && Checksum(data) != 0xFFFF - OnesSum(data)
  {
    var tail: seq<byte> := [0xFF, 0, 1];
    assert tail[2..] == [1];
    assert WordSum(tail) == 0xFF00 + WordSum([1]) == 0x1_0000;
    OnesWordSum(65537, tail);
    OnesSumReduced(Ones(65537) + tail);
  }

  // -- self-verification -----------------------------------------------------------------

  /** `struct.pack_into("!H", data, at, c)`. */
  function Store16(data: seq<byte>, at: nat, c: nat): (r: seq<byte>)
    requires at + 2 <= |data| && c < 0x1_0000
    ensures |r| == |data|
    ensures r == data[..at] + Be(c, 2) + data[at + 2..]
  {
    assert Be(c, 2) == Be(c / 256, 1) + [c % 256];
    assert Be(c / 256, 1) == [c / 256];
    data[at := c / 256][at + 1 := c % 256]
  }

  lemma StoreAddsFirst(data: seq<byte>, c: nat)
    requires 2 <= |data| && c < 0x1_0000 && data[0] == 0 && data[1] == 0
    ensures WordSum(Store16(data, 0, c)) == WordSum(data) + c
  {
    hide WordSum, Be;
    var stored := Store16(data, 0, c);
    assert stored[0] == c / 256 && stored[1] == c % 256;
    assert stored[2..] == data[2..];
    FirstWord(stored);
    FirstWord(data);
  }

  lemma FirstWord(s: seq<byte>)
    requires |s| >= 2
    ensures WordSum(s) == 256 * (s[0] as nat) + s[1] as nat + WordSum(s[2..])
  {
  }

  lemma {:induction false} StoreAddsWord(data: seq<byte>, at: nat, c: nat)
    requires at % 2 == 0 && at + 2 <= |data| && c < 0x1_0000
    requires data[at] == 0 && data[at + 1] == 0
    ensures WordSum(Store16(data, at, c)) == WordSum(data) + c
  {
    hide Word, Be;
    if at == 0 {
      StoreAddsFirst(data, c);
    } else {
      var stored := Store16(data, at, c);
      StoreAddsWord(data[2..], at - 2, c);
      assert stored[2..] == Store16(data[2..], at - 2, c);
      assert stored[0] == data[0] && stored[1] == data[1];
    }
  }

  /** Storing the checksum of data with a zeroed field in that field, at an even
      offset, makes the checksum of the whole zero. */
  lemma StoredChecksumVerifies(data: seq<byte>, at: nat)
    requires |data| <= EXACT_OCTETS
    requires at % 2 == 0 && at + 2 <= |data|
    requires data[at] == 0 && data[at + 1] == 0
    ensures Checksum(Store16(data, at, Checksum(data))) == 0
  {
    hide WordSum, TwoFolds, Reduced, Store16;
    var c := Checksum(data);
    var stored := Store16(data, at, c);
    var total := WordSum(data);
    WordSumBound(stored);
    StoreAddsWord(data, at, c);
    TwoFoldsExact(total);
    TwoFoldsExact(total + c);
    MultipleReduced(total);
  }

  lemma MultipleReduced(total: nat)
    ensures Reduced(total + (0xFFFF - Reduced(total))) == 0xFFFF
  {
    if total > 0 {
      var q := (total - 1) / 0xFFFF;
      assert total == 0xFFFF * q + Reduced(total);
      assert total + (0xFFFF - Reduced(total)) - 1 == 0xFFFF * q + 0xFFFE;
    }
  }

  /** Conversely, data whose checksum is zero sums to all ones: a receiver's test. */
  lemma {:induction false} VerifiesIff(data: seq<byte>)
    requires |data| <= EXACT_OCTETS
    ensures Checksum(data) == 0 <==> WordSum(data) > 0 && WordSum(data) % 0xFFFF == 0
  {
    hide WordSum, TwoFolds, Reduced;
    WordSumBound(data);
    TwoFoldsExact(WordSum(data));
    ReducedFull(WordSum(data));
  }

  lemma ReducedFull(total: nat)
    ensures Reduced(total) == 0xFFFF <==> total > 0 && total % 0xFFFF == 0
  {
    if total > 0 {
      var q := (total - 1) / 0xFFFF;
      assert total == 0xFFFF * q + Reduced(total);
      if Reduced(total) == 0xFFFF {
        assert total == 0xFFFF * (q + 1);
      }
    }
  }

  // -- appending -------------------------------------------------------------------------

  /** Behind an odd number of octets the rest is read half a word later. */
  function Shifted(before: nat, data: seq<byte>): seq<byte> {
    if before % 2 == 0 then data else [0] + data
  }

  lemma {:induction false} WordSumSplit(a: seq<byte>, b: seq<byte>)
    ensures WordSum(a + b) == WordSum(a) + WordSum(Shifted(|a|, b))
  {
    if |a| == 0 {
      assert a + b == b;
    } else if |a| == 1 {
      if b == [] {
        assert a + b == a && WordSum([0] + b) == 0;
      } else {
        assert (a + b)[2..] == b[1..] && ([0] + b)[2..] == b[1..];
      }
    } else {
      assert (a + b)[2..] == a[2..] + b;
      WordSumSplit(a[2..], b);
    }
  }

  /** Data that verifies still verifies with more behind it exactly if what is added
      sums to a multiple of 0xFFFF. */
  lemma AppendVerifies(data: seq<byte>, more: seq<byte>)
    requires |data| + |more| <= EXACT_OCTETS && Checksum(data) == 0
    ensures Checksum(data + more) == 0 <==> WordSum(Shifted(|data|, more)) % 0xFFFF == 0
  {
    hide Checksum, WordSum, Shifted;
    VerifiesIff(data);
    VerifiesIff(data + more);
    WordSumSplit(data, more);
  }
}
