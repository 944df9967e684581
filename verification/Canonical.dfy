/** The canonical form of a match: masked values cut to their mask, fields in
    OXM type order. */
module Canonical {
  import opened Bytes
  import opened Oxm
  import opened Match

  // -- masking -----------------------------------------------------------------

  function And(a: nat, b: nat): (c: nat)
    ensures c <= a
  {
    if a == 0 || b == 0 then 0 else 2 * And(a / 2, b / 2) + (if a % 2 == 1 && b % 2 == 1 then 1 else 0)
  }

  predicate Bit(n: nat, k: nat) {
    if k == 0 then n % 2 == 1 else Bit(n / 2, k - 1)
  }

  lemma {:induction false} ZeroHasNoBits(k: nat)
    ensures !Bit(0, k)
  {
    if k > 0 { ZeroHasNoBits(k - 1); }
  }

  lemma {:induction false} AndBit(a: nat, b: nat, k: nat)
    ensures Bit(And(a, b), k) <==> Bit(a, k) && Bit(b, k)
  {
    if a == 0 || b == 0 {
      ZeroHasNoBits(k);
    } else if k > 0 {
      var c := And(a, b);
      assert c / 2 == And(a / 2, b / 2);
      AndBit(a / 2, b / 2, k - 1);
    }
  }

  lemma {:induction false} AndTwice(a: nat, b: nat)
    ensures And(And(a, b), b) == And(a, b)
  {
    if a > 0 && b > 0 {
      var c := And(a, b);
      assert c / 2 == And(a / 2, b / 2) && (c % 2 == 1 <==> a % 2 == 1 && b % 2 == 1);
      AndTwice(a / 2, b / 2);
      if c == 0 {
      } else {
        assert And(c, b) == 2 * And(c / 2, b / 2) + (if c % 2 == 1 && b % 2 == 1 then 1 else 0);
      }
    }
  }

  /** `bytes(v & m for v, m in zip(value, mask))`, as short as the shorter. */
  function Masked(value: seq<byte>, mask: seq<byte>): (r: seq<byte>)
    ensures |r| == Min(|value|, |mask|)
  {
    if value == [] || mask == [] then [] else [And(value[0], mask[0])] + Masked(value[1..], mask[1..])
  }

  lemma {:induction false} MaskedAt(value: seq<byte>, mask: seq<byte>, i: nat)
    requires i < |value| && i < |mask|
    ensures Masked(value, mask)[i] == And(value[i], mask[i])
  {
    if i > 0 { MaskedAt(value[1..], mask[1..], i - 1); }
  }

  lemma MaskedTwice(value: seq<byte>, mask: seq<byte>)
    ensures Masked(Masked(value, mask), mask) == Masked(value, mask)
  {
    var once := Masked(value, mask);
    var twice := Masked(once, mask);
    forall i | 0 <= i < |once|
      ensures twice[i] == once[i]
    {
      MaskedAt(value, mask, i);
      MaskedAt(once, mask, i);
      AndTwice(value[i], mask[i]);
    }
  }

  /** `oxm_normalize_user`: the value a masked field matches on. A value the
      field cannot take is left for the constructor to refuse. */
  function Normalize(f: OxmField): OxmField {
    var cut := if f.mask.Some? then f.(value := Masked(f.value, f.mask.value)) else f;
    match ToUser(cut)
    case Ok(user) => user
    case Err(_) => f
  }

  function NormalizeAll(fields: seq<OxmField>): (r: seq<OxmField>)
    ensures |r| == |fields|
    ensures forall i | 0 <= i < |fields| :: r[i] == Normalize(fields[i])
  {
    if fields == [] then [] else [Normalize(fields[0])] + NormalizeAll(fields[1..])
  }

  lemma NormalizeWellFormed(f: OxmField)
    requires WellFormedOxm(f)
    ensures WellFormedOxm(Normalize(f))
    ensures Normalize(f).num == f.num && Normalize(f).mask == f.mask
    ensures f.mask.None? ==> Normalize(f) == f
    ensures f.mask.Some? ==> Normalize(f).value == Masked(f.value, f.mask.value)
    ensures Normalize(Normalize(f)) == Normalize(f)
  {
    hide ExpHeader, Registered;
    WellFormedToUser(f);
    if f.mask.Some? {
      var cut := f.(value := Masked(f.value, f.mask.value));
      assert HasMask(cut) && HasMask(f);
      WellFormedToUser(cut);
      MaskedTwice(f.value, f.mask.value);
    }
  }

  /** No bit of a canonical value stands where its mask has none. */
  lemma NoBitOutsideMask(f: OxmField, i: nat, k: nat)
    requires WellFormedOxm(f) && f.mask.Some? && i < |f.value|
    ensures var c := Normalize(f);
            && c.mask == f.mask && |c.value| == |f.value|
            && (Bit(c.value[i], k) <==> Bit(f.value[i], k) && Bit(f.mask.value[i], k))
  {
    NormalizeWellFormed(f);
    MaskedAt(f.value, f.mask.value, i);
    AndBit(f.value[i], f.mask.value[i], k);
  }

  // -- ordering ----------------------------------------------------------------

  /** The sort key of `OFPMatch.__init__`: the type of a numbered field, the
      experimenter id of the others. */
  function SortKey(f: OxmField): nat {
    if f.num.Std? then f.num.n else f.num.id
  }

  function Insert(f: OxmField, sorted: seq<OxmField>): (r: seq<OxmField>)
    ensures multiset(r) == multiset{f} + multiset(sorted)
  {
    if sorted == [] || SortKey(f) <= SortKey(sorted[0]) then
      [f] + sorted
    else
      assert sorted == [sorted[0]] + sorted[1..];
      [sorted[0]] + Insert(f, sorted[1..])
  }

  /** `fields.sort(key=...)`, which is stable: fields of equal key keep the order
      they were given in. */
  function StableSort(fields: seq<OxmField>): (r: seq<OxmField>)
    ensures multiset(r) == multiset(fields)
  {
    if fields == [] then [] else
      assert fields == [fields[0]] + fields[1..];
      Insert(fields[0], StableSort(fields[1..]))
  }

  ghost predicate Ordered(s: seq<OxmField>) {
    forall i, j | 0 <= i < j < |s| :: SortKey(s[i]) <= SortKey(s[j])
  }

  /** The fields of one sort key, in the order given. */
  function OfKey(s: seq<OxmField>, key: nat): seq<OxmField> {
    if s == [] then []
    else if SortKey(s[0]) == key then [s[0]] + OfKey(s[1..], key)
    else OfKey(s[1..], key)
  }

  lemma {:induction false} InsertOrdered(f: OxmField, s: seq<OxmField>)
    requires Ordered(s)
    ensures Ordered(Insert(f, s))
    ensures Insert(f, s)[0] == if s == [] || SortKey(f) <= SortKey(s[0]) then f else s[0]
  {
    hide SortKey;
    if s != [] && SortKey(f) > SortKey(s[0]) {
      InsertOrdered(f, s[1..]);
      OrderedCons(s[0], Insert(f, s[1..]));
    }
  }

  lemma OrderedCons(f: OxmField, s: seq<OxmField>)
    requires Ordered(s) && (s != [] ==> SortKey(f) <= SortKey(s[0]))
    ensures Ordered([f] + s)
  {
    hide SortKey;
    forall i, j | 0 <= i < j < |[f] + s|
      ensures SortKey(([f] + s)[i]) <= SortKey(([f] + s)[j])
    {
      if i == 0 && j > 1 {
        assert SortKey(s[0]) <= SortKey(s[j - 1]);
      }
    }
  }

  lemma {:induction false} SortOrdered(fields: seq<OxmField>)
    ensures Ordered(StableSort(fields))
  {
    if fields != [] {
      SortOrdered(fields[1..]);
      InsertOrdered(fields[0], StableSort(fields[1..]));
    }
  }

  /** Fields already in order stay exactly where they are. */
  lemma {:induction false} SortOrderedIsIdentity(fields: seq<OxmField>)
    requires Ordered(fields)
    ensures StableSort(fields) == fields
  {
    if fields != [] {
      SortOrderedIsIdentity(fields[1..]);
    }
  }

  lemma {:induction false} InsertOfKey(f: OxmField, s: seq<OxmField>, key: nat)
    ensures OfKey(Insert(f, s), key) == if SortKey(f) == key then [f] + OfKey(s, key) else OfKey(s, key)
  {
    if s == [] || SortKey(f) <= SortKey(s[0]) {
      assert ([f] + s)[1..] == s;
    } else {
      InsertOfKey(f, s[1..], key);
      assert ([s[0]] + Insert(f, s[1..]))[1..] == Insert(f, s[1..]);
    }
  }

  /** Stability: sorting moves no field past another of the same key. */
  lemma {:induction false} SortOfKey(fields: seq<OxmField>, key: nat)
    ensures OfKey(StableSort(fields), key) == OfKey(fields, key)
  {
    if fields != [] {
      SortOfKey(fields[1..], key);
      InsertOfKey(fields[0], StableSort(fields[1..]), key);
    }
  }

  lemma {:induction false} OfKeyFinds(s: seq<OxmField>, i: nat)
    requires i < |s|
    ensures OfKey(s, SortKey(s[i])) != []
  {
    if i > 0 { OfKeyFinds(s[1..], i - 1); }
  }

  lemma {:induction false} OfKeyFrom(s: seq<OxmField>, key: nat) returns (i: nat)
    requires OfKey(s, key) != []
    ensures i < |s| && SortKey(s[i]) == key
  {
    if SortKey(s[0]) == key {
      i := 0;
    } else {
      i := OfKeyFrom(s[1..], key);
      i := i + 1;
    }
  }

  ghost predicate SameByKey(a: seq<OxmField>, b: seq<OxmField>) {
    forall key :: OfKey(a, key) == OfKey(b, key)
  }

  /** An ordered list is determined by its fields key by key. */
  lemma {:induction false} OrderedUnique(a: seq<OxmField>, b: seq<OxmField>)
    requires Ordered(a) && Ordered(b)
    requires SameByKey(a, b)
    ensures a == b
  {
    if a != [] {
      OfKeyFinds(a, 0);
      var j := OfKeyFrom(b, SortKey(a[0]));
      OfKeyFinds(b, 0);
      var i := OfKeyFrom(a, SortKey(b[0]));
      var key := SortKey(a[0]);
      assert SortKey(b[0]) == key;
      assert OfKey(a, key)[0] == a[0] && OfKey(b, key)[0] == b[0];
      assert SameByKey(a[1..], b[1..]) by {
        forall k
          ensures OfKey(a[1..], k) == OfKey(b[1..], k)
        {
          assert k == key ==> OfKey(a, k)[1..] == OfKey(a[1..], k) && OfKey(b, k)[1..] == OfKey(b[1..], k);
          assert k != key ==> OfKey(a, k) == OfKey(a[1..], k) && OfKey(b, k) == OfKey(b[1..], k);
        }
      }
      OrderedUnique(a[1..], b[1..]);
      assert a == [a[0]] + a[1..] && b == [b[0]] + b[1..];
    } else if b != [] {
      OfKeyFinds(b, 0);
    }
  }

  /** The order the fields are given in reaches the sorted list exactly through
      the fields that share a key: experimenter fields of one experimenter. */
  lemma SortSameIff(a: seq<OxmField>, b: seq<OxmField>)
    ensures StableSort(a) == StableSort(b) <==> SameByKey(a, b)
  {
    hide StableSort, SortKey, OfKey;
    SortOrdered(a);
    SortOrdered(b);
    forall key
      ensures OfKey(StableSort(a), key) == OfKey(a, key)
      ensures OfKey(StableSort(b), key) == OfKey(b, key)
    {
      SortOfKey(a, key);
      SortOfKey(b, key);
    }
    if SameByKey(a, b) {
      assert SameByKey(StableSort(a), StableSort(b));
      OrderedUnique(StableSort(a), StableSort(b));
    }
  }

  // -- permutations ------------------------------------------------------------

  ghost predicate DistinctKeys(s: seq<OxmField>) {
    forall key :: |OfKey(s, key)| <= 1
  }

  lemma {:induction false} OfKeyCount(s: seq<OxmField>, key: nat, f: OxmField)
    ensures multiset(OfKey(s, key))[f] == if SortKey(f) == key then multiset(s)[f] else 0
  {
    if s != [] {
      OfKeyCount(s[1..], key, f);
      assert s == [s[0]] + s[1..];
      assert multiset(s) == multiset{s[0]} + multiset(s[1..]);
    }
  }

  lemma OfKeyPermuted(a: seq<OxmField>, b: seq<OxmField>, key: nat)
    requires multiset(a) == multiset(b)
    ensures multiset(OfKey(a, key)) == multiset(OfKey(b, key))
    ensures |OfKey(a, key)| == |OfKey(b, key)|
  {
    forall f
      ensures multiset(OfKey(a, key))[f] == multiset(OfKey(b, key))[f]
    {
      OfKeyCount(a, key, f);
      OfKeyCount(b, key, f);
    }
    assert multiset(OfKey(a, key)) == multiset(OfKey(b, key));
    assert |multiset(OfKey(a, key))| == |OfKey(a, key)| && |multiset(OfKey(b, key))| == |OfKey(b, key)|;
  }

  /** With distinct keys, every order of the same fields sorts to one list. */
  lemma SortIgnoresOrder(a: seq<OxmField>, b: seq<OxmField>)
    requires multiset(a) == multiset(b) && DistinctKeys(a)
    ensures StableSort(a) == StableSort(b)
  {
    assert SameByKey(a, b) by {
      forall key
        ensures OfKey(a, key) == OfKey(b, key)
      {
        var x, y := OfKey(a, key), OfKey(b, key);
        OfKeyPermuted(a, b, key);
        if x != [] {
          assert |x| == 1 && |y| == 1;
          assert x[0] in multiset(y);
          assert x == [x[0]] && y == [y[0]];
        }
      }
    }
    SortSameIff(a, b);
  }

  /** With two different fields of one key, some order sorts to another list. */
  lemma SortSeesOrder(a: seq<OxmField>, key: nat)
    requires |OfKey(a, key)| >= 2 && OfKey(a, key)[0] != OfKey(a, key)[1]
    ensures exists b :: multiset(b) == multiset(a) && StableSort(b) != StableSort(a)
  {
    var b := SwapFirst(a, key);
    assert !SameByKey(a, b);
    SortSameIff(a, b);
  }

  lemma {:induction false} SwapFirst(a: seq<OxmField>, key: nat) returns (b: seq<OxmField>)
    requires |OfKey(a, key)| >= 2 && OfKey(a, key)[0] != OfKey(a, key)[1]
    ensures multiset(b) == multiset(a) && OfKey(b, key) != OfKey(a, key)
  {
    assert a == [a[0]] + a[1..];
    if SortKey(a[0]) != key {
      var tail := SwapFirst(a[1..], key);
      b := [a[0]] + tail;
      assert b[1..] == tail;
    } else {
      var tail := ReplaceFirst(a[1..], key, a[0]);
      b := [OfKey(a, key)[1]] + tail;
      OfKeyCount(a[1..], key, b[0]);
      assert OfKey(a, key)[1] == OfKey(a[1..], key)[0];
      assert b[0] in multiset(OfKey(a[1..], key));
      assert multiset(b) == multiset{b[0]} + (multiset(a[1..]) - multiset{b[0]} + multiset{a[0]});
      assert OfKey(b, key)[0] == b[0];
    }
  }

  /** `s` with its first field of `key` replaced by `f`. */
  lemma {:induction false} ReplaceFirst(s: seq<OxmField>, key: nat, f: OxmField) returns (r: seq<OxmField>)
    requires OfKey(s, key) != []
    ensures SortKey(OfKey(s, key)[0]) == key
    ensures multiset(r) == multiset(s) - multiset{OfKey(s, key)[0]} + multiset{f}
  {
    assert s == [s[0]] + s[1..];
    if SortKey(s[0]) == key {
      r := [f] + s[1..];
    } else {
      var tail := ReplaceFirst(s[1..], key, f);
      r := [s[0]] + tail;
      OfKeyCount(s[1..], key, OfKey(s, key)[0]);
      assert OfKey(s, key)[0] in multiset(OfKey(s[1..], key));
    }
  }

  // -- the constructor ---------------------------------------------------------

  function ToUserAll(fields: seq<OxmField>): Result<seq<OxmField>> {
    if fields == [] then Ok([])
    else
      var user :- ToUser(fields[0]);
      var rest :- ToUserAll(fields[1..]);
      Ok([user] + rest)
  }

  /** `OFPMatch(**fields)`: normalize, sort, name. */
  function Build(fields: seq<OxmField>): Result<FlowMatch> {
    var named :- ToUserAll(StableSort(NormalizeAll(fields)));
    Ok(FlowMatch(OXM_MATCH, named))
  }

  predicate AllWellFormed(fields: seq<OxmField>) {
    forall f | f in fields :: WellFormedOxm(f)
  }

  lemma {:induction false} ToUserAllWellFormed(fields: seq<OxmField>)
    requires AllWellFormed(fields)
    ensures ToUserAll(fields) == Ok(fields)
  {
    hide WellFormedOxm, ToUser;
    if fields != [] {
      WellFormedToUser(fields[0]);
      ToUserAllWellFormed(fields[1..]);
      assert fields == [fields[0]] + fields[1..];
    }
  }

  /** A match of well-formed fields is built from their normal forms, sorted. */
  lemma BuildWellFormed(fields: seq<OxmField>)
    requires AllWellFormed(fields)
    ensures Build(fields) == Ok(FlowMatch(OXM_MATCH, StableSort(NormalizeAll(fields))))
    ensures AllWellFormed(StableSort(NormalizeAll(fields)))
  {
    hide WellFormedOxm, ToUser, Normalize, StableSort;
    var normal := NormalizeAll(fields);
    assert AllWellFormed(normal) by {
      forall i | 0 <= i < |fields|
        ensures WellFormedOxm(normal[i])
      {
        assert fields[i] in fields;
        NormalizeWellFormed(fields[i]);
      }
    }
    var sorted := StableSort(normal);
    forall f | f in sorted
      ensures WellFormedOxm(f)
    {
      assert f in multiset(normal);
    }
    ToUserAllWellFormed(sorted);
  }

  /** Building a match again from its own items changes nothing. */
  lemma RebuildIsIdentity(fields: seq<OxmField>)
    requires AllWellFormed(fields)
    ensures Build(fields).Ok?
    ensures Build(Build(fields).value.fields) == Build(fields)
  {
    hide WellFormedOxm, ToUser, StableSort, Normalize;
    BuildWellFormed(fields);
    var normal := NormalizeAll(fields);
    var sorted := StableSort(normal);
    BuildWellFormed(sorted);
    forall i | 0 <= i < |sorted|
      ensures Normalize(sorted[i]) == sorted[i]
    {
      assert sorted[i] in multiset(normal);
      var j :| 0 <= j < |normal| && normal[j] == sorted[i];
      assert fields[j] in fields;
      NormalizeWellFormed(fields[j]);
    }
    assert NormalizeAll(sorted) == sorted;
    SortOrdered(normal);
    SortOrderedIsIdentity(sorted);
  }

  /** The wire form of a match depends on the order its fields were given in
      exactly as far as that order tells apart fields of one sort key. */
  lemma WireFormOrder(a: seq<OxmField>, b: seq<OxmField>)
    requires AllWellFormed(a) && AllWellFormed(b)
    requires |Tlvs(StableSort(NormalizeAll(a)))| < 0xFFFC && |Tlvs(StableSort(NormalizeAll(b)))| < 0xFFFC
    ensures Build(a).Ok? && Build(b).Ok?
    ensures EncodeMatch(Build(a).value) == EncodeMatch(Build(b).value)
       <==> SameByKey(NormalizeAll(a), NormalizeAll(b))
  {
    hide WellFormedOxm, ToUser, StableSort, Normalize, OfKey, EncodeMatch, Tlvs;
    BuildWellFormed(a);
    BuildWellFormed(b);
    EncodeInjective(Build(a).value, Build(b).value);
    SortSameIff(NormalizeAll(a), NormalizeAll(b));
  }

  /** Normalizing keeps every field's key, so distinct keys stay distinct. */
  lemma {:induction false} NormalizeKeepsKeys(fields: seq<OxmField>, key: nat)
    requires AllWellFormed(fields)
    ensures OfKey(NormalizeAll(fields), key) == NormalizeAll(OfKey(fields, key))
  {
    hide WellFormedOxm, Normalize;
    if fields != [] {
      NormalizeWellFormed(fields[0]);
      NormalizeKeepsKeys(fields[1..], key);
      assert NormalizeAll(fields)[1..] == NormalizeAll(fields[1..]);
      assert NormalizeAll(fields)[0] == Normalize(fields[0]);
    }
  }

  /** Distinct keys: every order of the same fields gives the same octets. */
  lemma WireFormCanonical(a: seq<OxmField>, b: seq<OxmField>)
    requires AllWellFormed(a) && multiset(a) == multiset(b) && DistinctKeys(a)
    ensures Build(a) == Build(b) && Build(a).Ok?
  {
    hide WellFormedOxm, ToUser, StableSort, Normalize, OfKey;
    assert AllWellFormed(b) by {
      forall f | f in b
        ensures WellFormedOxm(f)
      {
        assert f in multiset(a);
      }
    }
    SortIgnoresOrder(a, b);
    SortSameIff(a, b);
    forall key
      ensures OfKey(NormalizeAll(a), key) == OfKey(NormalizeAll(b), key)
    {
      NormalizeKeepsKeys(a, key);
      NormalizeKeepsKeys(b, key);
      assert OfKey(a, key) == OfKey(b, key);
    }
    SortSameIff(NormalizeAll(a), NormalizeAll(b));
    BuildWellFormed(a);
    BuildWellFormed(b);
  }

  lemma {:induction false} TlvsBound(fields: seq<OxmField>)
    requires AllWellFormed(fields)
    ensures |Tlvs(fields)| <= 259 * |fields|
  {
    hide ExpHeader, Registered;
    if fields != [] {
      assert WellFormedOxm(fields[0]);
      TlvsBound(fields[1..]);
    }
  }

  const TCP_FLAGS := OxmField(Exp(ONF_ID, EXP_BASE + 42), [0, 2], None)
  const ACTSET_OUTPUT := OxmField(Exp(ONF_ID, EXP_BASE + 43), [0, 0, 0, 1], None)

  /** Two ONF experimenter fields share a sort key, so a match of both has two wire
      forms. */
  lemma OnfFieldsKeepGivenOrder()
    ensures var a, b := Build([TCP_FLAGS, ACTSET_OUTPUT]), Build([ACTSET_OUTPUT, TCP_FLAGS]);
            a.Ok? && b.Ok? && EncodeMatch(a.value) != EncodeMatch(b.value)
  {
    hide StableSort, EncodeMatch, Tlvs, ToUser;
    var a, b := [TCP_FLAGS, ACTSET_OUTPUT], [ACTSET_OUTPUT, TCP_FLAGS];
    OnfFields();
    assert AllWellFormed(a) && AllWellFormed(b);
    assert NormalizeAll(a) == a && NormalizeAll(b) == b;
    BuildWellFormed(a);
    BuildWellFormed(b);
    SortedSize(a);
    SortedSize(b);
    TlvsBound(StableSort(a));
    TlvsBound(StableSort(b));
    WireFormOrder(a, b);
    assert OfKey(a, ONF_ID)[0] == TCP_FLAGS && OfKey(b, ONF_ID)[0] == ACTSET_OUTPUT;
    assert !SameByKey(a, b);
  }

  lemma OnfFields()
    ensures WellFormedOxm(TCP_FLAGS) && WellFormedOxm(ACTSET_OUTPUT)
    ensures Normalize(TCP_FLAGS) == TCP_FLAGS && Normalize(ACTSET_OUTPUT) == ACTSET_OUTPUT
  {
    assert |Payload(TCP_FLAGS)| == 6 && |Payload(ACTSET_OUTPUT)| == 8;
    NormalizeWellFormed(TCP_FLAGS);
    NormalizeWellFormed(ACTSET_OUTPUT);
  }

  lemma SortedSize(fields: seq<OxmField>)
    ensures |StableSort(fields)| == |fields|
  {
    hide StableSort;
    assert |multiset(StableSort(fields))| == |StableSort(fields)| && |multiset(fields)| == |fields|;
  }
}
