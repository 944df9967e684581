/** Table features replies: tables holding properties holding ids. */
module TableFeatures {
  import opened Bytes
  import opened Layout
  import opened Lists
  import opened Oxm

  /** An action or instruction type with the length it was read with. */
  datatype Id = Id(kind: nat, len: nat)

  /** A field, or a field of the experimenter class with its experimenter. */
  datatype OxmId =
    | FieldId(num: nat, hasMask: bool, length: nat)
    | ExpId(num: nat, expId: nat, hasMask: bool, length: nat)

  datatype Prop =
    | InstructionIds(kind: nat, ids: seq<Id>)
    | NextTables(kind: nat, tables: seq<byte>)
    | ActionIds(kind: nat, ids: seq<Id>)
    | OxmIds(kind: nat, fields: seq<OxmId>)
    | Experimenter(kind: nat, experimenter: nat, expType: nat, words: seq<nat>)
    | UnknownProp(kind: nat, data: seq<byte>)

  datatype Class = InstructionClass | NextTablesClass | ActionClass | OxmClass | ExperimenterClass | UnknownClass

  /** The property registry. */
  function ClassOf(kind: nat): Class {
    if kind in {0, 1} then InstructionClass
    else if kind in {2, 3} then NextTablesClass
    else if kind in {4, 5, 6, 7} then ActionClass
    else if kind in {8, 10, 12, 13, 14, 15} then OxmClass
    else if kind in {0xFFFE, 0xFFFF} then ExperimenterClass
    else UnknownClass
  }

  // -- ids ---------------------------------------------------------------------------

  function EncodeId(id: Id): seq<byte> { Be(id.kind, 2) + Be(4, 2) }

  /** `_Id.parse`: a length of zero is refused, any other is skipped by. */
  function ParseId(buf: seq<byte>): Result<(Id, nat)> {
    var kind :- ReadNum(buf, 0, 2);
    var len :- ReadNum(buf, 2, 2);
    if len == 0 then Err(ValueError) else Ok((Id(kind, len), len))
  }

  function OxmIdWord(id: OxmId): nat {
    id.num * 512 + (if id.hasMask then 256 else 0)
  }

  /** `serialize` of a field id; the length carried is always zero. */
  function EncodeOxmId(id: OxmId): seq<byte> {
    Be(OxmIdWord(id), 4) + (if id.ExpId? then Be(id.expId, 4) else [])
  }

  /** What `serialize` asserts against: a field of the experimenter class. */
  predicate Refused(id: OxmId) { id.num / 128 == EXPERIMENTER_CLASS }

  /** `OFPOxmId.parse`. */
  function ParseOxmId(buf: seq<byte>): Result<(OxmId, nat)> {
    var header :- ReadNum(buf, 0, 4);
    var hasMask := header / 256 % 2 == 1;
    if header / 0x1_0000 == EXPERIMENTER_CLASS then
      var expId :- ReadNum(buf, 4, 4);
      Ok((ExpId(header / 512, expId, hasMask, header % 256), 8))
    else Ok((FieldId(header / 512, hasMask, header % 256), 4))
  }

  function EncodeWord(w: nat): seq<byte> { Be(w, 4) }

  /** `struct.iter_unpack("!I", ...)`. */
  function ParseWord(buf: seq<byte>): Result<(nat, nat)> {
    var w :- ReadNum(buf, 0, 4);
    Ok((w, 4))
  }

  // -- properties ----------------------------------------------------------------------

  function PropBody(p: Prop): seq<byte> {
    match p
    case InstructionIds(_, ids) => Concat(EncodeId, ids)
    case NextTables(_, tables) => tables
    case ActionIds(_, ids) => Concat(EncodeId, ids)
    case OxmIds(_, fields) => Concat(EncodeOxmId, fields)
    case Experimenter(_, experimenter, expType, words) =>
      Be(experimenter, 4) + Be(expType, 4) + Concat(EncodeWord, words)
    case UnknownProp(_, data) => data
  }

  function PropLength(p: Prop): nat { 4 + |PropBody(p)| }

  /** `serialize` of a property: its length does not count the padding. */
  function EncodeProp(p: Prop): (s: seq<byte>)
    ensures |s| == RoundUp8(PropLength(p)) >= 8
  {
    Be(p.kind, 2) + Be(PropLength(p), 2) + (PropBody(p) + Zeros(RoundUp8(PropLength(p)) - PropLength(p)))
  }

  /** The body of a property of one class. */
  function ParsePropBody(kind: nat, body: seq<byte>): Result<Prop> {
    match ClassOf(kind)
    case InstructionClass => var ids :- ParseFronts(ParseId, body); Ok(InstructionIds(kind, ids))
    case NextTablesClass => Ok(NextTables(kind, body))
    case ActionClass => var ids :- ParseFronts(ParseId, body); Ok(ActionIds(kind, ids))
    case OxmClass => var fields :- ParseFronts(ParseOxmId, body); Ok(OxmIds(kind, fields))
    case ExperimenterClass =>
      var words :- ParseFronts(ParseWord, Drop(body, 8));
      var experimenter :- ReadNum(body, 0, 4);
      var expType :- ReadNum(body, 4, 4);
      Ok(Experimenter(kind, experimenter, expType, words))
    case UnknownClass => Ok(UnknownProp(kind, body))
  }

  /** `OFPTableFeatureProp.parse`: the property and the octets it takes with its
      padding. The experimenter class reads its two words past a short length. */
  function ParseProp(buf: seq<byte>): Result<(Prop, nat)> {
    var kind :- ReadNum(buf, 0, 2);
    var len :- ReadNum(buf, 2, 2);
    if len == 0 then Err(ValueError)
    else
      var body := if ClassOf(kind) == ExperimenterClass then Slice(buf, 4, 12) + Slice(buf, 12, len)
                  else Slice(buf, 4, len);
      var p :- ParsePropBody(kind, body);
      Ok((p, RoundUp8(len)))
  }

  // -- tables ----------------------------------------------------------------------------

  datatype Table = Table(
    id: nat, name: seq<byte>, metadataMatch: nat, metadataWrite: nat, config: nat, maxEntries: nat, props: seq<Prop>)

  const TABLE_FIXED := 64
  const NAME_WIDTH := 32

  function TableLength(t: Table): nat { TABLE_FIXED + |Concat(EncodeProp, t.props)| }

  function TableHead(t: Table): (s: seq<byte>)
    ensures |s| == TABLE_FIXED
  {
    Be(TableLength(t), 2) + Be(t.id, 1) + Zeros(5) + FixedWidth(t.name, NAME_WIDTH)
    + Be(t.metadataMatch, 8) + Be(t.metadataWrite, 8) + Be(t.config, 4) + Be(t.maxEntries, 4)
  }

  function EncodeTable(t: Table): seq<byte> { TableHead(t) + Concat(EncodeProp, t.props) }

  /** `name.rstrip(b"\\0")`. */
  function StripNul(s: seq<byte>): seq<byte> {
    if s != [] && s[|s| - 1] == 0 then StripNul(s[..|s| - 1]) else s
  }

  /** `OFPTableFeaturesStats.parser`. */
  function ParseTable(buf: seq<byte>, offset: nat): Result<(Table, nat)> {
    if offset + TABLE_FIXED > |buf| then Err(StructError)
    else
      var head := buf[offset..offset + TABLE_FIXED];
      var len := Un(head[0..2]);
      var props :- ParseFronts(ParseProp, Slice(buf, offset + TABLE_FIXED, offset + len));
      var name, config, maxEntries := StripNul(head[8..40]), Un(head[56..60]), Un(head[60..64]);
      Ok((Table(Un(head[2..3]), name, Un(head[40..48]), Un(head[48..56]), config, maxEntries, props), len))
  }

  // -- serializers ---------------------------------------------------------------------------

  /** `serialize` of a list of structures into a growing body. */
  method SerializeAll<T>(encode: T -> seq<byte>, items: seq<T>) returns (body: seq<byte>)
    ensures body == Concat(encode, items)
  {
    body := [];
    for i := 0 to |items|
      invariant body == Concat(encode, items[..i])
    {
      ConcatSnoc(encode, items[..i], items[i]);
      assert items[..i + 1] == items[..i] + [items[i]];
      body := body + encode(items[i]);
    }
    assert items[..|items|] == items;
  }

  predicate PropRefused(p: Prop) {
    p.OxmIds? && exists id | id in p.fields :: Refused(id)
  }

  /** The id loop of the field property. */
  method SerializeOxmIds(fields: seq<OxmId>) returns (r: Result<seq<byte>>)
    ensures r == if exists id | id in fields :: Refused(id) then Err(AssertionError)
                 else Ok(Concat(EncodeOxmId, fields))
  {
    hide EncodeOxmId, Refused;
    var body := [];
    for i := 0 to |fields|
      invariant body == Concat(EncodeOxmId, fields[..i])
      invariant forall j | 0 <= j < i :: !Refused(fields[j])
    {
      if Refused(fields[i]) {
        return Err(AssertionError);
      }
      ConcatSnoc(EncodeOxmId, fields[..i], fields[i]);
      assert fields[..i + 1] == fields[..i] + [fields[i]];
      body := body + EncodeOxmId(fields[i]);
    }
    assert fields[..|fields|] == fields;
    r := Ok(body);
  }

  method SerializePropBody(p: Prop) returns (r: Result<seq<byte>>)
    ensures r == if PropRefused(p) then Err(AssertionError) else Ok(PropBody(p))
  {
    match p {
      case InstructionIds(_, ids) =>
        var body := SerializeAll(EncodeId, ids);
        r := Ok(body);
      case ActionIds(_, ids) =>
        var body := SerializeAll(EncodeId, ids);
        r := Ok(body);
      case OxmIds(_, fields) =>
        r := SerializeOxmIds(fields);
      case Experimenter(_, experimenter, expType, words) =>
        var data := SerializeAll(EncodeWord, words);
        r := Ok(Be(experimenter, 4) + Be(expType, 4) + data);
      case NextTables(_, tables) =>
        r := Ok(tables);
      case UnknownProp(_, data) =>
        r := Ok(data);
    }
  }

  /** `OFPTableFeaturesStats.serialize`: the properties first, as the length in front
      depends on them; each padded behind the length it declares. */
  method SerializeTable(t: Table) returns (r: Result<seq<byte>>)
    requires TableLength(t) < 0x1_0000
    ensures r == if exists p | p in t.props :: PropRefused(p) then Err(AssertionError) else Ok(EncodeTable(t))
  {
    hide PropBody, PropRefused, TableHead, TableLength;
    var body := [];
    for i := 0 to |t.props|
      invariant body == Concat(EncodeProp, t.props[..i])
      invariant forall j | 0 <= j < i :: !PropRefused(t.props[j])
    {
      var p := t.props[i];
      var own := SerializePropBody(p);
      if own.Err? {
        return Err(AssertionError);
      }
      var length := 4 + |own.value|;
      body := body + (Be(p.kind, 2) + Be(length, 2) + (own.value + Zeros(RoundUp8(length) - length)));
      ConcatSnoc(EncodeProp, t.props[..i], p);
      assert t.props[..i + 1] == t.props[..i] + [p];
    }
    assert t.props[..|t.props|] == t.props;
    r := Ok(TableHead(t) + body);
  }

  // -- round trip ----------------------------------------------------------------------------

  predicate WellFormedId(id: Id) { id.kind < 0x1_0000 && id.len == 4 }

  /** A field outside the experimenter class, named with the length of an id. */
  predicate WellFormedOxmId(id: OxmId) {
    id.FieldId? && id.length == 0 && id.num / 128 < EXPERIMENTER_CLASS
  }

  predicate WellFormedProp(p: Prop) {
    && p.kind < 0x1_0000 && PropLength(p) < 0xFFF8
    && match p
       case InstructionIds(kind, ids) => ClassOf(kind) == InstructionClass && forall id | id in ids :: WellFormedId(id)
       case NextTables(kind, _) => ClassOf(kind) == NextTablesClass
       case ActionIds(kind, ids) => ClassOf(kind) == ActionClass && forall id | id in ids :: WellFormedId(id)
       case OxmIds(kind, fields) => ClassOf(kind) == OxmClass && forall f | f in fields :: WellFormedOxmId(f)
       case Experimenter(kind, experimenter, expType, words) =>
         && ClassOf(kind) == ExperimenterClass && experimenter < 0x1_0000_0000 && expType < 0x1_0000_0000
         && forall w | w in words :: w < 0x1_0000_0000
       case UnknownProp(kind, _) => ClassOf(kind) == UnknownClass
  }

  predicate WellFormedTable(t: Table) {
    && TableLength(t) < 0x1_0000 && t.id < 0x100
    && |t.name| <= NAME_WIDTH && (t.name != [] ==> t.name[|t.name| - 1] != 0)
    && t.metadataMatch < 0x1_0000_0000_0000_0000 && t.metadataWrite < 0x1_0000_0000_0000_0000
    && t.config < 0x1_0000_0000 && t.maxEntries < 0x1_0000_0000
    && forall p | p in t.props :: WellFormedProp(p)
  }

  lemma IdReadable(id: Id)
    requires WellFormedId(id)
    ensures FrontReadable(ParseId, EncodeId, id)
  {
    hide Be, ReadNum;
    forall tail
      ensures ParseId(EncodeId(id) + tail) == Ok((id, |EncodeId(id)|))
    {
      var buf := EncodeId(id) + tail;
      assert buf[0..4] == Be(id.kind, 2) + Be(4, 2) + [];
      ReadTag(id.kind, 4, [], buf, 0);
    }
  }

  lemma OxmIdReadable(id: OxmId)
    requires WellFormedOxmId(id)
    ensures FrontReadable(ParseOxmId, EncodeOxmId, id)
  {
    hide Be, ReadNum;
    HeaderFields(id.num, if id.hasMask then 1 else 0, 0);
    var word := OxmIdWord(id);
    forall tail
      ensures ParseOxmId(EncodeOxmId(id) + tail) == Ok((id, 4))
    {
      var buf := EncodeOxmId(id) + tail;
      assert buf[0..4] == Be(word, 4);
      ReadNumHas(buf, 0, word, 4);
      assert word / 0x1_0000 == id.num / 128;
    }
  }

  lemma WordReadable(w: nat)
    requires w < 0x1_0000_0000
    ensures FrontReadable(ParseWord, EncodeWord, w)
  {
    hide Be, ReadNum;
    assert Pow256(4) == 0x1_0000_0000;
    forall tail
      ensures ParseWord(EncodeWord(w) + tail) == Ok((w, 4))
    {
      var buf := EncodeWord(w) + tail;
      assert buf[0..4] == Be(w, 4);
      ReadNumHas(buf, 0, w, 4);
    }
  }

  lemma {:induction false} IdsRoundTrip(ids: seq<Id>)
    requires forall id | id in ids :: WellFormedId(id)
    ensures ParseFronts(ParseId, Concat(EncodeId, ids)) == Ok(ids)
  {
    hide FrontReadable, WellFormedId;
    forall id | id in ids
      ensures FrontReadable(ParseId, EncodeId, id)
    {
      IdReadable(id);
    }
    FrontsRoundTrip(ParseId, EncodeId, ids);
  }

  lemma {:induction false} OxmIdsRoundTrip(fields: seq<OxmId>)
    requires forall f | f in fields :: WellFormedOxmId(f)
    ensures ParseFronts(ParseOxmId, Concat(EncodeOxmId, fields)) == Ok(fields)
  {
    hide FrontReadable, WellFormedOxmId;
    forall f | f in fields
      ensures FrontReadable(ParseOxmId, EncodeOxmId, f)
    {
      OxmIdReadable(f);
    }
    FrontsRoundTrip(ParseOxmId, EncodeOxmId, fields);
  }

  lemma WordsRoundTrip(words: seq<nat>)
    requires forall w | w in words :: w < 0x1_0000_0000
    ensures ParseFronts(ParseWord, Concat(EncodeWord, words)) == Ok(words)
  {
    hide FrontReadable;
    forall w | w in words
      ensures FrontReadable(ParseWord, EncodeWord, w)
    {
      WordReadable(w);
    }
    FrontsRoundTrip(ParseWord, EncodeWord, words);
  }

  lemma ExperimenterBody(experimenter: nat, expType: nat, tail: seq<byte>)
    requires experimenter < 0x1_0000_0000 && expType < 0x1_0000_0000
    ensures var body := Be(experimenter, 4) + Be(expType, 4) + tail;
            ReadNum(body, 0, 4) == Ok(experimenter) && ReadNum(body, 4, 4) == Ok(expType) && Drop(body, 8) == tail
  {
    hide Be, ReadNum;
    assert Pow256(4) == 0x1_0000_0000;
    var body := Be(experimenter, 4) + Be(expType, 4) + tail;
    assert body[0..4] == Be(experimenter, 4) && body[4..8] == Be(expType, 4);
    ReadNumHas(body, 0, experimenter, 4);
    ReadNumHas(body, 4, expType, 4);
  }

  lemma BodyRoundTrip(p: Prop)
    requires WellFormedProp(p)
    ensures ParsePropBody(p.kind, PropBody(p)) == Ok(p)
  {
    hide Be, ReadNum, ParseFronts, Concat;
    match p
    case InstructionIds(_, ids) => IdsRoundTrip(ids);
    case ActionIds(_, ids) => IdsRoundTrip(ids);
    case OxmIds(_, fields) => OxmIdsRoundTrip(fields);
    case Experimenter(_, experimenter, expType, words) =>
      WordsRoundTrip(words);
      ExperimenterBody(experimenter, expType, Concat(EncodeWord, words));
    case _ =>
  }

  lemma ExperimenterLength(p: Prop)
    requires WellFormedProp(p)
    ensures ClassOf(p.kind) == ExperimenterClass ==> |PropBody(p)| >= 8
  {
    hide Concat;
  }

  lemma {:induction false} PropReadable(p: Prop)
    requires WellFormedProp(p)
    ensures FrontReadable(ParseProp, EncodeProp, p)
  {
    hide WellFormedProp, ParseProp;
    forall tail
      ensures ParseProp(EncodeProp(p) + tail) == Ok((p, |EncodeProp(p)|))
    {
      PropRoundTrip(p, tail);
    }
  }

  /** A property reads back from the front of any octets that begin with it, and
      takes its padding with it. */
  lemma PropRoundTrip(p: Prop, tail: seq<byte>)
    requires WellFormedProp(p)
    ensures ParseProp(EncodeProp(p) + tail) == Ok((p, |EncodeProp(p)|))
  {
    hide Be, ReadNum, PropBody, ParsePropBody, Has, ClassOf, WellFormedProp, Slice;
    var len := PropLength(p);
    BodyRoundTrip(p);
    ExperimenterLength(p);
    PropSize(p);
    var buf := EncodeProp(p) + tail;
    var head, pad := Be(p.kind, 2) + Be(len, 2), Zeros(RoundUp8(len) - len);
    assert buf == head + (PropBody(p) + pad + tail);
    WholeHas(buf);
    ReadTag(p.kind, len, PropBody(p) + pad + tail, buf, 0);
    PropSlices(head, PropBody(p), pad + tail);
    assert buf == head + PropBody(p) + (pad + tail);
  }

  lemma PropSize(p: Prop)
    requires WellFormedProp(p)
    ensures p.kind < 0x1_0000 && PropLength(p) < 0xFFF8
  {
  }

  lemma WholeHas(buf: seq<byte>)
    ensures Has(buf, 0, buf)
  {
    assert buf[0..0 + |buf|] == buf;
  }

  lemma PropSlices(head: seq<byte>, body: seq<byte>, tail: seq<byte>)
    requires |head| == 4
    ensures var buf := head + body + tail;
            && Slice(buf, 4, 4 + |body|) == body
            && (|body| >= 8 ==> Slice(buf, 4, 12) + Slice(buf, 12, 4 + |body|) == body)
  {
    var buf := head + body + tail;
    assert buf[4..4 + |body|] == body;
    if |body| >= 8 {
      assert buf[4..12] == body[..8] && buf[12..4 + |body|] == body[8..];
    }
  }

  lemma {:induction false} PropsRoundTrip(props: seq<Prop>)
    requires forall p | p in props :: WellFormedProp(p)
    ensures ParseFronts(ParseProp, Concat(EncodeProp, props)) == Ok(props)
  {
    hide FrontReadable, WellFormedProp;
    forall p | p in props
      ensures FrontReadable(ParseProp, EncodeProp, p)
    {
      PropReadable(p);
    }
    FrontsRoundTrip(ParseProp, EncodeProp, props);
  }

  lemma {:induction false} StripPadding(s: seq<byte>, n: nat)
    requires s != [] ==> s[|s| - 1] != 0
    ensures StripNul(s + Zeros(n)) == s
  {
    if n == 0 {
      assert s + Zeros(0) == s;
    } else {
      StripPadding(s, n - 1);
      assert (s + Zeros(n))[..|s| + n - 1] == s + Zeros(n - 1);
    }
  }

  lemma HeadFields(t: Table)
    requires WellFormedTable(t)
    ensures var head := TableHead(t);
            && Un(head[0..2]) == TableLength(t) && Un(head[2..3]) == t.id && StripNul(head[8..40]) == t.name
            && Un(head[40..48]) == t.metadataMatch && Un(head[48..56]) == t.metadataWrite
            && Un(head[56..60]) == t.config && Un(head[60..64]) == t.maxEntries
  {
    hide Be, Un, TableLength, WellFormedProp;
    assert Pow256(1) == 0x100 && Pow256(2) == 0x1_0000 && Pow256(4) == 0x1_0000_0000;
    assert Pow256(8) == 0x1_0000_0000_0000_0000;
    UnBe(TableLength(t), 2);
    UnBe(t.id, 1);
    UnBe(t.metadataMatch, 8);
    UnBe(t.metadataWrite, 8);
    UnBe(t.config, 4);
    UnBe(t.maxEntries, 4);
    StripPadding(t.name, NAME_WIDTH - |t.name|);
    HeadSlices(t);
    assert FixedWidth(t.name, NAME_WIDTH) == t.name + Zeros(NAME_WIDTH - |t.name|);
  }

  lemma HeadSlices(t: Table)
    ensures var head := TableHead(t);
            && head[0..2] == Be(TableLength(t), 2) && head[2..3] == Be(t.id, 1)
            && head[8..40] == FixedWidth(t.name, NAME_WIDTH)
            && head[40..48] == Be(t.metadataMatch, 8) && head[48..56] == Be(t.metadataWrite, 8)
            && head[56..60] == Be(t.config, 4) && head[60..64] == Be(t.maxEntries, 4)
  {
    hide Be, TableLength, FixedWidth;
  }

  lemma TableReadable(t: Table)
    requires WellFormedTable(t)
    ensures Readable(ParseTable, EncodeTable, t)
  {
    hide TableHead, Un, StripNul, Concat, ParseFronts, WellFormedProp, Slice;
    HeadFields(t);
    PropsRoundTrip(t.props);
    var props := Concat(EncodeProp, t.props);
    forall buf: seq<byte>, offset: nat | Has(buf, offset, EncodeTable(t))
      ensures ParseTable(buf, offset) == Ok((t, |EncodeTable(t)|))
    {
      HasSplit(buf, offset, TableHead(t), props);
      HasSlice(buf, offset + TABLE_FIXED, props);
    }
  }

  /** A list of tables with any mix of properties, serialized one behind the other,
      reads back through the reply body loop as the same list. */
  lemma TablesRoundTrip(tables: seq<Table>, buf: seq<byte>, offset: nat)
    requires forall t | t in tables :: WellFormedTable(t)
    requires Has(buf, offset, Concat(EncodeTable, tables))
    ensures ParseItems(ParseTable, buf, offset, offset + |Concat(EncodeTable, tables)|) == Ok(tables)
  {
    hide Readable, WellFormedTable, ParseItems, Concat, Has, EncodeTable, ParseTable;
    forall t | t in tables
      ensures Readable(ParseTable, EncodeTable, t)
    {
      TableReadable(t);
    }
    ItemsRoundTrip(ParseTable, EncodeTable, tables, buf, offset);
  }

  // -- lengths and names as given --------------------------------------------------------

  function Map<T>(f: T -> T, items: seq<T>): (r: seq<T>)
    ensures |r| == |items| && forall i | 0 <= i < |items| :: r[i] == f(items[i])
  {
    if items == [] then [] else [f(items[0])] + Map(f, items[1..])
  }

  lemma {:induction false} SameConcat<T>(encode: T -> seq<byte>, f: T -> T, items: seq<T>)
    requires forall x | x in items :: encode(f(x)) == encode(x)
    ensures Concat(encode, Map(f, items)) == Concat(encode, items)
  {
    if items != [] {
      assert Map(f, items)[1..] == Map(f, items[1..]);
      SameConcat(encode, f, items[1..]);
    }
  }

  /** `self.len` and `self.length` as serialize sets them. */
  function FilledId(id: Id): Id { id.(len := 4) }

  function FilledOxmId(id: OxmId): OxmId { id.(length := 0) }

  function FilledProp(p: Prop): Prop {
    match p
    case InstructionIds(kind, ids) => InstructionIds(kind, Map(FilledId, ids))
    case ActionIds(kind, ids) => ActionIds(kind, Map(FilledId, ids))
    case OxmIds(kind, fields) => OxmIds(kind, Map(FilledOxmId, fields))
    case _ => p
  }

  function FilledTable(t: Table): Table { t.(props := Map(FilledProp, t.props)) }

  /** A table as it reads back: lengths filled in, the name cut and stripped. */
  function SeenTable(t: Table): Table { FilledTable(t).(name := StripNul(FixedWidth(t.name, NAME_WIDTH))) }

  /** A name that fits its field and does not end in NUL. */
  predicate NameKept(name: seq<byte>) {
    |name| <= NAME_WIDTH && (name != [] ==> name[|name| - 1] != 0)
  }

  /** A table that can be packed, with lengths filled in and any name. */
  predicate TableFits(t: Table) {
    && TableLength(t) < 0x1_0000 && t.id < 0x100
    && t.metadataMatch < 0x1_0000_0000_0000_0000 && t.metadataWrite < 0x1_0000_0000_0000_0000
    && t.config < 0x1_0000_0000 && t.maxEntries < 0x1_0000_0000
    && forall p | p in t.props :: WellFormedProp(FilledProp(p))
  }

  lemma FilledSame(p: Prop)
    ensures EncodeProp(FilledProp(p)) == EncodeProp(p)
  {
    hide Be, Concat;
    assert PropBody(FilledProp(p)) == PropBody(p) by {
      match p
      case InstructionIds(_, ids) => SameConcat(EncodeId, FilledId, ids);
      case ActionIds(_, ids) => SameConcat(EncodeId, FilledId, ids);
      case OxmIds(_, fields) => SameConcat(EncodeOxmId, FilledOxmId, fields);
      case _ =>
    }
  }

  lemma {:induction false} StripFill(s: seq<byte>)
    ensures |StripNul(s)| <= |s| && s == StripNul(s) + Zeros(|s| - |StripNul(s)|)
    ensures StripNul(s) != [] ==> StripNul(s)[|StripNul(s)| - 1] != 0
  {
    if s != [] && s[|s| - 1] == 0 {
      var init := s[..|s| - 1];
      StripFill(init);
      assert s == init + [0];
      assert Zeros(|s| - |StripNul(s)|) == Zeros(|init| - |StripNul(s)|) + [0];
    } else {
      assert s + Zeros(0) == s;
    }
  }

  /** A name survives exactly if it fits and does not end in NUL. */
  lemma NameExact(name: seq<byte>)
    ensures StripNul(FixedWidth(name, NAME_WIDTH)) == name <==> NameKept(name)
    ensures NameKept(StripNul(FixedWidth(name, NAME_WIDTH)))
    ensures FixedWidth(StripNul(FixedWidth(name, NAME_WIDTH)), NAME_WIDTH) == FixedWidth(name, NAME_WIDTH)
  {
    StripFill(FixedWidth(name, NAME_WIDTH));
    if NameKept(name) {
      StripPadding(name, NAME_WIDTH - |name|);
      assert FixedWidth(name, NAME_WIDTH) == name + Zeros(NAME_WIDTH - |name|);
    }
  }

  /** What a table reads back as is well formed and has the same octets. */
  lemma SeenSame(t: Table)
    requires TableFits(t)
    ensures WellFormedTable(SeenTable(t)) && EncodeTable(SeenTable(t)) == EncodeTable(t)
  {
    hide WellFormedProp, EncodeProp, FilledProp, StripNul, FixedWidth, Concat, Be;
    NameExact(t.name);
    forall p | p in t.props
      ensures EncodeProp(FilledProp(p)) == EncodeProp(p)
    {
      FilledSame(p);
    }
    SameConcat(EncodeProp, FilledProp, t.props);
  }

  /** For all tables that can be packed, whatever lengths and names they are given: they
      read back with the lengths filled in and the names cut and stripped, and so with
      the names they were given if and only if every name fits and none ends in NUL. */
  lemma TablesExact(tables: seq<Table>, buf: seq<byte>, offset: nat)
    requires forall t | t in tables :: TableFits(t)
    requires Has(buf, offset, Concat(EncodeTable, tables))
    ensures var r := ParseItems(ParseTable, buf, offset, offset + |Concat(EncodeTable, tables)|);
            && r == Ok(Map(SeenTable, tables))
            && (r == Ok(Map(FilledTable, tables)) <==> forall t | t in tables :: NameKept(t.name))
  {
    hide WellFormedTable, TableFits, ParseItems, Concat, Has, EncodeTable, ParseTable;
    hide FilledTable, StripNul, FixedWidth;
    forall t | t in tables
      ensures WellFormedTable(SeenTable(t)) && EncodeTable(SeenTable(t)) == EncodeTable(t)
    {
      SeenSame(t);
    }
    SameConcat(EncodeTable, SeenTable, tables);
    TablesRoundTrip(Map(SeenTable, tables), buf, offset);
    forall t | t in tables
      ensures SeenTable(t) == FilledTable(t) <==> NameKept(t.name)
    {
      SeenFilled(t);
    }
    MapsEqual(tables);
  }

  lemma SeenFilled(t: Table)
    ensures SeenTable(t) == FilledTable(t) <==> NameKept(t.name)
  {
    hide StripNul, FixedWidth, NameKept;
    NameExact(t.name);
  }

  lemma MapsEqual(tables: seq<Table>)
    ensures Map(SeenTable, tables) == Map(FilledTable, tables)
       <==> forall t | t in tables :: SeenTable(t) == FilledTable(t)
  {
    hide SeenTable, FilledTable;
    if Map(SeenTable, tables) == Map(FilledTable, tables) {
      forall t | t in tables
        ensures SeenTable(t) == FilledTable(t)
      {
        var i :| 0 <= i < |tables| && tables[i] == t;
        assert Map(SeenTable, tables)[i] == Map(FilledTable, tables)[i];
      }
    }
  }

  /** A name of one NUL reads back as the empty name. */
  lemma NulNameLost(t: Table)
    requires t.name == [0]
    ensures SeenTable(t) != FilledTable(t)
  {
    hide StripNul, FixedWidth, FilledTable;
    SeenFilled(t);
  }

  // -- termination ------------------------------------------------------------------------

  lemma IdParsersAdvance()
    ensures Advances(ParseId) && Advances(ParseOxmId) && Advances(ParseWord)
  {
  }

  lemma PropBodyTerminates(kind: nat, body: seq<byte>)
    ensures ParsePropBody(kind, body) != Err(Endless)
  {
    hide Advances, ParseFronts;
    IdParsersAdvance();
    FrontsTerminate(ParseId, body);
    FrontsTerminate(ParseOxmId, body);
    FrontsTerminate(ParseWord, Drop(body, 8));
  }

  /** On every octet string the id loops, the property loop and the parser of one
      table come to an end. */
  lemma TableParserTerminates(buf: seq<byte>, offset: nat)
    ensures ParseTable(buf, offset) != Err(Endless)
  {
    hide ParsePropBody, ParseFronts, Un, StripNul, ReadNum, Slice;
    assert Advances(ParseProp) by {
      forall b
        ensures match ParseProp(b) case Ok((_, n)) => n > 0 case Err(e) => e != Endless
      {
        PropAdvances(b);
      }
    }
    if offset + TABLE_FIXED <= |buf| {
      var len := Un(buf[offset..offset + TABLE_FIXED][0..2]);
      FrontsTerminate(ParseProp, Slice(buf, offset + TABLE_FIXED, offset + len));
    }
  }

  lemma PropAdvances(buf: seq<byte>)
    ensures match ParseProp(buf) case Ok((_, n)) => n > 0 case Err(e) => e != Endless
  {
    hide ParsePropBody, ClassOf, Slice;
    var kind := ReadNum(buf, 0, 2);
    var len := ReadNum(buf, 2, 2);
    if kind.Ok? && len.Ok? && len.value > 0 {
      var body := if ClassOf(kind.value) == ExperimenterClass then Slice(buf, 4, 12) + Slice(buf, 12, len.value)
                  else Slice(buf, 4, len.value);
      PropBodyTerminates(kind.value, body);
    }
  }
}
