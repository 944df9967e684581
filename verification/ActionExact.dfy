/** For whole action trees: exactly which of those that can be packed read back. */
module ActionExact {
  import opened Bytes
  import opened Layout
  import opened Oxm
  import opened Actions
  import opened ActionCodec
  import opened ActionRoundTrip
  import SetFieldExact

  /** Every set-field of the tree has its TLV inside the length it declares. Only a
      masked experimenter field can run over it. */
  predicate Contained(a: Action)
    decreases a
  {
    match a
    case SetField(f) => 4 + |Tlv(f)| <= RoundUp8(4 + SetFieldPayload(f))
    case Ct(_, _, _, _, _, actions) => forall b | b in actions :: Contained(b)
    case _ => true
  }

  predicate AllContained(actions: seq<Action>) {
    forall a | a in actions :: ActionFits(a) && Contained(a)
  }

  /** A set-field that can be packed and is contained: its length, and the octets the
      padding leaves alone. */
  lemma ContainedSetField(f: OxmField)
    requires Writable(f) && Contained(SetField(f))
    ensures |Tlv(f)| >= SetFieldPayload(f) >= 4
    ensures var len, s := RoundUp8(4 + SetFieldPayload(f)), EncodeSetField(f);
            && |s| == len && s[..8] == SetFieldHead(f) + Tlv(f)[..4]
            && forall i | 4 + SetFieldPayload(f) <= i < len :: s[i] == 0
  {
    hide Be, Tlv, ExpHeader;
    TlvCovers(f);
    var tagged, at := SetFieldHead(f) + Tlv(f), 4 + SetFieldPayload(f);
    OverlayFrame(tagged, at, Zeros(RoundUp8(at) - at));
    assert tagged[..8] == SetFieldHead(f) + Tlv(f)[..4];
  }

  lemma ContainedSize(a: Action)
    requires ActionFits(a) && Contained(a)
    ensures |EncodeAction(a)| == ActionLen(a) && ActionLen(a) % 8 == 0 && ActionLen(a) >= 8
  {
    hide Writable, Tlv, EncodeSetField, Fits, Tagged;
    if a.Plain? { PlainSize(a.kind); }
    if a.SetField? { ContainedSetField(a.field); }
  }

  lemma {:induction false} ContainedList(actions: seq<Action>)
    requires AllContained(actions)
    ensures |EncodeActions(actions)| % 8 == 0
  {
    hide ActionFits, Contained, EncodeAction;
    if actions != [] {
      ContainedSize(actions[0]);
      ContainedList(actions[1..]);
    }
  }

  /** The length an action declares stands in its third and fourth octet. */
  lemma LenOctets(a: Action)
    requires ActionFits(a) && Contained(a)
    ensures |EncodeAction(a)| >= 4 && EncodeAction(a)[2..4] == Be(ActionLen(a), 2)
  {
    hide Be, Tlv, EncodeSetField, Writable, Fits, CtFixed, NatBody, EncodeActions, Pack;
    ContainedSize(a);
    if a.SetField? {
      ContainedSetField(a.field);
      assert EncodeSetField(a.field)[2..4] == EncodeSetField(a.field)[..8][2..4];
    }
  }

  /** Whatever is made of it, reading an action consumes the length it declares. */
  lemma DeclaredLen(a: Action, buf: seq<byte>, offset: nat)
    requires ActionFits(a) && Contained(a) && Has(buf, offset, EncodeAction(a))
    ensures ParseAction(buf, offset).Ok? ==> ParseAction(buf, offset).value.1 == ActionLen(a)
  {
    hide ParseAction, EncodeAction, ActionLen, Be;
    LenOctets(a);
    LenFits(a);
    var s := EncodeAction(a);
    HasMiddle(buf, offset, s, 2, 4);
    ReadNumHas(buf, offset + 2, ActionLen(a), 2);
    if ParseAction(buf, offset).Ok? {
      ParsedLen(buf, offset);
    }
  }

  lemma HasMiddle(buf: seq<byte>, offset: nat, data: seq<byte>, a: nat, b: nat)
    requires a <= b <= |data| && Has(buf, offset, data)
    ensures Has(buf, offset + a, data[a..b])
  {
    assert data == data[..a] + (data[a..b] + data[b..]);
    HasSplit(buf, offset, data[..a], data[a..b] + data[b..]);
    HasSplit(buf, offset + a, data[a..b], data[b..]);
  }

  lemma LenFits(a: Action)
    requires ActionFits(a)
    ensures ActionLen(a) < Pow256(2)
  {
    assert Pow256(2) == 0x1_0000;
  }

  lemma ParsedLen(buf: seq<byte>, offset: nat)
    requires ParseAction(buf, offset).Ok?
    ensures ReadNum(buf, offset + 2, 2) == Ok(ParseAction(buf, offset).value.1)
  {
    hide ReadNum, ParseNx, OxmParse, ToUser, UnpackFrom, PlainFormat;
  }

  // -- one constructor at a time ------------------------------------------------------

  lemma SetFieldTree(f: OxmField, buf: seq<byte>, offset: nat)
    requires ActionFits(SetField(f)) && Contained(SetField(f)) && Has(buf, offset, EncodeSetField(f))
    requires ParseAction(buf, offset).Ok? && ParseAction(buf, offset).value.0 == SetField(f)
    ensures WellFormedOxm(f) && PaddingHarmless(f)
  {
    hide Be, EncodeSetField, Tlv, OxmParse, ToUser, HeaderWord, ReadNum, Writable, WellFormedOxm, ParseNx, UnpackFrom;
    ContainedSetField(f);
    PlainFormatLimits();
    var s := EncodeSetField(f);
    var len := RoundUp8(4 + SetFieldPayload(f));
    assert buf[offset..offset + 8] == buf[offset..offset + len][..8] == s[..8];
    assert Has(buf, offset, SetFieldHead(f) + []) by {
      assert buf[offset..offset + 4] == buf[offset..offset + 8][..4];
    }
    ReadTag(SET_FIELD, len, [], buf, offset);
    WordFits(f);
    FirstWord(f);
    assert buf[offset + 4..offset + 8] == buf[offset..offset + 8][4..];
    ReadNumHas(buf, offset + 4, HeaderWord(f), 4);
    ReadBackShape(f, buf, offset + 4);
    SetFieldExact.ParsedIsTlv(f, buf, offset + 4);
    forall i | SetFieldPayload(f) <= i < |Tlv(f)|
      ensures Tlv(f)[i] == 0
    {
      assert buf[offset + 4..offset + 4 + |Tlv(f)|][i] == buf[offset + 4 + i] == buf[offset..offset + len][4 + i];
    }
  }

  lemma FirstWord(f: OxmField)
    ensures |Tlv(f)| >= 4 && Tlv(f)[..4] == Be(HeaderWord(f), 4)
  {
    hide Be, HeaderWord, Payload;
  }

  /** The fields of connection tracking, apart from zone and nested actions. */
  lemma CtBodyExact(a: Action)
    requires a.Ct? && ActionFits(a)
    ensures ParseNx(Be(CT, 2) + (CtFixed(a) + EncodeActions(a.actions))) == Ok(a)
       <==> WellFormedZone(a.zone) && ParseActions(EncodeActions(a.actions)) == Ok(a.actions)
  {
    hide Be, ZoneOctets, ZoneOf, EncodeActions, ParseActions, ReadNum, WellFormedZone, ZonePacks;
    var body := CtFixed(a) + EncodeActions(a.actions);
    ParseNxBody(CT, body);
    CtHeader(a, EncodeActions(a.actions));
    ZoneExact(a.zone);
    assert Pow256(2) == 0x1_0000 && Pow256(1) == 0x100;
    UnBe(a.flags, 2);
    UnBe(a.zoneOfsNbits, 2);
    UnBe(a.recircTable, 1);
    UnBe(a.alg, 2);
  }

  lemma CtTree(a: Action, buf: seq<byte>, offset: nat)
    requires a.Ct? && ActionFits(a) && Contained(a) && Has(buf, offset, EncodeAction(a))
    ensures ParseAction(buf, offset) == Ok((a, |EncodeAction(a)|))
       <==> WellFormedZone(a.zone) && ParseActions(EncodeActions(a.actions)) == Ok(a.actions)
  {
    hide ParseAction, ParseNx, NxFrame, CtFixed, EncodeActions, ParseActions, WellFormedZone, ZonePacks, Has;
    NestedFits(a);
    ContainedList(a.actions);
    ContainedSize(a);
    CtBodyExact(a);
    NxFrameParse(CT, CtFixed(a) + EncodeActions(a.actions), buf, offset);
    NothingAppended(CtFixed(a) + EncodeActions(a.actions));
  }

  lemma NestedFits(a: Action)
    requires a.Ct? && ActionFits(a) && Contained(a)
    ensures AllContained(a.actions) && ActionLen(a) < 0x1_0000
  {
    hide EncodeAction;
  }

  // -- trees --------------------------------------------------------------------------

  /** A plain action, a NAT or a clear that can be packed meets its condition; the other
      leaves meet it or not as their own lemmas say. */
  lemma LeafExact(a: Action, buf: seq<byte>, offset: nat)
    requires !a.Ct? && ActionFits(a) && Contained(a) && Has(buf, offset, EncodeAction(a))
    requires ParseAction(buf, offset) == Ok((a, |EncodeAction(a)|))
    ensures WellFormed(a)
  {
    hide ParseAction, Has, Be, Tlv, EncodeSetField, WellFormedOxm, Writable, Fits, RangesFit, PaddingHarmless;
    ContainedSize(a);
    match a
    case SetField(f) => SetFieldTree(f, buf, offset);
    case Foreign(_) => ForeignExact(a, buf, offset);
    case NxUnknown(subtype, data) => UnknownExact(subtype, data, buf, offset);
    case _ =>
  }

  /** Of all action trees that can be packed, with every set-field inside its declared
      length: exactly those read back, at any offset, whose actions all meet their own
      conditions, at every depth. */
  lemma {:induction false} TreeExact(a: Action, buf: seq<byte>, offset: nat)
    requires ActionFits(a) && Contained(a) && Has(buf, offset, EncodeAction(a))
    ensures ParseAction(buf, offset) == Ok((a, |EncodeAction(a)|)) <==> WellFormed(a)
    decreases a, 1
  {
    hide ParseAction, ActionFits, Contained, EncodeAction, Has, WellFormed, WellFormedZone;
    if WellFormed(a) {
      ActionTreeRoundTrip(a, buf, offset);
    } else if a.Ct? {
      NestedFits(a);
      CtTree(a, buf, offset);
      ListExact(a.actions);
      if WellFormedZone(a.zone) && AllWellFormed(a.actions) {
        CtWellFormed(a);
      }
    } else if ParseAction(buf, offset) == Ok((a, |EncodeAction(a)|)) {
      LeafExact(a, buf, offset);
    }
  }

  lemma CtWellFormed(a: Action)
    requires a.Ct? && ActionFits(a) && Contained(a) && WellFormedZone(a.zone) && AllWellFormed(a.actions)
    ensures WellFormed(a)
  {
    hide WellFormedZone, ZonePacks, EncodeAction, ActionLen;
    ContainedSize(a);
    NestedFits(a);
  }

  lemma {:induction false} ListExact(actions: seq<Action>)
    requires AllContained(actions)
    ensures ParseActions(EncodeActions(actions)) == Ok(actions) <==> AllWellFormed(actions)
    decreases actions, 0
  {
    hide ParseAction, ActionFits, Contained, EncodeAction, ActionLen, WellFormed;
    if actions != [] {
      var s, first, rest := EncodeActions(actions), EncodeAction(actions[0]), EncodeActions(actions[1..]);
      ContainedSize(actions[0]);
      assert s[0..0 + |first|] == first;
      TreeExact(actions[0], s, 0);
      DeclaredLen(actions[0], s, 0);
      assert Drop(s, |first|) == rest;
      ListExact(actions[1..]);
      assert actions == [actions[0]] + actions[1..];
      FirstAndRest(ParseAction(s, 0), ParseActions(rest), actions);
    }
  }

  lemma FirstAndRest(p: Result<(Action, nat)>, more: Result<seq<Action>>, actions: seq<Action>)
    requires actions != []
    ensures p.Ok? ==>
              (Collected([p.value.0], more) == Ok(actions) <==> p.value.0 == actions[0] && more == Ok(actions[1..]))
  {
    if p.Ok? && more.Ok? {
      assert ([p.value.0] + more.value)[1..] == more.value && ([p.value.0] + more.value)[0] == p.value.0;
      assert actions == [actions[0]] + actions[1..];
    }
  }

  // -- a set-field that runs over ---------------------------------------------------------

  /** A masked Nicira field: the last four octets of the TLV, its mask, stand behind the
      length the action declares. */
  const OVERRUN := OxmField(Exp(NX_ID, EXP_BASE), [0, 0, 0, 0], Some([0, 11, 0, 16]))

  const LUCKY := Ct(0, Immediate, 0, 0, 0, [SetField(OVERRUN), Plain(11, [])])

  /** Without that bound a tree can come back by accident: the mask that runs over is
      read as the head of the action that follows, which swallows the real one. */
  lemma LuckyTree()
    ensures ActionFits(LUCKY) && !WellFormed(LUCKY)
    ensures ParseAction(EncodeAction(LUCKY), 0) == Ok((LUCKY, |EncodeAction(LUCKY)|))
  {
    hide ParseAction, ParseNx, ParseActions, EncodeSetField, WellFormedOxm, Writable;
    OverrunOctets();
    var list := EncodeActions(LUCKY.actions);
    LuckyList();
    var data := CtFixed(LUCKY) + list;
    var s := NxFrame(CT, data);
    assert s[0..0 + |s|] == s;
    NxFrameParse(CT, data, s, 0);
    assert data + Zeros(4) == CtFixed(LUCKY) + (list + Zeros(4));
    LuckyBody(list + Zeros(4));
    LuckyFits();
  }

  lemma LuckyFits()
    requires |EncodeActions(LUCKY.actions)| == 28
    ensures ActionFits(LUCKY) && !WellFormed(LUCKY)
  {
    hide Writable, WellFormedOxm, EncodeActions, PaddingHarmless;
    OverrunOctets();
    assert LUCKY.actions[0] == SetField(OVERRUN) && LUCKY.actions[0] in LUCKY.actions;
    assert !WellFormed(SetField(OVERRUN));
    assert ActionFits(Plain(11, [])) by { PlainFits(); }
    assert ActionFits(SetField(OVERRUN));
  }

  lemma PlainFits()
    ensures ActionFits(Plain(11, []))
  {
    PlainSize(11);
    assert FormatOf(11) == [Pad(4)] && [Pad(4)][1..] == [];
    assert Fits([], []);
  }

  lemma OverrunOctets()
    ensures WellFormedOxm(OVERRUN) && Writable(OVERRUN) && |Tlv(OVERRUN)| == 16 && !PaddingHarmless(OVERRUN)
    ensures EncodeSetField(OVERRUN) == SetFieldHead(OVERRUN) + Tlv(OVERRUN)
    ensures Tlv(OVERRUN)[12..] == [0, 11, 0, 16]
    ensures RoundUp8(4 + SetFieldPayload(OVERRUN)) == 16
  {
    hide Be;
  }

  lemma LuckyBody(rest: seq<byte>)
    requires ParseActions(rest) == Ok(LUCKY.actions)
    ensures ParseNx(Be(CT, 2) + (CtFixed(LUCKY) + rest)) == Ok(LUCKY)
  {
    hide Be, ZoneOctets, ZoneOf, ParseActions, ReadNum;
    var body := CtFixed(LUCKY) + rest;
    ParseNxBody(CT, body);
    CtHeader(LUCKY, rest);
    ZoneExact(Immediate);
    assert Pow256(2) == 0x1_0000 && Pow256(1) == 0x100;
    UnBe(0, 2);
    UnBe(0, 1);
  }

  lemma LuckyList()
    ensures |EncodeActions(LUCKY.actions)| == 28
    ensures ParseActions(EncodeActions(LUCKY.actions) + Zeros(4)) == Ok(LUCKY.actions)
  {
    hide ParseAction, EncodeSetField, Tlv, Be;
    OverrunOctets();
    var plain := EncodeAction(Plain(11, []));
    assert plain == Be(11, 2) + Be(8, 2) + Zeros(4) by { PlainOctets(); }
    assert LUCKY.actions[1..] == [Plain(11, [])] && [Plain(11, [])][1..] == [];
    assert EncodeActions([Plain(11, [])]) == plain + [] == plain;
    var list := EncodeActions(LUCKY.actions);
    assert LUCKY.actions[0] == SetField(OVERRUN);
    assert EncodeAction(SetField(OVERRUN)) == EncodeSetField(OVERRUN);
    assert list == EncodeSetField(OVERRUN) + plain;
    var rest := list + Zeros(4);
    assert rest == SetFieldHead(OVERRUN) + Tlv(OVERRUN) + (plain + Zeros(4));
    FirstLucky(rest, plain + Zeros(4));
    var second := Drop(rest, 16);
    assert second == [0, 11, 0, 16] + (plain + Zeros(4));
    SecondLucky(second);
    assert Drop(second, 16) == [];
    assert ParseActions([]) == Ok([]);
    assert [Plain(11, [])] + [] == [Plain(11, [])];
    assert [SetField(OVERRUN)] + [Plain(11, [])] == LUCKY.actions;
  }

  lemma PlainOctets()
    ensures EncodeAction(Plain(11, [])) == Be(11, 2) + Be(8, 2) + Zeros(4)
  {
    hide Be;
    assert FormatOf(11) == [Pad(4)] && Size([Pad(4)]) == 4;
    assert [Pad(4)][1..] == [];
    assert Pack([Pad(4)], []) == Zeros(4) + [];
  }

  lemma FirstLucky(rest: seq<byte>, tail: seq<byte>)
    requires rest == SetFieldHead(OVERRUN) + Tlv(OVERRUN) + tail
    ensures ParseAction(rest, 0) == Ok((SetField(OVERRUN), 16))
  {
    hide Be, Tlv, OxmParse, ToUser, ReadNum;
    OverrunOctets();
    PlainFormatLimits();
    assert rest == Be(SET_FIELD, 2) + Be(16, 2) + (Tlv(OVERRUN) + tail);
    assert rest[0..0 + |rest|] == rest;
    ReadTag(SET_FIELD, 16, Tlv(OVERRUN) + tail, rest, 0);
    HasSplit(rest, 4, Tlv(OVERRUN), tail);
    OxmRoundTrip(OVERRUN, rest, 4);
  }

  lemma SecondLucky(s: seq<byte>)
    requires |s| == 16 && s[..4] == [0, 11, 0, 16]
    ensures ParseAction(s, 0) == Ok((Plain(11, []), 16))
  {
    hide OxmParse, ToUser, ParseNx, Unpack;
    assert s[0..0 + 2] == s[..4][..2] == [0, 11] && s[2..2 + 2] == s[..4][2..] == [0, 16];
    assert Un([0, 11]) == 11 && Un([0, 16]) == 16 by {
      assert [0, 11][..1] == [0] && [0, 16][..1] == [0] && Un([0]) == 0;
    }
    assert ReadNum(s, 0, 2) == Ok(11) && ReadNum(s, 0 + 2, 2) == Ok(16);
    PlainSize(11);
    NothingUnpacked(s[4..4 + 4]);
  }

  lemma NothingUnpacked(s: seq<byte>)
    requires |s| == 4
    ensures Size(FormatOf(11)) == 4 && Unpack(FormatOf(11), s) == []
  {
    PlainSize(11);
    assert FormatOf(11) == [Pad(4)] && [Pad(4)][1..] == [];
    assert Unpack([], s[4..]) == [];
  }
}
