# c65of: wire format, channel and packet library

c65of is an OpenFlow 1.3 controller library. This project models four parts of it
and proves what they promise.

* **The OpenFlow wire format** (`Bytes`, `Layout`, `Oxm`, `Match`, `Canonical`,
  `Actions`, `ActionRoundTrip`, `SetFieldExact`, `ActionCodec`, `ActionExact`, `Lists`,
  `Messages`, `MessageCodec`, `Stream`, `TableFeatures`). A structure has one encoding
  function and one parsing function. The serializers, which write into a growing buffer at
  offsets and patch lengths afterwards, are methods proved to write exactly that
  encoding and to leave every other octet alone; the parsing loops are methods proved
  to compute that parsing function. On top of this: parsing inverts serializing, at
  any offset, for every action tree, every message and every list of messages cut
  into chunks anywhere.
* **The channel and the application runtime** (`EventLoop`, `SendQueue`, `Handshake`,
  `DpSet`). Each is a step relation over which the theorems hold for every
  interleaving, and a class whose methods are proved to be steps, or runs of steps, of
  that relation.
* **Checksums** (`InternetChecksum`, `Fletcher`), against independent arithmetic
  definitions and with the exact bounds up to which the code is right.
* **Packet headers** (`PacketStack`, `SourceRoute`, `Mldv2`, `Lldp`).

Field values and addresses are the octets of their wire form, and integers are
bounded where the code packs them into fields of a fixed width. Python exceptions are
the errors of `Bytes.Result`. A loop that follows a declared length of zero stays
where it is for ever; its parsing function yields `Endless`, the outcome of a message
is then `Hangs`, and every theorem about results covers that outcome too. The message
classes not modelled field by field are read by a parser the framing theorems know
nothing about: it may make a message of a frame, raise, or not return; and so are the
packet classes not modelled.

Some promises turn out not to hold of the code everywhere. For each there is a lemma at
an input that fails, and the exact condition under which the code keeps it.

* A call of the stream parser that raises takes the messages it had already found with
  it. So a message in front of a frame of an unknown version is dispatched if it came in
  an earlier chunk, and lost if it came in the same one (`Stream.ReplyLost`). Every
  chunking of a stream delivers the same messages if and only if the stream has no frame
  that raises or loops, or no message stands ahead of it (`Stream.DeliveryExact`).
* A set-field action sizes its padding without the experimenter header, so the padding
  can overwrite the value. It reads back if and only if the padding covers nothing but
  zero octets inside the declared length (`SetFieldExact.SetFieldExactly`), which every
  non-experimenter field meets, an unmasked `tcp_flags` never, and a masked one only if
  value and mask are zero.
* A zone source given as an integer, held in an experimenter field or in a field of
  unknown width packs, but does not read back; all others do (`Actions.ZoneExact`). A
  connection tracking action reads back if and only if its zone does
  (`ActionRoundTrip.CtExact`).
* A Nicira action of unknown subtype takes its own padding for data, so it reads back if
  and only if its data ends on the boundary (`ActionRoundTrip.UnknownExact`); a plain
  experimenter action if and only if its experimenter is not Nicira
  (`ActionRoundTrip.ForeignExact`). Of all action trees that can be packed and whose
  set-fields do not run over the length they declare, exactly those read back whose
  actions meet these conditions at every depth (`ActionExact.TreeExact`); a set-field
  that does run over can make a tree come back by accident (`ActionExact.LuckyTree`).
* Matches sort by OXM type, or by experimenter id alone for experimenter fields. The
  wire form is independent of the order given if and only if the fields agree key by
  key (`Canonical.WireFormOrder`); two fields of one experimenter keep the order they
  were given in (`Canonical.OnfFieldsKeepGivenOrder`).
* An ARP packet of nothing but zero octets is taken for padding and not decoded
  (`PacketStack.ZeroArpLost`). An IPv4 total length given by the caller and too large
  takes the padding of the frame into the payload (`PacketStack.PaddingBecomesData`), one
  too small cuts it. A stack decodes to its own headers if and only if neither happens
  (`PacketStack.StackRoundTrip`).
* The checksum of an ICMPv6 message is computed with a length that leaves out what is
  serialized behind the message, and with the next header field of the IPv6 header, which
  names the first extension header if there is one. A receiver accepts it if and only if
  the length left out plus 58 minus that field is a multiple of 65535
  (`Mldv2.ReceiverExact`); so not with one octet behind the message, nor behind a routing
  header (`Mldv2.ChecksumRefused`). The checksum of an ICMP message does not cover what
  is serialized behind it: a receiver accepts both if and only if those octets sum to a
  multiple of 65535 (`PacketStack.IcmpReceiver`).
* Counts given by the caller in an MLDv2 report are written as they are. The report reads
  back if and only if they are left zero or right, or announce more at its very end than
  follows (`Mldv2.ReportExact`).
* A table name longer than 32 octets is cut and NULs at its end are stripped, so tables
  read back with their names if and only if no name is or has either
  (`TableFeatures.TablesExact`).
* A source route header whose size is given rather than left zero reads back if and only
  if the size makes the parser's loop run once for every address but the last
  (`SourceRoute.SourceRouteExact`). The padding its length counts is not written, so the
  length is that of the octets written if and only if there is none
  (`SourceRoute.LengthExact`).

The docstring of the Fletcher checksum names RFC 1008 and says that the octets are
written into the data; the algorithm is that of Annex B of RFC 905, and the octets are
written into a copy. Two folds of the Internet checksum are exact up to 131076
octets and no further.

## Model

| member | source | states |
|---|---|---|
| `Bytes.RoundUp8` | c65of/ofproto/base.py:47-49 | the multiple of eight that is at least the length and less than eight above it |
| `Bytes.UnBe` | c65of/codec.py:221-232 | packing a number into a big-endian field it fits and reading it back gives the number |
| `Bytes.BeUn` | c65of/codec.py:234-240 | reading any field gives a number that fits it, and packing that number gives the octets back |
| `Bytes.ByteBuffer.PackInto` | c65of/codec.py:356-361 | a write at an offset grows a short buffer with zeros, puts its octets there and leaves all octets before the offset as they were |
| `Bytes.OverlayFrame` | c65of/codec.py:356-361 | what was written stands at the offset; every octet before and behind it is unchanged |
| `Bytes.OverlayTwice` | c65of/codec.py:356-361 | a second write inside or right behind a first one amounts to one write of the patched structure |
| `Bytes.OverlayBefore` | c65of/codec.py:356-361 | writing a header in front of a body already written is writing both at once |
| `Layout.UnpackPack` | c65of/codec.py:221-240 | for every format and every values that fit it, unpacking the packed octets gives the values |
| `Layout.UnpackFits` | c65of/codec.py:234-240 | whatever octets are read, the values fit the format they were read with |
| `Layout.UnpackFromHas` | c65of/codec.py:234-240 | a packed structure reads back wherever in a buffer it stands |
| `Layout.ReadTagged` | c65of/ofproto/base.py:337-365 | type, length and fixed part of a tagged structure read back at any offset |
| `Oxm.Registered` | c65of/ofproto/oxm.py:127-177 | every field number in the table has a width of 1 to 16 octets |
| `Oxm.OxmSerialize` | c65of/ofproto/oxm.py:347-376 | writes the TLV in place and returns its length; a mask of another length than the value, or an experimenter field nobody registered, is refused with nothing written |
| `Oxm.ParseHeader` | c65of/ofproto/oxm.py:300-326 | a header that is accepted announces a value of at least one octet and a TLV of 5 to 259 |
| `Oxm.OxmParse` | c65of/ofproto/oxm.py:335-344 | a TLV that is accepted covers 5 to 259 octets, so a loop over TLVs always advances |
| `Oxm.ParseHeaderTlv` | c65of/ofproto/oxm.py:300-358 | the header of a plain, experimenter or EXT-256 field, masked or not, reads back as its number, header length, mask flag and widths |
| `Oxm.OxmRoundTrip` | c65of/ofproto/oxm.py:260-376 | for every registered or numbered field, masked or not, parsing at any offset inverts serializing, and converting to user form changes nothing |
| `Oxm.OxmExact` | c65of/ofproto/oxm.py:260-376 | of all fields that can be written, exactly those with a value of their field's width, no empty mask and a number that is not read as an experimenter's come back |
| `Oxm.ToUser` | c65of/ofproto/oxm.py:260-278 | conversion keeps number, value and presence of the mask, whenever it succeeds |
| `Oxm.ParsedFieldFits` | c65of/ofproto/oxm.py:260-344 | a field parsed from any buffer that holds it whole, and accepted, is one that serializes and reads back |
| `Match.SerializeMatch` | c65of/ofproto/base.py:281-293 | fields, header and padding written in place are the encoding at the offset; the length returned is what it covers, a multiple of eight |
| `Match.ParseMatchLoop` | c65of/ofproto/base.py:296-310 | the parsing loop ends on every input and computes the match parsing function |
| `Match.FieldsBounded` | c65of/ofproto/base.py:301-307 | on every input the field loop comes to an end, each field but the last taking at least five octets of the length |
| `Match.MatchRoundTrip` | c65of/ofproto/base.py:281-310 | every match reads back field for field with its length, at any offset, its size the length rounded up to eight |
| `Match.EncodeInjective` | c65of/ofproto/base.py:281-310 | two well-formed matches have the same wire form if and only if they are the same match |
| `Canonical.AndBit` | c65of/ofproto/oxm.py:292-293 | the conjunction of two octets has exactly the bits both have |
| `Canonical.NormalizeWellFormed` | c65of/ofproto/oxm.py:286-297 | normalizing keeps number and mask, cuts the value to its mask, keeps an unmasked field as it is and is idempotent |
| `Canonical.NoBitOutsideMask` | c65of/ofproto/oxm.py:292-293 | a bit of a normalized value is set exactly where both the given value and the mask have it |
| `Canonical.SortOrdered` | c65of/ofproto/base.py:239 | sorting puts the fields in the order of their keys |
| `Canonical.SortOfKey` | c65of/ofproto/base.py:239 | sorting is stable: fields of one key keep the order given |
| `Canonical.OrderedUnique` | c65of/ofproto/base.py:239 | an ordered list is determined by its fields key by key |
| `Canonical.SortSameIff` | c65of/ofproto/base.py:239 | two lists sort to the same list if and only if they have the same fields, in the same order, for every key |
| `Canonical.SortIgnoresOrder` | c65of/ofproto/base.py:239 | with distinct keys every order of the same fields sorts to one list |
| `Canonical.SortSeesOrder` | c65of/ofproto/base.py:239 | with two different fields of one key there is an order of the same fields that sorts differently |
| `Canonical.BuildWellFormed` | c65of/ofproto/base.py:230-240 | a match given well-formed fields is built, and holds their normal forms in key order, all well-formed |
| `Canonical.RebuildIsIdentity` | c65of/ofproto/base.py:230-250 | building a match again from its own items changes nothing |
| `Canonical.WireFormOrder` | c65of/ofproto/base.py:230-293 | two matches have the same wire form if and only if their normalized fields agree key by key |
| `Canonical.WireFormCanonical` | c65of/ofproto/base.py:221-240 | with distinct keys, every order of the same fields builds one and the same match |
| `Canonical.OnfFieldsKeepGivenOrder` | c65of/ofproto/base.py:239 | tcp_flags and actset_output, which share an experimenter id, give two wire forms for the two orders |
| `Actions.ZoneExact` | c65of/ofproto/nx.py:159-179 | of all zones that can be packed, exactly an immediate zone and a registered field without an experimenter read back from the four octets |
| `Actions.TcpFlagsZoneLost` | c65of/ofproto/nx.py:159-179 | a zone held in tcp_flags can be packed and does not read back |
| `Actions.RangesRoundTrip` | c65of/ofproto/nx.py:277-296 | any subset of the NAT ranges reads back from its bitmap and octets, whatever octets follow |
| `Actions.ActionAligned` | c65of/ofproto/nx.py:119-134 | the declared length of every action is a positive multiple of eight, whatever the action holds |
| `ActionRoundTrip.PlainRoundTrip` | c65of/ofproto/base.py:346-365 | an action that is its fixed part reads back at any offset with the length written |
| `ActionRoundTrip.SetFieldRoundTrip` | c65of/ofproto/base.py:568-586 | set-field over any field whose padding does no harm, masked or not, reads back at any offset with the padded length |
| `ActionRoundTrip.ForeignExact` | c65of/ofproto/nx.py:91-102 | a plain experimenter action reads back if and only if its experimenter is not Nicira |
| `ActionRoundTrip.NiciraPlainLost` | c65of/ofproto/nx.py:91-117 | a plain experimenter action naming Nicira does not read back |
| `ActionRoundTrip.NxFrameParse` | c65of/ofproto/nx.py:91-134 | a framed Nicira action reaches its subtype with exactly its data and its padding |
| `ActionRoundTrip.UnknownExact` | c65of/ofproto/nx.py:109-156 | for any subtype and data: the action reads back if and only if the subtype has no class and the data needs no padding |
| `ActionRoundTrip.UnknownLost` | c65of/ofproto/nx.py:109-156 | an action of unknown subtype without data does not read back |
| `ActionRoundTrip.NatParse` | c65of/ofproto/nx.py:276-296 | NAT with any subset of ranges reads back from its body, whatever padding follows |
| `ActionRoundTrip.CtParse` | c65of/ofproto/nx.py:206-222 | the body of connection tracking, its nested actions reading back, reads back if and only if the zone does |
| `ActionRoundTrip.CtPadding` | c65of/ofproto/nx.py:119-134 | connection tracking never has padding, since its nested actions are aligned; so its loop meets no padding |
| `ActionRoundTrip.ListAligned` | c65of/ofproto/nx.py:218-222 | a list of actions covers a multiple of eight octets |
| `ActionRoundTrip.CtExact` | c65of/ofproto/nx.py:91-222 | every connection tracking action that can be packed, around nested actions of any depth that read back, reads back at any offset if and only if its zone does |
| `ActionRoundTrip.ActionTreeRoundTrip` | c65of/ofproto/nx.py:91-222 | every action tree of actions meeting their exact conditions, connection tracking nested to any depth, reads back at any offset and declares exactly the octets written |
| `ActionRoundTrip.ActionListRoundTrip` | c65of/ofproto/nx.py:207-216 | the loop that cuts actions off the front ends exactly behind the last one and gives the list back |
| `ActionRoundTrip.ActionsAtRoundTrip` | c65of/ofproto/base.py:669-680 | the loop that walks a buffer to an end offset gives the list back |
| `SetFieldExact.SetFieldExactly` | c65of/ofproto/base.py:568-586 | over all fields, experimenter or not: set-field reads back if and only if its padding lies inside the declared length and covers only zero octets of the TLV; non-experimenter fields always do |
| `SetFieldExact.TcpFlagsLost` | c65of/ofproto/base.py:574-586 | set-field of tcp_flags without a mask never reads back, whatever its value |
| `SetFieldExact.TcpFlagsMasked` | c65of/ofproto/base.py:574-586 | with a mask it reads back if and only if value and mask are zero |
| `SetFieldExact.ParsedIsTlv` | c65of/ofproto/oxm.py:335-344 | octets that parse as a field behind that field's own header word are that field's TLV |
| `ActionCodec.SerializeAction` | c65of/ofproto/base.py:359-365 | the serializer of every action writes exactly its encoding in place and returns its declared length |
| `ActionCodec.SerializeSetField` | c65of/ofproto/base.py:575-586 | header, TLV and padding are three writes that come to the encoding, experimenter fields included |
| `ActionCodec.SerializeActionList` | c65of/ofproto/nx.py:218-222 | nested actions go into a buffer of their own, which then holds their encodings end to end |
| `ActionCodec.SerializeNx` | c65of/ofproto/nx.py:119-134 | frames a body with type, padded length, experimenter and subtype in one write |
| `ActionCodec.SerializeNatBody` | c65of/ofproto/nx.py:288-296 | the loop over the ranges builds bitmap and octets of exactly those supplied |
| `ActionCodec.ParseRangesLoop` | c65of/ofproto/nx.py:277-286 | the range loop computes the range parsing function on every input, refused addresses included |
| `ActionCodec.ParseActionsLoop` | c65of/ofproto/nx.py:207-216 | the nested action loop computes its parsing function on every input |
| `ActionCodec.ParseActionsAtLoop` | c65of/ofproto/base.py:670-680 | the action loop of instructions, buckets and packet out computes its parsing function on every input |
| `ActionCodec.WellFormedFits` | c65of/ofproto/base.py:359-365 | every action that reads back can be serialized without an error |
| `ActionExact.DeclaredLen` | c65of/ofproto/base.py:337-357 | whatever an action's octets are read as, reading consumes the length the action declares |
| `ActionExact.SetFieldTree` | c65of/ofproto/base.py:568-586 | a set-field inside its declared length that reads back at any offset holds a field that reads back, and harmless padding |
| `ActionExact.ListExact` | c65of/ofproto/nx.py:207-216 | a list of such actions reads back through the loop if and only if each of its actions meets its condition |
| `ActionExact.TreeExact` | c65of/ofproto/nx.py:91-222 | of all action trees that can be packed, every set-field inside its declared length, exactly those read back at any offset whose actions meet their conditions at every depth |
| `ActionExact.LuckyTree` | c65of/ofproto/base.py:575-586 | beyond that: a connection tracking action reads back although a set-field in it does not, its overrun taken for the head of the next action |
| `Lists.ItemsRoundTrip` | c65of/ofproto/multipart.py:144-158 | structures that read back one by one read back as a list, and the loop ends exactly behind the last |
| `Lists.ParseItemsLoop` | c65of/ofproto/multipart.py:144-158 | the loop that advances by declared lengths computes its parsing function on every input |
| `Lists.FrontsRoundTrip` | c65of/ofproto/multipart.py:378-385 | structures that read back from the front read back as a list through the `while rest` loop |
| `Lists.ParseFrontsLoop` | c65of/ofproto/multipart.py:378-385 | the `while rest` loop computes its parsing function on every input |
| `Lists.FrontsTerminate` | c65of/ofproto/multipart.py:378-385 | if the item parser always cuts something off, the loop ends on every octet string |
| `Messages.InstructionRoundTrip` | c65of/ofproto/base.py:601-690 | every instruction reads back at any offset and declares exactly the octets written |
| `Messages.BandReadable` | c65of/ofproto/messages.py:597-630 | every meter band reads back at any offset and declares exactly the octets written |
| `Messages.BucketReadable` | c65of/ofproto/messages.py:509-541 | every bucket reads back at any offset and declares exactly the octets written |
| `Messages.BucketNeedsNoPadding` | c65of/ofproto/messages.py:525-530 | the rounding up of a bucket's length changes nothing |
| `Messages.FlowModRoundTrip` | c65of/ofproto/messages.py:467-482 | a flow mod with any match and instructions reads back |
| `Messages.GroupModRoundTrip` | c65of/ofproto/messages.py:557-569 | a group mod with any buckets reads back |
| `Messages.PacketOutRoundTrip` | c65of/ofproto/messages.py:404-440 | a packet out with any actions and data reads back, empty data as none |
| `Messages.MeterModRoundTrip` | c65of/ofproto/messages.py:650-662 | a meter mod with any bands reads back |
| `Messages.MessageRoundTrip` | c65of/ofproto/base.py:121-201 | every message modelled, serialized and parsed through the dispatch on its type, gives the message and its transaction id back |
| `MessageCodec.SerializeInstruction` | c65of/ofproto/base.py:682-690 | writes exactly the instruction's encoding in place and returns its length |
| `MessageCodec.SerializeBucket` | c65of/ofproto/messages.py:525-541 | for any actions that can be packed: each is written where the one before says it ended, the header with the rounded length is patched in front, and that length returned |
| `MessageCodec.BucketWritten` | c65of/ofproto/messages.py:525-541 | for well-formed actions that comes to the bucket's encoding, and the length returned to the octets written |
| `MessageCodec.PutActionsEncode` | c65of/ofproto/messages.py:527-529 | well-formed actions written in place lie end to end, and their lengths add up to the octets written |
| `MessageCodec.SerializeFlowMod` | c65of/ofproto/messages.py:478-482 | for any match and instructions that can be packed: appends fixed part, match and instructions, each at the offset the one before ended |
| `MessageCodec.SerializeBuckets` | c65of/ofproto/messages.py:566-569 | for any buckets that can be packed: each is written where the one before says it ended |
| `MessageCodec.PutBucketsEncode` | c65of/ofproto/messages.py:566-569 | well-formed buckets so written lie end to end |
| `MessageCodec.SerializeBands` | c65of/ofproto/messages.py:659-662 | appends the encodings of all bands end to end |
| `MessageCodec.SerializePacketOut` | c65of/ofproto/messages.py:426-440 | for any actions that can be packed: appends the header with the length of the actions, the actions, and the data if any |
| `MessageCodec.SerializeMessage` | c65of/ofproto/base.py:136-153 | for any message that can be packed: yields the body as its parts are laid with the header patched in last; or the assertion error, exactly for data sent along with a switch buffer and for an echo reply without data |
| `MessageCodec.WellFormedWritten` | c65of/ofproto/base.py:136-153 | every message that reads back can be packed, and what is written is its encoding |
| `Stream.StreamParser.Parse` | c65of/packet/stream_parser.py:30-40 | feeding a chunk is parsing the held octets and the chunk together; the octets not yet parsed are held |
| `Stream.TryParseStable` | c65of/controller.py:68-84 | a decision about a frame is never revised by octets that come later |
| `Stream.ParseAllSplit` | c65of/packet/stream_parser.py:30-40 | feeding a buffer and then more is feeding both at once |
| `Stream.ReceiveLoop` | c65of/controller.py:230-252 | the receive loop parses chunk by chunk and dispatches what each call returns, until one raises or does not return |
| `Stream.ChunkingInvisible` | c65of/controller.py:230-252 | on any stream without a frame that raises or loops, the messages dispatched, all of them in order, and the octets held do not depend on the chunking |
| `Stream.DeliveredIsPrefix` | c65of/controller.py:230-252 | on any stream whatever, the connection's fate does not depend on the chunking, and what is dispatched is a prefix of the messages ahead of the first bad frame |
| `Stream.DeliveryExact` | c65of/packet/stream_parser.py:30-40 | every chunking dispatches the same messages if and only if the stream has no frame that raises or loops, or no message stands ahead of it |
| `Stream.BadStream` | c65of/packet/stream_parser.py:30-40 | a bad stream cut in front of its bad frame dispatches every message ahead of it, and in one chunk none |
| `Stream.LostWithItsChunk` | c65of/controller.py:230-252 | the messages of the chunk in which the bad frame comes complete are lost, those of the chunks before it are dispatched, and the chunks behind it are not read |
| `Stream.ReplyLost` | c65of/packet/stream_parser.py:30-40 | a barrier reply before a frame of version 5 is dispatched from two chunks and lost from one |
| `Stream.OctetsAccounted` | c65of/controller.py:68-84 | what is held is the tail of what was fed, and every frame took at least eight octets |
| `Stream.MessageFramed` | c65of/controller.py:68-84 | a message with anything behind it is framed as that message and exactly that rest, whatever the parsers of the other classes do |
| `Stream.StreamRoundTrip` | c65of/controller.py:230-252 | any list of messages, serialized back to back and cut anywhere, is dispatched as that list with nothing held back |
| `TableFeatures.SerializeTable` | c65of/ofproto/multipart.py:1104-1123 | yields the table's fixed part with its total length, then its properties, each padded behind the length it declares; or the assertion error, exactly if some field id is of the experimenter class |
| `TableFeatures.PropRoundTrip` | c65of/ofproto/multipart.py:305-333 | every property, instruction, action, field, next-table, experimenter or unknown, reads back from the front and is skipped with its padding |
| `TableFeatures.BodyRoundTrip` | c65of/ofproto/multipart.py:351-518 | the body of every property class reads back without its padding |
| `TableFeatures.TableReadable` | c65of/ofproto/multipart.py:1088-1123 | every table with any mix of properties and a name that fits reads back at any offset and declares exactly the octets written |
| `TableFeatures.TablesRoundTrip` | c65of/ofproto/multipart.py:143-158 | a list of tables with names that fit reads back through the body loop of the reply |
| `TableFeatures.NameExact` | c65of/ofproto/multipart.py:1094-1101 | a name survives packing, cutting and stripping if and only if it has at most 32 octets and does not end in NUL |
| `TableFeatures.TablesExact` | c65of/ofproto/multipart.py:143-158 | whatever lengths and names they are given, tables read back with the lengths filled in and the names cut and stripped; with their own names if and only if all of them fit |
| `TableFeatures.NulNameLost` | c65of/ofproto/multipart.py:1094-1101 | a name of one NUL does not read back |
| `TableFeatures.TableParserTerminates` | c65of/ofproto/multipart.py:215-333 | on every octet string the id, property and table parsers come to an end |
| `EventLoop.StepKeepsInv` | c65of/app.py:157-175 | no step of any thread loses, repeats or reorders an event; a loop waiting on an empty queue has no sentinel outstanding |
| `EventLoop.EveryInterleaving` | c65of/app.py:157-175 | in every interleaving events are dispatched at most once in queue order, all events queued before `stop` are dispatched before the loop exits, and once the sentinel is queued the loop is never blocked |
| `EventLoop.StopDrains` | c65of/app.py:157-175 | from any reachable state with the sentinel queued, the dispatch thread on its own exits within a bounded number of steps, having dispatched everything |
| `EventLoop.HandlersExactly` | c65of/app.py:139-149 | an event reaches every handler interested in its phase, as often as it was registered, and no other |
| `EventLoop.HandlersInOrder` | c65of/app.py:139-149 | handlers are chosen one by one and keep the order of registration |
| `EventLoop.OFApp.RegisterHandler` | c65of/app.py:125-127 | the handler is added last for its class, the others stay |
| `EventLoop.OFApp.Post` | c65of/app.py:177-187 | the event is queued last with its phase: a producer's step |
| `EventLoop.OFApp.RequestStop` | c65of/app.py:157-162 | the flag is cleared and the sentinel queued last: the two steps of a stop |
| `EventLoop.OFApp.Dispatch` | c65of/app.py:171-175 | calls every handler the event reaches, in order |
| `EventLoop.OFApp.RunEventLoop` | c65of/app.py:166-175 | a run of steps of the dispatch thread: it calls the handlers of every queued event in queue order, past any sentinel, until the queue is empty; then it ends if the flag is cleared and waits if not |
| `SendQueue.StepKeepsInv` | c65of/controller.py:150-228 | no step of any thread lets the writer skip, repeat or reorder octets or pass a terminator |
| `SendQueue.WrittenIsPrefix` | c65of/controller.py:211-228 | in every interleaving, socket errors included, the octets written are a prefix of the queue's history and none stood behind the first terminator |
| `SendQueue.WriterStopsAtTerminator` | c65of/controller.py:211-228 | without a socket error the writer stops exactly at the first sentinel or closing buffer, everything ahead of it written |
| `SendQueue.WriterNotStuck` | c65of/controller.py:211-228 | with a terminator in the queue the writer always has a step to take |
| `SendQueue.HelloFailedError` | c65of/controller.py:190-204 | the error of `hello_failed` is written after everything ahead of it, if no terminator precedes it |
| `SendQueue.SendMayBeLost` | c65of/controller.py:169-176 | a `send` that found the queue open may still never be written: there is a run, for any octets |
| `SendQueue.Channel.Send` | c65of/controller.py:169-176 | true exactly if the channel is open, with the buffer queued last: the two steps of a send |
| `SendQueue.Channel.Close` | c65of/controller.py:150-157 | queues the sentinel on an open channel and changes nothing on a closed one |
| `SendQueue.Channel.HelloFailed` | c65of/controller.py:190-204 | queues the error as a closing buffer, and the sentinel behind it |
| `SendQueue.Channel.SendLoop` | c65of/controller.py:211-228 | a run of the writer's steps: writes the octets up to and including the first terminator and gives the queue up; without a terminator writes everything and waits |
| `Handshake.LatestIsLast` | c65of/controller.py:269-275 | the entry looked up for a port number is the one behind which no other has that number |
| `Handshake.LastWinsAdd` | c65of/controller.py:273-275 | adding the ports of one part keeps the map the last-wins union of all changes |
| `Handshake.StepKeepsInv` | c65of/controller.py:140-148 | whatever step comes, phase, datapath id and ports stay what the published log says they are |
| `Handshake.HandleKeepsInv` | c65of/controller.py:541-556 | a port status handled by the handshake application keeps that too, and is only handled once MAIN was reached |
| `Handshake.StampAt` | c65of/controller.py:279-288 | every message is stamped with the phase last published before it, except the one that completes the handshake: it stands right behind the change to MAIN and is stamped CONFIG |
| `Handshake.MainOnlyByPortDescription` | c65of/controller.py:254-288 | MAIN is reached only by a port description reply without REPLY_MORE received under CONFIG; then `ports` holds what was last set since the last features reply, the first time from those parts alone; that reply is stamped CONFIG and the next message MAIN |
| `Handshake.LogExplainsChannel` | c65of/controller.py:254-288 | over every run the log alone determines phase, id, ports and every stamp |
| `Handshake.Datapath.SetPhase` | c65of/controller.py:140-148 | moves the phase and publishes it, unless it is the current one |
| `Handshake.Datapath.AbsorbMessage` | c65of/controller.py:254-277 | a features reply sets the id and forgets the ports; a part under CONFIG adds its ports one by one, the last part moves to MAIN; nothing else changes anything |
| `Handshake.Datapath.DispatchMessage` | c65of/controller.py:279-288 | absorbs first and publishes with the phase read before |
| `Handshake.Datapath.HandleQueued` | c65of/controller.py:541-556 | a port status stamped MAIN sets or drops its port, a missing one without complaint, and is published |
| `DpSet.StepKeepsInv` | c65of/dpset.py:136-206 | every connect, disconnect and port change keeps `dps` and `port_state` on the same ids and in step with what was published |
| `DpSet.EveryRun` | c65of/dpset.py:136-206 | over every run `dps` and `port_state` have the same keys, a connection is filed under its id, and the notices add up, without contradiction, to the ports held |
| `DpSet.LateDeadIgnored` | c65of/dpset.py:158-167 | the DEAD of a replaced connection changes nothing |
| `DpSet.SupersededAreClosed` | c65of/dpset.py:136-156 | the connections closed are exactly those a reconnect has superseded, and the one held for an id is the last announced |
| `DpSet.MilestonesAreRounds` | c65of/dpset.py:136-167 | the notices of every datapath are rounds of enter, any reconnects, leave, the last round possibly open |
| `DpSet.OpenRound` | c65of/dpset.py:136-206 | the ports of a connected datapath are those of the enter of its open round with the changes published since |
| `DpSet.LeaveReportsPorts` | c65of/dpset.py:158-206 | every leave reports exactly the ports of its enter folded with the adds, modifies and deletes between the two |
| `DpSet.DPSet.RegisterConn` | c65of/dpset.py:136-156 | closes the connection replaced, files the new one, fills the ports in one by one on entry and keeps them on a reconnect |
| `DpSet.DPSet.UnregisterConn` | c65of/dpset.py:158-167 | reports and forgets the registered connection, ignores any other |
| `DpSet.DPSet.HandlePortStatus` | c65of/dpset.py:186-206 | one port notice for each change; KeyError, with nothing changed, for an unknown datapath or a delete of an unknown port; other reasons are ignored |
| `InternetChecksum.OnesSumReduced` | c65of/packet/packet_utils.py:27-30 | adding words with end-around carry is their plain sum reduced into 0 to 0xFFFF |
| `InternetChecksum.TwoFoldsExact` | c65of/packet/packet_utils.py:33-41 | two folds reduce exactly for sums up to 65538 full words |
| `InternetChecksum.ChecksumExact` | c65of/packet/packet_utils.py:33-41 | up to 131076 octets the result is the complement of the one's complement sum |
| `InternetChecksum.ChecksumBoundTight` | c65of/packet/packet_utils.py:33-41 | at 131077 octets there is data on which it is not |
| `InternetChecksum.StoredChecksumVerifies` | c65of/packet/ipv4.py:123-125 | stored in a zeroed field at an even offset, it makes the checksum of the whole zero |
| `InternetChecksum.VerifiesIff` | c65of/packet/packet_utils.py:33-41 | the checksum of data is zero if and only if its words sum to a positive multiple of 0xFFFF |
| `InternetChecksum.AppendVerifies` | c65of/packet/packet_utils.py:33-41 | data that verifies still does with more behind it if and only if what is added, read half a word later behind an odd number of octets, sums to a multiple of 0xFFFF |
| `Fletcher.Sums` | c65of/packet/packet_utils.py:70-84 | the loop over blocks with deferred reduction computes the plain and the weighted sum modulo 255 |
| `Fletcher.ModxIsLargest` | c65of/packet/packet_utils.py:24 | a block keeps the weighted sum below 2^31 if and only if it has at most 4102 octets |
| `Fletcher.PeakReached` | c65of/packet/packet_utils.py:78-81 | the bound on the weighted sum is attained, by octets of 255 on sums of 254 |
| `Fletcher.CheckOctets` | c65of/packet/packet_utils.py:85-92 | both octets lie in 1 to 255 and make both sums zero modulo 255 |
| `Fletcher.GrownOctets` | c65of/packet/packet_utils.py:75-86 | sums taken over the data as it was long give the check octets for the data as the slice assignment has grown it |
| `Fletcher.FletcherChecksum` | c65of/packet/packet_utils.py:70-93 | at any offset inside or right behind the data both sums of the data with the octets stored are zero modulo 255, no other octet changes, and the value returned is those two octets; farther behind it raises |
| `PacketStack.SerializeIcmp` | c65of/packet/icmp.py:82-96 | a checksum left zero is filled in so that the message verifies, one given is kept; a body that does not go with the type raises |
| `PacketStack.IcmpReceiver` | c65of/packet/icmp.py:82-96 | with octets serialized behind it, the message passes a receiver's test if and only if they sum to a multiple of 0xFFFF |
| `PacketStack.IcmpRefused` | c65of/packet/icmp.py:82-96 | with one octet behind it that is not zero it does not |
| `PacketStack.SerializeIpv4` | c65of/packet/ipv4.py:101-125 | the header has its declared length, a total length left zero is filled in, and its checksum verifies; a header length without room for the fixed part or the options raises |
| `PacketStack.SerializeStack` | c65of/packet/packet.py:58-73 | headers serialized innermost first give the frame, padded to at least 60 octets, unless one of them raises |
| `PacketStack.DecodeLoop` | c65of/packet/packet.py:43-56 | the walk ends on every input and computes the decoding function, whatever the classes not modelled make of their octets; a header of length zero is left out |
| `PacketStack.WalkShrinks` | c65of/packet/packet.py:43-56 | every header parsed shortens what is left or leads to a class nearer the end of the chain, so the walk terminates |
| `PacketStack.TagStep` | c65of/packet/vlan.py:44-57 | a tag reads back field by field with the class its ethertype announces and exactly what follows it |
| `PacketStack.Ipv4Step` | c65of/packet/ipv4.py:86-125 | an IPv4 header of any total length reads back with its options, and the rest is what the total length takes in of the octets behind it |
| `PacketStack.IcmpWalk` | c65of/packet/icmp.py:73-80 | an ICMP message reads back from exactly its own octets, not from fewer nor from more |
| `PacketStack.IcmpNotZero` | c65of/packet/packet.py:46-49 | an ICMP message with its checksum filled in is never all zero, so the walk does not take it for padding |
| `PacketStack.BodyStep` | c65of/packet/icmp.py:99-163 | the body of every registered ICMP type reads back, empty data as none and no body as the zero octets sent for it |
| `PacketStack.StackRoundTrip` | c65of/packet/packet.py:43-73 | Ethernet, any number of tags, then ARP or IPv4 of any total length with ICMP of any type: the frame has at least 60 octets and decodes to the same headers, lengths and checksums filled in, if and only if an ARP packet is not zero throughout and a total length is left zero, or right, or too large with no padding behind it |
| `PacketStack.PaddingBecomesData` | c65of/packet/ipv4.py:86-99 | under a total length of 46 the padding of the frame becomes the data of a bare echo |
| `PacketStack.ZeroArpLost` | c65of/packet/packet.py:46-49 | ARP with every field zero is decoded as Ethernet and tags alone |
| `SourceRoute.Serialize` | c65of/packet/ipv6.py:320-348 | writes fixed part and elided addresses; a size out of range or a size without addresses raises |
| `SourceRoute.ParseAddressesLoop` | c65of/packet/ipv6.py:307-316 | the address loop ends on every input and computes its parsing function |
| `SourceRoute.LengthExact` | c65of/packet/ipv6.py:279-296 | with size left zero the length is exactly the octets written plus `_pad`, a multiple of eight, and the octets written alone if and only if `_pad` is zero |
| `SourceRoute.ZeroPrefixesAt` | c65of/packet/ipv6.py:311-315 | each address expected back is the original with its elided prefix zeroed |
| `SourceRoute.AddressCount` | c65of/packet/ipv6.py:309-313 | how many addresses the loop reads is determined by the size, the prefix lengths and the padding alone |
| `SourceRoute.SourceRouteExact` | c65of/packet/ipv6.py:297-348 | for any size that can be packed, left zero or given: the header parses back, each address with its elided prefix zeroed, if and only if the size matches the number of addresses |
| `SourceRoute.WrongSize` | c65of/packet/ipv6.py:297-348 | one whole address under a given size of four does not read back |
| `SourceRoute.EmptyRoute` | c65of/packet/ipv6.py:297-348 | a header without addresses that can be written reads back |
| `SourceRoute.SourceRouteRoundTrip` | c65of/packet/ipv6.py:297-348 | with the size left zero it always does, for any addresses, `cmpi` and `cmpe`, whatever octets follow |
| `Mldv2.SerializeRecord` | c65of/packet/icmpv6.py:618-634 | counts left zero are patched in place and the auxiliary data is padded to words |
| `Mldv2.SerializeReport` | c65of/packet/icmpv6.py:576-584 | the records end to end behind a count patched in place |
| `Mldv2.ParseRecordsLoop` | c65of/packet/icmpv6.py:565-574 | the record loop ends on every input and computes its parsing function |
| `Mldv2.SrcsExact` | c65of/packet/icmpv6.py:603-616 | the source loop gives exactly the sources written if and only if it is told their number, or more and the octets end with them |
| `Mldv2.RecordExact` | c65of/packet/icmpv6.py:603-637 | for any counts: a record reads back, counts filled in and padding kept, if and only if the counts are left zero or right, or announce more sources than the octets hold; its `__len__` is exactly the octets it occupies |
| `Mldv2.ReportExact` | c65of/packet/icmpv6.py:564-587 | for any counts: a report reads back, counts filled in, if and only if its own and all its records' counts are so |
| `Mldv2.ReportRoundTrip` | c65of/packet/icmpv6.py:564-587 | any list of records with counts left zero or right reads back as the same list, counts filled in |
| `Mldv2.SerializeIcmpv6` | c65of/packet/icmpv6.py:121-131 | a checksum left zero is filled in, one given is kept, nothing else is changed; a receiver's test passes exactly under the condition below |
| `Mldv2.ReceiverExact` | c65of/packet/packet_utils.py:44-67 | for any message, payload and next header: what is filled in passes a receiver's test if and only if the length of the payload plus 58 minus the next header is a multiple of 0xFFFF |
| `Mldv2.ChecksumRefused` | c65of/packet/icmpv6.py:128-130 | with one zero octet behind the message, or a routing header in front of it, it does not |
| `Lldp.Serialize` | c65of/packet/lldp.py:180-184 | the TLVs end to end |
| `Lldp.ParseLoop` | c65of/packet/lldp.py:157-178 | the TLV loop ends on every input and computes the parsing function |
| `Lldp.InfoRoundTrip` | c65of/packet/lldp.py:209-503 | the information string of every TLV class reads back into its fields |
| `Lldp.TlvRoundTrip` | c65of/packet/lldp.py:73-130 | a TLV as constructed reads back, and is skipped by exactly its length |
| `Lldp.LldpRoundTrip` | c65of/packet/lldp.py:157-184 | every valid TLV list followed by any padding parses to the list and exactly that padding |
| `Lldp.LldpAnyInput` | c65of/packet/lldp.py:157-178 | on any octets the parser gives a list of the mandatory shape, End last and only there, with exactly the octets behind it; or no header and the buffer untouched |

## Left out

- Sockets, TLS, listeners, accept loops, timeouts, logging and the pacing of echo requests; the socket is the history of octets written to it.
- Loading of applications, generated constructors and the class registries, which use Python reflection; registries are functions, structures datatypes.
- The JSON dict form and `__str__`.
- Text and CIDR forms of addresses: field values are octets of a fixed width, and the alias `field_N` of a registered field is that field.
- Values that do not fit their 8, 16 or 32 bit fields, where packing raises, and the recursion limit on deeply nested actions.
- Messages.ParseBody: the message classes but flow mod, group mod, packet out, meter mod, barrier and echo are not modelled field by field; any parser may stand for theirs.
- Fixed-format statistics and single-structure messages, queue properties and experimenter multipart bodies.
- TableFeatures.PropRoundTrip: not for ids of experimenter fields, which the code reads but refuses to write.
- ActionExact.TreeExact: not for trees with a set-field that runs over the length it declares, where no such equivalence holds; single set-fields have their exact condition without that limit.
- Buckets and messages around actions that do not meet their exact conditions: their serializers are covered, their read back is not.
- Canonical.SortOrdered: `list.sort` is modelled as a stable insertion sort, and fields given by name twice do not occur in a Python call.
- EventLoop.EveryInterleaving: one start of the application; the handlers of one event run as one step; `unregister_handler` and the choice of observers are not modelled.
- EventLoop.OFApp.RunEventLoop: the loop while no other thread runs, and so SendLoop in SendQueue.Channel; for the threads together the step relations speak.
- SendQueue.WrittenIsPrefix: a failing `sendall` is taken to have written any prefix of its buffer.
- Handshake.MainOnlyByPortDescription: reading a message, recording it and publishing it is one step, and so is handling a port status; the check-then-set race inside `set_state` is not modelled, and DEAD is not claimed to be final, since a hello handled late sets CONFIG again.
- DpSet.EveryRun: a connection has an id when it is registered, which is asserted, and keeps it while connected; ports are reported as maps, without the order of the list.
- Negative offsets of the Fletcher checksum, which Python counts from the end.
- IPv6 option headers, fragments and the extension header chain; MLDv2 queries; neighbour discovery options, whose parser takes everything to the end of the buffer.
- PacketStack.DecodeLoop: IPv6, LLDP and slow protocols under Ethernet are not decoded field by field; any decoder may stand for theirs.
- PacketStack.StackRoundTrip: a body object of one ICMP type under another type, which the code also accepts, is not covered.
- Stream.ReceiveLoop: the socket's errors and timeouts, and leaving the loop because another thread closed the channel.
- LACP's fixed frame and the constants of the protocol beyond the field table.
