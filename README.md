# AIMF multicast routing engine, modelled in Dafny

AIMF (Ad hoc Internet Multicast Forwarding) is an ns-3 routing protocol that
runs beside OLSR in a mobile ad hoc network. Each node advertises the
(group, source) pairs of its local multicast listeners in periodic HELLO
messages, learns the pairs of its neighbours from theirs, rebuilds a
multicast forwarding table keyed by group, and decides by comparing
willingness values with the neighbours OLSR can reach whether it forwards
multicast traffic at all.

The model covers the engine of one node:

- `AimfTypes` (types.dfy): fixed-width integers, addresses, the error
  results of decoding, and the protocol constants.
- `Sequences` (sequences.dfy): first-match search and erase-first-match on
  sequences, the shape of every lookup and erase loop of the state.
- `Repository` (repository.dfy): the tuples of the repository and their
  `operator==`, which compare only some fields.
- `State` (state.dfy): the class `AimfState` with the neighbour set, the
  learned association set, the local associations, the interface
  association set and the per-group timers, and its find / insert / erase
  methods, each proved against a function of the old state.
- `Wire` (buffer.dfy): big-endian writing and reading of 8, 16 and 32 bit
  fields, as classes over a byte sequence.
- `EmfTime` (emf_time.dfy): the mantissa/exponent time encoding. The
  encoder is a method with the source's loop, proved to return the
  smallest code whose decoded value covers the input.
- `Header` (header.dfy): packet, message and HELLO headers as classes with
  their setters, getters, `Serialize` and `Deserialize`, each proved
  against encode / decode functions. Round-trip lemmas cover the packet,
  the messages and the HELLO body.
- `Forwarding` (forwarding.dfy): the forwarding table as a function of the
  associations, the multicast and unicast lookups, willingness
  arbitration, the per-group liveness window and the `DELAY` macro.
- `Reception` (reception.dfy): the effect of receiving HELLO messages and
  of the expiry callbacks on the soft state, as functions. It also gives
  the scheduling requests (`Event`) those steps return.
- `Protocol` (protocol.dfy): the class `RoutingProtocol` (the agent),
  whose methods are proved to compute the functions above. It also holds
  the sequence-number arithmetic and the end-to-end HELLO lemmas: what one
  node sends, another decodes and installs.

Time is a real number of seconds. The simulator clock is passed as a
parameter `now`. Scheduling is not performed: a method that would schedule a
callback returns an `Event` that names the callback and its delay. Sending
returns the bytes of the packet. OLSR's routing table enters as the list
of its destination addresses.

## Model

| member | source | states |
|---|---|---|
| AimfTypes.Wrap32 | model/aimf-header.cpp:196 | the uint32_t result of a subtraction: equal to the input when it fits, congruent to it modulo 2^32 otherwise |
| AimfTypes.Wrap16 | model/aimf-routing-protocol.cpp:790-792 | the uint16_t value of an integer, as SetPacketLength receives the packet size (and as WriteHtonU16 writes GetSerializedSize() at model/aimf-header.cpp:173): equal when it fits, congruent modulo 2^16 otherwise |
| Sequences.FirstIndex | model/aimf-state.cpp:15-23 | the index of the first element satisfying the predicate, or none when no element does |
| Sequences.FirstMatchUnique | model/aimf-state.cpp:15-23 | any index that is a first match is the one FirstIndex returns |
| Sequences.Scan | model/aimf-state.cpp:15-23 | the search loop returns the first matching index, or none when nothing matches |
| Sequences.RemoveFirstAt | model/aimf-state.cpp:56-65 | erasing the first match removes exactly the element at the first matching index |
| Sequences.RemoveFirstAbsent | model/aimf-state.cpp:56-65 | erasing when nothing matches leaves the sequence unchanged |
| Sequences.RemoveFirstMultiset | model/aimf-state.cpp:56-65 | erasing removes one occurrence of the first match and keeps every other element |
| Sequences.RemoveFirst | model/aimf-state.cpp:56-65 | `vector::erase` of the first element passing the test, nothing when none does; RemoveFirstAt, RemoveFirstAbsent and RemoveFirstMultiset prove what it removes |
| Repository.EqualitiesAreKeyEqualities | model/aimf-repository.h:30-34 | each of the four `operator==` holds exactly when the key fields agree: interface and main address; address, status and willingness; group and source; advertiser, group and source |
| Repository.EqualitiesIgnoreNonKeyFields | model/aimf-repository.h:110-115 | changing a tuple's time, expiry or willingness, or an association's advertiser, leaves it equal to the original |
| Repository.SameIfaceAssoc | model/aimf-repository.h:31-34 | `operator==` on interface association tuples: interface address and main address agree |
| Repository.SameNeighbor | model/aimf-repository.h:59-63 | `operator==` on neighbour tuples: address, status and willingness agree; the expiry is not compared |
| Repository.SameAssociation | model/aimf-repository.h:84-87 | `operator==` on local associations: group and source agree |
| Repository.SameAssociationTuple | model/aimf-repository.h:111-115 | `operator==` on association tuples: group, source and advertiser agree |
| State.UpsertKeepsAddressesUnique | model/aimf-state.cpp:78-89 | inserting a neighbour tuple keeps one tuple per address; afterwards the set holds the new tuple and the old tuples of other addresses |
| State.EraseAddressRemovesIt | model/aimf-state.cpp:67-76 | erasing by address keeps addresses unique and removes exactly the tuple of that address |
| State.RemoveFirstKeepsAddressesUnique | model/aimf-state.cpp:56-65 | erasing any first match keeps neighbour addresses unique |
| State.ErasedByAddress | model/aimf-state.cpp:67-76 | a tuple survives the erase by address exactly when it was present with another address |
| State.MaxWillingness | model/aimf-state.cpp:45-54 | the largest willingness in the neighbour set (0 for an empty set): no tuple exceeds it, and some tuple has it unless it is 0 |
| State.Upsert | model/aimf-state.cpp:78-89 | InsertNeighborTuple on the sequence: overwrite the first tuple with the same address, or append; UpsertKeepsAddressesUnique proves what survives |
| State.AimfState.constructor | model/aimf-state.h:29-31 | every set, list and timer map starts empty |
| State.AimfState.FindNeighborTuple | model/aimf-state.cpp:15-23 | the first tuple with the given main address, or none |
| State.AimfState.FindSymNeighborTuple | model/aimf-state.cpp:25-33 | the first tuple with the given address and status SYM, or none |
| State.AimfState.FindNeighborTupleWithWillingness | model/aimf-state.cpp:35-43 | the first tuple with the given address and willingness, or none |
| State.AimfState.WillingnessOk | model/aimf-state.cpp:45-54 | true exactly when the given willingness exceeds that of every neighbour and is non-zero, which is when it exceeds MaxWillingness |
| State.AimfState.EraseNeighborTuple | model/aimf-state.cpp:56-65 | removes the first tuple equal under `operator==`, and nothing else |
| State.AimfState.EraseNeighborTupleOf | model/aimf-state.cpp:67-76 | removes the first tuple with the given address, and nothing else |
| State.AimfState.InsertNeighborTuple | model/aimf-state.cpp:78-89 | overwrites the first tuple with the same address, or appends when there is none |
| State.AimfState.UpdateNeighborTuple | model/aimf-routing-protocol.cpp:695-696 | the write through the found pointer: the expiry and willingness of that one tuple change |
| State.AimfState.FindAssociationTuple | model/aimf-state.cpp:112-121 | the first tuple with the given advertiser, group and source, or none |
| State.AimfState.EraseAssociationTuple | model/aimf-state.cpp:123-132 | removes the first tuple equal under `operator==`, and nothing else |
| State.AimfState.InsertAssociationTuple | model/aimf-state.cpp:8-11 | appends the tuple |
| State.AimfState.UpdateAssociationTuple | model/aimf-routing-protocol.cpp:655-657 | the write through the found pointer: only that tuple's expiry changes |
| State.AimfState.EraseAssociation | model/aimf-state.cpp:134-143 | removes the first local association with that group and source, and nothing else |
| State.AimfState.InsertAssociation | model/aimf-state.cpp:145-148 | appends the local association |
| State.AimfState.FindIfaceAssocTuple | model/aimf-state.cpp:93-110 | the first tuple with the given interface address, or none |
| State.AimfState.InsertIfaceAssocTuple | model/aimf-state.cpp:150-153 | appends the tuple |
| State.AimfState.FindTimer | model/aimf-state.h:52 | the group's deadline when the group has a timer, none otherwise |
| State.AimfState.AddTimer | model/aimf-state.h:53 | sets the group's deadline and leaves the other groups' deadlines alone |
| State.AimfState.EraseTimer | model/aimf-state.h:54 | removes the group's deadline and only that one |
| State.AimfState.ClearTimer | model/aimf-state.h:55 | no group has a deadline afterwards |
| Wire.U16RoundTrip | model/aimf-header.cpp:113-123 | a 16-bit value written in network order reads back unchanged, whatever follows it |
| Wire.U32RoundTrip | model/aimf-header.cpp:175-191 | a 32-bit value written in network order reads back unchanged, whatever follows it |
| Wire.U16BytesInjective | model/aimf-header.cpp:115-116 | two 16-bit values have the same encoding exactly when they are equal |
| Wire.U32BytesInjective | model/aimf-header.cpp:175 | two 32-bit values have the same encoding exactly when they are equal |
| Wire.Writer.WriteU8 | model/aimf-header.cpp:172-173 | appends the byte |
| Wire.Writer.WriteHtonU16 | model/aimf-header.cpp:115-116 | appends the two bytes of the value, most significant first |
| Wire.Writer.WriteHtonU32 | model/aimf-header.cpp:175 | appends the four bytes of the value, most significant first |
| Wire.Reader.ReadU8 | model/aimf-header.cpp:187-189 | the next byte and an advance of one, or none and no advance past the end |
| Wire.Reader.ReadNtohU16 | model/aimf-header.cpp:122-123 | the next two bytes as a network-order value and an advance of two, or none and no advance when fewer remain |
| Wire.Reader.ReadNtohU32 | model/aimf-header.cpp:191 | the next four bytes as a network-order value and an advance of four, or none and no advance when fewer remain |
| EmfTime.RankOfCodeOfRank | model/aimf-header.cpp:57 | the code a*16+b built for the rank 16b+a has that rank |
| EmfTime.CodeOfRankOfCode | model/aimf-header.cpp:69-70 | every byte is the code of its own rank: codes and ranks are in one-to-one correspondence |
| EmfTime.RankUnitsOf | model/aimf-header.cpp:72 | the rank 16b+a stands for (16+a)·2^b units of 1/256 s, which is C·(1+a/16)·2^b |
| EmfTime.EmfToSecondsByRank | model/aimf-header.cpp:66-73 | decoding a byte gives C·(1+a/16)·2^b, which is the value of its rank |
| EmfTime.RankUnitsIncreasing | model/aimf-header.cpp:72 | a higher rank always stands for a strictly longer time |
| EmfTime.RankSecondsBounds | model/aimf-header.cpp:66-73 | the encodable times run from C = 0.0625 s (code 0) to 0.0625·(1+15/16)·2^15 s (code 0xFF) |
| EmfTime.LeastRankFromCovers | model/aimf-header.cpp:29-57 | the least covering rank does cover the time |
| EmfTime.LeastRankFromIsLeast | model/aimf-header.cpp:29-57 | every lower rank falls short of the time |
| EmfTime.SmallestCodeCovers | model/aimf-header.h:107-112 | the encoded time decodes to at least the time set (GetVTime() >= time) |
| EmfTime.SmallestCodeMinimal | model/aimf-header.cpp:29-57 | no code that covers the time decodes to less than the chosen one |
| EmfTime.SmallestCodeMonotone | model/aimf-header.cpp:29-57 | a longer time never gets a smaller code or a shorter decoded time |
| EmfTime.SmallestCodeOfDecoded | model/aimf-header.cpp:29-73 | encoding a decoded time gives back the byte it came from |
| EmfTime.EmfToSecondsBounds | model/aimf-header.cpp:66-73 | every byte decodes to between 0.0625 s and 3968 s |
| EmfTime.EmfToSeconds | model/aimf-header.cpp:66-73 | the byte a·16 + b decodes to C·(1 + a/16)·2^b seconds; EmfToSecondsByRank and EmfToSecondsBounds state its value and range |
| EmfTime.SmallestCode | model/aimf-header.cpp:29-57 | the code of the least rank that covers t; SmallestCodeCovers, SmallestCodeMinimal, SmallestCodeMonotone and SmallestCodeOfDecoded prove it is the smallest covering code |
| EmfTime.CeilingWithoutRollover | model/aimf-header.cpp:41-44 | when ceil(tmp) < 16, the rank 16b + ceil(tmp) is the least covering rank |
| EmfTime.CeilingWithRollover | model/aimf-header.cpp:46-50 | when ceil(tmp) = 16, b is below 15 and the rank 16(b+1) (a = 0, b + 1) is the least covering rank |
| EmfTime.RoundingStep | model/aimf-header.cpp:41-57 | the rounding and the a = 16 rollover produce a and b between 0 and 15 whose code is the smallest covering code |
| EmfTime.SecondsToEmf | model/aimf-header.cpp:29-57 | for a time between C and the largest encodable time, returns the smallest code whose decoded time is at least the input |
| EmfTime.ScaledMantissa | model/aimf-header.cpp:34-41 | b is below 16, and tmp = 16(t/(C·2^b) - 1) lies in [0, 16) |
| EmfTime.ExponentOf | model/aimf-header.cpp:31-38 | the loop stops at the largest b with t/C >= 2^b, and t/C < 2^(b+1) |
| Header.AssociationsOf | model/aimf-header.cpp:242-251 | the pairs read are as many as asked for, and each carries willGroupSSM 0 |
| Header.DecodeHello | model/aimf-header.cpp:231-255 | an accepted HELLO has a size of at least 2, the size of its associations, and fits in the bytes given |
| Header.DecodeMessage | model/aimf-header.cpp:184-199 | an accepted message is a HELLO whose consumed size is 11 + 2 + 8k, equal to the size it re-encodes to, within the input |
| Header.DecodePacketHeader | model/aimf-header.cpp:119-125 | the packet header decodes exactly when four bytes are present |
| Header.DecodePacket | model/aimf-routing-protocol.cpp:209-228 | an accepted packet declares at least its own 4 header bytes |
| Header.PacketHeaderRoundTrip | model/aimf-header.cpp:112-125 | the packet header read back from its encoding is the header written |
| Header.AssociationsRoundTrip | model/aimf-header.cpp:224-227 | the pairs read back are the pairs written, with the willingness field zeroed (it is not sent) |
| Header.HelloRoundTrip | model/aimf-header.cpp:215-255 | a HELLO body read with its own size returns hTime, willingness and the pairs written |
| Header.MessageRoundTrip | model/aimf-header.cpp:169-199 | a HELLO message read back returns every header field and the body written, and consumes exactly its encoded size |
| Header.MessageHeaderFields | model/aimf-header.cpp:170-177 | each header field sits at its offset: type 0, vtime 1, size 2, originator 4, TTL 8, sequence number 9 |
| Header.MessagesRoundTrip | model/aimf-routing-protocol.cpp:212-228 | a run of HELLO messages whose sizes sum to sizeLeft is read back in order |
| Header.DecodeMessagesStep | model/aimf-routing-protocol.cpp:216-228 | one pass of the receive loop: take a message, subtract its size from sizeLeft (modulo 2^32), continue |
| Header.PacketRoundTrip | model/aimf-routing-protocol.cpp:786-817 | a packet whose length counts its header and messages, as SendPacket builds it, decodes to that header and those messages |
| Header.ValidMessageSizeIsHelloSize | model/aimf-header.cpp:203-208 | an accepted message size is exactly 11 plus the size of a HELLO body |
| Header.MessageSizeIsValid | model/aimf-header.cpp:154-162 | every message's serialized size passes the receiver's size check |
| Header.EncodeMessageLength | model/aimf-header.cpp:154-162 | a message's encoding is as long as GetSerializedSize says |
| Header.EncodeMessagesLength | model/aimf-routing-protocol.cpp:221 | a run of messages encodes to the sum of their sizes |
| Header.AsWrittenAcceptsShortMessage | model/aimf-header.cpp:196 | as written, message size 5 passes the HELLO size check; the body is then asked for 2^29 - 1 pairs, and 5 bytes are reported consumed |
| Header.AsWrittenAgreesFromHeaderSize | model/aimf-header.cpp:196 | for sizes of 11 and up, the size check as written accepts exactly the valid sizes |
| Header.AsWrittenBelowHeaderSize | model/aimf-header.cpp:196 | below 11, the size check as written accepts the size 5 and no other |
| Header.DecodeHelloOk | model/aimf-header.cpp:241-251 | with an accepted size and enough bytes, the HELLO holds the two bytes read and (size - 2)/8 pairs |
| Header.DecodeHelloShort | model/aimf-header.cpp:244-251 | with an accepted size but too few bytes, decoding reports a truncated buffer |
| Header.AssociationsOfNext | model/aimf-header.cpp:244-251 | reading n + 1 pairs is reading n pairs and then one more |
| Header.EncodeAssociations | model/aimf-header.cpp:224-227 | each pair as group then source, four network-order bytes each; AssociationsRoundTrip reads them back |
| Header.EncodeHello | model/aimf-header.cpp:215-228 | Htime, willingness, then the pairs; HelloRoundTrip reads it back |
| Header.EncodeMessageHeader | model/aimf-header.cpp:169-177 | the 11 header bytes; MessageHeaderFields gives each field's offset |
| Header.EncodeMessage | model/aimf-header.cpp:169-181 | the header, whose size field is the low 16 bits of GetSerializedSize(), then the HELLO body; MessageRoundTrip reads it back |
| Header.EncodePacketHeader | model/aimf-header.cpp:112-117 | packet length then packet sequence number, network order; PacketHeaderRoundTrip reads it back |
| Header.EncodeMessages | model/aimf-routing-protocol.cpp:212-228 | the messages one after the other, as the receive loop expects them; MessagesRoundTrip reads them back |
| Header.DecodeMessages | model/aimf-routing-protocol.cpp:212-228 | the receive loop: read a message, subtract its size from sizeLeft modulo 2^32, stop at 0; DecodeMessagesStep and MessagesRoundTrip state it |
| Header.PacketHeader.GetPacketLength | model/aimf-header.h:53-55 | the stored length; SetPacketLength is its partner |
| Header.PacketHeader.GetPacketSequenceNumber | model/aimf-header.h:61-63 | the stored sequence number; SetPacketSequenceNumber is its partner |
| Header.Hello.GetHTime | model/aimf-header.h:211-213 | the decoded Htime; SetHTime makes it at least the time set |
| Header.MessageHeader.GetMessageType | model/aimf-header.h:103-105 | the stored type; SetMessageType is its partner |
| Header.MessageHeader.GetVTime | model/aimf-header.h:111-113 | the decoded Vtime; SetVTime makes it at least the time set |
| Header.MessageHeader.GetOriginatorAddress | model/aimf-header.h:119-121 | the stored originator; SetOriginatorAddress is its partner |
| Header.MessageHeader.GetTimeToLive | model/aimf-header.h:127-129 | the stored TTL; SetTimeToLive is its partner |
| Header.MessageHeader.GetMessageSequenceNumber | model/aimf-header.h:135-137 | the stored sequence number; SetMessageSequenceNumber is its partner |
| Header.PacketHeader.SetPacketLength | model/aimf-header.h:49-55 | the length read back is the length set |
| Header.PacketHeader.SetPacketSequenceNumber | model/aimf-header.h:57-63 | the sequence number read back is the one set |
| Header.PacketHeader.GetSerializedSize | model/aimf-header.cpp:102-105 | the serialized size is the length of the header's encoding |
| Header.PacketHeader.Serialize | model/aimf-header.cpp:112-117 | writes the header's encoding |
| Header.PacketHeader.Deserialize | model/aimf-header.cpp:119-125 | succeeds exactly when the packet header decodes; then holds its fields and consumes 4 bytes; otherwise reports truncation |
| Header.Hello.SetHTime | model/aimf-header.h:207-213 | the stored code is the smallest code covering the time, so GetHTime() is at least the time set |
| Header.Hello.GetSerializedSize | model/aimf-header.cpp:203-208 | the size is the length of the body's encoding, 2 + 8 per pair |
| Header.Hello.Serialize | model/aimf-header.cpp:215-228 | writes hTime, willingness and every pair, in order |
| Header.Hello.Deserialize | model/aimf-header.cpp:230-255 | succeeds exactly when DecodeHello does, then holds its result and consumes the size; otherwise reports the same error |
| Header.Hello.ReadAssociations | model/aimf-header.cpp:243-251 | the loop reads the requested pairs in order exactly when enough bytes remain |
| Header.Hello.ReadAssociation | model/aimf-header.cpp:245-250 | one pass: the group, then the source, exactly when 8 bytes remain |
| Header.MessageHeader.constructor | model/aimf-header.cpp:132-134 | the message type starts at 0 and the body is empty |
| Header.MessageHeader.SetMessageType | model/aimf-header.h:99-105 | the type read back is the type set |
| Header.MessageHeader.SetVTime | model/aimf-header.h:107-113 | the stored code is the smallest code whose decoded time covers the time set, so GetVTime() is at least that time |
| Header.MessageHeader.SetOriginatorAddress | model/aimf-header.h:115-121 | the originator read back is the one set |
| Header.MessageHeader.SetTimeToLive | model/aimf-header.h:123-129 | the TTL read back is the one set |
| Header.MessageHeader.SetMessageSequenceNumber | model/aimf-header.h:131-137 | the sequence number read back is the one set |
| Header.MessageHeader.GetHello | model/aimf-header.h:263-270 | an untyped message becomes a HELLO, and the HELLO body is returned for writing |
| Header.MessageHeader.ConstHello | model/aimf-header.h:272-275 | on a HELLO message, returns its body |
| Header.MessageHeader.GetSerializedSize | model/aimf-header.cpp:154-162 | the size is the length of the message's encoding, 11 plus the body |
| Header.MessageHeader.Serialize | model/aimf-header.cpp:169-181 | writes the message's encoding, the size field being GetSerializedSize() |
| Header.MessageHeader.Deserialize | model/aimf-header.cpp:183-199 | succeeds exactly when DecodeMessage does, then holds its message and consumes its size; otherwise reports the same error |
| Header.MessageHeader.ReadFields | model/aimf-header.cpp:186-193 | the six header fields are read from their offsets; a non-HELLO type or a short buffer is reported |
| Forwarding.Delay | model/aimf-routing-protocol.cpp:41-42 | the delay is at least one microsecond and lands after the target time; a past target gets exactly one microsecond, a future one its distance plus one microsecond |
| Forwarding.OutputInterfaces | model/aimf-routing-protocol.cpp:746-747 | for n >= 1 listened devices, the output list is n - 1 zeros followed by the devices; for none it is empty (the source fails there); its non-zero entries are exactly the non-zero devices |
| Forwarding.AsWrittenNoListenerOverflows | model/aimf-routing-protocol.cpp:746 | as written, an empty listener set makes `m_netdevice.size() - 1` wrap to 2^64 - 1, a vector larger than the address space; for n >= 1 listeners the count is n - 1 |
| Forwarding.Pairs | model/aimf-routing-protocol.cpp:748-761 | the (group, source) of each local association (first loop) or learned tuple (second loop), in order |
| Forwarding.GroupSources | model/aimf-routing-protocol.cpp:748-761 | the pairs the rebuild enters: the local ones, then the learned ones; GroupSourcesAt states their order |
| Forwarding.TableOf | model/aimf-routing-protocol.cpp:731-740 | AddEntry for each pair in turn from an empty table; TableOfLastWriter states the result |
| Forwarding.GroupSourcesAt | model/aimf-routing-protocol.cpp:748-761 | the pairs entered are the local associations, then the learned tuples, in order |
| Forwarding.TableOfLastWriter | model/aimf-routing-protocol.cpp:731-740 | a group has an entry exactly when some pair names it, and its entry comes from the last such pair |
| Forwarding.RebuiltTableGroups | model/aimf-routing-protocol.cpp:741-764 | after the rebuild, a group has an entry exactly when a local association or a learned tuple names it |
| Forwarding.LastLearnedWins | model/aimf-routing-protocol.cpp:756-761 | the entry of a group holds the source of the last learned tuple for that group |
| Forwarding.TableOfLast | model/aimf-routing-protocol.cpp:731-740 | the last pair of a group fixes that group's entry: source, group, input interface and outputs |
| Forwarding.TableOfSize | model/aimf-routing-protocol.cpp:763 | the table has no more entries than pairs entered |
| Forwarding.TableOfKeyedByGroup | model/aimf-routing-protocol.cpp:738-739 | each entry's group is its key |
| Forwarding.RouteOf | model/aimf-routing-protocol.cpp:371-380 | the route keeps group, origin and input interface and gives each non-zero output interface the TTL MAX_TTL - 1 |
| Forwarding.McLookup | model/aimf-routing-protocol.cpp:349-396 | a route is returned exactly when the group's entry serves the interface (or any interface is asked), and it is that entry's route |
| Forwarding.Serves | model/aimf-routing-protocol.cpp:365-367 | the group's entry has that group and takes packets from the interface asked for, or any interface is asked for |
| Forwarding.IsMulticast | model/aimf-routing-protocol.cpp:489 | `Ipv4Address::IsMulticast`: the address lies in 224.0.0.0/4 |
| Forwarding.PrefixMatch | model/aimf-routing-protocol.cpp:306-310 | `Ipv4Mask::IsMatch` for the contiguous mask of the route's prefix length: the leading bits agree |
| Forwarding.IsBestAmong | model/aimf-routing-protocol.cpp:301-341 | the route the scan keeps: a candidate with the longest prefix, then the lowest metric; BestRouteUnique shows it is determined |
| Forwarding.BestRouteUnique | model/aimf-routing-protocol.cpp:301-341 | the route the unicast scan keeps is determined: two best routes among the same prefix are the same route |
| Forwarding.ReachableWillingness | model/aimf-routing-protocol.cpp:871-879 | the largest willingness among neighbours that are OLSR destinations, 0 when none: none exceeds it and one attains it |
| Forwarding.RecheckExtra | model/aimf-routing-protocol.cpp:855-870 | the fall-through gives willingness w an extra 6 - w seconds, between 0 and 5, larger for less willing nodes |
| Forwarding.ForwardIffNoneMoreWilling | model/aimf-routing-protocol.cpp:871-884 | for any neighbour set, the best reachable willingness is at most w exactly when no neighbour with an OLSR route is more willing than w |
| Forwarding.EqualWillingnessBothForward | model/aimf-routing-protocol.cpp:880-884 | two nodes of willingness w that reach each other and nobody more willing, whatever their other neighbours, both see exactly w and so both forward: there is no tie-break |
| Forwarding.WindowAfter | model/aimf-routing-protocol.cpp:266-283 | the group's new deadline after a sighting; SightingRevivesIff and SpottedDeadlineForgotten state what it means |
| Forwarding.SightingRevivesIff | model/aimf-routing-protocol.cpp:273-283 | after a sighting the deadline is ahead of now exactly when it was ahead (with a positive window) or had passed by less than 4 hello intervals + w s, so a group quiet for longer stays overdue |
| Forwarding.SpottedDeadlineForgotten | model/aimf-routing-protocol.cpp:278-282 | a sighting before the deadline gives the same new deadline however far ahead the old one was |
| Forwarding.NewGroupWindow | model/aimf-routing-protocol.cpp:266-283 | a new group's 2(7 - w) s window is replaced at once by the (7 - w) s one, which is shorter whenever w < 7 |
| Reception.Accepted | model/aimf-routing-protocol.cpp:232-243 | the processed messages are exactly those with a non-zero TTL and another originator |
| Reception.Processed | model/aimf-routing-protocol.cpp:232-243 | a message is handed to ProcessHello when its TTL is not 0, it is not our own, and it is a HELLO |
| Reception.StepAssociation | model/aimf-routing-protocol.cpp:653-671 | one advertised pair: refresh the expiry of its tuple, or append one and arm its timer; StepAssociationKeepsKeysUnique and StepAssociationFrame state it |
| Reception.AbsorbAssociations | model/aimf-routing-protocol.cpp:651-672 | the association loop over all advertised pairs; AbsorbKeepsKeysUnique and AbsorbLeavesOtherKeys state it |
| Reception.StepNeighbor | model/aimf-routing-protocol.cpp:686-706 | PopulateNeighborSet on the sequence; StepNeighborKeepsAddressesUnique states it |
| Reception.HelloOutcome | model/aimf-routing-protocol.cpp:643-675 | ProcessHello on the soft state, with expiry now + Vtime; HelloOutcomeWellKeyed, HelloInstalls and HelloInstallsPair state it |
| Reception.PacketOutcome | model/aimf-routing-protocol.cpp:232-259 | the accepted messages processed in order; PacketOutcomeWellKeyed and OneMessageOutcome state it |
| Reception.StepAssociationFrame | model/aimf-routing-protocol.cpp:653-671 | one advertised pair changes at most the expiry of an earlier tuple, and leaves tuples of other keys as they were |
| Reception.AbsorbLeavesOtherKeys | model/aimf-routing-protocol.cpp:651-672 | the association loop keeps every earlier tuple in place, changes at most its expiry, and leaves a tuple whose key is not advertised as it was |
| Reception.TuplesFromDifferentAdvertisersCoexist | model/aimf-routing-protocol.cpp:653-668 | after HELLOs from two advertisers of the same (group, source), both (A, group, source) and (B, group, source) tuples are present |
| Reception.StepAssociationKeepsKeysUnique | model/aimf-routing-protocol.cpp:653-671 | one advertised pair: keys stay unique, the (originator, group, source) tuple exists with the new expiry, other tuples are untouched, and one timer is armed per tuple added |
| Reception.AbsorbKeepsKeysUnique | model/aimf-routing-protocol.cpp:653-672 | after all advertised pairs, keys stay unique, every pair has its tuple with the new expiry, and one timer is armed per tuple added |
| Reception.StepNeighborKeepsAddressesUnique | model/aimf-routing-protocol.cpp:686-706 | neighbour addresses stay unique and the originator has a tuple with the advertised willingness and the new expiry |
| Reception.HelloOutcomeWellKeyed | model/aimf-routing-protocol.cpp:643-675 | processing a HELLO keeps association keys and neighbour addresses unique, and leaves every tuple whose key it does not advertise (all tuples of other advertisers among them) where and as it was |
| Reception.HelloInstalls | model/aimf-routing-protocol.cpp:643-706 | after a HELLO, its originator is a neighbour with the advertised willingness and expiry now + vtime |
| Reception.HelloInstallsPair | model/aimf-routing-protocol.cpp:653-671 | after a HELLO, each advertised pair has a tuple from that originator expiring at now + vtime |
| Reception.OneMessageOutcome | model/aimf-routing-protocol.cpp:232-259 | a one-message packet is processed exactly as that message alone |
| Reception.PacketOutcomeWellKeyed | model/aimf-routing-protocol.cpp:232-259 | processing a whole packet keeps the soft state well keyed |
| Reception.AssociationExpiryRemovesOnlyExpired | model/aimf-routing-protocol.cpp:620-633 | the callback removes the tuple only when its deadline has passed, leaves all others, and re-arms itself otherwise |
| Reception.NeighborExpiryRemovesOnlyExpired | model/aimf-routing-protocol.cpp:707-721 | the callback removes the neighbour only when its deadline has passed, leaves all others, and re-arms itself otherwise |
| Reception.FoundTupleIsFirstEqual | model/aimf-routing-protocol.cpp:622-627 | erasing the found tuple by `operator==` removes exactly the tuple found |
| Reception.AssociationExpiry | model/aimf-routing-protocol.cpp:620-633 | AssociationTupleTimerExpire on the set: nothing if the tuple is gone, erase it when expired, re-arm otherwise; AssociationExpiryRemovesOnlyExpired states it |
| Reception.NeighborExpiry | model/aimf-routing-protocol.cpp:707-721 | RemoveNeighborset on the set; NeighborExpiryRemovesOnlyExpired states it |
| Reception.SightingTimers | model/aimf-routing-protocol.cpp:263-284 | ReceivingMulticast on the timer map: the group's deadline becomes WindowAfter of the old one |
| Reception.SightingEvents | model/aimf-routing-protocol.cpp:266-271 | the group timer armed for a group that had none, and nothing otherwise |
| Reception.SightingOnlyMovesItsGroup | model/aimf-routing-protocol.cpp:263-284 | a sighting adds only the seen group, leaves the other deadlines alone, and leaves a known group alive exactly as SightingRevivesIff says |
| Protocol.SeqAfterIsModular | model/aimf-routing-protocol.cpp:176-186 | k increments from a start give (start + k) mod 2^16 |
| Protocol.SequenceNumbersDistinct | model/aimf-routing-protocol.cpp:176-186 | fewer than 2^16 increments apart never give the same sequence number |
| Protocol.SequenceNumbersWrap | model/aimf-routing-protocol.cpp:176-186 | the counter wraps: after 65535 comes 0, and 2^16 increments return to the same number |
| Protocol.NextSeq | model/aimf-routing-protocol.cpp:176-179 | one step of either counter, (n + 1) mod 2^16; SequenceNumbersWrap states the wrap |
| Protocol.SeqAfter | model/aimf-routing-protocol.cpp:176-186 | the counter after k steps; SeqAfterIsModular and SequenceNumbersDistinct state it |
| Protocol.WithLocalKeepsPairsUnique | model/aimf-routing-protocol.cpp:818-838 | adding a local association keeps (group, source) unique, keeps every old one, and makes the pair present |
| Protocol.WithoutLocalRemovesIt | model/aimf-routing-protocol.cpp:839-842 | removing a local association keeps pairs unique and removes exactly that pair |
| Protocol.WithLocal | model/aimf-routing-protocol.cpp:818-838 | AddHostMulticastAssociation on the local list; WithLocalKeepsPairsUnique and AddThenRemoveRestores state it |
| Protocol.AddThenRemoveRestores | model/aimf-routing-protocol.cpp:818-845 | adding an absent pair and removing it gives back the local list, so the table the removal rebuilds is the one that list gives |
| Protocol.Advertised | model/aimf-routing-protocol.cpp:775-782 | the HELLO advertises each local association's group, source and will, in order |
| Protocol.HelloMessage | model/aimf-routing-protocol.cpp:766-784 | SendHello's message: Vtime the smallest code covering the hold time, this node, TTL 255, the sequence number, the willingness and the advertised pairs; HelloInstallsAdvertisedPairs states its effect |
| Protocol.OneMessagePacket | model/aimf-routing-protocol.cpp:786-817 | SendPacket of one message: length 4 + message size cut to 16 bits, then the message; OneMessagePacketRoundTrip reads it back |
| Protocol.OneMessagePacketRoundTrip | model/aimf-routing-protocol.cpp:786-817 | the packet SendMessage builds decodes to its header and its one message |
| Protocol.HelloInstallsAdvertisedPairs | model/aimf-routing-protocol.cpp:765-785 | a neighbour receiving our HELLO makes us a neighbour with our willingness and installs every local pair of ours, all expiring no earlier than now + the hold time the HELLO carries |
| Protocol.AdvertisedPairInstalled | model/aimf-routing-protocol.cpp:775-782 | the i-th local association of the sender is installed at the receiver under the sender's address |
| Protocol.AsWrittenFirstCheckIsLate | model/aimf-routing-protocol.cpp:615 | as written, the first arbitration runs at 2·now + 10 s, later than now + 10 s whenever now > 0 |
| Protocol.RoutingProtocol.constructor | model/aimf-routing-protocol.cpp:418-425 | empty state and table, both sequence counters at 65535 as SetIpv4 sets them, the configuration as given (the starting value of the forwarding switch is the model's, see "## Left out") |
| Protocol.RoutingProtocol.GetPacketSequenceNumber | model/aimf-routing-protocol.cpp:176-179 | advances the packet counter by one modulo 2^16 and returns the new value |
| Protocol.RoutingProtocol.GetMessageSequenceNumber | model/aimf-routing-protocol.cpp:183-186 | advances the message counter by one modulo 2^16 and returns the new value |
| Protocol.RoutingProtocol.AddEntry | model/aimf-routing-protocol.cpp:731-740 | the group's entry becomes (source, group, input, outputs); other groups keep theirs |
| Protocol.RoutingProtocol.RoutingTableComputation | model/aimf-routing-protocol.cpp:741-764 | the table becomes the one built from the local associations, then the learned tuples |
| Protocol.RoutingProtocol.AddLocalEntries | model/aimf-routing-protocol.cpp:748-754 | the first loop enters the local associations in order |
| Protocol.RoutingProtocol.AddLearnedEntries | model/aimf-routing-protocol.cpp:755-761 | the second loop enters the learned tuples after what is already there |
| Protocol.RoutingProtocol.RecvAimf | model/aimf-routing-protocol.cpp:188-261 | a malformed packet is reported and changes nothing; otherwise the soft state and timers are those of processing the accepted messages, and the table is rebuilt |
| Protocol.RoutingProtocol.ProcessMessages | model/aimf-routing-protocol.cpp:232-259 | the message loop processes exactly the accepted messages, in order |
| Protocol.RoutingProtocol.ProcessHello | model/aimf-routing-protocol.cpp:643-675 | the associations then the neighbour are processed, with expiry now + vtime |
| Protocol.RoutingProtocol.ProcessAssociations | model/aimf-routing-protocol.cpp:653-672 | each pair refreshes its (originator, group, source) tuple or adds one and arms its timer |
| Protocol.RoutingProtocol.PopulateNeighborSet | model/aimf-routing-protocol.cpp:686-706 | a known originator gets the new expiry and willingness; an unknown one is added NOT_SYM and its removal is scheduled |
| Protocol.RoutingProtocol.AssociationTupleTimerExpire | model/aimf-routing-protocol.cpp:620-633 | the association set and the re-armed timer are those of AssociationExpiry |
| Protocol.RoutingProtocol.RemoveNeighborset | model/aimf-routing-protocol.cpp:707-721 | the neighbour set and the re-armed timer are those of NeighborExpiry |
| Protocol.RoutingProtocol.OlsrTimerExpire | model/aimf-routing-protocol.cpp:851-890 | willingness 7 forwards, 0 does not; 1 to 6 forward exactly when no neighbour with an OLSR route is more willing (stated over the neighbour set itself) and re-check after the interval + 6 - w s; other values change nothing |
| Protocol.RoutingProtocol.MostWillingReachable | model/aimf-routing-protocol.cpp:871-879 | the double loop computes ReachableWillingness |
| Protocol.RoutingProtocol.ReceivingMulticast | model/aimf-routing-protocol.cpp:263-284 | the group's deadline becomes WindowAfter, and a new group also gets its timer scheduled |
| Protocol.RoutingProtocol.LookupMulticast | model/aimf-routing-protocol.cpp:349-396 | returns McLookup; a hit refreshes the group's liveness window, a miss changes nothing |
| Protocol.RoutingProtocol.RouteInput | model/aimf-routing-protocol.cpp:481-509 | a packet is forwarded exactly when its destination is multicast, the lookup hits and forwarding is on; a hit refreshes the window even when forwarding is off |
| Protocol.RoutingProtocol.LookupUnicast | model/aimf-routing-protocol.cpp:301-347 | no route exactly when no entry matches; otherwise the longest prefix, then the lowest metric, then the last such entry |
| Protocol.RoutingProtocol.AddHostMulticastAssociation | model/aimf-routing-protocol.cpp:818-838 | a present pair changes nothing; a new pair is appended with this node as advertiser and will 64, and the table is rebuilt |
| Protocol.RoutingProtocol.RemoveHostMulticastAssociation | model/aimf-routing-protocol.cpp:839-845 | the pair is removed, the table rebuilt, and the group's timer dropped |
| Protocol.RoutingProtocol.SendHello | model/aimf-routing-protocol.cpp:765-785 | both counters advance by one and the packet is the HELLO holding 3 hello intervals, this node, the new sequence number, the willingness and every local pair |
| Protocol.RoutingProtocol.BuildHello | model/aimf-routing-protocol.cpp:768-782 | the message built is HelloMessage of the node's configuration and local associations |
| Protocol.RoutingProtocol.HelloHeader | model/aimf-routing-protocol.cpp:768-774 | the header fields of a HELLO with no pairs yet |
| Protocol.RoutingProtocol.SetHelloFields | model/aimf-routing-protocol.cpp:770-774 | originator, TTL 255, sequence number, HELLO type and willingness are set; vtime is kept |
| Protocol.RoutingProtocol.AppendAssociations | model/aimf-routing-protocol.cpp:775-782 | the loop appends Advertised(locals) and changes nothing else |
| Protocol.RoutingProtocol.SendMessage | model/aimf-routing-protocol.cpp:786-817 | the packet counter advances by one and the packet is the length-stamped header followed by the message |
| Protocol.RoutingProtocol.HelloTimerExpire | model/aimf-routing-protocol.cpp:846-850 | sends the HELLO and re-arms the timer one hello interval ahead |
| Protocol.RoutingProtocol.Start | model/aimf-routing-protocol.cpp:612-618 | forwarding is on, the first HELLO is sent, and the HELLO timer and the first arbitration (10 s ahead) are scheduled |

## Left out

- Sockets, packet tracing, logging and the `Print` methods are not modelled. `RecvAimf` takes the received bytes, and sending returns the packet bytes.
- The simulator and its timers are replaced by a `now` parameter and returned `Event` values. The agent does not run the callbacks it schedules; their bodies are modelled as the methods named in each event. `m_events` tracking is not modelled.
- ns-3 `Time` and `double` are exact reals. Nanosecond rounding and floating-point error in `SecondsToEmf` / `EmfToSeconds` are not modelled.
- OLSR's routing table enters `OlsrTimerExpire` as the list of its destination addresses. OLSR itself is not part of this model.
- The link-local branch of the unicast `LookupStatic` (model/aimf-routing-protocol.cpp:291-300) is not modelled; it builds a route from the interface's own address. `SourceAddressSelection` is not modelled either.
- `RouteOutput`, `DoDispose`, `DoStop`, `NotifyInterface*`, `NotifyAddress*`, `AssignStreams`, `PrintRoutingTable` and `GetRoutingTableEntries` are outside the engine and are left out.
- `DoInitialize`'s address selection, socket creation and default multicast route set-up are left out. `Start` models what it does once the node can run.
- `ChangeWillingness` is left out: the willingness and the other configuration fields are `const` after construction.
- `UniqnessTable`, `FindUnik`, `WillingnessMaxInSystem` and `WillingnessNextMaxInSystem` are declared in model/aimf-state.h without a definition in the source and are left out. The bodies of `FindTimer`, `AddTimer`, `EraseTimer` and `ClearTimer` are not in the source either; they are modelled as map operations.
- `NS_ASSERT`s on received data (message type, HELLO size, reading past the buffer) become error results (`NotHello`, `BadHelloSize`, `Truncated`, `BadPacketLength`). Those asserts vanish in optimised builds, so the source then reads on. `NS_ASSERT`s on the node's own inputs (the time range of `SecondsToEmf`) are preconditions.
- State.AimfState.FindNeighborTuple, FindAssociationTuple, FindIfaceAssocTuple: return an index instead of a pointer. Writes through the pointer are the separate methods `UpdateNeighborTuple` and `UpdateAssociationTuple`.
- Protocol.RoutingProtocol.ReceivingMulticast: the group timer it schedules is returned as an event. Its context (group address plus node id) is not modelled.
- Protocol.RoutingProtocol.Start: sets the forwarding switch before sending the first HELLO, where the source sets it after; nothing in between reads it.
- Protocol.RoutingProtocol.RoutingTableComputation: `Clear` is folded into it, and `RemoveEntry` is never called in the source and is left out.
- Protocol.RoutingProtocol.constructor: the declaration of the forwarding switch `forward` is not in the source, which only assigns it (model/aimf-routing-protocol.cpp:449, 462, 616, 857, 881, 883, 887). The model starts it at false, so `RouteInput` (496) forwards nothing before `Start` or the first arbitration.
- Protocol.RoutingProtocol.SendMessage: the packet is sent once and returned; sending a copy on every socket is not modelled.
- Protocol.HelloMessage: writes Htime 0. `SendHello` (model/aimf-routing-protocol.cpp:766-784) never sets Htime, and the `MessageHeader` constructor (model/aimf-header.cpp:132-134) leaves it uninitialised, so the source sends an indeterminate byte; the model picks 0.
- Protocol.AddThenRemoveRestores: the table after the removal equals the table from before the addition only if that table was current. `AssociationTupleTimerExpire` (model/aimf-routing-protocol.cpp:620-637) erases an expired tuple without rebuilding the table (`RemoveEntry` is commented out at 637), in the source and in the model, so an expired pair keeps its entry until the next rebuild.
- Forwarding.PrefixMatch: a route's mask is taken to be contiguous and is given by its prefix length; `IsMatch` at model/aimf-routing-protocol.cpp:310 applies the full mask, which could also be non-contiguous.
- The file-scope variables at model/aimf-routing-protocol.cpp:148-174 (`m_table`, the sequence counters, the intervals, `m_willingness`, `olsrTable`, `m_ipv4`) have the names of members of the agent, which the member functions use instead. The file-scope copies are not modelled.
- Where the code and the protocol's description differ, the model follows the code:
  - The re-check delay for willingness w is 6 - w seconds, not 7 - w, because the `switch` falls through from `case 1` to `AIMF_WILL_HIGH`.
  - A new group's 2(7 - w) s window is overwritten at once (`NewGroupWindow`).
  - Equal willingness has no tie-break (`EqualWillingnessBothForward`).
  - Association processing sits inside `#ifdef NS3_LOG_ENABLE` in `ProcessHello` (model/aimf-routing-protocol.cpp:649-673). The model always processes associations, as a logging build does.
  - `Association` is declared with two fields in model/aimf-repository.h:78-81 but built with four at model/aimf-routing-protocol.cpp:834-836 and read for `will` at 780. The model gives it group, source, advertiser and will, and `operator==` compares group and source.
  - `NeighborTuple` is declared at model/aimf-repository.h:44-55 with an address, a `groupToSource` pair, a status and a willingness, but the source reads and writes an `expirationTime` (model/aimf-routing-protocol.cpp:695) and builds a new tuple from address, expiry and willingness (698-699). The model drops `groupToSource`, which is never read, adds the expiry, and gives a new tuple the status NOT_SYM, the value-initialised first enumerator (`StepNeighbor`, `PopulateNeighborSet`).
  - `AssociationTuple` is declared at model/aimf-repository.h:99-108 with advertiser, group, source and expiry, but built with a fifth value, the advertised `willGroupSSM` (model/aimf-routing-protocol.cpp:659-665). The model keeps it as `will`; `operator==` still compares advertiser, group and source.
  - `WillingnessOk` is declared `int` in model/aimf-state.h:65 and defined `bool` in model/aimf-state.cpp:45-54; the model returns a boolean.
  - The free function `GetMessageSequenceNumber` at model/aimf-routing-protocol.cpp:805-808 duplicates the member function and is not modelled separately.

## Findings

| source | as written | input that shows it | evidently intended | confidence | as-written member | corrected member |
|---|---|---|---|---|---|---|
| model/aimf-header.cpp:196 | `m_messageSize - AIMF_MSG_HEADER_SIZE` is computed in `int` and converted to the `uint32_t` parameter of `Hello::Deserialize`, whose only check is `(messageSize-2) % 8 == 0` | a HELLO message whose size field is 5: 5 - 11 = -6 becomes 2^32 - 6 in the conversion, and 2^32 - 8 is a multiple of 8, so the check passes; the body is then asked for 2^29 - 1 pairs, and 5 bytes are reported consumed for an 11-byte header | refuse message sizes below 11 + 2, accepting only 11 + 2 + 8k | not executed | Header.AsWrittenAcceptsShortMessage | Header.MessageRoundTrip |
| model/aimf-routing-protocol.cpp:615 | `Simulator::Schedule(Time(Simulator::Now() + Seconds(10)), ...)` passes an absolute time to a call that takes a delay | starting at now = 5 s runs the first arbitration at 20 s instead of 15 s (2·now + 10) | first arbitration 10 s after start | not executed | Protocol.AsWrittenFirstCheckIsLate | Protocol.RoutingProtocol.Start |
| model/aimf-routing-protocol.cpp:746 | `std::vector<uint32_t> outint(m_netdevice.size() - 1)` subtracts in `size_t` | a node whose listener set is empty (`SetNetdevicelistener` accepts any set): the count wraps to 2^64 - 1, a vector of four-byte entries larger than the address space, so every table rebuild fails | an empty listener set gives entries with no output interface | not executed | Forwarding.AsWrittenNoListenerOverflows | Forwarding.OutputInterfaces |
