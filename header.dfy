/**
 * The AIMF wire format: a 4-byte packet header (packet length, packet
 * sequence number), then messages, each an 11-byte message header
 * (type, Vtime, message size, originator, TTL, message sequence number)
 * followed by a HELLO body (Htime, willingness, then one group/source
 * address pair per advertised association). All multi-byte fields are in
 * network order.
 *
 * The datatypes and Encode/Decode functions below are the meaning of the
 * header classes' Serialize and Deserialize methods, which are proved to
 * write and read exactly these bytes.
 */
module Header {
  import opened AimfTypes
  import opened Wire
  import opened EmfTime

  const IPV4_ADDRESS_SIZE: nat := 4
  const MSG_HEADER_SIZE: nat := 11
  const PKT_HEADER_SIZE: nat := 4

  /** Hello::Association. willGroupSSM is carried in memory but never written to the wire. */
  datatype HelloAssociation = HelloAssociation(group: Addr, source: Addr, willGroupSSM: Byte)

  datatype HelloBody = HelloBody(hTime: Byte, willingness: Byte, associations: seq<HelloAssociation>)

  datatype Message = Message(
    messageType: Byte,
    vTime: Byte,
    originator: Addr,
    timeToLive: Byte,
    sequenceNumber: U16,
    hello: HelloBody)

  datatype PacketHead = PacketHead(packetLength: U16, packetSequenceNumber: U16)

  // ---------------------------------------------------------------------
  // Sizes and encoding

  /** Hello::GetSerializedSize for n associations: Htime, willingness, two addresses each. */
  function HelloSize(n: nat): nat
  {
    2 + 2 * n * IPV4_ADDRESS_SIZE
  }

  /** MessageHeader::GetSerializedSize: the 11-byte header plus the HELLO body. */
  function MessageSize(m: Message): nat
  {
    MSG_HEADER_SIZE + HelloSize(|m.hello.associations|)
  }

  /** The group/source pairs, each address in network order. */
  function EncodeAssociations(a: seq<HelloAssociation>): (r: seq<Byte>)
    ensures |r| == 8 * |a|
  {
    if a == [] then []
    else EncodeAssociations(a[..|a| - 1]) + U32Bytes(a[|a| - 1].group) + U32Bytes(a[|a| - 1].source)
  }

  /** Hello::Serialize */
  function EncodeHello(h: HelloBody): seq<Byte>
  {
    [h.hTime, h.willingness] + EncodeAssociations(h.associations)
  }

  /**
   * MessageHeader::Serialize. The size field is GetSerializedSize() written
   * through WriteHtonU16, so it keeps only the low 16 bits.
   */
  function EncodeMessage(m: Message): seq<Byte>
  {
    EncodeMessageHeader(m) + EncodeHello(m.hello)
  }

  /** The 11 header bytes of a message: type, Vtime, size, originator, TTL, sequence number. */
  function EncodeMessageHeader(m: Message): (r: seq<Byte>)
    ensures |r| == MSG_HEADER_SIZE
  {
    [m.messageType, m.vTime] + U16Bytes(Wrap16(MessageSize(m))) + U32Bytes(m.originator)
      + [m.timeToLive] + U16Bytes(m.sequenceNumber)
  }

  /** PacketHeader::Serialize */
  function EncodePacketHeader(p: PacketHead): seq<Byte>
  {
    U16Bytes(p.packetLength) + U16Bytes(p.packetSequenceNumber)
  }

  /** The messages of a packet, one after the other. */
  function EncodeMessages(ms: seq<Message>): seq<Byte>
  {
    if ms == [] then [] else EncodeMessage(ms[0]) + EncodeMessages(ms[1..])
  }

  /** The sum of the messages' sizes. */
  function TotalSize(ms: seq<Message>): nat
  {
    if ms == [] then 0 else MessageSize(ms[0]) + TotalSize(ms[1..])
  }

  // ---------------------------------------------------------------------
  // Decoding

  /** What the receiver holds for an association: willGroupSSM comes back 0. */
  function Received(a: HelloAssociation): HelloAssociation
  {
    a.(willGroupSSM := 0)
  }

  function ReceivedAll(a: seq<HelloAssociation>): (r: seq<HelloAssociation>)
    ensures |r| == |a|
    ensures forall i :: 0 <= i < |a| ==> r[i] == Received(a[i])
  {
    if a == [] then [] else ReceivedAll(a[..|a| - 1]) + [Received(a[|a| - 1])]
  }

  function ReceivedHello(h: HelloBody): HelloBody
  {
    h.(associations := ReceivedAll(h.associations))
  }

  function ReceivedMessage(m: Message): Message
  {
    m.(hello := ReceivedHello(m.hello))
  }

  function ReceivedMessages(ms: seq<Message>): (r: seq<Message>)
    ensures |r| == |ms|
  {
    if ms == [] then [] else [ReceivedMessage(ms[0])] + ReceivedMessages(ms[1..])
  }

  /** The first n group/source pairs of s, in order. */
  function AssociationsOf(s: seq<Byte>, n: nat): (r: seq<HelloAssociation>)
    requires |s| >= 8 * n
    ensures |r| == n
    ensures forall i :: 0 <= i < n ==> r[i].willGroupSSM == 0
  {
    if n == 0 then [] else AssociationsOf(s, n - 1) + [PairAt(s, 8 * (n - 1))]
  }

  /** The group/source pair that starts at byte i. */
  function PairAt(s: seq<Byte>, i: nat): HelloAssociation
    requires i + 8 <= |s|
  {
    HelloAssociation(U32Of(s[i..]), U32Of(s[i + 4..]), 0)
  }

  /** The size check of Hello::Deserialize, on its uint32_t argument. */
  predicate HelloSizeAccepted(size: U32)
  {
    Wrap32(size - 2) % (IPV4_ADDRESS_SIZE * 2) == 0
  }

  /** The number of associations Hello::Deserialize reads for a given size. */
  function AssociationCount(size: U32): nat
  {
    Wrap32(size - 2) / IPV4_ADDRESS_SIZE / 2
  }

  /**
   * Hello::Deserialize(i, size): Htime and willingness are read first, then
   * the size is checked, then (size - 2) / 8 pairs are read.
   */
  function DecodeHello(s: seq<Byte>, size: U32): (r: Result<HelloBody>)
    ensures r.Ok? ==> size >= 2 && HelloSize(|r.value.associations|) == size && |s| >= size
  {
    if |s| < 2 then Err(Truncated)
    else if !HelloSizeAccepted(size) then Err(BadHelloSize)
    else if |s| - 2 < 8 * AssociationCount(size) then Err(Truncated)
    else Ok(HelloBody(s[0], s[1], AssociationsOf(s[2..], AssociationCount(size))))
  }

  /** A message size the receiver accepts: an 11-byte header and a 2 + 8k byte HELLO body. */
  predicate ValidMessageSize(size: nat)
  {
    size >= MSG_HEADER_SIZE + 2 && (size - MSG_HEADER_SIZE - 2) % 8 == 0
  }

  /**
   * MessageHeader::Deserialize: the type must be HELLO_MESSAGE, and the
   * HELLO body gets the message size minus the 11 header bytes. A size
   * below 11 is refused here; the subtraction in the source wraps instead
   * (see AsWrittenMessageSizeAccepted). The result carries the number of
   * bytes consumed, which is the message size read.
   */
  function DecodeMessage(s: seq<Byte>): (r: Result<(Message, nat)>)
    ensures r.Ok? ==> r.value.0.messageType == HELLO_MESSAGE
    ensures r.Ok? ==> ValidMessageSize(r.value.1) && r.value.1 == MessageSize(r.value.0) && r.value.1 <= |s|
  {
    if |s| < 1 then Err(Truncated)
    else if s[0] != HELLO_MESSAGE then Err(NotHello)
    else if |s| < MSG_HEADER_SIZE then Err(Truncated)
    else
      var size := U16Of(s[2..]);
      if size < MSG_HEADER_SIZE then Err(BadHelloSize)
      else match DecodeHello(s[MSG_HEADER_SIZE..], size - MSG_HEADER_SIZE)
        case Err(e) => Err(e)
        case Ok(h) =>
          Ok((Message(s[0], s[1], U32Of(s[4..]), s[8], U16Of(s[9..]), h), size))
  }

  /** PacketHeader::Deserialize */
  function DecodePacketHeader(s: seq<Byte>): (r: Result<PacketHead>)
    ensures r.Ok? <==> |s| >= PKT_HEADER_SIZE
  {
    if |s| < PKT_HEADER_SIZE then Err(Truncated)
    else Ok(PacketHead(U16Of(s), U16Of(s[2..])))
  }

  /**
   * The message loop of RecvAimf: while sizeLeft (a uint32_t) is not zero,
   * take a message and subtract its GetSerializedSize().
   */
  function DecodeMessages(s: seq<Byte>, sizeLeft: U32): (r: Result<seq<Message>>)
    decreases |s|
  {
    if sizeLeft == 0 then Ok([])
    else match DecodeMessage(s)
      case Err(e) => Err(e)
      case Ok((m, used)) =>
        match DecodeMessages(s[used..], Wrap32(sizeLeft - MessageSize(m)))
          case Err(e) => Err(e)
          case Ok(rest) => Ok([m] + rest)
  }

  /** A received packet: its header, which must declare at least its own 4 bytes, then its messages. */
  function DecodePacket(s: seq<Byte>): (r: Result<(PacketHead, seq<Message>)>)
    ensures r.Ok? ==> r.value.0.packetLength >= PKT_HEADER_SIZE
  {
    match DecodePacketHeader(s)
    case Err(e) => Err(e)
    case Ok(p) =>
      if p.packetLength < PKT_HEADER_SIZE then Err(BadPacketLength)
      else match DecodeMessages(s[PKT_HEADER_SIZE..], p.packetLength - PKT_HEADER_SIZE)
        case Err(e) => Err(e)
        case Ok(ms) => Ok((p, ms))
  }

  // ---------------------------------------------------------------------
  // Round trips

  lemma PacketHeaderRoundTrip(p: PacketHead, rest: seq<Byte>)
    ensures DecodePacketHeader(EncodePacketHeader(p) + rest) == Ok(p)
  {
    var s := EncodePacketHeader(p) + rest;
    assert s[2..] == U16Bytes(p.packetSequenceNumber) + rest;
    U16RoundTrip(p.packetLength, U16Bytes(p.packetSequenceNumber) + rest);
    U16RoundTrip(p.packetSequenceNumber, rest);
  }

  lemma {:induction false} AssociationsRoundTrip(a: seq<HelloAssociation>, rest: seq<Byte>)
    ensures AssociationsOf(EncodeAssociations(a) + rest, |a|) == ReceivedAll(a)
  {
    if a != [] {
      var n := |a| - 1;
      var init, last := a[..n], a[n];
      var second := U32Bytes(last.source) + rest;
      var tail := U32Bytes(last.group) + second;
      var s := EncodeAssociations(a) + rest;
      assert s == EncodeAssociations(init) + tail;
      assert |EncodeAssociations(init)| == 8 * n;
      AssociationsRoundTrip(init, tail);
      assert s[8 * n..] == tail;
      assert s[8 * n + 4..] == second;
      U32RoundTrip(last.group, second);
      U32RoundTrip(last.source, rest);
      assert AssociationsOf(s, |a|) == AssociationsOf(s, n) + [HelloAssociation(U32Of(tail), U32Of(second), 0)];
    }
  }

  lemma HelloRoundTrip(h: HelloBody, rest: seq<Byte>)
    requires HelloSize(|h.associations|) < 0x1_0000_0000
    ensures DecodeHello(EncodeHello(h) + rest, HelloSize(|h.associations|)) == Ok(ReceivedHello(h))
  {
    var s := EncodeHello(h) + rest;
    var n := |h.associations|;
    var size := HelloSize(n);
    assert size - 2 == 8 * n;
    assert Wrap32(size - 2) == 8 * n;
    assert HelloSizeAccepted(size);
    assert AssociationCount(size) == n;
    assert s[2..] == EncodeAssociations(h.associations) + rest;
    assert |s| - 2 >= 8 * n;
    AssociationsRoundTrip(h.associations, rest);
    assert DecodeHello(s, size) == Ok(HelloBody(s[0], s[1], AssociationsOf(s[2..], n)));
  }

  lemma MessageRoundTrip(m: Message, rest: seq<Byte>)
    requires m.messageType == HELLO_MESSAGE && MessageSize(m) < 0x1_0000
    ensures DecodeMessage(EncodeMessage(m) + rest) == Ok((ReceivedMessage(m), MessageSize(m)))
  {
    var body := EncodeHello(m.hello) + rest;
    assert EncodeMessage(m) + rest == EncodeMessageHeader(m) + body;
    MessageHeaderFields(m, body);
    HelloRoundTrip(m.hello, rest);
  }

  /** Each header field is read back from the offset it was written at. */
  lemma MessageHeaderFields(m: Message, body: seq<Byte>)
    ensures var s := EncodeMessageHeader(m) + body;
      && s[0] == m.messageType && s[1] == m.vTime
      && U16Of(s[2..]) == Wrap16(MessageSize(m)) && U32Of(s[4..]) == m.originator
      && s[8] == m.timeToLive && U16Of(s[9..]) == m.sequenceNumber
      && s[MSG_HEADER_SIZE..] == body
  {
    var size := Wrap16(MessageSize(m));
    var s := EncodeMessageHeader(m) + body;
    var afterSeq := body;
    var afterTtl := U16Bytes(m.sequenceNumber) + afterSeq;
    var afterOrig := [m.timeToLive] + afterTtl;
    var afterSize := U32Bytes(m.originator) + afterOrig;
    assert s[2..] == U16Bytes(size) + afterSize;
    assert s[4..] == afterSize;
    assert s[9..] == afterTtl;
    U16RoundTrip(size, afterSize);
    U32RoundTrip(m.originator, afterOrig);
    U16RoundTrip(m.sequenceNumber, afterSeq);
  }

  /** A packet whose length field counts its header and messages, built from HELLO messages. */
  predicate WellFormedPacket(p: PacketHead, ms: seq<Message>)
  {
    && p.packetLength == PKT_HEADER_SIZE + TotalSize(ms)
    && forall i :: 0 <= i < |ms| ==> ms[i].messageType == HELLO_MESSAGE && MessageSize(ms[i]) < 0x1_0000
  }

  lemma {:induction false} MessagesRoundTrip(ms: seq<Message>, rest: seq<Byte>)
    requires forall i :: 0 <= i < |ms| ==> ms[i].messageType == HELLO_MESSAGE && MessageSize(ms[i]) < 0x1_0000
    requires TotalSize(ms) < 0x1_0000_0000
    ensures DecodeMessages(EncodeMessages(ms) + rest, TotalSize(ms)) == Ok(ReceivedMessages(ms))
  {
    if ms != [] {
      var m := ms[0];
      var tail := EncodeMessages(ms[1..]) + rest;
      assert EncodeMessages(ms) + rest == EncodeMessage(m) + tail;
      FirstMessage(m, tail);
      MessagesRoundTrip(ms[1..], rest);
      DecodeMessagesStep(EncodeMessage(m) + tail, TotalSize(ms), ReceivedMessage(m), MessageSize(m));
    }
  }

  /** The first message of a packet decodes and leaves exactly the bytes after it. */
  lemma FirstMessage(m: Message, tail: seq<Byte>)
    requires m.messageType == HELLO_MESSAGE && MessageSize(m) < 0x1_0000
    ensures DecodeMessage(EncodeMessage(m) + tail) == Ok((ReceivedMessage(m), MessageSize(m)))
    ensures (EncodeMessage(m) + tail)[MessageSize(m)..] == tail
    ensures MessageSize(ReceivedMessage(m)) == MessageSize(m)
  {
    MessageRoundTrip(m, tail);
    EncodeMessageLength(m);
  }

  /** One turn of the RecvAimf message loop. */
  lemma DecodeMessagesStep(s: seq<Byte>, sizeLeft: U32, m: Message, used: nat)
    requires sizeLeft != 0 && DecodeMessage(s) == Ok((m, used))
    ensures DecodeMessages(s, sizeLeft) ==
      match DecodeMessages(s[used..], Wrap32(sizeLeft - MessageSize(m)))
      case Err(e) => Err(e)
      case Ok(more) => Ok([m] + more)
  {
  }

  lemma PacketRoundTrip(p: PacketHead, ms: seq<Message>, rest: seq<Byte>)
    requires WellFormedPacket(p, ms)
    ensures DecodePacket(EncodePacketHeader(p) + EncodeMessages(ms) + rest)
         == Ok((p, ReceivedMessages(ms)))
  {
    var body := EncodeMessages(ms) + rest;
    var s := EncodePacketHeader(p) + body;
    assert EncodePacketHeader(p) + EncodeMessages(ms) + rest == s;
    PacketHeaderRoundTrip(p, body);
    assert s[PKT_HEADER_SIZE..] == body;
    var size := p.packetLength - PKT_HEADER_SIZE;
    assert size == TotalSize(ms) < 0x1_0000_0000;
    MessagesRoundTrip(ms, rest);
    assert DecodeMessages(s[PKT_HEADER_SIZE..], size) == Ok(ReceivedMessages(ms));
  }

  // ---------------------------------------------------------------------
  // Message sizes, as written and as intended

  /**
   * The check MessageHeader::Deserialize makes as written: Hello's size
   * check applied to the int difference m_messageSize - 11 converted to uint32_t.
   */
  predicate AsWrittenMessageSizeAccepted(size: U16)
  {
    HelloSizeAccepted(Wrap32(size - MSG_HEADER_SIZE))
  }

  /**
   * A message size of 5 passes the check as written: 5 - 11 wraps to
   * 2^32 - 6, and 2^32 - 8 is a multiple of 8. The receiver then expects
   * 2^29 - 1 associations and reports 5 bytes consumed for a header that
   * alone is 11 bytes long.
   */
  lemma AsWrittenAcceptsShortMessage()
    ensures AsWrittenMessageSizeAccepted(5) && !ValidMessageSize(5)
    ensures AssociationCount(Wrap32(5 - MSG_HEADER_SIZE)) == 0x1FFF_FFFF
    ensures Wrap32(MSG_HEADER_SIZE + Wrap32(5 - MSG_HEADER_SIZE)) == 5
  {
  }

  /** From 11 bytes up, the check as written and the intended one agree. */
  lemma AsWrittenAgreesFromHeaderSize(size: U16)
    requires size >= MSG_HEADER_SIZE
    ensures AsWrittenMessageSizeAccepted(size) <==> ValidMessageSize(size)
  {
  }

  /** Below 11 bytes, size 5 is the only one the check as written lets through. */
  lemma AsWrittenBelowHeaderSize(size: U16)
    requires size < MSG_HEADER_SIZE
    ensures AsWrittenMessageSizeAccepted(size) <==> size == 5
  {
  }

  /** The accepted sizes are exactly the sizes of HELLO messages. */
  lemma ValidMessageSizeIsHelloSize(size: nat)
    ensures ValidMessageSize(size) <==> size >= MSG_HEADER_SIZE + 2 && size == MSG_HEADER_SIZE + HelloSize((size - MSG_HEADER_SIZE - 2) / 8)
  {
  }

  lemma {:induction false} MessageSizeIsValid(m: Message)
    ensures ValidMessageSize(MessageSize(m))
  {
    var n := |m.hello.associations|;
    assert MessageSize(m) - MSG_HEADER_SIZE - 2 == 8 * n;
  }

  /** A message's serialization has the length GetSerializedSize reports. */
  lemma {:induction false} EncodeMessageLength(m: Message)
    ensures |EncodeMessage(m)| == MessageSize(m)
    ensures |EncodeHello(m.hello)| == HelloSize(|m.hello.associations|)
  {
    assert |EncodeMessageHeader(m)| == MSG_HEADER_SIZE;
  }

  lemma {:induction false} EncodeMessagesLength(ms: seq<Message>)
    ensures |EncodeMessages(ms)| == TotalSize(ms)
  {
    if ms != [] {
      EncodeMessageLength(ms[0]);
      EncodeMessagesLength(ms[1..]);
    }
  }

  // ---------------------------------------------------------------------
  // The header objects

  /** PacketHeader: the two 16-bit fields and their accessors. */
  class PacketHeader {
    var packetLength: U16
    var packetSequenceNumber: U16

    /** The source leaves both fields uninitialised; the model starts them at 0. */
    constructor ()
      ensures packetLength == 0 && packetSequenceNumber == 0
    {
      packetLength := 0;
      packetSequenceNumber := 0;
    }

    function Value(): PacketHead
      reads this
    {
      PacketHead(packetLength, packetSequenceNumber)
    }

    method SetPacketLength(length: U16)
      modifies this`packetLength
      ensures GetPacketLength() == length
    {
      packetLength := length;
    }

    function GetPacketLength(): U16
      reads this
    {
      packetLength
    }

    method SetPacketSequenceNumber(seqNum: U16)
      modifies this`packetSequenceNumber
      ensures GetPacketSequenceNumber() == seqNum
    {
      packetSequenceNumber := seqNum;
    }

    function GetPacketSequenceNumber(): U16
      reads this
    {
      packetSequenceNumber
    }

    /** GetSerializedSize: the length of what Serialize writes. */
    function GetSerializedSize(): (n: nat)
      reads this
      ensures n == |EncodePacketHeader(Value())|
    {
      PKT_HEADER_SIZE
    }

    method Serialize(w: Writer)
      modifies w
      ensures w.bytes == old(w.bytes) + EncodePacketHeader(Value())
    {
      w.WriteHtonU16(packetLength);
      w.WriteHtonU16(packetSequenceNumber);
    }

    /** Deserialize: reads both fields and reports the 4 bytes consumed. */
    method Deserialize(r: Reader) returns (res: Result<nat>)
      requires r.Valid()
      modifies this, r
      ensures r.Valid()
      ensures res.Ok? <==> DecodePacketHeader(r.data[old(r.pos)..]).Ok?
      ensures res.Ok? ==>
        (Value() == DecodePacketHeader(r.data[old(r.pos)..]).value
         && res.value == GetSerializedSize() && r.pos == old(r.pos) + PKT_HEADER_SIZE)
      ensures res.Err? ==> res.error == Truncated
    {
      ghost var start := r.pos;
      var length := r.ReadNtohU16();
      if length.None? {
        return Err(Truncated);
      }
      packetLength := length.value;
      var seqNum := r.ReadNtohU16();
      if seqNum.None? {
        return Err(Truncated);
      }
      packetSequenceNumber := seqNum.value;
      assert r.data[start..][2..] == r.data[start + 2..];
      res := Ok(PKT_HEADER_SIZE);
    }
  }

  /** MessageHeader::Hello: Htime, willingness and the advertised associations. */
  class Hello {
    var hTime: Byte
    var willingness: Byte
    var associations: seq<HelloAssociation>

    /** The source leaves the byte fields uninitialised; the model starts them at 0. */
    constructor ()
      ensures hTime == 0 && willingness == 0 && associations == []
    {
      hTime := 0;
      willingness := 0;
      associations := [];
    }

    function Value(): HelloBody
      reads this
    {
      HelloBody(hTime, willingness, associations)
    }

    /** SetHTime: stores the smallest code that covers t, so GetHTime() is at least t; nothing else changes. */
    method SetHTime(t: real)
      requires C <= t <= MAX_SECONDS
      modifies this`hTime
      ensures hTime == SmallestCode(t) && GetHTime() >= t
    {
      hTime := SecondsToEmf(t);
      SmallestCodeCovers(t);
    }

    function GetHTime(): real
      reads this
    {
      EmfToSeconds(hTime)
    }

    /** GetSerializedSize: the length of what Serialize writes. */
    function GetSerializedSize(): (n: nat)
      reads this
      ensures n == |EncodeHello(Value())|
    {
      HelloSize(|associations|)
    }

    method Serialize(w: Writer)
      modifies w
      ensures w.bytes == old(w.bytes) + EncodeHello(Value())
    {
      w.WriteU8(hTime);
      w.WriteU8(willingness);
      var n := 0;
      while n < |associations|
        invariant 0 <= n <= |associations|
        invariant w.bytes == old(w.bytes) + [hTime, willingness] + EncodeAssociations(associations[..n])
      {
        assert associations[..n + 1][..n] == associations[..n];
        w.WriteHtonU32(associations[n].group);
        w.WriteHtonU32(associations[n].source);
        n := n + 1;
      }
      assert associations[..n] == associations;
    }

    /**
     * Deserialize(i, messageSize): reads Htime and willingness, checks the
     * size, then replaces the associations by the (size - 2) / 8 pairs that
     * follow, and reports messageSize consumed.
     */
    method Deserialize(r: Reader, messageSize: U32) returns (res: Result<U32>)
      requires r.Valid()
      modifies this, r
      ensures r.Valid()
      ensures res.Ok? <==> DecodeHello(r.data[old(r.pos)..], messageSize).Ok?
      ensures res.Ok? ==>
        (Value() == DecodeHello(r.data[old(r.pos)..], messageSize).value
         && res.value == messageSize && r.pos == old(r.pos) + messageSize)
      ensures res.Err? ==> res.error == DecodeHello(r.data[old(r.pos)..], messageSize).error
    {
      ghost var start := r.pos;
      ghost var s := r.data[start..];
      var h := r.ReadU8();
      if h.None? {
        return Err(Truncated);
      }
      hTime := h.value;
      var w := r.ReadU8();
      if w.None? {
        return Err(Truncated);
      }
      willingness := w.value;
      if Wrap32(messageSize - 2) % (IPV4_ADDRESS_SIZE * 2) != 0 {
        return Err(BadHelloSize);
      }
      var numAddresses := Wrap32(messageSize - 2) / IPV4_ADDRESS_SIZE / 2;
      assert r.data[r.pos..] == s[2..];
      var ok := ReadAssociations(r, numAddresses);
      if !ok {
        DecodeHelloShort(s, messageSize);
        return Err(Truncated);
      }
      DecodeHelloOk(s, messageSize);
      res := Ok(messageSize);
    }

    /** The loop of Deserialize: clear the associations, then append count pairs read from r. */
    method ReadAssociations(r: Reader, count: nat) returns (ok: bool)
      requires r.Valid()
      modifies this`associations, r
      ensures r.Valid()
      ensures ok <==> old(r.pos) + 8 * count <= |r.data|
      ensures ok ==> associations == AssociationsOf(r.data[old(r.pos)..], count) && r.pos == old(r.pos) + 8 * count
    {
      ghost var start := r.pos;
      ghost var d := r.data[start..];
      associations := [];
      var n := 0;
      while n < count
        invariant 0 <= n <= count
        invariant r.Valid() && r.pos == start + 8 * n
        invariant |d| >= 8 * n && associations == AssociationsOf(d, n)
      {
        var a := ReadAssociation(r);
        if a.None? {
          return false;
        }
        AssociationsOfNext(r.data, start, n);
        associations := associations + [a.value];
        n := n + 1;
      }
      ok := true;
    }

    /** One pass of the loop: a group address, then a source address, each in network order. */
    static method ReadAssociation(r: Reader) returns (a: Option<HelloAssociation>)
      requires r.Valid()
      modifies r
      ensures r.Valid()
      ensures a.Some? <==> old(r.pos) + 8 <= |r.data|
      ensures a.Some? ==> a.value == PairAt(r.data, old(r.pos)) && r.pos == old(r.pos) + 8
    {
      var group := r.ReadNtohU32();
      if group.None? {
        return None;
      }
      var source := r.ReadNtohU32();
      if source.None? {
        return None;
      }
      a := Some(HelloAssociation(group.value, source.value, 0));
    }
  }

  lemma DecodeHelloOk(s: seq<Byte>, size: U32)
    requires |s| >= 2 && HelloSizeAccepted(size) && |s| - 2 >= 8 * AssociationCount(size)
    ensures DecodeHello(s, size) == Ok(HelloBody(s[0], s[1], AssociationsOf(s[2..], AssociationCount(size))))
    ensures size == 2 + 8 * AssociationCount(size)
  {
  }

  lemma DecodeHelloShort(s: seq<Byte>, size: U32)
    requires |s| >= 2 && HelloSizeAccepted(size) && |s| - 2 < 8 * AssociationCount(size)
    ensures DecodeHello(s, size) == Err(Truncated)
  {
  }

  /** One more pair read at offset base + 8n of the packet extends the decoded associations by one. */
  lemma AssociationsOfNext(d: seq<Byte>, base: nat, n: nat)
    requires base + 8 * (n + 1) <= |d|
    ensures AssociationsOf(d[base..], n + 1) == AssociationsOf(d[base..], n) + [PairAt(d, base + 8 * n)]
  {
    assert d[base..][8 * n..] == d[base + 8 * n..];
    assert d[base..][8 * n + 4..] == d[base + 8 * n + 4..];
  }

  /** MessageHeader: the message header fields and the HELLO body it owns. */
  class MessageHeader {
    var messageType: Byte
    var vTime: Byte
    var originatorAddress: Addr
    var timeToLive: Byte
    var messageSequenceNumber: U16
    var messageSize: U16
    const hello: Hello

    /** The source initialises only the type, to 0; the model starts the other fields at 0 too. */
    constructor ()
      ensures fresh(hello) && messageSize == 0
      ensures Value() == Message(0, 0, 0, 0, 0, HelloBody(0, 0, []))
    {
      messageType := 0;
      vTime := 0;
      originatorAddress := 0;
      timeToLive := 0;
      messageSequenceNumber := 0;
      messageSize := 0;
      hello := new Hello();
    }

    function Value(): Message
      reads this, hello
    {
      Message(messageType, vTime, originatorAddress, timeToLive, messageSequenceNumber, hello.Value())
    }

    method SetMessageType(t: Byte)
      modifies this`messageType
      ensures GetMessageType() == t
    {
      messageType := t;
    }

    function GetMessageType(): Byte
      reads this
    {
      messageType
    }

    /** SetVTime: stores the smallest code that covers t, so GetVTime() is then at least t. */
    method SetVTime(t: real)
      requires C <= t <= MAX_SECONDS
      modifies this`vTime
      ensures vTime == SmallestCode(t)
      ensures GetVTime() >= t
    {
      vTime := SecondsToEmf(t);
      SmallestCodeCovers(t);
    }

    function GetVTime(): real
      reads this
    {
      EmfToSeconds(vTime)
    }

    method SetOriginatorAddress(a: Addr)
      modifies this`originatorAddress
      ensures GetOriginatorAddress() == a
    {
      originatorAddress := a;
    }

    function GetOriginatorAddress(): Addr
      reads this
    {
      originatorAddress
    }

    method SetTimeToLive(ttl: Byte)
      modifies this`timeToLive
      ensures GetTimeToLive() == ttl
    {
      timeToLive := ttl;
    }

    function GetTimeToLive(): Byte
      reads this
    {
      timeToLive
    }

    method SetMessageSequenceNumber(seqNum: U16)
      modifies this`messageSequenceNumber
      ensures GetMessageSequenceNumber() == seqNum
    {
      messageSequenceNumber := seqNum;
    }

    function GetMessageSequenceNumber(): U16
      reads this
    {
      messageSequenceNumber
    }

    /**
     * The mutable GetHello: a message of type 0 becomes a HELLO message; a
     * message of any type other than 0 and HELLO_MESSAGE is refused.
     */
    method GetHello() returns (h: Hello)
      requires messageType == 0 || messageType == HELLO_MESSAGE
      modifies this`messageType
      ensures h == hello && messageType == HELLO_MESSAGE
    {
      if messageType == 0 {
        messageType := HELLO_MESSAGE;
      }
      h := hello;
    }

    /** The const GetHello: only a HELLO message has a body to read. */
    function ConstHello(): (h: HelloBody)
      reads this, hello
      requires messageType == HELLO_MESSAGE
      ensures h == Value().hello
    {
      hello.Value()
    }

    /** GetSerializedSize: the length of what Serialize writes. */
    function GetSerializedSize(): (n: nat)
      reads this, hello
      ensures n == |EncodeMessage(Value())|
    {
      MSG_HEADER_SIZE + hello.GetSerializedSize()
    }

    method Serialize(w: Writer)
      modifies w
      ensures w.bytes == old(w.bytes) + EncodeMessage(Value())
    {
      ghost var m := Value();
      ghost var before := w.bytes;
      w.WriteU8(messageType);
      w.WriteU8(vTime);
      w.WriteHtonU16(Wrap16(GetSerializedSize()));
      w.WriteHtonU32(originatorAddress);
      w.WriteU8(timeToLive);
      w.WriteHtonU16(messageSequenceNumber);
      ghost var header := w.bytes;
      assert header == before + EncodeMessageHeader(m);
      hello.Serialize(w);
      assert w.bytes == header + EncodeHello(m.hello);
    }

    /**
     * Deserialize: reads the header fields, refuses a type other than
     * HELLO_MESSAGE, hands the rest of the message to the HELLO body and
     * reports the message size consumed.
     */
    method Deserialize(r: Reader) returns (res: Result<nat>)
      requires r.Valid()
      modifies this, hello, r
      ensures r.Valid()
      ensures res.Ok? <==> DecodeMessage(r.data[old(r.pos)..]).Ok?
      ensures res.Ok? ==>
        (Value() == DecodeMessage(r.data[old(r.pos)..]).value.0
         && res.value == messageSize == DecodeMessage(r.data[old(r.pos)..]).value.1
         && r.pos == old(r.pos) + res.value)
      ensures res.Err? ==> res.error == DecodeMessage(r.data[old(r.pos)..]).error
    {
      ghost var s := r.data[r.pos..];
      var failed := ReadFields(r);
      if failed.Some? {
        return Err(failed.value);
      }
      assert r.data[r.pos..] == s[MSG_HEADER_SIZE..];
      if messageSize < MSG_HEADER_SIZE {
        return Err(BadHelloSize);
      }
      var helloSize := hello.Deserialize(r, messageSize - MSG_HEADER_SIZE);
      if helloSize.Err? {
        return Err(helloSize.error);
      }
      res := Ok(MSG_HEADER_SIZE + helloSize.value);
    }

    /**
     * The field reads of Deserialize, in wire order. A type other than
     * HELLO_MESSAGE stops the reading right after the type byte.
     */
    method ReadFields(r: Reader) returns (failed: Option<DecodeError>)
      requires r.Valid()
      modifies this`messageType, this`vTime, this`messageSize, this`originatorAddress,
        this`timeToLive, this`messageSequenceNumber, r
      ensures r.Valid()
      ensures var s := r.data[old(r.pos)..];
        failed.None? <==> |s| >= MSG_HEADER_SIZE && s[0] == HELLO_MESSAGE
      ensures var s := r.data[old(r.pos)..];
        failed.None? ==>
          && messageType == s[0] && vTime == s[1] && messageSize == U16Of(s[2..])
          && originatorAddress == U32Of(s[4..]) && timeToLive == s[8]
          && messageSequenceNumber == U16Of(s[9..])
          && r.pos == old(r.pos) + MSG_HEADER_SIZE
      ensures var s := r.data[old(r.pos)..];
        failed.Some? ==> failed.value == if |s| >= 1 && s[0] != HELLO_MESSAGE then NotHello else Truncated
    {
      ghost var start := r.pos;
      var t := r.ReadU8();
      if t.None? {
        return Some(Truncated);
      }
      messageType := t.value;
      if messageType != HELLO_MESSAGE {
        return Some(NotHello);
      }
      var v := r.ReadU8();
      if v.None? {
        return Some(Truncated);
      }
      vTime := v.value;
      var size := r.ReadNtohU16();
      if size.None? {
        return Some(Truncated);
      }
      messageSize := size.value;
      var orig := r.ReadNtohU32();
      if orig.None? {
        return Some(Truncated);
      }
      originatorAddress := orig.value;
      var ttl := r.ReadU8();
      if ttl.None? {
        return Some(Truncated);
      }
      timeToLive := ttl.value;
      var seqNum := r.ReadNtohU16();
      if seqNum.None? {
        return Some(Truncated);
      }
      messageSequenceNumber := seqNum.value;
      assert r.data[start..][2..] == r.data[start + 2..];
      assert r.data[start..][4..] == r.data[start + 4..];
      assert r.data[start..][9..] == r.data[start + 9..];
      failed := None;
    }
  }
}
