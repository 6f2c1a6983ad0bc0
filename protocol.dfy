/**
 * RoutingProtocol: the AIMF engine of one node, with the simulator, the
 * sockets and OLSR taken out. The current time is a parameter, a callback
 * the engine schedules is an Event it returns, a packet it sends is the
 * byte sequence it returns, and the OLSR routing table is the sequence of
 * its destination addresses.
 *
 * Each method is proved to compute the functions of the Reception and
 * Forwarding modules; the properties of those functions are proved there
 * and, for the functions defined here, below.
 */
module Protocol {
  import opened AimfTypes
  import opened Sequences
  import opened Repository
  import opened State
  import opened Wire
  import opened EmfTime
  import opened Header
  import opened Forwarding
  import opened Reception

  // ---------------------------------------------------------------------
  // Sequence numbers

  /** The step of both counters: (n + 1) mod (MAX_SEQ_NUM + 1). */
  function NextSeq(n: U16): U16
  {
    (n + 1) % (MAX_SEQ_NUM + 1)
  }

  /** The counter after k steps from start. */
  function SeqAfter(start: U16, k: nat): U16
  {
    if k == 0 then start else NextSeq(SeqAfter(start, k - 1))
  }

  /** k steps add k modulo 65536. */
  lemma {:induction false} SeqAfterIsModular(start: U16, k: nat)
    ensures SeqAfter(start, k) == (start + k) % 0x1_0000
  {
    if k > 0 {
      SeqAfterIsModular(start, k - 1);
      var q := (start + k - 1) / 0x1_0000;
      assert start + k - 1 == q * 0x1_0000 + SeqAfter(start, k - 1);
      assert start + k == q * 0x1_0000 + (SeqAfter(start, k - 1) + 1);
      if SeqAfter(start, k - 1) + 1 == 0x1_0000 {
        assert start + k == (q + 1) * 0x1_0000;
      }
    }
  }

  /** Two integers less than 65536 apart have different residues. */
  lemma ResiduesDiffer(a: int, b: int)
    requires 0 <= a < b < a + 0x1_0000
    ensures a % 0x1_0000 != b % 0x1_0000
  {
    var q, r := a / 0x1_0000, a % 0x1_0000;
    var d := b - a;
    if r + d < 0x1_0000 {
      assert b == q * 0x1_0000 + (r + d);
    } else {
      assert b == (q + 1) * 0x1_0000 + (r + d - 0x1_0000);
    }
  }

  /** Any 65536 consecutive numbers a counter issues are pairwise distinct. */
  lemma SequenceNumbersDistinct(start: U16, i: nat, j: nat)
    requires i < j < i + 0x1_0000
    ensures SeqAfter(start, i) != SeqAfter(start, j)
  {
    SeqAfterIsModular(start, i);
    SeqAfterIsModular(start, j);
    ResiduesDiffer(start + i, start + j);
  }

  /** A counter starting at MAX_SEQ_NUM issues 0 first, and the numbers repeat with period 65536. */
  lemma SequenceNumbersWrap(start: U16, i: nat)
    ensures SeqAfter(MAX_SEQ_NUM, 1) == 0
    ensures SeqAfter(start, i + 0x1_0000) == SeqAfter(start, i)
  {
    SeqAfterIsModular(start, i);
    SeqAfterIsModular(start, i + 0x1_0000);
    ResidueShift(start + i);
  }

  /** Adding 65536 keeps the residue. */
  lemma ResidueShift(a: nat)
    ensures (a + 0x1_0000) % 0x1_0000 == a % 0x1_0000
  {
    var q, r := a / 0x1_0000, a % 0x1_0000;
    assert a + 0x1_0000 == (q + 1) * 0x1_0000 + r;
  }

  // ---------------------------------------------------------------------
  // Local associations

  /** No two local associations share (group, source). */
  ghost predicate UniquePairs(s: seq<Association>)
  {
    forall i, j :: 0 <= i < j < |s| ==> AssociationKey(s[i]) != AssociationKey(s[j])
  }

  /** The key-only Association the source builds to look for (group, source). */
  function PairKey(group: Addr, source: Addr): Association
  {
    Association(group, source, 0, 0)
  }

  /** AddHostMulticastAssociation on the local list: append the pair with this node's address and willingness 64, unless it is there. */
  function WithLocal(locals: seq<Association>, group: Addr, source: Addr, self: Addr): seq<Association>
  {
    if FirstIndex(locals, AssociationEquals(PairKey(group, source))).Some? then locals
    else locals + [Association(group, source, self, 64)]
  }

  /** Adding a local pair keeps the pairs unique, keeps every old association and leaves the pair present. */
  lemma WithLocalKeepsPairsUnique(locals: seq<Association>, group: Addr, source: Addr, self: Addr)
    requires UniquePairs(locals)
    ensures UniquePairs(WithLocal(locals, group, source, self))
    ensures forall a :: a in locals ==> a in WithLocal(locals, group, source, self)
    ensures exists k :: (0 <= k < |WithLocal(locals, group, source, self)|
                         && AssociationKey(WithLocal(locals, group, source, self)[k]) == (group, source))
  {
    var p := AssociationEquals(PairKey(group, source));
    var r := WithLocal(locals, group, source, self);
    match FirstIndex(locals, p)
    case Some(i) =>
      assert AssociationKey(r[i]) == (group, source);
    case None =>
      assert forall k :: 0 <= k < |locals| ==> !p(locals[k]);
      assert AssociationKey(r[|locals|]) == (group, source);
  }

  /** Removing a local pair from unique pairs leaves every other association and only those. */
  lemma WithoutLocalRemovesIt(locals: seq<Association>, group: Addr, source: Addr)
    requires UniquePairs(locals)
    ensures UniquePairs(RemoveFirst(locals, AssociationEquals(PairKey(group, source))))
    ensures forall a :: a in RemoveFirst(locals, AssociationEquals(PairKey(group, source))) <==>
      a in locals && AssociationKey(a) != (group, source)
  {
    var p := AssociationEquals(PairKey(group, source));
    match FirstIndex(locals, p)
    case Some(i) =>
      RemoveFirstAt(locals, p, i);
      var r := RemoveAt(locals, i);
      forall a
        ensures a in r <==> a in locals && AssociationKey(a) != (group, source)
      {
        if a in locals && AssociationKey(a) != (group, source) {
          var k :| 0 <= k < |locals| && locals[k] == a;
          if k < i { assert r[k] == a; } else { assert k > i && r[k - 1] == a; }
        }
        if a in r {
          var k :| 0 <= k < |r| && r[k] == a;
          if k < i {
            assert locals[k] == a;
            assert AssociationKey(locals[k]) != AssociationKey(locals[i]);
          } else {
            assert locals[k + 1] == a;
            assert AssociationKey(locals[i]) != AssociationKey(locals[k + 1]);
          }
        }
      }
    case None =>
      RemoveFirstAbsent(locals, p);
  }

  /**
   * Adding a pair that was not there and then removing it gives back the
   * local list, so the table the removal rebuilds is the one the list had
   * before the addition (for the same learned tuples and interfaces).
   */
  lemma AddThenRemoveRestores(locals: seq<Association>, group: Addr, source: Addr, self: Addr,
                              learned: seq<AssociationTuple>, input: U32, outputs: seq<U32>)
    requires FirstIndex(locals, AssociationEquals(PairKey(group, source))).None?
    ensures RemoveFirst(WithLocal(locals, group, source, self), AssociationEquals(PairKey(group, source))) == locals
    ensures TableOf(GroupSources(RemoveFirst(WithLocal(locals, group, source, self), AssociationEquals(PairKey(group, source))), learned), input, outputs)
         == TableOf(GroupSources(locals, learned), input, outputs)
  {
    var p := AssociationEquals(PairKey(group, source));
    var added := WithLocal(locals, group, source, self);
    assert added == locals + [Association(group, source, self, 64)];
    assert IsFirstMatch(added, p, Some(|locals|)) by {
      forall j | 0 <= j < |locals|
        ensures !p(added[j])
      {
        assert added[j] == locals[j];
      }
    }
    RemoveFirstAt(added, p, |locals|);
    assert RemoveAt(added, |locals|) == locals;
  }

  // ---------------------------------------------------------------------
  // The HELLO message a node sends

  /** The advertised form of the local associations: group, source and willingness each. */
  function Advertised(locals: seq<Association>): (r: seq<HelloAssociation>)
    ensures |r| == |locals|
    ensures forall i :: 0 <= i < |locals| ==> r[i] == HelloAssociation(locals[i].group, locals[i].source, locals[i].will)
  {
    if locals == [] then []
    else
      var last := locals[|locals| - 1];
      Advertised(locals[..|locals| - 1]) + [HelloAssociation(last.group, last.source, last.will)]
  }

  /** SendHello's message: Vtime covers the hold time, TTL 255, Htime 0, the node's willingness and local pairs. */
  function HelloMessage(holdTime: Time, self: Addr, seqNum: U16, will: Byte, locals: seq<Association>): Message
    requires holdTime <= MAX_SECONDS
  {
    Message(HELLO_MESSAGE, SmallestCode(holdTime), self, 255, seqNum, HelloBody(0, will, Advertised(locals)))
  }

  /** SendPacket of one message: the packet length is 4 + the message size, cut to 16 bits. */
  function OneMessagePacket(m: Message, packetSeq: U16): seq<Byte>
  {
    EncodePacketHeader(PacketHead(Wrap16(PKT_HEADER_SIZE + MessageSize(m)), packetSeq)) + EncodeMessage(m)
  }

  /** A packet of up to 8189 associations decodes to its header and the message, less the unsent willGroupSSM. */
  lemma OneMessagePacketRoundTrip(m: Message, packetSeq: U16)
    requires m.messageType == HELLO_MESSAGE && |m.hello.associations| <= 8189
    ensures DecodePacket(OneMessagePacket(m, packetSeq))
         == Ok((PacketHead(PKT_HEADER_SIZE + MessageSize(m), packetSeq), [ReceivedMessage(m)]))
  {
    var size := MessageSize(m);
    assert size == 13 + 8 * |m.hello.associations| <= 65525;
    var p := PacketHead(PKT_HEADER_SIZE + size, packetSeq);
    assert Wrap16(PKT_HEADER_SIZE + size) == p.packetLength;
    assert TotalSize([m]) == size + TotalSize([]);
    assert WellFormedPacket(p, [m]);
    assert EncodeMessages([m]) == EncodeMessage(m) + EncodeMessages([]);
    PacketRoundTrip(p, [m], []);
    var bytes := OneMessagePacket(m, packetSeq);
    assert bytes == EncodePacketHeader(p) + EncodeMessages([m]) + [];
    assert DecodePacket(bytes) == Ok((p, ReceivedMessages([m])));
    assert ReceivedMessages([m]) == [ReceivedMessage(m)] + ReceivedMessages([]);
    assert ReceivedMessages([m]) == [ReceivedMessage(m)];
  }

  /**
   * A HELLO from another node installs, in the receiver, a tuple for every
   * pair it advertises and a neighbour tuple for its originator, all of
   * them expiring no earlier than now + the hold time.
   */
  lemma HelloInstallsAdvertisedPairs(soft: Soft, holdTime: Time, sender: Addr, seqNum: U16, will: Byte,
                                     locals: seq<Association>, receiver: Addr, now: Time)
    requires C <= holdTime <= MAX_SECONDS && sender != receiver && WellKeyed(soft)
    ensures var m := ReceivedMessage(HelloMessage(holdTime, sender, seqNum, will, locals));
            var after := PacketOutcome(soft, Accepted([m], receiver), now).0;
            && WellKeyed(after)
            && (forall a :: a in locals ==>
                  exists k :: (0 <= k < |after.tuples| && AssociationTupleKey(after.tuples[k]) == (sender, a.group, a.source)
                               && after.tuples[k].expirationTime >= now + holdTime))
            && (exists k :: (0 <= k < |after.neighbors| && after.neighbors[k].neighborMainAddr == sender
                             && after.neighbors[k].willingness == will && after.neighbors[k].expirationTime >= now + holdTime))
  {
    var m := ReceivedMessage(HelloMessage(holdTime, sender, seqNum, will, locals));
    assert m.originator == sender && m.hello.willingness == will && m.vTime == SmallestCode(holdTime);
    assert Processed(m, receiver);
    OneMessageOutcome(soft, m, receiver, now);
    var after := HelloOutcome(soft, m, now).0;
    assert PacketOutcome(soft, Accepted([m], receiver), now).0 == after;
    SmallestCodeCovers(holdTime);
    assert now + EmfToSeconds(m.vTime) >= now + holdTime;
    HelloInstalls(soft, m, now);
    var j :| 0 <= j < |after.neighbors| && after.neighbors[j].neighborMainAddr == m.originator
             && after.neighbors[j].willingness == m.hello.willingness
             && after.neighbors[j].expirationTime == now + EmfToSeconds(m.vTime);
    forall a | a in locals
      ensures exists k :: (0 <= k < |after.tuples| && AssociationTupleKey(after.tuples[k]) == (sender, a.group, a.source)
                           && after.tuples[k].expirationTime >= now + holdTime)
    {
      var i :| 0 <= i < |locals| && locals[i] == a;
      AdvertisedPairInstalled(soft, holdTime, sender, seqNum, will, locals, now, i);
    }
  }

  /** The i-th local pair of a HELLO is installed in the receiver, expiring no earlier than now + the hold time. */
  lemma AdvertisedPairInstalled(soft: Soft, holdTime: Time, sender: Addr, seqNum: U16, will: Byte,
                                locals: seq<Association>, now: Time, i: nat)
    requires C <= holdTime <= MAX_SECONDS && WellKeyed(soft) && i < |locals|
    ensures var after := HelloOutcome(soft, ReceivedMessage(HelloMessage(holdTime, sender, seqNum, will, locals)), now).0;
            exists k :: (0 <= k < |after.tuples| && AssociationTupleKey(after.tuples[k]) == (sender, locals[i].group, locals[i].source)
                         && after.tuples[k].expirationTime >= now + holdTime)
  {
    var sent := HelloMessage(holdTime, sender, seqNum, will, locals);
    var m := ReceivedMessage(sent);
    var x := m.hello.associations[i];
    assert x == Received(sent.hello.associations[i]);
    assert x.group == locals[i].group && x.source == locals[i].source;
    assert x in m.hello.associations;
    HelloInstallsPair(soft, m, now, x);
    SmallestCodeCovers(holdTime);
  }

  // ---------------------------------------------------------------------
  // One more element at the end of a fold

  lemma AcceptedSnoc(ms: seq<Message>, m: Message, self: Addr)
    ensures Processed(m, self) ==> Accepted(ms + [m], self) == Accepted(ms, self) + [m]
    ensures !Processed(m, self) ==> Accepted(ms + [m], self) == Accepted(ms, self)
  {
    assert (ms + [m])[..|ms|] == ms;
    assert Accepted(ms, self) + [] == Accepted(ms, self);
  }

  lemma PacketOutcomeSnoc(soft: Soft, ms: seq<Message>, m: Message, now: Time)
    ensures PacketOutcome(soft, ms + [m], now)
         == (HelloOutcome(PacketOutcome(soft, ms, now).0, m, now).0,
             PacketOutcome(soft, ms, now).1 + HelloOutcome(PacketOutcome(soft, ms, now).0, m, now).1)
  {
    assert (ms + [m])[..|ms|] == ms;
  }

  lemma AbsorbSnoc(tuples: seq<AssociationTuple>, orig: Addr, assocs: seq<HelloAssociation>, a: HelloAssociation,
                   expiry: Time, now: Time)
    ensures AbsorbAssociations(tuples, orig, assocs + [a], expiry, now)
         == (StepAssociation(AbsorbAssociations(tuples, orig, assocs, expiry, now).0, orig, a, expiry, now).0,
             AbsorbAssociations(tuples, orig, assocs, expiry, now).1
               + StepAssociation(AbsorbAssociations(tuples, orig, assocs, expiry, now).0, orig, a, expiry, now).1)
  {
    assert (assocs + [a])[..|assocs|] == assocs;
  }

  lemma TableOfSnoc(pairs: seq<(Addr, Addr)>, p: (Addr, Addr), input: U32, outputs: seq<U32>)
    ensures TableOf(pairs + [p], input, outputs) == TableOf(pairs, input, outputs)[p.0 := McEntry(p.1, p.0, input, outputs)]
  {
    assert (pairs + [p])[..|pairs|] == pairs;
  }

  lemma PairsSnoc<T>(s: seq<T>, x: T, pair: T -> (Addr, Addr))
    ensures Pairs(s + [x], pair) == Pairs(s, pair) + [pair(x)]
  {
    assert (s + [x])[..|s|] == s;
  }

  // ---------------------------------------------------------------------
  // The first OLSR check

  /** The delay DoInitialize passes for the first OLSR check, as written: Now() + 10 s, taken as relative. */
  function AsWrittenFirstCheckDelay(now: Time): Time
  {
    now + 10.0
  }

  /** The check then runs at 2·now + 10 s instead of now + 10 s, for any start time after 0. */
  lemma AsWrittenFirstCheckIsLate(now: Time)
    requires now > 0.0
    ensures now + AsWrittenFirstCheckDelay(now) == 2.0 * now + 10.0
    ensures now + AsWrittenFirstCheckDelay(now) > now + FIRST_CHECK_DELAY
  {
  }

  /** The delay the first OLSR check evidently should have: 10 s from start. */
  const FIRST_CHECK_DELAY: Time := 10.0

  // ---------------------------------------------------------------------
  // The engine

  /**
   * RoutingProtocol: the AIMF agent of one node. It holds the protocol state
   * (neighbours, learned and local associations), the multicast forwarding
   * table, the packet and message sequence counters, the forwarding switch
   * and the node's configuration, which nothing changes after set-up.
   */
  class RoutingProtocol {
    const state: AimfState
    var table: McTable
    var packetSequenceNumber: U16
    var messageSequenceNumber: U16
    var forward: bool
    const willingness: Byte
    const mainAddress: Addr
    /** m_ipv4->GetInterfaceForAddress(m_mainAddress) */
    const mainInterface: U32
    /** m_netdevice: the listening interfaces, in increasing order. */
    const netdevices: seq<U32>
    const networkRoutes: seq<NetworkRoute>
    const helloInterval: Time
    const olsrCheckInterval: Time

    /** Construction and SetIpv4: empty state and table, both counters at MAX_SEQ_NUM, not forwarding. */
    constructor (mainAddress: Addr, mainInterface: U32, netdevices: seq<U32>, networkRoutes: seq<NetworkRoute>,
                 helloInterval: Time, olsrCheckInterval: Time, willingness: Byte)
      ensures fresh(state)
      ensures state.neighborSet == [] && state.timerMap == map[] && state.ifaceAssocSet == []
      ensures state.associationSet == [] && state.associations == []
      ensures table == map[] && !forward
      ensures packetSequenceNumber == MAX_SEQ_NUM && messageSequenceNumber == MAX_SEQ_NUM
      ensures this.mainAddress == mainAddress && this.mainInterface == mainInterface
      ensures this.netdevices == netdevices && this.networkRoutes == networkRoutes
      ensures this.helloInterval == helloInterval && this.olsrCheckInterval == olsrCheckInterval
      ensures this.willingness == willingness
    {
      state := new AimfState();
      table := map[];
      packetSequenceNumber := MAX_SEQ_NUM;
      messageSequenceNumber := MAX_SEQ_NUM;
      forward := false;
      this.willingness := willingness;
      this.mainAddress := mainAddress;
      this.mainInterface := mainInterface;
      this.netdevices := netdevices;
      this.networkRoutes := networkRoutes;
      this.helloInterval := helloInterval;
      this.olsrCheckInterval := olsrCheckInterval;
    }

    /********** Sequence numbers **********/

    method GetPacketSequenceNumber() returns (n: U16)
      modifies this`packetSequenceNumber
      ensures n == packetSequenceNumber == NextSeq(old(packetSequenceNumber))
    {
      packetSequenceNumber := (packetSequenceNumber + 1) % (MAX_SEQ_NUM + 1);
      n := packetSequenceNumber;
    }

    method GetMessageSequenceNumber() returns (n: U16)
      modifies this`messageSequenceNumber
      ensures n == messageSequenceNumber == NextSeq(old(messageSequenceNumber))
    {
      messageSequenceNumber := (messageSequenceNumber + 1) % (MAX_SEQ_NUM + 1);
      n := messageSequenceNumber;
    }

    /********** Forwarding table **********/

    /** AddEntry: the entry of the group is replaced by (source, group, input, outputs). */
    method AddEntry(group: Addr, source: Addr, inputInterface: U32, outputInterfaces: seq<U32>)
      modifies this`table
      ensures table == old(table)[group := McEntry(source, group, inputInterface, outputInterfaces)]
    {
      table := table[group := McEntry(source, group, inputInterface, outputInterfaces)];
    }

    /** RoutingTableComputation: clear, then one entry per local pair and then per learned pair. */
    method RoutingTableComputation()
      modifies this`table
      ensures table == TableOf(GroupSources(state.associations, state.associationSet), mainInterface, OutputInterfaces(netdevices))
    {
      table := map[];
      var outint := OutputInterfaces(netdevices);
      AddLocalEntries(state.associations, outint);
      AddLearnedEntries(Pairs(state.associations, AssociationKey), state.associationSet, outint);
    }

    /** The first loop of RoutingTableComputation: one entry per local association, in order. */
    method AddLocalEntries(locals: seq<Association>, outint: seq<U32>)
      requires table == map[]
      modifies this`table
      ensures table == TableOf(Pairs(locals, AssociationKey), mainInterface, outint)
    {
      var i := 0;
      while i < |locals|
        invariant i <= |locals|
        invariant table == TableOf(Pairs(locals[..i], AssociationKey), mainInterface, outint)
      {
        assert locals[..i + 1] == locals[..i] + [locals[i]];
        PairsSnoc(locals[..i], locals[i], AssociationKey);
        TableOfSnoc(Pairs(locals[..i], AssociationKey), (locals[i].group, locals[i].source), mainInterface, outint);
        AddEntry(locals[i].group, locals[i].source, mainInterface, outint);
        i := i + 1;
      }
      assert locals[..i] == locals;
    }

    /** The second loop of RoutingTableComputation: one entry per learned association tuple, in order. */
    method AddLearnedEntries(prefix: seq<(Addr, Addr)>, learned: seq<AssociationTuple>, outint: seq<U32>)
      requires table == TableOf(prefix, mainInterface, outint)
      modifies this`table
      ensures table == TableOf(prefix + Pairs(learned, TuplePair), mainInterface, outint)
    {
      assert prefix + Pairs(learned[..0], TuplePair) == prefix;
      var k := 0;
      while k < |learned|
        invariant k <= |learned|
        invariant table == TableOf(prefix + Pairs(learned[..k], TuplePair), mainInterface, outint)
      {
        assert learned[..k + 1] == learned[..k] + [learned[k]];
        PairsSnoc(learned[..k], learned[k], TuplePair);
        ghost var p := (learned[k].group, learned[k].source);
        assert prefix + Pairs(learned[..k + 1], TuplePair) == (prefix + Pairs(learned[..k], TuplePair)) + [p];
        TableOfSnoc(prefix + Pairs(learned[..k], TuplePair), p, mainInterface, outint);
        AddEntry(learned[k].group, learned[k].source, mainInterface, outint);
        k := k + 1;
      }
      assert learned[..k] == learned;
    }

    /********** Receiving **********/

    /**
     * RecvAimf: decode the whole packet (an error leaves every state
     * unchanged), process each HELLO that is neither dead nor our own,
     * then rebuild the forwarding table.
     */
    method RecvAimf(packet: seq<Byte>, now: Time) returns (res: Result<seq<Event>>)
      modifies this`table, state`associationSet, state`neighborSet
      ensures DecodePacket(packet).Err? ==>
        && res == Err(DecodePacket(packet).error)
        && table == old(table) && state.associationSet == old(state.associationSet)
        && state.neighborSet == old(state.neighborSet)
      ensures DecodePacket(packet).Ok? ==>
        && res.Ok?
        && (Soft(state.neighborSet, state.associationSet), res.value)
           == PacketOutcome(Soft(old(state.neighborSet), old(state.associationSet)),
                            Accepted(DecodePacket(packet).value.1, mainAddress), now)
        && table == TableOf(GroupSources(state.associations, state.associationSet), mainInterface, OutputInterfaces(netdevices))
    {
      var decoded := DecodePacket(packet);
      if decoded.Err? {
        return Err(decoded.error);
      }
      var events := ProcessMessages(decoded.value.1, now);
      RoutingTableComputation();
      res := Ok(events);
    }

    /** The message loop of RecvAimf: skip dead and own messages, hand each HELLO to ProcessHello. */
    method ProcessMessages(messages: seq<Message>, now: Time) returns (events: seq<Event>)
      modifies state`associationSet, state`neighborSet
      ensures (Soft(state.neighborSet, state.associationSet), events)
              == PacketOutcome(Soft(old(state.neighborSet), old(state.associationSet)), Accepted(messages, mainAddress), now)
    {
      ghost var start := Soft(state.neighborSet, state.associationSet);
      events := [];
      var i := 0;
      while i < |messages|
        invariant i <= |messages|
        invariant (Soft(state.neighborSet, state.associationSet), events)
                  == PacketOutcome(start, Accepted(messages[..i], mainAddress), now)
      {
        var m := messages[i];
        assert messages[..i + 1] == messages[..i] + [m];
        AcceptedSnoc(messages[..i], m, mainAddress);
        if m.timeToLive == 0 || m.originator == mainAddress {
          // silently dropped
        } else if m.messageType == HELLO_MESSAGE {
          PacketOutcomeSnoc(start, Accepted(messages[..i], mainAddress), m, now);
          var ev := ProcessHello(m, now);
          events := events + ev;
        }
        i := i + 1;
      }
      assert messages[..i] == messages;
    }

    /** ProcessHello: the association loop, then PopulateNeighborSet, with the same now. */
    method ProcessHello(m: Message, now: Time) returns (events: seq<Event>)
      modifies state`associationSet, state`neighborSet
      ensures (Soft(state.neighborSet, state.associationSet), events)
              == HelloOutcome(Soft(old(state.neighborSet), old(state.associationSet)), m, now)
    {
      var expiry := now + EmfToSeconds(m.vTime);
      events := ProcessAssociations(m, expiry, now);
      var more := PopulateNeighborSet(m, now);
      events := events + more;
    }

    /** For each advertised pair: refresh the (originator, group, source) tuple, or add one and arm its timer. */
    method ProcessAssociations(m: Message, expiry: Time, now: Time) returns (events: seq<Event>)
      modifies state`associationSet
      ensures (state.associationSet, events)
              == AbsorbAssociations(old(state.associationSet), m.originator, m.hello.associations, expiry, now)
    {
      var assocs := m.hello.associations;
      events := [];
      var i := 0;
      while i < |assocs|
        invariant i <= |assocs|
        invariant (state.associationSet, events)
                  == AbsorbAssociations(old(state.associationSet), m.originator, assocs[..i], expiry, now)
      {
        var a := assocs[i];
        assert assocs[..i + 1] == assocs[..i] + [a];
        AbsorbSnoc(old(state.associationSet), m.originator, assocs[..i], a, expiry, now);
        var found := state.FindAssociationTuple(m.originator, a.group, a.source);
        FirstMatchUnique(state.associationSet, HasAssociationKey(m.originator, a.group, a.source), found);
        ghost var step := StepAssociation(state.associationSet, m.originator, a, expiry, now);
        if found.Some? {
          state.UpdateAssociationTuple(found.value, expiry);
          assert events + step.1 == events;
        } else {
          state.InsertAssociationTuple(AssociationTuple(m.originator, a.group, a.source, expiry, a.willGroupSSM));
          events := events + [AssociationTupleTimer(Delay(expiry, now), m.originator, a.group, a.source)];
        }
        assert state.associationSet == step.0;
        i := i + 1;
      }
      assert assocs[..i] == assocs;
    }

    /** PopulateNeighborSet: refresh the originator's tuple, or add one and arm its timer. */
    method PopulateNeighborSet(m: Message, now: Time) returns (events: seq<Event>)
      modifies state`neighborSet
      ensures (state.neighborSet, events)
              == StepNeighbor(old(state.neighborSet), m.originator, m.hello.willingness, now + EmfToSeconds(m.vTime), now)
    {
      var expiry := now + EmfToSeconds(m.vTime);
      var found := state.FindNeighborTuple(m.originator);
      FirstMatchUnique(state.neighborSet, HasAddr(m.originator), found);
      if found.Some? {
        state.UpdateNeighborTuple(found.value, expiry, m.hello.willingness);
        events := [];
      } else {
        state.InsertNeighborTuple(NeighborTuple(m.originator, NotSym, m.hello.willingness, expiry));
        events := [NeighborTimer(Delay(expiry, now), m.originator)];
      }
    }

    /********** Expiry callbacks **********/

    /** AssociationTupleTimerExpire: nothing if the tuple is gone; erase it if expired; otherwise look again at its expiry. */
    method AssociationTupleTimerExpire(advertiser: Addr, group: Addr, source: Addr, now: Time) returns (events: seq<Event>)
      modifies state`associationSet
      ensures (state.associationSet, events) == AssociationExpiry(old(state.associationSet), advertiser, group, source, now)
    {
      var found := state.FindAssociationTuple(advertiser, group, source);
      FirstMatchUnique(state.associationSet, HasAssociationKey(advertiser, group, source), found);
      if found.None? {
        return [];
      }
      var tuple := state.associationSet[found.value];
      if tuple.expirationTime < now {
        FoundTupleIsFirstEqual(state.associationSet, advertiser, group, source, found.value);
        state.EraseAssociationTuple(tuple);
        events := [];
      } else {
        events := [AssociationTupleTimer(Delay(tuple.expirationTime, now), advertiser, group, source)];
      }
    }

    /** RemoveNeighborset: the same for the neighbour tuple of an address. */
    method RemoveNeighborset(addr: Addr, now: Time) returns (events: seq<Event>)
      modifies state`neighborSet
      ensures (state.neighborSet, events) == NeighborExpiry(old(state.neighborSet), addr, now)
    {
      var found := state.FindNeighborTuple(addr);
      FirstMatchUnique(state.neighborSet, HasAddr(addr), found);
      if found.None? {
        return [];
      }
      var tuple := state.neighborSet[found.value];
      if tuple.expirationTime < now {
        RemoveFirstAt(state.neighborSet, HasAddr(addr), found.value);
        state.EraseNeighborTupleOf(addr);
        events := [];
      } else {
        events := [NeighborTimer(Delay(tuple.expirationTime, now), tuple.neighborMainAddr)];
      }
    }

    /********** Willingness arbitration **********/

    /**
     * OlsrTimerExpire: willingness 7 forwards, 0 does not, 1 to 6 forward
     * iff no neighbour with an OLSR route is more willing and re-arm the
     * check; any other value changes nothing.
     */
    method OlsrTimerExpire(olsrDests: seq<Addr>) returns (recheck: Option<Time>)
      modifies this`forward
      ensures willingness == WILL_ALWAYS ==> forward && recheck.None?
      ensures willingness == WILL_NEVER ==> !forward && recheck.None?
      ensures 1 <= willingness <= 6 ==>
        && (forward <==> ReachableWillingness(state.neighborSet, olsrDests) <= willingness)
        && recheck == Some(olsrCheckInterval + RecheckExtra(willingness))
      ensures 1 <= willingness <= 6 ==>
        (forward <==> forall k :: 0 <= k < |state.neighborSet| && state.neighborSet[k].neighborMainAddr in olsrDests ==>
                                  state.neighborSet[k].willingness <= willingness)
      ensures willingness > WILL_ALWAYS ==> forward == old(forward) && recheck.None?
    {
      recheck := None;
      if willingness == WILL_ALWAYS {
        forward := true;
      } else if 1 <= willingness <= 6 {
        recheck := Some(olsrCheckInterval + RecheckExtra(willingness));
        var j := MostWillingReachable(olsrDests);
        forward := j <= willingness;
        ForwardIffNoneMoreWilling(state.neighborSet, olsrDests, willingness);
      } else if willingness == WILL_NEVER {
        forward := false;
      }
    }

    /** The nested loop of OlsrTimerExpire: the largest willingness among neighbours with an OLSR route. */
    method MostWillingReachable(olsrDests: seq<Addr>) returns (j: Byte)
      ensures j == ReachableWillingness(state.neighborSet, olsrDests)
    {
      var neighbors := state.neighborSet;
      j := 0;
      var n := 0;
      while n < |neighbors|
        invariant n <= |neighbors|
        invariant j == ReachableWillingness(neighbors[..n], olsrDests)
      {
        assert neighbors[..n + 1][..n] == neighbors[..n];
        var neig := neighbors[n];
        ghost var before := j;
        var k := 0;
        while k < |olsrDests|
          invariant k <= |olsrDests|
          invariant j == if neig.neighborMainAddr in olsrDests[..k] && neig.willingness >= before then neig.willingness else before
        {
          assert olsrDests[..k + 1] == olsrDests[..k] + [olsrDests[k]];
          if olsrDests[k] == neig.neighborMainAddr && neig.willingness >= j {
            j := neig.willingness;
          }
          k := k + 1;
        }
        assert olsrDests[..k] == olsrDests;
        n := n + 1;
      }
      assert neighbors[..n] == neighbors;
    }

    /********** Lookups **********/

    /** ReceivingMulticast: move the group's liveness deadline, arming its timer the first time. */
    method ReceivingMulticast(group: Addr, now: Time) returns (events: seq<Event>)
      modifies state`timerMap
      ensures state.timerMap == SightingTimers(old(state.timerMap), group, now, helloInterval, willingness)
      ensures events == SightingEvents(old(state.timerMap), group, now, helloInterval, willingness)
    {
      events := [];
      var t := state.FindTimer(group);
      if t.None? {
        var k := now + 4.0 * helloInterval + (2 * (7 - willingness)) as real;
        state.AddTimer(group, k);
        events := [GroupTimer(Delay(k, now), group)];
        t := state.FindTimer(group);
      }
      var deadline := t.value;
      if deadline < now {
        state.AddTimer(group, deadline + 4.0 * helloInterval + willingness as real);
      } else if deadline > now {
        state.AddTimer(group, now + 4.0 * helloInterval + (7 - willingness) as real);
      }
    }

    /** The multicast LookupStatic: the route of the group's entry if it serves the interface, and a sighting of the group. */
    method LookupMulticast(group: Addr, iface: U32, now: Time) returns (r: Option<McRoute>, events: seq<Event>)
      modifies state`timerMap
      ensures r == McLookup(table, group, iface)
      ensures r.None? ==> state.timerMap == old(state.timerMap) && events == []
      ensures r.Some? ==>
        && state.timerMap == SightingTimers(old(state.timerMap), group, now, helloInterval, willingness)
        && events == SightingEvents(old(state.timerMap), group, now, helloInterval, willingness)
    {
      if group in table && table[group].group == group && (iface == IF_ANY || iface == table[group].inputInterface) {
        var entry := table[group];
        events := ReceivingMulticast(group, now);
        var outputs := entry.outputInterfaces;
        var ttls: map<U32, nat> := map[];
        var j := 0;
        while j < |outputs|
          invariant j <= |outputs|
          invariant forall o :: o in ttls <==> o in outputs[..j] && o != 0
          invariant forall o :: o in ttls ==> ttls[o] == MAX_TTL - 1
        {
          assert outputs[..j + 1] == outputs[..j] + [outputs[j]];
          if outputs[j] != 0 {
            ttls := ttls[outputs[j] := MAX_TTL - 1];
          }
          j := j + 1;
        }
        assert outputs[..j] == outputs;
        assert ttls == RouteOf(entry).outputTtl;
        r := Some(McRoute(entry.group, entry.origin, entry.inputInterface, ttls));
      } else {
        r := None;
        events := [];
      }
    }

    /** RouteInput: a multicast packet is forwarded iff the table serves it and the node is forwarding. */
    method RouteInput(dest: Addr, iface: U32, now: Time) returns (accepted: bool, route: Option<McRoute>, events: seq<Event>)
      modifies state`timerMap
      ensures accepted <==> IsMulticast(dest) && McLookup(table, dest, iface).Some? && forward
      ensures route == if accepted then McLookup(table, dest, iface) else None
      ensures IsMulticast(dest) && McLookup(table, dest, iface).Some? ==>
        && state.timerMap == SightingTimers(old(state.timerMap), dest, now, helloInterval, willingness)
        && events == SightingEvents(old(state.timerMap), dest, now, helloInterval, willingness)
      ensures !(IsMulticast(dest) && McLookup(table, dest, iface).Some?) ==>
        state.timerMap == old(state.timerMap) && events == []
    {
      accepted, route, events := false, None, [];
      if IsMulticast(dest) {
        var r;
        r, events := LookupMulticast(dest, iface, now);
        if r.Some? && forward {
          accepted, route := true, r;
        }
      }
    }

    /** The unicast LookupStatic: the index of the route it settles on, if any. */
    method LookupUnicast(dest: Addr, oif: Option<U32>) returns (r: Option<nat>)
      ensures r.None? <==> forall j :: 0 <= j < |networkRoutes| ==> !Candidate(networkRoutes, dest, oif, j)
      ensures r.Some? ==> IsBestAmong(networkRoutes, dest, oif, r.value, |networkRoutes|)
    {
      var routes := networkRoutes;
      r := None;
      var longestMask: nat := 0;
      var shortestMetric: U32 := 0xffff_ffff;
      var i := 0;
      while i < |routes|
        invariant i <= |routes|
        invariant r.None? ==> longestMask == 0 && shortestMetric == 0xffff_ffff && forall j :: 0 <= j < i ==> !Candidate(routes, dest, oif, j)
        invariant r.Some? ==> IsBestAmong(routes, dest, oif, r.value, i)
                              && longestMask == routes[r.value].prefixLength && shortestMetric == routes[r.value].metric
      {
        var route := routes[i];
        if PrefixMatch(dest, route.network, route.prefixLength) && (oif.None? || oif.value == route.iface) {
          if route.prefixLength >= longestMask {
            if route.prefixLength > longestMask {
              shortestMetric := 0xffff_ffff;
            }
            longestMask := route.prefixLength;
            if route.metric <= shortestMetric {
              shortestMetric := route.metric;
              r := Some(i);
            }
          }
        }
        i := i + 1;
      }
    }

    /********** Local associations **********/

    /** AddHostMulticastAssociation: a new pair is added and the table rebuilt; a known pair changes nothing. */
    method AddHostMulticastAssociation(group: Addr, source: Addr)
      modifies state`associations, this`table
      ensures state.associations == WithLocal(old(state.associations), group, source, mainAddress)
      ensures state.associations == old(state.associations) ==> table == old(table)
      ensures state.associations != old(state.associations) ==>
        table == TableOf(GroupSources(state.associations, state.associationSet), mainInterface, OutputInterfaces(netdevices))
    {
      var found := Scan(state.associations, AssociationEquals(PairKey(group, source)));
      FirstMatchUnique(state.associations, AssociationEquals(PairKey(group, source)), found);
      if found.Some? {
        return;
      }
      state.InsertAssociation(Association(group, source, mainAddress, 64));
      RoutingTableComputation();
    }

    /** RemoveHostMulticastAssociation: erase the pair, rebuild the table, drop the group's timer. */
    method RemoveHostMulticastAssociation(group: Addr, source: Addr)
      modifies state`associations, this`table, state`timerMap
      ensures state.associations == RemoveFirst(old(state.associations), AssociationEquals(PairKey(group, source)))
      ensures table == TableOf(GroupSources(state.associations, state.associationSet), mainInterface, OutputInterfaces(netdevices))
      ensures state.timerMap == old(state.timerMap) - {group}
    {
      state.EraseAssociation(PairKey(group, source));
      RoutingTableComputation();
      state.EraseTimer(group);
    }

    /********** Sending **********/

    /**
     * SendHello: a HELLO valid for three hello intervals, with the next
     * message sequence number, sent in a packet with the next packet
     * sequence number.
     */
    method SendHello() returns (packet: seq<Byte>)
      requires C <= 3.0 * helloInterval <= MAX_SECONDS
      modifies this`messageSequenceNumber, this`packetSequenceNumber
      ensures messageSequenceNumber == NextSeq(old(messageSequenceNumber))
      ensures packetSequenceNumber == NextSeq(old(packetSequenceNumber))
      ensures packet == OneMessagePacket(HelloMessage(3.0 * helloInterval, mainAddress, messageSequenceNumber,
                                                      willingness, state.associations), packetSequenceNumber)
    {
      var seqNum := GetMessageSequenceNumber();
      var msg := BuildHello(seqNum);
      ghost var hello := msg.Value();
      ghost var locals, self, will, interval := state.associations, mainAddress, willingness, helloInterval;
      packet := SendMessage(msg);
      assert msg.Value() == hello;
      assert state.associations == locals && mainAddress == self && willingness == will && helloInterval == interval;
      assert packet == OneMessagePacket(hello, packetSequenceNumber);
      assert hello == HelloMessage(3.0 * helloInterval, mainAddress, messageSequenceNumber, willingness, state.associations);
    }

    /** The message SendHello fills in. */
    method BuildHello(seqNum: U16) returns (msg: MessageHeader)
      requires C <= 3.0 * helloInterval <= MAX_SECONDS
      ensures fresh(msg) && fresh(msg.hello)
      ensures msg.Value() == HelloMessage(3.0 * helloInterval, mainAddress, seqNum, willingness, state.associations)
    {
      msg := HelloHeader(3.0 * helloInterval, seqNum);
      AppendAssociations(msg, state.associations);
    }

    /** A HELLO message header with no associations yet: Vtime, originator, TTL 255, sequence number, willingness. */
    method HelloHeader(holdTime: Time, seqNum: U16) returns (msg: MessageHeader)
      requires C <= holdTime <= MAX_SECONDS
      ensures fresh(msg) && fresh(msg.hello)
      ensures msg.Value() == HelloMessage(holdTime, mainAddress, seqNum, willingness, [])
    {
      msg := new MessageHeader();
      msg.SetVTime(holdTime);
      SetHelloFields(msg, seqNum);
    }

    /** The rest of the HELLO header after Vtime: originator, TTL 255, sequence number, type and willingness. */
    method SetHelloFields(msg: MessageHeader, seqNum: U16)
      requires msg.messageType == 0 && msg.hello.Value() == HelloBody(0, 0, [])
      modifies msg, msg.hello
      ensures msg.Value() == Message(HELLO_MESSAGE, old(msg.vTime), mainAddress, 255, seqNum, HelloBody(0, willingness, []))
    {
      msg.SetOriginatorAddress(mainAddress);
      msg.SetTimeToLive(255);
      msg.SetMessageSequenceNumber(seqNum);
      var hello := msg.GetHello();
      hello.willingness := willingness;
    }

    /** The association loop of SendHello: one advertised triple per local association, in order. */
    static method AppendAssociations(msg: MessageHeader, locals: seq<Association>)
      requires msg.hello.associations == []
      modifies msg.hello
      ensures msg.Value() == old(msg.Value()).(hello := old(msg.Value()).hello.(associations := Advertised(locals)))
    {
      var hello := msg.hello;
      var i := 0;
      while i < |locals|
        invariant i <= |locals|
        invariant msg.Value() == old(msg.Value()).(hello := old(msg.Value()).hello.(associations := Advertised(locals[..i])))
      {
        assert locals[..i + 1][..i] == locals[..i];
        hello.associations := hello.associations + [HelloAssociation(locals[i].group, locals[i].source, locals[i].will)];
        i := i + 1;
      }
      assert locals[..i] == locals;
    }

    /** SendMessage and SendPacket: the packet header (length and next sequence number), then the message. */
    method SendMessage(msg: MessageHeader) returns (packet: seq<Byte>)
      modifies this`packetSequenceNumber
      ensures packetSequenceNumber == NextSeq(old(packetSequenceNumber))
      ensures packet == OneMessagePacket(msg.Value(), packetSequenceNumber)
    {
      ghost var m := msg.Value();
      var header := new PacketHeader();
      header.SetPacketLength(Wrap16(header.GetSerializedSize() + msg.GetSerializedSize()));
      var packetSeq := GetPacketSequenceNumber();
      header.SetPacketSequenceNumber(packetSeq);
      ghost var head := header.Value();
      assert head == PacketHead(Wrap16(PKT_HEADER_SIZE + MessageSize(m)), packetSeq);
      var w := new Writer();
      header.Serialize(w);
      assert w.bytes == EncodePacketHeader(head);
      msg.Serialize(w);
      assert msg.Value() == m;
      packet := w.bytes;
    }

    /** HelloTimerExpire: send a HELLO and re-arm the hello timer. */
    method HelloTimerExpire() returns (packet: seq<Byte>, rearm: Event)
      requires C <= 3.0 * helloInterval <= MAX_SECONDS
      modifies this`messageSequenceNumber, this`packetSequenceNumber
      ensures messageSequenceNumber == NextSeq(old(messageSequenceNumber))
      ensures packetSequenceNumber == NextSeq(old(packetSequenceNumber))
      ensures packet == OneMessagePacket(HelloMessage(3.0 * helloInterval, mainAddress, messageSequenceNumber,
                                                      willingness, state.associations), packetSequenceNumber)
      ensures rearm == HelloTimer(helloInterval)
    {
      packet := SendHello();
      rearm := HelloTimer(helloInterval);
    }

    /** The end of DoInitialize once a socket is bound: the first HELLO, the first OLSR check, forwarding on. */
    method Start() returns (packet: seq<Byte>, events: seq<Event>)
      requires C <= 3.0 * helloInterval <= MAX_SECONDS
      modifies this`messageSequenceNumber, this`packetSequenceNumber, this`forward
      ensures forward
      ensures messageSequenceNumber == NextSeq(old(messageSequenceNumber))
      ensures packetSequenceNumber == NextSeq(old(packetSequenceNumber))
      ensures packet == OneMessagePacket(HelloMessage(3.0 * helloInterval, mainAddress, messageSequenceNumber,
                                                      willingness, state.associations), packetSequenceNumber)
      ensures events == [HelloTimer(helloInterval), OlsrCheck(FIRST_CHECK_DELAY)]
    {
      // DoInitialize raises m_forward last; nothing in between reads it, so the model raises it first.
      forward := true;
      var rearm;
      packet, rearm := HelloTimerExpire();
      events := [rearm, OlsrCheck(FIRST_CHECK_DELAY)];
    }
  }
}
