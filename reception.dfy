/**
 * What receiving HELLO messages and the expiry callbacks do to the soft
 * state, as functions of values: the refresh-or-insert of association
 * tuples and neighbour tuples, the timers armed on insertion, and the
 * "has the deadline really passed" re-check of the expiry callbacks.
 *
 * Scheduling is not performed but returned: each Event is a request to
 * run a callback after a delay.
 */
module Reception {
  import opened AimfTypes
  import opened Sequences
  import opened Repository
  import opened State
  import opened Header
  import EmfTime
  import opened Forwarding

  /**
   * A callback the engine asks the scheduler to run after `delay` seconds:
   * AssociationTupleTimerExpire, RemoveNeighborset, the per-group timer
   * ReceivingMulticast arms, OlsrTimerExpire and HelloTimerExpire.
   */
  datatype Event =
    | AssociationTupleTimer(delay: Time, advertiser: Addr, group: Addr, source: Addr)
    | NeighborTimer(delay: Time, addr: Addr)
    | GroupTimer(delay: Time, group: Addr)
    | OlsrCheck(delay: Time)
    | HelloTimer(delay: Time)

  /** The learned part of the soft state. */
  datatype Soft = Soft(neighbors: seq<NeighborTuple>, tuples: seq<AssociationTuple>)

  /** No two association tuples share (advertiser, group, source). */
  ghost predicate UniqueKeys(s: seq<AssociationTuple>)
  {
    forall i, j :: 0 <= i < j < |s| ==> AssociationTupleKey(s[i]) != AssociationTupleKey(s[j])
  }

  ghost predicate WellKeyed(soft: Soft)
  {
    UniqueAddrs(soft.neighbors) && UniqueKeys(soft.tuples)
  }

  // ---------------------------------------------------------------------
  // Receiving

  /** RecvAimf hands a message to ProcessHello iff its TTL is not 0, it is not our own, and it is a HELLO. */
  predicate Processed(m: Message, self: Addr)
  {
    m.timeToLive != 0 && m.originator != self && m.messageType == HELLO_MESSAGE
  }

  /** The messages of a packet that RecvAimf processes, in order. */
  function Accepted(ms: seq<Message>, self: Addr): (r: seq<Message>)
    ensures forall m :: m in r <==> m in ms && Processed(m, self)
  {
    if ms == [] then []
    else
      var init := ms[..|ms| - 1];
      assert forall m :: m in ms <==> m in init || m == ms[|ms| - 1];
      Accepted(init, self) + (if Processed(ms[|ms| - 1], self) then [ms[|ms| - 1]] else [])
  }

  /** One advertised pair: refresh the expiry of (originator, group, source), or append a tuple and arm its timer. */
  function StepAssociation(tuples: seq<AssociationTuple>, orig: Addr, a: HelloAssociation, expiry: Time, now: Time)
    : (seq<AssociationTuple>, seq<Event>)
  {
    match FirstIndex(tuples, HasAssociationKey(orig, a.group, a.source))
    case Some(i) => (tuples[i := tuples[i].(expirationTime := expiry)], [])
    case None =>
      (tuples + [AssociationTuple(orig, a.group, a.source, expiry, a.willGroupSSM)],
       [AssociationTupleTimer(Delay(expiry, now), orig, a.group, a.source)])
  }

  /** The association loop of ProcessHello over all advertised pairs. */
  function AbsorbAssociations(tuples: seq<AssociationTuple>, orig: Addr, assocs: seq<HelloAssociation>, expiry: Time, now: Time)
    : (seq<AssociationTuple>, seq<Event>)
  {
    if assocs == [] then (tuples, [])
    else
      var prev := AbsorbAssociations(tuples, orig, assocs[..|assocs| - 1], expiry, now);
      var step := StepAssociation(prev.0, orig, assocs[|assocs| - 1], expiry, now);
      (step.0, prev.1 + step.1)
  }

  /** PopulateNeighborSet: refresh the originator's expiry and willingness, or insert it and arm its timer. */
  function StepNeighbor(neighbors: seq<NeighborTuple>, addr: Addr, will: Byte, expiry: Time, now: Time)
    : (seq<NeighborTuple>, seq<Event>)
  {
    match FirstIndex(neighbors, HasAddr(addr))
    case Some(i) => (neighbors[i := neighbors[i].(expirationTime := expiry, willingness := will)], [])
    case None => (Upsert(neighbors, NeighborTuple(addr, NotSym, will, expiry)), [NeighborTimer(Delay(expiry, now), addr)])
  }

  /** ProcessHello: both tuple kinds expire at now + the message's Vtime. */
  function HelloOutcome(soft: Soft, m: Message, now: Time): (Soft, seq<Event>)
  {
    var expiry := now + EmfTime.EmfToSeconds(m.vTime);
    var a := AbsorbAssociations(soft.tuples, m.originator, m.hello.associations, expiry, now);
    var n := StepNeighbor(soft.neighbors, m.originator, m.hello.willingness, expiry, now);
    (Soft(n.0, a.0), a.1 + n.1)
  }

  /** The processed messages of a packet, one after the other. */
  function PacketOutcome(soft: Soft, ms: seq<Message>, now: Time): (Soft, seq<Event>)
  {
    if ms == [] then (soft, [])
    else
      var prev := PacketOutcome(soft, ms[..|ms| - 1], now);
      var step := HelloOutcome(prev.0, ms[|ms| - 1], now);
      (step.0, prev.1 + step.1)
  }

  /**
   * A refresh-or-insert keeps one tuple per (advertiser, group, source),
   * leaves the pair with a tuple that expires at `expiry`, and adds a tuple
   * exactly when it arms a timer.
   */
  lemma StepAssociationKeepsKeysUnique(tuples: seq<AssociationTuple>, orig: Addr, a: HelloAssociation, expiry: Time, now: Time)
    requires UniqueKeys(tuples)
    ensures UniqueKeys(StepAssociation(tuples, orig, a, expiry, now).0)
    ensures |StepAssociation(tuples, orig, a, expiry, now).0| == |tuples| + |StepAssociation(tuples, orig, a, expiry, now).1|
    ensures exists k :: (0 <= k < |StepAssociation(tuples, orig, a, expiry, now).0|
                         && AssociationTupleKey(StepAssociation(tuples, orig, a, expiry, now).0[k]) == (orig, a.group, a.source)
                         && StepAssociation(tuples, orig, a, expiry, now).0[k].expirationTime == expiry)
    ensures forall k :: 0 <= k < |tuples| && AssociationTupleKey(tuples[k]) != (orig, a.group, a.source) ==>
      StepAssociation(tuples, orig, a, expiry, now).0[k] == tuples[k]
  {
    var p := HasAssociationKey(orig, a.group, a.source);
    var r := StepAssociation(tuples, orig, a, expiry, now).0;
    match FirstIndex(tuples, p)
    case Some(i) =>
      assert AssociationTupleKey(r[i]) == (orig, a.group, a.source);
    case None =>
      assert forall k :: 0 <= k < |tuples| ==> !p(tuples[k]);
      assert AssociationTupleKey(r[|tuples|]) == (orig, a.group, a.source);
  }

  /** A refresh-or-insert keeps every earlier tuple in place and changes at most its expiry. */
  lemma StepAssociationFrame(tuples: seq<AssociationTuple>, orig: Addr, a: HelloAssociation, expiry: Time, now: Time)
    ensures |StepAssociation(tuples, orig, a, expiry, now).0| >= |tuples|
    ensures forall k :: 0 <= k < |tuples| && AssociationTupleKey(tuples[k]) != (orig, a.group, a.source) ==>
      StepAssociation(tuples, orig, a, expiry, now).0[k] == tuples[k]
    ensures forall k :: 0 <= k < |tuples| ==>
      StepAssociation(tuples, orig, a, expiry, now).0[k]
        == tuples[k].(expirationTime := StepAssociation(tuples, orig, a, expiry, now).0[k].expirationTime)
  {
    match FirstIndex(tuples, HasAssociationKey(orig, a.group, a.source))
    case Some(i) =>
    case None =>
  }

  /**
   * ProcessHello's association loop creates no duplicates: afterwards every
   * advertised pair has its tuple, expiring at `expiry`, and one timer is
   * armed per tuple added.
   */
  lemma {:induction false} AbsorbKeepsKeysUnique(tuples: seq<AssociationTuple>, orig: Addr, assocs: seq<HelloAssociation>,
                                                 expiry: Time, now: Time)
    requires UniqueKeys(tuples)
    ensures UniqueKeys(AbsorbAssociations(tuples, orig, assocs, expiry, now).0)
    ensures |AbsorbAssociations(tuples, orig, assocs, expiry, now).0| == |tuples| + |AbsorbAssociations(tuples, orig, assocs, expiry, now).1|
    ensures forall a :: a in assocs ==>
      exists k :: 0 <= k < |AbsorbAssociations(tuples, orig, assocs, expiry, now).0|
        && AssociationTupleKey(AbsorbAssociations(tuples, orig, assocs, expiry, now).0[k]) == (orig, a.group, a.source)
        && AbsorbAssociations(tuples, orig, assocs, expiry, now).0[k].expirationTime == expiry
    decreases |assocs|
  {
    if assocs != [] {
      var n := |assocs| - 1;
      var init := assocs[..n];
      AbsorbKeepsKeysUnique(tuples, orig, init, expiry, now);
      var prev := AbsorbAssociations(tuples, orig, init, expiry, now);
      StepAssociationKeepsKeysUnique(prev.0, orig, assocs[n], expiry, now);
      var r := StepAssociation(prev.0, orig, assocs[n], expiry, now).0;
      assert AbsorbAssociations(tuples, orig, assocs, expiry, now).0 == r;
      forall a | a in assocs
        ensures exists k :: 0 <= k < |r| && AssociationTupleKey(r[k]) == (orig, a.group, a.source) && r[k].expirationTime == expiry
      {
        if a != assocs[n] {
          assert a in init by {
            var i :| 0 <= i < |assocs| && assocs[i] == a;
            assert i < n && init[i] == a;
          }
          var k :| 0 <= k < |prev.0| && AssociationTupleKey(prev.0[k]) == (orig, a.group, a.source) && prev.0[k].expirationTime == expiry;
          if (orig, a.group, a.source) == (orig, assocs[n].group, assocs[n].source) {
          } else {
            assert r[k] == prev.0[k];
          }
        }
      }
    }
  }

  /**
   * The association loop touches nothing but expiries: every earlier tuple
   * keeps its place and all its other fields, and a tuple whose key is not
   * advertised is left exactly as it was.
   */
  lemma {:induction false} AbsorbLeavesOtherKeys(tuples: seq<AssociationTuple>, orig: Addr, assocs: seq<HelloAssociation>,
                                                 expiry: Time, now: Time)
    ensures |AbsorbAssociations(tuples, orig, assocs, expiry, now).0| >= |tuples|
    ensures forall k :: 0 <= k < |tuples| ==>
      AbsorbAssociations(tuples, orig, assocs, expiry, now).0[k]
        == tuples[k].(expirationTime := AbsorbAssociations(tuples, orig, assocs, expiry, now).0[k].expirationTime)
    ensures forall k :: 0 <= k < |tuples| && (forall a :: a in assocs ==> AssociationTupleKey(tuples[k]) != (orig, a.group, a.source)) ==>
      AbsorbAssociations(tuples, orig, assocs, expiry, now).0[k] == tuples[k]
    decreases |assocs|
  {
    if assocs != [] {
      var n := |assocs| - 1;
      var init := assocs[..n];
      AbsorbLeavesOtherKeys(tuples, orig, init, expiry, now);
      var prev := AbsorbAssociations(tuples, orig, init, expiry, now);
      StepAssociationFrame(prev.0, orig, assocs[n], expiry, now);
      var r := StepAssociation(prev.0, orig, assocs[n], expiry, now).0;
      assert AbsorbAssociations(tuples, orig, assocs, expiry, now).0 == r;
      forall k | 0 <= k < |tuples| && (forall a :: a in assocs ==> AssociationTupleKey(tuples[k]) != (orig, a.group, a.source))
        ensures r[k] == tuples[k]
      {
        forall a | a in init
          ensures AssociationTupleKey(tuples[k]) != (orig, a.group, a.source)
        {
          var i :| 0 <= i < |init| && init[i] == a;
          assert assocs[i] == a;
        }
        assert prev.0[k] == tuples[k];
        assert assocs[n] in assocs;
      }
    }
  }

  /** PopulateNeighborSet keeps one tuple per address and leaves the originator with the advertised willingness and expiry. */
  lemma StepNeighborKeepsAddressesUnique(neighbors: seq<NeighborTuple>, addr: Addr, will: Byte, expiry: Time, now: Time)
    requires UniqueAddrs(neighbors)
    ensures UniqueAddrs(StepNeighbor(neighbors, addr, will, expiry, now).0)
    ensures exists k :: (0 <= k < |StepNeighbor(neighbors, addr, will, expiry, now).0|
                         && StepNeighbor(neighbors, addr, will, expiry, now).0[k].neighborMainAddr == addr
                         && StepNeighbor(neighbors, addr, will, expiry, now).0[k].willingness == will
                         && StepNeighbor(neighbors, addr, will, expiry, now).0[k].expirationTime == expiry)
  {
    var r := StepNeighbor(neighbors, addr, will, expiry, now).0;
    match FirstIndex(neighbors, HasAddr(addr))
    case Some(i) =>
      assert r[i].neighborMainAddr == addr;
    case None =>
      var t := NeighborTuple(addr, NotSym, will, expiry);
      UpsertKeepsAddressesUnique(neighbors, t);
      assert t in r;
  }

  /**
   * Processing a HELLO keeps the soft state well keyed and leaves every
   * association tuple whose key the HELLO does not advertise where and as
   * it was; in particular the tuples of other advertisers.
   */
  lemma HelloOutcomeWellKeyed(soft: Soft, m: Message, now: Time)
    requires WellKeyed(soft)
    ensures WellKeyed(HelloOutcome(soft, m, now).0)
    ensures |HelloOutcome(soft, m, now).0.tuples| >= |soft.tuples|
    ensures forall k :: 0 <= k < |soft.tuples| ==>
      (forall a :: a in m.hello.associations ==> AssociationTupleKey(soft.tuples[k]) != (m.originator, a.group, a.source)) ==>
        HelloOutcome(soft, m, now).0.tuples[k] == soft.tuples[k]
  {
    var expiry := now + EmfTime.EmfToSeconds(m.vTime);
    var a := AbsorbAssociations(soft.tuples, m.originator, m.hello.associations, expiry, now);
    var n := StepNeighbor(soft.neighbors, m.originator, m.hello.willingness, expiry, now);
    assert HelloOutcome(soft, m, now).0 == Soft(n.0, a.0);
    AbsorbKeepsKeysUnique(soft.tuples, m.originator, m.hello.associations, expiry, now);
    AbsorbLeavesOtherKeys(soft.tuples, m.originator, m.hello.associations, expiry, now);
    StepNeighborKeepsAddressesUnique(soft.neighbors, m.originator, m.hello.willingness, expiry, now);
  }

  /**
   * A processed HELLO leaves a neighbour tuple for its originator with its
   * willingness, expiring at now + Vtime, and the state stays well keyed.
   */
  lemma HelloInstalls(soft: Soft, m: Message, now: Time)
    requires WellKeyed(soft)
    ensures WellKeyed(HelloOutcome(soft, m, now).0)
    ensures exists k :: (0 <= k < |HelloOutcome(soft, m, now).0.neighbors|
      && HelloOutcome(soft, m, now).0.neighbors[k].neighborMainAddr == m.originator
      && HelloOutcome(soft, m, now).0.neighbors[k].willingness == m.hello.willingness
      && HelloOutcome(soft, m, now).0.neighbors[k].expirationTime == now + EmfTime.EmfToSeconds(m.vTime))
  {
    var expiry := now + EmfTime.EmfToSeconds(m.vTime);
    var a := AbsorbAssociations(soft.tuples, m.originator, m.hello.associations, expiry, now);
    var n := StepNeighbor(soft.neighbors, m.originator, m.hello.willingness, expiry, now);
    assert HelloOutcome(soft, m, now).0 == Soft(n.0, a.0);
    AbsorbKeepsKeysUnique(soft.tuples, m.originator, m.hello.associations, expiry, now);
    StepNeighborKeepsAddressesUnique(soft.neighbors, m.originator, m.hello.willingness, expiry, now);
  }

  /** Each pair a processed HELLO advertises has a tuple keyed (originator, group, source) that expires at now + Vtime. */
  lemma HelloInstallsPair(soft: Soft, m: Message, now: Time, x: HelloAssociation)
    requires WellKeyed(soft) && x in m.hello.associations
    ensures exists k :: (0 <= k < |HelloOutcome(soft, m, now).0.tuples|
      && AssociationTupleKey(HelloOutcome(soft, m, now).0.tuples[k]) == (m.originator, x.group, x.source)
      && HelloOutcome(soft, m, now).0.tuples[k].expirationTime == now + EmfTime.EmfToSeconds(m.vTime))
  {
    var expiry := now + EmfTime.EmfToSeconds(m.vTime);
    var a := AbsorbAssociations(soft.tuples, m.originator, m.hello.associations, expiry, now);
    assert HelloOutcome(soft, m, now).0.tuples == a.0;
    AbsorbKeepsKeysUnique(soft.tuples, m.originator, m.hello.associations, expiry, now);
  }

  /**
   * Two advertisers of the same (group, source) each keep their own tuple:
   * after a packet carrying A's HELLO and then B's, both (A, group, source)
   * and (B, group, source) are in the association set.
   */
  lemma TuplesFromDifferentAdvertisersCoexist(soft: Soft, ma: Message, mb: Message, now: Time,
                                             xa: HelloAssociation, xb: HelloAssociation)
    requires WellKeyed(soft)
    requires ma.originator != mb.originator
    requires xa in ma.hello.associations && xb in mb.hello.associations
    requires xa.group == xb.group && xa.source == xb.source
    ensures exists k :: (0 <= k < |PacketOutcome(soft, [ma, mb], now).0.tuples|
      && AssociationTupleKey(PacketOutcome(soft, [ma, mb], now).0.tuples[k]) == (ma.originator, xa.group, xa.source))
    ensures exists k :: (0 <= k < |PacketOutcome(soft, [ma, mb], now).0.tuples|
      && AssociationTupleKey(PacketOutcome(soft, [ma, mb], now).0.tuples[k]) == (mb.originator, xb.group, xb.source))
  {
    OneMessageOutcome(soft, ma, ma.originator, now);
    assert [ma, mb][..1] == [ma];
    var mid := HelloOutcome(soft, ma, now).0;
    assert PacketOutcome(soft, [ma, mb], now).0 == HelloOutcome(mid, mb, now).0;
    HelloInstallsPair(soft, ma, now, xa);
    HelloOutcomeWellKeyed(soft, ma, now);
    var ka :| 0 <= ka < |mid.tuples| && AssociationTupleKey(mid.tuples[ka]) == (ma.originator, xa.group, xa.source)
      && mid.tuples[ka].expirationTime == now + EmfTime.EmfToSeconds(ma.vTime);
    HelloOutcomeWellKeyed(mid, mb, now);
    assert HelloOutcome(mid, mb, now).0.tuples[ka] == mid.tuples[ka];
    HelloInstallsPair(mid, mb, now, xb);
  }

  /** A packet of one message processes it iff Processed holds, with that message's outcome. */
  lemma OneMessageOutcome(soft: Soft, m: Message, self: Addr, now: Time)
    ensures Accepted([m], self) == if Processed(m, self) then [m] else []
    ensures PacketOutcome(soft, [m], now) == HelloOutcome(soft, m, now)
  {
    assert [m][..0] == [];
    assert [] + HelloOutcome(soft, m, now).1 == HelloOutcome(soft, m, now).1;
  }

  /** So does processing a whole packet. */
  lemma {:induction false} PacketOutcomeWellKeyed(soft: Soft, ms: seq<Message>, now: Time)
    requires WellKeyed(soft)
    ensures WellKeyed(PacketOutcome(soft, ms, now).0)
    decreases |ms|
  {
    if ms != [] {
      PacketOutcomeWellKeyed(soft, ms[..|ms| - 1], now);
      HelloOutcomeWellKeyed(PacketOutcome(soft, ms[..|ms| - 1], now).0, ms[|ms| - 1], now);
    }
  }

  // ---------------------------------------------------------------------
  // Expiry callbacks

  /**
   * AssociationTupleTimerExpire: nothing if the tuple is gone; erase it if
   * its expiry has passed; otherwise run again at its current expiry.
   */
  function AssociationExpiry(tuples: seq<AssociationTuple>, adv: Addr, group: Addr, source: Addr, now: Time)
    : (seq<AssociationTuple>, seq<Event>)
  {
    match FirstIndex(tuples, HasAssociationKey(adv, group, source))
    case None => (tuples, [])
    case Some(i) =>
      if tuples[i].expirationTime < now then (RemoveAt(tuples, i), [])
      else (tuples, [AssociationTupleTimer(Delay(tuples[i].expirationTime, now), adv, group, source)])
  }

  /** RemoveNeighborset: the same re-check for a neighbour tuple. */
  function NeighborExpiry(neighbors: seq<NeighborTuple>, addr: Addr, now: Time): (seq<NeighborTuple>, seq<Event>)
  {
    match FirstIndex(neighbors, HasAddr(addr))
    case None => (neighbors, [])
    case Some(i) =>
      if neighbors[i].expirationTime < now then (RemoveAt(neighbors, i), [])
      else (neighbors, [NeighborTimer(Delay(neighbors[i].expirationTime, now), neighbors[i].neighborMainAddr)])
  }

  /**
   * An association expiry callback removes the tuple of its key only if
   * that tuple has expired, keeps every other tuple, and re-arms itself
   * exactly when it keeps a tuple of its key.
   */
  lemma AssociationExpiryRemovesOnlyExpired(tuples: seq<AssociationTuple>, adv: Addr, group: Addr, source: Addr, now: Time)
    requires UniqueKeys(tuples)
    ensures forall u :: u in AssociationExpiry(tuples, adv, group, source, now).0 <==>
      u in tuples && !(AssociationTupleKey(u) == (adv, group, source) && u.expirationTime < now)
    ensures |AssociationExpiry(tuples, adv, group, source, now).1| == 1 <==>
      exists k :: 0 <= k < |tuples| && AssociationTupleKey(tuples[k]) == (adv, group, source) && tuples[k].expirationTime >= now
  {
    var p := HasAssociationKey(adv, group, source);
    match FirstIndex(tuples, p)
    case None =>
      assert forall k :: 0 <= k < |tuples| ==> !p(tuples[k]);
    case Some(i) =>
      var r := AssociationExpiry(tuples, adv, group, source, now).0;
      forall k | 0 <= k < |tuples| && AssociationTupleKey(tuples[k]) == (adv, group, source)
        ensures k == i
      {
      }
      if tuples[i].expirationTime < now {
        forall u
          ensures u in r <==> u in tuples && !(AssociationTupleKey(u) == (adv, group, source) && u.expirationTime < now)
        {
          if u in tuples && !(AssociationTupleKey(u) == (adv, group, source) && u.expirationTime < now) {
            var k :| 0 <= k < |tuples| && tuples[k] == u;
            if k < i { assert r[k] == u; } else { assert k > i && r[k - 1] == u; }
          }
          if u in r {
            var k :| 0 <= k < |r| && r[k] == u;
            if k < i { assert tuples[k] == u; } else { assert tuples[k + 1] == u; }
          }
        }
      }
  }

  /** The same for a neighbour tuple: only an expired tuple of that address is removed. */
  lemma NeighborExpiryRemovesOnlyExpired(neighbors: seq<NeighborTuple>, addr: Addr, now: Time)
    requires UniqueAddrs(neighbors)
    ensures forall u :: u in NeighborExpiry(neighbors, addr, now).0 <==>
      u in neighbors && !(u.neighborMainAddr == addr && u.expirationTime < now)
    ensures |NeighborExpiry(neighbors, addr, now).1| == 1 <==>
      exists k :: 0 <= k < |neighbors| && neighbors[k].neighborMainAddr == addr && neighbors[k].expirationTime >= now
  {
    var p := HasAddr(addr);
    match FirstIndex(neighbors, p)
    case None =>
      assert forall k :: 0 <= k < |neighbors| ==> !p(neighbors[k]);
    case Some(i) =>
      var r := NeighborExpiry(neighbors, addr, now).0;
      forall k | 0 <= k < |neighbors| && neighbors[k].neighborMainAddr == addr
        ensures k == i
      {
      }
      if neighbors[i].expirationTime < now {
        forall u
          ensures u in r <==> u in neighbors && !(u.neighborMainAddr == addr && u.expirationTime < now)
        {
          if u in neighbors && !(u.neighborMainAddr == addr && u.expirationTime < now) {
            var k :| 0 <= k < |neighbors| && neighbors[k] == u;
            if k < i { assert r[k] == u; } else { assert k > i && r[k - 1] == u; }
          }
          if u in r {
            var k :| 0 <= k < |r| && r[k] == u;
            if k < i { assert neighbors[k] == u; } else { assert neighbors[k + 1] == u; }
          }
        }
      }
  }

  /** The tuple the association callback finds is the one RemoveAssociationTuple then erases: the first equal one. */
  lemma FoundTupleIsFirstEqual(tuples: seq<AssociationTuple>, adv: Addr, group: Addr, source: Addr, i: nat)
    requires IsFirstMatch(tuples, HasAssociationKey(adv, group, source), Some(i))
    ensures RemoveFirst(tuples, AssociationTupleEquals(tuples[i])) == RemoveAt(tuples, i)
  {
    var p := AssociationTupleEquals(tuples[i]);
    assert IsFirstMatch(tuples, p, Some(i)) by {
      forall j | 0 <= j < i
        ensures !p(tuples[j])
      {
        assert !HasAssociationKey(adv, group, source)(tuples[j]);
      }
    }
    RemoveFirstAt(tuples, p, i);
  }

  // ---------------------------------------------------------------------
  // Per-group liveness timers

  /** The deadline a group's timer holds, if it has one. */
  function TimerOf(timers: map<Addr, Time>, group: Addr): Option<Time>
  {
    if group in timers then Some(timers[group]) else None
  }

  /** ReceivingMulticast on the timer map: the group's deadline becomes WindowAfter of the old one. */
  function SightingTimers(timers: map<Addr, Time>, group: Addr, now: Time, helloInterval: Time, w: Byte): map<Addr, Time>
  {
    timers[group := WindowAfter(TimerOf(timers, group), now, helloInterval, w)]
  }

  /**
   * A sighting touches only the seen group's deadline, gives every new group
   * one, and leaves a known group's deadline ahead of now exactly when it
   * was ahead (with a positive window) or had passed by less than 4 hello
   * intervals + w s.
   */
  lemma SightingOnlyMovesItsGroup(timers: map<Addr, Time>, group: Addr, now: Time, helloInterval: Time, w: Byte)
    ensures SightingTimers(timers, group, now, helloInterval, w).Keys == timers.Keys + {group}
    ensures forall g :: g in timers && g != group ==> SightingTimers(timers, group, now, helloInterval, w)[g] == timers[g]
    ensures group in timers ==>
      (SightingTimers(timers, group, now, helloInterval, w)[group] > now <==>
        || (timers[group] > now && 4.0 * helloInterval + (7 - w) as real > 0.0)
        || (timers[group] < now && now - timers[group] < 4.0 * helloInterval + w as real))
  {
    if group in timers {
      SightingRevivesIff(timers[group], now, helloInterval, w);
    }
  }

  /** The callback ReceivingMulticast arms for a group it had no timer for. */
  function SightingEvents(timers: map<Addr, Time>, group: Addr, now: Time, helloInterval: Time, w: Byte): seq<Event>
  {
    if group in timers then []
    else [GroupTimer(Delay(now + 4.0 * helloInterval + (2 * (7 - w)) as real, now), group)]
  }
}
