/**
 * The decisions of the AIMF routing protocol that depend only on values:
 * the DELAY macro, the multicast forwarding table the engine rebuilds from
 * its associations, the multicast lookup on that table, the unicast
 * best-route rule, the willingness of the neighbours that OLSR can reach,
 * and the per-group liveness window.
 *
 * The engine in module Protocol runs these with loops over its fields and
 * is proved to compute exactly these functions.
 */
module Forwarding {
  import opened AimfTypes
  import opened Repository
  import EmfTime

  /** Seconds (0.000001) */
  const MICROSECOND: Time := 0.000001

  /**
   * DELAY(time): the delay after which an event meant for `time` is run,
   * never earlier than one microsecond from now.
   */
  function Delay(time: Time, now: Time): (d: Time)
    ensures d >= MICROSECOND
    ensures now + d > time
    ensures time >= now ==> now + d - time == MICROSECOND
    ensures time < now ==> d == MICROSECOND
  {
    if time < now then MICROSECOND else time - now + MICROSECOND
  }

  // ---------------------------------------------------------------------
  // Multicast forwarding table

  /** Ipv4MulticastRoutingTableEntry: (source, group) arriving on one interface, leaving on others. */
  datatype McEntry = McEntry(origin: Addr, group: Addr, inputInterface: U32, outputInterfaces: seq<U32>)

  /** The multicast table: m_table, keyed by group. */
  type McTable = map<Addr, McEntry>

  function Zeros(n: nat): (r: seq<U32>)
    ensures |r| == n && forall i :: 0 <= i < n ==> r[i] == 0
  {
    if n == 0 then [] else Zeros(n - 1) + [0]
  }

  /**
   * The output interfaces of every entry: a vector of |netdevices| - 1
   * zeros, then the listening interfaces in increasing order
   * (std::copy through a back_inserter appends after the zeros). With no
   * listening interface the source asks for 2^64 - 1 zeros and fails
   * (AsWrittenNoListenerOverflows); the model gives the empty list.
   */
  function OutputInterfaces(netdevices: seq<U32>): (r: seq<U32>)
    ensures netdevices == [] ==> r == []
    ensures netdevices != [] ==> |r| == 2 * |netdevices| - 1 && r[|netdevices| - 1..] == netdevices
    ensures forall o :: o in r && o != 0 <==> o in netdevices && o != 0
  {
    if netdevices == [] then []
    else
      var r := Zeros(|netdevices| - 1) + netdevices;
      assert r[|netdevices| - 1..] == netdevices;
      r
  }

  /** The length `m_netdevice.size() - 1` as written: a size_t, so the difference is taken modulo 2^64. */
  function AsWrittenZeroCount(n: nat): nat
  {
    (n - 1) % 0x1_0000_0000_0000_0000
  }

  /**
   * As written, an empty listener set asks for a vector of 2^64 - 1
   * four-byte interfaces, more than a 64-bit address space holds, so the
   * rebuild cannot complete; for one listener or more the count is n - 1.
   */
  lemma AsWrittenNoListenerOverflows(n: nat)
    requires n < 0x1_0000_0000_0000_0000
    ensures AsWrittenZeroCount(0) == 0xFFFF_FFFF_FFFF_FFFF
    ensures 4 * AsWrittenZeroCount(0) > 0x1_0000_0000_0000_0000
    ensures n >= 1 ==> AsWrittenZeroCount(n) == n - 1
  {
  }

  /** The (group, source) pairs the table is built from: local associations first, then learned tuples. */
  function GroupSources(locals: seq<Association>, learned: seq<AssociationTuple>): seq<(Addr, Addr)>
  {
    Pairs(locals, AssociationKey) + Pairs(learned, TuplePair)
  }

  /** The pairs in order: every local association, then every learned tuple. */
  lemma GroupSourcesAt(locals: seq<Association>, learned: seq<AssociationTuple>)
    ensures |GroupSources(locals, learned)| == |locals| + |learned|
    ensures forall i :: 0 <= i < |locals| ==> GroupSources(locals, learned)[i] == (locals[i].group, locals[i].source)
    ensures forall i :: 0 <= i < |learned| ==>
      GroupSources(locals, learned)[|locals| + i] == (learned[i].group, learned[i].source)
  {
  }

  /** The (group, source) pair of each element of s, in order; `pair` picks it out of a local association or a learned tuple. */
  function Pairs<T>(s: seq<T>, pair: T -> (Addr, Addr)): (r: seq<(Addr, Addr)>)
    ensures |r| == |s|
    ensures forall i :: 0 <= i < |s| ==> r[i] == pair(s[i])
  {
    if s == [] then [] else Pairs(s[..|s| - 1], pair) + [pair(s[|s| - 1])]
  }

  /** The (group, source) of a learned association tuple. */
  function TuplePair(t: AssociationTuple): (Addr, Addr) { (t.group, t.source) }

  /** AddEntry for each pair in turn, starting from an empty table: m_table[group] = entry. */
  function TableOf(pairs: seq<(Addr, Addr)>, input: U32, outputs: seq<U32>): McTable
  {
    if pairs == [] then map[]
    else
      var last := pairs[|pairs| - 1];
      TableOf(pairs[..|pairs| - 1], input, outputs)[last.0 := McEntry(last.1, last.0, input, outputs)]
  }

  /**
   * The rebuilt table has one entry per group that occurs in the pairs, and
   * the entry for a group is the one for the LAST pair with that group:
   * a later pair overwrites an earlier one.
   */
  lemma {:induction false} TableOfLastWriter(pairs: seq<(Addr, Addr)>, input: U32, outputs: seq<U32>)
    ensures forall g :: g in TableOf(pairs, input, outputs) <==> exists i :: 0 <= i < |pairs| && pairs[i].0 == g
    ensures forall g :: g in TableOf(pairs, input, outputs) ==>
      exists i :: 0 <= i < |pairs| && pairs[i].0 == g
        && (forall j :: i < j < |pairs| ==> pairs[j].0 != g)
        && TableOf(pairs, input, outputs)[g] == McEntry(pairs[i].1, g, input, outputs)
  {
    if pairs != [] {
      var n := |pairs| - 1;
      var init := pairs[..n];
      TableOfLastWriter(init, input, outputs);
      var t := TableOf(pairs, input, outputs);
      assert t == TableOf(init, input, outputs)[pairs[n].0 := McEntry(pairs[n].1, pairs[n].0, input, outputs)];
      forall g
        ensures g in t <==> exists i :: 0 <= i < |pairs| && pairs[i].0 == g
      {
        if g in t && g != pairs[n].0 {
          var i :| 0 <= i < |init| && init[i].0 == g;
          assert pairs[i].0 == g;
        }
        if exists i :: 0 <= i < |pairs| && pairs[i].0 == g {
          var i :| 0 <= i < |pairs| && pairs[i].0 == g;
          if i < n { assert init[i].0 == g; }
        }
      }
      forall g | g in t
        ensures exists i :: (0 <= i < |pairs| && pairs[i].0 == g
                               && (forall j :: i < j < |pairs| ==> pairs[j].0 != g)
                               && t[g] == McEntry(pairs[i].1, g, input, outputs))
      {
        if g == pairs[n].0 {
          assert t[g] == McEntry(pairs[n].1, g, input, outputs);
        } else {
          var i :| 0 <= i < |init| && init[i].0 == g
            && (forall j :: i < j < |init| ==> init[j].0 != g)
            && TableOf(init, input, outputs)[g] == McEntry(init[i].1, g, input, outputs);
          assert pairs[i] == init[i];
          assert forall j :: i < j < |pairs| ==> pairs[j].0 != g by {
            forall j | i < j < |pairs|
              ensures pairs[j].0 != g
            {
              if j < n { assert pairs[j] == init[j]; }
            }
          }
        }
      }
    }
  }

  /** The rebuilt table has an entry for a group iff a local association or a learned tuple names it. */
  lemma RebuiltTableGroups(locals: seq<Association>, learned: seq<AssociationTuple>, input: U32, outputs: seq<U32>, g: Addr)
    ensures g in TableOf(GroupSources(locals, learned), input, outputs) <==>
      (exists i :: 0 <= i < |locals| && locals[i].group == g) || (exists i :: 0 <= i < |learned| && learned[i].group == g)
  {
    var pairs := GroupSources(locals, learned);
    GroupSourcesAt(locals, learned);
    TableOfLastWriter(pairs, input, outputs);
    if g in TableOf(pairs, input, outputs) {
      var i :| 0 <= i < |pairs| && pairs[i].0 == g;
      if i < |locals| {
        assert pairs[i] == (locals[i].group, locals[i].source);
      } else {
        assert pairs[|locals| + (i - |locals|)] == (learned[i - |locals|].group, learned[i - |locals|].source);
      }
    }
    if exists i :: 0 <= i < |locals| && locals[i].group == g {
      var i :| 0 <= i < |locals| && locals[i].group == g;
      assert pairs[i] == (locals[i].group, locals[i].source);
    }
    if exists i :: 0 <= i < |learned| && learned[i].group == g {
      var i :| 0 <= i < |learned| && learned[i].group == g;
      assert pairs[|locals| + i] == (learned[i].group, learned[i].source);
    }
  }

  /**
   * A learned tuple overrides the local associations: the entry of a group
   * that a learned tuple names carries the source of the last such tuple.
   */
  lemma LastLearnedWins(locals: seq<Association>, learned: seq<AssociationTuple>, input: U32, outputs: seq<U32>, i: nat)
    requires i < |learned|
    requires forall j :: i < j < |learned| ==> learned[j].group != learned[i].group
    ensures learned[i].group in TableOf(GroupSources(locals, learned), input, outputs)
    ensures TableOf(GroupSources(locals, learned), input, outputs)[learned[i].group]
            == McEntry(learned[i].source, learned[i].group, input, outputs)
  {
    var pairs := GroupSources(locals, learned);
    var g := learned[i].group;
    var k := |locals| + i;
    GroupSourcesAt(locals, learned);
    assert pairs[k] == (g, learned[i].source);
    forall j | k < j < |pairs|
      ensures pairs[j].0 != g
    {
      var l := j - |locals|;
      assert i < l < |learned|;
      assert pairs[j].0 == learned[l].group;
    }
    TableOfLast(pairs, input, outputs, k);
  }

  /** A pair that no later pair overrides gives its group's entry. */
  lemma {:induction false} TableOfLast(pairs: seq<(Addr, Addr)>, input: U32, outputs: seq<U32>, k: nat)
    requires k < |pairs|
    requires forall j :: k < j < |pairs| ==> pairs[j].0 != pairs[k].0
    ensures pairs[k].0 in TableOf(pairs, input, outputs)
    ensures TableOf(pairs, input, outputs)[pairs[k].0] == McEntry(pairs[k].1, pairs[k].0, input, outputs)
  {
    var n := |pairs| - 1;
    if k < n {
      var init := pairs[..n];
      assert init[k] == pairs[k];
      forall j | k < j < |init|
        ensures init[j].0 != init[k].0
      {
        assert init[j] == pairs[j];
      }
      TableOfLast(init, input, outputs, k);
    }
  }

  /** The table never holds more entries than there were pairs. */
  lemma {:induction false} TableOfSize(pairs: seq<(Addr, Addr)>, input: U32, outputs: seq<U32>)
    ensures |TableOf(pairs, input, outputs)| <= |pairs|
  {
    if pairs != [] {
      TableOfSize(pairs[..|pairs| - 1], input, outputs);
    }
  }

  /** Every entry is filed under its own group. */
  lemma {:induction false} TableOfKeyedByGroup(pairs: seq<(Addr, Addr)>, input: U32, outputs: seq<U32>)
    ensures forall g :: g in TableOf(pairs, input, outputs) ==> TableOf(pairs, input, outputs)[g].group == g
  {
    if pairs != [] {
      TableOfKeyedByGroup(pairs[..|pairs| - 1], input, outputs);
    }
  }

  // ---------------------------------------------------------------------
  // Multicast lookup

  /** Ipv4MulticastRoute: group, origin, parent (input) interface and a TTL per output interface. */
  datatype McRoute = McRoute(group: Addr, origin: Addr, parent: U32, outputTtl: map<U32, nat>)

  /** The route handed to the multicast forwarding callback: every non-zero output interface with TTL MAX_TTL - 1. */
  function RouteOf(e: McEntry): (r: McRoute)
    ensures r.group == e.group && r.origin == e.origin && r.parent == e.inputInterface
    ensures forall o :: o in r.outputTtl <==> o in e.outputInterfaces && o != 0
    ensures forall o :: o in r.outputTtl ==> r.outputTtl[o] == MAX_TTL - 1
  {
    McRoute(e.group, e.origin, e.inputInterface, map o | o in e.outputInterfaces && o != 0 :: MAX_TTL - 1)
  }

  /** Whether an entry serves packets of this group arriving on this interface (IF_ANY matches every interface). */
  predicate Serves(table: McTable, group: Addr, iface: U32)
  {
    group in table && table[group].group == group
      && (iface == IF_ANY || iface == table[group].inputInterface)
  }

  /**
   * The multicast LookupStatic: the route for the group's entry when the
   * entry serves the interface, nothing otherwise. The packet's origin is
   * not compared with the entry's.
   */
  function McLookup(table: McTable, group: Addr, iface: U32): (r: Option<McRoute>)
    ensures r.Some? <==> Serves(table, group, iface)
    ensures r.Some? ==> r.value == RouteOf(table[group]) && r.value.group == group
  {
    if Serves(table, group, iface) then Some(RouteOf(table[group])) else None
  }

  /** Multicast addresses: 224.0.0.0/4 (Ipv4Address::IsMulticast). */
  predicate IsMulticast(a: Addr)
  {
    0xE000_0000 <= a <= 0xEFFF_FFFF
  }

  // ---------------------------------------------------------------------
  // Unicast lookup

  /** An entry of m_networkRoutes: a destination network, its prefix length, gateway, interface and metric. */
  datatype NetworkRoute = NetworkRoute(network: Addr, prefixLength: nat, gateway: Addr, iface: U32, metric: U32)

  /** Ipv4Mask::IsMatch for the mask of the given prefix length: the leading bits agree. */
  predicate PrefixMatch(dest: Addr, network: Addr, prefixLength: nat)
  {
    prefixLength <= 32 && dest / EmfTime.Pow2(32 - prefixLength) == network / EmfTime.Pow2(32 - prefixLength)
  }

  /** Route i matches dest and, when an output interface is requested, leaves through it. */
  predicate Candidate(routes: seq<NetworkRoute>, dest: Addr, oif: Option<U32>, i: int)
  {
    0 <= i < |routes| && PrefixMatch(dest, routes[i].network, routes[i].prefixLength)
      && (oif.None? || oif.value == routes[i].iface)
  }

  /**
   * Route i is the one LookupStatic settles on among the first n routes:
   * the longest prefix, then the lowest metric, and among equals the last
   * one in the list.
   */
  ghost predicate IsBestAmong(routes: seq<NetworkRoute>, dest: Addr, oif: Option<U32>, i: int, n: nat)
  {
    && i < n <= |routes|
    && Candidate(routes, dest, oif, i)
    && (forall j :: 0 <= j < n && Candidate(routes, dest, oif, j) ==>
          routes[j].prefixLength < routes[i].prefixLength
          || (routes[j].prefixLength == routes[i].prefixLength && routes[i].metric <= routes[j].metric))
    && (forall j :: i < j < n && Candidate(routes, dest, oif, j) ==>
          routes[j].prefixLength < routes[i].prefixLength || routes[i].metric < routes[j].metric)
  }

  /** The rule names one route at most. */
  lemma BestRouteUnique(routes: seq<NetworkRoute>, dest: Addr, oif: Option<U32>, i: nat, k: nat, n: nat)
    requires IsBestAmong(routes, dest, oif, i, n) && IsBestAmong(routes, dest, oif, k, n)
    ensures i == k
  {
  }

  // ---------------------------------------------------------------------
  // Willingness arbitration

  /**
   * The largest willingness among the neighbours that appear as a
   * destination in the OLSR routing table, 0 when there is none.
   */
  function ReachableWillingness(neighbors: seq<NeighborTuple>, olsrDests: seq<Addr>): (j: Byte)
    ensures forall k :: 0 <= k < |neighbors| && neighbors[k].neighborMainAddr in olsrDests ==> neighbors[k].willingness <= j
    ensures j == 0 || exists k :: 0 <= k < |neighbors| && neighbors[k].neighborMainAddr in olsrDests && neighbors[k].willingness == j
  {
    if neighbors == [] then 0
    else
      var init := neighbors[..|neighbors| - 1];
      var j := ReachableWillingness(init, olsrDests);
      var last := neighbors[|neighbors| - 1];
      assert forall k :: 0 <= k < |init| ==> init[k] == neighbors[k];
      if last.neighborMainAddr in olsrDests && last.willingness >= j then last.willingness else j
  }

  /** The extra delay of the next arbitration: 6 - w seconds for willingness 1 to 6 (the switch falls through). */
  function RecheckExtra(w: Byte): (t: real)
    requires 1 <= w <= 6
    ensures 0.0 <= t <= 5.0
    ensures forall v: Byte :: 1 <= v <= 6 && v < w ==> RecheckExtra(v) > t
  {
    (6 - w) as real
  }

  /**
   * The arbitration rule "forward iff the best reachable willingness is at
   * most mine" holds exactly when no neighbour with an OLSR route is more
   * willing than w.
   */
  lemma ForwardIffNoneMoreWilling(neighbors: seq<NeighborTuple>, olsrDests: seq<Addr>, w: Byte)
    ensures ReachableWillingness(neighbors, olsrDests) <= w <==>
      forall k :: 0 <= k < |neighbors| && neighbors[k].neighborMainAddr in olsrDests ==> neighbors[k].willingness <= w
  {
  }

  /**
   * Two nodes x and y of equal willingness w that reach each other, and
   * reach nobody more willing, both see exactly w as the best reachable
   * willingness, so both forward: the rule has no tie-break.
   */
  lemma EqualWillingnessBothForward(w: Byte, x: Addr, y: Addr,
                                    xNeighbors: seq<NeighborTuple>, xDests: seq<Addr>, i: nat,
                                    yNeighbors: seq<NeighborTuple>, yDests: seq<Addr>, j: nat)
    requires i < |xNeighbors| && xNeighbors[i].neighborMainAddr == y && y in xDests && xNeighbors[i].willingness == w
    requires j < |yNeighbors| && yNeighbors[j].neighborMainAddr == x && x in yDests && yNeighbors[j].willingness == w
    requires forall k :: 0 <= k < |xNeighbors| && xNeighbors[k].neighborMainAddr in xDests ==> xNeighbors[k].willingness <= w
    requires forall k :: 0 <= k < |yNeighbors| && yNeighbors[k].neighborMainAddr in yDests ==> yNeighbors[k].willingness <= w
    ensures ReachableWillingness(xNeighbors, xDests) == w && ReachableWillingness(yNeighbors, yDests) == w
  {
    ForwardIffNoneMoreWilling(xNeighbors, xDests, w);
    ForwardIffNoneMoreWilling(yNeighbors, yDests, w);
  }

  // ---------------------------------------------------------------------
  // Per-group liveness window

  /**
   * ReceivingMulticast: the new deadline of a group's timer. A group seen
   * for the first time starts at now + 4 hello intervals + 2(7 - w) s;
   * then a deadline already passed is pushed back by 4 intervals + w s,
   * and a deadline still ahead becomes now + 4 intervals + (7 - w) s.
   */
  function WindowAfter(timer: Option<Time>, now: Time, helloInterval: Time, w: Byte): Time
  {
    var t := if timer.None? then now + 4.0 * helloInterval + (2 * (7 - w)) as real else timer.value;
    if t < now then t + 4.0 * helloInterval + w as real
    else if t > now then now + 4.0 * helloInterval + (7 - w) as real
    else t
  }

  /**
   * After a sighting the deadline is ahead of now exactly when it was
   * ahead (and 4 intervals + (7 - w) s is a positive window) or had passed
   * by less than 4 intervals + w s: a group quiet for longer than that is
   * still overdue after being seen.
   */
  lemma SightingRevivesIff(t: Time, now: Time, helloInterval: Time, w: Byte)
    ensures WindowAfter(Some(t), now, helloInterval, w) > now <==>
      || (t > now && 4.0 * helloInterval + (7 - w) as real > 0.0)
      || (t < now && now - t < 4.0 * helloInterval + w as real)
  {
  }

  /** A sighting while the deadline is ahead forgets how far ahead it was. */
  lemma SpottedDeadlineForgotten(t1: Time, t2: Time, now: Time, helloInterval: Time, w: Byte)
    requires t1 > now && t2 > now
    ensures WindowAfter(Some(t1), now, helloInterval, w) == WindowAfter(Some(t2), now, helloInterval, w)
  {
  }

  /**
   * A group seen for the first time does not keep the 2(7 - w) s window it
   * was created with: the deadline is ahead, so it is cut to (7 - w) s at
   * once; the two differ whenever w < 7.
   */
  lemma NewGroupWindow(now: Time, helloInterval: Time, w: Byte)
    requires helloInterval > 0.0 && w <= 7
    ensures WindowAfter(None, now, helloInterval, w) == now + 4.0 * helloInterval + (7 - w) as real
    ensures w < 7 ==> WindowAfter(None, now, helloInterval, w) < now + 4.0 * helloInterval + (2 * (7 - w)) as real
  {
  }
}
