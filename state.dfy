/**
 * AimfState: the soft state of an AIMF node. Every collection is a
 * std::vector in the source and a sequence field here; every operation is
 * the source's iterator loop (Sequences.Scan) followed by an in-place
 * overwrite, an erase or a push_back.
 *
 * A C++ Find* returns a pointer into the vector, through which the engine
 * then writes; here it returns the index, and the write is one of the
 * Update* methods below.
 */
module State {
  import opened AimfTypes
  import opened Sequences
  import opened Repository

  /** No two neighbour tuples share an address. */
  ghost predicate UniqueAddrs(s: seq<NeighborTuple>)
  {
    forall i, j :: 0 <= i < j < |s| ==> s[i].neighborMainAddr != s[j].neighborMainAddr
  }

  /** InsertNeighborTuple: overwrite the first tuple with the same address, else append. */
  function Upsert(s: seq<NeighborTuple>, t: NeighborTuple): seq<NeighborTuple>
  {
    match FirstIndex(s, HasAddr(t.neighborMainAddr))
    case Some(i) => s[i := t]
    case None => s + [t]
  }

  /**
   * Inserting keeps one tuple per address: afterwards t is the only tuple
   * with its address and the tuples of every other address are unchanged.
   */
  lemma UpsertKeepsAddressesUnique(s: seq<NeighborTuple>, t: NeighborTuple)
    requires UniqueAddrs(s)
    ensures UniqueAddrs(Upsert(s, t))
    ensures forall u :: u in Upsert(s, t) <==> u == t || (u in s && u.neighborMainAddr != t.neighborMainAddr)
  {
    var p := HasAddr(t.neighborMainAddr);
    match FirstIndex(s, p)
    case Some(i) =>
      var r := s[i := t];
      forall u
        ensures u in r <==> u == t || (u in s && u.neighborMainAddr != t.neighborMainAddr)
      {
        if u in s && u.neighborMainAddr != t.neighborMainAddr {
          var k :| 0 <= k < |s| && s[k] == u;
          assert r[k] == u;
        }
        if u in r && u != t {
          var k :| 0 <= k < |r| && r[k] == u;
          assert k != i && s[k] == u;
          if k < i {
            assert s[k].neighborMainAddr != s[i].neighborMainAddr;
          } else {
            assert s[i].neighborMainAddr != s[k].neighborMainAddr;
          }
        }
        if u == t {
          assert r[i] == u;
        }
      }
    case None =>
      assert forall k :: 0 <= k < |s| ==> !p(s[k]);
  }

  /** After erasing by address from a set with unique addresses, the address is gone and the rest is untouched. */
  lemma EraseAddressRemovesIt(s: seq<NeighborTuple>, addr: Addr)
    requires UniqueAddrs(s)
    ensures UniqueAddrs(RemoveFirst(s, HasAddr(addr)))
    ensures forall u :: u in RemoveFirst(s, HasAddr(addr)) <==> u in s && u.neighborMainAddr != addr
  {
    RemoveFirstKeepsAddressesUnique(s, HasAddr(addr));
    forall u
      ensures u in RemoveFirst(s, HasAddr(addr)) <==> u in s && u.neighborMainAddr != addr
    {
      ErasedByAddress(s, addr, u);
    }
  }

  /** Erasing any one tuple leaves the addresses unique. */
  lemma RemoveFirstKeepsAddressesUnique(s: seq<NeighborTuple>, p: NeighborTuple -> bool)
    requires UniqueAddrs(s)
    ensures UniqueAddrs(RemoveFirst(s, p))
  {
    match FirstIndex(s, p)
    case Some(i) =>
      RemoveFirstAt(s, p, i);
      var r := RemoveAt(s, i);
      forall j, k | 0 <= j < k < |r|
        ensures r[j].neighborMainAddr != r[k].neighborMainAddr
      {
        var j', k' := if j < i then j else j + 1, if k < i then k else k + 1;
        assert r[j] == s[j'] && r[k] == s[k'];
      }
    case None =>
      RemoveFirstAbsent(s, p);
  }

  /** One tuple at a time: after erasing by address, a tuple is present iff it was and has another address. */
  lemma ErasedByAddress(s: seq<NeighborTuple>, addr: Addr, u: NeighborTuple)
    requires UniqueAddrs(s)
    ensures u in RemoveFirst(s, HasAddr(addr)) <==> u in s && u.neighborMainAddr != addr
  {
    var p := HasAddr(addr);
    match FirstIndex(s, p)
    case Some(i) =>
      RemoveFirstAt(s, p, i);
      var r := RemoveAt(s, i);
      if u in s && u.neighborMainAddr != addr {
        var k :| 0 <= k < |s| && s[k] == u;
        if k < i { assert r[k] == u; } else { assert k > i && r[k - 1] == u; }
      }
      if u in r {
        var k :| 0 <= k < |r| && r[k] == u;
        if k < i { assert s[k] == u; } else { assert s[k + 1] == u; }
      }
    case None =>
      RemoveFirstAbsent(s, p);
  }

  /** The largest willingness in the neighbour set, 0 when it is empty. */
  function MaxWillingness(s: seq<NeighborTuple>): (m: Byte)
    ensures forall j :: 0 <= j < |s| ==> s[j].willingness <= m
    ensures m == 0 || exists j :: 0 <= j < |s| && s[j].willingness == m
  {
    if |s| == 0 then 0
    else
      var m := MaxWillingness(s[..|s| - 1]);
      assert forall j :: 0 <= j < |s| - 1 ==> s[..|s| - 1][j] == s[j];
      if s[|s| - 1].willingness > m then s[|s| - 1].willingness else m
  }

  class AimfState {
    var neighborSet: seq<NeighborTuple>
    var timerMap: map<Addr, Time>
    var ifaceAssocSet: seq<IfaceAssocTuple>
    var associationSet: seq<AssociationTuple>
    var associations: seq<Association>

    constructor ()
      ensures neighborSet == [] && timerMap == map[] && ifaceAssocSet == []
      ensures associationSet == [] && associations == []
    {
      neighborSet := [];
      timerMap := map[];
      ifaceAssocSet := [];
      associationSet := [];
      associations := [];
    }

    /********** Neighbour set **********/

    method FindNeighborTuple(addr: Addr) returns (r: Option<nat>)
      ensures IsFirstMatch(neighborSet, HasAddr(addr), r)
    {
      r := Scan(neighborSet, HasAddr(addr));
    }

    method FindSymNeighborTuple(addr: Addr) returns (r: Option<nat>)
      ensures IsFirstMatch(neighborSet, IsSymNeighbor(addr), r)
    {
      r := Scan(neighborSet, IsSymNeighbor(addr));
    }

    /** The two-argument FindNeighborTuple. */
    method FindNeighborTupleWithWillingness(addr: Addr, will: Byte) returns (r: Option<nat>)
      ensures IsFirstMatch(neighborSet, HasAddrAndWillingness(addr, will), r)
    {
      r := Scan(neighborSet, HasAddrAndWillingness(addr, will));
    }

    /** True iff will is above every neighbour's willingness (and above 0). */
    method WillingnessOk(will: Byte) returns (ok: bool)
      ensures ok <==> will > MaxWillingness(neighborSet)
      ensures ok <==> will > 0 && forall j :: 0 <= j < |neighborSet| ==> neighborSet[j].willingness < will
    {
      var k: Byte := 0;
      var i := 0;
      while i < |neighborSet|
        invariant i <= |neighborSet|
        invariant k == MaxWillingness(neighborSet[..i])
      {
        assert neighborSet[..i + 1][..i] == neighborSet[..i];
        if neighborSet[i].willingness > k {
          k := neighborSet[i].willingness;
        }
        i := i + 1;
      }
      assert neighborSet[..i] == neighborSet;
      ok := will > k;
    }

    /** EraseNeighborTuple(tuple): erase the first tuple equal to it under operator==. */
    method EraseNeighborTuple(tuple: NeighborTuple)
      modifies this`neighborSet
      ensures neighborSet == RemoveFirst(old(neighborSet), NeighborEquals(tuple))
    {
      var r := Scan(neighborSet, NeighborEquals(tuple));
      if r.Some? {
        RemoveFirstAt(neighborSet, NeighborEquals(tuple), r.value);
        neighborSet := RemoveAt(neighborSet, r.value);
      } else {
        RemoveFirstAbsent(neighborSet, NeighborEquals(tuple));
      }
    }

    /** EraseNeighborTuple(mainAddr): erase the first tuple with that address. */
    method EraseNeighborTupleOf(addr: Addr)
      modifies this`neighborSet
      ensures neighborSet == RemoveFirst(old(neighborSet), HasAddr(addr))
    {
      var r := Scan(neighborSet, HasAddr(addr));
      if r.Some? {
        RemoveFirstAt(neighborSet, HasAddr(addr), r.value);
        neighborSet := RemoveAt(neighborSet, r.value);
      } else {
        RemoveFirstAbsent(neighborSet, HasAddr(addr));
      }
    }

    method InsertNeighborTuple(tuple: NeighborTuple)
      modifies this`neighborSet
      ensures neighborSet == Upsert(old(neighborSet), tuple)
    {
      var r := Scan(neighborSet, HasAddr(tuple.neighborMainAddr));
      FirstMatchUnique(neighborSet, HasAddr(tuple.neighborMainAddr), r);
      if r.Some? {
        neighborSet := neighborSet[r.value := tuple];
      } else {
        neighborSet := neighborSet + [tuple];
      }
    }

    /** The engine's writes through a found NeighborTuple pointer: new expiry and willingness. */
    method UpdateNeighborTuple(i: nat, expirationTime: Time, will: Byte)
      requires i < |neighborSet|
      modifies this`neighborSet
      ensures neighborSet == old(neighborSet[i := neighborSet[i].(expirationTime := expirationTime, willingness := will)])
    {
      neighborSet := neighborSet[i := neighborSet[i].(expirationTime := expirationTime, willingness := will)];
    }

    /********** Association set (learned) and local associations **********/

    method FindAssociationTuple(advertiser: Addr, group: Addr, source: Addr) returns (r: Option<nat>)
      ensures IsFirstMatch(associationSet, HasAssociationKey(advertiser, group, source), r)
    {
      r := Scan(associationSet, HasAssociationKey(advertiser, group, source));
    }

    method EraseAssociationTuple(tuple: AssociationTuple)
      modifies this`associationSet
      ensures associationSet == RemoveFirst(old(associationSet), AssociationTupleEquals(tuple))
    {
      var r := Scan(associationSet, AssociationTupleEquals(tuple));
      if r.Some? {
        RemoveFirstAt(associationSet, AssociationTupleEquals(tuple), r.value);
        associationSet := RemoveAt(associationSet, r.value);
      } else {
        RemoveFirstAbsent(associationSet, AssociationTupleEquals(tuple));
      }
    }

    method InsertAssociationTuple(tuple: AssociationTuple)
      modifies this`associationSet
      ensures associationSet == old(associationSet) + [tuple]
    {
      associationSet := associationSet + [tuple];
    }

    /** The engine's write through a found AssociationTuple pointer: a new expiry. */
    method UpdateAssociationTuple(i: nat, expirationTime: Time)
      requires i < |associationSet|
      modifies this`associationSet
      ensures associationSet == old(associationSet[i := associationSet[i].(expirationTime := expirationTime)])
    {
      associationSet := associationSet[i := associationSet[i].(expirationTime := expirationTime)];
    }

    method EraseAssociation(a: Association)
      modifies this`associations
      ensures associations == RemoveFirst(old(associations), AssociationEquals(a))
    {
      var r := Scan(associations, AssociationEquals(a));
      if r.Some? {
        RemoveFirstAt(associations, AssociationEquals(a), r.value);
        associations := RemoveAt(associations, r.value);
      } else {
        RemoveFirstAbsent(associations, AssociationEquals(a));
      }
    }

    method InsertAssociation(a: Association)
      modifies this`associations
      ensures associations == old(associations) + [a]
    {
      associations := associations + [a];
    }

    /********** Interface association set **********/

    method FindIfaceAssocTuple(addr: Addr) returns (r: Option<nat>)
      ensures IsFirstMatch(ifaceAssocSet, HasIfaceAddr(addr), r)
    {
      r := Scan(ifaceAssocSet, HasIfaceAddr(addr));
    }

    method InsertIfaceAssocTuple(tuple: IfaceAssocTuple)
      modifies this`ifaceAssocSet
      ensures ifaceAssocSet == old(ifaceAssocSet) + [tuple]
    {
      ifaceAssocSet := ifaceAssocSet + [tuple];
    }

    /********** Per-group timers **********/

    /** FindTimer: the time recorded for a group, if any. */
    method FindTimer(group: Addr) returns (r: Option<Time>)
      ensures r.Some? <==> group in timerMap
      ensures r.Some? ==> r.value == timerMap[group]
    {
      if group in timerMap {
        r := Some(timerMap[group]);
      } else {
        r := None;
      }
    }

    /** AddTimer, and the engine's write through a found Time pointer. */
    method AddTimer(group: Addr, time: Time)
      modifies this`timerMap
      ensures timerMap == old(timerMap)[group := time]
    {
      timerMap := timerMap[group := time];
    }

    method EraseTimer(group: Addr)
      modifies this`timerMap
      ensures timerMap == old(timerMap) - {group}
    {
      timerMap := timerMap - {group};
    }

    method ClearTimer()
      modifies this`timerMap
      ensures timerMap == map[]
    {
      timerMap := map[];
    }
  }
}
