/**
 * The tuples of the AIMF repository and their hand-written equality.
 *
 * Each C++ struct is a value here, and each `operator==` is a predicate
 * that compares the struct's key fields only: expiry times and the
 * willingness carried by association tuples are not part of a tuple's
 * identity. The field sets are the ones the protocol engine fills in
 * (a neighbour carries its expiry time, an association tuple and a local
 * association carry a willingness byte).
 */
module Repository {
  import opened AimfTypes

  /** IfaceAssocTuple: an interface address of a node and its main address. */
  datatype IfaceAssocTuple = IfaceAssocTuple(ifaceAddr: Addr, mainAddr: Addr, time: Time)

  /** operator==(IfaceAssocTuple, IfaceAssocTuple) */
  predicate SameIfaceAssoc(a: IfaceAssocTuple, b: IfaceAssocTuple)
  {
    a.ifaceAddr == b.ifaceAddr && a.mainAddr == b.mainAddr
  }

  /** NeighborTuple::Status */
  datatype Status = NotSym | Sym

  /** NeighborTuple: a node heard from, its willingness (0..7 by convention) and when it expires. */
  datatype NeighborTuple = NeighborTuple(
    neighborMainAddr: Addr,
    status: Status,
    willingness: Byte,
    expirationTime: Time)

  /** operator==(NeighborTuple, NeighborTuple) */
  predicate SameNeighbor(a: NeighborTuple, b: NeighborTuple)
  {
    a.neighborMainAddr == b.neighborMainAddr && a.status == b.status && a.willingness == b.willingness
  }

  /** Association: a (group, source) pair this node has local members for. */
  datatype Association = Association(group: Addr, source: Addr, advertiser: Addr, will: Byte)

  /** operator==(Association, Association) */
  predicate SameAssociation(a: Association, b: Association)
  {
    a.group == b.group && a.source == b.source
  }

  /** AssociationTuple: a (group, source) pair advertised by a neighbour, until it expires. */
  datatype AssociationTuple = AssociationTuple(
    advertiser: Addr,
    group: Addr,
    source: Addr,
    expirationTime: Time,
    will: Byte)

  /** operator==(AssociationTuple, AssociationTuple) */
  predicate SameAssociationTuple(a: AssociationTuple, b: AssociationTuple)
  {
    a.group == b.group && a.source == b.source && a.advertiser == b.advertiser
  }

  /** The fields each equality compares, as one value per tuple. */
  function IfaceAssocKey(t: IfaceAssocTuple): (Addr, Addr) { (t.ifaceAddr, t.mainAddr) }
  function NeighborKey(t: NeighborTuple): (Addr, Status, Byte) { (t.neighborMainAddr, t.status, t.willingness) }
  function AssociationKey(a: Association): (Addr, Addr) { (a.group, a.source) }
  function AssociationTupleKey(t: AssociationTuple): (Addr, Addr, Addr) { (t.advertiser, t.group, t.source) }

  /** Each equality is equality of its key, hence an equivalence relation. */
  lemma EqualitiesAreKeyEqualities(i1: IfaceAssocTuple, i2: IfaceAssocTuple, n1: NeighborTuple, n2: NeighborTuple,
                                   a1: Association, a2: Association, t1: AssociationTuple, t2: AssociationTuple)
    ensures SameIfaceAssoc(i1, i2) <==> IfaceAssocKey(i1) == IfaceAssocKey(i2)
    ensures SameNeighbor(n1, n2) <==> NeighborKey(n1) == NeighborKey(n2)
    ensures SameAssociation(a1, a2) <==> AssociationKey(a1) == AssociationKey(a2)
    ensures SameAssociationTuple(t1, t2) <==> AssociationTupleKey(t1) == AssociationTupleKey(t2)
  {
  }

  /** The fields outside the key do not take part in equality. */
  lemma EqualitiesIgnoreNonKeyFields(i: IfaceAssocTuple, n: NeighborTuple, a: Association, t: AssociationTuple,
                                     time: Time, advertiser: Addr, will: Byte)
    ensures SameIfaceAssoc(i, i.(time := time))
    ensures SameNeighbor(n, n.(expirationTime := time))
    ensures SameAssociation(a, a.(advertiser := advertiser, will := will))
    ensures SameAssociationTuple(t, t.(expirationTime := time, will := will))
  {
  }

  /** The tests the state's scans use, one per Find and Erase operation. */
  function HasAddr(addr: Addr): NeighborTuple -> bool
  {
    (t: NeighborTuple) => t.neighborMainAddr == addr
  }

  function HasAddrAndWillingness(addr: Addr, will: Byte): NeighborTuple -> bool
  {
    (t: NeighborTuple) => t.neighborMainAddr == addr && t.willingness == will
  }

  function IsSymNeighbor(addr: Addr): NeighborTuple -> bool
  {
    (t: NeighborTuple) => t.neighborMainAddr == addr && t.status == Sym
  }

  function NeighborEquals(tuple: NeighborTuple): NeighborTuple -> bool
  {
    (t: NeighborTuple) => SameNeighbor(t, tuple)
  }

  function HasAssociationKey(advertiser: Addr, group: Addr, source: Addr): AssociationTuple -> bool
  {
    (t: AssociationTuple) => t.advertiser == advertiser && t.group == group && t.source == source
  }

  function AssociationTupleEquals(tuple: AssociationTuple): AssociationTuple -> bool
  {
    (t: AssociationTuple) => SameAssociationTuple(t, tuple)
  }

  function AssociationEquals(a: Association): Association -> bool
  {
    (x: Association) => SameAssociation(x, a)
  }

  function HasIfaceAddr(addr: Addr): IfaceAssocTuple -> bool
  {
    (t: IfaceAssocTuple) => t.ifaceAddr == addr
  }
}
