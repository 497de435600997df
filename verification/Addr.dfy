/** Logical addresses: 14 bits of cluster, 8 bits of type, 10 bits of server. */
module Addr {
  import opened Basics

  const CLUSTER_UNIT := 0x4_0000
  const TYPE_UNIT := 0x400
  const HARBOR_TYPE := 255
  const MAX_CLUSTER := 16383
  const MAX_TYPE := 254
  const MAX_SERVER := 1023

  type LogicAddr = a: int | 0 <= a < TWO32

  function Cluster(a: LogicAddr): nat {
    a / CLUSTER_UNIT
  }

  function Type(a: LogicAddr): nat {
    a / TYPE_UNIT % 256
  }

  function Server(a: LogicAddr): nat {
    a % TYPE_UNIT
  }

  predicate IsHarbor(a: LogicAddr) {
    Type(a) == HARBOR_TYPE
  }

  datatype AddrError = InvalidCluster | InvalidType | InvalidServer | HarborType

  datatype AddrResult = Ok(addr: LogicAddr) | Err(error: AddrError)

  /** The conversion uint32(x) of a signed integer. */
  function Uint32(x: int): (r: nat)
    ensures r < TWO32
  {
    x % TWO32
  }

  function Pack(cluster: nat, tt: nat, server: nat): LogicAddr
    requires cluster <= MAX_CLUSTER && tt <= HARBOR_TYPE && server <= MAX_SERVER
  {
    cluster * CLUSTER_UNIT + tt * TYPE_UNIT + server
  }

  /** The address built from the three integers of a dotted logical address. */
  function MakeLogicAddr(cluster: int, tt: int, server: int): AddrResult {
    if cluster == 0 || Uint32(cluster) > MAX_CLUSTER then Err(InvalidCluster)
    else if tt == 0 || Uint32(tt) > MAX_TYPE then Err(InvalidType)
    else if Uint32(server) > MAX_SERVER then Err(InvalidServer)
    else Ok(Pack(Uint32(cluster), Uint32(tt), Uint32(server)))
  }

  function MakeHarborLogicAddr(cluster: int, tt: int, server: int): AddrResult {
    if cluster == 0 || Uint32(cluster) > MAX_CLUSTER then Err(InvalidCluster)
    else if Uint32(tt) != HARBOR_TYPE then Err(HarborType)
    else if Uint32(server) > MAX_SERVER then Err(InvalidServer)
    else Ok(Pack(Uint32(cluster), Uint32(tt), Uint32(server)))
  }

  lemma PackFields(cluster: nat, tt: nat, server: nat)
    requires cluster <= MAX_CLUSTER && tt <= HARBOR_TYPE && server <= MAX_SERVER
    ensures Cluster(Pack(cluster, tt, server)) == cluster
    ensures Type(Pack(cluster, tt, server)) == tt
    ensures Server(Pack(cluster, tt, server)) == server
  {
    var a := Pack(cluster, tt, server);
    assert a / TYPE_UNIT == cluster * 256 + tt;
  }

  lemma FieldsPack(a: LogicAddr)
    ensures Cluster(a) <= MAX_CLUSTER && Type(a) <= HARBOR_TYPE && Server(a) <= MAX_SERVER
    ensures Pack(Cluster(a), Type(a), Server(a)) == a
  {
    assert a / TYPE_UNIT / 256 == a / CLUSTER_UNIT;
  }

  /** Two addresses with the same three fields are one address. */
  lemma FieldsInjective(a: LogicAddr, b: LogicAddr)
    requires Cluster(a) == Cluster(b) && Type(a) == Type(b) && Server(a) == Server(b)
    ensures a == b
  {
    FieldsPack(a);
    FieldsPack(b);
  }

  /** Whether the printed form of an address parses back as an ordinary address. */
  predicate Decodable(a: LogicAddr) {
    MakeLogicAddr(Cluster(a), Type(a), Server(a)) == Ok(a)
  }

  lemma SmallUint32(x: nat)
    requires x < TWO32
    ensures Uint32(x) == x
  {
  }

  /** The conversions in the parsers change none of the fields. */
  lemma FieldsConvert(a: LogicAddr)
    ensures Uint32(Cluster(a)) == Cluster(a) && Uint32(Type(a)) == Type(a) && Uint32(Server(a)) == Server(a)
  {
    FieldsPack(a);
    SmallUint32(Cluster(a));
    SmallUint32(Type(a));
    SmallUint32(Server(a));
  }

  /** An address survives printing and parsing exactly when cluster and type are
      non-zero and it is not a harbor. */
  lemma DecodableExact(a: LogicAddr)
    ensures Decodable(a) <==> Cluster(a) != 0 && Type(a) != 0 && !IsHarbor(a)
  {
    var c, t, s := Cluster(a), Type(a), Server(a);
    FieldsPack(a);
    FieldsConvert(a);
    ParsedFields(a, c, t, s);
  }

  lemma HarborRoundTrip(a: LogicAddr)
    ensures MakeHarborLogicAddr(Cluster(a), Type(a), Server(a)) == Ok(a) <==> Cluster(a) != 0 && IsHarbor(a)
  {
    var c, t, s := Cluster(a), Type(a), Server(a);
    FieldsPack(a);
    FieldsConvert(a);
    ParsedFields(a, c, t, s);
  }

  lemma ParsedFields(a: LogicAddr, c: nat, t: nat, s: nat)
    requires c <= MAX_CLUSTER && t <= HARBOR_TYPE && s <= MAX_SERVER && Pack(c, t, s) == a
    requires Uint32(c) == c && Uint32(t) == t && Uint32(s) == s
    ensures MakeLogicAddr(c, t, s) == Ok(a) <==> c != 0 && t != 0 && t != HARBOR_TYPE
    ensures MakeHarborLogicAddr(c, t, s) == Ok(a) <==> c != 0 && t == HARBOR_TYPE
  {
  }

  /** The layout: cluster in the upper 14 bits, then 8 bits of type, then 10 bits of server. */
  lemma LayoutExact(cluster: nat, tt: nat, server: nat)
    requires cluster <= 16383 && tt <= 255 && server <= 1023
    ensures Pack(cluster, tt, server) == cluster * 262144 + tt * 1024 + server
  {
  }

  /** Addresses are ordered by cluster, then type, then server. */
  lemma OrderExact(a: LogicAddr, b: LogicAddr)
    ensures a < b <==>
            || Cluster(a) < Cluster(b)
            || (Cluster(a) == Cluster(b) && Type(a) < Type(b))
            || (Cluster(a) == Cluster(b) && Type(a) == Type(b) && Server(a) < Server(b))
  {
    FieldsPack(a);
    FieldsPack(b);
    PackedOrder(Cluster(a), Type(a), Server(a), Cluster(b), Type(b), Server(b));
  }

  lemma PackedOrder(c: nat, t: nat, s: nat, c': nat, t': nat, s': nat)
    requires c <= MAX_CLUSTER && t <= HARBOR_TYPE && s <= MAX_SERVER
    requires c' <= MAX_CLUSTER && t' <= HARBOR_TYPE && s' <= MAX_SERVER
    ensures Pack(c, t, s) < Pack(c', t', s') <==> c < c' || (c == c' && t < t') || (c == c' && t == t' && s < s')
  {
  }

  /** Three numbers parse to the ordinary address with exactly these fields if and only if they are
      in range. */
  lemma ParseExact(cluster: int, tt: int, server: int)
    ensures var r := MakeLogicAddr(cluster, tt, server);
            r.Ok? && Cluster(r.addr) == cluster && Type(r.addr) == tt && Server(r.addr) == server <==>
            1 <= cluster <= 16383 && 1 <= tt <= 254 && 0 <= server <= 1023
  {
    var c, t, s := Uint32(cluster), Uint32(tt), Uint32(server);
    if c <= MAX_CLUSTER && t <= MAX_TYPE && s <= MAX_SERVER {
      PackFields(c, t, s);
    }
    if 1 <= cluster <= 16383 && 1 <= tt <= 254 && 0 <= server <= 1023 {
      SmallUint32(cluster);
      SmallUint32(tt);
      SmallUint32(server);
    }
  }

  /** Larger numbers lose their upper bits before the range check: 2^32 passes for a cluster and
      becomes cluster 0, which is refused when written as such. */
  lemma WrappedCluster()
    ensures MakeLogicAddr(0x1_0000_0000, 1, 1) == Ok(Pack(0, 1, 1)) && MakeLogicAddr(0, 1, 1) == Err(InvalidCluster)
  {
  }
}
