/** Values shared by the model of the iWARP port mapper daemon: socket addresses,
    the wire message, mapped ports and mapping requests. */
module IwpmTypes {

  datatype Option<+T> = None | Some(value: T)

  /** AF_INET, AF_INET6, and every family the daemon does not support. */
  datatype Family = V4 | V6 | Other

  /** A socket address in the storage it overlays. The port lies at the same place for
      both families; an IPv4 address and an IPv6 address occupy different bytes, so both
      are kept and the family says which one counts. */
  datatype SockAddr = SockAddr(family: Family, port: nat, ip4: nat, ip6: nat)

  /** The IP address found in `a` when its bytes are read as family `f`. */
  function IpAs(f: Family, a: SockAddr): nat {
    match f
    case V4 => a.ip4
    case V6 => a.ip6
    case Other => 0
  }

  /** A zeroed address structure filled with one IP address and port. */
  function MakeAddr(f: Family, ip: nat, port: nat): SockAddr {
    match f
    case V4 => SockAddr(V4, port, ip, 0)
    case V6 => SockAddr(V6, port, 0, ip)
    case Other => SockAddr(Other, 0, 0, 0)
  }

  /** Two addresses are the same when family, IP address and port agree; addresses of an
      unsupported family are never the same, not even an address and itself. */
  predicate SameAddr(a: SockAddr, b: SockAddr) {
    a.family == b.family && a.family != Other && a.port == b.port
    && IpAs(a.family, a) == IpAs(a.family, b)
  }

  function PortOf(a: SockAddr): nat {
    if a.family == Other then 0 else a.port
  }

  predicate IsWild(a: SockAddr) {
    a.family != Other && IpAs(a.family, a) == 0
  }

  /** Two addresses are the same if and only if the bytes that count for their family agree;
      this is an equivalence on addresses of supported families. An address is a wildcard if
      and only if it is the same as the zero address with its port. */
  lemma SameAddrIff(a: SockAddr, b: SockAddr, c: SockAddr)
    ensures SameAddr(a, b) <==>
            && a.family != Other
            && MakeAddr(a.family, IpAs(a.family, a), a.port) == MakeAddr(b.family, IpAs(b.family, b), b.port)
    ensures IsWild(a) <==> SameAddr(a, MakeAddr(a.family, 0, a.port))
    ensures PortOf(a) == MakeAddr(a.family, IpAs(a.family, a), a.port).port
    ensures SameAddr(a, a) <==> a.family != Other
    ensures SameAddr(a, b) ==> SameAddr(b, a) && (SameAddr(b, c) ==> SameAddr(a, c))
  {
  }

  const MT_REQ: bv8 := 0
  const MT_ACC: bv8 := 1
  const MT_ACK: bv8 := 2
  const MT_REJ: bv8 := 3

  /** The datagram exchanged by two daemons. IP addresses are kept as numbers. */
  datatype WireMsg = WireMsg(magic: bv8, pmtime: nat, reserved: nat, apPort: nat, cpPort: nat,
                             handle: nat, cpIp: nat, apIp: nat, mappedCpIp: nat)

  /** The parameters of a message: `ap` is the accepting peer, `cp` the connecting peer. */
  datatype MsgParms = MsgParms(ipVer: bv8, family: Family, apIp: nat, apPort: nat,
                               cpIp: nat, cpPort: nat, mappedCpIp: nat, mappedCpPort: nat,
                               ver: bv8, mt: bv8, pmtime: nat, handle: nat)

  /** A message kept for retransmission, with the host it goes to. */
  datatype SendMsg = SendMsg(dest: nat, data: WireMsg)

  /** A mapped port object; `id` is its identity in memory and is never reused. */
  datatype MappedPort = MappedPort(id: nat, owner: int, local: SockAddr, mapped: SockAddr,
                                   wcard: bool, refCnt: int)

  datatype ReqKind = Query | Accept | Ack

  /** Type, sequence number and process id of the client message behind a request. */
  datatype NlHeader = NlHeader(kind: nat, seqno: nat, pid: nat)

  /** A request tracking object; `rid` is its identity and is never reused. */
  datatype MapRequest = MapRequest(rid: nat, src: SockAddr, remote: SockAddr, nl: NlHeader,
                                   handle: nat, sendMsg: Option<SendMsg>, timeout: int,
                                   complete: bool, kind: ReqKind)

  const REQ_TIMEOUT: int := 10

  /** A message to a client of the daemon. */
  datatype Note =
    | Connected(rid: nat, handle: nat, local: SockAddr, remote: SockAddr,
                mappedLocal: SockAddr, mappedRemote: SockAddr, portId: nat, nl: NlHeader)
    | Rejected(rid: nat, handle: nat, local: SockAddr, remote: SockAddr,
               mappedLocal: SockAddr, portId: nat, nl: NlHeader)
    | Incoming(handle: nat, local: SockAddr, remote: SockAddr,
               mappedLocal: SockAddr, mappedRemote: SockAddr, portId: nat)
}
