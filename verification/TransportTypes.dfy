/** Bucket choice: the network a host is dialled on and the bucket its connections go to. */
module TransportTypes {
  import opened Options

  const TYPE_UDP: nat := 0
  const TYPE_TCP: nat := 1
  const TYPE_TLS: nat := 2
  const TYPE_TOTAL_COUNT: nat := 3

  type TransportType = t: nat | t < TYPE_TOTAL_COUNT

  /** The dynamic type of the net.Conn inside a connection. */
  datatype ConnKind = UdpConn | TcpConn | TlsConn

  /** An upstream host: its protocol and whether its transport has a TLS configuration. */
  datatype Host = Host(proto: string, tls: bool)

  function StringToTransportType(s: string): TransportType {
    if s == "udp" then TYPE_UDP
    else if s == "tcp" then TYPE_TCP
    else if s == "tcp-tls" then TYPE_TLS
    else TYPE_UDP
  }

  /** None stands for the two panics. */
  function TransportTypeFromConn(tls: bool, kind: ConnKind): Option<TransportType> {
    if kind.UdpConn? then Some(TYPE_UDP)
    else if !tls then if kind.TcpConn? then Some(TYPE_TCP) else None
    else if kind.TlsConn? then Some(TYPE_TLS) else None
  }

  function ProtoToNetwork(proto: string): string {
    if proto == "tls" then "tcp-tls" else proto
  }

  /** The network Dial asks for, given the protocol of the incoming request. */
  function NetworkFor(host: Host, requestProto: string): string {
    if host.proto != "dns" then ProtoToNetwork(host.proto) else requestProto
  }

  /** What dialling a network yields; None for a network the DNS client does not know. */
  function DialedKind(network: string): Option<ConnKind> {
    if network == "tcp-tls" then Some(TlsConn)
    else if network == "tcp" then Some(TcpConn)
    else if network == "udp" then Some(UdpConn)
    else None
  }

  /** How the configuration builds a host that is not reached over HTTPS. */
  predicate BuiltHost(host: Host) {
    && host.proto in ["dns", "udp", "tcp", "tls"]
    && host.tls == (host.proto == "tls")
  }

  predicate RequestProto(proto: string) {
    proto == "udp" || proto == "tcp"
  }

  /** A network that some request on this host can ask for. */
  ghost predicate NetworkOf(host: Host, network: string) {
    exists proto :: RequestProto(proto) && network == NetworkFor(host, proto)
  }

  /** Bucket choice on the way out and on the way in agree, so the panics are unreachable,
      and a bucket determines the kind of what it holds. */
  lemma BucketChoiceAgrees(host: Host, network: string)
    requires BuiltHost(host) && NetworkOf(host, network)
    ensures DialedKind(network).Some?
    ensures TransportTypeFromConn(host.tls, DialedKind(network).value) == Some(StringToTransportType(network))
    ensures forall kind :: TransportTypeFromConn(host.tls, kind) == Some(StringToTransportType(network))
                           <==> DialedKind(network) == Some(kind)
  {
    var proto :| RequestProto(proto) && network == NetworkFor(host, proto);
  }
}
