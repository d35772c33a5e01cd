/**
 * A captured 802.11 frame as the agent's classifiers see it once the headers
 * have been peeked and removed: the ACK bit of the MAC header, which of the
 * optional headers are present, the IPv4 addresses and the UDP destination
 * port when present, and the first two MAC header addresses (Addr1 is the
 * receiver, Addr2 the transmitter).
 */
module Frames {
  import opened Commons

  datatype Ipv4Header = Ipv4Header(source: Ipv4, destination: Ipv4)

  datatype UdpHeader = UdpHeader(destinationPort: Port)

  datatype Frame = Frame(
    isAck: bool,
    hasLlcSnap: bool,
    hasArp: bool,
    ipv4: Option<Ipv4Header>,
    udp: Option<UdpHeader>,
    addr1: Mac,
    addr2: Mac)

  /** The source read from the IPv4 header; a header that was never filled in
      keeps its default-constructed addresses. */
  function SourceIp(f: Frame): Ipv4 {
    if f.ipv4.Some? then f.ipv4.value.source else DEFAULT_IP
  }

  function DestinationIp(f: Frame): Ipv4 {
    if f.ipv4.Some? then f.ipv4.value.destination else DEFAULT_IP
  }

  /** What both pipelines make of a frame: nothing, OLSR control traffic, or
      data traffic addressed to `receiver` at the link layer. */
  datatype FrameClass =
    | Ignored
    | Control(transmitter: Mac, srcIp: Ipv4)
    | Data(receiver: Mac, srcIp: Ipv4, dstIp: Ipv4)

  function Classify(f: Frame): (c: FrameClass)
    ensures c.Ignored? <==> f.isAck || f.hasArp || f.udp.None?
    ensures c.Control? <==> !f.isAck && !f.hasArp && f.udp.Some? && IsControlPort(f.udp.value.destinationPort)
    ensures c.Control? ==> c.transmitter == f.addr2 && c.srcIp == SourceIp(f)
    ensures c.Data? ==> c.receiver == f.addr1 && c.srcIp == SourceIp(f) && c.dstIp == DestinationIp(f)
  {
    if f.isAck || f.hasArp || f.udp.None? then Ignored
    else if f.udp.value.destinationPort != OLSR_PORT then Data(f.addr1, SourceIp(f), DestinationIp(f))
    else Control(f.addr2, SourceIp(f))
  }

  /** Whether an LLC/SNAP header is present never changes the outcome. */
  lemma ClassifyIgnoresLlcSnap(f: Frame, present: bool)
    ensures Classify(f.(hasLlcSnap := present)) == Classify(f)
  {
  }

  /** A missing IPv4 header does not stop processing: the frame is classified
      as before, with the default addresses in place of the header's. */
  lemma ClassifyWithoutIpv4(f: Frame)
    ensures Classify(f).Ignored? <==> Classify(f.(ipv4 := None)).Ignored?
    ensures Classify(f).Control? <==> Classify(f.(ipv4 := None)).Control?
    ensures Classify(f.(ipv4 := None)).Data? ==>
      Classify(f.(ipv4 := None)) == Data(f.addr1, DEFAULT_IP, DEFAULT_IP)
  {
  }
}
