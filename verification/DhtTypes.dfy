/** Records of the DHT (toxcore/DHT.h, toxcore/network.h). */
module DhtTypes {
  import opened Words
  import opened XorMetric

  datatype Family = Unspec | IPv4 | IPv6 | TcpIPv4 | TcpIPv6 | OtherFamily

  /** An address: 4 or 16 bytes by family, and the port as it lies in memory. */
  datatype IPPort = IPPort(family: Family, addr: seq<bv8>, port: seq<bv8>)

  const EMPTY_IP_PORT := IPPort(Unspec, [], [0, 0])

  datatype Node = Node(publicKey: Key, ipPort: IPPort)

  datatype Assoc = Assoc(
    ipPort: IPPort, timestamp: u64, lastPinged: u64,
    retIpPort: IPPort, retTimestamp: u64, retIpSelf: bool)

  const EMPTY_ASSOC := Assoc(EMPTY_IP_PORT, 0, 0, EMPTY_IP_PORT, 0, false)

  datatype Client = Client(publicKey: Key, assoc4: Assoc, assoc6: Assoc, announceNode: bool)

  const PING_INTERVAL: nat := 60
  const PINGS_MISSED_NODE_GOES_BAD: nat := 1
  const PING_ROUNDTRIP: nat := 2
  const BAD_NODE_TIMEOUT: nat := PING_INTERVAL + PINGS_MISSED_NODE_GOES_BAD * (PING_INTERVAL + PING_ROUNDTRIP)

  /** assoc_timeout, in 64-bit arithmetic. */
  predicate AssocTimeout(curTime: u64, a: Assoc) {
    (a.timestamp + BAD_NODE_TIMEOUT) % U64_LIMIT <= curTime
  }
}
