/** The packed node format of toxcore/DHT.c: writing and reading lists of nodes. */
module NodeCodec {
  import opened DhtTypes
  import opened Wrappers

  const CRYPTO_PUBLIC_KEY_SIZE: nat := 32
  const SIZE_IP4: nat := 4
  const SIZE_IP6: nat := 16
  const SIZE_PORT: nat := 2

  const TOX_AF_INET: bv8 := 2
  const TOX_AF_INET6: bv8 := 10
  const TOX_TCP_INET: bv8 := 130
  const TOX_TCP_INET6: bv8 := 138

  /** Families that have a packed form. */
  predicate Packable(f: Family) { f.IPv4? || f.TcpIPv4? || f.IPv6? || f.TcpIPv6? }

  predicate IsV4(f: Family) { f.IPv4? || f.TcpIPv4? }

  predicate IsTcp(f: Family) { f.TcpIPv4? || f.TcpIPv6? }

  function AddrSize(f: Family): nat { if IsV4(f) then SIZE_IP4 else SIZE_IP6 }

  /** The fields have the sizes of the C structures. */
  predicate Sized(n: Node) {
    && (Packable(n.ipPort.family) ==> |n.ipPort.addr| == AddrSize(n.ipPort.family))
    && |n.ipPort.port| == SIZE_PORT && |n.publicKey| == CRYPTO_PUBLIC_KEY_SIZE
  }

  predicate AllSized(ns: seq<Node>) { forall i :: 0 <= i < |ns| ==> Sized(ns[i]) }

  function FamilyByte(f: Family): bv8
    requires Packable(f)
  {
    match f
    case IPv4 => TOX_AF_INET
    case TcpIPv4 => TOX_TCP_INET
    case IPv6 => TOX_AF_INET6
    case TcpIPv6 => TOX_TCP_INET6
  }

  function PackedIp(ip: IPPort): seq<bv8>
    requires Packable(ip.family)
  {
    [FamilyByte(ip.family)] + ip.addr + ip.port
  }

  predicate Good(n: Node) { Sized(n) && Packable(n.ipPort.family) }

  /** PACKED_NODE_SIZE_IP4 or PACKED_NODE_SIZE_IP6 */
  function NodeSize(n: Node): nat {
    1 + AddrSize(n.ipPort.family) + SIZE_PORT + CRYPTO_PUBLIC_KEY_SIZE
  }

  function Packed(n: Node): (b: seq<bv8>)
    requires Good(n)
    ensures |b| == NodeSize(n)
  {
    PackedIp(n.ipPort) + n.publicKey
  }

  /** The bytes of a packed node: 2, 10, 130 or 138 for IPv4, IPv6, TCP over IPv4 or IPv6; 4 or 16 bytes of
      address; 2 of port; 32 of key. */
  lemma PackedLayout(n: Node)
    requires Good(n)
    ensures var b, f, a := Packed(n), n.ipPort.family, if n.ipPort.family in {IPv4, TcpIPv4} then 4 else 16;
            && |b| == 1 + a + 2 + 32
            && b[0] == (if f == IPv4 then 2 else if f == IPv6 then 10 else if f == TcpIPv4 then 130 else 138)
            && b[1..1 + a] == n.ipPort.addr && b[1 + a..3 + a] == n.ipPort.port && b[3 + a..] == n.publicKey
  {}

  predicate AllGood(ns: seq<Node>) { forall i :: 0 <= i < |ns| ==> Good(ns[i]) }

  function PackedAll(ns: seq<Node>): seq<bv8>
    requires AllGood(ns)
  {
    if ns == [] then [] else PackedAll(ns[..|ns| - 1]) + Packed(ns[|ns| - 1])
  }

  /** What pack_nodes does: it writes the nodes until all are written or the room is used up exactly;
      it fails at the first node that has no packed form or does not fit. */
  ghost predicate PackOutcome(ns: seq<Node>, length: nat, r: int, written: seq<bv8>, count: nat) {
    && count <= |ns| && AllGood(ns[..count])
    && var packed := PackedAll(ns[..count]);
       && |packed| <= length
       && (if r >= 0 then
             r == |packed| && written == packed && (count == |ns| || r == length)
           else
             && r == -1 && |packed| < length && count < |ns|
             && (!Packable(ns[count].ipPort.family) || |packed| + NodeSize(ns[count]) > length))
  }

  method PackIpPort(data: array<bv8>, at: nat, length: nat, ip: IPPort) returns (size: int)
    requires at + length <= data.Length
    requires (Packable(ip.family) ==> |ip.addr| == AddrSize(ip.family)) && |ip.port| == SIZE_PORT
    modifies data
    ensures size == -1 <==> !Packable(ip.family) || 1 + AddrSize(ip.family) + SIZE_PORT > length
    ensures size == -1 ==> data[..] == old(data[..])
    ensures size != -1 ==>
              && size == |PackedIp(ip)| == 1 + AddrSize(ip.family) + SIZE_PORT && at + size <= data.Length
              && data[..] == old(data[..at]) + PackedIp(ip) + old(data[at + size..])
  {
    if !IsV4(ip.family) && !ip.family.IPv6? && !ip.family.TcpIPv6? {
      return -1;
    }
    var family := FamilyByte(ip.family);
    size := if IsV4(ip.family) then 1 + SIZE_IP4 + SIZE_PORT else 1 + SIZE_IP6 + SIZE_PORT;
    if size > length {
      return -1;
    }
    data[at] := family;
    forall i | 0 <= i < |ip.addr| {
      data[at + 1 + i] := ip.addr[i];
    }
    forall i | 0 <= i < SIZE_PORT {
      data[at + 1 + |ip.addr| + i] := ip.port[i];
    }
    assert data[..] == old(data[..at]) + PackedIp(ip) + old(data[at + size..]);
  }

  lemma PackedNext(ns: seq<Node>, i: nat)
    requires i < |ns| && AllGood(ns[..i]) && Good(ns[i])
    ensures AllGood(ns[..i + 1]) && PackedAll(ns[..i + 1]) == PackedAll(ns[..i]) + Packed(ns[i])
  {
    assert ns[..i + 1][..i] == ns[..i];
  }

  method CopyTo(data: array<bv8>, at: nat, bytes: seq<bv8>)
    requires at + |bytes| <= data.Length
    modifies data
    ensures data[..at] == old(data[..at]) && data[at..at + |bytes|] == bytes
    ensures data[at + |bytes|..] == old(data[at + |bytes|..])
  {
    forall k | 0 <= k < |bytes| {
      data[at + k] := bytes[k];
    }
  }

  /** Body of the loop of pack_nodes: address, then key. */
  method PackNode(data: array<bv8>, at: nat, length: nat, n: Node) returns (size: int)
    requires at <= length <= data.Length && Sized(n)
    modifies data
    ensures data[..at] == old(data[..at]) && data[length..] == old(data[length..])
    ensures size == -1 <==> !Packable(n.ipPort.family) || at + NodeSize(n) > length
    ensures size != -1 ==>
              && size == NodeSize(n) && at + size <= length
              && data[at..at + size] == Packed(n) && data[at + size..] == old(data[at + size..])
  {
    hide Packable, AddrSize, PackedIp;
    var ippSize := PackIpPort(data, at, length - at, n.ipPort);
    if ippSize == -1 {
      return -1;
    }
    var packedLength := at + ippSize;
    assert data[length..] == old(data[length..]);
    if packedLength + CRYPTO_PUBLIC_KEY_SIZE > length {
      return -1;
    }
    assert data[at..packedLength] == PackedIp(n.ipPort);
    assert data[packedLength..] == old(data[packedLength..]);
    CopyTo(data, packedLength, n.publicKey);
    size := ippSize + CRYPTO_PUBLIC_KEY_SIZE;
    assert data[at..at + size] == data[at..packedLength] + data[packedLength..at + size];
  }

  method PackNodes(data: array<bv8>, length: nat, ns: seq<Node>) returns (r: int, ghost count: nat)
    requires length <= data.Length && AllSized(ns)
    modifies data
    ensures -1 <= r <= length
    ensures PackOutcome(ns, length, r, if r >= 0 then data[..r] else [], count)
    ensures data[length..] == old(data[length..])
    ensures r >= 0 ==> data[r..] == old(data[r..])
  {
    hide Packable, AddrSize, Packed;
    var packedLength, i := 0, 0;
    assert ns[..0] == [];
    while i < |ns| && packedLength < length
      invariant i <= |ns| && packedLength <= length
      invariant AllGood(ns[..i]) && packedLength == |PackedAll(ns[..i])|
      invariant data[..packedLength] == PackedAll(ns[..i])
      invariant data[packedLength..] == old(data[packedLength..])
    {
      ghost var before := data[..];
      var size := PackNode(data, packedLength, length, ns[i]);
      if size == -1 {
        assert data[length..] == before[length..];
        return -1, i;
      }
      PackedNext(ns, i);
      assert data[..packedLength + size] == data[..packedLength] + data[packedLength..packedLength + size];
      packedLength := packedLength + size;
      i := i + 1;
    }
    return packedLength, i;
  }

  // ---------------------------------------------------------------- reading

  /** The family a first byte stands for; OtherFamily when it stands for none that is accepted. */
  function FamilyOf(b: bv8, tcpEnabled: bool): Family {
    if b == TOX_AF_INET then IPv4
    else if b == TOX_TCP_INET then if tcpEnabled then TcpIPv4 else OtherFamily
    else if b == TOX_AF_INET6 then IPv6
    else if b == TOX_TCP_INET6 then if tcpEnabled then TcpIPv6 else OtherFamily
    else OtherFamily
  }

  predicate Accepted(n: Node, tcpEnabled: bool) {
    Good(n) && (IsTcp(n.ipPort.family) ==> tcpEnabled)
  }

  /** TCP addresses are read only where TCP is enabled, everything else always. */
  lemma AcceptedMeans(n: Node)
    requires Good(n)
    ensures Accepted(n, true) && (Accepted(n, false) <==> n.ipPort.family in {IPv4, IPv6})
  {}

  predicate AllAccepted(ns: seq<Node>, tcpEnabled: bool) {
    forall i :: 0 <= i < |ns| ==> Accepted(ns[i], tcpEnabled)
  }

  /** Some accepted node is packed at the head of `data`. */
  ghost predicate StartsWithNode(data: seq<bv8>, tcpEnabled: bool) {
    exists n :: Accepted(n, tcpEnabled) && Packed(n) <= data
  }

  /** The node that is packed at the head of `data`, if any. */
  function NodeAt(data: seq<bv8>, tcpEnabled: bool): (r: Option<Node>)
    ensures r.Some? ==> Accepted(r.value, tcpEnabled) && Packed(r.value) <= data
  {
    if data == [] then None
    else
      var f := FamilyOf(data[0], tcpEnabled);
      var a := AddrSize(f);
      if f.OtherFamily? || 1 + a + SIZE_PORT + CRYPTO_PUBLIC_KEY_SIZE > |data| then None
      else
        var n := Node(data[1 + a + SIZE_PORT..1 + a + SIZE_PORT + CRYPTO_PUBLIC_KEY_SIZE],
                      IPPort(f, data[1..1 + a], data[1 + a..1 + a + SIZE_PORT]));
        assert Packed(n) == data[..NodeSize(n)];
        Some(n)
  }

  /** Packed nodes are a prefix code: what follows a packed node does not matter. */
  lemma NodeAtPacked(n: Node, rest: seq<bv8>, tcpEnabled: bool)
    requires Accepted(n, tcpEnabled)
    ensures NodeAt(Packed(n) + rest, tcpEnabled) == Some(n)
  {
    var data, f := Packed(n) + rest, n.ipPort.family;
    var a := AddrSize(f);
    assert data[0] == FamilyByte(f) && FamilyOf(data[0], tcpEnabled) == f;
    assert data[1..1 + a] == n.ipPort.addr;
    assert data[1 + a..1 + a + SIZE_PORT] == n.ipPort.port;
    assert data[1 + a + SIZE_PORT..1 + a + SIZE_PORT + CRYPTO_PUBLIC_KEY_SIZE] == n.publicKey;
  }

  lemma NodeAtExact(data: seq<bv8>, tcpEnabled: bool)
    ensures NodeAt(data, tcpEnabled).Some? <==> StartsWithNode(data, tcpEnabled)
  {
    hide Packed, NodeAt;
    if StartsWithNode(data, tcpEnabled) {
      var n :| Accepted(n, tcpEnabled) && Packed(n) <= data;
      assert data == Packed(n) + data[|Packed(n)|..];
      NodeAtPacked(n, data[|Packed(n)|..], tcpEnabled);
    }
  }

  /** unpack_ip_port on the bytes from the current position on. */
  method UnpackIpPort(data: seq<bv8>, tcpEnabled: bool) returns (size: int, ip: IPPort)
    requires data != []
    ensures var f := FamilyOf(data[0], tcpEnabled);
            if f.OtherFamily? || 1 + AddrSize(f) + SIZE_PORT > |data| then size == -1
            else
              && size == 1 + AddrSize(f) + SIZE_PORT
              && ip == IPPort(f, data[1..1 + AddrSize(f)], data[1 + AddrSize(f)..size])
  {
    ip := EMPTY_IP_PORT;
    var isIpv4, family := false, OtherFamily;
    if data[0] == TOX_AF_INET {
      isIpv4, family := true, IPv4;
    } else if data[0] == TOX_TCP_INET {
      if !tcpEnabled { return -1, ip; }
      isIpv4, family := true, TcpIPv4;
    } else if data[0] == TOX_AF_INET6 {
      family := IPv6;
    } else if data[0] == TOX_TCP_INET6 {
      if !tcpEnabled { return -1, ip; }
      family := TcpIPv6;
    } else {
      return -1, ip;
    }
    var addr := if isIpv4 then SIZE_IP4 else SIZE_IP6;
    size := 1 + addr + SIZE_PORT;
    if size > |data| {
      return -1, ip;
    }
    ip := IPPort(family, data[1..1 + addr], data[1 + addr..size]);
  }

  /** What unpack_nodes finds: it reads nodes until there is no room for more or no data left, and
      fails at the first place where no accepted node is packed. */
  ghost predicate UnpackOutcome(data: seq<bv8>, max: nat, tcpEnabled: bool, num: int, found: seq<Node>, processed: nat) {
    && processed <= |data| && |found| <= max && AllAccepted(found, tcpEnabled)
    && AllGood(found) && PackedAll(found) == data[..processed]
    && if num >= 0 then
         num == |found| && (num == max || processed == |data|)
       else
         num == -1 && |found| < max && processed < |data| && !StartsWithNode(data[processed..], tcpEnabled)
  }

  method UnpackNodes(nodes: array<Node>, data: seq<bv8>, tcpEnabled: bool)
    returns (num: int, processed: nat, ghost found: seq<Node>)
    modifies nodes
    ensures UnpackOutcome(data, nodes.Length, tcpEnabled, num, found, processed)
    ensures num >= 0 ==> num <= nodes.Length && nodes[..num] == found
  {
    hide Packed, StartsWithNode, NodeAt, Good, Accepted, AddrSize, FamilyOf;
    num, processed, found := 0, 0, [];
    while num < nodes.Length && processed < |data|
      invariant 0 <= num <= nodes.Length && processed <= |data|
      invariant nodes[..num] == found && AllGood(found) && AllAccepted(found, tcpEnabled)
      invariant PackedAll(found) == data[..processed]
      decreases nodes.Length - num
    {
      ghost var rest := data[processed..];
      NodeAtExact(rest, tcpEnabled);
      NodeAtParts(rest, tcpEnabled);
      var size, ip := UnpackIpPort(data[processed..], tcpEnabled);
      if size == -1 {
        return -1, processed, found;
      }
      if processed + size + CRYPTO_PUBLIC_KEY_SIZE > |data| {
        return -1, processed, found;
      }
      var key := data[processed + size..processed + size + CRYPTO_PUBLIC_KEY_SIZE];
      assert key == rest[size..size + CRYPTO_PUBLIC_KEY_SIZE];
      ghost var n := Node(key, ip);
      assert NodeAt(rest, tcpEnabled) == Some(n);
      nodes[num] := Node(key, ip);
      ghost var more := found + [n];
      GoodOf(n, tcpEnabled);
      PackedSnoc(found, n);
      assert rest[..size + CRYPTO_PUBLIC_KEY_SIZE] == Packed(n);
      assert data[..processed + size + CRYPTO_PUBLIC_KEY_SIZE] == data[..processed] + Packed(n);
      processed := processed + size + CRYPTO_PUBLIC_KEY_SIZE;
      num := num + 1;
      found := more;
    }
  }

  /** The case distinction of `NodeAt`, for callers that do not look inside it. */
  lemma NodeAtParts(data: seq<bv8>, tcpEnabled: bool)
    requires data != []
    ensures var f := FamilyOf(data[0], tcpEnabled);
            var size := 1 + AddrSize(f) + SIZE_PORT;
            if f.OtherFamily? || size + CRYPTO_PUBLIC_KEY_SIZE > |data| then NodeAt(data, tcpEnabled).None?
            else
              var n := Node(data[size..size + CRYPTO_PUBLIC_KEY_SIZE],
                            IPPort(f, data[1..1 + AddrSize(f)], data[1 + AddrSize(f)..size]));
              NodeAt(data, tcpEnabled) == Some(n) && NodeSize(n) == size + CRYPTO_PUBLIC_KEY_SIZE
  {}

  lemma GoodOf(n: Node, tcpEnabled: bool)
    requires Accepted(n, tcpEnabled)
    ensures Good(n)
  {}

  lemma PackedSnoc(ns: seq<Node>, n: Node)
    requires AllGood(ns) && Good(n)
    ensures AllGood(ns + [n]) && PackedAll(ns + [n]) == PackedAll(ns) + Packed(n)
  {
    assert (ns + [n])[..|ns|] == ns;
  }

  // ---------------------------------------------------------------- reading undoes writing

  lemma {:induction false} PackedConcat(a: seq<Node>, b: seq<Node>)
    requires AllGood(a) && AllGood(b)
    ensures AllGood(a + b) && PackedAll(a + b) == PackedAll(a) + PackedAll(b)
  {
    hide Packed, Good;
    if b == [] {
      assert a + b == a;
    } else {
      assert (a + b)[..|a + b| - 1] == a + b[..|b| - 1];
      PackedConcat(a, b[..|b| - 1]);
    }
  }

  lemma {:induction false} PackedSplit(ns: seq<Node>, j: nat)
    requires AllGood(ns) && j <= |ns|
    ensures AllGood(ns[..j]) && AllGood(ns[j..]) && PackedAll(ns) == PackedAll(ns[..j]) + PackedAll(ns[j..])
  {
    hide Packed, Good, PackedAll;
    assert ns == ns[..j] + ns[j..];
    PackedConcat(ns[..j], ns[j..]);
  }

  lemma PackedFirst(ns: seq<Node>)
    requires AllGood(ns) && ns != []
    ensures AllGood(ns[1..]) && PackedAll(ns) == Packed(ns[0]) + PackedAll(ns[1..])
  {
    hide Packed, Good;
    PackedSplit(ns, 1);
    assert ns[..1] == [] + [ns[0]];
    PackedSnoc([], ns[0]);
  }

  lemma NonemptyPacked(ns: seq<Node>)
    requires AllGood(ns)
    ensures ns != [] ==> |PackedAll(ns)| > 0
  {}

  /** If the packed form of one list is a prefix of that of another, so is the list. */
  lemma {:induction false} PrefixCode(found: seq<Node>, ns: seq<Node>, tcpEnabled: bool)
    requires AllAccepted(found, tcpEnabled) && AllAccepted(ns, tcpEnabled) && AllGood(found) && AllGood(ns)
    requires PackedAll(found) <= PackedAll(ns)
    ensures found <= ns
  {
    hide Packed, Good, Accepted, PackedAll;
    if found != [] {
      NonemptyPacked(found);
      PackedFirst(found);
      NothingPacked(ns);
      PackedFirst(ns);
      var a, b := PackedAll(found[1..]), PackedAll(ns[1..]);
      var rest := PackedAll(ns)[|PackedAll(found)|..];
      assert (Packed(found[0]) + a) + rest == Packed(found[0]) + (a + rest);
      SameFirst(found[0], a + rest, ns[0], b, tcpEnabled);
      PrefixCode(found[1..], ns[1..], tcpEnabled);
      assert found == [found[0]] + found[1..] && ns == [ns[0]] + ns[1..];
    }
  }

  lemma NothingPacked(ns: seq<Node>)
    requires AllGood(ns) && |PackedAll(ns)| > 0
    ensures ns != []
  {}

  /** Byte strings that start with a packed node split in one way only. */
  lemma SameFirst(m: Node, a: seq<bv8>, n: Node, b: seq<bv8>, tcpEnabled: bool)
    requires Accepted(m, tcpEnabled) && Accepted(n, tcpEnabled)
    requires Good(m) && Good(n) && Packed(m) + a == Packed(n) + b
    ensures m == n && a == b
  {
    hide Packed, NodeAt;
    NodeAtPacked(m, a, tcpEnabled);
    NodeAtPacked(n, b, tcpEnabled);
    assert a == (Packed(m) + a)[|Packed(m)|..];
    assert b == (Packed(n) + b)[|Packed(n)|..];
  }

  lemma NextNodeStarts(ns: seq<Node>, j: nat, tcpEnabled: bool)
    requires AllAccepted(ns, tcpEnabled) && AllGood(ns) && j < |ns|
    ensures AllGood(ns[..j]) && |PackedAll(ns[..j])| <= |PackedAll(ns)|
    ensures StartsWithNode(PackedAll(ns)[|PackedAll(ns[..j])|..], tcpEnabled)
  {
    hide Packed, Good, Accepted;
    PackedSplit(ns, j);
    PackedFirst(ns[j..]);
    var rest := PackedAll(ns)[|PackedAll(ns[..j])|..];
    assert rest == PackedAll(ns[j..]);
    assert Accepted(ns[j], tcpEnabled) && Packed(ns[j]) <= rest;
  }

  /** Reading the packed form of accepted nodes, with room for them, finds exactly those nodes. */
  lemma UnpackInvertsPack(ns: seq<Node>, max: nat, tcpEnabled: bool, num: int, found: seq<Node>, processed: nat)
    requires AllAccepted(ns, tcpEnabled) && AllGood(ns) && |ns| <= max
    requires UnpackOutcome(PackedAll(ns), max, tcpEnabled, num, found, processed)
    ensures num == |ns| && found == ns && processed == |PackedAll(ns)|
  {
    hide Packed, Good, Accepted;
    var data := PackedAll(ns);
    PrefixCode(found, ns, tcpEnabled);
    var j := |found|;
    assert found == ns[..j];
    PackedSplit(ns, j);
    NonemptyPacked(ns[j..]);
    if j < |ns| {
      NextNodeStarts(ns, j, tcpEnabled);
    }
  }

  /** Writing nodes that have a packed form and fit writes all of them. */
  lemma PackAllThatFit(ns: seq<Node>, length: nat, r: int, written: seq<bv8>, count: nat)
    requires AllGood(ns) && |PackedAll(ns)| <= length && PackOutcome(ns, length, r, written, count)
    ensures r == |PackedAll(ns)| && written == PackedAll(ns)
  {
    hide Packed;
    PackedSplit(ns, count);
    NonemptyPacked(ns[count..]);
    if count < |ns| {
      PackedFirst(ns[count..]);
    } else {
      assert ns[..count] == ns;
    }
  }

  /** Any list of accepted nodes that fits is written completely and read back as itself, consuming
      exactly the bytes written. */
  lemma NodesRoundTrip(ns: seq<Node>, length: nat, r: int, written: seq<bv8>, count: nat,
                       max: nat, tcpEnabled: bool, num: int, found: seq<Node>, processed: nat)
    requires AllAccepted(ns, tcpEnabled) && AllGood(ns) && |PackedAll(ns)| <= length && |ns| <= max
    requires PackOutcome(ns, length, r, written, count)
    requires UnpackOutcome(written, max, tcpEnabled, num, found, processed)
    ensures num == |ns| && found == ns && processed == r
  {
    hide Packed, PackOutcome, UnpackOutcome, Good, Accepted;
    PackAllThatFit(ns, length, r, written, count);
    UnpackInvertsPack(ns, max, tcpEnabled, num, found, processed);
  }

  /** Whatever was read successfully is written back as the bytes that were consumed. */
  lemma RepackReproduces(data: seq<bv8>, max: nat, tcpEnabled: bool, num: int, found: seq<Node>, processed: nat,
                         length: nat, r: int, written: seq<bv8>, count: nat)
    requires UnpackOutcome(data, max, tcpEnabled, num, found, processed) && num >= 0 && processed <= length
    requires PackOutcome(found, length, r, written, count)
    ensures r == processed && written == data[..processed]
  {
    hide PackOutcome;
    PackAllThatFit(found, length, r, written, count);
  }
}
