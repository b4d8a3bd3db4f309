/**
  get_close_nodes of toxcore/DHT.c: one scan over the close list and all friend lists that
  keeps the closest nodes found so far, proved to select exactly the closest distinct keys.
 */
module ClosestNodes {
  import opened Words
  import opened XorMetric
  import opened DhtTypes
  import opened NodeList

  // ---------------------------------------------------------------- what "closest" means

  predicate DistinctKeys(s: seq<Node>) {
    forall i, j :: 0 <= i < j < |s| ==> s[i].publicKey != s[j].publicKey
  }

  predicate HasKey(s: seq<Node>, k: Key) {
    exists i :: 0 <= i < |s| && s[i].publicKey == k
  }

  /** Every node of `s` is strictly closer to the target than `n`. */
  predicate AllCloser(target: Key, s: seq<Node>, n: Node)
    requires KeysFit(target, s) && |n.publicKey| == |target|
  {
    forall i :: 0 <= i < |s| ==> Dist(target, s[i]) < Dist(target, n)
  }

  function Min(a: nat, b: nat): nat { if a < b then a else b }

  /** `list` holds the `k` closest nodes of `all`: as many as there can be, no key twice, and every
      node left out is farther than every node kept. */
  ghost predicate Best(target: Key, list: seq<Node>, k: nat, all: seq<Node>) {
    && KeysFit(target, list) && KeysFit(target, all)
    && DistinctKeys(list) && DistinctKeys(all)
    && |list| == Min(k, |all|)
    && (forall i :: 0 <= i < |list| ==> list[i] in all)
    && (forall i :: 0 <= i < |all| ==> all[i] in list || AllCloser(target, list, all[i]))
  }

  // ---------------------------------------------------------------- lists without repeated keys

  lemma {:induction false} TwoPlaces(u: seq<Node>, n: Node)
    requires multiset(u)[n] >= 2
    ensures !DistinctKeys(u)
  {
    var init, last := u[..|u| - 1], u[|u| - 1];
    assert u == init + [last];
    if last == n {
      assert n in multiset(init);
      var i :| 0 <= i < |init| && init[i] == n;
      assert u[i].publicKey == u[|u| - 1].publicKey;
    } else {
      TwoPlaces(init, n);
    }
  }

  /** Removing nodes from a list without repeated keys repeats none. */
  lemma SubBagDistinct(t: seq<Node>, u: seq<Node>)
    requires multiset(t) <= multiset(u) && DistinctKeys(u)
    ensures DistinctKeys(t)
  {
    forall i, j | 0 <= i < j < |t|
      ensures t[i].publicKey != t[j].publicKey
    {
      if t[i].publicKey == t[j].publicKey {
        SameKeySameNode(u, t[i], t[j]);
        assert t == t[..j] + [t[j]] + t[j + 1..];
        assert t[i] in multiset(t[..j]);
        TwoPlaces(u, t[i]);
        assert false;
      }
    }
  }

  lemma SameKeySameNode(u: seq<Node>, m: Node, n: Node)
    requires DistinctKeys(u) && m in multiset(u) && n in multiset(u) && m.publicKey == n.publicKey
    ensures m == n
  {
    var i :| 0 <= i < |u| && u[i] == m;
    var j :| 0 <= j < |u| && u[j] == n;
  }

  // ---------------------------------------------------------------- one more node

  /** A new key while there is room. */
  lemma BestAppend(target: Key, list: seq<Node>, k: nat, all: seq<Node>, n: Node)
    requires Best(target, list, k, all) && |list| < k
    requires |n.publicKey| == |target| && !HasKey(all, n.publicKey)
    ensures Best(target, list + [n], k, all + [n])
  {
    hide Dist;
    forall i | 0 <= i < |list|
      ensures list[i].publicKey != n.publicKey
    {
      var j :| 0 <= j < |all| && all[j] == list[i];
    }
    AllKept(target, list, k, all);
  }

  /** Below its capacity the list holds every node. */
  lemma AllKept(target: Key, list: seq<Node>, k: nat, all: seq<Node>)
    requires Best(target, list, k, all) && |list| < k
    ensures forall i :: 0 <= i < |all| ==> all[i] in list
  {
    hide Dist;
    forall i | 0 <= i < |all|
      ensures all[i] in list
    {
      if all[i] !in list {
        Crowded(list, all, i);
        assert false;
      }
    }
  }

  lemma {:induction false} Crowded(list: seq<Node>, all: seq<Node>, i: nat)
    requires DistinctKeys(list) && DistinctKeys(all) && i < |all| && all[i] !in list
    requires forall j :: 0 <= j < |list| ==> list[j] in all
    ensures |list| < |all|
  {
    var ls, rest := set x | x in list, (set x | x in all) - {all[i]};
    assert ls <= rest;
    SetSize(list);
    SetSize(all);
    Smaller(ls, rest);
  }

  lemma {:induction false} SetSize(s: seq<Node>)
    requires DistinctKeys(s)
    ensures |set x | x in s| == |s|
  {
    if s != [] {
      var init, last := s[..|s| - 1], s[|s| - 1];
      SetSize(init);
      assert (set x | x in s) == (set x | x in init) + {last};
      assert last !in init;
    }
  }

  lemma {:induction false} Smaller<T>(a: set<T>, b: set<T>)
    requires a <= b
    ensures |a| <= |b|
  {
    assert b == a + (b - a);
    assert |a + (b - a)| == |a| + |b - a|;
  }

  /** What is left of a full list after a new key went through it. */
  lemma {:induction false} PassedMembers(target: Key, list: seq<Node>, n: Node)
    requires KeysFit(target, list) && |n.publicKey| == |target| && DistinctKeys(list + [n])
    ensures var r := Pass(target, list, n);
            && DistinctKeys(r.list) && r.dropped !in r.list
            && (forall m :: m in list + [n] <==> m in r.list || m == r.dropped)
            && AllCloser(target, r.list, r.dropped)
  {
    hide Pass, Dist, DistinctKeys;
    KeepsClosest(target, list, n);
    var r := Pass(target, list, n);
    var u := list + [n];
    assert multiset(u) == multiset(list) + multiset{n};
    assert r.dropped in multiset(u);
    SubBagDistinct(r.list, u);
    Once(u, r.dropped);
    AllButOne(u, r.list, r.dropped);
    forall i | 0 <= i < |r.list|
      ensures Dist(target, r.list[i]) < Dist(target, r.dropped)
    {
      assert r.list[i] in u && r.list[i] != r.dropped;
      DifferentDistance(target, u, r.list[i], r.dropped);
    }
  }

  lemma AllButOne<T>(u: seq<T>, l: seq<T>, d: T)
    requires d in multiset(u) && multiset(u)[d] <= 1 && multiset(l) == multiset(u) - multiset{d}
    ensures d !in l && forall m :: m in u <==> m in l || m == d
  {
    assert d !in multiset(l);
    forall m: T
      ensures m in u <==> m in l || m == d
    {
      assert m in u <==> m in multiset(u);
      assert m in l <==> m in multiset(l);
    }
  }

  lemma Once(u: seq<Node>, n: Node)
    requires DistinctKeys(u)
    ensures multiset(u)[n] <= 1
  {
    if multiset(u)[n] >= 2 {
      TwoPlaces(u, n);
    }
  }

  lemma DifferentDistance(target: Key, u: seq<Node>, m: Node, n: Node)
    requires KeysFit(target, u) && DistinctKeys(u) && m in u && n in u && m != n
    ensures |m.publicKey| == |n.publicKey| == |target| && Dist(target, m) != Dist(target, n)
  {
    var i :| 0 <= i < |u| && u[i] == m;
    var j :| 0 <= j < |u| && u[j] == n;
    DistanceInjective(target, m.publicKey, n.publicKey);
  }

  /** A new key for a full list. */
  lemma {:induction false} BestPass(target: Key, list: seq<Node>, k: nat, all: seq<Node>, n: Node)
    requires Best(target, list, k, all) && |list| == k
    requires |n.publicKey| == |target| && !HasKey(all, n.publicKey)
    ensures Best(target, Pass(target, list, n).list, k, all + [n])
  {
    hide Dist, Pass;
    forall i | 0 <= i < |list|
      ensures list[i].publicKey != n.publicKey
    {
      var j :| 0 <= j < |all| && all[j] == list[i];
    }
    PassedMembers(target, list, n);
    var r := Pass(target, list, n);
    var bigger := all + [n];
    forall i | 0 <= i < |r.list|
      ensures r.list[i] in bigger
    {
      assert r.list[i] in list + [n];
    }
    forall i | 0 <= i < |bigger|
      ensures bigger[i] in r.list || AllCloser(target, r.list, bigger[i])
    {
      if i == |all| {
        assert n in list + [n];
      } else if all[i] in list {
        assert all[i] in list + [n];
      } else {
        StillFarther(target, list, n, all[i]);
      }
    }
  }

  /** A node farther than a whole list is farther than the list after a pass. */
  lemma {:induction false} StillFarther(target: Key, list: seq<Node>, n: Node, m: Node)
    requires KeysFit(target, list) && |n.publicKey| == |m.publicKey| == |target| && DistinctKeys(list + [n])
    requires AllCloser(target, list, m)
    ensures AllCloser(target, Pass(target, list, n).list, m)
  {
    hide Dist, Pass;
    PassedMembers(target, list, n);
    var r := Pass(target, list, n);
    forall i | 0 <= i < |r.list|
      ensures Dist(target, r.list[i]) < Dist(target, m)
    {
      assert r.list[i] in list + [n];
      if r.list[i] == n && n !in list {
        assert r.dropped in list + [n] && r.dropped != n;
        assert r.dropped in list;
      }
    }
  }

  /** A key that was pushed out before changes nothing when it is offered again. */
  lemma StaleKey(target: Key, list: seq<Node>, k: nat, all: seq<Node>, n: Node)
    requires Best(target, list, k, all) && |n.publicKey| == |target|
    requires HasKey(all, n.publicKey) && !HasKey(list, n.publicKey)
    ensures Pass(target, list, n).list == list
  {
    var i :| 0 <= i < |all| && all[i].publicKey == n.publicKey;
    assert all[i] !in list;
    assert AllCloser(target, list, all[i]);
    assert Dist(target, all[i]) == Dist(target, n);
    PassSkips(target, list, n, |list|);
    assert list[..|list|] == list;
  }

  // ---------------------------------------------------------------- which entries qualify

  /** Arguments of a search; `lanAddress` stands for ip_is_lan. */
  datatype Query = Query(
    target: Key, curTime: u64, family: Family, isLan: bool, wantAnnounce: bool, lanAddress: IPPort -> bool)

  predicate KnownFamily(f: Family) { f.IPv4? || f.IPv6? || f.Unspec? }

  /** The address of a client that matches the wanted family. */
  function Chosen(q: Query, c: Client): Assoc {
    if q.family.IPv4? then c.assoc4
    else if q.family.IPv6? then c.assoc6
    else if c.assoc4.timestamp >= c.assoc6.timestamp then c.assoc4
    else c.assoc6
  }

  predicate Eligible(q: Query, c: Client) {
    && KnownFamily(q.family)
    && !AssocTimeout(q.curTime, Chosen(q, c))
    && !(q.lanAddress(Chosen(q, c).ipPort) && !q.isLan)
    && !(q.wantAnnounce && !c.announceNode)
  }

  function AsNode(q: Query, c: Client): Node {
    Node(c.publicKey, Chosen(q, c).ipPort)
  }

  predicate ClientsFit(target: Key, clients: seq<Client>) {
    forall i :: 0 <= i < |clients| ==> |clients[i].publicKey| == |target|
  }

  /** Eligible clients as nodes, in scan order. */
  function Offers(q: Query, clients: seq<Client>): (ns: seq<Node>)
    requires ClientsFit(q.target, clients)
    ensures KeysFit(q.target, ns)
  {
    if clients == [] then []
    else
      var init, last := Offers(q, clients[..|clients| - 1]), clients[|clients| - 1];
      if Eligible(q, last) then init + [AsNode(q, last)] else init
  }

  lemma {:induction false} OffersConcat(q: Query, a: seq<Client>, b: seq<Client>)
    requires ClientsFit(q.target, a) && ClientsFit(q.target, b)
    ensures Offers(q, a + b) == Offers(q, a) + Offers(q, b)
  {
    hide Eligible, AsNode;
    if b == [] {
      assert a + b == a;
    } else {
      assert (a + b)[..|a + b| - 1] == a + b[..|b| - 1];
      OffersConcat(q, a, b[..|b| - 1]);
    }
  }

  function ZeroKey(n: nat): (k: Key)
    ensures |k| == n
  {
    seq(n, _ => 0)
  }

  /** Whether a node offered after `seen` distinct nodes counts as a new one: unfilled slots of the
      result hold the all-zero key, so that key passes for present until the result is full. */
  predicate IsNew(k: nat, seen: seq<Node>, n: Node) {
    !HasKey(seen, n.publicKey) && !(|seen| < k && n.publicKey == ZeroKey(|n.publicKey|))
  }

  /** The distinct nodes a scan with room for `k` takes into account: first offer of each key. */
  function Admitted(k: nat, offers: seq<Node>): seq<Node> {
    if offers == [] then []
    else
      var seen, last := Admitted(k, offers[..|offers| - 1]), offers[|offers| - 1];
      if IsNew(k, seen, last) then seen + [last] else seen
  }

  lemma AdmittedNext(k: nat, offers: seq<Node>, n: Node)
    ensures Admitted(k, offers + [n]) ==
            if IsNew(k, Admitted(k, offers), n) then Admitted(k, offers) + [n] else Admitted(k, offers)
  {
    assert (offers + [n])[..|offers|] == offers;
  }

  // ---------------------------------------------------------------- the scan

  /** UINT32_MAX as a result of a search */
  const NOT_FOUND: nat := 0xFFFF_FFFF

  method IndexOfNodePk(nodes: array<Node>, pk: Key) returns (index: nat)
    requires nodes.Length < NOT_FOUND
    ensures index == NOT_FOUND <==> !HasKey(nodes[..], pk)
    ensures index != NOT_FOUND ==> index < nodes.Length && nodes[index].publicKey == pk
  {
    for i := 0 to nodes.Length
      invariant forall j :: 0 <= j < i ==> nodes[j].publicKey != pk
    {
      if nodes[i].publicKey == pk {
        assert nodes[..][i].publicKey == pk;
        return i;
      }
    }
    assert forall j :: 0 <= j < nodes.Length ==> nodes[..][j].publicKey != pk;
    return NOT_FOUND;
  }

  /** State of the result array during a scan: the best of the offers so far, then unfilled slots. */
  ghost predicate Scanned(target: Key, nodes: seq<Node>, num: nat, offers: seq<Node>) {
    && num <= |nodes|
    && Best(target, nodes[..num], |nodes|, Admitted(|nodes|, offers))
    && (forall i :: num <= i < |nodes| ==> nodes[i] == Node(ZeroKey(|target|), EMPTY_IP_PORT))
  }

  lemma ScannedKeys(target: Key, nodes: seq<Node>, num: nat, offers: seq<Node>)
    requires Scanned(target, nodes, num, offers)
    ensures KeysFit(target, nodes)
    ensures forall k: Key :: HasKey(nodes, k) <==> HasKey(nodes[..num], k) || (num < |nodes| && k == ZeroKey(|target|))
  {
    hide Best, Admitted;
    assert KeysFit(target, nodes[..num]) by { BestFits(target, nodes[..num], |nodes|, Admitted(|nodes|, offers)); }
    forall i | 0 <= i < |nodes|
      ensures |nodes[i].publicKey| == |target|
    {
      if i < num { assert nodes[i] == nodes[..num][i]; }
    }
    forall k: Key
      ensures HasKey(nodes, k) <==> HasKey(nodes[..num], k) || (num < |nodes| && k == ZeroKey(|target|))
    {
      if HasKey(nodes, k) {
        var i :| 0 <= i < |nodes| && nodes[i].publicKey == k;
        if i < num { assert nodes[..num][i].publicKey == k; }
      }
      if HasKey(nodes[..num], k) {
        var i :| 0 <= i < num && nodes[..num][i].publicKey == k;
        assert nodes[i].publicKey == k;
      }
      if num < |nodes| && k == ZeroKey(|target|) {
        assert nodes[num].publicKey == k;
      }
    }
  }

  lemma BestFits(target: Key, list: seq<Node>, k: nat, all: seq<Node>)
    requires Best(target, list, k, all)
    ensures KeysFit(target, list) && |list| == Min(k, |all|)
    ensures forall x: Key :: HasKey(list, x) ==> HasKey(all, x)
  {
    hide Dist;
    forall x: Key | HasKey(list, x)
      ensures HasKey(all, x)
    {
      var i :| 0 <= i < |list| && list[i].publicKey == x;
      var j :| 0 <= j < |all| && all[j] == list[i];
    }
  }

  /** An offer whose key the result array already shows. */
  lemma StepPresent(target: Key, nodes: seq<Node>, num: nat, offers: seq<Node>, n: Node)
    requires Scanned(target, nodes, num, offers) && |n.publicKey| == |target| && HasKey(nodes, n.publicKey)
    ensures Scanned(target, nodes, num, offers + [n])
  {
    ScannedKeys(target, nodes, num, offers);
    BestFits(target, nodes[..num], |nodes|, Admitted(|nodes|, offers));
    AdmittedNext(|nodes|, offers, n);
  }

  /** A new key while a slot is unfilled. */
  lemma StepAppend(target: Key, nodes: seq<Node>, num: nat, offers: seq<Node>, n: Node)
    requires Scanned(target, nodes, num, offers) && |n.publicKey| == |target| && !HasKey(nodes, n.publicKey)
    requires num < |nodes|
    ensures Scanned(target, nodes[num := n], num + 1, offers + [n])
  {
    hide Best, Admitted, HasKey;
    var all := Admitted(|nodes|, offers);
    ScannedKeys(target, nodes, num, offers);
    NewToAll(target, nodes[..num], |nodes|, all, n.publicKey);
    AdmittedNext(|nodes|, offers, n);
    BestAppend(target, nodes[..num], |nodes|, all, n);
    assert nodes[num := n][..num + 1] == nodes[..num] + [n];
    BestFits(target, nodes[..num], |nodes|, all);
  }

  /** Below its capacity the list shows every key there is. */
  lemma NewToAll(target: Key, list: seq<Node>, k: nat, all: seq<Node>, x: Key)
    requires Best(target, list, k, all) && |list| < k && !HasKey(list, x)
    ensures !HasKey(all, x)
  {
    AllKept(target, list, k, all);
  }

  /** A key that is not in the full result. */
  lemma {:induction false} StepFull(target: Key, nodes: seq<Node>, offers: seq<Node>, n: Node)
    requires Scanned(target, nodes, |nodes|, offers) && |n.publicKey| == |target| && !HasKey(nodes, n.publicKey)
    ensures KeysFit(target, nodes) && Scanned(target, Pass(target, nodes, n).list, |nodes|, offers + [n])
  {
    hide Best, Pass;
    var all := Admitted(|nodes|, offers);
    ScannedKeys(target, nodes, |nodes|, offers);
    assert nodes[..|nodes|] == nodes;
    BestFits(target, nodes, |nodes|, all);
    AdmittedNext(|nodes|, offers, n);
    if HasKey(all, n.publicKey) {
      StaleKey(target, nodes, |nodes|, all, n);
    } else {
      BestPass(target, nodes, |nodes|, all, n);
    }
    var r := Pass(target, nodes, n).list;
    assert r[..|nodes|] == r;
  }

  /** get_close_nodes_inner: scan one client list. */
  method GetCloseNodesInner(q: Query, nodes: array<Node>, clients: seq<Client>, num0: nat, ghost offers: seq<Node>)
    returns (num: nat)
    requires ClientsFit(q.target, clients) && nodes.Length < NOT_FOUND
    requires Scanned(q.target, nodes[..], num0, offers)
    modifies nodes
    ensures Scanned(q.target, nodes[..], num, offers + Offers(q, clients))
  {
    hide Scanned, Eligible, Pass, Dist, Offers, HasKey, ClientsFit;
    if !q.family.IPv4? && !q.family.IPv6? && !q.family.Unspec? {
      NothingOffered(q, clients);
      assert offers + [] == offers;
      return num0;
    }
    num := num0;
    PrefixFits(q.target, clients);
    NoneOffered(q, clients);
    assert offers + Offers(q, clients[..0]) == offers;
    for i := 0 to |clients|
      invariant Scanned(q.target, nodes[..], num, offers + Offers(q, clients[..i]))
    {
      var client := clients[i];
      ghost var before := offers + Offers(q, clients[..i]);
      OfferNext(q, clients, i);
      assert before + [AsNode(q, client)] == offers + (Offers(q, clients[..i]) + [AsNode(q, client)]);
      var index := IndexOfNodePk(nodes, client.publicKey);
      if index != NOT_FOUND {
        StepPresent(q.target, nodes[..], num, before, AsNode(q, client));
        continue;
      }
      var assoc := Chosen(q, client);
      if AssocTimeout(q.curTime, assoc) {
        NotEligible(q, client);
        continue;
      }
      if q.lanAddress(assoc.ipPort) && !q.isLan {
        NotEligible(q, client);
        continue;
      }
      if q.wantAnnounce && !client.announceNode {
        NotEligible(q, client);
        continue;
      }
      IsEligible(q, client);
      var n := Node(client.publicKey, assoc.ipPort);
      ScannedNum(q.target, nodes[..], num, before);
      if num < nodes.Length {
        StepAppend(q.target, nodes[..], num, before, n);
        ghost var was := nodes[..];
        nodes[num] := n;
        assert nodes[..] == was[num := n];
        num := num + 1;
      } else {
        StepFull(q.target, nodes[..], before, n);
        var _ := AddToList(nodes, client.publicKey, assoc.ipPort, q.target);
      }
    }
    assert clients[..|clients|] == clients;
  }

  lemma PrefixFits(target: Key, clients: seq<Client>)
    requires ClientsFit(target, clients)
    ensures forall i :: 0 <= i <= |clients| ==> ClientsFit(target, clients[..i])
    ensures forall i :: 0 <= i < |clients| ==> |clients[i].publicKey| == |target|
  {}

  lemma NoneOffered(q: Query, clients: seq<Client>)
    requires ClientsFit(q.target, clients)
    ensures ClientsFit(q.target, clients[..0]) && Offers(q, clients[..0]) == []
  {}

  lemma OfferNext(q: Query, clients: seq<Client>, i: nat)
    requires ClientsFit(q.target, clients) && i < |clients|
    ensures Offers(q, clients[..i + 1]) ==
            if Eligible(q, clients[i]) then Offers(q, clients[..i]) + [AsNode(q, clients[i])] else Offers(q, clients[..i])
  {
    assert clients[..i + 1][..i] == clients[..i];
  }

  lemma {:induction false} NothingOffered(q: Query, clients: seq<Client>)
    requires ClientsFit(q.target, clients) && !KnownFamily(q.family)
    ensures Offers(q, clients) == []
  {
    if clients != [] {
      NothingOffered(q, clients[..|clients| - 1]);
    }
  }

  lemma NotEligible(q: Query, c: Client)
    requires
      || AssocTimeout(q.curTime, Chosen(q, c))
      || (q.lanAddress(Chosen(q, c).ipPort) && !q.isLan)
      || (q.wantAnnounce && !c.announceNode)
    ensures !Eligible(q, c)
  {}

  lemma IsEligible(q: Query, c: Client)
    requires KnownFamily(q.family) && !AssocTimeout(q.curTime, Chosen(q, c))
    requires !(q.lanAddress(Chosen(q, c).ipPort) && !q.isLan) && !(q.wantAnnounce && !c.announceNode)
    ensures Eligible(q, c)
  {}

  lemma ScannedNum(target: Key, nodes: seq<Node>, num: nat, offers: seq<Node>)
    requires Scanned(target, nodes, num, offers)
    ensures num <= |nodes|
  {}

  // ---------------------------------------------------------------- the whole search

  datatype DHT = DHT(closeList: seq<Client>, friendLists: seq<seq<Client>>, curTime: u64) {
    predicate Fits(target: Key) {
      ClientsFit(target, closeList) && forall i :: 0 <= i < |friendLists| ==> ClientsFit(target, friendLists[i])
    }
  }

  function Joined(lists: seq<seq<Client>>): seq<Client> {
    if lists == [] then [] else Joined(lists[..|lists| - 1]) + lists[|lists| - 1]
  }

  lemma {:induction false} JoinedFits(target: Key, lists: seq<seq<Client>>)
    requires forall i :: 0 <= i < |lists| ==> ClientsFit(target, lists[i])
    ensures ClientsFit(target, Joined(lists))
  {
    if lists != [] {
      JoinedFits(target, lists[..|lists| - 1]);
    }
  }

  /** Every entry a search looks at, in scan order. */
  function Entries(dht: DHT): seq<Client> {
    dht.closeList + Joined(dht.friendLists)
  }

  /** get_somewhat_close_nodes */
  method GetSomewhatCloseNodes(dht: DHT, q: Query, nodes: array<Node>) returns (num: nat)
    requires dht.Fits(q.target) && nodes.Length < NOT_FOUND
    requires Scanned(q.target, nodes[..], 0, [])
    modifies nodes
    ensures ClientsFit(q.target, Entries(dht)) && Scanned(q.target, nodes[..], num, Offers(q, Entries(dht)))
  {
    hide Scanned, Offers;
    num := GetCloseNodesInner(q, nodes, dht.closeList, 0, []);
    ghost var done := dht.closeList;
    assert [] + Offers(q, done) == Offers(q, done);
    assert done == dht.closeList + Joined(dht.friendLists[..0]);
    for i := 0 to |dht.friendLists|
      invariant ClientsFit(q.target, done)
      invariant done == dht.closeList + Joined(dht.friendLists[..i])
      invariant Scanned(q.target, nodes[..], num, Offers(q, done))
    {
      var list := dht.friendLists[i];
      num := GetCloseNodesInner(q, nodes, list, num, Offers(q, done));
      OffersConcat(q, done, list);
      done := done + list;
      assert dht.friendLists[..i + 1][..i] == dht.friendLists[..i];
      assert done == dht.closeList + (Joined(dht.friendLists[..i]) + list);
    }
    assert dht.friendLists[..|dht.friendLists|] == dht.friendLists;
  }

  function KeysOf(s: seq<Node>): set<Key> {
    set i | 0 <= i < |s| :: s[i].publicKey
  }

  function EligibleKeys(q: Query, clients: seq<Client>): set<Key> {
    set i | 0 <= i < |clients| && Eligible(q, clients[i]) :: clients[i].publicKey
  }

  /** `chosen` are the `k` keys of `keys` closest to the target (all of them when there are fewer). */
  ghost predicate ClosestKeys(target: Key, chosen: set<Key>, k: nat, keys: set<Key>)
    requires forall x :: x in keys ==> |x| == |target|
  {
    && chosen <= keys
    && |chosen| == Min(k, |keys|)
    && forall a, b :: a in chosen && b in keys - chosen ==> Distance(target, a) < Distance(target, b)
  }

  lemma {:induction false} KeysOfSize(s: seq<Node>)
    requires DistinctKeys(s)
    ensures |KeysOf(s)| == |s|
  {
    hide KeysOf;
    if s == [] {
      NoKeys();
    } else {
      var init, last := s[..|s| - 1], s[|s| - 1];
      KeysOfSize(init);
      KeysOfSnoc(init, last);
      assert s == init + [last];
      NewKey(init, last);
    }
  }

  lemma NoKeys()
    ensures KeysOf([]) == {}
  {}

  lemma KeysOfSnoc(s: seq<Node>, n: Node)
    ensures KeysOf(s + [n]) == KeysOf(s) + {n.publicKey}
  {
    assert (s + [n])[|s|] == n;
    assert forall i :: 0 <= i < |s| ==> (s + [n])[i] == s[i];
  }

  lemma NewKey(s: seq<Node>, n: Node)
    requires DistinctKeys(s + [n])
    ensures DistinctKeys(s) && n.publicKey !in KeysOf(s)
  {
    assert (s + [n])[|s|] == n;
    assert forall i :: 0 <= i < |s| ==> (s + [n])[i] == s[i];
  }

  lemma BestIsClosest(target: Key, list: seq<Node>, k: nat, all: seq<Node>)
    requires Best(target, list, k, all)
    ensures forall x :: x in KeysOf(all) ==> |x| == |target|
    ensures ClosestKeys(target, KeysOf(list), k, KeysOf(all))
    ensures |KeysOf(list)| == |list|
  {
    hide Distance;
    KeysOfSize(list);
    KeysOfSize(all);
    BestFits(target, list, k, all);
    forall x | x in KeysOf(list)
      ensures x in KeysOf(all)
    {
      assert HasKey(list, x);
      var j :| 0 <= j < |all| && all[j].publicKey == x;
    }
    forall a, b | a in KeysOf(list) && b in KeysOf(all) - KeysOf(list)
      ensures Distance(target, a) < Distance(target, b)
    {
      var i :| 0 <= i < |list| && list[i].publicKey == a;
      var j :| 0 <= j < |all| && all[j].publicKey == b;
      assert all[j] !in list;
      assert AllCloser(target, list, all[j]);
    }
  }

  /** Every offered key is admitted, save perhaps the all-zero one; nothing else is. */
  lemma {:induction false} AdmittedKeys(target: Key, k: nat, offers: seq<Node>)
    requires KeysFit(target, offers)
    ensures var zero := ZeroKey(|target|);
            && KeysOf(Admitted(k, offers)) <= KeysOf(offers)
            && KeysOf(offers) - {zero} <= KeysOf(Admitted(k, offers))
  {
    if offers != [] {
      var init, last := offers[..|offers| - 1], offers[|offers| - 1];
      AdmittedKeys(target, k, init);
      assert KeysOf(offers) == KeysOf(init) + {last.publicKey};
      var seen := Admitted(k, init);
      assert HasKey(seen, last.publicKey) <==> last.publicKey in KeysOf(seen);
      KeysOfSnoc(seen, last);
    }
  }

  /** Offer `j` has the all-zero key and comes after `k` other distinct keys. */
  predicate LateZero(target: Key, k: nat, offers: seq<Node>, j: nat)
    requires j < |offers|
  {
    var zero := ZeroKey(|target|);
    offers[j].publicKey == zero && |KeysOf(offers[..j]) - {zero}| >= k
  }

  /** An eligible entry with the all-zero key comes up after `k` other distinct eligible keys did. */
  ghost predicate ZeroComesLate(target: Key, k: nat, offers: seq<Node>) {
    exists j :: 0 <= j < |offers| && LateZero(target, k, offers, j)
  }

  lemma {:induction false} AdmittedDistinct(k: nat, offers: seq<Node>)
    ensures DistinctKeys(Admitted(k, offers))
  {
    if offers != [] {
      AdmittedDistinct(k, offers[..|offers| - 1]);
    }
  }

  lemma {:induction false} ZeroAdmitted(target: Key, k: nat, offers: seq<Node>)
    requires KeysFit(target, offers)
    ensures ZeroKey(|target|) in KeysOf(Admitted(k, offers)) <==> ZeroComesLate(target, k, offers)
  {
    hide ZeroComesLate, ZeroKey;
    if offers == [] {
      assert !ZeroComesLate(target, k, offers) by { NoOffers(target, k); }
    } else {
      var n := |offers| - 1;
      var init, last := offers[..n], offers[n];
      var zero, seen := ZeroKey(|target|), Admitted(k, init);
      ZeroAdmitted(target, k, init);
      LatePrefix(target, k, offers);
      assert HasKey(seen, last.publicKey) <==> last.publicKey in KeysOf(seen);
      KeysOfSnoc(seen, last);
      if zero !in KeysOf(seen) {
        AdmittedKeys(target, k, init);
        AdmittedDistinct(k, init);
        KeysOfSize(seen);
        assert KeysOf(seen) == KeysOf(init) - {zero};
      }
    }
  }

  lemma NoOffers(target: Key, k: nat)
    ensures !ZeroComesLate(target, k, [])
  {}

  lemma LateZeroPrefix(target: Key, k: nat, offers: seq<Node>, n: nat, j: nat)
    requires j < n <= |offers|
    ensures LateZero(target, k, offers[..n], j) <==> LateZero(target, k, offers, j)
  {
    assert offers[..n][..j] == offers[..j];
  }

  lemma LatePrefix(target: Key, k: nat, offers: seq<Node>)
    requires offers != []
    ensures var n := |offers| - 1;
            ZeroComesLate(target, k, offers) <==> ZeroComesLate(target, k, offers[..n]) || LateZero(target, k, offers, n)
  {
    hide LateZero;
    var n := |offers| - 1;
    if ZeroComesLate(target, k, offers[..n]) {
      var j :| 0 <= j < n && LateZero(target, k, offers[..n], j);
      LateZeroPrefix(target, k, offers, n, j);
    }
    if ZeroComesLate(target, k, offers) {
      var j :| 0 <= j < |offers| && LateZero(target, k, offers, j);
      if j < n {
        LateZeroPrefix(target, k, offers, n, j);
      }
    }
  }

  lemma {:induction false} OfferKeys(q: Query, clients: seq<Client>)
    requires ClientsFit(q.target, clients)
    ensures KeysOf(Offers(q, clients)) == EligibleKeys(q, clients)
  {
    hide Eligible;
    if clients != [] {
      var init, last := clients[..|clients| - 1], clients[|clients| - 1];
      OfferKeys(q, init);
      var ns := Offers(q, init);
      assert KeysOf(ns + [AsNode(q, last)]) == KeysOf(ns) + {last.publicKey} by {
        assert (ns + [AsNode(q, last)])[|ns|].publicKey == last.publicKey;
        assert forall i :: 0 <= i < |ns| ==> (ns + [AsNode(q, last)])[i] == ns[i];
      }
      assert EligibleKeys(q, clients) == EligibleKeys(q, init) + (if Eligible(q, last) then {last.publicKey} else {});
    }
  }

  function CloserThan(target: Key, keys: set<Key>, z: Key): set<Key>
    requires |z| == |target| && forall x :: x in keys ==> |x| == |target|
  {
    set x | x in keys && Distance(target, x) < Distance(target, z)
  }

  lemma Spare(a: set<Key>, b: set<Key>, x: Key) returns (c: Key)
    requires |a| >= |b| && x in b && x !in a
    ensures c in a && c !in b
  {
    if a <= b {
      Smaller(a + {x}, b);
    }
    c :| c in a && c !in b;
  }

  /** Leaving one key out of consideration is harmless exactly when `k` others are closer. */
  lemma WithoutKey(target: Key, chosen: set<Key>, k: nat, keys: set<Key>, z: Key)
    requires (forall x :: x in keys ==> |x| == |target|) && z in keys
    requires ClosestKeys(target, chosen, k, keys - {z})
    ensures ClosestKeys(target, chosen, k, keys) <==> |CloserThan(target, keys, z)| >= k
  {
    hide Distance;
    var closer := CloserThan(target, keys, z);
    assert |keys - {z}| == |keys| - 1;
    Smaller(closer, keys - {z});
    if |closer| >= k {
      forall a | a in chosen
        ensures Distance(target, a) < Distance(target, z)
      {
        if a !in closer {
          var c := Spare(closer, chosen, a);
        }
      }
      assert ClosestKeys(target, chosen, k, keys);
    }
    if ClosestKeys(target, chosen, k, keys) {
      Smaller(chosen, closer);
    }
  }

  /** When a search gives the closest keys: always, unless an eligible all-zero key comes up too
      early and belongs among them. */
  ghost predicate ZeroKeyHarmless(q: Query, k: nat, clients: seq<Client>)
    requires ClientsFit(q.target, clients)
  {
    var zero, keys := ZeroKey(|q.target|), EligibleKeys(q, clients);
    || zero !in keys
    || ZeroComesLate(q.target, k, Offers(q, clients))
    || |CloserThan(q.target, keys, zero)| >= k
  }

  lemma SearchIsExact(q: Query, clients: seq<Client>, list: seq<Node>, k: nat)
    requires ClientsFit(q.target, clients)
    requires Best(q.target, list, k, Admitted(k, Offers(q, clients)))
    ensures ClosestKeys(q.target, KeysOf(list), k, EligibleKeys(q, clients)) <==> ZeroKeyHarmless(q, k, clients)
  {
    hide Distance, Best, Eligible, Admitted, Offers;
    var offers, zero, keys := Offers(q, clients), ZeroKey(|q.target|), EligibleKeys(q, clients);
    var all := Admitted(k, offers);
    BestIsClosest(q.target, list, k, all);
    OfferKeys(q, clients);
    AdmittedKeys(q.target, k, offers);
    ZeroAdmitted(q.target, k, offers);
    if zero in KeysOf(all) || zero !in keys {
      assert KeysOf(all) == keys;
    } else {
      assert KeysOf(all) == keys - {zero};
      WithoutKey(q.target, KeysOf(list), k, keys, zero);
    }
  }

  lemma {:induction false} AdmittedAreOffers(k: nat, offers: seq<Node>)
    ensures forall n :: n in Admitted(k, offers) ==> n in offers
  {
    if offers != [] {
      AdmittedAreOffers(k, offers[..|offers| - 1]);
    }
  }

  // ---------------------------------------------------------------- eligible, in terms of the entries

  /** `c` is in the close list or in the list of a friend. */
  predicate InDht(dht: DHT, c: Client) {
    c in dht.closeList || exists i :: 0 <= i < |dht.friendLists| && c in dht.friendLists[i]
  }

  /** `a` is the association of `c` that answers the query: the one of the wanted family, or the more recent
      one when any will do; heard of less than 122 seconds ago; no LAN address for a peer outside; and of a
      node that announces when that is asked for. */
  predicate Answers(q: Query, c: Client, a: Assoc) {
    && (q.family.IPv4? || q.family.IPv6? || q.family.Unspec?)
    && (q.family.IPv4? ==> a == c.assoc4)
    && (q.family.IPv6? ==> a == c.assoc6)
    && (q.family.Unspec? ==> a == if c.assoc6.timestamp > c.assoc4.timestamp then c.assoc6 else c.assoc4)
    && (a.timestamp + 122) % U64_LIMIT > q.curTime
    && (q.lanAddress(a.ipPort) ==> q.isLan)
    && (q.wantAnnounce ==> c.announceNode)
  }

  ghost predicate IsAnswer(dht: DHT, q: Query, n: Node) {
    exists c: Client, a: Assoc :: InDht(dht, c) && Answers(q, c, a) && n == Node(c.publicKey, a.ipPort)
  }

  ghost predicate IsAnswerKey(dht: DHT, q: Query, x: Key) {
    exists c: Client, a: Assoc :: InDht(dht, c) && Answers(q, c, a) && x == c.publicKey
  }

  lemma EligibleAnswers(q: Query, c: Client)
    ensures Eligible(q, c) ==> Answers(q, c, Chosen(q, c)) && AsNode(q, c) == Node(c.publicKey, Chosen(q, c).ipPort)
    ensures forall a :: Answers(q, c, a) ==> Eligible(q, c) && a == Chosen(q, c)
  {}

  lemma {:induction false} JoinedAre(lists: seq<seq<Client>>, c: Client)
    ensures c in Joined(lists) <==> exists i :: 0 <= i < |lists| && c in lists[i]
  {
    if lists != [] {
      var n := |lists| - 1;
      JoinedAre(lists[..n], c);
      if c in Joined(lists[..n]) {
        var i :| 0 <= i < n && c in lists[..n][i];
        assert c in lists[i];
      }
      if i :| 0 <= i < |lists| && c in lists[i] {
        assert i < n ==> lists[..n][i] == lists[i];
      }
    }
  }

  lemma {:induction false} OfferedBy(q: Query, clients: seq<Client>, n: Node)
    requires ClientsFit(q.target, clients) && n in Offers(q, clients)
    ensures exists i :: 0 <= i < |clients| && Eligible(q, clients[i]) && n == AsNode(q, clients[i])
  {
    hide Eligible, AsNode;
    var k := |clients| - 1;
    if n in Offers(q, clients[..k]) {
      OfferedBy(q, clients[..k], n);
      var i :| 0 <= i < k && Eligible(q, clients[..k][i]) && n == AsNode(q, clients[..k][i]);
      assert clients[i] == clients[..k][i];
    }
  }

  lemma OffersAnswer(dht: DHT, q: Query, n: Node)
    requires ClientsFit(q.target, Entries(dht)) && n in Offers(q, Entries(dht))
    ensures IsAnswer(dht, q, n)
  {
    hide Eligible, AsNode, Offers, Answers;
    var clients := Entries(dht);
    OfferedBy(q, clients, n);
    var i :| 0 <= i < |clients| && Eligible(q, clients[i]) && n == AsNode(q, clients[i]);
    var c := clients[i];
    EligibleAnswers(q, c);
    JoinedAre(dht.friendLists, c);
    assert InDht(dht, c);
  }

  lemma EligibleKeysAnswer(dht: DHT, q: Query, x: Key)
    ensures x in EligibleKeys(q, Entries(dht)) <==> IsAnswerKey(dht, q, x)
  {
    hide Eligible, Answers;
    var clients := Entries(dht);
    if x in EligibleKeys(q, clients) {
      var i :| 0 <= i < |clients| && Eligible(q, clients[i]) && clients[i].publicKey == x;
      EligibleAnswers(q, clients[i]);
      JoinedAre(dht.friendLists, clients[i]);
      assert InDht(dht, clients[i]);
    }
    if IsAnswerKey(dht, q, x) {
      var c: Client, a: Assoc :| InDht(dht, c) && Answers(q, c, a) && x == c.publicKey;
      EligibleAnswers(q, c);
      JoinedAre(dht.friendLists, c);
      assert c in clients;
    }
  }

  /** get_close_nodes: the returned nodes are eligible entries with distinct keys, and their keys are
      exactly the closest eligible ones in all cases but the one `ZeroKeyHarmless` excludes. */
  method GetCloseNodes(dht: DHT, q: Query, nodes: array<Node>) returns (num: nat)
    requires dht.Fits(q.target) && q.curTime == dht.curTime && nodes.Length < NOT_FOUND
    modifies nodes
    ensures ClientsFit(q.target, Entries(dht)) && num <= nodes.Length
    ensures DistinctKeys(nodes[..num]) && num == |KeysOf(nodes[..num])|
    ensures forall i :: 0 <= i < num ==> nodes[i] in Offers(q, Entries(dht))
    ensures ClosestKeys(q.target, KeysOf(nodes[..num]), nodes.Length, EligibleKeys(q, Entries(dht))) <==>
            ZeroKeyHarmless(q, nodes.Length, Entries(dht))
    ensures ZeroKey(|q.target|) !in EligibleKeys(q, Entries(dht)) ==>
              num == Min(nodes.Length, |EligibleKeys(q, Entries(dht))|)
    ensures forall i :: 0 <= i < num ==> IsAnswer(dht, q, nodes[i])
    ensures forall x :: x in EligibleKeys(q, Entries(dht)) <==> IsAnswerKey(dht, q, x)
  {
    for i := 0 to nodes.Length
      invariant forall j :: 0 <= j < i ==> nodes[j] == Node(ZeroKey(|q.target|), EMPTY_IP_PORT)
    {
      nodes[i] := Node(ZeroKey(|q.target|), EMPTY_IP_PORT);
    }
    assert nodes[..][..0] == [];
    num := GetSomewhatCloseNodes(dht, q, nodes);
    ghost var offers := Offers(q, Entries(dht));
    ghost var list := nodes[..][..num];
    assert nodes[..num] == list;
    AdmittedAreOffers(nodes.Length, offers);
    forall i | 0 <= i < num
      ensures nodes[i] in offers
    {
      assert nodes[i] == list[i] && list[i] in Admitted(nodes.Length, offers);
    }
    hide Distance, Eligible, Admitted, Offers, IsAnswer, IsAnswerKey;
    BestIsClosest(q.target, list, nodes.Length, Admitted(nodes.Length, offers));
    SearchIsExact(q, Entries(dht), list, nodes.Length);
    forall i | 0 <= i < num
      ensures IsAnswer(dht, q, nodes[i])
    {
      OffersAnswer(dht, q, nodes[i]);
    }
    forall x
      ensures x in EligibleKeys(q, Entries(dht)) <==> IsAnswerKey(dht, q, x)
    {
      EligibleKeysAnswer(dht, q, x);
    }
  }

  /** The excluded case: an eligible all-zero key that is the only entry is never returned, whatever the
      room. */
  lemma ZeroKeyIsSkipped(q: Query, c: Client, k: nat)
    requires c.publicKey == ZeroKey(|q.target|) && Eligible(q, c) && k >= 1
    ensures ClientsFit(q.target, [c]) && EligibleKeys(q, [c]) == {c.publicKey}
    ensures !ZeroKeyHarmless(q, k, [c])
    ensures Admitted(k, Offers(q, [c])) == []
  {
    var n := AsNode(q, c);
    assert [c][..0] == [] && [c][0] == c;
    assert Offers(q, []) == [];
    assert Offers(q, [c]) == [n];
    assert [n][..0] == [];
    assert KeysOf([]) - {ZeroKey(|q.target|)} == {};
    assert !LateZero(q.target, k, [n], 0);
    assert CloserThan(q.target, {c.publicKey}, c.publicKey) == {};
  }

  /** It is real: 32-byte keys, IPv4, nothing timed out. */
  lemma ZeroKeyCanBeEligible() returns (q: Query, c: Client)
    ensures |q.target| == 32 && c.publicKey == ZeroKey(32) && Eligible(q, c)
    ensures ClientsFit(q.target, [c]) && !ZeroKeyHarmless(q, 4, [c])
  {
    q := Query(seq(32, _ => 1), 0, IPv4, true, false, _ => false);
    c := Client(ZeroKey(32), EMPTY_ASSOC.(ipPort := IPPort(IPv4, [1, 2, 3, 4], [0, 1])), EMPTY_ASSOC, false);
    ZeroKeyIsSkipped(q, c, 4);
  }
}
