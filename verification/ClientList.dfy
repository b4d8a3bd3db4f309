/**
  The bounded client lists of the DHT (toxcore/DHT.c): whether to take a node is decided by two
  slots only, and what is thrown out is a timed-out entry or the farthest one.
 */
module ClientList {
  import opened Words
  import opened XorMetric
  import opened DhtTypes
  import C = ClosestNodes

  predicate TimedOut(curTime: u64, c: Client) {
    AssocTimeout(curTime, c.assoc4) && AssocTimeout(curTime, c.assoc6)
  }

  /** dht_cmp_entry: timed-out entries first, then from far to near. */
  function CmpEntry(curTime: u64, base: Key, a: Client, b: Client): int
    requires |a.publicKey| == |b.publicKey| == |base|
  {
    var t1, t2 := TimedOut(curTime, a), TimedOut(curTime, b);
    if t1 && t2 then 0
    else if t1 then -1
    else if t2 then 1
    else
      var closest := Closest(base, a.publicKey, b.publicKey);
      if closest == 1 then 1 else if closest == 2 then -1 else 0
  }

  /** store_node_ok */
  predicate StoreNodeOk(client: Client, curTime: u64, pk: Key, base: Key)
    requires |client.publicKey| == |pk| == |base|
  {
    TimedOut(curTime, client) || Closest(base, client.publicKey, pk) == 2
  }

  predicate Fits(base: Key, l: seq<Client>) {
    forall i :: 0 <= i < |l| ==> |l[i].publicKey| == |base|
  }

  predicate Sorted(curTime: u64, base: Key, l: seq<Client>)
    requires Fits(base, l)
  {
    forall i, j :: 0 <= i < j < |l| ==> CmpEntry(curTime, base, l[i], l[j]) <= 0
  }

  ghost predicate SortOf(curTime: u64, base: Key, l: seq<Client>, s: seq<Client>) {
    multiset(s) == multiset(l) && Fits(base, s) && Sorted(curTime, base, s)
  }

  /** The comparison is a total preorder, so sorting by it makes sense. */
  lemma CmpEntryOrder(curTime: u64, base: Key, a: Client, b: Client, c: Client)
    requires |a.publicKey| == |b.publicKey| == |c.publicKey| == |base|
    ensures CmpEntry(curTime, base, a, b) == -CmpEntry(curTime, base, b, a)
    ensures CmpEntry(curTime, base, a, b) <= 0 && CmpEntry(curTime, base, b, c) <= 0 ==> CmpEntry(curTime, base, a, c) <= 0
    ensures CmpEntry(curTime, base, a, b) == 0 <==>
              (TimedOut(curTime, a) && TimedOut(curTime, b))
              || (!TimedOut(curTime, a) && !TimedOut(curTime, b) && a.publicKey == b.publicKey)
  {
    hide AssocTimeout, Distance;
    DistanceInjective(base, a.publicKey, b.publicKey);
  }

  /** qsort: some sorted arrangement of the entries (callers may rely on no more). */
  method QSort(l: seq<Client>, curTime: u64, base: Key) returns (s: seq<Client>)
    requires Fits(base, l)
    ensures SortOf(curTime, base, l, s)
  {
    s := [];
    for n := 0 to |l|
      invariant multiset(s) == multiset(l[..n]) && Fits(base, s) && Sorted(curTime, base, s)
    {
      var k := 0;
      while k < |s| && CmpEntry(curTime, base, s[k], l[n]) <= 0
        invariant k <= |s|
        invariant forall i :: 0 <= i < k ==> CmpEntry(curTime, base, s[i], l[n]) <= 0
      {
        k := k + 1;
      }
      Insertion(s, l[n], k);
      InsertSorted(curTime, base, s, l[n], k, s[..k] + [l[n]] + s[k..]);
      assert l[..n + 1] == l[..n] + [l[n]];
      s := s[..k] + [l[n]] + s[k..];
    }
    assert l[..|l|] == l;
  }

  /** The entries from position `k` on do not come before `x`. */
  lemma ComesAfter(curTime: u64, base: Key, s: seq<Client>, x: Client, k: nat, b: nat)
    requires Fits(base, s) && Sorted(curTime, base, s) && |x.publicKey| == |base| && k <= b < |s|
    requires CmpEntry(curTime, base, s[k], x) > 0
    ensures CmpEntry(curTime, base, x, s[b]) <= 0
  {
    CmpEntryOrder(curTime, base, s[k], x, x);
    hide CmpEntry;
    if b != k { CmpEntryOrder(curTime, base, x, s[k], s[b]); }
  }

  ghost predicate InsertedAt(s: seq<Client>, x: Client, k: nat, t: seq<Client>)
    requires k <= |s|
  {
    && |t| == |s| + 1 && t[k] == x
    && (forall i :: 0 <= i < k ==> t[i] == s[i])
    && (forall i :: k < i < |t| ==> t[i] == s[i - 1])
  }

  lemma Insertion(s: seq<Client>, x: Client, k: nat)
    requires k <= |s|
    ensures InsertedAt(s, x, k, s[..k] + [x] + s[k..])
    ensures multiset(s[..k] + [x] + s[k..]) == multiset(s) + multiset{x}
  {
    assert s == s[..k] + s[k..];
  }

  lemma InsertSorted(curTime: u64, base: Key, s: seq<Client>, x: Client, k: nat, t: seq<Client>)
    requires Fits(base, s) && Sorted(curTime, base, s) && |x.publicKey| == |base| && k <= |s|
    requires forall i :: 0 <= i < k ==> CmpEntry(curTime, base, s[i], x) <= 0
    requires k < |s| ==> CmpEntry(curTime, base, s[k], x) > 0
    requires InsertedAt(s, x, k, t)
    ensures Fits(base, t) && Sorted(curTime, base, t)
  {
    hide CmpEntry;
    forall i | 0 <= i < |t|
      ensures |t[i].publicKey| == |base|
    {
      assert i > k ==> t[i] == s[i - 1];
    }
    forall i, j | 0 <= i < j < |t|
      ensures CmpEntry(curTime, base, t[i], t[j]) <= 0
    {
      if i == k {
        ComesAfter(curTime, base, s, x, k, j - 1);
      } else if j != k {
        var a, b := if i < k then i else i - 1, if j < k then j else j - 1;
        assert t[i] == s[a] && t[j] == s[b];
      }
    }
  }

  /** sort_client_list */
  method SortClientList(list: array<Client>, curTime: u64, base: Key)
    requires Fits(base, list[..])
    modifies list
    ensures SortOf(curTime, base, old(list[..]), list[..])
  {
    var sorted := QSort(list[..], curTime, base);
    assert |multiset(sorted)| == |multiset(list[..])|;
    for i := 0 to list.Length
      invariant |sorted| == list.Length
      invariant forall j :: 0 <= j < i ==> list[j] == sorted[j]
    {
      list[i] := sorted[i];
    }
    assert list[..] == sorted;
  }

  /** update_client_with_reset */
  function UpdateClientWithReset(now: u64, client: Client, ipPort: IPPort): Client {
    if ipPort.family.IPv4? then client.(assoc4 := Fresh(now, client.assoc4, ipPort), assoc6 := EMPTY_ASSOC)
    else client.(assoc6 := Fresh(now, client.assoc6, ipPort), assoc4 := EMPTY_ASSOC)
  }

  function Fresh(now: u64, a: Assoc, ipPort: IPPort): Assoc {
    a.(ipPort := ipPort, timestamp := now, retIpPort := EMPTY_IP_PORT, retTimestamp := 0, retIpSelf := false)
  }

  /** The entry written over `c`. */
  function Renewed(now: u64, c: Client, pk: Key, ipPort: IPPort): Client {
    UpdateClientWithReset(now, c.(publicKey := pk), ipPort)
  }

  /** `c` is an entry for key `pk` with the address `ipPort`, heard of at `now`: everything known of the address
      of the other family and of what others said about it is forgotten. */
  predicate Records(c: Client, pk: Key, ipPort: IPPort, now: u64) {
    && c.publicKey == pk
    && var written, cleared := if ipPort.family == IPv4 then c.assoc4 else c.assoc6, if ipPort.family == IPv4 then c.assoc6 else c.assoc4;
       && written.ipPort == ipPort && written.timestamp == now
       && written.retIpPort == EMPTY_IP_PORT && written.retTimestamp == 0 && !written.retIpSelf
       && cleared == EMPTY_ASSOC
  }

  predicate Storable(ipPort: IPPort) { ipPort.family.IPv4? || ipPort.family.IPv6? }

  /** What a call of replace_all may do to a list: nothing, or overwrite the first entry of some
      sorted arrangement of it. */
  ghost predicate Replaced(curTime: u64, now: u64, base: Key, l: seq<Client>, pk: Key, ipPort: IPPort,
                           l': seq<Client>, sorted: seq<Client>)
    requires |l| >= 2 && Fits(base, l) && |pk| == |base|
  {
    if Storable(ipPort) && (StoreNodeOk(l[1], curTime, pk, base) || StoreNodeOk(l[0], curTime, pk, base)) then
      && SortOf(curTime, base, l, sorted) && |sorted| == |l|
      && l' == sorted[0 := Renewed(now, sorted[0], pk, ipPort)]
    else
      l' == l
  }

  /** replace_all */
  method ReplaceAll(curTime: u64, now: u64, list: array<Client>, pk: Key, ipPort: IPPort, base: Key)
    returns (stored: bool, ghost sorted: seq<Client>)
    requires list.Length >= 2 && Fits(base, list[..]) && |pk| == |base|
    modifies list
    ensures Replaced(curTime, now, base, old(list[..]), pk, ipPort, list[..], sorted)
    ensures stored <==> Storable(ipPort) && (StoreNodeOk(old(list[1]), curTime, pk, base) || StoreNodeOk(old(list[0]), curTime, pk, base))
    ensures stored ==>
              && Records(list[0], pk, ipPort, now) && list[..][1..] == sorted[1..] && multiset(sorted) == multiset(old(list[..]))
              && list[0].announceNode == sorted[0].announceNode
    ensures !stored ==> list[..] == old(list[..])
  {
    hide Sorted, StoreNodeOk;
    sorted := [];
    if !ipPort.family.IPv4? && !ipPort.family.IPv6? {
      return false, sorted;
    }
    if !StoreNodeOk(list[1], curTime, pk, base) && !StoreNodeOk(list[0], curTime, pk, base) {
      return false, sorted;
    }
    ghost var l := list[..];
    assert l[0] == list[0] && l[1] == list[1];
    SortClientList(list, curTime, base);
    sorted := list[..];
    var client := list[0];
    list[0] := UpdateClientWithReset(now, client.(publicKey := pk), ipPort);
    assert list[..] == sorted[0 := Renewed(now, sorted[0], pk, ipPort)];
    return true, sorted;
  }

  // ---------------------------------------------------------------- what is thrown out

  /** The first entry of a sorted list is timed out if any is, and otherwise the farthest. */
  lemma FirstIsWorst(curTime: u64, base: Key, l: seq<Client>, s: seq<Client>, c: Client)
    requires SortOf(curTime, base, l, s) && c in l
    ensures |s| == |l| > 0 && |c.publicKey| == |base|
    ensures TimedOut(curTime, c) ==> TimedOut(curTime, s[0])
    ensures TimedOut(curTime, s[0]) || Distance(base, c.publicKey) <= Distance(base, s[0].publicKey)
  {
    assert |multiset(s)| == |multiset(l)|;
    assert c in multiset(s);
    var i :| 0 <= i < |s| && s[i] == c;
    hide AssocTimeout, Distance;
    assert i > 0 ==> CmpEntry(curTime, base, s[0], s[i]) <= 0;
  }

  /** From any list at all: the entry thrown out is timed out or strictly farther than the new key. */
  lemma EvictsWorse(curTime: u64, base: Key, l: seq<Client>, pk: Key, s: seq<Client>)
    requires |l| >= 2 && Fits(base, l) && |pk| == |base| && SortOf(curTime, base, l, s)
    requires StoreNodeOk(l[1], curTime, pk, base) || StoreNodeOk(l[0], curTime, pk, base)
    ensures |s| == |l|
    ensures TimedOut(curTime, s[0]) || Distance(base, s[0].publicKey) > Distance(base, pk)
  {
    hide AssocTimeout, Distance, SortOf;
    FirstIsWorst(curTime, base, l, s, l[0]);
    FirstIsWorst(curTime, base, l, s, l[1]);
  }

  // ---------------------------------------------------------------- two slots are enough

  /** All entries but the first are in sorted order. */
  predicate TailSorted(curTime: u64, base: Key, l: seq<Client>)
    requires Fits(base, l) && |l| >= 1
  {
    Sorted(curTime, base, l[1..])
  }

  /** Looking at slots 0 and 1 only is exact for a list whose tail is sorted. */
  lemma TwoSlotsSuffice(curTime: u64, base: Key, l: seq<Client>, pk: Key)
    requires |l| >= 2 && Fits(base, l) && |pk| == |base| && TailSorted(curTime, base, l)
    ensures StoreNodeOk(l[1], curTime, pk, base) || StoreNodeOk(l[0], curTime, pk, base) <==>
            exists i :: 0 <= i < |l| && StoreNodeOk(l[i], curTime, pk, base)
  {
    hide AssocTimeout, Distance;
    forall i | 2 <= i < |l| && StoreNodeOk(l[i], curTime, pk, base)
      ensures StoreNodeOk(l[1], curTime, pk, base)
    {
      assert CmpEntry(curTime, base, l[1..][0], l[1..][i - 1]) <= 0;
    }
  }

  // ---------------------------------------------------------------- keys that count

  predicate Alive(curTime: u64, c: Client) { !TimedOut(curTime, c) }

  function AliveKeys(curTime: u64, l: seq<Client>): set<Key> {
    set i | 0 <= i < |l| && Alive(curTime, l[i]) :: l[i].publicKey
  }

  function CountAlive(curTime: u64, l: seq<Client>): (n: nat)
    ensures n <= |l|
  {
    if l == [] then 0 else (if Alive(curTime, l[0]) then 1 else 0) + CountAlive(curTime, l[1..])
  }

  lemma AliveKeysFirst(curTime: u64, l: seq<Client>)
    requires l != []
    ensures AliveKeys(curTime, l) ==
            AliveKeys(curTime, l[1..]) + if Alive(curTime, l[0]) then {l[0].publicKey} else {}
  {
    hide Alive;
    forall x
      ensures x in AliveKeys(curTime, l) <==>
              x in AliveKeys(curTime, l[1..]) || (Alive(curTime, l[0]) && x == l[0].publicKey)
    {
      if x in AliveKeys(curTime, l) {
        var i :| 0 <= i < |l| && Alive(curTime, l[i]) && l[i].publicKey == x;
        if i > 0 { assert l[1..][i - 1] == l[i]; }
      }
      if x in AliveKeys(curTime, l[1..]) {
        var i :| 0 <= i < |l| - 1 && Alive(curTime, l[1..][i]) && l[1..][i].publicKey == x;
        assert l[1..][i] == l[i + 1];
      }
    }
  }

  lemma {:induction false} AtMostCount(curTime: u64, l: seq<Client>)
    ensures |AliveKeys(curTime, l)| <= CountAlive(curTime, l)
  {
    if l != [] {
      AtMostCount(curTime, l[1..]);
      AliveKeysFirst(curTime, l);
    }
  }

  lemma {:induction false} CountRemove(curTime: u64, l: seq<Client>, i: nat)
    requires i < |l|
    ensures CountAlive(curTime, l) == CountAlive(curTime, l[..i] + l[i + 1..]) + if Alive(curTime, l[i]) then 1 else 0
  {
    var rest := l[..i] + l[i + 1..];
    if i == 0 {
      assert rest == l[1..];
    } else {
      CountRemove(curTime, l[1..], i - 1);
      assert rest[1..] == l[1..][..i - 1] + l[1..][i..];
    }
  }

  lemma TakeOne<T>(s: seq<T>, i: nat)
    requires i < |s|
    ensures multiset(s[..i] + s[i + 1..]) == multiset(s) - multiset{s[i]}
  {
    assert s == s[..i] + ([s[i]] + s[i + 1..]);
  }

  lemma MatchFirst<T>(l: seq<T>, s: seq<T>) returns (i: nat)
    requires multiset(l) == multiset(s) && l != []
    ensures i < |s| && s[i] == l[0] && multiset(l[1..]) == multiset(s[..i] + s[i + 1..])
  {
    i := PlaceOf(s, l[0]);
    TakeFirst(l);
    TakeOne(s, i);
  }

  lemma PlaceOf<T>(s: seq<T>, x: T) returns (i: nat)
    requires x in multiset(s)
    ensures i < |s| && s[i] == x
  {
    i :| 0 <= i < |s| && s[i] == x;
  }

  lemma TakeFirst<T>(l: seq<T>)
    requires l != []
    ensures l[0] in multiset(l) && multiset(l[1..]) == multiset(l) - multiset{l[0]}
  {
    assert l == [l[0]] + l[1..];
  }

  lemma NothingMatches<T>(s: seq<T>)
    requires multiset(s) == multiset([])
    ensures s == []
  {
    assert |multiset(s)| == 0;
  }

  lemma {:induction false} CountPermuted(curTime: u64, l: seq<Client>, s: seq<Client>)
    requires multiset(l) == multiset(s)
    ensures CountAlive(curTime, l) == CountAlive(curTime, s)
  {
    hide Alive, CountAlive;
    if l == [] {
      NothingMatches(s);
    } else {
      var i := MatchFirst(l, s);
      CountPermuted(curTime, l[1..], s[..i] + s[i + 1..]);
      CountRemove(curTime, l, 0);
      CountRemove(curTime, s, i);
      assert l[..0] + l[1..] == l[1..];
    }
  }

  lemma KeysPermuted(curTime: u64, l: seq<Client>, s: seq<Client>)
    requires multiset(l) == multiset(s)
    ensures AliveKeys(curTime, l) <= AliveKeys(curTime, s)
  {
    hide Alive;
    forall x | x in AliveKeys(curTime, l)
      ensures x in AliveKeys(curTime, s)
    {
      var i :| 0 <= i < |l| && Alive(curTime, l[i]) && l[i].publicKey == x;
      assert l[i] in multiset(s);
      var j :| 0 <= j < |s| && s[j] == l[i];
    }
  }

  // ---------------------------------------------------------------- runs

  predicate KeysFit(base: Key, keys: set<Key>) {
    forall x :: x in keys ==> |x| == |base|
  }

  /** `l` holds the closest of `keys` among its entries that count, each once, and its tail is sorted. */
  ghost predicate Holds(curTime: u64, base: Key, l: seq<Client>, keys: set<Key>) {
    && |l| >= 2 && Fits(base, l) && KeysFit(base, keys)
    && TailSorted(curTime, base, l)
    && |AliveKeys(curTime, l)| == CountAlive(curTime, l)
    && C.ClosestKeys(base, AliveKeys(curTime, l), |l|, keys)
  }

  /** A time stamp that does not count as timed out at `curTime`. */
  predicate FreshTime(curTime: u64, now: u64) { curTime < now + BAD_NODE_TIMEOUT < U64_LIMIT }

  lemma RenewedIsAlive(curTime: u64, now: u64, c: Client, pk: Key, ipPort: IPPort)
    requires FreshTime(curTime, now)
    ensures Alive(curTime, Renewed(now, c, pk, ipPort)) && Renewed(now, c, pk, ipPort).publicKey == pk
  {}

  /** No entry may be replaced: all count, and all are strictly closer than the rejected key. */
  lemma RejectedIsFarther(curTime: u64, base: Key, l: seq<Client>, pk: Key)
    requires Fits(base, l) && |pk| == |base|
    requires forall i :: 0 <= i < |l| ==> !StoreNodeOk(l[i], curTime, pk, base)
    requires pk !in AliveKeys(curTime, l)
    ensures CountAlive(curTime, l) == |l|
    ensures forall x :: x in AliveKeys(curTime, l) ==> |x| == |base| && Distance(base, x) < Distance(base, pk)
  {
    hide Distance, AssocTimeout;
    AllAlive(curTime, l);
    forall x | x in AliveKeys(curTime, l)
      ensures |x| == |base| && Distance(base, x) < Distance(base, pk)
    {
      var i :| 0 <= i < |l| && Alive(curTime, l[i]) && l[i].publicKey == x;
      DistanceInjective(base, x, pk);
      assert !StoreNodeOk(l[i], curTime, pk, base);
    }
  }

  lemma {:induction false} AllAlive(curTime: u64, l: seq<Client>)
    requires forall i :: 0 <= i < |l| ==> Alive(curTime, l[i])
    ensures CountAlive(curTime, l) == |l|
  {
    hide Alive;
    if l != [] {
      assert forall i :: 0 <= i < |l| - 1 ==> l[1..][i] == l[i + 1];
      AllAlive(curTime, l[1..]);
    }
  }

  /** Without its first entry a list of distinct live keys has exactly the other live keys. */
  lemma {:induction false} DropFirst(curTime: u64, s: seq<Client>)
    requires s != [] && |AliveKeys(curTime, s)| == CountAlive(curTime, s)
    ensures var k0 := if Alive(curTime, s[0]) then {s[0].publicKey} else {};
            && AliveKeys(curTime, s[1..]) == AliveKeys(curTime, s) - k0
            && k0 <= AliveKeys(curTime, s)
            && |AliveKeys(curTime, s[1..])| == CountAlive(curTime, s[1..])
  {
    hide Alive;
    AliveKeysFirst(curTime, s);
    AtMostCount(curTime, s[1..]);
  }

  /** Overwriting the first entry with a new live key. */
  lemma {:induction false} WriteFirst(curTime: u64, s: seq<Client>, c: Client)
    requires s != [] && |AliveKeys(curTime, s)| == CountAlive(curTime, s)
    requires Alive(curTime, c) && c.publicKey !in AliveKeys(curTime, s)
    ensures var l, k0 := s[0 := c], if Alive(curTime, s[0]) then {s[0].publicKey} else {};
            && AliveKeys(curTime, l) == AliveKeys(curTime, s) - k0 + {c.publicKey}
            && |AliveKeys(curTime, l)| == CountAlive(curTime, l)
  {
    hide Alive;
    var l := s[0 := c];
    DropFirst(curTime, s);
    AliveKeysFirst(curTime, l);
    assert l[1..] == s[1..];
  }

  // How the closest keys change, on sets.

  lemma ClosestKeepAll(base: Key, chosen: set<Key>, k: nat, keys: set<Key>, pk: Key)
    requires KeysFit(base, keys) && |pk| == |base| && C.ClosestKeys(base, chosen, k, keys) && pk !in keys
    requires |chosen| == k && forall x :: x in chosen ==> Distance(base, x) < Distance(base, pk)
    ensures KeysFit(base, keys + {pk}) && C.ClosestKeys(base, chosen, k, keys + {pk})
  {
    hide Distance;
  }

  lemma ClosestAdd(base: Key, chosen: set<Key>, k: nat, keys: set<Key>, pk: Key)
    requires KeysFit(base, keys) && |pk| == |base| && C.ClosestKeys(base, chosen, k, keys) && pk !in keys
    requires |chosen| < k
    ensures KeysFit(base, keys + {pk}) && C.ClosestKeys(base, chosen + {pk}, k, keys + {pk})
  {
    hide Distance;
    assert keys == chosen + (keys - chosen);
    assert |keys| == |chosen| + |keys - chosen|;
  }

  lemma ClosestSwap(base: Key, chosen: set<Key>, k: nat, keys: set<Key>, pk: Key, far: Key)
    requires KeysFit(base, keys) && |pk| == |base| && C.ClosestKeys(base, chosen, k, keys) && pk !in keys
    requires |chosen| == k && far in chosen && Distance(base, pk) < Distance(base, far)
    requires forall x :: x in chosen ==> Distance(base, x) <= Distance(base, far)
    ensures KeysFit(base, keys + {pk}) && C.ClosestKeys(base, chosen - {far} + {pk}, k, keys + {pk})
  {
    hide Distance;
    forall x | x in chosen && x != far
      ensures Distance(base, x) < Distance(base, far)
    {
      DistanceInjective(base, x, far);
    }
    var next, more := chosen - {far} + {pk}, keys + {pk};
    forall a, b | a in next && b in more - next
      ensures Distance(base, a) < Distance(base, b)
    {
      if b != far {
        assert b in keys - chosen;
        assert Distance(base, far) < Distance(base, b);
      }
    }
  }

  lemma ClosestAreKeys(base: Key, chosen: set<Key>, k: nat, keys: set<Key>)
    requires KeysFit(base, keys) && C.ClosestKeys(base, chosen, k, keys)
    ensures chosen <= keys && |chosen| <= k
  {}

  /** One call of replace_all with a fresh key keeps the list at the closest keys offered. */
  lemma {:induction false} ReplaceKeepsClosest(curTime: u64, now: u64, base: Key, l: seq<Client>, pk: Key, ipPort: IPPort,
                            l': seq<Client>, sorted: seq<Client>, keys: set<Key>)
    requires Holds(curTime, base, l, keys) && |pk| == |base| && pk !in keys && Storable(ipPort)
    requires FreshTime(curTime, now)
    requires Replaced(curTime, now, base, l, pk, ipPort, l', sorted)
    ensures |l'| == |l| && Holds(curTime, base, l', keys + {pk})
  {
    hide Alive, StoreNodeOk, CmpEntry, Distance, CountAlive, Renewed;
    TwoSlotsSuffice(curTime, base, l, pk);
    if StoreNodeOk(l[1], curTime, pk, base) || StoreNodeOk(l[0], curTime, pk, base) {
      Accepted(curTime, now, base, l, pk, ipPort, sorted, keys);
    } else {
      RejectedIsFarther(curTime, base, l, pk);
      ClosestKeepAll(base, AliveKeys(curTime, l), |l|, keys, pk);
    }
  }

  lemma {:induction false} Accepted(curTime: u64, now: u64, base: Key, l: seq<Client>, pk: Key, ipPort: IPPort, sorted: seq<Client>, keys: set<Key>)
    requires Holds(curTime, base, l, keys) && |pk| == |base| && pk !in keys && FreshTime(curTime, now)
    requires StoreNodeOk(l[1], curTime, pk, base) || StoreNodeOk(l[0], curTime, pk, base)
    requires SortOf(curTime, base, l, sorted) && |sorted| == |l|
    ensures Holds(curTime, base, sorted[0 := Renewed(now, sorted[0], pk, ipPort)], keys + {pk})
  {
    hide TimedOut, StoreNodeOk, CmpEntry, Distance, CountAlive, Renewed, AliveKeys, C.ClosestKeys;
    var c := Renewed(now, sorted[0], pk, ipPort);
    var l' := sorted[0 := c];
    var was, k := AliveKeys(curTime, l), |l|;
    RenewedIsAlive(curTime, now, sorted[0], pk, ipPort);
    EvictsWorse(curTime, base, l, pk, sorted);
    KeysPermuted(curTime, l, sorted);
    KeysPermuted(curTime, sorted, l);
    CountPermuted(curTime, l, sorted);
    assert AliveKeys(curTime, sorted) == was;
    ClosestAreKeys(base, was, k, keys);
    WriteFirst(curTime, sorted, c);
    DropFirst(curTime, sorted);
    assert l'[1..] == sorted[1..];
    assert TailSorted(curTime, base, l');
    if Alive(curTime, sorted[0]) {
      AliveAfterFirst(curTime, base, l, sorted);
      assert was - {sorted[0].publicKey} + {pk} == AliveKeys(curTime, l');
      ClosestSwap(base, was, k, keys, pk, sorted[0].publicKey);
    } else {
      CountFirstDead(curTime, sorted);
      assert was - {} + {pk} == was + {pk};
      ClosestAdd(base, was, k, keys, pk);
    }
  }

  lemma CountFirstDead(curTime: u64, l: seq<Client>)
    requires l != [] && !Alive(curTime, l[0])
    ensures CountAlive(curTime, l) < |l|
  {}

  /** A sorted list that starts with a live entry has no other kind, and starts with the farthest. */
  lemma {:induction false} AliveAfterFirst(curTime: u64, base: Key, l: seq<Client>, s: seq<Client>)
    requires SortOf(curTime, base, l, s) && s != [] && Alive(curTime, s[0])
    ensures CountAlive(curTime, l) == |l|
    ensures forall x :: x in AliveKeys(curTime, l) ==> |x| == |base| && Distance(base, x) <= Distance(base, s[0].publicKey)
  {
    hide CmpEntry, Distance, AssocTimeout;
    forall i | 0 <= i < |l|
      ensures Alive(curTime, l[i])
      ensures |l[i].publicKey| == |base| && Distance(base, l[i].publicKey) <= Distance(base, s[0].publicKey)
    {
      FirstIsWorst(curTime, base, l, s, l[i]);
    }
    AllAlive(curTime, l);
  }

  /** One node offered to a list, and the clock at that moment. */
  datatype Offer = Offer(pk: Key, ipPort: IPPort, now: u64)

  ghost predicate Step(curTime: u64, base: Key, l: seq<Client>, o: Offer, l': seq<Client>) {
    && |l| >= 2 && Fits(base, l) && |o.pk| == |base|
    && exists sorted :: Replaced(curTime, o.now, base, l, o.pk, o.ipPort, l', sorted)
  }

  /** States of a list during a run of replace_all at one value of cur_time. */
  ghost predicate Run(curTime: u64, base: Key, states: seq<seq<Client>>, offers: seq<Offer>) {
    |states| == |offers| + 1 && forall i :: 0 <= i < |offers| ==> Step(curTime, base, states[i], offers[i], states[i + 1])
  }

  /** Keys of the offers that can be stored at all. */
  function Offered(offers: seq<Offer>): set<Key> {
    set i | 0 <= i < |offers| && Storable(offers[i].ipPort) :: offers[i].pk
  }

  /** Fresh keys: none was offered or held before. */
  predicate FreshOffers(curTime: u64, keys: set<Key>, offers: seq<Offer>) {
    && (forall i :: 0 <= i < |offers| ==> FreshTime(curTime, offers[i].now) && offers[i].pk !in keys)
    && (forall i, j :: 0 <= i < j < |offers| ==> offers[i].pk != offers[j].pk)
  }

  lemma OfferedNext(offers: seq<Offer>, n: nat)
    requires n < |offers|
    ensures Offered(offers[..n + 1]) == Offered(offers[..n]) + if Storable(offers[n].ipPort) then {offers[n].pk} else {}
  {
    forall x
      ensures x in Offered(offers[..n + 1]) <==> x in Offered(offers[..n]) || (Storable(offers[n].ipPort) && x == offers[n].pk)
    {
      if x in Offered(offers[..n]) {
        var i :| 0 <= i < n && Storable(offers[..n][i].ipPort) && offers[..n][i].pk == x;
        assert offers[..n + 1][i] == offers[..n][i];
      }
      if Storable(offers[n].ipPort) && x == offers[n].pk {
        assert offers[..n + 1][n] == offers[n];
      }
    }
  }

  /** Over any run of replace_all with fresh keys, the list holds at every moment exactly the closest of
      the keys it started with and those offered so far, up to its length. */
  lemma {:induction false} RunKeepsClosest(curTime: u64, base: Key, states: seq<seq<Client>>, offers: seq<Offer>, keys: set<Key>, n: nat)
    requires Run(curTime, base, states, offers) && FreshOffers(curTime, keys, offers)
    requires Holds(curTime, base, states[0], keys) && n <= |offers|
    ensures Holds(curTime, base, states[n], keys + Offered(offers[..n])) && |states[n]| == |states[0]|
  {
    hide Holds, Replaced, FreshTime;
    if n == 0 {
      assert keys + Offered(offers[..0]) == keys;
    } else {
      RunKeepsClosest(curTime, base, states, offers, keys, n - 1);
      var l, o, sofar := states[n - 1], offers[n - 1], keys + Offered(offers[..n - 1]);
      assert Step(curTime, base, states[n - 1], offers[n - 1], states[n - 1 + 1]);
      var sorted :| Replaced(curTime, o.now, base, l, o.pk, o.ipPort, states[n], sorted);
      OfferedNext(offers, n - 1);
      if Storable(o.ipPort) {
        assert o.pk !in Offered(offers[..n - 1]);
        ReplaceKeepsClosest(curTime, o.now, base, l, o.pk, o.ipPort, states[n], sorted, sofar);
        assert sofar + {o.pk} == keys + Offered(offers[..n]);
      } else {
        NotStored(curTime, o.now, base, l, o.pk, o.ipPort, states[n], sorted);
        assert sofar == keys + Offered(offers[..n]);
      }
    }
  }

  /** At every moment of a run, every entry is one the list started with or records an offer made so far, with
      the address and the time it was offered with. */
  lemma {:induction false} RunKeepsAddresses(curTime: u64, base: Key, states: seq<seq<Client>>, offers: seq<Offer>, n: nat, c: Client)
    requires Run(curTime, base, states, offers) && n <= |offers| && c in states[n]
    ensures c in states[0] || exists i :: 0 <= i < n && Storable(offers[i].ipPort) && Records(c, offers[i].pk, offers[i].ipPort, offers[i].now)
  {
    hide Records;
    if n > 0 {
      var l, o := states[n - 1], offers[n - 1];
      assert Step(curTime, base, states[n - 1], offers[n - 1], states[n - 1 + 1]);
      var sorted :| Replaced(curTime, o.now, base, l, o.pk, o.ipPort, states[n], sorted);
      if c in l {
        RunKeepsAddresses(curTime, base, states, offers, n - 1, c);
      } else {
        NewEntry(curTime, o.now, base, l, o.pk, o.ipPort, states[n], sorted, c);
      }
    }
  }

  lemma NewEntry(curTime: u64, now: u64, base: Key, l: seq<Client>, pk: Key, ipPort: IPPort, l': seq<Client>, sorted: seq<Client>, c: Client)
    requires |l| >= 2 && Fits(base, l) && |pk| == |base| && Replaced(curTime, now, base, l, pk, ipPort, l', sorted)
    requires c in l' && c !in l
    ensures Storable(ipPort) && Records(c, pk, ipPort, now)
  {
    hide StoreNodeOk, Sorted;
    assert forall x :: x in sorted ==> x in multiset(sorted);
    assert c !in multiset(l);
  }

  /** So from an all-timed-out start every live entry has the address its key was offered with. */
  lemma LiveEntriesWereOffered(curTime: u64, base: Key, states: seq<seq<Client>>, offers: seq<Offer>, n: nat, c: Client)
    requires Run(curTime, base, states, offers) && n <= |offers| && c in states[n] && Alive(curTime, c)
    requires forall i :: 0 <= i < |states[0]| ==> TimedOut(curTime, states[0][i])
    ensures exists i :: 0 <= i < n && Storable(offers[i].ipPort) && Records(c, offers[i].pk, offers[i].ipPort, offers[i].now)
  {
    hide Records, TimedOut, Run;
    RunKeepsAddresses(curTime, base, states, offers, n, c);
  }

  lemma NotStored(curTime: u64, now: u64, base: Key, l: seq<Client>, pk: Key, ipPort: IPPort, l': seq<Client>, sorted: seq<Client>)
    requires |l| >= 2 && Fits(base, l) && |pk| == |base| && !Storable(ipPort)
    requires Replaced(curTime, now, base, l, pk, ipPort, l', sorted)
    ensures l' == l
  {}

  /** The usual start: a list in which every entry is timed out. */
  lemma AllTimedOutHoldsNothing(curTime: u64, base: Key, l: seq<Client>)
    requires |l| >= 2 && Fits(base, l) && forall i :: 0 <= i < |l| ==> TimedOut(curTime, l[i])
    ensures Holds(curTime, base, l, {})
  {
    hide TimedOut, Distance;
    assert AliveKeys(curTime, l) == {};
    NoneAlive(curTime, l);
    assert forall i :: 0 <= i < |l| - 1 ==> l[1..][i] == l[i + 1];
  }

  lemma {:induction false} NoneAlive(curTime: u64, l: seq<Client>)
    requires forall i :: 0 <= i < |l| ==> !Alive(curTime, l[i])
    ensures CountAlive(curTime, l) == 0
  {
    hide Alive;
    if l != [] {
      assert forall i :: 0 <= i < |l| - 1 ==> l[1..][i] == l[i + 1];
      NoneAlive(curTime, l[1..]);
    }
  }
}
