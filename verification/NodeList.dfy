/** Keeping the closest nodes in a fixed list: add_to_list of toxcore/DHT.c. */
module NodeList {
  import opened XorMetric
  import opened DhtTypes

  /** All keys have the length of `target`. */
  predicate KeysFit(target: Key, s: seq<Node>) {
    forall i :: 0 <= i < |s| ==> |s[i].publicKey| == |target|
  }

  function Dist(target: Key, n: Node): nat
    requires |n.publicKey| == |target|
  {
    Distance(target, n.publicKey)
  }

  /** First position whose node is strictly farther than `x`, or |s|. */
  function FirstFarther(target: Key, s: seq<Node>, x: Node): (i: nat)
    requires KeysFit(target, s) && |x.publicKey| == |target|
    ensures i <= |s|
    ensures forall j :: 0 <= j < i ==> Dist(target, s[j]) <= Dist(target, x)
    ensures i < |s| ==> Dist(target, s[i]) > Dist(target, x)
  {
    if s == [] then 0
    else if Dist(target, s[0]) > Dist(target, x) then 0
    else 1 + FirstFarther(target, s[1..], x)
  }

  /** One pass that keeps the closer of the carried node and each list node, carrying the other on. */
  datatype Passed = Passed(list: seq<Node>, dropped: Node)

  function Pass(target: Key, s: seq<Node>, x: Node): (r: Passed)
    requires KeysFit(target, s) && |x.publicKey| == |target|
    ensures |r.list| == |s| && KeysFit(target, r.list) && |r.dropped.publicKey| == |target|
  {
    if s == [] then Passed([], x)
    else if Dist(target, s[0]) > Dist(target, x) then
      var r := Pass(target, s[1..], s[0]);
      Passed([x] + r.list, r.dropped)
    else
      var r := Pass(target, s[1..], x);
      Passed([s[0]] + r.list, r.dropped)
  }

  /** Nodes no farther than the carried one stay where they are. */
  lemma {:induction false} PassSkips(target: Key, s: seq<Node>, x: Node, i: nat)
    requires KeysFit(target, s) && |x.publicKey| == |target| && i <= |s|
    requires forall j :: 0 <= j < i ==> Dist(target, s[j]) <= Dist(target, x)
    ensures Pass(target, s, x) ==
            Passed(s[..i] + Pass(target, s[i..], x).list, Pass(target, s[i..], x).dropped)
  {
    hide Dist;
    if i > 0 {
      PassSkips(target, s[1..], x, i - 1);
      assert s[1..][i - 1..] == s[i..];
      assert s[..i] == [s[0]] + s[1..][..i - 1];
    } else {
      assert s[0..] == s;
    }
  }

  lemma Refit(target: Key, s: seq<Node>, x: Node, i: nat)
    requires KeysFit(target, s) && |x.publicKey| == |target| && i < |s|
    ensures KeysFit(target, s[i := x]) && KeysFit(target, s[i..]) && KeysFit(target, s[i + 1..])
  {}

  /** The carried-on node is replaced only further right. */
  lemma NextIsFurtherRight(target: Key, s: seq<Node>, x: Node, i: nat)
    requires KeysFit(target, s) && |x.publicKey| == |target| && i < |s| && i == FirstFarther(target, s, x)
    ensures KeysFit(target, s[i := x]) && FirstFarther(target, s[i := x], s[i]) > i
  {
    hide Dist;
  }

  lemma ReplaceFirst(target: Key, s: seq<Node>, x: Node, i: nat)
    requires KeysFit(target, s) && |x.publicKey| == |target| && i < |s| && i == FirstFarther(target, s, x)
    ensures KeysFit(target, s[i := x])
    ensures Pass(target, s, x) == Pass(target, s[i := x], s[i])
    ensures i == |s| - 1 ==> Pass(target, s, x) == Passed(s[i := x], s[i])
  {
    hide Dist, KeysFit;
    var t := s[i := x];
    Refit(target, s, x, i);
    PassSkips(target, s, x, i);
    PassSkips(target, t, s[i], i + 1);
    assert s[i..][1..] == s[i + 1..] == t[i + 1..];
    assert t[..i + 1] == s[..i] + [x];
    var tail := Pass(target, s[i + 1..], s[i]);
    assert Pass(target, s[i..], x) == Passed([x] + tail.list, tail.dropped);
    assert s[..i] + ([x] + tail.list) == t[..i + 1] + tail.list;
    assert i == |s| - 1 ==> s[..i] + [x] + [] == t;
  }

  /** add_to_list: in place, one call per replaced position. */
  method AddToList(nodes: array<Node>, pk: Key, ipPort: IPPort, cmpPk: Key) returns (added: bool)
    requires KeysFit(cmpPk, nodes[..]) && |pk| == |cmpPk|
    modifies nodes
    ensures nodes[..] == Pass(cmpPk, old(nodes[..]), Node(pk, ipPort)).list
    ensures added <==> exists n :: n in old(nodes[..]) && Dist(cmpPk, n) > Distance(cmpPk, pk)
    decreases nodes.Length - FirstFarther(cmpPk, nodes[..], Node(pk, ipPort))
  {
    hide Distance;
    ghost var s, x := nodes[..], Node(pk, ipPort);
    for i := 0 to nodes.Length
      invariant nodes[..] == s
      invariant i <= FirstFarther(cmpPk, s, x)
    {
      assert nodes[i] == s[i];
      var closest := IdClosest(cmpPk, nodes[i].publicKey, pk);
      if closest == 2 {
        var backup := nodes[i];
        assert i == FirstFarther(cmpPk, s, x);
        ReplaceFirst(cmpPk, s, x, i);
        NextIsFurtherRight(cmpPk, s, x, i);
        nodes[i] := Node(pk, ipPort);
        assert nodes[..] == s[i := x];
        if i != nodes.Length - 1 {
          var _ := AddToList(nodes, backup.publicKey, backup.ipPort, cmpPk);
        }
        assert s[i] in s;
        return true;
      }
    }
    PassSkips(cmpPk, s, x, |s|);
    assert s[..|s|] == s;
    return false;
  }

  function One(a: Node, b: Node): nat { if a == b then 1 else 0 }

  /** How often `n` occurs in `s`. */
  function Times(s: seq<Node>, n: Node): nat { multiset(s)[n] }

  lemma CountFirst(y: Node, t: seq<Node>, n: Node)
    ensures Times([y] + t, n) == One(y, n) + Times(t, n)
  {
    assert multiset([y] + t) == multiset{y} + multiset(t);
  }

  /** The list keeps every node but one: the dropped one, counted with multiplicity. */
  lemma {:induction false} PassConserves(target: Key, s: seq<Node>, x: Node, n: Node)
    requires KeysFit(target, s) && |x.publicKey| == |target|
    ensures var r := Pass(target, s, x); Times(r.list, n) + One(r.dropped, n) == Times(s, n) + One(x, n)
  {
    hide Dist, One, Times;
    if s != [] {
      var farther := Dist(target, s[0]) > Dist(target, x);
      var y, z := if farther then x else s[0], if farther then s[0] else x;
      PassConserves(target, s[1..], z, n);
      CountFirst(y, Pass(target, s[1..], z).list, n);
      CountFirst(s[0], s[1..], n);
      assert s == [s[0]] + s[1..];
    }
  }

  /** No node, old or new, is farther than the dropped one. */
  lemma {:induction false} PassDropsFarthest(target: Key, s: seq<Node>, x: Node)
    requires KeysFit(target, s) && |x.publicKey| == |target|
    ensures var d := Pass(target, s, x).dropped;
            && Dist(target, x) <= Dist(target, d)
            && forall i :: 0 <= i < |s| ==> Dist(target, s[i]) <= Dist(target, d)
  {
    if s != [] {
      PassDropsFarthest(target, s[1..], if Dist(target, s[0]) > Dist(target, x) then s[0] else x);
      hide Dist;
      var d := Pass(target, s, x).dropped;
      forall i | 0 <= i < |s|
        ensures Dist(target, s[i]) <= Dist(target, d)
      {
        if i > 0 { assert s[i] == s[1..][i - 1]; }
      }
    }
  }

  /** What add_to_list does to any list, sorted or not. */
  lemma {:induction false} KeepsClosest(target: Key, s: seq<Node>, x: Node)
    requires KeysFit(target, s) && |x.publicKey| == |target|
    ensures var r := Pass(target, s, x);
            && multiset(r.list) == multiset(s) + multiset{x} - multiset{r.dropped}
            && r.dropped in s + [x]
            && forall n :: n in s + [x] ==> |n.publicKey| == |target| && Dist(target, n) <= Dist(target, r.dropped)
  {
    hide Dist, Pass;
    PassDropsFarthest(target, s, x);
    var d := Pass(target, s, x).dropped;
    forall n
      ensures multiset(Pass(target, s, x).list)[n] + One(d, n) == multiset(s)[n] + One(x, n)
    {
      PassConserves(target, s, x, n);
    }
    assert One(d, d) == 1;
    assert d == x || d in multiset(s);
    forall n | n in s + [x]
      ensures |n.publicKey| == |target| && Dist(target, n) <= Dist(target, d)
    {
      if n != x {
        var i :| 0 <= i < |s| && s[i] == n;
      }
    }
  }

  predicate Ascending(target: Key, s: seq<Node>)
    requires KeysFit(target, s)
  {
    forall i, j :: 0 <= i < j < |s| ==> Dist(target, s[i]) <= Dist(target, s[j])
  }

  /** A list in ascending order stays in ascending order. */
  lemma {:induction false} PassAscending(target: Key, s: seq<Node>, x: Node)
    requires KeysFit(target, s) && |x.publicKey| == |target| && Ascending(target, s)
    ensures Ascending(target, Pass(target, s, x).list)
    ensures var low := if s != [] && Dist(target, s[0]) > Dist(target, x) then x else if s != [] then s[0] else x;
            forall i :: 0 <= i < |s| ==> Dist(target, low) <= Dist(target, Pass(target, s, x).list[i])
  {
    hide Dist;
    if s != [] {
      var farther := Dist(target, s[0]) > Dist(target, x);
      var y, z := if farther then x else s[0], if farther then s[0] else x;
      PassAscending(target, s[1..], z);
      var r := Pass(target, s[1..], z);
      assert Pass(target, s, x).list == [y] + r.list;
      assert s[1..] != [] ==> Dist(target, s[0]) <= Dist(target, s[1]);
      AscendingCons(target, y, r.list);
    }
  }

  lemma AscendingCons(target: Key, y: Node, l: seq<Node>)
    requires |y.publicKey| == |target| && KeysFit(target, [y] + l) && KeysFit(target, l) && Ascending(target, l)
    requires forall i :: 0 <= i < |l| ==> Dist(target, y) <= Dist(target, l[i])
    ensures Ascending(target, [y] + l)
    ensures forall i :: 0 <= i < |l| + 1 ==> Dist(target, y) <= Dist(target, ([y] + l)[i])
  {}
}
