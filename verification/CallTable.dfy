/**
  The container of calls of toxav/msi.c (and its twin in toxav/toxav.c): an array indexed by friend
  number whose occupied slots are also chained, in ascending order, by next and prev links.
 */
module CallTable {
  import opened Words
  import opened MsiCodec
  import opened MsiProtocol

  class MSICall {
    const friendNumber: nat
    var state: CallState
    var peerCaps: byte
    var selfCaps: byte
    var error: MSIError
    var next: MSICall?
    var prev: MSICall?

    /** calloc, then session and friend number. */
    constructor (friendNumber: nat)
      ensures this.friendNumber == friendNumber && next == null && prev == null
      ensures Call(state, peerCaps, selfCaps, error) == NEW_CALL
    {
      this.friendNumber := friendNumber;
      state, peerCaps, selfCaps, error := Inactive, 0, 0, NoError;
      next, prev := null, null;
    }
  }

  // ---------------------------------------------------------------- neighbours in a table

  type Table = seq<MSICall?>

  /** Least occupied index from `j` on, or the length of the table. */
  function NextFrom(t: Table, j: nat): (k: nat)
    requires j <= |t|
    ensures j <= k <= |t|
    ensures k < |t| ==> t[k] != null
    ensures forall i :: j <= i < k ==> t[i] == null
    decreases |t| - j
  {
    if j == |t| || t[j] != null then j else NextFrom(t, j + 1)
  }

  /** Greatest occupied index below `j`, or -1. */
  function PrevBelow(t: Table, j: nat): (k: int)
    requires j <= |t|
    ensures -1 <= k < j
    ensures k >= 0 ==> t[k] != null
    ensures forall i :: k < i < j ==> t[i] == null
  {
    if j == 0 then -1 else if t[j - 1] != null then j - 1 else PrevBelow(t, j - 1)
  }

  function At(t: Table, i: int): MSICall? {
    if 0 <= i < |t| then t[i] else null
  }

  ghost predicate LinkedAt(t: Table, i: nat)
    requires i < |t|
    reads t
  {
    t[i] != null ==>
      && t[i].friendNumber == i
      && t[i].next == At(t, NextFrom(t, i + 1))
      && t[i].prev == At(t, PrevBelow(t, i))
  }

  /** Every occupied slot knows its index and its neighbours. */
  ghost predicate Linked(t: Table)
    reads t
  {
    forall i :: 0 <= i < |t| ==> LinkedAt(t, i)
  }

  /** The occupied indices from `j` on, ascending. */
  function Occupied(t: Table, j: nat): (s: seq<nat>)
    requires j <= |t|
    decreases |t| - j
  {
    if j == |t| then [] else if t[j] != null then [j] + Occupied(t, j + 1) else Occupied(t, j + 1)
  }

  /** `s` lists the occupied indices from `j` on: all of them, nothing else, strictly ascending. */
  predicate Lists(t: Table, j: nat, s: seq<nat>) {
    && (forall i :: 0 <= i < |s| ==> j <= s[i] < |t| && t[s[i]] != null)
    && (forall i, k :: 0 <= i < k < |s| ==> s[i] < s[k])
    && (forall i :: j <= i < |t| && t[i] != null ==> i in s)
  }

  /** `Occupied` is such a list. */
  lemma {:induction false} OccupiedExact(t: Table, j: nat)
    requires j <= |t|
    ensures Lists(t, j, Occupied(t, j))
    decreases |t| - j
  {
    hide Lists;
    if j == |t| {
      ListsNothing(t);
    } else {
      OccupiedExact(t, j + 1);
      ListsMore(t, j, Occupied(t, j + 1));
    }
  }

  lemma ListsNothing(t: Table)
    ensures Lists(t, |t|, [])
  {}

  lemma ListsMore(t: Table, j: nat, rest: seq<nat>)
    requires j < |t| && Lists(t, j + 1, rest)
    ensures Lists(t, j, if t[j] != null then [j] + rest else rest)
  {
    if t[j] != null {
      var s := [j] + rest;
      assert forall i :: 1 <= i < |s| ==> s[i] == rest[i - 1];
      forall i | j <= i < |t| && t[i] != null
        ensures i in s
      {
        assert i == j || i in rest;
      }
    } else {
      assert forall i :: j <= i < |t| && t[i] != null ==> i != j;
    }
  }

  lemma {:induction false} OccupiedNext(t: Table, j: nat)
    requires j <= |t|
    ensures var k := NextFrom(t, j);
            Occupied(t, j) == if k == |t| then [] else [k] + Occupied(t, k + 1)
    decreases |t| - j
  {
    if j < |t| && t[j] == null {
      OccupiedNext(t, j + 1);
    }
  }

  lemma NextIs(t: Table, j: nat, k: nat)
    requires j <= k <= |t| && (k < |t| ==> t[k] != null) && forall i :: j <= i < k ==> t[i] == null
    ensures NextFrom(t, j) == k
  {
    var m := NextFrom(t, j);
  }

  lemma PrevIs(t: Table, j: nat, k: int)
    requires -1 <= k < j <= |t| && (k >= 0 ==> t[k] != null) && forall i :: k < i < j ==> t[i] == null
    ensures PrevBelow(t, j) == k
  {
    var m := PrevBelow(t, j);
  }

  /** Writing a free slot changes who comes next only for those before it. */
  lemma NextInsert(t: Table, f: nat, c: MSICall?, j: nat)
    requires f < |t| && t[f] == null && c != null && j <= |t|
    ensures NextFrom(t[f := c], j) == if j <= f < NextFrom(t, j) then f else NextFrom(t, j)
  {
    NextIs(t[f := c], j, if j <= f < NextFrom(t, j) then f else NextFrom(t, j));
  }

  lemma PrevInsert(t: Table, f: nat, c: MSICall?, j: nat)
    requires f < |t| && t[f] == null && c != null && j <= |t|
    ensures PrevBelow(t[f := c], j) == if PrevBelow(t, j) < f < j then f else PrevBelow(t, j)
  {
    PrevIs(t[f := c], j, if PrevBelow(t, j) < f < j then f else PrevBelow(t, j));
  }

  /** Clearing a slot: whoever had it as a neighbour gets the one behind it. */
  lemma NextRemove(t: Table, f: nat, j: nat)
    requires f < |t| && t[f] != null && j <= |t|
    ensures NextFrom(t[f := null], j) == if NextFrom(t, j) == f then NextFrom(t, f + 1) else NextFrom(t, j)
  {
    NextIs(t[f := null], j, if NextFrom(t, j) == f then NextFrom(t, f + 1) else NextFrom(t, j));
  }

  lemma PrevRemove(t: Table, f: nat, j: nat)
    requires f < |t| && t[f] != null && j <= |t|
    ensures PrevBelow(t[f := null], j) == if PrevBelow(t, j) == f then PrevBelow(t, f) else PrevBelow(t, j)
  {
    PrevIs(t[f := null], j, if PrevBelow(t, j) == f then PrevBelow(t, f) else PrevBelow(t, j));
  }

  /** Next and previous are inverse: `k` is next after `i` exactly when `i` is previous to `k`. */
  lemma NeighboursInverse(t: Table, i: nat, k: nat)
    requires i < k < |t| && t[i] != null && t[k] != null
    ensures NextFrom(t, i + 1) == k <==> PrevBelow(t, k) == i
  {
    if NextFrom(t, i + 1) == k { PrevIs(t, k, i); }
    if PrevBelow(t, k) == i { NextIs(t, i + 1, k); }
  }

  /** Around a free slot: the occupied slot before it, and no other, has its next neighbour behind it. */
  lemma AroundFree(t: Table, f: nat, i: nat)
    requires f < |t| && t[f] == null && i < |t| && t[i] != null
    ensures i + 1 <= f < NextFrom(t, i + 1) <==> i == PrevBelow(t, f)
    ensures PrevBelow(t, i) < f < i <==> i == NextFrom(t, f + 1)
  {
    if i + 1 <= f < NextFrom(t, i + 1) { PrevIs(t, f, i); }
    if PrevBelow(t, i) < f < i { NextIs(t, f + 1, i); }
    var next, prev := NextFrom(t, i + 1), PrevBelow(t, i);
  }

  predicate Numbered(t: Table) {
    forall i :: 0 <= i < |t| && t[i] != null ==> t[i].friendNumber == i
  }

  lemma LinkedNumbers(t: Table)
    requires Linked(t)
    ensures Numbered(t)
  {
    forall i | 0 <= i < |t| && t[i] != null
      ensures t[i].friendNumber == i
    {
      assert LinkedAt(t, i);
    }
  }

  lemma NeighbourNumber(t: Table, f: nat, i: nat)
    requires Numbered(t) && f < |t| && i < |t| && t[i] != null
    ensures t[i] == At(t, PrevBelow(t, f)) <==> i == PrevBelow(t, f)
    ensures t[i] == At(t, NextFrom(t, f + 1)) <==> i == NextFrom(t, f + 1)
  {}

  /** The neighbours of every call once `c` sits in slot `f`. */
  lemma LinksAfterInsert(t: Table, f: nat, c: MSICall?, i: nat)
    requires f < |t| && t[f] == null && c != null && i < |t|
    requires i == f || t[i] != null
    ensures At(t[f := c], NextFrom(t[f := c], i + 1)) ==
            if i != f && i == PrevBelow(t, f) then c else At(t, NextFrom(t, i + 1))
    ensures At(t[f := c], PrevBelow(t[f := c], i)) ==
            if i != f && i == NextFrom(t, f + 1) then c else At(t, PrevBelow(t, i))
  {
    NextInsert(t, f, c, i + 1);
    PrevInsert(t, f, c, i);
    if i != f {
      AroundFree(t, f, i);
    }
  }

  /** Rewiring the two neighbours is enough. */
  lemma {:induction false} LinkedAfterInsert(t: Table, f: nat, c: MSICall, i: nat)
    requires f < |t| && t[f] == null && i < |t| && c.friendNumber == f && Numbered(t)
    requires i == f ==> c.next == At(t, NextFrom(t, f + 1)) && c.prev == At(t, PrevBelow(t, f))
    requires i != f && t[i] != null ==>
               && t[i].next == (if i == PrevBelow(t, f) then c else At(t, NextFrom(t, i + 1)))
               && t[i].prev == (if i == NextFrom(t, f + 1) then c else At(t, PrevBelow(t, i)))
    ensures LinkedAt(t[f := c], i)
  {
    if i == f || t[i] != null {
      LinksAfterInsert(t, f, c, i);
    }
  }

  /** Bypassing a cleared slot is enough. */
  lemma {:induction false} LinkedAfterRemove(t: Table, f: nat, i: nat)
    requires f < |t| && t[f] != null && i < |t| && Numbered(t)
    requires i != f && t[i] != null ==>
               && t[i].next == (if i == PrevBelow(t, f) then At(t, NextFrom(t, f + 1)) else At(t, NextFrom(t, i + 1)))
               && t[i].prev == (if i == NextFrom(t, f + 1) then At(t, PrevBelow(t, f)) else At(t, PrevBelow(t, i)))
    ensures LinkedAt(t[f := null], i)
  {
    if i != f && t[i] != null {
      LinksAfterRemove(t, f, i);
    }
  }

  /** The neighbours of every other call once slot `f` is cleared. */
  lemma LinksAfterRemove(t: Table, f: nat, i: nat)
    requires f < |t| && t[f] != null && i < |t| && i != f && t[i] != null
    ensures At(t[f := null], NextFrom(t[f := null], i + 1)) ==
            if i == PrevBelow(t, f) then At(t, NextFrom(t, f + 1)) else At(t, NextFrom(t, i + 1))
    ensures At(t[f := null], PrevBelow(t[f := null], i)) ==
            if i == NextFrom(t, f + 1) then At(t, PrevBelow(t, f)) else At(t, PrevBelow(t, i))
  {
    NextRemove(t, f, i + 1);
    PrevRemove(t, f, i);
    if i < f { NeighboursInverse(t, i, f); } else { NeighboursInverse(t, f, i); }
  }

  // ---------------------------------------------------------------- the container

  /** A message handed to the transport, and for whom. */
  datatype Sent = Sent(to: nat, message: MSIMessage)

  function RecordOf(c: MSICall): Call
    reads c
  {
    Call(c.state, c.peerCaps, c.selfCaps, c.error)
  }

  ghost predicate Stored(t: Table, repr: set<object>) {
    forall i :: 0 <= i < |t| && t[i] != null ==> t[i] in repr
  }

  class MSISession {
    var calls: array?<MSICall?>
    var callsHead: nat
    var callsTail: nat
    /** Log of send_message. */
    var sent: seq<Sent>

    ghost var repr: set<object>

    ghost function T(): Table
      reads `calls, calls
    {
      if calls == null then [] else calls[..]
    }

    /** Array, head, tail and links agree. */
    ghost predicate Valid()
      reads `calls, `callsHead, `callsTail, `repr, repr
    {
      && this !in repr
      && (calls != null ==> calls in repr)
      && Stored(T(), repr) && Linked(T())
      && (calls == null ==> callsHead == 0 && callsTail == 0)
      && (calls != null ==> callsHead == NextFrom(T(), 0) < |T()| && callsTail == PrevBelow(T(), |T()|))
    }

    /** Which friends have a call, and its record. */
    ghost function Calls(): map<nat, Call>
      requires Valid()
      reads `calls, `callsHead, `callsTail, `repr, repr
    {
      map i: nat | i < |T()| && T()[i] != null :: RecordOf(T()[i])
    }

    constructor ()
      ensures Valid() && repr == {} && Calls() == map[] && sent == [] && calls == null
    {
      calls, callsHead, callsTail, sent, repr := null, 0, 0, [], {};
    }

    /** get_call */
    method GetCall(friendNumber: nat) returns (c: MSICall?)
      requires Valid()
      ensures c == At(T(), friendNumber)
      ensures c != null <==> friendNumber in Calls()
      ensures c != null ==> RecordOf(c) == Calls()[friendNumber] && c.friendNumber == friendNumber && c in repr
    {
      if calls == null || callsTail < friendNumber {
        return null;
      }
      assert LinkedAt(T(), friendNumber);
      return calls[friendNumber];
    }

    /** Write a call into its free slot and chain it between its neighbours. */
    method Splice(c: MSICall, f: nat, before: MSICall?, after: MSICall?)
      requires calls != null && f < calls.Length && calls[f] == null
      requires this !in repr && calls in repr && Stored(T(), repr) && Linked(T())
      requires c !in repr && c.friendNumber == f && c != before && c != after
      requires before == At(T(), PrevBelow(T(), f)) && after == At(T(), NextFrom(T(), f + 1))
      modifies calls, c, before, after
      ensures T() == old(T())[f := c] && Linked(T())
      ensures forall i :: 0 <= i < |T()| && T()[i] != null ==> RecordOf(T()[i]) == old(RecordOf(if i == f then c else T()[i]))
    {
      hide NextFrom, PrevBelow, At;
      ghost var t := T();
      LinkedNumbers(t);
      c.prev := before;
      if before != null {
        before.next := c;
      }
      c.next := after;
      if after != null {
        after.prev := c;
      }
      calls[f] := c;
      ghost var t' := T();
      assert t' == t[f := c];
      forall i | 0 <= i < |t'|
        ensures LinkedAt(t', i)
      {
        if i != f && t[i] != null {
          assert old(LinkedAt(t, i));
          NeighbourNumber(t, f, i);
        }
        LinkedAfterInsert(t, f, c, i);
      }
    }

    /** Make room for a friend number past the tail. */
    method Grow(f: nat)
      requires Valid() && calls != null && f > callsTail
      modifies `calls, `repr
      ensures calls != null && fresh(calls) && calls.Length == f + 1 && repr == old(repr) + {calls}
      ensures this !in repr && Stored(T(), repr)
      ensures forall i :: 0 <= i <= f ==> calls[i] == At(old(T()), i)
      ensures Linked(T()) && callsHead == NextFrom(T(), 0) < |T()| && callsTail == PrevBelow(T(), |T()|)
    {
      hide LinkedAt, NextFrom, PrevBelow;
      ghost var t := T();
      TailIsLast(t, callsTail);
      var tmp := Realloc(calls, callsTail, f);
      Resized(t, tmp[..], callsTail);
      calls := tmp;
      repr := repr + {tmp};
    }

    /** The scan for the last call before a free slot between head and tail. */
    method FindPrevEntry(f: nat) returns (c: MSICall?)
      requires Valid() && calls != null && callsHead < f < callsTail && calls[f] == null
      ensures c == At(T(), PrevBelow(T(), f)) && c != null
    {
      hide Linked, Stored;
      c := null;
      ghost var t, p := T(), -1;
      for i := callsHead to callsTail + 1
        invariant -1 <= p < f && p < i && c == At(t, p)
        invariant p >= 0 ==> t[p] != null
        invariant i > callsHead ==> p >= callsHead
        invariant forall k :: p < k < i && k < f ==> t[k] == null
      {
        if calls[i] != null {
          if i < f { c, p := calls[i], i; } else { break; }
        }
      }
      PrevIs(t, f, p);
    }

    /** The scan for the first call behind a free slot between head and tail. */
    method FindNextEntry(f: nat) returns (c: MSICall?)
      requires Valid() && calls != null && callsHead < f < callsTail && calls[f] == null
      ensures c == At(T(), NextFrom(T(), f + 1)) && c != null
    {
      hide Linked, Stored;
      ghost var t := T();
      for i := callsHead to callsTail + 1
        invariant forall k :: f < k < i ==> t[k] == null
      {
        if calls[i] != null {
          if i > f {
            NextIs(t, f + 1, i);
            return calls[i];
          }
        }
      }
      assert false;
    }

    /** Creating: the first call. */
    method PutFirst(rc: MSICall, f: nat)
      requires Valid() && At(T(), f) == null && rc !in repr && rc.friendNumber == f
      requires calls == null
      modifies this, repr, rc
      ensures Valid() && fresh(repr - old(repr) - {rc}) && rc in repr && sent == old(sent)
      ensures At(T(), f) == rc && RecordOf(rc) == old(RecordOf(rc))
      ensures forall i :: i != f ==> At(T(), i) == old(At(T(), i))
      ensures forall i :: i != f && At(T(), i) != null ==> RecordOf(At(T(), i)) == old(RecordOf(At(T(), i)))
    {
      hide Linked, NextFrom, PrevBelow, Stored;
      calls := new MSICall?[f + 1](_ => null);
      repr := repr + {calls};
      ghost var t := T();
      FreeTable(t, repr, f);
      callsTail, callsHead := f, f;
      EndsAfterInsert(t, f, rc);
      Splice(rc, f, null, null);
      StoredAfterInsert(t, repr, f, rc);
      repr := repr + {rc};
    }

    /** Appending: behind the tail, in a larger array. */
    method PutLast(rc: MSICall, f: nat)
      requires Valid() && At(T(), f) == null && rc !in repr && rc.friendNumber == f
      requires calls != null && f > callsTail
      modifies this, repr, rc
      ensures Valid() && fresh(repr - old(repr) - {rc}) && rc in repr && sent == old(sent)
      ensures At(T(), f) == rc && RecordOf(rc) == old(RecordOf(rc))
      ensures forall i :: i != f ==> At(T(), i) == old(At(T(), i))
      ensures forall i :: i != f && At(T(), i) != null ==> RecordOf(At(T(), i)) == old(RecordOf(At(T(), i)))
    {
      hide Linked, NextFrom, PrevBelow;
      Grow(f);
      ghost var t := T();
      StoredElsewhere(t, repr, rc);
      AppendNeighbours(t, f, callsTail);
      EndsAfterInsert(t, f, rc);
      Splice(rc, f, calls[callsTail], null);
      StoredAfterInsert(t, repr, f, rc);
      repr := repr + {rc};
      callsTail := f;
    }

    /** Inserting before the head or between two calls. */
    method PutInside(rc: MSICall, f: nat, before: MSICall?, after: MSICall?)
      requires Valid() && At(T(), f) == null && rc !in repr && rc.friendNumber == f
      requires calls != null && f < callsTail
      requires before == At(T(), PrevBelow(T(), f)) && after == At(T(), NextFrom(T(), f + 1))
      modifies this, repr, rc
      ensures Valid() && fresh(repr - old(repr) - {rc}) && rc in repr && sent == old(sent)
      ensures At(T(), f) == rc && RecordOf(rc) == old(RecordOf(rc))
      ensures forall i :: i != f ==> At(T(), i) == old(At(T(), i))
      ensures forall i :: i != f && At(T(), i) != null ==> RecordOf(At(T(), i)) == old(RecordOf(At(T(), i)))
    {
      hide Linked, NextFrom, PrevBelow;
      ghost var t := T();
      StoredElsewhere(t, repr, rc);
      EndsAfterInsert(t, f, rc);
      Splice(rc, f, before, after);
      if callsHead > f {
        callsHead := f;
      }
      StoredAfterInsert(t, repr, f, rc);
      repr := repr + {rc};
    }

    /** new_call: the four places a call can be put. */
    method NewCall(f: nat) returns (rc: MSICall)
      requires Valid() && At(T(), f) == null
      modifies this, repr
      ensures Valid() && fresh(repr - old(repr)) && fresh(rc) && rc in repr && sent == old(sent)
      ensures At(T(), f) == rc && RecordOf(rc) == NEW_CALL && rc.friendNumber == f
      ensures forall i :: i != f ==> At(T(), i) == old(At(T(), i))
      ensures forall i :: i != f && At(T(), i) != null ==> RecordOf(At(T(), i)) == old(RecordOf(At(T(), i)))
    {
      hide Linked, NextFrom, PrevBelow;
      rc := new MSICall(f);
      if calls == null {
        PutFirst(rc, f);
      } else if f > callsTail {
        PutLast(rc, f);
      } else if callsHead > f {
        FrontNeighbours(T(), f, callsHead);
        FrontOf(T(), f, callsHead);
        PutInside(rc, f, null, calls[callsHead]);
      } else {
        EndsOccupied(T(), f, callsHead, callsTail);
        var before := FindPrevEntry(f);
        var after := FindNextEntry(f);
        PutInside(rc, f, before, after);
      }
    }

    /** Clear the slot of a call and bypass it in the chain. */
    method Unlink(call: MSICall)
      requires calls != null && call.friendNumber < calls.Length && calls[call.friendNumber] == call
      requires this !in repr && calls in repr && Stored(T(), repr) && Linked(T())
      modifies calls, call.prev, call.next
      ensures T() == old(T())[call.friendNumber := null] && Linked(T())
      ensures call.prev == old(At(T(), PrevBelow(T(), call.friendNumber)))
      ensures call.next == old(At(T(), NextFrom(T(), call.friendNumber + 1)))
      ensures forall i :: 0 <= i < |T()| && T()[i] != null ==> RecordOf(T()[i]) == old(RecordOf(T()[i]))
    {
      hide NextFrom, PrevBelow;
      ghost var t, f := T(), call.friendNumber;
      LinkedNumbers(t);
      assert LinkedAt(t, f);
      NotOwnNeighbour(t, f);
      calls[call.friendNumber] := null;
      var prev, next := call.prev, call.next;
      if prev != null {
        prev.next := next;
      }
      if next != null {
        next.prev := prev;
      }
      ghost var t' := T();
      assert t' == t[f := null];
      forall i | 0 <= i < |t'|
        ensures LinkedAt(t', i)
      {
        if i != f && t[i] != null {
          assert old(LinkedAt(t, i));
          NeighbourNumber(t, f, i);
        }
        LinkedAfterRemove(t, f, i);
      }
    }

    /** kill_call: always takes the call out; the last one takes the container with it. */
    method KillCall(call: MSICall)
      requires Valid() && At(T(), call.friendNumber) == call
      modifies this, repr
      ensures Valid() && repr <= old(repr) && sent == old(sent)
      ensures At(T(), call.friendNumber) == null
      ensures forall i :: i != call.friendNumber ==> At(T(), i) == old(At(T(), i))
      ensures forall i :: At(T(), i) != null ==> RecordOf(At(T(), i)) == old(RecordOf(At(T(), i)))
    {
      hide Linked, NextFrom, PrevBelow;
      ghost var t, f := T(), call.friendNumber;
      EndsAfterRemove(t, f);
      NeighboursKnown(t, f, repr);
      Unlink(call);
      var prev, next := call.prev, call.next;
      if prev == null && next == null {
        callsHead, callsTail, calls := 0, 0, null;
        NothingElse(t, f);
        NoLinks([]);
        return;
      }
      if prev == null {
        callsHead := next.friendNumber;
      }
      if next == null {
        callsTail := prev.friendNumber;
      }
    }

    /** new_call, as a change of the set of calls. */
    method AddCall(f: nat) returns (rc: MSICall)
      requires Valid() && f !in Calls()
      modifies this, repr
      ensures Valid() && fresh(repr - old(repr)) && rc in repr && rc.friendNumber == f && sent == old(sent)
      ensures At(T(), f) == rc && Calls() == old(Calls())[f := NEW_CALL]
    {
      hide Linked, Stored, NextFrom, PrevBelow;
      rc := NewCall(f);
      assert forall i: nat :: i in Calls() <==> i in old(Calls()) || i == f by {
        assert forall i: nat :: i in Calls() <==> At(T(), i) != null;
        assert forall i: nat :: i in old(Calls()) <==> old(At(T(), i)) != null;
      }
      forall i: nat | i in old(Calls())
        ensures Calls()[i] == old(Calls())[i]
      {
        assert At(T(), i) == old(At(T(), i));
      }
    }

    /** kill_call, as a change of the set of calls. */
    method DropCall(call: MSICall)
      requires Valid() && At(T(), call.friendNumber) == call
      modifies this, repr
      ensures Valid() && repr <= old(repr) && sent == old(sent)
      ensures Calls() == old(Calls()) - {call.friendNumber}
      ensures forall i :: i != call.friendNumber ==> At(T(), i) == old(At(T(), i))
    {
      hide Linked, Stored, NextFrom, PrevBelow;
      ghost var f := call.friendNumber;
      KillCall(call);
      assert forall i: nat :: i in Calls() <==> i in old(Calls()) && i != f by {
        assert forall i: nat :: i in Calls() <==> At(T(), i) != null;
        assert forall i: nat :: i in old(Calls()) <==> old(At(T(), i)) != null;
      }
      forall i: nat | i in Calls()
        ensures Calls()[i] == old(Calls())[i]
      {
        assert At(T(), i) == old(At(T(), i));
      }
    }

    /** Change the record of a stored call in place. */
    method SetRecord(call: MSICall, r: Call)
      requires Valid() && At(T(), call.friendNumber) == call
      modifies call
      ensures Valid() && T() == old(T()) && Calls() == old(Calls())[call.friendNumber := r] && RecordOf(call) == r
      ensures repr == old(repr) && sent == old(sent)
    {
      hide NextFrom, PrevBelow;
      ghost var t := T();
      LinkedNumbers(t);
      call.state, call.peerCaps, call.selfCaps, call.error := r.state, r.peerCaps, r.selfCaps, r.error;
      forall i | 0 <= i < |t|
        ensures LinkedAt(t, i)
      {
        assert old(LinkedAt(t, i));
      }
      assert Calls().Keys == old(Calls()).Keys;
      forall i: nat | i in Calls() && i != call.friendNumber
        ensures Calls()[i] == old(Calls())[i]
      {
        assert t[i] != call;
      }
    }

    method Send(to: nat, m: MSIMessage)
      requires Valid()
      modifies `sent
      ensures sent == old(sent) + [Sent(to, m)]
      ensures Valid() && T() == old(T()) && Calls() == old(Calls())
    {
      sent := sent + [Sent(to, m)];
    }

    /** Walking the next links from the head visits exactly the occupied slots in ascending order. */
    method Walk() returns (visited: seq<nat>)
      requires Valid()
      ensures visited == Occupied(T(), 0)
    {
      hide NextFrom, PrevBelow, Occupied, Stored;
      visited := [];
      if calls == null {
        EmptyTable();
        return;
      }
      ghost var t, at := T(), callsHead;
      HeadStored(t);
      var it: MSICall? := calls[callsHead];
      while it != null
        invariant it == At(t, at) && at <= |t| && NextFrom(t, at) == at
        invariant visited + Occupied(t, at) == Occupied(t, 0)
        decreases |t| - at
      {
        assert LinkedAt(t, at);
        StepNext(t, at);
        visited := visited + [it.friendNumber];
        it := it.next;
        at := NextFrom(t, at + 1);
      }
      OccupiedEnd(t, at);
    }
  }

  lemma EmptyTable()
    ensures Occupied([], 0) == []
  {}

  lemma HeadStored(t: Table)
    requires NextFrom(t, 0) < |t|
    ensures var h := NextFrom(t, 0); t[h] != null && NextFrom(t, h) == h && Occupied(t, 0) == Occupied(t, h)
  {
    OccupiedNext(t, 0);
    OccupiedNext(t, NextFrom(t, 0));
  }

  lemma StepNext(t: Table, at: nat)
    requires at < |t| && t[at] != null
    ensures var k := NextFrom(t, at + 1);
            && at < k <= |t| && NextFrom(t, k) == k && Occupied(t, at) == [at] + Occupied(t, k)
  {
    var k := NextFrom(t, at + 1);
    OccupiedNext(t, at + 1);
    OccupiedNext(t, k);
  }

  lemma OccupiedEnd(t: Table, at: nat)
    requires at <= |t| && NextFrom(t, at) == at && At(t, at) == null
    ensures at == |t| && Occupied(t, at) == []
  {}

  lemma NoLinks(t: Table)
    requires t == []
    ensures Linked(t)
  {}

  lemma NotOwnNeighbour(t: Table, f: nat)
    requires Numbered(t) && f < |t| && t[f] != null
    ensures At(t, PrevBelow(t, f)) != t[f] && At(t, NextFrom(t, f + 1)) != t[f]
    ensures At(t, PrevBelow(t, f)) == null || At(t, PrevBelow(t, f)) != At(t, NextFrom(t, f + 1))
  {}

  /** Without neighbours a call is the only one. */
  lemma NothingElse(t: Table, f: nat)
    requires f < |t| && At(t, PrevBelow(t, f)) == null && At(t, NextFrom(t, f + 1)) == null
    ensures forall i :: i != f ==> At(t, i) == null
  {}

  /** The first and last occupied index once slot `f` is cleared. */
  lemma EndsAfterRemove(t: Table, f: nat)
    requires f < |t| && t[f] != null
    ensures NextFrom(t[f := null], 0) == if PrevBelow(t, f) == -1 then NextFrom(t, f + 1) else NextFrom(t, 0)
    ensures PrevBelow(t[f := null], |t|) == if NextFrom(t, f + 1) == |t| then PrevBelow(t, f) else PrevBelow(t, |t|)
    ensures PrevBelow(t, f) != -1 || NextFrom(t, f + 1) != |t| ==> NextFrom(t[f := null], 0) < |t|
  {
    NextRemove(t, f, 0);
    PrevRemove(t, f, |t|);
    if PrevBelow(t, f) == -1 { NextIs(t, 0, f); }
    if NextFrom(t, f + 1) == |t| { PrevIs(t, |t|, f); }
    var first, last := NextFrom(t, 0), PrevBelow(t, |t|);
  }

  lemma NeighboursKnown(t: Table, f: nat, repr: set<object>)
    requires Linked(t) && Stored(t, repr) && f < |t| && t[f] != null
    ensures var p, n := PrevBelow(t, f), NextFrom(t, f + 1);
            && t[f].prev == At(t, p) && t[f].next == At(t, n)
            && (At(t, p) == null <==> p == -1) && (At(t, p) != null ==> At(t, p).friendNumber == p && At(t, p) in repr)
            && (At(t, n) == null <==> n == |t|) && (At(t, n) != null ==> At(t, n).friendNumber == n && At(t, n) in repr)
  {
    LinkedNumbers(t);
    assert LinkedAt(t, f);
  }

  lemma FrontOf(t: Table, f: nat, head: nat)
    requires f < head < |t| && PrevBelow(t, f) == -1 && NextFrom(t, f + 1) == head
    ensures At(t, PrevBelow(t, f)) == null && At(t, NextFrom(t, f + 1)) == t[head]
  {}

  /** A free slot from head to tail lies strictly between them. */
  lemma EndsOccupied(t: Table, f: nat, head: nat, tail: nat)
    requires head == NextFrom(t, 0) < |t| && tail == PrevBelow(t, |t|) && head <= f <= tail && At(t, f) == null
    ensures head < f < tail && t[f] == null
  {}

  lemma StoredElsewhere(t: Table, repr: set<object>, c: MSICall)
    requires Stored(t, repr) && c !in repr
    ensures forall i :: At(t, i) != c
  {}

  lemma StoredAfterInsert(t: Table, repr: set<object>, f: nat, c: MSICall)
    requires Stored(t, repr) && f < |t|
    ensures Stored(t[f := c], repr + {c})
  {}

  /** A cleared table. */
  lemma FreeTable(t: Table, repr: set<object>, f: nat)
    requires |t| == f + 1 && forall i :: 0 <= i < |t| ==> t[i] == null
    ensures Linked(t) && Stored(t, repr)
    ensures NextFrom(t, 0) == |t| && PrevBelow(t, |t|) == -1 && NextFrom(t, f + 1) == |t| && PrevBelow(t, f) == -1
  {
    NextIs(t, 0, |t|);
    PrevIs(t, |t|, -1);
    PrevIs(t, f, -1);
  }

  /** The first and last occupied index once `c` sits in slot `f`. */
  lemma EndsAfterInsert(t: Table, f: nat, c: MSICall)
    requires f < |t| && t[f] == null
    ensures NextFrom(t[f := c], 0) == if f < NextFrom(t, 0) then f else NextFrom(t, 0)
    ensures PrevBelow(t[f := c], |t|) == if PrevBelow(t, |t|) < f then f else PrevBelow(t, |t|)
  {
    NextInsert(t, f, c, 0);
    PrevInsert(t, f, c, |t|);
  }

  lemma AppendNeighbours(t: Table, f: nat, tail: nat)
    requires |t| == f + 1 && tail < f && tail == PrevBelow(t, |t|)
    ensures t[f] == null && PrevBelow(t, f) == tail && t[tail] != null && NextFrom(t, f + 1) == |t|
    ensures NextFrom(t, 0) <= tail
  {
    PrevIs(t, f, tail);
  }

  lemma FrontNeighbours(t: Table, f: nat, head: nat)
    requires f < head < |t| && head == NextFrom(t, 0)
    ensures t[f] == null && PrevBelow(t, f) == -1 && NextFrom(t, f + 1) == head && t[head] != null
    ensures PrevBelow(t, |t|) >= head
  {
    PrevIs(t, f, -1);
    NextIs(t, f + 1, head);
  }

  lemma TailIsLast(t: Table, tail: int)
    requires tail == PrevBelow(t, |t|) >= 0
    ensures tail < |t| && t[tail] != null && forall j :: tail < j < |t| ==> t[j] == null
  {}

  /** realloc to `f + 1` slots; those behind the tail are cleared. */
  method Realloc(was: array<MSICall?>, tail: nat, f: nat) returns (tmp: array<MSICall?>)
    requires tail < was.Length && tail < f && forall j :: tail < j < was.Length ==> was[j] == null
    ensures fresh(tmp) && tmp.Length == f + 1
    ensures forall j :: 0 <= j <= f ==> tmp[j] == At(was[..], j)
  {
    tmp := new MSICall?[f + 1];
    var i := 0;
    while i < tmp.Length && i < was.Length
      invariant 0 <= i <= tmp.Length && i <= was.Length
      invariant forall j :: 0 <= j < i ==> tmp[j] == was[j]
    {
      tmp[i] := was[i];
      i := i + 1;
    }
    for k := tail + 1 to f
      invariant forall j :: 0 <= j <= tail ==> tmp[j] == was[j]
      invariant forall j :: tail < j < k ==> tmp[j] == null
    {
      tmp[k] := null;
    }
    tmp[f] := null;
  }

  /** Tables that differ only by free slots behind the last occupied one have the same links. */
  lemma Resized(t: Table, u: Table, tail: nat)
    requires Linked(t) && tail == PrevBelow(t, |t|) && tail < |u|
    requires forall j :: 0 <= j < |u| ==> u[j] == At(t, j)
    ensures Linked(u) && PrevBelow(u, |u|) == tail && NextFrom(u, 0) == NextFrom(t, 0) < |u|
  {
    hide LinkedAt, NextFrom, PrevBelow;
    PrevIs(u, |u|, tail);
    assert NextFrom(t, 0) <= tail;
    NextIs(u, 0, NextFrom(t, 0));
    forall i | 0 <= i < |u|
      ensures LinkedAt(u, i)
    {
      ResizedAt(t, u, tail, i);
    }
  }

  lemma ResizedAt(t: Table, u: Table, tail: nat, i: nat)
    requires Linked(t) && tail == PrevBelow(t, |t|) && tail < |u| && i < |u|
    requires forall j :: 0 <= j < |u| ==> u[j] == At(t, j)
    ensures LinkedAt(u, i)
  {
    hide NextFrom, PrevBelow;
    if u[i] != null {
      assert LinkedAt(t, i);
      PrevIs(u, i, PrevBelow(t, i));
      var k := NextFrom(t, i + 1);
      if k < |t| { NextIs(u, i + 1, k); } else { NextIs(u, i + 1, |u|); }
    }
  }

  // ---------------------------------------------------------------- taking the first call out

  function First(t: Table): MSICall? {
    At(t, NextFrom(t, 0))
  }

  lemma {:induction false} OccupiedNone(t: Table, j: nat)
    requires j <= |t| && forall i :: i >= j ==> At(t, i) == null
    ensures Occupied(t, j) == [] && NextFrom(t, j) == |t|
    decreases |t| - j
  {
    if j < |t| {
      assert At(t, j) == null;
      OccupiedNone(t, j + 1);
    }
  }

  lemma {:induction false} OccupiedSame(t: Table, u: Table, j: nat)
    requires j <= |t| && j <= |u| && forall i :: i >= j ==> At(t, i) == At(u, i)
    ensures Occupied(t, j) == Occupied(u, j)
    decreases |t| - j
  {
    if j == |t| {
      OccupiedNone(u, j);
    } else if j == |u| {
      OccupiedNone(t, j);
    } else {
      assert At(t, j) == At(u, j);
      OccupiedSame(t, u, j + 1);
    }
  }

  lemma FirstIs(u: Table, k: nat)
    requires At(u, k) != null && forall i :: 0 <= i < k ==> At(u, i) == null
    ensures NextFrom(u, 0) == k < |u| && First(u) == u[k]
  {
    assert forall i :: 0 <= i < k ==> u[i] == At(u, i);
    NextIs(u, 0, k);
  }

  lemma NextOfFirst(t: Table, u: Table)
    requires First(t) != null && At(u, NextFrom(t, 0)) == null
    requires forall i :: i != NextFrom(t, 0) ==> At(u, i) == At(t, i)
    ensures var k := NextFrom(t, NextFrom(t, 0) + 1);
            if k == |t| then (forall i :: i >= 0 ==> At(u, i) == null)
            else At(u, k) == t[k] && (forall i :: 0 <= i < k ==> At(u, i) == null)
  {}

  /** Once the first call is gone, the one its next link named is the first, and the rest is unchanged. */
  lemma {:induction false} FirstGone(t: Table, u: Table)
    requires First(t) != null && At(u, NextFrom(t, 0)) == null
    requires forall i :: i != NextFrom(t, 0) ==> At(u, i) == At(t, i)
    ensures var h := NextFrom(t, 0);
            h < |t| && Occupied(t, 0) == [h] + Occupied(u, 0) && First(u) == At(t, NextFrom(t, h + 1))
  {
    hide Occupied;
    var h := NextFrom(t, 0);
    var k := NextFrom(t, h + 1);
    NextOfFirst(t, u);
    OccupiedNext(t, 0);
    OccupiedNext(t, h + 1);
    if k == |t| {
      OccupiedNone(u, 0);
    } else {
      FirstIs(u, k);
      OccupiedNext(u, 0);
      OccupiedSame(t, u, k + 1);
    }
  }

  lemma FirstCall(s: MSISession)
    requires s.Valid() && First(s.T()) != null
    ensures var t, h := s.T(), NextFrom(s.T(), 0);
            && h < |t| && First(t) == At(t, h) && First(t).friendNumber == h && First(t) in s.repr
            && First(t).next == At(t, NextFrom(t, h + 1))
  {
    assert LinkedAt(s.T(), NextFrom(s.T(), 0));
  }

  lemma HeadCall(s: MSISession)
    requires s.Valid()
    ensures First(s.T()) == At(s.T(), s.callsHead)
  {}

  lemma NoneLeft(s: MSISession)
    requires s.Valid() && (s.calls != null ==> First(s.T()) == null)
    ensures s.calls == null && s.Calls() == map[] && Occupied(s.T(), 0) == []
  {}
}
