/**
  The program of super_donators/grencez_tok5.c: how the processes are forked and their pipes wired into a
  ring, and the loop body each of them runs. Values, pipes and the step of each process are updated in
  place and proved to follow `TokenRing`.
 */
module TokenProcesses {
  import opened Wrappers
  import opened TokenRing

  /** For each process the pipe it reads and the pipe it writes. */
  datatype Wiring = Wiring(inputs: seq<nat>, outputs: seq<nat>)

  /** Every pipe has one reader and one writer, and whoever reads what process `i` writes is its successor. */
  predicate IsRing(w: Wiring, n: nat) {
    && |w.inputs| == |w.outputs| == n
    && (forall i, j :: 0 <= i < j < n ==> w.inputs[i] != w.inputs[j])
    && forall i :: 0 <= i < n ==> w.inputs[Succ(i, n)] == w.outputs[i]
  }

  /** The fork loop. Each turn makes a pipe: the child reads it and writes the pipe the parent wrote so far,
      the parent writes the new one from then on. */
  method Spawn(argc: nat) returns (w: Option<Wiring>)
    ensures w.Some? <==> argc >= 2
    ensures w.Some? ==> IsRing(w.value, argc - 1)
  {
    var i: int := argc - 1;
    if i < 1 {
      return None;
    }
    var n: nat := i;
    var readEnd, writeEnd, made := 0, 0, 1;
    // the ends of the children forked so far, those of the youngest first
    var inputs, outputs: seq<nat> := [], [];
    i := i - 1;
    while i > 0
      invariant 0 <= i < n && made == n - i && readEnd == 0 && writeEnd == made - 1
      invariant |inputs| == |outputs| == n - 1 - i
      invariant forall k :: 0 <= k < |inputs| ==> inputs[k] == n - 1 - i - k && outputs[k] == n - 2 - i - k
    {
      var pipe := made;
      made := made + 1;
      inputs, outputs := [pipe] + inputs, [writeEnd] + outputs;
      writeEnd := pipe;
      i := i - 1;
    }
    return Some(Wiring([readEnd] + inputs, [writeEnd] + outputs));
  }

  class Processes {
    const n: nat
    const xid: array<Val>
    const pipes: array<seq<Val>>
    const started: array<bool>

    ghost predicate Valid()
      reads this
    {
      n >= 1 && xid.Length == n && pipes.Length == n && started.Length == n
    }

    ghost function View(): Ring
      reads this, xid, pipes, started
    {
      Ring(xid[..], pipes[..], started[..])
    }

    /** Processes with values drawn at random, before any has sent. */
    constructor (x: seq<Val>)
      requires |x| >= 1
      ensures Valid() && fresh(xid) && fresh(pipes) && fresh(started) && View() == Initial(x)
    {
      n := |x|;
      xid := new Val[|x|](i requires 0 <= i < |x| => x[i]);
      pipes := new seq<Val>[|x|](_ => []);
      started := new bool[|x|](_ => false);
    }

    method SendSc(i: nat)
      requires Valid() && i < n
      modifies pipes
      ensures pipes[..] == old(pipes[..])[Succ(i, n) := old(pipes[Succ(i, n)]) + [xid[i]]]
    {
      var j := if i == n - 1 then 0 else i + 1;
      pipes[j] := pipes[j] + [xid[i]];
    }

    method RecvPd(i: nat) returns (xpd: Val)
      requires Valid() && i < n && pipes[i] != []
      modifies pipes
      ensures xpd == old(pipes[i][0]) && pipes[..] == old(pipes[..])[i := old(pipes[i][1..])]
    {
      xpd := pipes[i][0];
      pipes[i] := pipes[i][1..];
    }

    /** The send before the loop. */
    method FirstSend(i: nat)
      requires Valid() && Possible(View(), Begin(i))
      modifies pipes, started
      ensures View() == Do(old(View()), Begin(i))
    {
      SendSc(i);
      started[i] := true;
    }

    /** The loop body; `acted` counts the actions it carried out. */
    method Loop(i: nat) returns (acted: nat)
      requires Valid() && Possible(View(), Round(i))
      modifies xid, pipes
      ensures View() == Do(old(View()), Round(i))
      ensures acted == if Fires(old(State(xid[..], pipes[..])), i) then 1 else 0
    {
      acted := 0;
      var xpd := RecvPd(i);
      if i == 0 {
        if xpd == 0 && xid[i] == 0 { xid[i] := 1; SendSc(i); acted := acted + 1; }
        if xpd == 1 && xid[i] <= 1 { xid[i] := 2; SendSc(i); acted := acted + 1; }
        if xpd > 1 && xid[i] > 1 { xid[i] := 0; SendSc(i); acted := acted + 1; }
      } else {
        if xpd == 0 && xid[i] > 1 { xid[i] := xid[i] / 4; SendSc(i); acted := acted + 1; }
        if xpd == 1 && xid[i] != 1 { xid[i] := 1; SendSc(i); acted := acted + 1; }
        if xpd == 2 && xid[i] <= 1 { xid[i] := 2 + xid[i]; SendSc(i); acted := acted + 1; }
        if xpd >= 3 && xid[i] <= 1 { xid[i] := 4; SendSc(i); acted := acted + 1; }
      }
    }
  }
}
