// Any sequence of operations on two buffers (polaris/network/buffer.cpp) against two plain byte
// sequences, and what goes in and out of each.
module BufferRuns {
  import opened Common
  import opened Buffer

  // `first` tells which of the two buffers the operation is called on; a move takes from the other.
  datatype Op =
    | AddOp(first: bool, bytes: seq<byte>)
    | ReadOp(first: bool, size: nat, available: seq<byte>, fails: bool)
    | DrainOp(first: bool, size: nat)
    | WriteOp(first: bool, wanted: int)
    | MoveOp(first: bool)
    | MovePrefixOp(first: bool, size: nat)

  datatype Pair = Pair(first: seq<byte>, second: seq<byte>)

  function Of(p: Pair, first: bool): seq<byte> {
    if first then p.first else p.second
  }

  predicate Moves(op: Op) {
    op.MoveOp? || op.MovePrefixOp?
  }

  // What an operation brings in from outside, from the operation alone.
  function PutIn(op: Op): seq<byte> {
    match op
    case AddOp(_, bytes) => bytes
    case ReadOp(_, size, available, fails) => if fails then [] else available[..Min(|available|, size)]
    case _ => []
  }

  // The reference: one operation on plain sequences.  `out` is what leaves a buffer by it: dropped,
  // sent or moved.  How much a write sends is up to the socket, but some of it if it takes any.
  ghost predicate Does(op: Op, out: seq<byte>, target: seq<byte>, source: seq<byte>, target': seq<byte>, source': seq<byte>) {
    match op
    case AddOp(_, _) => out == [] && target' == target + PutIn(op) && source' == source
    case ReadOp(_, _, _, _) => out == [] && target' == target + PutIn(op) && source' == source
    case DrainOp(_, size) =>
      out == target[..Min(size, |target|)] && target == out + target' && source' == source
    case WriteOp(_, wanted) =>
      && target == out + target' && source' == source
      && (if wanted > 0 then |out| <= wanted && (target != [] ==> out != []) else out == [])
    case MoveOp(_) => out == source && target' == target + out && source' == []
    case MovePrefixOp(_, size) =>
      out == source[..Min(size, |source|)] && target' == target + out && source == out + source'
  }

  ghost predicate Step(op: Op, out: seq<byte>, p: Pair, q: Pair) {
    Does(op, out, Of(p, op.first), Of(p, !op.first), Of(q, op.first), Of(q, !op.first))
  }

  ghost predicate StepAt(ops: seq<Op>, outs: seq<seq<byte>>, trace: seq<Pair>, i: nat)
    requires i < |ops| == |outs| && |trace| == |ops| + 1
  {
    Step(ops[i], outs[i], trace[i], trace[i + 1])
  }

  // The two sequences before each operation and after the last.
  ghost predicate Behaves(ops: seq<Op>, outs: seq<seq<byte>>, trace: seq<Pair>) {
    && |outs| == |ops| && |trace| == |ops| + 1
    && forall i {:trigger StepAt(ops, outs, trace, i)} :: 0 <= i < |ops| ==> StepAt(ops, outs, trace, i)
  }

  // What an operation puts into one of the buffers and takes out of it.
  function In(op: Op, out: seq<byte>, first: bool): seq<byte> {
    if op.first != first then [] else if Moves(op) then out else PutIn(op)
  }

  function Out(op: Op, out: seq<byte>, first: bool): seq<byte> {
    if op.first == first then (if Moves(op) then [] else out) else (if Moves(op) then out else [])
  }

  function AllIn(ops: seq<Op>, outs: seq<seq<byte>>, first: bool, n: nat): seq<byte>
    requires n <= |ops| == |outs|
  {
    if n == 0 then [] else AllIn(ops, outs, first, n - 1) + In(ops[n - 1], outs[n - 1], first)
  }

  function AllOut(ops: seq<Op>, outs: seq<seq<byte>>, first: bool, n: nat): seq<byte>
    requires n <= |ops| == |outs|
  {
    if n == 0 then [] else AllOut(ops, outs, first, n - 1) + Out(ops[n - 1], outs[n - 1], first)
  }

  lemma StepConserves(op: Op, out: seq<byte>, p: Pair, q: Pair, first: bool)
    requires Step(op, out, p, q)
    ensures Of(p, first) + In(op, out, first) == Out(op, out, first) + Of(q, first)
  {
    assert Of(p, first) + [] == Of(p, first) && [] + Of(q, first) == Of(q, first);
  }

  // For each buffer and any operations: what it held and everything put in, in order, is everything
  // taken out, in order, and what it holds.
  lemma {:induction false} Conserved(ops: seq<Op>, outs: seq<seq<byte>>, trace: seq<Pair>, first: bool, n: nat)
    requires Behaves(ops, outs, trace) && n <= |ops|
    ensures Of(trace[0], first) + AllIn(ops, outs, first, n) == AllOut(ops, outs, first, n) + Of(trace[n], first)
  {
    var start := Of(trace[0], first);
    if n == 0 {
      assert start + [] == [] + start;
    } else {
      Conserved(ops, outs, trace, first, n - 1);
      var op, out, p, q := ops[n - 1], outs[n - 1], trace[n - 1], trace[n];
      assert StepAt(ops, outs, trace, n - 1);
      StepConserves(op, out, p, q, first);
      var ins, gone := AllIn(ops, outs, first, n - 1), AllOut(ops, outs, first, n - 1);
      AppendAssociates(start, ins, In(op, out, first));
      AppendAssociates(gone, Of(p, first), In(op, out, first));
      AppendAssociates(gone, Out(op, out, first), Of(q, first));
    }
  }

  // An operation on one buffer alone.
  method PerformHere(target: Buffer, op: Op, ghost source: seq<byte>) returns (out: seq<byte>)
    requires target.Valid() && !Moves(op)
    modifies target, target.Blocks()
    ensures target.Valid() && fresh(target.Blocks() - old(target.Blocks()))
    ensures Does(op, out, old(target.Content()), source, target.Content(), source)
  {
    out := [];
    match op
    case AddOp(_, bytes) => target.Add(bytes);
    case ReadOp(_, size, available, fails) =>
      var result := target.Read(size, available, fails);
      assert size == 0 ==> PutIn(op) == [];
      assert result > 0 ==> available[..result] == PutIn(op);
    case DrainOp(_, size) =>
      out := target.Bytes();
      out := out[..Min(size, |out|)];
      target.Drain(size);
    case WriteOp(_, wanted) =>
      var result;
      result, out := target.Write(wanted);
  }

  method PerformMove(target: Buffer, source: Buffer, op: Op) returns (out: seq<byte>)
    requires target != source && target.Valid() && source.Valid() && target.Blocks() !! source.Blocks() && Moves(op)
    modifies target, source, target.Blocks(), source.Blocks()
    ensures target.Valid() && source.Valid() && target.Blocks() !! source.Blocks()
    ensures fresh(target.Blocks() + source.Blocks() - old(target.Blocks() + source.Blocks()))
    ensures Does(op, out, old(target.Content()), old(source.Content()), target.Content(), source.Content())
  {
    out := source.Bytes();
    if op.MoveOp? {
      target.Move(source);
    } else {
      out := out[..Min(op.size, |out|)];
      target.MovePrefix(source, op.size);
    }
  }

  // One operation on `target`, with `source` as the other buffer.
  method PerformOn(target: Buffer, source: Buffer, op: Op) returns (out: seq<byte>)
    requires target != source && target.Valid() && source.Valid() && target.Blocks() !! source.Blocks()
    modifies target, source, target.Blocks(), source.Blocks()
    ensures target.Valid() && source.Valid() && target.Blocks() !! source.Blocks()
    ensures fresh(target.Blocks() + source.Blocks() - old(target.Blocks() + source.Blocks()))
    ensures Does(op, out, old(target.Content()), old(source.Content()), target.Content(), source.Content())
  {
    if Moves(op) {
      out := PerformMove(target, source, op);
    } else {
      out := PerformHere(target, op, source.Content());
    }
  }

  // Buffers do to their contents what the reference does to plain sequences, operation by operation;
  // `outs` are the bytes that left by each.
  method Run(a: Buffer, b: Buffer, ops: seq<Op>) returns (outs: seq<seq<byte>>, ghost trace: seq<Pair>)
    requires a != b && a.Valid() && b.Valid() && a.Blocks() !! b.Blocks()
    modifies a, b, a.Blocks(), b.Blocks()
    ensures a.Valid() && b.Valid() && a.Blocks() !! b.Blocks()
    ensures Behaves(ops, outs, trace)
    ensures trace[0] == Pair(old(a.Content()), old(b.Content())) && trace[|ops|] == Pair(a.Content(), b.Content())
    ensures old(a.Content()) + AllIn(ops, outs, true, |ops|) == AllOut(ops, outs, true, |ops|) + a.Content()
    ensures old(b.Content()) + AllIn(ops, outs, false, |ops|) == AllOut(ops, outs, false, |ops|) + b.Content()
  {
    outs, trace := [], [Pair(a.Content(), b.Content())];
    var i := 0;
    while i < |ops|
      invariant i <= |ops| && a.Valid() && b.Valid() && a.Blocks() !! b.Blocks()
      invariant fresh(a.Blocks() + b.Blocks() - old(a.Blocks() + b.Blocks()))
      invariant Behaves(ops[..i], outs, trace)
      invariant trace[0] == Pair(old(a.Content()), old(b.Content())) && trace[i] == Pair(a.Content(), b.Content())
    {
      var out;
      if ops[i].first {
        out := PerformOn(a, b, ops[i]);
      } else {
        out := PerformOn(b, a, ops[i]);
      }
      ghost var next := Pair(a.Content(), b.Content());
      BehavesOn(ops[..i], outs, trace, ops[i], out, next);
      assert ops[..i + 1] == ops[..i] + [ops[i]];
      outs, trace := outs + [out], trace + [next];
      i := i + 1;
    }
    assert ops[..i] == ops;
    Conserved(ops, outs, trace, true, |ops|);
    Conserved(ops, outs, trace, false, |ops|);
  }

  lemma BehavesOn(ops: seq<Op>, outs: seq<seq<byte>>, trace: seq<Pair>, op: Op, out: seq<byte>, next: Pair)
    requires Behaves(ops, outs, trace) && Step(op, out, trace[|ops|], next)
    ensures Behaves(ops + [op], outs + [out], trace + [next])
  {
    var all, os, ts := ops + [op], outs + [out], trace + [next];
    forall j | 0 <= j < |all|
      ensures StepAt(all, os, ts, j)
    {
      assert j < |ops| ==> StepAt(ops, outs, trace, j);
    }
  }
}
