/** The stack words that have both a native implementation in the compiler (T0Comp.cs, lines 795-812) and C code
    (kern.t0, lines 153-158; T0Comp.cs, lines 1864-1897): both do the same, and both obey the declared effect. */
module Kernel {
  import opened Base
  import opened Machine
  import opened Effects
  import opened Runtime

  datatype StackWord = Drop | Dup | Swap | Over | Rot | NRot {
    function Effect(): SType {
      match this
      case Drop => SType(1, 0)
      case Dup => SType(1, 2)
      case Swap => SType(2, 2)
      case Over => SType(2, 3)
      case Rot => SType(3, 3)
      case NRot => SType(3, 3)
    }
  }

  function Peek<T>(stack: seq<T>, depth: nat): Option<T> {
    if depth < |stack| then Some(stack[|stack| - 1 - depth]) else None
  }

  function PushPeek<T>(stack: seq<T>, depth: nat): Option<seq<T>> {
    match Peek(stack, depth)
    case None => None
    case Some(v) => Some(stack + [v])
  }

  /** What the virtual CPU does. */
  function OnCpu<T>(w: StackWord, stack: seq<T>): Option<seq<T>> {
    match w
    case Drop => if stack == [] then None else Some(stack[..|stack| - 1])
    case Dup => PushPeek(stack, 0)
    case Swap => if |stack| < 2 then None else Some(Rotate(stack, 1))
    case Over => PushPeek(stack, 1)
    case Rot => if |stack| < 3 then None else Some(Rotate(stack, 2))
    case NRot => if |stack| < 3 then None else Some(Unrotate(stack, 2))
  }

  lemma RotateAbove<T>(below: seq<T>, args: seq<T>, depth: nat)
    requires depth < |args|
    ensures Rotate(below + args, depth) == below + Rotate(args, depth) && |Rotate(args, depth)| == |args|
  {
    var k := |args| - 1 - depth;
    var stack := below + args;
    assert stack[..|below| + k] == below + args[..k];
    assert stack[|below| + k + 1..] == args[k + 1..];
    assert below + (args[..k] + args[k + 1..] + [args[k]]) == (below + args[..k]) + args[k + 1..] + [args[k]];
  }

  lemma UnrotateAbove<T>(below: seq<T>, args: seq<T>, depth: nat)
    requires depth < |args|
    ensures Unrotate(below + args, depth) == below + Unrotate(args, depth) && |Unrotate(args, depth)| == |args|
  {
    var k, n := |args| - 1 - depth, |args| - 1;
    var stack := below + args;
    assert stack[..|below| + k] == below + args[..k];
    assert stack[|below| + k..|below| + n] == args[k..n];
    assert below + (args[..k] + [args[n]] + args[k..n]) == (below + args[..k]) + [args[n]] + args[k..n];
  }

  lemma PushPeekAbove<T>(below: seq<T>, args: seq<T>, depth: nat)
    requires depth < |args|
    ensures PushPeek(args, depth).Some? && |PushPeek(args, depth).value| == |args| + 1
    ensures PushPeek(below + args, depth) == Some(below + PushPeek(args, depth).value)
  {
    var v := args[|args| - 1 - depth];
    assert below + args + [v] == below + (args + [v]);
  }

  function CpuFn(w: StackWord): StackFn {
    (stack: seq<int32>) => OnCpu(w, stack)
  }

  /** The declared effects are true. */
  lemma DeclaredEffectsHold(w: StackWord)
    ensures Obeys(CpuFn(w), w.Effect())
  {
    hide Rotate, Unrotate, PushPeek;
    forall below, args | |args| == w.Effect().din ensures ObeysOn(CpuFn(w), w.Effect(), below, args) {
      match w {
        case Drop =>
          assert (below + args)[..|below|] == below + args[..0];
        case Dup => PushPeekAbove(below, args, 0);
        case Over => PushPeekAbove(below, args, 1);
        case Swap => RotateAbove(below, args, 1);
        case Rot => RotateAbove(below, args, 2);
        case NRot => UnrotateAbove(below, args, 2);
      }
    }
  }

  /** The stack comments of the words: what each does to the topmost elements, whatever lies below. */
  lemma StackComments<T>(below: seq<T>, a: T, b: T, c: T)
    ensures OnCpu(Drop, below + [a]) == Some(below)
    ensures OnCpu(Dup, below + [a]) == Some(below + [a, a])
    ensures OnCpu(Swap, below + [a, b]) == Some(below + [b, a])
    ensures OnCpu(Over, below + [a, b]) == Some(below + [a, b, a])
    ensures OnCpu(Rot, below + [a, b, c]) == Some(below + [b, c, a])
    ensures OnCpu(NRot, below + [a, b, c]) == Some(below + [c, a, b])
  {
    hide Rotate, Unrotate;
    assert below + [a] + [a] == below + [a, a];
    assert below + [a, b] + [a] == below + [a, b, a];
    assert below + [a, b] == below + [a] + [b] && below + [b] + [a] == below + [b, a];
    RotationMoves(below, a, [b]);
    assert below + [a, b, c] == below + [a] + [b, c] && below + [b, c] + [a] == below + [b, c, a];
    RotationMoves(below, a, [b, c]);
    assert below + [a, b, c] == below + [a, b] + [c] && below + [c] + [a, b] == below + [c, a, b];
    RotationMoves(below, c, [a, b]);
  }

  /** They fail exactly on fewer elements than their effects say. */
  lemma TooShort<T>(w: StackWord, stack: seq<T>)
    ensures OnCpu(w, stack).None? <==> |stack| < w.Effect().din
  {
  }

  /** `T0_SWAP`. */
  method SwapCells(ds: array<uint32>, dp: nat)
    requires 2 <= dp <= ds.Length
    modifies ds
    ensures ds[..dp] == Rotate(old(ds[..dp]), 1)
  {
    ghost var was := ds[..dp];
    var tmp := ds[dp - 2];
    ds[dp - 2] := ds[dp - 1];
    ds[dp - 1] := tmp;
    assert ds[..dp] == was[..dp - 2] + was[dp - 1..] + [was[dp - 2]];
  }

  /** `T0_ROT`. */
  method RotCells(ds: array<uint32>, dp: nat)
    requires 3 <= dp <= ds.Length
    modifies ds
    ensures ds[..dp] == Rotate(old(ds[..dp]), 2)
  {
    ghost var was := ds[..dp];
    var tmp := ds[dp - 3];
    ds[dp - 3] := ds[dp - 2];
    ds[dp - 2] := ds[dp - 1];
    ds[dp - 1] := tmp;
    assert ds[..dp] == was[..dp - 3] + was[dp - 2..] + [was[dp - 3]];
  }

  /** `T0_NROT`. */
  method NRotCells(ds: array<uint32>, dp: nat)
    requires 3 <= dp <= ds.Length
    modifies ds
    ensures ds[..dp] == Unrotate(old(ds[..dp]), 2)
  {
    ghost var was := ds[..dp];
    var tmp := ds[dp - 1];
    ds[dp - 1] := ds[dp - 2];
    ds[dp - 2] := ds[dp - 3];
    ds[dp - 3] := tmp;
    assert ds[..dp] == was[..dp - 3] + [was[dp - 1]] + was[dp - 3..dp - 1];
  }

  /** The C code of each word, on the cells below dp; room for one more cell is needed to push. */
  method OnCells(w: StackWord, ds: array<uint32>, dp: nat) returns (dp': nat)
    requires w.Effect().din <= dp <= ds.Length && dp - w.Effect().din + w.Effect().dout <= ds.Length
    modifies ds
    ensures dp' <= ds.Length && OnCpu(w, old(ds[..dp])) == Some(ds[..dp'])
  {
    hide Rotate, Unrotate;
    ghost var was := ds[..dp];
    dp' := dp;
    match w {
      case Drop =>
        dp' := dp - 1;
        assert ds[..dp'] == was[..dp'];
      case Dup =>
        ds[dp] := ds[dp - 1];
        dp' := dp + 1;
        assert ds[..dp'] == was + [was[dp - 1]];
      case Over =>
        ds[dp] := ds[dp - 2];
        dp' := dp + 1;
        assert ds[..dp'] == was + [was[dp - 2]];
      case Swap =>
        SwapCells(ds, dp);
      case Rot =>
        RotCells(ds, dp);
      case NRot =>
        NRotCells(ds, dp);
    }
  }

  /** `T0_ROLL`, which moves memory, is the rotation of the CPU at any depth. */
  method Roll(ds: array<uint32>, dp: nat, x: nat)
    requires x < dp <= ds.Length
    modifies ds
    ensures ds[..dp] == Rotate(old(ds[..dp]), x)
  {
    ghost var was := ds[..dp];
    var k := dp - 1 - x;
    var tmp := ds[k];
    forall i | k <= i < dp - 1 {
      ds[i] := ds[i + 1];
    }
    ds[dp - 1] := tmp;
    assert ds[..dp] == was[..k] + was[k + 1..] + [was[k]];
  }

  lemma RotateCells(stack: seq<int32>, depth: nat)
    requires depth < |stack|
    ensures Rotate(ToCells(stack), depth) == ToCells(Rotate(stack, depth))
    ensures Unrotate(ToCells(stack), depth) == ToCells(Unrotate(stack, depth))
  {
    hide Rotate, Unrotate;
    var k, n := |stack| - 1 - depth, |stack| - 1;
    MovedCells(stack[..k], stack[k], stack[k + 1..]);
    assert stack == stack[..k] + [stack[k]] + stack[k + 1..];
    MovedCells(stack[..k], stack[n], stack[k..n]);
    assert stack == stack[..k] + stack[k..n] + [stack[n]];
  }

  lemma MovedCells(below: seq<int32>, x: int32, above: seq<int32>)
    ensures Rotate(ToCells(below + [x] + above), |above|) == ToCells(Rotate(below + [x] + above, |above|))
    ensures Unrotate(ToCells(below + above + [x]), |above|) == ToCells(Unrotate(below + above + [x], |above|))
  {
    hide Rotate, Unrotate;
    CellsJoin(below, [x], above);
    CellsJoin(below, above, [x]);
    assert ToCells([x]) == [ToU32(x)];
    RotationMoves(ToCells(below), ToU32(x), ToCells(above));
    RotationMoves(below, x, above);
  }

  lemma CellsJoin(a: seq<int32>, b: seq<int32>, c: seq<int32>)
    ensures ToCells(a + b + c) == ToCells(a) + ToCells(b) + ToCells(c)
  {
  }

  /** Cells hold the bits of values: the same word on both gives the same. */
  lemma SameOnCells(w: StackWord, stack: seq<int32>)
    ensures OnCpu(w, ToCells(stack)) == match OnCpu(w, stack) case None => None case Some(r) => Some(ToCells(r))
  {
    hide Rotate, Unrotate;
    match w
    case Swap => if |stack| >= 2 { RotateCells(stack, 1); }
    case Rot => if |stack| >= 3 { RotateCells(stack, 2); }
    case NRot => if |stack| >= 3 { RotateCells(stack, 2); }
    case _ =>
      if OnCpu(w, stack).Some? {
        assert OnCpu(w, ToCells(stack)).value == ToCells(OnCpu(w, stack).value);
      }
  }
}
