/** Stack effects and the sub-effect relation (SType.cs). */
module Effects {
  import opened Base

  /** Counts of stack elements consumed and produced; din is -1 when the effect is unknown, and dout is -1 when it is
      unknown or when the word never exits. */
  datatype SType = SType(din: int, dout: int) {
    predicate IsKnown() {
      din >= 0
    }

    predicate NoExit() {
      din >= 0 && dout < 0
    }

    predicate IsSubOf(s: SType) {
      if !IsKnown() || !s.IsKnown() then false
      else if din > s.din then false
      else if NoExit() then true
      else if s.NoExit() then false
      else din - dout == s.din - s.dout
    }
  }

  const UNKNOWN := SType(-1, -1)

  /** The constructor of the source: negative counts become -1, and others are kept. */
  function MakeSType(din: int, dout: int): (s: SType)
    ensures -1 <= s.din && -1 <= s.dout
    ensures (s.din == -1 <==> din < 0) && (din >= 0 ==> s.din == din)
    ensures (s.dout == -1 <==> dout < 0) && (dout >= 0 ==> s.dout == dout)
  {
    SType(if din < 0 then -1 else din, if dout < 0 then -1 else dout)
  }

  // ----- what an effect means -----

  /** A word, seen as a partial function on the data stack. */
  type StackFn = seq<int32> -> Option<seq<int32>>

  /** On a stack whose top elements are args, the function uses only these: it replaces them by dout elements, or does
      not return, whatever lies below; and it never returns when the effect has no exit. */
  ghost predicate ObeysOn(f: StackFn, s: SType, below: seq<int32>, args: seq<int32>) {
    match f(args)
    case None => f(below + args) == None
    case Some(r) => s.dout >= 0 && |r| == s.dout && f(below + args) == Some(below + r)
  }

  ghost predicate Obeys(f: StackFn, s: SType) {
    s.IsKnown() && forall below, args | |args| == s.din :: ObeysOn(f, s, below, args)
  }

  function Zeros(n: nat): (z: seq<int32>)
    ensures |z| == n
  {
    seq(n, _ => 0)
  }

  /** A function of effect (din, dout), when the stack has at least din elements, and otherwise one that pushes
      junk + 1 elements. */
  function Sample(din: nat, dout: int, junk: nat): StackFn {
    (st: seq<int32>) =>
      if |st| < din then Some(st + Zeros(junk + 1))
      else if dout < 0 then None
      else Some(st[..|st| - din] + Zeros(dout))
  }

  lemma SampleObeys(s: SType, junk: nat)
    requires s.IsKnown()
    ensures Obeys(Sample(s.din, s.dout, junk), s)
  {
    var f := Sample(s.din, s.dout, junk);
    forall below, args | |args| == s.din ensures ObeysOn(f, s, below, args) {
      assert (below + args)[..|below + args| - s.din] == below;
      assert args[..|args| - s.din] == [];
      if s.dout >= 0 {
        assert [] + Zeros(s.dout) == Zeros(s.dout);
      }
    }
  }

  /** A declared effect may replace a computed one: every function that obeys the smaller effect obeys the larger. */
  lemma SubEffectSound(f: StackFn, s: SType, t: SType)
    requires Obeys(f, s) && s.IsSubOf(t)
    ensures Obeys(f, t)
  {
    forall below, args | |args| == t.din ensures ObeysOn(f, t, below, args) {
      var n := t.din - s.din;
      var rest, top := args[..n], args[n..];
      assert args == rest + top && below + args == (below + rest) + top;
      assert ObeysOn(f, s, rest, top) && ObeysOn(f, s, below + rest, top);
      if f(top).Some? {
        assert (below + rest) + f(top).value == below + (rest + f(top).value);
      }
    }
  }

  /** IsSubOf is exact: it holds precisely when every function that obeys the one effect obeys the other. */
  lemma SubEffectExact(s: SType, t: SType)
    requires s.IsKnown() && t.IsKnown() && s.dout >= -1 && t.dout >= -1
    ensures s.IsSubOf(t) <==> forall f: StackFn | Obeys(f, s) :: Obeys(f, t)
  {
    if s.IsSubOf(t) {
      forall f: StackFn | Obeys(f, s) ensures Obeys(f, t) {
        SubEffectSound(f, s, t);
      }
    } else {
      var junk := if t.dout < 0 then 0 else t.dout;
      var f := Sample(s.din, s.dout, junk);
      SampleObeys(s, junk);
      var args := Zeros(t.din);
      assert f(args).Some? && |f(args).value| != t.dout;
      assert !ObeysOn(f, t, [], args);
      assert !Obeys(f, t);
    }
  }

  /** On known effects, the relation is a preorder. */
  lemma SubEffectPreorder(s: SType, t: SType, u: SType)
    ensures s.IsKnown() ==> s.IsSubOf(s)
    ensures s.IsSubOf(t) && t.IsSubOf(u) ==> s.IsSubOf(u)
  {
  }
}
