/** `MaxReturnStack` and `MaxDataStack` (WordInterpreted.cs, lines 180-229), said of chains of calls: neither is larger
    than some chain of calls that can be reached makes it. */
module StackBounds {
  import opened Base
  import opened Machine
  import opened Effects
  import opened Flow
  import opened FlowSound
  import opened Principal
  import opened DataStack

  /** Some run through w ends at a call of the interpreted word u, with d more elements on the data stack. */
  ghost predicate CallsAt(words: seq<Word>, T: seq<Info>, w: nat, u: nat, d: int) {
    && w < |words| && words[w].Interpreted? && u < |words| && words[u].Interpreted?
    && exists path ::
       IsRun(T, words[w].code, path) && words[w].code[Last(path)] == Call(Some(u)) && Net(T, words[w].code, path) == d
  }

  // ----- the return stack -----

  /** Each word of the chain reaches a call of the next. */
  ghost predicate ReachChain(words: seq<Word>, T: seq<Info>, chain: seq<nat>) {
    && chain != [] && (forall i | 0 <= i < |chain| :: chain[i] < |words| && words[chain[i]].Interpreted?)
    && (forall i | 0 <= i < |chain| - 1 :: CallsNext(words, T, chain[i], chain[i + 1]))
  }

  ghost predicate CallsNext(words: seq<Word>, T: seq<Info>, w: nat, u: nat) {
    exists d :: CallsAt(words, T, w, u, d)
  }

  /** The cells that the frames of a chain of calls take: one for each frame and one for each local. */
  function ChainCells(words: seq<Word>, chain: seq<nat>): nat {
    if chain == [] then 0
    else ChainCells(words, chain[1..]) + 1 + if chain[0] < |words|
      && words[chain[0]].Interpreted? then words[chain[0]].numLocals else 0
  }

  /** What the annotations say of a call that a run reaches. */
  lemma CallReached(words: seq<Word>, declared: seq<SType>, T: seq<Info>, w: nat, u: nat, d: int)
    requires TableOk(words, declared, T) && CallsAt(words, T, w, u, d) && T[w].flow == 1
    ensures T[u].flow == 1 && T[u].maxReturnStack + 1 + words[w].numLocals <= T[w].maxReturnStack
    ensures d + T[u].maxDataStack <= T[w].maxDataStack
  {
    hide OpcodeOk, Net, Edge, Tight;
    assert InfoOk(words, declared, T, w);
    var c :| AnalysedWith(words, declared, T, w, c);
    var path :| IsRun(T, words[w].code, path) && words[w].code[Last(path)] == Call(Some(u))
      && Net(T, words[w].code, path) == d;
    RunDepth(words, T, words[w].code, c, path);
    CallBounds(words, T, words[w].code, c, Last(path), u);
  }

  lemma CallBounds(words: seq<Word>, T: seq<Info>, code: seq<Opcode>, c: Cert, k: nat, u: nat)
    requires |T| == |words| && k < |code| == |c.sa| && OpcodeOk(words, T, code, c, k) && c.sa[k].Some?
    requires code[k] == Call(Some(u))
    requires u < |words| && words[u].Interpreted?
    ensures T[u].flow == 1 && T[u].maxReturnStack <= c.callees && c.sa[k].value + T[u].maxDataStack <= c.extra
  {
  }

  /** No chain of calls takes more cells than the bound. */
  lemma {:induction false} ChainFits(words: seq<Word>, declared: seq<SType>, T: seq<Info>, chain: seq<nat>)
    requires TableOk(words, declared, T) && ReachChain(words, T, chain) && T[chain[0]].flow == 1
    ensures ChainCells(words, chain) <= T[chain[0]].maxReturnStack
    decreases |chain|
  {
    hide CallsAt, CertOk, CallsNext;
    if |chain| == 1 {
      AtLeastFrame(words, declared, T, chain[0]);
      assert chain[1..] == [];
    } else {
      var rest := chain[1..];
      forall i | 0 <= i < |rest| - 1 ensures CallsNext(words, T, rest[i], rest[i + 1]) {
        assert CallsNext(words, T, chain[i + 1], chain[i + 1 + 1]);
      }
      assert CallsNext(words, T, chain[0], chain[0 + 1]);
      NextFits(words, declared, T, chain[0], chain[1]);
      ChainFits(words, declared, T, rest);
    }
  }

  lemma AtLeastFrame(words: seq<Word>, declared: seq<SType>, T: seq<Info>, w: nat)
    requires TableOk(words, declared, T) && w < |words| && words[w].Interpreted? && T[w].flow == 1
    ensures T[w].maxReturnStack >= 1 + words[w].numLocals
  {
    hide CertOk;
    assert InfoOk(words, declared, T, w);
  }

  lemma NextFits(words: seq<Word>, declared: seq<SType>, T: seq<Info>, w: nat, u: nat)
    requires TableOk(words, declared, T) && CallsNext(words, T, w, u) && w < |words| && words[w].Interpreted?
    requires T[w].flow == 1
    ensures u < |words| && T[u].flow == 1 && T[u].maxReturnStack + 1 + words[w].numLocals <= T[w].maxReturnStack
  {
    hide CallsAt;
    var d :| CallsAt(words, T, w, u, d);
    assert u < |words| by {
      CallsKnown(words, T, w, u, d);
    }
    CallReached(words, declared, T, w, u, d);
  }

  lemma CallsKnown(words: seq<Word>, T: seq<Info>, w: nat, u: nat, d: int)
    requires CallsAt(words, T, w, u, d)
    ensures w < |words| && words[w].Interpreted? && u < |words| && words[u].Interpreted?
  {
  }

  /** The call that determines the bound of a word that calls interpreted words. */
  lemma DeepestCall(words: seq<Word>, declared: seq<SType>, T: seq<Info>, w: nat) returns (u: nat, d: int)
    requires TableOk(words, declared, T) && w < |words| && words[w].Interpreted? && T[w].flow == 1
    requires T[w].maxReturnStack > 1 + words[w].numLocals
    ensures CallsAt(words, T, w, u, d) && u < |words| && T[u].flow == 1
    ensures T[w].maxReturnStack == 1 + words[w].numLocals + T[u].maxReturnStack
  {
    hide LowPoint, DataPoint, Reachable, Net, Edge;
    assert InfoOk(words, declared, T, w);
    var c :| AnalysedWith(words, declared, T, w, c);
    var code := words[w].code;
    var k :| 0 <= k < |code| && c.sa[k].Some? && CalleeReturns(words, T, code[k]) == c.callees;
    CertAt(words, T, code, c, k);
    u := code[k].target.value;
    var path := RunTo(words, T, code, c, k);
    d := c.sa[k].value;
  }

  /** The bound on the return stack is what some chain of calls takes. */
  lemma {:induction false} ChainAttains(words: seq<Word>, declared: seq<SType>, T: seq<Info>, w: nat)
    returns (chain: seq<nat>)
    requires TableOk(words, declared, T) && w < |words| && words[w].Interpreted? && T[w].flow == 1
    ensures ReachChain(words, T, chain) && chain[0] == w && ChainCells(words, chain) == T[w].maxReturnStack
    decreases T[w].maxReturnStack
  {
    hide CallsAt, CertOk, InfoOk;
    AtLeastFrame(words, declared, T, w);
    if T[w].maxReturnStack == 1 + words[w].numLocals {
      chain := [w];
    } else {
      var u, d := DeepestCall(words, declared, T, w);
      CallsKnown(words, T, w, u, d);
      var rest := ChainAttains(words, declared, T, u);
      chain := [w] + rest;
      assert chain[1..] == rest;
      forall i | 0 <= i < |chain| - 1 ensures CallsNext(words, T, chain[i], chain[i + 1]) {
        if i == 0 {
          assert CallsAt(words, T, w, u, d);
        } else {
          assert CallsNext(words, T, rest[i - 1], rest[i - 1 + 1]);
        }
      }
    }
  }

  // ----- the data stack -----

  /** From the start of w, through n nested calls, execution can reach an opcode with h more elements on the stack. */
  ghost predicate Climbs(words: seq<Word>, T: seq<Info>, w: nat, h: int, n: nat)
    requires w < |words| && words[w].Interpreted?
    decreases n
  {
    if n == 0 then exists path :: IsRun(T, words[w].code, path) && Net(T, words[w].code, path) == h
    else exists u, d :: CallsAt(words, T, w, u, d) && Climbs(words, T, u, h - d, n - 1)
  }

  /** Where the recorded bound comes from. */
  lemma CountedPoint(words: seq<Word>, declared: seq<SType>, T: seq<Info>, w: nat) returns (k: nat, c: Cert)
    requires TableOk(words, declared, T) && w < |words| && words[w].Interpreted? && T[w].flow == 1
    requires T[w].maxDataStack != 0
    ensures CertOk(words, T, words[w].code, c) && k < |words[w].code| == |c.sa| && c.sa[k].Some?
    ensures T[w].maxDataStack > 0
    ensures |T| == |words| && DataPoint(words, T, words[w].code[k], c.sa[k].value) == T[w].maxDataStack
  {
    hide OpcodeOk, LowPoint, DataPoint, Reachable, CalleeReturns;
    assert InfoOk(words, declared, T, w);
    c :| AnalysedWith(words, declared, T, w, c);
    k :| 0 <= k < |words[w].code| && c.sa[k].Some? && DataPoint(words, T, words[w].code[k], c.sa[k].value) == c.extra;
  }

  /** A depth that is counted at an opcode other than a call of an interpreted word is the depth of some run. */
  lemma CountedRun(words: seq<Word>, T: seq<Info>, code: seq<Opcode>, c: Cert, k: nat) returns (path: seq<nat>)
    requires CertOk(words, T, code, c) && k < |code| == |c.sa| && c.sa[k].Some? && |T| == |words|
    requires code[k].Call? ==>
             code[k].target.Some? && code[k].target.value < |words| && words[code[k].target.value].Native?
    requires DataPoint(words, T, code[k], c.sa[k].value) > 0
    ensures IsRun(T, code, path) && Net(T, code, path) >= DataPoint(words, T, code[k], c.sa[k].value)
  {
    hide Net, Tight, Reachable, LowPoint, CalleeReturns;
    path := RunTo(words, T, code, c, k);
    if !code[k].Call? {
      CertAt(words, T, code, c, k);
      var j: nat := if code[k].JumpDisp() != 0 then k + 1 + code[k].JumpDisp() else k + 1;
      RunFurther(T, code, path, j);
      path := path + [j];
    }
  }

  /** The bound on the data stack is never larger than a depth that can be reached. */
  lemma {:induction false} ClimbsToBound(words: seq<Word>, declared: seq<SType>, T: seq<Info>, w: nat)
    returns (h: int, n: nat)
    requires TableOk(words, declared, T) && w < |words| && words[w].Interpreted? && T[w].flow == 1
    ensures Climbs(words, T, w, h, n) && h >= T[w].maxDataStack
    decreases T[w].maxReturnStack
  {
    hide CertOk, InfoOk, Edge, Net, DataPoint;
    h, n := 0, 0;
    if T[w].maxDataStack == 0 {
      StartClimbs(words, declared, T, w);
    } else {
      var k, c := CountedPoint(words, declared, T, w);
      var code := words[w].code;
      if code[k].Call? && CallsInterpreted(words, code[k]) {
        var u, d := code[k].target.value, c.sa[k].value;
        var path := RunTo(words, T, code, c, k);
        assert CallsAt(words, T, w, u, d);
        CallReached(words, declared, T, w, u, d);
        var h', n' := ClimbsToBound(words, declared, T, u);
        h, n := d + h', n' + 1;
        assert h - d == h';
        CountedCall(words, T, code[k], d);
      } else {
        ReadyTarget(words, T, code, c, k);
        var path := CountedRun(words, T, code, c, k);
        h := Net(T, code, path);
      }
    }
  }

  predicate CallsInterpreted(words: seq<Word>, op: Opcode) {
    op.Call? && op.target.Some? && op.target.value < |words| && words[op.target.value].Interpreted?
  }

  lemma CountedCall(words: seq<Word>, T: seq<Info>, op: Opcode, d: int)
    requires |T| == |words| && CallsInterpreted(words, op)
    ensures DataPoint(words, T, op, d) == d + T[op.target.value].maxDataStack
  {
  }

  lemma ReadyTarget(words: seq<Word>, T: seq<Info>, code: seq<Opcode>, c: Cert, k: nat)
    requires CertOk(words, T, code, c) && k < |code| && c.sa[k].Some?
    ensures |c.sa| == |code| && (code[k].Call? ==> code[k].target.Some? && code[k].target.value < |words|)
  {
    hide Tight, Reachable, LowPoint, DataPoint, CalleeReturns;
    CertAt(words, T, code, c, k);
  }

  lemma StartClimbs(words: seq<Word>, declared: seq<SType>, T: seq<Info>, w: nat)
    requires TableOk(words, declared, T) && w < |words| && words[w].Interpreted? && T[w].flow == 1
    ensures Climbs(words, T, w, 0, 0)
  {
    hide OpcodeOk, Tight, Reachable;
    assert InfoOk(words, declared, T, w);
    var c :| AnalysedWith(words, declared, T, w, c);
    var start: seq<nat> := [0];
    assert IsRun(T, words[w].code, start) && Net(T, words[w].code, start) == 0;
  }

  /** And no depth that can be reached is larger, when what undercounted words leave is covered. */
  lemma {:induction false} ClimbsCovered(words: seq<Word>, declared: seq<SType>, T: seq<Info>, w: nat, h: int, n: nat)
    requires TableOk(words, declared, T) && w < |words| && words[w].Interpreted? && T[w].flow == 1
    requires AllCounted(words, declared, T) && Climbs(words, T, w, h, n)
    ensures h <= T[w].maxDataStack
    decreases n
  {
    hide CertOk, Edge, Net, PushesCounted;
    if n == 0 {
      var path :| IsRun(T, words[w].code, path) && Net(T, words[w].code, path) == h;
      assert InfoOk(words, declared, T, w);
      var c :| AnalysedWith(words, declared, T, w, c);
      RunDepth(words, T, words[w].code, c, path);
      CountedExactly(words, declared, T, w);
    } else {
      var u, d :| CallsAt(words, T, w, u, d) && Climbs(words, T, u, h - d, n - 1);
      CallsKnown(words, T, w, u, d);
      CallReached(words, declared, T, w, u, d);
      ClimbsCovered(words, declared, T, u, h - d, n - 1);
    }
  }
}
