/** What flow analysis computes, said of runs through the opcodes of a word: when there is an outcome, that its effect
    is the least one that suffices, and that its bounds are attained (WordInterpreted.cs, lines 142-268). */
module Principal {
  import opened Base
  import opened Machine
  import opened Effects
  import opened Flow
  import opened FlowSound

  // ----- opcodes, against the machine -----

  /** The stack elements that an opcode needs. */
  function Needs(T: seq<Info>, op: Opcode): int {
    match op
    case PutLocal(_) => 1
    case Jump(cond, _) => if cond == Always then 0 else 1
    case Call(_) => CalleeEffect(T, op).din
    case _ => 0
  }

  /** An opcode other than a call or a return fails exactly on fewer elements than it needs. */
  lemma NeedsExactly(words: seq<Word>, natives: Natives, T: seq<Info>, s: State, op: Opcode)
    requires s.ip.Some? && s.frames != [] && !op.Call? && !op.Ret?
    requires op.GetLocal? || op.PutLocal? ==> op.num < |s.frames[|s.frames| - 1].locals|
    ensures Execute(words, natives, s, op).None? <==> |s.stack| < Needs(T, op)
  {
  }

  /** The machine goes from opcode k to opcode j in one step, with n elements more on the stack. */
  predicate StepsTo(words: seq<Word>, natives: Natives, s: State, w: nat, k: nat, j: nat, n: int) {
    && s.ip == Some(Ip(w, k)) && Step(words, natives, s).Some?
    && Step(words, natives, s).value.ip == Some(Ip(w, j))
    && |Step(words, natives, s).value.stack| == |s.stack| + n
  }

  ghost predicate CanStep(words: seq<Word>, natives: Natives, w: nat, k: nat, j: nat, n: int) {
    exists s :: StepsTo(words, natives, s, w, k, j, n)
  }

  /** One opcode, other than a call or a return, can be followed by another exactly when some step of the machine leads
      from the one to the other; and such a step changes the depth as the analysis says. */
  lemma EdgeExactly(words: seq<Word>, natives: Natives, T: seq<Info>, w: nat, k: nat, j: nat, n: int)
    requires w < |words| && words[w].Interpreted? && k < |words[w].code|
    requires WellFormedAt(words[w].numLocals, words[w].code, k)
    requires !words[w].code[k].Call? && !words[w].code[k].Ret?
    ensures CanStep(words, natives, w, k, j, n) <==> Edge(T, words[w].code, k, j) && n == Delta(T, words[w].code[k])
  {
    var op := words[w].code[k];
    if Edge(T, words[w].code, k, j) && n == Delta(T, op) {
      var top := if op.Jump? && op.cond == IfTrue && j == k + 1 + op.JumpDisp() then 1
                 else if op.Jump? && op.cond == IfFalse && j != k + 1 + op.JumpDisp() then 1 else 0;
      var s := State([top], [Frame(None, seq(words[w].numLocals, _ => None))], Some(Ip(w, k)));
      assert StepsTo(words, natives, s, w, k, j, n);
    }
  }

  /** A call is followed by the next opcode exactly when the effect of the callee has an exit. */
  lemma CallEdge(words: seq<Word>, T: seq<Info>, code: seq<Opcode>, k: nat, j: nat)
    requires |T| == |words| && k < |code| && code[k].Call? && CallReady(words, T, code[k])
    ensures var e := T[code[k].target.value].effect;
            && (Edge(T, code, k, j) <==> j == k + 1 && e.dout >= 0)
            && (e.dout >= 0 ==> Delta(T, code[k]) == e.dout - e.din)
  {
  }

  // ----- runs through a word -----

  /** A way through the opcodes, from the first one. */
  ghost predicate IsRun(T: seq<Info>, code: seq<Opcode>, path: seq<nat>) {
    Path(T, code, path) && path != [] && path[0] == 0
  }

  function Last(path: seq<nat>): nat
    requires path != []
  {
    path[|path| - 1]
  }

  lemma RunTo(words: seq<Word>, T: seq<Info>, code: seq<Opcode>, c: Cert, k: nat) returns (path: seq<nat>)
    requires CertOk(words, T, code, c) && k < |code| && c.sa[k].Some?
    ensures IsRun(T, code, path) && Last(path) == k && c.sa[k] == Some(Net(T, code, path))
  {
    hide OpcodeOk, Tight, Net;
    assert Reachable(T, code, k);
    path :| Path(T, code, path) && path != [] && path[0] == 0 && path[|path| - 1] == k;
    DepthIsNet(words, T, code, c, path);
  }

  lemma RunDepth(words: seq<Word>, T: seq<Info>, code: seq<Opcode>, c: Cert, path: seq<nat>)
    requires CertOk(words, T, code, c) && IsRun(T, code, path)
    ensures Last(path) < |code| == |c.sa| && c.sa[Last(path)] == Some(Net(T, code, path))
    ensures OpcodeOk(words, T, code, c, Last(path))
  {
    hide Delta, Falls, LowPoint, DataPoint, CallReady, CalleeReturns, Tight, Reachable;
    DepthIsNet(words, T, code, c, path);
  }

  lemma RunFurther(T: seq<Info>, code: seq<Opcode>, path: seq<nat>, j: nat)
    requires IsRun(T, code, path) && j < |code| && Edge(T, code, Last(path), j)
    ensures IsRun(T, code, path + [j]) && Net(T, code, path + [j]) == Net(T, code, path) + Delta(T, code[Last(path)])
  {
    hide Edge, Delta;
    var longer := path + [j];
    forall i | 0 <= i < |longer| - 1 ensures Edge(T, code, longer[i], longer[i + 1]) {
      assert i < |path| - 1 ==> Edge(T, code, path[i], path[i + 1]);
    }
    assert longer[..|path|] == path;
  }

  // ----- the effect is the least one -----

  /** On a stack with the elements that effect t takes, no opcode of a run misses an element, and every return leaves as
      many as t says. */
  ghost predicate Suffices(T: seq<Info>, code: seq<Opcode>, t: SType) {
    t.IsKnown() && forall path | IsRun(T, code, path) :: SufficesFor(T, code, t, path)
  }

  ghost predicate SufficesFor(T: seq<Info>, code: seq<Opcode>, t: SType, path: seq<nat>)
    requires IsRun(T, code, path)
  {
    var d := Net(T, code, path);
    && t.din + d >= Needs(T, code[Last(path)])
    && (code[Last(path)].Ret? ==> t.dout >= 0 && d == t.dout - t.din)
  }

  /** The low point of an opcode against what it needs. */
  lemma LowPointNeeds(words: seq<Word>, T: seq<Info>, op: Opcode, d: int)
    requires |T| == |words| && CallReady(words, T, op)
    ensures LowPoint(T, op, d) >= d - Needs(T, op)
    ensures LowPoint(T, op, d) == d - Needs(T, op) || (LowPoint(T, op, d) == d + 1 && Needs(T, op) == 0)
  {
  }

  /** No annotation is below the lowest depth. */
  lemma {:induction false} DepthsAbove(words: seq<Word>, T: seq<Info>, code: seq<Opcode>, c: Cert, path: seq<nat>,
                                       i: nat)
    requires CertOk(words, T, code, c) && IsRun(T, code, path) && i < |path|
    ensures c.sa[path[i]].Some? && c.sa[path[i]].value >= c.maxDepth
    decreases i
  {
    hide Tight, Reachable, DataPoint, CallReady, CalleeReturns;
    if i > 0 {
      DepthsAbove(words, T, code, c, path, i - 1);
      assert Edge(T, code, path[i - 1], path[i - 1 + 1]);
      assert OpcodeOk(words, T, code, c, path[i - 1]);
    }
  }

  /** The lowest depth is what some opcode needs at the end of a run, and none needs more. */
  lemma LowestIsNeeded(words: seq<Word>, T: seq<Info>, code: seq<Opcode>, c: Cert)
    requires CertOk(words, T, code, c)
    ensures forall path | IsRun(T, code, path) :: Net(T, code, path) - Needs(T, code[Last(path)]) >= c.maxDepth
    ensures c.maxDepth < 0 ==>
              exists path :: IsRun(T, code, path) && Net(T, code, path) - Needs(T, code[Last(path)]) == c.maxDepth
  {
    hide Net, Needs, LowPoint, Reachable, DataPoint, CallReady, CalleeReturns;
    forall path | IsRun(T, code, path) ensures Net(T, code, path) - Needs(T, code[Last(path)]) >= c.maxDepth {
      RunDepth(words, T, code, c, path);
      DepthsAbove(words, T, code, c, path, |path| - 1);
      LowPointNeeds(words, T, code[Last(path)], Net(T, code, path));
    }
    if c.maxDepth < 0 {
      var k :| 0 <= k < |code| && c.sa[k].Some? && LowPoint(T, code[k], c.sa[k].value) == c.maxDepth;
      var path := RunTo(words, T, code, c, k);
      RunDepth(words, T, code, c, path);
      DepthsAbove(words, T, code, c, path, |path| - 1);
      LowPointNeeds(words, T, code[k], c.sa[k].value);
    }
  }

  /** The computed effect is the least effect that suffices: others suffice exactly when they are larger. */
  lemma ComputedIsLeast(words: seq<Word>, T: seq<Info>, code: seq<Opcode>, c: Cert, t: SType)
    requires CertOk(words, T, code, c)
    ensures Suffices(T, code, t) <==> Computed(c).IsSubOf(t)
  {
    hide Net, Needs, LowPoint, Reachable, DataPoint, CallReady, CalleeReturns;
    LowestIsNeeded(words, T, code, c);
    ExitOfRuns(words, T, code, c);
    if Computed(c).IsSubOf(t) {
      forall path | IsRun(T, code, path) ensures SufficesFor(T, code, t, path) {
      }
    }
    if Suffices(T, code, t) {
      var start: seq<nat> := [0];
      if c.maxDepth < 0 {
        var path :| IsRun(T, code, path) && Net(T, code, path) - Needs(T, code[Last(path)]) == c.maxDepth;
        assert SufficesFor(T, code, t, path);
      }
      if c.exit.Some? {
        var path :| IsRun(T, code, path) && code[Last(path)].Ret? && Net(T, code, path) == c.exit.value;
        assert SufficesFor(T, code, t, path);
      }
    }
  }

  /** The exit depth is that of the runs that end with a return. */
  lemma ExitOfRuns(words: seq<Word>, T: seq<Info>, code: seq<Opcode>, c: Cert)
    requires CertOk(words, T, code, c)
    ensures forall path | IsRun(T, code, path) && code[Last(path)].Ret? :: c.exit == Some(Net(T, code, path))
    ensures c.exit.Some? ==>
              c.exit.value >= c.maxDepth
              && exists path :: IsRun(T, code, path) && code[Last(path)].Ret? && Net(T, code, path) == c.exit.value
  {
    hide Net, LowPoint, Reachable, DataPoint, CallReady, CalleeReturns;
    forall path | IsRun(T, code, path) && code[Last(path)].Ret? ensures c.exit == Some(Net(T, code, path)) {
      RunDepth(words, T, code, c, path);
    }
    if c.exit.Some? {
      var k :| 0 <= k < |code| && c.sa[k].Some? && code[k].Ret?;
      var path := RunTo(words, T, code, c, k);
      RunDepth(words, T, code, c, path);
      DepthsAbove(words, T, code, c, path, |path| - 1);
    }
  }

  // ----- when there is an outcome -----

  /** Execution does not leave the word after opcode k other than by a return. */
  predicate Stays(T: seq<Info>, code: seq<Opcode>, k: nat)
    requires k < |code|
  {
    && (code[k].JumpDisp() != 0 ==> 0 <= k + 1 + code[k].JumpDisp() < |code|)
    && (Falls(T, code[k]) ==> k + 1 < |code|)
  }

  /** The runs end at the same opcode, or both with a return. */
  predicate SameEnd(code: seq<Opcode>, p: seq<nat>, q: seq<nat>)
    requires p != [] && q != [] && Last(p) < |code| && Last(q) < |code|
  {
    Last(p) == Last(q) || (code[Last(p)].Ret? && code[Last(q)].Ret?)
  }

  /** Every run stays in the word and calls words of known effect; and runs to the same opcode, or to returns, change
      the depth by the same amount. */
  ghost predicate Coherent(words: seq<Word>, T: seq<Info>, code: seq<Opcode>)
    requires |T| == |words|
  {
    && code != []
    && (forall path | IsRun(T, code, path) :: CallReady(words, T, code[Last(path)]) && Stays(T, code, Last(path)))
    && (forall p, q | IsRun(T, code, p) && IsRun(T, code, q) && SameEnd(code, p, q) ::
        Net(T, code, p) == Net(T, code, q))
  }

  lemma OutcomeCoherent(words: seq<Word>, T: seq<Info>, code: seq<Opcode>, c: Cert)
    requires CertOk(words, T, code, c)
    ensures |T| == |words| && Coherent(words, T, code)
  {
    hide Net, Delta, Falls, LowPoint, DataPoint, CallReady, CalleeReturns, Tight, Reachable;
    forall path | IsRun(T, code, path) ensures CallReady(words, T, code[Last(path)]) && Stays(T, code, Last(path)) {
      RunDepth(words, T, code, c, path);
    }
    forall p, q | IsRun(T, code, p) && IsRun(T, code, q) && SameEnd(code, p, q)
      ensures Net(T, code, p) == Net(T, code, q)
    {
      RunDepth(words, T, code, c, p);
      RunDepth(words, T, code, c, q);
    }
  }

  // ----- the annotations of a coherent word -----

  /** The depth of the runs to opcode k. */
  ghost function DepthOf(T: seq<Info>, code: seq<Opcode>, k: nat): Option<int> {
    if path :| IsRun(T, code, path) && Last(path) == k then Some(Net(T, code, path)) else None
  }

  ghost function ExitOf(T: seq<Info>, code: seq<Opcode>): Option<int> {
    if path :| IsRun(T, code, path) && code[Last(path)].Ret? then Some(Net(T, code, path)) else None
  }

  /** The least of some numbers and 0, and the greatest. */
  function Least(vs: seq<int>): int {
    if vs == [] then 0 else Min(vs[|vs| - 1], Least(vs[..|vs| - 1]))
  }

  function Greatest(vs: seq<int>): int {
    if vs == [] then 0 else Max(vs[|vs| - 1], Greatest(vs[..|vs| - 1]))
  }

  lemma {:induction false} Bounds(vs: seq<int>)
    ensures Least(vs) <= 0 <= Greatest(vs) && forall k | 0 <= k < |vs| :: Least(vs) <= vs[k] <= Greatest(vs)
    ensures Least(vs) < 0 ==> exists k :: 0 <= k < |vs| && vs[k] == Least(vs)
    ensures Greatest(vs) > 0 ==> exists k :: 0 <= k < |vs| && vs[k] == Greatest(vs)
    decreases |vs|
  {
    if vs != [] {
      var n := |vs| - 1;
      Bounds(vs[..n]);
      assert forall k | 0 <= k < n :: vs[..n][k] == vs[k];
    }
  }

  /** The annotations of a word, with the tightest bounds. */
  ghost function Annotations(words: seq<Word>, T: seq<Info>, code: seq<Opcode>): (c: Cert)
    requires |T| == |words|
    ensures |c.sa| == |code| && forall k | 0 <= k < |code| :: c.sa[k] == DepthOf(T, code, k)
  {
    var sa := seq(|code|, k requires 0 <= k < |code| => DepthOf(T, code, k));
    Bounds(Returned(words, T, code, sa));
    Bounds(Counted(words, T, code, sa));
    Cert(sa, ExitOf(T, code), Least(Lows(T, code, sa)), Greatest(Returned(words, T, code, sa)),
         Greatest(Counted(words, T, code, sa)))
  }

  function Lows(T: seq<Info>, code: seq<Opcode>, sa: seq<Option<int>>): seq<int>
    requires |sa| == |code|
  {
    seq(|code|, k requires 0 <= k < |code| => if sa[k].Some? then LowPoint(T, code[k], sa[k].value) else 0)
  }

  function Returned(words: seq<Word>, T: seq<Info>, code: seq<Opcode>, sa: seq<Option<int>>): seq<int>
    requires |sa| == |code| && |T| == |words|
  {
    seq(|code|, k requires 0 <= k < |code| => if sa[k].Some? then CalleeReturns(words, T, code[k]) else 0)
  }

  function Counted(words: seq<Word>, T: seq<Info>, code: seq<Opcode>, sa: seq<Option<int>>): seq<int>
    requires |sa| == |code| && |T| == |words|
  {
    seq(|code|, k requires 0 <= k < |code| => if sa[k].Some? then DataPoint(words, T, code[k], sa[k].value) else 0)
  }

  lemma DepthOfRun(words: seq<Word>, T: seq<Info>, code: seq<Opcode>, path: seq<nat>)
    requires |T| == |words| && Coherent(words, T, code) && IsRun(T, code, path)
    ensures DepthOf(T, code, Last(path)) == Some(Net(T, code, path))
    ensures code[Last(path)].Ret? ==> ExitOf(T, code) == Some(Net(T, code, path))
  {
    hide Net, Stays, CallReady, Edge;
    var p: seq<nat> :| IsRun(T, code, p) && Last(p) == Last(path)
      && DepthOf(T, code, Last(path)) == Some(Net(T, code, p));
    assert SameEnd(code, p, path);
    if code[Last(path)].Ret? {
      var q: seq<nat> :| IsRun(T, code, q) && code[Last(q)].Ret? && ExitOf(T, code) == Some(Net(T, code, q));
      assert SameEnd(code, q, path);
    }
  }

  /** Opcodes agree with their successors. */
  lemma AnnotatedOk(words: seq<Word>, T: seq<Info>, code: seq<Opcode>, k: nat)
    requires |T| == |words| && Coherent(words, T, code) && k < |code|
    ensures OpcodeOk(words, T, code, Annotations(words, T, code), k)
  {
    hide Annotations, Coherent, DepthOf, CallReady, LowPoint, CalleeReturns, DataPoint, Delta, Falls;
    if Annotations(words, T, code).sa[k].Some? {
      AnnotatedBounds(words, T, code, k);
      AnnotatedNext(words, T, code, k);
    }
  }

  lemma AnnotatedBounds(words: seq<Word>, T: seq<Info>, code: seq<Opcode>, k: nat)
    requires |T| == |words| && k < |code| && Annotations(words, T, code).sa[k].Some?
    ensures var c := Annotations(words, T, code); var d := c.sa[k].value;
            && c.maxDepth <= LowPoint(T, code[k], d) && CalleeReturns(words, T, code[k]) <= c.callees
            && DataPoint(words, T, code[k], d) <= c.extra
  {
    hide LowPoint, CalleeReturns, DataPoint, DepthOf;
    var c := Annotations(words, T, code);
    Bounds(Lows(T, code, c.sa));
    Bounds(Returned(words, T, code, c.sa));
    Bounds(Counted(words, T, code, c.sa));
    assert Lows(T, code, c.sa)[k] == LowPoint(T, code[k], c.sa[k].value);
    assert Returned(words, T, code, c.sa)[k] == CalleeReturns(words, T, code[k]);
    assert Counted(words, T, code, c.sa)[k] == DataPoint(words, T, code[k], c.sa[k].value);
  }

  lemma AnnotatedNext(words: seq<Word>, T: seq<Info>, code: seq<Opcode>, k: nat)
    requires |T| == |words| && Coherent(words, T, code) && k < |code| && DepthOf(T, code, k).Some?
    ensures var c := Annotations(words, T, code); var d := DepthOf(T, code, k).value; var op := code[k];
            && CallReady(words, T, op) && (op.Ret? ==> c.exit == Some(d))
            && (op.JumpDisp() != 0 ==> DepthAt(c.sa, k + 1 + op.JumpDisp(), d + Delta(T, op)))
            && (Falls(T, op) ==> DepthAt(c.sa, k + 1, d + Delta(T, op)))
  {
    hide Net, CallReady, Delta, Falls, Path, Coherent, Stays, ExitOf;
    var path: seq<nat> :| IsRun(T, code, path) && Last(path) == k;
    DepthOfRun(words, T, code, path);
    RunStays(words, T, code, path);
    NextAnnotated(words, T, code, path);
  }

  lemma RunStays(words: seq<Word>, T: seq<Info>, code: seq<Opcode>, path: seq<nat>)
    requires |T| == |words| && Coherent(words, T, code) && IsRun(T, code, path)
    ensures Last(path) < |code| && CallReady(words, T, code[Last(path)]) && Stays(T, code, Last(path))
  {
    hide Net, Stays, CallReady;
  }

  lemma NextAnnotated(words: seq<Word>, T: seq<Info>, code: seq<Opcode>, path: seq<nat>)
    requires |T| == |words| && Coherent(words, T, code) && IsRun(T, code, path)
    requires Last(path) < |code| && Stays(T, code, Last(path))
    ensures var k := Last(path); var sa := Annotations(words, T, code).sa; var d := Net(T, code, path);
            && (code[k].JumpDisp() != 0 ==> DepthAt(sa, k + 1 + code[k].JumpDisp(), d + Delta(T, code[k])))
            && (Falls(T, code[k]) ==> DepthAt(sa, k + 1, d + Delta(T, code[k])))
  {
    hide Net, Delta, Falls, Path, Coherent, DepthOf;
    var k := Last(path);
    if code[k].JumpDisp() != 0 {
      NextRun(words, T, code, path, k + 1 + code[k].JumpDisp());
    }
    if Falls(T, code[k]) {
      NextRun(words, T, code, path, k + 1);
    }
  }

  lemma NextRun(words: seq<Word>, T: seq<Info>, code: seq<Opcode>, path: seq<nat>, j: nat)
    requires |T| == |words| && Coherent(words, T, code) && IsRun(T, code, path) && j < |code|
    requires Last(path) < |code| && Edge(T, code, Last(path), j)
    ensures DepthOf(T, code, j) == Some(Net(T, code, path) + Delta(T, code[Last(path)]))
  {
    hide Coherent, Net, Delta, Edge;
    RunFurther(T, code, path, j);
    DepthOfRun(words, T, code, path + [j]);
  }

  lemma AnnotatedTight(words: seq<Word>, T: seq<Info>, code: seq<Opcode>)
    requires |T| == |words| && Coherent(words, T, code)
    ensures Tight(words, T, code, Annotations(words, T, code)) && Annotations(words, T, code).maxDepth <= 0
  {
    hide LowPoint, CalleeReturns, DataPoint, DepthOf, Coherent, ExitOf;
    var c := Annotations(words, T, code);
    Bounds(Lows(T, code, c.sa));
    Bounds(Returned(words, T, code, c.sa));
    Bounds(Counted(words, T, code, c.sa));
    if c.exit.Some? {
      ExitAnnotated(words, T, code);
    }
  }

  lemma ExitAnnotated(words: seq<Word>, T: seq<Info>, code: seq<Opcode>)
    requires |T| == |words| && Coherent(words, T, code) && ExitOf(T, code).Some?
    ensures exists k :: 0 <= k < |code| && Annotations(words, T, code).sa[k].Some? && code[k].Ret?
  {
    hide Net, Stays, CallReady, Edge;
    var path: seq<nat> :| IsRun(T, code, path) && code[Last(path)].Ret?;
    DepthOfRun(words, T, code, path);
    assert Annotations(words, T, code).sa[Last(path)].Some?;
  }

  lemma CoherentOutcome(words: seq<Word>, T: seq<Info>, code: seq<Opcode>)
    requires |T| == |words| && Coherent(words, T, code)
    ensures CertOk(words, T, code, Annotations(words, T, code))
  {
    hide OpcodeOk, Tight, Net;
    var c := Annotations(words, T, code);
    var start: seq<nat> := [0];
    assert IsRun(T, code, start);
    DepthOfRun(words, T, code, start);
    assert Net(T, code, start) == 0 by {
      NetOfStart(T, code, start);
    }
    forall k | 0 <= k < |code| ensures OpcodeOk(words, T, code, c, k) {
      AnnotatedOk(words, T, code, k);
    }
    forall k | 0 <= k < |code| && c.sa[k].Some? ensures Reachable(T, code, k) {
      var path: seq<nat> :| IsRun(T, code, path) && Last(path) == k;
    }
    AnnotatedTight(words, T, code);
  }

  lemma NetOfStart(T: seq<Info>, code: seq<Opcode>, start: seq<nat>)
    requires |start| == 1 && start[0] < |code|
    ensures Net(T, code, start) == 0
  {
  }

  /** A word has an outcome exactly when its runs are coherent and its declared effect, if it has one, suffices for
      them. */
  lemma OutcomeExactly(words: seq<Word>, declared: seq<SType>, T: seq<Info>, w: nat)
    requires |T| == |words| == |declared| && w < |words| && words[w].Interpreted?
    ensures (exists c ::
            CertOk(words, T, words[w].code, c) && (declared[w].IsKnown() ==> Computed(c).IsSubOf(declared[w]))) <==>
            Coherent(words, T, words[w].code) && (declared[w].IsKnown() ==> Suffices(T, words[w].code, declared[w]))
  {
    hide CertOk, Computed, Coherent, Suffices;
    var code := words[w].code;
    forall c | CertOk(words, T, code, c)
      ensures Coherent(words, T, code) && (Suffices(T, code, declared[w]) <==> Computed(c).IsSubOf(declared[w]))
    {
      OutcomeCoherent(words, T, code, c);
      ComputedIsLeast(words, T, code, c, declared[w]);
    }
    if Coherent(words, T, code) {
      CoherentOutcome(words, T, code);
    }
  }

  /** The effect of an analysed word is the declared one, or else the least one that suffices. */
  lemma EffectOfWord(words: seq<Word>, declared: seq<SType>, T: seq<Info>, w: nat, t: SType)
    requires TableOk(words, declared, T) && w < |words| && words[w].Interpreted? && T[w].flow == 1
    ensures declared[w].IsKnown() ==> T[w].effect == declared[w] && Suffices(T, words[w].code, declared[w])
    ensures !declared[w].IsKnown() ==> (Suffices(T, words[w].code, t) <==> T[w].effect.IsSubOf(t))
  {
    hide CertOk, Suffices;
    assert InfoOk(words, declared, T, w);
    var c :| AnalysedWith(words, declared, T, w, c);
    ComputedIsLeast(words, T, words[w].code, c, t);
    ComputedIsLeast(words, T, words[w].code, c, declared[w]);
  }
}
