/** Flow analysis of interpreted words (WordInterpreted.cs, lines 123-283). Depths are mathematical integers. */
module Flow {
  import opened Base
  import opened Machine
  import opened Effects

  /** The analysis fields of a word: flow is 0 before, 2 during and 1 after the analysis. */
  datatype Info = Info(flow: int, effect: SType, maxReturnStack: nat, maxDataStack: int)

  // ----- what the analysis looks at, opcode by opcode -----

  /** A call is usable when the callee has a known effect and, if interpreted, has been analysed. */
  predicate CallReady(words: seq<Word>, T: seq<Info>, op: Opcode)
    requires |T| == |words|
  {
    op.Call? ==>
      op.target.Some? && op.target.value < |words| &&
      T[op.target.value].effect.IsKnown() && (words[op.target.value].Interpreted? ==> T[op.target.value].flow == 1)
  }

  function CalleeEffect(T: seq<Info>, op: Opcode): SType {
    if op.Call? && op.target.Some? && op.target.value < |T| then T[op.target.value].effect else UNKNOWN
  }

  /** Return stack usage of a callee; native words use none. */
  function CalleeReturns(words: seq<Word>, T: seq<Info>, op: Opcode): nat
    requires |T| == |words|
  {
    if op.Call? && op.target.Some? && op.target.value < |words| && words[op.target.value].Interpreted?
    then T[op.target.value].maxReturnStack else 0
  }

  /** The change of depth. */
  function Delta(T: seq<Info>, op: Opcode): int {
    if op.Call? then (var se := CalleeEffect(T, op); if se.NoExit() then 0 else se.dout - se.din)
    else op.StackAction()
  }

  predicate Falls(T: seq<Info>, op: Opcode) {
    op.MayFallThrough() && !CalleeEffect(T, op).NoExit()
  }

  /** The least depth that the opcode reaches from depth c. */
  function LowPoint(T: seq<Info>, op: Opcode, c: int): int {
    var after := c + Delta(T, op);
    if op.Call? then Min(c - CalleeEffect(T, op).din, after) else after
  }

  /** The data stack usage of a native word: `MaxDataStack` of Word.cs, where a minimum is taken. */
  function NativeData(e: SType): int {
    if !e.IsKnown() then -1 else if e.NoExit() then 0 else Min(0, e.dout - e.din)
  }

  function CalleeData(words: seq<Word>, T: seq<Info>, op: Opcode): int
    requires |T| == |words|
  {
    if op.Call? && op.target.Some? && op.target.value < |words| then
      if words[op.target.value].Interpreted? then T[op.target.value].maxDataStack
         else NativeData(T[op.target.value].effect)
    else 0
  }

  /** The depth that is counted for an opcode at depth c. */
  function DataPoint(words: seq<Word>, T: seq<Info>, op: Opcode, c: int): int
    requires |T| == |words|
  {
    if op.Call? then c + CalleeData(words, T, op) else if op.Ret? then 0 else c + op.StackAction()
  }

  // ----- what a finished analysis of a word guarantees -----

  /** The annotation of each opcode with a depth; exit is the depth of the returns; the others are bounds: the lowest
      depth, the return stack usage of callees, and the highest depth that is counted. */
  datatype Cert = Cert(sa: seq<Option<int>>, exit: Option<int>, maxDepth: int, callees: nat, extra: nat)

  predicate DepthAt(sa: seq<Option<int>>, k: int, c: int) {
    0 <= k < |sa| && sa[k] == Some(c)
  }

  /** The annotation of opcode k agrees with those of its successors, with the exit depth and with the bounds. */
  predicate OpcodeOk(words: seq<Word>, T: seq<Info>, code: seq<Opcode>, c: Cert, k: nat)
    requires |T| == |words| && k < |code| == |c.sa|
  {
    c.sa[k].Some? ==>
      var op, d := code[k], c.sa[k].value;
      && CallReady(words, T, op)
      && c.maxDepth <= LowPoint(T, op, d)
      && CalleeReturns(words, T, op) <= c.callees && DataPoint(words, T, op, d) <= c.extra
      && (op.Ret? ==> c.exit == Some(d))
      && (op.JumpDisp() != 0 ==> DepthAt(c.sa, k + 1 + op.JumpDisp(), d + Delta(T, op)))
      && (Falls(T, op) ==> DepthAt(c.sa, k + 1, d + Delta(T, op)))
  }

  /** Opcode k can be followed by opcode j. */
  predicate Edge(T: seq<Info>, code: seq<Opcode>, k: nat, j: nat)
    requires k < |code|
  {
    (code[k].JumpDisp() != 0 && j == k + 1 + code[k].JumpDisp()) || (Falls(T, code[k]) && j == k + 1)
  }

  /** A sequence of opcodes, each followed by the next. */
  ghost predicate Path(T: seq<Info>, code: seq<Opcode>, path: seq<nat>) {
    && (forall i | 0 <= i < |path| :: path[i] < |code|)
    && (forall i | 0 <= i < |path| - 1 :: Edge(T, code, path[i], path[i + 1]))
  }

  ghost predicate Reachable(T: seq<Info>, code: seq<Opcode>, k: nat) {
    exists path: seq<nat> :: Path(T, code, path) && path != [] && path[0] == 0 && path[|path| - 1] == k
  }

  /** The bounds are attained. */
  ghost predicate Tight(words: seq<Word>, T: seq<Info>, code: seq<Opcode>, c: Cert)
    requires |T| == |words| && |code| == |c.sa|
  {
    && (c.maxDepth == 0 || exists k ::
        0 <= k < |code| && c.sa[k].Some? && LowPoint(T, code[k], c.sa[k].value) == c.maxDepth)
    && (c.callees == 0 || exists k :: 0 <= k < |code| && c.sa[k].Some? && CalleeReturns(words, T, code[k]) == c.callees)
    && (c.extra == 0 || exists k ::
        0 <= k < |code| && c.sa[k].Some? && DataPoint(words, T, code[k], c.sa[k].value) == c.extra)
    && (c.exit.None? || exists k :: 0 <= k < |code| && c.sa[k].Some? && code[k].Ret?)
  }

  /** The annotations of a word. */
  ghost predicate CertOk(words: seq<Word>, T: seq<Info>, code: seq<Opcode>, c: Cert) {
    && |T| == |words| && |c.sa| == |code| && code != []
    && c.sa[0] == Some(0) && c.maxDepth <= 0
    && (forall k | 0 <= k < |code| :: OpcodeOk(words, T, code, c, k))
    && (forall k | 0 <= k < |code| :: c.sa[k].Some? ==> Reachable(T, code, k))
    && Tight(words, T, code, c)
  }

  function Computed(c: Cert): SType {
    MakeSType(-c.maxDepth, if c.exit.None? then -1 else c.exit.value - c.maxDepth)
  }

  /** Word w has been analysed, with annotations c. */
  ghost predicate AnalysedWith(words: seq<Word>, declared: seq<SType>, T: seq<Info>, w: nat, c: Cert)
    requires w < |words| == |declared| == |T| && words[w].Interpreted?
  {
    && CertOk(words, T, words[w].code, c)
    && T[w].maxReturnStack == 1 + words[w].numLocals + c.callees && T[w].maxDataStack == c.extra
    && (if declared[w].IsKnown() then T[w].effect == declared[w] && Computed(c).IsSubOf(declared[w])
        else T[w].effect == Computed(c))
  }

  ghost predicate Analysed(words: seq<Word>, declared: seq<SType>, T: seq<Info>, w: nat)
    requires w < |words| == |declared| == |T| && words[w].Interpreted?
  {
    exists c :: AnalysedWith(words, declared, T, w, c)
  }

  /** The table at any time: analysed words are correct, others keep their declared effect. */
  ghost predicate TableOk(words: seq<Word>, declared: seq<SType>, T: seq<Info>) {
    && |T| == |declared| == |words|
    && forall w | 0 <= w < |words| :: InfoOk(words, declared, T, w)
  }

  ghost predicate InfoOk(words: seq<Word>, declared: seq<SType>, T: seq<Info>, w: nat)
    requires w < |words| == |declared| == |T|
  {
    if words[w].Interpreted? && T[w].flow == 1 then Analysed(words, declared, T, w)
    else T[w].effect == declared[w]
  }

  /** From T to U, native words and analysed words are unchanged. */
  ghost predicate Stable(words: seq<Word>, T: seq<Info>, U: seq<Info>) {
    && |T| == |U| == |words|
    && forall w | 0 <= w < |T| :: T[w] != U[w] ==> words[w].Interpreted? && T[w].flow != 1
  }

  /** From T to U, only words that were not yet started have changed, and only to be analysed. */
  ghost predicate Progressed(words: seq<Word>, T: seq<Info>, U: seq<Info>) {
    && |T| == |U| == |words|
    && forall w | 0 <= w < |T| :: T[w] != U[w] ==> words[w].Interpreted? && T[w].flow == 0 && U[w].flow == 1
  }

  /** A table before any analysis. */
  ghost predicate Initial(declared: seq<SType>, T: seq<Info>) {
    |T| == |declared| && forall w | 0 <= w < |T| :: T[w].flow == 0 && T[w].effect == declared[w]
  }

  // ----- facts about analysed words stay true -----

  lemma ReadyKept(words: seq<Word>, T: seq<Info>, U: seq<Info>, op: Opcode)
    requires Stable(words, T, U) && CallReady(words, T, op)
    ensures CallReady(words, U, op)
    ensures CalleeEffect(U, op) == CalleeEffect(T, op) && CalleeReturns(words, U, op) == CalleeReturns(words, T, op)
    ensures Delta(U, op) == Delta(T, op) && Falls(U, op) == Falls(T, op)
    ensures forall c ::
            LowPoint(U, op, c) == LowPoint(T, op, c) && DataPoint(words, U, op, c) == DataPoint(words, T, op, c)
  {
  }

  /** An opcode that agrees keeps agreeing when more opcodes are annotated, bounds are relaxed and words are
      analysed. */
  lemma OpcodeKept(words: seq<Word>, T: seq<Info>, U: seq<Info>, code: seq<Opcode>, c: Cert, d: Cert, k: nat)
    requires Stable(words, T, U) && k < |code| == |c.sa| == |d.sa|
    requires OpcodeOk(words, T, code, c, k) && c.sa[k].Some?
    requires forall i | 0 <= i < |code| :: c.sa[i].Some? ==> d.sa[i] == c.sa[i]
    requires d.maxDepth <= c.maxDepth && c.callees <= d.callees && c.extra <= d.extra
    requires (c.exit.Some? ==> d.exit == c.exit)
    ensures OpcodeOk(words, U, code, d, k)
  {
    ReadyKept(words, T, U, code[k]);
  }

  /** On a path from the start, every opcode is annotated. */
  lemma {:induction false} PathAnnotated(words: seq<Word>, T: seq<Info>, code: seq<Opcode>, c: Cert, path: seq<nat>,
                                         i: nat)
    requires |T| == |words| && |c.sa| == |code| && (forall k | 0 <= k < |code| :: OpcodeOk(words, T, code, c, k))
    requires Path(T, code, path) && i < |path| && path[0] == 0 && code != [] && c.sa[0].Some?
    ensures c.sa[path[i]].Some?
    decreases i
  {
    if i > 0 {
      PathAnnotated(words, T, code, c, path, i - 1);
      assert Edge(T, code, path[i - 1], path[i - 1 + 1]);
      assert OpcodeOk(words, T, code, c, path[i - 1]);
    }
  }

  lemma ReachableKept(words: seq<Word>, T: seq<Info>, U: seq<Info>, code: seq<Opcode>, c: Cert, k: nat)
    requires CertOk(words, T, code, c) && Stable(words, T, U) && Reachable(T, code, k)
    ensures Reachable(U, code, k)
  {
    var path: seq<nat> :| Path(T, code, path) && path != [] && path[0] == 0 && path[|path| - 1] == k;
    forall i | 0 <= i < |path| - 1 ensures Edge(U, code, path[i], path[i + 1]) {
      PathAnnotated(words, T, code, c, path, i);
      assert OpcodeOk(words, T, code, c, path[i]);
      assert Edge(T, code, path[i], path[i + 1]);
      ReadyKept(words, T, U, code[path[i]]);
    }
    assert Path(U, code, path);
  }

  lemma CertKept(words: seq<Word>, T: seq<Info>, U: seq<Info>, code: seq<Opcode>, c: Cert)
    requires CertOk(words, T, code, c) && Stable(words, T, U)
    ensures CertOk(words, U, code, c)
  {
    hide Delta, Falls, LowPoint, DataPoint;
    forall k | 0 <= k < |code| ensures OpcodeOk(words, U, code, c, k) {
      assert OpcodeOk(words, T, code, c, k);
      if c.sa[k].Some? {
        OpcodeKept(words, T, U, code, c, c, k);
      }
    }
    forall k | 0 <= k < |code| && c.sa[k].Some? ensures Reachable(U, code, k) {
      ReachableKept(words, T, U, code, c, k);
    }
    forall k | 0 <= k < |code| && c.sa[k].Some?
      ensures LowPoint(U, code[k], c.sa[k].value) == LowPoint(T, code[k], c.sa[k].value)
      ensures CalleeReturns(words, U, code[k]) == CalleeReturns(words, T, code[k])
      ensures DataPoint(words, U, code[k], c.sa[k].value) == DataPoint(words, T, code[k], c.sa[k].value)
    {
      assert OpcodeOk(words, T, code, c, k);
      ReadyKept(words, T, U, code[k]);
    }
  }

  lemma TableKept(words: seq<Word>, declared: seq<SType>, T: seq<Info>, U: seq<Info>, w: nat)
    requires w < |words| == |declared| && Stable(words, T, U) && InfoOk(words, declared, T, w) && T[w] == U[w]
    ensures InfoOk(words, declared, U, w)
  {
    if words[w].Interpreted? && T[w].flow == 1 {
      var c :| AnalysedWith(words, declared, T, w, c);
      CertKept(words, T, U, words[w].code, c);
      assert AnalysedWith(words, declared, U, w, c);
    }
  }

  // ----- the analysis has at most one outcome -----

  /** Where both annotate an opcode, the two tables say the same of the word that it calls. */
  ghost predicate CalleesAgree(words: seq<Word>, T: seq<Info>, G: seq<Info>, code: seq<Opcode>, c: Cert, d: Cert)
    requires |T| == |G| == |words| && |code| == |c.sa| == |d.sa|
  {
    forall k | 0 <= k < |code| && c.sa[k].Some? && d.sa[k].Some? :: SameCallee(words, T, G, code[k])
  }

  predicate SameCallee(words: seq<Word>, T: seq<Info>, G: seq<Info>, op: Opcode)
    requires |T| == |G| == |words|
  {
    && CalleeEffect(T, op) == CalleeEffect(G, op) && CalleeReturns(words, T, op) == CalleeReturns(words, G, op)
    && CalleeData(words, T, op) == CalleeData(words, G, op)
  }

  lemma SameCalleeFacts(words: seq<Word>, T: seq<Info>, G: seq<Info>, op: Opcode, c: int)
    requires |T| == |G| == |words| && SameCallee(words, T, G, op)
    ensures Delta(T, op) == Delta(G, op) && Falls(T, op) == Falls(G, op) && LowPoint(T, op, c) == LowPoint(G, op, c)
    ensures DataPoint(words, T, op, c) == DataPoint(words, G, op, c)
  {
  }

  /** Along a path, the second annotation equals the first. */
  lemma {:induction false} AgreeAlong(words: seq<Word>, T: seq<Info>, G: seq<Info>, code: seq<Opcode>, c: Cert, d: Cert,
                                      path: seq<nat>, i: nat)
    requires CertOk(words, T, code, c) && CertOk(words, G, code, d) && CalleesAgree(words, T, G, code, c, d)
    requires Path(T, code, path) && i < |path| && path[0] == 0
    ensures c.sa[path[i]].Some? && d.sa[path[i]] == c.sa[path[i]]
    decreases i
  {
    hide Delta, Falls, LowPoint, DataPoint, CallReady, SameCallee, CalleeReturns, Tight, Reachable;
    if i > 0 {
      var k := path[i - 1];
      AgreeAlong(words, T, G, code, c, d, path, i - 1);
      assert Edge(T, code, k, path[i - 1 + 1]);
      assert OpcodeOk(words, T, code, c, k) && OpcodeOk(words, G, code, d, k);
      SameCalleeFacts(words, T, G, code[k], 0);
    }
  }

  /** The annotations of a word are unique. */
  lemma CertUnique(words: seq<Word>, T: seq<Info>, G: seq<Info>, code: seq<Opcode>, c: Cert, d: Cert)
    requires CertOk(words, T, code, c) && CertOk(words, G, code, d) && CalleesAgree(words, T, G, code, c, d)
    ensures c == d
  {
    hide Delta, Falls, LowPoint, DataPoint, CallReady, SameCallee, Path;
    forall k | 0 <= k < |code| ensures c.sa[k] == d.sa[k] {
      if c.sa[k].Some? {
        var path: seq<nat> :| Path(T, code, path) && path != [] && path[0] == 0 && path[|path| - 1] == k;
        AgreeAlong(words, T, G, code, c, d, path, |path| - 1);
      } else if d.sa[k].Some? {
        var path: seq<nat> :| Path(G, code, path) && path != [] && path[0] == 0 && path[|path| - 1] == k;
        CalleesAgreeFlip(words, T, G, code, c, d);
        AgreeAlong(words, G, T, code, d, c, path, |path| - 1);
      }
    }
    assert c.sa == d.sa;
    BoundsUnique(words, T, G, code, c, d);
  }

  lemma CalleesAgreeFlip(words: seq<Word>, T: seq<Info>, G: seq<Info>, code: seq<Opcode>, c: Cert, d: Cert)
    requires |T| == |G| == |words| && |code| == |c.sa| == |d.sa| && CalleesAgree(words, T, G, code, c, d)
    ensures CalleesAgree(words, G, T, code, d, c)
  {
  }

  lemma BoundsUnique(words: seq<Word>, T: seq<Info>, G: seq<Info>, code: seq<Opcode>, c: Cert, d: Cert)
    requires CertOk(words, T, code, c) && CertOk(words, G, code, d) && CalleesAgree(words, T, G, code, c, d)
    requires c.sa == d.sa
    ensures c == d
  {
    hide Delta, Falls, LowPoint, DataPoint, CallReady, Path, Reachable;
    forall k | 0 <= k < |code| && c.sa[k].Some?
      ensures LowPoint(T, code[k], c.sa[k].value) == LowPoint(G, code[k], c.sa[k].value)
      ensures CalleeReturns(words, T, code[k]) == CalleeReturns(words, G, code[k])
      ensures DataPoint(words, T, code[k], c.sa[k].value) == DataPoint(words, G, code[k], c.sa[k].value)
      ensures DataPoint(words, T, code[k], c.sa[k].value) <= c.extra
      ensures DataPoint(words, G, code[k], c.sa[k].value) <= d.extra
      ensures c.maxDepth <= LowPoint(T, code[k], c.sa[k].value) && d.maxDepth <= LowPoint(G, code[k], c.sa[k].value)
      ensures CalleeReturns(words, T, code[k]) <= c.callees && CalleeReturns(words, G, code[k]) <= d.callees
      ensures code[k].Ret? ==> c.exit == d.exit
    {
      assert SameCallee(words, T, G, code[k]);
      SameCalleeFacts(words, T, G, code[k], c.sa[k].value);
      assert OpcodeOk(words, T, code, c, k) && OpcodeOk(words, G, code, d, k);
    }
  }

  /** Calls in words whose tables agree below some bound. */
  lemma ReadyAgree(words: seq<Word>, declared: seq<SType>, T: seq<Info>, G: seq<Info>, op: Opcode)
    requires TableOk(words, declared, T) && TableOk(words, declared, G) && CallReady(words, T, op)
    requires CallReady(words, G, op)
    requires op.Call? && words[op.target.value].Interpreted? ==> T[op.target.value] == G[op.target.value]
    ensures SameCallee(words, T, G, op)
  {
    if op.Call? && words[op.target.value].Native? {
      assert InfoOk(words, declared, T, op.target.value) && InfoOk(words, declared, G, op.target.value);
    }
  }

  /** Whatever the order in which words are analysed, the outcome for a word is the same. */
  lemma {:induction false} AnalysisUnique(words: seq<Word>, declared: seq<SType>, T: seq<Info>, G: seq<Info>, w: nat)
    requires TableOk(words, declared, T) && TableOk(words, declared, G)
    requires w < |words| && words[w].Interpreted? && T[w].flow == 1 && G[w].flow == 1
    ensures T[w] == G[w]
    decreases G[w].maxReturnStack
  {
    hide CertOk, OpcodeOk, SameCallee;
    assert InfoOk(words, declared, T, w) && InfoOk(words, declared, G, w);
    var c :| AnalysedWith(words, declared, T, w, c);
    var d :| AnalysedWith(words, declared, G, w, d);
    var code := words[w].code;
    CertSizes(words, T, code, c);
    CertSizes(words, G, code, d);
    forall k | 0 <= k < |code| && c.sa[k].Some? && d.sa[k].Some? ensures SameCallee(words, T, G, code[k]) {
      CertAt(words, T, code, c, k);
      CertAt(words, G, code, d, k);
      if code[k].Call? && words[code[k].target.value].Interpreted? {
        AnalysisUnique(words, declared, T, G, code[k].target.value);
      }
      ReadyAgree(words, declared, T, G, code[k]);
    }
    CertUnique(words, T, G, code, c, d);
  }

  lemma CertSizes(words: seq<Word>, T: seq<Info>, code: seq<Opcode>, c: Cert)
    requires CertOk(words, T, code, c)
    ensures |T| == |words| && |c.sa| == |code| && code != [] && c.sa[0] == Some(0) && c.maxDepth <= 0
  {
  }

  /** A call that is annotated is ready, and its callee uses less of the return stack. */
  lemma CertAt(words: seq<Word>, T: seq<Info>, code: seq<Opcode>, c: Cert, k: nat)
    requires CertOk(words, T, code, c) && k < |code| && c.sa[k].Some?
    ensures OpcodeOk(words, T, code, c, k) && CallReady(words, T, code[k])
    ensures CalleeReturns(words, T, code[k]) <= c.callees
  {
    assert OpcodeOk(words, T, code, c, k);
  }

  // ----- what the annotations mean -----

  /** The sum of the changes of depth along a path, its last opcode excluded. */
  function Net(T: seq<Info>, code: seq<Opcode>, path: seq<nat>): int
    requires forall i | 0 <= i < |path| :: path[i] < |code|
  {
    if |path| <= 1 then 0
    else Net(T, code, path[..|path| - 1]) + Delta(T, code[path[|path| - 2]])
  }

  /** Along every path from the start of a word, the changes of depth add up to the annotation of the last opcode. */
  lemma {:induction false} DepthIsNet(words: seq<Word>, T: seq<Info>, code: seq<Opcode>, c: Cert, path: seq<nat>)
    requires CertOk(words, T, code, c) && Path(T, code, path) && path != [] && path[0] == 0
    ensures c.sa[path[|path| - 1]] == Some(Net(T, code, path))
    decreases |path|
  {
    hide Delta, Falls, LowPoint, DataPoint, CallReady, CalleeReturns, Tight, Reachable;
    if |path| > 1 {
      var short := path[..|path| - 1];
      forall i | 0 <= i < |short| - 1 ensures Edge(T, code, short[i], short[i + 1]) {
        assert Edge(T, code, path[i], path[i + 1]);
      }
      DepthIsNet(words, T, code, c, short);
      var k := path[|path| - 2];
      assert Edge(T, code, k, path[|path| - 2 + 1]);
      assert OpcodeOk(words, T, code, c, k);
    }
  }

  /** Exactly the opcodes that can be reached are annotated, and those among them that return share one depth. */
  lemma AnnotatedIffReachable(words: seq<Word>, T: seq<Info>, code: seq<Opcode>, c: Cert, k: nat)
    requires CertOk(words, T, code, c) && k < |code|
    ensures c.sa[k].Some? <==> Reachable(T, code, k)
    ensures Reachable(T, code, k) && code[k].Ret? ==> c.sa[k] == c.exit
  {
    hide Delta, Falls, LowPoint, DataPoint, CallReady, CalleeReturns, Tight, Path;
    if Reachable(T, code, k) {
      var path: seq<nat> :| Path(T, code, path) && path != [] && path[0] == 0 && path[|path| - 1] == k;
      DepthIsNet(words, T, code, c, path);
      assert OpcodeOk(words, T, code, c, k);
    }
  }

  /** Calls that can be reached go to analysed words that use less of the return stack, by one cell and the locals of
      the caller at least: there is no recursion. */
  lemma CallsDescend(words: seq<Word>, declared: seq<SType>, T: seq<Info>, w: nat, k: nat)
    requires TableOk(words, declared, T) && w < |words| && words[w].Interpreted? && T[w].flow == 1
    requires k < |words[w].code| && Reachable(T, words[w].code, k) && words[w].code[k].Call?
    ensures CallReady(words, T, words[w].code[k])
    ensures var u := words[w].code[k].target.value;
            words[u].Interpreted? ==>
              T[u].flow == 1 && T[u].maxReturnStack + 1 + words[w].numLocals <= T[w].maxReturnStack
  {
    hide CertOk, Reachable;
    assert InfoOk(words, declared, T, w);
    var c :| AnalysedWith(words, declared, T, w, c);
    CertSizes(words, T, words[w].code, c);
    AnnotatedIffReachable(words, T, words[w].code, c, k);
    CertAt(words, T, words[w].code, c, k);
  }
}
