/** `MaxDataStack` (Word.cs, lines 145-165; WordInterpreted.cs, lines 155-205): when it bounds the data stack. It counts
    a native word by a minimum of 0 and what it adds, so that what such a word pushes is not counted at its call. */
module DataStack {
  import opened Base
  import opened Machine
  import opened Effects
  import opened Flow
  import opened FlowSound
  import opened Analysis

  // ----- which depths are counted -----

  /** No annotation is above the bound that is recorded. */
  ghost predicate DepthsCounted(words: seq<Word>, declared: seq<SType>, T: seq<Info>, w: nat)
    requires w < |words| == |declared| == |T| && words[w].Interpreted?
  {
    forall c, k | AnalysedWith(words, declared, T, w, c) && 0 <= k < |c.sa| && c.sa[k].Some? ::
      c.sa[k].value <= T[w].maxDataStack
  }

  /** The word called leaves more elements than are counted for it. */
  predicate Undercounted(words: seq<Word>, T: seq<Info>, op: Opcode)
    requires |T| == |words|
  {
    var e := CalleeEffect(T, op);
    op.Call? && e.dout >= 0 && e.dout - e.din > CalleeData(words, T, op)
  }

  /** What such words leave is counted all the same, by another opcode. */
  ghost predicate PushesCounted(words: seq<Word>, declared: seq<SType>, T: seq<Info>, w: nat)
    requires w < |words| == |declared| == |T| && words[w].Interpreted?
  {
    forall c, k | AnalysedWith(words, declared, T, w, c) && 0 <= k < |c.sa| && c.sa[k].Some? && k < |words[w].code| ::
      Undercounted(words, T, words[w].code[k]) ==> c.sa[k].value + Delta(T, words[w].code[k]) <= T[w].maxDataStack
  }

  /** The bound covers all depths of a word exactly when it covers what undercounted words leave. */
  lemma CountedExactly(words: seq<Word>, declared: seq<SType>, T: seq<Info>, w: nat)
    requires w < |words| == |declared| == |T| && words[w].Interpreted?
    ensures DepthsCounted(words, declared, T, w) <==> PushesCounted(words, declared, T, w)
  {
    hide CertOk, Delta, Undercounted;
    if DepthsCounted(words, declared, T, w) {
      forall c, k | AnalysedWith(words, declared, T, w, c) && 0 <= k < |c.sa| && c.sa[k].Some? && k < |words[w].code|
        ensures Undercounted(words, T, words[w].code[k]) ==>
                c.sa[k].value + Delta(T, words[w].code[k]) <= T[w].maxDataStack
      {
        NextDepth(words, T, words[w].code, c, k);
        assert Undercounted(words, T, words[w].code[k]) ==> c.sa[k + 1].Some?;
      }
    }
    if PushesCounted(words, declared, T, w) {
      forall c, k | AnalysedWith(words, declared, T, w, c) && 0 <= k < |c.sa| && c.sa[k].Some?
        ensures c.sa[k].value <= T[w].maxDataStack {
        CertSizes(words, T, words[w].code, c);
        PathTo(words, T, words[w].code, c, k);
        var path: seq<nat> :| Path(T, words[w].code, path) && path != [] && path[0] == 0 && path[|path| - 1] == k;
        CountedAlong(words, declared, T, w, c, path, |path| - 1);
      }
    }
  }

  lemma PathTo(words: seq<Word>, T: seq<Info>, code: seq<Opcode>, c: Cert, k: nat)
    requires CertOk(words, T, code, c) && k < |code| && c.sa[k].Some?
    ensures Reachable(T, code, k)
  {
  }

  /** The depth after a call that may return. */
  lemma NextDepth(words: seq<Word>, T: seq<Info>, code: seq<Opcode>, c: Cert, k: nat)
    requires CertOk(words, T, code, c) && k < |code| && c.sa[k].Some?
    ensures Undercounted(words, T, code[k]) ==> k + 1 < |c.sa| && c.sa[k + 1] == Some(c.sa[k].value + Delta(T, code[k]))
  {
    hide Tight, Reachable, LowPoint, DataPoint, CalleeReturns;
    CertAt(words, T, code, c, k);
  }

  /** Along a path from the start, no depth is above the bound. */
  lemma {:induction false} CountedAlong(words: seq<Word>, declared: seq<SType>, T: seq<Info>, w: nat, c: Cert,
                                        path: seq<nat>, i: nat)
    requires w < |words| == |declared| == |T| && words[w].Interpreted?
    requires AnalysedWith(words, declared, T, w, c) && PushesCounted(words, declared, T, w)
    requires Path(T, words[w].code, path) && i < |path| && path[0] == 0
    ensures path[i] < |c.sa| && c.sa[path[i]].Some? && c.sa[path[i]].value <= T[w].maxDataStack
    decreases i
  {
    hide CertOk, OpcodeOk, Undercounted, Delta, DataPoint;
    var code := words[w].code;
    CertSizes(words, T, code, c);
    if i > 0 {
      CountedAlong(words, declared, T, w, c, path, i - 1);
      var k := path[i - 1];
      assert Edge(T, code, k, path[i - 1 + 1]);
      CertAt(words, T, code, c, k);
      NextCounted(words, T, code, c, k, path[i]);
    }
  }

  lemma NextCounted(words: seq<Word>, T: seq<Info>, code: seq<Opcode>, c: Cert, k: nat, j: nat)
    requires |T| == |words| && k < |code| == |c.sa| && c.sa[k].Some? && OpcodeOk(words, T, code, c, k)
    requires Edge(T, code, k, j)
    requires Undercounted(words, T, code[k]) ==> c.sa[k].value + Delta(T, code[k]) <= c.extra
    ensures j < |c.sa| && c.sa[j].Some? && c.sa[j].value <= c.extra
  {
    hide LowPoint, CalleeReturns, CalleeData;
    assert c.sa[j] == Some(c.sa[k].value + Delta(T, code[k]));
  }

  /** A call of a native word is counted at the depth after it, but without what it adds: the word is undercounted
      exactly when it leaves more elements than it takes. */
  lemma NativeUndercounted(words: seq<Word>, T: seq<Info>, op: Opcode, d: int)
    requires |T| == |words| && CallReady(words, T, op) && op.Call? && words[op.target.value].Native?
    ensures var e := T[op.target.value].effect;
            && (Undercounted(words, T, op) <==> e.dout > e.din)
            && DataPoint(words, T, op, d) == if e.dout < 0 || e.dout > e.din then d else d + e.dout - e.din
  {
  }

  /** An interpreted word that has a return is not, if the bound covers its own depths. */
  lemma InterpretedCounted(words: seq<Word>, declared: seq<SType>, T: seq<Info>, u: nat, c: Cert)
    requires u < |words| == |declared| == |T| && words[u].Interpreted? && AnalysedWith(words, declared, T, u, c)
    requires c.exit.Some? && DepthsCounted(words, declared, T, u)
    ensures !Undercounted(words, T, Call(Some(u)))
  {
    hide Reachable, LowPoint, DataPoint, CallReady, CalleeReturns;
    ExitEffect(words, declared, T, u, c);
    var code := words[u].code;
    var k :| 0 <= k < |code| && c.sa[k].Some? && code[k].Ret?;
    CertAt(words, T, code, c, k);
  }

  // ----- what that means for runs -----

  ghost predicate AllCounted(words: seq<Word>, declared: seq<SType>, T: seq<Info>) {
    && |words| == |declared| == |T|
    && forall w | 0 <= w < |words| && words[w].Interpreted? && T[w].flow == 1 :: PushesCounted(words, declared, T, w)
  }

  /** The data stack of a live state is within the limit while words are executing. */
  lemma LiveDepth(words: seq<Word>, declared: seq<SType>, T: seq<Info>, s: State, final: int, limit: Limits)
    requires |T| == |words| == |declared| && LiveState(words, declared, T, s, final, limit) && s.ip.Some?
    requires AllCounted(words, declared, T)
    ensures |s.stack| <= limit.depth
  {
    hide CertOk, Live, PushesCounted;
    var entry, c := FetchLive(words, declared, T, s, final, limit);
    CountedExactly(words, declared, T, s.ip.value.word);
  }

  /** In every run of an analysed word, when the bounds cover what undercounted words leave, the data stack grows by no
      more than `MaxDataStack`, until the word returns. */
  lemma DataStackFits(words: seq<Word>, declared: seq<SType>, natives: Natives, T: seq<Info>, w: nat, below: seq<int32>,
                      args: seq<int32>, first: Locals, inits: nat -> Locals, cells: nat, n: nat)
    requires Checked(words, declared, natives, T) && w < |words| == |T| && words[w].Interpreted? && T[w].flow == 1
    requires |args| == T[w].effect.din && T[w].maxReturnStack <= cells && AllCounted(words, declared, T)
    ensures var s := StartOn(words, first, cells, w, below + args);
            s.Some? &&
            var t := RunOn(words, natives, inits, cells, s.value, 0, n);
            t.Some? && t.value.ip.Some? ==> |t.value.stack| <= |below + args| + T[w].maxDataStack
  {
    hide Checked, LiveState, StuckInNative, RunOn, Cells, StartOn, AllCounted;
    SameSizes(words, declared, natives, T);
    var final, limit := T[w].effect.dout, WordLimits(T[w]);
    StartOnLive(words, declared, natives, T, w, args, first, cells, below);
    var s := StartOn(words, first, cells, w, args).value;
    LiveRunOn(words, declared, natives, T, final, limit, inits, cells, s, 0, n);
    RunOnAbove(words, declared, natives, T, final, limit, inits, cells, s, 0, n, below);
    var r := RunOn(words, natives, inits, cells, s, 0, n);
    if r.Some? && r.value.ip.Some? {
      LiveDepth(words, declared, T, r.value, final, limit);
    }
  }

  // ----- a word whose bound is too small -----

  /** `dup`, and a word that only calls it. */
  const DUP_WORDS: seq<Word> := [Native("dup"), Interpreted(0, [Call(Some(0)), Ret])]
  const DUP_EFFECTS: seq<SType> := [SType(1, 2), UNKNOWN]
  const DUP_TABLE: seq<Info> := [Info(0, SType(1, 2), 0, 0), Info(1, SType(1, 2), 1, 0)]

  const DUP_CERT: Cert := Cert([Some(0), Some(1)], Some(1), -1, 0, 0)

  lemma DupReachable()
    ensures Reachable(DUP_TABLE, DUP_WORDS[1].code, 0) && Reachable(DUP_TABLE, DUP_WORDS[1].code, 1)
  {
    var code := DUP_WORDS[1].code;
    var path: seq<nat>, longer: seq<nat> := [0], [0, 1];
    assert Path(DUP_TABLE, code, path);
    assert Edge(DUP_TABLE, code, longer[0], longer[1]);
    assert Path(DUP_TABLE, code, longer);
  }

  lemma DupCert()
    ensures CertOk(DUP_WORDS, DUP_TABLE, DUP_WORDS[1].code, DUP_CERT)
  {
    hide Reachable;
    var code := DUP_WORDS[1].code;
    DupReachable();
    assert LowPoint(DUP_TABLE, code[0], DUP_CERT.sa[0].value) == -1;
    assert OpcodeOk(DUP_WORDS, DUP_TABLE, code, DUP_CERT, 0) && OpcodeOk(DUP_WORDS, DUP_TABLE, code, DUP_CERT, 1);
  }

  lemma DupAnalysed()
    ensures TableOk(DUP_WORDS, DUP_EFFECTS, DUP_TABLE)
  {
    hide CertOk;
    DupCert();
    assert AnalysedWith(DUP_WORDS, DUP_EFFECTS, DUP_TABLE, 1, DUP_CERT);
    assert InfoOk(DUP_WORDS, DUP_EFFECTS, DUP_TABLE, 0) && InfoOk(DUP_WORDS, DUP_EFFECTS, DUP_TABLE, 1);
  }

  /** It is accepted with no room for more than its argument, but its run takes one element more. */
  lemma DupNotCounted(natives: Natives, x: int32)
    requires natives("dup", [x]) == Some([x, x])
    ensures Acceptable(DUP_WORDS, DUP_EFFECTS, DUP_TABLE, [1], 0, 1)
    ensures var t := Run(DUP_WORDS, natives, Start(DUP_WORDS, 1, [x]), 1);
            && t.Some? && t.value.ip.Some? && |t.value.stack| == 2
            && |t.value.stack| > |[x]| + DUP_TABLE[1].maxDataStack
  {
    DupAnalysed();
    assert EntryOk(DUP_WORDS, DUP_TABLE, 1, 0, 1);
    var s := Start(DUP_WORDS, 1, [x]);
    assert Run(DUP_WORDS, natives, s, 1) == Step(DUP_WORDS, natives, s);
  }
}
