/** From structured programs to bytes: the builder, the code generator and the generated run loop together. */
module Pipeline {
  import opened Base
  import opened Machine
  import Builder
  import opened Structured
  import opened StructuredRun
  import opened Nested
  import opened Codegen
  import opened Runtime
  import opened Simulation
  import opened Assignment
  import opened Effects
  import opened Flow
  import opened FlowSound
  import opened EndToEnd

  /** The opcodes of a word are those that the builder makes of a program. */
  ghost predicate BuiltFrom(word: Word, b: Builder.Build, s: Stmt) {
    && word.Interpreted? && Builder.Inv(b) && b.cfPtr == -1 && b.code == [] && Emits(s, b.locals)
    && var built := Builder.ApplyAll(b, Actions(s));
       built.Some? && Builder.Finish(built.value).Some? && word.code == Builder.Finish(built.value).value.code
  }

  // ----- words that call native words only -----

  predicate Leaf(words: seq<Word>, w: nat) {
    w < |words| && words[w].Interpreted? && WellFormed(words[w].numLocals, words[w].code)
    && forall i | 0 <= i < |words[w].code| :: LeafOp(words, words[w].code[i])
  }

  predicate LeafOp(words: seq<Word>, op: Opcode) {
    op.Call? ==> op.target.Some? && op.target.value < |words| && words[op.target.value].Native?
  }

  /** How the CPU ends, compared with the run of the opcodes of the word. */
  ghost predicate CpuEnds(w: nat, t: Option<State>, o: Outcome) {
    match o
    case At(pc, st, _) => t == Some(OnlyFrame(w, pc, st))
    case Left(st, _) => t == Some(State(st.stack, [], None))
    case Stuck => t == None
  }

  lemma LeafStep(words: seq<Word>, natives: Natives, init: Locals, cells: nat, w: nat, pc: nat, st: WordState, n: nat)
    requires Leaf(words, w) && pc < |words[w].code| && 1 + |st.locals| <= cells && n > 0
    ensures var o := Step1(NativeCalls(words, natives), words[w].code, pc, st, n);
            && CpuEnds(w, StepOn(words, natives, init, cells, OnlyFrame(w, pc, st)), o)
            && (o.At? ==> 0 <= o.pc < |words[w].code| && |o.st.locals| == |st.locals|)
  {
    hide Step, Step1, WellFormed;
    assert LeafOp(words, words[w].code[pc]);
    PlainAgrees(words, natives, w, pc, st, n);
    LandsInside(words, natives, w, pc, st, n);
    assert OnlyFrame(w, pc, st).frames[..0] == [];
    var o := Step1(NativeCalls(words, natives), words[w].code, pc, st, n);
    if o.At? {
      assert OnlyFrame(w, o.pc, o.st).frames[..0] == [];
      assert Cells(OnlyFrame(w, o.pc, o.st).frames) == 1 + |st.locals|;
      assert StepOn(words, natives, init, cells, OnlyFrame(w, pc, st)) == Some(OnlyFrame(w, o.pc, o.st));
    }
  }

  /** A run of the CPU in a word that calls native words only is a run of its opcodes. */
  lemma {:induction false} LeafRun(words: seq<Word>, natives: Natives, inits: nat -> Locals, cells: nat, w: nat,
                                   pc: nat, st: WordState, k: nat, n: nat)
    requires Leaf(words, w) && pc < |words[w].code| && 1 + |st.locals| <= cells
    ensures CpuEnds(w, RunOn(words, natives, inits, cells, OnlyFrame(w, pc, st), k, n),
                    RunIn(NativeCalls(words, natives), words[w].code, 0, |words[w].code|, pc, st, n))
    decreases n
  {
    hide StepOn, Step1, LeafOp, WellFormed;
    if n > 0 {
      LeafStep(words, natives, inits(k), cells, w, pc, st, n);
      var o := Step1(NativeCalls(words, natives), words[w].code, pc, st, n);
      if o.At? {
        LeafRun(words, natives, inits, cells, w, o.pc, o.st, k + 1, n - 1);
      }
    }
  }

  lemma LandsInside(words: seq<Word>, natives: Natives, w: nat, pc: nat, st: WordState, n: nat)
    requires Leaf(words, w) && pc < |words[w].code| && n > 0
    ensures var o := Step1(NativeCalls(words, natives), words[w].code, pc, st, n);
            o.At? ==> 0 <= o.pc < |words[w].code| && |o.st.locals| == |st.locals|
  {
    WellFormedHere(words[w].numLocals, words[w].code, pc);
  }

  /** The state in which the generated code of a word starts: its locals hold what the return stack memory holds. */
  function InMemory(stack: seq<int32>, numLocals: nat, rs: seq<uint32>, rp0: nat): WordState
    requires rp0 + numLocals <= |rs|
  {
    WordState(stack, seq(numLocals, k requires 0 <= k < numLocals => Some(ToS32(rs[rp0 + numLocals - 1 - k]))))
  }

  /** How the generated code ends, compared with the structured program. */
  ghost predicate CodeEnds(m: Option<RtState>, rp0: nat, r: Result) {
    match r
    case Returned(st, _) => m.Some? && m.value.ip.None? && m.value.rp == rp0 && m.value.data == ToCells(st.stack)
    case Failed => m.None?
    case _ => m.Some? && m.value.ip.Some? && m.value.data == ToCells(r.st.stack)
  }

  /** The generated bytes of a word that calls native words only do what its structured source means: started on any
      stack and on any contents of the memory, with fuel for n opcodes, they return with the same data stack, or fail,
      or are still running, when the program is. */
  lemma SourceToBytes(c: Build, natives: Natives, rp0: nat, w: nat, b: Builder.Build, s: Stmt, stack: seq<int32>,
                      rs: seq<uint32>, n: nat)
    requires c.Ok() && Leaf(c.words, w) && rp0 <= |rs| && BuiltFrom(c.words[w], b, s)
    ensures |c.t.slots| == |c.words|
    ensures var m := RtStart(c.img, c.t.slots[w], ToCells(stack), rs, rp0); var numLocals := c.words[w].numLocals;
            if rp0 + numLocals >= |rs| then m.None?
            else m.Some? && CodeEnds(RtRun(c.img, natives, m.value, n), rp0,
                                     AsWord(Exec(NativeCalls(c.words, natives), b.locals, s,
                                                 InMemory(stack, numLocals, rs, rp0), n)))
  {
    hide Build.Ok, Exec, RunIn, RunOn, RtRun, RtStart, Builder.Apply, Builder.Finish, Actions, Emits;
    var calls, numLocals := NativeCalls(c.words, natives), c.words[w].numLocals;
    var first, inits := GeneratedCodeIsCorrect(c, natives, rp0, w, stack, rs);
    assert Follows(c, natives, rp0, w, stack, rs, first, inits, n);
    if rp0 + numLocals < |rs| {
      var st := InMemory(stack, numLocals, rs, rp0);
      StartFilled(c.words, first, |rs| - rp0, w, st);
      WordMeaning(calls, b, s, st, n);
      CodeNonempty(numLocals, c.words[w].code);
      LeafRun(c.words, natives, inits, |rs| - rp0, w, 0, st, 0, n);
    }
  }

  lemma StartFilled(words: seq<Word>, first: Locals, cells: nat, w: nat, st: WordState)
    requires w < |words| && words[w].Interpreted? && words[w].numLocals == |st.locals| < cells
    requires forall k: nat | k < |st.locals| :: first(k) == st.locals[k]
    ensures StartOn(words, first, cells, w, st.stack) == Some(OnlyFrame(w, 0, st))
  {
    var s := Fill(Start(words, w, st.stack), first);
    assert s.frames[0].locals == st.locals;
    assert s.frames == [Frame(None, st.locals)];
  }

  lemma CodeNonempty(numLocals: nat, code: seq<Opcode>)
    requires WellFormed(numLocals, code)
    ensures code != []
  {
  }

  // ----- words that call any words -----

  /** A structured program, in a new activation, returns with the given data stack within n opcodes. */
  ghost predicate Yields(calls: Calls, locals: map<string, nat>, s: Stmt, st: WordState, after: seq<int32>, n: nat)
    requires Emits(s, locals)
  {
    var r := AsWord(Exec(calls, locals, s, st, n));
    r.Returned? && r.st.stack == after
  }

  /** What a built word does to the data stack on the CPU is what its structured source means, where each call, of a
      native word or of an interpreted one, is what the word called does to the data stack. */
  lemma SourceMeaning(words: seq<Word>, natives: Natives, w: nat, b: Builder.Build, s: Stmt, stack: seq<int32>,
                      after: seq<int32>)
    requires w < |words| && BuiltFrom(words[w], b, s)
    ensures Denotes(words, natives, w, stack) == Some(after) <==>
            exists n: nat :: Yields(AllCalls(words, natives), b.locals, s, Fresh(stack, words[w].numLocals), after, n)
  {
    hide Exec, RunIn, Builder.Apply, Builder.Finish, Actions, Emits, Denotes;
    var calls, st, code := AllCalls(words, natives), Fresh(stack, words[w].numLocals), words[w].code;
    DenotesIsWord(words, natives, w, stack, after);
    forall n: nat ensures LeavesWith(calls, code, st, after, n) <==> Yields(calls, b.locals, s, st, after, n) {
      WordMeaning(calls, b, s, st, n);
    }
  }

  /** From m, the generated code returns from the outermost word with this data stack within n rounds. */
  ghost predicate Delivers(img: Image, natives: Natives, m: RtState, rp0: nat, after: seq<int32>, n: nat) {
    var r := RtRun(img, natives, m, n);
    r.Some? && r.value.ip.None? && r.value.rp == rp0 && r.value.data == ToCells(after)
  }

  /** The generated bytes of an analysed word return with the stack with which its structured source returns, and only
      then, whatever words it calls and whatever the memory holds, on a return stack of at least the computed size. */
  lemma SourceToBytesWithCalls(c: Build, declared: seq<SType>, natives: Natives, T: seq<Info>, rp0: nat, w: nat,
                               b: Builder.Build, s: Stmt, stack: seq<int32>, rs: seq<uint32>, after: seq<int32>)
    requires c.Ok() && Checked(c.words, declared, natives, T) && AllAssigned(c.words)
    requires w < |c.words| == |T| && BuiltFrom(c.words[w], b, s) && T[w].flow == 1 && |stack| >= T[w].effect.din
    requires rp0 + T[w].maxReturnStack <= |rs|
    ensures |c.t.slots| == |c.words|
    ensures var m := RtStart(c.img, c.t.slots[w], ToCells(stack), rs, rp0);
            && m.Some?
            && ((exists n: nat :: Delivers(c.img, natives, m.value, rp0, after, n)) <==>
                exists n: nat ::
                       Yields(AllCalls(c.words, natives), b.locals, s, Fresh(stack, c.words[w].numLocals), after, n))
  {
    hide Build.Ok, Checked, AllAssigned, Yields, RtRun, RtStart, Run, Denotes;
    SourceMeaning(c.words, natives, w, b, s, stack, after);
    CodeDenotes(c, declared, natives, T, rp0, w, stack, rs, after);
  }

  /** The generated code of an analysed word returns with what the word does to the data stack on the CPU. */
  lemma CodeDenotes(c: Build, declared: seq<SType>, natives: Natives, T: seq<Info>, rp0: nat, w: nat, stack: seq<int32>,
                    rs: seq<uint32>, after: seq<int32>)
    requires c.Ok() && Checked(c.words, declared, natives, T) && AllAssigned(c.words)
    requires w < |c.words| == |T| && c.words[w].Interpreted? && T[w].flow == 1 && |stack| >= T[w].effect.din
    requires rp0 + T[w].maxReturnStack <= |rs|
    ensures |c.t.slots| == |c.words|
    ensures var m := RtStart(c.img, c.t.slots[w], ToCells(stack), rs, rp0);
            && m.Some?
            && ((exists n: nat :: Delivers(c.img, natives, m.value, rp0, after, n)) <==>
                Denotes(c.words, natives, w, stack) == Some(after))
  {
    hide Build.Ok, Checked, AllAssigned, RtRun, RtStart, Run, Denotes;
    SameSizes(c.words, declared, natives, T);
    EffectKnown(c.words, declared, natives, T, w);
    var k := |stack| - T[w].effect.din;
    assert stack[..k] + stack[k..] == stack;
    var t := Start(c.words, w, stack);
    AnalysedCodeIsCorrect(c, declared, natives, T, rp0, w, stack[..k], stack[k..], rs, 0);
    var m := RtStart(c.img, c.t.slots[w], ToCells(stack), rs, rp0);
    forall n: nat
      ensures Delivers(c.img, natives, m.value, rp0, after, n) <==>
              Returns(c.words, natives, t, n) && Run(c.words, natives, t, n).value.stack == after
    {
      AnalysedCodeIsCorrect(c, declared, natives, T, rp0, w, stack[..k], stack[k..], rs, n);
      var r := Run(c.words, natives, t, n);
      if r.Some? {
        CellsInverse(r.value.stack);
        CellsInverse(after);
      }
    }
    if n: nat :| Delivers(c.img, natives, m.value, rp0, after, n) {
      assert Returns(c.words, natives, t, n);
      DenotesRun(c.words, natives, w, stack, n);
    }
    if Denotes(c.words, natives, w, stack) == Some(after) {
      var n := DenotedBy(c.words, natives, w, stack);
      assert Delivers(c.img, natives, m.value, rp0, after, n);
    }
  }
}
