/** Calls of interpreted words, as functions on the data stack. */
module Nested {
  import opened Base
  import opened Machine
  import opened StructuredRun
  import opened FlowSound

  /** Calls to native words and to interpreted words. */
  ghost function AllCalls(words: seq<Word>, natives: Natives): Calls {
    (w: nat, stack: seq<int32>) =>
      if w >= |words| then None
      else if words[w].Native? then natives(words[w].ccode, stack)
      else Denotes(words, natives, w, stack)
  }

  // ----- a run on top of other frames -----

  /** The lowest frame is that of the outermost word. */
  predicate Alone(t: State) {
    && (t.frames == [] <==> t.ip.None?)
    && forall i | 0 <= i < |t.frames| :: t.frames[i].saved.None? <==> i == 0
  }

  /** State t on top of the frames of base; execution goes on there when the outermost word of t has returned. */
  function Under(base: State, t: State): State {
    if t.frames == [] then base.(stack := t.stack)
    else State(t.stack, base.frames + [t.frames[0].(saved := base.ip)] + t.frames[1..], t.ip)
  }

  function UnderIfSome(base: State, r: Option<State>): Option<State> {
    match r case None => None case Some(t) => Some(Under(base, t))
  }

  /** The topmost frame of a state on top of others. */
  lemma UnderTop(base: State, t: State)
    requires t.frames != []
    ensures var u, n := Under(base, t).frames, |t.frames| - 1;
            && |u| == |base.frames| + n + 1 && u[|base.frames| + n].locals == t.frames[n].locals
            && (n > 0 ==> u[|base.frames| + n] == t.frames[n]) && (n == 0 ==> u[|base.frames|].saved == base.ip)
            && u[..|base.frames| + n] == if n == 0 then base.frames else Under(base, t.(frames := t.frames[..n])).frames
  {
    var n := |t.frames| - 1;
    if n > 0 {
      assert t.frames[..n][1..] == t.frames[1..][..n - 1];
    }
  }

  /** A new topmost frame, or the same with other locals. */
  lemma UnderPush(base: State, t: State, f: Frame)
    ensures Under(base, t.(frames := t.frames + [f])).frames ==
            if t.frames == [] then base.frames + [f.(saved := base.ip)] else Under(base, t).frames + [f]
  {
    if t.frames != [] {
      assert (t.frames + [f])[1..] == t.frames[1..] + [f];
    }
  }

  lemma UnderWrite(base: State, t: State, num: nat, v: int32)
    requires t.frames != []
    ensures WriteLocal(Under(base, t), num, v) == UnderIfSome(base, WriteLocal(t, num, v))
  {
    UnderTop(base, t);
    if WriteLocal(t, num, v).Some? {
      var n := |t.frames| - 1;
      var top := t.frames[n];
      UnderPush(base, t.(frames := t.frames[..n]), top.(locals := top.locals[num := Some(v)]));
    }
  }

  lemma UnderExit(base: State, t: State)
    requires Alone(t) && t.ip.Some?
    ensures Exit(t).Some? && Alone(Exit(t).value) && Exit(Under(base, t)) == Some(Under(base, Exit(t).value))
  {
    UnderTop(base, t);
  }

  lemma UnderCall(words: seq<Word>, natives: Natives, base: State, t: State, target: Option<nat>)
    requires Alone(t) && t.ip.Some?
    ensures var r := CallWord(words, natives, t, target);
            && CallWord(words, natives, Under(base, t), target) == UnderIfSome(base, r)
            && (r.Some? ==> Alone(r.value))
  {
    if target.Some? && target.value < |words| && words[target.value].Interpreted? {
      UnderPush(base, t, Frame(t.ip, seq(words[target.value].numLocals, _ => None)));
    }
  }

  /** Frames below do not influence an opcode. */
  lemma ExecuteUnder(words: seq<Word>, natives: Natives, base: State, t: State, op: Opcode)
    requires Alone(t) && t.ip.Some?
    ensures var r := Execute(words, natives, t, op);
            && Execute(words, natives, Under(base, t), op) == UnderIfSome(base, r)
            && (r.Some? ==> Alone(r.value))
  {
    hide Exit, CallWord, WriteLocal;
    UnderTop(base, t);
    match op {
      case PutLocal(num) =>
        if t.stack != [] {
          var p := Pop(t).value;
          UnderWrite(base, p.0, num, p.1);
          WriteAlone(p.0, num, p.1);
        }
      case Call(target) => UnderCall(words, natives, base, t, target);
      case Ret => UnderExit(base, t);
      case _ =>
    }
  }

  /** Frames below do not influence a step. */
  lemma StepUnder(words: seq<Word>, natives: Natives, base: State, t: State)
    requires Alone(t) && t.ip.Some?
    ensures var r := Step(words, natives, t);
            && Step(words, natives, Under(base, t)) == UnderIfSome(base, r)
            && (r.Some? ==> Alone(r.value))
  {
    hide Execute;
    if Fetch(words, t).Some? {
      ExecuteUnder(words, natives, base, JumpBy(t, 1), Fetch(words, t).value);
    }
  }

  lemma WriteAlone(t: State, num: nat, v: int32)
    requires Alone(t) && t.ip.Some?
    ensures WriteLocal(t, num, v).Some? ==> Alone(WriteLocal(t, num, v).value)
  {
  }

  /** When the outermost word of t returns, so does the run on top of other frames, at some step, and goes on from
      there. */
  lemma {:induction false} ReturnUnder(words: seq<Word>, natives: Natives, base: State, t: State, m: nat, k: nat)
    returns (m': nat)
    requires Alone(t) && Returns(words, natives, t, m)
    ensures m' <= m
    ensures Run(words, natives, Under(base, t), m' + k) ==
            Run(words, natives, base.(stack := Run(words, natives, t, m).value.stack), k)
    decreases m
  {
    hide Step;
    if m == 0 || t.ip.None? {
      m' := 0;
    } else {
      StepUnder(words, natives, base, t);
      m' := ReturnUnder(words, natives, base, Step(words, natives, t).value, m - 1, k);
      m' := m' + 1;
    }
  }

  /** When everything returns, then the outermost word of t has returned before. */
  lemma {:induction false} ReturnedBefore(words: seq<Word>, natives: Natives, base: State, t: State, n: nat)
    returns (m: nat)
    requires Alone(t) && base.ip.Some? && Returns(words, natives, Under(base, t), n)
    ensures m <= n && Returns(words, natives, t, m)
    ensures Run(words, natives, Under(base, t), n) ==
            Run(words, natives, base.(stack := Run(words, natives, t, m).value.stack), n - m)
    decreases n
  {
    hide Step;
    if t.ip.None? {
      m := 0;
    } else {
      StepUnder(words, natives, base, t);
      m := ReturnedBefore(words, natives, base, Step(words, natives, t).value, n - 1);
      m := m + 1;
    }
  }

  // ----- the run of a word -----

  /** A state of the CPU within the only activation of a word. */
  function OnlyFrame(w: nat, pc: int, st: WordState): State {
    State(st.stack, [Frame(None, st.locals)], Some(Ip(w, pc)))
  }

  /** The state in which a word starts. */
  function Fresh(stack: seq<int32>, numLocals: nat): WordState {
    WordState(stack, seq(numLocals, _ => None))
  }

  /** The opcode calls an interpreted word. */
  predicate CallsWord(words: seq<Word>, op: Opcode) {
    op.Call? && op.target.Some? && op.target.value < |words| && words[op.target.value].Interpreted?
  }

  /** Opcodes other than calls of interpreted words do the same to the CPU and to the state of the word. */
  lemma PlainAgrees(words: seq<Word>, natives: Natives, w: nat, pc: nat, st: WordState, fuel: nat)
    requires w < |words| && words[w].Interpreted? && pc < |words[w].code| && fuel > 0
    requires !CallsWord(words, words[w].code[pc])
    ensures var o, r := Step1(AllCalls(words, natives), words[w].code, pc, st, fuel),
            Step(words, natives, OnlyFrame(w, pc, st));
            match o
            case At(next, st', _) => r == Some(OnlyFrame(w, next, st'))
            case Left(st', _) => r == Some(State(st'.stack, [], None))
            case Stuck => r == None
    ensures Step1(AllCalls(words, natives), words[w].code, pc, st, fuel) ==
            Step1(NativeCalls(words, natives), words[w].code, pc, st, fuel)
  {
    var s := OnlyFrame(w, pc, st);
    StepAgrees(words, natives, s, Ip(w, pc), fuel);
    var o := Step1(AllCalls(words, natives), words[w].code, pc, st, fuel);
    assert o == Step1(NativeCalls(words, natives), words[w].code, pc, st, fuel);
    if o.At? {
      assert WithWordState(s, o.st, Some(Ip(w, o.pc))) == OnlyFrame(w, o.pc, o.st);
    }
    assert Exit(s) == Some(State(st.stack, [], None));
  }

  /** A call of an interpreted word starts it on top of the caller. */
  lemma CallEnters(words: seq<Word>, natives: Natives, w: nat, pc: nat, st: WordState)
    requires w < |words| && words[w].Interpreted? && pc < |words[w].code| && CallsWord(words, words[w].code[pc])
    ensures var u := words[w].code[pc].target.value;
            && Step(words, natives, OnlyFrame(w, pc, st)) ==
               Some(Under(OnlyFrame(w, pc + 1, st), Start(words, u, st.stack)))
            && Alone(Start(words, u, st.stack))
  {
    var u := words[w].code[pc].target.value;
    var s := JumpBy(OnlyFrame(w, pc, st), 1);
    assert Enter(s, u, words[u].numLocals) == Under(OnlyFrame(w, pc + 1, st), Start(words, u, st.stack));
  }

  /** When the CPU returns from a word, its opcodes return, with calls as functions on the data stack. */
  lemma {:induction false} CpuToWord(words: seq<Word>, natives: Natives, w: nat, pc: int, st: WordState, n: nat)
    returns (f: nat)
    requires w < |words| && words[w].Interpreted? && Returns(words, natives, OnlyFrame(w, pc, st), n)
    ensures var o := RunIn(AllCalls(words, natives), words[w].code, 0, |words[w].code|, pc, st, f);
            o.Left? && o.st.stack == Run(words, natives, OnlyFrame(w, pc, st), n).value.stack
    decreases n
  {
    hide Step, Denotes, Start;
    var s, calls := OnlyFrame(w, pc, st), AllCalls(words, natives);
    InRange(words, natives, w, pc, st, n);
    if CallsWord(words, words[w].code[pc]) {
      CallEnters(words, natives, w, pc, st);
      var u := words[w].code[pc].target.value;
      var m := ReturnedBefore(words, natives, OnlyFrame(w, pc + 1, st), Start(words, u, st.stack), n - 1);
      DenotesRun(words, natives, u, st.stack, m);
      var st' := st.(stack := Run(words, natives, Start(words, u, st.stack), m).value.stack);
      f := CpuToWord(words, natives, w, pc + 1, st', n - 1 - m);
    } else {
      PlainAgrees(words, natives, w, pc, st, 1);
      var o := Step1(calls, words[w].code, pc, st, 1);
      f := 0;
      if o.At? {
        f := CpuToWord(words, natives, w, o.pc, o.st, n - 1);
      }
    }
    f := f + 1;
  }

  lemma InRange(words: seq<Word>, natives: Natives, w: nat, pc: int, st: WordState, n: nat)
    requires w < |words| && words[w].Interpreted? && Returns(words, natives, OnlyFrame(w, pc, st), n)
    ensures n > 0 && 0 <= pc < |words[w].code|
  {
  }

  /** When the opcodes of a word return, so does the CPU. */
  lemma {:induction false} WordToCpu(words: seq<Word>, natives: Natives, w: nat, pc: int, st: WordState, f: nat)
    returns (n: nat)
    requires w < |words| && words[w].Interpreted?
    requires RunIn(AllCalls(words, natives), words[w].code, 0, |words[w].code|, pc, st, f).Left?
    ensures Returns(words, natives, OnlyFrame(w, pc, st), n)
    ensures Run(words, natives, OnlyFrame(w, pc, st), n).value.stack ==
            RunIn(AllCalls(words, natives), words[w].code, 0, |words[w].code|, pc, st, f).st.stack
    decreases f
  {
    hide Step, Denotes, Start;
    var calls := AllCalls(words, natives);
    var o := Step1(calls, words[w].code, pc, st, f);
    if CallsWord(words, words[w].code[pc]) {
      CallEnters(words, natives, w, pc, st);
      var u := words[w].code[pc].target.value;
      var m := DenotedBy(words, natives, u, st.stack);
      assert OnlyFrame(w, pc + 1, st).(stack := o.st.stack) == OnlyFrame(w, pc + 1, o.st);
      n := WordToCpu(words, natives, w, pc + 1, o.st, f - 1);
      m := ReturnUnder(words, natives, OnlyFrame(w, pc + 1, st), Start(words, u, st.stack), m, n);
      n := m + n;
      assert Returns(words, natives, Step(words, natives, OnlyFrame(w, pc, st)).value, n);
    } else {
      PlainAgrees(words, natives, w, pc, st, f);
      n := 0;
      if o.At? {
        n := WordToCpu(words, natives, w, o.pc, o.st, f - 1);
      }
      assert Returns(words, natives, Step(words, natives, OnlyFrame(w, pc, st)).value, n);
    }
    assert Returns(words, natives, OnlyFrame(w, pc, st), n + 1);
    n := n + 1;
  }

  lemma DenotedBy(words: seq<Word>, natives: Natives, w: nat, stack: seq<int32>) returns (n: nat)
    requires w < |words| && words[w].Interpreted? && Denotes(words, natives, w, stack).Some?
    ensures Returns(words, natives, Start(words, w, stack), n)
    ensures Denotes(words, natives, w, stack) == Some(Run(words, natives, Start(words, w, stack), n).value.stack)
  {
    n :| Returns(words, natives, Start(words, w, stack), n);
    DenotesRun(words, natives, w, stack, n);
  }

  /** With calls as functions on the data stack, and with a limited number of opcodes, a word returns with this data
      stack. */
  ghost predicate LeavesWith(calls: Calls, code: seq<Opcode>, st: WordState, after: seq<int32>, f: nat) {
    var o := RunIn(calls, code, 0, |code|, 0, st, f);
    o.Left? && o.st.stack == after
  }

  /** What a word does to the data stack is what its opcodes do, with calls as functions on the data stack. */
  lemma DenotesIsWord(words: seq<Word>, natives: Natives, w: nat, stack: seq<int32>, after: seq<int32>)
    requires w < |words| && words[w].Interpreted?
    ensures Denotes(words, natives, w, stack) == Some(after) <==>
            exists f: nat ::
                   LeavesWith(AllCalls(words, natives), words[w].code, Fresh(stack, words[w].numLocals), after, f)
  {
    hide Run, RunIn, Denotes, Returns;
    var st, code, calls := Fresh(stack, words[w].numLocals), words[w].code, AllCalls(words, natives);
    assert Start(words, w, stack) == OnlyFrame(w, 0, st);
    if Denotes(words, natives, w, stack) == Some(after) {
      var n := DenotedBy(words, natives, w, stack);
      var f := CpuToWord(words, natives, w, 0, st, n);
      assert LeavesWith(calls, code, st, after, f);
    }
    if f: nat :| LeavesWith(calls, code, st, after, f) {
      var n := WordToCpu(words, natives, w, 0, st, f);
      DenotesRun(words, natives, w, stack, n);
    }
  }
}
