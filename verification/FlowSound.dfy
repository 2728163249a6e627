/** Flow analysis is sound: what it says of a word holds of every run of the virtual CPU. */
module FlowSound {
  import opened Base
  import opened Machine
  import opened Effects
  import opened Flow

  function NativeFn(natives: Natives, ccode: string): StackFn {
    (st: seq<int32>) => natives(ccode, st)
  }

  /** Native words do what their declared effects say. */
  ghost predicate NativesObey(words: seq<Word>, declared: seq<SType>, natives: Natives) {
    |declared| == |words| &&
    forall v | 0 <= v < |words| && words[v].Native? && declared[v].IsKnown() ::
      Obeys(NativeFn(natives, words[v].ccode), declared[v])
  }

  /** A program whose words were analysed. */
  ghost predicate Checked(words: seq<Word>, declared: seq<SType>, natives: Natives, T: seq<Info>) {
    Machine.Linked(words) && TableOk(words, declared, T) && NativesObey(words, declared, natives)
  }

  // ----- the invariant of a run -----

  /** An activation of a word, entered at stack depth entry and now at depth h, is where annotations c say. */
  ghost predicate Active(words: seq<Word>, declared: seq<SType>, T: seq<Info>, top: Frame, ip: Ip, h: int, entry: int,
                         c: Cert)
    requires |T| == |words| == |declared|
  {
    && ip.word < |words| && words[ip.word].Interpreted? && T[ip.word].flow == 1
    && AnalysedWith(words, declared, T, ip.word, c)
    && |top.locals| == words[ip.word].numLocals
    && DepthAt(c.sa, ip.off, h - entry) && entry + c.maxDepth >= 0
  }

  /** The limits of a run: cells of the return stack, and the depth of the data stack up to which analysed words
      count. */
  datatype Limits = Limits(cells: nat, depth: int)

  /** Those of a word that is started with its arguments only. */
  function WordLimits(i: Info): Limits {
    Limits(i.maxReturnStack, i.effect.din + i.maxDataStack)
  }

  /** The frames are activations of analysed words, up to the first one that never exits; h is the depth at which
      execution continues at cur, final the depth at which the outermost word returns. */
  ghost predicate Live(words: seq<Word>, declared: seq<SType>, T: seq<Info>, frames: seq<Frame>, cur: Option<Ip>,
                       h: int, final: int, limit: Limits)
    requires |T| == |words| == |declared|
    decreases |frames|
  {
    if frames == [] then cur == None && h == final
    else
      var top, below := frames[|frames| - 1], frames[..|frames| - 1];
      cur.Some? && exists entry, c ::
        && Active(words, declared, T, top, cur.value, h, entry, c)
        && Cells(below) + T[cur.value.word].maxReturnStack <= limit.cells
           && entry + T[cur.value.word].maxDataStack <= limit.depth
        && (T[cur.value.word].effect.dout >= 0 ==>
              Live(words, declared, T, below, top.saved,
                   entry + T[cur.value.word].effect.dout - T[cur.value.word].effect.din, final, limit))
  }

  /** The same, for a given entry depth and annotations of the topmost activation. */
  ghost predicate LiveTop(words: seq<Word>, declared: seq<SType>, T: seq<Info>, frames: seq<Frame>, ip: Ip, h: int,
                          final: int, limit: Limits, entry: int, c: Cert)
    requires |T| == |words| == |declared| && frames != []
  {
    var top, below := frames[|frames| - 1], frames[..|frames| - 1];
    && Active(words, declared, T, top, ip, h, entry, c)
    && Cells(below) + T[ip.word].maxReturnStack <= limit.cells && entry + T[ip.word].maxDataStack <= limit.depth
    && (T[ip.word].effect.dout >= 0 ==> Live(words, declared, T, below, top.saved,
                                             entry + T[ip.word].effect.dout - T[ip.word].effect.din, final, limit))
  }

  ghost predicate LiveState(words: seq<Word>, declared: seq<SType>, T: seq<Info>, s: State, final: int, limit: Limits)
    requires |T| == |words| == |declared|
  {
    Live(words, declared, T, s.frames, s.ip, |s.stack|, final, limit)
  }

  /** Execution moves within the topmost activation. */
  lemma LiveMoves(words: seq<Word>, declared: seq<SType>, T: seq<Info>, frames: seq<Frame>, ip: Ip, h: int, final: int,
                  limit: Limits, entry: int, c: Cert, frames': seq<Frame>, off: int, h': int)
    requires |T| == |words| == |declared| && frames != []
    requires LiveTop(words, declared, T, frames, ip, h, final, limit, entry, c)
    requires |frames'| == |frames| && frames'[..|frames| - 1] == frames[..|frames| - 1]
    requires var top, top' := frames[|frames| - 1], frames'[|frames| - 1];
             top'.saved == top.saved && |top'.locals| == |top.locals|
    requires DepthAt(c.sa, off, h' - entry)
    ensures Live(words, declared, T, frames', Some(Ip(ip.word, off)), h', final, limit)
  {
    hide Live, AnalysedWith;
    assert LiveTop(words, declared, T, frames', Ip(ip.word, off), h', final, limit, entry, c);
    LiveIntro(words, declared, T, frames', Ip(ip.word, off), h', final, limit, entry, c);
  }

  lemma LiveIntro(words: seq<Word>, declared: seq<SType>, T: seq<Info>, frames: seq<Frame>, ip: Ip, h: int, final: int,
                  limit: Limits, entry: int, c: Cert)
    requires |T| == |words| == |declared| && frames != []
    requires LiveTop(words, declared, T, frames, ip, h, final, limit, entry, c)
    ensures Live(words, declared, T, frames, Some(ip), h, final, limit)
  {
    hide Active;
  }

  lemma LiveElim(words: seq<Word>, declared: seq<SType>, T: seq<Info>, frames: seq<Frame>, cur: Option<Ip>, h: int,
                 final: int, limit: Limits) returns (entry: int, c: Cert)
    requires |T| == |words| == |declared| && Live(words, declared, T, frames, cur, h, final, limit) && cur.Some?
    ensures frames != [] && LiveTop(words, declared, T, frames, cur.value, h, final, limit, entry, c)
  {
    hide AnalysedWith;
    assert frames != [];
    var top, below := frames[|frames| - 1], frames[..|frames| - 1];
    entry, c :| Active(words, declared, T, top, cur.value, h, entry, c)
        && Cells(below) + T[cur.value.word].maxReturnStack <= limit.cells
           && entry + T[cur.value.word].maxDataStack <= limit.depth
        && (T[cur.value.word].effect.dout >= 0 ==>
              Live(words, declared, T, below, top.saved,
                   entry + T[cur.value.word].effect.dout - T[cur.value.word].effect.din, final, limit));
  }

  /** What the annotations say where execution is. */
  lemma AtOpcode(words: seq<Word>, declared: seq<SType>, T: seq<Info>, top: Frame, ip: Ip, h: int, entry: int, c: Cert)
    requires |T| == |words| == |declared| && Active(words, declared, T, top, ip, h, entry, c)
    ensures ip.word < |words| && words[ip.word].Interpreted? && 0 <= ip.off < |words[ip.word].code| == |c.sa|
    ensures var op := words[ip.word].code[ip.off];
            && OpcodeOk(words, T, words[ip.word].code, c, ip.off) && CallReady(words, T, op)
            && CalleeReturns(words, T, op) <= c.callees && DataPoint(words, T, op, h - entry) <= c.extra
            && entry + LowPoint(T, op, h - entry) >= 0
  {
    hide Tight, Reachable, LowPoint, DataPoint, CallReady, CalleeReturns;
    CertAt(words, T, words[ip.word].code, c, ip.off);
  }

  /** A word that returns has the exit depth of its effect. */
  lemma ExitEffect(words: seq<Word>, declared: seq<SType>, T: seq<Info>, w: nat, c: Cert)
    requires w < |words| == |declared| == |T| && words[w].Interpreted? && AnalysedWith(words, declared, T, w, c)
    ensures -c.maxDepth <= T[w].effect.din && T[w].effect.IsKnown()
    ensures c.exit.Some? ==> T[w].effect.dout >= 0 && c.exit.value == T[w].effect.dout - T[w].effect.din
  {
    hide Reachable, LowPoint, DataPoint, CallReady, CalleeReturns;
    var code := words[w].code;
    if c.exit.Some? {
      var k :| 0 <= k < |code| && c.sa[k].Some? && code[k].Ret?;
      CertAt(words, T, code, c, k);
      LowPointOfReturn(T, code[k], c.sa[k].value);
    }
  }

  lemma LowPointOfReturn(T: seq<Info>, op: Opcode, x: int)
    requires op.Ret?
    ensures LowPoint(T, op, x) == x
  {
  }

  // ----- one step -----

  /** The opcode at which execution stops: a call of a native word that does not return. */
  predicate StuckInNative(words: seq<Word>, natives: Natives, s: State) {
    match Fetch(words, s)
    case Some(Call(Some(u))) => u < |words| && words[u].Native? && natives(words[u].ccode, s.stack).None?
    case _ => false
  }

  /** The outcome of a step is a live state, or execution stops in a native word. */
  ghost predicate StepFine(words: seq<Word>, declared: seq<SType>, natives: Natives, T: seq<Info>, s: State, final: int,
                           limit: Limits)
    requires |T| == |words| == |declared|
  {
    match Step(words, natives, s)
    case None => StuckInNative(words, natives, s)
    case Some(t) => LiveState(words, declared, T, t, final, limit)
  }

  lemma FetchLive(words: seq<Word>, declared: seq<SType>, T: seq<Info>, s: State, final: int, limit: Limits)
    returns (entry: int, c: Cert)
    requires |T| == |words| == |declared| && LiveState(words, declared, T, s, final, limit) && s.ip.Some?
    ensures s.frames != [] && LiveTop(words, declared, T, s.frames, s.ip.value, |s.stack|, final, limit, entry, c)
    ensures Active(words, declared, T, s.frames[|s.frames| - 1], s.ip.value, |s.stack|, entry, c)
    ensures s.ip.value.word < |words| && words[s.ip.value.word].Interpreted?
    ensures 0 <= s.ip.value.off < |words[s.ip.value.word].code|
    ensures Fetch(words, s) == Some(words[s.ip.value.word].code[s.ip.value.off])
  {
    hide AnalysedWith;
    entry, c := LiveElim(words, declared, T, s.frames, s.ip, |s.stack|, final, limit);
    AtOpcode(words, declared, T, s.frames[|s.frames| - 1], s.ip.value, |s.stack|, entry, c);
  }

  /** Opcodes other than calls and returns change the depth as the analysis says, and stay in their frame. */
  lemma PlainExecutes(words: seq<Word>, natives: Natives, T: seq<Info>, s: State, op: Opcode, numLocals: nat)
    requires s.ip.Some? && s.frames != [] && |s.frames[|s.frames| - 1].locals| == numLocals && !op.Call? && !op.Ret?
    requires |s.stack| + Delta(T, op) >= 0
    requires op.GetLocal? || op.PutLocal? ==> op.num < numLocals
    ensures var t := Execute(words, natives, JumpBy(s, 1), op);
            && t.Some? && t.value.ip.Some? && t.value.ip.value.word == s.ip.value.word
               && |t.value.stack| == |s.stack| + Delta(T, op)
            && ((t.value.ip.value.off == s.ip.value.off + 1 && op.MayFallThrough())
                || (t.value.ip.value.off == s.ip.value.off + 1 + op.JumpDisp() && op.JumpDisp() != 0))
            && |t.value.frames| == |s.frames| && t.value.frames[..|s.frames| - 1] == s.frames[..|s.frames| - 1]
            && t.value.frames[|s.frames| - 1].saved == s.frames[|s.frames| - 1].saved
            && |t.value.frames[|s.frames| - 1].locals| == numLocals
  {
  }

  /** Opcodes other than calls and returns. */
  lemma PlainStep(words: seq<Word>, declared: seq<SType>, natives: Natives, T: seq<Info>, s: State, final: int,
                  limit: Limits)
    requires |T| == |words| == |declared| && Checked(words, declared, natives, T)
    requires LiveState(words, declared, T, s, final, limit) && s.ip.Some?
    requires Fetch(words, s).Some? && !Fetch(words, s).value.Call? && !Fetch(words, s).value.Ret?
    ensures Step(words, natives, s).Some? && StepFine(words, declared, natives, T, s, final, limit)
  {
    hide Checked, AnalysedWith, Live, TableOk, Execute, Fetch;
    var entry, c := FetchLive(words, declared, T, s, final, limit);
    AtOpcode(words, declared, T, s.frames[|s.frames| - 1], s.ip.value, |s.stack|, entry, c);
    var ip, op := s.ip.value, Fetch(words, s).value;
    LocalsInRange(words, declared, natives, T, ip);
    PlainExecutes(words, natives, T, s, op, words[ip.word].numLocals);
    var t := Step(words, natives, s).value;
    LiveMoves(words, declared, T, s.frames, ip, |s.stack|, final, limit, entry, c, t.frames, t.ip.value.off, |t.stack|);
  }

  lemma LocalsInRange(words: seq<Word>, declared: seq<SType>, natives: Natives, T: seq<Info>, ip: Ip)
    requires Checked(words, declared, natives, T) && ip.word < |words| && words[ip.word].Interpreted?
    requires 0 <= ip.off < |words[ip.word].code|
    ensures WellFormedAt(words[ip.word].numLocals, words[ip.word].code, ip.off)
  {
  }

  /** A native word, on a stack that is deep enough, does what its effect says. */
  lemma NativeActs(words: seq<Word>, declared: seq<SType>, natives: Natives, T: seq<Info>, u: nat, stack: seq<int32>)
    requires Checked(words, declared, natives, T) && u < |words| == |T| && words[u].Native? && T[u].effect.IsKnown()
    requires |stack| >= T[u].effect.din
    ensures ObeysOn(NativeFn(natives, words[u].ccode), T[u].effect, stack[..|stack| - T[u].effect.din],
                    stack[|stack| - T[u].effect.din..])
    ensures var r := natives(words[u].ccode, stack);
            r.Some? ==> T[u].effect.dout >= 0 && |r.value| == |stack| - T[u].effect.din + T[u].effect.dout
  {
    hide Machine.Linked;
    assert InfoOk(words, declared, T, u);
    var below, args := stack[..|stack| - T[u].effect.din], stack[|stack| - T[u].effect.din..];
    assert ObeysOn(NativeFn(natives, words[u].ccode), T[u].effect, below, args);
    assert below + args == stack;
  }

  lemma NativeStep(words: seq<Word>, declared: seq<SType>, natives: Natives, T: seq<Info>, s: State, final: int,
                   limit: Limits, u: nat)
    requires |T| == |words| == |declared| && Checked(words, declared, natives, T)
    requires LiveState(words, declared, T, s, final, limit) && s.ip.Some?
    requires Fetch(words, s) == Some(Call(Some(u))) && u < |words| && words[u].Native?
    ensures StepFine(words, declared, natives, T, s, final, limit)
  {
    hide Checked, AnalysedWith, Live, TableOk, Fetch;
    var entry, c := FetchLive(words, declared, T, s, final, limit);
    AtOpcode(words, declared, T, s.frames[|s.frames| - 1], s.ip.value, |s.stack|, entry, c);
    NativeActs(words, declared, natives, T, u, s.stack);
    if Step(words, natives, s).Some? {
      var t := Step(words, natives, s).value;
      LiveMoves(words, declared, T, s.frames, s.ip.value, |s.stack|, final, limit, entry, c, t.frames, t.ip.value.off,
                |t.stack|);
    }
  }

  /** Entering an analysed word. */
  lemma EnterLive(words: seq<Word>, declared: seq<SType>, T: seq<Info>, s: State, u: nat, final: int, limit: Limits)
    requires TableOk(words, declared, T) && |T| == |words| == |declared|
    requires u < |words| && words[u].Interpreted? && T[u].flow == 1 && |s.stack| >= T[u].effect.din
    requires T[u].effect.dout >= 0 ==>
             Live(words, declared, T, s.frames, s.ip, |s.stack| + T[u].effect.dout - T[u].effect.din, final, limit)
    requires Cells(s.frames) + T[u].maxReturnStack <= limit.cells && |s.stack| + T[u].maxDataStack <= limit.depth
    ensures LiveState(words, declared, T, Enter(s, u, words[u].numLocals), final, limit)
  {
    hide Live, AnalysedWith, TableOk, Cells;
    var c := StartCert(words, declared, T, u);
    var t := Enter(s, u, words[u].numLocals);
    assert t.frames[..|t.frames| - 1] == s.frames;
    assert LiveTop(words, declared, T, t.frames, t.ip.value, |s.stack|, final, limit, |s.stack|, c);
    LiveIntro(words, declared, T, t.frames, t.ip.value, |s.stack|, final, limit, |s.stack|, c);
  }

  /** The annotations of an analysed word start at depth 0, and go no deeper than what the word consumes. */
  lemma StartCert(words: seq<Word>, declared: seq<SType>, T: seq<Info>, u: nat) returns (c: Cert)
    requires TableOk(words, declared, T) && |T| == |words| == |declared|
    requires u < |words| && words[u].Interpreted? && T[u].flow == 1
    ensures AnalysedWith(words, declared, T, u, c) && DepthAt(c.sa, 0, 0) && -c.maxDepth <= T[u].effect.din
  {
    hide CertOk;
    assert InfoOk(words, declared, T, u);
    c :| AnalysedWith(words, declared, T, u, c);
    ExitEffect(words, declared, T, u, c);
    CertSizes(words, T, words[u].code, c);
  }

  lemma CellsSplit(frames: seq<Frame>)
    requires frames != []
    ensures Cells(frames) == Cells(frames[..|frames| - 1]) + 1 + |frames[|frames| - 1].locals|
  {
  }

  lemma EnterStep(words: seq<Word>, declared: seq<SType>, natives: Natives, T: seq<Info>, s: State, final: int,
                  limit: Limits, u: nat)
    requires |T| == |words| == |declared| && Checked(words, declared, natives, T)
    requires LiveState(words, declared, T, s, final, limit) && s.ip.Some?
    requires Fetch(words, s) == Some(Call(Some(u))) && u < |words| && words[u].Interpreted?
    ensures Step(words, natives, s).Some? && StepFine(words, declared, natives, T, s, final, limit)
  {
    hide CertOk, Live, TableOk, Fetch, Machine.Linked, NativesObey;
    var entry, c := FetchLive(words, declared, T, s, final, limit);
    var ip := s.ip.value;
    AtOpcode(words, declared, T, s.frames[|s.frames| - 1], ip, |s.stack|, entry, c);
    var t := JumpBy(s, 1);
    CellsSplit(s.frames);
    if T[u].effect.dout >= 0 {
      LiveMoves(words, declared, T, s.frames, ip, |s.stack|, final, limit, entry, c, s.frames, ip.off + 1,
                |s.stack| + T[u].effect.dout - T[u].effect.din);
    }
    EnterLive(words, declared, T, t, u, final, limit);
  }

  lemma ReturnStep(words: seq<Word>, declared: seq<SType>, natives: Natives, T: seq<Info>, s: State, final: int,
                   limit: Limits)
    requires |T| == |words| == |declared| && Checked(words, declared, natives, T)
    requires LiveState(words, declared, T, s, final, limit) && s.ip.Some?
    requires Fetch(words, s) == Some(Ret)
    ensures Step(words, natives, s).Some? && StepFine(words, declared, natives, T, s, final, limit)
  {
    hide CertOk, Live, TableOk, Fetch, Checked;
    var entry, c := FetchLive(words, declared, T, s, final, limit);
    var ip := s.ip.value;
    AtOpcode(words, declared, T, s.frames[|s.frames| - 1], ip, |s.stack|, entry, c);
    ExitEffect(words, declared, T, ip.word, c);
  }

  /** A live state stays live: nothing underflows, and only a native word can stop execution. */
  lemma LiveStep(words: seq<Word>, declared: seq<SType>, natives: Natives, T: seq<Info>, s: State, final: int,
                 limit: Limits)
    requires |T| == |words| == |declared| && Checked(words, declared, natives, T)
    requires LiveState(words, declared, T, s, final, limit) && s.ip.Some?
    ensures StepFine(words, declared, natives, T, s, final, limit)
  {
    hide Checked, LiveState, StepFine, Fetch, CallReady, Step;
    var entry, c := FetchLive(words, declared, T, s, final, limit);
    AtOpcode(words, declared, T, s.frames[|s.frames| - 1], s.ip.value, |s.stack|, entry, c);
    match Fetch(words, s).value
    case Call(target) =>
      TargetKnown(words, T, target);
      match words[target.value] {
        case Native(_) => NativeStep(words, declared, natives, T, s, final, limit, target.value);
        case Interpreted(_, _) => EnterStep(words, declared, natives, T, s, final, limit, target.value);
      }
    case Ret => ReturnStep(words, declared, natives, T, s, final, limit);
    case _ => PlainStep(words, declared, natives, T, s, final, limit);
  }

  lemma TargetKnown(words: seq<Word>, T: seq<Info>, target: Option<nat>)
    requires |T| == |words| && CallReady(words, T, Call(target))
    ensures target.Some? && target.value < |words|
  {
  }

  // ----- what lies below does not matter -----

  /** The same state on top of other stack elements. */
  function Above(below: seq<int32>, s: State): State {
    s.(stack := below + s.stack)
  }

  function AboveIfSome(below: seq<int32>, s: Option<State>): Option<State> {
    if s.None? then None else Some(Above(below, s.value))
  }

  lemma PlainAbove(words: seq<Word>, natives: Natives, T: seq<Info>, s: State, op: Opcode, below: seq<int32>)
    requires s.ip.Some? && !op.Call? && !op.Ret? && |s.stack| + Delta(T, op) >= 0
    ensures Execute(words, natives, JumpBy(Above(below, s), 1), op) ==
            AboveIfSome(below, Execute(words, natives, JumpBy(s, 1), op))
  {
    if s.stack != [] {
      var n := |s.stack| - 1;
      assert (below + s.stack)[..|below| + n] == below + s.stack[..n];
    }
    if op.Const? {
      assert below + (s.stack + [op.val]) == (below + s.stack) + [op.val];
    }
    if op.GetLocal? {
      assert forall v: int32 :: below + (s.stack + [v]) == (below + s.stack) + [v];
    }
  }

  lemma NativeAbove(words: seq<Word>, declared: seq<SType>, natives: Natives, T: seq<Info>, u: nat, stack: seq<int32>,
                    below: seq<int32>)
    requires Checked(words, declared, natives, T) && u < |words| == |T| && words[u].Native? && T[u].effect.IsKnown()
    requires |stack| >= T[u].effect.din
    ensures var r := natives(words[u].ccode, stack);
            natives(words[u].ccode, below + stack) == if r.None? then None else Some(below + r.value)
  {
    hide Machine.Linked;
    assert InfoOk(words, declared, T, u);
    var rest, args := stack[..|stack| - T[u].effect.din], stack[|stack| - T[u].effect.din..];
    var f := NativeFn(natives, words[u].ccode);
    assert ObeysOn(f, T[u].effect, rest, args) && ObeysOn(f, T[u].effect, below + rest, args);
    assert rest + args == stack && (below + rest) + args == below + stack;
    if f(args).Some? {
      assert (below + rest) + f(args).value == below + (rest + f(args).value);
    }
  }

  /** A step from a live state does the same on top of any other elements. */
  lemma StepAbove(words: seq<Word>, declared: seq<SType>, natives: Natives, T: seq<Info>, s: State, final: int,
                  limit: Limits, below: seq<int32>)
    requires |T| == |words| == |declared| && Checked(words, declared, natives, T)
    requires LiveState(words, declared, T, s, final, limit) && s.ip.Some?
    ensures Step(words, natives, Above(below, s)) == AboveIfSome(below, Step(words, natives, s))
  {
    hide Checked, LiveState, Fetch, Live, AnalysedWith;
    var entry, c := FetchLive(words, declared, T, s, final, limit);
    AtOpcode(words, declared, T, s.frames[|s.frames| - 1], s.ip.value, |s.stack|, entry, c);
    var op := Fetch(words, s).value;
    FetchAbove(words, s, below);
    if op.Call? {
      var u := op.target.value;
      if words[u].Native? {
        NativeAbove(words, declared, natives, T, u, s.stack, below);
      }
    } else if !op.Ret? {
      PlainAbove(words, natives, T, s, op, below);
    }
  }

  lemma FetchAbove(words: seq<Word>, s: State, below: seq<int32>)
    ensures Fetch(words, Above(below, s)) == Fetch(words, s)
  {
  }

  // ----- whole runs -----

  /** The outcome of a run: a live state, or a native word did not return. */
  ghost predicate RunFine(words: seq<Word>, declared: seq<SType>, natives: Natives, T: seq<Info>, s: State, n: nat,
                          final: int, limit: Limits)
    requires |T| == |words| == |declared|
  {
    match Run(words, natives, s, n)
    case None => exists m :: 0 <= m < n && StuckAfter(words, natives, s, m)
    case Some(t) => LiveState(words, declared, T, t, final, limit)
  }

  /** After m steps, a native word is called that does not return. */
  predicate StuckAfter(words: seq<Word>, natives: Natives, s: State, m: nat) {
    Run(words, natives, s, m).Some? && StuckInNative(words, natives, Run(words, natives, s, m).value)
  }

  lemma {:induction false} LiveRun(words: seq<Word>, declared: seq<SType>, natives: Natives, T: seq<Info>, s: State,
                                   n: nat, final: int, limit: Limits)
    requires |T| == |words| == |declared| && Checked(words, declared, natives, T)
    requires LiveState(words, declared, T, s, final, limit)
    ensures RunFine(words, declared, natives, T, s, n, final, limit)
    decreases n
  {
    hide Checked, LiveState, StuckInNative, Step;
    if n > 0 && s.ip.Some? {
      LiveStep(words, declared, natives, T, s, final, limit);
      if Step(words, natives, s).Some? {
        var t := Step(words, natives, s).value;
        LiveRun(words, declared, natives, T, t, n - 1, final, limit);
        if Run(words, natives, t, n - 1).None? {
          var m :| 0 <= m < n - 1 && StuckAfter(words, natives, t, m);
          assert StuckAfter(words, natives, s, m + 1);
        }
      } else {
        assert StuckAfter(words, natives, s, 0);
      }
    }
  }

  lemma {:induction false} RunAbove(words: seq<Word>, declared: seq<SType>, natives: Natives, T: seq<Info>, s: State,
                                    n: nat, final: int, limit: Limits, below: seq<int32>)
    requires |T| == |words| == |declared| && Checked(words, declared, natives, T)
    requires LiveState(words, declared, T, s, final, limit)
    ensures Run(words, natives, Above(below, s), n) == AboveIfSome(below, Run(words, natives, s, n))
    decreases n
  {
    hide Checked, LiveState, StuckInNative, Step;
    if n > 0 && s.ip.Some? {
      LiveStep(words, declared, natives, T, s, final, limit);
      StepAbove(words, declared, natives, T, s, final, limit, below);
      if Step(words, natives, s).Some? {
        RunAbove(words, declared, natives, T, Step(words, natives, s).value, n - 1, final, limit, below);
      }
    }
  }

  // ----- runs with initial values and a return stack of limited size -----

  /** The locals of the topmost frame do not matter to a live state. */
  lemma FilledLive(words: seq<Word>, declared: seq<SType>, T: seq<Info>, s: State, final: int, limit: Limits,
                   init: Locals)
    requires |T| == |words| == |declared| && LiveState(words, declared, T, s, final, limit) && s.ip.Some?
    requires s.frames != []
    ensures LiveState(words, declared, T, Fill(s, init), final, limit)
  {
    hide AnalysedWith, Live, Cells;
    var entry, c := LiveElim(words, declared, T, s.frames, s.ip, |s.stack|, final, limit);
    LiveMoves(words, declared, T, s.frames, s.ip.value, |s.stack|, final, limit, entry, c, Fill(s, init).frames,
              s.ip.value.off, |s.stack|);
  }

  /** With room for the computed bound, a live state stays live, or a native word does not return. */
  lemma LiveStepOn(words: seq<Word>, declared: seq<SType>, natives: Natives, T: seq<Info>, s: State, final: int,
                   limit: Limits, init: Locals, cells: nat)
    requires |T| == |words| == |declared| && Checked(words, declared, natives, T) && limit.cells <= cells
    requires LiveState(words, declared, T, s, final, limit) && s.ip.Some?
    ensures match StepOn(words, natives, init, cells, s)
            case None => StuckInNative(words, natives, s)
            case Some(t) => LiveState(words, declared, T, t, final, limit)
  {
    hide Checked, LiveState, StuckInNative, Step, Cells;
    LiveStep(words, declared, natives, T, s, final, limit);
    if Step(words, natives, s).Some? {
      var t := Step(words, natives, s).value;
      LiveFits(words, declared, T, t, final, limit);
      if |t.frames| > |s.frames| {
        Entered(words, natives, s);
        FilledLive(words, declared, T, t, final, limit, init);
      }
    }
  }

  lemma Entered(words: seq<Word>, natives: Natives, s: State)
    requires Step(words, natives, s).Some? && |Step(words, natives, s).value.frames| > |s.frames|
    ensures Step(words, natives, s).value.ip.Some?
    ensures forall k | 0 <= k < |Step(words, natives, s).value.frames[|s.frames|].locals| ::
              Step(words, natives, s).value.frames[|s.frames|].locals[k].None?
    ensures |Step(words, natives, s).value.frames| == |s.frames| + 1
  {
  }

  lemma StepOnAbove(words: seq<Word>, declared: seq<SType>, natives: Natives, T: seq<Info>, s: State, final: int,
                    limit: Limits, init: Locals, cells: nat, below: seq<int32>)
    requires |T| == |words| == |declared| && Checked(words, declared, natives, T)
    requires LiveState(words, declared, T, s, final, limit) && s.ip.Some?
    ensures StepOn(words, natives, init, cells, Above(below, s)) ==
            AboveIfSome(below, StepOn(words, natives, init, cells, s))
  {
    hide Checked, LiveState, Step, Cells;
    StepAbove(words, declared, natives, T, s, final, limit, below);
  }

  /** After m steps, a native word is called that does not return. */
  predicate StuckOn(words: seq<Word>, natives: Natives, inits: nat -> Locals, cells: nat, s: State, k: nat, m: nat) {
    var t := RunOn(words, natives, inits, cells, s, k, m);
    t.Some? && StuckInNative(words, natives, t.value)
  }

  /** Within n steps, a native word is called that does not return. */
  ghost predicate StuckWithin(words: seq<Word>, natives: Natives, inits: nat -> Locals, cells: nat, s: State, n: nat) {
    exists m :: 0 <= m < n && StuckOn(words, natives, inits, cells, s, 0, m)
  }

  /** The outcome of a run: a live state, or a native word did not return. */
  ghost predicate RunOnFine(words: seq<Word>, declared: seq<SType>, natives: Natives, T: seq<Info>, final: int,
                            limit: Limits, inits: nat -> Locals, cells: nat, s: State, k: nat, n: nat)
    requires |T| == |words| == |declared|
  {
    match RunOn(words, natives, inits, cells, s, k, n)
    case None => exists m :: 0 <= m < n && StuckOn(words, natives, inits, cells, s, k, m)
    case Some(t) => LiveState(words, declared, T, t, final, limit)
  }

  lemma {:induction false} LiveRunOn(words: seq<Word>, declared: seq<SType>, natives: Natives, T: seq<Info>, final: int,
                                     limit: Limits, inits: nat -> Locals, cells: nat, s: State, k: nat, n: nat)
    requires |T| == |words| == |declared| && Checked(words, declared, natives, T) && limit.cells <= cells
    requires LiveState(words, declared, T, s, final, limit)
    ensures RunOnFine(words, declared, natives, T, final, limit, inits, cells, s, k, n)
    decreases n
  {
    hide Checked, LiveState, StuckInNative, StepOn;
    if n > 0 && s.ip.Some? {
      LiveStepOn(words, declared, natives, T, s, final, limit, inits(k), cells);
      var t := StepOn(words, natives, inits(k), cells, s);
      if t.Some? {
        LiveRunOn(words, declared, natives, T, final, limit, inits, cells, t.value, k + 1, n - 1);
        if RunOn(words, natives, inits, cells, t.value, k + 1, n - 1).None? {
          var m :| 0 <= m < n - 1 && StuckOn(words, natives, inits, cells, t.value, k + 1, m);
          assert StuckOn(words, natives, inits, cells, s, k, m + 1);
        }
      } else {
        assert StuckOn(words, natives, inits, cells, s, k, 0);
      }
    }
  }

  lemma {:induction false} RunOnAbove(words: seq<Word>, declared: seq<SType>, natives: Natives, T: seq<Info>,
                                      final: int, limit: Limits, inits: nat -> Locals, cells: nat, s: State, k: nat,
                                      n: nat, below: seq<int32>)
    requires |T| == |words| == |declared| && Checked(words, declared, natives, T) && limit.cells <= cells
    requires LiveState(words, declared, T, s, final, limit)
    ensures RunOn(words, natives, inits, cells, Above(below, s), k, n) ==
            AboveIfSome(below, RunOn(words, natives, inits, cells, s, k, n))
    decreases n
  {
    hide Checked, LiveState, StuckInNative, StepOn;
    if n > 0 && s.ip.Some? {
      LiveStepOn(words, declared, natives, T, s, final, limit, inits(k), cells);
      StepOnAbove(words, declared, natives, T, s, final, limit, inits(k), cells, below);
      var t := StepOn(words, natives, inits(k), cells, s);
      if t.Some? {
        RunOnAbove(words, declared, natives, T, final, limit, inits, cells, t.value, k + 1, n - 1, below);
      }
    }
  }

  lemma StepOnIsStep(words: seq<Word>, declared: seq<SType>, natives: Natives, T: seq<Info>, s: State, final: int,
                     limit: Limits, cells: nat, below: seq<int32>)
    requires |T| == |words| == |declared| && Checked(words, declared, natives, T) && limit.cells <= cells
    requires LiveState(words, declared, T, s, final, limit) && s.ip.Some?
    ensures StepOn(words, natives, UNWRITTEN, cells, Above(below, s)) == Step(words, natives, Above(below, s))
  {
    hide Checked, LiveState, Step, Cells;
    LiveStep(words, declared, natives, T, s, final, limit);
    StepAbove(words, declared, natives, T, s, final, limit, below);
    if Step(words, natives, s).Some? {
      var t := Step(words, natives, s).value;
      LiveFits(words, declared, T, t, final, limit);
      if |t.frames| > |s.frames| {
        Entered(words, natives, s);
        var u := Above(below, t);
        assert u.frames[..|s.frames|] + [u.frames[|s.frames|]] == u.frames;
        assert Fill(u, UNWRITTEN).frames[|s.frames|].locals == u.frames[|s.frames|].locals;
      }
    }
  }

  /** The return stack of the virtual CPU has no limit, which makes no difference to an analysed word. */
  lemma {:induction false} RunOnIsRun(words: seq<Word>, declared: seq<SType>, natives: Natives, T: seq<Info>,
                                      final: int, limit: Limits, cells: nat, s: State, k: nat, n: nat,
                                      below: seq<int32>)
    requires |T| == |words| == |declared| && Checked(words, declared, natives, T) && limit.cells <= cells
    requires LiveState(words, declared, T, s, final, limit)
    ensures RunOn(words, natives, DEFAULTS, cells, Above(below, s), k, n) == Run(words, natives, Above(below, s), n)
    decreases n
  {
    hide Checked, LiveState, StuckInNative, StepOn, Step;
    if n > 0 && s.ip.Some? {
      LiveStep(words, declared, natives, T, s, final, limit);
      StepAbove(words, declared, natives, T, s, final, limit, below);
      StepOnIsStep(words, declared, natives, T, s, final, limit, cells, below);
      if Step(words, natives, s).Some? {
        RunOnIsRun(words, declared, natives, T, final, limit, cells, Step(words, natives, s).value, k + 1, n - 1,
                   below);
      }
    }
  }

  // ----- the theorems -----

  /** A word that was analysed starts in a live state. */
  lemma StartLive(words: seq<Word>, declared: seq<SType>, natives: Natives, T: seq<Info>, w: nat, args: seq<int32>)
    requires |T| == |words| == |declared| && Checked(words, declared, natives, T)
    requires w < |words| && words[w].Interpreted? && T[w].flow == 1 && |args| == T[w].effect.din
    ensures LiveState(words, declared, T, Start(words, w, args), T[w].effect.dout, WordLimits(T[w]))
  {
    hide Machine.Linked, NativesObey, TableOk;
    EnterLive(words, declared, T, State(args, [], None), w, T[w].effect.dout, WordLimits(T[w]));
  }

  /** So it does with any initial values, when there is room for the computed bound. */
  lemma StartOnLive(words: seq<Word>, declared: seq<SType>, natives: Natives, T: seq<Info>, w: nat, args: seq<int32>,
                    first: Locals, cells: nat, below: seq<int32>)
    requires |T| == |words| == |declared| && Checked(words, declared, natives, T)
    requires w < |words| && words[w].Interpreted? && T[w].flow == 1 && |args| == T[w].effect.din
    requires T[w].maxReturnStack <= cells
    ensures var s := StartOn(words, first, cells, w, args);
            && s.Some? && LiveState(words, declared, T, s.value, T[w].effect.dout, WordLimits(T[w]))
            && StartOn(words, first, cells, w, below + args) == Some(Above(below, s.value))
  {
    hide Checked, LiveState;
    StartLive(words, declared, natives, T, w, args);
    var t := Start(words, w, args);
    LiveFits(words, declared, T, t, T[w].effect.dout, WordLimits(T[w]));
    assert t.frames[..0] == [];
    FilledLive(words, declared, T, t, T[w].effect.dout, WordLimits(T[w]), first);
  }

  /** The frames of a live state fit within the limit. */
  lemma LiveFits(words: seq<Word>, declared: seq<SType>, T: seq<Info>, s: State, final: int, limit: Limits)
    requires |T| == |words| == |declared| && LiveState(words, declared, T, s, final, limit)
    ensures Cells(s.frames) <= limit.cells
  {
    hide CertOk;
    if s.frames != [] {
      var entry, c := FetchLive(words, declared, T, s, final, limit);
      CellsSplit(s.frames);
    }
  }

  /** Every run of an analysed word, on a stack with at least as many elements as its effect consumes, with any initial
      values of the locals, and with a return stack of the computed size: nothing underflows and no other error occurs,
      for only a native word that does not return can stop it; what lies below the consumed elements is untouched; the
      frames fit in the computed bound; and if the word returns, then it was not declared or found to have no exit, and
      it leaves as many elements as its effect says. */
  lemma AnalysedRunSafe(words: seq<Word>, declared: seq<SType>, natives: Natives, T: seq<Info>, w: nat,
                        below: seq<int32>, args: seq<int32>, first: Locals, inits: nat -> Locals, cells: nat, n: nat)
    requires Checked(words, declared, natives, T) && w < |words| == |T| && words[w].Interpreted? && T[w].flow == 1
    requires |args| == T[w].effect.din && T[w].maxReturnStack <= cells
    ensures var s := StartOn(words, first, cells, w, below + args);
            s.Some? &&
            match RunOn(words, natives, inits, cells, s.value, 0, n)
            case None => StuckWithin(words, natives, inits, cells, s.value, n)
            case Some(t) =>
              && below <= t.stack && Cells(t.frames) <= T[w].maxReturnStack
              && (t.ip.None? ==> T[w].effect.dout >= 0 && |t.stack| == |below| + T[w].effect.dout)
  {
    hide Checked, LiveState, StuckInNative, RunOn, Cells, StartOn;
    SameSizes(words, declared, natives, T);
    var final, limit := T[w].effect.dout, WordLimits(T[w]);
    StartOnLive(words, declared, natives, T, w, args, first, cells, below);
    var s := StartOn(words, first, cells, w, args).value;
    LiveRunOn(words, declared, natives, T, final, limit, inits, cells, s, 0, n);
    RunOnAbove(words, declared, natives, T, final, limit, inits, cells, s, 0, n, below);
    var r := RunOn(words, natives, inits, cells, s, 0, n);
    if r.Some? {
      LiveFits(words, declared, T, r.value, final, limit);
      if r.value.ip.None? {
        LiveDone(words, declared, T, r.value, final, limit);
      }
    } else {
      var m :| 0 <= m < n && StuckOn(words, natives, inits, cells, s, 0, m);
      StuckAbove(words, declared, natives, T, final, limit, inits, cells, s, 0, m, below);
    }
  }

  /** A live state whose outermost word has returned. */
  lemma LiveDone(words: seq<Word>, declared: seq<SType>, T: seq<Info>, s: State, final: int, limit: Limits)
    requires |T| == |words| == |declared| && LiveState(words, declared, T, s, final, limit) && s.ip.None?
    ensures |s.stack| == final && s.frames == []
  {
  }

  lemma StuckAbove(words: seq<Word>, declared: seq<SType>, natives: Natives, T: seq<Info>, final: int, limit: Limits,
                   inits: nat -> Locals, cells: nat, s: State, k: nat, m: nat, below: seq<int32>)
    requires |T| == |words| == |declared| && Checked(words, declared, natives, T) && limit.cells <= cells
    requires LiveState(words, declared, T, s, final, limit) && StuckOn(words, natives, inits, cells, s, k, m)
    ensures StuckOn(words, natives, inits, cells, Above(below, s), k, m)
  {
    hide Checked, LiveState, RunOn, Fetch, AnalysedWith;
    LiveRunOn(words, declared, natives, T, final, limit, inits, cells, s, k, m);
    RunOnAbove(words, declared, natives, T, final, limit, inits, cells, s, k, m, below);
    var t := RunOn(words, natives, inits, cells, s, k, m).value;
    FetchAbove(words, t, below);
    FetchSome(words, t);
    var entry, c := FetchLive(words, declared, T, t, final, limit);
    AtOpcode(words, declared, T, t.frames[|t.frames| - 1], t.ip.value, |t.stack|, entry, c);
    NativeAbove(words, declared, natives, T, Fetch(words, t).value.target.value, t.stack, below);
  }

  lemma FetchSome(words: seq<Word>, s: State)
    requires Fetch(words, s).Some?
    ensures s.ip.Some?
  {
  }

  lemma SameSizes(words: seq<Word>, declared: seq<SType>, natives: Natives, T: seq<Info>)
    requires Checked(words, declared, natives, T)
    ensures |T| == |words| == |declared|
  {
  }

  // ----- words as functions on the data stack -----

  /** The run from this state ends by returning from the outermost word. */
  ghost predicate Returns(words: seq<Word>, natives: Natives, s: State, n: nat) {
    Run(words, natives, s, n).Some? && Run(words, natives, s, n).value.ip.None?
  }

  /** What an interpreted word does to the data stack; None when it does not return. */
  ghost function Denotes(words: seq<Word>, natives: Natives, w: nat, stack: seq<int32>): Option<seq<int32>>
    requires w < |words| && words[w].Interpreted?
  {
    if n: nat :| Returns(words, natives, Start(words, w, stack), n)
    then Some(Run(words, natives, Start(words, w, stack), n).value.stack)
    else None
  }

  ghost function WordFn(words: seq<Word>, natives: Natives, w: nat): StackFn
    requires w < |words| && words[w].Interpreted?
  {
    (stack: seq<int32>) => Denotes(words, natives, w, stack)
  }

  lemma {:induction false} RunMore(words: seq<Word>, natives: Natives, s: State, n: nat, m: nat)
    requires Returns(words, natives, s, n) && n <= m
    ensures Run(words, natives, s, m) == Run(words, natives, s, n)
    decreases n
  {
    hide Step;
    if n > 0 && s.ip.Some? {
      RunMore(words, natives, Step(words, natives, s).value, n - 1, m - 1);
    }
  }

  /** The outcome does not depend on the number of steps that the run was given. */
  lemma DenotesRun(words: seq<Word>, natives: Natives, w: nat, stack: seq<int32>, n: nat)
    requires w < |words| && words[w].Interpreted? && Returns(words, natives, Start(words, w, stack), n)
    ensures Denotes(words, natives, w, stack) == Some(Run(words, natives, Start(words, w, stack), n).value.stack)
  {
    hide Run;
    var s := Start(words, w, stack);
    var m: nat :| Returns(words, natives, s, m)
      && Denotes(words, natives, w, stack) == Some(Run(words, natives, s, m).value.stack);
    if n <= m {
      RunMore(words, natives, s, n, m);
    } else {
      RunMore(words, natives, s, m, n);
    }
  }

  /** The effect found by the analysis is true of the word, in the sense in which the effects of native words are
      declared: whatever lies below its arguments, the word replaces them by as many elements as its effect says, or
      does not return. */
  lemma AnalysedWordObeys(words: seq<Word>, declared: seq<SType>, natives: Natives, T: seq<Info>, w: nat)
    requires Checked(words, declared, natives, T)
    requires w < |words| == |T| && words[w].Interpreted? && T[w].flow == 1
    ensures Obeys(WordFn(words, natives, w), T[w].effect)
  {
    hide Checked, Run, Denotes, Start;
    SameSizes(words, declared, natives, T);
    EffectKnown(words, declared, natives, T, w);
    forall below, args | |args| == T[w].effect.din
      ensures ObeysOn(WordFn(words, natives, w), T[w].effect, below, args) {
      CallObeys(words, declared, natives, T, w, below, args);
    }
  }

  lemma EffectKnown(words: seq<Word>, declared: seq<SType>, natives: Natives, T: seq<Info>, w: nat)
    requires Checked(words, declared, natives, T) && w < |words| == |T| == |declared| && words[w].Interpreted?
    requires T[w].flow == 1
    ensures T[w].effect.IsKnown()
  {
    hide CertOk;
    assert InfoOk(words, declared, T, w);
    var c :| AnalysedWith(words, declared, T, w, c);
    ExitEffect(words, declared, T, w, c);
  }

  lemma CallObeys(words: seq<Word>, declared: seq<SType>, natives: Natives, T: seq<Info>, w: nat, below: seq<int32>,
                  args: seq<int32>)
    requires Checked(words, declared, natives, T) && |T| == |words| == |declared|
    requires w < |words| && words[w].Interpreted? && T[w].flow == 1 && |args| == T[w].effect.din
    ensures ObeysOn(WordFn(words, natives, w), T[w].effect, below, args)
  {
    hide Checked, LiveState, Run;
    var s, final, limit := Start(words, w, args), T[w].effect.dout, WordLimits(T[w]);
    StartLive(words, declared, natives, T, w, args);
    assert Start(words, w, below + args) == Above(below, s);
    forall n: nat
      ensures Run(words, natives, Above(below, s), n) == AboveIfSome(below, Run(words, natives, s, n))
      ensures Returns(words, natives, s, n) <==> Returns(words, natives, Above(below, s), n)
    {
      RunAbove(words, declared, natives, T, s, n, final, limit, below);
    }
    if n: nat :| Returns(words, natives, s, n) {
      LiveRun(words, declared, natives, T, s, n, final, limit);
      LiveDone(words, declared, T, Run(words, natives, s, n).value, final, limit);
      DenotesRun(words, natives, w, args, n);
      DenotesRun(words, natives, w, below + args, n);
    }
  }
}
