/** What structured programs mean, and that the opcodes that the builder makes of them do the same. */
module StructuredRun {
  import opened Base
  import opened Machine
  import opened Builder
  import opened Structured

  /** The state of a word under execution: the data stack and its own locals. */
  datatype WordState = WordState(stack: seq<int32>, locals: seq<Option<int32>>)

  /** What a call does to the data stack; None when it does not return. */
  type Calls = (nat, seq<int32>) -> Option<seq<int32>>

  /** The effect of an opcode other than jumps and returns. */
  function Effect(calls: Calls, st: WordState, op: Opcode): Option<WordState> {
    match op
    case Const(v) => Some(st.(stack := st.stack + [v]))
    case GetLocal(num) =>
      if num >= |st.locals| then None
      else Some(st.(stack := st.stack + [if st.locals[num].None? then 0 else st.locals[num].value]))
    case PutLocal(num) =>
      if st.stack == [] || num >= |st.locals| then None
      else Some(WordState(st.stack[..|st.stack| - 1], st.locals[num := Some(st.stack[|st.stack| - 1])]))
    case Call(Some(w)) =>
      (match calls(w, st.stack) case None => None case Some(s) => Some(st.(stack := s)))
    case _ => None
  }

  function PopValue(st: WordState): Option<(WordState, int32)> {
    if st.stack == [] then None
    else Some((st.(stack := st.stack[..|st.stack| - 1]), st.stack[|st.stack| - 1]))
  }

  // ----- the meaning of structured programs -----

  /** The result of running with a limited number of opcodes: Done and Returned tell how many are left. */
  datatype Result =
    | Done(st: WordState, left: nat)
    | Returned(st: WordState, left: nat)
    | TimeOut(st: WordState)
    | Failed

  function Continue(r: Result): (q: Result)
    ensures q.Done? ==> r.Done? && q.left + 1 == r.left
    ensures q.Returned? ==> q == r
  {
    if r.Done? then (if r.left == 0 then TimeOut(r.st) else Done(r.st, r.left - 1)) else r
  }

  /** The test of a conditional: pops a value; a Done result tells the truth value. */
  function Test(st: WordState, fuel: nat): (r: (Result, bool))
    ensures r.0.Done? ==> r.0.left + 1 == fuel
    ensures !r.0.Returned?
  {
    if fuel == 0 then (TimeOut(st), false)
    else match PopValue(st) case None => (Failed, false) case Some(p) => (Done(p.0, fuel - 1), p.1 != 0)
  }

  /** Runs a program for at most fuel opcodes. */
  function Exec(calls: Calls, locals: map<string, nat>, s: Stmt, st: WordState, fuel: nat): (r: Result)
    requires Emits(s, locals)
    ensures r.Done? || r.Returned? ==> r.left <= fuel
    decreases fuel, s
  {
    match s
    case Skip => Done(st, fuel)
    case Prim(a) =>
      if fuel == 0 then TimeOut(st)
      else (match Effect(calls, st, Emitted(a, locals).value) case None => Failed case Some(t) => Done(t, fuel - 1))
    case Leave => if fuel == 0 then TimeOut(st) else Returned(st, fuel - 1)
    case Seq(a, b) =>
      var r := Exec(calls, locals, a, st, fuel);
      if r.Done? then Exec(calls, locals, b, r.st, r.left) else r
    case If(when, a) =>
      var (t, v) := Test(st, fuel);
      if t.Done? && v == when then Exec(calls, locals, a, t.st, t.left) else t
    case IfElse(when, a, b) =>
      var (t, v) := Test(st, fuel);
      if !t.Done? then t
      else if v == when then Continue(Exec(calls, locals, a, t.st, t.left))
      else Exec(calls, locals, b, t.st, t.left)
    case BeginAgain(a) =>
      var r := Continue(Exec(calls, locals, a, st, fuel));
      if r.Done? then Exec(calls, locals, s, r.st, r.left) else r
    case BeginUntil(when, a) =>
      var r := Exec(calls, locals, a, st, fuel);
      if !r.Done? then r
      else
        var (t, v) := Test(r.st, r.left);
        if t.Done? && v != when then Exec(calls, locals, s, t.st, t.left) else t
    case WhileRepeat(a, when, b) =>
      var r := Exec(calls, locals, a, st, fuel);
      if !r.Done? then r
      else
        var (t, v) := Test(r.st, r.left);
        if !(t.Done? && v == when) then t
        else
          var q := Continue(Exec(calls, locals, b, t.st, t.left));
          if q.Done? then Exec(calls, locals, s, q.st, q.left) else q
  }

  // ----- running opcodes of a word -----

  /** A run that stops: at an offset outside the range, or with no fuel left; by a return; or by failing. */
  datatype Outcome = At(pc: int, st: WordState, left: nat) | Left(st: WordState, left: nat) | Stuck

  /** One opcode. */
  function Step1(calls: Calls, code: seq<Opcode>, pc: int, st: WordState, fuel: nat): (o: Outcome)
    requires 0 <= pc < |code| && fuel > 0
    ensures o.At? ==> o.left == fuel - 1
  {
    match code[pc]
    case Ret => Left(st, fuel - 1)
    case Jump(Always, _) => At(pc + 1 + code[pc].JumpDisp(), st, fuel - 1)
    case Jump(cond, _) =>
      (match PopValue(st)
       case None => Stuck
       case Some(p) => At(if Taken(cond, p.1) then pc + 1 + code[pc].JumpDisp() else pc + 1, p.0, fuel - 1))
    case _ => (match Effect(calls, st, code[pc]) case None => Stuck case Some(t) => At(pc + 1, t, fuel - 1))
  }

  /** Runs while the offset is between lo and hi and fuel is left. */
  function RunIn(calls: Calls, code: seq<Opcode>, lo: nat, hi: nat, pc: int, st: WordState, fuel: nat): (o: Outcome)
    requires hi <= |code|
    ensures o.At? || o.Left? ==> o.left <= fuel
    decreases fuel
  {
    if fuel == 0 || !(lo <= pc < hi) then At(pc, st, fuel)
    else
      var o := Step1(calls, code, pc, st, fuel);
      if o.At? then RunIn(calls, code, lo, hi, o.pc, o.st, o.left) else o
  }

  /** Running in a larger range is running in a smaller one first, and then going on. */
  lemma {:induction false} RunSplit(calls: Calls, code: seq<Opcode>, lo: nat, hi: nat, a: nat, b: nat, pc: int,
                                    st: WordState, fuel: nat)
    requires lo <= a <= b <= hi <= |code|
    ensures var o := RunIn(calls, code, a, b, pc, st, fuel);
            RunIn(calls, code, lo, hi, pc, st, fuel) ==
            if o.At? then RunIn(calls, code, lo, hi, o.pc, o.st, o.left) else o
    decreases fuel
  {
    if fuel > 0 && a <= pc < b {
      var o := Step1(calls, code, pc, st, fuel);
      if o.At? {
        RunSplit(calls, code, lo, hi, a, b, o.pc, o.st, o.left);
      }
    }
  }

  /** A run of opcodes from p to q ends as a structured program does. */
  ghost predicate Same(o: Outcome, r: Result, p: nat, q: nat) {
    match r
    case Done(st, left) => o == At(q, st, left)
    case TimeOut(st) => o.At? && p <= o.pc < q && o.st == st && o.left == 0
    case Returned(st, left) => o == Left(st, left)
    case Failed => o == Stuck
  }

  ghost predicate Means(calls: Calls, code: seq<Opcode>, locals: map<string, nat>, s: Stmt, p: nat, st: WordState,
                        fuel: nat)
    requires Emits(s, locals) && OccursAt(code, p, CodeOf(s, locals))
  {
    var q := p + |CodeOf(s, locals)|;
    Same(RunIn(calls, code, p, q, p, st, fuel), Exec(calls, locals, s, st, fuel), p, q)
  }

  // ----- steps of a run -----

  /** A block that means r runs inside a larger range. */
  lemma Inner(calls: Calls, code: seq<Opcode>, lo: nat, hi: nat, a: nat, b: nat, st: WordState, fuel: nat, r: Result)
    requires lo <= a <= b <= hi <= |code| && Same(RunIn(calls, code, a, b, a, st, fuel), r, a, b)
    ensures var o := RunIn(calls, code, lo, hi, a, st, fuel);
            if r.Done? then o == RunIn(calls, code, lo, hi, b, r.st, r.left) else Same(o, r, lo, hi)
  {
    RunSplit(calls, code, lo, hi, a, b, a, st, fuel);
  }

  /** A conditional jump tests as the program does. */
  lemma TestStep(calls: Calls, code: seq<Opcode>, lo: nat, hi: nat, pc: nat, st: WordState, fuel: nat, when: bool,
                 d: int)
    requires lo <= pc < hi <= |code| && code[pc] == Jump(Unless(when), Some(d))
    ensures var o := RunIn(calls, code, lo, hi, pc, st, fuel); var (t, v) := Test(st, fuel);
            if t.Done? then o == RunIn(calls, code, lo, hi, if v == when then pc + 1 else pc + 1 + d, t.st, t.left)
            else Same(o, t, lo, hi)
  {
  }

  lemma JumpStep(calls: Calls, code: seq<Opcode>, lo: nat, hi: nat, pc: nat, r: Result, d: int)
    requires lo <= pc < hi <= |code| && code[pc] == Jump(Always, Some(d)) && r.Done?
    ensures var o := RunIn(calls, code, lo, hi, pc, r.st, r.left); var q := Continue(r);
            if q.Done? then o == RunIn(calls, code, lo, hi, pc + 1 + d, q.st, q.left) else Same(o, q, lo, hi)
  {
  }

  lemma OpcodeHere(code: seq<Opcode>, p: nat, op: Opcode)
    requires OccursAt(code, p, [op])
    ensures p < |code| && code[p] == op
  {
    assert code[p] == code[p..p + 1][0];
  }

  // ----- the opcodes mean the program -----

  /** At any position, for any amount of fuel, whatever the state: the opcodes of a program do what the program does. */
  lemma {:induction false} Meaning(calls: Calls, code: seq<Opcode>, locals: map<string, nat>, s: Stmt, p: nat,
                                   st: WordState, fuel: nat)
    requires Emits(s, locals) && OccursAt(code, p, CodeOf(s, locals))
    ensures Means(calls, code, locals, s, p, st, fuel)
    decreases fuel, s, 1
  {
    hide Effect, Test, Continue;
    match s
    case Skip =>
    case Prim(a) => MeaningPrim(calls, code, locals, a, p, st, fuel);
    case Leave => OpcodeHere(code, p, Ret);
    case Seq(a, b) => MeaningSeq(calls, code, locals, s, a, b, p, st, fuel);
    case If(when, a) => MeaningIf(calls, code, locals, s, when, a, p, st, fuel);
    case IfElse(when, a, b) => MeaningIfElse(calls, code, locals, s, when, a, b, p, st, fuel);
    case BeginAgain(a) => MeaningAgain(calls, code, locals, s, a, p, st, fuel);
    case BeginUntil(when, a) => MeaningUntil(calls, code, locals, s, when, a, p, st, fuel);
    case WhileRepeat(a, when, b) => MeaningWhile(calls, code, locals, s, a, when, b, p, st, fuel);
  }

  lemma MeaningPrim(calls: Calls, code: seq<Opcode>, locals: map<string, nat>, a: Action, p: nat, st: WordState,
                    fuel: nat)
    requires Emits(Prim(a), locals) && OccursAt(code, p, CodeOf(Prim(a), locals))
    ensures Means(calls, code, locals, Prim(a), p, st, fuel)
  {
    hide Effect;
    var op := Emitted(a, locals).value;
    OpcodeHere(code, p, op);
    if fuel > 0 {
      if Effect(calls, st, op).Some? {
        AtEnd(calls, code, p, p + 1, Effect(calls, st, op).value, fuel - 1);
      }
      assert Step1(calls, code, p, st, fuel) ==
             match Effect(calls, st, op) case None => Stuck case Some(t) => At(p + 1, t, fuel - 1);
    }
  }

  lemma MeaningSeq(calls: Calls, code: seq<Opcode>, locals: map<string, nat>, s: Stmt, a: Stmt, b: Stmt, p: nat,
                   st: WordState, fuel: nat)
    requires s == Seq(a, b) && Emits(s, locals) && OccursAt(code, p, CodeOf(s, locals))
    ensures Means(calls, code, locals, s, p, st, fuel)
    decreases fuel, s, 0
  {
    hide Emitted, RunIn, Exec, CodeOf;
    SeqForm(calls, locals, a, b, st, fuel);
    var ca, cb := CodeOf(a, locals), CodeOf(b, locals);
    OccursAtSplit(code, p, ca, cb);
    var m, q := p + |ca|, p + |ca| + |cb|;
    Meaning(calls, code, locals, a, p, st, fuel);
    var r := Exec(calls, locals, a, st, fuel);
    Inner(calls, code, p, q, p, m, st, fuel, r);
    if r.Done? {
      Meaning(calls, code, locals, b, m, r.st, r.left);
      var x := Exec(calls, locals, b, r.st, r.left);
      Inner(calls, code, p, q, m, q, r.st, r.left, x);
      if x.Done? {
        AtEnd(calls, code, p, q, x.st, x.left);
      }
    }
  }

  lemma SeqForm(calls: Calls, locals: map<string, nat>, a: Stmt, b: Stmt, st: WordState, fuel: nat)
    requires Emits(a, locals) && Emits(b, locals)
    ensures CodeOf(Seq(a, b), locals) == CodeOf(a, locals) + CodeOf(b, locals)
    ensures Exec(calls, locals, Seq(a, b), st, fuel) ==
            var r := Exec(calls, locals, a, st, fuel); if r.Done? then Exec(calls, locals, b, r.st, r.left) else r
  {
    hide Effect, Emitted;
  }

  lemma ExecIf(calls: Calls, locals: map<string, nat>, when: bool, a: Stmt, st: WordState, fuel: nat)
    requires Emits(a, locals)
    ensures Exec(calls, locals, If(when, a), st, fuel) ==
            var (t, v) := Test(st, fuel); if t.Done? && v == when then Exec(calls, locals, a, t.st, t.left) else t
  {
    hide Test, Effect;
  }

  lemma MeaningIf(calls: Calls, code: seq<Opcode>, locals: map<string, nat>, s: Stmt, when: bool, a: Stmt, p: nat,
                  st: WordState, fuel: nat)
    requires s == If(when, a) && Emits(s, locals) && OccursAt(code, p, CodeOf(s, locals))
    ensures Means(calls, code, locals, s, p, st, fuel)
    decreases fuel, s, 0
  {
    hide Emitted, RunIn, Unless, Exec, CodeOf, Test;
    IfFormCode(when, a, locals);
    ExecIf(calls, locals, when, a, st, fuel);
    var ca := CodeOf(a, locals);
    var q := p + 1 + |ca|;
    OccursAtSplit(code, p, Jumps(Unless(when), |ca|), ca);
    OpcodeHere(code, p, Jump(Unless(when), Some(|ca|)));
    TestStep(calls, code, p, q, p, st, fuel, when, |ca|);
    var (t, v) := Test(st, fuel);
    if t.Done? {
      if v == when {
        Meaning(calls, code, locals, a, p + 1, t.st, t.left);
        var x := Exec(calls, locals, a, t.st, t.left);
        Inner(calls, code, p, q, p + 1, q, t.st, t.left, x);
        if x.Done? {
          AtEnd(calls, code, p, q, x.st, x.left);
        }
      } else {
        AtEnd(calls, code, p, q, t.st, t.left);
      }
    }
  }

  /** A run at the end of its range stops. */
  lemma AtEnd(calls: Calls, code: seq<Opcode>, p: nat, q: nat, st: WordState, fuel: nat)
    requires q <= |code|
    ensures RunIn(calls, code, p, q, q, st, fuel) == At(q, st, fuel)
  {
  }

  lemma IfElseParts(code: seq<Opcode>, p: nat, when: bool, ca: seq<Opcode>, cb: seq<Opcode>)
    requires OccursAt(code, p, IfElseCode(when, ca, cb))
    ensures var m := p + 1 + |ca|;
            && m + 1 + |cb| <= |code|
            && code[p] == Jump(Unless(when), Some(|ca| + 1)) && OccursAt(code, p + 1, ca)
            && code[m] == Jump(Always, Some(|cb|)) && OccursAt(code, m + 1, cb)
  {
    var j1, j2 := Jumps(Unless(when), |ca| + 1), Jumps(Always, |cb|);
    OccursAtSplit(code, p, j1 + ca + j2, cb);
    OccursAtSplit(code, p, j1 + ca, j2);
    OccursAtSplit(code, p, j1, ca);
    OpcodeHere(code, p, Jump(Unless(when), Some(|ca| + 1)));
    OpcodeHere(code, p + 1 + |ca|, Jump(Always, Some(|cb|)));
  }

  lemma MeaningIfElse(calls: Calls, code: seq<Opcode>, locals: map<string, nat>, s: Stmt, when: bool, a: Stmt, b: Stmt,
                      p: nat, st: WordState, fuel: nat)
    requires s == IfElse(when, a, b) && Emits(s, locals) && OccursAt(code, p, CodeOf(s, locals))
    ensures Means(calls, code, locals, s, p, st, fuel)
    decreases fuel, s, 0
  {
    hide Emitted, RunIn, Unless, Test, Continue, CodeOf, Exec, IfElseCode;
    IfElseFormCode(when, a, b, locals);
    ExecIfElse(calls, locals, when, a, b, st, fuel);
    var ca, cb := CodeOf(a, locals), CodeOf(b, locals);
    IfElseLength(when, ca, cb);
    IfElseParts(code, p, when, ca, cb);
    var m := p + 1 + |ca|;
    var q := m + 1 + |cb|;
    TestStep(calls, code, p, q, p, st, fuel, when, |ca| + 1);
    var (t, v) := Test(st, fuel);
    if t.Done? {
      if v == when {
        Meaning(calls, code, locals, a, p + 1, t.st, t.left);
        var r := Exec(calls, locals, a, t.st, t.left);
        Inner(calls, code, p, q, p + 1, m, t.st, t.left, r);
        if r.Done? {
          JumpStep(calls, code, p, q, m, r, |cb|);
        }
        ContinueLeft(r);
        if r.Done? && r.left > 0 {
          AtEnd(calls, code, p, q, r.st, r.left - 1);
        }
      } else {
        Meaning(calls, code, locals, b, m + 1, t.st, t.left);
        var x := Exec(calls, locals, b, t.st, t.left);
        Inner(calls, code, p, q, m + 1, q, t.st, t.left, x);
        if x.Done? {
          AtEnd(calls, code, p, q, x.st, x.left);
        }
      }
    }
  }

  lemma IfElseLength(when: bool, ca: seq<Opcode>, cb: seq<Opcode>)
    ensures |IfElseCode(when, ca, cb)| == 2 + |ca| + |cb|
  {
  }

  lemma ExecIfElse(calls: Calls, locals: map<string, nat>, when: bool, a: Stmt, b: Stmt, st: WordState, fuel: nat)
    requires Emits(a, locals) && Emits(b, locals)
    ensures Exec(calls, locals, IfElse(when, a, b), st, fuel) ==
            var (t, v) := Test(st, fuel);
            if !t.Done? then t
            else if v == when then Continue(Exec(calls, locals, a, t.st, t.left))
            else Exec(calls, locals, b, t.st, t.left)
  {
    hide Test, Continue, Effect;
  }

  lemma LoopParts(code: seq<Opcode>, p: nat, cond: Condition, ca: seq<Opcode>)
    requires OccursAt(code, p, LoopCode(cond, ca))
    ensures var m := p + |ca|;
            m + 1 <= |code| && OccursAt(code, p, ca) && code[m] == Jump(cond, Some(-|ca| - 1))
  {
    OccursAtSplit(code, p, ca, Jumps(cond, -|ca| - 1));
    OpcodeHere(code, p + |ca|, Jump(cond, Some(-|ca| - 1)));
  }

  lemma MeaningAgain(calls: Calls, code: seq<Opcode>, locals: map<string, nat>, s: Stmt, a: Stmt, p: nat, st: WordState,
                     fuel: nat)
    requires s == BeginAgain(a) && Emits(s, locals) && OccursAt(code, p, CodeOf(s, locals))
    ensures Means(calls, code, locals, s, p, st, fuel)
    decreases fuel, s, 0
  {
    hide Emitted, RunIn;
    var ca := CodeOf(a, locals);
    LoopParts(code, p, Always, ca);
    var m := p + |ca|;
    Meaning(calls, code, locals, a, p, st, fuel);
    var r := Exec(calls, locals, a, st, fuel);
    Inner(calls, code, p, m + 1, p, m, st, fuel, r);
    if r.Done? {
      JumpStep(calls, code, p, m + 1, m, r, -|ca| - 1);
      if r.left > 0 {
        Meaning(calls, code, locals, s, p, r.st, r.left - 1);
      }
    }
  }

  lemma MeaningUntil(calls: Calls, code: seq<Opcode>, locals: map<string, nat>, s: Stmt, when: bool, a: Stmt, p: nat,
                     st: WordState, fuel: nat)
    requires s == BeginUntil(when, a) && Emits(s, locals) && OccursAt(code, p, CodeOf(s, locals))
    ensures Means(calls, code, locals, s, p, st, fuel)
    decreases fuel, s, 0
  {
    hide Emitted, RunIn, Unless, Test;
    var ca := CodeOf(a, locals);
    LoopParts(code, p, Unless(when), ca);
    var m := p + |ca|;
    Meaning(calls, code, locals, a, p, st, fuel);
    var r := Exec(calls, locals, a, st, fuel);
    Inner(calls, code, p, m + 1, p, m, st, fuel, r);
    if r.Done? {
      TestStep(calls, code, p, m + 1, m, r.st, r.left, when, -|ca| - 1);
      var (t, v) := Test(r.st, r.left);
      if t.Done? {
        if v != when {
          Meaning(calls, code, locals, s, p, t.st, t.left);
        } else {
          AtEnd(calls, code, p, m + 1, t.st, t.left);
        }
      }
    }
  }

  lemma WhileParts(code: seq<Opcode>, p: nat, ca: seq<Opcode>, when: bool, cb: seq<Opcode>)
    requires OccursAt(code, p, WhileCode(ca, when, cb))
    ensures var m := p + |ca|; var e := m + 1 + |cb|;
            && e + 1 <= |code|
            && OccursAt(code, p, ca) && code[m] == Jump(Unless(when), Some(|cb| + 1))
            && OccursAt(code, m + 1, cb) && code[e] == Jump(Always, Some(-|ca| - |cb| - 2))
  {
    var j1, j2 := Jumps(Unless(when), |cb| + 1), Jumps(Always, -|ca| - |cb| - 2);
    OccursAtSplit(code, p, ca + j1 + cb, j2);
    OccursAtSplit(code, p, ca + j1, cb);
    OccursAtSplit(code, p, ca, j1);
    OpcodeHere(code, p + |ca|, Jump(Unless(when), Some(|cb| + 1)));
    OpcodeHere(code, p + |ca| + 1 + |cb|, Jump(Always, Some(-|ca| - |cb| - 2)));
  }

  lemma MeaningWhile(calls: Calls, code: seq<Opcode>, locals: map<string, nat>, s: Stmt, a: Stmt, when: bool, b: Stmt,
                     p: nat, st: WordState, fuel: nat)
    requires s == WhileRepeat(a, when, b) && Emits(s, locals) && OccursAt(code, p, CodeOf(s, locals))
    ensures Means(calls, code, locals, s, p, st, fuel)
    decreases fuel, s, 0
  {
    hide Emitted, RunIn, Unless, Test, Continue, CodeOf, Exec, WhileCode;
    WhileFormCode(a, when, b, locals);
    ExecWhile(calls, locals, a, when, b, st, fuel);
    var ca, cb := CodeOf(a, locals), CodeOf(b, locals);
    WhileLength(ca, when, cb);
    WhileParts(code, p, ca, when, cb);
    var m := p + |ca|;
    var e := m + 1 + |cb|;
    Meaning(calls, code, locals, a, p, st, fuel);
    var r := Exec(calls, locals, a, st, fuel);
    Inner(calls, code, p, e + 1, p, m, st, fuel, r);
    if r.Done? {
      TestStep(calls, code, p, e + 1, m, r.st, r.left, when, |cb| + 1);
      var (t, v) := Test(r.st, r.left);
      if t.Done? && v != when {
        AtEnd(calls, code, p, e + 1, t.st, t.left);
      }
      if t.Done? && v == when {
        MeaningBody(calls, code, locals, s, a, when, b, p, t.st, t.left);
      }
    }
  }

  /** The body of a `while` loop and what follows, once the test has succeeded. */
  lemma MeaningBody(calls: Calls, code: seq<Opcode>, locals: map<string, nat>, s: Stmt, a: Stmt, when: bool, b: Stmt,
                    p: nat, st: WordState, fuel: nat)
    requires s == WhileRepeat(a, when, b) && Emits(s, locals) && OccursAt(code, p, CodeOf(s, locals))
    ensures var m := p + |CodeOf(a, locals)|; var q := m + 2 + |CodeOf(b, locals)|;
            var x := Continue(Exec(calls, locals, b, st, fuel));
            q <= |code| &&
            Same(RunIn(calls, code, p, q, m + 1, st, fuel),
                 if x.Done? then Exec(calls, locals, s, x.st, x.left) else x, p, q)
    decreases fuel, s, 0
  {
    hide Emitted, RunIn, Unless, Test, Continue, CodeOf, Exec, WhileCode;
    WhileFormCode(a, when, b, locals);
    var ca, cb := CodeOf(a, locals), CodeOf(b, locals);
    WhileLength(ca, when, cb);
    WhileParts(code, p, ca, when, cb);
    var m := p + |ca|;
    var e := m + 1 + |cb|;
    Meaning(calls, code, locals, b, m + 1, st, fuel);
    var x := Exec(calls, locals, b, st, fuel);
    Inner(calls, code, p, e + 1, m + 1, e, st, fuel, x);
    ContinueLeft(x);
    if x.Done? {
      JumpStep(calls, code, p, e + 1, e, x, -|ca| - |cb| - 2);
      if x.left > 0 {
        Meaning(calls, code, locals, s, p, x.st, x.left - 1);
      }
    }
  }

  lemma WhileLength(ca: seq<Opcode>, when: bool, cb: seq<Opcode>)
    ensures |WhileCode(ca, when, cb)| == 2 + |ca| + |cb|
  {
  }

  lemma ExecWhile(calls: Calls, locals: map<string, nat>, a: Stmt, when: bool, b: Stmt, st: WordState, fuel: nat)
    requires Emits(a, locals) && Emits(b, locals)
    ensures var s := WhileRepeat(a, when, b); var r := Exec(calls, locals, a, st, fuel);
            Exec(calls, locals, s, st, fuel) ==
            if !r.Done? then r
            else
              var (t, v) := Test(r.st, r.left);
              if !(t.Done? && v == when) then t
              else
                var q := Continue(Exec(calls, locals, b, t.st, t.left));
                if q.Done? then Exec(calls, locals, s, q.st, q.left) else q
  {
    hide Test, Continue, Effect;
  }

  lemma ContinueLeft(r: Result)
    ensures Continue(r) == if !r.Done? then r else if r.left == 0 then TimeOut(r.st) else Done(r.st, r.left - 1)
  {
  }

  // ----- whole words -----

  /** A well-formed word never leaves its code, but by returning or failing. */
  lemma {:induction false} StaysInside(calls: Calls, numLocals: nat, code: seq<Opcode>, pc: nat, st: WordState,
                                       fuel: nat)
    requires WellFormed(numLocals, code) && pc < |code|
    ensures var o := RunIn(calls, code, 0, |code|, pc, st, fuel); o.At? ==> 0 <= o.pc < |code| && o.left == 0
    decreases fuel
  {
    hide Effect, WellFormed;
    if fuel > 0 {
      WellFormedHere(numLocals, code, pc);
      var o := Step1(calls, code, pc, st, fuel);
      if o.At? {
        StaysInside(calls, numLocals, code, o.pc, o.st, o.left);
      }
    }
  }

  lemma WellFormedHere(numLocals: nat, code: seq<Opcode>, pc: nat)
    requires WellFormed(numLocals, code) && pc < |code|
    ensures WellFormedAt(numLocals, code, pc)
  {
  }

  /** How a whole word ends: the returns that `Build` adds comes after the program. */
  function AsWord(r: Result): Result {
    match r
    case Done(st, left) => if left == 0 then TimeOut(st) else Returned(st, left - 1)
    case _ => r
  }

  /** The word built from a structured program, after any definitions of locals, does what the program does and then
      returns. */
  lemma WordMeaning(calls: Calls, b: Build, s: Stmt, st: WordState, fuel: nat)
    requires Inv(b) && b.cfPtr == -1 && b.code == [] && Emits(s, b.locals)
    ensures var c := ApplyAll(b, Actions(s));
            c.Some? && Finish(c.value).Some? &&
            var code := Finish(c.value).value.code;
            Same(RunIn(calls, code, 0, |code|, 0, st, fuel), AsWord(Exec(calls, b.locals, s, st, fuel)), 0, |code|)
  {
    hide RunIn, CodeOf, Exec, Apply, Actions;
    BuilderCompiles(s, b);
    var c := ApplyAll(b, Actions(s)).value;
    ApplyAllKeeps(b, Actions(s));
    FinishWellFormed(c);
    var ops, code := CodeOf(s, b.locals), Finish(c).value.code;
    assert b.code + ops == ops;
    assert code == ops || code == ops + [Ret];
    assert code[..|ops|] == ops;
    Meaning(calls, code, b.locals, s, 0, st, fuel);
    var r := Exec(calls, b.locals, s, st, fuel);
    Inner(calls, code, 0, |code|, 0, |ops|, st, fuel, r);
    if r.Done? {
      StaysInside(calls, |b.locals|, code, 0, st, fuel);
      AtEnd(calls, code, 0, |code|, r.st, r.left);
      if code == ops + [Ret] {
        FinalReturn(calls, code, |ops|, r.st, r.left);
      }
    }
  }

  lemma FinalReturn(calls: Calls, code: seq<Opcode>, pc: nat, st: WordState, fuel: nat)
    requires |code| == pc + 1 && code[pc] == Ret
    ensures Same(RunIn(calls, code, 0, |code|, pc, st, fuel), AsWord(Done(st, fuel)), 0, |code|)
  {
  }

  // ----- the steps of a word are those of the CPU -----

  /** Calls to native words. */
  function NativeCalls(words: seq<Word>, natives: Natives): Calls {
    (w: nat, stack: seq<int32>) => if w < |words| && words[w].Native? then natives(words[w].ccode, stack) else None
  }

  function WithWordState(s: State, st: WordState, ip: Option<Ip>): State
    requires s.frames != []
  {
    var n := |s.frames| - 1;
    State(st.stack, s.frames[..n] + [s.frames[n].(locals := st.locals)], ip)
  }

  /** One opcode, other than a call to an interpreted word, does to the CPU what it does to the state of its word. */
  lemma StepAgrees(words: seq<Word>, natives: Natives, s: State, ip: Ip, fuel: nat)
    requires s.ip == Some(ip) && s.frames != [] && fuel > 0
    requires ip.word < |words| && words[ip.word].Interpreted? && 0 <= ip.off < |words[ip.word].code|
    requires match words[ip.word].code[ip.off]
             case Call(Some(w)) => w < |words| ==> words[w].Native?
             case _ => true
    ensures var st := WordState(s.stack, s.frames[|s.frames| - 1].locals);
            var o := Step1(NativeCalls(words, natives), words[ip.word].code, ip.off, st, fuel);
            match o
            case At(pc, st', _) => Step(words, natives, s) == Some(WithWordState(s, st', Some(ip.(off := pc))))
            case Left(_, _) => Step(words, natives, s) == Exit(s)
            case Stuck => Step(words, natives, s) == None
  {
    var n := |s.frames| - 1;
    assert s.frames == s.frames[..n] + [s.frames[n]];
  }

  // ----- locals by name -----

  /** Writing a local by its name takes the topmost value, and reading it afterwards gives that value back; the rest of
      the stack and the other locals are kept. */
  lemma StoredThenRead(calls: Calls, locals: map<string, nat>, name: string, st: WordState, fuel: nat)
    requires name in locals && (name == "" || name[0] != '>') && locals[name] < |st.locals| && st.stack != []
    requires fuel >= 2
    ensures var store, read := Prim(CallByName(">" + name)), Prim(CallByName(name)); var n := |st.stack| - 1;
            && Emits(Seq(store, read), locals)
            && Exec(calls, locals, store, st, fuel) ==
               Done(WordState(st.stack[..n], st.locals[locals[name] := Some(st.stack[n])]), fuel - 1)
            && Exec(calls, locals, Seq(store, read), st, fuel) ==
               Done(WordState(st.stack, st.locals[locals[name] := Some(st.stack[n])]), fuel - 2)
  {
    var store, read, n := Prim(CallByName(">" + name)), Prim(CallByName(name)), |st.stack| - 1;
    assert (">" + name)[1..] == name;
    var after := Exec(calls, locals, store, st, fuel).st;
    assert after.stack + [st.stack[n]] == st.stack;
  }
}
