/** Structured control flow: the words `if`, `then`, `else`, `begin`, `again`, `until`, `while` and `repeat`
    (T0Comp.cs, lines 706-737 and 742-745; kern.t0, lines 10-12) through the control-flow stack of the builder. */
module Structured {
  import opened Base
  import opened Machine
  import opened Builder

  /** A structured program. `when` is the truth value on which a conditional body runs, or on which a loop ends. */
  datatype Stmt =
    | Skip
    | Prim(act: Action)
    | Leave
    | Seq(first: Stmt, second: Stmt)
    | If(when: bool, body: Stmt)
    | IfElse(when: bool, yes: Stmt, no: Stmt)
    | BeginAgain(body: Stmt)
    | BeginUntil(when: bool, body: Stmt)
    | WhileRepeat(test: Stmt, when: bool, body: Stmt)

  /** The condition of the jump that skips a body or goes back in a loop. */
  function Unless(when: bool): Condition {
    if when then IfFalse else IfTrue
  }

  /** The calls to the builder that the words of the program make. */
  function Actions(s: Stmt): seq<Action> {
    match s
    case Skip => []
    case Prim(a) => [a]
    case Leave => [Return]
    case Seq(a, b) => Actions(a) + Actions(b)
    case If(when, a) => [Ahead(Unless(when))] + Actions(a) + [Then]
    case IfElse(when, a, b) =>
      [Ahead(Unless(when))] + Actions(a) + [Ahead(Always), CSRoll(1), Then] + Actions(b) + [Then]
    case BeginAgain(a) => [Begin] + Actions(a) + [Again(Always)]
    case BeginUntil(when, a) => [Begin] + Actions(a) + [Again(Unless(when))]
    case WhileRepeat(a, when, b) =>
      [Begin] + Actions(a) + [Ahead(Unless(when)), CSRoll(1)] + Actions(b) + [Again(Always), Then]
  }

  /** The opcode of a primitive action, which may name a local: "x" reads local x, and ">x" writes it. */
  function Emitted(a: Action, locals: map<string, nat>): Option<Opcode> {
    match a
    case CallByName(name) =>
      if name != "" && name[0] == '>' then (if name[1..] in locals then Some(PutLocal(locals[name[1..]])) else None)
      else if name in locals then Some(GetLocal(locals[name])) else None
    case Literal(v) => Some(Const(v))
    case CallWord(w) => Some(Call(Some(w)))
    case ReadLocal(name) => if name in locals then Some(GetLocal(locals[name])) else None
    case WriteLocal(name) => if name in locals then Some(PutLocal(locals[name])) else None
    case _ => None
  }

  /** Every primitive is a constant, a call, or an access to a known local. */
  predicate Emits(s: Stmt, locals: map<string, nat>) {
    match s
    case Skip => true
    case Prim(a) => Emitted(a, locals).Some?
    case Leave => true
    case Seq(a, b) => Emits(a, locals) && Emits(b, locals)
    case If(_, a) => Emits(a, locals)
    case IfElse(_, a, b) => Emits(a, locals) && Emits(b, locals)
    case BeginAgain(a) => Emits(a, locals)
    case BeginUntil(_, a) => Emits(a, locals)
    case WhileRepeat(a, _, b) => Emits(a, locals) && Emits(b, locals)
  }

  function Jumps(cond: Condition, disp: int): seq<Opcode> {
    [Jump(cond, Some(disp))]
  }

  function IfCode(when: bool, a: seq<Opcode>): seq<Opcode> {
    Jumps(Unless(when), |a|) + a
  }

  function IfElseCode(when: bool, a: seq<Opcode>, b: seq<Opcode>): seq<Opcode> {
    Jumps(Unless(when), |a| + 1) + a + Jumps(Always, |b|) + b
  }

  function LoopCode(cond: Condition, a: seq<Opcode>): seq<Opcode> {
    a + Jumps(cond, -|a| - 1)
  }

  function WhileCode(a: seq<Opcode>, when: bool, b: seq<Opcode>): seq<Opcode> {
    a + Jumps(Unless(when), |b| + 1) + b + Jumps(Always, -|a| - |b| - 2)
  }

  /** The opcodes of a program; they do not depend on its position. */
  function CodeOf(s: Stmt, locals: map<string, nat>): seq<Opcode>
    requires Emits(s, locals)
  {
    match s
    case Skip => []
    case Prim(a) => [Emitted(a, locals).value]
    case Leave => [Ret]
    case Seq(a, b) => CodeOf(a, locals) + CodeOf(b, locals)
    case If(when, a) => IfCode(when, CodeOf(a, locals))
    case IfElse(when, a, b) => IfElseCode(when, CodeOf(a, locals), CodeOf(b, locals))
    case BeginAgain(a) => LoopCode(Always, CodeOf(a, locals))
    case BeginUntil(when, a) => LoopCode(Unless(when), CodeOf(a, locals))
    case WhileRepeat(a, when, b) => WhileCode(CodeOf(a, locals), when, CodeOf(b, locals))
  }

  // ----- the builder produces these opcodes -----

  /** The live part of the control-flow stack. */
  function Top(b: Build): seq<int>
    requires StackOk(b)
  {
    b.cfStack[..b.cfPtr + 1]
  }

  /** What matters of a builder for the code to come. */
  ghost predicate Shows(r: Option<Build>, code: seq<Opcode>, top: seq<int>, locals: map<string, nat>) {
    r.Some? && StackOk(r.value) && r.value.code == code && Top(r.value) == top && r.value.locals == locals
  }

  lemma {:induction false} ApplyAllConcat(b: Build, xs: seq<Action>, ys: seq<Action>)
    requires StackOk(b)
    ensures ApplyAll(b, xs + ys) == match ApplyAll(b, xs) case None => None case Some(c) => ApplyAll(c, ys)
    decreases |xs|
  {
    if xs == [] {
      assert xs + ys == ys;
    } else {
      assert (xs + ys)[0] == xs[0] && (xs + ys)[1..] == xs[1..] + ys;
      if Apply(b, xs[0]).Some? {
        ApplyAllConcat(Apply(b, xs[0]).value, xs[1..], ys);
      }
    }
  }

  lemma AheadShows(b: Build, cond: Condition)
    requires StackOk(b)
    ensures Shows(Apply(b, Ahead(cond)), b.code + [Jump(cond, None)], Top(b) + [|b.code|], b.locals)
  {
  }

  lemma BeginShows(b: Build)
    requires StackOk(b)
    ensures Shows(Apply(b, Begin), b.code, Top(b) + [-|b.code| - 1], b.locals)
  {
  }

  lemma RollShows(b: Build, top: seq<int>, x: int, y: int)
    requires StackOk(b) && Top(b) == top + [x, y]
    ensures Shows(Apply(b, CSRoll(1)), b.code, top + [y, x], b.locals)
  {
    var n := |top|;
    assert b.cfPtr == n + 1 && b.cfStack[n] == Top(b)[n] && b.cfStack[n + 1] == Top(b)[n + 1];
    assert b.cfStack[..n] == Top(b)[..n] == top;
  }

  lemma ThenShows(b: Build, top: seq<int>, x: nat, cond: Condition)
    requires StackOk(b) && Top(b) == top + [x as int] && x < |b.code| && b.code[x] == Jump(cond, None)
    ensures Shows(Apply(b, Then), b.code[x := Jump(cond, Some(|b.code| - x - 1))], top, b.locals)
  {
    var n := |top|;
    assert b.cfPtr == n && b.cfStack[n] == Top(b)[n] == x;
    assert b.cfStack[..n] == Top(b)[..n] == top;
  }

  lemma AgainShows(b: Build, top: seq<int>, d: int, cond: Condition)
    requires StackOk(b) && Top(b) == top + [d] && d < 0
    ensures Shows(Apply(b, Again(cond)), b.code + [Jump(cond, Some(-d - 1 - |b.code| - 1))], top, b.locals)
  {
    var n := |top|;
    assert b.cfPtr == n && b.cfStack[n] == Top(b)[n] == d;
    assert b.cfStack[..n] == Top(b)[..n] == top;
  }

  lemma PrimShows(b: Build, a: Action)
    requires StackOk(b) && Emitted(a, b.locals).Some?
    ensures Shows(Apply(b, a), b.code + [Emitted(a, b.locals).value], Top(b), b.locals)
  {
  }

  lemma One(b: Build, a: Action)
    requires StackOk(b)
    ensures ApplyAll(b, [a]) == Apply(b, a)
  {
    if Apply(b, a).Some? {
      assert ApplyAll(Apply(b, a).value, []) == Apply(b, a);
    }
  }

  /** Two sequences of actions, one after the other. */
  lemma Then2(b: Build, xs: seq<Action>, c: Build, ys: seq<Action>)
    requires StackOk(b) && ApplyAll(b, xs) == Some(c)
    ensures ApplyAll(b, xs + ys) == ApplyAll(c, ys)
  {
    ApplyAllConcat(b, xs, ys);
  }

  /** The builder appends exactly the opcodes of the program, wherever it starts, and leaves the control-flow stack as
      it was. */
  lemma {:induction false} BuilderCompiles(s: Stmt, b: Build)
    requires StackOk(b) && Emits(s, b.locals)
    ensures Shows(ApplyAll(b, Actions(s)), b.code + CodeOf(s, b.locals), Top(b), b.locals)
    decreases s, 1
  {
    hide Apply, ApplyAll, CodeOf, Actions;
    match s {
      case Skip => CompileLeaf(s, b);
      case Prim(_) => CompileLeaf(s, b);
      case Leave => CompileLeaf(s, b);
      case Seq(x, y) =>
        BuilderCompiles(x, b);
        var c := ApplyAll(b, Actions(x)).value;
        BuilderCompiles(y, c);
        Then2(b, Actions(x), c, Actions(y));
        SeqForms(x, y, b.locals);
        assert b.code + CodeOf(x, b.locals) + CodeOf(y, b.locals) ==
               b.code + (CodeOf(x, b.locals) + CodeOf(y, b.locals));
      case If(when, a) => CompileIf(s, when, a, b);
      case IfElse(when, x, y) => CompileIfElse(s, when, x, y, b);
      case BeginAgain(a) =>
        CompileLoop(s, Always, a, b);
        LoopFormActions(a, false);
        LoopFormCode(a, false, b.locals);
      case BeginUntil(when, a) =>
        CompileLoop(s, Unless(when), a, b);
        LoopFormActions(a, when);
        LoopFormCode(a, when, b.locals);
      case WhileRepeat(x, when, y) => CompileWhile(s, x, when, y, b);
    }
  }

  lemma LoopFormActions(a: Stmt, when: bool)
    ensures Actions(BeginAgain(a)) == [Begin] + Actions(a) + [Again(Always)]
    ensures Actions(BeginUntil(when, a)) == [Begin] + Actions(a) + [Again(Unless(when))]
  {
    hide CodeOf, Unless;
  }

  lemma LoopFormCode(a: Stmt, when: bool, locals: map<string, nat>)
    requires Emits(a, locals)
    ensures CodeOf(BeginAgain(a), locals) == LoopCode(Always, CodeOf(a, locals))
    ensures CodeOf(BeginUntil(when, a), locals) == LoopCode(Unless(when), CodeOf(a, locals))
  {
    hide IfCode, IfElseCode, LoopCode, WhileCode, Unless;
  }

  lemma CompileLeaf(s: Stmt, b: Build)
    requires StackOk(b) && Emits(s, b.locals) && (s.Skip? || s.Prim? || s.Leave?)
    ensures Shows(ApplyAll(b, Actions(s)), b.code + CodeOf(s, b.locals), Top(b), b.locals)
  {
    hide Apply;
    match s
    case Skip =>
    case Prim(a) =>
      PrimShows(b, a);
      One(b, a);
    case Leave =>
      LeaveShows(b);
      One(b, Return);
  }

  lemma SeqForms(x: Stmt, y: Stmt, locals: map<string, nat>)
    requires Emits(x, locals) && Emits(y, locals)
    ensures Actions(Seq(x, y)) == Actions(x) + Actions(y)
    ensures CodeOf(Seq(x, y), locals) == CodeOf(x, locals) + CodeOf(y, locals)
  {
    hide IfCode, IfElseCode, LoopCode, WhileCode, Unless;
  }

  lemma LeaveShows(b: Build)
    requires StackOk(b)
    ensures Shows(Apply(b, Return), b.code + [Ret], Top(b), b.locals)
  {
  }

  lemma CompileIf(s: Stmt, when: bool, a: Stmt, b: Build)
    requires StackOk(b) && s == If(when, a) && Emits(s, b.locals)
    ensures Shows(ApplyAll(b, Actions(s)), b.code + CodeOf(s, b.locals), Top(b), b.locals)
    decreases s, 0
  {
    hide Apply, ApplyAll, CodeOf, Actions;
    var cond, top, ca := Unless(when), Top(b), CodeOf(a, b.locals);
    AheadShows(b, cond);
    One(b, Ahead(cond));
    var c1 := Apply(b, Ahead(cond)).value;
    BuilderCompiles(a, c1);
    Then2(b, [Ahead(cond)], c1, Actions(a));
    var c2 := ApplyAll(c1, Actions(a)).value;
    ThenShows(c2, top, |b.code|, cond);
    One(c2, Then);
    Then2(b, [Ahead(cond)] + Actions(a), c2, [Then]);
    IfFormActions(when, a);
    IfFormCode(when, a, b.locals);
    assert c2.code[|b.code| := Jump(cond, Some(|ca|))] == b.code + (Jumps(cond, |ca|) + ca);
  }

  lemma IfFormActions(when: bool, a: Stmt)
    ensures Actions(If(when, a)) == [Ahead(Unless(when))] + Actions(a) + [Then]
  {
    hide CodeOf, Unless;
  }

  lemma IfFormCode(when: bool, a: Stmt, locals: map<string, nat>)
    requires Emits(a, locals)
    ensures CodeOf(If(when, a), locals) == IfCode(when, CodeOf(a, locals))
  {
    hide IfCode, IfElseCode, LoopCode, WhileCode, Unless;
  }

  lemma CompileLoop(s: Stmt, cond: Condition, a: Stmt, b: Build)
    requires StackOk(b) && Emits(a, b.locals)
    requires s == BeginAgain(a) || (s.BeginUntil? && s.body == a)
    ensures var ca := CodeOf(a, b.locals);
            Shows(ApplyAll(b, [Begin] + Actions(a) + [Again(cond)]), b.code + LoopCode(cond, ca), Top(b), b.locals)
    decreases s, 0
  {
    hide Apply, ApplyAll, CodeOf, Actions;
    var ca := CodeOf(a, b.locals);
    BeginShows(b);
    One(b, Begin);
    var c1 := Apply(b, Begin).value;
    BuilderCompiles(a, c1);
    Then2(b, [Begin], c1, Actions(a));
    var c2 := ApplyAll(c1, Actions(a)).value;
    AgainShows(c2, Top(b), -|b.code| - 1, cond);
    One(c2, Again(cond));
    Then2(b, [Begin] + Actions(a), c2, [Again(cond)]);
    assert b.code + ca + Jumps(cond, -|ca| - 1) == b.code + (ca + Jumps(cond, -|ca| - 1));
  }

  /** One more action. */
  lemma Snoc(b: Build, acts: seq<Action>, c: Build, a: Action)
    requires StackOk(b) && ApplyAll(b, acts) == Some(c)
    ensures ApplyAll(b, acts + [a]) == Apply(c, a)
  {
    ApplyAllConcat(b, acts, [a]);
    One(c, a);
  }

  lemma CompileIfElse(s: Stmt, when: bool, x: Stmt, y: Stmt, b: Build)
    requires StackOk(b) && s == IfElse(when, x, y) && Emits(s, b.locals)
    ensures Shows(ApplyAll(b, Actions(s)), b.code + CodeOf(s, b.locals), Top(b), b.locals)
    decreases s, 0
  {
    hide Apply, ApplyAll, CodeOf, Actions;
    var cond, top := Unless(when), Top(b);
    var cx, cy := CodeOf(x, b.locals), CodeOf(y, b.locals);
    var x0, x1 := |b.code|, |b.code| + 1 + |cx|;
    AheadShows(b, cond);
    One(b, Ahead(cond));
    var c1 := Apply(b, Ahead(cond)).value;
    BuilderCompiles(x, c1);
    var a2 := [Ahead(cond)] + Actions(x);
    Then2(b, [Ahead(cond)], c1, Actions(x));
    var c2 := ApplyAll(c1, Actions(x)).value;
    AheadShows(c2, Always);
    Snoc(b, a2, c2, Ahead(Always));
    var c3 := Apply(c2, Ahead(Always)).value;
    assert Top(c3) == top + [x0, x1];
    RollShows(c3, top, x0, x1);
    Snoc(b, a2 + [Ahead(Always)], c3, CSRoll(1));
    var c4 := Apply(c3, CSRoll(1)).value;
    assert Top(c4) == (top + [x1]) + [x0];
    ThenShows(c4, top + [x1], x0, cond);
    Snoc(b, a2 + [Ahead(Always)] + [CSRoll(1)], c4, Then);
    var c5 := Apply(c4, Then).value;
    assert c5.code == b.code + Jumps(cond, |cx| + 1) + cx + [Jump(Always, None)];
    BuilderCompiles(y, c5);
    var a5 := a2 + [Ahead(Always)] + [CSRoll(1)] + [Then];
    Then2(b, a5, c5, Actions(y));
    var c6 := ApplyAll(c5, Actions(y)).value;
    ThenShows(c6, top, x1, Always);
    Snoc(b, a5 + Actions(y), c6, Then);
    IfElseFormActions(when, x, y);
    IfElseFormCode(when, x, y, b.locals);
    assert a5 + Actions(y) + [Then] == Actions(IfElse(when, x, y));
    assert c6.code[x1 := Jump(Always, Some(|cy|))] ==
           b.code + (Jumps(cond, |cx| + 1) + cx + Jumps(Always, |cy|) + cy);
  }

  lemma IfElseFormActions(when: bool, x: Stmt, y: Stmt)
    ensures Actions(IfElse(when, x, y)) ==
            [Ahead(Unless(when))] + Actions(x) + [Ahead(Always), CSRoll(1), Then] + Actions(y) + [Then]
  {
    hide CodeOf, Unless;
  }

  lemma IfElseFormCode(when: bool, x: Stmt, y: Stmt, locals: map<string, nat>)
    requires Emits(x, locals) && Emits(y, locals)
    ensures CodeOf(IfElse(when, x, y), locals) == IfElseCode(when, CodeOf(x, locals), CodeOf(y, locals))
  {
    hide IfCode, IfElseCode, LoopCode, WhileCode, Unless;
  }

  lemma CompileWhile(s: Stmt, x: Stmt, when: bool, y: Stmt, b: Build)
    requires StackOk(b) && s == WhileRepeat(x, when, y) && Emits(s, b.locals)
    ensures Shows(ApplyAll(b, Actions(s)), b.code + CodeOf(s, b.locals), Top(b), b.locals)
    decreases s, 0
  {
    hide Apply, ApplyAll, CodeOf, Actions;
    var cond, top := Unless(when), Top(b);
    var cx, cy := CodeOf(x, b.locals), CodeOf(y, b.locals);
    var d, f := -|b.code| - 1, |b.code| + |cx|;
    BeginShows(b);
    One(b, Begin);
    var c1 := Apply(b, Begin).value;
    BuilderCompiles(x, c1);
    var a2 := [Begin] + Actions(x);
    Then2(b, [Begin], c1, Actions(x));
    var c2 := ApplyAll(c1, Actions(x)).value;
    AheadShows(c2, cond);
    Snoc(b, a2, c2, Ahead(cond));
    var c3 := Apply(c2, Ahead(cond)).value;
    assert Top(c3) == top + [d, f];
    RollShows(c3, top, d, f);
    Snoc(b, a2 + [Ahead(cond)], c3, CSRoll(1));
    var c4 := Apply(c3, CSRoll(1)).value;
    BuilderCompiles(y, c4);
    var a4 := a2 + [Ahead(cond)] + [CSRoll(1)];
    Then2(b, a4, c4, Actions(y));
    var c5 := ApplyAll(c4, Actions(y)).value;
    assert Top(c5) == (top + [f]) + [d];
    AgainShows(c5, top + [f], d, Always);
    Snoc(b, a4 + Actions(y), c5, Again(Always));
    var c6 := Apply(c5, Again(Always)).value;
    assert c6.code == b.code + cx + [Jump(cond, None)] + cy + Jumps(Always, -|cx| - |cy| - 2);
    ThenShows(c6, top, f, cond);
    Snoc(b, a4 + Actions(y) + [Again(Always)], c6, Then);
    WhileFormActions(x, when, y);
    WhileFormCode(x, when, y, b.locals);
    assert a4 + Actions(y) + [Again(Always)] + [Then] == Actions(WhileRepeat(x, when, y));
    assert c6.code[f := Jump(cond, Some(|cy| + 1))] ==
           b.code + (cx + Jumps(cond, |cy| + 1) + cy + Jumps(Always, -|cx| - |cy| - 2));
  }

  lemma WhileFormActions(x: Stmt, when: bool, y: Stmt)
    ensures Actions(WhileRepeat(x, when, y)) ==
            [Begin] + Actions(x) + [Ahead(Unless(when)), CSRoll(1)] + Actions(y) + [Again(Always), Then]
  {
    hide CodeOf, Unless;
  }

  lemma WhileFormCode(x: Stmt, when: bool, y: Stmt, locals: map<string, nat>)
    requires Emits(x, locals) && Emits(y, locals)
    ensures CodeOf(WhileRepeat(x, when, y), locals) == WhileCode(CodeOf(x, locals), when, CodeOf(y, locals))
  {
    hide IfCode, IfElseCode, LoopCode, WhileCode, Unless;
  }
}
