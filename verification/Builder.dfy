/** Construction of words through a control-flow stack (WordBuilder.cs). */
module Builder {
  import opened Base
  import opened Machine

  /** The fields of a builder. cfStack is the whole array: a pick at a negative depth reads a stale slot above cfPtr. */
  datatype Build = Build(
    cfStack: seq<int>, cfPtr: int, code: seq<Opcode>, toResolve: seq<Option<string>>,
    locals: map<string, nat>, jumpToLast: bool)

  /** The calls that a builder receives. */
  datatype Action =
    | Literal(v: int32)
    | CallByName(name: string)    // a local, or a word that is looked up later
    | CallWord(w: nat)
    | CallLater(name: string)
    | ReadLocal(name: string)
    | WriteLocal(name: string)
    | DefLocal(name: string)
    | Return
    | Ahead(cond: Condition)
    | Then
    | Begin
    | Again(cond: Condition)
    | CSPick(depth: int)
    | CSRoll(depth: int)

  const EMPTY := Build(seq(16, _ => 0), -1, [], [], map[], true)

  predicate StackOk(b: Build) {
    |b.cfStack| > 0 && -1 <= b.cfPtr < |b.cfStack|
  }

  // ----- the methods, as functions; None stands for an exception -----

  function Add(b: Build, op: Opcode, refName: Option<string>): Build {
    b.(code := b.code + [op], toResolve := b.toResolve + [refName], jumpToLast := false)
  }

  function CSPush(b: Build, x: int): (r: Build)
    requires StackOk(b)
    ensures StackOk(r)
  {
    var p := b.cfPtr + 1;
    var arr := if p == |b.cfStack| then b.cfStack + seq(|b.cfStack|, _ => 0) else b.cfStack;
    b.(cfStack := arr[p := x], cfPtr := p)
  }

  function CSPop(b: Build): Option<(Build, int)> {
    if 0 <= b.cfPtr < |b.cfStack| then Some((b.(cfPtr := b.cfPtr - 1), b.cfStack[b.cfPtr])) else None
  }

  function RollSlots(b: Build, depth: int): (r: Option<Build>)
    requires StackOk(b)
    ensures r.Some? ==> StackOk(r.value)
  {
    var p := b.cfPtr - depth;
    if depth < 0 || !(0 <= p <= b.cfPtr < |b.cfStack|) then None
    else Some(b.(cfStack := b.cfStack[..p] + b.cfStack[p + 1..b.cfPtr + 1] + [b.cfStack[p]] + b.cfStack[b.cfPtr + 1..]))
  }

  function PickSlot(b: Build, depth: int): (r: Option<Build>)
    requires StackOk(b)
    ensures r.Some? ==> StackOk(r.value)
  {
    var p := b.cfPtr - depth;
    if 0 <= p < |b.cfStack| then Some(CSPush(b, b.cfStack[p])) else None
  }

  function ResolveJumpAt(b: Build, x: int): Option<Build> {
    if !(0 <= x < |b.code|) || !b.code[x].Jump? || b.code[x].disp.Some? then None
    else Some(b.(code := b.code[x := Jump(b.code[x].cond, Some(|b.code| - x - 1))], jumpToLast := true))
  }

  function CloseForward(b: Build): (r: Option<Build>)
    requires StackOk(b)
    ensures r.Some? ==> StackOk(r.value)
  {
    match CSPop(b)
    case None => None
    case Some(p) => if p.1 < 0 then None else ResolveJumpAt(p.0, p.1)
  }

  function JumpBack(b: Build, cond: Condition): (r: Option<Build>)
    requires StackOk(b)
    ensures r.Some? ==> StackOk(r.value)
  {
    match CSPop(b)
    case None => None
    case Some(p) =>
      if p.1 >= 0 then None else Some(Add(p.0, Jump(cond, Some(-p.1 - 1 - |b.code| - 1)), None))
  }

  function UseLocal(b: Build, name: string, write: bool): (r: Option<Build>)
    ensures r.Some? && StackOk(b) ==> StackOk(r.value)
  {
    if name !in b.locals then None
    else Some(Add(b, if write then PutLocal(b.locals[name]) else GetLocal(b.locals[name]), None))
  }

  function CallOrLocal(b: Build, target: string): (r: Option<Build>)
    ensures r.Some? && StackOk(b) ==> StackOk(r.value)
  {
    var write := |target| > 0 && target[0] == '>';
    var lname := if write then target[1..] else target;
    if lname in b.locals then UseLocal(b, lname, write) else Some(Add(b, Call(None), Some(target)))
  }

  function Apply(b: Build, a: Action): (r: Option<Build>)
    requires StackOk(b)
    ensures r.Some? ==> StackOk(r.value)
  {
    match a
    case Literal(v) => Some(Add(b, Const(v), None))
    case CallByName(name) => CallOrLocal(b, name)
    case CallWord(w) => Some(Add(b, Call(Some(w)), None))
    case CallLater(name) => Some(Add(b, Call(None), Some(name)))
    case ReadLocal(name) => UseLocal(b, name, false)
    case WriteLocal(name) => UseLocal(b, name, true)
    case DefLocal(name) => if name in b.locals then None else Some(b.(locals := b.locals[name := |b.locals|]))
    case Return => Some(Add(b, Ret, None))
    case Ahead(cond) => Some(Add(CSPush(b, |b.code|), Jump(cond, None), None))
    case Then => CloseForward(b)
    case Begin => Some(CSPush(b, -|b.code| - 1))
    case Again(cond) => JumpBack(b, cond)
    case CSPick(depth) => PickSlot(b, depth)
    case CSRoll(depth) => RollSlots(b, depth)
  }

  /** `Build`: the control-flow stack must be empty; a `ret` is added when execution could reach the end. */
  function Finish(b: Build): Option<Build> {
    if b.cfPtr != -1 || (!b.jumpToLast && b.code == []) then None
    else Some(if b.jumpToLast || b.code[|b.code| - 1].MayFallThrough() then Add(b, Ret, None) else b)
  }

  // ----- invariant -----

  ghost predicate OnStack(b: Build, x: int) {
    exists p :: 0 <= p <= b.cfPtr && p < |b.cfStack| && b.cfStack[p] == x
  }

  /** Unresolved jumps are on the control-flow stack; resolved ones land in the code, and one that lands on its end has
      set jumpToLast; locals are numbered; unresolved calls have a name. */
  ghost predicate OpcodeInv(b: Build, i: nat)
    requires i < |b.code| == |b.toResolve|
  {
    && (b.toResolve[i].Some? <==> b.code[i] == Call(None))
    && match b.code[i]
       case GetLocal(num) => num < |b.locals|
       case PutLocal(num) => num < |b.locals|
       case Jump(_, None) => OnStack(b, i)
       case Jump(_, Some(d)) => 0 <= i + 1 + d <= |b.code| && (i + 1 + d == |b.code| ==> b.jumpToLast)
       case _ => true
  }

  /** Some jump lands just past the last opcode. */
  ghost predicate LandsAtEnd(code: seq<Opcode>) {
    exists i :: 0 <= i < |code| && code[i].Jump? && code[i].disp.Some? && i + 1 + code[i].disp.value == |code|
  }

  ghost predicate Inv(b: Build) {
    && StackOk(b) && |b.code| == |b.toResolve|
    && (!b.jumpToLast ==> b.code != [])
    && (b.jumpToLast ==> b.code == [] || LandsAtEnd(b.code))
    && (forall i | 0 <= i < |b.code| :: OpcodeInv(b, i))
    && (forall p | 0 <= p < |b.cfStack| :: b.cfStack[p] < 0 ==> -b.cfStack[p] - 1 <= |b.code|)
    && Numbered(b.locals)
  }

  /** Locals have distinct numbers below their count. */
  ghost predicate Numbered(locals: map<string, nat>) {
    && (forall name | name in locals :: locals[name] < |locals|)
    && (forall m, n | m in locals && n in locals && locals[m] == locals[n] :: m == n)
  }

  lemma AddKeeps(b: Build, op: Opcode, refName: Option<string>)
    requires |b.code| == |b.toResolve| && (refName.Some? <==> op == Call(None))
    requires StackOk(b)
    requires forall i | 0 <= i < |b.code| :: OpcodeInv(b, i)
    requires forall p | 0 <= p < |b.cfStack| :: b.cfStack[p] < 0 ==> -b.cfStack[p] - 1 <= |b.code|
    requires Numbered(b.locals)
    requires match op
             case GetLocal(num) => num < |b.locals|
             case PutLocal(num) => num < |b.locals|
             case Jump(_, None) => OnStack(b, |b.code|)
             case Jump(_, Some(d)) => 0 <= |b.code| + 1 + d <= |b.code|
             case _ => true
    ensures Inv(Add(b, op, refName))
  {
    var b' := Add(b, op, refName);
    forall i | 0 <= i < |b'.code| ensures OpcodeInv(b', i) {
      if i < |b.code| {
        assert OpcodeInv(b, i);
        StackKept(b, b', i);
      } else {
        StackKept(b, b', i);
      }
    }
  }

  lemma StackKept(b: Build, b': Build, x: int)
    requires b.cfStack == b'.cfStack && b.cfPtr == b'.cfPtr
    ensures OnStack(b, x) <==> OnStack(b', x)
  {
  }

  lemma PushKeeps(b: Build, x: int)
    requires Inv(b) && (x < 0 ==> -x - 1 <= |b.code|)
    ensures Inv(CSPush(b, x)) && OnStack(CSPush(b, x), x)
  {
    var b' := CSPush(b, x);
    assert b'.cfStack[b'.cfPtr] == x;
    forall i | 0 <= i < |b'.code| ensures OpcodeInv(b', i) {
      assert OpcodeInv(b, i);
      if b.code[i].Jump? && b.code[i].disp.None? {
        var p :| 0 <= p <= b.cfPtr && p < |b.cfStack| && b.cfStack[p] == i;
        assert b'.cfStack[p] == i;
      }
    }
  }

  lemma RollKeeps(b: Build, depth: int)
    requires Inv(b) && RollSlots(b, depth).Some?
    ensures Inv(RollSlots(b, depth).value)
  {
    var b' := RollSlots(b, depth).value;
    var q := b.cfPtr - depth;
    forall i | 0 <= i < |b'.code| ensures OpcodeInv(b', i) {
      assert OpcodeInv(b, i);
      if b.code[i].Jump? && b.code[i].disp.None? {
        var p :| 0 <= p <= b.cfPtr && p < |b.cfStack| && b.cfStack[p] == i;
        var p' := if p < q then p else if p == q then b.cfPtr else p - 1;
        assert b'.cfStack[p'] == i;
      }
    }
    forall p | 0 <= p < |b'.cfStack| ensures b'.cfStack[p] < 0 ==> -b'.cfStack[p] - 1 <= |b.code| {
      var p' := if p < q then p else if p < b.cfPtr then p + 1 else if p == b.cfPtr then q else p;
      assert b'.cfStack[p] == b.cfStack[p'];
    }
  }

  lemma ThenKeeps(b: Build)
    requires Inv(b) && CloseForward(b).Some?
    ensures Inv(CloseForward(b).value)
  {
    var b' := CloseForward(b).value;
    var x := b.cfStack[b.cfPtr];
    forall i | 0 <= i < |b'.code| ensures OpcodeInv(b', i) {
      assert OpcodeInv(b, i);
      if i != x && b.code[i].Jump? && b.code[i].disp.None? {
        var p :| 0 <= p <= b.cfPtr && p < |b.cfStack| && b.cfStack[p] == i;
        assert p != b.cfPtr && b'.cfStack[p] == i;
      }
    }
    assert b'.code[x].Jump? && b'.code[x].disp == Some(|b'.code| - x - 1);
  }

  lemma AgainKeeps(b: Build, cond: Condition)
    requires Inv(b) && JumpBack(b, cond).Some?
    ensures Inv(JumpBack(b, cond).value)
  {
    var c := CSPop(b).value.0;
    var x := b.cfStack[b.cfPtr];
    forall i | 0 <= i < |c.code| ensures OpcodeInv(c, i) {
      assert OpcodeInv(b, i);
      if b.code[i].Jump? && b.code[i].disp.None? {
        var p :| 0 <= p <= b.cfPtr && p < |b.cfStack| && b.cfStack[p] == i;
        assert p != b.cfPtr && c.cfStack[p] == i;
      }
    }
    AddKeeps(c, Jump(cond, Some(-x - 1 - |b.code| - 1)), None);
  }

  lemma DefLocalKeeps(b: Build, name: string)
    requires Inv(b) && name !in b.locals
    ensures Inv(b.(locals := b.locals[name := |b.locals|]))
  {
    var b' := b.(locals := b.locals[name := |b.locals|]);
    assert b'.locals.Keys == b.locals.Keys + {name};
    assert |b'.locals| == |b.locals| + 1;
    forall i | 0 <= i < |b'.code| ensures OpcodeInv(b', i) {
      assert OpcodeInv(b, i);
      StackKept(b, b', i);
    }
  }

  /** Every action of the builder keeps its invariant. */
  lemma ApplyKeeps(b: Build, a: Action)
    requires Inv(b) && Apply(b, a).Some?
    ensures Inv(Apply(b, a).value)
  {
    hide OpcodeInv, OnStack, RollSlots, CloseForward, JumpBack;
    match a
    case Literal(v) => AddKeeps(b, Const(v), None);
    case CallByName(name) =>
      var write := |name| > 0 && name[0] == '>';
      var lname := if write then name[1..] else name;
      if lname in b.locals {
        AddKeeps(b, if write then PutLocal(b.locals[lname]) else GetLocal(b.locals[lname]), None);
      } else {
        AddKeeps(b, Call(None), Some(name));
      }
    case CallWord(w) => AddKeeps(b, Call(Some(w)), None);
    case CallLater(name) => AddKeeps(b, Call(None), Some(name));
    case ReadLocal(name) => AddKeeps(b, GetLocal(b.locals[name]), None);
    case WriteLocal(name) => AddKeeps(b, PutLocal(b.locals[name]), None);
    case DefLocal(name) => DefLocalKeeps(b, name);
    case Return => AddKeeps(b, Ret, None);
    case Ahead(cond) =>
      PushKeeps(b, |b.code|);
      AddKeeps(CSPush(b, |b.code|), Jump(cond, None), None);
    case Then => ThenKeeps(b);
    case Begin => PushKeeps(b, -|b.code| - 1);
    case Again(cond) => AgainKeeps(b, cond);
    case CSPick(depth) => PushKeeps(b, b.cfStack[b.cfPtr - depth]);
    case CSRoll(depth) => RollKeeps(b, depth);
  }

  // ----- all sequences of actions -----

  function ApplyAll(b: Build, acts: seq<Action>): (r: Option<Build>)
    requires StackOk(b)
    ensures r.Some? ==> StackOk(r.value)
    decreases |acts|
  {
    if acts == [] then Some(b)
    else
      match Apply(b, acts[0])
      case None => None
      case Some(c) => ApplyAll(c, acts[1..])
  }

  lemma {:induction false} ApplyAllKeeps(b: Build, acts: seq<Action>)
    requires Inv(b) && ApplyAll(b, acts).Some?
    ensures Inv(ApplyAll(b, acts).value)
    decreases |acts|
  {
    if acts != [] {
      ApplyKeeps(b, acts[0]);
      ApplyAllKeeps(Apply(b, acts[0]).value, acts[1..]);
    }
  }

  lemma InvStack(b: Build)
    requires Inv(b)
    ensures StackOk(b)
  {
  }

  lemma EmptyInv()
    ensures Inv(EMPTY)
  {
  }

  /** A finished word is well-formed: every jump is resolved, every jump target and every fall-through successor is an
      opcode of the word, so that execution cannot run off its end. */
  lemma FinishWellFormed(b: Build)
    requires Inv(b)
    ensures Finish(b).Some? <==> b.cfPtr == -1
    ensures Finish(b).Some? ==> WellFormed(|b.locals|, Finish(b).value.code)
  {
    if b.cfPtr == -1 {
      var w := Finish(b).value;
      forall i | 0 <= i < |w.code| ensures WellFormedAt(|b.locals|, w.code, i) {
        if i < |b.code| {
          assert OpcodeInv(b, i);
          assert !OnStack(b, i);
        }
      }
    }
  }

  /** Whatever the sequence of calls, including picks and rolls of the control-flow stack at any depth: when building
      succeeds, the word is well-formed. */
  lemma BuiltWordsAreWellFormed(acts: seq<Action>)
    ensures var b := ApplyAll(EMPTY, acts);
            b.Some? && Finish(b.value).Some? ==> WellFormed(|b.value.locals|, Finish(b.value).value.code)
  {
    if ApplyAll(EMPTY, acts).Some? {
      EmptyInv();
      ApplyAllKeeps(EMPTY, acts);
      FinishWellFormed(ApplyAll(EMPTY, acts).value);
    }
  }

  // ----- resolution of names -----

  /** `Resolve`: unresolved calls get the word that the dictionary gives to their name; None when a name is unknown. */
  method Resolve(code: seq<Opcode>, toResolve: seq<Option<string>>, words: map<string, nat>)
    returns (r: Option<seq<Opcode>>)
    requires |code| == |toResolve| && forall i | 0 <= i < |code| :: toResolve[i].Some? <==> code[i] == Call(None)
    ensures r.Some? <==> forall i | 0 <= i < |code| && toResolve[i].Some? :: toResolve[i].value in words
    ensures r.Some? ==> |r.value| == |code| && forall i | 0 <= i < |code| ::
      r.value[i] == if toResolve[i].Some? && toResolve[i].value in words
                    then Call(Some(words[toResolve[i].value])) else code[i]
  {
    var out := code;
    for i := 0 to |code|
      invariant |out| == |code|
      invariant forall k | 0 <= k < i && toResolve[k].Some? :: toResolve[k].value in words
      invariant forall k | 0 <= k < |code| ::
        out[k] == if k < i && toResolve[k].Some? && toResolve[k].value in words
                  then Call(Some(words[toResolve[k].value])) else code[k]
    {
      if toResolve[i].Some? {
        var name := toResolve[i].value;
        if name !in words {
          return None;
        }
        out := out[i := Call(Some(words[name]))];
      }
    }
    return Some(out);
  }

  /** Resolution leaves no call without a target, and keeps words well-formed. */
  lemma ResolvedIsWellFormed(numLocals: nat, code: seq<Opcode>, toResolve: seq<Option<string>>, words: map<string, nat>,
                             r: seq<Opcode>)
    requires |code| == |toResolve| == |r| && WellFormed(numLocals, code)
    requires forall i | 0 <= i < |code| :: toResolve[i].Some? <==> code[i] == Call(None)
    requires forall i | 0 <= i < |code| && toResolve[i].Some? :: toResolve[i].value in words
    requires forall i | 0 <= i < |code| ::
             r[i] == if toResolve[i].Some? then Call(Some(words[toResolve[i].value])) else code[i]
    ensures WellFormed(numLocals, r) && forall i | 0 <= i < |r| && r[i].Call? :: r[i].target.Some?
  {
    forall i | 0 <= i < |r| ensures WellFormedAt(numLocals, r, i) && (r[i].Call? ==> r[i].target.Some?) {
      assert WellFormedAt(numLocals, code, i);
    }
  }

  // ----- the builder object -----

  class WordBuilder {
    var cfStack: array<int>
    var cfPtr: int
    var code: seq<Opcode>
    var toResolve: seq<Option<string>>
    var locals: map<string, nat>
    var jumpToLast: bool

    ghost function Abs(): Build
      reads this, cfStack
    {
      Build(cfStack[..], cfPtr, code, toResolve, locals, jumpToLast)
    }

    ghost predicate Valid()
      reads this, cfStack
    {
      Inv(Abs())
    }

    constructor ()
      ensures Valid() && Abs() == EMPTY && fresh(cfStack)
    {
      cfStack := new int[16](_ => 0);
      cfPtr := -1;
      code, toResolve, locals := [], [], map[];
      jumpToLast := true;
      new;
      assert cfStack[..] == EMPTY.cfStack;
      EmptyInv();
    }

    method AddOp(op: Opcode, refName: Option<string>)
      modifies this
      ensures Abs() == Add(old(Abs()), op, refName) && cfStack == old(cfStack)
    {
      code := code + [op];
      toResolve := toResolve + [refName];
      jumpToLast := false;
    }

    method Push(x: int)
      requires StackOk(Abs())
      modifies this, cfStack
      ensures Abs() == CSPush(old(Abs()), x)
      ensures cfStack == old(cfStack) || fresh(cfStack)
    {
      ghost var b := Abs();
      var len := cfStack.Length;
      cfPtr := cfPtr + 1;
      if cfPtr == len {
        var buf := cfStack;
        var ncf := new int[len * 2](i reads buf => if 0 <= i < buf.Length then buf[i] else 0);
        assert ncf[..] == b.cfStack + seq(len, _ => 0);
        cfStack := ncf;
      }
      cfStack[cfPtr] := x;
    }

    method PopSlot() returns (x: Option<int>)
      requires StackOk(Abs())
      modifies this
      ensures cfStack == old(cfStack)
      ensures match CSPop(old(Abs()))
              case None => x.None? && Abs() == old(Abs())
              case Some(p) => x == Some(p.1) && Abs() == p.0
    {
      if cfPtr < 0 {
        return None;
      }
      x := Some(cfStack[cfPtr]);
      cfPtr := cfPtr - 1;
    }

    method Roll(depth: int) returns (ok: bool)
      requires StackOk(Abs())
      modifies this, cfStack
      ensures cfStack == old(cfStack)
      ensures ok <==> RollSlots(old(Abs()), depth).Some?
      ensures ok ==> Abs() == RollSlots(old(Abs()), depth).value
    {
      var p := cfPtr - depth;
      if depth < 0 || p < 0 || cfPtr < 0 {
        return false;
      }
      var x := cfStack[p];
      forall i | p <= i < cfPtr {
        cfStack[i] := cfStack[i + 1];
      }
      cfStack[cfPtr] := x;
      ghost var after := RollSlots(old(Abs()), depth).value.cfStack;
      assert forall i | 0 <= i < cfStack.Length :: cfStack[i] == after[i];
      return true;
    }

    /** None of the actions, when it ends without an exception, does anything else than the function says. */
    method Perform(a: Action) returns (ok: bool)
      requires Valid()
      modifies this, cfStack
      ensures ok <==> Apply(old(Abs()), a).Some?
      ensures ok ==> Valid() && Abs() == Apply(old(Abs()), a).value
    {
      hide Inv;
      ghost var b := Abs();
      InvStack(b);
      if Apply(b, a).Some? {
        ApplyKeeps(b, a);
      }
      ok := true;
      match a {
        case Literal(v) => AddOp(Const(v), None);
        case CallByName(name) => ok := DoCall(name);
        case CallWord(w) => AddOp(Call(Some(w)), None);
        case CallLater(name) => AddOp(Call(None), Some(name));
        case ReadLocal(name) => ok := DoLocal(name, false);
        case WriteLocal(name) => ok := DoLocal(name, true);
        case DefLocal(name) =>
          ok := name !in locals;
          if ok {
            locals := locals[name := |locals|];
          }
        case Return => AddOp(Ret, None);
        case Ahead(cond) =>
          Push(|code|);
          AddOp(Jump(cond, None), None);
        case Then => ok := DoThen();
        case Begin => Push(-|code| - 1);
        case Again(cond) => ok := DoAgain(cond);
        case CSPick(depth) =>
          var p := cfPtr - depth;
          ok := 0 <= p < cfStack.Length;
          if ok {
            Push(cfStack[p]);
          }
        case CSRoll(depth) => ok := Roll(depth);
      }
    }

    method DoCall(target: string) returns (ok: bool)
      modifies this
      ensures cfStack == old(cfStack)
      ensures ok <==> CallOrLocal(old(Abs()), target).Some?
      ensures ok ==> Abs() == CallOrLocal(old(Abs()), target).value
    {
      var write := |target| > 0 && target[0] == '>';
      var lname := if write then target[1..] else target;
      if lname in locals {
        ok := DoLocal(lname, write);
      } else {
        AddOp(Call(None), Some(target));
        ok := true;
      }
    }

    method DoLocal(name: string, write: bool) returns (ok: bool)
      modifies this
      ensures cfStack == old(cfStack)
      ensures ok <==> UseLocal(old(Abs()), name, write).Some?
      ensures ok ==> Abs() == UseLocal(old(Abs()), name, write).value
    {
      if name !in locals {
        return false;
      }
      AddOp(if write then PutLocal(locals[name]) else GetLocal(locals[name]), None);
      return true;
    }

    method DoThen() returns (ok: bool)
      requires StackOk(Abs())
      modifies this
      ensures cfStack == old(cfStack)
      ensures ok <==> CloseForward(old(Abs())).Some?
      ensures ok ==> Abs() == CloseForward(old(Abs())).value
    {
      var x := PopSlot();
      if x.None? || x.value < 0 || x.value >= |code| || !code[x.value].Jump? || code[x.value].disp.Some? {
        return false;
      }
      code := code[x.value := Jump(code[x.value].cond, Some(|code| - x.value - 1))];
      jumpToLast := true;
      return true;
    }

    method DoAgain(cond: Condition) returns (ok: bool)
      requires StackOk(Abs())
      modifies this
      ensures cfStack == old(cfStack)
      ensures ok <==> JumpBack(old(Abs()), cond).Some?
      ensures ok ==> Abs() == JumpBack(old(Abs()), cond).value
    {
      var x := PopSlot();
      if x.None? || x.value >= 0 {
        return false;
      }
      AddOp(Jump(cond, Some(-x.value - 1 - |code| - 1)), None);
      return true;
    }

    /** `Build`: the new word, still with names to resolve. */
    method BuildWord() returns (w: Option<Word>)
      requires Valid()
      modifies this
      ensures w.Some? <==> old(Abs()).cfPtr == -1
      ensures w.Some? ==> w.value.Interpreted? && WellFormed(w.value.numLocals, w.value.code)
      ensures w.Some? ==> w.value == Interpreted(|old(Abs()).locals|, Finish(old(Abs())).value.code)
    {
      FinishWellFormed(Abs());
      if cfPtr != -1 {
        return None;
      }
      if jumpToLast || code[|code| - 1].MayFallThrough() {
        AddOp(Ret, None);
      }
      return Some(Interpreted(|locals|, code));
    }
  }
}
