/** What the calls of the builder do (WordBuilder.cs, lines 72-336), said without the functions that specify them. */
module BuilderLaws {
  import opened Base
  import opened Machine
  import opened Builder
  import opened Structured

  // ----- calls by name -----

  /** A name is a local that is read, '>' and a name a local that is written; any other name is a word to be found
      later. */
  lemma CallsByName(b: Build, name: string)
    requires StackOk(b)
    ensures name in b.locals && (name == "" || name[0] != '>') ==>
              Apply(b, CallByName(name)) == Apply(b, ReadLocal(name))
              && Shows(Apply(b, CallByName(name)), b.code + [GetLocal(b.locals[name])], Top(b), b.locals)
    ensures name in b.locals ==>
              Apply(b, CallByName(">" + name)) == Apply(b, WriteLocal(name))
              && Shows(Apply(b, CallByName(">" + name)), b.code + [PutLocal(b.locals[name])], Top(b), b.locals)
    ensures (forall x | x in b.locals :: x != name && ">" + x != name) ==>
              Apply(b, CallByName(name)) == Apply(b, CallLater(name))
  {
    assert (">" + name)[1..] == name;
    if name != "" && name[0] == '>' {
      assert ">" + name[1..] == name;
    }
  }

  /** A word to be found later is a call without a target, and its name is kept beside it. */
  lemma CallsLater(b: Build, name: string)
    requires StackOk(b)
    ensures var r := Apply(b, CallLater(name));
            Shows(r, b.code + [Call(None)], Top(b), b.locals) && r.value.toResolve == b.toResolve + [Some(name)]
  {
  }

  // ----- locals -----

  function Definitions(names: seq<string>): seq<Action> {
    seq(|names|, i requires 0 <= i < |names| => DefLocal(names[i]))
  }

  /** The names are distinct and new. */
  predicate AllNew(locals: map<string, nat>, names: seq<string>) {
    && (forall i, j | 0 <= i < j < |names| :: names[i] != names[j])
    && (forall i | 0 <= i < |names| :: names[i] !in locals)
  }

  /** The names have the numbers from n on, and the other locals are kept. */
  predicate NumberedFrom(before: map<string, nat>, after: map<string, nat>, names: seq<string>, n: nat) {
    && |after| == n + |names| && (forall i | 0 <= i < |names| :: names[i] in after && after[names[i]] == n + i)
    && (forall x | x in before :: x in after && after[x] == before[x])
  }

  lemma NewStep(locals: map<string, nat>, names: seq<string>, n: nat)
    requires names != []
    ensures AllNew(locals, names) <==> names[0] !in locals && AllNew(locals[names[0] := n], names[1..])
  {
    var rest := names[1..];
    assert forall i | 0 < i < |names| :: names[i] == rest[i - 1];
    assert forall i | 0 <= i < |rest| :: rest[i] == names[i + 1];
  }

  lemma NumberedStep(before: map<string, nat>, after: map<string, nat>, names: seq<string>)
    requires names != [] && names[0] !in before
    requires NumberedFrom(before[names[0] := |before|], after, names[1..], |before| + 1)
    ensures NumberedFrom(before, after, names, |before|)
  {
    var rest := names[1..];
    assert forall i | 0 < i < |names| :: names[i] == rest[i - 1];
  }

  /** Locals are numbered in the order of their definitions; a name that is defined already is refused. */
  lemma {:induction false} LocalsInOrder(b: Build, names: seq<string>)
    requires StackOk(b)
    ensures ApplyAll(b, Definitions(names)).Some? <==> AllNew(b.locals, names)
    ensures var r := ApplyAll(b, Definitions(names));
            r.Some? ==> NumberedFrom(b.locals, r.value.locals, names, |b.locals|) && r.value.code == b.code
    decreases |names|
  {
    hide Apply, AllNew;
    if names == [] {
      assert AllNew(b.locals, names) by {
        NothingNew(b.locals);
      }
    } else {
      hide NumberedFrom;
      var acts := Definitions(names);
      DefinitionApplies(b, names[0]);
      assert acts[0] == DefLocal(names[0]) && acts[1..] == Definitions(names[1..]);
      NewStep(b.locals, names, |b.locals|);
      if names[0] !in b.locals {
        var c := Apply(b, acts[0]).value;
        LocalsInOrder(c, names[1..]);
        if ApplyAll(c, acts[1..]).Some? {
          NumberedStep(b.locals, ApplyAll(c, acts[1..]).value.locals, names);
        }
      }
    }
  }

  lemma NothingNew(locals: map<string, nat>)
    ensures AllNew(locals, [])
  {
  }

  lemma DefinitionApplies(b: Build, name: string)
    requires StackOk(b)
    ensures Apply(b, DefLocal(name)) == if name in b.locals then None
            else Some(b.(locals := b.locals[name := |b.locals|]))
  {
  }

  // ----- the control-flow stack -----

  /** A pick copies the element at a depth to the top. */
  lemma PickShows(b: Build, depth: nat)
    requires StackOk(b) && depth < |Top(b)|
    ensures Shows(Apply(b, CSPick(depth)), b.code, Top(b) + [Top(b)[|Top(b)| - 1 - depth]], b.locals)
  {
  }

  /** A roll moves the element at a depth to the top; it fails outside the stack. */
  lemma RollMoves(b: Build, depth: int)
    requires StackOk(b)
    ensures var n := |Top(b)|;
            if 0 <= depth < n
            then Shows(Apply(b, CSRoll(depth)), b.code,
                       Top(b)[..n - 1 - depth] + Top(b)[n - depth..] + [Top(b)[n - 1 - depth]], b.locals)
            else Apply(b, CSRoll(depth)).None?
  {
  }

  // ----- the end of a word -----

  /** A return is added exactly when execution could reach the end: the word is empty, a jump lands there, or the last
      opcode may fall through. */
  lemma ReturnAdded(b: Build)
    requires Inv(b) && b.cfPtr == -1
    ensures Finish(b).Some?
    ensures Finish(b).value.code ==
            if b.code == [] || LandsAtEnd(b.code) || b.code[|b.code| - 1].MayFallThrough() then b.code + [Ret]
               else b.code
  {
    if i :| 0 <= i < |b.code| && b.code[i].Jump? && b.code[i].disp.Some? && i + 1 + b.code[i].disp.value == |b.code| {
      assert OpcodeInv(b, i);
    }
  }

  // ----- names that are resolved later -----

  /** The word that the dictionary gives to a name, if it has one. */
  function Found(name: Option<string>, words: map<string, nat>): Option<nat> {
    if name.Some? && name.value in words then Some(words[name.value]) else None
  }

  function ResolvedCode(code: seq<Opcode>, names: seq<Option<string>>, words: map<string, nat>): (r: seq<Opcode>)
    ensures |r| == |code|
  {
    seq(|code|, i requires 0 <= i < |code| =>
      if i < |names| && Found(names[i], words).Some? then Call(Found(names[i], words)) else code[i])
  }

  function ResolvedNames(names: seq<Option<string>>, words: map<string, nat>): (r: seq<Option<string>>)
    ensures |r| == |names|
  {
    seq(|names|, i requires 0 <= i < |names| => if Found(names[i], words).Some? then None else names[i])
  }

  /** A builder in which calls have got the words that the dictionary gives to their names. */
  function Resolved(b: Build, words: map<string, nat>): Build {
    b.(code := ResolvedCode(b.code, b.toResolve, words), toResolve := ResolvedNames(b.toResolve, words))
  }

  /** The name is a local that is read or written. */
  predicate IsLocal(name: string, locals: map<string, nat>) {
    if name != "" && name[0] == '>' then name[1..] in locals else name in locals
  }

  /** The action that calls the word itself instead of its name. */
  function Early(a: Action, locals: map<string, nat>, words: map<string, nat>): Action {
    match a
    case CallByName(name) => if !IsLocal(name, locals) && name in words then CallWord(words[name]) else a
    case CallLater(name) => if name in words then CallWord(words[name]) else a
    case _ => a
  }

  lemma AddResolved(b: Build, op: Opcode, name: Option<string>, words: map<string, nat>)
    requires |b.code| == |b.toResolve|
    ensures Resolved(Add(b, op, name), words) ==
            if Found(name, words).Some? then Add(Resolved(b, words), Call(Found(name, words)), None)
            else Add(Resolved(b, words), op, name)
  {
    var r, c := Resolved(b, words), Resolved(Add(b, op, name), words);
    var op', name' := if Found(name, words).Some? then Call(Found(name, words))
                      else op, if Found(name, words).Some? then None else name;
    assert c.code == r.code + [op'] && c.toResolve == r.toResolve + [name'];
  }

  lemma JumpResolved(b: Build, x: int, words: map<string, nat>)
    requires |b.code| == |b.toResolve| && forall i | 0 <= i < |b.code| :: b.toResolve[i].Some? ==> b.code[i].Call?
    ensures ResolveJumpAt(Resolved(b, words), x) ==
            match ResolveJumpAt(b, x) case None => None case Some(c) => Some(Resolved(c, words))
  {
    var r := ResolveJumpAt(b, x);
    if r.Some? {
      assert Resolved(r.value, words).code == ResolveJumpAt(Resolved(b, words), x).value.code;
    }
  }

  /** Every name belongs to a call. */
  lemma NamesOfCalls(b: Build)
    requires Inv(b)
    ensures StackOk(b) && |b.code| == |b.toResolve| && forall i | 0 <= i < |b.code| ::
            b.toResolve[i].Some? ==> b.code[i].Call?
  {
    forall i | 0 <= i < |b.code| && b.toResolve[i].Some? ensures b.code[i].Call? {
      assert OpcodeInv(b, i);
    }
  }

  function ResolvedIfSome(r: Option<Build>, words: map<string, nat>): Option<Build> {
    match r case None => None case Some(c) => Some(Resolved(c, words))
  }

  /** Whether a call gets its word at once or later makes no difference. */
  lemma EarlyApplies(b: Build, a: Action, words: map<string, nat>)
    requires Inv(b)
    ensures StackOk(Resolved(b, words))
    ensures Apply(Resolved(b, words), Early(a, b.locals, words)) == ResolvedIfSome(Apply(b, a), words)
  {
    hide Inv, ResolvedCode, ResolvedNames, RollSlots;
    NamesOfCalls(b);
    match a
    case Literal(v) => AddResolved(b, Const(v), None, words);
    case CallByName(name) => NameApplies(b, name, words);
    case CallWord(w) => AddResolved(b, Call(Some(w)), None, words);
    case CallLater(name) => AddResolved(b, Call(None), Some(name), words);
    case ReadLocal(name) => LocalApplies(b, name, words);
    case WriteLocal(name) => LocalApplies(b, name, words);
    case DefLocal(name) =>
    case Return => AddResolved(b, Ret, None, words);
    case Ahead(cond) => AddResolved(CSPush(b, |b.code|), Jump(cond, None), None, words);
    case Then => ThenApplies(b, words);
    case Begin =>
    case Again(cond) => AgainApplies(b, cond, words);
    case CSPick(depth) =>
    case CSRoll(depth) => RollApplies(b, depth, words);
  }

  lemma NameApplies(b: Build, name: string, words: map<string, nat>)
    requires StackOk(b) && |b.code| == |b.toResolve|
    ensures Apply(Resolved(b, words), Early(CallByName(name), b.locals, words)) ==
            ResolvedIfSome(Apply(b, CallByName(name)), words)
  {
    hide ResolvedCode, ResolvedNames;
    if IsLocal(name, b.locals) {
      LocalApplies(b, name, words);
      if name != "" && name[0] == '>' {
        LocalApplies(b, name[1..], words);
      }
    } else {
      AddResolved(b, Call(None), Some(name), words);
    }
  }

  lemma LocalApplies(b: Build, name: string, words: map<string, nat>)
    requires |b.code| == |b.toResolve|
    ensures forall write :: UseLocal(Resolved(b, words), name, write) == ResolvedIfSome(UseLocal(b, name, write), words)
  {
    hide ResolvedCode, ResolvedNames;
    if name in b.locals {
      AddResolved(b, PutLocal(b.locals[name]), None, words);
      AddResolved(b, GetLocal(b.locals[name]), None, words);
    }
  }

  lemma ThenApplies(b: Build, words: map<string, nat>)
    requires StackOk(b) && |b.code| == |b.toResolve| && forall i | 0 <= i < |b.code| ::
             b.toResolve[i].Some? ==> b.code[i].Call?
    ensures CloseForward(Resolved(b, words)) == ResolvedIfSome(CloseForward(b), words)
  {
    hide ResolvedCode, ResolvedNames;
    if CSPop(b).Some? {
      JumpResolved(CSPop(b).value.0, CSPop(b).value.1, words);
    }
  }

  lemma AgainApplies(b: Build, cond: Condition, words: map<string, nat>)
    requires StackOk(b) && |b.code| == |b.toResolve|
    ensures JumpBack(Resolved(b, words), cond) == ResolvedIfSome(JumpBack(b, cond), words)
  {
    hide ResolvedCode, ResolvedNames;
    if CSPop(b).Some? {
      var p := CSPop(b).value;
      AddResolved(p.0, Jump(cond, Some(-p.1 - 1 - |b.code| - 1)), None, words);
    }
  }

  lemma RollApplies(b: Build, depth: int, words: map<string, nat>)
    requires StackOk(b)
    ensures RollSlots(Resolved(b, words), depth) == ResolvedIfSome(RollSlots(b, depth), words)
  {
    hide ResolvedCode, ResolvedNames;
  }

  /** The program that calls words itself instead of their names. */
  function EarlyStmt(s: Stmt, locals: map<string, nat>, words: map<string, nat>): Stmt {
    match s
    case Prim(a) => Prim(Early(a, locals, words))
    case Seq(x, y) => Seq(EarlyStmt(x, locals, words), EarlyStmt(y, locals, words))
    case If(when, x) => If(when, EarlyStmt(x, locals, words))
    case IfElse(when, x, y) => IfElse(when, EarlyStmt(x, locals, words), EarlyStmt(y, locals, words))
    case BeginAgain(x) => BeginAgain(EarlyStmt(x, locals, words))
    case BeginUntil(when, x) => BeginUntil(when, EarlyStmt(x, locals, words))
    case WhileRepeat(x, when, y) => WhileRepeat(EarlyStmt(x, locals, words), when, EarlyStmt(y, locals, words))
    case _ => s
  }

  function EarlyAll(acts: seq<Action>, locals: map<string, nat>, words: map<string, nat>): seq<Action> {
    seq(|acts|, i requires 0 <= i < |acts| => Early(acts[i], locals, words))
  }

  lemma EarlyConcat(xs: seq<Action>, ys: seq<Action>, locals: map<string, nat>, words: map<string, nat>)
    ensures EarlyAll(xs + ys, locals, words) == EarlyAll(xs, locals, words) + EarlyAll(ys, locals, words)
  {
  }

  /** No action defines a local. */
  predicate KeepsLocals(s: Stmt) {
    match s
    case Prim(a) => !a.DefLocal?
    case Seq(x, y) => KeepsLocals(x) && KeepsLocals(y)
    case If(_, x) => KeepsLocals(x)
    case IfElse(_, x, y) => KeepsLocals(x) && KeepsLocals(y)
    case BeginAgain(x) => KeepsLocals(x)
    case BeginUntil(_, x) => KeepsLocals(x)
    case WhileRepeat(x, _, y) => KeepsLocals(x) && KeepsLocals(y)
    case _ => true
  }

  /** Actions that name nothing. */
  predicate Nameless(acts: seq<Action>) {
    forall i | 0 <= i < |acts| :: !acts[i].CallByName? && !acts[i].CallLater? && !acts[i].DefLocal?
  }

  predicate NoDefinition(acts: seq<Action>) {
    forall i | 0 <= i < |acts| :: !acts[i].DefLocal?
  }

  lemma EarlyBetween(pre: seq<Action>, xs: seq<Action>, post: seq<Action>, locals: map<string, nat>, words: map<string,
                     nat>)
    requires Nameless(pre) && Nameless(post) && NoDefinition(xs)
    ensures EarlyAll(pre + xs + post, locals, words) == pre + EarlyAll(xs, locals, words) + post
    ensures NoDefinition(pre + xs + post)
  {
    var all := EarlyAll(pre + xs + post, locals, words);
    assert all[..|pre|] == pre && all[|pre|..|pre| + |xs|] == EarlyAll(xs, locals, words)
           && all[|pre| + |xs|..] == post;
  }

  lemma {:induction false} EarlyActions(s: Stmt, locals: map<string, nat>, words: map<string, nat>)
    requires KeepsLocals(s)
    ensures Actions(EarlyStmt(s, locals, words)) == EarlyAll(Actions(s), locals, words) && NoDefinition(Actions(s))
  {
    hide Early, Unless, Actions, EarlyAll;
    match s
    case Skip => EarlyLeaf(s, locals, words);
    case Prim(_) => EarlyLeaf(s, locals, words);
    case Leave => EarlyLeaf(s, locals, words);
    case Seq(x, y) =>
      EarlyActions(x, locals, words);
      EarlyActions(y, locals, words);
      SeqActions(x, y);
      SeqActions(EarlyStmt(x, locals, words), EarlyStmt(y, locals, words));
      EarlyConcat(Actions(x), Actions(y), locals, words);
    case If(when, x) =>
      EarlyActions(x, locals, words);
      IfFormActions(when, x);
      IfFormActions(when, EarlyStmt(x, locals, words));
      EarlyBetween([Ahead(Unless(when))], Actions(x), [Then], locals, words);
    case IfElse(when, x, y) =>
      EarlyActions(x, locals, words);
      EarlyActions(y, locals, words);
      IfElseFormActions(when, x, y);
      IfElseFormActions(when, EarlyStmt(x, locals, words), EarlyStmt(y, locals, words));
      var middle := [Ahead(Always), CSRoll(1), Then];
      EarlyBetween([Ahead(Unless(when))], Actions(x), middle, locals, words);
      EarlyTwo([Ahead(Unless(when))] + Actions(x) + middle, Actions(y), [Then], locals, words);
    case BeginAgain(x) =>
      EarlyActions(x, locals, words);
      LoopFormActions(x, true);
      LoopFormActions(EarlyStmt(x, locals, words), true);
      EarlyBetween([Begin], Actions(x), [Again(Always)], locals, words);
    case BeginUntil(when, x) =>
      EarlyActions(x, locals, words);
      LoopFormActions(x, when);
      LoopFormActions(EarlyStmt(x, locals, words), when);
      EarlyBetween([Begin], Actions(x), [Again(Unless(when))], locals, words);
    case WhileRepeat(x, when, y) =>
      EarlyActions(x, locals, words);
      EarlyActions(y, locals, words);
      WhileFormActions(x, when, y);
      WhileFormActions(EarlyStmt(x, locals, words), when, EarlyStmt(y, locals, words));
      var middle := [Ahead(Unless(when)), CSRoll(1)];
      EarlyBetween([Begin], Actions(x), middle, locals, words);
      EarlyTwo([Begin] + Actions(x) + middle, Actions(y), [Again(Always), Then], locals, words);
  }

  lemma EarlyLeaf(s: Stmt, locals: map<string, nat>, words: map<string, nat>)
    requires KeepsLocals(s) && (s.Skip? || s.Prim? || s.Leave?)
    ensures Actions(EarlyStmt(s, locals, words)) == EarlyAll(Actions(s), locals, words) && NoDefinition(Actions(s))
  {
  }

  lemma SeqActions(x: Stmt, y: Stmt)
    ensures Actions(Seq(x, y)) == Actions(x) + Actions(y)
  {
  }

  lemma EarlyTwo(xs: seq<Action>, ys: seq<Action>, post: seq<Action>, locals: map<string, nat>, words: map<string, nat>)
    requires NoDefinition(xs) && NoDefinition(ys) && Nameless(post)
    ensures EarlyAll(xs + ys + post, locals, words) == EarlyAll(xs, locals, words) + EarlyAll(ys, locals, words) + post
    ensures NoDefinition(xs + ys + post)
  {
    EarlyBetween([], ys, post, locals, words);
    assert [] + ys + post == ys + post;
    EarlyConcat(xs, ys + post, locals, words);
    assert xs + ys + post == xs + (ys + post);
  }

  lemma {:induction false} EarlyAppliesAll(b: Build, acts: seq<Action>, words: map<string, nat>)
    requires Inv(b) && NoDefinition(acts)
    ensures StackOk(Resolved(b, words))
    ensures ApplyAll(Resolved(b, words), EarlyAll(acts, b.locals, words)) == ResolvedIfSome(ApplyAll(b, acts), words)
    decreases |acts|
  {
    hide Inv, Apply, Early, Resolved;
    InvStack(b);
    if acts == [] {
      EarlyApplies(b, Return, words);
    } else {
      EarlyApplies(b, acts[0], words);
      var early := EarlyAll(acts, b.locals, words);
      assert early[0] == Early(acts[0], b.locals, words) && early[1..] == EarlyAll(acts[1..], b.locals, words);
      if Apply(b, acts[0]).Some? {
        ApplyKeeps(b, acts[0]);
        var c := Apply(b, acts[0]).value;
        LocalsKept(b, acts[0]);
        EarlyAppliesAll(c, acts[1..], words);
      }
    }
  }

  lemma LocalsKept(b: Build, a: Action)
    requires StackOk(b) && !a.DefLocal? && Apply(b, a).Some?
    ensures Apply(b, a).value.locals == b.locals
  {
  }

  lemma FinishResolved(b: Build, words: map<string, nat>)
    requires |b.code| == |b.toResolve|
    requires forall i | 0 <= i < |b.code| :: b.toResolve[i].Some? ==> b.code[i].Call?
    ensures Finish(Resolved(b, words)) == ResolvedIfSome(Finish(b), words)
  {
    AddResolved(b, Ret, None, words);
  }

  /** A word whose names are resolved after it was built is the word that calls their words at once. */
  lemma NamesResolve(b: Build, s: Stmt, words: map<string, nat>)
    requires Inv(b) && KeepsLocals(s) && b.code == [] && ApplyAll(b, Actions(s)).Some?
    ensures var c := ApplyAll(b, Actions(s)).value;
            var d := ApplyAll(b, Actions(EarlyStmt(s, b.locals, words)));
            d.Some? && Finish(d.value) == ResolvedIfSome(Finish(c), words)
  {
    hide Inv, Apply, Early, Actions, Finish;
    EarlyActions(s, b.locals, words);
    InvStack(b);
    EarlyAppliesAll(b, Actions(s), words);
    NamesOfCalls(b);
    assert Resolved(b, words) == b;
    ApplyAllKeeps(b, Actions(s));
    var c := ApplyAll(b, Actions(s)).value;
    NamesOfCalls(c);
    FinishResolved(c, words);
  }
}
