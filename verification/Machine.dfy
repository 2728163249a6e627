/** Opcodes (Opcode*.cs) and the virtual CPU that runs them (CPU.cs). Values are integers. */
module Machine {
  import opened Base

  datatype Condition = Always | IfTrue | IfFalse

  const UNRESOLVED: int := -0x8000_0000  // Int32.MinValue

  /** A jump or a call whose target is not known yet has None. */
  datatype Opcode =
    | Const(val: int32)
    | GetLocal(num: nat)
    | PutLocal(num: nat)
    | Jump(cond: Condition, disp: Option<int>)
    | Call(target: Option<nat>)
    | Ret
  {
    function JumpDisp(): int {
      if !Jump? then 0 else if disp.None? then UNRESOLVED else disp.value
    }

    /** Unconditional jumps do not fall through unless they jump to the next opcode. */
    predicate MayFallThrough() {
      match this
      case Jump(Always, _) => JumpDisp() == 0
      case Ret => false
      case _ => true
    }

    function StackAction(): int {
      match this
      case Const(_) => 1
      case GetLocal(_) => 1
      case PutLocal(_) => -1
      case Jump(c, _) => if c == Always then 0 else -1
      case _ => 0
    }
  }

  /** A native word is known by its C code; an interpreted word has locals and opcodes. */
  datatype Word = Native(ccode: string) | Interpreted(numLocals: nat, code: seq<Opcode>)

  /** What a native word does to the data stack; None when it does not return. */
  type Natives = (string, seq<int32>) -> Option<seq<int32>>

  // ----- the machine, as values -----

  /** The next opcode: the word that owns the code array, and an offset in it. */
  datatype Ip = Ip(word: nat, off: int)

  /** A local that was never written is None; it reads as 0, the default value of C#. */
  datatype Frame = Frame(saved: Option<Ip>, locals: seq<Option<int32>>)

  /** The top of both stacks is at the end; ip is None before the first word is entered and after it has returned. */
  datatype State = State(stack: seq<int32>, frames: seq<Frame>, ip: Option<Ip>)

  function Push(s: State, v: int32): State {
    s.(stack := s.stack + [v])
  }

  function Pop(s: State): Option<(State, int32)> {
    if s.stack == [] then None
    else Some((s.(stack := s.stack[..|s.stack| - 1]), s.stack[|s.stack| - 1]))
  }

  function Enter(s: State, w: nat, numLocals: nat): State {
    s.(frames := s.frames + [Frame(s.ip, seq(numLocals, _ => None))], ip := Some(Ip(w, 0)))
  }

  function Exit(s: State): Option<State> {
    if s.frames == [] then None
    else
      var top := s.frames[|s.frames| - 1];
      Some(s.(frames := s.frames[..|s.frames| - 1], ip := top.saved))
  }

  function ReadLocal(s: State, num: nat): Option<int32> {
    if s.frames == [] then None
    else
      var locals := s.frames[|s.frames| - 1].locals;
      if num >= |locals| then None else Some(if locals[num].None? then 0 else locals[num].value)
  }

  function WriteLocal(s: State, num: nat, v: int32): Option<State> {
    if s.frames == [] then None
    else
      var top := s.frames[|s.frames| - 1];
      if num >= |top.locals| then None
      else Some(s.(frames := s.frames[..|s.frames| - 1] + [top.(locals := top.locals[num := Some(v)])]))
  }

  /** Whether a jump is taken on a value. */
  predicate Taken(cond: Condition, v: int) {
    match cond
    case Always => true
    case IfTrue => v != 0
    case IfFalse => v == 0
  }

  function JumpBy(s: State, disp: int): State
    requires s.ip.Some?
  {
    s.(ip := Some(s.ip.value.(off := s.ip.value.off + disp)))
  }

  function CallWord(words: seq<Word>, natives: Natives, s: State, target: Option<nat>): Option<State> {
    if target.None? || target.value >= |words| then None
    else
      match words[target.value]
      case Native(c) => (match natives(c, s.stack) case None => None case Some(st) => Some(s.(stack := st)))
      case Interpreted(n, _) => Some(Enter(s, target.value, n))
  }

  /** The effect of an opcode when ip is already past it; None for an exception or a native that does not return. */
  function Execute(words: seq<Word>, natives: Natives, s: State, op: Opcode): Option<State>
    requires s.ip.Some?
  {
    match op
    case Const(v) => Some(Push(s, v))
    case GetLocal(num) =>
      (match ReadLocal(s, num) case None => None case Some(v) => Some(Push(s, v)))
    case PutLocal(num) =>
      (match Pop(s) case None => None case Some(p) => WriteLocal(p.0, num, p.1))
    case Jump(Always, _) => Some(JumpBy(s, op.JumpDisp()))
    case Jump(c, _) =>
      (match Pop(s) case None => None case Some(p) => Some(if Taken(c, p.1) then JumpBy(p.0, op.JumpDisp()) else p.0))
    case Call(target) => CallWord(words, natives, s, target)
    case Ret => Exit(s)
  }

  /** The opcode at ip. */
  function Fetch(words: seq<Word>, s: State): (r: Option<Opcode>)
    ensures r.Some? ==> s.ip.Some?
  {
    if s.ip.None? || s.ip.value.word >= |words| then None
    else
      match words[s.ip.value.word]
      case Native(_) => None
      case Interpreted(_, code) =>
        if 0 <= s.ip.value.off < |code| then Some(code[s.ip.value.off]) else None
  }

  function Step(words: seq<Word>, natives: Natives, s: State): Option<State> {
    match Fetch(words, s)
    case None => None
    case Some(op) => Execute(words, natives, JumpBy(s, 1), op)
  }

  /** At most n steps, fewer when the first word returns. */
  function Run(words: seq<Word>, natives: Natives, s: State, n: nat): (r: Option<State>)
    decreases n
  {
    if n == 0 || s.ip.None? then Some(s)
    else
      match Step(words, natives, s)
      case None => None
      case Some(t) => Run(words, natives, t, n - 1)
  }

  /** The state in which a word is started on a given data stack. */
  function Start(words: seq<Word>, w: nat, stack: seq<int32>): State
    requires w < |words| && words[w].Interpreted?
  {
    Enter(State(stack, [], None), w, words[w].numLocals)
  }

  // ----- a return stack of limited size, with contents -----

  /** Cells of the return stack that frames take: one for each frame, and one for each local. */
  function Cells(frames: seq<Frame>): nat {
    if frames == [] then 0
    else Cells(frames[..|frames| - 1]) + 1 + |frames[|frames| - 1].locals|
  }

  /** What the locals of a word hold when it is entered; None for a local that counts as never written. */
  type Locals = nat -> Option<int32>

  const UNWRITTEN: Locals := (_: nat) => None

  /** The initial values of the virtual CPU. */
  const DEFAULTS: nat -> Locals := (_: nat) => UNWRITTEN

  /** The locals of the topmost frame get their initial values. */
  function Fill(s: State, init: Locals): State
    requires s.frames != []
  {
    var n := |s.frames| - 1;
    var top := s.frames[n];
    s.(frames := s.frames[..n] + [top.(locals := seq(|top.locals|, k requires k >= 0 => init(k)))])
  }

  /** One step when the return stack has room for the given number of cells, and new frames hold initial values. */
  function StepOn(words: seq<Word>, natives: Natives, init: Locals, cells: nat, s: State): Option<State> {
    match Step(words, natives, s)
    case None => None
    case Some(t) =>
      if Cells(t.frames) > cells then None
      else Some(if |t.frames| > |s.frames| then Fill(t, init) else t)
  }

  /** At most n steps, fewer when the first word returns; inits tells the initial values by step, from number k on. */
  function RunOn(words: seq<Word>, natives: Natives, inits: nat -> Locals, cells: nat, s: State, k: nat,
                 n: nat): Option<State>
    decreases n
  {
    if n == 0 || s.ip.None? then Some(s)
    else
      match StepOn(words, natives, inits(k), cells, s)
      case None => None
      case Some(t) => RunOn(words, natives, inits, cells, t, k + 1, n - 1)
  }

  function StartOn(words: seq<Word>, init: Locals, cells: nat, w: nat, stack: seq<int32>): Option<State>
    requires w < |words| && words[w].Interpreted?
  {
    if 1 + words[w].numLocals > cells then None else Some(Fill(Start(words, w, stack), init))
  }

  // ----- rotations -----

  /** The value at the given depth moves to the top. */
  function Rotate<T>(stack: seq<T>, depth: nat): seq<T>
    requires depth < |stack|
  {
    var k := |stack| - 1 - depth;
    stack[..k] + stack[k + 1..] + [stack[k]]
  }

  /** The value at the top moves to the given depth. */
  function Unrotate<T>(stack: seq<T>, depth: nat): seq<T>
    requires depth < |stack|
  {
    var k := |stack| - 1 - depth;
    stack[..k] + [stack[|stack| - 1]] + stack[k..|stack| - 1]
  }

  /** What they move, and where. */
  lemma RotationMoves<T>(below: seq<T>, x: T, above: seq<T>)
    ensures Rotate(below + [x] + above, |above|) == below + above + [x]
    ensures Unrotate(below + above + [x], |above|) == below + [x] + above
  {
    var n := |below|;
    var r, u := below + [x] + above, below + above + [x];
    assert r[..n] == below && r[n + 1..] == above && r[n] == x;
    assert u[..n] == below && u[n..|u| - 1] == above;
  }

  /** The two rotations undo each other. */
  lemma RotationsInverse<T>(stack: seq<T>, depth: nat)
    requires depth < |stack|
    ensures Unrotate(Rotate(stack, depth), depth) == stack
    ensures Rotate(Unrotate(stack, depth), depth) == stack
  {
    var k := |stack| - 1 - depth;
    var r, u := Rotate(stack, depth), Unrotate(stack, depth);
    assert r[..k] == stack[..k] && r[k..|stack| - 1] == stack[k + 1..];
    assert u[..k] == stack[..k] && u[k + 1..] == stack[k..|stack| - 1];
    assert stack == stack[..k] + [stack[k]] + stack[k + 1..];
  }

  // ----- well-formed words -----

  /** Every jump lands on an opcode, and so does every opcode that may fall through. */
  predicate WellFormedAt(numLocals: nat, code: seq<Opcode>, i: nat)
    requires i < |code|
  {
    && (code[i].MayFallThrough() ==> i + 1 < |code|)
    && match code[i]
       case GetLocal(num) => num < numLocals
       case PutLocal(num) => num < numLocals
       case Jump(_, disp) => disp.Some? && 0 <= i + 1 + disp.value < |code|
       case _ => true
  }

  predicate WellFormed(numLocals: nat, code: seq<Opcode>) {
    code != [] && forall i | 0 <= i < |code| :: WellFormedAt(numLocals, code, i)
  }

  /** Interpreted words are well-formed and all their calls are resolved. */
  predicate Linked(words: seq<Word>) {
    forall w | 0 <= w < |words| && words[w].Interpreted? ::
      && WellFormed(words[w].numLocals, words[w].code)
      && forall i | 0 <= i < |words[w].code| && words[w].code[i].Call? ::
           words[w].code[i].target.Some? && words[w].code[i].target.value < |words|
  }
}
