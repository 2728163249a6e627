/** The virtual CPU as the object that the source updates in place (CPU.cs), proved against the machine on values. */
module Cpu {
  import opened Base
  import opened Machine

  class FrameObject {
    const upper: FrameObject?
    const saved: Option<Ip>
    const locals: array<Option<int32>>

    constructor (upper: FrameObject?, numLocals: nat, saved: Option<Ip>)
      ensures this.upper == upper && this.saved == saved
      ensures fresh(locals) && locals[..] == seq(numLocals, _ => None)
    {
      this.upper := upper;
      this.saved := saved;
      locals := new Option<int32>[numLocals](_ => None);
    }
  }

  /** The value at a depth below the top is moved to the top, in place. */
  method RotateArray(buf: array<int32>, top: int, depth: nat)
    requires depth <= top < buf.Length
    modifies buf
    ensures buf[..top + 1] == Rotate(old(buf[..top + 1]), depth)
  {
    hide Rotate;
    ghost var was, k := buf[..top + 1], top - depth;
    RotationMoves(was[..k], was[k], was[k + 1..]);
    assert was == was[..k] + [was[k]] + was[k + 1..];
    var v := buf[top - depth];
    forall i | top - depth <= i < top {
      buf[i] := buf[i + 1];
    }
    buf[top] := v;
    assert buf[..top + 1] == was[..k] + was[k + 1..] + [was[k]];
  }

  method UnrotateArray(buf: array<int32>, top: int, depth: nat)
    requires depth <= top < buf.Length
    modifies buf
    ensures buf[..top + 1] == Unrotate(old(buf[..top + 1]), depth)
  {
    hide Unrotate;
    ghost var was, k := buf[..top + 1], top - depth;
    RotationMoves(was[..k], was[top], was[k..top]);
    assert was == was[..k] + was[k..top] + [was[top]];
    var v := buf[top];
    forall i | top - depth < i <= top {
      buf[i] := buf[i - 1];
    }
    buf[top - depth] := v;
    assert buf[..top + 1] == was[..k] + [was[top]] + was[k..top];
  }

  class CpuObject {
    var stackBuf: array<int32>
    var stackPtr: int
    var rsp: FrameObject?
    var ip: Option<Ip>
    ghost var chain: seq<FrameObject>  // the frames, from the outermost to rsp
    ghost var frames: seq<Frame>       // their contents

    ghost function Locals(): set<object>
      reads this
    {
      set f | f in chain :: f.locals
    }

    static ghost function Last(fs: seq<FrameObject>): FrameObject? {
      if fs == [] then null else fs[|fs| - 1]
    }

    ghost predicate FrameAt(i: nat)
      requires i < |chain| && i < |frames|
      reads this, chain[i].locals
    {
      && chain[i].upper == (if i == 0 then null else chain[i - 1])
      && frames[i] == Frame(chain[i].saved, chain[i].locals[..])
      && forall j | 0 <= j < i :: chain[j].locals != chain[i].locals
    }

    ghost predicate Valid()
      reads this, Locals()
    {
      && stackBuf.Length > 0 && -1 <= stackPtr < stackBuf.Length
      && rsp == Last(chain) && |frames| == |chain|
      && forall i | 0 <= i < |chain| :: FrameAt(i)
    }

    /** The machine state that this object represents. */
    ghost function Abs(): State
      requires Valid()
      reads this, stackBuf, Locals()
    {
      State(stackBuf[..stackPtr + 1], frames, ip)
    }

    constructor ()
      ensures Valid() && Abs() == State([], [], None) && fresh(stackBuf)
    {
      stackBuf := new int32[16];
      stackPtr := -1;
      rsp := null;
      ip := None;
      chain := [];
      frames := [];
    }

    method Enter(w: nat, numLocals: nat)
      requires Valid()
      modifies this
      ensures Valid() && Abs() == Machine.Enter(old(Abs()), w, numLocals)
      ensures stackBuf == old(stackBuf) && fresh(Locals() - old(Locals()))
    {
      var f := new FrameObject(rsp, numLocals, ip);
      ghost var n := |chain|;
      rsp := f;
      chain, frames := chain + [f], frames + [Frame(ip, f.locals[..])];
      ip := Some(Ip(w, 0));
      forall i | 0 <= i < n ensures FrameAt(i) {
        assert old(FrameAt(i));
      }
      assert FrameAt(n);
      assert f.locals[..] == Machine.Enter(old(Abs()), w, numLocals).frames[n].locals;
    }

    method Exit() returns (ok: bool)
      requires Valid()
      modifies this
      ensures Valid() && stackBuf == old(stackBuf) && Locals() <= old(Locals())
      ensures ok <==> Machine.Exit(old(Abs())).Some?
      ensures ok ==> Abs() == Machine.Exit(old(Abs())).value
    {
      if rsp == null {
        return false;
      }
      ghost var n := |chain| - 1;
      assert FrameAt(n);
      ip := rsp.saved;
      rsp := rsp.upper;
      chain, frames := chain[..n], frames[..n];
      forall i | 0 <= i < n ensures FrameAt(i) {
        assert old(FrameAt(i));
      }
      return true;
    }

    /** None stands for the exception of the array access. */
    method Pop() returns (v: Option<int32>)
      requires Valid()
      modifies this
      ensures Valid() && stackBuf == old(stackBuf) && chain == old(chain)
      ensures v.None? <==> Machine.Pop(old(Abs())).None?
      ensures v.Some? ==> Machine.Pop(old(Abs())) == Some((Abs(), v.value))
    {
      if stackPtr < 0 {
        return None;
      }
      v := Some(stackBuf[stackPtr]);
      stackPtr := stackPtr - 1;
      forall i | 0 <= i < |chain| ensures FrameAt(i) {
        assert old(FrameAt(i));
      }
      assert stackBuf[..stackPtr + 2][..stackPtr + 1] == stackBuf[..stackPtr + 1];
    }

    method Push(v: int32)
      requires Valid()
      modifies this, stackBuf
      ensures Valid() && Abs() == Machine.Push(old(Abs()), v)
      ensures chain == old(chain) && (stackBuf == old(stackBuf) || fresh(stackBuf))
    {
      var len := stackBuf.Length;
      if stackPtr + 1 == len {
        var nbuf := new int32[len * 2];
        forall i | 0 <= i < len {
          nbuf[i] := stackBuf[i];
        }
        stackBuf := nbuf;
      }
      stackPtr := stackPtr + 1;
      stackBuf[stackPtr] := v;
      assert stackBuf[..stackPtr] == old(stackBuf[..stackPtr + 1]);
      assert stackBuf[..stackPtr + 1] == stackBuf[..stackPtr] + [v];
      forall i | 0 <= i < |chain| ensures FrameAt(i) {
        assert old(FrameAt(i));
      }
    }

    method GetLocal(num: nat) returns (v: Option<int32>)
      requires Valid()
      ensures v == ReadLocal(Abs(), num)
    {
      if rsp != null {
        assert FrameAt(|chain| - 1);
      }
      if rsp == null || num >= rsp.locals.Length {
        return None;
      }
      var cell := rsp.locals[num];
      return Some(if cell.None? then 0 else cell.value);
    }

    method PutLocal(num: nat, v: int32) returns (ok: bool)
      requires Valid()
      modifies this, Locals()
      ensures Valid() && stackBuf == old(stackBuf) && chain == old(chain)
      ensures ok <==> WriteLocal(old(Abs()), num, v).Some?
      ensures ok ==> Abs() == WriteLocal(old(Abs()), num, v).value
    {
      ghost var n := |chain| - 1;
      if rsp != null {
        assert FrameAt(n);
      }
      if rsp == null || num >= rsp.locals.Length {
        return false;
      }
      rsp.locals[num] := Some(v);
      frames := frames[..n] + [Frame(rsp.saved, rsp.locals[..])];
      forall i | 0 <= i <= n ensures FrameAt(i) {
        assert old(FrameAt(i));
      }
      return true;
    }

    /** The value at a depth; the checks are those of the array access. A negative depth reads above the top. */
    method Peek(depth: int) returns (v: Option<int32>)
      requires Valid()
      ensures var st := Abs().stack; depth >= 0 ==> v == if depth < |st| then Some(st[|st| - 1 - depth]) else None
      ensures var k := |Abs().stack| - 1 - depth; v == if 0 <= k < stackBuf.Length then Some(stackBuf[k]) else None
    {
      if !(0 <= stackPtr - depth < stackBuf.Length) {
        return None;
      }
      return Some(stackBuf[stackPtr - depth]);
    }

    /** A copy of a negative number of elements fails. */
    method Rot(depth: int) returns (ok: bool)
      requires Valid()
      modifies this, stackBuf
      ensures Valid() && stackBuf == old(stackBuf) && chain == old(chain)
      ensures ok <==> 0 <= depth < |old(Abs()).stack|
      ensures Abs() == if ok then old(Abs()).(stack := Rotate(old(Abs()).stack, depth)) else old(Abs())
    {
      if depth < 0 || depth > stackPtr {
        return false;
      }
      RotateArray(stackBuf, stackPtr, depth);
      forall i | 0 <= i < |chain| ensures FrameAt(i) {
        assert old(FrameAt(i));
      }
      return true;
    }

    method NRot(depth: int) returns (ok: bool)
      requires Valid()
      modifies this, stackBuf
      ensures Valid() && stackBuf == old(stackBuf) && chain == old(chain)
      ensures ok <==> 0 <= depth < |old(Abs()).stack|
      ensures Abs() == if ok then old(Abs()).(stack := Unrotate(old(Abs()).stack, depth)) else old(Abs())
    {
      if depth < 0 || depth > stackPtr {
        return false;
      }
      UnrotateArray(stackBuf, stackPtr, depth);
      forall i | 0 <= i < |chain| ensures FrameAt(i) {
        assert old(FrameAt(i));
      }
      return true;
    }

    /** A native word replaces the data stack. */
    method RunNative(natives: Natives, ccode: string) returns (ok: bool)
      requires Valid()
      modifies this
      ensures Valid() && chain == old(chain) && (stackBuf == old(stackBuf) || fresh(stackBuf))
      ensures ok <==> natives(ccode, old(Abs()).stack).Some?
      ensures ok ==> Abs() == old(Abs()).(stack := natives(ccode, old(Abs()).stack).value)
    {
      var r := natives(ccode, stackBuf[..stackPtr + 1]);
      if r.None? {
        return false;
      }
      var st := r.value;
      stackBuf := new int32[|st| + 1](i => if 0 <= i < |st| then st[i] else 0);
      stackPtr := |st| - 1;
      forall i | 0 <= i < |chain| ensures FrameAt(i) {
        assert old(FrameAt(i));
      }
      assert stackBuf[..stackPtr + 1] == st;
      return true;
    }

    /** Adds to the offset of the next opcode. */
    method AddOff(disp: int)
      requires Valid() && ip.Some?
      modifies this
      ensures Valid() && Abs() == JumpBy(old(Abs()), disp)
      ensures stackBuf == old(stackBuf) && chain == old(chain)
    {
      ip := Some(ip.value.(off := ip.value.off + disp));
      forall i | 0 <= i < |chain| ensures FrameAt(i) {
        assert old(FrameAt(i));
      }
    }

    method RunCall(words: seq<Word>, natives: Natives, target: Option<nat>) returns (ok: bool)
      requires Valid()
      modifies this
      ensures Valid()
      ensures ok <==> CallWord(words, natives, old(Abs()), target).Some?
      ensures ok ==> Abs() == CallWord(words, natives, old(Abs()), target).value
    {
      if target.None? || target.value >= |words| {
        return false;
      }
      match words[target.value] {
        case Native(c) =>
          ok := RunNative(natives, c);
        case Interpreted(n, _) =>
          Enter(target.value, n);
          ok := true;
      }
    }

    method RunJump(cond: Condition, disp: int) returns (ok: bool)
      requires Valid() && ip.Some?
      modifies this
      ensures Valid()
      ensures var s := old(Abs());
              var after := if cond == Always then Some(JumpBy(s, disp))
                           else match Machine.Pop(s)
                                case None => None
                                case Some(p) => Some(if Taken(cond, p.1) then JumpBy(p.0, disp) else p.0);
              (ok <==> after.Some?) && (ok ==> Abs() == after.value)
    {
      if cond == Always {
        AddOff(disp);
        return true;
      }
      var v := Pop();
      if v.None? {
        return false;
      }
      if Taken(cond, v.value) {
        AddOff(disp);
      }
      return true;
    }

    /** The body of the run loop: fetch, advance, execute (T0Comp.cs, lines 1415-1416). */
    method Step(words: seq<Word>, natives: Natives) returns (ok: bool)
      requires Valid()
      modifies this, stackBuf, Locals()
      ensures Valid()
      ensures ok <==> Machine.Step(words, natives, old(Abs())).Some?
      ensures ok ==> Abs() == Machine.Step(words, natives, old(Abs())).value
    {
      if ip.None? || ip.value.word >= |words| || words[ip.value.word].Native? {
        return false;
      }
      var code := words[ip.value.word].code;
      if !(0 <= ip.value.off < |code|) {
        return false;
      }
      var op := code[ip.value.off];
      AddOff(1);
      match op {
        case Const(v) =>
          Push(v);
          ok := true;
        case GetLocal(num) =>
          var v := GetLocal(num);
          if v.Some? {
            Push(v.value);
          }
          ok := v.Some?;
        case PutLocal(num) =>
          var v := Pop();
          ok := v.Some?;
          if ok {
            ok := PutLocal(num, v.value);
          }
        case Jump(cond, _) =>
          ok := RunJump(cond, op.JumpDisp());
        case Call(target) =>
          ok := RunCall(words, natives, target);
        case Ret =>
          ok := Exit();
      }
    }
  }
}
