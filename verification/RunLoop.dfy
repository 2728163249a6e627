/** The context of the generated code, with its two stacks in memory, and its run loop (T0Comp.cs, lines 1685-1697 and
    1812-1972), proved against the machine on values. */
module RunLoop {
  import opened Base
  import opened SevenE
  import opened Machine
  import opened Slots
  import opened Codegen
  import opened Runtime

  /** What a step gives when the data stack has room for the given number of cells. */
  function Fitting(m: Option<RtState>, room: nat): Option<RtState> {
    if m.Some? && |m.value.data| <= room then m else None
  }

  class Context {
    const ds: array<uint32>
    const rs: array<uint32>
    var dp: nat
    var rp: nat
    var ip: Option<nat>

    ghost predicate Valid()
      reads this
    {
      dp <= ds.Length && rp <= rs.Length && ds != rs
    }

    /** The machine state that the context holds. */
    ghost function Abs(): (m: RtState)
      requires Valid()
      reads this, ds, rs
      ensures |m.data| == dp && |m.rs| == rs.Length
    {
      RtState(ds[..dp], rs[..], rp, ip)
    }

    /** A context is made by C code: both stacks are empty, and no word has been entered. */
    constructor (dataSize: nat, returnSize: nat)
      ensures Valid() && fresh(ds) && fresh(rs) && ds.Length == dataSize && rs.Length == returnSize
      ensures dp == 0 && rp == 0 && ip == None
    {
      ds := new uint32[dataSize](_ => 0);
      rs := new uint32[returnSize](_ => 0);
      dp, rp, ip := 0, 0, None;
    }

    /** `T0_PUSH`. */
    method Push(v: uint32) returns (ok: bool)
      requires Valid()
      modifies this`dp, ds
      ensures Valid() && ok == (old(dp) < ds.Length)
      ensures Abs() == if ok then PushCell(old(Abs()), v) else old(Abs())
    {
      if dp == ds.Length {
        return false;
      }
      ds[dp] := v;
      dp := dp + 1;
      return true;
    }

    /** `T0_POP`. */
    method Pop() returns (v: Option<uint32>)
      requires Valid()
      modifies this`dp
      ensures Valid() && (v.None? <==> PopCell(old(Abs())).None?)
      ensures v.Some? ==> PopCell(old(Abs())) == Some((Abs(), v.value))
    {
      if dp == 0 {
        return None;
      }
      ghost var was := ds[..dp];
      dp := dp - 1;
      assert ds[..dp] == was[..dp];
      return Some(ds[dp]);
    }

    /** `T0_ENTER`, with the return address p. */
    method Enter(img: Image, slot: nat, p: nat) returns (ok: bool)
      requires Valid()
      modifies this`rp, this`ip, rs
      ensures Valid() && ok == EnterWord(img, old(Abs()), slot, p).Some?
      ensures ok ==> Abs() == EnterWord(img, old(Abs()), slot, p).value
    {
      if slot < img.slotInterpreted || slot - img.slotInterpreted >= |img.caddr| {
        return false;
      }
      var nq := RunParse7E(img.code, img.caddr[slot - img.slotInterpreted], 0);
      if nq.None? || rp + nq.value.0 >= rs.Length {
        return false;
      }
      var num: nat := nq.value.0;
      ghost var was := rs[..];
      rp := rp + num;
      rs[rp] := ToU32(p + num * 0x1_0000);
      assert rs[..] == was[rp := ToU32(p + num * 0x1_0000)];
      rp, ip := rp + 1, Some(nq.value.1);
      return true;
    }

    /** `T0_DEFENTRY`. */
    method Start(img: Image, slot: nat) returns (ok: bool)
      requires Valid()
      modifies this`rp, this`ip, rs
      ensures Valid() && ok == RtStart(img, slot, old(Abs()).data, old(Abs()).rs, old(rp)).Some?
      ensures ok ==> Abs() == RtStart(img, slot, old(Abs()).data, old(Abs()).rs, old(rp)).value
    {
      ip := Some(0);
      ok := Enter(img, slot, 0);
    }

    /** Opcode 0. */
    method Ret() returns (ok: bool)
      requires Valid()
      modifies this`rp, this`ip
      ensures Valid() && ok == Return(old(Abs())).Some?
      ensures ok ==> Abs() == Return(old(Abs())).value
    {
      if rp == 0 {
        return false;
      }
      var x := rs[rp - 1];
      if rp - 1 < x / 0x1_0000 {
        return false;
      }
      rp := rp - 1 - x / 0x1_0000;
      x := x % 0x1_0000;
      ip := if x == 0 then None else Some(x);
      return true;
    }

    /** Opcodes 2 and 3, for the local num. */
    method Local(write: bool, num: nat, next: nat) returns (ok: bool)
      requires Valid()
      modifies this`dp, this`ip, ds, rs
      ensures Valid()
      ensures var c, v := LocalCell(old(Abs()), num), PopCell(old(Abs()));
              && ok == (c.Some? && if write then v.Some? else old(dp) < ds.Length)
              && (ok ==> Abs() == if write then v.value.0.(rs := old(Abs()).rs[c.value := v.value.1], ip := Some(next))
                                  else PushCell(old(Abs()), old(Abs()).rs[c.value]).(ip := Some(next)))
    {
      if 2 + num > rp {
        return false;
      }
      if write {
        var v := Pop();
        if v.None? {
          return false;
        }
        ghost var was := rs[..];
        rs[rp - 2 - num] := v.value;
        assert rs[..] == was[rp - 2 - num := v.value];
        ok := true;
      } else {
        ok := Push(rs[rp - 2 - num]);
      }
      ip := Some(next);
    }

    /** Opcodes 4 to 6, with an offset from the next opcode. */
    method Jump(op: nat, off: int, next: nat) returns (ok: bool)
      requires Valid() && 4 <= op <= 6
      modifies this`dp, this`ip
      ensures Valid()
      ensures var m, v := old(Abs()), PopCell(old(Abs()));
              var after := if op == 4 then JumpTo(m, next, off)
                           else if v.None? then None
                           else if (op == 5) == (v.value.1 != 0) then JumpTo(v.value.0, next, off)
                           else Some(v.value.0.(ip := Some(next)));
              ok == after.Some? && (ok ==> Abs() == after.value)
    {
      var taken := true;
      if op != 4 {
        var v := Pop();
        if v.None? {
          return false;
        }
        taken := (op == 5) == (v.value != 0);
      }
      if !taken {
        ip := Some(next);
        return true;
      }
      if next + off < 0 {
        return false;
      }
      ip := Some(next + off);
      return true;
    }

    /** The opcodes with an argument; p is the position of the argument. */
    method Small(img: Image, op: nat, p: nat) returns (ok: bool)
      requires Valid() && 1 <= op <= 6
      modifies this`dp, this`ip, ds, rs
      ensures Valid() && ok == Fitting(ExecuteSmall(img, old(Abs()), op, p), ds.Length).Some?
      ensures ok ==> Abs() == ExecuteSmall(img, old(Abs()), op, p).value
    {
      hide Parse7E, Parse7ESigned;
      if op == 2 || op == 3 {
        var x := RunParse7E(img.code, p, 0);
        if x.None? {
          return false;
        }
        ok := Local(op == 3, x.value.0, x.value.1);
        return;
      }
      var off := RunParse7ESigned(img.code, p);
      if off.None? {
        return false;
      }
      if op == 1 {
        ok := Push(ToU32(off.value.0));
        ip := Some(off.value.1);
      } else {
        ok := Jump(op, off.value.0, off.value.1);
      }
    }

    /** A piece of C code, here a function on the data stack. */
    method Native(natives: Natives, ccode: string, p: nat) returns (ok: bool)
      requires Valid()
      modifies this`dp, this`ip, ds
      ensures Valid() && ok == Fitting(RunCCode(natives, old(Abs()), ccode, p), ds.Length).Some?
      ensures ok ==> Abs() == RunCCode(natives, old(Abs()), ccode, p).value
    {
      var r := natives(ccode, FromCells(ds[..dp]));
      if r.None? || |r.value| > ds.Length {
        return false;
      }
      var cells := ToCells(r.value);
      forall i | 0 <= i < |cells| {
        ds[i] := cells[i];
      }
      dp, ip := |cells|, Some(p);
      assert ds[..dp] == cells;
      return true;
    }

    /** One round of the run loop; false where the C code would leave its buffers, or a piece of C code does not
        return. */
    method Round(img: Image, natives: Natives) returns (ok: bool)
      requires Valid() && ip.Some?
      modifies this`dp, this`rp, this`ip, ds, rs
      ensures Valid() && ok == Fitting(RtStep(img, natives, old(Abs())), ds.Length).Some?
      ensures ok ==> Abs() == RtStep(img, natives, old(Abs())).value
    {
      hide Parse7E, ExecuteSmall, EnterWord, Return, RunCCode;
      var p, slot := ip.value, 0;
      if img.oneByteCode {
        if p >= |img.code| {
          return false;
        }
        slot, p := img.code[p], p + 1;
      } else {
        var sp := RunParse7E(img.code, p, 0);
        if sp.None? {
          return false;
        }
        slot, p := sp.value.0, sp.value.1;
      }
      EnterKeepsData(img, Abs(), slot, p);
      if slot >= img.slotInterpreted {
        ok := Enter(img, slot, p);
      } else if slot == 0 {
        ok := Ret();
      } else if slot <= 6 {
        ok := Small(img, slot, p);
      } else if slot - FIRST_SLOT < |img.ccodes| {
        ok := Native(natives, img.ccodes[slot - FIRST_SLOT], p);
      } else {
        ok := false;
      }
    }

    static lemma EnterKeepsData(img: Image, m: RtState, slot: nat, p: nat)
      ensures EnterWord(img, m, slot, p).Some? ==> EnterWord(img, m, slot, p).value.data == m.data
      ensures Return(m).Some? ==> Return(m).value.data == m.data
    {
      hide Parse7E;
    }

    /** The run loop, stopped after at most n rounds. */
    method Run(img: Image, natives: Natives, n: nat) returns (ok: bool)
      requires Valid()
      modifies this`dp, this`rp, this`ip, ds, rs
      ensures Valid()
      ensures ok ==> RtRun(img, natives, old(Abs()), n) == Some(Abs())
      ensures !ok ==> RtRun(img, natives, old(Abs()), n).None? || Overflows(img, natives, old(Abs()), n, ds.Length)
    {
      hide RtStep;
      ghost var m := Abs();
      var i := 0;
      while i < n && ip.Some?
        invariant 0 <= i <= n && Valid()
        invariant RtRun(img, natives, m, n) == RtRun(img, natives, Abs(), n - i)
        invariant Overflows(img, natives, Abs(), n - i, ds.Length) ==> Overflows(img, natives, m, n, ds.Length)
      {
        ghost var before := Abs();
        ok := Round(img, natives);
        if !ok {
          return;
        }
        i := i + 1;
      }
      return true;
    }
  }

  /** Within n rounds, the data stack needs more than the given number of cells. */
  predicate Overflows(img: Image, natives: Natives, m: RtState, n: nat, room: nat)
    decreases n
  {
    n > 0 && m.ip.Some? &&
    match RtStep(img, natives, m)
    case None => false
    case Some(m') => |m'.data| > room || Overflows(img, natives, m', n - 1, room)
  }
}
