/** The machine of the generated C code: entering a word, and the run loop (T0Comp.cs, lines 1812-1972). */
module Runtime {
  import opened Base
  import opened SevenE
  import opened Machine
  import opened Slots
  import opened Codegen

  /** data holds the cells below dp; rs is the memory of the return stack and rp the index of its next free cell;
      ip is None once the outermost word has returned. */
  datatype RtState = RtState(data: seq<uint32>, rs: seq<uint32>, rp: nat, ip: Option<nat>)

  function ToCells(stack: seq<int32>): (r: seq<uint32>)
    ensures |r| == |stack| && forall i | 0 <= i < |stack| :: r[i] == ToU32(stack[i])
  {
    seq(|stack|, i requires 0 <= i < |stack| => ToU32(stack[i]))
  }

  function FromCells(cells: seq<uint32>): (r: seq<int32>)
    ensures |r| == |cells| && forall i | 0 <= i < |cells| :: r[i] == ToS32(cells[i])
  {
    seq(|cells|, i requires 0 <= i < |cells| => ToS32(cells[i]))
  }

  function PushCell(m: RtState, v: uint32): RtState {
    m.(data := m.data + [v])
  }

  function PopCell(m: RtState): Option<(RtState, uint32)> {
    if m.data == [] then None
    else Some((m.(data := m.data[..|m.data| - 1]), m.data[|m.data| - 1]))
  }

  /** `T0_NEXT`. */
  function NextSlot(img: Image, p: nat): (r: Option<(uint32, nat)>)
    ensures r.Some? ==> p < r.value.1 <= |img.code|
  {
    if img.oneByteCode then (if p < |img.code| then Some((img.code[p] as uint32, p + 1)) else None)
    else Parse7EUnsigned(img.code, p)
  }

  /** `T0_LOCAL`: the index of a local in the return stack memory. */
  function LocalCell(m: RtState, x: nat): Option<nat> {
    if 2 + x <= m.rp <= |m.rs| then Some(m.rp - 2 - x) else None
  }

  /** `T0_ENTER`, with the return address p. */
  function EnterWord(img: Image, m: RtState, slot: nat, p: nat): Option<RtState> {
    if slot < img.slotInterpreted || slot - img.slotInterpreted >= |img.caddr| then None
    else
      match Parse7EUnsigned(img.code, img.caddr[slot - img.slotInterpreted])
      case None => None
      case Some(nq) =>
        var rp := m.rp + nq.0;
        if rp >= |m.rs| then None
        else Some(m.(rs := m.rs[rp := ToU32(p + nq.0 * 0x1_0000)], rp := rp + 1, ip := Some(nq.1)))
  }

  /** Opcode 0. */
  function Return(m: RtState): Option<RtState> {
    if !(0 < m.rp <= |m.rs|) then None
    else
      var x := m.rs[m.rp - 1];
      var n := x / 0x1_0000;
      if m.rp - 1 < n then None
      else
        var a := x % 0x1_0000;
        Some(m.(rp := m.rp - 1 - n, ip := if a == 0 then None else Some(a)))
  }

  function JumpTo(m: RtState, p: nat, off: int): Option<RtState> {
    if p + off < 0 then None else Some(m.(ip := Some(p + off)))
  }

  /** The opcodes with an argument; p is the position of the argument. */
  function ExecuteSmall(img: Image, m: RtState, op: nat, p: nat): Option<RtState>
    requires 1 <= op <= 6
  {
    match op
    case 1 =>
      (match Parse7ESigned(img.code, p) case None => None
       case Some(v) => Some(PushCell(m, ToU32(v.0)).(ip := Some(v.1))))
    case 2 =>
      (match Parse7EUnsigned(img.code, p) case None => None
       case Some(x) =>
         match LocalCell(m, x.0) case None => None
         case Some(c) => Some(PushCell(m, m.rs[c]).(ip := Some(x.1))))
    case 3 =>
      (match Parse7EUnsigned(img.code, p) case None => None
       case Some(x) =>
         match PopCell(m) case None => None
         case Some(v) =>
           match LocalCell(m, x.0) case None => None
           case Some(c) => Some(v.0.(rs := m.rs[c := v.1], ip := Some(x.1))))
    case _ =>
      match Parse7ESigned(img.code, p) case None => None
      case Some(off) =>
        if op == 4 then JumpTo(m, off.1, off.0)
        else
          match PopCell(m) case None => None
          case Some(v) =>
            if (op == 5) == (v.1 != 0) then JumpTo(v.0, off.1, off.0) else Some(v.0.(ip := Some(off.1)))
  }

  /** A piece of C code, here the same function as the native word on the data stack. */
  function RunCCode(natives: Natives, m: RtState, ccode: string, p: nat): Option<RtState> {
    match natives(ccode, FromCells(m.data))
    case None => None
    case Some(st) => Some(m.(data := ToCells(st), ip := Some(p)))
  }

  /** One round of the run loop; None where the C code would leave its buffers or a piece of C code does not return. */
  function RtStep(img: Image, natives: Natives, m: RtState): Option<RtState>
    requires m.ip.Some?
  {
    match NextSlot(img, m.ip.value)
    case None => None
    case Some(sp) =>
      var (slot, p) := sp;
      if slot >= img.slotInterpreted then EnterWord(img, m, slot, p)
      else if slot == 0 then Return(m)
      else if slot <= 6 then ExecuteSmall(img, m, slot, p)
      else if slot - FIRST_SLOT < |img.ccodes| then RunCCode(natives, m, img.ccodes[slot - FIRST_SLOT], p)
      else None
  }

  function RtRun(img: Image, natives: Natives, m: RtState, n: nat): Option<RtState>
    decreases n
  {
    if n == 0 || m.ip.None? then Some(m)
    else
      match RtStep(img, natives, m)
      case None => None
      case Some(m') => RtRun(img, natives, m', n - 1)
  }

  /** `T0_DEFENTRY`: the return address of the outermost word is 0. */
  function RtStart(img: Image, slot: nat, data: seq<uint32>, rs: seq<uint32>, rp: nat): Option<RtState> {
    EnterWord(img, RtState(data, rs, rp, Some(0)), slot, 0)
  }

  lemma CellsInverse(stack: seq<int32>)
    ensures FromCells(ToCells(stack)) == stack
  {
    forall i | 0 <= i < |stack| ensures FromCells(ToCells(stack))[i] == stack[i] {
      ToS32OfToU32(stack[i]);
    }
  }
}
