/** The generated bytes, run by the generated loop, do what the virtual CPU does with the opcodes. */
module Simulation {
  import opened Base
  import opened SevenE
  import opened Machine
  import opened Layout
  import opened Slots
  import opened Codegen
  import opened Runtime

  /** A program with everything that its generation produced. */
  datatype Build = Build(words: seq<Word>, t: Table, b: Block, entries: seq<nat>, lens: seq<nat>, img: Image) {
    /** Slots fit on 32 bits and addresses on 16 bits; the count of locals is read back as it was written, and fits on
        16 bits. */
    ghost predicate Ok() {
      && Machine.Linked(words) && Compiled(words, t, b, entries, lens, img)
      && t.Count() <= 0x1_0000_0000 && |img.code| <= 0x1_0000
      && forall w | 0 <= w < |words| && words[w].Interpreted? :: words[w].numLocals < LocalsLimit(img.oneByteCode)
    }

    /** ip designates an opcode. */
    predicate Inside(ip: Ip) {
      ip.word < |words| && words[ip.word].Interpreted? && 0 <= ip.off < |words[ip.word].code|
    }

    function OpcodeAt(ip: Ip): Opcode
      requires Inside(ip)
    {
      words[ip.word].code[ip.off]
    }

    /** The index of the code element of an opcode. */
    ghost function ElementOf(ip: Ip): (e: nat)
      requires Ok() && Inside(ip)
      ensures e < |lens| && b.kinds[e] == ToKind(OpcodeAt(ip), t.slots) && b.disps[e] == OpcodeAt(ip).JumpDisp()
    {
      assert WordAt(b, entries[ip.word], words[ip.word], t.slots);
      var i: nat := ip.off;
      assert b.kinds[entries[ip.word] + 1 + i] == ToKind(words[ip.word].code[i], t.slots);
      entries[ip.word] + 1 + ip.off
    }

    /** The address of the bytes of an opcode. */
    ghost function AddressOf(ip: Ip): nat
      requires Ok() && Inside(ip)
    {
      Addr(lens, ElementOf(ip))
    }
  }

  /** In one-byte code the count of locals is written as a raw byte, but it is read back as a 7E number. */
  function LocalsLimit(oneByteCode: bool): nat {
    if oneByteCode then 128 else 0x1_0000
  }

  // ----- decoding one element -----

  lemma HeadDecodes(img: Image, p: nat, head: uint32)
    requires img.oneByteCode ==> head <= 255
    requires OccursAt(img.code, p, CodeElement.HeadBytes(head, img.oneByteCode))
    ensures NextSlot(img, p) == Some((head, p + HeadLen(img.oneByteCode, head)))
  {
    if img.oneByteCode {
      assert img.code[p] == img.code[p..p + 1][0];
    } else {
      UnsignedCodeRoundTrip(img.code, p, head);
    }
  }

  /** Fetching an element yields its first number. */
  lemma FetchSlot(b: Block, lens: seq<nat>, img: Image, e: nat)
    requires LaidOut(b, lens, img) && e < |lens|
    ensures NextSlot(img, Addr(lens, e)) == Some((b.kinds[e].Head(), TailAddr(b, img.oneByteCode, lens, e)))
  {
    hide Parse7E, Enc7U, Enc7S, Len7U, Len7S, Addr, BlockBytes, NextSlot;
    ElementParts(b, img.oneByteCode, lens, e, img.code);
    HeadDecodes(img, Addr(lens, e), b.kinds[e].Head());
  }

  lemma JumpOffsetBound(b: Block, lens: seq<nat>, img: Image, e: nat)
    requires LaidOut(b, lens, img) && e < |lens| && b.kinds[e].Jump? && |img.code| <= 0x1_0000
    ensures -0x8000_0000 <= Offset(b, lens, e) < 0x8000_0000
  {
    hide Enc7U, Enc7S, Len7U, Len7S, Addr, BlockBytes;
    ElementEnd(b, img.oneByteCode, lens, e, img.code);
    AddrMono(lens, b.Target(e), |lens|);
  }

  lemma TailDecodes(code: seq<byte>, p: nat, kind: Kind, joff: int, next: nat)
    requires OccursAt(code, p, CodeElement.TailBytes(kind, joff)) && next == p + |CodeElement.TailBytes(kind, joff)|
    requires kind.Jump? ==> -0x8000_0000 <= joff < 0x8000_0000
    ensures match kind
            case UInt(_) => p == next
            case UIntInt(_, v) => Parse7ESigned(code, p) == Some((v as int, next))
            case UIntUInt(_, v) => Parse7EUnsigned(code, p) == Some((v, next))
            case Jump(_) => Parse7ESigned(code, p) == Some((joff, next))
  {
    hide Parse7E, Enc7U, Enc7S, Len7U, Len7S, Parse7EUnsigned, Parse7ESigned;
    match kind
    case UInt(_) =>
    case UIntInt(_, v) => SignedCodeRoundTrip(code, p, v);
    case UIntUInt(_, v) => UnsignedCodeRoundTrip(code, p, v);
    case Jump(_) => SignedCodeRoundTrip(code, p, joff);
  }

  /** What the argument of each kind of element decodes to. */
  lemma FetchArgument(b: Block, lens: seq<nat>, img: Image, e: nat)
    requires LaidOut(b, lens, img) && e < |lens| && |img.code| <= 0x1_0000
    ensures var p := TailAddr(b, img.oneByteCode, lens, e); var next := Addr(lens, e + 1);
            match b.kinds[e]
            case UInt(_) => p == next
            case UIntInt(_, v) => Parse7ESigned(img.code, p) == Some((v as int, next))
            case UIntUInt(_, v) => Parse7EUnsigned(img.code, p) == Some((v, next))
            case Jump(_) => Parse7ESigned(img.code, p) == Some((Addr(lens, b.Target(e)) - next, next))
  {
    hide Parse7E, Enc7U, Enc7S, Len7U, Len7S, Addr, BlockBytes, Parse7EUnsigned, Parse7ESigned, CodeElement.TailBytes,
         TailAddr;
    var p := TailAddr(b, img.oneByteCode, lens, e);
    ElementParts(b, img.oneByteCode, lens, e, img.code);
    ElementEnd(b, img.oneByteCode, lens, e, img.code);
    if b.kinds[e].Jump? {
      JumpOffsetBound(b, lens, img, e);
    }
    TailDecodes(img.code, p, b.kinds[e], OffsetOrZero(b, lens, e), Addr(lens, e + 1));
  }

  /** A raw byte is read back as a 7E number exactly when it is below 128. */
  lemma SmallByteDecodes(code: seq<byte>, p: nat, n: byte)
    requires p < |code| && code[p] == n
    ensures Parse7EUnsigned(code, p) == Some((n as uint32, p + 1)) <==> n < 128
  {
  }

  /** A count of locals below the limit is read back as it was written. */
  lemma CountDecodes(b: Block, lens: seq<nat>, img: Image, e: nat, n: nat)
    requires LaidOut(b, lens, img) && e < |lens| && n < LocalsLimit(img.oneByteCode) && b.kinds[e] == UInt(n)
    ensures Parse7EUnsigned(img.code, Addr(lens, e)) == Some((n as uint32, Addr(lens, e + 1)))
  {
    hide Parse7E, Enc7U, Len7U, Len7S, Addr, BlockBytes;
    ElementParts(b, img.oneByteCode, lens, e, img.code);
    ElementEnd(b, img.oneByteCode, lens, e, img.code);
    if img.oneByteCode {
      assert img.code[Addr(lens, e)] == img.code[Addr(lens, e)..Addr(lens, e) + 1][0] == n;
      SmallByteDecodes(img.code, Addr(lens, e), n);
    } else {
      UnsignedCodeRoundTrip(img.code, Addr(lens, e), n);
    }
  }

  // ----- the relation between the two machines -----

  /** The low half of a return cell. */
  ghost function ReturnAddress(c: Build, saved: Option<Ip>): nat
    requires c.Ok()
  {
    if saved.Some? && c.Inside(saved.value) then c.AddressOf(saved.value) else 0
  }

  /** The cells of a frame end just below rp: the return cell last, and the locals below it, in reverse order. A local
      that was never written may have any value. */
  ghost predicate FrameCells(c: Build, f: Frame, rs: seq<uint32>, rp: nat)
    requires c.Ok() && |f.locals| + 1 <= rp <= |rs|
  {
    && rs[rp - 1] == ReturnAddress(c, f.saved) + |f.locals| * 0x1_0000
    && forall k | 0 <= k < |f.locals| :: f.locals[k].Some? ==> rs[rp - 2 - k] == ToU32(f.locals[k].value)
  }

  /** The return stack memory between rp0 and rp holds the frames; cur is where execution is in the topmost one. */
  ghost predicate FramesMatch(c: Build, rp0: nat, frames: seq<Frame>, cur: Option<Ip>, rs: seq<uint32>, rp: nat)
    requires c.Ok()
    decreases |frames|
  {
    if frames == [] then cur == None && rp == rp0 <= |rs|
    else
      var top := frames[|frames| - 1];
      && cur.Some? && c.Inside(cur.value) && c.words[cur.value.word].numLocals == |top.locals|
      && rp0 + |top.locals| + 1 <= rp <= |rs|
      && FrameCells(c, top, rs, rp)
      && FramesMatch(c, rp0, frames[..|frames| - 1], top.saved, rs, rp - 1 - |top.locals|)
  }

  ghost predicate Related(c: Build, rp0: nat, s: State, m: RtState)
    requires c.Ok()
  {
    && m.data == ToCells(s.stack)
    && FramesMatch(c, rp0, s.frames, s.ip, m.rs, m.rp)
    && (s.ip.None? <==> m.ip.None?)
    && (s.ip.Some? ==> c.Inside(s.ip.value) && m.ip == Some(c.AddressOf(s.ip.value)))
  }

  lemma {:induction false} FramesTop(c: Build, rp0: nat, frames: seq<Frame>, cur: Option<Ip>, rs: seq<uint32>, rp: nat)
    requires c.Ok() && FramesMatch(c, rp0, frames, cur, rs, rp)
    ensures rp == rp0 + Cells(frames) <= |rs|
    decreases |frames|
  {
    hide Build.Ok, FrameCells;
    if frames != [] {
      var top := frames[|frames| - 1];
      FramesTop(c, rp0, frames[..|frames| - 1], top.saved, rs, rp - 1 - |top.locals|);
    }
  }

  /** Cells from rp on do not matter to the frames below. */
  lemma {:induction false} FramesKept(c: Build, rp0: nat, frames: seq<Frame>, cur: Option<Ip>, rs: seq<uint32>,
                                      rs': seq<uint32>, rp: nat)
    requires c.Ok() && FramesMatch(c, rp0, frames, cur, rs, rp)
    requires |rs| == |rs'| && forall i | 0 <= i < rp <= |rs| :: rs[i] == rs'[i]
    ensures FramesMatch(c, rp0, frames, cur, rs', rp)
    decreases |frames|
  {
    hide Build.Ok, ReturnAddress;
    if frames != [] {
      var top := frames[|frames| - 1];
      FramesKept(c, rp0, frames[..|frames| - 1], top.saved, rs, rs', rp - 1 - |top.locals|);
    }
  }

  // ----- one step -----

  /** The next element holds the next opcode. */
  lemma NextAddress(c: Build, ip: Ip)
    requires c.Ok() && c.Inside(ip) && c.OpcodeAt(ip).MayFallThrough()
    ensures var ip' := ip.(off := ip.off + 1); c.Inside(ip') && c.AddressOf(ip') == Addr(c.lens, c.ElementOf(ip) + 1)
  {
    assert WellFormedAt(c.words[ip.word].numLocals, c.words[ip.word].code, ip.off);
  }

  /** A jump of the code block lands on the element of the opcode to which the opcode jumps. */
  lemma JumpAddress(c: Build, ip: Ip)
    requires c.Ok() && c.Inside(ip) && c.OpcodeAt(ip).Jump?
    ensures var ip' := ip.(off := ip.off + 1 + c.OpcodeAt(ip).JumpDisp()); var e := c.ElementOf(ip);
            c.Inside(ip') && c.b.kinds[e].Jump? && c.AddressOf(ip') == Addr(c.lens, c.b.Target(e))
  {
    assert WellFormedAt(c.words[ip.word].numLocals, c.words[ip.word].code, ip.off);
  }

  /** The opcode does not read a local that its frame has not written. */
  ghost predicate ReadsWritten(words: seq<Word>, s: State) {
    match Fetch(words, s)
    case Some(GetLocal(num)) => ReadLocal(s, num).Some? ==> s.frames[|s.frames| - 1].locals[num].Some?
    case _ => true
  }

  lemma PushRelated(c: Build, rp0: nat, s: State, m: RtState, v: int32, ip: Ip)
    requires c.Ok() && Related(c, rp0, s, m) && s.ip.Some? && c.Inside(ip) && ip.word == s.ip.value.word
    ensures Related(c, rp0, Push(s, v).(ip := Some(ip)), PushCell(m, ToU32(v)).(ip := Some(c.AddressOf(ip))))
  {
    hide Build.Ok;
    assert ToCells(s.stack + [v]) == ToCells(s.stack) + [ToU32(v)];
  }

  lemma MoveRelated(c: Build, rp0: nat, s: State, m: RtState, ip: Ip)
    requires c.Ok() && Related(c, rp0, s, m) && s.ip.Some? && c.Inside(ip) && ip.word == s.ip.value.word
    ensures Related(c, rp0, s.(ip := Some(ip)), m.(ip := Some(c.AddressOf(ip))))
  {
    hide Build.Ok, FrameCells;
  }

  lemma PopRelated(c: Build, rp0: nat, s: State, m: RtState)
    requires c.Ok() && Related(c, rp0, s, m)
    ensures Pop(s).None? <==> PopCell(m).None?
    ensures Pop(s).Some? ==>
      var (s', v) := Pop(s).value; var (m', u) := PopCell(m).value; u == ToU32(v) && Related(c, rp0, s', m')
  {
    hide Build.Ok, FramesMatch;
    if s.stack != [] {
      var n := |s.stack| - 1;
      assert ToCells(s.stack[..n]) == m.data[..n];
    }
  }

  /** The cell of a local of the current word. */
  lemma LocalRelated(c: Build, rp0: nat, s: State, m: RtState, num: nat)
    requires c.Ok() && Related(c, rp0, s, m) && s.ip.Some? && num < c.words[s.ip.value.word].numLocals
    ensures LocalCell(m, num) == Some(m.rp - 2 - num) && ReadLocal(s, num).Some?
    ensures s.frames != [] && num < |s.frames[|s.frames| - 1].locals|
    ensures s.frames[|s.frames| - 1].locals[num].Some? ==> m.rs[m.rp - 2 - num] == ToU32(ReadLocal(s, num).value)
  {
    hide Build.Ok, ReturnAddress;
  }

  lemma WriteRelated(c: Build, rp0: nat, s: State, m: RtState, num: nat, v: int32)
    requires c.Ok() && Related(c, rp0, s, m) && s.ip.Some? && num < c.words[s.ip.value.word].numLocals
    ensures WriteLocal(s, num, v).Some? && 2 + num <= m.rp <= |m.rs|
    ensures Related(c, rp0, WriteLocal(s, num, v).value, m.(rs := m.rs[m.rp - 2 - num := ToU32(v)]))
  {
    hide Build.Ok, ReturnAddress, Build.AddressOf;
    LocalRelated(c, rp0, s, m, num);
    var n := |s.frames| - 1;
    var top := s.frames[n];
    var rs' := m.rs[m.rp - 2 - num := ToU32(v)];
    var below := m.rp - 1 - |top.locals|;
    FramesKept(c, rp0, s.frames[..n], top.saved, m.rs, rs', below);
    var top' := top.(locals := top.locals[num := Some(v)]);
    assert FrameCells(c, top', rs', m.rp);
    var fs := s.frames[..n] + [top'];
    assert fs[..n] == s.frames[..n];
  }

  lemma ReturnRelated(c: Build, rp0: nat, s: State, m: RtState)
    requires c.Ok() && Related(c, rp0, s, m) && s.ip.Some?
    ensures Exit(s).Some? && Return(m).Some? && Related(c, rp0, Exit(s).value, Return(m).value)
  {
    hide Build.Ok, Build.AddressOf;
    var n := |s.frames| - 1;
    var top := s.frames[n];
    assert FrameCells(c, top, m.rs, m.rp);
    LocalsSmall(c, s.ip.value.word);
    SavedAddress(c, rp0, s.frames[..n], top.saved, m.rs, m.rp - 1 - |top.locals|);
    ReturnCell(ReturnAddress(c, top.saved), |top.locals|);
  }

  lemma LocalsSmall(c: Build, w: nat)
    requires c.Ok() && w < |c.words| && c.words[w].Interpreted?
    ensures c.words[w].numLocals < LocalsLimit(c.img.oneByteCode) <= 0x1_0000
  {
  }

  lemma ReturnCell(a: nat, n: nat)
    requires a < 0x1_0000
    ensures (a + n * 0x1_0000) % 0x1_0000 == a && (a + n * 0x1_0000) / 0x1_0000 == n
  {
  }

  /** A saved position is an opcode whose address is between 1 and 65535; 0 stands for the outermost return. */
  lemma SavedAddress(c: Build, rp0: nat, frames: seq<Frame>, saved: Option<Ip>, rs: seq<uint32>, rp: nat)
    requires c.Ok() && FramesMatch(c, rp0, frames, saved, rs, rp)
    ensures ReturnAddress(c, saved) < 0x1_0000
    ensures saved.Some? ==> c.Inside(saved.value) && 0 < c.AddressOf(saved.value) < 0x1_0000
    ensures ReturnAddress(c, saved) == if saved.None? then 0 else c.AddressOf(saved.value)
  {
    if saved.Some? {
      AddressRange(c, saved.value);
    }
  }

  lemma AddressRange(c: Build, ip: Ip)
    requires c.Ok() && c.Inside(ip)
    ensures 0 < c.AddressOf(ip) < |c.img.code| <= 0x1_0000
  {
    hide Addr, BlockBytes;
    var e := c.ElementOf(ip);
    ElementEnd(c.b, c.img.oneByteCode, c.lens, e, c.img.code);
    ElementEnd(c.b, c.img.oneByteCode, c.lens, e - 1, c.img.code);
  }

  /** What `T0_ENTER` reads at the address of a word. */
  lemma EntryRead(c: Build, w: nat)
    requires c.Ok() && w < |c.words| && c.words[w].Interpreted?
    ensures |c.t.slots| == |c.words|
    ensures var k := c.t.slots[w] - c.img.slotInterpreted;
            && 0 <= k < |c.img.caddr| && c.Inside(Ip(w, 0))
            && Parse7EUnsigned(c.img.code, c.img.caddr[k]) ==
               Some((c.words[w].numLocals as uint32, c.AddressOf(Ip(w, 0))))
  {
    hide Addr, BlockBytes, Parse7EUnsigned;
    assert c.t.SlotOk(c.words, w);
    var e := c.entries[w];
    assert WordAt(c.b, e, c.words[w], c.t.slots);
    LocalsSmall(c, w);
    CountDecodes(c.b, c.lens, c.img, e, c.words[w].numLocals);
  }

  /** What `T0_ENTER` does, when there is room for the frame. */
  lemma EnterValue(c: Build, m: RtState, w: nat, p: nat)
    requires c.Ok() && w < |c.words| && c.words[w].Interpreted? && p < 0x1_0000
    requires m.rp + c.words[w].numLocals < |m.rs|
    ensures |c.t.slots| == |c.words| && c.Inside(Ip(w, 0)) && c.words[w].numLocals < 0x1_0000
    ensures var n := c.words[w].numLocals;
            EnterWord(c.img, m, c.t.slots[w], p) ==
            Some(RtState(m.data, m.rs[m.rp + n := p + n * 0x1_0000], m.rp + n + 1, Some(c.AddressOf(Ip(w, 0)))))
  {
    hide Build.AddressOf, Parse7EUnsigned, Build.Ok;
    EntryRead(c, w);
    LocalsSmall(c, w);
  }

  /** Entering a word pushes the same frame on both sides, when there is room for it. */
  lemma EnterRelated(c: Build, rp0: nat, s: State, m: RtState, w: nat, p: nat)
    requires c.Ok() && w < |c.words| && c.words[w].Interpreted?
    requires m.data == ToCells(s.stack) && FramesMatch(c, rp0, s.frames, s.ip, m.rs, m.rp)
    requires p == ReturnAddress(c, s.ip)
    requires m.rp + c.words[w].numLocals < |m.rs|
    ensures |c.t.slots| == |c.words|
    ensures var r := EnterWord(c.img, m, c.t.slots[w], p);
            r.Some? && Related(c, rp0, Enter(s, w, c.words[w].numLocals), r.value) && |r.value.rs| == |m.rs|
  {
    hide Build.AddressOf, Build.Ok, EnterWord, ReturnAddress;
    SavedAddress(c, rp0, s.frames, s.ip, m.rs, m.rp);
    EnterValue(c, m, w, p);
    var n := c.words[w].numLocals;
    var r := EnterWord(c.img, m, c.t.slots[w], p).value;
    FramesTop(c, rp0, s.frames, s.ip, m.rs, m.rp);
    FramesKept(c, rp0, s.frames, s.ip, m.rs, r.rs, m.rp);
    var fs := Enter(s, w, n).frames;
    assert fs[|fs| - 1].locals == seq(n, _ => None) && fs[..|fs| - 1] == s.frames;
    assert FrameCells(c, fs[|fs| - 1], r.rs, r.rp);
  }

  lemma NativeRelated(c: Build, natives: Natives, rp0: nat, s: State, m: RtState, ccode: string, ip: Ip)
    requires c.Ok() && Related(c, rp0, s, m) && s.ip.Some? && c.Inside(ip) && ip.word == s.ip.value.word
    ensures var r := RunCCode(natives, m, ccode, c.AddressOf(ip));
            && (r.Some? <==> natives(ccode, s.stack).Some?)
            && (r.Some? ==> Related(c, rp0, s.(stack := natives(ccode, s.stack).value, ip := Some(ip)), r.value)
                            && r.value.rs == m.rs)
  {
    hide Build.Ok, Build.AddressOf, FrameCells;
    CellsInverse(s.stack);
  }

  // ----- one step of both machines -----

  /** The slot that the run loop reads for an opcode, and the position after it. */
  lemma SlotRead(c: Build, ip: Ip) returns (p: nat)
    requires c.Ok() && c.Inside(ip)
    ensures NextSlot(c.img, c.AddressOf(ip)) == Some((ToKind(c.OpcodeAt(ip), c.t.slots).Head(), p))
    ensures p == TailAddr(c.b, c.img.oneByteCode, c.lens, c.ElementOf(ip))
    ensures c.img.slotInterpreted >= FIRST_SLOT
  {
    hide Addr, BlockBytes, NextSlot;
    FetchSlot(c.b, c.lens, c.img, c.ElementOf(ip));
    p := TailAddr(c.b, c.img.oneByteCode, c.lens, c.ElementOf(ip));
  }

  lemma ArgumentRead(c: Build, ip: Ip)
    requires c.Ok() && c.Inside(ip)
    ensures var e := c.ElementOf(ip); var p := TailAddr(c.b, c.img.oneByteCode, c.lens, e);
            var next := Addr(c.lens, e + 1);
            match c.OpcodeAt(ip)
            case Const(v) => Parse7ESigned(c.img.code, p) == Some((v as int, next))
            case GetLocal(num) => Parse7EUnsigned(c.img.code, p) == Some((ToU32(num), next))
            case PutLocal(num) => Parse7EUnsigned(c.img.code, p) == Some((ToU32(num), next))
            case Jump(_, _) => c.b.kinds[e].Jump?
                               && Parse7ESigned(c.img.code, p) == Some((Addr(c.lens, c.b.Target(e)) - next, next))
            case _ => p == next
  {
    hide Addr, BlockBytes, Parse7ESigned, Parse7EUnsigned, TailAddr;
    FetchArgument(c.b, c.lens, c.img, c.ElementOf(ip));
  }

  lemma LocalIndex(c: Build, ip: Ip, num: nat)
    requires c.Ok() && c.Inside(ip) && (c.OpcodeAt(ip) == GetLocal(num) || c.OpcodeAt(ip) == PutLocal(num))
    ensures num < c.words[ip.word].numLocals && ToU32(num) == num
  {
    assert WellFormedAt(c.words[ip.word].numLocals, c.words[ip.word].code, ip.off);
    LocalsSmall(c, ip.word);
  }

  /** The two machines agree after one step from related states. */
  ghost predicate Agree(c: Build, rp0: nat, after: Option<State>, rtAfter: Option<RtState>, room: nat)
    requires c.Ok()
  {
    && (after.Some? <==> rtAfter.Some?)
    && (after.Some? ==> Related(c, rp0, after.value, rtAfter.value) && |rtAfter.value.rs| == room)
  }

  lemma ConstStep(c: Build, natives: Natives, rp0: nat, s: State, m: RtState)
    requires c.Ok() && Related(c, rp0, s, m) && s.ip.Some? && c.OpcodeAt(s.ip.value).Const?
    ensures Agree(c, rp0, Step(c.words, natives, s), RtStep(c.img, natives, m), |m.rs|)
  {
    hide Build.Ok, Build.AddressOf, FramesMatch, NextSlot, Parse7ESigned, Parse7EUnsigned, Addr, TailAddr;
    var ip := s.ip.value;
    var p := SlotRead(c, ip);
    ArgumentRead(c, ip);
    NextAddress(c, ip);
    PushRelated(c, rp0, s, m, c.OpcodeAt(ip).val, ip.(off := ip.off + 1));
  }

  lemma GetLocalStep(c: Build, natives: Natives, rp0: nat, s: State, m: RtState)
    requires c.Ok() && Related(c, rp0, s, m) && s.ip.Some? && c.OpcodeAt(s.ip.value).GetLocal?
    requires ReadsWritten(c.words, s)
    ensures Agree(c, rp0, Step(c.words, natives, s), RtStep(c.img, natives, m), |m.rs|)
  {
    hide Build.Ok, Build.AddressOf, FramesMatch, NextSlot, Parse7ESigned, Parse7EUnsigned, Addr, TailAddr;
    var ip := s.ip.value;
    var p := SlotRead(c, ip);
    ArgumentRead(c, ip);
    NextAddress(c, ip);
    var num := c.OpcodeAt(ip).num;
    LocalIndex(c, ip, num);
    LocalRelated(c, rp0, s, m, num);
    PushRelated(c, rp0, s, m, ReadLocal(s, num).value, ip.(off := ip.off + 1));
  }

  lemma PutLocalStep(c: Build, natives: Natives, rp0: nat, s: State, m: RtState)
    requires c.Ok() && Related(c, rp0, s, m) && s.ip.Some? && c.OpcodeAt(s.ip.value).PutLocal?
    ensures Agree(c, rp0, Step(c.words, natives, s), RtStep(c.img, natives, m), |m.rs|)
  {
    hide Build.Ok, Build.AddressOf, FramesMatch, NextSlot, Parse7ESigned, Parse7EUnsigned, Addr, TailAddr;
    var ip := s.ip.value;
    var p := SlotRead(c, ip);
    ArgumentRead(c, ip);
    NextAddress(c, ip);
    var num := c.OpcodeAt(ip).num;
    LocalIndex(c, ip, num);
    PopRelated(c, rp0, s, m);
    if s.stack != [] {
      var ip' := ip.(off := ip.off + 1);
      var (s', v) := Pop(s).value;
      var (m', u) := PopCell(m).value;
      MoveRelated(c, rp0, s', m', ip');
      WriteRelated(c, rp0, s'.(ip := Some(ip')), m'.(ip := Some(c.AddressOf(ip'))), num, v);
    }
  }

  lemma JumpStep(c: Build, natives: Natives, rp0: nat, s: State, m: RtState)
    requires c.Ok() && Related(c, rp0, s, m) && s.ip.Some? && c.OpcodeAt(s.ip.value).Jump?
    ensures Agree(c, rp0, Step(c.words, natives, s), RtStep(c.img, natives, m), |m.rs|)
  {
    hide Build.Ok, Build.AddressOf, FramesMatch, NextSlot, Parse7ESigned, Parse7EUnsigned, Addr, TailAddr;
    var ip := s.ip.value;
    var p := SlotRead(c, ip);
    ArgumentRead(c, ip);
    JumpAddress(c, ip);
    var op := c.OpcodeAt(ip);
    var target := ip.(off := ip.off + 1 + op.JumpDisp());
    if op.cond == Always {
      MoveRelated(c, rp0, s, m, target);
    } else {
      NextAddress(c, ip);
      PopRelated(c, rp0, s, m);
      if s.stack != [] {
        var (s', v) := Pop(s).value;
        var (m', u) := PopCell(m).value;
        MoveRelated(c, rp0, s', m', ip.(off := ip.off + 1));
        MoveRelated(c, rp0, s', m', target);
      }
    }
  }

  lemma ReturnStep(c: Build, natives: Natives, rp0: nat, s: State, m: RtState)
    requires c.Ok() && Related(c, rp0, s, m) && s.ip.Some? && c.OpcodeAt(s.ip.value).Ret?
    ensures Agree(c, rp0, Step(c.words, natives, s), RtStep(c.img, natives, m), |m.rs|)
  {
    hide Build.Ok, Build.AddressOf, FramesMatch, NextSlot, Parse7ESigned, Parse7EUnsigned, Addr, TailAddr;
    var ip := s.ip.value;
    var p := SlotRead(c, ip);
    ArgumentRead(c, ip);
    ReturnRelated(c, rp0, s, m);
  }

  lemma CellsOfEnter(s: State, w: nat, n: nat)
    ensures Cells(Enter(s, w, n).frames) == Cells(s.frames) + 1 + n
  {
    var f := Frame(s.ip, seq(n, _ => None));
    assert (s.frames + [f])[..|s.frames|] == s.frames;
  }

  lemma CallSlot(c: Build, ip: Ip)
    requires c.Ok() && c.Inside(ip) && c.OpcodeAt(ip).Call?
    ensures var target := c.OpcodeAt(ip).target; target.Some? && target.value < |c.words| == |c.t.slots|
    ensures var w := c.OpcodeAt(ip).target.value; var slot := c.t.slots[w];
            && ToKind(c.OpcodeAt(ip), c.t.slots).Head() == slot
            && match c.words[w]
               case Native(cc) => FIRST_SLOT <= slot < c.img.slotInterpreted && slot - FIRST_SLOT < |c.img.ccodes|
                                  && c.img.ccodes[slot - FIRST_SLOT] == cc
               case Interpreted(_, _) => c.img.slotInterpreted <= slot
  {
    hide BlockBytes, Addr;
    var w := c.OpcodeAt(ip).target.value;
    assert c.t.SlotOk(c.words, w);
  }

  lemma CallStep(c: Build, natives: Natives, rp0: nat, s: State, m: RtState)
    requires c.Ok() && Related(c, rp0, s, m) && s.ip.Some? && c.OpcodeAt(s.ip.value).Call?
    requires var after := Step(c.words, natives, s); after.Some? ==> rp0 + Cells(after.value.frames) <= |m.rs|
    ensures Agree(c, rp0, Step(c.words, natives, s), RtStep(c.img, natives, m), |m.rs|)
  {
    hide Build.Ok, Build.AddressOf, FramesMatch, NextSlot, Addr, TailAddr, Cells;
    var ip := s.ip.value;
    var p := SlotRead(c, ip);
    ArgumentRead(c, ip);
    NextAddress(c, ip);
    CallSlot(c, ip);
    var ip' := ip.(off := ip.off + 1);
    var w := c.OpcodeAt(ip).target.value;
    match c.words[w] {
      case Native(cc) =>
        NativeRelated(c, natives, rp0, s, m, cc, ip');
      case Interpreted(n, _) =>
        var t := s.(ip := Some(ip'));
        MoveRelated(c, rp0, s, m, ip');
        CellsOfEnter(t, w, n);
        FramesTop(c, rp0, s.frames, s.ip, m.rs, m.rp);
        EnterRelated(c, rp0, t, m, w, c.AddressOf(ip'));
    }
  }

  /** One opcode other than a call. */
  lemma PlainSimulated(c: Build, natives: Natives, rp0: nat, s: State, m: RtState)
    requires c.Ok() && Related(c, rp0, s, m) && s.ip.Some? && !c.OpcodeAt(s.ip.value).Call?
    requires ReadsWritten(c.words, s)
    ensures Agree(c, rp0, Step(c.words, natives, s), RtStep(c.img, natives, m), |m.rs|)
  {
    hide Build.Ok, Build.AddressOf, FramesMatch, Step, RtStep, Agree;
    match c.OpcodeAt(s.ip.value)
    case Const(_) => ConstStep(c, natives, rp0, s, m);
    case GetLocal(_) => GetLocalStep(c, natives, rp0, s, m);
    case PutLocal(_) => PutLocalStep(c, natives, rp0, s, m);
    case Jump(_, _) => JumpStep(c, natives, rp0, s, m);
    case Ret => ReturnStep(c, natives, rp0, s, m);
  }

  /** The contents of the memory where the locals of the topmost frame are. */
  function MemoryLocals(m: RtState): Locals {
    (k: nat) => Some(if 2 + k <= m.rp <= |m.rs| then ToS32(m.rs[m.rp - 2 - k]) else 0)
  }

  /** The initial values are those that the memory holds, or count as never written. */
  ghost predicate FromMemory(init: Locals, m: Option<RtState>) {
    m.Some? ==> forall k: nat :: init(k).Some? ==> init(k) == MemoryLocals(m.value)(k)
  }

  /** Giving the locals of a new frame what the memory holds keeps the states related. */
  lemma FillRelated(c: Build, rp0: nat, s: State, m: RtState, init: Locals)
    requires c.Ok() && Related(c, rp0, s, m) && s.frames != [] && FromMemory(init, Some(m))
    ensures Related(c, rp0, Fill(s, init), m)
  {
    hide Build.Ok, ReturnAddress, Build.AddressOf;
    var n := |s.frames| - 1;
    var top, top' := s.frames[n], Fill(s, init).frames[n];
    assert Fill(s, init).frames[..n] == s.frames[..n];
    forall k | 0 <= k < |top'.locals| && top'.locals[k].Some?
      ensures m.rs[m.rp - 2 - k] == ToU32(top'.locals[k].value) {
      assert top'.locals[k] == init(k);
      assert |top.locals| + 1 <= m.rp <= |m.rs|;
      assert init(k) == MemoryLocals(m)(k);
      assert MemoryLocals(m)(k) == Some(ToS32(m.rs[m.rp - 2 - k]));
      assert ToU32(ToS32(m.rs[m.rp - 2 - k])) == m.rs[m.rp - 2 - k];
    }
    assert FrameCells(c, top', m.rs, m.rp);
  }

  /** Without room for a frame, the generated code fails. */
  lemma EnterOverflows(c: Build, rp0: nat, s: State, m: RtState, w: nat, p: nat)
    requires c.Ok() && Related(c, rp0, s, m) && w < |c.words| && c.words[w].Interpreted?
    requires rp0 + Cells(s.frames) + 1 + c.words[w].numLocals > |m.rs|
    ensures |c.t.slots| == |c.words| && EnterWord(c.img, m, c.t.slots[w], p).None?
  {
    hide Build.Ok, Build.AddressOf, Parse7EUnsigned, FrameCells;
    FramesTop(c, rp0, s.frames, s.ip, m.rs, m.rp);
    EntryRead(c, w);
  }

  lemma CallOverflows(c: Build, natives: Natives, rp0: nat, s: State, m: RtState)
    requires c.Ok() && Related(c, rp0, s, m) && s.ip.Some? && c.OpcodeAt(s.ip.value).Call?
    requires var after := Step(c.words, natives, s); after.Some? && rp0 + Cells(after.value.frames) > |m.rs|
    ensures RtStep(c.img, natives, m).None?
  {
    hide Build.Ok, Build.AddressOf, FramesMatch, NextSlot, Addr, TailAddr, Cells;
    var ip := s.ip.value;
    var p := SlotRead(c, ip);
    ArgumentRead(c, ip);
    CallSlot(c, ip);
    var w := c.OpcodeAt(ip).target.value;
    FramesTop(c, rp0, s.frames, s.ip, m.rs, m.rp);
    if c.words[w].Interpreted? {
      CellsOfEnter(s.(ip := Some(ip.(off := ip.off + 1))), w, c.words[w].numLocals);
      EnterOverflows(c, rp0, s, m, w, p);
    }
  }

  /** One round of the generated loop does what one step of the CPU does, with a return stack of that size and with
      initial values from the memory: same data stack, matching frames, and the next address is that of the next opcode.
      It fails exactly when the CPU fails. */
  lemma StepSimulated(c: Build, natives: Natives, rp0: nat, s: State, m: RtState, init: Locals)
    requires c.Ok() && Related(c, rp0, s, m) && s.ip.Some? && rp0 <= |m.rs|
    requires ReadsWritten(c.words, s) && FromMemory(init, RtStep(c.img, natives, m))
    ensures Agree(c, rp0, StepOn(c.words, natives, init, |m.rs| - rp0, s), RtStep(c.img, natives, m), |m.rs|)
  {
    assert m.ip.Some?;
    hide Build.Ok, Build.AddressOf, FramesMatch, Step, RtStep, Related, Cells, FrameCells, FromMemory;
    var after := Step(c.words, natives, s);
    if !c.OpcodeAt(s.ip.value).Call? {
      PlainSimulated(c, natives, rp0, s, m);
      if after.Some? {
        RelatedFits(c, rp0, after.value, RtStep(c.img, natives, m).value);
      }
    } else if after.Some? && rp0 + Cells(after.value.frames) > |m.rs| {
      CallOverflows(c, natives, rp0, s, m);
    } else {
      CallStep(c, natives, rp0, s, m);
    }
    if RtStep(c.img, natives, m).Some? && |after.value.frames| > |s.frames| {
      FillRelated(c, rp0, after.value, RtStep(c.img, natives, m).value, init);
    }
  }

  lemma RelatedFits(c: Build, rp0: nat, s: State, m: RtState)
    requires c.Ok() && Related(c, rp0, s, m)
    ensures rp0 + Cells(s.frames) == m.rp <= |m.rs|
  {
    hide Build.Ok;
    FramesTop(c, rp0, s.frames, s.ip, m.rs, m.rp);
  }

  // ----- whole runs -----

  /** In n steps, from number k on, no local is read before it has a value. */
  ghost predicate WritesFirst(words: seq<Word>, natives: Natives, inits: nat -> Locals, cells: nat, s: State, k: nat,
                              n: nat)
    decreases n
  {
    n > 0 && s.ip.Some? ==>
      && ReadsWritten(words, s)
      && var t := StepOn(words, natives, inits(k), cells, s);
         t.Some? ==> WritesFirst(words, natives, inits, cells, t.value, k + 1, n - 1)
  }

  /** In a run of the generated loop that starts in m0, the initial values of each step come from the memory. */
  ghost predicate AllFromMemory(img: Image, natives: Natives, m0: RtState, inits: nat -> Locals) {
    forall k: nat :: FromMemory(inits(k), RtRun(img, natives, m0, k + 1))
  }

  lemma {:induction false} RtRunNext(img: Image, natives: Natives, m0: RtState, k: nat)
    ensures var m := RtRun(img, natives, m0, k);
            RtRun(img, natives, m0, k + 1) == if m.None? || m.value.ip.None? then m else RtStep(img, natives, m.value)
    decreases k
  {
    hide RtStep;
    if k > 0 && m0.ip.Some? && RtStep(img, natives, m0).Some? {
      RtRunNext(img, natives, RtStep(img, natives, m0).value, k - 1);
    }
  }

  /** Any number of rounds of the generated loop do what as many steps of the CPU do. */
  lemma {:induction false} RunSimulated(c: Build, natives: Natives, rp0: nat, m0: RtState, inits: nat -> Locals,
                                        s: State, m: RtState, k: nat, n: nat)
    requires c.Ok() && Related(c, rp0, s, m) && rp0 <= |m.rs|
    requires AllFromMemory(c.img, natives, m0, inits) && RtRun(c.img, natives, m0, k) == Some(m)
    requires WritesFirst(c.words, natives, inits, |m.rs| - rp0, s, k, n)
    ensures Agree(c, rp0, RunOn(c.words, natives, inits, |m.rs| - rp0, s, k, n), RtRun(c.img, natives, m, n), |m.rs|)
    decreases n
  {
    hide Build.Ok, Build.AddressOf, FramesMatch, StepOn, RtStep, ReadsWritten, FromMemory;
    if n > 0 && s.ip.Some? {
      RtRunNext(c.img, natives, m0, k);
      StepSimulated(c, natives, rp0, s, m, inits(k));
      if RtStep(c.img, natives, m).Some? {
        var t := StepOn(c.words, natives, inits(k), |m.rs| - rp0, s).value;
        RunSimulated(c, natives, rp0, m0, inits, t, RtStep(c.img, natives, m).value, k + 1, n - 1);
      }
    }
  }

  /** The entry point of a word brings the generated code to the state in which the CPU enters that word; both fail when
      there is no room. */
  lemma StartSimulated(c: Build, rp0: nat, w: nat, stack: seq<int32>, rs: seq<uint32>, init: Locals)
    requires c.Ok() && w < |c.words| && c.words[w].Interpreted? && rp0 <= |rs|
    requires |c.t.slots| == |c.words| ==> FromMemory(init, RtStart(c.img, c.t.slots[w], ToCells(stack), rs, rp0))
    ensures |c.t.slots| == |c.words|
    ensures Agree(c, rp0, StartOn(c.words, init, |rs| - rp0, w, stack),
                  RtStart(c.img, c.t.slots[w], ToCells(stack), rs, rp0), |rs|)
  {
    hide Build.Ok, Build.AddressOf, EnterWord, FromMemory, FrameCells;
    var s, m := State(stack, [], None), RtState(ToCells(stack), rs, rp0, Some(0));
    EntryRead(c, w);
    if 1 + c.words[w].numLocals > |rs| - rp0 {
      StartOverflows(c, rp0, w, m);
    } else {
      EnterRelated(c, rp0, s, m, w, 0);
      FillRelated(c, rp0, Start(c.words, w, stack), RtStart(c.img, c.t.slots[w], ToCells(stack), rs, rp0).value, init);
    }
  }

  lemma StartOverflows(c: Build, rp0: nat, w: nat, m: RtState)
    requires c.Ok() && w < |c.words| && c.words[w].Interpreted? && m.rp == rp0
    requires rp0 + 1 + c.words[w].numLocals > |m.rs|
    ensures |c.t.slots| == |c.words| && EnterWord(c.img, m, c.t.slots[w], 0).None?
  {
    hide Build.Ok, Build.AddressOf, Parse7EUnsigned;
    EntryRead(c, w);
  }

  /** How the generated code ends, compared with the CPU: on the same data stack, or both by failing, or both by
      returning from the outermost word. */
  predicate SameEnd(t: Option<State>, r: Option<RtState>, rp0: nat) {
    if t.None? then r.None?
    else
      && r.Some? && r.value.data == ToCells(t.value.stack) && (r.value.ip.None? <==> t.value.ip.None?)
      && (t.value.ip.None? ==> r.value.rp == rp0)
  }

  /** From the entry point of w, the first n rounds of the generated code end like n steps of the CPU. */
  ghost predicate Follows(c: Build, natives: Natives, rp0: nat, w: nat, stack: seq<int32>, rs: seq<uint32>,
                          first: Locals, inits: nat -> Locals, n: nat)
    requires rp0 <= |rs| && w < |c.words| == |c.t.slots| && c.words[w].Interpreted?
  {
    var m := RtStart(c.img, c.t.slots[w], ToCells(stack), rs, rp0);
    match StartOn(c.words, first, |rs| - rp0, w, stack)
    case None => m.None?
    case Some(s) => m.Some? && SameEnd(RunOn(c.words, natives, inits, |rs| - rp0, s, 0, n),
                                       RtRun(c.img, natives, m.value, n), rp0)
  }

  lemma AgreeEnds(c: Build, rp0: nat, t: Option<State>, r: Option<RtState>, room: nat)
    requires c.Ok() && Agree(c, rp0, t, r, room)
    ensures SameEnd(t, r, rp0)
  {
    hide Build.Ok, Build.AddressOf, FrameCells;
  }

  /** Code generation preserves meaning, for initial values that come from the memory or are never read. */
  lemma CodeFollows(c: Build, natives: Natives, rp0: nat, w: nat, stack: seq<int32>, rs: seq<uint32>, first: Locals,
                    inits: nat -> Locals, n: nat)
    requires c.Ok() && w < |c.words| && c.words[w].Interpreted? && rp0 <= |rs|
    requires |c.t.slots| == |c.words| ==> var m := RtStart(c.img, c.t.slots[w], ToCells(stack), rs, rp0);
             FromMemory(first, m) && (m.Some? ==> AllFromMemory(c.img, natives, m.value, inits))
    requires var s := StartOn(c.words, first, |rs| - rp0, w, stack);
             s.Some? ==> WritesFirst(c.words, natives, inits, |rs| - rp0, s.value, 0, n)
    ensures |c.t.slots| == |c.words| && Follows(c, natives, rp0, w, stack, rs, first, inits, n)
  {
    hide Build.Ok, Build.AddressOf, RtRun, RunOn, StartOn, RtStart, FromMemory, AllFromMemory, WritesFirst, Related,
         SameEnd;
    StartSimulated(c, rp0, w, stack, rs, first);
    var m := RtStart(c.img, c.t.slots[w], ToCells(stack), rs, rp0);
    if m.Some? {
      var s := StartOn(c.words, first, |rs| - rp0, w, stack).value;
      assert RtRun(c.img, natives, m.value, 0) == m by {
        RunNothing(c.img, natives, m.value);
      }
      RunSimulated(c, natives, rp0, m.value, inits, s, m.value, 0, n);
      AgreeEnds(c, rp0, RunOn(c.words, natives, inits, |rs| - rp0, s, 0, n), RtRun(c.img, natives, m.value, n), |rs|);
    }
  }

  lemma RunNothing(img: Image, natives: Natives, m: RtState)
    ensures RtRun(img, natives, m, 0) == Some(m)
  {
  }

  // ----- any contents of the memory -----

  /** Every local has a value. */
  ghost predicate AllWritten(frames: seq<Frame>) {
    forall i | 0 <= i < |frames| :: FrameWritten(frames[i])
  }

  predicate FrameWritten(f: Frame) {
    forall k | 0 <= k < |f.locals| :: f.locals[k].Some?
  }

  /** When new frames start with values in all their locals, all locals have values at all times. */
  lemma StepWritten(words: seq<Word>, natives: Natives, init: Locals, cells: nat, s: State)
    requires AllWritten(s.frames) && forall k: nat :: init(k).Some?
    ensures var t := StepOn(words, natives, init, cells, s); t.Some? ==> AllWritten(t.value.frames)
  {
    hide Cells;
    var t := Step(words, natives, s);
    if t.Some? && |t.value.frames| > |s.frames| {
      FilledWritten(t.value, init);
    }
  }

  lemma FilledWritten(s: State, init: Locals)
    requires s.frames != [] && AllWritten(s.frames[..|s.frames| - 1]) && forall k: nat :: init(k).Some?
    ensures AllWritten(Fill(s, init).frames)
  {
    var n := |s.frames| - 1;
    var fs := Fill(s, init).frames;
    forall i | 0 <= i < |fs| ensures FrameWritten(fs[i]) {
      assert i < n ==> fs[i] == s.frames[..n][i];
    }
  }

  lemma WrittenReads(words: seq<Word>, s: State)
    requires AllWritten(s.frames)
    ensures ReadsWritten(words, s)
  {
    if s.frames != [] {
      assert FrameWritten(s.frames[|s.frames| - 1]);
    }
  }

  lemma {:induction false} WrittenFirst(words: seq<Word>, natives: Natives, inits: nat -> Locals, cells: nat, s: State,
                                        k: nat, n: nat)
    requires AllWritten(s.frames) && forall j: nat, x: nat :: inits(j)(x).Some?
    ensures WritesFirst(words, natives, inits, cells, s, k, n)
    decreases n
  {
    hide StepOn, ReadsWritten, AllWritten;
    if n > 0 && s.ip.Some? {
      WrittenReads(words, s);
      StepWritten(words, natives, inits(k), cells, s);
      var t := StepOn(words, natives, inits(k), cells, s);
      if t.Some? {
        WrittenFirst(words, natives, inits, cells, t.value, k + 1, n - 1);
      }
    }
  }

  /** What the memory holds where a frame has just been entered. */
  function MemoryOr(m: Option<RtState>): Locals {
    if m.Some? then MemoryLocals(m.value) else (_: nat) => Some(0 as int32)
  }

  /** The same for the frame that is entered by step k of a run of the generated loop from m. */
  function MemoryInits(img: Image, natives: Natives, m: Option<RtState>): nat -> Locals {
    (k: nat) => MemoryOr(if m.Some? then RtRun(img, natives, m.value, k + 1) else None)
  }

  lemma MemoryIsThere(img: Image, natives: Natives, m: Option<RtState>)
    ensures FromMemory(MemoryOr(m), m) && forall x: nat :: MemoryOr(m)(x).Some?
    ensures m.Some? ==> AllFromMemory(img, natives, m.value, MemoryInits(img, natives, m))
    ensures forall k: nat, x: nat :: MemoryInits(img, natives, m)(k)(x).Some?
  {
    hide RtRun;
  }

  lemma StartMemory(c: Build, rp0: nat, w: nat, stack: seq<int32>, rs: seq<uint32>)
    requires c.Ok() && w < |c.words| && c.words[w].Interpreted? && rp0 + c.words[w].numLocals < |rs|
    ensures |c.t.slots| == |c.words|
    ensures forall k: nat | k < c.words[w].numLocals ::
              MemoryOr(RtStart(c.img, c.t.slots[w], ToCells(stack), rs, rp0))(k) ==
              Some(ToS32(rs[rp0 + c.words[w].numLocals - 1 - k]))
  {
    hide Build.Ok, Build.AddressOf, EnterWord;
    EnterValue(c, RtState(ToCells(stack), rs, rp0, Some(0)), w, 0);
  }

  lemma StartWritten(words: seq<Word>, init: Locals, cells: nat, w: nat, stack: seq<int32>)
    requires w < |words| && words[w].Interpreted? && forall x: nat :: init(x).Some?
    ensures var s := StartOn(words, init, cells, w, stack); s.Some? ==> AllWritten(s.value.frames)
  {
    assert Start(words, w, stack).frames[..0] == [];
    FilledWritten(Start(words, w, stack), init);
  }

  /** Code generation preserves meaning: for every contents of the return stack memory there are initial values for the
      locals of each word that is entered with which, from the entry point, on any data stack and for every n, n rounds
      of the generated code end like n steps of the CPU with a return stack of that size. */
  lemma GeneratedCodeIsCorrect(c: Build, natives: Natives, rp0: nat, w: nat, stack: seq<int32>, rs: seq<uint32>)
    returns (first: Locals, inits: nat -> Locals)
    requires c.Ok() && w < |c.words| && c.words[w].Interpreted? && rp0 <= |rs|
    ensures |c.t.slots| == |c.words|
    ensures rp0 + c.words[w].numLocals < |rs| ==> forall k: nat | k < c.words[w].numLocals ::
              first(k) == Some(ToS32(rs[rp0 + c.words[w].numLocals - 1 - k]))
    ensures forall n: nat :: Follows(c, natives, rp0, w, stack, rs, first, inits, n)
  {
    hide *;
    SlotsSize(c);
    var m := RtStart(c.img, c.t.slots[w], ToCells(stack), rs, rp0);
    first, inits := MemoryOr(m), MemoryInits(c.img, natives, m);
    if rp0 + c.words[w].numLocals < |rs| {
      StartMemory(c, rp0, w, stack, rs);
    }
    MemoryIsThere(c.img, natives, m);
    StartWritten(c.words, first, |rs| - rp0, w, stack);
    var s := StartOn(c.words, first, |rs| - rp0, w, stack);
    forall n: nat ensures Follows(c, natives, rp0, w, stack, rs, first, inits, n) {
      if s.Some? {
        WrittenFirst(c.words, natives, inits, |rs| - rp0, s.value, 0, n);
      }
      CodeFollows(c, natives, rp0, w, stack, rs, first, inits, n);
    }
  }

  lemma SlotsSize(c: Build)
    requires c.Ok()
    ensures |c.t.slots| == |c.words|
  {
  }

  /** Reading a local before writing it is where the two machines part: the CPU reads 0, the default of C#, and the
      generated code reads whatever the return stack memory held. */
  lemma UnwrittenLocalDiffers(c: Build, natives: Natives, rp0: nat, w: nat, rs: seq<uint32>)
    requires c.Ok() && w < |c.words| && c.words[w] == Interpreted(1, [GetLocal(0), Ret]) && rp0 + 2 <= |rs|
    ensures |c.t.slots| == |c.words|
    ensures var m := RtStart(c.img, c.t.slots[w], [], rs, rp0);
            && Run(c.words, natives, Start(c.words, w, []), 1).Some?
            && Run(c.words, natives, Start(c.words, w, []), 1).value.stack == [0]
            && m.Some? && RtRun(c.img, natives, m.value, 1).Some?
               && RtRun(c.img, natives, m.value, 1).value.data == [rs[rp0]]
  {
    hide Build.Ok, Build.AddressOf, NextSlot, Parse7EUnsigned, EnterWord, Addr, TailAddr;
    EnterValue(c, RtState([], rs, rp0, Some(0)), w, 0);
    var ip := Ip(w, 0);
    var p := SlotRead(c, ip);
    ArgumentRead(c, ip);
    var s := Start(c.words, w, []);
    var m := RtStart(c.img, c.t.slots[w], [], rs, rp0).value;
    assert m.rs[rp0] == rs[rp0];
    assert RtStep(c.img, natives, m).value.data == [rs[rp0]];
    assert Step(c.words, natives, s).value.stack == [0];
    assert Run(c.words, natives, s, 1) == Step(c.words, natives, s);
    assert RtRun(c.img, natives, m, 1) == RtStep(c.img, natives, m);
  }
}
