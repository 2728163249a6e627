/** From opcodes to code elements (Opcode*.cs `ToCodeElement`, WordInterpreted.cs lines 106-121) and from there to
    the generated code block (T0Comp.cs, lines 1627-1679 and 1786-1806). */
module Codegen {
  import opened Base
  import opened Machine
  import opened SevenE
  import opened Layout
  import opened Slots

  function JumpType(cond: Condition): uint32 {
    match cond
    case Always => 4
    case IfTrue => 5
    case IfFalse => 6
  }

  function ToKind(op: Opcode, slots: seq<nat>): Kind {
    match op
    case Const(v) => UIntInt(1, v)
    case GetLocal(num) => UIntUInt(2, ToU32(num))
    case PutLocal(num) => UIntUInt(3, ToU32(num))
    case Jump(cond, _) => Kind.Jump(JumpType(cond))
    case Call(target) => UInt(if target.Some? && target.value < |slots| then ToU32(slots[target.value]) else 0)
    case Ret => UInt(0)
  }

  function WordSize(w: Word): nat {
    match w
    case Native(_) => 0
    case Interpreted(_, code) => 1 + |code|
  }

  /** From index start on, the block holds the elements of a word: its number of locals, then one element for each
      opcode, where jumps keep their displacement. */
  ghost predicate WordAt(b: Block, start: nat, w: Word, slots: seq<nat>) {
    && |b.disps| == |b.kinds|
    && start + WordSize(w) <= |b.kinds|
    && (w.Interpreted? ==>
          && b.kinds[start] == UInt(ToU32(w.numLocals))
          && forall i | 0 <= i < |w.code| ::
               b.kinds[start + 1 + i] == ToKind(w.code[i], slots) && b.disps[start + 1 + i] == w.code[i].JumpDisp())
  }

  /** entries[w] is the index of the first element of word w. */
  ghost predicate Entries(words: seq<Word>, entries: seq<nat>) {
    && |entries| == |words| + 1 && entries[0] == 0
    && forall w {:trigger words[w]} | 0 <= w < |words| :: entries[w + 1] == entries[w] + WordSize(words[w])
  }

  /** The block consists of the elements of all words, in order. */
  ghost predicate IsBlockOf(b: Block, words: seq<Word>, slots: seq<nat>, entries: seq<nat>) {
    && Entries(words, entries)
    && |b.kinds| == |b.disps| == entries[|words|]
    && forall w {:trigger words[w]} | 0 <= w < |words| :: WordAt(b, entries[w], words[w], slots)
  }

  // ----- the block of a linked program is valid -----

  lemma {:induction false} EntriesMono(words: seq<Word>, entries: seq<nat>, v: nat, w: nat)
    requires Entries(words, entries) && v <= w <= |words|
    ensures entries[v] <= entries[w]
    decreases w
  {
    if v < w {
      EntriesMono(words, entries, v, w - 1);
      assert words[w - 1] in words;
    }
  }

  /** Every element belongs to a word. */
  lemma {:induction false} OwnerOf(words: seq<Word>, entries: seq<nat>, e: nat, n: nat) returns (w: nat)
    requires Entries(words, entries) && n <= |words| && e < entries[n]
    ensures w < n && entries[w] <= e < entries[w] + WordSize(words[w])
    decreases n
  {
    assert words[n - 1] in words;
    if e < entries[n - 1] {
      w := OwnerOf(words, entries, e, n - 1);
    } else {
      w := n - 1;
    }
  }

  lemma TargetInBlock(b: Block, words: seq<Word>, slots: seq<nat>, entries: seq<nat>, e: nat)
    requires Machine.Linked(words) && IsBlockOf(b, words, slots, entries)
    requires e < |b.kinds| && b.kinds[e].Jump?
    ensures 0 <= e + 1 + b.disps[e] < |b.kinds|
  {
    var w := OwnerOf(words, entries, e, |words|);
    var word := words[w];
    var i := e - entries[w] - 1;
    assert WordAt(b, entries[w], word, slots);
    assert word.Interpreted? && i >= 0;
    assert b.kinds[e] == ToKind(word.code[i], slots);
    assert WellFormedAt(word.numLocals, word.code, i);
  }

  /** Jumps of well-formed words stay within the block. */
  lemma BlockIsValid(b: Block, words: seq<Word>, slots: seq<nat>, entries: seq<nat>)
    requires Machine.Linked(words) && IsBlockOf(b, words, slots, entries)
    requires 10 * |b.kinds| < 0x8000_0000
    ensures b.Valid()
  {
    forall e | 0 <= e < |b.kinds| ensures b.kinds[e].Jump? ==> 0 <= e + 1 + b.disps[e] < |b.kinds| {
      if b.kinds[e].Jump? {
        TargetInBlock(b, words, slots, entries, e);
      }
    }
  }

  // ----- generation of the element objects -----

  ghost predicate Distinct(gcode: seq<CodeElement>) {
    forall i, j | 0 <= i < j < |gcode| :: gcode[i] != gcode[j]
  }

  /** The target of element i is the one that its displacement tells. */
  ghost predicate TargetSet(gcode: seq<CodeElement>, b: Block, i: nat)
    requires i < |gcode| == |b.kinds| == |b.disps|
    reads gcode[i]
  {
    b.kinds[i].Jump? ==> 0 <= i + 1 + b.disps[i] < |gcode| && gcode[i].target == gcode[i + 1 + b.disps[i]]
  }

  /** The objects are those of the block, not yet placed. */
  ghost predicate Generated(gcode: seq<CodeElement>, b: Block)
    reads gcode
  {
    && |gcode| == |b.kinds| == |b.disps|
    && Distinct(gcode) && Unplaced(gcode)
    && (forall i | 0 <= i < |gcode| :: gcode[i].kind == b.kinds[i])
    && (forall i | 0 <= i < |gcode| :: TargetSet(gcode, b, i))
  }

  /** The elements of one word, created without their targets. */
  method CreateElements(w: Word, slots: seq<nat>) returns (gcode: seq<CodeElement>, ghost b: Block)
    requires w.Interpreted?
    ensures |gcode| == |b.kinds| == |b.disps| == WordSize(w) && WordAt(b, 0, w, slots)
    ensures Distinct(gcode) && Unplaced(gcode) && fresh(set e | e in gcode)
    ensures forall i | 0 <= i < |gcode| :: gcode[i].kind == b.kinds[i] && gcode[i].target == null
  {
    var header := new CodeElement(UInt(ToU32(w.numLocals)));
    gcode := [header];
    b := Block([header.kind], [0]);
    for i := 0 to |w.code|
      invariant |gcode| == |b.kinds| == |b.disps| == 1 + i && b.kinds[0] == UInt(ToU32(w.numLocals))
      invariant forall k | 0 <= k < i ::
                b.kinds[1 + k] == ToKind(w.code[k], slots) && b.disps[1 + k] == w.code[k].JumpDisp()
      invariant Distinct(gcode) && fresh(set e | e in gcode)
      invariant forall k | 0 <= k < |gcode| ::
                gcode[k].kind == b.kinds[k] && gcode[k].target == null && gcode[k].address == -1
    {
      var e := new CodeElement(ToKind(w.code[i], slots));
      gcode := gcode + [e];
      b := Block(b.kinds + [e.kind], b.disps + [w.code[i].JumpDisp()]);
    }
  }

  /** `FixUp` of all opcodes of a word: from opcode displacements to element targets. */
  method FixUpAll(w: Word, slots: seq<nat>, gcode: seq<CodeElement>, ghost b: Block)
    requires w.Interpreted? && WellFormed(w.numLocals, w.code)
    requires |gcode| == |b.kinds| == |b.disps| == WordSize(w) && WordAt(b, 0, w, slots)
    requires Distinct(gcode) && Unplaced(gcode)
    requires forall i | 0 <= i < |gcode| :: gcode[i].kind == b.kinds[i]
    modifies gcode
    ensures Generated(gcode, b)
  {
    for i := 0 to |w.code|
      invariant Unplaced(gcode)
      invariant forall k | 0 <= k < 1 + i :: TargetSet(gcode, b, k)
    {
      assert WellFormedAt(w.numLocals, w.code, i);
      assert gcode[1 + i].kind == b.kinds[1 + i] == ToKind(w.code[i], slots);
      if w.code[i].Jump? {
        var ok := gcode[1 + i].SetJumpTarget(gcode[1 + i + 1 + w.code[i].JumpDisp()]);
      }
    }
  }

  function Append(b: Block, c: Block): Block {
    Block(b.kinds + c.kinds, b.disps + c.disps)
  }

  lemma AppendGenerated(gcode: seq<CodeElement>, b: Block, more: seq<CodeElement>, c: Block)
    requires Generated(gcode, b) && Generated(more, c)
    requires forall e | e in gcode :: e !in more
    ensures Generated(gcode + more, Append(b, c))
  {
    var all, d := gcode + more, Append(b, c);
    forall i, j | 0 <= i < j < |all| ensures all[i] != all[j] {
      if i < |gcode| <= j {
        assert all[i] in gcode && all[j] in more;
      }
    }
    forall i | 0 <= i < |all| ensures TargetSet(all, d, i) {
      if i < |gcode| {
        assert TargetSet(gcode, b, i);
      } else {
        assert TargetSet(more, c, i - |gcode|);
      }
    }
  }

  lemma AppendWord(b: Block, start: nat, w: Word, slots: seq<nat>, c: Block)
    requires |c.kinds| == |c.disps|
    ensures WordAt(b, start, w, slots) ==> WordAt(Append(b, c), start, w, slots)
    ensures |b.kinds| == |b.disps| && WordAt(c, 0, w, slots) ==> WordAt(Append(b, c), |b.kinds|, w, slots)
  {
  }

  /** The size of the block of the first n words. */
  function TotalSize(words: seq<Word>, n: nat): nat
    requires n <= |words|
  {
    if n == 0 then 0 else TotalSize(words, n - 1) + WordSize(words[n - 1])
  }

  /** The elements of all interpreted words, and where each word starts. */
  method GenerateCodeElements(words: seq<Word>, slots: seq<nat>)
    returns (gcode: seq<CodeElement>, entries: seq<nat>, ghost b: Block)
    requires Machine.Linked(words)
    ensures Generated(gcode, b) && fresh(set e | e in gcode)
    ensures IsBlockOf(b, words, slots, entries) && |gcode| == TotalSize(words, |words|)
  {
    gcode, entries, b := [], [0], Block([], []);
    for n := 0 to |words|
      invariant Generated(gcode, b) && fresh(set e | e in gcode)
      invariant |entries| == n + 1 && entries[0] == 0 && entries[n] == |gcode| == TotalSize(words, n)
      invariant forall w {:trigger words[w]} | 0 <= w < n ::
        entries[w + 1] == entries[w] + WordSize(words[w]) && WordAt(b, entries[w], words[w], slots)
    {
      ghost var before, start := b, |gcode|;
      var w := words[n];
      if w.Interpreted? {
        var more, c := GenerateWord(w, slots);
        AppendGenerated(gcode, b, more, c);
        gcode, b := gcode + more, Append(b, c);
        forall v {:trigger words[v]} | 0 <= v < n ensures WordAt(b, entries[v], words[v], slots) {
          AppendWord(before, entries[v], words[v], slots, c);
        }
        AppendWord(before, start, w, slots, c);
      }
      entries := entries + [|gcode|];
    }
  }

  method GenerateWord(w: Word, slots: seq<nat>) returns (gcode: seq<CodeElement>, ghost b: Block)
    requires w.Interpreted? && WellFormed(w.numLocals, w.code)
    ensures Generated(gcode, b) && WordAt(b, 0, w, slots) && fresh(set e | e in gcode) && |gcode| == WordSize(w)
  {
    gcode, b := CreateElements(w, slots);
    FixUpAll(w, slots, gcode, b);
  }

  lemma GeneratedRepresents(gcode: seq<CodeElement>, b: Block)
    requires Generated(gcode, b) && b.Valid()
    ensures Represents(gcode, b)
  {
    forall i | 0 <= i < |gcode| ensures Layout.Linked(gcode, b, i) {
      assert TargetSet(gcode, b, i);
    }
  }

  // ----- the generated image -----

  /** The contents of the generated file: the code block, the table of word addresses, and the number of the first
      interpreted slot; ccodes lists the C code by slot. */
  datatype Image = Image(code: seq<byte>, caddr: seq<nat>, slotInterpreted: nat, oneByteCode: bool, ccodes: seq<string>)

  /** The code of the image is the block, laid out consistently. */
  ghost predicate LaidOut(b: Block, lens: seq<nat>, img: Image) {
    && b.Valid() && Encodable(b, img.oneByteCode) && Consistent(b, img.oneByteCode, lens)
    && img.code == BlockBytes(b, img.oneByteCode, lens, |lens|)
  }

  /** What the generator guarantees about the image of a program. */
  ghost predicate Compiled(words: seq<Word>, t: Table, b: Block, entries: seq<nat>, lens: seq<nat>, img: Image) {
    && t.Valid(words) && IsBlockOf(b, words, t.slots, entries) && LaidOut(b, lens, img)
    && img.oneByteCode == (t.Count() < 256)
    && img.slotInterpreted == t.SlotInterpreted() && img.ccodes == t.ccodes
    && |img.caddr| == |t.interp|
    && (forall k | 0 <= k < |t.interp| :: img.caddr[k] == Addr(lens, entries[t.interp[k]]))
  }

  /** Some word has too many locals for a one-byte count. */
  ghost predicate ManyLocals(words: seq<Word>) {
    exists w :: 0 <= w < |words| && words[w].Interpreted? && ToU32(words[w].numLocals) > 255
  }

  lemma HeadFits(b: Block, words: seq<Word>, t: Table, entries: seq<nat>, e: nat)
    requires t.Valid(words) && t.Count() < 256 && IsBlockOf(b, words, t.slots, entries) && e < |b.kinds|
    requires !ManyLocals(words)
    ensures b.kinds[e].Head() <= 255
  {
    var w := OwnerOf(words, entries, e, |words|);
    var word := words[w];
    assert WordAt(b, entries[w], word, t.slots);
    if e > entries[w] {
      var op := word.code[e - entries[w] - 1];
      assert b.kinds[entries[w] + 1 + (e - entries[w] - 1)] == ToKind(op, t.slots);
      if op.Call? && op.target.Some? && op.target.value < |words| {
        assert t.SlotOk(words, op.target.value);
      }
    }
  }

  /** One-byte code can be written exactly when no word has more than 255 locals. */
  lemma OneByteEncodable(b: Block, words: seq<Word>, t: Table, entries: seq<nat>)
    requires t.Valid(words) && t.Count() < 256 && IsBlockOf(b, words, t.slots, entries)
    ensures Encodable(b, true) <==> !ManyLocals(words)
  {
    if !ManyLocals(words) {
      forall e | 0 <= e < |b.kinds| ensures b.kinds[e].Head() <= 255 {
        HeadFits(b, words, t, entries, e);
      }
    } else {
      var w :| 0 <= w < |words| && words[w].Interpreted? && ToU32(words[w].numLocals) > 255;
      assert WordAt(b, entries[w], words[w], t.slots);
      assert b.kinds[entries[w]].Head() > 255;
    }
  }

  /** The code elements of a program, at their final addresses. */
  method PlaceProgram(words: seq<Word>, slots: seq<nat>, oneByteCode: bool)
    returns (gcode: seq<CodeElement>, entries: seq<nat>, ghost b: Block, ghost lens: seq<nat>)
    requires Machine.Linked(words) && 10 * TotalSize(words, |words|) < 0x8000_0000
    ensures b.Valid() && IsBlockOf(b, words, slots, entries)
    ensures Represents(gcode, b) && Placed(gcode, lens) && Small(lens) && Consistent(b, oneByteCode, lens)
    ensures forall r | Roomy(b, oneByteCode, r) :: Below(lens, r)
  {
    gcode, entries, b := GenerateCodeElements(words, slots);
    BlockIsValid(b, words, slots, entries);
    GeneratedRepresents(gcode, b);
    lens := ComputeAddresses(gcode, oneByteCode, b);
  }

  lemma EntryInBlock(b: Block, words: seq<Word>, slots: seq<nat>, entries: seq<nat>, w: nat)
    requires IsBlockOf(b, words, slots, entries) && w < |words| && words[w].Interpreted?
    ensures entries[w] < |b.kinds|
  {
    assert WordAt(b, entries[w], words[w], slots);
  }

  /** The table of the addresses of interpreted words. */
  method ReadAddresses(gcode: seq<CodeElement>, interp: seq<nat>, entries: seq<nat>, ghost lens: seq<nat>)
    returns (caddr: seq<nat>)
    requires Placed(gcode, lens)
    requires forall k | 0 <= k < |interp| :: interp[k] < |entries| && entries[interp[k]] < |gcode|
    ensures |caddr| == |interp| && forall k | 0 <= k < |interp| :: caddr[k] == Addr(lens, entries[interp[k]])
  {
    caddr := [];
    for k := 0 to |interp|
      invariant |caddr| == k && forall j | 0 <= j < k :: caddr[j] == Addr(lens, entries[interp[j]])
    {
      var e := entries[interp[k]];
      assert PlacedAt(gcode[e], lens, e);
      caddr := caddr + [gcode[e].address];
    }
  }

  /** Every layout in which each element has room for its encoding is pointwise at least as long. */
  ghost predicate Least(b: Block, oneByteCode: bool, lens: seq<nat>)
    requires b.Valid()
  {
    forall r | Roomy(b, oneByteCode, r) :: Below(lens, r)
  }

  /** `Generate`, from the set of words on; None when a count of locals does not fit in one-byte code. */
  method Generate(words: seq<Word>) returns (img: Option<Image>, t: Table, entries: seq<nat>)
    requires Machine.Linked(words) && 10 * TotalSize(words, |words|) < 0x8000_0000
    ensures t.Valid(words) && Entries(words, entries)
    ensures img.None? <==> t.Count() < 256 && ManyLocals(words)
    ensures img.Some? ==> exists b: Block, lens: seq<nat> ::
              Compiled(words, t, b, entries, lens, img.value) && Least(b, img.value.oneByteCode, lens)
  {
    t := AssignSlots(words);
    var oneByteCode := t.Count() < 256;
    var gcode;
    ghost var b: Block, lens: seq<nat>;
    gcode, entries, b, lens := PlaceProgram(words, t.slots, oneByteCode);
    var bw := new BlobWriter();
    var ok := EncodeAll(gcode, bw, oneByteCode, b, lens);
    if oneByteCode {
      OneByteEncodable(b, words, t, entries);
    }
    if !ok {
      img := None;
      return;
    }
    forall k | 0 <= k < |t.interp| ensures entries[t.interp[k]] < |gcode| {
      EntryInBlock(b, words, t.slots, entries, t.interp[k]);
    }
    var caddr := ReadAddresses(gcode, t.interp, entries, lens);
    img := Some(Image(bw.blob, caddr, t.SlotInterpreted(), oneByteCode, t.ccodes));
    assert Compiled(words, t, b, entries, lens, img.value) && Least(b, oneByteCode, lens);
  }

  // ----- slot numbers -----

  /** The numbers of the opcodes other than calls; calls have the slot of their word, from 7 on. */
  lemma SlotNumbers(op: Opcode, words: seq<Word>, t: Table)
    requires t.Valid(words) && t.Count() <= 0x1_0000_0000
    ensures match op
            case Ret => ToKind(op, t.slots) == UInt(0)
            case Const(v) => ToKind(op, t.slots) == UIntInt(1, v)
            case GetLocal(num) => num < 0x1_0000_0000 ==> ToKind(op, t.slots) == UIntUInt(2, num)
            case PutLocal(num) => num < 0x1_0000_0000 ==> ToKind(op, t.slots) == UIntUInt(3, num)
            case Jump(Always, _) => ToKind(op, t.slots) == Kind.Jump(4)
            case Jump(IfTrue, _) => ToKind(op, t.slots) == Kind.Jump(5)
            case Jump(IfFalse, _) => ToKind(op, t.slots) == Kind.Jump(6)
            case Call(Some(w)) =>
              w < |words| ==> 7 <= t.slots[w] && ToKind(op, t.slots).UInt? && ToKind(op, t.slots).Head() == t.slots[w]
            case Call(None) => true
  {
    if op.Call? && op.target.Some? && op.target.value < |words| {
      assert t.SlotOk(words, op.target.value);
    }
  }
}
