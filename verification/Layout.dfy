/** Code elements (CodeElement*.cs) and the loop that computes their byte addresses (T0Comp.cs, lines 1659-1679). */
module Layout {
  import opened Base
  import opened SevenE

  /** What a code element holds besides its address; a jump also has a target element. */
  datatype Kind =
    | UInt(val: uint32)
    | UIntInt(val1: uint32, signed2: int32)
    | UIntUInt(val1: uint32, unsigned2: uint32)
    | Jump(jumpType: uint32)
  {
    function Head(): uint32 {
      match this
      case UInt(v) => v
      case UIntInt(v, _) => v
      case UIntUInt(v, _) => v
      case Jump(t) => t
    }
  }

  /** A block of code elements; when element i is a jump, disps[i] tells its target, relative to the next element. */
  datatype Block = Block(kinds: seq<Kind>, disps: seq<int>) {
    predicate Valid() {
      && |disps| == |kinds|
      && (forall i | 0 <= i < |kinds| :: kinds[i].Jump? ==> 0 <= i + 1 + disps[i] < |kinds|)
      && 10 * |kinds| < 0x8000_0000  // addresses are C# ints
    }

    /** The index of the element to which element i jumps. */
    function Target(i: nat): nat
      requires Valid() && i < |kinds| && kinds[i].Jump?
    {
      i + 1 + disps[i]
    }
  }

  // ----- lengths and addresses, as values -----

  function HeadLen(oneByteCode: bool, v: uint32): (n: nat)
    ensures n > 0
  {
    if oneByteCode then 1 else Len7U(v)
  }

  /** The address of element i when the elements have the given lengths. */
  function Addr(lens: seq<nat>, i: nat): nat
    requires i <= |lens|
  {
    if i == 0 then 0 else Addr(lens, i - 1) + lens[i - 1]
  }

  /** The jump offset of element i: relative to the end of the element. */
  function Offset(b: Block, lens: seq<nat>, i: nat): int
    requires b.Valid() && |lens| == |b.kinds| && i < |b.kinds| && b.kinds[i].Jump?
  {
    Addr(lens, b.Target(i)) - Addr(lens, i + 1)
  }

  /** The length that element i needs when all elements are placed according to lens. */
  function NeededLen(b: Block, oneByteCode: bool, lens: seq<nat>, i: nat): (n: nat)
    requires b.Valid() && |lens| == |b.kinds| && i < |b.kinds|
    ensures n > 0
  {
    HeadLen(oneByteCode, b.kinds[i].Head()) +
    match b.kinds[i]
    case UInt(_) => 0
    case UIntInt(_, v) => Len7S(v)
    case UIntUInt(_, v) => Len7U(v)
    case Jump(_) => Len7S(Offset(b, lens, i))
  }

  function NeededLens(b: Block, oneByteCode: bool, lens: seq<nat>): (r: seq<nat>)
    requires b.Valid() && |lens| == |b.kinds|
    ensures |r| == |b.kinds|
  {
    seq(|b.kinds|, i requires 0 <= i < |b.kinds| => NeededLen(b, oneByteCode, lens, i))
  }

  /** The length of element i before any address is known: a jump is first given a one-byte offset. */
  function FirstLen(b: Block, oneByteCode: bool, i: nat): nat
    requires b.Valid() && i < |b.kinds|
  {
    if b.kinds[i].Jump? then HeadLen(oneByteCode, b.kinds[i].Head()) + 1
    else NeededLen(b, oneByteCode, seq(|b.kinds|, _ => 0), i)
  }

  ghost predicate Below(a: seq<nat>, c: seq<nat>) {
    |a| == |c| && forall i | 0 <= i < |a| :: a[i] <= c[i]
  }

  /** Every element has room for its own offset. */
  ghost predicate Roomy(b: Block, oneByteCode: bool, lens: seq<nat>)
    requires b.Valid()
  {
    |lens| == |b.kinds| && forall i | 0 <= i < |lens| :: RoomAt(b, oneByteCode, lens, i)
  }

  ghost predicate RoomAt(b: Block, oneByteCode: bool, lens: seq<nat>, i: nat)
    requires b.Valid() && i < |lens| == |b.kinds|
  {
    NeededLen(b, oneByteCode, lens, i) <= lens[i]
  }

  /** Every element has exactly the length of its own encoding. */
  ghost predicate Consistent(b: Block, oneByteCode: bool, lens: seq<nat>)
    requires b.Valid()
  {
    |lens| == |b.kinds| && forall i | 0 <= i < |lens| :: ExactAt(b, oneByteCode, lens, i)
  }

  ghost predicate ExactAt(b: Block, oneByteCode: bool, lens: seq<nat>, i: nat)
    requires b.Valid() && i < |lens| == |b.kinds|
  {
    NeededLen(b, oneByteCode, lens, i) == lens[i]
  }

  // ----- monotonicity -----

  lemma {:induction false} Len7SMono(v: int, w: int)
    requires 0 <= v <= w || w <= v <= 0
    ensures Len7S(v) <= Len7S(w)
    decreases if w < 0 then -w else w
  {
    if !(-0x40 <= v < 0x40) {
      Len7SMono(v / 128, w / 128);
    }
  }

  lemma {:induction false} SpanMono(a: seq<nat>, c: seq<nat>, i: nat, j: nat)
    requires Below(a, c) && i <= j <= |a|
    ensures 0 <= Addr(a, j) - Addr(a, i) <= Addr(c, j) - Addr(c, i)
    decreases j
  {
    if i < j {
      SpanMono(a, c, i, j - 1);
    }
  }

  lemma NeededMono(b: Block, oneByteCode: bool, a: seq<nat>, c: seq<nat>)
    requires b.Valid() && |a| == |b.kinds| && Below(a, c)
    ensures Below(NeededLens(b, oneByteCode, a), NeededLens(b, oneByteCode, c))
  {
    forall i | 0 <= i < |a|
      ensures NeededLen(b, oneByteCode, a, i) <= NeededLen(b, oneByteCode, c, i)
    {
      if b.kinds[i].Jump? {
        var t := b.Target(i);
        if t <= i {
          SpanMono(a, c, t, i + 1);
        } else {
          SpanMono(a, c, i + 1, t);
        }
        Len7SMono(Offset(b, a, i), Offset(b, c, i));
      }
    }
  }

  lemma FirstIsLeast(b: Block, oneByteCode: bool, first: seq<nat>, lens: seq<nat>)
    requires b.Valid() && |first| == |lens| == |b.kinds|
    requires forall i | 0 <= i < |b.kinds| :: first[i] == FirstLen(b, oneByteCode, i)
    ensures Below(first, NeededLens(b, oneByteCode, lens))
  {
  }

  /** Equal sums leave no room for a pointwise increase. */
  lemma {:induction false} EqualTotals(a: seq<nat>, c: seq<nat>, n: nat)
    requires Below(a, c) && n <= |a| && Addr(a, n) == Addr(c, n)
    ensures a[..n] == c[..n]
    decreases n
  {
    if n > 0 {
      SpanMono(a, c, 0, n - 1);
      EqualTotals(a, c, n - 1);
      assert a[..n] == a[..n - 1] + [a[n - 1]];
      assert c[..n] == c[..n - 1] + [c[n - 1]];
    }
  }

  // ----- bounds -----

  ghost predicate Small(lens: seq<nat>) {
    forall i | 0 <= i < |lens| :: lens[i] <= 10
  }

  lemma {:induction false} AddrBound(lens: seq<nat>, i: nat)
    requires Small(lens) && i <= |lens|
    ensures Addr(lens, i) <= 10 * i
    decreases i
  {
    if i > 0 {
      AddrBound(lens, i - 1);
    }
  }

  lemma UInt32FitsFiveBytes(v: uint32)
    ensures Len7U(v) <= 5
  {
    assert Pow128(5) == 0x8_0000_0000;
    Len7ULeast(v, 5);
  }

  lemma OffsetIsInt32(b: Block, lens: seq<nat>, i: nat)
    requires b.Valid() && |lens| == |b.kinds| && Small(lens) && i < |lens| && b.kinds[i].Jump?
    ensures -0x8000_0000 <= Offset(b, lens, i) < 0x8000_0000
  {
    AddrBound(lens, b.Target(i));
    AddrBound(lens, i + 1);
  }

  lemma NeededIsSmall(b: Block, oneByteCode: bool, lens: seq<nat>)
    requires b.Valid() && |lens| == |b.kinds| && Small(lens)
    ensures Small(NeededLens(b, oneByteCode, lens))
  {
    forall i | 0 <= i < |lens|
      ensures NeededLen(b, oneByteCode, lens, i) <= 10
    {
      UInt32FitsFiveBytes(b.kinds[i].Head());
      match b.kinds[i]
      case UInt(_) =>
      case UIntInt(_, v) => Int32FitsFiveBytes(v);
      case UIntUInt(_, v) => UInt32FitsFiveBytes(v);
      case Jump(_) =>
        OffsetIsInt32(b, lens, i);
        Int32FitsFiveBytes(Offset(b, lens, i));
    }
  }

  // ----- code elements as objects, and the address loop -----

  class CodeElement {
    const kind: Kind
    var target: CodeElement?
    var address: int
    var lastLength: int

    constructor (kind: Kind)
      ensures this.kind == kind && target == null && address == -1
    {
      this.kind := kind;
      target := null;
      address := -1;
      lastLength := 0;
    }

    method SetJumpTarget(t: CodeElement) returns (ok: bool)
      modifies this`target
      ensures ok == kind.Jump?
      ensures target == if ok then t else old(target)
    {
      if !kind.Jump? {
        return false;
      }
      target := t;
      return true;
    }

    /** None while some address is not known. */
    function JumpOff(): Option<int>
      reads this, target
    {
      if target == null || address < 0 || target.address < 0 then None
      else Some(target.address - (address + lastLength))
    }

    function LengthNow(oneByteCode: bool): (n: nat)
      reads this, target
      ensures n > 0
    {
      HeadLen(oneByteCode, kind.Head()) +
      match kind
      case UInt(_) => 0
      case UIntInt(_, v) => Len7S(v)
      case UIntUInt(_, v) => Len7U(v)
      case Jump(_) => if JumpOff() == None then 1 else Len7S(JumpOff().value)
    }

    /** The bytes of this element, where its jump offset, if it is a jump, is joff. */
    static function Bytes(kind: Kind, oneByteCode: bool, joff: int): seq<byte>
      requires oneByteCode ==> kind.Head() <= 255
    {
      HeadBytes(kind.Head(), oneByteCode) + TailBytes(kind, joff)
    }

    static function HeadBytes(v: uint32, oneByteCode: bool): (bs: seq<byte>)
      requires oneByteCode ==> v <= 255
      ensures |bs| == HeadLen(oneByteCode, v)
    {
      if oneByteCode then [v as byte] else Enc7U(v)
    }

    static function TailBytes(kind: Kind, joff: int): seq<byte> {
      match kind
      case UInt(_) => []
      case UIntInt(_, v) => Enc7S(v)
      case UIntUInt(_, v) => Enc7U(v)
      case Jump(_) => Enc7S(joff)
    }

    method EncodeHead(bw: BlobWriter, oneByteCode: bool) returns (len: Option<nat>)
      modifies bw
      ensures len.Some? <==> (oneByteCode ==> kind.Head() <= 255)
      ensures len.Some? ==>
        var bs := HeadBytes(kind.Head(), oneByteCode); bw.blob == old(bw.blob) + bs && len.value == |bs|
    {
      if oneByteCode {
        len := EncodeOneByte(kind.Head(), bw);
      } else {
        var n := Encode7EUnsigned(kind.Head(), bw);
        len := Some(n);
      }
    }

    method EncodeTail(bw: BlobWriter) returns (len: Option<nat>)
      requires Measurable(this)
      modifies bw
      ensures len.Some? <==> (kind.Jump? ==> JumpOff().Some?)
      ensures len.Some? ==>
        var bs := TailBytes(kind, if kind.Jump? then JumpOff().value else 0);
        bw.blob == old(bw.blob) + bs && len.value == |bs|
    {
      match kind {
        case UInt(_) =>
          return Some(0);
        case UIntInt(_, v) =>
          var n := Encode7ESigned(v, bw);
          return Some(n);
        case UIntUInt(_, v) =>
          var n := Encode7EUnsigned(v, bw);
          return Some(n);
        case Jump(_) =>
          match JumpOff() {
            case None => return None;
            case Some(off) =>
              var n := Encode7ESigned(off, bw);
              return Some(n);
          }
      }
    }

    /** None stands for the exceptions: a value over 255 in one-byte code, or an unresolved address. */
    method Encode(bw: BlobWriter, oneByteCode: bool) returns (len: Option<nat>)
      requires Measurable(this)
      modifies bw
      ensures len.Some? <==> (oneByteCode ==> kind.Head() <= 255) && (kind.Jump? ==> JumpOff().Some?)
      ensures len.Some? ==>
        var bs := Bytes(kind, oneByteCode, if kind.Jump? then JumpOff().value else 0);
        bw.blob == old(bw.blob) + bs && len.value == |bs|
    {
      var head := EncodeHead(bw, oneByteCode);
      if head.None? {
        return None;
      }
      var tail := EncodeTail(bw);
      if tail.None? {
        return None;
      }
      return Some(head.value + tail.value);
    }

    method GetLength(oneByteCode: bool) returns (len: nat)
      requires Measurable(this)
      ensures len == LengthNow(oneByteCode)
    {
      if oneByteCode {
        len := 1;
      } else {
        len := Encode7EUnsigned(kind.Head(), null);
      }
      var rest := 0;
      match kind {
        case UInt(_) =>
        case UIntInt(_, v) => rest := Encode7ESigned(v, null);
        case UIntUInt(_, v) => rest := Encode7EUnsigned(v, null);
        case Jump(_) =>
          match JumpOff() {
            case None => rest := 1;
            case Some(off) => rest := Encode7ESigned(off, null);
          }
      }
      len := len + rest;
    }
  }

  ghost predicate Linked(gcode: seq<CodeElement>, b: Block, i: nat)
    requires b.Valid() && |gcode| == |b.kinds| && i < |gcode|
    reads gcode`target
  {
    b.kinds[i].Jump? ==> gcode[i].target == gcode[b.Target(i)]
  }

  /** The objects represent the block: they are distinct and jumps are linked to their targets. */
  ghost predicate Represents(gcode: seq<CodeElement>, b: Block)
    reads gcode`target
  {
    && b.Valid() && |gcode| == |b.kinds|
    && (forall i, j | 0 <= i < j < |gcode| :: gcode[i] != gcode[j])
    && (forall i | 0 <= i < |gcode| :: gcode[i].kind == b.kinds[i])
    && (forall i | 0 <= i < |gcode| :: Linked(gcode, b, i))
  }

  /** Elements are placed one after the other with the given lengths. */
  ghost predicate Placed(gcode: seq<CodeElement>, lens: seq<nat>)
    reads gcode
  {
    |gcode| == |lens| && forall i | 0 <= i < |gcode| :: PlacedAt(gcode[i], lens, i)
  }

  ghost predicate PlacedAt(e: CodeElement, lens: seq<nat>, i: nat)
    requires i < |lens|
    reads e
  {
    e.address == Addr(lens, i) && e.lastLength == lens[i]
  }

  ghost predicate Unplaced(gcode: seq<CodeElement>)
    reads gcode
  {
    forall i | 0 <= i < |gcode| :: gcode[i].address == -1
  }

  /** The lengths computed in one round. */
  ghost function RoundLens(b: Block, oneByteCode: bool, lens: Option<seq<nat>>): (r: seq<nat>)
    requires b.Valid() && (lens.Some? ==> |lens.value| == |b.kinds|)
    ensures |r| == |b.kinds|
  {
    match lens
    case None => seq(|b.kinds|, i requires 0 <= i < |b.kinds| => FirstLen(b, oneByteCode, i))
    case Some(l) => NeededLens(b, oneByteCode, l)
  }

  /** What holds between two rounds: lens is None before the first one. */
  ghost predicate RoundInvariant(gcode: seq<CodeElement>, b: Block, oneByteCode: bool, lens: Option<seq<nat>>)
    reads gcode
  {
    && Represents(gcode, b)
    && match lens
       case None => Unplaced(gcode)
       case Some(l) =>
         && Placed(gcode, l) && Small(l)
         && Below(l, NeededLens(b, oneByteCode, l))
         && (forall r | Roomy(b, oneByteCode, r) :: Below(l, r))
  }

  lemma OffsetOfElement(gcode: seq<CodeElement>, b: Block, lens: seq<nat>, i: nat)
    requires Represents(gcode, b) && Placed(gcode, lens) && i < |gcode| && gcode[i].kind.Jump?
    ensures gcode[i].JumpOff() == Some(Offset(b, lens, i))
  {
    var t := b.Target(i);
    assert Linked(gcode, b, i);
    assert PlacedAt(gcode[t], lens, t) && PlacedAt(gcode[i], lens, i);
  }

  lemma LengthOfElement(gcode: seq<CodeElement>, b: Block, oneByteCode: bool, lens: Option<seq<nat>>, i: nat)
    requires RoundInvariant(gcode, b, oneByteCode, lens) && i < |gcode|
    ensures Measurable(gcode[i])
    ensures gcode[i].LengthNow(oneByteCode) == RoundLens(b, oneByteCode, lens)[i]
  {
    assert gcode[i].kind == b.kinds[i];
    match lens {
      case None => assert gcode[i].address == -1;
      case Some(l) =>
        if gcode[i].kind.Jump? {
          OffsetOfElement(gcode, b, l, i);
          OffsetIsInt32(b, l, i);
        }
    }
  }

  lemma LengthOfElements(gcode: seq<CodeElement>, b: Block, oneByteCode: bool, lens: Option<seq<nat>>)
    requires RoundInvariant(gcode, b, oneByteCode, lens)
    ensures forall i | 0 <= i < |gcode| ::
      Measurable(gcode[i]) && gcode[i].LengthNow(oneByteCode) == RoundLens(b, oneByteCode, lens)[i]
  {
    forall i | 0 <= i < |gcode|
      ensures Measurable(gcode[i]) && gcode[i].LengthNow(oneByteCode) == RoundLens(b, oneByteCode, lens)[i]
    {
      LengthOfElement(gcode, b, oneByteCode, lens, i);
    }
  }

  lemma RoomyIsBelow(b: Block, oneByteCode: bool, lens: seq<nat>)
    requires b.Valid() && Roomy(b, oneByteCode, lens)
    ensures Below(NeededLens(b, oneByteCode, lens), lens)
  {
    forall i | 0 <= i < |lens| ensures NeededLens(b, oneByteCode, lens)[i] <= lens[i] {
      assert RoomAt(b, oneByteCode, lens, i);
    }
  }

  /** The values computed in a round keep the invariant. */
  lemma NextRound(gcode: seq<CodeElement>, b: Block, oneByteCode: bool, lens: Option<seq<nat>>)
    requires RoundInvariant(gcode, b, oneByteCode, lens)
    ensures var l := RoundLens(b, oneByteCode, lens);
            && Small(l) && Below(l, NeededLens(b, oneByteCode, l))
            && (forall r | Roomy(b, oneByteCode, r) :: Below(l, r))
  {
    var l := RoundLens(b, oneByteCode, lens);
    match lens {
      case None =>
        FirstIsLeast(b, oneByteCode, l, l);
        NeededIsSmall(b, oneByteCode, seq(|b.kinds|, _ => 0));
        forall i | 0 <= i < |l| ensures l[i] <= 10 {
          UInt32FitsFiveBytes(b.kinds[i].Head());
          assert l[i] == FirstLen(b, oneByteCode, i);
          assert NeededLens(b, oneByteCode, seq(|b.kinds|, _ => 0))[i] <= 10;
        }
        forall r | Roomy(b, oneByteCode, r) ensures Below(l, r) {
          FirstIsLeast(b, oneByteCode, l, r);
          RoomyIsBelow(b, oneByteCode, r);
        }
      case Some(prev) =>
        NeededIsSmall(b, oneByteCode, prev);
        NeededMono(b, oneByteCode, prev, l);
        forall r | Roomy(b, oneByteCode, r) ensures Below(l, r) {
          NeededMono(b, oneByteCode, prev, r);
          RoomyIsBelow(b, oneByteCode, r);
        }
    }
  }

  /** The first half of a round. */
  method MeasureAll(gcode: seq<CodeElement>, oneByteCode: bool) returns (gcodeLen: array<nat>)
    requires forall i | 0 <= i < |gcode| :: Measurable(gcode[i])
    ensures fresh(gcodeLen) && gcodeLen.Length == |gcode|
    ensures forall i | 0 <= i < |gcode| :: gcodeLen[i] == gcode[i].LengthNow(oneByteCode)
  {
    gcodeLen := new nat[|gcode|];
    for i := 0 to |gcode|
      invariant forall k | 0 <= k < i :: gcodeLen[k] == gcode[k].LengthNow(oneByteCode)
    {
      assert Measurable(gcode[i]);
      gcodeLen[i] := gcode[i].GetLength(oneByteCode);
    }
  }

  predicate Measurable(e: CodeElement)
    reads e, e.target
  {
    e.kind.Jump? && e.JumpOff().Some? ==> -0x8000_0000 <= e.JumpOff().value < 0x8000_0000
  }

  /** The second half of a round. */
  method PlaceAll(gcode: seq<CodeElement>, gcodeLen: array<nat>) returns (off: nat)
    requires forall i, j | 0 <= i < j < |gcode| :: gcode[i] != gcode[j]
    requires gcodeLen.Length == |gcode|
    modifies gcode
    ensures Placed(gcode, gcodeLen[..]) && off == Addr(gcodeLen[..], |gcode|)
    ensures forall i | 0 <= i < |gcode| :: gcode[i].target == old(gcode[i].target)
  {
    ghost var lens := gcodeLen[..];
    off := 0;
    for i := 0 to |gcode|
      invariant off == Addr(lens, i)
      invariant forall k | 0 <= k < i :: PlacedAt(gcode[k], lens, k)
      invariant forall k | 0 <= k < |gcode| :: gcode[k].target == old(gcode[k].target)
    {
      gcode[i].address := off;
      gcode[i].lastLength := gcodeLen[i];
      off := off + gcodeLen[i];
    }
  }

  /** One round: all lengths are measured with the current addresses, then all elements are placed. */
  method Round(gcode: seq<CodeElement>, oneByteCode: bool, ghost b: Block, ghost last: Option<seq<nat>>)
    returns (off: nat)
    requires RoundInvariant(gcode, b, oneByteCode, last)
    modifies gcode
    ensures var lens := RoundLens(b, oneByteCode, last);
            Represents(gcode, b) && Placed(gcode, lens) && off == Addr(lens, |gcode|)
  {
    LengthOfElements(gcode, b, oneByteCode, last);
    var gcodeLen := MeasureAll(gcode, oneByteCode);
    assert gcodeLen[..] == RoundLens(b, oneByteCode, last);
    assert forall i | 0 <= i < |gcode| :: Linked(gcode, b, i);
    off := PlaceAll(gcode, gcodeLen);
    assert forall i | 0 <= i < |gcode| :: Linked(gcode, b, i);
  }

  /** The address loop: it ends, with the least layout in which every element has exactly its own length. */
  method ComputeAddresses(gcode: seq<CodeElement>, oneByteCode: bool, ghost b: Block) returns (ghost lens: seq<nat>)
    requires Represents(gcode, b) && Unplaced(gcode)
    modifies gcode
    ensures Represents(gcode, b) && Placed(gcode, lens)
    ensures Consistent(b, oneByteCode, lens) && Small(lens)
    ensures forall r | Roomy(b, oneByteCode, r) :: Below(lens, r)
  {
    var totalLen: int := -1;
    ghost var last: Option<seq<nat>> := None;
    while true
      invariant RoundInvariant(gcode, b, oneByteCode, last)
      invariant match last case None => totalLen == -1 case Some(l) => totalLen == Addr(l, |l|)
      decreases 10 * |gcode| - totalLen
    {
      lens := RoundLens(b, oneByteCode, last);
      NextRound(gcode, b, oneByteCode, last);
      var off := Round(gcode, oneByteCode, b, last);
      AddrBound(lens, |lens|);
      Progress(b, oneByteCode, last, lens);
      if off == totalLen {
        break;
      }
      totalLen, last := off, Some(lens);
    }
  }

  /** A layout below every roomy one is below every consistent one. */
  lemma LeastConsistent(b: Block, oneByteCode: bool, lens: seq<nat>, r: seq<nat>)
    requires b.Valid() && Consistent(b, oneByteCode, r)
    requires forall q | Roomy(b, oneByteCode, q) :: Below(lens, q)
    ensures Below(lens, r)
  {
    forall i | 0 <= i < |r| ensures RoomAt(b, oneByteCode, r, i) {
      assert ExactAt(b, oneByteCode, r, i);
    }
    assert Roomy(b, oneByteCode, r);
  }

  /** The total grows, unless the lengths have stabilised. */
  lemma Progress(b: Block, oneByteCode: bool, last: Option<seq<nat>>, lens: seq<nat>)
    requires b.Valid() && (last.Some? ==> |last.value| == |b.kinds| && Below(last.value, lens))
    requires lens == RoundLens(b, oneByteCode, last)
    ensures last.Some? ==> Addr(last.value, |last.value|) <= Addr(lens, |lens|)
    ensures last.Some? && Addr(last.value, |last.value|) == Addr(lens, |lens|) ==> Consistent(b, oneByteCode, lens)
  {
    if last.Some? {
      var l := last.value;
      SpanMono(l, lens, 0, |lens|);
      if Addr(l, |l|) == Addr(lens, |lens|) {
        EqualTotals(l, lens, |lens|);
        assert lens[..|lens|] == lens && l[..|lens|] == l;
      }
    }
  }

  // ----- the code block -----

  /** In one-byte code, every slot and every count of locals must fit on a byte. */
  predicate Encodable(b: Block, oneByteCode: bool) {
    oneByteCode ==> forall i | 0 <= i < |b.kinds| :: b.kinds[i].Head() <= 255
  }

  function ElementBytes(b: Block, oneByteCode: bool, lens: seq<nat>, i: nat): seq<byte>
    requires b.Valid() && Encodable(b, oneByteCode) && |lens| == |b.kinds| && i < |lens|
  {
    CodeElement.Bytes(b.kinds[i], oneByteCode, OffsetOrZero(b, lens, i))
  }

  /** The bytes of the first n elements. */
  function BlockBytes(b: Block, oneByteCode: bool, lens: seq<nat>, n: nat): seq<byte>
    requires b.Valid() && Encodable(b, oneByteCode) && |lens| == |b.kinds| && n <= |lens|
  {
    if n == 0 then [] else BlockBytes(b, oneByteCode, lens, n - 1) + ElementBytes(b, oneByteCode, lens, n - 1)
  }

  lemma ElementLength(b: Block, oneByteCode: bool, lens: seq<nat>, i: nat)
    requires b.Valid() && Encodable(b, oneByteCode) && Consistent(b, oneByteCode, lens) && i < |lens|
    ensures |ElementBytes(b, oneByteCode, lens, i)| == lens[i]
  {
    assert ExactAt(b, oneByteCode, lens, i);
  }

  lemma {:induction false} BlockLength(b: Block, oneByteCode: bool, lens: seq<nat>, n: nat)
    requires b.Valid() && Encodable(b, oneByteCode) && Consistent(b, oneByteCode, lens) && n <= |lens|
    ensures |BlockBytes(b, oneByteCode, lens, n)| == Addr(lens, n)
    decreases n
  {
    if n > 0 {
      BlockLength(b, oneByteCode, lens, n - 1);
      ElementLength(b, oneByteCode, lens, n - 1);
    }
  }

  /** In a consistent layout, the bytes of element i start at its address. */
  lemma {:induction false} ElementPosition(b: Block, oneByteCode: bool, lens: seq<nat>, i: nat, n: nat)
    requires b.Valid() && Encodable(b, oneByteCode) && Consistent(b, oneByteCode, lens) && i < n <= |lens|
    ensures OccursAt(BlockBytes(b, oneByteCode, lens, n), Addr(lens, i), ElementBytes(b, oneByteCode, lens, i))
    decreases n
  {
    var before, last := BlockBytes(b, oneByteCode, lens, n - 1), ElementBytes(b, oneByteCode, lens, n - 1);
    if i < n - 1 {
      ElementPosition(b, oneByteCode, lens, i, n - 1);
      OccursAtExtend(before, Addr(lens, i), ElementBytes(b, oneByteCode, lens, i), last);
    } else {
      BlockLength(b, oneByteCode, lens, i);
      OccursAtEnd(before, last);
    }
  }

  lemma AddrMono(lens: seq<nat>, i: nat, j: nat)
    requires i <= j <= |lens|
    ensures Addr(lens, i) <= Addr(lens, j)
  {
    SpanMono(lens, lens, i, j);
  }

  /** The jump offset of element i, 0 when it is not a jump. */
  function OffsetOrZero(b: Block, lens: seq<nat>, i: nat): int
    requires b.Valid() && |lens| == |b.kinds| && i < |lens|
  {
    if b.kinds[i].Jump? then Offset(b, lens, i) else 0
  }

  /** The position of what follows the first number of element e. */
  function TailAddr(b: Block, oneByteCode: bool, lens: seq<nat>, e: nat): nat
    requires b.Valid() && |lens| == |b.kinds| && e < |lens|
  {
    Addr(lens, e) + HeadLen(oneByteCode, b.kinds[e].Head())
  }

  /** In the code block, the two parts of an element follow each other from its address up to the next one. */
  lemma ElementParts(b: Block, oneByteCode: bool, lens: seq<nat>, e: nat, code: seq<byte>)
    requires b.Valid() && Encodable(b, oneByteCode) && Consistent(b, oneByteCode, lens) && e < |lens|
    requires code == BlockBytes(b, oneByteCode, lens, |lens|)
    ensures OccursAt(code, Addr(lens, e), CodeElement.HeadBytes(b.kinds[e].Head(), oneByteCode))
    ensures OccursAt(code, TailAddr(b, oneByteCode, lens, e),
                     CodeElement.TailBytes(b.kinds[e], OffsetOrZero(b, lens, e)))
  {
    hide Enc7S, Enc7U, Len7S, Len7U, Addr, BlockBytes, OccursAt, CodeElement.HeadBytes, CodeElement.TailBytes,
         CodeElement.Bytes, ExactAt, HeadLen;
    ElementPosition(b, oneByteCode, lens, e, |lens|);
    TwoParts(code, Addr(lens, e), b.kinds[e], oneByteCode, OffsetOrZero(b, lens, e));
  }

  lemma TwoParts(code: seq<byte>, p: nat, kind: Kind, oneByteCode: bool, joff: int)
    requires oneByteCode ==> kind.Head() <= 255
    requires OccursAt(code, p, CodeElement.Bytes(kind, oneByteCode, joff))
    ensures OccursAt(code, p, CodeElement.HeadBytes(kind.Head(), oneByteCode))
    ensures OccursAt(code, p + HeadLen(oneByteCode, kind.Head()), CodeElement.TailBytes(kind, joff))
  {
    OccursAtSplit(code, p, CodeElement.HeadBytes(kind.Head(), oneByteCode), CodeElement.TailBytes(kind, joff));
  }

  lemma ElementEnd(b: Block, oneByteCode: bool, lens: seq<nat>, e: nat, code: seq<byte>)
    requires b.Valid() && Encodable(b, oneByteCode) && Consistent(b, oneByteCode, lens) && e < |lens|
    requires code == BlockBytes(b, oneByteCode, lens, |lens|)
    ensures Addr(lens, e) < Addr(lens, e + 1) <= |code| == Addr(lens, |lens|)
    ensures TailAddr(b, oneByteCode, lens, e) + |CodeElement.TailBytes(b.kinds[e], OffsetOrZero(b, lens, e))| ==
            Addr(lens, e + 1)
  {
    ElementLength(b, oneByteCode, lens, e);
    BlockLength(b, oneByteCode, lens, |lens|);
    AddrMono(lens, e + 1, |lens|);
  }

  /** The loop that writes the code block. */
  method EncodeAll(gcode: seq<CodeElement>, bw: BlobWriter, oneByteCode: bool, ghost b: Block, ghost lens: seq<nat>)
    returns (ok: bool)
    requires Represents(gcode, b) && Placed(gcode, lens) && Small(lens) && bw.blob == []
    modifies bw
    ensures ok <==> Encodable(b, oneByteCode)
    ensures ok ==> bw.blob == BlockBytes(b, oneByteCode, lens, |lens|)
  {
    for i := 0 to |gcode|
      invariant oneByteCode ==> forall k | 0 <= k < i :: b.kinds[k].Head() <= 255
      invariant Encodable(b, oneByteCode) ==> bw.blob == BlockBytes(b, oneByteCode, lens, i)
    {
      assert gcode[i].kind == b.kinds[i];
      if gcode[i].kind.Jump? {
        OffsetOfElement(gcode, b, lens, i);
        OffsetIsInt32(b, lens, i);
      }
      var len := gcode[i].Encode(bw, oneByteCode);
      if len.None? {
        return false;
      }
    }
    return true;
  }
}
