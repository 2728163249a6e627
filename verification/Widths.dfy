/** Widths of constant expressions that only the C compiler can evaluate (TPointerExpr.cs), and the macros
    T0_INT1 to T0_INT5 that lay out their bytes (T0Comp.cs, lines 1739-1746). */
module Widths {
  import opened Base
  import opened SevenE

  function Pow2(n: nat): (m: nat)
    ensures m > 0
  {
    if n == 0 then 1 else 2 * Pow2(n - 1)
  }

  /** v is representable in two's complement on n bits. */
  predicate FitsBits(v: int, n: nat) {
    n > 0 && -(Pow2(n - 1) as int) <= v < Pow2(n - 1)
  }

  function SignedBits(v: int): (n: nat)
    ensures n > 0
    decreases if v < 0 then -v else v
  {
    if v == 0 || v == -1 then 1 else 1 + SignedBits(v / 2)
  }

  /** SignedBits is the least width that holds v. */
  lemma {:induction false} SignedBitsExact(v: int, n: nat)
    ensures FitsBits(v, n) <==> SignedBits(v) <= n
    decreases if v < 0 then -v else v
  {
    if v != 0 && v != -1 {
      if n <= 1 {
        assert Pow2(0) == 1;
      } else {
        SignedBitsExact(v / 2, n - 1);
        assert Pow2(n - 1) == 2 * Pow2(n - 2);
      }
    } else if n > 0 {
      assert Pow2(n - 1) > 0;
    }
  }

  method BitLength(v: int) returns (num: nat)
    ensures num == SignedBits(v)
  {
    num := 1;
    var w := v;
    if v < 0 {
      while w != -1
        invariant w < 0 && SignedBits(v) == num - 1 + SignedBits(w)
        decreases -w
      {
        num, w := num + 1, w / 2;
      }
    } else {
      while w != 0
        invariant w >= 0 && SignedBits(v) == num - 1 + SignedBits(w)
      {
        num, w := num + 1, w / 2;
      }
    }
  }

  /** A C expression of unknown text, declared to have its value between min and max. */
  datatype PointerExpr = PointerExpr(min: int32, max: int32)

  /** Every value of the shifted range fits on n bits. */
  ghost predicate RangeFits(cx: PointerExpr, off: int, n: nat) {
    forall x :: cx.min + off <= x <= cx.max + off ==> FitsBits(x, n)
  }

  /** A negative lower bound and a positive upper bound fit on n bits. */
  predicate BoundsFit(cx: PointerExpr, off: int, n: nat) {
    && (cx.min + off < 0 ==> FitsBits(cx.min + off, n))
    && (cx.max + off > 0 ==> FitsBits(cx.max + off, n))
  }

  /** For a range that is not empty, that means that each of its values does. */
  lemma RangeByBounds(cx: PointerExpr, off: int, n: nat)
    requires cx.min <= cx.max && n > 0
    ensures RangeFits(cx, off, n) <==> BoundsFit(cx, off, n)
  {
    var rmin, rmax := cx.min + off, cx.max + off;
    assert RangeFits(cx, off, n) ==> FitsBits(rmin, n) && FitsBits(rmax, n);
  }

  /** The least width for the bounds, up to 32 bits; they may be in the wrong order. */
  method GetMaxBitLength(cx: PointerExpr, off: int32) returns (numBits: nat)
    ensures 1 <= numBits <= 32
    ensures numBits < 32 ==> BoundsFit(cx, off, numBits)
    ensures forall n | 0 < n < numBits :: !BoundsFit(cx, off, n)
    ensures cx.min <= cx.max && numBits < 32 ==> RangeFits(cx, off, numBits)
    ensures cx.min <= cx.max ==> forall n | 0 < n < numBits :: !RangeFits(cx, off, n)
  {
    var rmin, rmax := cx.min + off, cx.max + off;
    numBits := 1;
    if rmin < 0 {
      var b := BitLength(rmin);
      numBits := Max(numBits, b);
    }
    if rmax > 0 {
      var b := BitLength(rmax);
      numBits := Max(numBits, b);
    }
    forall n | 0 < n
      ensures BoundsFit(cx, off, n) <==> numBits <= n
      ensures cx.min <= cx.max ==> (RangeFits(cx, off, n) <==> BoundsFit(cx, off, n))
    {
      SignedBitsExact(rmin, n);
      SignedBitsExact(rmax, n);
      if cx.min <= cx.max {
        RangeByBounds(cx, off, n);
      }
    }
    numBits := Min(numBits, 32);
  }

  /** The value that the C compiler gives to the text of a constant expression of value e with an offset. */
  function ExprValue(e: int32, off: int32): (x: uint32)
    ensures x == ToU32(e + off)
  {
    if off == 0 then ToU32(e)
    else if off > 0 then (ToU32(e) + off) % 0x1_0000_0000
    else (ToU32(e) as int + off) % 0x1_0000_0000
  }

  // ----- the byte layout macros; a shift by n is written as a division by m = 2^n -----

  function VByte(x: uint32, m: nat): byte
    requires m > 0
  {
    x / m % 128 + 0x80
  }

  function FByte(x: uint32): byte {
    x % 128
  }

  /** The low byte of `s ^ 0xF8`: bits 3 to 7 are complemented. */
  function XorF8(s: nat): byte {
    8 * (31 - s / 8 % 32) + s % 8
  }

  function SByte(x: uint32): byte {
    XorF8(x / 0x1000_0000 + 0xF8)
  }

  function T0Int(n: nat, x: uint32): (bs: seq<byte>)
    requires 1 <= n <= 5
    ensures |bs| == n
  {
    match n
    case 1 => [FByte(x)]
    case 2 => [VByte(x, 0x80), FByte(x)]
    case 3 => [VByte(x, 0x4000), VByte(x, 0x80), FByte(x)]
    case 4 => [VByte(x, 0x20_0000), VByte(x, 0x4000), VByte(x, 0x80), FByte(x)]
    case _ => [SByte(x), VByte(x, 0x20_0000), VByte(x, 0x4000), VByte(x, 0x80), FByte(x)]
  }

  /** The 7-bit groups of x, as long as they lie within 28 bits, are those of any v equal to x modulo 2^32. */
  lemma GroupsModulo(v: int)
    ensures var x := ToU32(v);
            && x % 128 == v % 128
            && x / 0x80 % 128 == v / 128 % 128
            && x / 0x4000 % 128 == v / 128 / 128 % 128
            && x / 0x20_0000 % 128 == v / 128 / 128 / 128 % 128
  {
    var x := ToU32(v);
    var h := v / 0x1_0000_0000;
    DropGroup(v, x, h * 0x200_0000);
    DropGroup(v / 128, x / 128, h * 0x4_0000);
    DropGroup(v / 128 / 128, x / 128 / 128, h * 0x800);
    DropGroup(v / 128 / 128 / 128, x / 128 / 128 / 128, h * 0x10);
  }

  lemma DropGroup(v: int, x: int, k: int)
    requires v == 128 * k + x
    ensures v / 128 == k + x / 128 && v % 128 == x % 128
  {
  }

  /** Up to four bytes, the macros lay out a 7E code, padded where the value is shorter. */
  lemma T0IntIsCoded(n: nat, v: int)
    requires 1 <= n <= 4
    ensures T0Int(n, ToU32(v)) == Coded(v, n)
  {
    GroupsModulo(v);
    var w := v / 128;
    assert Chunks(w, 0) == [];
    assert Chunks(w, 1) == Chunks(w / 128, 0) + [w % 128 + 128];
    assert Chunks(w, 2) == Chunks(w / 128, 1) + [w % 128 + 128];
    assert Chunks(w, 3) == Chunks(w / 128, 2) + [w % 128 + 128];
  }

  /** The first byte of T0_INT5 has a continuation bit only when the sign bit of x is set. */
  lemma SByteValue(x: uint32)
    ensures SByte(x) == var t := x / 0x1000_0000; if t < 8 then t else 0xF0 + t
  {
  }

  lemma Pow2Seven(m: nat)
    ensures Pow2(m + 6) == 64 * Pow2(m) && Pow2(m + 7) == 128 * Pow2(m)
  {
    assert Pow2(m + 1) == 2 * Pow2(m);
    assert Pow2(m + 2) == 4 * Pow2(m);
    assert Pow2(m + 3) == 8 * Pow2(m);
    assert Pow2(m + 4) == 16 * Pow2(m);
    assert Pow2(m + 5) == 32 * Pow2(m);
  }

  lemma {:induction false} Pow2Is128(n: nat)
    ensures Pow2(7 * n) == Pow128(n)
  {
    if n > 0 {
      Pow2Is128(n - 1);
      Pow2Seven(7 * n - 7);
    }
  }

  lemma {:induction false} Pow2Mono(m: nat, n: nat)
    requires m <= n
    ensures Pow2(m) <= Pow2(n)
    decreases n
  {
    if m < n {
      Pow2Mono(m, n - 1);
    }
  }

  /** A value that fits on numBits bits fits on the (numBits + 6) / 7 bytes that hold them. */
  lemma BitsToBytes(v: int, numBits: nat)
    requires FitsBits(v, numBits)
    ensures var n := (numBits + 6) / 7; n > 0 && -64 * Pow128(n - 1) <= v < 64 * Pow128(n - 1)
  {
    var n := (numBits + 6) / 7;
    Pow2Mono(numBits - 1, 7 * (n - 1) + 6);
    Pow2Is128(n - 1);
    Pow2Seven(7 * (n - 1));
  }

  lemma FiveGroups(v: int)
    ensures var (g1, g2, g3, g4) := (v / 128, v / 128 / 128, v / 128 / 128 / 128, v / 128 / 128 / 128 / 128);
            Coded(v, 5) == [g4 % 128 + 128, g3 % 128 + 128, g2 % 128 + 128, g1 % 128 + 128, v % 128]
  {
    var (g1, g2, g3, g4) := (v / 128, v / 128 / 128, v / 128 / 128 / 128, v / 128 / 128 / 128 / 128);
    assert Chunks(g4, 1) == [g4 % 128 + 128];
    assert Chunks(g3, 2) == [g4 % 128 + 128, g3 % 128 + 128];
    assert Chunks(g2, 3) == [g4 % 128 + 128, g3 % 128 + 128, g2 % 128 + 128];
    assert Chunks(g1, 4) == [g4 % 128 + 128, g3 % 128 + 128, g2 % 128 + 128, g1 % 128 + 128];
  }

  lemma FirstOfNegative(v: int32)
    requires v < 0
    ensures SByte(ToU32(v)) == v / 128 / 128 / 128 / 128 % 128 + 128
  {
    SByteValue(ToU32(v));
    var g4 := v / 128 / 128 / 128 / 128;
    assert g4 == v / 0x1000_0000;
    assert -8 <= g4 < 0;
    assert ToU32(v) == v + 0x1_0000_0000;
    assert ToU32(v) / 0x1000_0000 == g4 + 16;
  }

  lemma NegativeT0Int5(v: int32)
    requires v < 0
    ensures T0Int(5, ToU32(v)) == Coded(v, 5)
  {
    FirstOfNegative(v);
    var first := SByte(ToU32(v));
    assert T0Int(5, ToU32(v)) == [first] + T0Int(4, ToU32(v));
    T0IntIsCoded(4, v);
    FiveGroups(v);
    assert Coded(v, 5) == [first] + Coded(v, 4);
  }

  /** The bytes emitted for a constant expression decode to its value exactly when at most four bytes were
      chosen or the value is negative: the macro for five bytes omits a continuation bit on non-negative values,
      so that the decoder stops after the first byte. */
  lemma ExprDecodes(code: seq<byte>, p: nat, cx: PointerExpr, off: int32, e: int32, numBits: nat)
    requires cx.min <= e <= cx.max && 1 <= numBits <= 32
    requires numBits < 32 ==> RangeFits(cx, off, numBits)
    requires OccursAt(code, p, T0Int((numBits + 6) / 7, ExprValue(e, off)))
    ensures var v := ToS32(ExprValue(e, off)); var n := (numBits + 6) / 7;
            Parse7ESigned(code, p) == Some((v as int, p + n)) <==> n <= 4 || v < 0
  {
    var n := (numBits + 6) / 7;
    var x := ExprValue(e, off);
    var v := ToS32(x);
    if n <= 4 {
      BitsToBytes(e + off, numBits);
      Pow2Is128(n - 1);
      FourBytesFit(e + off, n);
      T0IntIsCoded(n, v);
      SignedRoundTrip(code, p, v, n);
    } else if v < 0 {
      NegativeT0Int5(v);
      assert Pow128(4) == 0x1000_0000;
      SignedRoundTrip(code, p, v, 5);
    } else {
      SByteValue(x);
      assert code[p] == code[p..p + 5][0];
    }
  }

  lemma FourBytesFit(v: int, n: nat)
    requires 1 <= n <= 4 && -64 * Pow128(n - 1) <= v < 64 * Pow128(n - 1)
    ensures ToS32(ToU32(v)) == v
  {
    assert Pow128(0) == 1 && Pow128(1) == 128 && Pow128(2) == 0x4000 && Pow128(3) == 0x20_0000;
  }

  /** For instance the value 2^28 needs 30 bits, hence five bytes, and is read back as 1. */
  lemma FiveByteExample()
    ensures Parse7ESigned(T0Int(5, 0x1000_0000), 0) == Some((1 as int, 1))
  {
    SByteValue(0x1000_0000);
    assert T0Int(5, 0x1000_0000)[0] == 1;
  }
}
