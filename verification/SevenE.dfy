/** The "7E" variable-length integers: the compiler's encoders (CodeElement.cs) and the decoders of the
    generated C code (T0Comp.cs, lines 1699-1737). */
module SevenE {
  import opened Base

  /** Sink for generated bytes; the line wrapping of the real writer is not modelled. */
  class BlobWriter {
    var blob: seq<byte>

    constructor ()
      ensures blob == []
    {
      blob := [];
    }

    method Append(b: byte)
      modifies this
      ensures blob == old(blob) + [b]
    {
      blob := blob + [b];
    }
  }

  // ----- specification of the encodings -----

  /** `v >> k`: an arithmetic shift, i.e. floor division by 2^k. */
  function Sar(v: int, k: nat): int {
    if k == 0 then v else Sar(v, k - 1) / 2
  }

  /** n bytes with the continuation bit set, which carry the low 7n bits of v. */
  function Chunks(v: int, n: nat): (bs: seq<byte>)
    ensures |bs| == n
    decreases n
  {
    if n == 0 then [] else Chunks(v / 128, n - 1) + [v % 128 + 128]
  }

  /** The n-byte code of v: continuation bits everywhere but on the last byte. */
  function Coded(v: int, n: nat): (bs: seq<byte>)
    requires n > 0
    ensures |bs| == n
  {
    Chunks(v / 128, n - 1) + [v % 128]
  }

  /** Code length of an unsigned value. */
  function Len7U(v: nat): (n: nat)
    ensures n > 0
  {
    if v < 0x80 then 1 else 1 + Len7U(v / 128)
  }

  /** Code length of a signed value. */
  function Len7S(v: int): (n: nat)
    ensures n > 0
    decreases if v < 0 then -v else v
  {
    if -0x40 <= v < 0x40 then 1 else 1 + Len7S(v / 128)
  }

  function Enc7U(v: nat): (bs: seq<byte>)
    ensures |bs| == Len7U(v)
  {
    Coded(v, Len7U(v))
  }

  function Enc7S(v: int): (bs: seq<byte>)
    ensures |bs| == Len7S(v)
  {
    Coded(v, Len7S(v))
  }

  // ----- the compiler's encoders -----

  lemma SarBySeven(v: int, k: nat)
    ensures Sar(v, k + 7) == Sar(v, k) / 128
  {
    var x := Sar(v, k);
    assert Sar(v, k + 1) == x / 2;
    assert Sar(v, k + 2) == x / 4;
    assert Sar(v, k + 3) == x / 8;
    assert Sar(v, k + 4) == x / 16;
    assert Sar(v, k + 5) == x / 32;
    assert Sar(v, k + 6) == x / 64;
  }

  method EncodeOneByte(val: uint32, bw: BlobWriter) returns (r: Option<nat>)
    modifies bw
    ensures r == if val <= 255 then Some(1) else None
    ensures bw.blob == if val <= 255 then old(bw.blob) + [val] else old(bw.blob)
  {
    if val > 255 {
      return None;
    }
    bw.Append(val);
    return Some(1);
  }

  /** The emission loop shared, in the source by repetition, by the two encoders. */
  method AppendGroups(val: int, len: nat, bw: BlobWriter)
    requires len > 0
    modifies bw
    ensures bw.blob == old(bw.blob) + Coded(val, len)
  {
    var k := (len - 1) * 7;
    ghost var j := len - 1;
    while k >= 0
      invariant k == 7 * j && -1 <= j < len
      invariant bw.blob == old(bw.blob) + if k >= 0 then Chunks(Sar(val, k) / 128, len - 1 - j) else Coded(val, len)
      decreases k
    {
      var x := Sar(val, k) % 128;
      if k > 0 {
        SarBySeven(val, k - 7);
        x := x + 0x80;
      }
      bw.Append(x);
      k, j := k - 7, j - 1;
    }
  }

  method Encode7EUnsigned(val: uint32, bw: BlobWriter?) returns (len: nat)
    modifies if bw == null then {} else {bw}
    ensures len == |Enc7U(val)|
    ensures bw != null ==> bw.blob == old(bw.blob) + Enc7U(val)
  {
    len := 1;
    var w := val;
    while w >= 0x80
      invariant w >= 0
      invariant Len7U(val) == len - 1 + Len7U(w)
    {
      len, w := len + 1, w / 128;
    }
    if bw != null {
      AppendGroups(val, len, bw);
    }
  }

  method Encode7ESigned(val: int32, bw: BlobWriter?) returns (len: nat)
    modifies if bw == null then {} else {bw}
    ensures len == |Enc7S(val)|
    ensures bw != null ==> bw.blob == old(bw.blob) + Enc7S(val)
  {
    len := 1;
    var w: int := val;
    if val < 0 {
      while w < -0x40
        invariant w < 0
        invariant Len7S(val) == len - 1 + Len7S(w)
        decreases -w
      {
        len, w := len + 1, w / 128;
      }
    } else {
      while w >= 0x40
        invariant w >= 0
        invariant Len7S(val) == len - 1 + Len7S(w)
      {
        len, w := len + 1, w / 128;
      }
    }
    if bw != null {
      AppendGroups(val, len, bw);
    }
  }

  // ----- the decoders of the generated C code -----

  /** `t0_parse7E_unsigned` entered with accumulator x: the value and the position after it, or None when the
      code runs past the end of the array. */
  function Parse7E(code: seq<byte>, p: nat, x: uint32): (r: Option<(uint32, nat)>)
    ensures r.Some? ==> p < r.value.1 <= |code|
    decreases |code| - p
  {
    if p >= |code| then None
    else
      var x' := (x * 128) % 0x1_0000_0000 + code[p] % 128;
      if code[p] < 0x80 then Some((x', p + 1)) else Parse7E(code, p + 1, x')
  }

  function Parse7EUnsigned(code: seq<byte>, p: nat): (r: Option<(uint32, nat)>)
    ensures r.Some? ==> p < r.value.1 <= |code|
  {
    Parse7E(code, p, 0)
  }

  /** Bit 6 of a byte: the sign of the number that starts with it. */
  predicate SignBit(b: byte) {
    (b / 64) % 2 == 1
  }

  /** The final conversion of `t0_parse7E_signed`. */
  function FinishSigned(neg: bool, x: uint32): int {
    if neg then -(ToS32(0xFFFF_FFFF - x) as int) - 1 else ToS32(x)
  }

  function Parse7ESigned(code: seq<byte>, p: nat): (r: Option<(int, nat)>)
    ensures r.Some? ==> p < r.value.1 <= |code|
  {
    if p >= |code| then None
    else
      var neg := SignBit(code[p]);
      match Parse7E(code, p, if neg then 0xFFFF_FFFF else 0)
      case None => None
      case Some(xq) => Some((FinishSigned(neg, xq.0), xq.1))
  }

  /** The decoding loop of both C functions. */
  method RunParse7E(code: seq<byte>, p: nat, x0: uint32) returns (r: Option<(uint32, nat)>)
    ensures r == Parse7E(code, p, x0)
  {
    var x: uint32, q := x0, p;
    while q < |code|
      invariant Parse7E(code, p, x0) == Parse7E(code, q, x)
    {
      var y: byte := code[q];
      q := q + 1;
      x := (x * 128) % 0x1_0000_0000 + y % 128;
      if y < 0x80 {
        return Some((x, q));
      }
    }
    return None;
  }

  method RunParse7ESigned(code: seq<byte>, p: nat) returns (r: Option<(int, nat)>)
    ensures r == Parse7ESigned(code, p)
  {
    if p >= |code| {
      return None;
    }
    var neg := SignBit(code[p]);
    var xq := RunParse7E(code, p, if neg then 0xFFFF_FFFF else 0);
    match xq {
      case None => r := None;
      case Some(v) => r := Some((FinishSigned(neg, v.0), v.1));
    }
  }

  // ----- round trips -----

  function Pow128(n: nat): (m: nat)
    ensures m > 0
  {
    if n == 0 then 1 else 128 * Pow128(n - 1)
  }

  /** Shifting by 7 first or last is the same. */
  lemma {:induction false} SarInside(w: int, k: nat)
    ensures Sar(w / 128, k) == Sar(w, k + 7)
  {
    if k == 0 {
      SarBySeven(w, 0);
    } else {
      SarInside(w, k - 1);
    }
  }

  /** One round of the decoding loop appends 7 bits, modulo 2^32. */
  lemma NextGroup(w: int)
    ensures (ToU32(w / 128) * 128) % 0x1_0000_0000 + w % 128 == ToU32(w)
  {
    var q, r := w / 128, w % 128;
    var h := q / 0x1_0000_0000;
    var k := (q * 128) / 0x1_0000_0000;
    var a := (q * 128) % 0x1_0000_0000;
    assert a == 128 * (q - k * 0x200_0000);
    assert a <= 0x1_0000_0000 - 128;
    ModUnique(w, k, a + r);
    ModUnique(ToU32(q) * 128, k - h * 128, a);
  }

  lemma ModUnique(x: int, k: int, a: uint32)
    requires x == k * 0x1_0000_0000 + a
    ensures x % 0x1_0000_0000 == a
  {
  }

  lemma ParseStep(code: seq<byte>, p: nat, w: int, last: bool)
    requires OccursAt(code, p, [if last then w % 128 else w % 128 + 128])
    ensures Parse7E(code, p, ToU32(w / 128)) == if last then Some((ToU32(w), p + 1)) else Parse7E(code, p + 1, ToU32(w))
  {
    var b: byte := if last then w % 128 else w % 128 + 128;
    assert code[p] == code[p..p + 1][0] == b;
    assert b % 128 == w % 128;
    NextGroup(w);
  }

  /** Reading n continuation bytes of w turns the accumulator w >> 7n into w, modulo 2^32. */
  lemma {:induction false} ParseChunks(code: seq<byte>, p: nat, w: int, n: nat)
    requires OccursAt(code, p, Chunks(w, n))
    ensures Parse7E(code, p, ToU32(Sar(w, 7 * n))) == Parse7E(code, p + n, ToU32(w))
    decreases n
  {
    if n > 0 {
      OccursAtSplit(code, p, Chunks(w / 128, n - 1), [w % 128 + 128]);
      SarInside(w, 7 * (n - 1));
      ParseChunks(code, p, w / 128, n - 1);
      ParseStep(code, p + n - 1, w, false);
    }
  }

  /** An n-byte code decodes to the value from which it was made, whatever the bytes around it. */
  lemma ParseCoded(code: seq<byte>, p: nat, v: int, n: nat)
    requires n > 0 && OccursAt(code, p, Coded(v, n))
    ensures Parse7E(code, p, ToU32(Sar(v, 7 * n))) == Some((ToU32(v), p + n))
  {
    OccursAtSplit(code, p, Chunks(v / 128, n - 1), [v % 128]);
    SarInside(v, 7 * (n - 1));
    ParseChunks(code, p, v / 128, n - 1);
    ParseStep(code, p + n - 1, v, true);
  }

  /** The sign of v and the range of its topmost 7-bit group when n bytes are enough. */
  lemma {:induction false} TopGroup(v: int, n: nat)
    requires n > 0 && -64 * Pow128(n - 1) <= v < 64 * Pow128(n - 1)
    ensures -64 <= Sar(v, 7 * n - 7) < 64
    ensures v < 0 <==> Sar(v, 7 * n - 7) < 0
    decreases n
  {
    if n > 1 {
      SarInside(v, 7 * (n - 2));
      TopGroup(v / 128, n - 1);
    }
  }

  lemma {:induction false} FirstByte(v: int, n: nat)
    requires n > 0
    ensures Coded(v, n)[0] % 128 == Sar(v, 7 * n - 7) % 128
    decreases n
  {
    if n > 1 {
      FirstOfChunks(v / 128, n - 1);
      SarInside(v, 7 * (n - 2));
    }
  }

  lemma {:induction false} FirstOfChunks(v: int, n: nat)
    requires n > 0
    ensures Chunks(v, n)[0] % 128 == Sar(v, 7 * n - 7) % 128
    decreases n
  {
    if n > 1 {
      FirstOfChunks(v / 128, n - 1);
      SarInside(v, 7 * (n - 2));
    }
  }

  /** Any n-byte code, minimal or not, of a 32-bit value that fits on 7n bits decodes to that value and stops
      exactly at its end. */
  lemma SignedRoundTrip(code: seq<byte>, p: nat, v: int32, n: nat)
    requires n > 0 && OccursAt(code, p, Coded(v, n))
    requires -64 * Pow128(n - 1) <= v < 64 * Pow128(n - 1)
    ensures Parse7ESigned(code, p) == Some((v, p + n))
  {
    TopGroup(v, n);
    FirstByte(v, n);
    assert code[p] == code[p..p + n][0];
    var top := Sar(v, 7 * n - 7);
    assert SignBit(code[p]) <==> v < 0;
    SarBySeven(v, 7 * n - 7);
    assert Sar(v, 7 * n) == if v < 0 then -1 else 0;
    ParseCoded(code, p, v, n);
  }

  lemma {:induction false} FitsUnsigned(v: nat)
    ensures v < Pow128(Len7U(v))
  {
    if v >= 0x80 {
      FitsUnsigned(v / 128);
    }
  }

  lemma {:induction false} FitsSigned(v: int)
    ensures -64 * Pow128(Len7S(v) - 1) <= v < 64 * Pow128(Len7S(v) - 1)
    decreases if v < 0 then -v else v
  {
    if !(-0x40 <= v < 0x40) {
      FitsSigned(v / 128);
    }
  }

  lemma {:induction false} SarVanishes(v: nat, n: nat)
    requires v < Pow128(n)
    ensures Sar(v, 7 * n) == 0
    decreases n
  {
    if n > 0 {
      SarInside(v, 7 * (n - 1));
      SarVanishes(v / 128, n - 1);
    }
  }

  /** Decoding the code of an unsigned value gives that value and stops exactly at its end. */
  lemma UnsignedCodeRoundTrip(code: seq<byte>, p: nat, v: uint32)
    requires OccursAt(code, p, Enc7U(v))
    ensures Parse7EUnsigned(code, p) == Some((v, p + |Enc7U(v)|))
  {
    FitsUnsigned(v);
    SarVanishes(v, Len7U(v));
    ParseCoded(code, p, v, Len7U(v));
  }

  /** Decoding the code of a signed value gives that value and stops exactly at its end. */
  lemma SignedCodeRoundTrip(code: seq<byte>, p: nat, v: int32)
    requires OccursAt(code, p, Enc7S(v))
    ensures Parse7ESigned(code, p) == Some((v as int, p + |Enc7S(v)|))
  {
    FitsSigned(v);
    SignedRoundTrip(code, p, v, Len7S(v));
  }

  // ----- minimality -----

  lemma StepRange(x: uint32, y: int)
    requires 0 <= y < 128
    ensures var x' := (x * 128) % 0x1_0000_0000 + y;
            x' + 1 <= (x + 1) * 128 && 0x1_0000_0000 - x' <= (0x1_0000_0000 - x) * 128
  {
    var h := (x * 128) / 0x1_0000_0000;
    assert x * 128 == h * 0x1_0000_0000 + (x * 128) % 0x1_0000_0000;
    assert 0 <= h <= 127;
  }

  lemma MulMono(a: nat, b: nat, m: nat)
    requires a <= b
    ensures a * m <= b * m
  {
  }

  lemma GrowBound(c: int, a': nat, a: nat, m: nat)
    requires c <= a' * m && a' <= a * 128
    ensures c <= a * (128 * m)
  {
    MulMono(a', a * 128, m);
    assert (a * 128) * m == a * (128 * m);
  }

  /** Each byte read multiplies the reachable range by 128, in both directions: x bounds the value from above
      and its complement bounds it from below. */
  lemma {:induction false} ParseRange(code: seq<byte>, p: nat, x: uint32)
    requires Parse7E(code, p, x).Some?
    ensures var (v, q) := Parse7E(code, p, x).value;
            v + 1 <= (x + 1) * Pow128(q - p) && 0x1_0000_0000 - v <= (0x1_0000_0000 - x) * Pow128(q - p)
    decreases |code| - p
  {
    var y := code[p] % 128;
    var x': uint32 := (x * 128) % 0x1_0000_0000 + y;
    StepRange(x, y);
    if code[p] < 0x80 {
      assert Pow128(1) == 128;
    } else {
      ParseRange(code, p + 1, x');
      var (v, q) := Parse7E(code, p, x).value;
      var m := Pow128(q - (p + 1));
      assert Pow128(q - p) == 128 * m;
      GrowBound(v + 1, x' + 1, x + 1, m);
      GrowBound(0x1_0000_0000 - v, 0x1_0000_0000 - x', 0x1_0000_0000 - x, m);
    }
  }

  lemma {:induction false} Len7ULeast(v: nat, n: nat)
    requires n > 0 && v < Pow128(n)
    ensures Len7U(v) <= n
    decreases n
  {
    if n > 1 && v >= 0x80 {
      Len7ULeast(v / 128, n - 1);
    }
  }

  lemma {:induction false} Len7SLeast(v: int, n: nat)
    requires n > 0 && -64 * Pow128(n - 1) <= v < 64 * Pow128(n - 1)
    ensures Len7S(v) <= n
    decreases n
  {
    if n > 1 && !(-0x40 <= v < 0x40) {
      Len7SLeast(v / 128, n - 1);
    }
  }

  /** No shorter byte string decodes to an unsigned value than the one the compiler emits. */
  lemma UnsignedCodeIsShortest(code: seq<byte>, p: nat)
    requires Parse7EUnsigned(code, p).Some?
    ensures var (v, q) := Parse7EUnsigned(code, p).value; |Enc7U(v)| <= q - p
  {
    var (v, q) := Parse7EUnsigned(code, p).value;
    ParseRange(code, p, 0);
    Len7ULeast(v, q - p);
  }

  lemma Int32FitsFiveBytes(v: int32)
    ensures Len7S(v) <= 5
  {
    assert Pow128(4) == 0x1000_0000;
    Len7SLeast(v, 5);
  }

  /** No shorter byte string decodes to a signed 32-bit value than the one the compiler emits. */
  lemma SignedCodeIsShortest(code: seq<byte>, p: nat)
    requires Parse7ESigned(code, p).Some?
    ensures var (v, q) := Parse7ESigned(code, p).value; -0x8000_0000 <= v < 0x8000_0000 ==> |Enc7S(v)| <= q - p
  {
    var (v, q) := Parse7ESigned(code, p).value;
    var n := q - p;
    if -0x8000_0000 <= v < 0x8000_0000 {
      if n >= 5 {
        Int32FitsFiveBytes(v);
      } else {
        SignedRange(code, p);
        Len7SLeast(v, n);
      }
    }
  }

  lemma SmallPow(k: nat)
    requires k <= 3
    ensures Pow128(k) <= 0x20_0000
  {
    assert Pow128(0) == 1;
    assert Pow128(1) == 128;
    assert Pow128(2) == 0x4000;
    assert Pow128(3) == 0x20_0000;
  }

  /** The accumulator after the first byte of a signed number. */
  lemma FirstSignedByte(b: byte, x: uint32)
    requires x == if SignBit(b) then 0xFFFF_FFFF else 0
    ensures var x' := (x * 128) % 0x1_0000_0000 + b % 128;
            if SignBit(b) then 0 < 0x1_0000_0000 - x' <= 64 else 0 < x' + 1 <= 64
  {
  }

  lemma SignedRange(code: seq<byte>, p: nat)
    requires Parse7ESigned(code, p).Some? && Parse7ESigned(code, p).value.1 - p <= 4
    ensures var (v, q) := Parse7ESigned(code, p).value; -64 * Pow128(q - p - 1) <= v < 64 * Pow128(q - p - 1)
  {
    var neg := SignBit(code[p]);
    var x: uint32 := if neg then 0xFFFF_FFFF else 0;
    var x': uint32 := (x * 128) % 0x1_0000_0000 + code[p] % 128;
    FirstSignedByte(code[p], x);
    var (v, q) := Parse7E(code, p, x).value;
    var m := Pow128(q - p - 1);
    SmallPow(q - p - 1);
    if code[p] >= 0x80 {
      ParseRange(code, p + 1, x');
    }
    var range := if neg then 0x1_0000_0000 - x' else x' + 1;
    MulMono(range, 64, m);
    assert (if neg then 0x1_0000_0000 - v else v + 1) <= 64 * m;
  }

  // ----- the bytes of a code -----

  /** The value without its k low groups of 7 bits. */
  function Group(v: int, k: nat): int
    decreases k
  {
    if k == 0 then v else Group(v / 128, k - 1)
  }

  lemma {:induction false} ChunkBytes(v: int, n: nat, i: nat)
    requires i < n
    ensures Chunks(v, n)[i] == Group(v, n - 1 - i) % 128 + 128
    decreases n
  {
    if i < n - 1 {
      ChunkBytes(v / 128, n - 1, i);
    }
  }

  /** The groups come most significant first, each in a byte whose high bit is set in all bytes but the last. */
  lemma CodeBytes(v: int, n: nat, i: nat)
    requires i < n
    ensures Coded(v, n)[i] == Group(v, n - 1 - i) % 128 + if i < n - 1 then 128 else 0
  {
    if i < n - 1 {
      ChunkBytes(v / 128, n - 1, i);
    }
  }

  /** Some codes. */
  lemma CodeExamples()
    ensures Enc7U(0) == [0] && Enc7U(127) == [0x7F] && Enc7U(128) == [0x81, 0] && Enc7U(300) == [0x82, 0x2C]
    ensures Enc7S(0) == [0] && Enc7S(63) == [0x3F] && Enc7S(64) == [0x80, 0x40]
    ensures Enc7S(-1) == [0x7F] && Enc7S(-64) == [0x40] && Enc7S(-65) == [0xFF, 0x3F]
  {
  }
}
