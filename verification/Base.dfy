/** Option values, and the 32-bit integers and bytes that both the compiler and the generated C code work on. */
module Base {

  datatype Option<+T> = None | Some(value: T)

  type byte = x: int | 0 <= x < 0x100
  type uint32 = x: int | 0 <= x < 0x1_0000_0000
  type int32 = x: int | -0x8000_0000 <= x < 0x8000_0000

  /** Conversion to `uint32_t`: reduction modulo 2^32. */
  function ToU32(x: int): (u: uint32)
    ensures 0 <= x < 0x1_0000_0000 ==> u == x
  {
    x % 0x1_0000_0000
  }

  /** Conversion of a `uint32_t` to `int32_t`: two's complement. */
  function ToS32(u: uint32): (x: int32)
    ensures ToU32(x) == u
  {
    if u < 0x8000_0000 then u else u - 0x1_0000_0000
  }

  lemma ToS32OfToU32(x: int32)
    ensures ToS32(ToU32(x)) == x
  {
  }

  function Max(a: int, b: int): (m: int)
    ensures m >= a && m >= b && (m == a || m == b)
  {
    if a >= b then a else b
  }

  function Min(a: int, b: int): (m: int)
    ensures m <= a && m <= b && (m == a || m == b)
  {
    if a <= b then a else b
  }

  /** `bytes` occurs in `code` at position `p`. */
  predicate OccursAt<T(==)>(code: seq<T>, p: nat, bytes: seq<T>) {
    p + |bytes| <= |code| && code[p..p + |bytes|] == bytes
  }

  lemma OccursAtSplit<T>(code: seq<T>, p: nat, a: seq<T>, b: seq<T>)
    ensures OccursAt(code, p, a + b) <==> OccursAt(code, p, a) && OccursAt(code, p + |a|, b)
  {
    if p + |a| + |b| <= |code| {
      var whole := code[p..p + |a| + |b|];
      assert whole[..|a|] == code[p..p + |a|];
      assert whole[|a|..] == code[p + |a|..p + |a| + |b|];
      assert whole == whole[..|a|] + whole[|a|..];
      assert (a + b)[..|a|] == a && (a + b)[|a|..] == b;
    }
  }

  lemma OccursAtExtend<T>(code: seq<T>, p: nat, bytes: seq<T>, more: seq<T>)
    requires OccursAt(code, p, bytes)
    ensures OccursAt(code + more, p, bytes)
  {
    assert (code + more)[p..p + |bytes|] == code[p..p + |bytes|];
  }

  lemma OccursAtEnd<T>(code: seq<T>, bytes: seq<T>)
    ensures OccursAt(code + bytes, |code|, bytes)
  {
  }
}
