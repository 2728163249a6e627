/** Constant data blocks and the strings in them (ConstData.cs). A string is a sequence of UTF-16 code units. */
module ConstBlocks {
  import opened Base

  type unit = u: int | 0 <= u < 0x1_0000
  type scalar = c: int | 0 <= c < 0xD800 || 0xE000 <= c < 0x11_0000

  const REPLACEMENT: scalar := 0xFFFD

  predicate High(u: unit) {
    0xD800 <= u < 0xDC00
  }

  predicate Low(u: unit) {
    0xDC00 <= u < 0xE000
  }

  predicate Paired(s: seq<unit>) {
    |s| >= 2 && High(s[0]) && Low(s[1])
  }

  function Combine(h: unit, l: unit): (c: scalar)
    requires High(h) && Low(l)
    ensures c >= 0x1_0000
  {
    0x1_0000 + (h - 0xD800) * 1024 + (l - 0xDC00)
  }

  /** The characters of a string; a surrogate that is not part of a pair becomes the replacement character. */
  function Scalars(s: seq<unit>): seq<scalar> {
    if s == [] then []
    else if Paired(s) then [Combine(s[0], s[1])] + Scalars(s[2..])
    else [if High(s[0]) || Low(s[0]) then REPLACEMENT else s[0]] + Scalars(s[1..])
  }

  predicate WellFormed(s: seq<unit>) {
    if s == [] then true
    else if Paired(s) then WellFormed(s[2..])
    else !High(s[0]) && !Low(s[0]) && WellFormed(s[1..])
  }

  /** Section 3 of RFC 3629. */
  function Utf8Of(c: scalar): (bs: seq<byte>)
    ensures 1 <= |bs| <= 4
  {
    if c < 0x80 then [c]
    else if c < 0x800 then [0xC0 + c / 64, 0x80 + c % 64]
    else if c < 0x1_0000 then [0xE0 + c / 4096, 0x80 + c / 64 % 64, 0x80 + c % 64]
    else [0xF0 + c / 0x4_0000, 0x80 + c / 4096 % 64, 0x80 + c / 64 % 64, 0x80 + c % 64]
  }

  function Utf8(cs: seq<scalar>): seq<byte> {
    if cs == [] then [] else Utf8Of(cs[0]) + Utf8(cs[1..])
  }

  /** `Encoding.UTF8.GetBytes`. */
  function GetBytes(s: seq<unit>): seq<byte> {
    Utf8(Scalars(s))
  }

  // ----- reading -----

  /** The code units that are appended for one decoded value. */
  function Units(x: nat): (us: seq<unit>)
    requires x < 0x11_0000
  {
    if x < 0x1_0000 then [x] else [0xD800 + (x - 0x1_0000) / 1024, 0xDC00 + (x - 0x1_0000) % 1024]
  }

  predicate Continuation(b: byte) {
    0x80 <= b < 0xC0
  }

  /** The number of continuation bytes that a first byte announces. */
  function Extra(b: byte): nat {
    if b < 0xC0 || b > 0xF7 then 0 else if b >= 0xF0 then 3 else if b >= 0xE0 then 2 else 1
  }

  /** The bits of a first byte. */
  function FirstBits(b: byte): nat {
    if b >= 0xF0 then b % 8 else if b >= 0xE0 then b % 16 else b % 32
  }

  /** The value of n continuation bytes after acc; None if one of them is something else. */
  function Accumulate(bs: seq<byte>, off: nat, n: nat, acc: nat): Option<nat>
    requires off + n <= |bs|
    decreases n
  {
    if n == 0 then Some(acc)
    else if !Continuation(bs[off]) then None
    else Accumulate(bs, off + 1, n - 1, acc * 64 + bs[off] % 64)
  }

  /** `DecodeUTF8`: a value and the offset after it. A byte that starts nothing valid stands for itself; None is the
      exception for an offset out of range. */
  function Decode(bs: seq<byte>, off: int): (r: Option<(nat, nat)>)
    ensures r.Some? ==> 0 <= off < r.value.1 <= |bs| && r.value.0 < 0x11_0000
  {
    if !(0 <= off < |bs|) then None
    else
      var n := Extra(bs[off]);
      if n == 0 || off + 1 + n > |bs| then Some((bs[off], off + 1))
      else
        match Accumulate(bs, off + 1, n, FirstBits(bs[off]))
        case None => Some((bs[off], off + 1))
        case Some(x) => if x > 0x10_FFFF then Some((bs[off], off + 1)) else Some((x, off + 1 + n))
  }

  /** `ToString`. */
  function ReadString(bs: seq<byte>, off: int): Option<seq<unit>>
    decreases |bs| - off
  {
    match Decode(bs, off)
    case None => None
    case Some((x, next)) =>
      if x == 0 then Some([])
      else
        match ReadString(bs, next)
        case None => None
        case Some(us) => Some(Units(x) + us)
  }

  // ----- strings round-trip -----

  lemma Regroup(c: scalar)
    ensures c / 64 * 64 + c % 64 == c
    ensures c / 4096 * 64 + c / 64 % 64 == c / 64
    ensures c / 0x4_0000 * 64 + c / 4096 % 64 == c / 4096
  {
    assert c / 64 / 64 == c / 4096 && c / 4096 / 64 == c / 0x4_0000;
  }

  /** A first byte and n continuation bytes that make up c. */
  lemma DecodeLong(bs: seq<byte>, off: nat, n: nat, c: scalar)
    requires off + n < |bs| && n == Extra(bs[off]) > 0
    requires Accumulate(bs, off + 1, n, FirstBits(bs[off])) == Some(c)
    ensures Decode(bs, off) == Some((c, off + 1 + n))
  {
  }

  /** One continuation byte holds the next 6 bits. */
  lemma NextBits(bs: seq<byte>, off: nat, n: nat, high: nat, low: nat)
    requires off + n < |bs| && low < 64 && bs[off] == 0x80 + low
    ensures Accumulate(bs, off, n + 1, high) == Accumulate(bs, off + 1, n, high * 64 + low)
  {
  }

  lemma DecodeScalar(bs: seq<byte>, off: nat, c: scalar)
    requires OccursAt(bs, off, Utf8Of(c))
    ensures Decode(bs, off) == Some((c, off + |Utf8Of(c)|))
  {
    hide Accumulate, Decode, Extra, FirstBits, Continuation;
    var e := Utf8Of(c);
    BytesAt(bs, off, e);
    Regroup(c);
    if c < 0x80 {
      DecodeShort(bs, off);
    } else if c < 0x800 {
      Leads(c);
      NextBits(bs, off + 1, 0, c / 64, c % 64);
      AccumulateNone(bs, off + 2, c);
      DecodeLong(bs, off, 1, c);
    } else if c < 0x1_0000 {
      Leads(c);
      NextBits(bs, off + 1, 1, c / 4096, c / 64 % 64);
      NextBits(bs, off + 2, 0, c / 64, c % 64);
      AccumulateNone(bs, off + 3, c);
      DecodeLong(bs, off, 2, c);
    } else {
      Leads(c);
      NextBits(bs, off + 1, 2, c / 0x4_0000, c / 4096 % 64);
      NextBits(bs, off + 2, 1, c / 4096, c / 64 % 64);
      NextBits(bs, off + 3, 0, c / 64, c % 64);
      AccumulateNone(bs, off + 4, c);
      DecodeLong(bs, off, 3, c);
    }
  }

  lemma BytesAt(bs: seq<byte>, off: nat, e: seq<byte>)
    requires OccursAt(bs, off, e)
    ensures |e| > 0 ==> bs[off] == e[0]
    ensures |e| > 1 ==> bs[off + 1] == e[1]
    ensures |e| > 2 ==> bs[off + 2] == e[2]
    ensures |e| > 3 ==> bs[off + 3] == e[3]
  {
    forall i | 0 <= i < |e| ensures bs[off + i] == e[i] {
      assert bs[off..off + |e|][i] == e[i];
    }
  }

  lemma DecodeShort(bs: seq<byte>, off: nat)
    requires off < |bs| && bs[off] < 0x80
    ensures Decode(bs, off) == Some((bs[off], off + 1))
  {
  }

  lemma AccumulateNone(bs: seq<byte>, off: nat, acc: nat)
    requires off <= |bs|
    ensures Accumulate(bs, off, 0, acc) == Some(acc)
  {
  }

  /** The first byte announces the length and holds the top bits. */
  lemma Leads(c: scalar)
    requires c >= 0x80
    ensures Extra(Utf8Of(c)[0]) == |Utf8Of(c)| - 1
    ensures FirstBits(Utf8Of(c)[0]) == if c < 0x800 then c / 64 else if c < 0x1_0000 then c / 4096 else c / 0x4_0000
  {
  }

  /** The characters before the first U+0000. */
  function UpToZero(cs: seq<scalar>): seq<scalar> {
    if cs == [] || cs[0] == 0 then [] else [cs[0]] + UpToZero(cs[1..])
  }

  function Utf16(cs: seq<scalar>): seq<unit> {
    if cs == [] then [] else Units(cs[0]) + Utf16(cs[1..])
  }

  /** What is read back from the bytes of a string: its characters, up to the first U+0000. */
  lemma {:induction false} ReadBack(bs: seq<byte>, off: nat, cs: seq<scalar>)
    requires OccursAt(bs, off, Utf8(cs) + [0])
    ensures ReadString(bs, off) == Some(Utf16(UpToZero(cs)))
    decreases |cs|
  {
    hide Utf8Of, Decode, Units;
    if cs == [] {
      assert Utf8(cs) + [0] == Utf8Of(0) by {
        ZeroByte();
      }
      DecodeScalar(bs, off, 0);
    } else {
      var rest := Utf8(cs[1..]) + [0];
      assert Utf8(cs) + [0] == Utf8Of(cs[0]) + rest;
      OccursAtSplit(bs, off, Utf8Of(cs[0]), rest);
      DecodeScalar(bs, off, cs[0]);
      if cs[0] != 0 {
        ReadBack(bs, off + |Utf8Of(cs[0])|, cs[1..]);
        assert UpToZero(cs)[1..] == UpToZero(cs[1..]);
      }
    }
  }

  lemma ZeroByte()
    ensures Utf8Of(0) == [0]
  {
  }

  lemma {:induction false} PairUnits(s: seq<unit>)
    requires Paired(s)
    ensures Units(Combine(s[0], s[1])) == [s[0], s[1]]
  {
  }

  /** A string is made of its characters exactly when it is well-formed. */
  lemma {:induction false} CharactersOf(s: seq<unit>)
    ensures Utf16(Scalars(s)) == s <==> WellFormed(s)
    ensures 0 in Scalars(s) <==> 0 in s
    decreases |s|
  {
    if s != [] {
      var k := if Paired(s) then 2 else 1;
      CharactersOf(s[k..]);
      assert s == s[..k] + s[k..];
      var c := Scalars(s)[0];
      assert Scalars(s)[1..] == Scalars(s[k..]);
      assert Utf16(Scalars(s)) == Units(c) + Utf16(Scalars(s[k..]));
      assert |Units(c)| == k;
      if Paired(s) {
        PairUnits(s);
      }
      assert (Units(c) + Utf16(Scalars(s[k..])))[..k] == Units(c)
             && (Units(c) + Utf16(Scalars(s[k..])))[k..] == Utf16(Scalars(s[k..]));
    }
  }

  lemma {:induction false} UpToZeroAll(cs: seq<scalar>)
    ensures 0 !in cs ==> UpToZero(cs) == cs
    ensures 0 !in Utf16(UpToZero(cs))
    decreases |cs|
  {
    if cs != [] {
      UpToZeroAll(cs[1..]);
      assert cs == [cs[0]] + cs[1..];
      if cs[0] != 0 {
        assert UpToZero(cs)[1..] == UpToZero(cs[1..]);
      }
    }
  }

  /** A string in a block, whatever comes before and after it, is read back unchanged exactly when it is well-formed and
      has no U+0000. */
  lemma StringRoundTrip(bs: seq<byte>, off: nat, s: seq<unit>)
    requires OccursAt(bs, off, GetBytes(s) + [0])
    ensures ReadString(bs, off) == Some(s) <==> WellFormed(s) && 0 !in s
  {
    ReadBack(bs, off, Scalars(s));
    CharactersOf(s);
    UpToZeroAll(Scalars(s));
  }

  // ----- any bytes -----

  /** Continuation bytes at a position. */
  predicate Continues(bs: seq<byte>, off: nat, n: nat) {
    off + n <= |bs| && forall i | off <= i < off + n :: 0x80 <= bs[i] <= 0xBF
  }

  function Minus(b: byte, base: int): int {
    b as int - base
  }

  /** The bits of a first byte and of n continuation bytes. */
  function Joined(bs: seq<byte>, off: nat, n: nat): int
    requires off + n < |bs| && 1 <= n <= 3
  {
    var b, c := bs[off], Minus(bs[off + 1], 0x80);
    if n == 1 then Minus(b, 0xC0) * 64 + c
    else if n == 2 then Minus(b, 0xE0) * 4096 + c * 64 + Minus(bs[off + 2], 0x80)
    else Minus(b, 0xF0) * 0x4_0000 + c * 4096 + Minus(bs[off + 2], 0x80) * 64 + Minus(bs[off + 3], 0x80)
  }

  /** Any bytes are decoded to the bits of two, three or four bytes, if that is a value up to 0x10FFFF, in however many
      bytes it is written; and otherwise to one byte, which stands for itself. */
  lemma DecodeExactly(bs: seq<byte>, off: nat)
    requires off < |bs|
    ensures var b := bs[off];
            var n := if 0xC0 <= b <= 0xDF then 1 else if 0xE0 <= b <= 0xEF then 2 else if 0xF0 <= b <= 0xF7 then 3
                     else 0;
            if n > 0 && Continues(bs, off + 1, n) && Joined(bs, off, n) <= 0x10_FFFF
            then Decode(bs, off) == Some((Joined(bs, off, n), off + 1 + n))
            else Decode(bs, off) == Some((b as nat, off + 1))
  {
    hide Accumulate, Joined, FirstBits;
    var b := bs[off];
    var n := Extra(b);
    if n > 0 && off + 1 + n <= |bs| {
      AccumulateSteps(bs, off + 1, n, FirstBits(b));
      if Continues(bs, off + 1, n) {
        JoinedIs(bs, off);
      }
    }
  }

  lemma JoinedIs(bs: seq<byte>, off: nat)
    requires off < |bs| && Extra(bs[off]) > 0 && off + 1 + Extra(bs[off]) <= |bs|
    requires Continues(bs, off + 1, Extra(bs[off]))
    ensures Accumulate(bs, off + 1, Extra(bs[off]), FirstBits(bs[off])) == Some(Joined(bs, off, Extra(bs[off])))
    ensures Joined(bs, off, Extra(bs[off])) >= 0
  {
    hide Accumulate;
    var b := bs[off];
    AccumulateSteps(bs, off + 1, Extra(b), FirstBits(b));
    assert FirstBits(b) == if b >= 0xF0 then Minus(b, 0xF0) else if b >= 0xE0 then Minus(b, 0xE0) else Minus(b, 0xC0);
  }

  lemma AccumulateSteps(bs: seq<byte>, off: nat, n: nat, acc: nat)
    requires 1 <= n <= 3 && off + n <= |bs|
    ensures Accumulate(bs, off, n, acc).Some? <==> Continues(bs, off, n)
    ensures Continues(bs, off, n) ==>
              Accumulate(bs, off, n, acc).value ==
              if n == 1 then acc * 64 + Minus(bs[off], 0x80)
              else if n == 2 then acc * 4096 + Minus(bs[off], 0x80) * 64 + Minus(bs[off + 1], 0x80)
              else (acc * 4096 + Minus(bs[off], 0x80) * 64 + Minus(bs[off + 1], 0x80)) * 64 + Minus(bs[off + 2], 0x80)
    decreases n
  {
    var next := acc * 64 + bs[off] % 64;
    if n > 1 {
      AccumulateSteps(bs, off + 1, n - 1, next);
    } else {
      assert Accumulate(bs, off + 1, 0, next) == Some(next);
    }
  }

  // ----- integers -----

  /** The n low bytes of x, most significant first. */
  function BigEndian(x: int, n: nat): (bs: seq<byte>)
    ensures |bs| == n
    decreases n
  {
    if n == 0 then [] else BigEndian(x / 256, n - 1) + [x % 256]
  }

  function FromBigEndian(bs: seq<byte>): nat {
    if bs == [] then 0 else FromBigEndian(bs[..|bs| - 1]) * 256 + bs[|bs| - 1]
  }

  function Pow256(n: nat): (m: nat)
    ensures m > 0
  {
    if n == 0 then 1 else 256 * Pow256(n - 1)
  }

  /** Reading n bytes gives back the integer modulo 256^n. */
  lemma {:induction false} IntegerRoundTrip(x: int, n: nat)
    ensures FromBigEndian(BigEndian(x, n)) == x % Pow256(n)
    decreases n
  {
    if n > 0 {
      IntegerRoundTrip(x / 256, n - 1);
      var bs := BigEndian(x, n);
      assert bs[..|bs| - 1] == BigEndian(x / 256, n - 1);
      ModOfQuotient(x, Pow256(n - 1));
    }
  }

  lemma ModOfQuotient(x: int, m: nat)
    requires m > 0
    ensures (x / 256) % m * 256 + x % 256 == x % (256 * m)
  {
    var q, r := x / 256, x % 256;
    var h, l := q / m, q % m;
    assert x == (256 * m) * h + (l * 256 + r) by {
      assert q == m * h + l;
    }
    assert 0 <= l * 256 + r < 256 * m;
    RemainderIs(x, 256 * m, h, l * 256 + r);
  }

  lemma RemainderIs(x: int, m: nat, h: int, r: nat)
    requires m > 0 && x == m * h + r && r < m
    ensures x % m == r
  {
    var d := x / m - h;
    assert r - x % m == m * d by {
      assert x == m * (x / m) + x % m;
      assert m * (x / m) == m * h + m * d;
    }
    if d != 0 {
      MultipleIsLarge(m, d);
      assert false;
    }
  }

  lemma MultipleIsLarge(m: nat, d: int)
    requires d != 0
    ensures m * d >= m || m * d + m <= 0
  {
  }

  // ----- the growable block -----

  function After(sb: seq<unit>, r: Option<seq<unit>>): Option<seq<unit>> {
    if r.None? then None else Some(sb + r.value)
  }

  lemma AfterNothing(sb: seq<unit>, r: Option<seq<unit>>)
    ensures After([], r) == r && After(sb, Some([])) == Some(sb)
  {
    if r.Some? {
      assert [] + r.value == r.value;
    }
    assert sb + [] == sb;
  }

  lemma AfterUnits(sb: seq<unit>, x: nat, r: Option<seq<unit>>)
    requires x < 0x11_0000
    ensures After(sb, After(Units(x), r)) == After(sb + Units(x), r)
  {
    if r.Some? {
      assert sb + (Units(x) + r.value) == (sb + Units(x)) + r.value;
    }
  }

  /** `ConstData`; addresses are not part of this model. */
  class ConstData {
    var buf: array<byte>
    var len: nat

    ghost predicate Valid()
      reads this
    {
      len <= buf.Length
    }

    ghost function Contents(): (bs: seq<byte>)
      requires Valid()
      reads this, buf
      ensures |bs| == len
    {
      buf[..len]
    }

    constructor ()
      ensures Valid() && fresh(buf) && Contents() == []
    {
      buf := new byte[4](_ => 0);
      len := 0;
    }

    method Expand(elen: nat)
      requires Valid()
      modifies this
      ensures Valid() && Contents() == old(Contents()) && len + elen <= buf.Length
      ensures buf == old(buf) || fresh(buf)
    {
      var tlen := len + elen;
      if tlen > buf.Length {
        var nlen := Max(buf.Length * 2, tlen);
        var nbuf := new byte[nlen](_ => 0);
        forall i | 0 <= i < len {
          nbuf[i] := buf[i];
        }
        buf := nbuf;
      }
    }

    method Add8(b: byte)
      requires Valid()
      modifies this, buf
      ensures Valid() && Contents() == old(Contents()) + [b]
      ensures buf == old(buf) || fresh(buf)
    {
      Expand(1);
      buf[len] := b;
      len := len + 1;
    }

    /** `Add16`, `Add24` and `Add32`: the n low bytes of x. */
    method AddInteger(x: int, n: nat)
      requires Valid()
      modifies this, buf
      ensures Valid() && Contents() == old(Contents()) + BigEndian(x, n)
      ensures buf == old(buf) || fresh(buf)
    {
      Expand(n);
      AddBytes(BigEndian(x, n));
    }

    /** Copies bytes for which there is room. */
    method AddBytes(bs: seq<byte>)
      requires Valid() && len + |bs| <= buf.Length
      modifies this, buf
      ensures Valid() && Contents() == old(Contents()) + bs && buf == old(buf)
    {
      ghost var was := Contents();
      forall i | 0 <= i < |bs| {
        buf[len + i] := bs[i];
      }
      len := len + |bs|;
      assert buf[..len] == was + bs;
    }

    method AddString(s: seq<unit>)
      requires Valid()
      modifies this, buf
      ensures Valid() && Contents() == old(Contents()) + GetBytes(s) + [0]
      ensures buf == old(buf) || fresh(buf)
    {
      var sd := GetBytes(s);
      Expand(|sd| + 1);
      AddBytes(sd);
      buf[len] := 0;
      len := len + 1;
      assert buf[..len - 1] == old(Contents()) + sd;
    }

    /** `CheckIndex`. */
    predicate Inside(off: int, dlen: nat)
      reads this
    {
      0 <= off <= len - dlen
    }

    method Set8(off: int, v: byte) returns (ok: bool)
      requires Valid()
      modifies buf
      ensures Valid() && ok == (0 <= off < old(len))
      ensures Contents() == if ok then old(Contents())[off := v] else old(Contents())
    {
      ok := Inside(off, 1);
      if ok {
        ghost var was := Contents();
        buf[off] := v;
        assert buf[..len] == was[off := v];
      }
    }

    /** `Read8` to `Read32`, with n from 1 to 4. */
    method ReadInteger(off: int, n: nat) returns (x: Option<int>)
      requires Valid() && 1 <= n <= 4
      ensures x.Some? <==> 0 <= off <= len - n
      ensures x.Some? ==> x.value == (var v := FromBigEndian(Contents()[off..off + n]);
                                      if n == 4 then ToS32(v % 0x1_0000_0000) else v)
    {
      if !Inside(off, n) {
        return None;
      }
      var acc: nat := 0;
      for i := 0 to n
        invariant acc == FromBigEndian(Contents()[off..off + i])
      {
        ghost var part := Contents()[off..off + i + 1];
        assert part[..i] == Contents()[off..off + i] && part[i] == buf[off + i];
        acc := acc * 256 + buf[off + i];
      }
      return Some(if n == 4 then ToS32(acc % 0x1_0000_0000) else acc);
    }

    /** `DecodeUTF8`. */
    method DecodeUTF8(off: int) returns (r: Option<(nat, nat)>)
      requires Valid()
      ensures r == Decode(Contents(), off)
    {
      if !(0 <= off < len) {
        return None;
      }
      var x := buf[off];
      if x < 0xC0 || x > 0xF7 {
        return Some((x, off + 1));
      }
      var elen, acc: nat;
      if x >= 0xF0 {
        elen, acc := 3, x % 8;
      } else if x >= 0xE0 {
        elen, acc := 2, x % 16;
      } else {
        elen, acc := 1, x % 32;
      }
      if off + 1 + elen > len {
        return Some((x, off + 1));
      }
      for i := 0 to elen
        invariant Accumulate(Contents(), off + 1, elen, FirstBits(x)) ==
                  Accumulate(Contents(), off + 1 + i, elen - i, acc)
      {
        var y := buf[off + 1 + i];
        if y < 0x80 || y >= 0xC0 {
          return Some((x, off + 1));
        }
        acc := acc * 64 + y % 64;
      }
      if acc > 0x10_FFFF {
        return Some((x, off + 1));
      }
      return Some((acc, off + 1 + elen));
    }

    /** The part of `ToString` that appends a value. */
    static method AppendUnits(sb: seq<unit>, x: nat) returns (r: seq<unit>)
      requires x < 0x11_0000
      ensures r == sb + Units(x)
    {
      if x < 0x1_0000 {
        return sb + [x];
      }
      r := sb + [0xD800 + (x - 0x1_0000) / 1024];
      r := r + [0xDC00 + (x - 0x1_0000) % 1024];
    }

    /** `ToString`. */
    method ToString(off0: int) returns (s: Option<seq<unit>>)
      requires Valid()
      ensures s == ReadString(Contents(), off0)
    {
      hide Decode, Units;
      var off, sb: seq<unit> := off0, [];
      AfterNothing([], ReadString(Contents(), off0));
      while true
        invariant ReadString(Contents(), off0) == After(sb, ReadString(Contents(), off))
        decreases len - off
      {
        var r := DecodeUTF8(off);
        if r.None? {
          return None;
        }
        var x := r.value.0;
        off := r.value.1;
        if x == 0 {
          AfterNothing(sb, None);
          return Some(sb);
        }
        ghost var was := sb;
        sb := AppendUnits(sb, x);
        AfterUnits(was, x, ReadString(Contents(), off));
      }
    }
  }

  /** A string that was added to a block is found at the offset where the block ended, also after later additions,
      exactly when it is well-formed and has no U+0000. */
  lemma AddedStringIsFound(before: seq<byte>, s: seq<unit>, more: seq<byte>)
    ensures ReadString(before + GetBytes(s) + [0] + more, |before|) == Some(s) <==> WellFormed(s) && 0 !in s
  {
    var e := GetBytes(s) + [0];
    assert before + GetBytes(s) + [0] + more == before + e + more;
    OccursAtEnd(before, e);
    OccursAtExtend(before + e, |before|, e, more);
    StringRoundTrip(before + e + more, |before|, s);
  }

  /** Some integers and characters in bytes. */
  lemma ByteExamples()
    ensures BigEndian(0x0102_0304, 4) == [1, 2, 3, 4] && BigEndian(-2, 2) == [0xFF, 0xFE]
    ensures Utf8Of(0x7F) == [0x7F] && Utf8Of(0xE9) == [0xC3, 0xA9] && Utf8Of(0x20AC) == [0xE2, 0x82, 0xAC]
    ensures Utf8Of(0x1_F600) == [0xF0, 0x9F, 0x98, 0x80] && Combine(0xD83D, 0xDE00) == 0x1_F600
  {
  }
}
