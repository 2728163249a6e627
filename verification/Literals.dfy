/** Integer literals (T0Comp.cs, lines 1364-1375 and 2043-2083): a loop with wrapping arithmetic, proved against
    numbers. */
module Literals {
  import opened Base

  /** NotNumber is a token that is not an integer; TooLarge is the exception for an overflow. */
  datatype Literal = NotNumber | TooLarge | Number(value: int32)

  const MAX_UINT: uint32 := 0xFFFF_FFFF

  /** The value of a hexadecimal digit, -1 for another character. */
  function HexVal(c: char): (d: int)
    ensures -1 <= d < 16
  {
    if '0' <= c <= '9' then c as int - '0' as int
    else if 'A' <= c <= 'F' then c as int - 'A' as int + 10
    else if 'a' <= c <= 'f' then c as int - 'a' as int + 10
    else -1
  }

  /** The radix of a literal. */
  type radix = r: int | r == 2 || r == 10 || r == 16 witness 10

  predicate IsDigit(r: radix, c: char) {
    0 <= HexVal(c) < r
  }

  predicate IsNumeral(r: radix, digits: string) {
    digits != "" && forall i | 0 <= i < |digits| :: IsDigit(r, digits[i])
  }

  /** The number that digits stand for. */
  function Value(r: radix, digits: string): nat
    requires forall i | 0 <= i < |digits| :: IsDigit(r, digits[i])
  {
    if digits == "" then 0
    else
      var n := |digits| - 1;
      assert IsDigit(r, digits[n]);
      Times(Value(r, digits[..n]), r) + HexVal(digits[n])
  }

  function Times(v: nat, r: radix): (t: nat)
    ensures t == v * r
  {
    if r == 2 then v * 2 else if r == 10 then v * 10 else v * 16
  }

  predicate HasSign(tt: string) {
    tt != "" && (tt[0] == '-' || tt[0] == '+')
  }

  /** The token without its sign. */
  function Unsigned(tt: string): string {
    if HasSign(tt) then tt[1..] else tt
  }

  function Radix(tt: string): radix {
    if |tt| < 2 || tt[0] != '0' then 10
    else if tt[1] == 'x' || tt[1] == 'X' then 16
    else if tt[1] == 'b' || tt[1] == 'B' then 2
    else 10
  }

  function Digits(tt: string): string {
    if Radix(tt) == 10 then tt else tt[2..]
  }

  /** What a token means: a number that fits in 32 bits, or whose opposite is at least -2^31, stands for its low 32
      bits. */
  function Meaning(tt: string): Literal {
    var body := Unsigned(tt);
    var neg := tt != "" && tt[0] == '-';
    if !IsNumeral(Radix(body), Digits(body)) then NotNumber
    else
      var v: int := Value(Radix(body), Digits(body));
      if v > MAX_UINT || (neg && v > 0x8000_0000) then TooLarge
      else Number(ToS32(ToU32(if neg then -v else v)))
  }

  /** One round of the loop: overflow is detected although the arithmetic wraps around. */
  lemma Accumulate(v: nat, r: radix, d: nat)
    requires d < r
    ensures var acc: uint32 := v % 0x1_0000_0000;
            var scaled: uint32 := Times(acc, r) % 0x1_0000_0000;
            && (scaled + d) % 0x1_0000_0000 == (Times(v, r) + d) % 0x1_0000_0000
            && (Times(v, r) + d > MAX_UINT <==> v > MAX_UINT || acc > MAX_UINT / r || d > MAX_UINT - scaled)
  {
    ScaledLow(v, r, d);
    if v <= MAX_UINT {
      ScaledFits(v, r, d);
    }
  }

  /** The low 32 bits are right whether or not the arithmetic wraps around. */
  lemma ScaledLow(v: nat, r: radix, d: nat)
    requires d < r
    ensures (Times(v % 0x1_0000_0000, r) % 0x1_0000_0000 + d) % 0x1_0000_0000 == (Times(v, r) + d) % 0x1_0000_0000
  {
    var q, acc := v / 0x1_0000_0000, v % 0x1_0000_0000;
    ModAdd(Times(acc, r), d);
    if r == 2 {
      ModShift(acc * 2 + d, q * 2);
    } else if r == 10 {
      ModShift(acc * 10 + d, q * 10);
    } else {
      ModShift(acc * 16 + d, q * 16);
    }
  }

  lemma ScaledFits(acc: uint32, r: radix, d: nat)
    requires d < r
    ensures acc % 0x1_0000_0000 == acc
    ensures Times(acc, r) + d > MAX_UINT <==> acc > MAX_UINT / r || d > MAX_UINT - Times(acc, r) % 0x1_0000_0000
  {
    hide Times;
    if acc <= MAX_UINT / r {
      if r == 2 {
      } else if r == 10 {
      } else {
      }
    }
  }

  lemma ModShift(a: int, k: int)
    ensures (a + k * 0x1_0000_0000) % 0x1_0000_0000 == a % 0x1_0000_0000
  {
  }

  lemma ModAdd(a: int, d: int)
    ensures (a % 0x1_0000_0000 + d) % 0x1_0000_0000 == (a + d) % 0x1_0000_0000
  {
  }

  lemma EmptyValue(r: radix)
    ensures Value(r, "") == 0
  {
  }

  lemma ValueStep(r: radix, digits: string, i: nat)
    requires i < |digits| && forall j | 0 <= j <= i :: IsDigit(r, digits[j])
    ensures Value(r, digits[..i + 1]) == Times(Value(r, digits[..i]), r) + HexVal(digits[i])
  {
    assert digits[..i + 1][..i] == digits[..i];
  }

  /** The loop over the digits; None for a character that is not a digit. */
  method ParseDigits(r: radix, digits: string) returns (res: Option<(uint32, bool)>)
    requires digits != ""
    ensures res.Some? <==> IsNumeral(r, digits)
    ensures res.Some? ==>
            res.value.0 == Value(r, digits) % 0x1_0000_0000 && (res.value.1 <==> Value(r, digits) > MAX_UINT)
  {
    hide Times, HexVal, Value;
    EmptyValue(r);
    var acc: uint32, overflow := 0, false;
    var maxV: uint32 := MAX_UINT / r;
    for i := 0 to |digits|
      invariant forall j | 0 <= j < i :: IsDigit(r, digits[j])
      invariant acc == Value(r, digits[..i]) % 0x1_0000_0000
      invariant overflow <==> Value(r, digits[..i]) > MAX_UINT
    {
      var d := HexVal(digits[i]);
      if d < 0 || d >= r {
        assert !IsDigit(r, digits[i]);
        return None;
      }
      ValueStep(r, digits, i);
      Accumulate(Value(r, digits[..i]), r, d);
      if acc > maxV {
        overflow := true;
      }
      acc := Times(acc, r) % 0x1_0000_0000;
      if d > MAX_UINT - acc {
        overflow := true;
      }
      acc := (acc + d) % 0x1_0000_0000;
    }
    assert digits[..|digits|] == digits;
    return Some((acc, overflow));
  }

  /** `TryParseLiteral` for integers. */
  method TryParseLiteral(tt0: string) returns (l: Literal)
    ensures l == Meaning(tt0)
  {
    hide Value, IsNumeral;
    var tt, neg := tt0, false;
    if tt != "" && tt[0] == '-' {
      neg, tt := true, tt[1..];
    } else if tt != "" && tt[0] == '+' {
      tt := tt[1..];
    }
    var r: radix := 10;
    ghost var body := tt;
    if |tt| >= 2 && tt[0] == '0' && (tt[1] == 'x' || tt[1] == 'X') {
      r, tt := 16, tt[2..];
    } else if |tt| >= 2 && tt[0] == '0' && (tt[1] == 'b' || tt[1] == 'B') {
      r, tt := 2, tt[2..];
    }
    assert body == Unsigned(tt0) && r == Radix(body) && tt == Digits(body);
    if tt == "" {
      EmptyNumeral(r);
      return NotNumber;
    }
    var res := ParseDigits(r, tt);
    if res.None? {
      return NotNumber;
    }
    var (acc, overflow) := res.value;
    var x: int32 := ToS32(acc);
    if neg {
      if acc > 0x8000_0000 {
        overflow := true;
      }
      x := ToS32(ToU32(-(x as int)));
    }
    if overflow {
      return TooLarge;
    }
    return Number(x);
  }

  lemma EmptyNumeral(r: radix)
    ensures !IsNumeral(r, "")
  {
  }

  // ----- every number can be written -----

  function Digit(d: nat): (c: char)
    requires d < 16
    ensures HexVal(c) == d
  {
    if d < 10 then '0' + d as char else 'a' + (d - 10) as char
  }

  function Quotient(v: nat, r: radix): (q: nat)
    ensures Times(q, r) <= v < Times(q, r) + r
    ensures v >= r ==> 0 < q < v
  {
    if r == 2 then v / 2 else if r == 10 then v / 10 else v / 16
  }

  /** The digits of a number, without leading zeros. */
  function Numeral(r: radix, v: nat): string {
    if v < r then [Digit(v)]
    else Numeral(r, Quotient(v, r)) + [Digit(v - Times(Quotient(v, r), r))]
  }

  lemma {:induction false} NumeralValue(r: radix, v: nat)
    ensures IsNumeral(r, Numeral(r, v)) && Value(r, Numeral(r, v)) == v
    decreases v
  {
    hide Times, HexVal;
    if v < r {
      assert Numeral(r, v)[..0] == "";
      ZeroTimes(r);
    } else {
      var head := Numeral(r, Quotient(v, r));
      NumeralValue(r, Quotient(v, r));
      assert Numeral(r, v)[..|head|] == head;
    }
  }

  lemma ZeroTimes(r: radix)
    ensures Times(0, r) == 0
  {
  }

  function Prefix(r: radix): string {
    if r == 16 then "0x" else if r == 2 then "0b" else ""
  }

  /** Every 32-bit value can be written as a signed literal in each radix, and every unsigned one without a sign. */
  lemma WrittenLiteralsParse(r: radix, v: int)
    requires -0x8000_0000 <= v <= MAX_UINT
    ensures Meaning(if v < 0 then "-" + Prefix(r) + Numeral(r, -v) else Prefix(r) + Numeral(r, v)) ==
            Number(ToS32(ToU32(v)))
  {
    hide Value, IsNumeral;
    var digits := Numeral(r, if v < 0 then -v else v);
    FirstDigit(r, if v < 0 then -v else v);
    NumeralValue(r, if v < 0 then -v else v);
    var body := Prefix(r) + digits;
    var tt := if v < 0 then "-" + body else body;
    assert Unsigned(tt) == body;
    assert Radix(body) == r && Digits(body) == digits;
  }

  /** A decimal numeral has no sign, and cannot be taken for a prefix. */
  lemma {:induction false} FirstDigit(r: radix, v: nat)
    ensures var s := Numeral(r, v);
            s != "" && s[0] != '-' && s[0] != '+' && (v > 0 ==> HexVal(s[0]) > 0) && (v == 0 ==> |s| == 1)
    decreases v
  {
    if v >= r {
      FirstDigit(r, Quotient(v, r));
    }
  }

  // ----- what a token means, from its characters -----

  const SMALL_DIGITS := "0123456789abcdef"
  const CAPITAL_DIGITS := "0123456789ABCDEF"

  /** The value of a digit is its position among the digits, small or capital; other characters are no digits. */
  lemma DigitValues(c: char)
    ensures forall d | 0 <= d < 16 :: HexVal(SMALL_DIGITS[d]) == d && HexVal(CAPITAL_DIGITS[d]) == d
    ensures HexVal(c) == -1 <==> c !in SMALL_DIGITS && c !in CAPITAL_DIGITS
  {
    if 0 <= HexVal(c) {
      assert c == SMALL_DIGITS[HexVal(c)] || c == CAPITAL_DIGITS[HexVal(c)];
    }
  }

  predicate PrefixOf(prefix: string, r: radix) {
    if r == 16 then prefix == "0x" || prefix == "0X"
    else if r == 2 then prefix == "0b" || prefix == "0B"
    else prefix == ""
  }

  /** A sign, if there is one, the prefix of a radix, and digits. */
  predicate Written(tt: string, sign: string, prefix: string, r: radix, digits: string) {
    && (sign == "" || sign == "-" || sign == "+") && PrefixOf(prefix, r) && IsNumeral(r, digits)
    && tt == sign + (prefix + digits)
  }

  /** The low 32 bits of a number or of its opposite, unless it is too large. */
  function Low(v: int, neg: bool): Literal {
    if v > MAX_UINT || (neg && v > 0x8000_0000) then TooLarge else Number(ToS32(ToU32(if neg then -v else v)))
  }

  /** A token is a number exactly when it is written like that, in either case, and then it means that number. */
  lemma MeaningExactly(tt: string)
    ensures !Meaning(tt).NotNumber? <==> exists sign, prefix, r, digits :: Written(tt, sign, prefix, r, digits)
    ensures forall sign, prefix, r, digits | Written(tt, sign, prefix, r, digits) ::
              Meaning(tt) == Low(Value(r, digits), sign == "-")
  {
    hide Value;
    if !Meaning(tt).NotNumber? {
      var body := Unsigned(tt);
      var prefix := body[..|body| - |Digits(body)|];
      assert Written(tt, tt[..|tt| - |body|], prefix, Radix(body), Digits(body));
    }
    forall sign, prefix, r, digits | Written(tt, sign, prefix, r, digits)
      ensures Unsigned(tt) == prefix + digits && (sign == "-" <==> tt[0] == '-')
      ensures Radix(prefix + digits) == r && Digits(prefix + digits) == digits
    {
      WrittenParts(tt, sign, prefix, r, digits);
    }
  }

  lemma WrittenParts(tt: string, sign: string, prefix: string, r: radix, digits: string)
    requires Written(tt, sign, prefix, r, digits)
    ensures Unsigned(tt) == prefix + digits && tt != "" && (sign == "-" <==> tt[0] == '-')
    ensures Radix(prefix + digits) == r && Digits(prefix + digits) == digits
  {
    var body := prefix + digits;
    assert IsDigit(r, digits[0]);
    assert |digits| > 1 ==> IsDigit(r, digits[1]);
    assert body[0] == if r == 10 then digits[0] else '0';
    assert sign != "" ==> tt[0] == sign[0] && tt[1..] == body;
    assert sign == "" ==> tt == body;
    assert r != 10 ==> body[1] == prefix[1] && body[2..] == digits;
    assert r == 10 ==> body == digits;
  }
}
