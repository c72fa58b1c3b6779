/** The few pieces of the Java library the core relies on for text:
    `Integer.toString` (and `%d`), `Integer.decode` on the strings the regexes
    `\d+` and `-?\d+` accept, 32-bit integer bounds, and `Character.toUpperCase`
    on ASCII letters. */
module JavaText {
  import opened Wrappers

  const MinInt: int := -0x8000_0000
  const MaxInt: int := 0x7fff_ffff

  predicate IsInt32(n: int) {
    MinInt <= n <= MaxInt
  }

  /** 32-bit two's-complement wrap-around of an arbitrary integer. */
  function Wrap32(n: int): (r: int)
    ensures IsInt32(r)
    ensures IsInt32(n) ==> r == n
  {
    var m := (n - MinInt) % 0x1_0000_0000;
    m + MinInt
  }

  predicate IsDigit(c: char) {
    '0' <= c <= '9'
  }

  /** The regex `\d+` (Java's `\d` is the ASCII digits). */
  predicate IsDigits(s: string) {
    |s| > 0 && forall k :: 0 <= k < |s| ==> IsDigit(s[k])
  }

  /** The regex `-?\d+`. */
  predicate IsSignedDigits(s: string) {
    IsDigits(s) || (|s| > 1 && s[0] == '-' && IsDigits(s[1..]))
  }

  function DigitChar(d: nat): (c: char)
    requires d < 10
    ensures IsDigit(c)
  {
    "0123456789"[d]
  }

  function DigitValue(c: char): (d: nat)
    requires IsDigit(c)
    ensures d < 10 && DigitChar(d) == c
  {
    c as int - '0' as int
  }

  /** Decimal digits of a natural number, no leading zero (Integer.toString). */
  function NatToDecimal(n: nat): (s: string)
    ensures IsDigits(s)
    ensures s[0] == '0' ==> n == 0
    ensures n >= 10 ==> |s| > 1
    decreases n
  {
    if n < 10 then [DigitChar(n)] else NatToDecimal(n / 10) + [DigitChar(n % 10)]
  }

  /** Integer.toString(n), which is also what `%d` prints. */
  function ToDecimal(n: int): (s: string)
    ensures IsSignedDigits(s)
    ensures s[0] == '-' <==> n < 0
  {
    if n < 0 then "-" + NatToDecimal(-n) else NatToDecimal(n)
  }

  /** Value of a digit string in the given radix (Integer.parseInt without sign). */
  function DigitsValue(s: string, radix: nat): nat
    requires forall k :: 0 <= k < |s| ==> IsDigit(s[k])
    decreases |s|
  {
    if s == [] then 0 else DigitsValue(s[..|s| - 1], radix) * radix + DigitValue(s[|s| - 1])
  }

  /** Every digit of `s` is a digit of the radix. */
  predicate DigitsBelow(s: string, radix: nat)
    requires forall k :: 0 <= k < |s| ==> IsDigit(s[k])
  {
    forall k :: 0 <= k < |s| ==> DigitValue(s[k]) < radix
  }

  /** Integer.decode after the sign: a leading `0` followed by more digits
      selects octal, otherwise decimal. None models the NumberFormatException
      thrown for a digit that is not octal or for a value outside the 32-bit
      range. */
  function DecodeMagnitude(body: string, negative: bool): (r: Option<int>)
    requires IsDigits(body)
    ensures r.Some? ==> IsInt32(r.value)
  {
    if |body| > 1 && body[0] == '0' then
      if DigitsBelow(body[1..], 8) then Signed(DigitsValue(body[1..], 8), negative) else None
    else Signed(DigitsValue(body, 10), negative)
  }

  /** The magnitude with its sign, if it is a 32-bit value. */
  function Signed(magnitude: nat, negative: bool): (r: Option<int>)
    ensures r.Some? ==> IsInt32(r.value) && (if negative then r.value == -(magnitude as int) else r.value == magnitude)
    ensures r.None? ==> if negative then magnitude > -MinInt else magnitude > MaxInt
  {
    var v: int := if negative then -(magnitude as int) else magnitude;
    if IsInt32(v) then Some(v) else None
  }

  /** Integer.decode on a string of the form `-?\d+`: an optional minus sign,
      then the magnitude. */
  function Decode(s: string): (r: Option<int>)
    requires IsSignedDigits(s)
    ensures r.Some? ==> IsInt32(r.value)
  {
    if s[0] == '-' then DecodeMagnitude(s[1..], true) else DecodeMagnitude(s, false)
  }

  /** Reading back the digits of NatToDecimal gives the number. */
  lemma {:induction false} NatToDecimalValue(n: nat)
    ensures IsDigits(NatToDecimal(n))
    ensures DigitsValue(NatToDecimal(n), 10) == n
    decreases n
  {
    if n >= 10 {
      NatToDecimalValue(n / 10);
      var s := NatToDecimal(n);
      assert s[..|s| - 1] == NatToDecimal(n / 10);
    } else {
      assert NatToDecimal(n)[..0] == [];
    }
  }

  /** Decoding a digit string without a leading zero reads it in decimal,
      with or without a minus sign in front. */
  lemma DecodeDecimalBody(body: string)
    requires IsDigits(body) && !(|body| > 1 && body[0] == '0')
    ensures IsSignedDigits(body) && IsSignedDigits("-" + body)
    ensures var v: int := DigitsValue(body, 10);
            Decode(body) == (if IsInt32(v) then Some(v) else None) &&
            Decode("-" + body) == (if IsInt32(-v) then Some(-v) else None)
  {
    var signed := "-" + body;
    assert signed[0] == '-' && signed[1..] == body;
    assert body[0] != '-' && !IsDigit(signed[0]);
    DecodeMagnitudeDecimal(body, false);
    DecodeMagnitudeDecimal(body, true);
  }

  lemma DecodeMagnitudeDecimal(body: string, negative: bool)
    requires IsDigits(body) && !(|body| > 1 && body[0] == '0')
    ensures var v: int := if negative then -(DigitsValue(body, 10) as int) else DigitsValue(body, 10);
            DecodeMagnitude(body, negative) == if IsInt32(v) then Some(v) else None
  {
  }

  /** Integer.decode(Integer.toString(n)) == n for every 32-bit n: toString never
      produces a leading zero that decode would read as octal. */
  lemma DecodeToDecimal(n: int)
    requires IsInt32(n)
    ensures IsSignedDigits(ToDecimal(n))
    ensures Decode(ToDecimal(n)) == Some(n)
  {
    var m: nat := if n < 0 then -n else n;
    NatToDecimalValue(m);
    DecodeDecimalBody(NatToDecimal(m));
  }

  /** Integer.toString is injective, so decimal ids never collide. */
  lemma ToDecimalInjective(a: int, b: int)
    requires IsInt32(a) && IsInt32(b) && ToDecimal(a) == ToDecimal(b)
    ensures a == b
  {
    DecodeToDecimal(a);
    DecodeToDecimal(b);
  }

  /** Natural-number ids (of any size) are distinct when the numbers are. */
  lemma {:induction false} NatToDecimalInjective(a: nat, b: nat)
    ensures NatToDecimal(a) == NatToDecimal(b) <==> a == b
  {
    NatToDecimalValue(a);
    NatToDecimalValue(b);
  }

  /** Integer.decode reads a leading 0 as octal, and throws on a digit 8 or 9 after it. */
  lemma DecodeOctalExamples()
    ensures Decode("010") == Some(8)
    ensures Decode("-010") == Some(-8)
    ensures Decode("09") == None
  {
    assert "-010"[1..] == "010";
    assert "010"[1..] == "10" && "10"[..1] == "1" && "1"[..0] == "";
    assert "09"[1..] == "9";
  }

  /** Plain decimal readings, with and without the sign. */
  lemma DecodeDecimalExamples()
    ensures Decode("0") == Some(0)
    ensures Decode("-0") == Some(0)
    ensures Decode("-12") == Some(-12)
  {
    assert "-0"[1..] == "0";
    assert "0"[..0] == "";
    assert "-12"[1..] == "12" && "12"[..1] == "1" && "1"[..0] == "";
  }

  lemma DigitsValueOfTwoToThe31()
    ensures IsDigits("2147483648") && DigitsValue("2147483648", 10) == 2147483648
  {
    var big := "2147483648";
    assert DigitsValue(big[..0], 10) == 0 by { assert big[..0] == ""; }
    assert DigitsValue(big[..1], 10) == 2 by { assert big[..1][..0] == big[..0]; }
    assert DigitsValue(big[..2], 10) == 21 by { assert big[..2][..1] == big[..1]; }
    assert DigitsValue(big[..3], 10) == 214 by { assert big[..3][..2] == big[..2]; }
    assert DigitsValue(big[..4], 10) == 2147 by { assert big[..4][..3] == big[..3]; }
    assert DigitsValue(big[..5], 10) == 21474 by { assert big[..5][..4] == big[..4]; }
    assert DigitsValue(big[..6], 10) == 214748 by { assert big[..6][..5] == big[..5]; }
    assert DigitsValue(big[..7], 10) == 2147483 by { assert big[..7][..6] == big[..6]; }
    assert DigitsValue(big[..8], 10) == 21474836 by { assert big[..8][..7] == big[..7]; }
    assert DigitsValue(big[..9], 10) == 214748364 by { assert big[..9][..8] == big[..8]; }
    assert big[..10] == big;
  }

  /** The 32-bit range is enforced in both directions: 2147483648 throws, its
      negation is Integer.MIN_VALUE. */
  lemma DecodeRangeExamples()
    ensures Decode("2147483648") == None
    ensures Decode("-2147483648") == Some(MinInt)
  {
    DigitsValueOfTwoToThe31();
    DecodeDecimalBody("2147483648");
  }

  /** Character.toUpperCase, on ASCII letters; every other character is kept
      (Java's `Character.toUpperCase` also maps non-ASCII letters). */
  function UpperCase(c: char): (u: char)
    ensures 'a' <= c <= 'z' ==> 'A' <= u <= 'Z' && u as int == c as int - 32
    ensures !('a' <= c <= 'z') ==> u == c
  {
    if 'a' <= c <= 'z' then (c as int - 32) as char else c
  }

  /** `String.indexOf(c)`: the first position of `c`, or -1. */
  function IndexOf(s: string, c: char): (r: int)
    ensures -1 <= r < |s|
    ensures r >= 0 ==> s[r] == c && c !in s[..r]
    ensures r == -1 <==> c !in s
    decreases |s|
  {
    if s == [] then -1
    else if s[0] == c then 0
    else
      var t := IndexOf(s[1..], c);
      if t == -1 then -1 else t + 1
  }

  /** The first occurrence of `c` is where `IndexOf` finds it. */
  lemma {:induction false} IndexOfFirst(s: string, c: char, k: nat)
    requires k < |s| && s[k] == c && c !in s[..k]
    ensures IndexOf(s, c) == k
    decreases k
  {
    if k > 0 {
      assert s[0] == s[..k][0];
      assert s[1..][..k - 1] == s[..k][1..];
      IndexOfFirst(s[1..], c, k - 1);
    }
  }
}
