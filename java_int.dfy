/**
  Java's 32-bit `int`, `Integer.parseInt(String)` in radix 10 and its inverse
  `Integer.toString(int)`.
 */
module JavaInt {
  import opened Wrappers

  const MinInt32: int := -0x8000_0000
  const MaxInt32: int := 0x7FFF_FFFF

  newtype int32 = x: int | -0x8000_0000 <= x <= 0x7FFF_FFFF

  predicate IsDigit(c: char) {
    '0' <= c <= '9'
  }

  predicate AllDigits(s: string) {
    forall k :: 0 <= k < |s| ==> IsDigit(s[k])
  }

  function DigitValue(c: char): nat
    requires IsDigit(c)
  {
    c as int - '0' as int
  }

  /** The value of a string of decimal digits, most significant first. */
  function DigitsValue(s: string): nat
    requires AllDigits(s)
    decreases |s|
  {
    if |s| == 0 then 0 else DigitsValue(s[..|s| - 1]) * 10 + DigitValue(s[|s| - 1])
  }

  /** `Integer.parseInt(s)`; `None` stands for a `NumberFormatException`.
      An optional `+` or `-`, then at least one digit, and the value must fit
      in 32 bits. */
  function ParseInt(s: string): (r: Option<int32>)
    ensures r.Some? ==> |s| > 0 && (s[0] == '-' || s[0] == '+' || IsDigit(s[0]))
    ensures r.Some? && s[0] == '-' ==> r.value <= 0
    ensures r.Some? && s[0] != '-' ==> r.value >= 0
  {
    if |s| == 0 then None
    else
      var signed := s[0] == '-' || s[0] == '+';
      var digits := if signed then s[1..] else s;
      if |digits| == 0 || !AllDigits(digits) then None
      else
        var magnitude: int := DigitsValue(digits);
        var v: int := if s[0] == '-' then -magnitude else magnitude;
        if MinInt32 <= v <= MaxInt32 then Some(v as int32) else None
  }

  /** The decimal digits of `n`, without leading zeros. */
  function Decimal(n: nat): (r: string)
    ensures |r| > 0 && AllDigits(r) && DigitsValue(r) == n
    ensures |r| > 1 ==> r[0] != '0'
    decreases n
  {
    var d := ['0' + ((n % 10) as char)];
    if n < 10 then d
    else
      var r := Decimal(n / 10) + d;
      assert r[..|r| - 1] == Decimal(n / 10);
      r
  }

  /** `Integer.toString(v)`. */
  function Render(v: int32): (r: string)
    ensures |r| > 0 && (r[0] == '-' <==> v < 0)
    ensures forall k :: 0 < k < |r| ==> IsDigit(r[k])
  {
    if v < 0 then "-" + Decimal(-(v as int)) else Decimal(v as int)
  }

  /** Parsing recovers every rendered 32-bit value. */
  lemma ParseRender(v: int32)
    ensures ParseInt(Render(v)) == Some(v)
  {
    var s := Render(v);
    if v < 0 {
      assert s[1..] == Decimal(-(v as int));
    } else {
      assert IsDigit(s[0]);
    }
  }

  /** Everyday and failure cases of `Integer.parseInt`. */
  lemma ParseIntCases()
    ensures ParseInt("250") == Some(250)
    ensures ParseInt("+42") == Some(42)
    ensures ParseInt("-0") == Some(0)
    ensures ParseInt("007") == Some(7)
    ensures ParseInt("") == None
    ensures ParseInt("+") == None
    ensures ParseInt("-") == None
    ensures ParseInt("abc") == None
    ensures ParseInt("12a") == None
    ensures ParseInt("+-1") == None
  {
    assert "250"[..2] == "25" && "25"[..1] == "2" && "2"[..0] == "";
    assert "+42"[1..] == "42" && "42"[..1] == "4" && "4"[..0] == "";
    assert "-0"[1..] == "0" && "0"[..0] == "";
    assert "007"[..2] == "00" && "00"[..1] == "0" && "0"[..0] == "";
    assert !IsDigit("12a"[2]);
    assert !IsDigit("+-1"[1..][0]);
  }

  lemma NineDigitValue()
    ensures DigitsValue("214748364") == 214748364
  {
    var p := "214748364";
    assert p[..8] == "21474836" && "21474836"[..7] == "2147483" && "2147483"[..6] == "214748";
    assert "214748"[..5] == "21474" && "21474"[..4] == "2147" && "2147"[..3] == "214";
    assert "214"[..2] == "21" && "21"[..1] == "2" && "2"[..0] == "";
  }

  /** The 32-bit range is enforced at both ends. */
  lemma ParseIntBounds()
    ensures ParseInt("2147483647") == Some(0x7FFF_FFFF)
    ensures ParseInt("-2147483648") == Some(-0x8000_0000)
    ensures ParseInt("2147483648") == None
    ensures ParseInt("-2147483649") == None
  {
    NineDigitValue();
    assert "2147483647"[..9] == "214748364" && "2147483648"[..9] == "214748364";
    assert "-2147483648"[1..] == "2147483648" && "-2147483649"[1..] == "2147483649";
    assert "2147483649"[..9] == "214748364";
  }
}
