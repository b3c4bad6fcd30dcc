/** Machine integers and the decimal texts the engine prints and parses. */
module Numbers {
  datatype Option<+T> = None | Some(value: T)

  const I64_MIN: int := -0x8000_0000_0000_0000
  const I64_MAX: int := 0x7fff_ffff_ffff_ffff
  const TWO_64: int := 0x1_0000_0000_0000_0000

  type I64 = x: int | I64_MIN <= x <= I64_MAX

  type Byte = x: int | 0 <= x < 256

  /** Two's complement wrap-around: the only `I64` congruent to `x` modulo 2^64. */
  function Wrap(x: int): (r: I64)
    ensures (r - x) % TWO_64 == 0
    ensures I64_MIN <= x <= I64_MAX ==> r == x
  {
    (x - I64_MIN) % TWO_64 + I64_MIN
  }

  function Abs(x: int): nat {
    if x < 0 then -x else x
  }

  // ----- Decimal texts -----

  function DigitChar(d: nat): char
    requires d < 10
  {
    '0' + d as char
  }

  function Digits(n: nat): (s: string)
    ensures s != ""
    ensures forall i :: 0 <= i < |s| ==> '0' <= s[i] <= '9'
  {
    if n < 10 then [DigitChar(n)] else Digits(n / 10) + [DigitChar(n % 10)]
  }

  /** What Rust's `Display` prints for an `i64`. */
  function IntText(n: int): (s: string)
    ensures s != ""
    ensures forall i :: 0 <= i < |s| ==> s[i] == '-' || '0' <= s[i] <= '9'
  {
    if n < 0 then "-" + Digits(-n) else Digits(n)
  }

  function DigitsValue(s: string): Option<nat> {
    if s == "" then Some(0)
    else
      var c := s[|s| - 1];
      match DigitsValue(s[..|s| - 1])
      case None => None
      case Some(v) => if '0' <= c <= '9' then Some(10 * v + (c - '0') as int) else None
  }

  /** `str::parse::<i64>`: an optional sign, at least one digit, and a value that fits. */
  function ParseI64(s: string): (r: Option<I64>) {
    var signed := s != "" && (s[0] == '-' || s[0] == '+');
    var digits := if signed then s[1..] else s;
    if digits == "" then None
    else
      match DigitsValue(digits)
      case None => None
      case Some(v) =>
        var n: int := if signed && s[0] == '-' then 0 - v else v;
        if I64_MIN <= n <= I64_MAX then Some(n) else None
  }

  lemma {:induction false} DigitsValueOfDigits(n: nat)
    ensures DigitsValue(Digits(n)) == Some(n)
  {
    var s := Digits(n);
    if n < 10 {
      assert s[..|s| - 1] == "";
    } else {
      DigitsValueOfDigits(n / 10);
      assert s[..|s| - 1] == Digits(n / 10);
    }
  }

  /** Printing and parsing an `i64` is the identity. */
  lemma ParseIntText(n: I64)
    ensures ParseI64(IntText(n)) == Some(n)
  {
    var digits := Digits(Abs(n));
    DigitsValueOfDigits(Abs(n));
    if n < 0 {
      assert IntText(n) == "-" + digits;
      assert IntText(n)[1..] == digits;
    } else {
      assert IntText(n) == digits && '0' <= digits[0];
    }
  }

  lemma IntTextInjective(a: I64, b: I64)
    ensures IntText(a) == IntText(b) <==> a == b
  {
    ParseIntText(a);
    ParseIntText(b);
  }

  function Pow10(k: nat): (p: nat)
    ensures p > 0
  {
    if k == 0 then 1 else 10 * Pow10(k - 1)
  }

  lemma {:induction false} DigitsLength(n: nat, k: nat)
    requires 0 < k && n < Pow10(k)
    ensures |Digits(n)| <= k
  {
    if n >= 10 {
      assert Pow10(0) == 1;
      DigitsLength(n / 10, k - 1);
    }
  }

  /** Every `i64` prints in at most 20 characters. */
  lemma IntTextLength(n: I64)
    ensures 1 <= |IntText(n)| <= 20
  {
    assert Pow10(19) == 10000000000000000000 by {
      assert Pow10(5) == 100000;
      assert Pow10(10) == 10000000000;
      assert Pow10(15) == 1000000000000000;
    }
    DigitsLength(Abs(n), 19);
  }
}
