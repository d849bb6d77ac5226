/** Hexadecimal text of bigints, as issued in challenges and parsed back by clients. */
module Hex {
  import opened BigInt

  predicate IsUpperHexDigit(c: char) {
    '0' <= c <= '9' || 'A' <= c <= 'F'
  }

  predicate IsHexDigit(c: char) {
    IsUpperHexDigit(c) || 'a' <= c <= 'f'
  }

  /** The pattern `^[0-9a-fA-F]+$`. */
  predicate IsHexString(s: string) {
    s != "" && forall i :: 0 <= i < |s| ==> IsHexDigit(s[i])
  }

  predicate IsUpperHexString(s: string) {
    s != "" && forall i :: 0 <= i < |s| ==> IsUpperHexDigit(s[i])
  }

  function DigitValue(c: char): int
    requires IsHexDigit(c)
  {
    if '0' <= c <= '9' then c as int - '0' as int
    else if 'A' <= c <= 'F' then c as int - 'A' as int + 10
    else c as int - 'a' as int + 10
  }

  function Digit(n: int): char
    requires 0 <= n < 16
  {
    if n < 10 then (n + '0' as int) as char else (n - 10 + 'A' as int) as char
  }

  /** `BigInt("0x" + s)`. */
  function Parse(s: string): int
    requires IsHexString(s)
  {
    if |s| == 1 then DigitValue(s[0])
    else Parse(s[..|s| - 1]) * 16 + DigitValue(s[|s| - 1])
  }

  /** `n.toString(16).toUpperCase()`. */
  function Digits(n: int): string
    decreases if n < 0 then 1 else 0, n
  {
    if n < 0 then "-" + Digits(-n)
    else if n < 16 then [Digit(n)]
    else Digits(n / 16) + [Digit(n % 16)]
  }

  function Zeros(n: nat): string {
    seq(n, _ => '0')
  }

  const WIDTH := 64

  function Padded(s: string): string {
    if |s| < WIDTH then Zeros(WIDTH - |s|) + s else s
  }

  function Print(n: int): string {
    Padded(Digits(n))
  }

  lemma OneMoreZero(k: nat, s: string)
    ensures "0" + (Zeros(k) + s) == Zeros(k + 1) + s
  {
    assert "0" + Zeros(k) == Zeros(k + 1);
    assert "0" + (Zeros(k) + s) == "0" + Zeros(k) + s;
  }

  lemma {:induction false} DigitsParse(n: int)
    requires n >= 0
    ensures IsUpperHexString(Digits(n)) && IsHexString(Digits(n)) && Parse(Digits(n)) == n
  {
    if n >= 16 {
      DigitsParse(n / 16);
      assert Digits(n)[..|Digits(n)| - 1] == Digits(n / 16);
    }
  }

  lemma {:induction false} LeadingZeros(k: nat, s: string)
    requires IsHexString(s)
    ensures IsHexString(Zeros(k) + s) && Parse(Zeros(k) + s) == Parse(s)
  {
    if |s| > 1 {
      var init := s[..|s| - 1];
      LeadingZeros(k, init);
      assert Zeros(k) + s == Zeros(k) + init + [s[|s| - 1]];
      assert (Zeros(k) + s)[..k + |s| - 1] == Zeros(k) + init;
    } else if k > 0 {
      LeadingZeros(k - 1, "0");
      assert Zeros(k - 1) + "0" == Zeros(k);
      assert (Zeros(k) + s)[..k] == Zeros(k);
    } else {
      assert Zeros(k) + s == s;
    }
  }

  /** The number of digits is the least that can hold the value. */
  lemma {:induction false} DigitsLength(n: int, k: nat)
    requires n >= 0 && k >= 1
    ensures |Digits(n)| <= k <==> n < Pow(16, k)
  {
    assert Pow(16, k) == 16 * Pow(16, k - 1);
    PowPositive(16, k - 1);
    if n >= 16 {
      if k == 1 {
        assert Pow(16, 0) == 1;
        DigitsParse(n / 16);
      } else {
        DigitsLength(n / 16, k - 1);
      }
    }
  }

  /**
   Printing and parsing are inverse on every non-negative value, and the text has exactly
   64 digits if and only if the value fits in 256 bits.
   */
  lemma PrintThenParse(n: int)
    requires n >= 0
    ensures IsUpperHexString(Print(n)) && IsHexString(Print(n)) && Parse(Print(n)) == n
    ensures |Print(n)| == WIDTH <==> n < Pow(16, WIDTH)
  {
    DigitsParse(n);
    DigitsLength(n, WIDTH);
    if |Digits(n)| < WIDTH {
      LeadingZeros(WIDTH - |Digits(n)|, Digits(n));
    }
  }

  method BigIntToHexString(n: int) returns (hex: string)
    ensures hex == Print(n)
    ensures n >= 0 ==> IsUpperHexString(hex) && IsHexString(hex) && Parse(hex) == n
    ensures n < 0 ==> exists k: nat :: hex == Zeros(k) + "-" + Digits(-n)
    ensures |hex| >= 64 && (0 <= n < Pow(16, 64) ==> |hex| == 64)
  {
    hex := Digits(n);
    ghost var digits := hex;
    var pad := |hex|;
    while pad < WIDTH
      invariant |digits| <= pad
      invariant pad <= WIDTH || pad == |digits|
      invariant hex == Zeros(pad - |digits|) + digits
    {
      OneMoreZero(pad - |digits|, digits);
      hex := "0" + hex;
      pad := pad + 1;
    }
    if n >= 0 {
      PrintThenParse(n);
    } else {
      assert Zeros(pad - |digits|) + ("-" + Digits(-n)) == Zeros(pad - |digits|) + "-" + Digits(-n);
    }
  }

  lemma {:induction false} ParseBounds(s: string)
    requires IsHexString(s)
    ensures 0 <= Parse(s) < Pow(16, |s|)
  {
    if |s| > 1 {
      ParseBounds(s[..|s| - 1]);
    } else {
      assert Pow(16, 1) == 16 * Pow(16, 0);
    }
  }

  /** A negative value prints a minus sign, which no client can parse as hexadecimal. */
  lemma PrintIsHexIffNonNegative(n: int)
    ensures IsHexString(Print(n)) <==> n >= 0
  {
    if n >= 0 {
      PrintThenParse(n);
    } else {
      var at := if |Digits(n)| < WIDTH then WIDTH - |Digits(n)| else 0;
      assert Print(n)[at] == '-';
    }
  }

  lemma {:induction false} ParseInjective(s: string, t: string)
    requires IsUpperHexString(s) && IsUpperHexString(t) && IsHexString(s) && IsHexString(t)
    requires |s| == |t| && Parse(s) == Parse(t)
    ensures s == t
  {
    var n := |s| - 1;
    if n > 0 {
      ParseInjective(s[..n], t[..n]);
      assert s == s[..n] + [s[n]] && t == t[..n] + [t[n]];
    }
  }

  /** The other way round: a 64-digit upper-case text is what its value prints as. */
  lemma ParseThenPrint(s: string)
    requires IsUpperHexString(s) && IsHexString(s) && |s| == WIDTH
    ensures Print(Parse(s)) == s
  {
    ParseBounds(s);
    PrintThenParse(Parse(s));
    ParseInjective(s, Print(Parse(s)));
  }

  // ---------------------------------------------------------------- what a text stands for

  /** The sixteen digits, in either case. */
  lemma DigitValues(i: nat)
    requires i < 16
    ensures var lower, upper := "0123456789abcdef"[i], "0123456789ABCDEF"[i];
            IsHexDigit(lower) && IsHexDigit(upper) && IsUpperHexDigit(upper)
            && DigitValue(lower) == DigitValue(upper) == i && Digit(i) == upper
  {
  }

  /** There are no others. */
  lemma OnlyDigits(c: char)
    requires IsHexDigit(c)
    ensures DigitValue(c) < 16
    ensures c == "0123456789abcdef"[DigitValue(c)] || c == "0123456789ABCDEF"[DigitValue(c)]
  {
  }

  lemma HexAppend(s: string, t: string)
    requires IsHexString(s) && IsHexString(t)
    ensures IsHexString(s + t)
  {
  }

  /** One more digit. */
  lemma ParseAppend(s: string, c: char)
    requires IsHexString(s) && IsHexDigit(c)
    ensures IsHexString(s + [c]) && Parse(s + [c]) == Parse(s) * 16 + DigitValue(c)
  {
    assert (s + [c])[..|s|] == s;
  }

  lemma PlacesShift(p: int, w: int, q: int, d: int)
    ensures (p * w + q) * 16 + d == p * (16 * w) + (q * 16 + d)
  {
    assert p * (16 * w) == p * w * 16;
  }

  /** The more significant part comes first, and is worth 16 times more with every digit after it. */
  lemma {:induction false} ParsePlaces(s: string, t: string)
    requires IsHexString(s) && IsHexString(t)
    ensures IsHexString(s + t) && Parse(s + t) == Parse(s) * Pow(16, |t|) + Parse(t)
    decreases |t|
  {
    HexAppend(s, t);
    var n := |t| - 1;
    var init, last := t[..n], t[n];
    if n == 0 {
      assert t == [last];
      ParseAppend(s, last);
      assert Pow(16, 1) == 16 * Pow(16, 0);
    } else {
      ParsePlaces(s, init);
      assert s + t == s + init + [last];
      ParseAppend(s + init, last);
      PlacesShift(Parse(s), Pow(16, n), Parse(init), DigitValue(last));
    }
  }

  lemma ParseOne(c: char)
    requires IsHexDigit(c)
    ensures Parse([c]) == DigitValue(c)
  {
  }

  /** Case makes no difference. */
  lemma {:induction false} ParseIgnoresCase(s: string, t: string)
    requires IsHexString(s) && IsHexString(t) && |s| == |t|
    requires forall i :: 0 <= i < |s| ==> DigitValue(s[i]) == DigitValue(t[i])
    ensures Parse(s) == Parse(t)
  {
    if |s| > 1 {
      ParseIgnoresCase(s[..|s| - 1], t[..|t| - 1]);
    }
  }
}
