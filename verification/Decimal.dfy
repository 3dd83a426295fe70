/** Decimal text: std::to_string, zero padding as printf does it, and std::from_chars into int64. */
module Decimal {
  import opened Wrappers
  import opened Text

  const INT64_MAX: int := 0x7FFF_FFFF_FFFF_FFFF
  const INT32_MAX: int := 0x7FFF_FFFF

  function DigitChar(d: nat): char
    requires d < 10
  {
    ('0' as int + d) as char
  }

  function DigitVal(c: char): nat {
    if IsDigit(c) then c as int - '0' as int else 0
  }

  function Digits(n: nat): (s: string)
    ensures |s| >= 1 && AllDigits(s)
    ensures ValueOf(s) == n
  {
    if n < 10 then
      assert ValueOf([DigitChar(n)]) == DigitVal(DigitChar(n)) by { assert [DigitChar(n)][..0] == ""; }
      [DigitChar(n)]
    else
      var s := Digits(n / 10) + [DigitChar(n % 10)];
      assert s[..|s| - 1] == Digits(n / 10);
      s
  }

  /** The number a digit string denotes. */
  function ValueOf(s: string): nat {
    if s == "" then 0 else 10 * ValueOf(s[..|s| - 1]) + DigitVal(s[|s| - 1])
  }

  /** `s` left-padded with '0' to at least `width` characters: printf's %0<width>d. */
  function Pad(s: string, width: nat): (r: string)
    ensures |r| == if |s| < width then width else |s|
    ensures AllDigits(s) ==> AllDigits(r)
  {
    if |s| >= width then s else ['0'] + Pad(s, width - 1)
  }

  function Padded(n: nat, width: nat): (r: string)
    ensures |r| >= width && |r| >= 1 && AllDigits(r)
    ensures ValueOf(r) == n
  {
    PadValue(Digits(n), width);
    Pad(Digits(n), width)
  }

  lemma {:induction false} ValueLeadingZero(s: string)
    ensures ValueOf(['0'] + s) == ValueOf(s)
  {
    var z := ['0'] + s;
    if s == "" {
      assert z[..0] == "";
    } else {
      assert z[..|z| - 1] == ['0'] + s[..|s| - 1];
      ValueLeadingZero(s[..|s| - 1]);
    }
  }

  lemma {:induction false} PadValue(s: string, width: nat)
    ensures ValueOf(Pad(s, width)) == ValueOf(s)
  {
    if |s| < width {
      PadValue(s, width - 1);
      ValueLeadingZero(Pad(s, width - 1));
    }
  }

  /** Digit strings without a superfluous leading zero are exactly what Digits prints. */
  lemma {:induction false} DigitsOfValue(s: string)
    requires s != "" && AllDigits(s)
    requires |s| == 1 || s[0] != '0'
    ensures Digits(ValueOf(s)) == s
    ensures |s| > 1 ==> ValueOf(s) >= 10
  {
    var n := |s| - 1;
    var init := s[..n];
    assert s == init + [s[n]];
    if n == 0 {
      assert init == "";
    } else {
      DigitsOfValue(init);
      assert init[0] == s[0];
      if n == 1 { assert init[..0] == ""; }
      assert ValueOf(init) >= 1;
    }
  }

  /** Reprinting a field at its own width reproduces it, leading zeros included. */
  lemma {:induction false} PadDigitsOfValue(s: string)
    requires s != "" && AllDigits(s)
    ensures Padded(ValueOf(s), |s|) == s
  {
    if |s| == 1 || s[0] != '0' {
      DigitsOfValue(s);
    } else {
      var t := s[1..];
      assert s == ['0'] + t;
      ValueLeadingZero(t);
      PadDigitsOfValue(t);
    }
  }

  function Pow10(k: nat): nat {
    if k == 0 then 1 else 10 * Pow10(k - 1)
  }

  /** A number below 10^k prints in at most k characters. */
  lemma {:induction false} DigitsLength(n: nat, k: nat)
    requires k >= 1 && n < Pow10(k)
    ensures |Digits(n)| <= k
  {
    if n >= 10 {
      assert k >= 2;
      DigitsLength(n / 10, k - 1);
    }
  }

  /** IsAllDigits: a non-empty run of decimal digits. */
  predicate IsAllDigits(s: string) {
    s != "" && AllDigits(s)
  }

  /** ParseDigitsField: an all-digit field that fits int64, an error otherwise. */
  function ParseDigitsField(s: string): (r: Result<nat>)
    ensures r.Ok? <==> IsAllDigits(s) && ValueOf(s) <= INT64_MAX
    ensures r.Ok? ==> r.value == ValueOf(s)
  {
    if IsAllDigits(s) && ValueOf(s) <= INT64_MAX then Ok(ValueOf(s)) else Err
  }
}
