/** Milliseconds <-> "HH:MM:SS.mmm". */
module Timecode {
  import opened Wrappers
  import opened Text
  import opened Decimal

  /** The text FormatTimecode prints for a non-negative duration. */
  function Render(ms: nat): string {
    var total := ms / 1000;
    Padded(total / 3600, 2) + ":" + Padded(total % 3600 / 60, 2) + ":" + Padded(total % 60, 2)
    + "." + Padded(ms % 1000, 3)
  }

  function FormatTimecode(ms: int): Result<string> {
    if ms < 0 then Err else Ok(Render(ms))
  }

  /** FormatTimecode cut before its first '.'. */
  function FormatTimecodeShort(ms: int): Result<string> {
    var full :- FormatTimecode(ms);
    var dot := IndexOf(full, '.');
    Ok(if dot < 0 then full else full[..dot])
  }

  function ParseTimecode(t: string): Result<nat> {
    var c1 := IndexOf(t, ':');
    if c1 < 0 then Err else
    var c2 := IndexOfFrom(t, ':', c1 + 1);
    if c2 < 0 then Err else
    var dot := IndexOfFrom(t, '.', c2 + 1);
    if dot < 0 then Err else
    var hoursText, minutesText, secondsText, millisText := t[..c1], t[c1 + 1..c2], t[c2 + 1..dot], t[dot + 1..];
    if |minutesText| != 2 || |secondsText| != 2 || |millisText| != 3 then Err else
    var hours :- ParseDigitsField(hoursText);
    var minutes :- ParseDigitsField(minutesText);
    var seconds :- ParseDigitsField(secondsText);
    var millis :- ParseDigitsField(millisText);
    if minutes > 59 || seconds > 59 then Err else
    Ok(((hours * 60 + minutes) * 60 + seconds) * 1000 + millis)
  }

  // ---------- exactly which texts are accepted ----------

  function Clock(h: string, m: string, s: string, f: string): string {
    h + ":" + m + ":" + s + "." + f
  }

  /** digits+ ':' 00-59 ':' 00-59 '.' ddd, with hours that fit int64. */
  predicate StrictFields(h: string, m: string, s: string, f: string) {
    && IsAllDigits(h) && AllDigits(m) && AllDigits(s) && AllDigits(f)
    && |m| == 2 && |s| == 2 && |f| == 3
    && ValueOf(h) <= INT64_MAX && ValueOf(m) <= 59 && ValueOf(s) <= 59
  }

  function ClockValue(h: string, m: string, s: string, f: string): nat {
    ((ValueOf(h) * 60 + ValueOf(m)) * 60 + ValueOf(s)) * 1000 + ValueOf(f)
  }

  /** Where the three separators of a clock text are found. */
  lemma ClockSeparators(h: string, m: string, s: string, f: string)
    requires AllDigits(h) && AllDigits(m) && AllDigits(s)
    ensures var t := Clock(h, m, s, f);
            && IndexOf(t, ':') == |h|
            && IndexOfFrom(t, ':', |h| + 1) == |h| + 1 + |m|
            && IndexOfFrom(t, '.', |h| + 1 + |m| + 1) == |h| + 1 + |m| + 1 + |s|
            && t[..|h|] == h && t[|h| + 1..|h| + 1 + |m|] == m
            && t[|h| + 1 + |m| + 1..|h| + 1 + |m| + 1 + |s|] == s
            && t[|h| + 1 + |m| + 1 + |s| + 1..] == f
  {
    hide IndexOf, IndexOfFrom;
    ClockRegrouped(h, m, s, f);
    hide Clock;
    IndexAtFirst(h, m + ":" + s + "." + f, ':');
    IndexFromSuffix(h + ":", m, s + "." + f, ':');
    IndexFromSuffix(h + ":" + m + ":", s, f, '.');
    ClockSlices(h, m, s, f);
  }

  lemma ClockRegrouped(h: string, m: string, s: string, f: string)
    ensures var t := Clock(h, m, s, f);
            && t == h + [':'] + (m + ":" + s + "." + f)
            && t == (h + ":") + (m + [':'] + (s + "." + f))
            && t == (h + ":" + m + ":") + (s + ['.'] + f)
    ensures |h + ":"| == |h| + 1 && |h + ":" + m + ":"| == |h| + 1 + |m| + 1
  {
  }

  lemma ClockSlices(h: string, m: string, s: string, f: string)
    ensures var t := Clock(h, m, s, f);
            && t[..|h|] == h && t[|h| + 1..|h| + 1 + |m|] == m
            && t[|h| + 1 + |m| + 1..|h| + 1 + |m| + 1 + |s|] == s
            && t[|h| + 1 + |m| + 1 + |s| + 1..] == f
  {
  }

  lemma ClockOfSlices(t: string, i: nat, j: nat, k: nat)
    requires i < j < k < |t| && t[i] == t[j] == ':' && t[k] == '.'
    ensures t == Clock(t[..i], t[i + 1..j], t[j + 1..k], t[k + 1..])
  {
  }

  lemma ParseClock(h: string, m: string, s: string, f: string)
    requires StrictFields(h, m, s, f)
    ensures ParseTimecode(Clock(h, m, s, f)) == Ok(ClockValue(h, m, s, f))
  {
    ClockSeparators(h, m, s, f);
    ValueSmall(m);
    ValueSmall(s);
    ValueSmall(f);
  }

  lemma {:induction false} ValueBelowPow10(s: string)
    ensures ValueOf(s) < Pow10(|s|)
  {
    if s != "" { ValueBelowPow10(s[..|s| - 1]); }
  }

  lemma ValueSmall(s: string)
    requires |s| <= 3
    ensures ValueOf(s) <= 999
  {
    ValueBelowPow10(s);
    assert Pow10(0) == 1 && Pow10(1) == 10 && Pow10(2) == 100 && Pow10(3) == 1000;
  }

  /** The strict parser accepts exactly the clock shape. */
  lemma ParseAcceptsExactly(t: string)
    ensures ParseTimecode(t).Ok? <==> exists h, m, s, f :: t == Clock(h, m, s, f) && StrictFields(h, m, s, f)
  {
    if ParseTimecode(t).Ok? {
      var h, m, s, f := ParsedFields(t);
    }
    if h, m, s, f :| t == Clock(h, m, s, f) && StrictFields(h, m, s, f) {
      ParseClock(h, m, s, f);
    }
  }

  /** The fields an accepted text was made of. */
  lemma ParsedFields(t: string) returns (h: string, m: string, s: string, f: string)
    requires ParseTimecode(t).Ok?
    ensures StrictFields(h, m, s, f) && t == Clock(h, m, s, f)
    ensures ParseTimecode(t).value == ClockValue(h, m, s, f)
  {
    hide IndexOf, IndexOfFrom, ParseDigitsField, ValueOf;
    var c1 := IndexOf(t, ':');
    var c2 := IndexOfFrom(t, ':', c1 + 1);
    var dot := IndexOfFrom(t, '.', c2 + 1);
    h, m, s, f := t[..c1], t[c1 + 1..c2], t[c2 + 1..dot], t[dot + 1..];
    ClockOfSlices(t, c1, c2, dot);
  }

  // ---------- round trips ----------

  lemma RenderFields(ms: nat) returns (h: string, m: string, s: string, f: string)
    requires ms <= INT64_MAX
    ensures StrictFields(h, m, s, f) && Render(ms) == Clock(h, m, s, f)
    ensures ClockValue(h, m, s, f) == ms
    ensures h == Padded(ms / 1000 / 3600, 2)
  {
    hide ValueOf, Padded;
    var total := ms / 1000;
    h, m, s, f := Padded(total / 3600, 2), Padded(total % 3600 / 60, 2), Padded(total % 60, 2), Padded(ms % 1000, 3);
    TwoDigits(total % 3600 / 60);
    TwoDigits(total % 60);
    ThreeDigits(ms % 1000);
    ClockRebuilds(ms);
  }

  lemma ClockRebuilds(ms: nat)
    ensures var total := ms / 1000;
            ((total / 3600 * 60 + total % 3600 / 60) * 60 + total % 60) * 1000 + ms % 1000 == ms
  {
    var total := ms / 1000;
    assert total % 3600 / 60 * 60 + total % 60 == total % 3600;
  }

  lemma TwoDigits(n: nat)
    requires n < 100
    ensures |Padded(n, 2)| == 2
  {
    assert Pow10(1) == 10 && Pow10(2) == 100;
    DigitsLength(n, 2);
  }

  lemma ThreeDigits(n: nat)
    requires n < 1000
    ensures |Padded(n, 3)| == 3
  {
    assert Pow10(1) == 10 && Pow10(2) == 100 && Pow10(3) == 1000;
    DigitsLength(n, 3);
  }

  /** Every int64 duration survives the trip through its text. */
  lemma ParseFormat(ms: nat)
    requires ms <= INT64_MAX
    ensures FormatTimecode(ms).Ok?
    ensures ParseTimecode(FormatTimecode(ms).value) == Ok(ms)
  {
    var h, m, s, f := RenderFields(ms);
    ParseClock(h, m, s, f);
  }

  /** No intermediate of the parser's arithmetic exceeds its result, so none overflows when the result fits. */
  lemma ParseArithmeticFits(h: string, m: string, s: string, f: string)
    requires StrictFields(h, m, s, f)
    ensures var v := ClockValue(h, m, s, f);
            && ValueOf(h) * 60 <= v
            && ValueOf(h) * 60 + ValueOf(m) <= v
            && (ValueOf(h) * 60 + ValueOf(m)) * 60 <= v
            && (ValueOf(h) * 60 + ValueOf(m)) * 60 + ValueOf(s) <= v
            && ((ValueOf(h) * 60 + ValueOf(m)) * 60 + ValueOf(s)) * 1000 <= v
  {
    var a := ValueOf(h) * 60 + ValueOf(m);
    assert a <= a * 60;
    var b := a * 60 + ValueOf(s);
    assert b <= b * 1000;
  }

  /** The text fits the 48-byte print buffer and the 64-character read-back buffer. */
  lemma RenderLength(ms: nat)
    requires ms <= INT64_MAX
    ensures |Render(ms)| <= 23
  {
    var h, m, s, f := RenderFields(ms);
    var hours := ms / 1000 / 3600;
    assert hours < 10_000_000_000_000;
    Pow10Thirteen();
    DigitsLength(hours, 13);
  }

  lemma Pow10Thirteen()
    ensures Pow10(13) == 10_000_000_000_000
  {
    assert Pow10(3) == 1000;
    assert Pow10(5) == 100_000;
    assert Pow10(7) == 10_000_000;
    assert Pow10(9) == 1_000_000_000;
    assert Pow10(11) == 100_000_000_000;
  }

  /** `h` with leading zeros added or dropped until it is two digits or starts with another digit. */
  function NormalHours(h: string): string
    requires h != ""
  {
    if |h| == 1 then ['0'] + h
    else if |h| > 2 && h[0] == '0' then NormalHours(h[1..])
    else h
  }

  lemma {:induction false} PaddedHours(h: string)
    requires IsAllDigits(h)
    ensures Padded(ValueOf(h), 2) == NormalHours(h)
  {
    if |h| == 1 {
      DigitsOfValue(h);
      assert Pad(h, 2) == ['0'] + Pad(h, 1);
    } else if |h| == 2 {
      PadDigitsOfValue(h);
    } else if h[0] == '0' {
      assert h == ['0'] + h[1..];
      ValueLeadingZero(h[1..]);
      PaddedHours(h[1..]);
    } else {
      DigitsOfValue(h);
    }
  }

  /** Reformatting an accepted text only normalises the leading zeros of its hours. */
  lemma FormatParse(h: string, m: string, s: string, f: string)
    requires StrictFields(h, m, s, f)
    ensures ParseTimecode(Clock(h, m, s, f)) == Ok(ClockValue(h, m, s, f))
    ensures FormatTimecode(ClockValue(h, m, s, f)) == Ok(Clock(NormalHours(h), m, s, f))
  {
    hide ParseTimecode, Padded, NormalHours, ValueOf;
    ParseClock(h, m, s, f);
    ClockSplit(ValueOf(h), ValueOf(m), ValueOf(s), ValueOf(f)) by { ValueSmall(f); }
    PaddedHours(h);
    PadDigitsOfValue(m);
    PadDigitsOfValue(s);
    PadDigitsOfValue(f);
  }

  /**
   * A duration is printed if and only if it is not negative, and as the one clock text of its value whose hours
   * have two digits, or more and no leading zero. The short form ends before the '.'.
   */
  lemma FormatsExactly(ms: int, t: string)
    requires ms <= INT64_MAX
    ensures FormatTimecode(ms) == Ok(t) <==>
            ms >= 0 && exists h, m, s, f :: StrictFields(h, m, s, f) && t == Clock(h, m, s, f) && Canonical(h)
                                            && ClockValue(h, m, s, f) == ms
    ensures FormatTimecodeShort(ms).Ok? <==> ms >= 0
  {
    hide Clock, ClockValue, NormalHours, Padded, ValueOf, IndexOf;
    if ms >= 0 {
      var h, m, s, f := RenderFields(ms);
      PaddedCanonical(ms / 1000 / 3600);
      if h', m', s', f' :| StrictFields(h', m', s', f') && t == Clock(h', m', s', f') && Canonical(h')
                           && ClockValue(h', m', s', f') == ms {
        FormatParse(h', m', s', f');
        CanonicalNormal(h');
      }
    }
  }

  predicate Canonical(h: string) {
    |h| == 2 || (|h| > 2 && h[0] != '0')
  }

  lemma CanonicalNormal(h: string)
    requires Canonical(h)
    ensures NormalHours(h) == h
  {
  }

  lemma PaddedCanonical(n: nat)
    ensures Canonical(Padded(n, 2))
  {
    var d := Digits(n);
    if |d| < 2 {
      assert Pad(d, 2) == ['0'] + Pad(d, 1);
    } else if |d| > 2 {
      NoLeadingZero(n);
    }
  }

  lemma {:induction false} NoLeadingZero(n: nat)
    ensures n > 0 ==> Digits(n)[0] != '0'
  {
    if n >= 10 {
      NoLeadingZero(n / 10);
    }
  }

  /** A text shows a duration: it is what FormatTimecode prints, up to leading zeros of the hours. */
  ghost predicate Shows(t: string, ms: nat) {
    exists h, m, s, f ::
      StrictFields(h, m, s, f) && t == Clock(h, m, s, f) && Render(ms) == Clock(NormalHours(h), m, s, f)
  }

  /** A text parses to a duration if and only if it shows that duration. */
  lemma ParsesToExactly(t: string, ms: nat)
    requires ms <= INT64_MAX
    ensures ParseTimecode(t) == Ok(ms) <==> Shows(t, ms)
  {
    hide ParseTimecode, Render, Clock, ClockValue, NormalHours, Padded, ValueOf;
    if ParseTimecode(t) == Ok(ms) {
      var h, m, s, f := ParsedFields(t);
      FormatParse(h, m, s, f);
    }
    if h, m, s, f :| StrictFields(h, m, s, f) && t == Clock(h, m, s, f)
                     && Render(ms) == Clock(NormalHours(h), m, s, f) {
      ParseFormat(ms);
      ParseClock(h, m, s, f);
      NormalFields(h, m, s, f);
      ParseClock(NormalHours(h), m, s, f);
    }
  }

  lemma NormalFields(h: string, m: string, s: string, f: string)
    requires StrictFields(h, m, s, f)
    ensures StrictFields(NormalHours(h), m, s, f)
    ensures ClockValue(NormalHours(h), m, s, f) == ClockValue(h, m, s, f)
  {
    hide NormalHours, ValueOf;
    PaddedHours(h);
  }

  lemma DivUnique(q: nat, r: nat, d: nat)
    requires r < d && d in {60, 1000, 3600}
    ensures (q * d + r) / d == q && (q * d + r) % d == r
  {
    if d == 60 {
      assert (q * 60 + r) / 60 == q;
    } else if d == 1000 {
      assert (q * 1000 + r) / 1000 == q;
    } else {
      assert (q * 3600 + r) / 3600 == q;
    }
  }

  lemma ClockSplit(h: nat, m: nat, s: nat, f: nat)
    requires m < 60 && s < 60 && f < 1000
    ensures var v := ((h * 60 + m) * 60 + s) * 1000 + f;
            && v % 1000 == f && v / 1000 == (h * 60 + m) * 60 + s
            && v / 1000 / 3600 == h && v / 1000 % 3600 / 60 == m && v / 1000 % 60 == s
  {
    DivUnique((h * 60 + m) * 60 + s, f, 1000);
    DivUnique(h, m * 60 + s, 3600);
    DivUnique(m, s, 60);
    DivUnique(h * 60 + m, s, 60);
  }

  /** The short form is the clock text without its milliseconds. */
  lemma ShortFields(ms: nat) returns (h: string, m: string, s: string)
    requires ms <= INT64_MAX
    ensures FormatTimecodeShort(ms) == Ok(h + ":" + m + ":" + s)
    ensures StrictFields(h, m, s, "000")
    ensures ClockValue(h, m, s, "000") == ms - ms % 1000
  {
    hide ValueOf, Render, IndexOf, Padded;
    var f;
    h, m, s, f := RenderFields(ms);
    var hms := h + ":" + m + ":" + s;
    assert Render(ms) == hms + ['.'] + f;
    NoDot(h, m, s);
    IndexAtFirst(hms, f, '.');
    assert Render(ms)[..|hms|] == hms;
    ZeroMillis();
    ClockSplit(ValueOf(h), ValueOf(m), ValueOf(s), ValueOf(f)) by { ValueSmall(f); }
  }

  lemma NoDot(h: string, m: string, s: string)
    requires AllDigits(h) && AllDigits(m) && AllDigits(s)
    ensures '.' !in h + ":" + m + ":" + s
  {
  }

  lemma ZeroMillis()
    ensures ValueOf("000") == 0 && AllDigits("000")
  {
    ValueLeadingZero("00");
    ValueLeadingZero("0");
    ValueLeadingZero("");
    assert "000" == ['0'] + "00" && "00" == ['0'] + "0" && "0" == ['0'] + "";
  }
}
