/** Lenient human input: SS, MM:SS or HH:MM:SS with an optional fraction, and ranges of two of them. */
module HumanInput {
  import opened Wrappers
  import opened Text
  import opened Decimal
  import opened Timecode
  import opened Pbf

  /** The digits after the '.', as milliseconds. */
  function FractionMillis(f: string): Result<nat> {
    if f == "" || |f| > 3 || !IsAllDigits(f) then Err else
    var v :- ParseDigitsField(f);
    Ok(if |f| == 3 then v else if |f| == 2 then 10 * v else 100 * v)
  }

  /** The value of one to three ':'-separated fields. */
  function FieldsValue(fields: seq<string>, millis: nat): Result<nat> {
    if |fields| == 1 then
      var seconds :- ParseDigitsField(fields[0]);
      Ok(seconds * 1000 + millis)
    else if |fields| == 2 then
      var minutes :- ParseDigitsField(fields[0]);
      if minutes > 59 then Err else
      var seconds :- ParseDigitsField(fields[1]);
      if seconds > 59 then Err else
      Ok((minutes * 60 + seconds) * 1000 + millis)
    else if |fields| == 3 then
      var hours :- ParseDigitsField(fields[0]);
      var minutes :- ParseDigitsField(fields[1]);
      if minutes > 59 then Err else
      var seconds :- ParseDigitsField(fields[2]);
      if seconds > 59 then Err else
      Ok(((hours * 60 + minutes) * 60 + seconds) * 1000 + millis)
    else Err
  }

  /** The value of fields with an optional fraction. */
  function PartsValue(fields: seq<string>, fraction: Option<string>): Result<nat> {
    var millis :- if fraction.Some? then FractionMillis(fraction.value) else Ok(0);
    FieldsValue(fields, millis)
  }

  /** What a trimmed text means. */
  function CoreValue(t: string): Result<nat> {
    var dot := IndexOf(t, '.');
    if dot < 0 then PartsValue(Split(t, ':'), None)
    else PartsValue(Split(t[..dot], ':'), Some(t[dot + 1..]))
  }

  /** What a human timecode means. */
  function HumanValue(text: string): Result<nat> {
    CoreValue(Trim(text))
  }

  /** ParseHumanTimecode, with its trimming, fraction-scaling and field-collecting loops. */
  method ParseHumanTimecode(text0: string) returns (r: Result<nat>)
    ensures r == HumanValue(text0)
  {
    hide Split, IndexOf, IndexOfFrom, ParseDigitsField, Trim;
    var text := TrimLoop(text0);
    if text == "" {
      EmptyIsRejected(None);
      return Err;
    }
    var integerPart := text;
    var millis := 0;
    ghost var fraction: Option<string> := None;
    var dot := IndexOf(text, '.');
    if dot >= 0 {
      integerPart := text[..dot];
      var f := text[dot + 1..];
      fraction := Some(f);
      if f == "" || |f| > 3 || !IsAllDigits(f) {
        return Err;
      }
      var parsed := ParseDigitsField(f);
      if parsed.Err? {
        return Err;
      }
      millis := parsed.value;
      var i := |f|;
      while i < 3
        invariant |f| <= i <= 3
        invariant millis == parsed.value * (if i == |f| then 1 else if i == |f| + 1 then 10 else 100)
      {
        millis := millis * 10;
        i := i + 1;
      }
    }
    if integerPart == "" {
      EmptyIsRejected(fraction);
      return Err;
    }
    var fields := CollectFields(integerPart);
    if fields.Err? {
      return Err;
    }
    r := FieldsValue(fields.value, millis);
  }

  lemma EmptyIsRejected(fraction: Option<string>)
    ensures PartsValue(Split("", ':'), fraction) == Err
  {
    SplitNone("", ':');
  }

  /** The loop over ':' that fills at most three fields. */
  method CollectFields(integerPart: string) returns (r: Result<seq<string>>)
    ensures r == if |Split(integerPart, ':')| > 3 then Err else Ok(Split(integerPart, ':'))
  {
    hide *;
    var fields: seq<string> := [];
    var start := 0;
    assert integerPart[0..] == integerPart;
    while true
      invariant 0 <= start <= |integerPart| && |fields| <= 3
      invariant Split(integerPart, ':') == fields + Split(integerPart[start..], ':')
      decreases |integerPart| - start
    {
      if |fields| == 3 {
        return Err;
      }
      var colon := IndexOfFrom(integerPart, ':', start);
      SplitStep(integerPart, start, ':');
      if colon < 0 {
        return Ok(fields + [integerPart[start..]]);
      }
      fields := fields + [integerPart[start..colon]];
      start := colon + 1;
    }
  }

  // ---------- what human texts mean ----------

  predicate DigitFields(fields: seq<string>) {
    1 <= |fields| <= 3 && forall i | 0 <= i < |fields| :: IsAllDigits(fields[i])
  }

  /** The text of some fields and an optional fraction. */
  function HumanText(fields: seq<string>, fraction: Option<string>): string
    requires |fields| >= 1
  {
    Join(fields, ':') + if fraction.Some? then "." + fraction.value else ""
  }

  lemma {:induction false} JoinedDigits(fields: seq<string>)
    requires |fields| >= 1 && forall i | 0 <= i < |fields| :: IsAllDigits(fields[i])
    ensures var t := Join(fields, ':');
            && t != "" && IsDigit(t[0]) && IsDigit(t[|t| - 1])
            && (forall i | 0 <= i < |t| :: IsDigit(t[i]) || t[i] == ':')
  {
    hide Trim, Split;
    if |fields| > 1 {
      JoinedDigits(fields[1..]);
      var t, u := Join(fields, ':'), Join(fields[1..], ':');
      assert t == fields[0] + [':'] + u;
      assert t[|t| - 1] == u[|u| - 1];
    }
  }

  /** Digit fields, an optional digit fraction and any padding mean what the parts mean. */
  lemma HumanOfParts(left: string, fields: seq<string>, fraction: Option<string>, right: string)
    requires AllSpaces(left) && AllSpaces(right) && DigitFields(fields)
    requires fraction.Some? ==> IsAllDigits(fraction.value)
    ensures HumanValue(left + HumanText(fields, fraction) + right) == PartsValue(fields, fraction)
  {
    hide PartsValue, Join, Split, Trim, IndexOf;
    var t, j := HumanText(fields, fraction), Join(fields, ':');
    JoinedDigits(fields);
    TrimPadding(left, t, right);
    assert t[0] == j[0];
    assert t[|t| - 1] == if fraction.Some? then fraction.value[|fraction.value| - 1] else j[|j| - 1];
    TrimTrimmed(t);
    SplitJoin(fields, ':');
    if fraction.Some? {
      assert t == j + ['.'] + fraction.value;
      IndexAtFirst(j, fraction.value, '.');
      assert t[..|j|] == j && t[|j| + 1..] == fraction.value;
    } else {
      assert t == j;
    }
  }

  /** Every accepted text is padding around one to three digit fields and an optional digit fraction. */
  lemma HumanAcceptsOnly(text: string)
      returns (left: string, fields: seq<string>, fraction: Option<string>, right: string)
    requires HumanValue(text).Ok?
    ensures AllSpaces(left) && AllSpaces(right) && DigitFields(fields)
    ensures fraction.Some? ==> IsAllDigits(fraction.value) && |fraction.value| <= 3
    ensures text == left + HumanText(fields, fraction) + right
    ensures HumanValue(text) == PartsValue(fields, fraction)
  {
    hide Trim, IndexOf, Split, Join, PartsValue;
    left, right := TrimParts(text);
    var t := Trim(text);
    var dot := IndexOf(t, '.');
    var body := if dot < 0 then t else t[..dot];
    fields, fraction := Split(body, ':'), if dot < 0 then None else Some(t[dot + 1..]);
    JoinSplit(body, ':');
    AcceptedFields(fields, fraction);
    assert t == HumanText(fields, fraction) by {
      if dot >= 0 { assert t == t[..dot] + "." + t[dot + 1..]; } else { assert t == t + ""; }
    }
  }

  lemma AcceptedFields(fields: seq<string>, fraction: Option<string>)
    requires PartsValue(fields, fraction).Ok?
    ensures DigitFields(fields)
    ensures fraction.Some? ==> IsAllDigits(fraction.value) && |fraction.value| <= 3
  {
  }

  lemma ClockIsHumanText(h: string, m: string, s: string, f: string)
    ensures HumanText([h, m, s], Some(f)) == Clock(h, m, s, f)
    ensures HumanText([h, m, s], None) == h + ":" + m + ":" + s
  {
    assert [h, m, s][1..] == [m, s] && [m, s][1..] == [s];
    assert Join([m, s], ':') == m + ":" + s;
    assert Join([h, m, s], ':') == h + ":" + (m + ":" + s) == h + ":" + m + ":" + s;
    assert h + ":" + m + ":" + s + ("." + f) == Clock(h, m, s, f);
  }

  /** The lenient parser agrees with the strict one on everything the strict one accepts, padded or not. */
  lemma HumanExtendsStrict(left: string, t: string, right: string)
    requires AllSpaces(left) && AllSpaces(right)
    requires ParseTimecode(t).Ok?
    ensures HumanValue(left + t + right) == ParseTimecode(t)
  {
    hide ParseTimecode, HumanValue, HumanText, Clock;
    var h, m, s, f := ParsedFields(t);
    HumanOfParts(left, [h, m, s], Some(f), right);
    ClockIsHumanText(h, m, s, f);
    assert ParseDigitsField(f).Ok? by { ValueSmall(f); }
  }

  /** The on-screen form reads back as the time with its milliseconds dropped. */
  lemma HumanOfShort(ms: nat)
    requires ms <= INT64_MAX
    ensures FormatTimecodeShort(ms).Ok?
    ensures HumanValue(FormatTimecodeShort(ms).value) == Ok(ms - ms % 1000)
  {
    hide FormatTimecodeShort, HumanValue, HumanText;
    var h, m, s := ShortFields(ms);
    HumanOfParts("", [h, m, s], None, "");
    ClockIsHumanText(h, m, s, "");
    assert "" + (h + ":" + m + ":" + s) + "" == h + ":" + m + ":" + s;
    ZeroMillis();
  }

  // ---------- the meaning in numbers ----------

  /** `millis` are the digits after the '.', at most three of them, as a decimal fraction of 1000. */
  predicate FractionIs(fraction: Option<string>, millis: nat) {
    if fraction.None? then millis == 0
    else |fraction.value| <= 3 && Pow10(|fraction.value|) * millis == 1000 * ValueOf(fraction.value)
  }

  /** Seconds; minutes and seconds; or hours, minutes and seconds, with minutes and seconds at most 59. */
  predicate SecondsAre(fields: seq<string>, seconds: nat) {
    if |fields| == 1 then ValueOf(fields[0]) <= INT64_MAX && seconds == ValueOf(fields[0])
    else if |fields| == 2 then
      && ValueOf(fields[0]) <= 59 && ValueOf(fields[1]) <= 59
      && seconds == 60 * ValueOf(fields[0]) + ValueOf(fields[1])
    else
      && |fields| == 3 && ValueOf(fields[0]) <= INT64_MAX && ValueOf(fields[1]) <= 59 && ValueOf(fields[2]) <= 59
      && seconds == 3600 * ValueOf(fields[0]) + 60 * ValueOf(fields[1]) + ValueOf(fields[2])
  }

  lemma FractionExactly(f: string, millis: nat)
    requires IsAllDigits(f)
    ensures FractionMillis(f) == Ok(millis) <==> FractionIs(Some(f), millis)
  {
    hide ValueOf;
    assert Pow10(1) == 10 && Pow10(2) == 100 && Pow10(3) == 1000;
    if |f| <= 3 {
      ValueSmall(f);
    }
  }

  lemma SecondsExactly(fields: seq<string>, seconds: nat, millis: nat)
    requires DigitFields(fields)
    ensures FieldsValue(fields, millis) == Ok(1000 * seconds + millis) <==> SecondsAre(fields, seconds)
  {
    hide ValueOf;
  }

  lemma FieldsWholeSeconds(fields: seq<string>, millis: nat) returns (seconds: nat)
    requires FieldsValue(fields, millis).Ok?
    ensures FieldsValue(fields, millis) == Ok(1000 * seconds + millis)
  {
    hide ParseDigitsField;
    seconds := if |fields| == 1 then ParseDigitsField(fields[0]).value
               else if |fields| == 2 then ParseDigitsField(fields[0]).value * 60 + ParseDigitsField(fields[1]).value
               else (ParseDigitsField(fields[0]).value * 60 + ParseDigitsField(fields[1]).value) * 60
                    + ParseDigitsField(fields[2]).value;
  }

  /** A text of digit fields and an optional fraction means `ms` if and only if its numbers say so. */
  lemma HumanExactly(left: string, fields: seq<string>, fraction: Option<string>, right: string, ms: nat)
    requires AllSpaces(left) && AllSpaces(right) && DigitFields(fields)
    requires fraction.Some? ==> IsAllDigits(fraction.value)
    ensures HumanValue(left + HumanText(fields, fraction) + right) == Ok(ms) <==>
            exists seconds: nat, millis: nat ::
              SecondsAre(fields, seconds) && FractionIs(fraction, millis) && ms == 1000 * seconds + millis
  {
    hide HumanValue, HumanText, FieldsValue, FractionMillis, FractionIs, SecondsAre, DigitFields, IsAllDigits;
    HumanOfParts(left, fields, fraction, right);
    var millis := if fraction.Some? then FractionMillis(fraction.value) else Ok(0);
    NoFraction();
    if millis.Ok? {
      if fraction.Some? {
        FractionExactly(fraction.value, millis.value);
      }
      if FieldsValue(fields, millis.value).Ok? {
        var seconds := FieldsWholeSeconds(fields, millis.value);
        SecondsExactly(fields, seconds, millis.value);
      }
    }
    if seconds: nat, k: nat :| SecondsAre(fields, seconds) && FractionIs(fraction, k) && ms == 1000 * seconds + k {
      if fraction.Some? {
        FractionExactly(fraction.value, k);
      } else {
        NoFractionIsZero(k);
      }
      SecondsExactly(fields, seconds, k);
    }
  }

  lemma NoFraction()
    ensures FractionIs(None, 0)
  {
  }

  lemma NoFractionIsZero(k: nat)
    requires FractionIs(None, k)
    ensures k == 0
  {
  }

  /** Two texts whose fields say the same seconds mean the same, errors included. */
  lemma SameSecondsAgree(left: string, a: seq<string>, b: seq<string>, fraction: Option<string>, right: string)
    requires AllSpaces(left) && AllSpaces(right) && DigitFields(a) && DigitFields(b)
    requires fraction.Some? ==> IsAllDigits(fraction.value)
    requires forall seconds: nat :: SecondsAre(a, seconds) <==> SecondsAre(b, seconds)
    ensures HumanValue(left + HumanText(a, fraction) + right) == HumanValue(left + HumanText(b, fraction) + right)
  {
    hide HumanValue, HumanText, FractionIs, SecondsAre, IsAllDigits;
    var x, y := HumanValue(left + HumanText(a, fraction) + right), HumanValue(left + HumanText(b, fraction) + right);
    if x.Ok? {
      HumanExactly(left, a, fraction, right, x.value);
      HumanExactly(left, b, fraction, right, x.value);
    }
    if y.Ok? {
      HumanExactly(left, a, fraction, right, y.value);
      HumanExactly(left, b, fraction, right, y.value);
    }
  }

  /** Minutes or seconds above 59 are refused; MM:SS means what 0:MM:SS means, padded and with a fraction as well. */
  lemma MinutesNeedNoHours(left: string, h: string, m: string, s: string, fraction: Option<string>, right: string)
    requires AllSpaces(left) && AllSpaces(right) && IsAllDigits(h) && IsAllDigits(m) && IsAllDigits(s)
    requires fraction.Some? ==> IsAllDigits(fraction.value)
    ensures HumanValue(left + HumanText([m, s], fraction) + right) ==
            HumanValue(left + HumanText(["0", m, s], fraction) + right)
    ensures ValueOf(m) > 59 || ValueOf(s) > 59 ==> HumanValue(left + HumanText([h, m, s], fraction) + right).Err?
  {
    hide HumanValue, HumanText, ValueOf, FractionIs, IsAllDigits;
    ZeroHours();
    SameSecondsAgree(left, [m, s], ["0", m, s], fraction, right);
    var y := HumanValue(left + HumanText([h, m, s], fraction) + right);
    if y.Ok? {
      HumanExactly(left, [h, m, s], fraction, right, y.value);
    }
  }

  /** MM:SS, both at most 59, means what the plain number of seconds means, padded and with a fraction as well. */
  lemma PlainMinutesAgree(left: string, m: string, s: string, fraction: Option<string>, right: string)
    requires AllSpaces(left) && AllSpaces(right) && IsAllDigits(m) && IsAllDigits(s)
    requires fraction.Some? ==> IsAllDigits(fraction.value)
    requires ValueOf(m) <= 59 && ValueOf(s) <= 59
    ensures HumanValue(left + HumanText([m, s], fraction) + right) ==
            HumanValue(left + HumanText([Digits(60 * ValueOf(m) + ValueOf(s))], fraction) + right)
  {
    hide *;
    SecondsSaid("0", m, s);
    SmallMinutes(m, s);
    AgreesWithPlain(left, [m, s], 60 * ValueOf(m) + ValueOf(s), fraction, right);
  }

  /** HH:MM:SS, minutes and seconds at most 59, means what the plain number of seconds means. */
  lemma PlainSecondsAgree(left: string, h: string, m: string, s: string, fraction: Option<string>, right: string)
    requires AllSpaces(left) && AllSpaces(right) && IsAllDigits(h) && IsAllDigits(m) && IsAllDigits(s)
    requires fraction.Some? ==> IsAllDigits(fraction.value)
    requires ValueOf(m) <= 59 && ValueOf(s) <= 59 && 3600 * ValueOf(h) + 60 * ValueOf(m) + ValueOf(s) <= INT64_MAX
    ensures HumanValue(left + HumanText([h, m, s], fraction) + right) ==
            HumanValue(left + HumanText([Digits(3600 * ValueOf(h) + 60 * ValueOf(m) + ValueOf(s))], fraction) + right)
  {
    hide *;
    SecondsSaid(h, m, s);
    AgreesWithPlain(left, [h, m, s], 3600 * ValueOf(h) + 60 * ValueOf(m) + ValueOf(s), fraction, right);
  }

  lemma AgreesWithPlain(left: string, fields: seq<string>, n: nat, fraction: Option<string>, right: string)
    requires AllSpaces(left) && AllSpaces(right) && DigitFields(fields) && n <= INT64_MAX
    requires fraction.Some? ==> IsAllDigits(fraction.value)
    requires forall seconds: nat :: SecondsAre(fields, seconds) <==> seconds == n
    ensures HumanValue(left + HumanText(fields, fraction) + right) ==
            HumanValue(left + HumanText([Digits(n)], fraction) + right)
  {
    hide HumanValue, HumanText, FractionIs, IsAllDigits, SecondsAre;
    PlainDigits(n);
    SameSecondsAgree(left, fields, [Digits(n)], fraction, right);
  }

  lemma PlainDigits(n: nat)
    ensures IsAllDigits(Digits(n))
    ensures forall seconds: nat :: SecondsAre([Digits(n)], seconds) <==> n <= INT64_MAX && seconds == n
  {
    hide Digits;
    assert ValueOf(Digits(n)) == n;
  }

  lemma SecondsSaid(h: string, m: string, s: string)
    requires ValueOf(m) <= 59 && ValueOf(s) <= 59
    ensures IsAllDigits(m) && IsAllDigits(s) ==> DigitFields([m, s])
    ensures IsAllDigits(h) && IsAllDigits(m) && IsAllDigits(s) ==> DigitFields([h, m, s])
    ensures forall seconds: nat :: SecondsAre([m, s], seconds) <==> seconds == 60 * ValueOf(m) + ValueOf(s)
    ensures var total := 3600 * ValueOf(h) + 60 * ValueOf(m) + ValueOf(s);
            total <= INT64_MAX ==> forall seconds: nat :: SecondsAre([h, m, s], seconds) <==> seconds == total
  {
    hide ValueOf, IsAllDigits;
  }

  lemma SmallMinutes(m: string, s: string)
    requires ValueOf(m) <= 59 && ValueOf(s) <= 59
    ensures 60 * ValueOf(m) + ValueOf(s) <= INT64_MAX
  {
  }

  lemma ZeroHours()
    ensures IsAllDigits("0") && ValueOf("0") == 0
  {
    assert "0"[..0] == "";
  }

  /** A fraction is a decimal fraction of a second: trailing zeros do not matter. */
  lemma TrailingZeroIrrelevant(f: string)
    requires IsAllDigits(f) && |f| < 3
    ensures FractionMillis(f).Ok? && FractionMillis(f + "0") == FractionMillis(f)
  {
    var z := f + "0";
    assert z[..|z| - 1] == f;
    assert ValueOf(z) == 10 * ValueOf(f);
    ValueSmall(f);
  }

  // ---------- ranges ----------

  const SEPARATORS: seq<string> := ["->", "~", "-"]

  function RangeFrom(a: Result<nat>, b: Result<nat>): Result<SkipRange> {
    var startMs :- a;
    var endMs :- b;
    CreateRange(startMs, endMs)
  }

  /** The range cut at the first of `seps` that occurs in the text at all. */
  function CutRange(t: string, seps: seq<string>): Result<SkipRange>
    requires forall i | 0 <= i < |seps| :: seps[i] != ""
  {
    if seps == [] then Err else
    var pos := IndexOfText(t, seps[0]);
    if pos < 0 then CutRange(t, seps[1..])
    else RangeFrom(HumanValue(t[..pos]), HumanValue(t[pos + |seps[0]|..]))
  }

  /** What a human range text means. */
  function HumanRange(text: string): Result<SkipRange> {
    CutRange(Trim(text), SEPARATORS)
  }

  lemma TrimTwice(t: string)
    ensures HumanValue(Trim(t)) == HumanValue(t)
  {
    hide CoreValue;
    var l, r := TrimParts(t);
    TrimTrimmed(Trim(t));
  }

  lemma EmptyHuman()
    ensures HumanValue("") == Err
  {
    TrimTrimmed("");
    EmptyIsRejected(None);
  }

  /** ParseHumanRange: separators tried in order, each side trimmed and parsed. */
  method ParseHumanRange(text0: string) returns (r: Result<SkipRange>)
    ensures r == HumanRange(text0)
  {
    hide HumanValue, Trim, IndexOfText;
    var text := TrimLoop(text0);
    if text == "" {
      NoSeparatorInEmpty();
      return Err;
    }
    var i := 0;
    assert SEPARATORS[0..] == SEPARATORS;
    while i < |SEPARATORS|
      invariant 0 <= i <= |SEPARATORS|
      invariant CutRange(text, SEPARATORS[i..]) == HumanRange(text0)
    {
      var separator := SEPARATORS[i];
      assert SEPARATORS[i..][1..] == SEPARATORS[i + 1..];
      var pos := IndexOfText(text, separator);
      if pos >= 0 {
        var left := TrimLoop(text[..pos]);
        var right := TrimLoop(text[pos + |separator|..]);
        TrimTwice(text[..pos]);
        TrimTwice(text[pos + |separator|..]);
        EmptyHuman();
        if left == "" || right == "" {
          return Err;
        }
        var startMs := ParseHumanTimecode(left);
        var endMs := ParseHumanTimecode(right);
        return RangeFrom(startMs, endMs);
      }
      i := i + 1;
    }
    r := Err;
  }

  lemma NoSeparatorInEmpty()
    ensures CutRange("", SEPARATORS) == Err
  {
    var s := SEPARATORS;
    assert s[1..] == ["~", "-"] && s[1..][1..] == ["-"] && s[1..][1..][1..] == [];
    IndexOfTextNone("", s[0], '-');
    IndexOfTextNone("", s[1], '~');
    IndexOfTextNone("", s[2], '-');
  }

  predicate FreeOfSeparators(s: string) {
    '-' !in s && '~' !in s && '>' !in s
  }

  lemma TrimAround(a: string, sep: string, b: string)
    requires sep in SEPARATORS
    ensures Trim(a + sep + b) == TrimLeft(a) + sep + TrimRight(b)
  {
    hide Trim, TrimLeft, TrimRight;
    var l := TrimLeftParts(a);
    var r := TrimRightParts(b);
    var core := TrimLeft(a) + sep + TrimRight(b);
    assert a + sep + b == l + core + r;
    assert !IsSpace(sep[0]) && !IsSpace(sep[|sep| - 1]);
    assert core[0] == if TrimLeft(a) == "" then sep[0] else TrimLeft(a)[0];
    assert core[|core| - 1] == if TrimRight(b) == "" then sep[|sep| - 1] else TrimRight(b)[|TrimRight(b)| - 1];
    TrimPadding(l, core, r);
    TrimTrimmed(core);
  }

  lemma HumanOfTrimmedSide(a: string)
    ensures HumanValue(TrimLeft(a)) == HumanValue(a) == HumanValue(TrimRight(a))
  {
    hide Trim, TrimLeft, TrimRight, CoreValue;
    var l := TrimLeftParts(a);
    var r := TrimRightParts(a);
    TrimPadding(l, TrimLeft(a), "");
    TrimPadding("", TrimRight(a), r);
    assert l + TrimLeft(a) + "" == a && "" + TrimRight(a) + r == a;
  }

  lemma CutAt(a: string, sep: string, b: string)
    requires sep in SEPARATORS && FreeOfSeparators(a) && FreeOfSeparators(b)
    ensures CutRange(a + sep + b, SEPARATORS) == RangeFrom(HumanValue(a), HumanValue(b))
  {
    hide HumanValue, RangeFrom, IndexOfText;
    var t, s := a + sep + b, SEPARATORS;
    var rest := s[1..];
    assert rest == ["~", "-"] && rest[1..] == ["-"];
    IndexOfTextIs(a, sep, b);
    assert t[..|a|] == a && t[|a| + |sep|..] == b;
    if sep != "->" {
      assert '>' !in t;
      IndexOfTextNone(t, "->", '>');
      assert CutRange(t, s) == CutRange(t, rest);
      if sep != "~" {
        assert '~' !in t;
        IndexOfTextNone(t, "~", '~');
        assert CutRange(t, rest) == CutRange(t, rest[1..]);
      }
    }
  }

  /** Two operands joined by any separator mean exactly the range of the operands' meanings, errors included. */
  lemma HumanRangeOfParts(a: string, sep: string, b: string)
    requires sep in {"->", "~", "-"} && FreeOfSeparators(a) && FreeOfSeparators(b)
    ensures HumanRange(a + sep + b) == RangeFrom(HumanValue(a), HumanValue(b))
  {
    hide HumanValue, RangeFrom, CutRange, Trim;
    assert sep in SEPARATORS;
    TrimAround(a, sep, b);
    var l := TrimLeftParts(a);
    var r := TrimRightParts(b);
    assert forall c | c in TrimLeft(a) :: c in a;
    assert forall c | c in TrimRight(b) :: c in b;
    CutAt(TrimLeft(a), sep, TrimRight(b));
    HumanOfTrimmedSide(a);
    HumanOfTrimmedSide(b);
  }

  lemma {:induction false} CutAcceptsOnly(t: string, seps: seq<string>) returns (a: string, sep: string, b: string)
    requires (forall i | 0 <= i < |seps| :: seps[i] != "") && CutRange(t, seps).Ok?
    ensures t == a + sep + b && sep in seps && HumanValue(a).Ok? && HumanValue(b).Ok?
    ensures CutRange(t, seps) == CreateRange(HumanValue(a).value, HumanValue(b).value)
  {
    hide HumanValue, IndexOfText;
    var pos := IndexOfText(t, seps[0]);
    if pos < 0 {
      a, sep, b := CutAcceptsOnly(t, seps[1..]);
    } else {
      a, sep, b := t[..pos], seps[0], t[pos + |seps[0]|..];
      FoundText(t, sep, pos);
    }
  }

  lemma FoundText(t: string, sep: string, pos: nat)
    requires sep != "" && IndexOfText(t, sep) == pos
    ensures pos + |sep| <= |t| && t == t[..pos] + sep + t[pos + |sep|..]
  {
  }

  /** Every accepted range text is two times around one of the separators, and means the range of the two. */
  lemma HumanRangeAcceptsOnly(text: string) returns (a: string, sep: string, b: string)
    requires HumanRange(text).Ok?
    ensures Trim(text) == a + sep + b && sep in {"->", "~", "-"}
    ensures HumanValue(a).Ok? && HumanValue(b).Ok?
    ensures var s, e := HumanValue(a).value, HumanValue(b).value;
            s < e && HumanRange(text).value.startMs == s && HumanRange(text).value.endMs == e
  {
    hide HumanValue, CutRange, Trim;
    a, sep, b := CutAcceptsOnly(Trim(text), SEPARATORS);
  }

  lemma RenderFreeOfSeparators(left: string, ms: nat, right: string)
    requires ms <= INT64_MAX && AllSpaces(left) && AllSpaces(right)
    ensures FreeOfSeparators(left + Render(ms) + right)
  {
    hide Render;
    var h, m, s, f := RenderFields(ms);
    var t := Clock(h, m, s, f);
    assert '-' !in t && '~' !in t && '>' !in t;
    assert '-' !in left && '~' !in left && '>' !in left;
    assert '-' !in right && '~' !in right && '>' !in right;
    var whole := left + t + right;
    assert '-' !in whole && '~' !in whole && '>' !in whole;
    assert whole == left + Render(ms) + right;
  }

  /** Two formatted times, any separator and any white space read back as exactly [start, end). */
  lemma HumanRangeRoundTrip(w1: string, s: nat, w2: string, sep: string, w3: string, e: nat, w4: string)
    requires s < e <= INT64_MAX && sep in {"->", "~", "-"}
    requires AllSpaces(w1) && AllSpaces(w2) && AllSpaces(w3) && AllSpaces(w4)
    ensures HumanRange((w1 + Render(s) + w2) + sep + (w3 + Render(e) + w4)) == Ok(Interval(s, e))
  {
    hide HumanRange, HumanValue, ParseTimecode;
    RenderFreeOfSeparators(w1, s, w2);
    RenderFreeOfSeparators(w3, e, w4);
    HumanRangeOfParts(w1 + Render(s) + w2, sep, w3 + Render(e) + w4);
    ParseFormat(s);
    ParseFormat(e);
    HumanExtendsStrict(w1, Render(s), w2);
    HumanExtendsStrict(w3, Render(e), w4);
  }
}
