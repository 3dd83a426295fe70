/** Skip ranges and the [PlaySkip] section of a .pbf file. */
module Pbf {
  import opened Wrappers
  import opened Text
  import opened Decimal

  datatype Interval = Interval(startMs: int, endMs: int)

  /** The SkipRange class: only non-negative, strictly forward intervals exist. */
  type SkipRange = r: Interval | 0 <= r.startMs < r.endMs witness Interval(0, 1)

  function CreateRange(startMs: int, endMs: int): Result<SkipRange> {
    if startMs < 0 || endMs <= startMs then Err else Ok(Interval(startMs, endMs))
  }

  function LengthMs(r: SkipRange): int {
    r.endMs - r.startMs
  }

  predicate FitsInt64(r: SkipRange) {
    r.endMs <= INT64_MAX
  }

  predicate IsInt32(n: int) {
    -INT32_MAX - 1 <= n <= INT32_MAX
  }

  /** static_cast<int>(long long). */
  function ToInt32(v: int): int {
    (v + 0x8000_0000) % 0x1_0000_0000 - 0x8000_0000
  }

  datatype PbfEntry = PbfEntry(index: int, kind: int, range: SkipRange)

  // ---------- one line: index=type*start*length ----------

  /** std::to_string of a signed number. */
  function IntText(n: int): string {
    if n < 0 then "-" + Digits(-n) else Digits(n)
  }

  function PbfLine(i: string, k: string, s: string, l: string): string {
    i + "=" + k + "*" + s + "*" + l
  }

  function SerializePbfLine(e: PbfEntry): string {
    PbfLine(IntText(e.index), IntText(e.kind), IntText(e.range.startMs), IntText(LengthMs(e.range)))
  }

  function ParsePbfLine(line: string): Result<PbfEntry> {
    var eq := IndexOf(line, '=');
    if eq < 0 then Err else
    var rest := line[eq + 1..];
    if rest == "" then Err else
    var star1 := IndexOf(rest, '*');
    if star1 < 0 then Err else
    var star2 := IndexOfFrom(rest, '*', star1 + 1);
    if star2 < 0 then Err else
    ParseFields(line[..eq], rest[..star1], rest[star1 + 1..star2], rest[star2 + 1..])
  }

  function ParseFields(i: string, k: string, s: string, l: string): Result<PbfEntry> {
    var index :- ParseDigitsField(i);
    var kind :- ParseDigitsField(k);
    var startMs :- ParseDigitsField(s);
    var lengthMs :- ParseDigitsField(l);
    var range :- CreateRange(startMs, startMs + lengthMs);
    Ok(PbfEntry(ToInt32(index), ToInt32(kind), range))
  }

  /** The four fields of an acceptable entry line: digits that fit int64, and a positive length. */
  predicate EntryFields(i: string, k: string, s: string, l: string) {
    && ParseDigitsField(i).Ok? && ParseDigitsField(k).Ok?
    && ParseDigitsField(s).Ok? && ParseDigitsField(l).Ok?
    && ValueOf(l) > 0
  }

  function EntryOf(i: string, k: string, s: string, l: string): PbfEntry
    requires EntryFields(i, k, s, l)
  {
    PbfEntry(ToInt32(ValueOf(i)), ToInt32(ValueOf(k)), Interval(ValueOf(s), ValueOf(s) + ValueOf(l)))
  }

  lemma ParseFieldsExactly(i: string, k: string, s: string, l: string)
    ensures ParseFields(i, k, s, l).Ok? <==> EntryFields(i, k, s, l)
    ensures EntryFields(i, k, s, l) ==> ParseFields(i, k, s, l) == Ok(EntryOf(i, k, s, l))
  {
  }

  /** Signed numbers contain no separator, so they never move one. */
  lemma NumberText(s: string)
    requires AllDigits(s) || (s != "" && s[0] == '-' && AllDigits(s[1..]))
    ensures '=' !in s && '*' !in s && '\n' !in s
  {
    if !AllDigits(s) {
      assert forall j | 1 <= j < |s| :: s[j] == s[1..][j - 1];
    }
  }

  lemma FieldsHaveNoSeparators(i: string, k: string, s: string, l: string)
    requires EntryFields(i, k, s, l)
    ensures '=' !in i && '*' !in k && '*' !in s
  {
    NumberText(i);
    NumberText(k);
    NumberText(s);
  }

  lemma ParseOfLine(i: string, k: string, s: string, l: string)
    requires '=' !in i && '*' !in k && '*' !in s
    ensures ParsePbfLine(PbfLine(i, k, s, l)) == ParseFields(i, k, s, l)
  {
    hide ParseFields, IndexOf, IndexOfFrom;
    PbfLineSlices(i, k, s, l);
  }

  lemma PbfLineSlices(i: string, k: string, s: string, l: string)
    requires '=' !in i && '*' !in k && '*' !in s
    ensures var t := PbfLine(i, k, s, l); var rest := k + "*" + s + "*" + l;
            && IndexOf(t, '=') == |i| && t[..|i|] == i && t[|i| + 1..] == rest
            && IndexOf(rest, '*') == |k| && IndexOfFrom(rest, '*', |k| + 1) == |k| + 1 + |s|
            && rest[..|k|] == k && rest[|k| + 1..|k| + 1 + |s|] == s && rest[|k| + 1 + |s| + 1..] == l
  {
    hide IndexOf, IndexOfFrom;
    var rest := k + "*" + s + "*" + l;
    assert PbfLine(i, k, s, l) == i + ['='] + rest;
    IndexAtFirst(i, rest, '=');
    assert rest == k + ['*'] + (s + "*" + l);
    IndexAtFirst(k, s + "*" + l, '*');
    var pre := k + "*";
    assert rest == pre + (s + ['*'] + l);
    IndexFromSuffix(pre, s, l, '*');
  }

  lemma EntryOfSlices(t: string, eq: nat, a: nat, b: nat)
    requires eq < |t| && t[eq] == '='
    requires a < b < |t| - eq - 1 && t[eq + 1..][a] == t[eq + 1..][b] == '*'
    ensures var rest := t[eq + 1..]; t == PbfLine(t[..eq], rest[..a], rest[a + 1..b], rest[b + 1..])
  {
    var rest := t[eq + 1..];
    assert rest == rest[..a] + "*" + rest[a + 1..b] + "*" + rest[b + 1..];
    assert t == t[..eq] + "=" + rest;
  }

  /** A line stands for an entry: it is index=type*start*length in digits, and the range ends at start plus length. */
  ghost predicate Denotes(line: string, e: PbfEntry) {
    exists i, k, s, l :: line == PbfLine(i, k, s, l) && EntryFields(i, k, s, l) && e == EntryOf(i, k, s, l)
  }

  /** A line is accepted as an entry if and only if it stands for it, so it stands for one entry at most. */
  lemma ParsePbfLineExactly(line: string, e: PbfEntry)
    ensures ParsePbfLine(line) == Ok(e) <==> Denotes(line, e)
  {
    hide ParseFields, EntryFields, EntryOf, IndexOf, IndexOfFrom;
    if ParsePbfLine(line).Ok? {
      var eq := IndexOf(line, '=');
      var rest := line[eq + 1..];
      var a := IndexOf(rest, '*');
      var b := IndexOfFrom(rest, '*', a + 1);
      EntryOfSlices(line, eq, a, b);
      ParseFieldsExactly(line[..eq], rest[..a], rest[a + 1..b], rest[b + 1..]);
    }
    if i, k, s, l :| line == PbfLine(i, k, s, l) && EntryFields(i, k, s, l) && e == EntryOf(i, k, s, l) {
      FieldsHaveNoSeparators(i, k, s, l);
      ParseOfLine(i, k, s, l);
      ParseFieldsExactly(i, k, s, l);
    }
  }

  lemma IntTextIsNumber(n: int)
    ensures var s := IntText(n);
            && '=' !in s && '*' !in s && '\n' !in s
            && (n >= 0 ==> IsAllDigits(s) && ValueOf(s) == n)
            && (n < 0 ==> !AllDigits(s))
  {
    var s := IntText(n);
    if n < 0 {
      assert s[0] == '-' && s[1..] == Digits(-n);
    }
    NumberText(s);
  }

  /** A written entry reads back unchanged exactly when its index and type are not negative. */
  lemma PbfLineRoundTrip(e: PbfEntry)
    requires IsInt32(e.index) && IsInt32(e.kind) && FitsInt64(e.range)
    ensures ParsePbfLine(SerializePbfLine(e)) == Ok(e) <==> e.index >= 0 && e.kind >= 0
  {
    hide ParsePbfLine, ParseFields, PbfLine, IntText, ParseDigitsField;
    var i, k := IntText(e.index), IntText(e.kind);
    var s, l := IntText(e.range.startMs), IntText(LengthMs(e.range));
    IntTextIsNumber(e.index); IntTextIsNumber(e.kind);
    IntTextIsNumber(e.range.startMs); IntTextIsNumber(LengthMs(e.range));
    ParseOfLine(i, k, s, l);
    ParseFieldsExactly(i, k, s, l);
  }

  // ---------- a whole section ----------

  const HEADER: string := "[PlaySkip]"

  /** A line that contributes no range: blank, the header, or a "N=" terminator. */
  predicate Silent(line: string) {
    line == "" || line == HEADER || IndexOf(line, '=') == |line| - 1
  }

  /** The ranges one line contributes. */
  function LineRanges(raw: string): Result<seq<SkipRange>> {
    var line := WithoutCr(raw);
    if Silent(line) then Ok([]) else
    var e :- ParsePbfLine(line);
    Ok([e.range])
  }

  function Both(a: Result<seq<SkipRange>>, b: Result<seq<SkipRange>>): Result<seq<SkipRange>> {
    if a.Ok? && b.Ok? then Ok(a.value + b.value) else Err
  }

  function LinesRanges(lines: seq<string>): Result<seq<SkipRange>> {
    if lines == [] then Ok([]) else Both(LineRanges(lines[0]), LinesRanges(lines[1..]))
  }

  /** What a section text means, line by line. */
  function SectionRanges(text: string): Result<seq<SkipRange>> {
    LinesRanges(Split(text, '\n'))
  }

  lemma LinesRangesCons(line: string, rest: seq<string>)
    ensures LinesRanges([line] + rest) == Both(LineRanges(line), LinesRanges(rest))
  {
    assert ([line] + rest)[1..] == rest;
  }

  lemma LinesRangesNone()
    ensures LinesRanges([]) == Ok([])
  {
  }

  lemma {:induction false} LinesRangesConcat(a: seq<string>, b: seq<string>)
    ensures LinesRanges(a + b) == Both(LinesRanges(a), LinesRanges(b))
  {
    hide Both, LineRanges;
    if a == [] {
      assert a + b == b;
      BothUnit(LinesRanges(b));
    } else {
      LinesRangesConcat(a[1..], b);
      LinesRangesCons(a[0], a[1..] + b);
      assert [a[0]] + a[1..] == a;
      assert [a[0]] + (a[1..] + b) == a + b;
      BothAssoc(LineRanges(a[0]), LinesRanges(a[1..]), LinesRanges(b));
    }
  }

  lemma BothUnit(x: Result<seq<SkipRange>>)
    ensures Both(Ok([]), x) == x == Both(x, Ok([]))
  {
    if x.Ok? {
      assert [] + x.value == x.value == x.value + [];
    }
  }

  lemma BothAssoc(x: Result<seq<SkipRange>>, y: Result<seq<SkipRange>>, z: Result<seq<SkipRange>>)
    ensures Both(Both(x, y), z) == Both(x, Both(y, z))
  {
    if x.Ok? && y.Ok? && z.Ok? {
      assert (x.value + y.value) + z.value == x.value + (y.value + z.value);
    }
  }

  lemma SectionOneLine(line: string)
    requires '\n' !in line
    ensures SectionRanges(line) == LineRanges(line)
  {
    SplitNone(line, '\n');
    assert [line] == [line] + [];
    LinesRangesCons(line, []);
    BothUnit(LineRanges(line));
  }

  /** Parsing is a homomorphism on line boundaries. */
  lemma SectionConcat(a: string, b: string)
    ensures SectionRanges(a + "\n" + b) == Both(SectionRanges(a), SectionRanges(b))
  {
    SplitConcat(a, b, '\n');
    LinesRangesConcat(Split(a, '\n'), Split(b, '\n'));
  }

  lemma SectionFirstLine(line: string, rest: string)
    requires '\n' !in line
    ensures SectionRanges(line + "\n" + rest) == Both(LineRanges(line), SectionRanges(rest))
  {
    SectionConcat(line, rest);
    SectionOneLine(line);
  }

  /** Silent lines can be added or dropped on any line boundary. */
  lemma SilentLines(a: string, line: string, b: string)
    requires '\n' !in line && Silent(WithoutCr(line))
    ensures SectionRanges(a + "\n" + line + "\n" + b) == SectionRanges(a + "\n" + b)
    ensures SectionRanges(line + "\n" + b) == SectionRanges(b)
    ensures SectionRanges(a + "\n" + line) == SectionRanges(a)
  {
    SectionFirstLine(line, b);
    BothUnit(SectionRanges(b));
    SectionConcat(a, line);
    SectionOneLine(line);
    BothUnit(SectionRanges(a));
    SectionConcat(a + "\n" + line, b);
    SectionConcat(a, b);
  }

  lemma {:induction false} LinesOkExactly(lines: seq<string>)
    ensures LinesRanges(lines).Ok? <==>
            forall i | 0 <= i < |lines| :: Silent(WithoutCr(lines[i])) || ParsePbfLine(WithoutCr(lines[i])).Ok?
  {
    hide ParsePbfLine, Silent, WithoutCr;
    if lines != [] {
      LinesOkExactly(lines[1..]);
      assert forall i | 1 <= i < |lines| :: lines[i] == lines[1..][i - 1];
    }
  }

  /** A section is accepted exactly when each of its lines is silent or a well-formed entry. */
  lemma SectionOkExactly(text: string)
    ensures var lines := Split(text, '\n');
            SectionRanges(text).Ok? <==>
            forall i | 0 <= i < |lines| :: Silent(WithoutCr(lines[i])) || ParsePbfLine(WithoutCr(lines[i])).Ok?
  {
    hide *;
    SectionIsLines(text);
    LinesOkExactly(Split(text, '\n'));
  }

  lemma SectionIsLines(text: string)
    ensures SectionRanges(text) == LinesRanges(Split(text, '\n'))
  {
  }

  /** ParsePlaySkipSection: the newline-scanning loop computes the line-by-line meaning. */
  method ParsePlaySkipSection(section: string) returns (r: Result<seq<SkipRange>>)
    ensures r == SectionRanges(section)
  {
    hide SectionRanges, ParsePbfLine, IndexOf, IndexOfFrom;
    var ranges: seq<SkipRange> := [];
    var pos := 0;
    assert section[0..] == section;
    BothUnit(SectionRanges(section));
    while pos <= |section|
      invariant 0 <= pos <= |section|
      invariant SectionRanges(section) == Both(Ok(ranges), SectionRanges(section[pos..]))
      decreases |section| - pos
    {
      var newline := IndexOfFrom(section, '\n', pos);
      var raw := if newline < 0 then section[pos..] else section[pos..newline];
      var line := WithoutCr(raw);
      LineThenRest(section, pos);
      ghost var rest := if newline < 0 then Ok([]) else SectionRanges(section[newline + 1..]);
      BothAssoc(Ok(ranges), LineRanges(raw), rest);
      BothUnit(Ok(ranges));
      if line != "" && line != HEADER {
        var eq := IndexOf(line, '=');
        var isTerminator := eq >= 0 && line[eq + 1..] == "";
        if !isTerminator {
          var e := ParsePbfLine(line);
          if e.Err? {
            return Err;
          }
          ranges := ranges + [e.value.range];
        }
      }
      if newline < 0 {
        BothUnit(Ok(ranges));
        return Ok(ranges);
      }
      pos := newline + 1;
    }
  }

  /** The first line of what is left, and the rest. */
  lemma LineThenRest(s: string, pos: nat)
    requires pos <= |s|
    ensures var n := IndexOfFrom(s, '\n', pos);
            SectionRanges(s[pos..]) ==
            if n < 0 then Both(LineRanges(s[pos..]), Ok([]))
            else Both(LineRanges(s[pos..n]), SectionRanges(s[n + 1..]))
  {
    hide *;
    var n := IndexOfFrom(s, '\n', pos);
    if n < 0 {
      assert forall j | 0 <= j < |s| - pos :: s[pos..][j] == s[pos + j];
      SectionOneLine(s[pos..]);
      BothUnit(LineRanges(s[pos..]));
    } else {
      assert s[pos..] == s[pos..n] + "\n" + s[n + 1..];
      SectionFirstLine(s[pos..n], s[n + 1..]);
    }
  }

  // ---------- building a section ----------

  /** One entry line per range from `from` on, then the terminator, each still ending in '\r'. */
  function EntryLines(ranges: seq<SkipRange>, kind: int, from: nat): seq<string>
    requires from <= |ranges|
    decreases |ranges| - from
  {
    if from == |ranges| then [IntText(from) + "=\r"]
    else [SerializePbfLine(PbfEntry(from, kind, ranges[from])) + "\r"] + EntryLines(ranges, kind, from + 1)
  }

  function SectionText(ranges: seq<SkipRange>, kind: int): string {
    Unlines([HEADER + "\r"] + EntryLines(ranges, kind, 0))
  }

  method BuildPlaySkipSection(ranges: seq<SkipRange>, kind: int) returns (section: string)
    ensures section == SectionText(ranges, kind)
  {
    hide SerializePbfLine, IntText, Unlines;
    section := HEADER + "\r\n";
    UnlinesCons(HEADER + "\r", EntryLines(ranges, kind, 0));
    assert HEADER + "\r\n" == HEADER + "\r" + "\n";
    var index := 0;
    while index < |ranges|
      invariant 0 <= index <= |ranges|
      invariant section + Unlines(EntryLines(ranges, kind, index)) == SectionText(ranges, kind)
    {
      var line := SerializePbfLine(PbfEntry(index, kind, ranges[index]));
      CrLfLine(section, line, EntryLines(ranges, kind, index + 1));
      section := section + line;
      section := section + "\r\n";
      index := index + 1;
    }
    CrLfLine(section, IntText(index) + "=", []);
    UnlinesNone();
    assert IntText(index) + "=" + "\r" == IntText(index) + "=\r";
    assert [IntText(index) + "=\r"] + [] == [IntText(index) + "=\r"];
    section := section + (IntText(index) + "=\r\n");
  }

  /** Appending a CRLF-terminated line is appending one line of Unlines. */
  lemma CrLfLine(before: string, line: string, rest: seq<string>)
    ensures before + Unlines([line + "\r"] + rest) == before + line + "\r\n" + Unlines(rest)
  {
    UnlinesCons(line + "\r", rest);
    assert line + "\r" + "\n" == line + "\r\n";
  }

  lemma {:induction false} UnlinesRanges(lines: seq<string>)
    requires forall i | 0 <= i < |lines| :: '\n' !in lines[i]
    ensures SectionRanges(Unlines(lines)) == LinesRanges(lines)
  {
    if lines == [] {
      SectionOneLine("");
    } else {
      UnlinesRanges(lines[1..]);
      SectionFirstLine(lines[0], Unlines(lines[1..]));
    }
  }

  lemma EntryLineRanges(e: PbfEntry)
    requires 0 <= e.index <= INT32_MAX && 0 <= e.kind <= INT32_MAX && FitsInt64(e.range)
    ensures LineRanges(SerializePbfLine(e) + "\r") == Ok([e.range])
    ensures '\n' !in SerializePbfLine(e) + "\r"
  {
    hide ParsePbfLine, SerializePbfLine, IndexOf, Silent;
    var line := SerializePbfLine(e);
    PbfLineRoundTrip(e);
    EntryLineShape(e);
    assert WithoutCr(line + "\r") == line;
  }

  lemma EntryLineShape(e: PbfEntry)
    requires e.index >= 0 && e.kind >= 0
    ensures !Silent(SerializePbfLine(e)) && '\n' !in SerializePbfLine(e)
  {
    hide IntText, IndexOf, IndexOfFrom;
    var line := SerializePbfLine(e);
    var i, k, s, l := IntText(e.index), IntText(e.kind), IntText(e.range.startMs), IntText(LengthMs(e.range));
    IntTextIsNumber(e.index); IntTextIsNumber(e.kind);
    IntTextIsNumber(e.range.startMs); IntTextIsNumber(LengthMs(e.range));
    PbfLineSlices(i, k, s, l);
    assert line[0] == i[0] && IsDigit(i[0]) && !IsDigit(HEADER[0]);
  }

  lemma TerminatorLine(n: nat)
    ensures LineRanges(IntText(n) + "=\r") == Ok([])
    ensures '\n' !in IntText(n) + "=\r"
  {
    var line := IntText(n) + ['='] + "";
    IntTextIsNumber(n);
    IndexAtFirst(IntText(n), "", '=');
    assert WithoutCr(IntText(n) + "=\r") == line;
  }

  lemma {:induction false} EntryLinesRanges(ranges: seq<SkipRange>, kind: int, from: nat)
    requires from <= |ranges| <= INT32_MAX && 0 <= kind <= INT32_MAX
    requires forall i | 0 <= i < |ranges| :: FitsInt64(ranges[i])
    ensures LinesRanges(EntryLines(ranges, kind, from)) == Ok(ranges[from..])
    ensures var lines := EntryLines(ranges, kind, from); forall i | 0 <= i < |lines| :: '\n' !in lines[i]
    decreases |ranges| - from
  {
    hide LineRanges, SerializePbfLine, IntText, LinesRanges, Silent, WithoutCr;
    if from == |ranges| {
      TerminatorLine(from);
      assert EntryLines(ranges, kind, from) == [IntText(from) + "=\r"] + [];
      LinesRangesCons(IntText(from) + "=\r", []);
      LinesRangesNone();
      BothUnit(Ok([]));
      assert ranges[from..] == [];
    } else {
      var e := PbfEntry(from, kind, ranges[from]);
      EntryLineRanges(e);
      EntryLinesRanges(ranges, kind, from + 1);
      LinesRangesCons(SerializePbfLine(e) + "\r", EntryLines(ranges, kind, from + 1));
      assert [ranges[from]] + ranges[from + 1..] == ranges[from..];
      assert EntryLines(ranges, kind, from)
          == [SerializePbfLine(e) + "\r"] + EntryLines(ranges, kind, from + 1);
    }
  }

  /** Every list of ranges, the empty one included, survives being written and read back, in order. */
  lemma SectionRoundTrip(ranges: seq<SkipRange>, kind: int)
    requires |ranges| <= INT32_MAX && 0 <= kind <= INT32_MAX
    requires forall i | 0 <= i < |ranges| :: FitsInt64(ranges[i])
    ensures SectionRanges(SectionText(ranges, kind)) == Ok(ranges)
  {
    hide EntryLines, LinesRanges, SectionRanges;
    var header := HEADER + "\r";
    assert WithoutCr(header) == HEADER;
    var lines := EntryLines(ranges, kind, 0);
    EntryLinesRanges(ranges, kind, 0);
    UnlinesRanges([header] + lines);
    LinesRangesCons(header, lines);
    BothUnit(LinesRanges(lines));
    assert ranges[0..] == ranges;
  }
}
