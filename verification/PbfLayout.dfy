/** The written [PlaySkip] section character by character, and what each line of a section gives. */
module PbfLayout {
  import opened Wrappers
  import opened Text
  import opened Decimal
  import opened Pbf

  /** The truncation to 32 bits is the number in int32 range that differs by a multiple of 2^32. */
  lemma ToInt32Exactly(v: int, r: int)
    ensures ToInt32(v) == r <==> -0x8000_0000 <= r <= 0x7FFF_FFFF && (v - r) % 0x1_0000_0000 == 0
  {
    var d := v - ToInt32(v);
    assert d % 0x1_0000_0000 == 0;
    if -0x8000_0000 <= r <= 0x7FFF_FFFF && (v - r) % 0x1_0000_0000 == 0 {
      assert (r - ToInt32(v)) % 0x1_0000_0000 == 0;
    }
  }

  // ---------- the written section ----------

  /** Entry line `i`: its number, the type, the start and the length. */
  function EntryText(i: nat, kind: int, range: SkipRange): string {
    Digits(i) + "=" + IntText(kind) + "*" + Digits(range.startMs) + "*" + Digits(range.endMs - range.startMs)
  }

  lemma EntryLinesStep(ranges: seq<SkipRange>, kind: int, from: nat)
    requires from < |ranges|
    ensures EntryLines(ranges, kind, from) ==
            [EntryText(from, kind, ranges[from]) + "\r"] + EntryLines(ranges, kind, from + 1)
  {
    hide EntryText, SerializePbfLine;
    EntryTextLine(from, kind, ranges[from]);
  }

  lemma {:induction false} EntryLinesAre(ranges: seq<SkipRange>, kind: int, from: nat)
    requires from <= |ranges|
    ensures var lines := EntryLines(ranges, kind, from); var n := |ranges| - from;
            && |lines| == n + 1 && lines[n] == Digits(|ranges|) + "=\r"
            && forall i | from <= i < |ranges| :: lines[i - from] == EntryText(i, kind, ranges[i]) + "\r"
    decreases |ranges| - from
  {
    hide EntryText, EntryLines, Digits;
    if from == |ranges| {
      NoEntryLines(ranges, kind);
    } else {
      EntryLinesAre(ranges, kind, from + 1);
      EntryLinesStep(ranges, kind, from);
      var lines, rest := EntryLines(ranges, kind, from), EntryLines(ranges, kind, from + 1);
      forall i | from <= i < |ranges|
        ensures lines[i - from] == EntryText(i, kind, ranges[i]) + "\r"
      {
        if i > from {
          assert lines[i - from] == rest[i - (from + 1)];
        }
      }
    }
  }

  lemma NoEntryLines(ranges: seq<SkipRange>, kind: int)
    ensures EntryLines(ranges, kind, |ranges|) == [Digits(|ranges|) + "=\r"]
  {
    hide Digits;
    IntTextOf(|ranges|);
  }

  lemma EntryTextLine(i: nat, kind: int, range: SkipRange)
    ensures '\n' !in EntryText(i, kind, range) + "\r" && '\n' !in Digits(i) + "=\r"
    ensures EntryText(i, kind, range) == SerializePbfLine(PbfEntry(i, kind, range))
  {
    hide Digits, IntText;
    IntTextOf(i);
    IntTextOf(range.startMs);
    IntTextOf(range.endMs - range.startMs);
    IntTextIsNumber(i);
    IntTextIsNumber(kind);
    IntTextIsNumber(range.startMs);
    IntTextIsNumber(range.endMs - range.startMs);
  }

  /** A number is printed in digits, after a '-' if it is negative. */
  lemma IntTextOf(n: int)
    ensures n >= 0 ==> IntText(n) == Digits(n)
    ensures n < 0 ==> IntText(n) == "-" + Digits(-n)
  {
  }

  /**
   * The lines of a written section: the header, entry line i for range i, in order, and the number of ranges with
   * a bare '=', each ended by CR LF.
   */
  lemma WrittenLines(ranges: seq<SkipRange>, kind: int)
    ensures var lines := Split(SectionText(ranges, kind), '\n'); var n := |ranges|;
            && |lines| == n + 3 && lines[0] == "[PlaySkip]\r"
            && (forall i | 0 <= i < n :: lines[i + 1] == EntryText(i, kind, ranges[i]) + "\r")
            && lines[n + 1] == Digits(n) + "=\r" && lines[n + 2] == ""
  {
    hide EntryLines, EntryText, Digits, Split, Unlines;
    var entries, n := EntryLines(ranges, kind, 0), |ranges|;
    var all := [HEADER + "\r"] + entries;
    EntryLinesAre(ranges, kind, 0);
    forall i | 0 <= i < |all|
      ensures '\n' !in all[i]
    {
      if i == 0 {
        assert all[0] == "[PlaySkip]\r";
      } else if i <= n {
        EntryTextLine(i - 1, kind, ranges[i - 1]);
        assert all[i] == entries[(i - 1) - 0] == EntryText(i - 1, kind, ranges[i - 1]) + "\r";
      } else {
        EntryTextLine(n, kind, Interval(0, 1));
        assert all[i] == entries[n];
      }
    }
    SplitUnlines(all);
    forall i | 0 <= i < n
      ensures (all + [""])[i + 1] == EntryText(i, kind, ranges[i]) + "\r"
    {
      assert (all + [""])[i + 1] == entries[i - 0] == EntryText(i, kind, ranges[i]) + "\r";
    }
  }

  /** Each entry line of a written section is read as its own number, the type and its range. */
  lemma WrittenEntries(ranges: seq<SkipRange>, kind: int, i: nat)
    requires i < |ranges| <= INT32_MAX && 0 <= kind <= INT32_MAX && FitsInt64(ranges[i])
    ensures var lines := Split(SectionText(ranges, kind), '\n');
            && i + 1 < |lines|
            && var line := lines[i + 1]; var k := |line| - 1;
               k >= 0 && line[k] == '\r' && ParsePbfLine(line[..k]) == Ok(PbfEntry(i, kind, ranges[i]))
  {
    hide Split, SectionText, EntryText, ParsePbfLine, SerializePbfLine;
    WrittenLines(ranges, kind);
    EntryTextLine(i, kind, ranges[i]);
    PbfLineRoundTrip(PbfEntry(i, kind, ranges[i]));
    var t := EntryText(i, kind, ranges[i]);
    assert (t + "\r")[..|t|] == t;
  }

  // ---------- reading a line ----------

  /** A blank line, the section header, or text followed by the line's only '='. */
  ghost predicate IsSilent(line: string) {
    line == "" || line == "[PlaySkip]" || exists text :: line == text + "=" && '=' !in text
  }

  lemma SilentExactly(line: string)
    ensures Silent(line) <==> IsSilent(line)
  {
    hide IndexOf;
    if line != "" && IndexOf(line, '=') == |line| - 1 {
      var text := line[..|line| - 1];
      assert line == text + "=" && '=' !in text;
    }
    if text :| line == text + "=" && '=' !in text {
      assert line == text + ['='] + "";
      IndexAtFirst(text, "", '=');
    }
  }

  /** What a line without its CR gives: nothing, or the range of the entry it stands for. */
  ghost predicate Gives(line: string, ranges: seq<SkipRange>) {
    (IsSilent(line) && ranges == []) || exists e: PbfEntry :: Denotes(line, e) && ranges == [e.range]
  }

  lemma EntryIsNotSilent(line: string, e: PbfEntry)
    requires Denotes(line, e)
    ensures !Silent(line)
  {
    hide ParseFields, EntryOf;
    ParsePbfLineExactly(line, e);
  }

  /** A line is accepted with these ranges if and only if it gives them. One CR at its end does not matter. */
  lemma LineExactly(line: string, ranges: seq<SkipRange>)
    ensures LineRanges(line + "\r") == Ok(ranges) <==> Gives(line, ranges)
    ensures line == "" || line[|line| - 1] != '\r' ==> LineRanges(line) == LineRanges(line + "\r")
  {
    hide ParsePbfLine, Silent, IsSilent, Denotes;
    assert WithoutCr(line + "\r") == line;
    SilentExactly(line);
    var r := ParsePbfLine(line);
    if r.Ok? {
      ParsePbfLineExactly(line, r.value);
    }
    if e: PbfEntry :| Denotes(line, e) && ranges == [e.range] {
      EntryIsNotSilent(line, e);
      ParsePbfLineExactly(line, e);
    }
  }

  /** A section whose lines, ended by LF or CR LF, give these ranges is read as all of them in order. */
  lemma SectionGives(lines: seq<string>, crs: seq<bool>, parts: seq<seq<SkipRange>>)
    requires |lines| == |crs| == |parts| >= 1
    requires forall i | 0 <= i < |lines| :: '\n' !in lines[i] && '\r' !in lines[i] && Gives(lines[i], parts[i])
    ensures SectionRanges(Join(Ended(lines, crs), '\n')) == Ok(Flatten(parts))
  {
    hide Gives, Split, Join, LineRanges, LinesRanges;
    var raw := Ended(lines, crs);
    forall i | 0 <= i < |raw|
      ensures '\n' !in raw[i] && LineRanges(raw[i]) == Ok(parts[i])
    {
      LineExactly(lines[i], parts[i]);
    }
    SplitJoin(raw, '\n');
    LinesGive(raw, parts);
  }

  /** Lines with the CRs that some of them end in. */
  function Ended(lines: seq<string>, crs: seq<bool>): (r: seq<string>)
    requires |lines| == |crs|
    ensures |r| == |lines|
  {
    seq(|lines|, i requires 0 <= i < |lines| => if crs[i] then lines[i] + "\r" else lines[i])
  }

  lemma {:induction false} LinesGive(raw: seq<string>, parts: seq<seq<SkipRange>>)
    requires |parts| == |raw| && forall i | 0 <= i < |raw| :: LineRanges(raw[i]) == Ok(parts[i])
    ensures LinesRanges(raw) == Ok(Flatten(parts))
  {
    hide LineRanges;
    if raw != [] {
      LinesGive(raw[1..], parts[1..]);
    }
  }

  function Flatten(parts: seq<seq<SkipRange>>): seq<SkipRange> {
    if parts == [] then [] else parts[0] + Flatten(parts[1..])
  }
}
