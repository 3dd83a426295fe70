/** The commented config.ini that SerializeConfig writes, and its way back through ParseConfig. */
module ConfigFile {
  import opened Wrappers
  import opened Text
  import opened Decimal
  import opened Hotkeys
  import opened Config
  import Pbf

  /** A comment line of the written file; its wording is not modelled. */
  type Comment = s: string | |s| >= 1 && s[0] == ';' && '\n' !in s witness ";"

  function Pair(key: string, value: string): string {
    key + "=" + value
  }

  function IntroLines(notes: seq<Comment>): seq<string>
    requires |notes| == 11
  {
    [notes[0], notes[1], notes[2], ""]
  }

  function HotkeyLines(c: Config, notes: seq<Comment>): seq<string>
    requires |notes| == 11
  {
    ["[Hotkeys]", notes[3], notes[4],
     Pair("NewMark", HotkeyText(c.newMark)), Pair("MarkStart", HotkeyText(c.markStart)),
     Pair("MarkEnd", HotkeyText(c.markEnd)), notes[5], notes[6],
     Pair("Global", BoolText(c.globalHotkeys)), ""]
  }

  function SkipLines(c: Config, notes: seq<Comment>): seq<string>
    requires |notes| == 11
  {
    ["[Skip]", notes[7], notes[8], Pair("AutoEnable", BoolText(c.autoEnable)), ""]
  }

  function OsdLines(c: Config, notes: seq<Comment>): seq<string>
    requires |notes| == 11
  {
    ["[Osd]", notes[9], Pair("Enabled", BoolText(c.osdEnabled)),
     Pair("DurationMs", Pbf.IntText(c.osdDurationMs)), ""]
  }

  function LogLines(c: Config, notes: seq<Comment>): seq<string>
    requires |notes| == 11
  {
    ["[Log]", notes[10], Pair("Verbosity", SeverityName(c.verbosity))]
  }

  function ConfigLines(c: Config, notes: seq<Comment>): seq<string>
    requires |notes| == 11
  {
    IntroLines(notes) + HotkeyLines(c, notes) + SkipLines(c, notes) + OsdLines(c, notes) + LogLines(c, notes)
  }

  function ConfigText(c: Config, notes: seq<Comment>): string
    requires |notes| == 11
  {
    Unlines(ConfigLines(c, notes))
  }

  // ---------- writing ----------

  /** What is written while line `i` of a block is reached, after the lines before the block. */
  ghost function Written(before: seq<string>, block: seq<string>, i: nat): string
    requires i <= |block|
  {
    Unlines(before + block[..i])
  }

  lemma WrittenNext(before: seq<string>, block: seq<string>, i: nat)
    requires i < |block|
    ensures Written(before, block, i + 1) == Written(before, block, i) + block[i] + "\n"
  {
    hide Unlines;
    assert before + block[..i + 1] == before + block[..i] + [block[i]];
    UnlinesSnoc(before + block[..i], block[i]);
  }

  lemma WrittenEnds(before: seq<string>, block: seq<string>)
    ensures Written(before, block, 0) == Unlines(before)
    ensures Written(before, block, |block|) == Unlines(before + block)
  {
    hide Unlines;
    assert before + block[..0] == before;
    assert block[..|block|] == block;
  }

  /** One `text += line + "\n"`. */
  method Line(text: string, line: string, ghost before: seq<string>, ghost block: seq<string>, ghost i: nat)
      returns (r: string)
    requires i < |block| && line == block[i] && text == Written(before, block, i)
    ensures r == Written(before, block, i + 1)
  {
    hide Written;
    WrittenNext(before, block, i);
    r := text + line + "\n";
  }

  /** One `text += key + "=" + value + "\n"`. */
  method Assignment(text: string, key: string, value: string,
                    ghost before: seq<string>, ghost block: seq<string>, ghost i: nat) returns (r: string)
    requires i < |block| && Pair(key, value) == block[i] && text == Written(before, block, i)
    ensures r == Written(before, block, i + 1)
  {
    hide Written;
    WrittenNext(before, block, i);
    r := text + (key + "=" + value) + "\n";
  }

  method WriteIntro(notes: seq<Comment>) returns (r: string)
    requires |notes| == 11
    ensures r == Unlines(IntroLines(notes))
  {
    hide Unlines, Written;
    ghost var b := IntroLines(notes);
    UnlinesNone();
    WrittenEnds([], b);
    assert [] + b == b;
    r := Line("", notes[0], [], b, 0);
    r := Line(r, notes[1], [], b, 1);
    r := Line(r, notes[2], [], b, 2);
    r := Line(r, "", [], b, 3);
  }

  method WriteHotkeys(text: string, c: Config, notes: seq<Comment>, ghost before: seq<string>) returns (r: string)
    requires |notes| == 11 && text == Unlines(before)
    ensures r == Unlines(before + HotkeyLines(c, notes))
  {
    hide Unlines, Written, HotkeyText, Pair;
    ghost var b := HotkeyLines(c, notes);
    WrittenEnds(before, b);
    r := Line(text, "[Hotkeys]", before, b, 0);
    r := Line(r, notes[3], before, b, 1);
    r := Line(r, notes[4], before, b, 2);
    var spec := FormatHotkeySpec(c.newMark);
    r := Assignment(r, "NewMark", spec, before, b, 3);
    spec := FormatHotkeySpec(c.markStart);
    r := Assignment(r, "MarkStart", spec, before, b, 4);
    spec := FormatHotkeySpec(c.markEnd);
    r := Assignment(r, "MarkEnd", spec, before, b, 5);
    r := Line(r, notes[5], before, b, 6);
    r := Line(r, notes[6], before, b, 7);
    r := Assignment(r, "Global", if c.globalHotkeys then "true" else "false", before, b, 8);
    r := Line(r, "", before, b, 9);
  }

  method WriteSkip(text: string, c: Config, notes: seq<Comment>, ghost before: seq<string>) returns (r: string)
    requires |notes| == 11 && text == Unlines(before)
    ensures r == Unlines(before + SkipLines(c, notes))
  {
    hide Unlines, Written, Pair;
    ghost var b := SkipLines(c, notes);
    WrittenEnds(before, b);
    r := Line(text, "[Skip]", before, b, 0);
    r := Line(r, notes[7], before, b, 1);
    r := Line(r, notes[8], before, b, 2);
    r := Assignment(r, "AutoEnable", if c.autoEnable then "true" else "false", before, b, 3);
    r := Line(r, "", before, b, 4);
  }

  method WriteOsd(text: string, c: Config, notes: seq<Comment>, ghost before: seq<string>) returns (r: string)
    requires |notes| == 11 && text == Unlines(before)
    ensures r == Unlines(before + OsdLines(c, notes))
  {
    hide Unlines, Written, Pair, Pbf.IntText;
    ghost var b := OsdLines(c, notes);
    WrittenEnds(before, b);
    r := Line(text, "[Osd]", before, b, 0);
    r := Line(r, notes[9], before, b, 1);
    r := Assignment(r, "Enabled", if c.osdEnabled then "true" else "false", before, b, 2);
    r := Assignment(r, "DurationMs", Pbf.IntText(c.osdDurationMs), before, b, 3);
    r := Line(r, "", before, b, 4);
  }

  method WriteLog(text: string, c: Config, notes: seq<Comment>, ghost before: seq<string>) returns (r: string)
    requires |notes| == 11 && text == Unlines(before)
    ensures r == Unlines(before + LogLines(c, notes))
  {
    hide Unlines, Written, Pair, SeverityName;
    ghost var b := LogLines(c, notes);
    WrittenEnds(before, b);
    r := Line(text, "[Log]", before, b, 0);
    r := Line(r, notes[10], before, b, 1);
    r := Assignment(r, "Verbosity", SeverityName(c.verbosity), before, b, 2);
  }

  method SerializeConfig(c: Config, notes: seq<Comment>) returns (text: string)
    requires |notes| == 11
    ensures text == ConfigText(c, notes)
  {
    hide Unlines, IntroLines, HotkeyLines, SkipLines, OsdLines, LogLines;
    ghost var before := IntroLines(notes);
    text := WriteIntro(notes);
    text := WriteHotkeys(text, c, notes, before);
    before := before + HotkeyLines(c, notes);
    text := WriteSkip(text, c, notes, before);
    before := before + SkipLines(c, notes);
    text := WriteOsd(text, c, notes, before);
    text := WriteLog(text, c, notes, before + OsdLines(c, notes));
  }

  // ---------- what the written lines do ----------

  lemma FirstCharKept(s: string)
    requires s != "" && !IsSpace(s[0])
    ensures Trim(s) != "" && Trim(s)[0] == s[0]
  {
    hide TrimRight, IsSpace;
    var pad := TrimRightParts(s);
    assert TrimRight(s) == "" ==> s == pad;
  }

  lemma CommentIsQuiet(s: Comment, section: Section)
    ensures LineEffect(s, section) == Quiet
  {
    hide Trim, IndexOf, PairEffect, HeaderEffect;
    var line := WithoutCr(s);
    assert line != "" && line[0] == ';';
    FirstCharKept(line);
  }

  lemma BlankIsQuiet(section: Section)
    ensures LineEffect("", section) == Quiet
  {
    TrimTrimmed("");
  }

  /** A plain key and value, not padded, have the effect of the pair. */
  lemma PairLine(key: string, value: string, section: Section)
    requires key != "" && value != "" && Trimmed(key) && Trimmed(value) && '=' !in key
    requires key[0] != ';' && key[0] != '#' && key[0] != '['
    ensures LineEffect(Pair(key, value), section) == PairEffect(section, Lower(key), value)
  {
    hide Trim, IndexOf, PairEffect, HeaderEffect, Lower;
    var line := key + ['='] + value;
    assert line[0] == key[0] && line[|line| - 1] == value[|value| - 1];
    assert WithoutCr(line) == line;
    TrimTrimmed(line);
    IndexAtFirst(key, value, '=');
    assert line[..|key|] == key && line[|key| + 1..] == value;
    TrimTrimmed(key);
    TrimTrimmed(value);
  }

  lemma HeaderLine(name: string, section: Section)
    ensures var line := "[" + name + "]"; LineEffect(line, section) == Enter(SectionNamed(name))
  {
    hide Trim, IndexOf, PairEffect, SectionNamed;
    var line := "[" + name + "]";
    assert line[0] == '[' && line[|line| - 1] == ']';
    TrimTrimmed(line);
    assert line[1..|line| - 1] == name;
  }

  lemma Headers(s: Section)
    ensures LineEffect("[Hotkeys]", s) == Enter(InHotkeys)
    ensures LineEffect("[Skip]", s) == Enter(InSkip)
    ensures LineEffect("[Osd]", s) == Enter(InOsd)
    ensures LineEffect("[Log]", s) == Enter(InLog)
  {
    hide LineEffect;
    assert Lower("Hotkeys") == "hotkeys" && Lower("Skip") == "skip" && Lower("Osd") == "osd" && Lower("Log") == "log";
    assert "[" + "Hotkeys" + "]" == "[Hotkeys]";
    assert "[" + "Skip" + "]" == "[Skip]";
    assert "[" + "Osd" + "]" == "[Osd]";
    assert "[" + "Log" + "]" == "[Log]";
    HeaderLine("Hotkeys", s);
    HeaderLine("Skip", s);
    HeaderLine("Osd", s);
    HeaderLine("Log", s);
  }

  lemma {:induction false} LastOfJoin(parts: seq<string>, last: string)
    requires last != ""
    ensures var t := Join(parts + [last], '+'); t != "" && t[|t| - 1] == last[|last| - 1]
  {
    hide Join;
    if parts == [] {
      assert [] + [last] == [last];
      JoinOne(last, '+');
    } else {
      JoinSnoc(parts, last, '+');
    }
  }

  lemma {:induction false} JoinChars(parts: seq<string>)
    requires |parts| >= 1 && forall i | 0 <= i < |parts| :: '\n' !in parts[i]
    ensures '\n' !in Join(parts, '+')
  {
    if |parts| > 1 {
      JoinChars(parts[1..]);
    }
  }

  /** A printed hotkey is a non-empty, unpadded one-line value. */
  lemma HotkeyTextShape(spec: HotkeySpec)
    ensures var t := HotkeyText(spec); t != "" && Trimmed(t) && '\n' !in t
  {
    hide Join, KeyText, ModifierTexts, HexText;
    var tokens, key := ModifierTexts(spec.modifiers), KeyText(spec.virtualKey);
    var all := tokens + [key];
    KeyTextShape(spec.virtualKey);
    ModifierTextsShape(spec.modifiers);
    ModifierTextsPlain(spec.modifiers);
    KeyTextPlain(spec.virtualKey);
    LastOfJoin(tokens, key);
    JoinChars(all);
    FirstOfJoin(all);
  }

  lemma FirstOfJoin(parts: seq<string>)
    requires |parts| >= 1 && parts[0] != ""
    ensures Join(parts, '+') != "" && Join(parts, '+')[0] == parts[0][0]
  {
  }

  lemma ModifierTextsPlain(m: bv32)
    ensures forall i | 0 <= i < |ModifierTexts(m)| :: ModifierTexts(m)[i] != "" && '\n' !in ModifierTexts(m)[i]
  {
    var all := ["Ctrl", "Alt", "Shift", "Win"];
    assert forall i | 0 <= i < |ModifierTexts(m)| :: ModifierTexts(m)[i] in all;
  }

  lemma KeyTextPlain(vk: nat)
    ensures '\n' !in KeyText(vk)
  {
    var d := HexDigits(vk);
    assert forall i | 0 <= i < |d| :: d[i] != '\n';
  }

  // ---------- the way back ----------

  /** One assignment line of the written file. */
  lemma Assigned(st: State, key: string, value: string, f: Field, v: Value)
    requires key != "" && value != "" && Trimmed(key) && Trimmed(value) && '=' !in key
    requires key[0] != ';' && key[0] != '#' && key[0] != '['
    requires PairEffect(st.section, Lower(key), value) == Assign(f, v) && Fits(f, v)
    ensures Step(st, Pair(key, value)) == st.(config := Put(st.config, f, v))
  {
    hide PairEffect, LineEffect, Lower, Put, Fits, Trimmed, Pair;
    PairLine(key, value, st.section);
  }

  lemma HotkeyAssigned(st: State, key: string, spec: HotkeySpec, f: Field)
    requires st.section == InHotkeys && WellFormedHotkey(spec)
    requires (key, f) in {("NewMark", NewMark), ("MarkStart", MarkStart), ("MarkEnd", MarkEnd)}
    ensures Step(st, Pair(key, HotkeyText(spec))) == st.(config := Put(st.config, f, Key(spec)))
  {
    hide HotkeyText, HotkeyOf, Step, Pair, WellFormedHotkey;
    assert Lower("NewMark") == "newmark" && Lower("MarkStart") == "markstart" && Lower("MarkEnd") == "markend";
    FormatParseRoundTrip(spec);
    HotkeyTextShape(spec);
    Assigned(st, key, HotkeyText(spec), f, Key(spec));
  }

  lemma BoolRoundTrip(b: bool)
    ensures BoolNamed(BoolText(b)) == Some(b)
    ensures BoolText(b) != "" && Trimmed(BoolText(b)) && '\n' !in BoolText(b)
  {
    hide Trim;
    TrimTrimmed(BoolText(b));
    assert Lower("true") == "true" && Lower("false") == "false";
  }

  lemma FlagAssigned(st: State, key: string, b: bool, f: Field)
    requires (st.section, key, f) in
             {(InHotkeys, "Global", Global), (InSkip, "AutoEnable", AutoEnable), (InOsd, "Enabled", OsdEnabled)}
    ensures Step(st, Pair(key, BoolText(b))) == st.(config := Put(st.config, f, Flag(b)))
  {
    hide BoolText, BoolNamed, Step, Pair;
    assert Lower("Global") == "global" && Lower("AutoEnable") == "autoenable" && Lower("Enabled") == "enabled";
    BoolRoundTrip(b);
    Assigned(st, key, BoolText(b), f, Flag(b));
  }

  lemma DurationAssigned(st: State, ms: nat)
    requires st.section == InOsd && ms <= INT64_MAX
    ensures Step(st, Pair("DurationMs", Pbf.IntText(ms))) == st.(config := Put(st.config, OsdDuration, Millis(ms)))
    ensures '\n' !in Pbf.IntText(ms)
  {
    hide Step, Pair, Digits, Trim;
    assert Lower("DurationMs") == "durationms";
    var t := Digits(ms);
    assert IsDigit(t[0]) && IsDigit(t[|t| - 1]);
    TrimTrimmed(t);
    Assigned(st, "DurationMs", t, OsdDuration, Millis(ms));
  }

  lemma LevelAssigned(st: State, s: Severity)
    requires st.section == InLog
    ensures Step(st, Pair("Verbosity", SeverityName(s))) == st.(config := Put(st.config, Verbosity, Level(s)))
  {
    hide Step, Pair, Trim;
    assert Lower("Verbosity") == "verbosity";
    assert Lower("Info") == "info" && Lower("Warn") == "warn" && Lower("Error") == "error";
    TrimTrimmed(SeverityName(s));
    Assigned(st, "Verbosity", SeverityName(s), Verbosity, Level(s));
  }

  lemma QuietStep(st: State, s: string)
    requires LineEffect(s, st.section) == Quiet
    ensures Step(st, s) == st
  {
    hide LineEffect;
  }

  lemma EnterStep(st: State, s: string, section: Section)
    requires LineEffect(s, st.section) == Enter(section) && section != UnknownSection
    ensures Step(st, s) == st.(section := section)
  {
    hide LineEffect;
  }

  /** Folding over a line that leaves the state as `next`. */
  lemma FoldStep(line: string, rest: seq<string>, st: State, next: State)
    requires Step(st, line) == next
    ensures Fold([line] + rest, st) == Fold(rest, next)
  {
    hide Step, Fold;
    FoldCons(line, rest, st);
  }

  lemma FoldQuiet(line: string, rest: seq<string>, st: State)
    requires line == "" || (line[0] == ';' && '\n' !in line)
    ensures Fold([line] + rest, st) == Fold(rest, st)
  {
    hide Step, Fold, LineEffect;
    if line == "" { BlankIsQuiet(st.section); } else { CommentIsQuiet(line, st.section); }
    QuietStep(st, line);
    FoldStep(line, rest, st, st);
  }

  lemma FoldEnter(line: string, section: Section, rest: seq<string>, st: State)
    requires LineEffect(line, st.section) == Enter(section) && section != UnknownSection
    ensures Fold([line] + rest, st) == Fold(rest, st.(section := section))
  {
    hide Step, Fold, LineEffect;
    EnterStep(st, line, section);
    FoldStep(line, rest, st, st.(section := section));
  }

  lemma IntroDone(notes: seq<Comment>, st: State)
    requires |notes| == 11
    ensures Fold(IntroLines(notes), st) == st
  {
    hide Fold;
    var b := IntroLines(notes);
    assert b == [b[0]] + b[1..] && b[1..] == [b[1]] + b[2..] && b[2..] == [b[2]] + b[3..] && b[3..] == [b[3]] + [];
    FoldQuiet(b[0], b[1..], st);
    FoldQuiet(b[1], b[2..], st);
    FoldQuiet(b[2], b[3..], st);
    FoldQuiet(b[3], [], st);
    FoldNone(st);
  }

  lemma HotkeysDone(c: Config, notes: seq<Comment>, st: State)
    requires |notes| == 11 && WellFormedConfig(c)
    ensures Fold(HotkeyLines(c, notes), st) ==
            st.(section := InHotkeys, config := st.config.(newMark := c.newMark, markStart := c.markStart,
                                                           markEnd := c.markEnd, globalHotkeys := c.globalHotkeys))
  {
    hide Fold, LineEffect, Step, HotkeyText, BoolText, Pair, WellFormedHotkey;
    var b := HotkeyLines(c, notes);
    Headers(st.section);
    assert b == [b[0]] + b[1..] && b[1..] == [b[1]] + b[2..] && b[2..] == [b[2]] + b[3..];
    var s1 := st.(section := InHotkeys);
    FoldEnter(b[0], InHotkeys, b[1..], st);
    FoldQuiet(b[1], b[2..], s1);
    FoldQuiet(b[2], b[3..], s1);
    HotkeyPairsDone(c, notes, s1);
  }

  lemma HotkeyPairsDone(c: Config, notes: seq<Comment>, st: State)
    requires |notes| == 11 && WellFormedConfig(c) && st.section == InHotkeys
    ensures Fold(HotkeyLines(c, notes)[3..], st) ==
            st.(config := st.config.(newMark := c.newMark, markStart := c.markStart,
                                     markEnd := c.markEnd, globalHotkeys := c.globalHotkeys))
  {
    hide Fold, LineEffect, Step, HotkeyText, BoolText, Pair, WellFormedHotkey;
    var b := HotkeyLines(c, notes);
    assert b[3..] == [b[3]] + b[4..] && b[4..] == [b[4]] + b[5..] && b[5..] == [b[5]] + b[6..];
    HotkeyAssigned(st, "NewMark", c.newMark, NewMark);
    var s2 := st.(config := st.config.(newMark := c.newMark));
    FoldStep(b[3], b[4..], st, s2);
    HotkeyAssigned(s2, "MarkStart", c.markStart, MarkStart);
    var s3 := s2.(config := s2.config.(markStart := c.markStart));
    FoldStep(b[4], b[5..], s2, s3);
    HotkeyAssigned(s3, "MarkEnd", c.markEnd, MarkEnd);
    var s4 := s3.(config := s3.config.(markEnd := c.markEnd));
    FoldStep(b[5], b[6..], s3, s4);
    GlobalDone(c, notes, s4);
  }

  lemma GlobalDone(c: Config, notes: seq<Comment>, st: State)
    requires |notes| == 11 && st.section == InHotkeys
    ensures Fold(HotkeyLines(c, notes)[6..], st) == st.(config := st.config.(globalHotkeys := c.globalHotkeys))
  {
    hide Fold, LineEffect, Step, HotkeyText, BoolText, Pair;
    var b := HotkeyLines(c, notes);
    assert b[6..] == [b[6]] + b[7..] && b[7..] == [b[7]] + b[8..] && b[8..] == [b[8]] + b[9..] && b[9..] == [b[9]] + [];
    FoldQuiet(b[6], b[7..], st);
    FoldQuiet(b[7], b[8..], st);
    FlagAssigned(st, "Global", c.globalHotkeys, Global);
    var s5 := st.(config := st.config.(globalHotkeys := c.globalHotkeys));
    FoldStep(b[8], b[9..], st, s5);
    FoldQuiet(b[9], [], s5);
    FoldNone(s5);
  }

  lemma SkipDone(c: Config, notes: seq<Comment>, st: State)
    requires |notes| == 11
    ensures Fold(SkipLines(c, notes), st) ==
            st.(section := InSkip, config := st.config.(autoEnable := c.autoEnable))
  {
    hide Fold, LineEffect, Step, BoolText, Pair;
    var b := SkipLines(c, notes);
    Headers(st.section);
    assert b == [b[0]] + b[1..] && b[1..] == [b[1]] + b[2..] && b[2..] == [b[2]] + b[3..];
    assert b[3..] == [b[3]] + b[4..] && b[4..] == [b[4]] + [];
    var s1 := st.(section := InSkip);
    FoldEnter(b[0], InSkip, b[1..], st);
    FoldQuiet(b[1], b[2..], s1);
    FoldQuiet(b[2], b[3..], s1);
    FlagAssigned(s1, "AutoEnable", c.autoEnable, AutoEnable);
    var s2 := s1.(config := s1.config.(autoEnable := c.autoEnable));
    FoldStep(b[3], b[4..], s1, s2);
    FoldQuiet(b[4], [], s2);
    FoldNone(s2);
  }

  lemma OsdDone(c: Config, notes: seq<Comment>, st: State)
    requires |notes| == 11 && WellFormedConfig(c)
    ensures Fold(OsdLines(c, notes), st) ==
            st.(section := InOsd, config := st.config.(osdEnabled := c.osdEnabled, osdDurationMs := c.osdDurationMs))
  {
    hide Fold, LineEffect, Step, BoolText, Pair, WellFormedHotkey, Pbf.IntText;
    var b := OsdLines(c, notes);
    Headers(st.section);
    assert b == [b[0]] + b[1..] && b[1..] == [b[1]] + b[2..] && b[2..] == [b[2]] + b[3..];
    assert b[3..] == [b[3]] + b[4..] && b[4..] == [b[4]] + [];
    var s1 := st.(section := InOsd);
    FoldEnter(b[0], InOsd, b[1..], st);
    FoldQuiet(b[1], b[2..], s1);
    FlagAssigned(s1, "Enabled", c.osdEnabled, OsdEnabled);
    var s2 := s1.(config := s1.config.(osdEnabled := c.osdEnabled));
    FoldStep(b[2], b[3..], s1, s2);
    DurationAssigned(s2, c.osdDurationMs);
    var s3 := s2.(config := s2.config.(osdDurationMs := c.osdDurationMs));
    FoldStep(b[3], b[4..], s2, s3);
    FoldQuiet(b[4], [], s3);
    FoldNone(s3);
  }

  lemma LogDone(c: Config, notes: seq<Comment>, st: State)
    requires |notes| == 11
    ensures Fold(LogLines(c, notes), st) == st.(section := InLog, config := st.config.(verbosity := c.verbosity))
  {
    hide Fold, LineEffect, Step, SeverityName, Pair;
    var b := LogLines(c, notes);
    Headers(st.section);
    assert b == [b[0]] + b[1..] && b[1..] == [b[1]] + b[2..] && b[2..] == [b[2]] + [];
    var s1 := st.(section := InLog);
    FoldEnter(b[0], InLog, b[1..], st);
    FoldQuiet(b[1], b[2..], s1);
    LevelAssigned(s1, c.verbosity);
    var s2 := s1.(config := s1.config.(verbosity := c.verbosity));
    FoldStep(b[2], [], s1, s2);
    FoldNone(s2);
  }

  lemma PairOneLine(key: string, value: string)
    requires '\n' !in key && '\n' !in value
    ensures '\n' !in Pair(key, value)
  {
  }

  lemma HotkeyPairsOneLine(c: Config)
    ensures '\n' !in Pair("NewMark", HotkeyText(c.newMark)) && '\n' !in Pair("MarkStart", HotkeyText(c.markStart))
    ensures '\n' !in Pair("MarkEnd", HotkeyText(c.markEnd)) && '\n' !in Pair("Global", BoolText(c.globalHotkeys))
  {
    hide HotkeyText, BoolText, Pair;
    HotkeyTextShape(c.newMark);
    HotkeyTextShape(c.markStart);
    HotkeyTextShape(c.markEnd);
    BoolRoundTrip(c.globalHotkeys);
    PairOneLine("NewMark", HotkeyText(c.newMark));
    PairOneLine("MarkStart", HotkeyText(c.markStart));
    PairOneLine("MarkEnd", HotkeyText(c.markEnd));
    PairOneLine("Global", BoolText(c.globalHotkeys));
  }

  lemma OtherPairsOneLine(c: Config)
    ensures '\n' !in Pair("AutoEnable", BoolText(c.autoEnable)) && '\n' !in Pair("Enabled", BoolText(c.osdEnabled))
    ensures '\n' !in Pair("DurationMs", Pbf.IntText(c.osdDurationMs))
    ensures '\n' !in Pair("Verbosity", SeverityName(c.verbosity))
  {
    hide BoolText, Pbf.IntText, Pair;
    BoolRoundTrip(c.autoEnable);
    BoolRoundTrip(c.osdEnabled);
    Pbf.IntTextIsNumber(c.osdDurationMs);
    PairOneLine("AutoEnable", BoolText(c.autoEnable));
    PairOneLine("Enabled", BoolText(c.osdEnabled));
    PairOneLine("DurationMs", Pbf.IntText(c.osdDurationMs));
    PairOneLine("Verbosity", SeverityName(c.verbosity));
  }

  lemma LinesAreLines(c: Config, notes: seq<Comment>)
    requires |notes| == 11
    ensures var b := ConfigLines(c, notes); forall i | 0 <= i < |b| :: '\n' !in b[i]
  {
    hide HotkeyText, BoolText, SeverityName, Pbf.IntText, Pair;
    HotkeyPairsOneLine(c);
    OtherPairsOneLine(c);
    HeadersOneLine();
    assert forall i | 0 <= i < |notes| :: '\n' !in notes[i];
    assert forall i | 0 <= i < 4 :: '\n' !in IntroLines(notes)[i];
    assert forall i | 0 <= i < 10 :: '\n' !in HotkeyLines(c, notes)[i];
    assert forall i | 0 <= i < 5 :: '\n' !in SkipLines(c, notes)[i];
    assert forall i | 0 <= i < 5 :: '\n' !in OsdLines(c, notes)[i];
    assert forall i | 0 <= i < 3 :: '\n' !in LogLines(c, notes)[i];
    hide IntroLines, HotkeyLines, SkipLines, OsdLines, LogLines;
  }

  lemma HeadersOneLine()
    ensures '\n' !in "[Hotkeys]" && '\n' !in "[Skip]" && '\n' !in "[Osd]" && '\n' !in "[Log]" && '\n' !in ""
  {
  }

  lemma FoldAll(c: Config, notes: seq<Comment>)
    requires |notes| == 11 && WellFormedConfig(c)
    ensures Fold(ConfigLines(c, notes) + [""], START) == State(InLog, c, 0)
  {
    hide Fold, IntroLines, HotkeyLines, SkipLines, OsdLines, LogLines, WellFormedConfig;
    var a, b, s := IntroLines(notes), HotkeyLines(c, notes), SkipLines(c, notes);
    var o, l := OsdLines(c, notes), LogLines(c, notes);
    FoldConcat(a + b + s + o + l, [""], START);
    FoldConcat(a + b + s + o, l, START);
    FoldConcat(a + b + s, o, START);
    FoldConcat(a + b, s, START);
    FoldConcat(a, b, START);
    IntroDone(notes, START);
    var s1 := Fold(b, START);
    HotkeysDone(c, notes, START);
    var s2 := Fold(s, s1);
    SkipDone(c, notes, s1);
    var s3 := Fold(o, s2);
    OsdDone(c, notes, s2);
    LogDone(c, notes, s3);
    var s4 := Fold(l, s3);
    assert [""] + [] == [""];
    FoldQuiet("", [], s4);
    FoldNone(s4);
  }

  /** A malformed line after a valid one: the field ends as the valid line said, not at its default. */
  lemma MalformedIsNotDefault()
    ensures ConfigOf("[Osd]" + "\n" + "Enabled=false" + "\n" + "Enabled=x")
            == State(InOsd, DEFAULT.(osdEnabled := false), 1)
    ensures DEFAULT.osdEnabled
  {
    hide ConfigOf, LineEffect, Step, Pair, BoolText;
    var s0, s1 := START, State(InOsd, DEFAULT, 0);
    var s2 := State(InOsd, DEFAULT.(osdEnabled := false), 0);
    Headers(NoSection);
    EnterStep(s0, "[Osd]", InOsd);
    FlagAssigned(s1, "Enabled", false, OsdEnabled);
    BadFlag(s2);
    EnabledTexts();
    OneLine("[Osd]");
    OneMoreLine("[Osd]", "Enabled=false");
    OneMoreLine("[Osd]" + "\n" + "Enabled=false", "Enabled=x");
  }

  lemma EnabledTexts()
    ensures Pair("Enabled", BoolText(false)) == "Enabled=false" && Pair("Enabled", "x") == "Enabled=x"
    ensures '\n' !in "[Osd]" && '\n' !in "Enabled=false" && '\n' !in "Enabled=x"
  {
  }

  lemma OneLine(line: string)
    requires '\n' !in line
    ensures ConfigOf(line) == Step(START, line)
  {
    hide Step, Fold;
    SplitNone(line, '\n');
    assert [line] + [] == [line];
    FoldCons(line, [], START);
    FoldNone(Step(START, line));
  }

  lemma OneMoreLine(text: string, line: string)
    requires '\n' !in line
    ensures ConfigOf(text + "\n" + line) == Step(ConfigOf(text), line)
  {
    hide Step, Fold, ConfigOf;
    ConfigOfAppended(text, line);
    SplitNone(line, '\n');
    assert [line] + [] == [line];
    FoldCons(line, [], ConfigOf(text));
    FoldNone(Step(ConfigOf(text), line));
  }

  lemma BadFlag(st: State)
    requires st.section == InOsd
    ensures Step(st, Pair("Enabled", "x")) == st.(warnings := st.warnings + 1)
  {
    hide LineEffect, Pair, Trim;
    assert Lower("Enabled") == "enabled" && Lower("x") == "x";
    TrimTrimmed("x");
    PairLine("Enabled", "x", InOsd);
  }

  /** Writing a config and reading it back gives it back with no warning, exactly when it is well formed. */
  lemma ConfigRoundTrip(c: Config, notes: seq<Comment>)
    requires |notes| == 11
    ensures var st := ConfigOf(ConfigText(c, notes));
            st.config == c && st.warnings == 0 <==> WellFormedConfig(c)
  {
    hide Fold, ConfigLines, Unlines, Split, WellFormedConfig;
    ParsedConfigWellFormed(ConfigText(c, notes));
    if WellFormedConfig(c) {
      LinesAreLines(c, notes);
      SplitUnlines(ConfigLines(c, notes));
      FoldAll(c, notes);
    }
  }

  /** The written file, line by line; every comment stands where the parameter's comments are inserted. */
  lemma WrittenFile(c: Config, notes: seq<Comment>)
    requires |notes| == 11
    ensures Split(ConfigText(c, notes), '\n') ==
            [notes[0], notes[1], notes[2], "",
             "[Hotkeys]", notes[3], notes[4],
             "NewMark=" + HotkeyText(c.newMark), "MarkStart=" + HotkeyText(c.markStart),
             "MarkEnd=" + HotkeyText(c.markEnd), notes[5], notes[6],
             "Global=" + (if c.globalHotkeys then "true" else "false"), "",
             "[Skip]", notes[7], notes[8], "AutoEnable=" + (if c.autoEnable then "true" else "false"), "",
             "[Osd]", notes[9], "Enabled=" + (if c.osdEnabled then "true" else "false"),
             "DurationMs=" + Pbf.IntText(c.osdDurationMs), "",
             "[Log]", notes[10],
             "Verbosity=" + (match c.verbosity case Info => "Info" case Warn => "Warn" case Error => "Error"), ""]
  {
    hide Split, Unlines, HotkeyText, Pbf.IntText;
    LinesAreLines(c, notes);
    SplitUnlines(ConfigLines(c, notes));
    PairTexts(c);
    hide Pair, BoolText, SeverityName, ConfigText;
    assert Split(ConfigText(c, notes), '\n') == ConfigLines(c, notes) + [""];
  }

  lemma PairTexts(c: Config)
    ensures Pair("NewMark", HotkeyText(c.newMark)) == "NewMark=" + HotkeyText(c.newMark)
    ensures Pair("MarkStart", HotkeyText(c.markStart)) == "MarkStart=" + HotkeyText(c.markStart)
    ensures Pair("MarkEnd", HotkeyText(c.markEnd)) == "MarkEnd=" + HotkeyText(c.markEnd)
    ensures Pair("DurationMs", Pbf.IntText(c.osdDurationMs)) == "DurationMs=" + Pbf.IntText(c.osdDurationMs)
    ensures Pair("Global", BoolText(c.globalHotkeys)) == "Global=" + if c.globalHotkeys then "true" else "false"
    ensures Pair("AutoEnable", BoolText(c.autoEnable)) == "AutoEnable=" + if c.autoEnable then "true" else "false"
    ensures Pair("Enabled", BoolText(c.osdEnabled)) == "Enabled=" + if c.osdEnabled then "true" else "false"
    ensures Pair("Verbosity", SeverityName(c.verbosity)) ==
            "Verbosity=" + match c.verbosity case Info => "Info" case Warn => "Warn" case Error => "Error"
  {
    hide HotkeyText, Pbf.IntText;
  }

  /** The defaults: Alt+A, Alt+[ and Alt+] in the foreground only, skipping and messages on, 1.8 seconds, Info. */
  lemma DefaultsAre()
    ensures HotkeyText(DEFAULT.newMark) == "Alt+A" && HotkeyText(DEFAULT.markStart) == "Alt+["
    ensures HotkeyText(DEFAULT.markEnd) == "Alt+]"
    ensures !DEFAULT.globalHotkeys && DEFAULT.autoEnable && DEFAULT.osdEnabled
    ensures DEFAULT.osdDurationMs == 1800 && DEFAULT.verbosity == Info
    ensures WellFormedConfig(DEFAULT)
  {
    PrintedExactly(DEFAULT.newMark);
    PrintedExactly(DEFAULT.markStart);
    PrintedExactly(DEFAULT.markEnd);
    hide HotkeyText;
  }
}
