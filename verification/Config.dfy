/** config.ini: parsing with per-line fallbacks, and the serializer that undoes it. */
module Config {
  import opened Wrappers
  import opened Text
  import opened Decimal
  import opened Hotkeys

  datatype Severity = Info | Warn | Error

  datatype Config = Config(
    newMark: HotkeySpec,
    markStart: HotkeySpec,
    markEnd: HotkeySpec,
    globalHotkeys: bool,
    autoEnable: bool,
    osdEnabled: bool,
    osdDurationMs: int,
    verbosity: Severity)

  const DEFAULT: Config := Config(
    HotkeySpec(MOD_ALT, 'A' as int), HotkeySpec(MOD_ALT, VK_OPEN_BRACKET), HotkeySpec(MOD_ALT, VK_CLOSE_BRACKET),
    false, true, true, 1800, Info)

  predicate WellFormedConfig(c: Config) {
    && WellFormedHotkey(c.newMark) && WellFormedHotkey(c.markStart) && WellFormedHotkey(c.markEnd)
    && 0 <= c.osdDurationMs <= INT64_MAX
  }

  // ---------- values ----------

  function SeverityName(s: Severity): string {
    match s
    case Info => "Info"
    case Warn => "Warn"
    case Error => "Error"
  }

  function SeverityNamed(text: string): Option<Severity> {
    var name := Lower(Trim(text));
    if name == "info" then Some(Info)
    else if name == "warn" || name == "warning" then Some(Warn)
    else if name == "error" then Some(Error)
    else None
  }

  function BoolNamed(text: string): Option<bool> {
    var name := Lower(Trim(text));
    if name == "true" then Some(true) else if name == "false" then Some(false) else None
  }

  function BoolText(b: bool): string {
    if b then "true" else "false"
  }

  function NonNegativeMs(text: string): Option<nat> {
    var r := ParseDigitsField(Trim(text));
    if r.Ok? then Some(r.value) else None
  }

  // ---------- fields ----------

  datatype Field = NewMark | MarkStart | MarkEnd | Global | AutoEnable | OsdEnabled | OsdDuration | Verbosity

  datatype Value = Key(spec: HotkeySpec) | Flag(flag: bool) | Millis(millis: int) | Level(level: Severity)

  function Get(c: Config, f: Field): Value {
    match f
    case NewMark => Key(c.newMark)
    case MarkStart => Key(c.markStart)
    case MarkEnd => Key(c.markEnd)
    case Global => Flag(c.globalHotkeys)
    case AutoEnable => Flag(c.autoEnable)
    case OsdEnabled => Flag(c.osdEnabled)
    case OsdDuration => Millis(c.osdDurationMs)
    case Verbosity => Level(c.verbosity)
  }

  /** The values a field can hold after a valid line. */
  predicate Fits(f: Field, v: Value) {
    match f
    case NewMark | MarkStart | MarkEnd => v.Key? && WellFormedHotkey(v.spec)
    case Global | AutoEnable | OsdEnabled => v.Flag?
    case OsdDuration => v.Millis? && 0 <= v.millis <= INT64_MAX
    case Verbosity => v.Level?
  }

  function Put(c: Config, f: Field, v: Value): Config
    requires Fits(f, v)
  {
    match f
    case NewMark => c.(newMark := v.spec)
    case MarkStart => c.(markStart := v.spec)
    case MarkEnd => c.(markEnd := v.spec)
    case Global => c.(globalHotkeys := v.flag)
    case AutoEnable => c.(autoEnable := v.flag)
    case OsdEnabled => c.(osdEnabled := v.flag)
    case OsdDuration => c.(osdDurationMs := v.millis)
    case Verbosity => c.(verbosity := v.level)
  }

  // ---------- what one line does ----------

  datatype Section = NoSection | InHotkeys | InSkip | InOsd | InLog | UnknownSection

  function SectionNamed(name: string): Section {
    var lower := Lower(name);
    if lower == "hotkeys" then InHotkeys
    else if lower == "skip" then InSkip
    else if lower == "osd" then InOsd
    else if lower == "log" then InLog
    else UnknownSection
  }

  datatype Effect = Quiet | Enter(section: Section) | Assign(field: Field, value: Value) | Faulty

  function KeyEffect(f: Field, r: Result<HotkeySpec>): Effect {
    if r.Ok? then Assign(f, Key(r.value)) else Faulty
  }

  function FlagEffect(f: Field, b: Option<bool>): Effect {
    if b.Some? then Assign(f, Flag(b.value)) else Faulty
  }

  /** What `key=value` does inside a section. */
  function PairEffect(section: Section, key: string, value: string): Effect {
    match section
    case NoSection => Faulty
    case UnknownSection => Quiet
    case InHotkeys =>
      if key == "newmark" then KeyEffect(NewMark, HotkeyOf(value))
      else if key == "markstart" then KeyEffect(MarkStart, HotkeyOf(value))
      else if key == "markend" then KeyEffect(MarkEnd, HotkeyOf(value))
      else if key == "global" then FlagEffect(Global, BoolNamed(value))
      else Faulty
    case InSkip =>
      if key == "autoenable" then FlagEffect(AutoEnable, BoolNamed(value)) else Faulty
    case InOsd =>
      if key == "enabled" then FlagEffect(OsdEnabled, BoolNamed(value))
      else if key == "durationms" then
        var ms := NonNegativeMs(value);
        if ms.Some? then Assign(OsdDuration, Millis(ms.value)) else Faulty
      else Faulty
    case InLog =>
      if key == "verbosity" then
        var level := SeverityNamed(value);
        if level.Some? then Assign(Verbosity, Level(level.value)) else Faulty
      else Faulty
  }

  function HeaderEffect(line: string): Effect {
    if |line| < 2 || line[|line| - 1] != ']' then Enter(UnknownSection)
    else Enter(SectionNamed(line[1..|line| - 1]))
  }

  /** What one line of the file does when it stands in `section`. */
  function LineEffect(raw: string, section: Section): Effect {
    var line := Trim(WithoutCr(raw));
    if line == "" || line[0] == ';' || line[0] == '#' then Quiet
    else if line[0] == '[' then HeaderEffect(line)
    else
      var eq := IndexOf(line, '=');
      if eq < 0 then Faulty else PairEffect(section, Lower(Trim(line[..eq])), Trim(line[eq + 1..]))
  }

  /** A line that earns a warning. */
  predicate Warns(e: Effect) {
    e == Faulty || e == Enter(UnknownSection)
  }

  datatype State = State(section: Section, config: Config, warnings: nat)

  const START: State := State(NoSection, DEFAULT, 0)

  lemma EffectFits(raw: string, section: Section)
    ensures var e := LineEffect(raw, section); e.Assign? ==> Fits(e.field, e.value)
  {
    hide Trim, Lower, IndexOf, HotkeyOf, WithoutCr, WellFormedHotkey, ParseDigitsField, SectionNamed;
    var line := Trim(WithoutCr(raw));
    var eq := IndexOf(line, '=');
    if eq >= 0 {
      var value := Trim(line[eq + 1..]);
      if HotkeyOf(value).Ok? {
        ParsedIsWellFormed(value);
      }
    }
  }

  function Step(st: State, raw: string): State {
    var e := LineEffect(raw, st.section);
    EffectFits(raw, st.section);
    State(
      if e.Enter? then e.section else st.section,
      if e.Assign? then Put(st.config, e.field, e.value) else st.config,
      if Warns(e) then st.warnings + 1 else st.warnings)
  }

  function Fold(lines: seq<string>, st: State): State {
    if lines == [] then st else Fold(lines[1..], Step(st, lines[0]))
  }

  /** What a whole file means: its lines, one after the other. */
  function ConfigOf(text: string): State {
    Fold(Split(text, '\n'), START)
  }

  // ---------- the parsing loop ----------

  /** The body of the loop: one line's effect on the section, the config and the warnings. */
  method ApplyLine(raw: string, section0: Section, config0: Config, warnings0: nat)
      returns (section: Section, config: Config, warnings: nat)
    ensures State(section, config, warnings) == Step(State(section0, config0, warnings0), raw)
  {
    hide Trim, Lower, IndexOf, HotkeyOf, BoolNamed, NonNegativeMs, SeverityNamed, WithoutCr, SectionNamed;
    hide WellFormedHotkey;
    section, config, warnings := section0, config0, warnings0;
    EffectFits(raw, section0);
    var line := TrimLoop(WithoutCr(raw));
    if line == "" || line[0] == ';' || line[0] == '#' {
    } else if line[0] == '[' {
      if |line| < 2 || line[|line| - 1] != ']' {
        warnings := warnings + 1;
        section := UnknownSection;
      } else {
        section := SectionNamed(line[1..|line| - 1]);
        if section == UnknownSection {
          warnings := warnings + 1;
        }
      }
    } else {
      var eq := IndexOf(line, '=');
      if eq < 0 {
        warnings := warnings + 1;
      } else {
        var keyView := TrimLoop(line[..eq]);
        var value := TrimLoop(line[eq + 1..]);
        config, warnings := ApplyPair(section, Lower(keyView), value, config, warnings);
      }
    }
  }

  /** The key/value part of the loop body. */
  method ApplyPair(section: Section, key: string, value: string, config0: Config, warnings0: nat)
      returns (config: Config, warnings: nat)
    requires var e := PairEffect(section, key, value); e.Assign? ==> Fits(e.field, e.value)
    ensures var e := PairEffect(section, key, value);
            && config == (if e.Assign? then Put(config0, e.field, e.value) else config0)
            && warnings == (if Warns(e) then warnings0 + 1 else warnings0)
  {
    hide HotkeyOf, BoolNamed, NonNegativeMs, SeverityNamed, WellFormedHotkey;
    config, warnings := config0, warnings0;
    if section == NoSection {
      warnings := warnings + 1;
    } else if section == UnknownSection {
    } else if section == InHotkeys {
      if key == "newmark" || key == "markstart" || key == "markend" {
        var spec := ParseHotkeySpec(value);
        if spec.Err? {
          warnings := warnings + 1;
        } else if key == "newmark" {
          config := config.(newMark := spec.value);
        } else if key == "markstart" {
          config := config.(markStart := spec.value);
        } else {
          config := config.(markEnd := spec.value);
        }
      } else if key == "global" {
        var b := BoolNamed(value);
        if b.Some? { config := config.(globalHotkeys := b.value); } else { warnings := warnings + 1; }
      } else {
        warnings := warnings + 1;
      }
    } else if section == InSkip {
      if key == "autoenable" {
        var b := BoolNamed(value);
        if b.Some? { config := config.(autoEnable := b.value); } else { warnings := warnings + 1; }
      } else {
        warnings := warnings + 1;
      }
    } else if section == InOsd {
      if key == "enabled" {
        var b := BoolNamed(value);
        if b.Some? { config := config.(osdEnabled := b.value); } else { warnings := warnings + 1; }
      } else if key == "durationms" {
        var ms := NonNegativeMs(value);
        if ms.Some? { config := config.(osdDurationMs := ms.value); } else { warnings := warnings + 1; }
      } else {
        warnings := warnings + 1;
      }
    } else {
      if key == "verbosity" {
        var level := SeverityNamed(value);
        if level.Some? { config := config.(verbosity := level.value); } else { warnings := warnings + 1; }
      } else {
        warnings := warnings + 1;
      }
    }
  }

  /** ParseConfig: the index-scanning loop is the fold over the file's lines. */
  method ParseConfig(iniText: string) returns (config: Config, warnings: nat)
    ensures config == ConfigOf(iniText).config && warnings == ConfigOf(iniText).warnings
  {
    hide *;
    config, warnings := DEFAULT, 0;
    var section := NoSection;
    var pos := 0;
    StartOf(iniText);
    while pos <= |iniText|
      invariant 0 <= pos <= |iniText|
      invariant ConfigOf(iniText) == Fold(Split(iniText[pos..], '\n'), State(section, config, warnings))
      decreases |iniText| - pos
    {
      var newline := IndexOfFrom(iniText, '\n', pos);
      var line := if newline < 0 then iniText[pos..] else iniText[pos..newline];
      SplitStep(iniText, pos, '\n');
      ghost var st := State(section, config, warnings);
      section, config, warnings := ApplyLine(line, section, config, warnings);
      if newline < 0 {
        FoldCons(line, [], st);
        assert [line] + [] == [line];
        FoldNone(State(section, config, warnings));
        return;
      }
      FoldCons(line, Split(iniText[newline + 1..], '\n'), st);
      pos := newline + 1;
    }
  }

  lemma StartOf(text: string)
    ensures ConfigOf(text) == Fold(Split(text[0..], '\n'), State(NoSection, DEFAULT, 0))
  {
    assert text[0..] == text;
  }

  lemma FoldNone(st: State)
    ensures Fold([], st) == st
  {
  }

  lemma FoldCons(line: string, rest: seq<string>, st: State)
    ensures Fold([line] + rest, st) == Fold(rest, Step(st, line))
  {
    hide Step;
    assert ([line] + rest)[1..] == rest;
  }

  lemma {:induction false} FoldConcat(a: seq<string>, b: seq<string>, st: State)
    ensures Fold(a + b, st) == Fold(b, Fold(a, st))
  {
    hide Step, Fold;
    if a == [] {
      assert a + b == b;
      FoldNone(st);
    } else {
      assert a + b == [a[0]] + (a[1..] + b) && a == [a[0]] + a[1..];
      FoldCons(a[0], a[1..] + b, st);
      FoldCons(a[0], a[1..], st);
      FoldConcat(a[1..], b, Step(st, a[0]));
    }
  }

  // ---------- last valid assignment wins, one warning per faulty line ----------

  /** The section in force after some lines: the last header's, whatever the keys in between. */
  function SectionAfter(lines: seq<string>, section: Section): Section {
    if lines == [] then section else
    var n := |lines| - 1;
    var before := SectionAfter(lines[..n], section);
    var e := LineEffect(lines[n], before);
    if e.Enter? then e.section else before
  }

  /** What line `i` of a file does. */
  function EffectAt(lines: seq<string>, i: nat): Effect
    requires i < |lines|
  {
    LineEffect(lines[i], SectionAfter(lines[..i], NoSection))
  }

  predicate Assigns(lines: seq<string>, i: nat, f: Field)
    requires i < |lines|
  {
    EffectAt(lines, i).Assign? && EffectAt(lines, i).field == f
  }

  function WarningCount(lines: seq<string>, n: nat): nat
    requires n <= |lines|
  {
    if n == 0 then 0 else WarningCount(lines, n - 1) + if Warns(EffectAt(lines, n - 1)) then 1 else 0
  }

  /** The state after the first `n` lines. */
  function StateAfter(lines: seq<string>, n: nat): State
    requires n <= |lines|
  {
    Fold(lines[..n], START)
  }

  lemma StateAfterStep(lines: seq<string>, n: nat)
    requires n < |lines|
    ensures StateAfter(lines, n + 1) == Step(StateAfter(lines, n), lines[n])
    ensures StateAfter(lines, 0) == START
  {
    hide Step, Fold;
    assert lines[..n + 1] == lines[..n] + [lines[n]];
    FoldConcat(lines[..n], [lines[n]], START);
    var st := Fold(lines[..n], START);
    assert [lines[n]] + [] == [lines[n]];
    FoldCons(lines[n], [], st);
    FoldNone(Step(st, lines[n]));
    FoldNone(START);
    assert lines[..0] == [];
  }

  lemma {:induction false} SectionAndWarnings(lines: seq<string>, n: nat)
    requires n <= |lines|
    ensures StateAfter(lines, n).section == SectionAfter(lines[..n], NoSection)
    ensures StateAfter(lines, n).warnings == WarningCount(lines, n)
  {
    hide LineEffect, Put, Fold;
    if n == 0 {
      FoldNone(START);
      assert lines[..0] == [];
    } else {
      SectionAndWarnings(lines, n - 1);
      StateAfterStep(lines, n - 1);
      assert lines[..n][..n - 1] == lines[..n - 1];
    }
  }

  lemma GetPut(c: Config, f: Field, v: Value, g: Field)
    requires Fits(f, v)
    ensures Get(Put(c, f, v), g) == if f == g then v else Get(c, g)
  {
  }

  lemma FieldStep(lines: seq<string>, n: nat, f: Field)
    requires n < |lines|
    ensures Get(StateAfter(lines, n + 1).config, f) ==
            if Assigns(lines, n, f) then EffectAt(lines, n).value else Get(StateAfter(lines, n).config, f)
  {
    hide LineEffect, Put, Fits, Fold, Get, SectionAfter;
    StateAfterStep(lines, n);
    SectionAndWarnings(lines, n);
    var e := EffectAt(lines, n);
    EffectFits(lines[n], SectionAfter(lines[..n], NoSection));
    if e.Assign? {
      GetPut(StateAfter(lines, n).config, e.field, e.value, f);
    }
  }

  /** No assignment among lines i..n leaves the field as it was after i lines. */
  lemma {:induction false} FieldUntouched(lines: seq<string>, i: nat, n: nat, f: Field)
    requires i <= n <= |lines|
    requires forall j | i <= j < n :: !Assigns(lines, j, f)
    ensures Get(StateAfter(lines, n).config, f) == Get(StateAfter(lines, i).config, f)
    decreases n - i
  {
    hide Assigns, Get, StateAfter;
    if i < n {
      FieldStep(lines, n - 1, f);
      FieldUntouched(lines, i, n - 1, f);
    }
  }

  lemma WholeFile(text: string)
    ensures var lines := Split(text, '\n'); StateAfter(lines, |lines|) == ConfigOf(text)
    ensures StateAfter(Split(text, '\n'), 0) == START
  {
    hide Split, Fold;
    var lines := Split(text, '\n');
    assert lines[..|lines|] == lines;
    assert lines[..0] == [];
    FoldNone(START);
  }

  /** A field no line assigns keeps its default. */
  lemma UnassignedFieldIsDefault(text: string, f: Field)
    requires var lines := Split(text, '\n'); forall i | 0 <= i < |lines| :: !Assigns(lines, i, f)
    ensures Get(ConfigOf(text).config, f) == Get(DEFAULT, f)
  {
    hide Split, StateAfter, ConfigOf, Assigns, Get;
    WholeFile(text);
    FieldUntouched(Split(text, '\n'), 0, |Split(text, '\n')|, f);
  }

  /** An assigned field ends as its last valid assignment. */
  lemma LastAssignmentWins(text: string, f: Field, i: nat)
    requires var lines := Split(text, '\n');
             && i < |lines| && Assigns(lines, i, f)
             && forall j | i < j < |lines| :: !Assigns(lines, j, f)
    ensures Get(ConfigOf(text).config, f) == EffectAt(Split(text, '\n'), i).value
  {
    hide Split, StateAfter, ConfigOf, Get, LineEffect, SectionAfter;
    WholeFile(text);
    var lines := Split(text, '\n');
    FieldStep(lines, i, f);
    FieldUntouched(lines, i + 1, |lines|, f);
  }

  /** One warning per faulty line; keys under an unknown section add none. */
  lemma WarningsCountFaultyLines(text: string)
    ensures var lines := Split(text, '\n'); ConfigOf(text).warnings == WarningCount(lines, |lines|)
  {
    hide Split, Fold, WarningCount, SectionAfter;
    var lines := Split(text, '\n');
    SectionAndWarnings(lines, |lines|);
    assert lines[..|lines|] == lines;
  }

  // ---------- keys under an unknown section ----------

  /** Blank lines, comments and key=value lines. */
  predicate Swallowed(raw: string) {
    var line := Trim(WithoutCr(raw));
    line == "" || line[0] == ';' || line[0] == '#' || (line[0] != '[' && '=' in line)
  }

  /** Under an unknown section these and no other lines do nothing. */
  lemma QuietExactly(raw: string)
    ensures LineEffect(raw, UnknownSection) == Quiet <==> Swallowed(raw)
  {
    hide Trim, WithoutCr, Lower, SectionNamed;
  }

  lemma {:induction false} SwallowedFold(lines: seq<string>, st: State)
    requires st.section == UnknownSection && forall i | 0 <= i < |lines| :: Swallowed(lines[i])
    ensures Fold(lines, st) == st
  {
    hide LineEffect, Swallowed, Fold;
    if lines == [] {
      FoldNone(st);
    } else {
      QuietExactly(lines[0]);
      assert Step(st, lines[0]) == st;
      assert forall i | 0 <= i < |lines[1..]| :: lines[1..][i] == lines[i + 1];
      assert lines == [lines[0]] + lines[1..];
      FoldCons(lines[0], lines[1..], st);
      SwallowedFold(lines[1..], st);
    }
  }

  lemma ConfigOfAppended(a: string, b: string)
    ensures ConfigOf(a + "\n" + b) == Fold(Split(b, '\n'), ConfigOf(a))
  {
    hide Fold, Split;
    SplitConcat(a, b, '\n');
    FoldConcat(Split(a, '\n'), Split(b, '\n'), START);
  }

  lemma SectionOfText(text: string)
    ensures ConfigOf(text).section == SectionAfter(Split(text, '\n'), NoSection)
  {
    hide Split, Fold, SectionAfter;
    var lines := Split(text, '\n');
    SectionAndWarnings(lines, |lines|);
    assert lines[..|lines|] == lines;
  }

  /** While an unknown section is in force, its keys can be added or dropped: neither a field nor a warning changes. */
  lemma UnknownSectionIsSilent(a: string, keys: string, b: string)
    requires SectionAfter(Split(a, '\n'), NoSection) == UnknownSection
    requires var lines := Split(keys, '\n'); forall i | 0 <= i < |lines| :: Swallowed(lines[i])
    ensures ConfigOf(a + "\n" + keys + "\n" + b) == ConfigOf(a + "\n" + b)
    ensures ConfigOf(a + "\n" + keys) == ConfigOf(a)
  {
    hide Split, Fold, SectionAfter, ConfigOf, Swallowed;
    SectionOfText(a);
    ConfigOfAppended(a, keys);
    SwallowedFold(Split(keys, '\n'), ConfigOf(a));
    ConfigOfAppended(a + "\n" + keys, b);
    ConfigOfAppended(a, b);
  }

  // ---------- malformed values ----------

  /** The field a key stands for in a section. */
  function FieldKeyed(section: Section, key: string): Option<Field> {
    match section
    case InHotkeys =>
      if key == "newmark" then Some(NewMark)
      else if key == "markstart" then Some(MarkStart)
      else if key == "markend" then Some(MarkEnd)
      else if key == "global" then Some(Global)
      else None
    case InSkip => if key == "autoenable" then Some(AutoEnable) else None
    case InOsd =>
      if key == "enabled" then Some(OsdEnabled) else if key == "durationms" then Some(OsdDuration) else None
    case InLog => if key == "verbosity" then Some(Verbosity) else None
    case _ => None
  }

  /** The field a line's key stands for. */
  function NamedField(raw: string, section: Section): Option<Field> {
    var line := Trim(WithoutCr(raw));
    if line == "" || line[0] == ';' || line[0] == '#' || line[0] == '[' then None else
    var eq := IndexOf(line, '=');
    if eq < 0 then None else FieldKeyed(section, Lower(Trim(line[..eq])))
  }

  /** A line assigns only the field it names, and one that names a field assigns it or earns a warning. */
  lemma NamedEffect(raw: string, section: Section)
    ensures var e, f := LineEffect(raw, section), NamedField(raw, section);
            && (e.Assign? ==> f == Some(e.field))
            && (f.Some? ==> e.Assign? || e == Faulty)
  {
    hide Trim, WithoutCr, Lower, IndexOf, HotkeyOf, BoolNamed, NonNegativeMs, SeverityNamed, SectionNamed;
  }

  /** Line `i` names a field and its value is malformed. */
  predicate Malformed(lines: seq<string>, i: nat, f: Field)
    requires i < |lines|
  {
    NamedField(lines[i], SectionAfter(lines[..i], NoSection)) == Some(f) && !Assigns(lines, i, f)
  }

  /** Line `j` is the last among the first `n` to assign a field. */
  predicate LastAssignment(lines: seq<string>, j: nat, n: nat, f: Field)
    requires n <= |lines|
  {
    j < n && Assigns(lines, j, f) && forall m | j < m < n :: !Assigns(lines, m, f)
  }

  lemma {:induction false} FieldAfter(lines: seq<string>, n: nat, f: Field)
    requires n <= |lines|
    ensures var v := Get(StateAfter(lines, n).config, f);
            || (v == Get(DEFAULT, f) && forall j: nat | j < n :: !Assigns(lines, j, f))
            || exists j: nat | j < n :: LastAssignment(lines, j, n, f) && v == EffectAt(lines, j).value
  {
    hide StateAfter, EffectAt, Assigns, Get;
    if n == 0 {
      NoLines(lines);
    } else {
      FieldStep(lines, n - 1, f);
      if Assigns(lines, n - 1, f) {
        assert LastAssignment(lines, n - 1, n, f);
      } else {
        var k := n - 1;
        FieldAfter(lines, k, f);
        if j: nat :| j < k && LastAssignment(lines, j, k, f) {
          assert LastAssignment(lines, j, n, f);
        }
      }
    }
  }

  lemma NoLines(lines: seq<string>)
    ensures StateAfter(lines, 0) == START
  {
    assert lines[..0] == [];
    FoldNone(START);
  }

  /**
   * A malformed value earns a warning and keeps the field as it was. So the field is at its own default after it
   * if and only if the last valid line before it, if any, assigned that default.
   */
  lemma MalformedKeepsValue(lines: seq<string>, i: nat, f: Field)
    requires i < |lines| && Malformed(lines, i, f)
    ensures var before, after := StateAfter(lines, i), StateAfter(lines, i + 1);
            && after == before.(warnings := before.warnings + 1)
            && (Get(after.config, f) == Get(DEFAULT, f) <==>
                forall j: nat | LastAssignment(lines, j, i, f) :: EffectAt(lines, j).value == Get(DEFAULT, f))
  {
    hide StateAfter, Get, LineEffect, NamedField, SectionAfter;
    StateAfterStep(lines, i);
    SectionAndWarnings(lines, i);
    NamedEffect(lines[i], SectionAfter(lines[..i], NoSection));
    FieldAfter(lines, i, f);
    if j: nat :| LastAssignment(lines, j, i, f) && Get(StateAfter(lines, i).config, f) == EffectAt(lines, j).value {
      OneLastAssignment(lines, j, i, f);
    }
  }

  lemma OneLastAssignment(lines: seq<string>, j: nat, n: nat, f: Field)
    requires n <= |lines| && LastAssignment(lines, j, n, f)
    ensures forall m: nat | LastAssignment(lines, m, n, f) :: m == j
  {
    hide Assigns;
  }

  // ---------- every parsed config is well formed ----------

  lemma PutWellFormed(c: Config, f: Field, v: Value)
    requires WellFormedConfig(c) && Fits(f, v)
    ensures WellFormedConfig(Put(c, f, v))
  {
    hide WellFormedHotkey;
  }

  lemma {:induction false} FoldWellFormed(lines: seq<string>, st: State)
    requires WellFormedConfig(st.config)
    ensures WellFormedConfig(Fold(lines, st).config)
  {
    hide LineEffect, Put, Fits, WellFormedConfig;
    if lines != [] {
      var e := LineEffect(lines[0], st.section);
      EffectFits(lines[0], st.section);
      if e.Assign? {
        PutWellFormed(st.config, e.field, e.value);
      }
      FoldWellFormed(lines[1..], Step(st, lines[0]));
    }
  }

  /** Whatever the text, the parsed config is well formed. */
  lemma ParsedConfigWellFormed(text: string)
    ensures WellFormedConfig(ConfigOf(text).config)
  {
    hide Fold, Split;
    FoldWellFormed(Split(text, '\n'), START);
  }
}
