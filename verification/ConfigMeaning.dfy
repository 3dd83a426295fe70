/** What each line of config.ini does, by its trimmed text and the section it stands in. */
module ConfigMeaning {
  import opened Wrappers
  import opened Text
  import opened Decimal
  import opened Hotkeys
  import opened Config

  /** The line without its CR and its padding. */
  function Core(raw: string): string {
    Trim(WithoutCr(raw))
  }

  predicate IsNote(t: string) {
    t == "" || t[0] == ';' || t[0] == '#'
  }

  predicate IsHeader(t: string) {
    t != "" && t[0] == '['
  }

  // ---------- headers ----------

  /** The section a name in brackets stands for, in any letter case. */
  predicate NamesSection(name: string, s: Section) {
    match s
    case InHotkeys => Lower(name) == "hotkeys"
    case InSkip => Lower(name) == "skip"
    case InOsd => Lower(name) == "osd"
    case InLog => Lower(name) == "log"
    case UnknownSection => Lower(name) !in {"hotkeys", "skip", "osd", "log"}
    case NoSection => false
  }

  /** "[name]" opens the section of that name; any other text that starts with '[' an unknown one. */
  ghost predicate Opens(t: string, s: Section) {
    if exists name :: t == "[" + name + "]" then exists name :: t == "[" + name + "]" && NamesSection(name, s)
    else s == UnknownSection
  }

  lemma NamesExactly(name: string, s: Section)
    ensures SectionNamed(name) == s <==> NamesSection(name, s)
  {
    hide Lower;
  }

  lemma OneName(a: string, b: string)
    requires "[" + a + "]" == "[" + b + "]"
    ensures a == b
  {
    assert ("[" + a + "]")[1..|a| + 1] == a;
    assert ("[" + b + "]")[1..|b| + 1] == b;
    assert |"[" + a + "]"| == |a| + 2 && |"[" + b + "]"| == |b| + 2;
  }

  lemma HeaderExactly(t: string, s: Section)
    requires IsHeader(t)
    ensures HeaderEffect(t) == Enter(s) <==> Opens(t, s)
  {
    hide NamesSection, SectionNamed;
    if |t| >= 2 && t[|t| - 1] == ']' {
      var name := t[1..|t| - 1];
      assert t == "[" + name + "]";
      NamesExactly(name, s);
      if other :| t == "[" + other + "]" && NamesSection(other, s) {
        OneName(name, other);
      }
    } else {
      BracketsClose(t);
    }
  }

  lemma BracketsClose(t: string)
    ensures (exists name :: t == "[" + name + "]") ==> |t| >= 2 && t[|t| - 1] == ']'
  {
  }

  // ---------- keys and values ----------

  /** The section and the lower-case key of each field. */
  function KeyOf(f: Field): (Section, string) {
    match f
    case NewMark => (InHotkeys, "newmark")
    case MarkStart => (InHotkeys, "markstart")
    case MarkEnd => (InHotkeys, "markend")
    case Global => (InHotkeys, "global")
    case AutoEnable => (InSkip, "autoenable")
    case OsdEnabled => (InOsd, "enabled")
    case OsdDuration => (InOsd, "durationms")
    case Verbosity => (InLog, "verbosity")
  }

  /** The trimmed text is a value for the field. */
  predicate Denotes(f: Field, text: string, v: Value) {
    match f
    case NewMark | MarkStart | MarkEnd => v.Key? && HotkeyOf(text) == Ok(v.spec)
    case Global | AutoEnable | OsdEnabled => v.Flag? && Lower(text) == if v.flag then "true" else "false"
    case OsdDuration => v.Millis? && IsAllDigits(text) && v.millis == ValueOf(text) <= INT64_MAX
    case Verbosity =>
      v.Level? && Lower(text) in match v.level
                                 case Info => {"info"}
                                 case Warn => {"warn", "warning"}
                                 case Error => {"error"}
  }

  lemma FlagExactly(f: Field, text: string, v: Value)
    requires Trimmed(text) && f in {Global, AutoEnable, OsdEnabled}
    ensures FlagEffect(f, BoolNamed(text)) == Assign(f, v) <==> Denotes(f, text, v)
  {
    hide Lower, Trim, Trimmed;
    TrimTrimmed(text);
  }

  lemma PairOfField(f: Field, text: string, v: Value)
    requires Trimmed(text)
    ensures var (section, key) := KeyOf(f); PairEffect(section, key, text) == Assign(f, v) <==> Denotes(f, text, v)
    ensures var (section, key) := KeyOf(f); var e := PairEffect(section, key, text);
            e == Faulty || (e.Assign? && e.field == f)
  {
    hide Lower, Trim, HotkeyOf, ParseDigitsField, Trimmed, Denotes, FlagEffect, IsAllDigits, ValueOf;
    TrimTrimmed(text);
    match f {
      case NewMark | MarkStart | MarkEnd => HotkeyValue(f, text, v);
      case Global | AutoEnable | OsdEnabled =>
        FlagExactly(f, text, v);
        FlagIsAssignment(f, text);
      case OsdDuration => MillisValue(text, v);
      case Verbosity => LevelValue(text, v);
    }
  }

  lemma HotkeyValue(f: Field, text: string, v: Value)
    requires f in {NewMark, MarkStart, MarkEnd}
    ensures KeyEffect(f, HotkeyOf(text)) == Assign(f, v) <==> Denotes(f, text, v)
  {
    hide HotkeyOf;
  }

  lemma FlagIsAssignment(f: Field, text: string)
    ensures var e := FlagEffect(f, BoolNamed(text)); e == Faulty || (e.Assign? && e.field == f)
  {
    hide Lower, Trim;
  }

  lemma MillisValue(text: string, v: Value)
    requires Trim(text) == text
    ensures var ms := NonNegativeMs(text);
            (if ms.Some? then Assign(OsdDuration, Millis(ms.value)) else Faulty) == Assign(OsdDuration, v) <==>
            Denotes(OsdDuration, text, v)
  {
    hide Trim, ValueOf, IsAllDigits;
  }

  lemma LevelValue(text: string, v: Value)
    requires Trim(text) == text
    ensures var level := SeverityNamed(text);
            (if level.Some? then Assign(Verbosity, Level(level.value)) else Faulty) == Assign(Verbosity, v) <==>
            Denotes(Verbosity, text, v)
  {
    hide Lower, Trim;
  }

  /** Inside the four sections a key that is no field's is faulty; outside them keys are faulty or ignored. */
  lemma PairOfOther(section: Section, key: string, text: string)
    requires forall f: Field :: KeyOf(f) != (section, key)
    ensures PairEffect(section, key, text) == if section == UnknownSection then Quiet else Faulty
  {
    hide BoolNamed, HotkeyOf, NonNegativeMs, SeverityNamed;
    assert KeyOf(NewMark) != (section, key) && KeyOf(MarkStart) != (section, key) && KeyOf(MarkEnd) != (section, key);
    assert KeyOf(Global) != (section, key) && KeyOf(AutoEnable) != (section, key);
    assert KeyOf(OsdEnabled) != (section, key) && KeyOf(OsdDuration) != (section, key);
    assert KeyOf(Verbosity) != (section, key);
  }

  // ---------- whole lines ----------

  /** The text is key=value, cut at its first '=', and gives the field that value in this section. */
  ghost predicate Gives(t: string, section: Section, f: Field, v: Value) {
    exists key, value :: CutInto(t, key, value) && Sets(section, key, value, f, v)
  }

  predicate CutInto(t: string, key: string, value: string) {
    t == key + "=" + value && '=' !in key
  }

  /** The trimmed key, in any letter case, is the field's in this section, and the trimmed value denotes the value. */
  predicate Sets(section: Section, key: string, value: string, f: Field, v: Value) {
    KeyOf(f) == (section, Lower(Trim(key))) && Denotes(f, Trim(value), v)
  }

  lemma CutOnce(t: string, key: string, value: string)
    requires CutInto(t, key, value)
    ensures IndexOf(t, '=') == |key| && t[..|key|] == key && t[|key| + 1..] == value
  {
    hide IndexOf;
    assert t == key + ['='] + value;
    IndexAtFirst(key, value, '=');
  }

  /** The cut is at the first '=', so it can be computed. */
  lemma GivesAt(t: string, section: Section, f: Field, v: Value)
    ensures var eq := IndexOf(t, '=');
            Gives(t, section, f, v) <==> eq >= 0 && Sets(section, t[..eq], t[eq + 1..], f, v)
  {
    hide IndexOf, Sets, CutInto;
    var eq := IndexOf(t, '=');
    if eq >= 0 {
      CutHere(t, eq);
    }
    if key, value :| CutInto(t, key, value) && Sets(section, key, value, f, v) {
      CutOnce(t, key, value);
    }
  }

  lemma CutHere(t: string, eq: nat)
    requires eq < |t| && t[eq] == '=' && forall j | 0 <= j < eq :: t[j] != '='
    ensures CutInto(t, t[..eq], t[eq + 1..])
  {
  }

  lemma KeyValueEffect(raw: string, section: Section)
    requires !IsNote(Core(raw)) && !IsHeader(Core(raw))
    ensures var t := Core(raw); var eq := IndexOf(t, '=');
            LineEffect(raw, section) ==
            if eq < 0 then Faulty else PairEffect(section, Lower(Trim(t[..eq])), Trim(t[eq + 1..]))
  {
    hide Trim, WithoutCr, Lower, IndexOf, PairEffect;
  }

  lemma NoteIsQuiet(raw: string, section: Section)
    ensures IsNote(Core(raw)) ==> LineEffect(raw, section) == Quiet
    ensures IsHeader(Core(raw)) ==> LineEffect(raw, section) == HeaderEffect(Core(raw))
  {
    hide Trim, WithoutCr, HeaderEffect;
  }

  /** What an assignment line does. */
  lemma AssignExactly(raw: string, section: Section, f: Field, v: Value)
    ensures LineEffect(raw, section) == Assign(f, v) <==>
            !IsNote(Core(raw)) && !IsHeader(Core(raw)) && Gives(Core(raw), section, f, v)
  {
    hide *;
    var t := Core(raw);
    NoteIsQuiet(raw, section);
    if IsHeader(t) {
      HeaderNeverAssigns(t);
    } else if !IsNote(t) {
      var eq := IndexOf(t, '=');
      KeyValueEffect(raw, section);
      GivesAt(t, section, f, v);
      if eq >= 0 {
        TrimIsTrimmed(t[eq + 1..]);
        PairExactly(section, Lower(Trim(t[..eq])), Trim(t[eq + 1..]), f, v);
        SetsIs(section, t[..eq], t[eq + 1..], f, v);
      }
    }
  }

  lemma SetsIs(section: Section, key: string, value: string, f: Field, v: Value)
    ensures Sets(section, key, value, f, v) <==>
            KeyOf(f) == (section, Lower(Trim(key))) && Denotes(f, Trim(value), v)
  {
    hide Denotes, KeyOf, Lower, Trim;
  }

  lemma TrimIsTrimmed(s: string)
    ensures Trimmed(Trim(s))
  {
    hide Trim;
    var l, r := TrimParts(s);
  }

  lemma HeaderNeverAssigns(t: string)
    ensures HeaderEffect(t).Enter?
  {
  }

  lemma PairExactly(section: Section, key: string, text: string, f: Field, v: Value)
    requires Trimmed(text)
    ensures PairEffect(section, key, text) == Assign(f, v) <==> KeyOf(f) == (section, key) && Denotes(f, text, v)
  {
    hide PairEffect, Denotes, KeyOf, Trimmed;
    if g: Field :| KeyOf(g) == (section, key) {
      PairOfField(g, text, v);
      KeysDiffer(f, g);
    } else {
      PairOfOther(section, key, text);
    }
  }

  lemma KeysDiffer(f: Field, g: Field)
    ensures KeyOf(f) == KeyOf(g) <==> f == g
  {
  }

  /** What opens a section. */
  lemma EnterExactly(raw: string, section: Section, s: Section)
    ensures LineEffect(raw, section) == Enter(s) <==> IsHeader(Core(raw)) && Opens(Core(raw), s)
  {
    hide Trim, WithoutCr, Lower, IndexOf, PairEffect, HeaderEffect, Opens;
    var t := Core(raw);
    if IsHeader(t) {
      HeaderExactly(t, s);
    } else if !IsNote(t) {
      var eq := IndexOf(t, '=');
      if eq >= 0 {
        PairNeverEnters(section, Lower(Trim(t[..eq])), Trim(t[eq + 1..]));
      }
    }
  }

  lemma PairNeverEnters(section: Section, key: string, text: string)
    ensures !PairEffect(section, key, text).Enter?
  {
    hide BoolNamed, HotkeyOf, NonNegativeMs, SeverityNamed;
  }

  /**
   * Which lines earn a warning: an unknown or malformed header; and, if neither blank nor a comment, a line without
   * '=', a key before any section, and in the four known sections whatever gives no field a value.
   */
  ghost predicate IsFaulty(t: string, section: Section) {
    if IsHeader(t) then Opens(t, UnknownSection)
    else && !IsNote(t)
         && ('=' !in t || section == NoSection
             || (section != UnknownSection && forall f: Field, v: Value :: !Gives(t, section, f, v)))
  }

  lemma FaultyExactly(raw: string, section: Section)
    ensures Warns(LineEffect(raw, section)) <==> IsFaulty(Core(raw), section)
  {
    hide Trim, WithoutCr, Lower, IndexOf, PairEffect, HeaderEffect, Opens, Gives, KeyOf;
    var t, e := Core(raw), LineEffect(raw, section);
    if IsHeader(t) {
      EnterExactly(raw, section, UnknownSection);
      HeaderNeverAssigns(t);
    } else if !IsNote(t) {
      var eq := IndexOf(t, '=');
      if eq >= 0 {
        PairNeverEnters(section, Lower(Trim(t[..eq])), Trim(t[eq + 1..]));
        PairQuietness(section, Lower(Trim(t[..eq])), Trim(t[eq + 1..])) by { TrimIsTrimmed(t[eq + 1..]); }
        if e.Assign? {
          AssignExactly(raw, section, e.field, e.value);
        }
        if f: Field, v: Value :| Gives(t, section, f, v) {
          AssignExactly(raw, section, f, v);
        }
      }
    }
  }

  /** Only an unknown section ignores keys, and it never does anything else. */
  lemma PairQuietness(section: Section, key: string, text: string)
    requires Trimmed(text)
    ensures PairEffect(section, key, text) == Quiet <==> section == UnknownSection
    ensures section == NoSection ==> PairEffect(section, key, text) == Faulty
  {
    hide BoolNamed, HotkeyOf, NonNegativeMs, SeverityNamed;
  }

  // ---------- whole files ----------

  /** The section in force at a line: that of the last header before it. */
  ghost predicate InForce(lines: seq<string>, n: nat, s: Section)
    requires n <= |lines|
  {
    if n == 0 then s == NoSection
    else if IsHeader(Core(lines[n - 1])) then Opens(Core(lines[n - 1]), s)
    else InForce(lines, n - 1, s)
  }

  lemma {:induction false} SectionExactly(lines: seq<string>, n: nat, s: Section)
    requires n <= |lines|
    ensures SectionAfter(lines[..n], NoSection) == s <==> InForce(lines, n, s)
  {
    hide LineEffect, Opens, IsHeader, Core;
    if n > 0 {
      var before := SectionAfter(lines[..n - 1], NoSection);
      assert lines[..n][..n - 1] == lines[..n - 1];
      SectionExactly(lines, n - 1, s);
      EnterExactly(lines[n - 1], before, s);
      var e := LineEffect(lines[n - 1], before);
      if e.Enter? {
        EnterExactly(lines[n - 1], before, e.section);
      } else if IsHeader(Core(lines[n - 1])) {
        SomethingOpens(Core(lines[n - 1]));
        var o :| Opens(Core(lines[n - 1]), o);
        EnterExactly(lines[n - 1], before, o);
      }
    }
  }

  lemma SomethingOpens(t: string)
    requires IsHeader(t)
    ensures exists s :: Opens(t, s)
  {
    hide Opens;
    HeaderNeverAssigns(t);
    HeaderExactly(t, HeaderEffect(t).section);
  }

  /** The faulty lines among the first `n`, each judged in the section in force there. */
  ghost function FaultyLines(lines: seq<string>, n: nat): set<nat>
    requires n <= |lines|
  {
    set i: nat | i < n && exists s :: InForce(lines, i, s) && IsFaulty(Core(lines[i]), s)
  }

  lemma {:induction false} WarningsAreFaultyLines(lines: seq<string>, n: nat)
    requires n <= |lines|
    ensures WarningCount(lines, n) == |FaultyLines(lines, n)|
  {
    hide LineEffect, SectionAfter, InForce, IsFaulty, Core, Warns;
    if n > 0 {
      var k := n - 1;
      WarningsAreFaultyLines(lines, k);
      var s := SectionAfter(lines[..k], NoSection);
      SectionExactly(lines, k, s);
      FaultyExactly(lines[k], s);
      forall o | InForce(lines, k, o)
        ensures o == s
      {
        SectionExactly(lines, k, o);
      }
      assert FaultyLines(lines, n) ==
             if IsFaulty(Core(lines[k]), s) then FaultyLines(lines, k) + {k} else FaultyLines(lines, k);
    }
  }

  /** The number of warnings of a file is the number of its faulty lines. */
  lemma WarningsExactly(text: string)
    ensures var lines := Split(text, '\n'); ConfigOf(text).warnings == |FaultyLines(lines, |lines|)|
  {
    hide Split, ConfigOf, FaultyLines, WarningCount;
    WarningsCountFaultyLines(text);
    var lines := Split(text, '\n');
    WarningsAreFaultyLines(lines, |lines|);
  }

  /** Line `i` gives the field a value, in the section in force there. */
  ghost predicate LineGives(lines: seq<string>, i: nat, f: Field, v: Value)
    requires i < |lines|
  {
    && !IsNote(Core(lines[i])) && !IsHeader(Core(lines[i]))
    && exists s :: InForce(lines, i, s) && Gives(Core(lines[i]), s, f, v)
  }

  lemma LineGivesExactly(lines: seq<string>, i: nat, f: Field, v: Value)
    requires i < |lines|
    ensures LineGives(lines, i, f, v) <==> EffectAt(lines, i) == Assign(f, v)
  {
    hide LineEffect, SectionAfter, InForce, Gives, Core, IsNote, IsHeader;
    var s := SectionAfter(lines[..i], NoSection);
    SectionExactly(lines, i, s);
    AssignExactly(lines[i], s, f, v);
    if o :| InForce(lines, i, o) && Gives(Core(lines[i]), o, f, v) {
      SectionExactly(lines, i, o);
    }
  }

  /** Line `i` is the last one to give the field any value, and gives it this one. */
  ghost predicate LastGiven(lines: seq<string>, i: nat, f: Field, v: Value)
    requires i < |lines|
  {
    LineGives(lines, i, f, v) && forall j: nat, u: Value | i < j < |lines| :: !LineGives(lines, j, f, u)
  }

  lemma AssignsGives(lines: seq<string>, i: nat, f: Field)
    requires i < |lines|
    ensures Assigns(lines, i, f) <==> exists u: Value :: LineGives(lines, i, f, u)
    ensures Assigns(lines, i, f) ==> EffectAt(lines, i) == Assign(f, EffectAt(lines, i).value)
  {
    hide EffectAt, LineGives;
    if Assigns(lines, i, f) {
      LineGivesExactly(lines, i, f, EffectAt(lines, i).value);
    }
    if u: Value :| LineGives(lines, i, f, u) {
      LineGivesExactly(lines, i, f, u);
    }
  }

  lemma LastGivenAssigns(lines: seq<string>, i: nat, f: Field, v: Value)
    requires i < |lines|
    ensures LastGiven(lines, i, f, v) <==>
            LineGives(lines, i, f, v) && forall j: nat | i < j < |lines| :: !Assigns(lines, j, f)
  {
    hide EffectAt, LineGives, Assigns;
    if forall j: nat | i < j < |lines| :: !Assigns(lines, j, f) {
      forall j: nat, u: Value | i < j < |lines|
        ensures !LineGives(lines, j, f, u)
      {
        AssignsGives(lines, j, f);
      }
    }
    if forall j: nat, u: Value | i < j < |lines| :: !LineGives(lines, j, f, u) {
      forall j: nat | i < j < |lines|
        ensures !Assigns(lines, j, f)
      {
        AssignsGives(lines, j, f);
      }
    }
  }

  /**
   * A field of a parsed file has a value if and only if the last line that gives it one gives it that, or no line
   * gives it one and it is the default.
   */
  lemma FieldExactly(text: string, f: Field, v: Value)
    ensures var lines := Split(text, '\n');
            Get(ConfigOf(text).config, f) == v <==>
            || (exists i: nat | i < |lines| :: LastGiven(lines, i, f, v))
            || ((forall i: nat, u: Value | i < |lines| :: !LineGives(lines, i, f, u)) && v == Get(DEFAULT, f))
  {
    hide Split, ConfigOf, EffectAt, LineGives, LastGiven, Get, Assigns;
    var lines := Split(text, '\n');
    if i: nat :| i < |lines| && Assigns(lines, i, f) {
      var k := LastAssigning(lines, i, f);
      AssignsGives(lines, k, f);
      var u := EffectAt(lines, k).value;
      LastAssignmentWins(text, f, k);
      LineGivesExactly(lines, k, f, u);
      LastGivenAssigns(lines, k, f, u);
      if j: nat :| j < |lines| && LastGiven(lines, j, f, v) {
        OneLast(lines, k, j, f, v);
      }
    } else {
      UnassignedFieldIsDefault(text, f);
      forall i: nat, u: Value | i < |lines|
        ensures !LineGives(lines, i, f, u)
      {
        AssignsGives(lines, i, f);
      }
      forall i: nat | i < |lines|
        ensures !LastGiven(lines, i, f, v)
      {
        LastGivenAssigns(lines, i, f, v);
      }
    }
  }

  lemma OneLast(lines: seq<string>, k: nat, j: nat, f: Field, v: Value)
    requires k < |lines| && j < |lines| && Assigns(lines, k, f) && LastGiven(lines, j, f, v)
    requires forall i: nat | k < i < |lines| :: !Assigns(lines, i, f)
    ensures j == k && EffectAt(lines, k) == Assign(f, v)
  {
    hide EffectAt, LineGives, Assigns, LastGiven;
    LastGivenAssigns(lines, j, f, v);
    AssignsGives(lines, j, f);
    LineGivesExactly(lines, j, f, v);
  }

  lemma {:induction false} LastAssigning(lines: seq<string>, i: nat, f: Field) returns (k: nat)
    requires i < |lines| && Assigns(lines, i, f)
    ensures i <= k < |lines| && Assigns(lines, k, f) && forall j | k < j < |lines| :: !Assigns(lines, j, f)
    decreases |lines| - i
  {
    hide Assigns;
    k := i;
    if j: nat :| i < j < |lines| && Assigns(lines, j, f) {
      k := LastAssigning(lines, j, f);
    }
  }

  /** A line names a field if and only if it is key=value with the field's key, in its section. */
  lemma NamedFieldExactly(raw: string, section: Section, f: Field)
    ensures NamedField(raw, section) == Some(f) <==>
            && !IsNote(Core(raw)) && !IsHeader(Core(raw))
            && exists key, value :: CutInto(Core(raw), key, value) && KeyOf(f) == (section, Lower(Trim(key)))
  {
    hide Trim, WithoutCr, Lower, IndexOf, CutInto;
    var t := Core(raw);
    if !IsNote(t) && !IsHeader(t) {
      var eq := IndexOf(t, '=');
      if eq >= 0 {
        CutHere(t, eq);
        KeyedExactly(section, Lower(Trim(t[..eq])), f);
      }
      if key, value :| CutInto(t, key, value) && KeyOf(f) == (section, Lower(Trim(key))) {
        CutOnce(t, key, value);
      }
    }
  }

  lemma KeyedExactly(section: Section, key: string, f: Field)
    ensures FieldKeyed(section, key) == Some(f) <==> KeyOf(f) == (section, key)
  {
  }
}
