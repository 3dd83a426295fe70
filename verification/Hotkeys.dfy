/** Hotkey specs: '+'-separated modifier names and one key. */
module Hotkeys {
  import opened Wrappers
  import opened Text

  const MOD_ALT: bv32 := 1
  const MOD_CONTROL: bv32 := 2
  const MOD_SHIFT: bv32 := 4
  const MOD_WIN: bv32 := 8
  const VK_OPEN_BRACKET: nat := 0xDB
  const VK_CLOSE_BRACKET: nat := 0xDD

  datatype HotkeySpec = HotkeySpec(modifiers: bv32, virtualKey: nat)

  datatype Modifier = Alt | Control | Shift | Win

  function Bit(m: Modifier): bv32 {
    match m
    case Alt => MOD_ALT
    case Control => MOD_CONTROL
    case Shift => MOD_SHIFT
    case Win => MOD_WIN
  }

  /** The modifier an already trimmed token names, in any letter case. */
  function ModifierNamed(token: string): Option<Modifier> {
    var name := Lower(token);
    if name == "alt" then Some(Alt)
    else if name == "ctrl" || name == "control" then Some(Control)
    else if name == "shift" then Some(Shift)
    else if name == "win" || name == "meta" then Some(Win)
    else None
  }

  /** The virtual key a token names, or 0. */
  function KeyNamed(token: string): nat {
    if |token| != 1 then 0 else
    var c := token[0];
    if 'a' <= c <= 'z' then c as int - 32
    else if 'A' <= c <= 'Z' || '0' <= c <= '9' then c as int
    else if c == '[' then VK_OPEN_BRACKET
    else if c == ']' then VK_CLOSE_BRACKET
    else 0
  }

  predicate KeyHasName(vk: nat) {
    'A' as int <= vk <= 'Z' as int || '0' as int <= vk <= '9' as int || vk == VK_OPEN_BRACKET || vk == VK_CLOSE_BRACKET
  }

  /** Four modifier bits only, and a key the spec syntax can name. */
  predicate WellFormedHotkey(spec: HotkeySpec) {
    spec.modifiers & 0xF == spec.modifiers && KeyHasName(spec.virtualKey)
  }

  // ---------- parsing ----------

  /** OR-ing the modifier tokens into `acc`, refusing unknown and repeated ones. */
  function AddModifiers(tokens: seq<string>, acc: bv32): Result<bv32> {
    if tokens == [] then Ok(acc) else
    var m := ModifierNamed(tokens[0]);
    if m.None? then Err else
    if HasBit(acc, m.value) then Err else
    AddModifiers(tokens[1..], WithBit(acc, m.value))
  }

  predicate HasBit(mask: bv32, m: Modifier) {
    mask & Bit(m) != 0
  }

  function WithBit(mask: bv32, m: Modifier): bv32 {
    mask | Bit(m)
  }

  lemma AddModifiersStep(token: string, rest: seq<string>, acc: bv32)
    ensures AddModifiers([], acc) == Ok(acc)
    ensures var m := ModifierNamed(token);
            AddModifiers([token] + rest, acc) ==
            if m.None? || HasBit(acc, m.value) then Err else AddModifiers(rest, WithBit(acc, m.value))
  {
    hide ModifierNamed, HasBit, WithBit;
    assert ([token] + rest)[1..] == rest;
  }

  function TokensHotkey(tokens: seq<string>): Result<HotkeySpec>
    requires |tokens| >= 1
  {
    var n := |tokens| - 1;
    if tokens[n] == "" then Err else
    var modifiers :- AddModifiers(tokens[..n], 0);
    var vk := KeyNamed(tokens[n]);
    if vk == 0 then Err else Ok(HotkeySpec(modifiers, vk))
  }

  function HotkeyOf(text: string): Result<HotkeySpec> {
    var t := Trim(text);
    if t == "" then Err else TokensHotkey(TrimAll(Split(t, '+')))
  }

  /** ParseHotkeySpec: the token-collecting loop, then the modifier loop. */
  method ParseHotkeySpec(text0: string) returns (r: Result<HotkeySpec>)
    ensures r == HotkeyOf(text0)
  {
    hide Trim, TrimAll, Split, AddModifiers, KeyNamed;
    var text := TrimLoop(text0);
    if text == "" {
      return Err;
    }
    var tokens := CollectTokens(text);
    var n := |tokens| - 1;
    if tokens[n] == "" {
      return Err;
    }
    var modifiers := CombineModifiers(tokens[..n]);
    if modifiers.Err? {
      return Err;
    }
    var vk := KeyNamed(tokens[n]);
    if vk == 0 {
      return Err;
    }
    r := Ok(HotkeySpec(modifiers.value, vk));
  }

  /** The modifier loop. */
  method CombineModifiers(tokens: seq<string>) returns (r: Result<bv32>)
    ensures r == AddModifiers(tokens, 0)
  {
    hide *;
    var modifiers: bv32 := 0;
    var i := 0;
    assert tokens[0..] == tokens;
    while i < |tokens|
      invariant 0 <= i <= |tokens|
      invariant AddModifiers(tokens, 0) == AddModifiers(tokens[i..], modifiers)
    {
      assert tokens[i..] == [tokens[i]] + tokens[i + 1..];
      AddModifiersStep(tokens[i], tokens[i + 1..], modifiers);
      var m := ModifierNamed(tokens[i]);
      if m.None? {
        return Err;
      }
      if HasBit(modifiers, m.value) {
        return Err;
      }
      modifiers := WithBit(modifiers, m.value);
      i := i + 1;
    }
    AddModifiersStep("", [], modifiers);
    assert tokens[i..] == [];
    r := Ok(modifiers);
  }

  method CollectTokens(text: string) returns (tokens: seq<string>)
    ensures tokens == TrimAll(Split(text, '+')) && |tokens| >= 1
  {
    hide *;
    tokens := [];
    var start := 0;
    assert text[0..] == text;
    assert [] + TrimAll(Split(text, '+')) == TrimAll(Split(text, '+'));
    while true
      invariant 0 <= start <= |text|
      invariant TrimAll(Split(text, '+')) == tokens + TrimAll(Split(text[start..], '+'))
      decreases |text| - start
    {
      var plus := IndexOfFrom(text, '+', start);
      SplitStep(text, start, '+');
      var piece := if plus < 0 then text[start..] else text[start..plus];
      var token := TrimLoop(piece);
      TrimAllOne(piece);
      tokens := tokens + [token];
      if plus < 0 {
        return;
      }
      TrimAllCons(piece, Split(text[plus + 1..], '+'));
      start := plus + 1;
    }
  }

  lemma TrimAllOne(p: string)
    ensures TrimAll([p]) == [Trim(p)]
  {
  }

  // ---------- what a spec means ----------

  /** The bit mask of a set of modifiers. */
  function Mask(ms: set<Modifier>): bv32 {
    (if Alt in ms then MOD_ALT else 0) | (if Control in ms then MOD_CONTROL else 0)
    | (if Shift in ms then MOD_SHIFT else 0) | (if Win in ms then MOD_WIN else 0)
  }

  lemma MaskBit(ms: set<Modifier>, m: Modifier)
    ensures HasBit(Mask(ms), m) <==> m in ms
    ensures WithBit(Mask(ms), m) == Mask(ms + {m})
  {
  }

  /** The modifiers the tokens name, unknown ones as None. */
  function Names(tokens: seq<string>): (r: seq<Option<Modifier>>)
    ensures |r| == |tokens|
  {
    seq(|tokens|, i requires 0 <= i < |tokens| => ModifierNamed(tokens[i]))
  }

  function Known(names: seq<Option<Modifier>>): set<Modifier> {
    set m: Modifier | Some(m) in names
  }

  /** Every name is known and none is repeated. */
  predicate Distinct(names: seq<Option<Modifier>>) {
    && (forall i | 0 <= i < |names| :: names[i].Some?)
    && (forall i, j | 0 <= i < j < |names| :: names[i] != names[j])
  }

  lemma {:induction false} AddModifiersMeaning(tokens: seq<string>, ms: set<Modifier>)
    ensures var names := Names(tokens);
            AddModifiers(tokens, Mask(ms)) ==
            if Distinct(names) && Known(names) !! ms then Ok(Mask(ms + Known(names))) else Err
  {
    hide *;
    AddModifiersStep("", [], Mask(ms));
    if tokens == [] {
      NoNames();
      assert ms + {} == ms;
    } else {
      var rest := tokens[1..];
      NamesCons(tokens[0], rest);
      assert tokens == [tokens[0]] + rest;
      AddModifiersStep(tokens[0], rest, Mask(ms));
      if ModifierNamed(tokens[0]).None? {
        UnknownHead(Names(rest));
      } else {
        var m := ModifierNamed(tokens[0]).value;
        MaskBit(ms, m);
        KnownCons(m, Names(rest));
        DistinctCons(m, Names(rest));
        if m !in ms {
          AddModifiersMeaning(rest, ms + {m});
          assert ms + {m} + Known(Names(rest)) == ms + ({m} + Known(Names(rest)));
        }
      }
    }
  }

  lemma NoNames()
    ensures Names([]) == [] && Known([]) == {} && Distinct([])
  {
  }

  lemma NamesCons(token: string, rest: seq<string>)
    ensures Names([token] + rest) == [ModifierNamed(token)] + Names(rest)
  {
  }

  lemma UnknownHead(rest: seq<Option<Modifier>>)
    ensures !Distinct([None] + rest)
  {
    assert ([None] + rest)[0].None?;
  }

  lemma KnownCons(m: Modifier, rest: seq<Option<Modifier>>)
    ensures Known([Some(m)] + rest) == {m} + Known(rest)
  {
  }

  lemma KnownHas(m: Modifier, names: seq<Option<Modifier>>)
    ensures m in Known(names) <==> Some(m) in names
  {
  }

  lemma DistinctCons(m: Modifier, rest: seq<Option<Modifier>>)
    ensures Distinct([Some(m)] + rest) <==> Distinct(rest) && m !in Known(rest)
  {
    var all := [Some(m)] + rest;
    KnownHas(m, rest);
    hide Known;
    if Distinct(rest) && Some(m) !in rest {
      assert forall i | 0 < i < |all| :: all[i] == rest[i - 1];
    } else if Some(m) in rest {
      var i: nat :| i < |rest| && rest[i] == Some(m);
      assert all[0] == all[i + 1];
    } else if Distinct(all) {
      assert forall i | 0 <= i < |rest| :: rest[i] == all[i + 1];
    }
  }

  /** A spec's meaning: the set of distinct modifiers named, and the key. */
  function Meaning(names: seq<Option<Modifier>>, vk: nat): Result<HotkeySpec> {
    if Distinct(names) && vk != 0 then Ok(HotkeySpec(Mask(Known(names)), vk)) else Err
  }

  /** Every text means exactly what its '+'-separated pieces name: order, case, aliases and padding do not matter. */
  lemma HotkeyMeaning(text: string)
    ensures var pieces := TrimAll(Split(text, '+')); var n := |pieces| - 1;
            HotkeyOf(text) == Meaning(Names(pieces[..n]), KeyNamed(pieces[n]))
  {
    hide Trim, TrimAll, Split, AddModifiers, Names, Known, Distinct;
    TrimAllSplit(text, '+');
    var pieces := TrimAll(Split(text, '+'));
    var n := |pieces| - 1;
    AddModifiersMeaning(pieces[..n], {});
    assert Mask({}) == 0;
    assert {} + Known(Names(pieces[..n])) == Known(Names(pieces[..n]));
    if Trim(text) == "" {
      SplitNone("", '+');
      TrimAllOne("");
      TrimTrimmed("");
    }
  }

  /** Two specs that name the same modifiers, each once, and the same key are the same hotkey. */
  lemma OrderIrrelevant(left: seq<string>, right: seq<string>, key: string, key': string)
    requires forall i | 0 <= i < |left| :: '+' !in left[i]
    requires forall i | 0 <= i < |right| :: '+' !in right[i]
    requires '+' !in key && '+' !in key' && KeyNamed(Trim(key)) == KeyNamed(Trim(key'))
    requires Distinct(Names(TrimAll(left))) && Distinct(Names(TrimAll(right)))
    requires Known(Names(TrimAll(left))) == Known(Names(TrimAll(right)))
    ensures HotkeyOf(Join(left + [key], '+')) == HotkeyOf(Join(right + [key'], '+'))
  {
    hide Trim, Split, Join, HotkeyOf, Names, Known, Distinct, KeyNamed;
    PiecesMeaning(left, key);
    PiecesMeaning(right, key');
  }

  lemma PiecesMeaning(tokens: seq<string>, key: string)
    requires '+' !in key && forall i | 0 <= i < |tokens| :: '+' !in tokens[i]
    ensures HotkeyOf(Join(tokens + [key], '+')) == Meaning(Names(TrimAll(tokens)), KeyNamed(Trim(key)))
  {
    hide Trim, Split, Join, HotkeyOf, Names, Meaning, KeyNamed;
    var all := tokens + [key];
    SplitJoin(all, '+');
    HotkeyMeaning(Join(all, '+'));
    assert TrimAll(all)[..|tokens|] == TrimAll(tokens);
  }

  /** Tokens that differ only in letter case name the same modifier and the same key. */
  lemma CaseIrrelevant(a: string, b: string)
    requires Lower(a) == Lower(b)
    ensures ModifierNamed(a) == ModifierNamed(b) && KeyNamed(a) == KeyNamed(b)
  {
    assert |a| == |Lower(a)| == |b|;
    if |a| == 1 {
      assert LowerChar(a[0]) == Lower(a)[0] == LowerChar(b[0]);
    }
  }

  // ---------- the spellings, written out ----------

  /** The names of a modifier, in lower case. */
  function Spellings(m: Modifier): set<string> {
    match m
    case Alt => {"alt"}
    case Control => {"ctrl", "control"}
    case Shift => {"shift"}
    case Win => {"win", "meta"}
  }

  /** A token names a modifier if and only if it is one of its spellings, in any letter case. */
  lemma NamedExactly(token: string, m: Modifier)
    ensures ModifierNamed(token) == Some(m) <==> Lower(token) in Spellings(m)
  {
    hide Lower;
  }

  /** A token names a key if and only if it is that letter in either case, that digit, or that bracket. */
  lemma KeyExactly(token: string, vk: nat)
    requires vk != 0
    ensures KeyNamed(token) == vk <==>
            |token| == 1 &&
            var c := token[0] as int;
            || (65 <= vk <= 90 && (c == vk || c == vk + 32)) || (48 <= vk <= 57 && c == vk)
            || (vk == 0xDB && token == "[") || (vk == 0xDD && token == "]")
  {
    assert ('a' as int, 'z' as int, 'A' as int, 'Z' as int) == (97, 122, 65, 90);
    assert ('0' as int, '9' as int, '[' as int, ']' as int) == (48, 57, 91, 93);
    assert |token| == 1 ==> token == [token[0]];
  }

  /** The four bits as numbers. */
  lemma MaskExactly(ms: set<Modifier>)
    ensures var mask := Mask(ms);
            && (mask & 1 != 0 <==> Alt in ms) && (mask & 2 != 0 <==> Control in ms)
            && (mask & 4 != 0 <==> Shift in ms) && (mask & 8 != 0 <==> Win in ms) && mask < 16
  {
  }

  /** The tokens name these modifiers, each exactly once. */
  predicate NameOnce(tokens: seq<string>, ms: seq<Modifier>) {
    && |ms| == |tokens|
    && (forall i | 0 <= i < |ms| :: Lower(tokens[i]) in Spellings(ms[i]))
    && (forall i, j | 0 <= i < j < |ms| :: ms[i] != ms[j])
  }

  /** The spec has the bits of these modifiers and no others. */
  predicate HasBits(modifiers: bv32, ms: seq<Modifier>) {
    && modifiers < 16 && (modifiers & 1 != 0 <==> Alt in ms) && (modifiers & 2 != 0 <==> Control in ms)
    && (modifiers & 4 != 0 <==> Shift in ms) && (modifiers & 8 != 0 <==> Win in ms)
  }

  lemma NameOnceKnown(tokens: seq<string>, ms: seq<Modifier>)
    requires NameOnce(tokens, ms)
    ensures Distinct(Names(tokens)) && forall m :: m in Known(Names(tokens)) <==> m in ms
  {
    hide ModifierNamed, Lower, Spellings;
    forall i | 0 <= i < |tokens|
      ensures Names(tokens)[i] == Some(ms[i])
    {
      NamedExactly(tokens[i], ms[i]);
    }
    forall m | m in ms
      ensures Some(m) in Names(tokens)
    {
      var i :| 0 <= i < |ms| && ms[i] == m;
      assert Names(tokens)[i] == Some(m);
    }
  }

  lemma DistinctNameOnce(tokens: seq<string>) returns (ms: seq<Modifier>)
    requires Distinct(Names(tokens))
    ensures NameOnce(tokens, ms)
  {
    hide ModifierNamed, Lower, Spellings;
    var names := Names(tokens);
    assert forall i | 0 <= i < |names| :: names[i].Some?;
    ms := seq(|names|, i requires 0 <= i < |names| => names[i].value);
    forall i | 0 <= i < |tokens|
      ensures Lower(tokens[i]) in Spellings(ms[i])
    {
      assert names[i] == ModifierNamed(tokens[i]) && ms[i] == names[i].value;
      NamedExactly(tokens[i], ms[i]);
    }
    forall i, j | 0 <= i < j < |ms|
      ensures ms[i] != ms[j]
    {
      assert names[i] != names[j];
    }
  }

  lemma BitsDetermine(a: bv32, b: bv32, ms: seq<Modifier>)
    requires HasBits(a, ms) && HasBits(b, ms)
    ensures a == b
  {
    SmallBits(a);
    SmallBits(b);
  }

  lemma SmallBits(a: bv32)
    requires a < 16
    ensures a == (a & 1) | (a & 2) | (a & 4) | (a & 8)
    ensures a & 1 in {0, 1} && a & 2 in {0, 2} && a & 4 in {0, 4} && a & 8 in {0, 8}
  {
  }

  /**
   * A text is a hotkey if and only if its '+'-separated, trimmed pieces spell distinct modifiers and then that key,
   * and the hotkey has the bits of exactly these modifiers.
   */
  lemma HotkeyExactly(text: string, spec: HotkeySpec)
    ensures var pieces := TrimAll(Split(text, '+')); var n := |pieces| - 1;
            HotkeyOf(text) == Ok(spec) <==>
            && spec.virtualKey != 0 && KeyNamed(pieces[n]) == spec.virtualKey
            && exists ms :: NameOnce(pieces[..n], ms) && HasBits(spec.modifiers, ms)
  {
    hide HotkeyOf, Split, TrimAll, Names, Known, Distinct, KeyNamed, Mask, NameOnce, HasBits;
    HotkeyMeaning(text);
    var pieces := TrimAll(Split(text, '+'));
    var tokens := pieces[..|pieces| - 1];
    if Distinct(Names(tokens)) {
      var ms := DistinctNameOnce(tokens);
      MaskHasBits(tokens, ms);
    }
    if ms :| NameOnce(tokens, ms) && HasBits(spec.modifiers, ms) {
      MaskHasBits(tokens, ms);
      BitsDetermine(spec.modifiers, Mask(Known(Names(tokens))), ms);
    }
  }

  lemma MaskHasBits(tokens: seq<string>, ms: seq<Modifier>)
    requires NameOnce(tokens, ms)
    ensures Distinct(Names(tokens)) && HasBits(Mask(Known(Names(tokens))), ms)
  {
    hide Names, Known, Distinct, NameOnce, Mask;
    NameOnceKnown(tokens, ms);
    MaskExactly(Known(Names(tokens)));
  }

  /** Another spelling of the same modifier, in any case and padding, is the same hotkey. */
  lemma SpellingIrrelevant(tokens: seq<string>, i: nat, other: string, key: string, m: Modifier)
    requires '+' !in other && '+' !in key && forall k | 0 <= k < |tokens| :: '+' !in tokens[k]
    requires i < |tokens| && Lower(Trim(tokens[i])) in Spellings(m) && Lower(Trim(other)) in Spellings(m)
    ensures HotkeyOf(Join(tokens[i := other] + [key], '+')) == HotkeyOf(Join(tokens + [key], '+'))
  {
    hide Trim, Join, HotkeyOf, KeyNamed, Names, Meaning, Lower, Spellings;
    PiecesMeaning(tokens, key);
    PiecesMeaning(tokens[i := other], key);
    SameNames(tokens, i, other, m);
  }

  lemma SameNames(tokens: seq<string>, i: nat, other: string, m: Modifier)
    requires i < |tokens| && Lower(Trim(tokens[i])) in Spellings(m) && Lower(Trim(other)) in Spellings(m)
    ensures Names(TrimAll(tokens[i := other])) == Names(TrimAll(tokens))
  {
    hide Trim, ModifierNamed, Lower, Spellings;
    NamedExactly(Trim(tokens[i]), m);
    NamedExactly(Trim(other), m);
    var x, y := Names(TrimAll(tokens[i := other])), Names(TrimAll(tokens));
    assert forall k | 0 <= k < |tokens| :: x[k] == y[k];
  }

  /** A modifier named twice, also under two of its spellings, is refused. */
  lemma RepeatedModifierRefused(tokens: seq<string>, key: string, i: nat, j: nat, m: Modifier)
    requires '+' !in key && forall k | 0 <= k < |tokens| :: '+' !in tokens[k]
    requires i < j < |tokens|
    requires Lower(Trim(tokens[i])) in Spellings(m) && Lower(Trim(tokens[j])) in Spellings(m)
    ensures HotkeyOf(Join(tokens + [key], '+')) == Err
  {
    hide Trim, Join, HotkeyOf, ModifierNamed, KeyNamed, Lower, Spellings;
    NamedExactly(Trim(tokens[i]), m);
    NamedExactly(Trim(tokens[j]), m);
    PiecesMeaning(tokens, key);
    var names := Names(TrimAll(tokens));
    assert names[i] == names[j];
  }

  // ---------- formatting ----------

  function HexDigit(d: nat): char
    requires d < 16
  {
    if d < 10 then ('0' as int + d) as char else ('A' as int + d - 10) as char
  }

  function HexDigits(n: nat): (s: string)
    ensures |s| >= 1
    ensures forall i | 0 <= i < |s| :: s[i] != '+' && !IsSpace(s[i])
  {
    if n < 16 then [HexDigit(n)] else HexDigits(n / 16) + [HexDigit(n % 16)]
  }

  /** snprintf of "0x%02X" into an 8-byte buffer. */
  function HexText(n: nat): (s: string)
    ensures 4 <= |s| <= 7
    ensures '+' !in s && !IsSpace(s[0]) && !IsSpace(s[|s| - 1])
  {
    var d := HexDigits(n);
    var s := "0x" + if |d| < 2 then "0" + d else d;
    if |s| <= 7 then s else s[..7]
  }

  function KeyText(vk: nat): string {
    if vk == VK_OPEN_BRACKET then "["
    else if vk == VK_CLOSE_BRACKET then "]"
    else if 'A' as int <= vk <= 'Z' as int || '0' as int <= vk <= '9' as int then [vk as char]
    else HexText(vk)
  }

  function If(b: bool, s: string): seq<string> {
    if b then [s] else []
  }

  /** The modifier names in their fixed order. */
  function ModifierTexts(m: bv32): seq<string> {
    If(m & MOD_CONTROL != 0, "Ctrl") + (If(m & MOD_ALT != 0, "Alt")
    + (If(m & MOD_SHIFT != 0, "Shift") + If(m & MOD_WIN != 0, "Win")))
  }

  function HotkeyText(spec: HotkeySpec): string {
    Join(ModifierTexts(spec.modifiers) + [KeyText(spec.virtualKey)], '+')
  }

  function JoinOrEmpty(parts: seq<string>): string {
    if parts == [] then "" else Join(parts, '+')
  }

  lemma {:induction false} JoinSnoc(parts: seq<string>, last: string, c: char)
    requires |parts| >= 1
    ensures Join(parts + [last], c) == Join(parts, c) + [c] + last
  {
    var all := parts + [last];
    if |parts| == 1 {
      assert all[1..] == [last];
    } else {
      assert all[1..] == parts[1..] + [last];
      JoinSnoc(parts[1..], last, c);
    }
  }

  /** One '+'-prefixed append. */
  method Append(text: string, name: string, ghost parts: seq<string>) returns (r: string)
    requires text == JoinOrEmpty(parts) && name != ""
    requires forall i | 0 <= i < |parts| :: parts[i] != ""
    ensures r == JoinOrEmpty(parts + [name])
  {
    r := text;
    if parts != [] {
      JoinSnoc(parts, name, '+');
      assert r != "" by { assert parts[0] != ""; }
    } else {
      assert parts + [name] == [name];
    }
    if r != "" {
      r := r + "+";
    }
    r := r + name;
  }

  /** The appendModifier lambda: one name, if its bit is set. */
  method AppendModifier(text: string, isSet: bool, name: string, ghost parts: seq<string>) returns (r: string)
    requires text == JoinOrEmpty(parts) && name != ""
    requires forall i | 0 <= i < |parts| :: parts[i] != ""
    ensures r == JoinOrEmpty(parts + If(isSet, name))
  {
    hide JoinOrEmpty;
    r := text;
    if isSet {
      r := Append(text, name, parts);
    } else {
      assert parts + [] == parts;
    }
  }

  method FormatHotkeySpec(spec: HotkeySpec) returns (text: string)
    ensures text == HotkeyText(spec)
  {
    hide Join, JoinOrEmpty, KeyText;
    ghost var c, a := If(spec.modifiers & MOD_CONTROL != 0, "Ctrl"), If(spec.modifiers & MOD_ALT != 0, "Alt");
    ghost var s, w := If(spec.modifiers & MOD_SHIFT != 0, "Shift"), If(spec.modifiers & MOD_WIN != 0, "Win");
    NothingJoined();
    assert [] + c == c;
    text := AppendModifier("", spec.modifiers & MOD_CONTROL != 0, "Ctrl", []);
    text := AppendModifier(text, spec.modifiers & MOD_ALT != 0, "Alt", c);
    text := AppendModifier(text, spec.modifiers & MOD_SHIFT != 0, "Shift", c + a);
    text := AppendModifier(text, spec.modifiers & MOD_WIN != 0, "Win", c + a + s);
    KeyTextShape(spec.virtualKey);
    text := Append(text, KeyText(spec.virtualKey), c + a + s + w);
    SomethingJoined(c + a + s + w, KeyText(spec.virtualKey));
    assert c + a + s + w == ModifierTexts(spec.modifiers);
  }

  lemma NothingJoined()
    ensures JoinOrEmpty([]) == ""
  {
  }

  lemma SomethingJoined(parts: seq<string>, last: string)
    ensures JoinOrEmpty(parts + [last]) == Join(parts + [last], '+')
  {
  }

  lemma KeyTextShape(vk: nat)
    ensures var k := KeyText(vk);
            && k != "" && '+' !in k && Trimmed(k)
            && KeyNamed(k) == if KeyHasName(vk) then vk else 0
  {
  }

  lemma KnownTexts()
    ensures ModifierNamed("Ctrl") == Some(Control) && ModifierNamed("Alt") == Some(Alt)
    ensures ModifierNamed("Shift") == Some(Shift) && ModifierNamed("Win") == Some(Win)
  {
    assert Lower("Ctrl") == "ctrl" && Lower("Alt") == "alt" && Lower("Shift") == "shift" && Lower("Win") == "win";
  }

  /** Putting one optional name in front of others that do not repeat it. */
  lemma OptionalName(b: bool, text: string, m: Modifier, rest: seq<string>)
    requires ModifierNamed(text) == Some(m) && '+' !in text && Trimmed(text)
    requires Distinct(Names(rest)) && m !in Known(Names(rest))
    requires forall i | 0 <= i < |rest| :: '+' !in rest[i] && Trimmed(rest[i])
    ensures var t := If(b, text) + rest;
            && (forall i | 0 <= i < |t| :: '+' !in t[i] && Trimmed(t[i]))
            && Distinct(Names(t))
            && Known(Names(t)) == (if b then {m} else {}) + Known(Names(rest))
  {
    hide Distinct, Known, Names, ModifierNamed, Trimmed;
    NamesCons(text, rest);
    KnownCons(m, Names(rest));
    DistinctCons(m, Names(rest));
    assert If(b, text) + rest == if b then [text] + rest else rest;
  }

  /** A mask's printed names are distinct tokens that rebuild its own four bits. */
  lemma ModifierTextsShape(m: bv32)
    ensures var t := ModifierTexts(m);
            && (forall i | 0 <= i < |t| :: '+' !in t[i] && Trimmed(t[i]))
            && Distinct(Names(t)) && Mask(Known(Names(t))) == m & 0xF
  {
    hide Distinct, Known, Names, ModifierNamed, If;
    KnownTexts();
    NoNames();
    var c, a, s, w := m & MOD_CONTROL != 0, m & MOD_ALT != 0, m & MOD_SHIFT != 0, m & MOD_WIN != 0;
    OptionalName(w, "Win", Win, []);
    assert If(w, "Win") + [] == If(w, "Win");
    OptionalName(s, "Shift", Shift, If(w, "Win"));
    OptionalName(a, "Alt", Alt, If(s, "Shift") + If(w, "Win"));
    OptionalName(c, "Ctrl", Control, If(a, "Alt") + (If(s, "Shift") + If(w, "Win")));
    MaskOfBits(m, Known(Names(ModifierTexts(m))));
  }

  lemma MaskOfBits(m: bv32, ms: set<Modifier>)
    requires Control in ms <==> m & MOD_CONTROL != 0
    requires Alt in ms <==> m & MOD_ALT != 0
    requires Shift in ms <==> m & MOD_SHIFT != 0
    requires Win in ms <==> m & MOD_WIN != 0
    ensures Mask(ms) == m & 0xF
  {
  }

  lemma TrimAllTrimmed(parts: seq<string>)
    requires forall i | 0 <= i < |parts| :: Trimmed(parts[i])
    ensures TrimAll(parts) == parts
  {
    forall i | 0 <= i < |parts|
      ensures Trim(parts[i]) == parts[i]
    {
      TrimTrimmed(parts[i]);
    }
  }

  /** What a printed spec reads back as. */
  lemma ParseOfFormat(spec: HotkeySpec)
    ensures HotkeyOf(HotkeyText(spec)) ==
            if KeyHasName(spec.virtualKey) then Ok(HotkeySpec(spec.modifiers & 0xF, spec.virtualKey)) else Err
  {
    hide HotkeyOf, ModifierTexts, KeyText, Join, Names, Known, Distinct, Mask, Trim;
    var tokens, key := ModifierTexts(spec.modifiers), KeyText(spec.virtualKey);
    ModifierTextsShape(spec.modifiers);
    KeyTextShape(spec.virtualKey);
    PiecesMeaning(tokens, key);
    TrimAllTrimmed(tokens);
    TrimTrimmed(key);
  }

  /** Printing and re-reading gives the spec back exactly when it is well formed. */
  lemma FormatParseRoundTrip(spec: HotkeySpec)
    ensures HotkeyOf(HotkeyText(spec)) == Ok(spec) <==> WellFormedHotkey(spec)
  {
    hide HotkeyOf, HotkeyText;
    ParseOfFormat(spec);
  }

  lemma MaskWithinBits(ms: set<Modifier>)
    ensures Mask(ms) & 0xF == Mask(ms)
  {
  }

  /** Everything the parser accepts is well formed, so printing it and parsing again changes nothing. */
  lemma ParsedIsWellFormed(text: string)
    requires HotkeyOf(text).Ok?
    ensures WellFormedHotkey(HotkeyOf(text).value)
    ensures HotkeyOf(HotkeyText(HotkeyOf(text).value)) == HotkeyOf(text)
  {
    hide HotkeyOf, HotkeyText, Mask, Names, Known, Distinct;
    var pieces := TrimAll(Split(text, '+'));
    var n := |pieces| - 1;
    HotkeyMeaning(text);
    MaskWithinBits(Known(Names(pieces[..n])));
    FormatParseRoundTrip(HotkeyOf(text).value);
  }

  // ---------- the printed text, written out ----------

  /** "Name+" if the bit is set. */
  function Prefix(isSet: bool, name: string): string {
    if isSet then name + "+" else ""
  }

  lemma JoinPrefix(isSet: bool, name: string, rest: seq<string>)
    requires |rest| >= 1
    ensures Join(If(isSet, name) + rest, '+') == Prefix(isSet, name) + Join(rest, '+')
  {
    if isSet {
      assert ([name] + rest)[1..] == rest;
    } else {
      assert [] + rest == rest;
    }
  }

  /** Modifiers are always printed in the order Ctrl, Alt, Shift, Win, each followed by '+', and then the key. */
  lemma PrintedExactly(spec: HotkeySpec)
    ensures var m := spec.modifiers;
            HotkeyText(spec) ==
            Prefix(m & 2 != 0, "Ctrl")
            + (Prefix(m & 1 != 0, "Alt") + (Prefix(m & 4 != 0, "Shift") + (Prefix(m & 8 != 0, "Win")
               + KeyText(spec.virtualKey))))
  {
    hide Join, If, Prefix, KeyText;
    var m, key := spec.modifiers, [KeyText(spec.virtualKey)];
    var c, a := If(m & 2 != 0, "Ctrl"), If(m & 1 != 0, "Alt");
    var s, w := If(m & 4 != 0, "Shift"), If(m & 8 != 0, "Win");
    assert ModifierTexts(m) + key == c + (a + (s + (w + key)));
    JoinPrefix(m & 2 != 0, "Ctrl", a + (s + (w + key)));
    JoinPrefix(m & 1 != 0, "Alt", s + (w + key));
    JoinPrefix(m & 4 != 0, "Shift", w + key);
    JoinPrefix(m & 8 != 0, "Win", key);
    JoinOne(KeyText(spec.virtualKey), '+');
  }

  /** The number some upper-case hex digits denote. */
  function HexValue(s: string): nat {
    if s == "" then 0 else
    var c := s[|s| - 1] as int;
    16 * HexValue(s[..|s| - 1]) + if 65 <= c <= 70 then c - 55 else if 48 <= c <= 57 then c - 48 else 0
  }

  predicate HexDigitsOnly(s: string) {
    forall i | 0 <= i < |s| :: 48 <= s[i] as int <= 57 || 65 <= s[i] as int <= 70
  }

  lemma {:induction false} HexDigitsExactly(n: nat)
    ensures HexValue(HexDigits(n)) == n && HexDigitsOnly(HexDigits(n))
    ensures n > 0 ==> HexDigits(n)[0] != '0'
    ensures n < 16 ==> |HexDigits(n)| == 1
  {
    assert ('0' as int, 'A' as int) == (48, 65);
    var s := HexDigits(n);
    if n < 16 {
      assert s[..|s| - 1] == "";
    } else {
      HexDigitsExactly(n / 16);
      assert s[..|s| - 1] == HexDigits(n / 16);
    }
  }

  /** A key without a name is printed as its number: "0x" and at least two hex digits, cut to seven characters. */
  lemma UnnamedKeyText(vk: nat) returns (digits: string)
    requires !KeyHasName(vk)
    ensures HexDigitsOnly(digits) && HexValue(digits) == vk
    ensures |digits| == 2 || (|digits| > 2 && digits[0] != '0')
    ensures var t := "0x" + digits; KeyText(vk) == if |t| <= 7 then t else t[..7]
  {
    hide HexDigits, HexValue;
    var d := HexDigits(vk);
    HexDigitsExactly(vk);
    digits := if |d| < 2 then "0" + d else d;
    LeadingHexZero(d);
  }

  lemma {:induction false} LeadingHexZero(s: string)
    ensures HexValue("0" + s) == HexValue(s)
    decreases |s|
  {
    var z := "0" + s;
    assert z[..|z| - 1] == if s == "" then "" else "0" + s[..|s| - 1];
    if s != "" {
      LeadingHexZero(s[..|s| - 1]);
    }
  }
}
