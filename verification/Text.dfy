/** Byte-string helpers in the "C" locale: searching, splitting, joining and trimming. */
module Text {

  predicate IsSpace(c: char) {
    c == ' ' || 9 as char <= c <= 13 as char
  }

  predicate IsDigit(c: char) {
    '0' <= c <= '9'
  }

  predicate AllDigits(s: string) {
    forall i | 0 <= i < |s| :: IsDigit(s[i])
  }

  predicate AllSpaces(s: string) {
    forall i | 0 <= i < |s| :: IsSpace(s[i])
  }

  function LowerChar(c: char): char {
    if 'A' <= c <= 'Z' then (c as int + 32) as char else c
  }

  function Lower(s: string): string {
    seq(|s|, i requires 0 <= i < |s| => LowerChar(s[i]))
  }

  /** The classes of the "C" locale, by character code. */
  lemma CharacterClasses(c: char)
    ensures IsSpace(c) <==> c as int in {9, 10, 11, 12, 13, 32}
    ensures IsDigit(c) <==> 48 <= c as int <= 57
    ensures LowerChar(c) as int == if 65 <= c as int <= 90 then c as int + 32 else c as int
  {
    assert (' ' as int, '0' as int, '9' as int, 'A' as int, 'Z' as int) == (32, 48, 57, 65, 90);
  }

  // ---------- first occurrence ----------

  /** Position of the first `c` in `s`, or -1. */
  function IndexOf(s: string, c: char): (r: int)
    ensures -1 <= r < |s|
    ensures r >= 0 ==> s[r] == c
    ensures forall k | 0 <= k < (if r < 0 then |s| else r) :: s[k] != c
  {
    if s == "" then -1
    else if s[0] == c then 0
    else
      var r := IndexOf(s[1..], c);
      if r < 0 then -1 else r + 1
  }

  /** Position of the first `c` at or after `from`, or -1: std::string_view::find. */
  function IndexOfFrom(s: string, c: char, from: nat): (r: int)
    requires from <= |s|
    ensures r == -1 || from <= r < |s|
    ensures r >= 0 ==> s[r] == c
    ensures forall k | from <= k < (if r < 0 then |s| else r) :: s[k] != c
  {
    var r := IndexOf(s[from..], c);
    assert forall k | 0 <= k < |s| - from :: s[from..][k] == s[from + k];
    assert forall k | from <= k < |s| :: s[k] == s[from..][k - from];
    if r < 0 then -1 else from + r
  }

  lemma IndexOfIs(s: string, c: char, i: nat)
    requires i < |s| && s[i] == c
    requires forall k | 0 <= k < i :: s[k] != c
    ensures IndexOf(s, c) == i
  {
  }

  lemma IndexAtFirst(a: string, b: string, c: char)
    requires c !in a
    ensures IndexOf(a + [c] + b, c) == |a|
  {
    IndexOfIs(a + [c] + b, c, |a|);
  }

  /** A search that starts inside the text only sees the rest of it. */
  lemma IndexFromSuffix(pre: string, a: string, b: string, c: char)
    requires c !in a
    ensures IndexOfFrom(pre + (a + [c] + b), c, |pre|) == |pre| + |a|
  {
    assert (pre + (a + [c] + b))[|pre|..] == a + [c] + b;
    IndexAtFirst(a, b, c);
  }

  // ---------- splitting and joining ----------

  /** The pieces of `s` between consecutive occurrences of `c`. */
  function Split(s: string, c: char): (r: seq<string>)
    ensures |r| >= 1
    ensures forall i | 0 <= i < |r| :: c !in r[i]
    decreases |s|
  {
    var i := IndexOf(s, c);
    if i < 0 then [s] else [s[..i]] + Split(s[i + 1..], c)
  }

  /** `parts` with one `c` between neighbours. */
  function Join(parts: seq<string>, c: char): string
    requires |parts| >= 1
  {
    if |parts| == 1 then parts[0] else parts[0] + [c] + Join(parts[1..], c)
  }

  lemma SplitAtFirst(a: string, b: string, c: char)
    requires c !in a
    ensures IndexOf(a + [c] + b, c) == |a|
    ensures Split(a + [c] + b, c) == [a] + Split(b, c)
  {
    var s := a + [c] + b;
    IndexOfIs(s, c, |a|);
    assert s[..|a|] == a && s[|a| + 1..] == b;
  }

  lemma SplitNone(a: string, c: char)
    requires c !in a
    ensures Split(a, c) == [a]
  {
  }

  /** Splitting is a homomorphism on separator boundaries. */
  lemma {:induction false} SplitConcat(a: string, b: string, c: char)
    ensures Split(a + [c] + b, c) == Split(a, c) + Split(b, c)
    decreases |a|
  {
    var i := IndexOf(a, c);
    if i < 0 {
      SplitAtFirst(a, b, c);
    } else {
      var head, tail := a[..i], a[i + 1..];
      assert a == head + [c] + tail;
      assert a + [c] + b == head + [c] + (tail + [c] + b);
      SplitAtFirst(head, tail + [c] + b, c);
      SplitConcat(tail, b, c);
    }
  }

  lemma {:induction false} SplitJoin(parts: seq<string>, c: char)
    requires |parts| >= 1
    requires forall i | 0 <= i < |parts| :: c !in parts[i]
    ensures Split(Join(parts, c), c) == parts
  {
    hide Split, Join;
    if |parts| == 1 {
      assert parts == [parts[0]];
      JoinOne(parts[0], c);
      SplitNone(parts[0], c);
    } else {
      assert forall i | 0 <= i < |parts[1..]| :: parts[1..][i] == parts[i + 1];
      assert parts == [parts[0]] + parts[1..];
      JoinCons(parts[0], parts[1..], c);
      SplitAtFirst(parts[0], Join(parts[1..], c), c);
      SplitJoin(parts[1..], c);
    }
  }

  lemma JoinCons(head: string, rest: seq<string>, c: char)
    requires |rest| >= 1
    ensures Join([head] + rest, c) == head + [c] + Join(rest, c)
  {
    assert ([head] + rest)[1..] == rest;
  }

  lemma {:induction false} JoinSplit(s: string, c: char)
    ensures Join(Split(s, c), c) == s
    decreases |s|
  {
    hide IndexOf, Join, Split;
    var i := IndexOf(s, c);
    if i < 0 {
      SplitNone(s, c);
      JoinOne(s, c);
    } else {
      var head, tail := s[..i], s[i + 1..];
      assert s == head + [c] + tail;
      SplitAtFirst(head, tail, c);
      JoinSplit(tail, c);
      JoinCons(head, Split(tail, c), c);
    }
  }

  lemma JoinOne(s: string, c: char)
    ensures Join([s], c) == s
  {
  }

  /** One step of a scan: the piece that starts at `start`, and the pieces after it. */
  lemma SplitStep(s: string, start: nat, c: char)
    requires start <= |s|
    ensures var i := IndexOfFrom(s, c, start);
            Split(s[start..], c) ==
            if i < 0 then [s[start..]] else [s[start..i]] + Split(s[i + 1..], c)
  {
    hide *;
    var i := IndexOfFrom(s, c, start);
    if i < 0 {
      assert forall j | 0 <= j < |s| - start :: s[start..][j] == s[start + j];
      SplitNone(s[start..], c);
    } else {
      assert s[start..] == s[start..i] + [c] + s[i + 1..];
      SplitAtFirst(s[start..i], s[i + 1..], c);
    }
  }

  // ---------- first occurrence of a whole text ----------

  predicate OccursAt(s: string, pat: string, i: nat) {
    i + |pat| <= |s| && s[i..i + |pat|] == pat
  }

  function IndexOfText(s: string, pat: string): (r: int)
    requires pat != ""
    ensures r == -1 || (r >= 0 && OccursAt(s, pat, r))
    ensures forall k: nat | k < (if r < 0 then |s| else r) :: !OccursAt(s, pat, k)
  {
    FirstOccurrence(s, pat, 0)
  }

  function FirstOccurrence(s: string, pat: string, from: nat): (r: int)
    requires pat != "" && from <= |s|
    ensures r == -1 || (r >= from && OccursAt(s, pat, r))
    ensures forall k | from <= k < (if r < 0 then |s| else r) :: !OccursAt(s, pat, k)
    decreases |s| - from
  {
    if from == |s| then -1 else if OccursAt(s, pat, from) then from else FirstOccurrence(s, pat, from + 1)
  }

  /** The first occurrence is where `pat`'s first character first appears. */
  lemma IndexOfTextIs(a: string, pat: string, b: string)
    requires pat != "" && pat[0] !in a
    ensures IndexOfText(a + pat + b, pat) == |a|
  {
    var s := a + pat + b;
    assert s[|a|..|a| + |pat|] == pat;
    assert OccursAt(s, pat, |a|);
    assert forall k: nat | k < |a| && k + |pat| <= |s| :: s[k..k + |pat|][0] == a[k];
  }

  lemma IndexOfTextNone(s: string, pat: string, c: char)
    requires c in pat && c !in s
    ensures IndexOfText(s, pat) == -1
  {
    var i := IndexOfText(s, pat);
    if i >= 0 {
      OccurrenceChars(s, pat, i);
    }
  }

  lemma OccurrenceChars(s: string, pat: string, i: nat)
    requires OccursAt(s, pat, i)
    ensures forall j | 0 <= j < |pat| :: pat[j] == s[i + j]
    ensures forall c | c in pat :: c in s
  {
    assert forall j | 0 <= j < |pat| :: pat[j] == s[i..i + |pat|][j] == s[i + j];
  }

  // ---------- lines ----------

  /** The line without the '\r' of a CRLF ending. */
  function WithoutCr(line: string): string {
    if line != "" && line[|line| - 1] == '\r' then line[..|line| - 1] else line
  }

  /** `lines`, each followed by a newline. */
  function Unlines(lines: seq<string>): string {
    if lines == [] then "" else lines[0] + "\n" + Unlines(lines[1..])
  }

  lemma UnlinesNone()
    ensures Unlines([]) == ""
  {
  }

  lemma UnlinesCons(line: string, rest: seq<string>)
    ensures Unlines([line] + rest) == line + "\n" + Unlines(rest)
  {
    assert ([line] + rest)[1..] == rest;
  }

  lemma {:induction false} UnlinesSnoc(lines: seq<string>, last: string)
    ensures Unlines(lines + [last]) == Unlines(lines) + last + "\n"
  {
    if lines == [] {
      assert [] + [last] == [last] + [];
      UnlinesCons(last, []);
    } else {
      assert lines + [last] == [lines[0]] + (lines[1..] + [last]);
      UnlinesCons(lines[0], lines[1..] + [last]);
      UnlinesSnoc(lines[1..], last);
    }
  }

  /** Splitting what Unlines wrote gives the lines back, and an empty piece after the last newline. */
  lemma {:induction false} SplitUnlines(lines: seq<string>)
    requires forall i | 0 <= i < |lines| :: '\n' !in lines[i]
    ensures Split(Unlines(lines), '\n') == lines + [""]
  {
    hide Split, IndexOf;
    if lines == [] {
      SplitNone("", '\n');
    } else {
      SplitUnlines(lines[1..]);
      SplitAtFirst(lines[0], Unlines(lines[1..]), '\n');
      assert lines + [""] == [lines[0]] + (lines[1..] + [""]);
    }
  }

  // ---------- trimming ----------

  function TrimLeft(s: string): string {
    if s != "" && IsSpace(s[0]) then TrimLeft(s[1..]) else s
  }

  function TrimRight(s: string): string {
    if s != "" && IsSpace(s[|s| - 1]) then TrimRight(s[..|s| - 1]) else s
  }

  function Trim(s: string): string {
    TrimRight(TrimLeft(s))
  }

  /** `s` neither starts nor ends with white space. */
  predicate Trimmed(s: string) {
    s == "" || (!IsSpace(s[0]) && !IsSpace(s[|s| - 1]))
  }

  lemma {:induction false} TrimLeftParts(s: string) returns (pad: string)
    ensures AllSpaces(pad) && s == pad + TrimLeft(s)
    ensures TrimLeft(s) != "" ==> !IsSpace(TrimLeft(s)[0])
  {
    hide IsSpace;
    if s != "" && IsSpace(s[0]) {
      var rest := TrimLeftParts(s[1..]);
      pad := [s[0]] + rest;
      assert s == [s[0]] + s[1..];
    } else {
      pad := "";
    }
  }

  lemma {:induction false} TrimRightParts(s: string) returns (pad: string)
    ensures AllSpaces(pad) && s == TrimRight(s) + pad
    ensures TrimRight(s) != "" ==> !IsSpace(TrimRight(s)[|TrimRight(s)| - 1])
  {
    if s != "" && IsSpace(s[|s| - 1]) {
      var rest := TrimRightParts(s[..|s| - 1]);
      pad := rest + [s[|s| - 1]];
      assert s == s[..|s| - 1] + [s[|s| - 1]];
    } else {
      pad := "";
    }
  }

  /** Trim only removes white space at the two ends, and removes all of it. */
  lemma TrimParts(s: string) returns (left: string, right: string)
    ensures AllSpaces(left) && AllSpaces(right)
    ensures s == left + Trim(s) + right && Trimmed(Trim(s))
  {
    left := TrimLeftParts(s);
    right := TrimRightParts(TrimLeft(s));
    if Trim(s) != "" {
      assert TrimLeft(s)[0] == Trim(s)[0];
    }
  }

  lemma {:induction false} TrimLeftPadding(pad: string, t: string)
    requires AllSpaces(pad)
    ensures TrimLeft(pad + t) == TrimLeft(t)
  {
    if pad == "" {
      assert pad + t == t;
    } else {
      assert (pad + t)[1..] == pad[1..] + t;
      TrimLeftPadding(pad[1..], t);
    }
  }

  lemma {:induction false} TrimRightPadding(t: string, pad: string)
    requires AllSpaces(pad)
    ensures TrimRight(t + pad) == TrimRight(t)
  {
    if pad == "" {
      assert t + pad == t;
    } else {
      var n := |pad| - 1;
      assert (t + pad)[..|t + pad| - 1] == t + pad[..n];
      TrimRightPadding(t, pad[..n]);
    }
  }

  lemma TrimTrimmed(t: string)
    requires Trimmed(t)
    ensures Trim(t) == t
  {
  }

  /** Padding on either side never changes what Trim returns. */
  lemma TrimPadding(left: string, t: string, right: string)
    requires AllSpaces(left) && AllSpaces(right)
    ensures Trim(left + t + right) == Trim(t)
  {
    var l, r := TrimParts(t);
    var core := Trim(t);
    assert left + t + right == (left + l) + (core + (r + right));
    TrimLeftPadding(left + l, core + (r + right));
    TrimRightPadding(core, r + right);
    if core == "" {
      assert core + (r + right) == (r + right) + "";
      TrimLeftPadding(r + right, "");
    } else {
      assert (core + (r + right))[0] == core[0];
    }
  }

  /** The two removal loops of Trim. */
  method TrimLoop(s: string) returns (t: string)
    ensures t == Trim(s)
  {
    t := s;
    while t != "" && IsSpace(t[0])
      invariant TrimLeft(t) == TrimLeft(s)
      decreases |t|
    {
      t := t[1..];
    }
    while t != "" && IsSpace(t[|t| - 1])
      invariant TrimRight(t) == Trim(s)
      decreases |t|
    {
      t := t[..|t| - 1];
    }
  }

  // ---------- trimming the pieces of a split ----------

  function TrimAll(parts: seq<string>): (r: seq<string>)
    ensures |r| == |parts|
  {
    seq(|parts|, i requires 0 <= i < |parts| => Trim(parts[i]))
  }

  /** `parts` with `pad` put before its first piece. */
  function PadFirst(pad: string, parts: seq<string>): seq<string>
    requires |parts| >= 1
  {
    [pad + parts[0]] + parts[1..]
  }

  /** `parts` with `pad` put after its last piece. */
  function PadLast(parts: seq<string>, pad: string): seq<string>
    requires |parts| >= 1
  {
    if |parts| == 1 then [parts[0] + pad] else [parts[0]] + PadLast(parts[1..], pad)
  }

  lemma SplitPadLeft(pad: string, s: string, c: char)
    requires c !in pad
    ensures Split(pad + s, c) == PadFirst(pad, Split(s, c))
  {
    var i := IndexOf(s, c);
    if i < 0 {
      SplitNone(pad + s, c);
    } else {
      assert pad + s == (pad + s[..i]) + [c] + s[i + 1..];
      SplitAtFirst(pad + s[..i], s[i + 1..], c);
    }
  }

  lemma {:induction false} SplitPadRight(s: string, pad: string, c: char)
    requires c !in pad
    ensures Split(s + pad, c) == PadLast(Split(s, c), pad)
    decreases |s|
  {
    hide *;
    var i := IndexOf(s, c);
    if i < 0 {
      SplitNone(s, c);
      SplitNone(s + pad, c);
      PadLastOne(s, pad);
    } else {
      var head, tail := s[..i], s[i + 1..];
      SplitPadRight(tail, pad, c);
      assert s == head + [c] + tail;
      assert s + pad == head + [c] + (tail + pad);
      SplitAtFirst(head, tail, c);
      SplitAtFirst(head, tail + pad, c);
      PadLastCons(head, Split(tail, c), pad);
    }
  }

  lemma PadLastOne(p: string, pad: string)
    ensures PadLast([p], pad) == [p + pad]
  {
  }

  lemma PadLastCons(head: string, rest: seq<string>, pad: string)
    requires |rest| >= 1
    ensures PadLast([head] + rest, pad) == [head] + PadLast(rest, pad)
  {
    assert ([head] + rest)[1..] == rest;
  }

  lemma {:induction false} TrimAllPadLast(parts: seq<string>, pad: string)
    requires |parts| >= 1 && AllSpaces(pad)
    ensures TrimAll(PadLast(parts, pad)) == TrimAll(parts)
  {
    TrimPadding("", parts[0], pad);
    assert "" + parts[0] + pad == parts[0] + pad;
    if |parts| > 1 {
      TrimAllPadLast(parts[1..], pad);
      TrimAllCons(parts[0], PadLast(parts[1..], pad));
      TrimAllCons(parts[0], parts[1..]);
      assert parts == [parts[0]] + parts[1..];
    }
  }

  lemma TrimAllCons(p: string, rest: seq<string>)
    ensures TrimAll([p] + rest) == [Trim(p)] + TrimAll(rest)
  {
  }

  lemma TrimAllPadFirst(pad: string, parts: seq<string>)
    requires |parts| >= 1 && AllSpaces(pad)
    ensures TrimAll(PadFirst(pad, parts)) == TrimAll(parts)
  {
    TrimPadding(pad, parts[0], "");
    assert pad + parts[0] + "" == pad + parts[0];
    TrimAllCons(pad + parts[0], parts[1..]);
    TrimAllCons(parts[0], parts[1..]);
    assert parts == [parts[0]] + parts[1..];
  }

  /** Trimming the whole text first makes no difference to its trimmed pieces. */
  lemma TrimAllSplit(s: string, c: char)
    requires !IsSpace(c)
    ensures TrimAll(Split(Trim(s), c)) == TrimAll(Split(s, c))
  {
    var left, right := TrimParts(s);
    var core := Trim(s);
    assert s == left + (core + right);
    SplitPadLeft(left, core + right, c);
    SplitPadRight(core, right, c);
    TrimAllPadFirst(left, Split(core + right, c));
    TrimAllPadLast(Split(core, c), right);
  }
}
