/** New-TestPeDll: the printer of minimal PE32+ files with an export directory, back-patched in place. */
module PeFixture {
  import opened PeBytes
  import opened PeExports

  const BASE: int := 0x200          // the export directory, and the only section, start here
  const ARRAYS: int := 0x228        // the address table follows the 40-byte directory
  const FAKE_CODE: int := 0x1000    // the address a real export is given

  /** Every number of the file fits its 32-bit field. */
  predicate U32(v: int) {
    0 <= v < 0x1_0000_0000
  }

  // ---------- the headers ----------

  /** Byte `k` of the first 512 bytes. */
  function HeaderByte(k: nat, rva: int, size: int, virtualSize: int, rawSize: int): Byte
    requires U32(rva) && U32(size) && U32(virtualSize) && U32(rawSize)
  {
    if k < 0x84 then
      if k == 0 then 0x4D else if k == 1 then 0x5A
      else if k == 0x3C then 0x80
      else if k == 0x80 then 0x50 else if k == 0x81 then 0x45
      else 0
    else if k < 0x98 then
      if k == 0x84 then 0x64 else if k == 0x85 then 0x86
      else if k == 0x86 then 1
      else if k == 0x94 then 240
      else if k == 0x96 then 0x22 else if k == 0x97 then 0x20
      else 0
    else if k < 0x188 then
      if k == 0x98 then 0x0B else if k == 0x99 then 0x02
      else if 0x108 <= k < 0x10C then Le32(rva)[k - 0x108]
      else if 0x10C <= k < 0x110 then Le32(size)[k - 0x10C]
      else 0
    else if k < 0x190 then
      if k == 0x188 then 0x2E else if k == 0x189 then 0x72 else if k == 0x18A then 0x64
      else if k == 0x18B || k == 0x18D then 0x61 else if k == 0x18C then 0x74
      else 0
    else if k < 0x194 then Le32(virtualSize)[k - 0x190]
    else if k == 0x195 || k == 0x19D then 0x02
    else if 0x198 <= k < 0x19C then Le32(rawSize)[k - 0x198]
    else if k == 0x1AC || k == 0x1AF then 0x40
    else 0
  }

  function HeaderBytes(rva: int, size: int, virtualSize: int, rawSize: int): (r: Bytes)
    requires U32(rva) && U32(size) && U32(virtualSize) && U32(rawSize)
    ensures |r| == BASE
  {
    seq(BASE, k requires 0 <= k < BASE => HeaderByte(k, rva, size, virtualSize, rawSize))
  }

  // ---------- the layout ----------

  function NamesOf(es: seq<Export>): (r: seq<string>)
    ensures |r| == |es|
  {
    seq(|es|, i requires 0 <= i < |es| => es[i].name)
  }

  /** The forwarder strings, in export order. */
  function Targets(es: seq<Export>): seq<string> {
    if es == [] then [] else (if Forwards(es[0]) then [es[0].target.value] else []) + Targets(es[1..])
  }

  /** The function addresses when the forwarder strings start at `base`. */
  function FunctionRvas(base: nat, es: seq<Export>): (r: seq<int>)
    ensures |r| == |es|
    ensures forall i | 0 <= i < |r| ::
              if Forwards(es[i]) then base <= r[i] < base + |Packed(Targets(es))| else r[i] == FAKE_CODE
    decreases |es|
  {
    if es == [] then [] else
    var t := Targets(es[1..]);
    if Forwards(es[0]) then
      assert Packed(Targets(es)) == AsciiZ(es[0].target.value) + Packed(t) by {
        assert Targets(es) == [es[0].target.value] + t;
        assert ([es[0].target.value] + t)[1..] == t;
      }
      [base] + FunctionRvas(base + |es[0].target.value| + 1, es[1..])
    else
      assert Targets(es) == t;
      [FAKE_CODE] + FunctionRvas(base, es[1..])
  }

  /**
   * Whether the printer patches a forwarder address into entry `i`. PowerShell unrolls the list of a single name
   * to that string, whose first character is then looked up, and no forwarder goes by that.
   */
  predicate Patched(es: seq<Export>, i: nat)
    requires i < |es|
  {
    Forwards(es[i]) && |es| != 1
  }

  /** The address table. */
  function TableRvas(base: nat, es: seq<Export>): (r: seq<int>)
    ensures |r| == |es|
    ensures forall i: nat | i < |r| ::
              if Patched(es, i) then base <= r[i] < base + |Packed(Targets(es))| else r[i] == FAKE_CODE
  {
    if |es| == 1 then [FAKE_CODE] else FunctionRvas(base, es)
  }

  function DllNameAt(es: seq<Export>): nat {
    ARRAYS + 10 * |es|
  }

  function NamesStart(dllName: string, es: seq<Export>): nat {
    DllNameAt(es) + |dllName| + 1
  }

  function TargetsStart(dllName: string, es: seq<Export>): nat {
    NamesStart(dllName, es) + |Packed(NamesOf(es))|
  }

  /** Where the export directory, and the file, end. */
  function End(dllName: string, es: seq<Export>): nat {
    TargetsStart(dllName, es) + |Packed(Targets(es))|
  }

  /** The ten 32-bit words of the export directory. */
  function DirectoryWords(n: nat, nameRva: int, functionsRva: int, namesRva: int, ordinalsRva: int): seq<int> {
    [0, 0, 0, nameRva, 1, n, n, functionsRva, namesRva, ordinalsRva]
  }

  /** Directory, address table and name table: all the 32-bit words in a row. */
  function Words(dllName: string, es: seq<Export>): (r: seq<int>)
    ensures |r| == 10 + 2 * |es|
  {
    var n := |es|;
    DirectoryWords(n, DllNameAt(es), ARRAYS, ARRAYS + 4 * n, ARRAYS + 8 * n)
    + TableRvas(TargetsStart(dllName, es), es) + Starts(NamesStart(dllName, es), NamesOf(es))
  }

  /** What follows the words. */
  function Tail(dllName: string, es: seq<Export>): (r: Bytes)
    requires |es| <= 0x1_0000
    ensures |r| == End(dllName, es) - ARRAYS - 8 * |es|
  {
    Ordinals(0, |es|) + AsciiZ(dllName) + Packed(NamesOf(es)) + Packed(Targets(es))
  }

  /** What the printer needs: 16-bit ordinals, 32-bit addresses, and a first character if there is one name only. */
  predicate Printable(dllName: string, es: seq<Export>) {
    |es| <= 0x1_0000 && (|es| == 1 ==> es[0].name != "") && End(dllName, es) <= INT32_MAX
  }

  lemma WordsFit(dllName: string, es: seq<Export>)
    requires Printable(dllName, es)
    ensures AllU32(Words(dllName, es))
  {
  }

  /** The file the printer writes. */
  function Image(dllName: string, es: seq<Export>): (r: Bytes)
    requires Printable(dllName, es)
    ensures |r| == End(dllName, es)
  {
    var size := End(dllName, es) - BASE;
    WordsFit(dllName, es);
    HeaderBytes(BASE, size, size, size) + U32Array(Words(dllName, es)) + Tail(dllName, es)
  }

  // ---------- patching ----------

  function Patch(b: Bytes, off: nat, v: int): (r: Bytes)
    requires off + 4 <= |b| && U32(v)
    ensures |r| == |b|
  {
    b[..off] + Le32(v) + b[off + 4..]
  }

  /** Set-U32: four single-byte stores. */
  method SetU32(buf: Bytes, off: nat, v: int) returns (r: Bytes)
    requires off + 4 <= |buf| && U32(v)
    ensures r == Patch(buf, off, v)
  {
    hide Le32;
    var b := Le32(v);
    r := buf;
    var k := 0;
    while k < 4
      invariant 0 <= k <= 4
      invariant r == buf[..off] + b[..k] + buf[off + k..]
    {
      r := r[off + k := b[k]];
      k := k + 1;
    }
    assert b[..4] == b;
  }

  /** Overwriting one word of an array. */
  lemma PatchWord(pre: Bytes, vs: seq<int>, i: nat, v: int, post: Bytes)
    requires AllU32(vs) && i < |vs| && U32(v)
    ensures AllU32(vs[i := v])
    ensures Patch(pre + U32Array(vs) + post, |pre| + 4 * i, v) == pre + U32Array(vs[i := v]) + post
  {
    hide Le32, U32Array;
    var ws := vs[i := v];
    U32ArraySplit(vs, i);
    U32ArraySplit(ws, i);
    assert ws[..i] == vs[..i] && ws[i + 1..] == vs[i + 1..];
    PatchMiddle(pre, U32Array(vs[..i]), Le32(vs[i]), U32Array(vs[i + 1..]), post, v);
  }

  lemma PatchMiddle(pre: Bytes, a: Bytes, old4: Bytes, c: Bytes, post: Bytes, v: int)
    requires |old4| == 4 && U32(v)
    ensures Patch(pre + (a + old4 + c) + post, |pre| + |a|, v) == pre + (a + Le32(v) + c) + post
  {
    hide Le32;
    var b := pre + (a + old4 + c) + post;
    assert b[..|pre| + |a|] == pre + a;
    assert b[|pre| + |a| + 4..] == c + post;
  }

  lemma PatchHeader(rva: int, size: int, vs: int, raw: int, rest: Bytes, v: int)
    requires U32(rva) && U32(size) && U32(vs) && U32(raw) && U32(v)
    ensures Patch(HeaderBytes(rva, size, vs, raw) + rest, 0x108, v) == HeaderBytes(v, size, vs, raw) + rest
    ensures Patch(HeaderBytes(rva, size, vs, raw) + rest, 0x10C, v) == HeaderBytes(rva, v, vs, raw) + rest
    ensures Patch(HeaderBytes(rva, size, vs, raw) + rest, 0x190, v) == HeaderBytes(rva, size, v, raw) + rest
    ensures Patch(HeaderBytes(rva, size, vs, raw) + rest, 0x198, v) == HeaderBytes(rva, size, vs, v) + rest
  {
    hide Le32;
  }

  // ---------- writing the headers ----------

  /** Add-Bytes: appends bytes that the goal has at this place. */
  method AddBytes(buf: Bytes, x: Bytes, ghost goal: Bytes) returns (r: Bytes)
    requires |buf| + |x| <= |goal| && buf == goal[..|buf|]
    requires forall k | 0 <= k < |x| :: goal[|buf| + k] == x[k]
    ensures r == goal[..|buf| + |x|] && |r| == |buf| + |x|
  {
    r := buf + x;
  }

  /** Add-U16. */
  method AddU16(buf: Bytes, v: int, ghost goal: Bytes) returns (r: Bytes)
    requires 0 <= v < 0x1_0000 && |buf| + 2 <= |goal| && buf == goal[..|buf|]
    requires goal[|buf|] == Le16(v)[0] && goal[|buf| + 1] == Le16(v)[1]
    ensures r == goal[..|buf| + 2] && |r| == |buf| + 2
  {
    hide Le16;
    r := AddBytes(buf, Le16(v), goal);
  }

  /** Add-U32. */
  method AddU32(buf: Bytes, v: int, ghost goal: Bytes) returns (r: Bytes)
    requires U32(v) && |buf| + 4 <= |goal| && buf == goal[..|buf|]
    requires goal[|buf|] == Le32(v)[0] && goal[|buf| + 1] == Le32(v)[1]
    requires goal[|buf| + 2] == Le32(v)[2] && goal[|buf| + 3] == Le32(v)[3]
    ensures r == goal[..|buf| + 4] && |r| == |buf| + 4
  {
    hide Le32;
    r := AddBytes(buf, Le32(v), goal);
  }

  /** Pad-To: zero bytes up to an offset. */
  method PadTo(buf: Bytes, offset: nat, ghost goal: Bytes) returns (r: Bytes)
    requires |buf| <= offset <= |goal| && buf == goal[..|buf|]
    requires forall k | |buf| <= k < offset :: goal[k] == 0
    ensures r == goal[..offset] && |r| == offset
  {
    r := buf;
    while |r| < offset
      invariant |buf| <= |r| <= offset && r == goal[..|r|]
    {
      assert goal[..|r| + 1] == goal[..|r|] + [goal[|r|]];
      r := r + [0];
    }
  }

  method WriteFileHeader(ghost goal: Bytes) returns (buf: Bytes)
    requires goal == HeaderBytes(0, 0, 0, 0)
    ensures buf == goal[..0x98] && |buf| == 0x98
  {
    buf := AddBytes([], [0x4D, 0x5A], goal);
    buf := PadTo(buf, 0x3C, goal);
    buf := AddU32(buf, 0x80, goal);
    buf := PadTo(buf, 0x80, goal);
    buf := WriteMachine(buf, goal);
  }

  method WriteMachine(buf0: Bytes, ghost goal: Bytes) returns (buf: Bytes)
    requires goal == HeaderBytes(0, 0, 0, 0) && buf0 == goal[..0x80]
    ensures buf == goal[..0x98] && |buf| == 0x98
  {
    buf := AddBytes(buf0, [0x50, 0x45], goal);
    buf := AddU16(buf, 0, goal);
    buf := AddU16(buf, 0x8664, goal);
    buf := AddU16(buf, 1, goal);
    buf := WriteCounts(buf, goal);
  }

  method WriteCounts(buf0: Bytes, ghost goal: Bytes) returns (buf: Bytes)
    requires goal == HeaderBytes(0, 0, 0, 0) && buf0 == goal[..0x88]
    ensures buf == goal[..0x98] && |buf| == 0x98
  {
    buf := AddU32(buf0, 0, goal);
    buf := AddU32(buf, 0, goal);
    buf := AddU32(buf, 0, goal);
    buf := AddU16(buf, 240, goal);
    buf := AddU16(buf, 0x2022, goal);
  }

  method WriteOptionalHeader(buf0: Bytes, ghost goal: Bytes) returns (buf: Bytes)
    requires goal == HeaderBytes(0, 0, 0, 0) && buf0 == goal[..0x98]
    ensures buf == goal[..0x188] && |buf| == 0x188
  {
    buf := AddU16(buf0, 0x20B, goal);
    buf := PadTo(buf, 0x98 + 112, goal);
    buf := AddU32(buf, 0, goal);
    buf := AddU32(buf, 0, goal);
    buf := PadTo(buf, 0x98 + 240, goal);
  }

  method WriteSectionHeader(buf0: Bytes, ghost goal: Bytes) returns (buf: Bytes)
    requires goal == HeaderBytes(0, 0, 0, 0) && buf0 == goal[..0x188]
    ensures buf == goal
  {
    buf := AddBytes(buf0, [0x2E, 0x72, 0x64, 0x61, 0x74, 0x61, 0, 0], goal);
    buf := AddU32(buf, 0, goal);
    buf := AddU32(buf, 0x200, goal);
    buf := AddU32(buf, 0, goal);
    buf := WriteSectionRest(buf, goal);
  }

  method WriteSectionRest(buf0: Bytes, ghost goal: Bytes) returns (buf: Bytes)
    requires goal == HeaderBytes(0, 0, 0, 0) && buf0 == goal[..0x19C]
    ensures buf == goal
  {
    buf := AddU32(buf0, 0x200, goal);
    buf := AddU32(buf, 0, goal);
    buf := AddU32(buf, 0, goal);
    buf := AddU16(buf, 0, goal);
    buf := AddU16(buf, 0, goal);
    buf := AddU32(buf, 0x4000_0040, goal);
    buf := PadTo(buf, 0x200, goal);
  }

  // ---------- writing the directory and its strings ----------

  lemma {:induction false} U32ArraySnoc(vs: seq<int>, v: int)
    requires AllU32(vs) && U32(v)
    ensures AllU32(vs + [v])
    ensures U32Array(vs + [v]) == U32Array(vs) + Le32(v)
  {
    hide Le32;
    if vs == [] {
      assert [] + [v] == [v];
      assert [v][1..] == [];
    } else {
      assert (vs + [v])[1..] == vs[1..] + [v];
      U32ArraySnoc(vs[1..], v);
    }
  }

  function DraftWords(n: nat): (r: seq<int>)
    ensures |r| == 10 + 2 * n
  {
    DirectoryWords(n, 0, 0, 0, 0) + seq(2 * n, _ => 0)
  }

  /** Add-U32 of every word of a list. */
  method AddWords(buf: Bytes, words: seq<int>) returns (r: Bytes)
    requires AllU32(words)
    ensures r == buf + U32Array(words)
  {
    hide Le32, U32Array;
    r := buf;
    var i := 0;
    U32ArrayNone();
    assert words[..0] == [];
    while i < |words|
      invariant 0 <= i <= |words|
      invariant r == buf + U32Array(words[..i])
    {
      U32ArraySnoc(words[..i], words[i]);
      assert words[..i + 1] == words[..i] + [words[i]];
      r := r + Le32(words[i]);
      i := i + 1;
    }
    assert words[..i] == words;
  }

  lemma U32ArrayNone()
    ensures U32Array([]) == []
  {
  }

  method AddOrdinals(buf: Bytes, n: nat) returns (r: Bytes)
    requires n <= 0x1_0000
    ensures r == buf + Ordinals(0, n)
  {
    hide Le16;
    r := buf;
    var i := 0;
    while i < n
      invariant 0 <= i <= n
      invariant r + Ordinals(i, n) == buf + Ordinals(0, n)
    {
      assert r + Ordinals(i, n) == (r + Le16(i)) + Ordinals(i + 1, n);
      r := r + Le16(i);
      i := i + 1;
    }
  }

  /** The name strings, and where each one was put. */
  method AddNames(buf: Bytes, names: seq<string>) returns (r: Bytes, rvas: seq<int>)
    ensures r == buf + Packed(names) && rvas == Starts(|buf|, names)
  {
    hide AsciiZ;
    r, rvas := buf, [];
    var i := 0;
    assert names[0..] == names;
    while i < |names|
      invariant 0 <= i <= |names|
      invariant r + Packed(names[i..]) == buf + Packed(names)
      invariant rvas + Starts(|r|, names[i..]) == Starts(|buf|, names)
    {
      var rest := names[i + 1..];
      assert names[i..][0] == names[i] && names[i..][1..] == rest;
      assert r + Packed(names[i..]) == (r + AsciiZ(names[i])) + Packed(rest);
      assert rvas + Starts(|r|, names[i..]) == (rvas + [|r|]) + Starts(|r| + |names[i]| + 1, rest);
      rvas := rvas + [|r|];
      r := r + AsciiZ(names[i]);
      i := i + 1;
    }
  }

  lemma TargetsStep(es: seq<Export>, base: nat)
    requires es != []
    ensures Forwards(es[0]) ==>
              && Packed(Targets(es)) == AsciiZ(es[0].target.value) + Packed(Targets(es[1..]))
              && FunctionRvas(base, es) == [base] + FunctionRvas(base + |es[0].target.value| + 1, es[1..])
    ensures !Forwards(es[0]) ==>
              Targets(es) == Targets(es[1..]) && FunctionRvas(base, es) == [FAKE_CODE] + FunctionRvas(base, es[1..])
  {
    hide AsciiZ;
    if Forwards(es[0]) {
      var t := Targets(es[1..]);
      assert ([es[0].target.value] + t)[1..] == t;
    }
  }

  /** The forwarder strings, and the address each export's table entry gets. */
  method AddTargets(buf: Bytes, es: seq<Export>) returns (r: Bytes, rvas: seq<int>)
    ensures r == buf + Packed(Targets(es)) && rvas == FunctionRvas(|buf|, es)
  {
    hide *;
    r, rvas := buf, [];
    var i := 0;
    assert es[0..] == es;
    while i < |es|
      invariant 0 <= i <= |es|
      invariant r + Packed(Targets(es[i..])) == buf + Packed(Targets(es))
      invariant rvas + FunctionRvas(|r|, es[i..]) == FunctionRvas(|buf|, es)
    {
      r, rvas := AddTarget(r, rvas, es[i], es[i..]);
      assert es[i..][1..] == es[i + 1..];
      i := i + 1;
    }
    NothingLeft(|r|);
    assert es[i..] == [];
  }

  method AddTarget(buf: Bytes, rvas0: seq<int>, e: Export, ghost left: seq<Export>) returns (r: Bytes, rvas: seq<int>)
    requires left != [] && left[0] == e
    ensures r + Packed(Targets(left[1..])) == buf + Packed(Targets(left))
    ensures rvas + FunctionRvas(|r|, left[1..]) == rvas0 + FunctionRvas(|buf|, left)
  {
    hide AsciiZ, Packed, Targets, FunctionRvas, Forwards;
    TargetsStep(left, |buf|);
    if Forwards(e) {
      ForwardsHasTarget(e);
      r, rvas := buf + AsciiZ(e.target.value), rvas0 + [|buf|];
    } else {
      r, rvas := buf, rvas0 + [FAKE_CODE];
    }
  }

  lemma ForwardsHasTarget(e: Export)
    requires Forwards(e)
    ensures e.target.Some?
  {
  }

  lemma NothingLeft(base: nat)
    ensures Packed(Targets([])) == [] && FunctionRvas(base, []) == []
  {
  }

  /** The directory words, in the order they are back-patched. */
  method PatchDirectory(buf0: Bytes, ghost pre: Bytes, ghost words0: seq<int>, dllNameRva: int, n: nat,
                        ghost post: Bytes)
      returns (buf: Bytes, ghost words: seq<int>)
    requires |pre| == BASE && AllU32(words0) && |words0| >= 10 && U32(dllNameRva) && U32(ARRAYS + 8 * n)
    requires buf0 == pre + U32Array(words0) + post
    ensures words == words0[3 := dllNameRva][7 := ARRAYS][8 := ARRAYS + 4 * n][9 := ARRAYS + 8 * n]
    ensures AllU32(words) && buf == pre + U32Array(words) + post
  {
    hide U32Array, Patch;
    words := words0;
    PatchWord(pre, words, 3, dllNameRva, post);
    buf := SetU32(buf0, BASE + 12, dllNameRva);
    words := words[3 := dllNameRva];
    PatchWord(pre, words, 7, ARRAYS, post);
    buf := SetU32(buf, BASE + 28, ARRAYS);
    words := words[7 := ARRAYS];
    PatchWord(pre, words, 8, ARRAYS + 4 * n, post);
    buf := SetU32(buf, BASE + 32, ARRAYS + 4 * n);
    words := words[8 := ARRAYS + 4 * n];
    PatchWord(pre, words, 9, ARRAYS + 8 * n, post);
    buf := SetU32(buf, BASE + 36, ARRAYS + 8 * n);
    words := words[9 := ARRAYS + 8 * n];
  }

  /** The loop that back-patches both tables, entry by entry. */
  method PatchTables(buf0: Bytes, ghost pre: Bytes, ghost words0: seq<int>, functionRvas: seq<int>, nameRvas: seq<int>,
                     ghost post: Bytes)
      returns (buf: Bytes)
    requires |pre| == BASE && AllU32(words0) && AllU32(functionRvas) && AllU32(nameRvas)
    requires |functionRvas| == |nameRvas| && |words0| == 10 + 2 * |nameRvas|
    requires buf0 == pre + U32Array(words0) + post
    ensures AllU32(words0[..10] + functionRvas + nameRvas)
    ensures buf == pre + U32Array(words0[..10] + functionRvas + nameRvas) + post
  {
    hide U32Array, Patch;
    var n := |nameRvas|;
    ghost var words := words0;
    buf := buf0;
    var i := 0;
    while i < n
      invariant 0 <= i <= n && |words| == 10 + 2 * n && AllU32(words)
      invariant forall j | 0 <= j < 10 :: words[j] == words0[j]
      invariant forall j | 0 <= j < i :: words[10 + j] == functionRvas[j]
      invariant forall j | 0 <= j < i :: words[10 + n + j] == nameRvas[j]
      invariant buf == pre + U32Array(words) + post
    {
      PatchWord(pre, words, 10 + i, functionRvas[i], post);
      buf := SetU32(buf, ARRAYS + i * 4, functionRvas[i]);
      words := words[10 + i := functionRvas[i]];
      PatchWord(pre, words, 10 + n + i, nameRvas[i], post);
      buf := SetU32(buf, ARRAYS + 4 * n + i * 4, nameRvas[i]);
      words := words[10 + n + i := nameRvas[i]];
      i := i + 1;
    }
    ghost var goal := words0[..10] + functionRvas + nameRvas;
    forall j | 0 <= j < |words|
      ensures words[j] == goal[j]
    {
      if 10 <= j < 10 + n {
        assert words[10 + (j - 10)] == functionRvas[j - 10];
      } else if 10 + n <= j {
        assert words[10 + n + (j - 10 - n)] == nameRvas[j - 10 - n];
      }
    }
    assert words == goal;
  }

  /** New-TestPeDll. */
  method NewTestPeDll(dllName: string, es: seq<Export>) returns (buf: Bytes)
    requires Printable(dllName, es)
    ensures buf == Image(dllName, es)
  {
    hide HeaderBytes, U32Array, Ordinals, Packed, Targets, FunctionRvas, Starts, AsciiZ, Patch;
    var n := |es|;
    ghost var blank := HeaderBytes(0, 0, 0, 0);
    buf := WriteFileHeader(blank);
    buf := WriteOptionalHeader(buf, blank);
    buf := WriteSectionHeader(buf, blank);
    var pre := buf;
    var draft := DraftWords(n);
    buf := AddWords(buf, draft);
    var afterWords := buf;
    buf := AddOrdinals(buf, n);
    var dllNameRva := |buf|;
    buf := buf + AsciiZ(dllName);
    var nameRvas, functionRvas;
    buf, nameRvas := AddNames(buf, NamesOf(es));
    buf, functionRvas := AddTargets(buf, es);
    var end := |buf|;
    ghost var post := Tail(dllName, es);
    assert buf == afterWords + post;
    assert functionRvas == FunctionRvas(TargetsStart(dllName, es), es);
    // A single name was unrolled: no entry of the table finds its forwarder.
    if n == 1 {
      functionRvas := [FAKE_CODE];
    }
    buf := FinishFile(buf, dllName, es, pre, draft, dllNameRva, nameRvas, functionRvas, post);
  }

  /** The back-patching half of the printer. */
  method FinishFile(buf0: Bytes, dllName: string, es: seq<Export>, ghost pre: Bytes, ghost draft: seq<int>,
                    dllNameRva: int,
                    nameRvas: seq<int>, functionRvas: seq<int>, ghost post: Bytes) returns (buf: Bytes)
    requires Printable(dllName, es) && pre == HeaderBytes(0, 0, 0, 0)
    requires draft == DraftWords(|es|) && buf0 == pre + U32Array(draft) + post
    requires dllNameRva == DllNameAt(es) && nameRvas == Starts(NamesStart(dllName, es), NamesOf(es))
    requires functionRvas == TableRvas(TargetsStart(dllName, es), es) && post == Tail(dllName, es)
    ensures buf == Image(dllName, es)
  {
    hide HeaderBytes, U32Array, Tail, TableRvas, Starts, Patch;
    var n := |es|;
    var size := |buf0| - BASE;
    WordsFit(dllName, es);
    assert AllU32(nameRvas) && AllU32(functionRvas);
    ghost var words;
    buf, words := PatchDirectory(buf0, pre, draft, dllNameRva, n, post);
    buf := PatchTables(buf, pre, words, functionRvas, nameRvas, post);
    assert words[..10] == DirectoryWords(n, dllNameRva, ARRAYS, ARRAYS + 4 * n, ARRAYS + 8 * n);
    buf := PatchHeaders(buf, U32Array(Words(dllName, es)) + post, size);
    assert HeaderBytes(BASE, size, size, size) + (U32Array(Words(dllName, es)) + post) == Image(dllName, es);
  }

  method PatchHeaders(buf0: Bytes, ghost rest: Bytes, size: int) returns (buf: Bytes)
    requires U32(size) && buf0 == HeaderBytes(0, 0, 0, 0) + rest
    ensures buf == HeaderBytes(BASE, size, size, size) + rest
  {
    hide HeaderBytes, Patch;
    PatchHeader(0, 0, 0, 0, rest, BASE);
    buf := SetU32(buf0, 0x108, BASE);
    PatchHeader(BASE, 0, 0, 0, rest, size);
    buf := SetU32(buf, 0x10C, size);
    PatchHeader(BASE, size, 0, 0, rest, size);
    buf := SetU32(buf, 0x190, size);
    PatchHeader(BASE, size, size, 0, rest, size);
    buf := SetU32(buf, 0x198, size);
  }
}
