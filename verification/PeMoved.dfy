/**
 * Export tables away from the printer's fixed layout: any section address and file pointer, another section in
 * front, any assignment of ordinals, and a function table of its own length.
 */
module PeMoved {
  import opened Wrappers
  import opened Text
  import opened PeBytes
  import opened PeExports
  import opened PeFixture
  import opened PeRoundTrip
  import opened PeFiles

  const HEAD: int := 0x1D8    // the headers of a file with two sections

  /**
   * The section in front, where the export section is loaded and where it stands in the file, the bytes in between,
   * the functions (a forwarder target each, or none), the exported names and the ordinal of each.
   */
  datatype Moved = Moved(front: Section, address: nat, pointer: nat, fill: Bytes, dllName: string,
                         functions: seq<Option<string>>, names: seq<string>, ordinals: seq<nat>)

  /** The function table as nameless exports. */
  function FunctionsOf(m: Moved): (r: seq<Export>)
    ensures |r| == |m.functions|
  {
    seq(|m.functions|, i requires 0 <= i < |m.functions| => Export("", m.functions[i]))
  }

  // ---------- the layout, relative to the start of the section ----------

  function OrdinalsFrom(m: Moved): nat {
    40 + 4 * |m.functions| + 4 * |m.names|
  }

  function DllNameFrom(m: Moved): nat {
    OrdinalsFrom(m) + 2 * |m.ordinals|
  }

  function NamesFrom(m: Moved): nat {
    DllNameFrom(m) + |m.dllName| + 1
  }

  function TargetsFrom(m: Moved): nat {
    NamesFrom(m) + |Packed(m.names)|
  }

  function SizeOf(m: Moved): nat {
    TargetsFrom(m) + |Packed(Targets(FunctionsOf(m)))|
  }

  predicate U32Section(s: Section) {
    U32(s.address) && U32(s.size) && U32(s.pointer) && U32(s.rawSize)
  }

  /** What the format can hold; the section in front does not overlap the export section. */
  predicate Movable(m: Moved) {
    && |m.ordinals| == |m.names| && |m.functions| <= 0x1_0000
    && (forall i | 0 <= i < |m.ordinals| :: m.ordinals[i] < |m.functions|)
    && HEAD + |m.fill| == m.pointer && m.pointer + SizeOf(m) <= INT32_MAX
    && 0 < m.address && U32(m.address + SizeOf(m)) && U32Section(m.front)
    && ((m.front.address + m.front.size <= m.address && m.front.address + m.front.rawSize <= m.address)
        || m.address + SizeOf(m) <= m.front.address)
    && !(m.address <= FAKE_CODE < m.address + SizeOf(m))
  }

  /** Plain, non-empty texts, and names that differ beyond their case. */
  predicate PlainTexts(m: Moved) {
    && PlainAscii(m.dllName) && (forall i | 0 <= i < |m.names| :: PlainAscii(m.names[i]))
    && (forall i | 0 <= i < |m.functions| && m.functions[i].Some? ::
          m.functions[i].value != "" && PlainAscii(m.functions[i].value))
    && (forall i, j | 0 <= i < j < |m.names| :: Lower(m.names[i]) != Lower(m.names[j]))
  }

  function Home(m: Moved): Section {
    Section(m.address, SizeOf(m), m.pointer, SizeOf(m))
  }

  // ---------- the bytes ----------

  /** Byte `k` of the headers. */
  function HeadByte(k: nat, s: Section, t: Section): Byte
    requires U32Section(s) && U32Section(t)
  {
    if k < 0x100 then
      if k == 0 then 0x4D else if k == 1 then 0x5A
      else if k == 0x3C then 0x80
      else if k == 0x80 then 0x50 else if k == 0x81 then 0x45
      else if k == 0x84 then 0x64 else if k == 0x85 then 0x86
      else if k == 0x86 then 2
      else if k == 0x94 then 240
      else if k == 0x98 then 0x0B else if k == 0x99 then 0x02
      else 0
    else if k < 0x188 then
      if 0x108 <= k < 0x10C then Le32(t.address)[k - 0x108]
      else if 0x10C <= k < 0x110 then Le32(t.size)[k - 0x10C]
      else 0
    else if k < 0x1B0 then SectionByte(k - 0x188, s)
    else SectionByte(k - 0x1B0, t)
  }

  /** Byte `k` of a section header. */
  function SectionByte(k: nat, s: Section): Byte
    requires U32Section(s)
  {
    if 8 <= k < 12 then Le32(s.size)[k - 8]
    else if 12 <= k < 16 then Le32(s.address)[k - 12]
    else if 16 <= k < 20 then Le32(s.rawSize)[k - 16]
    else if 20 <= k < 24 then Le32(s.pointer)[k - 20]
    else 0
  }

  function HeadBytes(s: Section, t: Section): (r: Bytes)
    requires U32Section(s) && U32Section(t)
    ensures |r| == HEAD
  {
    seq(HEAD, k requires 0 <= k < HEAD => HeadByte(k, s, t))
  }

  function Halves(vs: seq<nat>): (r: Bytes)
    requires forall i | 0 <= i < |vs| :: vs[i] < 0x1_0000
    ensures |r| == 2 * |vs|
  {
    if vs == [] then [] else Le16(vs[0]) + Halves(vs[1..])
  }

  /** The directory, the function table and the name table. */
  function MovedWords(m: Moved): (r: seq<int>)
    ensures |r| == 10 + |m.functions| + |m.names|
  {
    var a, nf, n := m.address, |m.functions|, |m.names|;
    [0, 0, 0, a + DllNameFrom(m), 1, nf, n, a + 40, a + 40 + 4 * nf, a + OrdinalsFrom(m)]
    + FunctionRvas(a + TargetsFrom(m), FunctionsOf(m)) + Starts(a + NamesFrom(m), m.names)
  }

  lemma MovedWordsFit(m: Moved)
    requires Movable(m)
    ensures AllU32(MovedWords(m))
    ensures U32Section(Home(m))
  {
    hide Packed, Targets, FunctionRvas, Starts;
  }

  function MovedImage(m: Moved): Bytes
    requires Movable(m)
  {
    MovedWordsFit(m);
    HeadBytes(m.front, Home(m)) + m.fill + U32Array(MovedWords(m)) + Halves(m.ordinals)
    + AsciiZ(m.dllName) + Packed(m.names) + Packed(Targets(FunctionsOf(m)))
  }

  // ---------- reading the bytes back ----------

  lemma HeadFields(s: Section, t: Section, rest: Bytes)
    requires U32Section(s) && U32Section(t)
    ensures var b := HeadBytes(s, t) + rest;
            && b[0] == 0x4D && b[1] == 0x5A && b[0x80..0x84] == [0x50, 0x45, 0, 0]
            && U32At(b, 0x3C) == Ok(0x80) && U16At(b, 0x86) == Ok(2) && U16At(b, 0x94) == Ok(240)
            && U16At(b, 0x98) == Ok(0x20B)
  {
    hide Le32, SectionByte;
  }

  lemma DataDirectory(s: Section, t: Section, rest: Bytes)
    requires U32Section(s) && U32Section(t)
    ensures var b := HeadBytes(s, t) + rest; U32At(b, 0x108) == Ok(t.address) && U32At(b, 0x10C) == Ok(t.size)
  {
    hide Le32, SectionByte;
    Le32Value(t.address);
    Le32Value(t.size);
  }

  lemma WordOfSection(s: Section, b: Bytes, at: nat, k: nat, v: int)
    requires U32Section(s) && at + 40 <= |b| && forall k | 0 <= k < 40 :: b[at + k] == SectionByte(k, s)
    requires (k, v) in {(8, s.size), (12, s.address), (16, s.rawSize), (20, s.pointer)}
    ensures U32At(b, at + k) == Ok(v)
  {
    hide Le32;
    Le32Value(v);
    assert SectionByte(k, s) == Le32(v)[0] && SectionByte(k + 1, s) == Le32(v)[1];
    assert SectionByte(k + 2, s) == Le32(v)[2] && SectionByte(k + 3, s) == Le32(v)[3];
  }

  lemma SectionBytesRead(s: Section, b: Bytes, at: nat)
    requires U32Section(s) && at + 40 <= |b| && forall k | 0 <= k < 40 :: b[at + k] == SectionByte(k, s)
    ensures HasSection(b, at, s)
  {
    hide U32At;
    WordOfSection(s, b, at, 8, s.size);
    WordOfSection(s, b, at, 12, s.address);
    WordOfSection(s, b, at, 16, s.rawSize);
    WordOfSection(s, b, at, 20, s.pointer);
  }

  lemma SectionHeaders(s: Section, t: Section, rest: Bytes)
    requires U32Section(s) && U32Section(t)
    ensures HasSections(HeadBytes(s, t) + rest, 0x188, [s, t])
  {
    hide SectionByte, HasSection;
    var b, ss := HeadBytes(s, t) + rest, [s, t];
    assert forall k | 0 <= k < 40 :: b[0x188 + k] == SectionByte(k, s);
    assert forall k | 0 <= k < 40 :: b[0x1B0 + k] == SectionByte(k, t);
    SectionBytesRead(s, b, 0x188);
    SectionBytesRead(t, b, 0x1B0);
    assert HasSectionAt(b, 0x188, ss, 0) && HasSectionAt(b, 0x188, ss, 1);
    forall i: nat | i < |ss|
      ensures HasSectionAt(b, 0x188, ss, i)
    {
      assert i == 0 || i == 1;
    }
  }

  lemma {:induction false} HalvesAt(pre: Bytes, vs: seq<nat>, post: Bytes, i: nat)
    requires i < |vs| && forall j | 0 <= j < |vs| :: vs[j] < 0x1_0000
    ensures U16At(pre + Halves(vs) + post, |pre| + 2 * i) == Ok(vs[i])
    decreases |vs|
  {
    hide Le16, U16At;
    var head, rest := Le16(vs[0]), Halves(vs[1..]);
    if i == 0 {
      assert pre + Halves(vs) + post == pre + head + (rest + post);
      U16AtField(pre, vs[0], rest + post);
    } else {
      assert pre + Halves(vs) + post == (pre + head) + rest + post;
      HalvesAt(pre + head, vs[1..], post, i - 1);
    }
  }

  lemma {:induction false} StartsShift(base: nat, d: nat, ss: seq<string>, i: nat)
    requires i < |ss|
    ensures Starts(base + d, ss)[i] == Starts(base, ss)[i] + d
    decreases |ss|
  {
    if i > 0 {
      StartsShift(base + |ss[0]| + 1, d, ss[1..], i - 1);
    }
  }

  lemma ForwardsLater(es: seq<Export>, i: nat)
    requires i < |es|
    ensures i > 0 ==> es[1..][i - 1] == es[i]
  {
  }

  lemma {:induction false} FunctionRvasShift(base: nat, d: nat, es: seq<Export>, i: nat)
    requires i < |es| && Forwards(es[i])
    ensures FunctionRvas(base + d, es)[i] == FunctionRvas(base, es)[i] + d
    decreases |es|
  {
    hide *;
    TargetsStep(es, base);
    TargetsStep(es, base + d);
    ForwardsLater(es, i);
    if i == 0 {
    } else if Forwards(es[0]) {
      ForwardsHasTarget(es[0]);
      FunctionRvasShift(base + |es[0].target.value| + 1, d, es[1..], i - 1);
    } else {
      FunctionRvasShift(base, d, es[1..], i - 1);
    }
  }

  /** The file in front of the section, its words, and what follows them. */
  lemma MovedParts(m: Moved) returns (pre: Bytes, w: Bytes, o: Bytes, d: Bytes, n: Bytes, t: Bytes)
    requires Movable(m)
    ensures |pre| == m.pointer && AllU32(MovedWords(m)) && w == U32Array(MovedWords(m)) && o == Halves(m.ordinals)
    ensures d == AsciiZ(m.dllName) && n == Packed(m.names) && t == Packed(Targets(FunctionsOf(m)))
    ensures U32Section(Home(m)) && pre == HeadBytes(m.front, Home(m)) + m.fill
    ensures MovedImage(m) == pre + w + o + d + n + t
  {
    hide HeadBytes, U32Array, Halves, AsciiZ, Packed, Targets, MovedWords;
    MovedWordsFit(m);
    pre, w, o := HeadBytes(m.front, Home(m)) + m.fill, U32Array(MovedWords(m)), Halves(m.ordinals);
    d, n, t := AsciiZ(m.dllName), Packed(m.names), Packed(Targets(FunctionsOf(m)));
  }

  lemma Regrouped(a: Bytes, b: Bytes, c: Bytes, d: Bytes, e: Bytes, f: Bytes)
    ensures a + b + c + d + e + f == a + b + (c + d + e + f)
    ensures a + b + c + d + e + f == (a + b) + c + (d + e + f)
    ensures a + b + c + d + e + f == (a + b + c) + d + (e + f)
    ensures a + b + c + d + e + f == (a + b + c + d) + e + f
    ensures a + b + c + d + e + f == (a + b + c + d + e) + f + []
  {
  }

  lemma MovedWordAt(m: Moved, i: nat)
    requires Movable(m) && i < |MovedWords(m)|
    ensures U32At(MovedImage(m), m.pointer + 4 * i) == Ok(MovedWords(m)[i])
  {
    hide U32At, U32Array, MovedImage, MovedWords, Halves, Packed, Targets;
    var pre, w, o, d, n, t := MovedParts(m);
    Regrouped(pre, w, o, d, n, t);
    U32ArrayAt(pre, MovedWords(m), o + d + n + t, i);
  }

  lemma MovedOrdinalAt(m: Moved, i: nat)
    requires Movable(m) && i < |m.ordinals|
    ensures U16At(MovedImage(m), m.pointer + OrdinalsFrom(m) + 2 * i) == Ok(m.ordinals[i])
  {
    hide U16At, U32Array, MovedImage, MovedWords, Halves, Packed, Targets;
    var pre, w, o, d, n, t := MovedParts(m);
    Regrouped(pre, w, o, d, n, t);
    HalvesAt(pre + w, m.ordinals, d + n + t, i);
  }

  lemma MovedDllName(m: Moved)
    requires Movable(m) && PlainTexts(m)
    ensures StringAt(MovedImage(m), m.pointer + DllNameFrom(m)) == Ok(m.dllName)
  {
    hide StringAt, U32Array, MovedImage, MovedWords, Halves, Packed, Targets, PlainAscii, Lower, AsciiZ;
    var pre, w, o, d, n, t := MovedParts(m);
    Regrouped(pre, w, o, d, n, t);
    StringAtField(pre + w + o, m.dllName, n + t);
  }

  lemma MovedName(m: Moved, i: nat)
    requires Movable(m) && PlainTexts(m) && i < |m.names|
    ensures var rva := Starts(m.address + NamesFrom(m), m.names)[i];
            && m.address <= rva < m.address + SizeOf(m)
            && StringAt(MovedImage(m), rva - m.address + m.pointer) == Ok(m.names[i])
  {
    hide StringAt, U32Array, MovedImage, MovedWords, Halves, Packed, Targets, PlainAscii, Lower, AsciiZ, Starts;
    var pre, w, o, d, n, t := MovedParts(m);
    Regrouped(pre, w, o, d, n, t);
    PackedAt(pre + w + o + d, m.names, t, i);
    StartsShift(NamesFrom(m), m.address, m.names, i);
    StartsShift(NamesFrom(m), m.pointer, m.names, i);
    assert |pre + w + o + d| == m.pointer + NamesFrom(m);
  }

  lemma MovedTarget(m: Moved, i: nat)
    requires Movable(m) && PlainTexts(m) && i < |m.functions| && m.functions[i].Some?
    ensures var rva := FunctionRvas(m.address + TargetsFrom(m), FunctionsOf(m))[i];
            && m.address <= rva < m.address + SizeOf(m)
            && StringAt(MovedImage(m), rva - m.address + m.pointer) == Ok(m.functions[i].value)
  {
    hide StringAt, U32Array, MovedImage, MovedWords, Halves, Packed, Targets, PlainAscii, Lower, AsciiZ, FunctionRvas;
    var pre, w, o, d, n, t := MovedParts(m);
    var es := FunctionsOf(m);
    Regrouped(pre, w, o, d, n, t);
    TargetAt(pre + w + o + d + n, es, [], i);
    FunctionRvasShift(TargetsFrom(m), m.address, es, i);
    FunctionRvasShift(TargetsFrom(m), m.pointer, es, i);
    assert |pre + w + o + d + n| == m.pointer + TargetsFrom(m);
  }

  // ---------- the file ----------

  /** What export `i` is: its name, and the function its ordinal leads to. */
  function ExportsOf(m: Moved): (r: seq<Export>)
    requires Movable(m)
    ensures |r| == |m.names|
  {
    seq(|m.names|, i requires 0 <= i < |m.names| => Export(m.names[i], m.functions[m.ordinals[i]]))
  }

  function MovedEntry(m: Moved, i: nat): Entry
    requires Movable(m) && i < |m.names|
  {
    var k := m.ordinals[i];
    Entry(Starts(m.address + NamesFrom(m), m.names)[i], m.names[i], k,
          FunctionRvas(m.address + TargetsFrom(m), FunctionsOf(m))[k], m.functions[k])
  }

  function MovedFile(m: Moved): PeFile
    requires Movable(m)
  {
    var a, nf, n := m.address, |m.functions|, |m.names|;
    var directory := Directory(a + DllNameFrom(m), nf, n, a + 40, a + 40 + 4 * nf, a + OrdinalsFrom(m));
    PeFile(0x80, 240, [m.front, Home(m)], a, SizeOf(m), m.pointer, directory,
           m.pointer + 40, m.pointer + 40 + 4 * nf, m.pointer + OrdinalsFrom(m),
           seq(n, i requires 0 <= i < n => MovedEntry(m, i)))
  }

  lemma InHome(m: Moved, rva: nat)
    requires Movable(m) && m.address <= rva < m.address + SizeOf(m)
    ensures Located([m.front, Home(m)], rva, rva - m.address + m.pointer)
  {
    hide SizeOf;
    assert LocatedIn([m.front, Home(m)], 1, rva, rva - m.address + m.pointer);
  }

  lemma MovedHeaders(m: Moved)
    requires Movable(m)
    ensures HasHeaders(MovedImage(m), MovedFile(m))
    ensures HasSections(MovedImage(m), 0x188, MovedFile(m).sections)
  {
    hide U32At, U16At, HeadBytes, U32Array, Halves, Packed, Targets, AsciiZ, MovedWords, MovedImage, SizeOf;
    hide HasSections, MovedEntry;
    var pre, w, o, d, n, t := MovedParts(m);
    var rest := m.fill + (w + o + d + n + t);
    assert MovedImage(m) == HeadBytes(m.front, Home(m)) + rest;
    HeadFields(m.front, Home(m), rest);
    DataDirectory(m.front, Home(m), rest);
    SectionHeaders(m.front, Home(m), rest);
  }

  lemma MovedDirectory(m: Moved)
    requires Movable(m)
    ensures HasDirectory(MovedImage(m), m.pointer, MovedFile(m).directory)
  {
    hide U32At, MovedImage, SizeOf, FunctionRvas, Starts, FunctionsOf, Movable, MovedEntry;
    MovedWordAt(m, 3);
    MovedWordAt(m, 5);
    MovedWordAt(m, 6);
    MovedWordAt(m, 7);
    MovedWordAt(m, 8);
    MovedWordAt(m, 9);
  }

  lemma MovedTables(m: Moved)
    requires Movable(m)
    ensures HasTables(MovedImage(m), MovedFile(m))
  {
    hide HasDirectory, Located, MovedImage, Packed, Targets, FunctionsOf, MovedEntry;
    MovedDirectory(m);
    InHome(m, m.address);
    InHome(m, m.address + 40);
    InHome(m, m.address + 40 + 4 * |m.functions|);
    InHome(m, m.address + OrdinalsFrom(m));
  }

  /** A string in the section is what its address points to. */
  lemma SpelledInHome(m: Moved, rva: nat, s: string)
    requires Movable(m) && m.address <= rva < m.address + SizeOf(m)
    requires StringAt(MovedImage(m), rva - m.address + m.pointer) == Ok(s)
    ensures SpellsAt(MovedImage(m), MovedFile(m).sections, rva, s)
  {
    hide StringAt, Spells, Located, MovedImage, SizeOf, MovedEntry;
    InHome(m, rva);
    StringExactly(MovedImage(m), rva - m.address + m.pointer, s);
  }

  lemma MovedFunction(m: Moved, k: nat)
    requires Movable(m) && PlainTexts(m) && k < |m.functions|
    ensures var f := MovedFile(m); var rva := FunctionRvas(m.address + TargetsFrom(m), FunctionsOf(m))[k];
            && rva >= 0 && U32At(MovedImage(m), f.functionsAt + 4 * k) == Ok(rva)
            && (InDirectory(f, rva) <==> m.functions[k].Some?)
            && (m.functions[k].Some? ==> SpellsAt(MovedImage(m), f.sections, rva, m.functions[k].value))
  {
    hide U32At, SpellsAt, StringAt, MovedImage, PlainAscii, Lower, SizeOf, FunctionRvas, Starts, Packed, Targets;
    hide MovedEntry;
    MovedWordAt(m, 10 + k);
    var rva := FunctionRvas(m.address + TargetsFrom(m), FunctionsOf(m))[k];
    assert MovedWords(m)[10 + k] == rva;
    if m.functions[k].Some? {
      MovedTarget(m, k);
      SpelledInHome(m, rva, m.functions[k].value);
    }
  }

  lemma MovedHasEntry(m: Moved, i: nat)
    requires Movable(m) && PlainTexts(m) && i < |m.names|
    ensures HasEntry(MovedImage(m), MovedFile(m), i, MovedEntry(m, i))
  {
    hide U32At, U16At, SpellsAt, StringAt, MovedImage, PlainTexts, SizeOf, FunctionRvas, Starts, Packed, Targets;
    hide FunctionsOf, InDirectory;
    MovedName(m, i);
    var e := MovedEntry(m, i);
    SpelledInHome(m, e.nameRva, m.names[i]);
    MovedWordAt(m, 10 + |m.functions| + i);
    assert MovedWords(m)[10 + |m.functions| + i] == e.nameRva;
    MovedOrdinalAt(m, i);
    MovedFunction(m, e.ordinal);
  }

  /** The names differ, so the table that lists the entries holds exactly the exports. */
  lemma ListedIsTable(m: Moved, t: ExportTable)
    requires Movable(m) && PlainTexts(m) && Lists(t, MovedFile(m).entries)
    ensures IsTableOf(t, ExportsOf(m))
  {
    hide *;
    var es, xs := MovedFile(m).entries, ExportsOf(m);
    EntriesAreExports(m);
    NamesDiffer(m);
    AllListed(t, es, xs);
  }

  lemma EntriesAreExports(m: Moved)
    requires Movable(m)
    ensures var es, xs := MovedFile(m).entries, ExportsOf(m);
            |es| == |xs| && forall i | 0 <= i < |es| :: es[i].name == xs[i].name && es[i].target == xs[i].target
  {
    hide FunctionRvas, Starts, SizeOf, FunctionsOf;
  }

  lemma NamesDiffer(m: Moved)
    requires Movable(m) && PlainTexts(m)
    ensures var xs := ExportsOf(m); forall i, j | 0 <= i < j < |xs| :: Lower(xs[i].name) != Lower(xs[j].name)
  {
    hide Movable, PlainAscii, Lower;
  }

  lemma AllListed(t: ExportTable, es: seq<Entry>, xs: seq<Export>)
    requires |es| == |xs| && forall i | 0 <= i < |es| :: es[i].name == xs[i].name && es[i].target == xs[i].target
    requires forall i, j | 0 <= i < j < |xs| :: Lower(xs[i].name) != Lower(xs[j].name)
    requires Lists(t, es)
    ensures IsTableOf(t, xs)
  {
    hide Lower;
    forall i | 0 <= i < |xs|
      ensures Lower(xs[i].name) in t && t[Lower(xs[i].name)] == xs[i]
    {
      assert forall j | 0 <= j < i :: Lower(es[j].name) != Lower(es[i].name);
      assert forall j | i < j < |es| :: Lower(es[j].name) != Lower(es[i].name);
      assert Lower(es[i].name) in t;
    }
    forall k | k in t
      ensures exists i | 0 <= i < |xs| :: k == Lower(xs[i].name)
    {
      var i :| 0 <= i < |es| && k == Lower(es[i].name);
      assert k == Lower(xs[i].name);
    }
  }

  /**
   * A file whose export section may stand anywhere, in memory and on disk, is read back: the table holds exactly
   * the exports, each with the target of the function that its ordinal selects.
   */
  lemma MovedFileReadsBack(m: Moved)
    requires Movable(m) && PlainTexts(m)
    ensures var r := ReadExports(MovedImage(m));
            r.Ok? && r.value.dllName == Some(m.dllName) && IsTableOf(r.value.exports, ExportsOf(m))
  {
    hide ReadExports, MovedImage, HasHeaders, HasSections, HasTables, HasEntry, Lists, IsTableOf, SizeOf, Movable;
    hide PlainTexts, MovedEntry, ReadEntries, ExportsOf, SpellsAt;
    var b, f := MovedImage(m), MovedFile(m);
    MovedHeaders(m);
    MovedTables(m);
    MovedDllName(m);
    forall i: nat | i < |f.entries|
      ensures HasEntry(b, f, i, f.entries[i])
    {
      MovedHasEntry(m, i);
    }
    NothingListed();
    assert f.entries[..0] == [];
    EntriesListed(b, f, 0, map[]);
    var t := ReadEntries(ContextOf(b, f), 0, |f.entries|, map[]).value;
    DllNameInside(m);
    SpelledInHome(m, m.address + DllNameFrom(m), m.dllName);
    ListedIsTable(m, t);
    FileReads(b, f, PeInfo(Some(m.dllName), t));
  }

  lemma DllNameInside(m: Moved)
    requires Movable(m)
    ensures 0 < m.address <= m.address + DllNameFrom(m) < m.address + SizeOf(m)
  {
    hide Packed, Targets, FunctionsOf;
  }
}
