/** Get-PEExportInfo reads back what New-TestPeDll wrote. */
module PeRoundTrip {
  import opened Wrappers
  import opened Text
  import opened PeBytes
  import opened PeExports
  import opened PeFixture

  /** Text the file format can hold, non-empty targets, and names that differ beyond their case. */
  predicate Describable(dllName: string, es: seq<Export>) {
    && PlainAscii(dllName)
    && (forall i | 0 <= i < |es| :: PlainAscii(es[i].name))
    && (forall i | 0 <= i < |es| && es[i].target.Some? :: es[i].target.value != "" && PlainAscii(es[i].target.value))
    && (forall i, j | 0 <= i < j < |es| :: Lower(es[i].name) != Lower(es[j].name))
  }

  /** The table holds exactly these exports. */
  predicate IsTableOf(t: ExportTable, es: seq<Export>) {
    && (forall k | k in t :: exists i | 0 <= i < |es| :: k == Lower(es[i].name))
    && (forall i | 0 <= i < |es| :: Lower(es[i].name) in t && t[Lower(es[i].name)] == es[i])
  }

  // ---------- headers ----------

  lemma HeaderFields(size: int, rest: Bytes)
    requires U32(size)
    ensures var b := HeaderBytes(BASE, size, size, size) + rest;
            && U32At(b, 0x3C) == Ok(0x80) && U16At(b, 0x86) == Ok(1) && U16At(b, 0x94) == Ok(240)
            && U16At(b, 0x98) == Ok(0x20B) && U32At(b, 0x108) == Ok(BASE) && U32At(b, 0x10C) == Ok(size)
  {
    hide Le32;
    Le32Value(size);
    Le32Value(BASE);
  }

  lemma SectionFields(size: int, rest: Bytes)
    requires U32(size)
    ensures var b := HeaderBytes(BASE, size, size, size) + rest;
            && U32At(b, 0x190) == Ok(size) && U32At(b, 0x194) == Ok(BASE)
            && U32At(b, 0x198) == Ok(size) && U32At(b, 0x19C) == Ok(BASE)
  {
    hide Le32;
    Le32Value(size);
  }

  lemma HeaderRead(size: int, rest: Bytes)
    requires U32(size)
    ensures ReadHeader(HeaderBytes(BASE, size, size, size) + rest) == Ok(Header(BASE, size, 0x188, 1))
  {
    hide U32At, U16At, HeaderBytes;
    HeaderFields(size, rest);
    SignatureBytes(size, rest);
  }

  lemma SignatureBytes(size: int, rest: Bytes)
    requires U32(size)
    ensures var b := HeaderBytes(BASE, size, size, size) + rest;
            && b[0] == 0x4D && b[1] == 0x5A
            && b[0x80] == 0x50 && b[0x81] == 0x45 && b[0x82] == 0 && b[0x83] == 0
  {
    hide Le32;
  }

  lemma SectionsRead(size: nat, rest: Bytes)
    requires U32(size)
    ensures ReadSections(HeaderBytes(BASE, size, size, size) + rest, 0x188, 1) == Ok([Section(BASE, size, BASE, size)])
  {
    hide U32At, HeaderBytes;
    SectionFields(size, rest);
    var b := HeaderBytes(BASE, size, size, size) + rest;
    assert ReadSection(b, 0x188) == Ok(Section(BASE, size, BASE, size));
    assert ReadSections(b, 0x188 + 40, 0) == Ok([]);
    assert [Section(BASE, size, BASE, size)] + [] == [Section(BASE, size, BASE, size)];
  }

  /** Inside the one section, addresses are file offsets. */
  lemma OffsetIsRva(size: nat, rva: nat)
    requires BASE <= rva < BASE + size && BASE + size <= INT32_MAX
    ensures RvaToOffset([Section(BASE, size, BASE, size)], rva) == Ok(rva)
  {
  }

  // ---------- the words ----------

  /** Every word of the file is read back where it was written. */
  lemma WordAt(dllName: string, es: seq<Export>, i: nat)
    requires Printable(dllName, es) && i < 10 + 2 * |es|
    ensures U32At(Image(dllName, es), BASE + 4 * i) == Ok(Words(dllName, es)[i])
  {
    hide U32At, U32Array, HeaderBytes, Tail, Words;
    var size := End(dllName, es) - BASE;
    WordsFit(dllName, es);
    U32ArrayAt(HeaderBytes(BASE, size, size, size), Words(dllName, es), Tail(dllName, es), i);
  }

  lemma DirectoryRead(dllName: string, es: seq<Export>)
    requires Printable(dllName, es)
    ensures var n := |es|;
            ReadDirectory(Image(dllName, es), BASE)
            == Ok(Directory(DllNameAt(es), n, n, ARRAYS, ARRAYS + 4 * n, ARRAYS + 8 * n))
  {
    hide U32At, Image, TableRvas, Starts;
    WordAt(dllName, es, 3);
    WordAt(dllName, es, 5);
    WordAt(dllName, es, 6);
    WordAt(dllName, es, 7);
    WordAt(dllName, es, 8);
    WordAt(dllName, es, 9);
  }

  // ---------- ordinals and strings ----------

  lemma ImageParts(dllName: string, es: seq<Export>) returns (pre: Bytes)
    requires Printable(dllName, es)
    ensures |pre| == ARRAYS + 8 * |es|
    ensures Image(dllName, es) ==
            pre + Ordinals(0, |es|) + AsciiZ(dllName) + Packed(NamesOf(es)) + Packed(Targets(es))
  {
    hide U32Array, HeaderBytes, Ordinals, AsciiZ, Packed, Words;
    var size := End(dllName, es) - BASE;
    WordsFit(dllName, es);
    pre := HeaderBytes(BASE, size, size, size) + U32Array(Words(dllName, es));
    Flatten(pre, Ordinals(0, |es|), AsciiZ(dllName), Packed(NamesOf(es)), Packed(Targets(es)));
  }

  lemma Flatten(a: Bytes, b: Bytes, c: Bytes, d: Bytes, e: Bytes)
    ensures a + (b + c + d + e) == a + b + c + d + e
    ensures a + b + c + d + e == a + b + (c + d + e)
    ensures a + b + c + d + e == (a + b) + c + (d + e)
    ensures a + b + c + d + e == (a + b + c) + d + e
    ensures a + b + c + d + e == (a + b + c + d) + e + []
  {
  }

  lemma OrdinalRead(dllName: string, es: seq<Export>, i: nat)
    requires Printable(dllName, es) && i < |es|
    ensures U16At(Image(dllName, es), ARRAYS + 8 * |es| + 2 * i) == Ok(i)
  {
    hide U16At, Ordinals, AsciiZ, Packed, Image;
    var pre := ImageParts(dllName, es);
    Flatten(pre, Ordinals(0, |es|), AsciiZ(dllName), Packed(NamesOf(es)), Packed(Targets(es)));
    OrdinalAt(pre, 0, |es|, AsciiZ(dllName) + Packed(NamesOf(es)) + Packed(Targets(es)), i);
  }

  lemma DllNameRead(dllName: string, es: seq<Export>)
    requires Printable(dllName, es) && PlainAscii(dllName)
    ensures StringAt(Image(dllName, es), DllNameAt(es)) == Ok(dllName)
  {
    hide StringAt, Ordinals, AsciiZ, Packed, Image, PlainAscii;
    var pre := ImageParts(dllName, es);
    Flatten(pre, Ordinals(0, |es|), AsciiZ(dllName), Packed(NamesOf(es)), Packed(Targets(es)));
    StringAtField(pre + Ordinals(0, |es|), dllName, Packed(NamesOf(es)) + Packed(Targets(es)));
  }

  lemma NameRead(dllName: string, es: seq<Export>, i: nat)
    requires Printable(dllName, es) && i < |es| && forall j | 0 <= j < |es| :: PlainAscii(es[j].name)
    ensures StringAt(Image(dllName, es), Starts(NamesStart(dllName, es), NamesOf(es))[i]) == Ok(es[i].name)
  {
    hide StringAt, Ordinals, AsciiZ, Packed, Image, PlainAscii, Starts;
    var pre := ImageParts(dllName, es);
    Flatten(pre, Ordinals(0, |es|), AsciiZ(dllName), Packed(NamesOf(es)), Packed(Targets(es)));
    PackedAt(pre + Ordinals(0, |es|) + AsciiZ(dllName), NamesOf(es), Packed(Targets(es)), i);
  }

  /** Each forwarder string is read back at the address in its table entry. */
  lemma {:induction false} TargetAt(pre: Bytes, es: seq<Export>, post: Bytes, i: nat)
    requires i < |es| && Forwards(es[i]) && es[i].target.Some?
    requires PlainTargets(es)
    ensures StringAt(pre + Packed(Targets(es)) + post, FunctionRvas(|pre|, es)[i]) == Ok(es[i].target.value)
    decreases |es|
  {
    hide *;
    TargetsStep(es, |pre|);
    var rest, f := es[1..], FunctionRvas(|pre|, es);
    TailTargets(es);
    if Forwards(es[0]) {
      var s := es[0].target.value;
      var head, tail := AsciiZ(s), Packed(Targets(rest));
      Split3(pre, head, tail, post);
      if i == 0 {
        StringAtField(pre, s, tail + post);
      } else {
        TargetAt(pre + head, rest, post, i - 1);
        assert f[i] == FunctionRvas(|pre + head|, rest)[i - 1];
      }
    } else {
      TargetAt(pre, rest, post, i - 1);
      assert f[i] == FunctionRvas(|pre|, rest)[i - 1];
    }
  }

  predicate PlainTargets(es: seq<Export>) {
    forall j | 0 <= j < |es| && Forwards(es[j]) :: es[j].target.Some? && PlainAscii(es[j].target.value)
  }

  lemma TailTargets(es: seq<Export>)
    requires PlainTargets(es) && es != []
    ensures PlainTargets(es[1..])
    ensures Forwards(es[0]) ==> es[0].target.Some? && PlainAscii(es[0].target.value)
  {
    hide PlainAscii, Forwards;
    assert forall j | 0 <= j < |es[1..]| :: es[1..][j] == es[j + 1];
  }

  lemma Split3(a: Bytes, b: Bytes, c: Bytes, d: Bytes)
    ensures a + (b + c) + d == a + b + (c + d) == (a + b) + c + d
  {
  }

  lemma DescribableTargets(dllName: string, es: seq<Export>)
    requires Describable(dllName, es)
    ensures PlainTargets(es)
  {
    hide PlainAscii, Lower;
  }

  lemma TableOfMany(base: nat, es: seq<Export>, i: nat)
    requires i < |es| && Patched(es, i)
    ensures Forwards(es[i]) && TableRvas(base, es) == FunctionRvas(base, es)
  {
    hide FunctionRvas, Forwards;
  }

  lemma TargetRead(dllName: string, es: seq<Export>, i: nat)
    requires Printable(dllName, es) && Describable(dllName, es) && i < |es|
    requires Patched(es, i) && es[i].target.Some?
    ensures StringAt(Image(dllName, es), TableRvas(TargetsStart(dllName, es), es)[i]) == Ok(es[i].target.value)
  {
    TableOfMany(TargetsStart(dllName, es), es, i);
    hide *;
    var before := TargetsPrefix(dllName, es);
    DescribableTargets(dllName, es);
    TargetAt(before, es, [], i);
  }

  lemma TargetsPrefix(dllName: string, es: seq<Export>) returns (before: Bytes)
    requires Printable(dllName, es)
    ensures |before| == TargetsStart(dllName, es)
    ensures Image(dllName, es) == before + Packed(Targets(es)) + []
  {
    hide Ordinals, AsciiZ, Packed, Image, Targets;
    var pre := ImageParts(dllName, es);
    Flatten(pre, Ordinals(0, |es|), AsciiZ(dllName), Packed(NamesOf(es)), Packed(Targets(es)));
    before := pre + Ordinals(0, |es|) + AsciiZ(dllName) + Packed(NamesOf(es));
  }

  // ---------- the entries ----------

  function ImageContext(dllName: string, es: seq<Export>): Context
    requires Printable(dllName, es)
  {
    var size, n := End(dllName, es) - BASE, |es|;
    Context(Image(dllName, es), Header(BASE, size, 0x188, 1), [Section(BASE, size, BASE, size)], n,
            ARRAYS, ARRAYS + 4 * n, ARRAYS + 8 * n)
  }

  /**
   * What the parser takes for export `i`: a forwarder that was not patched in looks real, and what looks real is
   * misread once the directory reaches the fake code address.
   */
  function ReadBack(dllName: string, es: seq<Export>, i: nat): Export
    requires Printable(dllName, es) && i < |es|
  {
    if Patched(es, i) then es[i]
    else if End(dllName, es) <= FAKE_CODE then Export(es[i].name, None)
    else Export(es[i].name, Some(Decode(Image(dllName, es)[FAKE_CODE..EndOfString(Image(dllName, es), FAKE_CODE)])))
  }

  lemma FunctionTarget(dllName: string, es: seq<Export>, i: nat)
    requires Printable(dllName, es) && Describable(dllName, es) && i < |es|
    ensures TargetOf(ImageContext(dllName, es), TableRvas(TargetsStart(dllName, es), es)[i])
            == Ok(ReadBack(dllName, es, i).target)
  {
    hide Image, EndOfString, Decode, Targets, Packed, TableRvas, RvaToOffset, StringAt, Describable, End;
    var size := End(dllName, es) - BASE;
    var rva := TableRvas(TargetsStart(dllName, es), es)[i];
    FunctionRvaRange(dllName, es, i);
    PlainExport(dllName, es, i);
    if rva < BASE + size {
      OffsetIsRva(size, rva);
    }
    if Patched(es, i) {
      TargetRead(dllName, es, i);
    } else if FAKE_CODE < End(dllName, es) {
      StringInside(Image(dllName, es), FAKE_CODE);
    }
  }

  lemma PlainExport(dllName: string, es: seq<Export>, i: nat)
    requires Describable(dllName, es) && i < |es|
    ensures !Forwards(es[i]) ==> es[i].target == None
    ensures Forwards(es[i]) ==> es[i].target.Some?
  {
    hide PlainAscii, Lower;
  }

  lemma StringInside(b: Bytes, off: nat)
    requires off <= |b|
    ensures StringAt(b, off) == Ok(Decode(b[off..EndOfString(b, off)]))
  {
  }

  lemma FunctionRvaRange(dllName: string, es: seq<Export>, i: nat)
    requires Printable(dllName, es) && i < |es|
    ensures var rva := TableRvas(TargetsStart(dllName, es), es)[i];
            && BASE <= rva && (Patched(es, i) ==> rva < End(dllName, es))
            && (!Patched(es, i) ==> rva == FAKE_CODE)
  {
    hide Targets, Packed, TableRvas, Patched;
  }

  lemma EntryRead(dllName: string, es: seq<Export>, i: nat)
    requires Printable(dllName, es) && Describable(dllName, es) && i < |es|
    ensures ReadEntry(ImageContext(dllName, es), i) == Ok(ReadBack(dllName, es, i))
  {
    hide Image, StringAt, U32At, U16At, RvaToOffset, TargetOf, TableRvas, Starts, Packed, Targets, PlainAscii, Lower;
    var n, size := |es|, End(dllName, es) - BASE;
    WordAt(dllName, es, 10 + n + i);
    WordAt(dllName, es, 10 + i);
    var nameRva := Starts(NamesStart(dllName, es), NamesOf(es))[i];
    assert Words(dllName, es)[10 + n + i] == nameRva;
    assert Words(dllName, es)[10 + i] == TableRvas(TargetsStart(dllName, es), es)[i];
    OffsetIsRva(size, nameRva);
    NameRead(dllName, es, i);
    OrdinalRead(dllName, es, i);
    FunctionTarget(dllName, es, i);
  }

  /** A table that holds exactly the first `n` of some exports as read back. */
  predicate HoldsFirst(t: ExportTable, dllName: string, es: seq<Export>, n: nat)
    requires Printable(dllName, es) && n <= |es|
  {
    && (forall k | k in t :: exists i | 0 <= i < n :: k == Lower(es[i].name))
    && (forall i | 0 <= i < n :: Lower(es[i].name) in t && t[Lower(es[i].name)] == ReadBack(dllName, es, i))
  }

  lemma {:induction false} EntriesRead(dllName: string, es: seq<Export>, n: nat, t: ExportTable)
    requires Printable(dllName, es) && Describable(dllName, es) && n <= |es| && HoldsFirst(t, dllName, es, n)
    ensures var r := ReadEntries(ImageContext(dllName, es), n, |es|, t);
            r.Ok? && HoldsFirst(r.value, dllName, es, |es|)
    decreases |es| - n
  {
    hide ReadEntry, Image, Lower, ReadBack, PlainAscii, End;
    if n < |es| {
      EntryRead(dllName, es, n);
      var e := ReadBack(dllName, es, n);
      ReadBackName(dllName, es, n);
      EntriesRead(dllName, es, n + 1, AddExport(t, e));
    }
  }

  lemma ReadBackName(dllName: string, es: seq<Export>, i: nat)
    requires Printable(dllName, es) && i < |es|
    ensures ReadBack(dllName, es, i).name == es[i].name
  {
    hide Image, End;
  }

  // ---------- the round trip ----------

  lemma ImageReads(dllName: string, es: seq<Export>)
    requires Printable(dllName, es) && Describable(dllName, es)
    ensures ReadExports(Image(dllName, es)) ==
            ReadExportData(Image(dllName, es), ImageContext(dllName, es).header, ImageContext(dllName, es).sections)
  {
    hide U32At, U16At, HeaderBytes, U32Array, Tail, Words, ReadHeader, ReadSections, ReadExportData;
    var size := End(dllName, es) - BASE;
    WordsFit(dllName, es);
    var rest := U32Array(Words(dllName, es)) + Tail(dllName, es);
    assert Image(dllName, es) == HeaderBytes(BASE, size, size, size) + rest;
    HeaderRead(size, rest);
    SectionsRead(size, rest);
  }

  lemma ExportDataRead(dllName: string, es: seq<Export>)
    requires Printable(dllName, es) && Describable(dllName, es)
    ensures var c := ImageContext(dllName, es); var r := ReadExportData(c.bytes, c.header, c.sections);
            r.Ok? && r.value.dllName == Some(dllName) && HoldsFirst(r.value.exports, dllName, es, |es|)
  {
    hide Image, ReadDirectory, RvaToOffset, ReadEntries, StringAt, PlainAscii, Lower, ReadBack, Packed, Targets;
    var size, n := End(dllName, es) - BASE, |es|;
    OffsetIsRva(size, BASE);
    DirectoryRead(dllName, es);
    OffsetIsRva(size, DllNameAt(es));
    DllNameRead(dllName, es);
    OffsetIsRva(size, ARRAYS);
    OffsetIsRva(size, ARRAYS + 4 * n);
    OffsetIsRva(size, ARRAYS + 8 * n);
    EntriesRead(dllName, es, 0, map[]);
  }

  /** The header fields that the parser does not read: an x64 DLL with one readable data section named .rdata. */
  lemma PrintedHeader(dllName: string, es: seq<Export>)
    requires Printable(dllName, es)
    ensures var b := Image(dllName, es);
            && U16At(b, 0x84) == Ok(0x8664) && U16At(b, 0x96) == Ok(0x2022)
            && b[0x188..0x190] == AsciiZ(".rdata") + [0] && U32At(b, 0x1AC) == Ok(0x4000_0040)
  {
    hide U32Array, Words, Tail, Le32;
    WordsFit(dllName, es);
    var size := End(dllName, es) - BASE;
    var h := HeaderBytes(BASE, size, size, size);
    assert Image(dllName, es)[..BASE] == h;
    assert forall k | 0 <= k < BASE :: Image(dllName, es)[k] == h[k];
  }

  // ---------- a lone forwarder ----------

  lemma StringWithin(pre: Bytes, s: string, post: Bytes, j: nat)
    requires PlainAscii(s) && j <= |s|
    ensures StringAt(pre + AsciiZ(s) + post, |pre| + j) == Ok(s[j..])
  {
    hide StringAt;
    var head := Encode(s[..j]);
    assert AsciiZ(s) == head + AsciiZ(s[j..]);
    assert pre + AsciiZ(s) + post == (pre + head) + AsciiZ(s[j..]) + post;
    StringAtField(pre + head, s[j..], post);
  }

  /** What a file with one forwarder says at the fake code address, which then lies inside it. */
  function LoneText(dllName: string, e: Export): string
    requires Forwards(e) && e.target.Some? && End(dllName, [e]) > FAKE_CODE
  {
    LoneEnd(dllName, e);
    var k := FAKE_CODE - DllNameAt([e]);
    if k <= |dllName| then dllName[k..]
    else if k - |dllName| - 1 <= |e.name| then e.name[k - |dllName| - 1..]
    else e.target.value[k - |dllName| - 1 - |e.name| - 1..]
  }

  lemma LoneStrings(e: Export)
    requires Forwards(e) && e.target.Some?
    ensures Packed(NamesOf([e])) == AsciiZ(e.name) && Packed(Targets([e])) == AsciiZ(e.target.value)
  {
    hide AsciiZ, Forwards;
    assert NamesOf([e]) == [e.name];
    assert [e][1..] == [];
    assert Targets([e]) == [e.target.value] + Targets([]) == [e.target.value];
    assert [e.name][1..] == [] && [e.target.value][1..] == [];
    assert AsciiZ(e.name) + [] == AsciiZ(e.name) && AsciiZ(e.target.value) + [] == AsciiZ(e.target.value);
  }

  lemma LoneEnd(dllName: string, e: Export)
    requires Forwards(e) && e.target.Some?
    ensures DllNameAt([e]) < FAKE_CODE
    ensures End(dllName, [e]) == DllNameAt([e]) + |dllName| + 1 + |e.name| + 1 + |e.target.value| + 1
  {
    hide Packed, Targets;
    LoneStrings(e);
  }

  lemma LoneTextRead(dllName: string, e: Export)
    requires Printable(dllName, [e]) && Describable(dllName, [e])
    requires Forwards(e) && e.target.Some? && End(dllName, [e]) > FAKE_CODE
    ensures StringAt(Image(dllName, [e]), FAKE_CODE) == Ok(LoneText(dllName, e))
  {
    hide StringAt, Ordinals, AsciiZ, Packed, Image, PlainAscii, Targets, End, Lower;
    LoneStrings(e);
    LoneEnd(dllName, e);
    var pre := ImageParts(dllName, [e]);
    var o, d, n, t := Ordinals(0, 1), AsciiZ(dllName), AsciiZ(e.name), AsciiZ(e.target.value);
    Flatten(pre, o, d, n, t);
    assert [e][0] == e;
    var k := FAKE_CODE - DllNameAt([e]);
    if k <= |dllName| {
      StringWithin(pre + o, dllName, n + t, k);
    } else if k - |dllName| - 1 <= |e.name| {
      StringWithin(pre + o + d, e.name, t, k - |dllName| - 1);
    } else {
      StringWithin(pre + o + d + n, e.target.value, [], k - |dllName| - 1 - |e.name| - 1);
    }
  }

  /** When a lone export survives, although its forwarder is never patched in. */
  lemma LoneReadBack(dllName: string, e: Export)
    requires Printable(dllName, [e]) && Describable(dllName, [e]) && Forwards(e) && e.target.Some?
    ensures ReadBack(dllName, [e], 0) == e <==>
            End(dllName, [e]) > FAKE_CODE && LoneText(dllName, e) == e.target.value
  {
    hide Image, StringAt, End, EndOfString, Decode, Describable, LoneText;
    if End(dllName, [e]) > FAKE_CODE {
      StringInside(Image(dllName, [e]), FAKE_CODE);
      LoneTextRead(dllName, e);
    }
  }

  // ---------- when the round trip is exact ----------

  /**
   * Nothing real was exported or the directory ends at or before the fake code address; a lone forwarder only
   * survives if what stands at that address happens to be its own target.
   */
  predicate Faithful(dllName: string, es: seq<Export>) {
    if |es| == 1 && es[0].target.Some? && Forwards(es[0])
    then End(dllName, [es[0]]) > FAKE_CODE && LoneText(dllName, es[0]) == es[0].target.value
    else (forall i | 0 <= i < |es| :: Forwards(es[i])) || End(dllName, es) <= FAKE_CODE
  }

  lemma EntriesFaithful(dllName: string, es: seq<Export>)
    requires Printable(dllName, es) && Describable(dllName, es)
    ensures Faithful(dllName, es) <==> forall i: nat | i < |es| :: ReadBack(dllName, es, i) == es[i]
  {
    hide Image, Describable, Printable, End, EndOfString, Decode, LoneText;
    if |es| == 1 && es[0].target.Some? && Forwards(es[0]) {
      assert es == [es[0]];
      LoneReadBack(dllName, es[0]);
    } else {
      forall i: nat | i < |es|
        ensures ReadBack(dllName, es, i) == es[i] <==> Forwards(es[i]) || End(dllName, es) <= FAKE_CODE
      {
        PlainExport(dllName, es, i);
      }
    }
  }

  /** Parsing a printed file gives back exactly its exports, targets included, if and only if it is faithful. */
  lemma PrintedFileReadsBack(dllName: string, es: seq<Export>)
    requires Printable(dllName, es) && Describable(dllName, es)
    ensures var r := ReadExports(Image(dllName, es));
            && r.Ok? && r.value.dllName == Some(dllName)
            && (IsTableOf(r.value.exports, es) <==> Faithful(dllName, es))
  {
    hide Image, ReadExports, ReadExportData, Lower, PlainAscii, End, ReadBack, Faithful;
    ImageReads(dllName, es);
    ExportDataRead(dllName, es);
    EntriesFaithful(dllName, es);
    var t := ReadExports(Image(dllName, es)).value.exports;
    if i: nat :| i < |es| && ReadBack(dllName, es, i) != es[i] {
      assert t[Lower(es[i].name)] == ReadBack(dllName, es, i) != es[i];
    }
  }
}
