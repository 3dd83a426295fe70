/** Get-PEExportInfo: the export table of a PE32+ file, read straight from its bytes. */
module PeExports {
  import opened Wrappers
  import opened Text
  import opened PeBytes

  const INT32_MAX: int := 0x7FFF_FFFF

  /** An export's name as spelled in the file, and its forwarder target if it has one. */
  datatype Export = Export(name: string, target: Option<string>)

  /** A PowerShell hashtable ignores case: its keys here are the lower-cased names. */
  type ExportTable = map<string, Export>

  datatype PeInfo = PeInfo(dllName: Option<string>, exports: ExportTable)

  /** `$exports[$name] = $target`: the value is replaced, the first spelling of the key stays. */
  function AddExport(t: ExportTable, e: Export): ExportTable {
    var key := Lower(e.name);
    t[key := Export(if key in t then t[key].name else e.name, e.target)]
  }

  // ---------- headers ----------

  datatype Header = Header(exportRva: nat, exportSize: nat, sectionsAt: nat, sectionCount: nat)

  function ReadHeader(b: Bytes): Result<Header> {
    if |b| < 0x40 || b[0] != 0x4D || b[1] != 0x5A then Err else
    var pe :- I32At(b, 0x3C);
    if pe <= 0 || pe + 24 > |b| then Err else
    if b[pe] != 0x50 || b[pe + 1] != 0x45 || b[pe + 2] != 0 || b[pe + 3] != 0 then Err else
    var sectionCount :- U16At(b, pe + 4 + 2);
    var optionalSize :- U16At(b, pe + 4 + 16);
    var optionalAt := pe + 4 + 20;
    if optionalSize < 120 then Err else
    var magic :- U16At(b, optionalAt);
    if magic != 0x20B then Err else
    var exportRva :- U32At(b, optionalAt + 112);
    var exportSize :- U32At(b, optionalAt + 112 + 4);
    Ok(Header(exportRva, exportSize, optionalAt + optionalSize, sectionCount))
  }

  datatype Section = Section(address: nat, size: nat, pointer: nat, rawSize: nat)

  function ReadSection(b: Bytes, at: nat): Result<Section> {
    var address :- U32At(b, at + 12);
    var size :- U32At(b, at + 8);
    var pointer :- U32At(b, at + 20);
    var rawSize :- U32At(b, at + 16);
    Ok(Section(address, size, pointer, rawSize))
  }

  function ReadSections(b: Bytes, at: nat, count: nat): Result<seq<Section>>
    decreases count
  {
    if count == 0 then Ok([]) else
    var first :- ReadSection(b, at);
    var rest :- ReadSections(b, at + 40, count - 1);
    Ok([first] + rest)
  }

  predicate Covers(s: Section, rva: nat) {
    s.address <= rva < s.address + if s.size > s.rawSize then s.size else s.rawSize
  }

  /** ConvertRvaToOffset: the first section that covers the address; the [int] cast throws on large offsets. */
  function RvaToOffset(ss: seq<Section>, rva: nat): Result<nat> {
    if ss == [] then Err
    else if Covers(ss[0], rva) then
      var off := rva - ss[0].address + ss[0].pointer;
      if off > INT32_MAX then Err else Ok(off)
    else RvaToOffset(ss[1..], rva)
  }

  // ---------- the export directory ----------

  datatype Directory = Directory(nameRva: nat, functionCount: nat, nameCount: nat,
                                 functionsRva: nat, namesRva: nat, ordinalsRva: nat)

  function ReadDirectory(b: Bytes, at: nat): Result<Directory> {
    var nameRva :- U32At(b, at + 12);
    var functionCount :- U32At(b, at + 20);
    var nameCount :- U32At(b, at + 24);
    var functionsRva :- U32At(b, at + 28);
    var namesRva :- U32At(b, at + 32);
    var ordinalsRva :- U32At(b, at + 36);
    Ok(Directory(nameRva, functionCount, nameCount, functionsRva, namesRva, ordinalsRva))
  }

  /** A string given by its address. */
  function StringAtRva(b: Bytes, ss: seq<Section>, rva: nat): Result<string> {
    var off :- RvaToOffset(ss, rva);
    StringAt(b, off)
  }

  /** Everything the entry loop reads from. */
  datatype Context = Context(bytes: Bytes, header: Header, sections: seq<Section>, functionCount: nat,
                             functionsAt: nat, namesAt: nat, ordinalsAt: nat)

  /** The target of a function address: a string if the address lies inside the export directory. */
  function TargetOf(c: Context, rva: nat): Result<Option<string>> {
    if c.header.exportRva <= rva < c.header.exportRva + c.header.exportSize then
      var target :- StringAtRva(c.bytes, c.sections, rva);
      Ok(Some(target))
    else Ok(None)
  }

  function ReadEntry(c: Context, i: nat): Result<Export> {
    var nameRva :- U32At(c.bytes, c.namesAt + i * 4);
    var name :- StringAtRva(c.bytes, c.sections, nameRva);
    var ordinal :- U16At(c.bytes, c.ordinalsAt + i * 2);
    if ordinal >= c.functionCount then Err else
    var functionRva :- U32At(c.bytes, c.functionsAt + ordinal * 4);
    var target :- TargetOf(c, functionRva);
    Ok(Export(name, target))
  }

  function ReadEntries(c: Context, i: nat, count: nat, t: ExportTable): Result<ExportTable>
    requires i <= count
    decreases count - i
  {
    if i == count then Ok(t) else
    var e :- ReadEntry(c, i);
    ReadEntries(c, i + 1, count, AddExport(t, e))
  }

  function ReadName(b: Bytes, ss: seq<Section>, rva: nat): Result<Option<string>> {
    if rva == 0 then Ok(None) else
    var s :- StringAtRva(b, ss, rva);
    Ok(Some(s))
  }

  /** The part of the parser that follows the section headers. */
  function ReadExportData(b: Bytes, h: Header, ss: seq<Section>): Result<PeInfo> {
    var at :- RvaToOffset(ss, h.exportRva);
    var d :- ReadDirectory(b, at);
    var dllName :- ReadName(b, ss, d.nameRva);
    var functionsAt :- RvaToOffset(ss, d.functionsRva);
    var namesAt :- RvaToOffset(ss, d.namesRva);
    var ordinalsAt :- RvaToOffset(ss, d.ordinalsRva);
    var c := Context(b, h, ss, d.functionCount, functionsAt, namesAt, ordinalsAt);
    var exports :- ReadEntries(c, 0, d.nameCount, map[]);
    Ok(PeInfo(dllName, exports))
  }

  function ReadExports(b: Bytes): Result<PeInfo> {
    var h :- ReadHeader(b);
    if h.exportRva == 0 then Ok(PeInfo(None, map[])) else
    var ss :- ReadSections(b, h.sectionsAt, h.sectionCount);
    ReadExportData(b, h, ss)
  }

  // ---------- the loops ----------

  method ConvertRvaToOffset(ss: seq<Section>, rva: nat) returns (r: Result<nat>)
    ensures r == RvaToOffset(ss, rva)
  {
    var i := 0;
    assert ss[0..] == ss;
    while i < |ss|
      invariant 0 <= i <= |ss|
      invariant RvaToOffset(ss, rva) == RvaToOffset(ss[i..], rva)
    {
      var s := ss[i];
      if Covers(s, rva) {
        var off := rva - s.address + s.pointer;
        return if off > INT32_MAX then Err else Ok(off);
      }
      assert ss[i..][1..] == ss[i + 1..];
      i := i + 1;
    }
    r := Err;
  }

  method ReadStringAtRva(b: Bytes, ss: seq<Section>, rva: nat) returns (r: Result<string>)
    ensures r == StringAtRva(b, ss, rva)
  {
    hide StringAt, RvaToOffset;
    var off := ConvertRvaToOffset(ss, rva);
    if off.Err? {
      return Err;
    }
    r := ReadAsciiZ(b, off.value);
  }

  method CollectSections(b: Bytes, at: nat, count: nat) returns (r: Result<seq<Section>>)
    ensures r == ReadSections(b, at, count)
  {
    hide ReadSection;
    var sections: seq<Section> := [];
    var i := 0;
    PrependNone(sections, ReadSections(b, at, count));
    while i < count
      invariant 0 <= i <= count
      invariant ReadSections(b, at, count) == Prepend(sections, ReadSections(b, at + i * 40, count - i))
    {
      var s := ReadSection(b, at + i * 40);
      if s.Err? {
        return Err;
      }
      PrependSection(sections, s.value, ReadSections(b, at + (i + 1) * 40, count - (i + 1)));
      sections := sections + [s.value];
      i := i + 1;
    }
    PrependNone(sections, Err);
    r := Ok(sections);
  }

  ghost function Prepend(ss: seq<Section>, r: Result<seq<Section>>): Result<seq<Section>> {
    if r.Ok? then Ok(ss + r.value) else Err
  }

  lemma PrependNone(ss: seq<Section>, r: Result<seq<Section>>)
    ensures Prepend([], r) == r && Prepend(ss, Ok([])) == Ok(ss)
  {
    if r.Ok? {
      assert [] + r.value == r.value;
    }
    assert ss + [] == ss;
  }

  lemma PrependSection(ss: seq<Section>, s: Section, r: Result<seq<Section>>)
    ensures Prepend(ss, Prepend([s], r)) == Prepend(ss + [s], r)
  {
    if r.Ok? {
      assert ss + ([s] + r.value) == ss + [s] + r.value;
    }
  }

  method CollectEntries(c: Context, count: nat) returns (r: Result<ExportTable>)
    ensures r == ReadEntries(c, 0, count, map[])
  {
    hide U32At, U16At, RvaToOffset, AddExport;
    var exports: ExportTable := map[];
    var i := 0;
    while i < count
      invariant 0 <= i <= count
      invariant ReadEntries(c, 0, count, map[]) == ReadEntries(c, i, count, exports)
    {
      var e := CollectEntry(c, i);
      if e.Err? {
        return Err;
      }
      exports := AddExport(exports, e.value);
      i := i + 1;
    }
    r := Ok(exports);
  }

  /** The body of the entry loop. */
  method CollectEntry(c: Context, i: nat) returns (r: Result<Export>)
    ensures r == ReadEntry(c, i)
  {
    hide U32At, U16At, RvaToOffset, StringAtRva;
    var nameRva := U32At(c.bytes, c.namesAt + i * 4);
    if nameRva.Err? { return Err; }
    var name := ReadStringAtRva(c.bytes, c.sections, nameRva.value);
    if name.Err? { return Err; }
    var ordinal := U16At(c.bytes, c.ordinalsAt + i * 2);
    if ordinal.Err? || ordinal.value >= c.functionCount { return Err; }
    var functionRva := U32At(c.bytes, c.functionsAt + ordinal.value * 4);
    if functionRva.Err? { return Err; }
    var target: Option<string> := None;
    var rva := functionRva.value;
    if c.header.exportRva <= rva && rva < c.header.exportRva + c.header.exportSize {
      var t := ReadStringAtRva(c.bytes, c.sections, rva);
      if t.Err? { return Err; }
      target := Some(t.value);
    }
    r := Ok(Export(name.value, target));
  }

  method GetPEExportInfo(b: Bytes) returns (r: Result<PeInfo>)
    ensures r == ReadExports(b)
  {
    hide ReadHeader, ReadSections, RvaToOffset, ReadEntries, ReadDirectory, StringAtRva;
    var h := ReadHeader(b);
    if h.Err? { return Err; }
    if h.value.exportRva == 0 { return Ok(PeInfo(None, map[])); }
    var sections := CollectSections(b, h.value.sectionsAt, h.value.sectionCount);
    if sections.Err? { return Err; }
    var ss := sections.value;
    var at := ConvertRvaToOffset(ss, h.value.exportRva);
    if at.Err? { return Err; }
    var d := ReadDirectory(b, at.value);
    if d.Err? { return Err; }
    var dllName: Option<string> := None;
    if d.value.nameRva != 0 {
      var s := ReadStringAtRva(b, ss, d.value.nameRva);
      if s.Err? { return Err; }
      dllName := Some(s.value);
    }
    var functionsAt := ConvertRvaToOffset(ss, d.value.functionsRva);
    if functionsAt.Err? { return Err; }
    var namesAt := ConvertRvaToOffset(ss, d.value.namesRva);
    if namesAt.Err? { return Err; }
    var ordinalsAt := ConvertRvaToOffset(ss, d.value.ordinalsRva);
    if ordinalsAt.Err? { return Err; }
    var c := Context(b, h.value, ss, d.value.functionCount, functionsAt.value, namesAt.value, ordinalsAt.value);
    var exports := CollectEntries(c, d.value.nameCount);
    if exports.Err? { return Err; }
    r := Ok(PeInfo(dllName, exports.value));
  }

  // ---------- do the proxy's forwarders resolve? ----------

  /** A target that PowerShell treats as true: present and not empty. */
  predicate Forwards(e: Export) {
    e.target.Some? && e.target.value != ""
  }

  /** String.LastIndexOf. */
  function LastIndexOf(s: string, c: char): (r: int)
    ensures -1 <= r < |s|
    ensures r >= 0 ==> s[r] == c
    ensures forall k | r < k < |s| && k >= 0 :: s[k] != c
  {
    if s == "" then -1
    else if s[|s| - 1] == c then |s| - 1
    else LastIndexOf(s[..|s| - 1], c)
  }

  /** The export resolves to a name the original exports, compared without case. */
  predicate Resolves(e: Export, original: ExportTable) {
    && Forwards(e)
    && var dot := LastIndexOf(e.target.value, '.');
       dot >= 0 && Lower(e.target.value[dot + 1..]) in original
  }

  predicate ForwarderSetMatches(proxy: ExportTable, original: ExportTable) {
    forall k | k in proxy :: Resolves(proxy[k], original)
  }

  /** A target "stem.name" with no '.' in the name. */
  predicate LastPart(target: string, stem: string, name: string) {
    target == stem + "." + name && '.' !in name
  }

  /** The export forwards to "stem.name", and the original exports that name, in whatever case. */
  ghost predicate ForwardsInto(e: Export, original: ExportTable) {
    e.target.Some? && exists stem, name :: LastPart(e.target.value, stem, name) && Lower(name) in original
  }

  lemma LastDot(target: string, stem: string, name: string)
    requires LastPart(target, stem, name)
    ensures LastIndexOf(target, '.') == |stem| && target[|stem| + 1..] == name
  {
    hide LastIndexOf;
    var r := LastIndexOf(target, '.');
    assert target[|stem|] == '.';
    assert forall k | |stem| < k < |target| :: target[k] == name[k - |stem| - 1];
  }

  /** The search for the last '.' finds exactly the forwarders into the original. */
  lemma ResolvesExactly(e: Export, original: ExportTable)
    ensures Resolves(e, original) <==> ForwardsInto(e, original)
  {
    hide Lower, LastIndexOf;
    if Resolves(e, original) {
      var t := e.target.value;
      var dot := LastIndexOf(t, '.');
      assert t == t[..dot] + "." + t[dot + 1..];
      var name := t[dot + 1..];
      assert forall k | 0 <= k < |name| :: name[k] == t[dot + 1 + k];
      assert LastPart(t, t[..dot], name);
    }
    if e.target.Some? {
      if stem, name :| LastPart(e.target.value, stem, name) && Lower(name) in original {
        LastDot(e.target.value, stem, name);
      }
    }
  }

  lemma EachExactly(proxy: ExportTable, original: ExportTable)
    ensures forall k | k in proxy :: Resolves(proxy[k], original) <==> ForwardsInto(proxy[k], original)
  {
    hide Resolves, ForwardsInto;
    forall k | k in proxy
      ensures Resolves(proxy[k], original) <==> ForwardsInto(proxy[k], original)
    {
      ResolvesExactly(proxy[k], original);
    }
  }

  /** The whole check, said through the texts of the targets. */
  lemma MatchesExactly(proxy: ExportTable, original: ExportTable)
    ensures ForwarderSetMatches(proxy, original) <==> forall k | k in proxy :: ForwardsInto(proxy[k], original)
  {
    hide Resolves, ForwardsInto;
    EachExactly(proxy, original);
  }

  /**
   * Test-ForwarderSetMatches: collects the names that do not forward into the original, and matches when there
   * are none.
   */
  method TestForwarderSetMatches(proxy: ExportTable, original: ExportTable)
      returns (matches: bool, missing: seq<string>)
    ensures matches <==> ForwarderSetMatches(proxy, original)
    ensures matches <==> missing == []
    ensures forall k :: k in missing <==> k in proxy && !ForwardsInto(proxy[k], original)
  {
    missing := CollectMissing(proxy, original);
    matches := |missing| == 0;
    EachExactly(proxy, original);
    if missing != [] {
      assert missing[0] in missing;
    }
  }

  /** The loop over the proxy's exports, in whatever order. */
  method CollectMissing(proxy: ExportTable, original: ExportTable) returns (missing: seq<string>)
    ensures forall k :: k in missing <==> k in proxy && !Resolves(proxy[k], original)
  {
    hide Lower, LastIndexOf;
    missing := [];
    var todo := proxy.Keys;
    while todo != {}
      invariant todo <= proxy.Keys
      invariant forall k | k in missing :: k in proxy && !Resolves(proxy[k], original)
      invariant forall k | k in proxy && k !in todo && !Resolves(proxy[k], original) :: k in missing
      decreases |todo|
    {
      var k :| k in todo;
      todo := todo - {k};
      var e := proxy[k];
      if !Forwards(e) {
        missing := missing + [k];
        continue;
      }
      var dot := LastIndexOf(e.target.value, '.');
      if dot < 0 {
        missing := missing + [k];
        continue;
      }
      if Lower(e.target.value[dot + 1..]) !in original {
        missing := missing + [k];
      }
    }
  }
}
