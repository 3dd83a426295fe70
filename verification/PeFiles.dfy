/** Exactly which files Get-PEExportInfo reads, and what it then reports, said without its search for file offsets. */
module PeFiles {
  import opened Wrappers
  import opened Text
  import opened PeBytes
  import opened PeExports

  // ---------- addresses and strings ----------

  /** The section spans the address: it is as long as the longer of its two sizes. */
  predicate Spans(s: Section, rva: nat) {
    s.address <= rva && (rva < s.address + s.size || rva < s.address + s.rawSize)
  }

  /** The address lies in section `k` and in none before it, and `off` is as far into that section's file data. */
  predicate LocatedIn(ss: seq<Section>, k: nat, rva: nat, off: nat) {
    && k < |ss| && Spans(ss[k], rva) && (forall j | 0 <= j < k :: !Spans(ss[j], rva))
    && off - ss[k].pointer == rva - ss[k].address && off <= INT32_MAX
  }

  ghost predicate Located(ss: seq<Section>, rva: nat, off: nat) {
    exists k: nat :: LocatedIn(ss, k, rva, off)
  }

  lemma {:induction false} OffsetLocated(ss: seq<Section>, rva: nat) returns (k: nat)
    requires RvaToOffset(ss, rva).Ok?
    ensures LocatedIn(ss, k, rva, RvaToOffset(ss, rva).value)
  {
    if Covers(ss[0], rva) {
      k := 0;
    } else {
      k := OffsetLocated(ss[1..], rva);
      k := k + 1;
      assert forall j | 1 <= j < |ss| :: ss[j] == ss[1..][j - 1];
    }
  }

  lemma {:induction false} LocatedOffset(ss: seq<Section>, k: nat, rva: nat, off: nat)
    requires LocatedIn(ss, k, rva, off)
    ensures RvaToOffset(ss, rva) == Ok(off)
  {
    if k > 0 {
      assert !Spans(ss[0], rva);
      assert forall j | 0 <= j < |ss[1..]| :: ss[1..][j] == ss[j + 1];
      LocatedOffset(ss[1..], k - 1, rva, off);
    }
  }

  /** An address is converted to a file offset if and only if it is located there. */
  lemma OffsetExactly(ss: seq<Section>, rva: nat, off: nat)
    ensures RvaToOffset(ss, rva) == Ok(off) <==> Located(ss, rva, off)
  {
    if RvaToOffset(ss, rva) == Ok(off) {
      var k := OffsetLocated(ss, rva);
    }
    if k: nat :| LocatedIn(ss, k, rva, off) {
      LocatedOffset(ss, k, rva, off);
    }
  }

  /** The bytes from `off` up to `end`, the first NUL or the end of the file, spell `s`; bytes beyond ASCII as '?'. */
  predicate SpellsTo(b: Bytes, off: nat, end: nat, s: string) {
    && off <= end <= |b| && (end < |b| ==> b[end] == 0) && |s| == end - off
    && forall i | 0 <= i < |s| :: b[off + i] != 0 && s[i] == if b[off + i] < 0x80 then b[off + i] as char else '?'
  }

  ghost predicate Spells(b: Bytes, off: nat, s: string) {
    exists end: nat :: SpellsTo(b, off, end, s)
  }

  lemma StringExactly(b: Bytes, off: nat, s: string)
    ensures StringAt(b, off) == Ok(s) <==> Spells(b, off, s)
  {
    if off <= |b| {
      var e := EndOfString(b, off);
      assert SpellsTo(b, off, e, Decode(b[off..e]));
      if end: nat :| SpellsTo(b, off, end, s) {
        SameEnd(b, off, end, s);
        assert s == Decode(b[off..e]);
      }
    }
  }

  lemma SameEnd(b: Bytes, off: nat, end: nat, s: string)
    requires SpellsTo(b, off, end, s)
    ensures EndOfString(b, off) == end
  {
    var e := EndOfString(b, off);
    forall k | off <= k < end
      ensures b[k] != 0
    {
      var c := s[k - off];
    }
    assert !(e < end);
    assert !(end < e);
  }

  /** The string an address points to. */
  ghost predicate SpellsAt(b: Bytes, ss: seq<Section>, rva: nat, s: string) {
    exists off: nat :: Located(ss, rva, off) && Spells(b, off, s)
  }

  lemma StringAtRvaExactly(b: Bytes, ss: seq<Section>, rva: nat, s: string)
    ensures StringAtRva(b, ss, rva) == Ok(s) <==> SpellsAt(b, ss, rva, s)
  {
    hide StringAt, Located, Spells, RvaToOffset;
    var o := RvaToOffset(ss, rva);
    if o.Ok? {
      OffsetExactly(ss, rva, o.value);
      StringExactly(b, o.value, s);
    }
    if off: nat :| Located(ss, rva, off) && Spells(b, off, s) {
      OffsetExactly(ss, rva, off);
      StringExactly(b, off, s);
    }
  }

  // ---------- the parts of a file ----------

  /** One entry of the name table, and what its ordinal leads to. */
  datatype Entry = Entry(nameRva: nat, name: string, ordinal: nat, functionRva: nat, target: Option<string>)

  /** Where the parts of a file stand, and what its fields hold. */
  datatype PeFile = PeFile(peAt: nat, optionalSize: nat, sections: seq<Section>, exportRva: nat, exportSize: nat,
                           directoryAt: nat, directory: Directory, functionsAt: nat, namesAt: nat, ordinalsAt: nat,
                           entries: seq<Entry>)

  /** The DOS header, the PE signature, and the fields of the PE32+ headers. */
  predicate HasHeaders(b: Bytes, f: PeFile) {
    && |b| >= 0x40 && b[0] == 0x4D && b[1] == 0x5A
    && U32At(b, 0x3C) == Ok(f.peAt) && 0 < f.peAt <= INT32_MAX && f.peAt + 24 <= |b|
    && b[f.peAt..f.peAt + 4] == [0x50, 0x45, 0, 0]
    && U16At(b, f.peAt + 6) == Ok(|f.sections|)
    && U16At(b, f.peAt + 20) == Ok(f.optionalSize) && f.optionalSize >= 120
    && U16At(b, f.peAt + 24) == Ok(0x20B)
    && U32At(b, f.peAt + 24 + 112) == Ok(f.exportRva) && U32At(b, f.peAt + 24 + 116) == Ok(f.exportSize)
  }

  /** The 40 bytes of a section header. */
  predicate HasSection(b: Bytes, at: nat, s: Section) {
    && U32At(b, at + 8) == Ok(s.size) && U32At(b, at + 12) == Ok(s.address)
    && U32At(b, at + 16) == Ok(s.rawSize) && U32At(b, at + 20) == Ok(s.pointer)
  }

  predicate HasSectionAt(b: Bytes, at: nat, ss: seq<Section>, i: nat)
    requires i < |ss|
  {
    HasSection(b, at + 40 * i, ss[i])
  }

  predicate HasSections(b: Bytes, at: nat, ss: seq<Section>) {
    forall i: nat | i < |ss| :: HasSectionAt(b, at, ss, i)
  }

  /** The 40 bytes of the export directory. */
  predicate HasDirectory(b: Bytes, at: nat, d: Directory) {
    && U32At(b, at + 12) == Ok(d.nameRva)
    && U32At(b, at + 20) == Ok(d.functionCount) && U32At(b, at + 24) == Ok(d.nameCount)
    && U32At(b, at + 28) == Ok(d.functionsRva) && U32At(b, at + 32) == Ok(d.namesRva)
    && U32At(b, at + 36) == Ok(d.ordinalsRva)
  }

  /** The address is inside the export directory, where only forwarder strings stand. */
  predicate InDirectory(f: PeFile, rva: nat) {
    f.exportRva <= rva < f.exportRva + f.exportSize
  }

  /** Name `i`, the ordinal next to it, and the function at that ordinal. */
  ghost predicate HasEntry(b: Bytes, f: PeFile, i: nat, e: Entry) {
    && U32At(b, f.namesAt + 4 * i) == Ok(e.nameRva) && SpellsAt(b, f.sections, e.nameRva, e.name)
    && U16At(b, f.ordinalsAt + 2 * i) == Ok(e.ordinal) && e.ordinal < f.directory.functionCount
    && U32At(b, f.functionsAt + 4 * e.ordinal) == Ok(e.functionRva)
    && if InDirectory(f, e.functionRva)
       then e.target.Some? && SpellsAt(b, f.sections, e.functionRva, e.target.value)
       else e.target.None?
  }

  ghost predicate HasDllName(b: Bytes, f: PeFile, name: Option<string>) {
    if f.directory.nameRva == 0 then name.None?
    else name.Some? && SpellsAt(b, f.sections, f.directory.nameRva, name.value)
  }

  ghost predicate HasTables(b: Bytes, f: PeFile) {
    && Located(f.sections, f.exportRva, f.directoryAt) && HasDirectory(b, f.directoryAt, f.directory)
    && Located(f.sections, f.directory.functionsRva, f.functionsAt)
    && Located(f.sections, f.directory.namesRva, f.namesAt)
    && Located(f.sections, f.directory.ordinalsRva, f.ordinalsAt)
  }

  ghost predicate HasEntries(b: Bytes, f: PeFile) {
    && |f.entries| == f.directory.nameCount
    && forall i: nat | i < |f.entries| :: HasEntry(b, f, i, f.entries[i])
  }

  /** The table lists exactly these entries: of names equal but for case, the first spelling and the last target. */
  predicate Lists(t: ExportTable, es: seq<Entry>) {
    && (forall k | k in t :: exists i | 0 <= i < |es| :: k == Lower(es[i].name))
    && (forall i | 0 <= i < |es| :: Lower(es[i].name) in t)
    && (forall i | 0 <= i < |es| && (forall j | 0 <= j < i :: Lower(es[j].name) != Lower(es[i].name)) ::
          t[Lower(es[i].name)].name == es[i].name)
    && (forall i | 0 <= i < |es| && (forall j | i < j < |es| :: Lower(es[j].name) != Lower(es[i].name)) ::
          t[Lower(es[i].name)].target == es[i].target)
  }

  /** The bytes are a PE32+ file with this export table. */
  ghost predicate IsFile(b: Bytes, f: PeFile, info: PeInfo) {
    && HasHeaders(b, f)
    && if f.exportRva == 0 then info == PeInfo(None, map[])
       else && HasSections(b, f.peAt + 24 + f.optionalSize, f.sections)
            && HasTables(b, f) && HasEntries(b, f)
            && HasDllName(b, f, info.dllName) && Lists(info.exports, f.entries)
  }

  // ---------- what is read is what is there ----------

  lemma HeaderExactly(b: Bytes, f: PeFile)
    ensures HasHeaders(b, f) ==>
              ReadHeader(b) == Ok(Header(f.exportRva, f.exportSize, f.peAt + 24 + f.optionalSize, |f.sections|))
  {
    hide U16At, U32At;
    if HasHeaders(b, f) {
      assert b[f.peAt] == b[f.peAt..f.peAt + 4][0] && b[f.peAt + 1] == b[f.peAt..f.peAt + 4][1];
      assert b[f.peAt + 2] == b[f.peAt..f.peAt + 4][2] && b[f.peAt + 3] == b[f.peAt..f.peAt + 4][3];
      assert I32At(b, 0x3C) == Ok(f.peAt);
    }
  }

  /** The header fields of a file that was read. */
  lemma HeadersRead(b: Bytes, ss: seq<Section>) returns (f: PeFile)
    requires ReadHeader(b).Ok? && |ss| == ReadHeader(b).value.sectionCount
    ensures HasHeaders(b, f) && f.sections == ss
    ensures var h := ReadHeader(b).value;
            && f.exportRva == h.exportRva && f.exportSize == h.exportSize
            && h.sectionsAt == f.peAt + 24 + f.optionalSize
  {
    hide U16At;
    var h := ReadHeader(b).value;
    var pe := I32At(b, 0x3C).value;
    assert b[pe..pe + 4] == [0x50, 0x45, 0, 0];
    f := PeFile(pe, U16At(b, pe + 20).value, ss, h.exportRva, h.exportSize,
                0, Directory(0, 0, 0, 0, 0, 0), 0, 0, 0, []);
  }

  lemma {:induction false} SectionsExactly(b: Bytes, at: nat, ss: seq<Section>)
    ensures ReadSections(b, at, |ss|) == Ok(ss) <==> HasSections(b, at, ss)
    decreases |ss|
  {
    hide HasSections, HasSection, ReadSection, ReadSections;
    if ss == [] {
      NoSections(b, at);
    } else {
      assert ss == [ss[0]] + ss[1..];
      SectionsExactly(b, at + 40, ss[1..]);
      SectionExactly(b, at, ss[0]);
      HasSectionsStep(b, at, ss[0], ss[1..]);
      ReadSectionsStep(b, at, ss[0], ss[1..]);
    }
  }

  lemma NoSections(b: Bytes, at: nat)
    ensures ReadSections(b, at, 0) == Ok([]) && HasSections(b, at, [])
  {
  }

  lemma SectionExactly(b: Bytes, at: nat, s: Section)
    ensures ReadSection(b, at) == Ok(s) <==> HasSection(b, at, s)
  {
    hide U32At;
  }

  lemma HasSectionsStep(b: Bytes, at: nat, s: Section, rest: seq<Section>)
    ensures HasSections(b, at, [s] + rest) <==> HasSection(b, at, s) && HasSections(b, at + 40, rest)
  {
    hide HasSectionAt;
    var ss, next := [s] + rest, at + 40;
    FirstSection(b, at, s, rest);
    if HasSections(b, at, ss) {
      forall i: nat | i < |rest|
        ensures HasSectionAt(b, next, rest, i)
      {
        LaterSection(b, at, s, rest, i);
        assert HasSectionAt(b, at, ss, i + 1);
      }
    }
    if HasSections(b, next, rest) && HasSection(b, at, s) {
      forall i: nat | i < |ss|
        ensures HasSectionAt(b, at, ss, i)
      {
        if i > 0 {
          LaterSection(b, at, s, rest, i - 1);
        }
      }
    }
  }

  lemma FirstSection(b: Bytes, at: nat, s: Section, rest: seq<Section>)
    ensures HasSectionAt(b, at, [s] + rest, 0) <==> HasSection(b, at, s)
  {
    hide HasSection;
  }

  lemma LaterSection(b: Bytes, at: nat, s: Section, rest: seq<Section>, i: nat)
    requires i < |rest|
    ensures HasSectionAt(b, at, [s] + rest, i + 1) <==> HasSectionAt(b, at + 40, rest, i)
  {
    hide HasSection;
    assert at + 40 * (i + 1) == at + 40 + 40 * i;
  }

  lemma ReadSectionsStep(b: Bytes, at: nat, s: Section, rest: seq<Section>)
    ensures ReadSections(b, at, 1 + |rest|) == Ok([s] + rest) <==>
            ReadSection(b, at) == Ok(s) && ReadSections(b, at + 40, |rest|) == Ok(rest)
  {
    hide ReadSection;
    var r := ReadSections(b, at + 40, |rest|);
    if ReadSection(b, at).Ok? && r.Ok? {
      var all := [ReadSection(b, at).value] + r.value;
      assert all[0] == ReadSection(b, at).value && all[1..] == r.value;
      assert ([s] + rest)[0] == s && ([s] + rest)[1..] == rest;
    }
  }

  lemma ReadSectionsLength(b: Bytes, at: nat, count: nat)
    ensures ReadSections(b, at, count).Ok? ==> |ReadSections(b, at, count).value| == count
    decreases count
  {
  }

  lemma DirectoryExactly(b: Bytes, at: nat, d: Directory)
    ensures ReadDirectory(b, at) == Ok(d) <==> HasDirectory(b, at, d)
  {
    hide U32At;
  }

  function ContextOf(b: Bytes, f: PeFile): Context {
    Context(b, Header(f.exportRva, f.exportSize, f.peAt + 24 + f.optionalSize, |f.sections|), f.sections,
            f.directory.functionCount, f.functionsAt, f.namesAt, f.ordinalsAt)
  }

  lemma TargetExactly(b: Bytes, f: PeFile, rva: nat, target: Option<string>)
    ensures TargetOf(ContextOf(b, f), rva) == Ok(target) <==>
            if InDirectory(f, rva) then target.Some? && SpellsAt(b, f.sections, rva, target.value) else target.None?
  {
    hide StringAtRva, SpellsAt;
    if target.Some? {
      StringAtRvaExactly(b, f.sections, rva, target.value);
    }
  }

  lemma EntryReads(b: Bytes, f: PeFile, i: nat, e: Entry)
    requires HasEntry(b, f, i, e)
    ensures ReadEntry(ContextOf(b, f), i) == Ok(Export(e.name, e.target))
  {
    hide U32At, U16At, StringAtRva, SpellsAt, TargetOf, InDirectory;
    StringAtRvaExactly(b, f.sections, e.nameRva, e.name);
    TargetExactly(b, f, e.functionRva, e.target);
  }

  lemma EntryFound(b: Bytes, f: PeFile, i: nat) returns (e: Entry)
    requires ReadEntry(ContextOf(b, f), i).Ok?
    ensures HasEntry(b, f, i, e) && ReadEntry(ContextOf(b, f), i) == Ok(Export(e.name, e.target))
  {
    hide U32At, U16At, StringAtRva, SpellsAt, TargetOf, InDirectory;
    var c, x := ContextOf(b, f), ReadEntry(ContextOf(b, f), i).value;
    var nameRva := U32At(b, c.namesAt + i * 4).value;
    var ordinal := U16At(b, c.ordinalsAt + i * 2).value;
    var functionRva := U32At(b, c.functionsAt + ordinal * 4).value;
    e := Entry(nameRva, x.name, ordinal, functionRva, x.target);
    StringAtRvaExactly(b, f.sections, nameRva, x.name);
    TargetExactly(b, f, functionRva, x.target);
  }

  lemma NewName(t: ExportTable, es: seq<Entry>, name: string)
    requires Lists(t, es) && forall j | 0 <= j < |es| :: Lower(es[j].name) != Lower(name)
    ensures Lower(name) !in t
  {
    hide Lower;
  }

  /** Adding one more entry to a table that lists others. */
  lemma ListsOneMore(t: ExportTable, es: seq<Entry>, e: Entry)
    requires Lists(t, es)
    ensures Lists(AddExport(t, Export(e.name, e.target)), es + [e])
  {
    hide Lower;
    var all, u := es + [e], AddExport(t, Export(e.name, e.target));
    var n := |es|;
    assert all[n] == e && forall j | 0 <= j < n :: all[j] == es[j];
    OneMoreName(t, es, e);
    OneMoreTarget(t, es, e);
    forall k | k in u
      ensures exists i | 0 <= i < |all| :: k == Lower(all[i].name)
    {
      if k == Lower(e.name) {
        assert k == Lower(all[n].name);
      } else {
        var i :| 0 <= i < |es| && k == Lower(es[i].name);
        assert k == Lower(all[i].name);
      }
    }
  }

  lemma OneMoreName(t: ExportTable, es: seq<Entry>, e: Entry)
    requires Lists(t, es)
    ensures var all, u := es + [e], AddExport(t, Export(e.name, e.target));
            forall i | 0 <= i < |all| && (forall j | 0 <= j < i :: Lower(all[j].name) != Lower(all[i].name)) ::
              Lower(all[i].name) in u && u[Lower(all[i].name)].name == all[i].name
  {
    hide Lower;
    var all, n := es + [e], |es|;
    assert all[n] == e && forall j | 0 <= j < n :: all[j] == es[j];
    if forall j | 0 <= j < n :: Lower(es[j].name) != Lower(e.name) {
      NewName(t, es, e.name);
    }
  }

  lemma OneMoreTarget(t: ExportTable, es: seq<Entry>, e: Entry)
    requires Lists(t, es)
    ensures var all, u := es + [e], AddExport(t, Export(e.name, e.target));
            forall i | 0 <= i < |all| && (forall j | i < j < |all| :: Lower(all[j].name) != Lower(all[i].name)) ::
              Lower(all[i].name) in u && u[Lower(all[i].name)].target == all[i].target
  {
    hide Lower;
    var all, n := es + [e], |es|;
    assert all[n] == e && forall j | 0 <= j < n :: all[j] == es[j];
  }

  /** The entry loop from entry `n` on. */
  lemma {:induction false} EntriesListed(b: Bytes, f: PeFile, n: nat, t: ExportTable)
    requires HasEntries(b, f) && n <= |f.entries| && Lists(t, f.entries[..n])
    ensures var r := ReadEntries(ContextOf(b, f), n, |f.entries|, t); r.Ok? && Lists(r.value, f.entries)
    decreases |f.entries| - n
  {
    hide HasEntry, Lists, ReadEntry, AddExport;
    if n == |f.entries| {
      assert f.entries[..n] == f.entries;
    } else {
      var e := f.entries[n];
      EntryReads(b, f, n, e);
      ListsOneMore(t, f.entries[..n], e);
      assert f.entries[..n] + [e] == f.entries[..n + 1];
      EntriesListed(b, f, n + 1, AddExport(t, Export(e.name, e.target)));
    }
  }

  /** The entries behind a table that was read. */
  lemma {:induction false} EntriesFound(b: Bytes, f: PeFile, n: nat, count: nat, t: ExportTable)
      returns (es: seq<Entry>)
    requires n <= count && ReadEntries(ContextOf(b, f), n, count, t).Ok?
    ensures |es| == count - n && forall i: nat | i < |es| :: HasEntry(b, f, n + i, es[i])
    decreases count - n
  {
    hide HasEntry, ReadEntry, AddExport, ContextOf;
    if n == count {
      es := [];
    } else {
      var e := EntryFound(b, f, n);
      var rest := EntriesFound(b, f, n + 1, count, AddExport(t, Export(e.name, e.target)));
      es := [e] + rest;
      forall i: nat | i < |es|
        ensures HasEntry(b, f, n + i, es[i])
      {
        if i > 0 {
          assert HasEntry(b, f, n + 1 + (i - 1), rest[i - 1]);
        }
      }
    }
  }

  lemma {:induction false} FirstOf(es: seq<Entry>, i: nat) returns (k: nat)
    requires i < |es|
    ensures k <= i && Lower(es[k].name) == Lower(es[i].name)
    ensures forall j | 0 <= j < k :: Lower(es[j].name) != Lower(es[k].name)
  {
    hide Lower;
    k := i;
    if j: nat :| j < i && Lower(es[j].name) == Lower(es[i].name) {
      k := FirstOf(es, j);
    }
  }

  lemma {:induction false} LastOf(es: seq<Entry>, i: nat) returns (k: nat)
    requires i < |es|
    ensures i <= k < |es| && Lower(es[k].name) == Lower(es[i].name)
    ensures forall j | k < j < |es| :: Lower(es[j].name) != Lower(es[k].name)
    decreases |es| - i
  {
    hide Lower;
    k := i;
    if j: nat :| i < j < |es| && Lower(es[j].name) == Lower(es[i].name) {
      k := LastOf(es, j);
    }
  }

  /** Entries determine the table. */
  lemma ListsDetermines(t: ExportTable, u: ExportTable, es: seq<Entry>)
    requires Lists(t, es) && Lists(u, es)
    ensures t == u
  {
    hide Lower;
    forall k | k in t || k in u
      ensures k in t && k in u && t[k] == u[k]
    {
      var i :| 0 <= i < |es| && k == Lower(es[i].name);
      var first := FirstOf(es, i);
      var last := LastOf(es, i);
      assert t[k].name == es[first].name == u[k].name;
      assert t[k].target == es[last].target == u[k].target;
    }
    assert t.Keys == u.Keys;
  }

  lemma DllNameExactly(b: Bytes, f: PeFile, name: Option<string>)
    ensures ReadName(b, f.sections, f.directory.nameRva) == Ok(name) <==> HasDllName(b, f, name)
  {
    hide StringAtRva, SpellsAt;
    if name.Some? {
      StringAtRvaExactly(b, f.sections, f.directory.nameRva, name.value);
    }
  }

  lemma TablesExactly(b: Bytes, f: PeFile)
    ensures HasTables(b, f) <==>
            && RvaToOffset(f.sections, f.exportRva) == Ok(f.directoryAt)
            && ReadDirectory(b, f.directoryAt) == Ok(f.directory)
            && RvaToOffset(f.sections, f.directory.functionsRva) == Ok(f.functionsAt)
            && RvaToOffset(f.sections, f.directory.namesRva) == Ok(f.namesAt)
            && RvaToOffset(f.sections, f.directory.ordinalsRva) == Ok(f.ordinalsAt)
  {
    hide *;
    HasTablesIs(b, f);
    OffsetExactly(f.sections, f.exportRva, f.directoryAt);
    DirectoryExactly(b, f.directoryAt, f.directory);
    OffsetExactly(f.sections, f.directory.functionsRva, f.functionsAt);
    OffsetExactly(f.sections, f.directory.namesRva, f.namesAt);
    OffsetExactly(f.sections, f.directory.ordinalsRva, f.ordinalsAt);
  }

  lemma HasTablesIs(b: Bytes, f: PeFile)
    ensures HasTables(b, f) <==>
            && Located(f.sections, f.exportRva, f.directoryAt) && HasDirectory(b, f.directoryAt, f.directory)
            && Located(f.sections, f.directory.functionsRva, f.functionsAt)
            && Located(f.sections, f.directory.namesRva, f.namesAt)
            && Located(f.sections, f.directory.ordinalsRva, f.ordinalsAt)
  {
    hide Located, HasDirectory;
  }

  /** Every file is read as what it is. */
  lemma FileReads(b: Bytes, f: PeFile, info: PeInfo)
    requires IsFile(b, f, info)
    ensures ReadExports(b) == Ok(info)
  {
    hide HasHeaders, HasSections, HasTables, HasEntries, HasDllName, Lists;
    hide ReadHeader, ReadSections, ReadDirectory, RvaToOffset, ReadName, ReadEntries;
    HeaderExactly(b, f);
    if f.exportRva != 0 {
      SectionsExactly(b, f.peAt + 24 + f.optionalSize, f.sections);
      TablesExactly(b, f);
      DllNameExactly(b, f, info.dllName);
      NothingListed();
      assert f.entries[..0] == [];
      EntriesListed(b, f, 0, map[]);
      EntriesCounted(b, f);
      ListsDetermines(ReadEntries(ContextOf(b, f), 0, |f.entries|, map[]).value, info.exports, f.entries);
    }
  }

  lemma NothingListed()
    ensures Lists(map[], [])
  {
  }

  lemma EntriesCounted(b: Bytes, f: PeFile)
    requires HasEntries(b, f)
    ensures |f.entries| == f.directory.nameCount
  {
    hide HasEntry;
  }

  /** Whatever is read is such a file. */
  lemma ReadsFile(b: Bytes) returns (f: PeFile)
    requires ReadExports(b).Ok?
    ensures IsFile(b, f, ReadExports(b).value)
  {
    hide HasHeaders, HasSections, HasTables, HasEntry, HasDllName, Lists;
    hide ReadHeader, ReadSections, ReadDirectory, RvaToOffset, ReadName, ReadEntries;
    var h := ReadHeader(b).value;
    if h.exportRva == 0 {
      f := HeadersRead(b, seq(h.sectionCount, _ => Section(0, 0, 0, 0)));
    } else {
      var ss := ReadSections(b, h.sectionsAt, h.sectionCount).value;
      ReadSectionsLength(b, h.sectionsAt, h.sectionCount);
      f := HeadersRead(b, ss);
      SectionsExactly(b, h.sectionsAt, ss);
      var at := RvaToOffset(ss, h.exportRva).value;
      var d := ReadDirectory(b, at).value;
      var g := f.(directoryAt := at, directory := d, functionsAt := RvaToOffset(ss, d.functionsRva).value,
                  namesAt := RvaToOffset(ss, d.namesRva).value, ordinalsAt := RvaToOffset(ss, d.ordinalsRva).value);
      SameHeaders(b, f, g);
      HeaderExactly(b, g);
      TablesExactly(b, g);
      DllNameExactly(b, g, ReadExports(b).value.dllName);
      var es := EntriesFound(b, g, 0, d.nameCount, map[]);
      f := g.(entries := es);
      SameHeaders(b, g, f);
      forall i: nat | i < |es|
        ensures HasEntry(b, f, i, es[i])
      {
        assert HasEntry(b, g, 0 + i, es[i]);
        EntryOfSameFile(b, g, f, i, es[i]);
      }
      SameTables(b, g, f, ReadExports(b).value.dllName);
      NothingListed();
      assert es[..0] == [];
      EntriesListed(b, f, 0, map[]);
    }
  }

  lemma SameHeaders(b: Bytes, f: PeFile, g: PeFile)
    requires HasHeaders(b, f) && g.peAt == f.peAt && g.optionalSize == f.optionalSize && g.sections == f.sections
    requires g.exportRva == f.exportRva && g.exportSize == f.exportSize
    ensures HasHeaders(b, g)
  {
    hide U16At, U32At;
  }

  lemma EntryOfSameFile(b: Bytes, f: PeFile, g: PeFile, i: nat, e: Entry)
    requires HasEntry(b, f, i, e) && g == f.(entries := g.entries)
    ensures HasEntry(b, g, i, e)
  {
    hide U16At, U32At, SpellsAt;
  }

  lemma SameTables(b: Bytes, f: PeFile, g: PeFile, name: Option<string>)
    requires HasTables(b, f) && HasDllName(b, f, name) && g == f.(entries := g.entries)
    ensures HasTables(b, g) && HasDllName(b, g, name)
  {
    hide Located, HasDirectory, SpellsAt;
  }

  /** A file is read as a table of exports if and only if it is a PE32+ file with exactly that table. */
  lemma ReadsExactly(b: Bytes, info: PeInfo)
    ensures ReadExports(b) == Ok(info) <==> exists f: PeFile :: IsFile(b, f, info)
  {
    hide ReadExports, IsFile;
    if ReadExports(b) == Ok(info) {
      var f := ReadsFile(b);
    }
    if f: PeFile :| IsFile(b, f, info) {
      FileReads(b, f, info);
    }
  }
}
