/** The installer's checks on printed DLLs: a forwarding proxy over a real original is accepted. */
module InstallerFixtures {
  import opened Text
  import opened PeExports
  import opened PeFixture
  import opened PeRoundTrip
  import opened Installer

  /** A DLL description whose exports are all real, small enough to be read back. */
  predicate RealFixture(dllName: string, es: seq<Export>) {
    && Printable(dllName, es) && Describable(dllName, es) && End(dllName, es) <= FAKE_CODE
    && forall i | 0 <= i < |es| :: es[i].target.None?
  }

  /** A proxy of several exports that forwards each one to "<stem>.<name>", for names of the original. */
  ghost predicate ProxyFixture(dllName: string, es: seq<Export>, originals: seq<Export>) {
    && Printable(dllName, es) && Describable(dllName, es) && |es| >= 2
    && forall i | 0 <= i < |es| :: ForwardsTo(es[i], originals)
  }

  ghost predicate ForwardsTo(e: Export, originals: seq<Export>) {
    && e.target.Some?
    && exists stem, j | 0 <= j < |originals| :: LastPart(e.target.value, stem, originals[j].name)
  }

  lemma ResolvesInTable(e: Export, originals: seq<Export>, t: ExportTable)
    requires ForwardsTo(e, originals) && IsTableOf(t, originals)
    ensures Resolves(e, t)
  {
    hide LastIndexOf, Lower;
    var stem, j :| 0 <= j < |originals| && LastPart(e.target.value, stem, originals[j].name);
    LastDot(e.target.value, stem, originals[j].name);
  }

  /** What the parser says about the two printed files. */
  lemma FixturesRead(dllName: string, originals: seq<Export>, proxyName: string, proxies: seq<Export>)
    requires RealFixture(dllName, originals) && ProxyFixture(proxyName, proxies, originals)
    ensures var o := Inspect(Load(Image(dllName, originals))); var p := Inspect(Load(Image(proxyName, proxies)));
            && o.Ok? && IsTableOf(o.value, originals) && p.Ok? && IsTableOf(p.value, proxies)
  {
    hide Image, ReadExports, IsTableOf, Describable, ForwardsTo, End;
    PrintedFileReadsBack(dllName, originals);
    forall i | 0 <= i < |proxies|
      ensures Forwards(proxies[i])
    {
      TargetNotEmpty(proxies[i], originals);
    }
    PrintedFileReadsBack(proxyName, proxies);
  }

  lemma TargetNotEmpty(e: Export, originals: seq<Export>)
    requires ForwardsTo(e, originals)
    ensures Forwards(e)
  {
  }

  /** On a directory that holds a printed real DLL, Install accepts a printed proxy that forwards to its exports. */
  lemma PrintedProxyAccepted(dllName: string, originals: seq<Export>, proxyName: string, proxies: seq<Export>,
                             d: Files, p: Preflight)
    requires RealFixture(dllName, originals) && ProxyFixture(proxyName, proxies, originals)
    requires Live in d && d[Live] == Load(Image(dllName, originals)) && Backup !in d
    requires p.proxyExists && Clear(p)
    ensures StateOf(d) == NotInstalled && InstallAccepts(d, Load(Image(proxyName, proxies)), p)
  {
    hide Image, Inspect, ForwardsTo, Resolves, Describable, End, Lower;
    FixturesRead(dllName, originals, proxyName, proxies);
    var o, t := Inspect(Load(Image(dllName, originals))).value, Inspect(Load(Image(proxyName, proxies))).value;
    forall k | k in t
      ensures Resolves(t[k], o)
    {
      var i :| 0 <= i < |proxies| && k == Lower(proxies[i].name);
      ResolvesInTable(proxies[i], originals, o);
    }
    assert forall k | k in o :: !Forwards(o[k]);
    assert Lower(proxies[0].name) in t;
  }
}
