/** The smallest kernel that moves: one word of code, which holds the address of its own start symbol.
    It shows that the kernels of the loading theorem exist, down to the fixup they need. */
module SmallestKernel {
  import opened Outcomes
  import opened Words
  import opened ElfLayout
  import opened ElfRelocate
  import opened FixupTable
  import opened Rebase
  import opened LoadImage
  import opened PeLoader

  const TARGET := Target(I386, 4, 1)
  const WORD := Reloc(0, 1, 0, 0)
  const SITE := Site(1, WORD, false)

  function Sections(): (s: seq<Section>)
    ensures |s| == 4 && s[0] == Section(Null, false, false, 0, 0, 0, 0, []) && s[1] == Section(ProgBits, true, true, 1, 4, 0, 0, [])
    ensures s[2] == Section(Rel, false, false, 1, 8, 4, 1, [WORD]) && s[3] == Section(SymTab, false, false, 1, 16, 12, 0, [])
  {
    [Section(Null, false, false, 0, 0, 0, 0, []), Section(ProgBits, true, true, 1, 4, 0, 0, []),
     Section(Rel, false, false, 1, 8, 4, 1, [WORD]), Section(SymTab, false, false, 1, 16, 12, 0, [])]
  }

  function Symbols(): seq<Symbol> { [Symbol("_start", 1, 1, 0)] }

  lemma OneSite()
    ensures AllSites(Sections()) == [SITE]
  {
    hide Sections;
    var s := Sections();
    assert SitesOf(s[2], 0) == [] && SitesOf(s[2], 1) == [SITE];
    assert Sites(s, 0) == [];
    assert Sites(s, 1) == [];
    assert Sites(s, 2) == [];
    assert Sites(s, 3) == [SITE];
    assert Sites(s, 4) == [SITE];
  }

  lemma TextThenNothing()
    ensures SizeOfText(Sections(), TARGET) == 4 && SizeOfKernel(Sections(), TARGET) == 4
    ensures Address(Sections(), TARGET, 1) == 0
  {
    hide Sections;
    var s := Sections();
    assert Cursor(s, true, 0, 0, 4) == 0;
    assert Cursor(s, true, 0, 1, 4) == 0;
    assert Cursor(s, true, 0, 2, 4) == 4;
    assert Cursor(s, true, 0, 3, 4) == 4;
    assert Cursor(s, true, 0, 4, 4) == 4;
    assert Cursor(s, false, 4, 0, 4) == 4;
    assert Cursor(s, false, 4, 1, 4) == 4;
    assert Cursor(s, false, 4, 2, 4) == 4;
    assert Cursor(s, false, 4, 3, 4) == 4;
    assert Cursor(s, false, 4, 4, 4) == 4;
  }

  lemma IsMovable(header: seq<byte>, buffer: seq<byte>)
    requires |header| == |buffer| == 4
    ensures Movable(header, buffer, [0, 0, 0, 0], Sections(), Symbols(), TARGET)
  {
    hide Sections, AllSites, SizeOfKernel;
    OneSite();
    TextThenNothing();
  }

  lemma IsAccepted()
    ensures TargetsKnown(AllSites(Sections()), 4) && Accepted(Sections(), Symbols(), TARGET)
    ensures FixupsOf(AllSites(Sections()), VirtualAddresses(Sections(), TARGET), I386) == [Fixup(3, 4)]
  {
    hide Sections, AllSites, Address, Located, StartAddress, BlocksFit, FixupsOf;
    OneSite();
    TextThenNothing();
    var vaddrs := VirtualAddresses(Sections(), TARGET);
    assert vaddrs[1] == 4;
    StartIsFour(vaddrs);
    OneFixup(vaddrs);
    OneFixupFits(Fixup(3, 4));
    assert Sections()[3] in Sections();
  }

  lemma OneFixup(vaddrs: seq<nat>)
    requires |vaddrs| == 4 && vaddrs[1] == 4
    ensures TargetsKnown([SITE], 4) && FixupsOf([SITE], vaddrs, I386) == [Fixup(3, 4)]
  {
    WordModuli();
    assert [SITE][..0] == [];
    assert FixupsOf([], vaddrs, I386) == [];
  }

  lemma StartIsFour(vaddrs: seq<nat>)
    requires |vaddrs| == 4 && vaddrs[1] == 4
    ensures StartAddress(LocateAll(Symbols(), vaddrs, I386)) == 4
  {
    WordModuli();
    var syms := LocateAll(Symbols(), vaddrs, I386);
    assert syms[..0] == [] && StartAddress([]) == 0;
  }
}
