/** A kernel whose table lies: 4 GiB of zeroed memory stand in front of a 64-bit word that holds an address.
    The kernel is accepted, and the one fixup of its table points into the zeroed memory. */
module HugeKernel {
  import opened Outcomes
  import opened Words
  import opened ElfLayout
  import opened ElfRelocate
  import opened FixupTable
  import opened Rebase
  import opened LoadImage

  const TARGET := Target(X86_64, 8, 1)
  const GAP: nat := 0x1_0000_0000
  const WORD := Reloc(0, 1, 0, 0)
  const SITE := Site(3, WORD, true)

  function Sections(): (s: seq<Section>)
    ensures |s| == 6 && s[0] == Section(Null, false, false, 0, 0, 0, 0, []) && s[1] == Section(ProgBits, true, true, 1, 8, 0, 0, [])
    ensures s[2] == Section(NoBits, true, false, 1, GAP, 8, 0, []) && s[3] == Section(ProgBits, true, false, 1, 8, 8, 0, [])
    ensures s[4] == Section(Rela, false, false, 1, 24, 16, 3, [WORD]) && s[5] == Section(SymTab, false, false, 1, 24, 40, 0, [])
  {
    [Section(Null, false, false, 0, 0, 0, 0, []), Section(ProgBits, true, true, 1, 8, 0, 0, []),
     Section(NoBits, true, false, 1, GAP, 8, 0, []), Section(ProgBits, true, false, 1, 8, 8, 0, []),
     Section(Rela, false, false, 1, 24, 16, 3, [WORD]), Section(SymTab, false, false, 1, 24, 40, 0, [])]
  }

  function Symbols(): seq<Symbol> { [Symbol("_start", 1, 1, 0)] }

  lemma OneSite()
    ensures AllSites(Sections()) == [SITE]
  {
    hide Sections;
    var s := Sections();
    assert SitesOf(s[4], 0) == [] && SitesOf(s[4], 1) == [SITE];
    assert Sites(s, 0) == [];
    assert Sites(s, 1) == [];
    assert Sites(s, 2) == [];
    assert Sites(s, 3) == [];
    assert Sites(s, 4) == [];
    assert Sites(s, 5) == [SITE];
    assert Sites(s, 6) == [SITE];
  }

  lemma WordBehindGap()
    ensures SizeOfText(Sections(), TARGET) == 8
    ensures Address(Sections(), TARGET, 1) == 0 && Address(Sections(), TARGET, 2) == 8 && Address(Sections(), TARGET, 3) == 8 + GAP
  {
    hide Sections;
    var s := Sections();
    assert Cursor(s, true, 0, 0, 8) == 0;
    assert Cursor(s, true, 0, 1, 8) == 0;
    assert Cursor(s, true, 0, 2, 8) == 8;
    assert Cursor(s, true, 0, 3, 8) == 8;
    assert Cursor(s, true, 0, 4, 8) == 8;
    assert Cursor(s, true, 0, 5, 8) == 8;
    assert Cursor(s, true, 0, 6, 8) == 8;
    assert Cursor(s, false, 8, 0, 8) == 8;
    assert Cursor(s, false, 8, 1, 8) == 8;
    assert Cursor(s, false, 8, 2, 8) == 8;
    assert Cursor(s, false, 8, 3, 8) == 8 + GAP;
  }

  /** The table of this accepted kernel has the word's fixup at 16, the first byte of the zeroed memory;
      the word itself is 4 GiB further on. */
  lemma TableLies()
    ensures TargetsKnown(AllSites(Sections()), 6) && Accepted(Sections(), Symbols(), TARGET)
    ensures var vaddrs := VirtualAddresses(Sections(), TARGET);
            && vaddrs[2] == 16
            && Truncated(FixupsOf(AllSites(Sections()), vaddrs, X86_64)) == [Fixup(10, 16)]
            && TruePlaces(AllSites(Sections()), vaddrs, X86_64) == [Fixup(10, GAP + 16)]
  {
    hide Sections, AllSites, Address, Located, StartAddress;
    OneSite();
    WordBehindGap();
    var vaddrs := VirtualAddresses(Sections(), TARGET);
    assert vaddrs[1] == 8 && vaddrs[2] == 16 && vaddrs[3] == 16 + GAP;
    StartIsEight(vaddrs);
    OneFixup(vaddrs);
    OneFixupFits(Fixup(10, GAP + 16));
    assert Sections()[5] in Sections();
  }

  lemma OneFixup(vaddrs: seq<nat>)
    requires |vaddrs| == 6 && vaddrs[3] == 16 + GAP
    ensures TargetsKnown([SITE], 6) && FixupsOf([SITE], vaddrs, X86_64) == TruePlaces([SITE], vaddrs, X86_64) == [Fixup(10, GAP + 16)]
    ensures Truncated([Fixup(10, GAP + 16)]) == [Fixup(10, 16)]
  {
    WideModulus();
    assert [SITE][..0] == [];
    assert FixupsOf([], vaddrs, X86_64) == [] && TruePlaces([], vaddrs, X86_64) == [];
    assert FixupAt(SITE, vaddrs, X86_64) == GAP + 16;
  }

  lemma WideModulus()
    ensures Modulus(8) == 0x1_0000_0000_0000_0000
  {
    assert Modulus(2) == 0x10000;
    assert Modulus(4) == 256 * (256 * Modulus(2));
    assert Modulus(6) == 256 * (256 * Modulus(4));
    assert Modulus(8) == 256 * (256 * Modulus(6));
  }

  lemma StartIsEight(vaddrs: seq<nat>)
    requires |vaddrs| == 6 && vaddrs[1] == 8
    ensures StartAddress(LocateAll(Symbols(), vaddrs, X86_64)) == 8
  {
    WideModulus();
    var syms := LocateAll(Symbols(), vaddrs, X86_64);
    assert syms[..0] == [] && StartAddress([]) == 0;
  }
}
