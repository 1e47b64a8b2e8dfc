/** Which object files become an image, and what the table of the image lists, in the terms of the object file:
    its section table, its symbols and the numbers of its relocations. */
module ImageAccept {
  import opened Outcomes
  import opened Words
  import opened ElfLayout
  import opened ElfRelocate
  import opened FixupTable
  import opened LoadImage

  // ----- the fixups -----

  /** The address of a section with the header in front; a record for no section is not read. */
  function SectionAddress(sections: seq<Section>, t: Target, i: nat): nat
    requires t.sectionAlign > 0
  {
    if i < |sections| then t.vaddrOffset + Address(sections, t, i) else 0
  }

  function AddressRange(m: Machine): (r: nat)
    ensures r > 0
  {
    if m.I386? then 0x1_0000_0000 else 0x1_0000_0000_0000_0000
  }

  /** A HIGHLOW (3) on i386 or DIR64 (10) on x86-64 for every relocation of number 1 among the first n. */
  function SectionFixups(s: Section, n: nat, sections: seq<Section>, t: Target): seq<Fixup>
    requires n <= |s.relocs| && t.sectionAlign > 0
  {
    if n == 0 then []
    else
      var r := s.relocs[n - 1];
      SectionFixups(s, n - 1, sections, t)
        + if r.kind == 1 then [Fixup(if t.machine.I386? then 3 else 10, (SectionAddress(sections, t, s.info) + r.offset) % AddressRange(t.machine))]
          else []
  }

  function Listed(sections: seq<Section>, n: nat, t: Target): seq<Fixup>
    requires n <= |sections| && t.sectionAlign > 0
  {
    if n == 0 then []
    else
      Listed(sections, n - 1, t)
        + if sections[n - 1].shType == Rel || sections[n - 1].shType == Rela
          then SectionFixups(sections[n - 1], |sections[n - 1].relocs|, sections, t) else []
  }

  lemma FixupsJoin(a: seq<Site>, b: seq<Site>, vaddrs: seq<nat>, m: Machine)
    requires TargetsKnown(a, |vaddrs|) && TargetsKnown(b, |vaddrs|)
    ensures TargetsKnown(a + b, |vaddrs|)
    ensures FixupsOf(a + b, vaddrs, m) == FixupsOf(a, vaddrs, m) + FixupsOf(b, vaddrs, m)
  {
    hide FixupAt, FixupKind;
    if |b| == 0 {
      assert a + b == a;
    } else {
      var front := b[..|b| - 1];
      FixupsJoin(a, front, vaddrs, m);
      assert (a + b)[..|a + b| - 1] == a + front && (a + b)[|a + b| - 1] == b[|b| - 1];
    }
  }

  lemma RangeIs(m: Machine)
    ensures Modulus(AddressSize(m)) == AddressRange(m)
  {
    assert Modulus(4) == 0x1_0000_0000 && Modulus(8) == 0x1_0000_0000 * Modulus(4);
  }

  lemma {:induction false} SectionListed(s: Section, n: nat, sections: seq<Section>, t: Target)
    requires n <= |s.relocs| && t.sectionAlign > 0 && (n > 0 ==> s.info < |sections|)
    ensures TargetsKnown(SitesOf(s, n), |sections|)
    ensures FixupsOf(SitesOf(s, n), VirtualAddresses(sections, t), t.machine) == SectionFixups(s, n, sections, t)
  {
    hide VirtualAddresses, SectionAddress, AddressRange;
    if n > 0 {
      SectionListed(s, n - 1, sections, t);
      var site := Site(s.info, s.relocs[n - 1], s.shType == Rela);
      var all := SitesOf(s, n);
      assert all[..|all| - 1] == SitesOf(s, n - 1) && all[|all| - 1] == site;
      VirtualAddressIs(sections, t, s.info);
      RangeIs(t.machine);
    }
  }

  lemma VirtualAddressIs(sections: seq<Section>, t: Target, i: nat)
    requires t.sectionAlign > 0 && i < |sections|
    ensures VirtualAddresses(sections, t)[i] == SectionAddress(sections, t, i)
  {
    hide Address;
  }

  lemma {:induction false} ListedFrom(sections: seq<Section>, n: nat, t: Target)
    requires n <= |sections| && t.sectionAlign > 0 && TargetsKnown(Sites(sections, n), |sections|)
    ensures FixupsOf(Sites(sections, n), VirtualAddresses(sections, t), t.machine) == Listed(sections, n, t)
  {
    hide SectionFixups, FixupsOf, SitesOf;
    if n > 0 {
      var s := sections[n - 1];
      var front := Sites(sections, n - 1);
      if IsRelocSection(s) {
        var last := SitesOf(s, |s.relocs|);
        assert Sites(sections, n) == front + last;
        assert forall k :: 0 <= k < |front| ==> front[k] == (front + last)[k];
        ListedFrom(sections, n - 1, t);
        if |s.relocs| > 0 {
          LastSite(s, |s.relocs|);
          assert (front + last)[|front + last| - 1] == last[|last| - 1];
        }
        SectionListed(s, |s.relocs|, sections, t);
        FixupsJoin(front, last, VirtualAddresses(sections, t), t.machine);
      } else {
        ListedFrom(sections, n - 1, t);
      }
    } else {
      NothingAsked(VirtualAddresses(sections, t), t.machine);
    }
  }

  lemma LastSite(s: Section, n: nat)
    requires 0 < n <= |s.relocs|
    ensures |SitesOf(s, n)| == n && SitesOf(s, n)[n - 1] == Site(s.info, s.relocs[n - 1], s.shType == Rela)
  {
  }

  // ----- how many share a page -----

  /** next goes into the block of previous: it lies in the same page, whose end is computed in 32 bits. */
  predicate SharesPage(previous: nat, next: nat) {
    var page := (previous - previous % 0x1000) % 0x1_0000_0000;
    page <= next < (page + 0x1000) % 0x1_0000_0000
  }

  /** Fixup k goes into the block of the one before it. */
  predicate Continues(log: seq<Fixup>, k: int) { 0 < k < |log| && SharesPage(log[k - 1].addr, log[k].addr) }

  /** The w fixups from a on share a block. */
  predicate Together(log: seq<Fixup>, a: nat, w: nat) { forall k :: a < k < a + w ==> Continues(log, k) }

  /** Among any 0x1001 fixups in a row one starts a new page. */
  predicate NoPageOverflows(log: seq<Fixup>) { forall a: nat :: Together(log, a, 0x1001) ==> |log| < a + 0x1001 }

  lemma SharesExactly(previous: nat, next: nat)
    ensures SharesPage(previous, next) <==> InPage(PageOf(previous), next)
  {
  }

  lemma {:induction false} RunIs(log: seq<Fixup>, w: nat)
    requires 0 < w <= |log|
    ensures Run(log) >= w <==> Together(log, |log| - w, w)
    decreases |log|
  {
    hide PageOf, InPage, SharesPage;
    var n := |log|;
    if w > 1 {
      SharesExactly(log[n - 2].addr, log[n - 1].addr);
      RunIs(log[..n - 1], w - 1);
      OneMoreTogether(log, w);
    } else {
      RunIsPositive(log);
    }
  }

  lemma RunIsPositive(log: seq<Fixup>)
    requires log != []
    ensures Run(log) >= 1
  {
  }

  lemma OneMoreTogether(log: seq<Fixup>, w: nat)
    requires 1 < w <= |log|
    ensures var n := |log|;
            Together(log, n - w, w) <==> Together(log[..n - 1], n - w, w - 1) && SharesPage(log[n - 2].addr, log[n - 1].addr)
  {
    hide SharesPage;
    var n := |log|;
    var front := log[..n - 1];
    assert Continues(log, n - 1) <==> SharesPage(log[n - 2].addr, log[n - 1].addr);
    if Together(log, n - w, w) {
      forall k | n - w < k < n - 1
        ensures Continues(front, k)
      {
        assert Continues(log, k);
      }
      assert Continues(log, n - 1);
    }
    if Together(front, n - w, w - 1) && Continues(log, n - 1) {
      forall k | n - w < k < n
        ensures Continues(log, k)
      {
        assert k < n - 1 ==> Continues(front, k);
      }
    }
  }

  lemma RunFits(log: seq<Fixup>, n: nat)
    requires n <= |log|
    ensures Run(log[..n]) > 0x1000 <==> 0x1000 < n && Together(log, n - 0x1001, 0x1001)
  {
    hide SharesPage, Run;
    if 0x1000 < n {
      var front := log[..n];
      RunIs(front, 0x1001);
      assert forall k :: n - 0x1001 < k < n ==> (Continues(front, k) <==> Continues(log, k));
    }
  }

  lemma BlocksFitExactly(log: seq<Fixup>)
    ensures BlocksFit(log) <==> NoPageOverflows(log)
  {
    hide Together, Run;
    if BlocksFit(log) {
      forall a: nat | Together(log, a, 0x1001)
        ensures |log| < a + 0x1001
      {
        if a + 0x1001 <= |log| {
          RunFits(log, a + 0x1001);
        }
      }
    }
    if NoPageOverflows(log) {
      forall n | 0 <= n <= |log|
        ensures Run(log[..n]) <= MAX_ENTRIES
      {
        RunFits(log, n);
      }
    }
  }

  // ----- acceptance -----

  /** Every relocation is none, a word, or one relative to its place. */
  predicate PlainRelocations(sections: seq<Section>) {
    forall i, j :: 0 <= i < |sections| && (sections[i].shType == Rel || sections[i].shType == Rela) && 0 <= j < |sections[i].relocs| ==>
      sections[i].relocs[j].kind <= 2
  }

  /** Some symbol to start at, away from address 0. */
  predicate HasEntry(sections: seq<Section>, syms: seq<Symbol>, t: Target)
    requires t.sectionAlign > 0
  {
    exists k :: 0 <= k < |syms| && IsEntry(syms[k])
      && (syms[k].value + SectionAddress(sections, t, syms[k].shndx)) % AddressRange(t.machine) != 0
  }

  /** There is a symbol table, all its symbols resolve, one of them is the entry, every relocation can be both linked
      and fixed up, and no page has more than 0x1000 fixups in a row. */
  predicate Buildable(sections: seq<Section>, syms: seq<Symbol>, t: Target)
    requires t.sectionAlign > 0
  {
    && (exists i :: 0 <= i < |sections| && sections[i].shType == SymTab)
    && (forall k :: 0 <= k < |syms| ==> Resolvable(syms[k], |sections|))
    && HasEntry(sections, syms, t)
    && PlainRelocations(sections)
    && NoPageOverflows(Listed(sections, |sections|, t))
  }

  lemma {:induction false} SiteComesFrom(sections: seq<Section>, n: nat, site: Site) returns (i: nat, j: nat)
    requires n <= |sections| && site in Sites(sections, n)
    ensures i < n && (sections[i].shType == Rel || sections[i].shType == Rela) && j < |sections[i].relocs| && site.reloc == sections[i].relocs[j]
  {
    hide SitesOf;
    if site in Sites(sections, n - 1) {
      i, j := SiteComesFrom(sections, n - 1, site);
    } else {
      i := n - 1;
      j := RecordOf(sections[i], |sections[i].relocs|, site);
    }
  }

  lemma {:induction false} RecordOf(s: Section, n: nat, site: Site) returns (j: nat)
    requires n <= |s.relocs| && site in SitesOf(s, n)
    ensures j < n && site.reloc == s.relocs[j]
  {
    if site in SitesOf(s, n - 1) {
      j := RecordOf(s, n - 1, site);
    } else {
      j := n - 1;
    }
  }

  lemma KindsExactly(site: Site, m: Machine)
    ensures Implemented(site, m) && !Refused(site, m) <==> site.reloc.kind <= 2
  {
  }

  lemma PlainExactly(sections: seq<Section>, m: Machine)
    ensures PlainRelocations(sections) <==> forall site :: site in AllSites(sections) ==> Implemented(site, m) && !Refused(site, m)
  {
    hide Implemented, Refused, Sites;
    if PlainRelocations(sections) {
      forall site | site in AllSites(sections)
        ensures Implemented(site, m) && !Refused(site, m)
      {
        var i, j := SiteComesFrom(sections, |sections|, site);
        KindsExactly(site, m);
      }
    }
    if forall site :: site in AllSites(sections) ==> Implemented(site, m) && !Refused(site, m) {
      forall i, j | 0 <= i < |sections| && (sections[i].shType == Rel || sections[i].shType == Rela) && 0 <= j < |sections[i].relocs|
        ensures sections[i].relocs[j].kind <= 2
      {
        RecordIsSite(sections, i, j);
        KindsExactly(Site(sections[i].info, sections[i].relocs[j], sections[i].shType == Rela), m);
      }
    }
  }

  lemma RecordIsSite(sections: seq<Section>, i: nat, j: nat)
    requires i < |sections| && (sections[i].shType == Rel || sections[i].shType == Rela) && j < |sections[i].relocs|
    ensures Site(sections[i].info, sections[i].relocs[j], sections[i].shType == Rela) in AllSites(sections)
  {
    hide Sites, SitesOf;
    var done := Sites(sections, i) + SitesOf(sections[i], j);
    NextSite(sections, i, j, done);
    var site := Site(sections[i].info, sections[i].relocs[j], sections[i].shType == Rela);
    assert (done + [site])[|done|] == site;
  }

  lemma EntryExactly(sections: seq<Section>, syms: seq<Symbol>, t: Target)
    requires t.sectionAlign > 0 && forall k :: 0 <= k < |syms| ==> Acceptable(syms[k], |sections|)
    ensures StartAddress(LocateAll(syms, VirtualAddresses(sections, t), t.machine)) != 0 <==> HasEntry(sections, syms, t)
  {
    hide StartAddress, VirtualAddresses, SectionAddress, AddressRange;
    var located := LocateAll(syms, VirtualAddresses(sections, t), t.machine);
    AllMoved(syms, VirtualAddresses(sections, t), t.machine);
    forall k | 0 <= k < |syms| && IsEntry(syms[k])
      ensures IsEntry(located[k]) && located[k].value == (syms[k].value + SectionAddress(sections, t, syms[k].shndx)) % AddressRange(t.machine)
    {
      EntryMoved(syms[k], sections, t);
    }
    forall k | 0 <= k < |syms| && IsEntry(located[k])
      ensures IsEntry(syms[k])
    {
    }
  }

  lemma EntryMoved(s: Symbol, sections: seq<Section>, t: Target)
    requires t.sectionAlign > 0 && Acceptable(s, |sections|) && IsEntry(s)
    ensures Located(s, VirtualAddresses(sections, t), t.machine)
         == s.(value := (s.value + SectionAddress(sections, t, s.shndx)) % AddressRange(t.machine))
  {
    hide VirtualAddresses, SectionAddress;
    RangeIs(t.machine);
    VirtualAddressIs(sections, t, s.shndx);
  }

  /** The passes accept exactly what can be built. */
  lemma AcceptedExactly(sections: seq<Section>, syms: seq<Symbol>, t: Target)
    requires t.sectionAlign > 0 && TargetsKnown(AllSites(sections), |sections|)
    ensures Accepted(sections, syms, t) <==> Buildable(sections, syms, t)
  {
    hide BlocksFit, NoPageOverflows, Listed, HasEntry, Implemented, Refused, StartAddress, VirtualAddresses, Resolvable, Acceptable, PlainRelocations, Sites,
         TargetsKnown, FixupsOf, LocateAll;
    PlainExactly(sections, t.machine);
    ListedFrom(sections, |sections|, t);
    BlocksFitExactly(Listed(sections, |sections|, t));
    forall k | 0 <= k < |syms|
      ensures Resolvable(syms[k], |sections|) <==> Acceptable(syms[k], |sections|)
    {
      ResolvableExactly(syms[k], |sections|);
    }
    assert (exists s :: s in sections && s.shType == SymTab) <==> exists i :: 0 <= i < |sections| && sections[i].shType == SymTab;
    if forall k :: 0 <= k < |syms| ==> Acceptable(syms[k], |sections|) {
      EntryExactly(sections, syms, t);
    }
  }

  /** The decoded table. */
  function Table(sections: seq<Section>, t: Target): seq<Fixup>
    requires t.sectionAlign > 0
  {
    var log := Listed(sections, |sections|, t);
    seq(|log|, i requires 0 <= i < |log| => Fixup(log[i].kind, log[i].addr % 0x1_0000_0000))
  }

  lemma TableIs(sections: seq<Section>, t: Target)
    requires t.sectionAlign > 0 && TargetsKnown(AllSites(sections), |sections|)
    ensures Truncated(FixupsOf(AllSites(sections), VirtualAddresses(sections, t), t.machine)) == Table(sections, t)
  {
    hide FixupsOf, Listed;
    ListedFrom(sections, |sections|, t);
  }
}
