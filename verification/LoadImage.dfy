/** load_image for EFI targets: the four passes put together, with what makes each of them give up. What the
    passes are for, that a loader can rebuild the image at any base, stands in PeLoader. */
module LoadImage {
  import opened Outcomes
  import opened Words
  import opened ElfLayout
  import opened ElfRelocate
  import opened FixupTable
  import opened Rebase

  function Addresses(sections: seq<Section>, t: Target): (r: seq<nat>)
    requires t.sectionAlign > 0
    ensures |r| == |sections| && forall i :: 0 <= i < |sections| ==> r[i] == Address(sections, t, i)
  {
    seq(|sections|, i requires 0 <= i < |sections| => Address(sections, t, i))
  }

  function VirtualAddresses(sections: seq<Section>, t: Target): (r: seq<nat>)
    requires t.sectionAlign > 0
    ensures |r| == |sections|
  {
    Shift(Addresses(sections, t), t.vaddrOffset)
  }

  /** What a readable object file promises: every record points inside it. */
  predicate Readable(file: seq<byte>, sections: seq<Section>, symCount: nat, t: Target) {
    && PowerOfTwo(t.sectionAlign) && t.sectionAlign <= MAX_ALIGN
    && InFile(file, sections)
    && InBounds(AllSites(sections), sections, symCount, |file|, t.machine)
  }

  /** The section bytes relocated with every section moved by base. */
  function RelocatedAt(file: seq<byte>, sections: seq<Section>, syms: seq<Symbol>, t: Target, base: nat): (r: seq<byte>)
    requires Readable(file, sections, |syms|, t)
    ensures |r| == |file|
  {
    RelocateAll(file, AllSites(sections), sections,
                LocateAll(syms, Shift(VirtualAddresses(sections, t), base), t.machine),
                Shift(Addresses(sections, t), base), t)
  }

  /** The image linked at base, over what the buffer held. */
  function LinkedAt(buffer: seq<byte>, file: seq<byte>, sections: seq<Section>, syms: seq<Symbol>, t: Target, base: nat): (r: seq<byte>)
    requires Readable(file, sections, |syms|, t) && SizeOfKernel(sections, t) <= |buffer|
    ensures |r| == |buffer|
  {
    LayoutFitsAndApart(sections, t, Addresses(sections, t), |buffer|);
    CopyAll(buffer, RelocatedAt(file, sections, syms, t, base), sections, Addresses(sections, t), |sections|)
  }

  datatype Loaded = Loaded(execSize: nat, kernelSize: nat, align: nat, start: nat, reloc: seq<byte>)

  lemma ShiftByZero(addrs: seq<nat>)
    ensures Shift(addrs, 0) == addrs
  {
  }

  /** Every check of the passes in turn; all of them pass exactly when an image comes out. */
  predicate Accepted(sections: seq<Section>, syms: seq<Symbol>, t: Target)
    requires t.sectionAlign > 0 && TargetsKnown(AllSites(sections), |sections|)
  {
    var sites := AllSites(sections);
    var vaddrs := VirtualAddresses(sections, t);
    && (exists s :: s in sections && s.shType == SymTab)
    && (forall k :: 0 <= k < |syms| ==> Acceptable(syms[k], |sections|))
    && StartAddress(LocateAll(syms, vaddrs, t.machine)) != 0
    && (forall site :: site in sites ==> Implemented(site, t.machine))
    && FixupsAccepted(sites, vaddrs, t.machine)
  }

  predicate FixupsAccepted(sites: seq<Site>, vaddrs: seq<nat>, m: Machine)
    requires TargetsKnown(sites, |vaddrs|)
  {
    (forall site :: site in sites ==> !Refused(site, m)) && BlocksFit(FixupsOf(sites, vaddrs, m))
  }

  /** The three passes over the object file: symbols, then addresses, then the fixup table. */
  method Resolve(kernel: array<byte>, sections: seq<Section>, symtab: array<Symbol>, addrs: seq<nat>, t: Target)
    returns (r: Result<(nat, seq<byte>), Error>)
    requires Readable(kernel[..], sections, symtab.Length, t)
    requires addrs == Addresses(sections, t)
    modifies kernel, symtab
    ensures r.Ok? <==> Accepted(sections, old(symtab[..]), t)
    ensures r.Ok? ==> kernel[..] == RelocatedAt(old(kernel[..]), sections, old(symtab[..]), t, 0)
    ensures r.Ok? ==> r.value.0 == StartAddress(LocateAll(old(symtab[..]), VirtualAddresses(sections, t), t.machine))
    ensures r.Ok? ==> Decode(r.value.1) == Some(Truncated(FixupsOf(AllSites(sections), VirtualAddresses(sections, t), t.machine)))
    ensures r.Ok? ==> Multiple(|r.value.1|, t.sectionAlign)
  {
    hide Resolvable, Moved, FirstEntry;
    var vaddrs := VirtualAddresses(sections, t);
    if !exists s :: s in sections && s.shType == SymTab {
      return Err(NoSymbolTable);
    }
    var start := RelocateSymbols(symtab, vaddrs, t.machine);
    if start.Err? {
      return Err(start.error);
    }
    if start.value == 0 {
      return Err(NoStartSymbol);
    }
    ShiftByZero(vaddrs);
    ShiftByZero(addrs);
    var done := RelocateAddresses(kernel, sections, symtab[..], addrs, t);
    if done.Err? {
      return Err(done.error);
    }
    var reloc := MakeRelocSection(sections, vaddrs, t);
    assert reloc.Ok? <==> FixupsAccepted(AllSites(sections), vaddrs, t.machine);
    if reloc.Err? {
      return Err(reloc.error);
    }
    return Ok((start.value, reloc.value));
  }

  method LoadImage(kernel: array<byte>, sections: seq<Section>, symtab: array<Symbol>, t: Target, totalModuleSize: nat)
    returns (r: Result<Loaded, Error>, out: array<byte>, ghost buffer: seq<byte>)
    requires Readable(kernel[..], sections, symtab.Length, t)
    modifies kernel, symtab
    ensures r.Ok? <==> Accepted(sections, old(symtab[..]), t)
    ensures r.Ok? ==>
              && fresh(out)
              && out.Length == |buffer| == SizeOfKernel(sections, t) + totalModuleSize
              && out[..] == LinkedAt(buffer, old(kernel[..]), sections, old(symtab[..]), t, 0)
    ensures r.Ok? ==>
              && r.value.execSize == SizeOfText(sections, t)
              && r.value.kernelSize == SizeOfKernel(sections, t)
              && r.value.start == StartAddress(LocateAll(old(symtab[..]), VirtualAddresses(sections, t), t.machine))
              && Decode(r.value.reloc) == Some(Truncated(FixupsOf(AllSites(sections), VirtualAddresses(sections, t), t.machine)))
              && Multiple(|r.value.reloc|, t.sectionAlign)
  {
    var where, execSize, kernelSize, align := LocateSections(sections, t);
    var addrs := where[..];
    assert addrs == Addresses(sections, t);
    out := new byte[kernelSize + totalModuleSize];
    buffer := out[..];
    var linked := Resolve(kernel, sections, symtab, addrs, t);
    if linked.Err? {
      return Err(linked.error), out, buffer;
    }
    LayoutFitsAndApart(sections, t, addrs, out.Length);
    CopySections(out, kernel, sections, addrs);
    r := Ok(Loaded(execSize, kernelSize, align, linked.value.0, linked.value.1));
  }
}
