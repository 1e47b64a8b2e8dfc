/** The whole EFI image: kernel linked at 0, modules behind it, the PE file around both, and what a
    loader makes of that file at any base. */
module PeImage {
  import opened Outcomes
  import opened Words
  import opened ElfLayout
  import opened ElfRelocate
  import opened FixupTable
  import opened Rebase
  import opened LoadImage
  import opened PeLoader
  import opened ImageMeaning
  import opened ImageAccept
  import opened ElfMeaning
  import Pack = ModulePack
  import Walk = ModuleWalk
  import Area = AreaMeaning

  /** A row of the section table; addresses are relative to the image's base. */
  datatype SectionHeader = SectionHeader(rva: nat, virtualSize: nat, offset: nat, rawSize: nat)

  /** The file, and what its header says: size of the image, the four sections, and the fixup table. */
  datatype PeFile = PeFile(bytes: seq<byte>, imageSize: nat, table: seq<SectionHeader>, relocRva: nat, relocSize: nat)

  /** From the end of the header on, each section of the file starts where the one before it ends, and
      the last ends with the file; in memory each is where it is in the file. */
  predicate Tiles(pe: PeFile, headerSize: nat) {
    && |pe.table| == 4
    && pe.table[0].offset == headerSize
    && (forall i :: 0 <= i < 3 ==> pe.table[i + 1].offset == pe.table[i].offset + pe.table[i].rawSize)
    && pe.table[3].offset + pe.table[3].rawSize == |pe.bytes|
    && (forall i :: 0 <= i < 4 ==> pe.table[i].rva == pe.table[i].offset && pe.table[i].virtualSize == pe.table[i].rawSize)
    && pe.table[3].rva == pe.relocRva && pe.table[3].rawSize == pe.relocSize
  }

  /** The first section is the text, the second the data; the third has the modules, up to the table. */
  predicate Divides(pe: PeFile, headerSize: nat, execSize: nat, kernelSize: nat) {
    |pe.table| == 4 && pe.table[1].offset == headerSize + execSize && pe.table[2].offset == headerSize + kernelSize
  }

  /** The EFI branch of generate_image: header, core and table copied to their places. What lies between
      the core and the table is left as it is. */
  method AssemblePe(header: seq<byte>, core: array<byte>, execSize: nat, kernelSize: nat, reloc: seq<byte>, align: nat)
    returns (pe: PeFile)
    requires align > 0 && execSize <= kernelSize <= core.Length
    ensures Tiles(pe, |header|)
    ensures Divides(pe, |header|, execSize, kernelSize)
    ensures pe.relocRva == AlignUp(|header| + core.Length, align) && pe.relocSize == |reloc|
    ensures |header| + core.Length <= pe.relocRva < |header| + core.Length + align && pe.relocRva % align == 0
    ensures |header| + core.Length <= pe.relocRva && pe.relocRva + pe.relocSize == |pe.bytes|
    ensures pe.bytes[..|header|] == header && pe.bytes[|header|..|header| + core.Length] == core[..]
    ensures pe.bytes[pe.relocRva..pe.relocRva + pe.relocSize] == reloc
    ensures pe.imageSize == AlignUp(|pe.bytes|, align)
    ensures pe.imageSize == |pe.bytes| <==> Multiple(|reloc|, align)
  {
    hide AlignUp, Multiple, Splice;
    var headerSize, coreSize := |header|, core.Length;
    var relocAddr := AlignUp(headerSize + coreSize, align);
    var img := new byte[relocAddr + |reloc|];
    Store(img, 0, header);
    ghost var a := img[..];
    Store(img, headerSize, core[..]);
    ghost var b := img[..];
    Store(img, relocAddr, reloc);
    ThreeParts(a, header, core[..], relocAddr, reloc, b, img[..]);
    var imageSize := AlignUp(relocAddr + |reloc|, align);
    ExactlyAligned(headerSize + coreSize, |reloc|, align);
    AlignedBehind(headerSize + coreSize, align);
    pe := PeFile(img[..], imageSize,
                 [SectionHeader(headerSize, execSize, headerSize, execSize),
                  SectionHeader(headerSize + execSize, kernelSize - execSize, headerSize + execSize, kernelSize - execSize),
                  SectionHeader(headerSize + kernelSize, relocAddr - kernelSize - headerSize,
                                headerSize + kernelSize, relocAddr - kernelSize - headerSize),
                  SectionHeader(relocAddr, |reloc|, relocAddr, |reloc|)],
                 relocAddr, |reloc|);
  }

  /** Three runs of bytes stored one behind the other, the first already there. */
  lemma ThreeParts(a: seq<byte>, header: seq<byte>, core: seq<byte>, relocAddr: nat, reloc: seq<byte>, b: seq<byte>, c: seq<byte>)
    requires |header| + |core| <= relocAddr && relocAddr + |reloc| == |a|
    requires a[..|header|] == header && b == Splice(a, |header|, core) && c == Splice(b, relocAddr, reloc)
    ensures c[..|header|] == header && c[|header|..|header| + |core|] == core && c[relocAddr..relocAddr + |reloc|] == reloc
  {
    assert forall i :: 0 <= i < |header| ==> c[i] == a[i] == header[i];
  }

  lemma AlignedBehind(x: nat, align: nat)
    requires align > 0
    ensures x <= AlignUp(x, align) < x + align && AlignUp(x, align) % align == 0
  {
    AlignUpMultiple(x, align);
  }

  /** Behind an aligned address, only a size that is a multiple needs no padding. */
  lemma ExactlyAligned(x: nat, n: nat, align: nat)
    requires align > 0
    ensures var at := AlignUp(x, align); AlignUp(at + n, align) == at + n <==> Multiple(n, align)
  {
    var at := AlignUp(x, align);
    AlignUpMultiple(x, align);
    var q := at / align;
    assert at == align * q;
    var k, r := n / align, n % align;
    assert n == align * k + r;
    assert at + n == align * (q + k) + r;
    ModUnique(at + n, align, q + k, r);
  }

  // ----- the kernel, and what is behind it -----

  /** The copy loop does nothing behind the last section. */
  lemma {:induction false} CopyPrefix(init: seq<byte>, kernel: seq<byte>, sections: seq<Section>, addrs: seq<nat>, n: nat, k: nat)
    requires n <= |sections| && InFile(kernel, sections) && Fits(sections, addrs, k) && k <= |init|
    ensures Fits(sections, addrs, |init|)
    ensures CopyAll(init, kernel, sections, addrs, n) == CopyAll(init[..k], kernel, sections, addrs, n) + init[k..]
  {
    hide SectionBytes;
    if n == 0 {
      assert init == init[..k] + init[k..];
    } else {
      CopyPrefix(init, kernel, sections, addrs, n - 1, k);
      var s := sections[n - 1];
      if s.alloc {
        SpliceInFront(CopyAll(init[..k], kernel, sections, addrs, n - 1), init[k..], addrs[n - 1], SectionBytes(kernel, s));
      }
    }
  }

  lemma SpliceInFront(a: seq<byte>, b: seq<byte>, pos: nat, f: seq<byte>)
    requires pos + |f| <= |a|
    ensures Splice(a + b, pos, f) == Splice(a, pos, f) + b
  {
  }

  lemma LinkedPrefix(buffer: seq<byte>, file: seq<byte>, sections: seq<Section>, syms: seq<Symbol>, t: Target, base: nat)
    requires Readable(file, sections, |syms|, t) && SizeOfKernel(sections, t) <= |buffer|
    ensures var k := SizeOfKernel(sections, t);
            LinkedAt(buffer, file, sections, syms, t, base)[..k] == LinkedAt(buffer[..k], file, sections, syms, t, base)
  {
    var k := SizeOfKernel(sections, t);
    LayoutFitsAndApart(sections, t, Addresses(sections, t), k);
    CopyPrefix(buffer, RelocatedAt(file, sections, syms, t, base), sections, Addresses(sections, t), |sections|, k);
  }

  // ----- loading -----

  lemma {:induction false} ApplyBeforeTail(a: seq<byte>, tail: seq<byte>, fixups: seq<Fixup>, base: nat)
    requires FixupsInside(fixups, |a|)
    ensures FixupsInside(fixups, |a + tail|)
    ensures ApplyFixups(a + tail, fixups, base) == ApplyFixups(a, fixups, base) + tail
  {
    hide AddAt;
    if |fixups| > 0 {
      var front, f := fixups[..|fixups| - 1], fixups[|fixups| - 1];
      ApplyBeforeTail(a, tail, front, base);
      AddInFront(ApplyFixups(a, front, base), tail, f.addr, FixupWidth(f.kind), base);
    }
  }

  lemma AddInFront(a: seq<byte>, tail: seq<byte>, pos: nat, w: nat, d: int)
    requires pos + w <= |a|
    ensures AddAt(a + tail, pos, w, d) == AddAt(a, pos, w, d) + tail
  {
    hide ToLE, FromLE;
    assert (a + tail)[pos..pos + w] == a[pos..pos + w];
    SpliceInFront(a, tail, pos, ToLE(FromLE(Field(a, pos, w)) + d, w));
  }

  /** What the loader does with the file: put it at base as it is, find the table where the header says,
      and add base at every fixup. */
  function LoadedAt(pe: PeFile, base: nat): Option<seq<byte>> {
    if pe.relocRva + pe.relocSize > |pe.bytes| then None
    else
      var fixups := Decode(pe.bytes[pe.relocRva..pe.relocRva + pe.relocSize]);
      if fixups.None? || !FixupsInside(fixups.value, |pe.bytes|) then None
      else Some(ApplyFixups(pe.bytes, fixups.value, base))
  }

  /** A file with the kernel linked at 0 behind its header loads, at any base, as the same file with the
      kernel linked there. */
  lemma LoadsAsLinked(pe: PeFile, header: seq<byte>, kernelBuffer: seq<byte>, file: seq<byte>, sections: seq<Section>, syms: seq<Symbol>,
                      t: Target, base: nat)
    requires Movable(header, kernelBuffer, file, sections, syms, t) && Accepted(sections, syms, t)
    requires pe.relocRva + pe.relocSize <= |pe.bytes| && |header| + |kernelBuffer| <= |pe.bytes|
    requires pe.bytes[..|header|] == header
    requires pe.bytes[|header|..|header| + |kernelBuffer|] == LinkedAt(kernelBuffer, file, sections, syms, t, 0)
    requires Decode(pe.bytes[pe.relocRva..pe.relocRva + pe.relocSize])
               == Some(Truncated(FixupsOf(AllSites(sections), VirtualAddresses(sections, t), t.machine)))
    ensures LoadedAt(pe, base)
         == Some(header + LinkedAt(kernelBuffer, file, sections, syms, t, base) + pe.bytes[|header| + |kernelBuffer|..])
  {
    hide Readable, Rebasable, HitSections, FileRangesApart, Accepted, LinkedAt, Decode, Truncated, FixupsOf, FixupsInside, ApplyFixups;
    var h, k := |header|, |kernelBuffer|;
    var reloc := pe.bytes[pe.relocRva..pe.relocRva + pe.relocSize];
    var front, tail := header + LinkedAt(kernelBuffer, file, sections, syms, t, 0), pe.bytes[h + k..];
    LoaderRebuildsImage(header, kernelBuffer, file, sections, syms, t, reloc, base);
    Halves(pe.bytes, h, k);
    ApplyBeforeTail(front, tail, Decode(reloc).value, base);
  }

  lemma Halves(s: seq<byte>, h: nat, k: nat)
    requires h + k <= |s|
    ensures s == s[..h] + s[h..h + k] + s[h + k..]
  {
  }

  // ----- the whole tool -----

  function PlatformOf(t: Target): Pack.Platform { Pack.Platform(if t.machine.I386? then 4 else 8, false) }

  lemma {:induction false} PlacedBehind(image: seq<byte>, pos: nat, items: seq<Pack.Item>, t: Pack.Platform, k: nat)
    requires Pack.AllFit(items) && pos + Pack.Room(items) <= |image| && k <= pos
    ensures Pack.PlaceAll(image, pos, items, t)[..k] == image[..k]
    decreases |items|
  {
    hide Pack.Header;
    if |items| > 0 {
      PlacedBehind(image, pos, items[..|items| - 1], t, k);
    }
  }

  lemma PackedBehindKernel(image: seq<byte>, k: nat, p: Pack.Parts, t: Pack.Platform)
    requires Pack.Supported(t) && Pack.AllFit(Pack.Items(p, t)) && k + Pack.InfoSize(t) + Pack.Room(Pack.Items(p, t)) <= |image|
    ensures Pack.Packed(image, k, p, t, false)[..k] == image[..k]
  {
    hide Pack.Items, Pack.AllFit, Pack.Room, Pack.Info, Pack.PlaceAll;
    var informed := Splice(image, k, Pack.Info(Pack.InfoSize(t) + Pack.Room(Pack.Items(p, t)), t));
    assert informed[..k] == image[..k];
    PlacedBehind(informed, k + Pack.InfoSize(t), Pack.Items(p, t), t, k);
  }

  /** The kernel at 0 with the modules behind it. */
  ghost predicate CoreOf(core: seq<byte>, buffer: seq<byte>, file: seq<byte>, sections: seq<Section>, syms: seq<Symbol>, t: Target, p: Pack.Parts)
    requires Readable(file, sections, |syms|, t)
  {
    && |buffer| == SizeOfKernel(sections, t) <= |core|
    && core[..|buffer|] == LinkedAt(buffer, file, sections, syms, t, 0)
    && exists was :: PackedFrom(core, was, |buffer|, p, PlatformOf(t))
  }

  ghost predicate PackedFrom(core: seq<byte>, was: seq<byte>, k: nat, p: Pack.Parts, t: Pack.Platform) {
    && Pack.Supported(t) && Pack.AllFit(Pack.Items(p, t)) && k + Pack.InfoSize(t) + Pack.Room(Pack.Items(p, t)) <= |was|
    && core == Pack.Packed(was, k, p, t, false)
  }

  /** Linking the kernel, then packing the modules behind it. */
  method LinkAndPack(kernel: array<byte>, sections: seq<Section>, symtab: array<Symbol>, t: Target, p: Pack.Parts)
    returns (r: Result<Loaded, Error>, out: array<byte>, ghost buffer: seq<byte>)
    requires Readable(kernel[..], sections, symtab.Length, t)
    modifies kernel, symtab
    ensures r.Ok? <==> Accepted(sections, old(symtab[..]), t)
    ensures r.Ok? ==>
              && r.value.execSize == SizeOfText(sections, t) && r.value.kernelSize == SizeOfKernel(sections, t) <= out.Length
              && Decode(r.value.reloc) == Some(Truncated(FixupsOf(AllSites(sections), VirtualAddresses(sections, t), t.machine)))
              && Multiple(|r.value.reloc|, t.sectionAlign)
    ensures r.Ok? ==> CoreOf(out[..], buffer, old(kernel[..]), sections, old(symtab[..]), t, p)
  {
    hide LinkedAt, Accepted, Readable, Decode, Truncated, FixupsOf, AllSites, VirtualAddresses, Multiple, Pack.Items, Pack.Room, Pack.AllFit, Pack.Packed,
         SizeOfText, SizeOfKernel;
    ghost var file, syms := kernel[..], symtab[..];
    var total := Pack.TotalModuleSize(p, PlatformOf(t));
    r, out, buffer := LoadImage.LoadImage(kernel, sections, symtab, t, total);
    if r.Err? {
      return;
    }
    ghost var k, was := SizeOfKernel(sections, t), out[..];
    LinkedPrefix(buffer, file, sections, syms, t, 0);
    buffer := buffer[..k];
    var end, size := Pack.PackModules(out, r.value.kernelSize, p, PlatformOf(t), false);
    PackedBehindKernel(was, k, p, PlatformOf(t));
    assert PackedFrom(out[..], was, k, p, PlatformOf(t));
  }

  /** The headers of the entries and the info structure can express the sizes of the parts. */
  predicate SizesFit(p: Pack.Parts, t: Pack.Platform) {
    Pack.Supported(t) && Walk.Expressible(Pack.Items(p, t)) && Pack.InfoSize(t) + Pack.Room(Pack.Items(p, t)) < Modulus(t.addr)
  }

  /** The kernel in memory finds its modules behind itself. */
  lemma ModulesInMemory(core: seq<byte>, buffer: seq<byte>, file: seq<byte>, sections: seq<Section>, syms: seq<Symbol>, t: Target,
                        p: Pack.Parts, bytes: seq<byte>, header: seq<byte>, linked: seq<byte>)
    requires Readable(file, sections, |syms|, t) && CoreOf(core, buffer, file, sections, syms, t, p) && SizesFit(p, PlatformOf(t))
    requires |header| + |core| <= |bytes| && bytes[|header|..|header| + |core|] == core && |linked| == |buffer|
    ensures Walk.ModulesVisible(header + linked + bytes[|header| + |buffer|..], |header| + |buffer|, p, PlatformOf(t))
  {
    hide Readable, LinkedAt, SizeOfKernel, SizesFit, Pack.Packed, Pack.Items, Pack.Room, Pack.AllFit, Walk.ModulesVisible, Walk.Expressible;
    var was :| PackedFrom(core, was, |buffer|, p, PlatformOf(t));
    var mem := header + linked + bytes[|header| + |buffer|..];
    TailInMemory(core, |buffer|, bytes, header, linked, mem);
    MayBePacked(core, was, |buffer|, p, PlatformOf(t));
    Walk.AreaIsVisible(was, |buffer|, p, PlatformOf(t), mem, |header|);
  }

  lemma TailInMemory(core: seq<byte>, k: nat, bytes: seq<byte>, header: seq<byte>, linked: seq<byte>, mem: seq<byte>)
    requires k <= |core| && |header| + |core| <= |bytes| && bytes[|header|..|header| + |core|] == core && |linked| == k
    requires mem == header + linked + bytes[|header| + k..]
    ensures |mem| == |bytes| && mem[|header| + k..|header| + |core|] == core[k..]
  {
    assert bytes[|header|..|header| + |core|][k..] == bytes[|header| + k..|header| + |core|];
    assert mem[|header| + k..] == bytes[|header| + k..];
    assert mem[|header| + k..|header| + |core|] == mem[|header| + k..][..|core| - k];
  }

  lemma MayBePacked(core: seq<byte>, was: seq<byte>, k: nat, p: Pack.Parts, t: Pack.Platform)
    requires PackedFrom(core, was, k, p, t) && SizesFit(p, t)
    ensures Walk.Packable(was, k, p, t) && |core| == |was| && core == Pack.Packed(was, k, p, t, false)
  {
    hide Pack.Packed, Pack.Items, Pack.Room, Pack.AllFit, Walk.Expressible;
  }

  /** From the kernel's object file and the modules to the EFI image, and on to memory: the file's sections
      tile it, its size is the size the header gives, and a loader at any base ends up with the kernel
      linked at that base and, behind it, the modules for the kernel to find. */
  method MakeEfiImage(kernel: array<byte>, sections: seq<Section>, symtab: array<Symbol>, t: Target, p: Pack.Parts, header: seq<byte>)
    returns (r: Result<PeFile, Error>, ghost buffer: seq<byte>, ghost core: seq<byte>)
    requires Readable(kernel[..], sections, symtab.Length, t) && |header| == t.vaddrOffset
    modifies kernel, symtab
    ensures r.Ok? <==> Accepted(sections, old(symtab[..]), t)
    ensures r.Ok? <==> Buildable(sections, old(symtab[..]), t)
    ensures r.Ok? ==> Tiles(r.value, |header|) && r.value.imageSize == |r.value.bytes|
    ensures r.Ok? ==> Divides(r.value, |header|, SizeOfText(sections, t), SizeOfKernel(sections, t))
    ensures r.Ok? ==>
              && r.value.relocRva + r.value.relocSize <= |r.value.bytes|
              && Decode(r.value.bytes[r.value.relocRva..r.value.relocRva + r.value.relocSize]) == Some(Table(sections, t))
    ensures r.Ok? ==>
              && CoreOf(core, buffer, old(kernel[..]), sections, old(symtab[..]), t, p)
              && |header| + |core| <= |r.value.bytes| && r.value.bytes[|header|..|header| + |core|] == core
    ensures r.Ok? && Movable(header, buffer, old(kernel[..]), sections, old(symtab[..]), t) ==>
              forall base: nat :: LoadedAt(r.value, base)
                == Some(header + LinkedAt(buffer, old(kernel[..]), sections, old(symtab[..]), t, base) + r.value.bytes[|header| + |buffer|..])
    ensures r.Ok? && Movable(header, buffer, old(kernel[..]), sections, old(symtab[..]), t)
              && Disjoint(AllSites(sections), sections, t.machine) ==>
              forall base: nat :: LoadedAt(r.value, base).Some?
                                  && FieldsMean(LoadedAt(r.value, base).value, old(kernel[..]), sections, old(symtab[..]), t, base)
    ensures r.Ok? && Movable(header, buffer, old(kernel[..]), sections, old(symtab[..]), t) && SizesFit(p, PlatformOf(t)) ==>
              forall base: nat :: LoadedAt(r.value, base).Some?
                                  && Walk.ModulesVisible(LoadedAt(r.value, base).value, |header| + SizeOfKernel(sections, t), p, PlatformOf(t))
                                  && Area.AreaMeans(LoadedAt(r.value, base).value, |header| + SizeOfKernel(sections, t), p, PlatformOf(t))
  {
    hide LinkedAt, Accepted, Readable, Decode, Truncated, FixupsOf, AllSites, VirtualAddresses, Multiple, SizeOfText, SizeOfKernel, PackedFrom,
         Movable, LoadedAt, Tiles, Divides, AlignUp, Walk.ModulesVisible, Area.AreaMeans, SizesFit, Disjoint, AllAcceptable, FieldsMean, Buildable, Table;
    ghost var file, syms := kernel[..], symtab[..];
    ReadableAligns(file, sections, |syms|, t);
    AcceptedExactly(sections, syms, t);
    TableIs(sections, t);
    var loaded, out, b := LinkAndPack(kernel, sections, symtab, t, p);
    buffer, core := b, [];
    if loaded.Err? {
      return Err(loaded.error), buffer, core;
    }
    core := out[..];
    SizesOrdered(file, sections, |syms|, t);
    var pe := AssemblePe(header, out, loaded.value.execSize, loaded.value.kernelSize, loaded.value.reloc, t.sectionAlign);
    r := Ok(pe);
    if Movable(header, buffer, file, sections, syms, t) {
      KernelInFile(pe.bytes, |header|, core, |buffer|);
      forall base: nat
        ensures LoadedAt(pe, base) == Some(header + LinkedAt(buffer, file, sections, syms, t, base) + pe.bytes[|header| + |buffer|..])
      {
        LoadsAsLinked(pe, header, buffer, file, sections, syms, t, base);
      }
      if Disjoint(AllSites(sections), sections, t.machine) {
        AcceptedMeans(file, sections, syms, t);
        forall base: nat
          ensures LoadedAt(pe, base).Some? && FieldsMean(LoadedAt(pe, base).value, file, sections, syms, t, base)
        {
          MovableMeans(header, buffer, file, sections, syms, t, base, pe.bytes[|header| + |buffer|..]);
        }
      }
      if SizesFit(p, PlatformOf(t)) {
        forall base: nat
          ensures LoadedAt(pe, base).Some?
                  && Walk.ModulesVisible(LoadedAt(pe, base).value, |header| + SizeOfKernel(sections, t), p, PlatformOf(t))
                  && Area.AreaMeans(LoadedAt(pe, base).value, |header| + SizeOfKernel(sections, t), p, PlatformOf(t))
        {
          ModulesInMemory(core, buffer, file, sections, syms, t, p, pe.bytes, header, LinkedAt(buffer, file, sections, syms, t, base));
          Area.VisibleIsMeant(LoadedAt(pe, base).value, |header| + SizeOfKernel(sections, t), p, PlatformOf(t));
        }
      }
    }
  }

  lemma ReadableAligns(file: seq<byte>, sections: seq<Section>, n: nat, t: Target)
    requires Readable(file, sections, n, t)
    ensures t.sectionAlign > 0 && TargetsKnown(AllSites(sections), |sections|)
  {
    hide Classify, Width;
  }

  lemma AcceptedMeans(file: seq<byte>, sections: seq<Section>, syms: seq<Symbol>, t: Target)
    requires Readable(file, sections, |syms|, t) && Accepted(sections, syms, t)
    ensures AllAcceptable(syms, |sections|)
  {
  }

  lemma MovableMeans(header: seq<byte>, buffer: seq<byte>, file: seq<byte>, sections: seq<Section>, syms: seq<Symbol>, t: Target,
                     base: nat, tail: seq<byte>)
    requires Movable(header, buffer, file, sections, syms, t)
    requires Disjoint(AllSites(sections), sections, t.machine) && AllAcceptable(syms, |sections|)
    ensures FieldsMean(header + LinkedAt(buffer, file, sections, syms, t, base) + tail, file, sections, syms, t, base)
  {
    hide LinkedAt, FieldsMean, Disjoint, AllAcceptable, Readable, SizeOfKernel, HitSections, Rebasable, FileRangesApart, AllSites;
    ImageMeans(header, LinkedAt(buffer, file, sections, syms, t, base), tail, buffer, file, sections, syms, t, base);
  }

  lemma SizesOrdered(file: seq<byte>, sections: seq<Section>, n: nat, t: Target)
    requires Readable(file, sections, n, t)
    ensures t.sectionAlign > 0 && SizeOfText(sections, t) <= SizeOfKernel(sections, t)
  {
  }

  lemma KernelInFile(s: seq<byte>, h: nat, core: seq<byte>, k: nat)
    requires h + |core| <= |s| && k <= |core| && s[h..h + |core|] == core
    ensures s[h..h + k] == core[..k]
  {
    assert s[h..h + |core|][..k] == s[h..h + k];
  }
}
