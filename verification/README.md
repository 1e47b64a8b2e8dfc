# Image building and rule compiling, verified

A Dafny model of the algorithms behind GRUB's image-building tools and the CML2 rule compiler, with the
theorems that say what those algorithms are for.

* **The EFI image.** `ElfLayout`, `ElfRelocate`, `FixupTable`, `LoadImage` follow the kernel's object file
  through section layout, symbol and field relocation at base 0 and the paged fixup table; `ModulePack` puts
  the modules behind the kernel, `PeImage` builds the PE file. `Rebase`, `PeLoader` and `PeImage` prove what
  all of it is for: a loader that maps the file at any base, decodes the table and adds its base at every
  fixup has in memory, byte for byte, the kernel linked at that base. `ModuleWalk` proves what the kernel
  then finds behind itself, at every base. `ElfMeaning`, `ImageMeaning`, `ImageAccept` and `AreaMeaning` say the same
  in numbers: the value of each field, the records that make a kernel acceptable, the entries of the area.
  `SmallestKernel` shows a kernel that meets every condition of the
  theorem, `HugeKernel` one that is accepted although it does not.
* **The font.** `GlyphBitmap` and `GlyphPicture` take a glyph from the rasteriser's bitmap through crop and
  bit packing to the printed picture; `GlyphSort`, `Pf2Font`, `Pf2Loader`, `FontLookup` and `FontPipeline` take
  the list of glyphs through the two counting passes and the PF2 writer to what the boot loader's own reader
  (`grub-core/font/font.c`) accepts, looks up and gets back; `FontFormat` has the file byte by byte. `FontScreen` joins the two: what the boot loader
  draws under a code is the rasteriser's bitmap.
* **Modules and blocklists.** `Resolve` is the depth-first dependency resolver over linked lists with the
  reversal in place; `Blocklist` the run-length encoder that fills the boot sector downward and its read-back.
* **The object converter.** `Pe2Elf`, `ObjectLink`, `ObjectAccept` and `ObjectWriter` translate a PE/COFF
  object into an ELF one; the theorem is that linking the result is linking the original, for every placement.
  `ObjectMeaning` spells out names, numbers and linked words.
* **The rule compiler.** `CmlParse` (ten-level parser against the printer), `CmlGrouping` (which operator binds
  tighter), `CmlEval`, `CmlMeaning` and `CmlIndex` (evaluation, what its operators mean, and the constraint index),
  `CmlDeduce` (type deduction), `CmlTyping` (deduced types against values).
* **Smaller state machines.** `TreeNav` and `TreeExpand` (tree browser), `MountChain` (visible mounts),
  `SpkModem` (sliding-window demodulator).

`Words`, `Outcomes` and `Pigeonhole` hold the common ground: little- and big-endian fields, wrap-around
addition to a field, results, distinct numbers.

Relocation formulas are those of chapter 4 of the System V ABI i386 supplement and section 4.4.1 of the AMD64
psABI; base-relocation blocks those of section 6.6 of the Microsoft PE/COFF Specification, Revision 8.

Conventions. Errors that end the tool are `Err` values. Words are unbounded numbers except where a field of
fixed width is stored or read, where the reduction is written out. Object files, fonts and mount tables enter
as parsed records plus the bytes that are patched or copied. Allocated memory has arbitrary contents.

Where the code falls short of what it is meant to do, the model keeps the code and proves exactly when it does
meet the intent:

* a run of 65536 consecutive sectors wraps its 16-bit length (`Blocklist.BlocklistRoundTrip`); the limit on the
  size of the core image rules that out (`Blocklist.SizeLimitSuffices`);
* a key's header has the unpadded size, so stepping by raw sizes works only for aligned keys
  (`ModuleWalk.RawWalkExactlyWhenKeysAligned`), while the loader's own walk, which rounds up, always works;
* fixup addresses are 32-bit: the table tells where the fields are if and only if each of them is below 4 GiB
  (`FixupTable.TableIsFaithfulExactly`), which a layout within 4 GiB guarantees
  (`PeLoader.TableIsFaithfulBelow4G`); a larger one may break it (`HugeKernel.TableLies`);
* the macro that aligns rounds up if and only if the alignment is a power of two (`ElfLayout.MaskRoundsUp`);
* rebasing fails for absolute symbols (`Rebase.RebasesExactlyWhenSectionDefined`);
* the converter gives a weak external the name of section 0, which is empty (`ObjectMeaning.NameKeptExactly`);
* the lexer has no token for `not`, so a printed negation is not read back (`CmlParse.ParseUndoesPrint`,
  `CmlParse.NegationIsLost`);
* type deduction passes over long constants, negations and choices with a compound first side; a derivation stays
  untyped if and only if its references run in a circle or end at one of those, at a missing definition or at
  an unknown symbol (`CmlDeduce.UntypedExactly`);
* a symbol can have a value that is not of its deduced type (`CmlTyping.FalseSideShows`): evaluation follows its
  references to a definition that is none, to a choice whose guard fails, or to a symbol with a type of its own,
  and the value fits if and only if what stands there can be made into the type (`CmlTyping.DeducedTypeFits`);
* redrawing the tree opens a closed root (`TreeExpand.Redraw`) and the folder under the cursor
  (`TreeExpand.UpdateTree`);
* the padding that closes the fixup table stays in the room of the last block if and only if there is a section
  boundary in the rest of that room (`FixupTable.PaddingFits`);
* the boot loader accepts a compiled font if and only if it has a glyph, no two glyphs share a code and no metric is
  stored as zero (`FontPipeline.CompileFont`); with metrics that fit their fields the last means that some glyph
  has a set pixel (`FontScreen.MakeFont`);
* the loader takes a present code for missing if and only if it is 0xFFFF and the font has all codes below
  (`FontLookup.ShadowedExactly`), and its binary search leaves the index if and only if the code is at least
  0x10000 and below all of the font's (`FontLookup.BinarySearch`, `FontPipeline.CompileFont`).

## Model

| member | source | states |
|---|---|---|
| ElfLayout.LocateSections | sources/bootloader/util/grub-mkimagexx.c:714-793 | text from 0 on and data behind it: every section is at the first aligned address behind the one before it, a group ends at the first section boundary behind its last section, and the largest alignment is right |
| ElfLayout.SectionInRange | sources/bootloader/util/grub-mkimagexx.c:740-790 | for every section table, text sections lie in [0, exec_size), data sections in [exec_size, kernel_sz), each aligned once the header is added |
| ElfLayout.SectionsApart | sources/bootloader/util/grub-mkimagexx.c:740-790 | any two allocated sections share no byte, and within a group they keep file order |
| ElfLayout.MaskRoundsUp | sources/bootloader/include/grub/misc.h:45-46 | adding a - 1 and clearing the bits of a - 1 rounds every address up if and only if a is a power of two; otherwise address 1 already goes wrong |
| ElfLayout.CopySections | sources/bootloader/util/grub-mkimagexx.c:964-977 | the copy loop leaves exactly the image described by the pure copy of all allocated sections |
| ElfLayout.CopiedByte | sources/bootloader/util/grub-mkimagexx.c:964-977 | byte by byte, a copied section holds its own byte and every other place what it held before |
| ElfLayout.SectionReadsBack | sources/bootloader/util/grub-mkimagexx.c:964-977 | after layout and copy every allocated section reads back intact at its address, zeros for NOBITS |
| ElfRelocate.RelocateSymbols | sources/bootloader/util/grub-mkimagexx.c:63-136 | each symbol but the absolute and the nameless null ones becomes section address plus value in 32 or 64 bits; fails exactly for a named undefined symbol or a missing section, with the first one's error; the start address is the first nonzero one of a symbol called _start or start |
| ElfRelocate.RelocateAddresses | sources/bootloader/util/grub-mkimagexx.c:189-318 | the bytes patched in place are those of applying every relocation's formula in order; fails exactly for a relocation that is not implemented |
| ElfMeaning.FieldLinked | sources/bootloader/util/grub-mkimagexx.c:248-318 | what that leaves in a field that shares no byte with another: R_386_32 and R_X86_64_64, 32 and 32S give the old value plus addend plus symbol, the PC-relative numbers the same minus the place, each in the width of the field |
| ImageMeaning.ImageMeans | sources/bootloader/util/grub-mkimagexx.c:795-983 | in memory at any base every relocated field of the image has the value its record asks for: old value plus addend plus the symbol where it now is, minus the place of the field where it now is if the number is PC-relative |
| ElfRelocate.NextSite | sources/bootloader/util/grub-mkimagexx.c:206-241 | the nested loops visit the relocations in the order of the list over which both passes are specified |
| Rebase.RebasePreservesMeaning | sources/bootloader/util/grub-mkimagexx.c:239-318 | relocating at 0 and then adding base at every absolute field gives the bytes of relocating with everything moved by base, for fields that do not partly overlap |
| Rebase.ShiftedDelta | sources/bootloader/util/grub-mkimagexx.c:248-318 | moving all sections by base moves an absolute field's value by base and a PC-relative one's by nothing, modulo its width |
| Rebase.RebasesExactlyWhenSectionDefined | sources/bootloader/util/grub-mkimagexx.c:99-115 | for one relocation the law holds for all bases if and only if an absolute field names a section-defined symbol |
| FixupTable.FixupWriter.AddFixupEntry | sources/bootloader/util/grub-mkimagexx.c:421-512 | each call appends one fixup to what the chained blocks decode to, or with flush closes the table on a section boundary; fails exactly when the page block is full |
| FixupTable.FixupWriter.CloseBlock | sources/bootloader/util/grub-mkimagexx.c:435-477 | closing a block pads it with entries that no decoder sees, to 8 bytes or to the section boundary, and it stays in the room allocated if and only if it is not the last or there is a section boundary in the rest of the room |
| FixupTable.DecodesAll | sources/bootloader/util/grub-mkimagexx.c:652-664 | a loader that walks the concatenated blocks by their sizes and skips kind 0 reads every block's entries in order |
| FixupTable.TableFormat | sources/bootloader/util/grub-mkimagexx.c:421-512 | the decoder, byte by byte: page, size, and 16-bit entries of 4 bits of kind over 12 of distance, least significant byte first |
| FixupTable.MakeRelocSection | sources/bootloader/util/grub-mkimagexx.c:514-667 | the table decodes to exactly the fixups of the absolute relocations in order, its size is a multiple of section_align, and it is refused exactly for a 32-bit absolute relocation on x86-64 or an overfull page block |
| FixupTable.PaddingFits | sources/bootloader/util/grub-mkimagexx.c:435-482 | padding to 8 bytes always fits the 2 * 0x1000 bytes set aside for entries; padding to a section boundary fits if and only if there is one in the rest of them |
| FixupTable.SpreadFixupsFit | sources/bootloader/util/grub-mkimagexx.c:499-502 | fixups of fields that share no byte never meet the limit on a block, padding included |
| FixupTable.TableIsFaithfulExactly | sources/bootloader/util/grub-mkimagexx.c:491-508 | for every list of relocations, every placement and both machines, the decoded fixups are the true places of the fields if and only if each field that needs one is below 2^32 |
| LoadImage.Resolve | sources/bootloader/util/grub-mkimagexx.c:929-962 | symbols, addresses and table in sequence succeed exactly on the accepted objects, and then leave the bytes relocated at 0 and a table of their fixups |
| LoadImage.LoadImage | sources/bootloader/util/grub-mkimagexx.c:795-983 | an image comes out exactly for accepted objects, and it is the object linked at 0 with its sizes, start address and table |
| ImageAccept.AcceptedExactly | sources/bootloader/util/grub-mkimagexx.c:514-600 | the passes succeed if and only if there is a symbol table, every symbol resolves, a start symbol ends up away from 0, every relocation is of number 0, 1 or 2, and no 0x1001 fixups in a row share a page |
| ImageAccept.TableIs | sources/bootloader/util/grub-mkimagexx.c:552-600 | the fixups are, in the order of the records, one of kind 3 on i386 or 10 on x86-64 for each relocation of number 1, at section address plus offset with the header in front |
| PeLoader.FixupForAbsoluteOnly | sources/bootloader/util/grub-mkimagexx.c:562-599 | an absolute relocation has exactly one fixup, of its own width, and every other one none |
| PeLoader.TableIsFaithfulBelow4G | sources/bootloader/util/grub-mkimagexx.c:714-793 | when header and laid-out kernel end within 2^32, the decoded fixups are the true places of the fields and lie inside the image |
| PeLoader.PatchThenCopy | sources/bootloader/util/grub-mkimagexx.c:964-977 | patching a section's bytes and then copying is copying and then patching the image |
| PeLoader.LoaderFollowsFile | sources/bootloader/util/grub-mkimagexx.c:552-600 | the loader's additions in the image are the rebasing additions to the section bytes, seen through the copy |
| PeLoader.LoaderRebuildsImage | sources/bootloader/util/grub-mkimagexx.c:795-983 | linking at 0, decoding the emitted table and adding base at every fixup gives, byte for byte, the image linked at base |
| SmallestKernel.IsMovable | sources/bootloader/util/grub-mkimagexx.c:795-983 | the conditions of that theorem can be met: a kernel of one word that holds its own start address meets them |
| SmallestKernel.IsAccepted | sources/bootloader/util/grub-mkimagexx.c:514-600 | that kernel is accepted and needs exactly one fixup, of kind HIGHLOW, at its word behind the header |
| HugeKernel.TableLies | sources/bootloader/util/grub-mkimagexx.c:491-508 | 4 GiB of zeroed memory in front of a relocated word: the kernel is accepted, and its only fixup names the first zeroed byte instead of the word |
| ModulePack.TotalModuleSize | sources/bootloader/util/grub-mkimage.c:768-810 | the sizing pass, in its own order, adds up to the info structure and the room of every entry |
| ModulePack.PutParts | sources/bootloader/util/grub-mkimage.c:876-948 | the writing pass writes every entry behind the one before and ends exactly where the sizing pass said |
| ModulePack.PackModules | sources/bootloader/util/grub-mkimage.c:832-948 | the area behind or in front of the kernel ends at its start plus the computed total, with the kernel moved out of the way when it comes second |
| ModuleWalk.PlaceAllHolds | sources/bootloader/util/grub-mkimage.c:876-948 | every entry's type, claimed size and payload read back at its place and nothing outside the area changes |
| ModuleWalk.AreaReadsBack | sources/bootloader/util/grub-mkimage.c:832-948 | in the packed image the kernel is intact, the info structure gives the offset and size of the area, and every entry is intact |
| ModuleWalk.WalkIsUnique | sources/bootloader/include/grub/kernel.h:95-104 | headers determine one walk only, so the walks below are the walks |
| ModuleWalk.LoaderVisitsEveryEntry | sources/bootloader/include/grub/kernel.h:95-104 | the loader's rounded walk from the stored offset visits every entry in order and stops exactly at the stored size |
| ModuleWalk.AreaIsVisible | sources/bootloader/include/grub/kernel.h:95-104 | wherever the bytes behind the kernel end up in memory, info structure and entries read back there and the walk visits every header and stops at the stored size |
| AreaMeaning.AreaIsMeant | sources/bootloader/util/grub-mkimage.c:832-948 | an area that reads back, in numbers: magic, offset and size; then modules (type 0), keys (4), memdisk (1), configuration (2), prefix (3), each with its size, bytes, end and zero padding, rounded up to the address size or, for the memdisk, to 512 |
| ModuleWalk.RawWalkExactlyWhenKeysAligned | sources/bootloader/util/grub-mkimage.c:890-905 | stepping by the sizes in the headers does the same if and only if every key's size is a multiple of the address size |
| PeImage.AssemblePe | sources/bootloader/util/grub-mkimage.c:1132-1316 | header, core and table stand at their places, the table at the first aligned address behind the core; the four sections tile the file from the header to its end with equal file and memory addresses, data starting at the text size and modules at the kernel size; image_size is the file's size if and only if the table's size is a multiple of section_align |
| PeImage.LoadsAsLinked | sources/bootloader/util/grub-mkimage.c:1145-1156 | mapping the file at base and applying the table that its header points to yields the same file with the kernel linked at base |
| PeImage.MakeEfiImage | sources/bootloader/util/grub-mkimage.c:737-948 | the whole run from object file and modules to PE file: succeeds exactly on kernels that can be built, has the size its header says and a table of exactly the words' fixups, and for every base loads as the kernel linked there, each of its fields with the value its relocation asks for, with the modules behind it for the loader's walk to visit, each intact |
| GlyphSort.CountingPass | sources/bootloader/util/grub-mkfont.c:1237-1250 | one pass puts every glyph at the place a stable sort by half the code gives it; every scatter index is in range |
| GlyphSort.PlaceInjective | sources/bootloader/util/grub-mkfont.c:1249-1250 | no two glyphs of a pass are scattered to the same index |
| GlyphSort.SortGlyphs | sources/bootloader/util/grub-mkfont.c:1236-1264 | both passes together place the glyphs by a permutation that follows the full 32-bit code and keeps list order among equal codes |
| GlyphSort.SortedPermutation | sources/bootloader/util/grub-mkfont.c:1236-1264 | the result has the same glyphs as the list and ascending codes |
| Pf2Font.FontFile.WriteStringSection | sources/bootloader/util/grub-mkfont.c:669-684 | a string section is appended and the offset stays the position of the next byte |
| Pf2Font.FontFile.WriteBe16Section | sources/bootloader/util/grub-mkfont.c:686-700 | a 16-bit section is appended and the offset stays the position of the next byte |
| Pf2Font.FontFile.WriteFont | sources/bootloader/util/grub-mkfont.c:848-973 | the file written is header, index with offsets ahead of the data, data marker and glyphs |
| FontFormat.FileIsWritten | sources/bootloader/util/grub-mkfont.c:848-973 | the file byte by byte: ten sections with names, big-endian lengths and contents, with 1 for an ascent or descent that neither user nor glyphs give; the index of codes and offsets; DATA with 0xFFFFFFFF; and at each offset five 16-bit metrics and the bitmap, one glyph behind the other up to the end |
| Pf2Loader.FontLoads | sources/bootloader/grub-core/font/font.c:409-655 | the loader accepts the written font if and only if codes strictly ascend, there is one, and none of the stored maximum width, maximum height, ascent and descent is zero in 16 bits; it then holds name, size, weight and metrics as written, and every code with its offset |
| Pf2Loader.GlyphReadsBack | sources/bootloader/grub-core/font/font.c:719-794 | a glyph's bytes read back as the same metrics and bitmap |
| Pf2Loader.IndexIsExact | sources/bootloader/util/grub-mkfont.c:848-973 | for every font name and every list of glyphs, sorted or not, the index entry written for glyph i holds its code, and reading the file at the offset in it gives that glyph's metrics and bitmap |
| Pf2Loader.LoadedEntry | sources/bootloader/grub-core/font/font.c:310-353 | a loaded font has one entry per glyph, and entry i is the one that stands in the file for glyph i |
| FontLookup.LoadedInOrder | sources/bootloader/grub-core/font/font.c:272-356 | whatever file is accepted, its index is not empty and strictly ascends |
| FontLookup.BmpIndex | sources/bootloader/grub-core/font/font.c:301-335 | the table filled while the index is read holds the place of every code below 0x10000 and the mark 0xFFFF elsewhere |
| FontLookup.BinarySearch | sources/bootloader/grub-core/font/font.c:694-711 | with bounds that wrap below zero, the search finds a code of the index at its place, misses every other one above the first entry, and leaves the table exactly for one below it |
| FontLookup.FindGlyph | sources/bootloader/grub-core/font/font.c:677-712 | table and search together look every code up as described, for every ordered index |
| FontLookup.ShadowedExactly | sources/bootloader/grub-core/font/font.c:687-692 | a present code is taken for missing exactly when it is 0xFFFF and all codes below are present |
| FontPipeline.AscendingExactlyWhenDistinct | sources/bootloader/grub-core/font/font.c:320-340 | after the sort, codes ascend strictly if and only if no two glyphs share one |
| FontPipeline.CompileFont | sources/bootloader/util/grub-mkfont.c:1236-1275 | sorted, written and loaded: the file holds the glyphs in the order of their codes, byte by byte as the format has it; accepted if and only if codes are distinct, there is a glyph and no metric is stored as zero; then every glyph is found under its code, unchanged, but for code 0xFFFF in a full font, and every other code is missed, or leaves the table exactly when it is at least 0x10000 and below all codes |
| GlyphBitmap.Crop | sources/bootloader/util/grub-mkfont.c:173-226 | the box loses no set pixel and has one on each side, or is empty both ways for a blank glyph; without cutting it is everything |
| GlyphBitmap.PixelIs | sources/bootloader/util/grub-mkfont.c:256-260 | a pixel of the source bitmap is bit 7 - i mod 8 of byte i / 8 of its row |
| GlyphBitmap.CropIsMinimal | sources/bootloader/util/grub-mkfont.c:173-226 | every box that covers the glyph contains the cropped one |
| GlyphBitmap.AddPixel | sources/bootloader/util/grub-mkfont.c:105-119 | one call appends one bit, clearing the byte it begins and changing no other bit |
| GlyphBitmap.Pack | sources/bootloader/util/grub-mkfont.c:228-260 | the pixels of the box, row by row, fill exactly (w*h+7)/8 bytes, high bit first |
| GlyphPicture.CompileGlyph | sources/bootloader/util/grub-mkfont.c:173-260 | width, height, offsets and bitmap of the compiled glyph are those of the source bitmap cut by the chosen box |
| GlyphPicture.PrintGlyph | sources/bootloader/util/grub-mkfont.c:721-771 | the mask walk prints, at every place of the window, the cell that the glyph's bits and metrics call for |
| GlyphPicture.PictureShowsBitmap | sources/bootloader/util/grub-mkfont.c:721-771 | the printed picture has ink exactly where the rasteriser's bitmap has a set pixel, wherever it was cropped |
| FontScreen.FontBuilder.AddGlyph | sources/bootloader/util/grub-mkfont.c:121-260 | a glyph that cannot be loaded changes nothing; any other is compiled, put in front of the list and noted in the extremes |
| FontScreen.FontBuilder.AddGlyphs | sources/bootloader/util/grub-mkfont.c:121-260 | the list holds the loaded glyphs, last one first; the font's greatest width, height and top bound them all and its least bottom those that hang down less than the font's size, and each is some glyph's or the one it started with |
| FontScreen.MeasuredByInk | sources/bootloader/util/grub-mkfont.c:242-252 | no metric of a font of cut glyphs that fit their fields is stored as zero if and only if some glyph has a set pixel |
| FontScreen.CompiledShows | sources/bootloader/grub-core/font/font.c:1557-1597 | drawing the loaded glyph anywhere lights exactly the pixels set in the rasteriser's bitmap, hung up at pen and base line |
| FontScreen.MakeFont | sources/bootloader/util/grub-mkfont.c:1225-1275 | from bitmaps to screen: the file is accepted if and only if codes are distinct and some glyph has a set pixel (metrics fitting their fields); it holds every glyph as the format has it, loads with the name, size, weight and extremes of the font, ascent and descent those of the user or else of the glyphs; and under each code, but 0xFFFF in a full font, the loader draws exactly the rasteriser's bitmap |
| Resolve.PathKeepsName | sources/bootloader/util/resolve.c:135-185 | the name of a module's path is the module's name, for all strings |
| Resolve.PathIs | sources/bootloader/util/resolve.c:160-185 | a path is its own text if it has a slash, otherwise directory, slash and text, with .mod behind it unless it ends so |
| Resolve.NeedsOfFirst | sources/bootloader/util/resolve.c:187-216 | the dependencies of a module are those of the first entry of its name |
| Resolve.Resolver.AddModule | sources/bootloader/util/resolve.c:187-230 | lists the module behind all its dependencies, once, adds only what it reaches, and keeps the path list parallel |
| Resolve.ClosedUnderPaths | sources/bootloader/util/resolve.c:207-216 | a list with every dependency of its members has everything they reach |
| Resolve.ReversedIsResolved | sources/bootloader/util/resolve.c:252-270 | reversed, the list has each module once, dependencies first, and exactly the modules reachable from the requests |
| Resolve.ReversePaths | sources/bootloader/util/resolve.c:258-271 | relinking the nodes in place yields the list of the same nodes in reverse, names unchanged |
| Resolve.ResolveDependencies | sources/bootloader/util/resolve.c:232-272 | on every acyclic graph it ends with the paths, in link order, of exactly the reachable modules, and the name of each path is its module: none twice, every need of the first entry of a listed module in front of it, every request listed, and nothing listed that is neither a request nor needed by another listed module |
| Blocklist.BootSector.SaveBlocklists | sources/bootloader/util/grub-setup.c:165-203 | one sector more extends the last run or opens one below it; fails exactly for unaligned data or a slot in use |
| Blocklist.BootSector.Install | sources/bootloader/util/grub-setup.c:707-723 | cleaning, storing, terminating and reading back succeed exactly when pieces are aligned and their runs fit above the code; when no 0x10000 sectors in a row are consecutive the slots hold, from the last one down, first sector, length and segment of each run and then a zero length; and the read-back is the sectors exactly then |
| Blocklist.EncodeIsCut | sources/bootloader/util/grub-setup.c:179-203 | the sequence is cut exactly where a sector does not follow the one before, and there is one block for each part, with its first sector, its length and base plus 0x20 for each sector in front of it modulo 2^16 |
| Blocklist.RunsFitExactly | sources/bootloader/util/grub-setup.c:179-197 | the condition of the round trip: no 0x10000 sectors in a row each follow the one before |
| Blocklist.BootSector.ReadBack | sources/bootloader/util/grub-setup.c:930-953 | walks down to the first zero length and yields what the blocks stand for |
| Blocklist.BootSector.Terminate | sources/bootloader/util/grub-setup.c:541-545 | the slot below the list, or below the first if it is empty, becomes a terminator |
| Blocklist.BlocklistRoundTrip | sources/bootloader/util/grub-setup.c:179-197 | expanding the encoded blocks gives back the sectors if and only if no run of consecutive sectors reaches 65536 |
| Blocklist.SizeLimitSuffices | sources/bootloader/util/grub-setup.c:281-288 | the size limit of the core image implies that condition |
| Blocklist.EncodeIsWellShaped | sources/bootloader/util/grub-setup.c:179-203 | runs are maximal and never empty, and each segment is the base plus 0x20 for every sector before it, modulo 2^16 |
| Pe2Elf.TranslateSection | sources/bootloader/util/grub-pe2elf.c:249-297 | the loop patches the image in place, collects the linker's entries and stops at the first fault, as the pure translation says |
| Pe2Elf.NamesRead | sources/bootloader/util/grub-pe2elf.c:104-122 | a string inserted into the table is read back from its index |
| ObjectLink.TranslationKeepsMeaning | sources/bootloader/util/grub-pe2elf.c:235-314 | for every accepted table and every placement of sections and externals, linking the patched bytes with the ELF entries gives what DIR32 and REL32 mean on the original, calls resolved in place included |
| ObjectLink.GainsAddUp | sources/bootloader/util/grub-pe2elf.c:258-296 | what is patched into a field and what its ELF entry adds make up what the PE relocation means |
| ObjectMeaning.NameKeptExactly | sources/bootloader/util/grub-pe2elf.c:361-390 | an undefined symbol keeps its name, but for the compiler's underscore, if and only if it has no auxiliary record or is a function (or has no name, or only the underscore) |
| ObjectMeaning.DescribedIsRead | sources/bootloader/util/grub-pe2elf.c:338-395 | an entry read back: the number of the section's name among the seven known ones, value, binding, kind, and as name the PE name without its underscore or the section's name |
| ObjectMeaning.TranslationEmits | sources/bootloader/util/grub-pe2elf.c:249-297 | in an accepted section every DIR32 leaves an R_386_32, every call out of the object an R_386_PC32 over -4, every call inside it the displacement and no entry; there are no other entries, and every byte outside the calls is as it was |
| ObjectMeaning.SectionIsLinked | sources/bootloader/util/grub-pe2elf.c:249-297 | linking the original section adds to every word with no byte shared the address of its symbol, an external one looked up by its name in C, and takes the address behind the field away for a call; all other bytes stay |
| ObjectAccept.TranslatesExactlyWhen | sources/bootloader/util/grub-pe2elf.c:254-289 | a section translates if and only if each relocation is without fault on the bytes it started with |
| ObjectAccept.SameFault | sources/bootloader/util/grub-pe2elf.c:254-289 | a relocation is at fault in terms of the converted tables exactly when it is in terms of the PE object |
| ObjectWriter.Converter.InsertString | sources/bootloader/util/grub-pe2elf.c:104-122 | what stands at the returned index is the name without a leading underscore, or the whole name when it has none, and earlier strings stay |
| ObjectWriter.Converter.WriteSections | sources/bootloader/util/grub-pe2elf.c:126-224 | every known section has header, name and bytes, and each with relocations a relocation section; fails exactly for a seventh of those |
| ObjectWriter.Converter.WriteSymbols | sources/bootloader/util/grub-pe2elf.c:338-395 | every symbol start is mapped, to nothing exactly if it is dropped and else to an entry with its section, value, binding, kind and name |
| ObjectWriter.Converter.WriteRels | sources/bootloader/util/grub-pe2elf.c:226-314 | all relocation sections are done, each section rewritten if a call changed it, if and only if every section is acceptable |
| ObjectWriter.Converter.Convert | sources/bootloader/util/grub-pe2elf.c:458-493 | the conversion succeeds exactly on accepted objects; the result has every kept symbol under its name with section, value, binding and kind, every section with name, size and bytes, and for each relocated one, in order, a relocation section with what the linker still has to do; linked, every section of it gives the bytes and each separate word the value that the PE object means, for every placement |
| CmlParse.ParseExprInner | sources/contrib/cml2/cmlcompile.py:212-348 | parsing never lengthens the rest, and on tokens the lexer makes it builds no negation |
| CmlParse.AtomOutcome | sources/contrib/cml2/cmlcompile.py:212-230 | for every expression and whatever follows, the printed form is one atom again, or, with a negation inside, a fault or a stray word |
| CmlParse.ParseUndoesPrint | sources/contrib/cml2/cmlcompile.py:212-348 | through all ten levels, parsing the printed form before any non-operator gives the expression back and leaves exactly the rest, if and only if it holds no negation |
| CmlParse.PrintedFormIsStable | sources/contrib/cml2/cml.py:350-362 | whatever the parser built from lexed text comes back from its printed form |
| CmlParse.NegationIsLost | sources/contrib/cml2/cmlcompile.py:54-71 | the printed form of a negated symbol parses as a symbol called not, with the operand left over |
| CmlGrouping.TwoOperators | sources/contrib/cml2/cmlcompile.py:233-348 | a p b q c without brackets, for every two operators by name: tightest first are maximum, minimum and similarity, then comparisons, and, or, implies, times, plus and minus; equal ones group to the right, but a second comparison or implication is left unread, and a product takes all that follows |
| CmlGrouping.GroupingIsKept | sources/contrib/cml2/cmlcompile.py:212-348 | printed with brackets only where an operand is looser than its place, or is a product that would take what follows, every expression without negation parses back |
| CmlGrouping.BracketsOnlyWhereNeeded | sources/contrib/cml2/cmlcompile.py:233-348 | of two operations one in the other, the inner one is printed bare if and only if the parser groups it first |
| CmlEval.EvaluateDependsOnFlattened | sources/contrib/cml2/cml.py:263-348 | with well-founded definitions, evaluation depends on the values of the flattened base symbols only |
| CmlEval.RankDoesNotMatter | sources/contrib/cml2/cml.py:88-103 | value and symbols of an expression do not depend on the order chosen to show that definitions are well-founded |
| CmlEval.SkippingAgrees | sources/contrib/cml2/cml.py:281-286 | skipping the right side of a logical operation only ever hides its fault |
| CmlMeaning.OperationMeans | sources/contrib/cml2/cml.py:279-316 | the value of each operation on trits, numbers and strings: truth tables, comparisons by size or by text, the larger and the smaller trit, bits of numbers, similarity, sum, difference and product; and what is left when a side has none |
| CmlMeaning.ConditionMeans | sources/contrib/cml2/cml.py:272-280 | negation turns a true value into n and a false one into y; a choice has the value of one side, by its guard |
| CmlMeaning.SymbolMeans | sources/contrib/cml2/cml.py:88-103 | a symbol reads as its value, a derived one as its definition's in its type (a true trit or int of a boolean is y, a true trit of a number is 1), and false, unset or undefined ones as n |
| CmlMeaning.FlattenedExactly | sources/contrib/cml2/cml.py:333-348 | an expression's flattened symbols are exactly those without a definition to which definitions lead from the symbols it mentions |
| CmlEval.LogicIsClassical | sources/contrib/cml2/cml.py:279-286 | implication is "not or", and De Morgan's laws hold, faults included |
| CmlEval.OppositeComparisons | sources/contrib/cml2/cml.py:287-298 | each comparison is the negation of its opposite, for an order of the host that does not change in between |
| CmlEval.HostOrderDoesNotShow | sources/contrib/cml2/cml.py:24-38 | an expression that puts only values of one type in order has the same value whatever order the host has between types |
| CmlEval.TextOrder | sources/contrib/cml2/cml.py:287-298 | strings compare as a total order |
| CmlIndex.Rulebase.OptimizeConstraintAccess | sources/contrib/cml2/cml.py:252-259 | the nested loops leave under every symbol the list of its requirements |
| CmlIndex.IndexHoldsMentions | sources/contrib/cml2/cml.py:252-259 | that list holds exactly the requirements that mention the symbol, each once |
| CmlIndex.IndexHoldsDependents | sources/contrib/cml2/cml.py:252-259 | in the rulebase's terms: the requirements that depend on the symbol by way of any definitions |
| CmlIndex.IndexIsSound | sources/contrib/cml2/cml.py:252-259 | when all requirements held and some symbols change, checking the lists of those symbols gives the verdict of checking everything |
| CmlIndex.Rulebase.CheckSymbol | sources/contrib/cml2/cml.py:252-259 | checking a symbol's stored list says whether all requirements of its index hold |
| CmlDeduce.Deduction.Deduce | sources/contrib/cml2/cmlcompile.py:1069-1104 | for every dictionary order the loop ends; a symbol has a type exactly when its references lead to a symbol that has it by declaration or by the form of its definition, and none exactly when they lead nowhere |
| CmlDeduce.Deduction.Pass | sources/contrib/cml2/cmlcompile.py:1071-1102 | a pass assigns only types that are reached, and one that changes nothing leaves nothing to deduce |
| CmlDeduce.TypeIsUnique | sources/contrib/cml2/cmlcompile.py:1073-1099 | a symbol reaches at most one type |
| CmlDeduce.TypedExactly | sources/contrib/cml2/cmlcompile.py:1073-1099 | a symbol reaches a type if and only if its chain of references ends at one declared with it or defined by: m, a minimum, maximum, similarity or choice of a trit for a trit; n, y, a comparison or logical operation for a boolean; an int, arithmetic or choice of a number for a decimal; a string or choice of one for a string |
| CmlDeduce.CircularHasNone | sources/contrib/cml2/cmlcompile.py:1098-1099 | derivations that only refer to each other have no type |
| CmlDeduce.UntypedExactly | sources/contrib/cml2/cmlcompile.py:1073-1104 | a symbol stays untyped if and only if its chain of references (a symbol, or a choice whose first side is one) comes back to itself or ends at a missing symbol, one neither declared nor derived, no definition, a long number, a negation, or a choice whose first side is compound |
| CmlDeduce.Deduction.Untyped | sources/contrib/cml2/cmlcompile.py:1106-1109 | the complaints name exactly the derived symbols without a type |
| CmlTyping.DeducedTypeFits | sources/contrib/cml2/cml.py:88-103 | for every derived symbol with a deduced type and every environment, the symbol at which its evaluation ends has the same type, and the value is of that type if and only if what stands there settles it: a false value handed on unless a string is wanted, a definition that lives up to the type, or another symbol's value that casts can turn into it |
| CmlTyping.FalseSideShows | sources/contrib/cml2/cmlcompile.py:1086-1094 | derive D from (A ? A : "x") with A boolean and unset: D is deduced boolean and has a string for its value |
| CmlTyping.EndFits | sources/contrib/cml2/cmlcompile.py:1074-1096 | a symbol whose evaluation goes no further than its definition has a value of its type if and only if a minimum, maximum or similarity is one of trits, and a choice that does not hold has a second side that casts to the type |
| CmlTyping.OperationFits | sources/contrib/cml2/cmlcompile.py:1079-1085 | logic and comparisons give y or n and arithmetic a number; minimum, maximum and similarity give a trit exactly under the stated condition on the operands |
| TreeNav.Next | sources/contrib/cml2/tree.py:243-257 | next is the row with the following preorder number, or the same row at the bottom |
| TreeNav.Prev | sources/contrib/cml2/tree.py:259-274 | prev is the row with the preceding number, or the same row at the top |
| TreeNav.NumberIdentifies | sources/contrib/cml2/tree.py:243-274 | no two rows have the same number |
| TreeNav.EveryNumberIsTaken | sources/contrib/cml2/tree.py:243-274 | every number below the size of the tree is some row's |
| TreeNav.DownAndUp | sources/contrib/cml2/tree.py:243-274 | prev undoes next except at the last row |
| TreeNav.WalkDown | sources/contrib/cml2/tree.py:243-257 | next from the root on enumerates every visible row once, in preorder |
| TreeExpand.Expanded | sources/contrib/cml2/tree.py:115-134 | the stack walk returns exactly the deepest open rows: the open ones, and the root, with no open row below |
| TreeExpand.ExpandOpens | sources/contrib/cml2/tree.py:226-236 | expanding a path through folders opens its rows and no others |
| TreeExpand.SameOpenSameTree | sources/contrib/cml2/tree.py:162-202 | a tree grown by opening and closing is known by its open rows |
| TreeExpand.Redraw | sources/contrib/cml2/cmlconfigure.py:1978-1982 | collapsing the root and expanding every noted path restores the tree if and only if the root was open or is no folder; a closed folder root ends up open and nothing else changes |
| TreeExpand.UpdateTree | sources/contrib/cml2/cmlconfigure.py:1975-1983 | for every tree and visible cursor, the row of the cursor is open afterwards if it is a folder, and exactly the rows that were open besides; so the tree is restored if and only if that row was open or is no folder |
| MountChain.MountList.Insert | sources/bootloader/util/getroot.c:592-628 | one line changes the list in memory as the pure insertion changes the chain, growing the array when it is full: behind the last mount with the parent's id, cutting off what was there; in front when it is for the first; otherwise nowhere |
| MountChain.ChainIsLinked | sources/bootloader/util/getroot.c:598-628 | for every table each mount of the chain has the id that came as parent with the next, all but the first are lines of the table, and the first is a placeholder |
| MountChain.OnlyFirstIsPlaceholder | sources/bootloader/util/getroot.c:598-602 | when every line has a device, exactly the first mount of a chain has none: it is a placeholder for its id |
| MountChain.FindMount | sources/bootloader/util/getroot.c:542-638 | when every line has a device, the mount chosen in the end is the last of the chain |
| SpkModem.Receiver.ReadSample | sources/bootloader/util/spkmodem-recv.c:44-66 | over every stream, with pulses those that in turn go above 500 and below -500: f1 and f2 count those among the older and newer 240 of the last 480 samples, amplitude sums up all 480, and pos is the parity of all pulses |
| SpkModem.WindowMoves | sources/bootloader/util/spkmodem-recv.c:47-53 | one sample out, one across and one in move both counts and the loudness by exactly those samples |

## Left out

- IA-64 relocations, trampolines and the global offset table, whose helper functions live elsewhere.
- Placement for targets other than EFI, where addresses come from the object file and zeroed sections get space of their own; the bytes of the PE headers, which are a parameter.
- Wrap-around of section addresses in the layout; addresses are unbounded there and reduced where they are stored.
- ElfLayout.SectionInRange: an alignment that is no power of two, which ELF does not permit, is rounded up to here and masked in the code; ElfLayout.MaskRoundsUp says that the two then differ.
- Several symbol tables in one kernel: the model has the first, as the EFI branch looks it up.
- Compression, Reed-Solomon codes, signatures, file formats of other platforms.
- Reading of files, disks, `moddep.lst`, the mount table's text and its escapes: records and bytes are parameters.
- The first sector of the core image, written by a function of its own, and FIEMAP-based lookup of sectors.
- The clearing of blocklists at `grub-setup.c:524` takes the size of a pointer; the model has the field-wise clearing at `grub-setup.c:707-723`.
- Fallback between fonts, the cache of fetched glyphs, and memory that runs out while a font is loaded; a font's length is below 2^32, as the offsets in it are.
- The driver's colours, its clipping at the edges of the screen and its row-by-row walk over the bits; which bit belongs to which pixel is that of its general reading function.
- Which characters of a typeface a font is made from: codes with their bitmaps are parameters.
- The printer's fixed line buffer, and the two other font output formats.
- Section flags, alignment and file offsets of the converted object, and the binary form of its tables: they are records.
- COFF symbols in common blocks: like the converter, the model takes a symbol of section 0 as external whatever its value.
- ObjectWriter.Converter.Convert: asks for sections with different names that share no bytes, relocated fields that do not partly overlap, relocations that name the start of a symbol, and a `.bss` without relocations; outside of that the converter reads memory it has not set or overwrites its own results.
- Character-level lexing, includes and error messages of the rule language; parsing starts from tokens.
- CmlEval.OppositeComparisons: between values of different types the order is a fixed function of the values, while the code compares the identities of objects, which may differ from one evaluation to the next; CmlEval.HostOrderDoesNotShow says where that cannot matter.
- CmlEval.EvaluateDependsOnFlattened: the order between objects of different types, the number in a string and the bits of numbers are parameters of the model, because the language leaves them to its host.
- Cyclic dependencies and cyclic derivations, on which the tools do not end: a rank function is required.
- TreeNav.Next: rows are found by child indices in a tree that is a value, so that parent pointers, node identity and the breaking of cycles are not captured; the same holds for TreeExpand.
- Canvas drawing, hooks and the mutual exclusion flag of the tree browser.
- The bit assembly of the demodulator's main loop, and its behaviour at the end of the input.
- The choice of a device for ZFS and btrfs mounts.
