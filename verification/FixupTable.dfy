/** The base relocation table of the emitted PE image (section 6.6 of the Microsoft PE/COFF
    Specification, revision 8): fixups grouped into page blocks as they arrive, padded, and
    written out, against a decoder that works as a loader does. */
module FixupTable {
  import opened Outcomes
  import opened Words
  import opened ElfLayout
  import opened ElfRelocate
  import opened Pigeonhole

  const HEADER_SIZE: nat := 8
  const PAGE_SIZE: nat := 0x1000
  const MAX_ENTRIES: nat := 0x1000
  const MAX_ALIGN: nat := 0x1000
  const RVA_MODULUS: nat := 0x1_0000_0000

  datatype Fixup = Fixup(kind: nat, addr: nat)

  /** One block of the chained list. Only blocks with state set have been started. */
  datatype Block = Block(state: bool, pageRva: nat, blockSize: nat, entries: seq<nat>)

  const EMPTY_BLOCK := Block(false, 0, 0, [])

  /** page_rva is a 32-bit field. */
  function PageOf(addr: nat): nat { (addr - addr % PAGE_SIZE) % RVA_MODULUS }

  /** FIXUP_ENTRY (kind << 12 | distance) stored into 16 bits. */
  function Entry(kind: nat, distance: nat): nat { BitOr(kind * 0x1000, distance, 16) }

  lemma EntryValue(kind: nat, distance: nat)
    requires kind < 16 && distance % 0x10000 < PAGE_SIZE
    ensures Entry(kind, distance) == kind * PAGE_SIZE + distance % 0x10000
  {
    assert Pow2(4) == 16 && Pow2(8) == 16 * Pow2(4) && Pow2(12) == 16 * Pow2(8) && Pow2(16) == 16 * Pow2(12);
    BitOrLow(kind * PAGE_SIZE, distance, 16);
    BitOrSideBySide(kind, distance % 0x10000, 12, 4);
  }

  // ----- reading a table back -----

  /** The fixups among a block's entries; an entry of kind 0 is padding. */
  function Entries(pageRva: nat, entries: seq<nat>): seq<Fixup> {
    if |entries| == 0 then []
    else
      var e := entries[|entries| - 1];
      Entries(pageRva, entries[..|entries| - 1])
        + if e / PAGE_SIZE == 0 then [] else [Fixup(e / PAGE_SIZE, pageRva + e % PAGE_SIZE)]
  }

  function AllEntries(blocks: seq<Block>): seq<Fixup> {
    if |blocks| == 0 then []
    else
      var b := blocks[|blocks| - 1];
      AllEntries(blocks[..|blocks| - 1]) + Entries(b.pageRva, b.entries)
  }

  function TotalSize(blocks: seq<Block>): nat {
    if |blocks| == 0 then 0 else TotalSize(blocks[..|blocks| - 1]) + blocks[|blocks| - 1].blockSize
  }

  // ----- which fixups share a block -----

  /** Whether a fixup at addr goes into the block whose page is page; the upper bound is computed in 32 bits. */
  predicate InPage(page: nat, addr: nat) { page <= addr < (page + PAGE_SIZE) % RVA_MODULUS }

  /** How many fixups at the end of the log share one block. */
  function Run(log: seq<Fixup>): (n: nat)
    ensures n <= |log|
  {
    var k := |log|;
    if k == 0 then 0
    else if k >= 2 && InPage(PageOf(log[k - 2].addr), log[k - 1].addr) then Run(log[..k - 1]) + 1
    else 1
  }

  /** What a 32-bit table can say about the fixups: their addresses modulo 2^32. */
  function Truncated(log: seq<Fixup>): (r: seq<Fixup>)
    ensures |r| == |log|
  {
    seq(|log|, i requires 0 <= i < |log| => Fixup(log[i].kind, log[i].addr % RVA_MODULUS))
  }

  predicate ValidKinds(log: seq<Fixup>) { forall f :: f in log ==> 0 < f.kind < 16 }

  // ----- writing -----

  predicate WellFormed(b: Block) {
    && b.state
    && b.blockSize == HEADER_SIZE + 2 * |b.entries|
    && b.blockSize <= HEADER_SIZE + 2 * MAX_ENTRIES + MAX_ALIGN
    && b.pageRva < RVA_MODULUS
    && forall i :: 0 <= i < |b.entries| ==> b.entries[i] < 0x10000
  }

  /** A started block holds exactly the last fixups of the log that share its page. */
  predicate Holds(b: Block, log: seq<Fixup>) {
    && WellFormed(b)
    && log != []
    && b.pageRva == PageOf(log[|log| - 1].addr)
    && |b.entries| == Run(log) <= MAX_ENTRIES
  }

  /** addr does not belong to the page of the last fixup. */
  predicate Opens(log: seq<Fixup>, addr: nat) { log == [] || !InPage(PageOf(log[|log| - 1].addr), addr) }

  /** The size a block is padded to: up to a section boundary of the table when flushing,
      to a multiple of 8 bytes otherwise. */
  function PaddedSize(flush: bool, currentAddress: nat, size: nat, align: nat): (r: nat)
    requires align > 0
    ensures size <= r
    ensures flush ==> currentAddress + r == AlignUp(currentAddress + size, align)
    ensures !flush ==> r < size + 8
  {
    if flush then AlignUp(currentAddress + size, align) - currentAddress else AlignUp(size, 8)
  }

  lemma PaddedSizeIsEven(flush: bool, currentAddress: nat, size: nat, align: nat)
    requires align > 0 && (align == 1 || align % 2 == 0) && currentAddress % 2 == 0 && size % 2 == 0
    ensures PaddedSize(flush, currentAddress, size, align) % 2 == 0
    ensures !flush ==> PaddedSize(flush, currentAddress, size, align) % 8 == 0
  {
    hide AlignUp, Multiple;
    if flush {
      var up := AlignUp(currentAddress + size, align);
      AlignUpMultiple(currentAddress + size, align);
      EvenGap(currentAddress + size, up, align);
      EvenSum(up - (currentAddress + size), size);
    } else {
      AlignUpMultiple(size, 8);
      MultipleOf8(AlignUp(size, 8));
    }
  }

  /** There is a section boundary between the two addresses. */
  ghost predicate BoundaryIn(low: nat, high: nat, align: nat) { exists x :: low <= x <= high && Multiple(x, align) }

  lemma MultiplesApart(x: nat, y: nat, a: nat)
    requires Multiple(x, a) && Multiple(y, a)
    ensures x < y ==> x + a <= y
  {
    var p, q := x / a, y / a;
    assert x == a * p && y == a * q;
    if p < q {
      ProductsApart(a, p, q);
    } else if q < p {
      ProductsApart(a, q, p);
    }
  }

  lemma {:induction false} ProductsApart(a: nat, p: nat, q: nat)
    requires p < q
    ensures a * p + a <= a * q
    decreases q
  {
    assert a * q == a * (q - 1) + a;
    if p < q - 1 {
      ProductsApart(a, p, q - 1);
    }
  }

  lemma AlignUpLeast(v: nat, x: nat, a: nat)
    requires v <= x && Multiple(x, a)
    ensures AlignUp(v, a) <= x
  {
    hide AlignUp;
    AlignUpMultiple(v, a);
    MultiplesApart(x, AlignUp(v, a), a);
  }

  /** Padding to 8 bytes stays in the room set aside for a block; padding to a section boundary does
      exactly when there is a boundary in the rest of that room. */
  lemma PaddingFits(flush: bool, currentAddress: nat, size: nat, align: nat)
    requires align > 0 && size <= HEADER_SIZE + 2 * MAX_ENTRIES
    ensures PaddedSize(flush, currentAddress, size, align) <= HEADER_SIZE + 2 * MAX_ENTRIES
       <==> !flush || BoundaryIn(currentAddress + size, currentAddress + HEADER_SIZE + 2 * MAX_ENTRIES, align)
  {
    hide AlignUp, Multiple;
    var room := HEADER_SIZE + 2 * MAX_ENTRIES;
    if flush {
      AlignUpMultiple(currentAddress + size, align);
      forall x | currentAddress + size <= x <= currentAddress + room && Multiple(x, align)
        ensures AlignUp(currentAddress + size, align) <= x
      {
        AlignUpLeast(currentAddress + size, x, align);
      }
    } else {
      RoomIsMultiple();
      AlignUpLeast(size, room, 8);
    }
  }

  lemma RoomIsMultiple()
    ensures Multiple(HEADER_SIZE + 2 * MAX_ENTRIES, 8)
  {
  }

  lemma EvenSum(a: nat, b: nat)
    requires a % 2 == 0 && b % 2 == 0
    ensures (a + b) % 2 == 0
  {
  }

  lemma MultipleOf8(x: nat)
    requires Multiple(x, 8)
    ensures x % 8 == 0 && x % 2 == 0
  {
    ModUnique(x, 2, 4 * (x / 8), 0);
  }

  /** The chained blocks hold exactly the fixups of the log, in order, and occupy currentAddress bytes
      up to the current block. */
  predicate Consistent(done: seq<Block>, cur: Block, log: seq<Fixup>, currentAddress: nat) {
    && ValidKinds(log)
    && (log == [] ==> done == [])
    && (forall b :: b in done ==> WellFormed(b))
    && TotalSize(done) == currentAddress
    && AllEntries(done) + Entries(cur.pageRva, cur.entries) == Truncated(log)
    && (if cur.state then Holds(cur, log) else cur == EMPTY_BLOCK)
  }

  /** Chaining a padded block behind the others keeps the table consistent. */
  lemma CloseKeeps(done: seq<Block>, cur: Block, padded: Block, log: seq<Fixup>, currentAddress: nat)
    requires Consistent(done, cur, log, currentAddress) && cur.state
    requires WellFormed(padded) && padded.pageRva == cur.pageRva
    requires Entries(padded.pageRva, padded.entries) == Entries(cur.pageRva, cur.entries)
    ensures Consistent(done + [padded], EMPTY_BLOCK, log, currentAddress + padded.blockSize)
  {
    assert (done + [padded])[..|done|] == done;
  }

  lemma EntryKeepsRecords(done: seq<Block>, cur: Block, log: seq<Fixup>, e: nat, f: Fixup)
    requires AllEntries(done) + Entries(cur.pageRva, cur.entries) == Truncated(log)
    requires Entries(cur.pageRva, cur.entries + [e]) == Entries(cur.pageRva, cur.entries) + [Fixup(f.kind, f.addr % RVA_MODULUS)]
    ensures AllEntries(done) + Entries(cur.pageRva, cur.entries + [e]) == Truncated(log + [f])
  {
    TruncatedGrows(log, f);
    Associative(AllEntries(done), Entries(cur.pageRva, cur.entries), [Fixup(f.kind, f.addr % RVA_MODULUS)]);
  }

  lemma EmptyStart(done: seq<Block>, pageRva: nat, log: seq<Fixup>)
    requires AllEntries(done) + Entries(0, []) == Truncated(log)
    ensures AllEntries(done) + Entries(pageRva, []) == Truncated(log)
  {
  }

  /** Appending an entry to the block of its page keeps the table consistent. */
  lemma PutKeeps(done: seq<Block>, cur: Block, started: Block, log: seq<Fixup>, currentAddress: nat, f: Fixup)
    requires Consistent(done, cur, log, currentAddress) && 0 < f.kind < 16
    requires if cur.state then InPage(cur.pageRva, f.addr) && started == cur
             else Opens(log, f.addr) && started == Block(true, PageOf(f.addr), HEADER_SIZE, [])
    requires |started.entries| < MAX_ENTRIES
    ensures started.pageRva <= f.addr
    ensures var e := Entry(f.kind, f.addr - started.pageRva);
            Consistent(done, started.(entries := started.entries + [e], blockSize := started.blockSize + 2), log + [f], currentAddress)
  {
    hide Entries, AllEntries, Run, Truncated, Entry;
    SamePage(started.pageRva, f.addr, cur.state, log);
    AppendEntry(started.pageRva, started.entries, f.kind, f.addr);
    RunGrows(cur, log, f);
    if !cur.state { EmptyStart(done, started.pageRva, log); }
    EntryKeepsRecords(done, started, log, Entry(f.kind, f.addr - started.pageRva), f);
  }

  /** The chained blocks (done, then cur) and everything asked for so far (log). */
  class FixupWriter {
    const sectionAlign: nat
    var done: seq<Block>
    var cur: Block
    ghost var log: seq<Fixup>

    constructor (sectionAlign: nat)
      requires PowerOfTwo(sectionAlign) && sectionAlign <= MAX_ALIGN
      ensures this.sectionAlign == sectionAlign
      ensures Valid(0) && log == [] && !cur.state
    {
      this.sectionAlign := sectionAlign;
      done, cur, log := [], EMPTY_BLOCK, [];
    }

    ghost predicate Valid(currentAddress: nat)
      reads this
    {
      PowerOfTwo(sectionAlign) && sectionAlign <= MAX_ALIGN && Consistent(done, cur, log, currentAddress)
    }

    /** Append zero entries to the current block until it is size bytes long. */
    method Pad(size: nat)
      requires WellFormed(cur) && cur.blockSize <= size <= HEADER_SIZE + 2 * MAX_ENTRIES + MAX_ALIGN && size % 2 == 0
      modifies this`cur
      ensures WellFormed(cur) && cur.blockSize == size && cur.pageRva == old(cur.pageRva)
      ensures Entries(cur.pageRva, cur.entries) == Entries(old(cur.pageRva), old(cur.entries))
    {
      hide Entries;
      while cur.blockSize < size
        invariant WellFormed(cur) && cur.pageRva == old(cur.pageRva) && cur.blockSize <= size
        invariant Entries(cur.pageRva, cur.entries) == Entries(old(cur.pageRva), old(cur.entries))
      {
        PadEntry(cur);
        cur := cur.(entries := cur.entries + [0], blockSize := cur.blockSize + 2);
      }
    }

    /** Pad the current block, up to a section boundary when flushing and to a multiple of 8 bytes
        otherwise, and chain a fresh block behind it. */
    method CloseBlock(flush: bool, currentAddress: nat) returns (next: nat)
      requires Valid(currentAddress) && cur.state
      modifies this`done, this`cur
      ensures Valid(next) && !cur.state
      ensures |done| == |old(done)| + 1 && old(done) <= done
      ensures flush ==> Multiple(next, sectionAlign) && next < currentAddress + old(cur.blockSize) + sectionAlign
      ensures !flush ==> done[|done| - 1].blockSize % 8 == 0 && next < currentAddress + old(cur.blockSize) + 8
      ensures done[|done| - 1].blockSize <= HEADER_SIZE + 2 * MAX_ENTRIES
         <==> !flush || BoundaryIn(currentAddress + old(cur.blockSize), currentAddress + HEADER_SIZE + 2 * MAX_ENTRIES, sectionAlign)
    {
      hide AlignUp, Multiple, TotalSize, AllEntries, Entries, Truncated, Run, BoundaryIn;
      EvenTotal(done);
      PaddingFits(flush, currentAddress, cur.blockSize, sectionAlign);
      PaddedSizeIsEven(flush, currentAddress, cur.blockSize, sectionAlign);
      Pad(PaddedSize(flush, currentAddress, cur.blockSize, sectionAlign));
      CloseKeeps(done, old(cur), cur, log, currentAddress);
      next := currentAddress + cur.blockSize;
      if flush {
        AlignUpMultiple(currentAddress + old(cur.blockSize), sectionAlign);
      }
      done := done + [cur];
      cur := EMPTY_BLOCK;
    }

    /** The second half of add_fixup_entry: open a block if there is none, then append one entry. */
    method PutEntry(kind: nat, addr: nat, currentAddress: nat) returns (r: Result<nat, Error>)
      requires Valid(currentAddress) && 0 < kind < 16
      requires if cur.state then InPage(cur.pageRva, addr) else Opens(log, addr)
      modifies this
      ensures r == if old(cur.state) && Run(old(log)) == MAX_ENTRIES then Err(TooManyFixups) else Ok(currentAddress)
      ensures r.Ok? ==> Valid(currentAddress) && log == old(log) + [Fixup(kind, addr)] && cur.state
    {
      hide Run, Entries, AllEntries, Truncated, Entry;
      if !cur.state {
        cur := Block(true, PageOf(addr), HEADER_SIZE, []);
      }
      if cur.blockSize >= HEADER_SIZE + 2 * MAX_ENTRIES {
        return Err(TooManyFixups);
      }
      PutKeeps(done, old(cur), cur, log, currentAddress, Fixup(kind, addr));
      var entry := Entry(kind, addr - cur.pageRva);
      cur := cur.(entries := cur.entries + [entry], blockSize := cur.blockSize + 2);
      log := log + [Fixup(kind, addr)];
      return Ok(currentAddress);
    }

    /** add_fixup_entry: record one fixup, or with flush write out the last block. */
    method AddFixupEntry(kind: nat, addr: nat, flush: bool, currentAddress: nat) returns (r: Result<nat, Error>)
      requires Valid(currentAddress) && (!flush ==> 0 < kind < 16)
      requires cur.state || log == []
      modifies this
      ensures r.Err? <==> !flush && old(cur.state) && Run(old(log)) == MAX_ENTRIES
                          && InPage(PageOf(old(log)[|old(log)| - 1].addr), addr)
      ensures r.Err? ==> r.error == TooManyFixups
      ensures r.Ok? ==> Valid(r.value)
      ensures r.Ok? && !flush ==> log == old(log) + [Fixup(kind, addr)] && cur.state
      ensures r.Ok? && flush ==> log == old(log) && !cur.state && Multiple(r.value, sectionAlign)
    {
      var current := currentAddress;
      if cur.state {
        if flush || addr < cur.pageRva || (cur.pageRva + PAGE_SIZE) % RVA_MODULUS <= addr {
          current := CloseBlock(flush, current);
        }
      }
      if !flush {
        r := PutEntry(kind, addr, current);
        return r;
      }
      return Ok(current);
    }
  }

  /** A zero entry is invisible to the decoder. */
  lemma PadEntry(b: Block)
    ensures Entries(b.pageRva, b.entries + [0]) == Entries(b.pageRva, b.entries)
  {
    assert (b.entries + [0])[..|b.entries|] == b.entries;
  }

  /** A fixup in the block's own page decodes to its own address. */
  lemma AppendEntry(pageRva: nat, entries: seq<nat>, kind: nat, addr: nat)
    requires 0 < kind < 16
    requires pageRva == PageOf(addr) && pageRva <= addr
    ensures Entry(kind, addr - pageRva) < 0x10000
    ensures Entries(pageRva, entries + [Entry(kind, addr - pageRva)])
              == Entries(pageRva, entries) + [Fixup(kind, addr % RVA_MODULUS)]
  {
    hide PageOf, Entry, Pow2, BitOr;
    PageArithmetic(addr);
    EntryValue(kind, addr - pageRva);
    var e := Entry(kind, addr - pageRva);
    assert (entries + [e])[..|entries|] == entries;
  }

  /** The page field and the offset in the page, in terms of the low 32 bits of an address. */
  lemma PageArithmetic(addr: nat)
    ensures PageOf(addr) <= addr && PageOf(addr) + addr % PAGE_SIZE == addr % RVA_MODULUS
    ensures (addr - PageOf(addr)) % 0x10000 == addr % PAGE_SIZE
  {
    var q, r := addr / RVA_MODULUS, addr % RVA_MODULUS;
    var p, o := r / PAGE_SIZE, r % PAGE_SIZE;
    assert addr == RVA_MODULUS * q + (PAGE_SIZE * p + o);
    ModUnique(addr, PAGE_SIZE, 0x10_0000 * q + p, o);
    assert addr - addr % PAGE_SIZE == RVA_MODULUS * q + PAGE_SIZE * p;
    ModUnique(addr - addr % PAGE_SIZE, RVA_MODULUS, q, PAGE_SIZE * p);
    assert addr - PageOf(addr) == 0x10000 * (0x10000 * q) + o;
    ModUnique(addr - PageOf(addr), 0x10000, 0x10000 * q, o);
  }

  lemma {:induction false} EvenTotal(blocks: seq<Block>)
    requires forall b :: b in blocks ==> WellFormed(b)
    ensures TotalSize(blocks) % 2 == 0
  {
    if |blocks| > 0 {
      EvenTotal(blocks[..|blocks| - 1]);
      assert blocks[|blocks| - 1] in blocks;
    }
  }

  /** The gap up to the section boundary is a whole number of entries. */
  lemma EvenGap(next: nat, up: nat, align: nat)
    requires next % 2 == 0 && (align == 1 || align % 2 == 0) && align > 0
    requires Multiple(up, align) && next <= up < next + align
    ensures (up - next) % 2 == 0
  {
    hide Multiple;
    if align > 1 { MultipleOfEven(up, align); }
  }

  lemma MultipleOfEven(x: nat, a: nat)
    requires a > 0 && a % 2 == 0 && Multiple(x, a)
    ensures x % 2 == 0
  {
    ModOfProduct(x / a, a / 2);
    assert x == a * (x / a) == (2 * (a / 2)) * (x / a);
  }

  lemma ModOfProduct(q: nat, h: nat)
    ensures ((2 * h) * q) % 2 == 0
  {
    assert (2 * h) * q == 2 * (h * q);
  }

  lemma TruncatedGrows(log: seq<Fixup>, f: Fixup)
    ensures Truncated(log + [f]) == Truncated(log) + [Fixup(f.kind, f.addr % RVA_MODULUS)]
  {
  }

  lemma RunGrows(b: Block, log: seq<Fixup>, f: Fixup)
    requires if b.state then Holds(b, log) && InPage(b.pageRva, f.addr) else Opens(log, f.addr)
    ensures Run(log + [f]) == if b.state then Run(log) + 1 else 1
  {
    assert (log + [f])[..|log|] == log;
  }

  lemma SamePage(pageRva: nat, addr: nat, state: bool, log: seq<Fixup>)
    requires state ==> InPage(pageRva, addr) && log != [] && pageRva == PageOf(log[|log| - 1].addr)
    requires !state ==> pageRva == PageOf(addr)
    ensures pageRva == PageOf(addr) && pageRva <= addr
  {
    assert forall x: nat :: PageOf(x) % PAGE_SIZE == 0 && PageOf(x) <= x;
  }

  // ----- the bytes of the section -----

  function EntryBytes(entries: seq<nat>): (r: seq<byte>)
    ensures |r| == 2 * |entries|
  {
    if |entries| == 0 then [] else EntryBytes(entries[..|entries| - 1]) + ToLE(entries[|entries| - 1], 2)
  }

  function BlockBytes(b: Block): seq<byte> { ToLE(b.pageRva, 4) + ToLE(b.blockSize, 4) + EntryBytes(b.entries) }

  function AllBytes(blocks: seq<Block>): seq<byte> {
    if |blocks| == 0 then [] else AllBytes(blocks[..|blocks| - 1]) + BlockBytes(blocks[|blocks| - 1])
  }

  // ----- a loader's view of the bytes -----

  /** The first n 16-bit entries of one block. */
  function ReadEntries(pageRva: nat, s: seq<byte>, n: nat): seq<Fixup>
    requires 2 * n <= |s|
  {
    if n == 0 then []
    else
      var e := FromLE(s[2 * n - 2..2 * n]);
      ReadEntries(pageRva, s, n - 1) + if e / PAGE_SIZE == 0 then [] else [Fixup(e / PAGE_SIZE, pageRva + e % PAGE_SIZE)]
  }

  /** Walk the blocks by their sizes; None when a size is malformed. */
  function Decode(s: seq<byte>): Option<seq<Fixup>>
    decreases |s|
  {
    if |s| == 0 then Some([])
    else if |s| < HEADER_SIZE then None
    else
      var size := FromLE(s[4..8]);
      if size < HEADER_SIZE || size > |s| || size % 2 != 0 then None
      else
        match Decode(s[size..])
        case None => None
        case Some(rest) => Some(ReadEntries(FromLE(s[..4]), s[HEADER_SIZE..size], (size - HEADER_SIZE) / 2) + rest)
  }

  lemma {:induction false} ReadsEntries(pageRva: nat, entries: seq<nat>, s: seq<byte>)
    requires forall i :: 0 <= i < |entries| ==> entries[i] < 0x10000
    requires EntryBytes(entries) <= s
    ensures ReadEntries(pageRva, s, |entries|) == Entries(pageRva, entries)
  {
    var n := |entries|;
    if n > 0 {
      LastEntryReadsBack(EntryBytes(entries[..n - 1]), entries[n - 1], s);
      ReadsEntries(pageRva, entries[..n - 1], s);
    }
  }

  lemma LastEntryReadsBack(before: seq<byte>, e: nat, s: seq<byte>)
    requires e < 0x10000 && before + ToLE(e, 2) <= s
    ensures before <= s && FromLE(s[|before|..|before| + 2]) == e
  {
    TailOfPrefix(before, ToLE(e, 2), s);
    SmallRoundTrip(e, 2);
  }

  lemma TailOfPrefix<T>(a: seq<T>, b: seq<T>, s: seq<T>)
    requires a + b <= s
    ensures a <= s && s[|a|..|a| + |b|] == b
  {
    assert s[|a|..|a| + |b|] == (a + b)[|a|..];
  }

  lemma Associative<T>(a: seq<T>, b: seq<T>, c: seq<T>)
    ensures a + (b + c) == (a + b) + c
  {
  }

  lemma FourParts<T>(a: seq<T>, b: seq<T>, c: seq<T>, d: seq<T>)
    ensures var s, i, j := (a + b + c) + d, |a| + |b|, |a| + |b| + |c|;
            s[..|a|] == a && s[|a|..i] == b && s[i..j] == c && s[j..] == d
  {
  }

  lemma SmallRoundTrip(v: nat, w: nat)
    requires w == 2 || w == 4
    requires v < if w == 2 then 0x10000 else RVA_MODULUS
    ensures FromLE(ToLE(v, w)) == v
  {
    LERoundTrip(v, w);
    assert Modulus(2) == 0x10000;
    assert Modulus(4) == 256 * (256 * Modulus(2));
  }

  lemma HeaderReadsBack(b: Block, rest: seq<byte>)
    requires WellFormed(b)
    ensures var s := BlockBytes(b) + rest;
            && |s| >= b.blockSize >= HEADER_SIZE
            && FromLE(s[..4]) == b.pageRva && FromLE(s[4..8]) == b.blockSize
            && s[HEADER_SIZE..b.blockSize] == EntryBytes(b.entries)
            && s[b.blockSize..] == rest
  {
    FourParts(ToLE(b.pageRva, 4), ToLE(b.blockSize, 4), EntryBytes(b.entries), rest);
    SmallRoundTrip(b.pageRva, 4);
    SmallRoundTrip(b.blockSize, 4);
  }

  lemma DecodesBlock(b: Block, rest: seq<byte>)
    requires WellFormed(b) && Decode(rest).Some?
    ensures Decode(BlockBytes(b) + rest) == Some(Entries(b.pageRva, b.entries) + Decode(rest).value)
  {
    hide EntryBytes, Entries, ReadEntries, BlockBytes;
    HeaderReadsBack(b, rest);
    assert (b.blockSize - HEADER_SIZE) / 2 == |b.entries| && b.blockSize % 2 == 0;
    ReadsEntries(b.pageRva, b.entries, EntryBytes(b.entries));
  }

  lemma {:induction false} DecodesAll(blocks: seq<Block>, rest: seq<byte>)
    requires (forall b :: b in blocks ==> WellFormed(b)) && Decode(rest).Some?
    ensures Decode(AllBytes(blocks) + rest) == Some(AllEntries(blocks) + Decode(rest).value)
  {
    if |blocks| > 0 {
      var init, b := blocks[..|blocks| - 1], blocks[|blocks| - 1];
      assert b in blocks && forall x :: x in init ==> x in blocks;
      DecodesBlock(b, rest);
      DecodesAll(init, BlockBytes(b) + rest);
      Associative(AllBytes(init), BlockBytes(b), rest);
      Associative(AllEntries(init), Entries(b.pageRva, b.entries), Decode(rest).value);
    } else {
      assert AllBytes(blocks) + rest == rest;
      assert AllEntries(blocks) + Decode(rest).value == Decode(rest).value;
    }
  }

  /** A block of one entry and one of padding, byte by byte: the page, the size of the block, and 16 bits of which
      the upper 4 are the kind of fixup and the lower 12 the distance into the page. */
  lemma TableFormat(p0: byte, p1: byte, p2: byte, p3: byte, e0: byte, e1: byte)
    ensures Decode([p0, p1, p2, p3, 12, 0, 0, 0, e0, e1, 0, 0])
         == Some(if e1 < 0x10 then []
                 else [Fixup(e1 / 0x10, p0 + 0x100 * p1 + 0x1_0000 * p2 + 0x100_0000 * p3 + (e0 + 0x100 * (e1 % 0x10)))])
  {
    hide FromLE, ReadEntries;
    var s: seq<byte> := [p0, p1, p2, p3, 12, 0, 0, 0, e0, e1, 0, 0];
    assert s[..4] == [p0, p1, p2, p3] && s[4..8] == [12, 0, 0, 0] && s[8..12] == [e0, e1, 0, 0];
    LittleEndian(p0, p1, p2, p3);
    LittleEndian(12, 0, 0, 0);
    assert s[12..] == [] && Decode([]) == Some([]);
    var page := p0 + 0x100 * p1 + 0x1_0000 * p2 + 0x100_0000 * p3;
    TwoEntries(page, e0, e1);
    assert FromLE(s[..4]) == page && FromLE(s[4..8]) == 12;
    assert Decode(s[12..]).value == [];
    var read := ReadEntries(page, s[8..12], 2);
    assert read + [] == read && (12 - HEADER_SIZE) / 2 == 2;
    assert Decode(s) == Some(read + Decode(s[12..]).value);
  }

  lemma TwoEntries(page: nat, e0: byte, e1: byte)
    ensures ReadEntries(page, [e0, e1, 0, 0], 2)
         == if e1 < 0x10 then [] else [Fixup(e1 / 0x10, page + (e0 + 0x100 * (e1 % 0x10)))]
  {
    hide FromLE;
    var s: seq<byte> := [e0, e1, 0, 0];
    assert s[0..2] == [e0, e1] && s[2..4] == [0, 0];
    LittleEndian(e0, e1, 0, 0);
    LittleEndian(0, 0, 0, 0);
    var e := e0 + 0x100 * e1;
    assert e / 0x1000 == e1 / 0x10 && e % 0x1000 == e0 + 0x100 * (e1 % 0x10);
    assert ReadEntries(page, s, 0) == [];
    assert ReadEntries(page, s, 1) == if e / 0x1000 == 0 then [] else [Fixup(e / 0x1000, page + e % 0x1000)];
  }

  // ----- make_reloc_section -----

  /** HIGHLOW for a 32-bit absolute field, DIR64 for a 64-bit one, nothing for the rest. */
  function FixupKind(m: Machine, kind: nat): Option<nat> {
    if kind != 1 then None else if m.I386? then Some(3) else Some(10)
  }

  /** The 32-bit absolute relocations of x86-64 cannot be fixed up. */
  predicate Refused(site: Site, m: Machine) { m.X86_64? && (site.reloc.kind == 10 || site.reloc.kind == 11) }

  function FixupAt(site: Site, vaddrs: seq<nat>, m: Machine): nat
    requires site.target < |vaddrs|
  {
    (vaddrs[site.target] + site.reloc.offset) % Modulus(AddressSize(m))
  }

  predicate TargetsKnown(sites: seq<Site>, num: nat) { forall k :: 0 <= k < |sites| ==> sites[k].target < num }

  /** The fixups the relocation records ask for, in order. */
  function FixupsOf(sites: seq<Site>, vaddrs: seq<nat>, m: Machine): seq<Fixup>
    requires TargetsKnown(sites, |vaddrs|)
  {
    if |sites| == 0 then []
    else
      var before := FixupsOf(sites[..|sites| - 1], vaddrs, m);
      var site := sites[|sites| - 1];
      match FixupKind(m, site.reloc.kind)
      case None => before
      case Some(k) => before + [Fixup(k, FixupAt(site, vaddrs, m))]
  }

  predicate BlocksFit(log: seq<Fixup>) { forall k :: 0 <= k <= |log| ==> Run(log[..k]) <= MAX_ENTRIES }

  lemma {:induction false} FixupsPrefix(sites: seq<Site>, n: nat, vaddrs: seq<nat>, m: Machine)
    requires n <= |sites| && TargetsKnown(sites, |vaddrs|)
    ensures FixupsOf(sites[..n], vaddrs, m) <= FixupsOf(sites, vaddrs, m)
    decreases |sites|
  {
    if n < |sites| {
      FixupsPrefix(sites[..|sites| - 1], n, vaddrs, m);
      assert sites[..|sites| - 1][..n] == sites[..n];
    } else {
      assert sites[..n] == sites;
    }
  }

  lemma BlocksFitGrows(log: seq<Fixup>, f: Fixup)
    ensures BlocksFit(log + [f]) <==> BlocksFit(log) && Run(log + [f]) <= MAX_ENTRIES
    ensures BlocksFit(log) ==> Run(log) <= MAX_ENTRIES
    ensures Run(log + [f]) == if Opens(log, f.addr) then 1 else Run(log) + 1
  {
    var more := log + [f];
    assert more[..|log|] == log && more[..|more|] == more && log[..|log|] == log;
    assert forall k :: 0 <= k <= |log| ==> more[..k] == log[..k];
  }

  /** What the pass over the records has established so far. */
  ghost predicate Collected(w: FixupWriter, current: nat, done: seq<Site>, vaddrs: seq<nat>, m: Machine)
    reads w
  {
    && w.Valid(current)
    && TargetsKnown(done, |vaddrs|)
    && w.log == FixupsOf(done, vaddrs, m)
    && (w.cur.state || w.log == [])
    && (forall site :: site in done ==> !Refused(site, m))
    && BlocksFit(w.log)
  }

  /** The switch over the relocation numbers, for one record. */
  method CollectOne(w: FixupWriter, current: nat, site: Site, vaddrs: seq<nat>, m: Machine, ghost done: seq<Site>)
    returns (r: Result<nat, Error>)
    requires Collected(w, current, done, vaddrs, m) && site.target < |vaddrs|
    modifies w
    ensures r.Ok? ==> Collected(w, r.value, done + [site], vaddrs, m)
    ensures r.Err? ==> Refused(site, m) || !BlocksFit(FixupsOf(done + [site], vaddrs, m))
  {
    hide Run, Consistent;
    assert (done + [site])[..|done|] == done;
    if Refused(site, m) {
      return Err(CannotFixup32);
    }
    match FixupKind(m, site.reloc.kind) {
      case None =>
        r := Ok(current);
      case Some(kind) =>
        var addr := FixupAt(site, vaddrs, m);
        ghost var log := w.log;
        r := w.AddFixupEntry(kind, addr, false, current);
        BlocksFitGrows(log, Fixup(kind, addr));
    }
  }

  method CollectFixups(w: FixupWriter, sections: seq<Section>, vaddrs: seq<nat>, m: Machine) returns (r: Result<nat, Error>)
    requires TargetsKnown(AllSites(sections), |vaddrs|)
    requires Collected(w, 0, [], vaddrs, m)
    modifies w
    ensures r.Ok? ==> Collected(w, r.value, AllSites(sections), vaddrs, m)
    ensures r.Err? ==> (exists site :: site in AllSites(sections) && Refused(site, m))
                       || !BlocksFit(FixupsOf(AllSites(sections), vaddrs, m))
  {
    hide Collected, BlocksFit, FixupsOf, Refused;
    var current := 0;
    ghost var done: seq<Site> := [];
    for i := 0 to |sections|
      invariant done == Sites(sections, i) && Collected(w, current, done, vaddrs, m)
    {
      if IsRelocSection(sections[i]) {
        var s := sections[i];
        for j := 0 to |s.relocs|
          invariant done == Sites(sections, i) + SitesOf(s, j) && Collected(w, current, done, vaddrs, m)
        {
          var site := Site(s.info, s.relocs[j], s.shType == Rela);
          NextSite(sections, i, j, done);
          r := CollectOne(w, current, site, vaddrs, m, done);
          if r.Err? {
            FailsLater(AllSites(sections), done + [site], vaddrs, m);
            return r;
          }
          current := r.value;
          done := done + [site];
        }
      }
    }
    return Ok(current);
  }

  /** A table that overflows on a prefix of the records overflows on all of them. */
  lemma FailsLater(all: seq<Site>, done: seq<Site>, vaddrs: seq<nat>, m: Machine)
    requires done <= all && TargetsKnown(all, |vaddrs|)
    ensures !BlocksFit(FixupsOf(done, vaddrs, m)) ==> !BlocksFit(FixupsOf(all, vaddrs, m))
  {
    FixupsPrefix(all, |done|, vaddrs, m);
    assert all[..|done|] == done;
    var few, log := FixupsOf(done, vaddrs, m), FixupsOf(all, vaddrs, m);
    assert forall k :: 0 <= k <= |few| ==> few[..k] == log[..k];
  }

  lemma OneFixupFits(f: Fixup)
    ensures BlocksFit([f])
  {
    var log := [f];
    assert log[..0] == [] && log[..1] == log;
    assert Run(log) <= 1;
  }

  lemma NothingAsked(vaddrs: seq<nat>, m: Machine)
    ensures TargetsKnown([], |vaddrs|) && FixupsOf([], vaddrs, m) == [] && BlocksFit([])
  {
  }

  /** The .reloc section: reading it as a loader does gives back every fixup in order, and its size
      is a multiple of the section alignment. It is refused exactly for a 32-bit absolute relocation
      on x86-64 or for more fixups in one page block than fit. */
  method MakeRelocSection(sections: seq<Section>, vaddrs: seq<nat>, t: Target) returns (r: Result<seq<byte>, Error>)
    requires PowerOfTwo(t.sectionAlign) && t.sectionAlign <= MAX_ALIGN
    requires TargetsKnown(AllSites(sections), |vaddrs|)
    ensures r.Ok? <==>
              && (forall site :: site in AllSites(sections) ==> !Refused(site, t.machine))
              && BlocksFit(FixupsOf(AllSites(sections), vaddrs, t.machine))
    ensures r.Ok? ==> Decode(r.value) == Some(Truncated(FixupsOf(AllSites(sections), vaddrs, t.machine)))
    ensures r.Ok? ==> Multiple(|r.value|, t.sectionAlign)
  {
    hide Multiple, Run, Refused, FixupsOf, Entries, Truncated, BlocksFit, AllSites, EntryBytes, ToLE, TargetsKnown, PowerOfTwo;
    var w := new FixupWriter(t.sectionAlign);
    NothingAsked(vaddrs, t.machine);
    var c := CollectFixups(w, sections, vaddrs, t.machine);
    if c.Err? {
      return Err(c.error);
    }
    c := w.AddFixupEntry(0, 0, true, c.value);
    var current := c.value;
    var blocks := w.done;
    var out := [];
    for k := 0 to |blocks|
      invariant out == AllBytes(blocks[..k]) && |out| == TotalSize(blocks[..k])
    {
      assert blocks[..k + 1][..k] == blocks[..k] && blocks[k] in blocks;
      out := out + BlockBytes(blocks[k]);
    }
    assert blocks[..|blocks|] == blocks;
    assert current == |out|;
    DecodesAll(blocks, []);
    assert AllBytes(blocks) + [] == out;
    return Ok(out);
  }

  // ----- what 32 bits can say -----

  /** Where the fields that need a fixup really are, whatever the size of the image. */
  function TruePlaces(sites: seq<Site>, vaddrs: seq<nat>, m: Machine): (r: seq<Fixup>)
    requires TargetsKnown(sites, |vaddrs|)
  {
    if |sites| == 0 then []
    else
      var before := TruePlaces(sites[..|sites| - 1], vaddrs, m);
      var site := sites[|sites| - 1];
      match FixupKind(m, site.reloc.kind)
      case None => before
      case Some(k) => before + [Fixup(k, vaddrs[site.target] + site.reloc.offset)]
  }

  lemma ReducedTwice(site: Site, vaddrs: seq<nat>, m: Machine)
    requires site.target < |vaddrs|
    ensures FixupAt(site, vaddrs, m) % RVA_MODULUS == (vaddrs[site.target] + site.reloc.offset) % RVA_MODULUS
  {
    var x := vaddrs[site.target] + site.reloc.offset;
    assert Modulus(4) == 256 * (256 * Modulus(2)) && Modulus(2) == 0x10000;
    assert Modulus(8) == RVA_MODULUS * RVA_MODULUS by {
      assert Modulus(6) == 256 * (256 * Modulus(4)) && Modulus(8) == 256 * (256 * Modulus(6));
    }
    if m.X86_64? {
      ModOfMod(x);
    }
  }

  lemma ModOfMod(x: nat)
    ensures (x % (RVA_MODULUS * RVA_MODULUS)) % RVA_MODULUS == x % RVA_MODULUS
  {
    var q, r := x / (RVA_MODULUS * RVA_MODULUS), x % (RVA_MODULUS * RVA_MODULUS);
    assert x == RVA_MODULUS * (RVA_MODULUS * q + r / RVA_MODULUS) + r % RVA_MODULUS;
    ModUnique(x, RVA_MODULUS, RVA_MODULUS * q + r / RVA_MODULUS, r % RVA_MODULUS);
  }

  lemma SameSnoc<T>(a: seq<T>, b: seq<T>, x: T, y: T)
    requires |a| == |b|
    ensures a + [x] == b + [y] <==> a == b && x == y
  {
    if a + [x] == b + [y] {
      assert (a + [x])[..|a|] == a && (b + [y])[..|b|] == b;
      assert (a + [x])[|a|] == x && (b + [y])[|b|] == y;
    }
  }

  /** The field has a fixup and lies beyond what 32 bits reach. */
  predicate OutOfReach(site: Site, vaddrs: seq<nat>, m: Machine)
    requires site.target < |vaddrs|
  {
    FixupKind(m, site.reloc.kind).Some? && vaddrs[site.target] + site.reloc.offset >= RVA_MODULUS
  }

  /** The decoded table says where the fields are if and only if each of them is below 4 GiB, for every list of
      relocations, every placement of the sections and both machines. */
  lemma {:induction false} TableIsFaithfulExactly(sites: seq<Site>, vaddrs: seq<nat>, m: Machine)
    requires TargetsKnown(sites, |vaddrs|)
    ensures |TruePlaces(sites, vaddrs, m)| == |FixupsOf(sites, vaddrs, m)|
    ensures Truncated(FixupsOf(sites, vaddrs, m)) == TruePlaces(sites, vaddrs, m)
       <==> forall k :: 0 <= k < |sites| ==> !OutOfReach(sites[k], vaddrs, m)
  {
    hide FixupAt, Truncated, FixupKind;
    if |sites| > 0 {
      var init, site := sites[..|sites| - 1], sites[|sites| - 1];
      TableIsFaithfulExactly(init, vaddrs, m);
      assert forall k :: 0 <= k < |init| ==> init[k] == sites[k];
      if FixupKind(m, site.reloc.kind).Some? {
        var f := Fixup(FixupKind(m, site.reloc.kind).value, FixupAt(site, vaddrs, m));
        TruncatedGrows(FixupsOf(init, vaddrs, m), f);
        ReducedTwice(site, vaddrs, m);
        SameSnoc(Truncated(FixupsOf(init, vaddrs, m)), TruePlaces(init, vaddrs, m), Fixup(f.kind, f.addr % RVA_MODULUS),
                 Fixup(f.kind, vaddrs[site.target] + site.reloc.offset));
      }
    } else {
      NoneTruncated();
    }
  }

  lemma NoneTruncated()
    ensures Truncated([]) == []
  {
  }

  // ----- relocations that do not overlap never overflow a block -----

  predicate Spread(log: seq<Fixup>) {
    && (forall i :: 0 <= i < |log| ==> log[i].addr < RVA_MODULUS)
    && (forall i, j :: 0 <= i < j < |log| ==> log[i].addr + 4 <= log[j].addr || log[j].addr + 4 <= log[i].addr)
  }

  lemma PageHolds(addr: nat)
    requires addr < RVA_MODULUS
    ensures PageOf(addr) <= addr < PageOf(addr) + PAGE_SIZE
  {
    PageArithmetic(addr);
  }

  lemma {:induction false} RunInPage(log: seq<Fixup>)
    requires log != [] && Spread(log)
    ensures var page := PageOf(log[|log| - 1].addr);
            forall i :: |log| - Run(log) <= i < |log| ==> page <= log[i].addr < page + PAGE_SIZE
  {
    hide PageOf;
    var n := |log|;
    PageHolds(log[n - 1].addr);
    if Run(log) > 1 {
      RunInPage(log[..n - 1]);
      SamePage(PageOf(log[n - 2].addr), log[n - 1].addr, true, log[..n - 1]);
    }
  }

  lemma SpreadRun(log: seq<Fixup>)
    requires Spread(log)
    ensures Run(log) <= PAGE_SIZE / 4
  {
    if log != [] {
      RunInPage(log);
      var n, page := Run(log), PageOf(log[|log| - 1].addr);
      var first := |log| - n;
      var slots := seq(n, i requires 0 <= i < n => (log[first + i].addr - page) / 4);
      DistinctBelow(slots, PAGE_SIZE / 4);
    }
  }

  /** Fixups of fields that share no byte never hit the entry limit, and even with the padding of the
      final flush no block outgrows the 0x1000 entries allocated for it. */
  lemma SpreadFixupsFit(log: seq<Fixup>)
    requires Spread(log)
    ensures BlocksFit(log)
    ensures Run(log) + (MAX_ALIGN + 8) / 2 <= MAX_ENTRIES
  {
    forall k | 0 <= k <= |log|
      ensures Run(log[..k]) <= MAX_ENTRIES
    {
      SpreadRun(log[..k]);
    }
    SpreadRun(log);
  }
}
