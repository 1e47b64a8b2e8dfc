/** Sections of the kernel ELF file, and where the converter puts them: text first,
    then data (BSS counts as data), each at its own alignment once the image header
    of vaddrOffset bytes stands in front; then the copy of their bytes. */
module ElfLayout {
  import opened Words

  datatype SectionType = Null | ProgBits | SymTab | Rela | Rel | NoBits | Other

  /** One relocation record; kind is the number in r_info. */
  datatype Reloc = Reloc(offset: nat, kind: nat, sym: nat, addend: int)

  datatype Section = Section(shType: SectionType, alloc: bool, exec: bool, align: nat, size: nat,
                             offset: nat, info: nat, relocs: seq<Reloc>)

  datatype Machine = I386 | X86_64

  datatype Target = Target(machine: Machine, vaddrOffset: nat, sectionAlign: nat)

  predicate Multiple(x: nat, a: nat) { a > 0 && x % a == 0 }

  /** Round x up to a multiple of a. */
  function AlignUp(x: nat, a: nat): (r: nat)
    requires a > 0
    ensures x <= r < x + a
  {
    if x % a == 0 then x else x + (a - x % a)
  }

  lemma AlignUpMultiple(x: nat, a: nat)
    requires a > 0
    ensures Multiple(AlignUp(x, a), a)
  {
    if x % a != 0 { NextMultiple(x, a); }
  }

  lemma NextMultiple(x: nat, a: nat)
    requires a > 0
    ensures (x + (a - x % a)) % a == 0
  {
    var q := x / a;
    assert x + (a - x % a) == a * q + a == a * (q + 1);
    ModUnique(x + (a - x % a), a, q + 1, 0);
  }

  predicate PowerOfTwo(a: nat) { a == 1 || (a > 0 && a % 2 == 0 && PowerOfTwo(a / 2)) }

  /** Bitwise and. */
  function BitAnd(a: nat, b: nat): nat
    decreases b
  {
    if b == 0 then 0 else (if a % 2 == 1 && b % 2 == 1 then 1 else 0) + 2 * BitAnd(a / 2, b / 2)
  }

  lemma AndLastBit(v: nat, h: nat)
    requires h > 0
    ensures BitAnd(v, 2 * h - 1) == v % 2 + 2 * BitAnd(v / 2, h - 1)
  {
    assert (2 * h - 1) % 2 == 1 && (2 * h - 1) / 2 == h - 1;
  }

  lemma ModLastBit(v: nat, h: nat)
    requires h > 0
    ensures v % (2 * h) == v % 2 + 2 * ((v / 2) % h)
  {
    HalfMod(v, h);
    var r := v % (2 * h);
    assert r == 2 * (r / 2) + r % 2;
  }

  lemma {:induction false} LowBits(v: nat, a: nat)
    requires PowerOfTwo(a)
    ensures BitAnd(v, a - 1) == v % a
    decreases a
  {
    hide BitAnd;
    if a == 1 {
      AndNothing(v);
    } else {
      var h := a / 2;
      LowBits(v / 2, h);
      AndLastBit(v, h);
      ModLastBit(v, h);
    }
  }

  lemma AndNothing(v: nat)
    ensures BitAnd(v, 0) == 0
  {
  }

  /** ALIGN_UP adds a - 1 and clears the bits of a - 1. */
  function Masked(x: nat, a: nat): int
    requires a > 0
  {
    x + a - 1 - BitAnd(x + a - 1, a - 1)
  }

  lemma MaskOfPower(x: nat, a: nat)
    requires PowerOfTwo(a)
    ensures Masked(x, a) == AlignUp(x, a)
  {
    hide BitAnd;
    LowBits(x + a - 1, a);
    var q, r := x / a, x % a;
    assert x == a * q + r;
    if r == 0 {
      ModUnique(x + a - 1, a, q, a - 1);
    } else {
      assert a * (q + 1) == a * q + a;
      ModUnique(x + a - 1, a, q + 1, r - 1);
    }
  }

  lemma {:induction false} AndItself(v: nat)
    ensures BitAnd(v, v) == v
  {
    if v > 0 {
      AndItself(v / 2);
    }
  }

  lemma {:induction false} OneBelow(a: nat)
    requires a > 0
    ensures BitAnd(a, a - 1) == 0 <==> PowerOfTwo(a)
    decreases a
  {
    if a % 2 == 0 {
      OneBelow(a / 2);
      AndLastBit(a, a / 2);
    } else if a > 1 {
      AndItself(a / 2);
      assert (a - 1) / 2 == a / 2 && (a - 1) % 2 == 0;
    }
  }

  lemma MaskOfOne(a: nat)
    requires a > 0
    ensures Masked(1, a) == AlignUp(1, a) <==> PowerOfTwo(a)
  {
    hide BitAnd, PowerOfTwo;
    OneBelow(a);
    assert AlignUp(1, a) == a by {
      if a > 1 { ModUnique(1, a, 0, 1); }
    }
  }

  /** The macro rounds up exactly for the alignments that ELF permits, the powers of two; for any other
      alignment it already takes 1 to the wrong place. */
  lemma MaskRoundsUp(a: nat)
    requires a > 0
    ensures (forall x: nat :: Masked(x, a) == AlignUp(x, a)) <==> PowerOfTwo(a)
    ensures Masked(1, a) == AlignUp(1, a) <==> PowerOfTwo(a)
  {
    hide Masked, AlignUp, PowerOfTwo;
    MaskOfOne(a);
    if PowerOfTwo(a) {
      forall x: nat
        ensures Masked(x, a) == AlignUp(x, a)
      {
        MaskOfPower(x, a);
      }
    }
  }

  predicate IsText(s: Section) { s.alloc && s.exec }

  predicate IsData(s: Section) { s.alloc && !s.exec }

  predicate InGroup(s: Section, text: bool) { s.alloc && s.exec == text }

  // ----- placement -----

  /** The address a section gets when everything before it ends at cur. */
  function Step(cur: nat, s: Section, vo: nat): (r: nat)
    ensures cur <= r
    ensures if s.align == 0 then r == cur else r < cur + s.align
  {
    if s.align != 0 then AlignUp(cur + vo, s.align) - vo else cur
  }

  lemma StepAligns(cur: nat, s: Section, vo: nat)
    ensures s.align != 0 ==> Multiple(Step(cur, s, vo) + vo, s.align)
  {
    if s.align != 0 { AlignUpMultiple(cur + vo, s.align); }
  }

  /** The end of what is placed among the first i sections of one group. */
  function Cursor(sections: seq<Section>, text: bool, start: nat, i: nat, vo: nat): (r: nat)
    requires i <= |sections|
    ensures start <= r
  {
    if i == 0 then start
    else
      var c := Cursor(sections, text, start, i - 1, vo);
      if InGroup(sections[i - 1], text) then Step(c, sections[i - 1], vo) + sections[i - 1].size else c
  }

  function SizeOfText(sections: seq<Section>, t: Target): nat
    requires t.sectionAlign > 0
  {
    AlignUp(Cursor(sections, true, 0, |sections|, t.vaddrOffset) + t.vaddrOffset, t.sectionAlign) - t.vaddrOffset
  }

  function SizeOfKernel(sections: seq<Section>, t: Target): nat
    requires t.sectionAlign > 0
  {
    AlignUp(Cursor(sections, false, SizeOfText(sections, t), |sections|, t.vaddrOffset) + t.vaddrOffset,
            t.sectionAlign) - t.vaddrOffset
  }

  function Address(sections: seq<Section>, t: Target, i: nat): nat
    requires t.sectionAlign > 0 && i < |sections|
  {
    var vo := t.vaddrOffset;
    if IsText(sections[i]) then Step(Cursor(sections, true, 0, i, vo), sections[i], vo)
    else if IsData(sections[i]) then Step(Cursor(sections, false, SizeOfText(sections, t), i, vo), sections[i], vo)
    else 0
  }

  /** The loop that places one group, text or data, after start. */
  method PlaceGroup(addrs: array<nat>, sections: seq<Section>, text: bool, start: nat, vo: nat) returns (end: nat)
    requires addrs.Length == |sections|
    modifies addrs
    ensures end == Cursor(sections, text, start, |sections|, vo)
    ensures forall k :: 0 <= k < |sections| ==>
              addrs[k] == if InGroup(sections[k], text) then Step(Cursor(sections, text, start, k, vo), sections[k], vo)
                          else old(addrs[k])
  {
    end := start;
    for i := 0 to |sections|
      invariant end == Cursor(sections, text, start, i, vo)
      invariant forall k :: i <= k < |sections| ==> addrs[k] == old(addrs[k])
      invariant forall k :: 0 <= k < i ==>
        addrs[k] == if InGroup(sections[k], text) then Step(Cursor(sections, text, start, k, vo), sections[k], vo)
                    else old(addrs[k])
    {
      if InGroup(sections[i], text) {
        end := Step(end, sections[i], vo);
        addrs[i] := end;
        end := end + sections[i].size;
      }
    }
  }

  // ----- the placement in numbers -----

  /** end is where the group stops in front of section i: behind its last earlier section, or at start. */
  ghost predicate EndsBefore(sections: seq<Section>, addrs: seq<nat>, text: bool, start: nat, i: nat, end: nat)
    requires i <= |sections| == |addrs|
  {
    || (end == start && forall j :: 0 <= j < i ==> !(sections[j].alloc && sections[j].exec == text))
    || exists j :: 0 <= j < i && sections[j].alloc && sections[j].exec == text && end == addrs[j] + sections[j].size
         && forall k :: j < k < i ==> !(sections[k].alloc && sections[k].exec == text)
  }

  /** The first address from low on that is aligned with a header of vo bytes in front; 0 asks for no alignment. */
  predicate FirstAligned(a: int, low: int, align: nat, vo: nat) {
    if align == 0 then a == low else low <= a < low + align && (a + vo) % align == 0
  }

  /** Each section of the group is at the first aligned address behind the one before it, and the group ends at the
      first section boundary behind the last. */
  ghost predicate Tight(sections: seq<Section>, addrs: seq<nat>, text: bool, start: nat, end: nat, t: Target)
    requires |addrs| == |sections|
  {
    && (forall i :: 0 <= i < |sections| && sections[i].alloc && sections[i].exec == text ==>
          exists low: nat :: EndsBefore(sections, addrs, text, start, i, low) && FirstAligned(addrs[i], low, sections[i].align, t.vaddrOffset))
    && exists low: nat :: EndsBefore(sections, addrs, text, start, |sections|, low) && FirstAligned(end, low, t.sectionAlign, t.vaddrOffset)
  }

  lemma StepIsFirst(cur: nat, s: Section, vo: nat)
    ensures FirstAligned(Step(cur, s, vo), cur, s.align, vo)
  {
    StepAligns(cur, s, vo);
  }

  lemma BoundaryIsFirst(cur: nat, t: Target)
    requires t.sectionAlign > 0
    ensures FirstAligned(AlignUp(cur + t.vaddrOffset, t.sectionAlign) - t.vaddrOffset, cur, t.sectionAlign, t.vaddrOffset)
  {
    AlignUpMultiple(cur + t.vaddrOffset, t.sectionAlign);
  }

  /** The addresses of one group are those the cursor gives. */
  predicate GroupAt(sections: seq<Section>, addrs: seq<nat>, text: bool, start: nat, vo: nat)
    requires |addrs| == |sections|
  {
    forall k :: 0 <= k < |sections| && InGroup(sections[k], text) ==> addrs[k] == Step(Cursor(sections, text, start, k, vo), sections[k], vo)
  }

  lemma {:induction false} CursorEnds(sections: seq<Section>, addrs: seq<nat>, text: bool, start: nat, i: nat, vo: nat)
    requires i <= |sections| == |addrs| && GroupAt(sections, addrs, text, start, vo)
    ensures EndsBefore(sections, addrs, text, start, i, Cursor(sections, text, start, i, vo))
  {
    hide Step;
    if i > 0 {
      CursorEnds(sections, addrs, text, start, i - 1, vo);
      var end := Cursor(sections, text, start, i, vo);
      if InGroup(sections[i - 1], text) {
        assert end == addrs[i - 1] + sections[i - 1].size;
      } else {
        assert end == Cursor(sections, text, start, i - 1, vo);
      }
    }
  }

  lemma GroupIsTight(sections: seq<Section>, addrs: seq<nat>, text: bool, start: nat, end: nat, t: Target)
    requires t.sectionAlign > 0 && |addrs| == |sections| && GroupAt(sections, addrs, text, start, t.vaddrOffset)
    requires end == AlignUp(Cursor(sections, text, start, |sections|, t.vaddrOffset) + t.vaddrOffset, t.sectionAlign) - t.vaddrOffset
    ensures Tight(sections, addrs, text, start, end, t)
  {
    hide Step, AlignUp, EndsBefore, FirstAligned, Cursor;
    var vo := t.vaddrOffset;
    forall i | 0 <= i < |sections| && sections[i].alloc && sections[i].exec == text
      ensures exists low: nat :: EndsBefore(sections, addrs, text, start, i, low) && FirstAligned(addrs[i], low, sections[i].align, vo)
    {
      CursorEnds(sections, addrs, text, start, i, vo);
      StepIsFirst(Cursor(sections, text, start, i, vo), sections[i], vo);
    }
    CursorEnds(sections, addrs, text, start, |sections|, vo);
    BoundaryIsFirst(Cursor(sections, text, start, |sections|, vo), t);
  }

  /** Text from 0 on, data behind it. */
  lemma PlacedTightly(sections: seq<Section>, addrs: seq<nat>, t: Target)
    requires t.sectionAlign > 0 && |addrs| == |sections| && forall i :: 0 <= i < |sections| ==> addrs[i] == Address(sections, t, i)
    ensures Tight(sections, addrs, true, 0, SizeOfText(sections, t), t)
    ensures Tight(sections, addrs, false, SizeOfText(sections, t), SizeOfKernel(sections, t), t)
  {
    hide Step, AlignUp, Cursor, Tight;
    GroupIsTight(sections, addrs, true, 0, SizeOfText(sections, t), t);
    GroupIsTight(sections, addrs, false, SizeOfText(sections, t), SizeOfKernel(sections, t), t);
  }

  /** The largest alignment of an allocated section. */
  method LargestAlign(sections: seq<Section>) returns (allAlign: nat)
    ensures allAlign >= 1 && forall s :: s in sections && s.alloc ==> s.align <= allAlign
    ensures allAlign == 1 || exists s :: s in sections && s.alloc && s.align == allAlign
  {
    allAlign := 1;
    for i := 0 to |sections|
      invariant allAlign >= 1
      invariant forall k :: 0 <= k < i && sections[k].alloc ==> sections[k].align <= allAlign
      invariant allAlign == 1 || exists s :: s in sections && s.alloc && s.align == allAlign
    {
      if sections[i].alloc && sections[i].align > allAlign {
        allAlign := sections[i].align;
      }
    }
  }

  method LocateSections(sections: seq<Section>, t: Target)
    returns (addrs: array<nat>, execSize: nat, kernelSize: nat, allAlign: nat)
    requires t.sectionAlign > 0
    ensures fresh(addrs) && addrs.Length == |sections|
    ensures forall i :: 0 <= i < |sections| ==> addrs[i] == Address(sections, t, i)
    ensures execSize == SizeOfText(sections, t)
    ensures kernelSize == SizeOfKernel(sections, t)
    ensures Tight(sections, addrs[..], true, 0, execSize, t) && Tight(sections, addrs[..], false, execSize, kernelSize, t)
    ensures forall i :: 0 <= i < |sections| && !sections[i].alloc ==> addrs[i] == 0
    ensures allAlign >= 1 && forall s :: s in sections && s.alloc ==> s.align <= allAlign
    ensures allAlign == 1 || exists s :: s in sections && s.alloc && s.align == allAlign
  {
    hide Step, Cursor, AlignUp, Tight;
    var vo := t.vaddrOffset;
    allAlign := LargestAlign(sections);
    addrs := new nat[|sections|](_ => 0);

    var current := PlaceGroup(addrs, sections, true, 0, vo);
    current := AlignUp(current + vo, t.sectionAlign) - vo;
    execSize := current;

    current := PlaceGroup(addrs, sections, false, execSize, vo);
    current := AlignUp(current + vo, t.sectionAlign) - vo;
    kernelSize := current;
    PlacedTightly(sections, addrs[..], t);
  }

  // ----- what the placement promises -----

  predicate Apart(a: nat, n: nat, b: nat, m: nat) { a + n <= b || b + m <= a }

  lemma {:induction false} CursorMonotone(sections: seq<Section>, text: bool, start: nat, i: nat, j: nat, vo: nat)
    requires i <= j <= |sections|
    ensures Cursor(sections, text, start, i, vo) <= Cursor(sections, text, start, j, vo)
    decreases j
  {
    if i < j { CursorMonotone(sections, text, start, i, j - 1, vo); }
  }

  /** Every allocated section is aligned where it will stand in the image and lies in its own half:
      text below the text size, data between the text size and the kernel size. */
  lemma SectionInRange(sections: seq<Section>, t: Target, i: nat)
    requires t.sectionAlign > 0 && i < |sections| && sections[i].alloc
    ensures var a, s := Address(sections, t, i), sections[i];
            && (s.align != 0 ==> Multiple(a + t.vaddrOffset, s.align))
            && (IsText(s) ==> a + s.size <= SizeOfText(sections, t))
            && (IsData(s) ==> SizeOfText(sections, t) <= a && a + s.size <= SizeOfKernel(sections, t))
    ensures SizeOfText(sections, t) <= SizeOfKernel(sections, t)
    ensures Multiple(SizeOfText(sections, t) + t.vaddrOffset, t.sectionAlign)
    ensures Multiple(SizeOfKernel(sections, t) + t.vaddrOffset, t.sectionAlign)
  {
    var n, vo := |sections|, t.vaddrOffset;
    AlignUpMultiple(Cursor(sections, true, 0, n, vo) + vo, t.sectionAlign);
    AlignUpMultiple(Cursor(sections, false, SizeOfText(sections, t), n, vo) + vo, t.sectionAlign);
    StepAligns(Cursor(sections, IsText(sections[i]), if IsText(sections[i]) then 0 else SizeOfText(sections, t), i, vo), sections[i], vo);
    hide AlignUp, Multiple;
    CursorMonotone(sections, true, 0, i + 1, n, vo);
    CursorMonotone(sections, false, SizeOfText(sections, t), i + 1, n, vo);
  }

  /** Two allocated sections never share a byte of the image, and within one group keep file order. */
  lemma SectionsApart(sections: seq<Section>, t: Target, i: nat, j: nat)
    requires t.sectionAlign > 0 && i < j < |sections| && sections[i].alloc && sections[j].alloc
    ensures Apart(Address(sections, t, i), sections[i].size, Address(sections, t, j), sections[j].size)
    ensures sections[i].exec == sections[j].exec ==>
              Address(sections, t, i) + sections[i].size <= Address(sections, t, j)
  {
    SectionInRange(sections, t, i);
    SectionInRange(sections, t, j);
    CursorMonotone(sections, true, 0, i + 1, j, t.vaddrOffset);
    CursorMonotone(sections, false, SizeOfText(sections, t), i + 1, j, t.vaddrOffset);
  }

  // ----- the copy loop -----

  function Zeros(n: nat): (z: seq<byte>)
    ensures |z| == n && forall i :: 0 <= i < n ==> z[i] == 0
  {
    seq(n, _ => 0)
  }

  predicate HasFileBytes(s: Section) { s.alloc && s.shType != NoBits }

  predicate InFile(kernel: seq<byte>, sections: seq<Section>) {
    forall s :: s in sections && HasFileBytes(s) ==> s.offset + s.size <= |kernel|
  }

  predicate Fits(sections: seq<Section>, addrs: seq<nat>, n: nat) {
    |addrs| == |sections| &&
    forall i :: 0 <= i < |sections| && sections[i].alloc ==> addrs[i] + sections[i].size <= n
  }

  function SectionBytes(kernel: seq<byte>, s: Section): (b: seq<byte>)
    requires HasFileBytes(s) ==> s.offset + s.size <= |kernel|
    requires s.alloc
    ensures |b| == s.size
  {
    if s.shType == NoBits then Zeros(s.size) else kernel[s.offset..s.offset + s.size]
  }

  /** The image after the first n sections have been copied over what the buffer held. */
  function CopyAll(init: seq<byte>, kernel: seq<byte>, sections: seq<Section>, addrs: seq<nat>, n: nat): (r: seq<byte>)
    requires n <= |sections| && InFile(kernel, sections) && Fits(sections, addrs, |init|)
    ensures |r| == |init|
  {
    if n == 0 then init
    else
      var r := CopyAll(init, kernel, sections, addrs, n - 1);
      var s := sections[n - 1];
      if s.alloc then Splice(r, addrs[n - 1], SectionBytes(kernel, s)) else r
  }

  /** memcpy, memset, or loading a file: store a run of bytes at pos. */
  method Store(out: array<byte>, pos: nat, bytes: seq<byte>)
    requires pos + |bytes| <= out.Length
    modifies out
    ensures out[..] == Splice(old(out[..]), pos, bytes)
  {
    for k := 0 to |bytes|
      invariant forall x :: 0 <= x < out.Length ==>
        out[x] == if pos <= x < pos + k then bytes[x - pos] else old(out[x])
    {
      out[pos + k] := bytes[k];
    }
  }

  method CopySections(out: array<byte>, kernel: array<byte>, sections: seq<Section>, addrs: seq<nat>)
    requires out != kernel
    requires InFile(kernel[..], sections) && Fits(sections, addrs, out.Length)
    modifies out
    ensures out[..] == CopyAll(old(out[..]), kernel[..], sections, addrs, |sections|)
  {
    for i := 0 to |sections|
      invariant kernel[..] == old(kernel[..])
      invariant out[..] == CopyAll(old(out[..]), kernel[..], sections, addrs, i)
    {
      var s := sections[i];
      if IsData(s) || IsText(s) {
        if s.shType == NoBits {
          Store(out, addrs[i], Zeros(s.size));
        } else {
          Store(out, addrs[i], kernel[s.offset..s.offset + s.size]);
        }
      }
    }
  }

  predicate PairwiseApart(sections: seq<Section>, addrs: seq<nat>)
    requires |addrs| == |sections|
  {
    forall i, j :: 0 <= i < j < |sections| && sections[i].alloc && sections[j].alloc ==>
      Apart(addrs[i], sections[i].size, addrs[j], sections[j].size)
  }

  predicate Covers(s: Section, a: nat, x: nat) { s.alloc && a <= x < a + s.size }

  /** Byte by byte: inside a copied section the image holds that section's byte, elsewhere what it held before. */
  lemma {:induction false} CopiedByte(init: seq<byte>, kernel: seq<byte>, sections: seq<Section>, addrs: seq<nat>, n: nat, x: nat)
    requires n <= |sections| && InFile(kernel, sections) && Fits(sections, addrs, |init|)
    requires PairwiseApart(sections, addrs) && x < |init|
    ensures forall i :: 0 <= i < n && Covers(sections[i], addrs[i], x) ==>
              CopyAll(init, kernel, sections, addrs, n)[x] == SectionBytes(kernel, sections[i])[x - addrs[i]]
    ensures (forall i :: 0 <= i < n ==> !Covers(sections[i], addrs[i], x)) ==>
              CopyAll(init, kernel, sections, addrs, n)[x] == init[x]
  {
    hide SectionBytes;
    if n > 0 {
      CopiedByte(init, kernel, sections, addrs, n - 1, x);
      var s := sections[n - 1];
      if Covers(s, addrs[n - 1], x) {
        assert forall i :: 0 <= i < n - 1 && sections[i].alloc ==>
          Apart(addrs[i], sections[i].size, addrs[n - 1], s.size);
      }
    }
  }

  lemma LayoutFitsAndApart(sections: seq<Section>, t: Target, addrs: seq<nat>, n: nat)
    requires t.sectionAlign > 0 && |addrs| == |sections|
    requires forall i :: 0 <= i < |sections| ==> addrs[i] == Address(sections, t, i)
    requires SizeOfKernel(sections, t) <= n
    ensures Fits(sections, addrs, n) && PairwiseApart(sections, addrs)
  {
    forall i | 0 <= i < |sections| && sections[i].alloc
      ensures addrs[i] + sections[i].size <= n
    {
      SectionInRange(sections, t, i);
    }
    forall i, j | 0 <= i < j < |sections| && sections[i].alloc && sections[j].alloc
      ensures Apart(addrs[i], sections[i].size, addrs[j], sections[j].size)
    {
      SectionsApart(sections, t, i, j);
    }
  }

  lemma SectionStands(init: seq<byte>, kernel: seq<byte>, sections: seq<Section>, addrs: seq<nat>, i: nat)
    requires InFile(kernel, sections) && Fits(sections, addrs, |init|) && PairwiseApart(sections, addrs)
    requires i < |sections| && sections[i].alloc
    ensures Field(CopyAll(init, kernel, sections, addrs, |sections|), addrs[i], sections[i].size)
              == SectionBytes(kernel, sections[i])
  {
    var r := CopyAll(init, kernel, sections, addrs, |sections|);
    forall x | addrs[i] <= x < addrs[i] + sections[i].size
      ensures r[x] == SectionBytes(kernel, sections[i])[x - addrs[i]]
    {
      CopiedByte(init, kernel, sections, addrs, |sections|, x);
      assert Covers(sections[i], addrs[i], x);
    }
  }

  /** After the copy loop every allocated section reads back intact at its own address. */
  lemma SectionReadsBack(init: seq<byte>, kernel: seq<byte>, sections: seq<Section>, t: Target, addrs: seq<nat>, i: nat)
    requires t.sectionAlign > 0 && |addrs| == |sections| && InFile(kernel, sections)
    requires forall k :: 0 <= k < |sections| ==> addrs[k] == Address(sections, t, k)
    requires SizeOfKernel(sections, t) <= |init|
    requires i < |sections| && sections[i].alloc
    ensures Fits(sections, addrs, |init|)
    ensures Field(CopyAll(init, kernel, sections, addrs, |sections|), addrs[i], sections[i].size)
              == SectionBytes(kernel, sections[i])
  {
    LayoutFitsAndApart(sections, t, addrs, |init|);
    SectionStands(init, kernel, sections, addrs, i);
  }
}
