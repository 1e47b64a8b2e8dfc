/** How the boot loader reads a PF2 file: walk the sections, load the character index, check that nothing
    required is missing, and later seek to an index entry to fetch its glyph. */
module Pf2Loader {
  import opened Outcomes
  import opened Words
  import opened GlyphSort
  import opened Pf2Font

  datatype IndexEntry = IndexEntry(code: nat, flags: byte, offset: nat)

  datatype LoadedGlyph = LoadedGlyph(width: nat, height: nat, xOfs: int, yOfs: int, deviceWidth: int, bitmap: seq<byte>)

  const LIMIT: nat := 0x1_0000_0000

  function Unsigned(file: seq<byte>, pos: nat, w: nat): nat
    requires pos + w <= |file|
  {
    FromBE(file[pos..pos + w])
  }

  /** What a signed 16-bit variable makes of v. */
  function Wrap16(v: int): int { if v % 0x10000 < 0x8000 then v % 0x10000 else v % 0x10000 - 0x10000 }

  /** A 16-bit field read as a signed number. */
  function Signed16(file: seq<byte>, pos: nat): int
    requires pos + 2 <= |file|
  {
    Wrap16(Unsigned(file, pos, 2))
  }

  function ReadEntry(file: seq<byte>, at: nat): IndexEntry
    requires at + 9 <= |file|
  {
    IndexEntry(Unsigned(file, at, 4), file[at + 4], Unsigned(file, at + 5, 4))
  }

  /** The first n index entries at pos; codes must be in strictly ascending order. */
  function LoadIndex(file: seq<byte>, pos: nat, n: nat): (r: Option<seq<IndexEntry>>)
    ensures r.Some? ==> |r.value| == n
  {
    if n == 0 then Some([])
    else
      match LoadIndex(file, pos, n - 1)
      case None => None
      case Some(es) =>
        var at := pos + 9 * (n - 1);
        if at + 9 > |file| then None
        else
          var e := ReadEntry(file, at);
          if n > 1 && e.code <= es[n - 2].code then None else Some(es + [e])
  }

  // ----- the font object -----

  datatype Font = Font(name: Option<seq<byte>>, pointSize: int, weight: int, maxWidth: int, maxHeight: int,
                       ascent: int, descent: int, index: seq<IndexEntry>)

  /** font_init. */
  const EMPTY: Font := Font(None, 0, 0, 0, 0, 0, 0, [])

  datatype Kind = NameKind | SizeKind | WeightKind | WidthKind | HeightKind | AscentKind | DescentKind | IndexKind | DataKind | OtherKind

  predicate Spells(name: seq<byte>, s: string)
    requires |name| == |s| == 4
  {
    && name[0] == s[0] as int % 256 && name[1] == s[1] as int % 256
    && name[2] == s[2] as int % 256 && name[3] == s[3] as int % 256
  }

  /** The comparisons with the known section names, in the loader's order. */
  function KindOf(name: seq<byte>): Kind
    requires |name| == 4
  {
    if Spells(name, "NAME") then NameKind
    else if Spells(name, "PTSZ") then SizeKind
    else if Spells(name, "WEIG") then WeightKind
    else if Spells(name, "MAXW") then WidthKind
    else if Spells(name, "MAXH") then HeightKind
    else if Spells(name, "ASCE") then AscentKind
    else if Spells(name, "DESC") then DescentKind
    else if Spells(name, "CHIX") then IndexKind
    else if Spells(name, "DATA") then DataKind
    else OtherKind
  }

  /** The characters in front of the first zero byte. */
  function CString(b: seq<byte>): seq<byte> {
    if |b| == 0 || b[0] == 0 then [] else [b[0]] + CString(b[1..])
  }

  function WeightOf(text: seq<byte>, before: int): int {
    if text == Ascii("normal") then 100 else if text == Ascii("bold") then 200 else before
  }

  /** A section that is neither the index nor the data marker, once its body is in memory. */
  function Absorb(font: Font, kind: Kind, body: seq<byte>): Option<Font>
    requires kind != IndexKind && kind != DataKind
  {
    match kind
    case NameKind => Some(font.(name := Some(CString(body))))
    case WeightKind => Some(font.(weight := WeightOf(CString(body), font.weight)))
    case OtherKind => Some(font)
    case _ =>
      if |body| != 2 then None
      else
        var v := Wrap16(FromBE(body));
        match kind
        case SizeKind => Some(font.(pointSize := v))
        case WidthKind => Some(font.(maxWidth := v))
        case HeightKind => Some(font.(maxHeight := v))
        case AscentKind => Some(font.(ascent := v))
        case _ => Some(font.(descent := v))
  }

  /** The checks at the end: no zero among the four metrics, and at least one character. */
  function Complete(font: Font): Option<Font> {
    if font.maxWidth == 0 || font.maxHeight == 0 || font.index == [] || font.ascent == 0 || font.descent == 0 then None
    else Some(if font.name.None? then font.(name := Some(Ascii("Unknown"))) else font)
  }

  /** Walk the sections from pos until the DATA marker or the end of the file. A weight that is cut off
      ends the walk, any other section that is cut off refuses the font; skipping from the one position
      that reads as -1 refuses it too. */
  function LoadFrom(file: seq<byte>, pos: nat, font: Font): Option<Font>
    decreases |file| - pos
  {
    if pos + 8 > |file| then Complete(font)
    else
      var kind, length, body := KindOf(file[pos..pos + 4]), Unsigned(file, pos + 4, 4), pos + 8;
      if kind == DataKind then Complete(font)
      else if kind == IndexKind then
        if length % 9 != 0 then None
        else
          match LoadIndex(file, body, length / 9)
          case None => None
          case Some(es) => LoadFrom(file, body + length, font.(index := es))
      else if body + length > |file| then
        if kind == WeightKind then Complete(font) else None
      else if kind == OtherKind && body % LIMIT == LIMIT - 1 then None
      else
        match Absorb(font, kind, file[body..body + length])
        case None => None
        case Some(font') => LoadFrom(file, body + length, font')
  }

  function Load(file: seq<byte>): Option<Font> {
    if |file| < 12 || file[..4] != Ascii("FILE") || Unsigned(file, 4, 4) != 4 || file[8..12] != Ascii("PFF2") then None
    else LoadFrom(file, 12, EMPTY)
  }

  /** Seek to the offset of an index entry and read one glyph. */
  function ReadGlyph(file: seq<byte>, offset: nat): Option<LoadedGlyph> {
    if offset + 10 > |file| then None
    else
      var w, h := Unsigned(file, offset, 2), Unsigned(file, offset + 2, 2);
      var length := (w * h + 7) / 8;
      if offset + 10 + length > |file| then None
      else
        Some(LoadedGlyph(w, h, Signed16(file, offset + 4), Signed16(file, offset + 6), Signed16(file, offset + 8),
                         file[offset + 10..offset + 10 + length]))
  }

  // ----- fields -----

  lemma UnsignedReadsBack(file: seq<byte>, pos: nat, w: nat, v: int)
    requires pos + w <= |file| && file[pos..pos + w] == ToBE(v, w)
    ensures Unsigned(file, pos, w) == v % Modulus(w)
  {
    BERoundTrip(v, w);
  }

  lemma Moduli()
    ensures Modulus(2) == 0x10000 && Modulus(4) == LIMIT
  {
    assert Modulus(4) == 256 * (256 * Modulus(2));
  }

  lemma SignedReadsBack(file: seq<byte>, pos: nat, v: int)
    requires pos + 2 <= |file| && file[pos..pos + 2] == ToBE(v, 2)
    ensures Signed16(file, pos) == Wrap16(v)
  {
    UnsignedReadsBack(file, pos, 2, v);
    Moduli();
  }

  /** Metrics that fit their 16-bit fields, and a bitmap of the size the loader computes. */
  predicate Storable(g: Glyph) {
    && g.width < 0x10000 && g.height < 0x10000
    && -0x8000 <= g.xOfs < 0x8000 && -0x8000 <= g.yOfs < 0x8000 && -0x8000 <= g.deviceWidth < 0x8000
    && |g.bitmap| == (g.width * g.height + 7) / 8
  }

  function AsLoaded(g: Glyph): LoadedGlyph
    requires Storable(g)
  {
    LoadedGlyph(g.width, g.height, g.xOfs, g.yOfs, g.deviceWidth, g.bitmap)
  }

  /** A run of bytes stands at a position. */
  predicate StandsAt(file: seq<byte>, pos: nat, run: seq<byte>) { pos + |run| <= |file| && file[pos..pos + |run|] == run }

  lemma SplitStands(file: seq<byte>, pos: nat, a: seq<byte>, b: seq<byte>)
    requires StandsAt(file, pos, a + b)
    ensures StandsAt(file, pos, a) && StandsAt(file, pos + |a|, b)
  {
    assert (a + b)[..|a|] == a && (a + b)[|a|..] == b;
    assert file[pos..pos + |a|] == file[pos..pos + |a + b|][..|a|];
    assert file[pos + |a|..pos + |a + b|] == file[pos..pos + |a + b|][|a|..];
  }

  lemma SixStand(file: seq<byte>, pos: nat, a: seq<byte>, b: seq<byte>, c: seq<byte>, d: seq<byte>, e: seq<byte>, f: seq<byte>)
    requires StandsAt(file, pos, a + b + c + d + e + f)
    ensures StandsAt(file, pos, a)
    ensures StandsAt(file, pos + |a|, b)
    ensures StandsAt(file, pos + |a| + |b|, c)
    ensures StandsAt(file, pos + |a| + |b| + |c|, d)
    ensures StandsAt(file, pos + |a| + |b| + |c| + |d|, e)
    ensures StandsAt(file, pos + |a| + |b| + |c| + |d| + |e|, f)
  {
    hide StandsAt;
    SplitStands(file, pos, a + b + c + d + e, f);
    SplitStands(file, pos, a + b + c + d, e);
    SplitStands(file, pos, a + b + c, d);
    SplitStands(file, pos, a + b, c);
    SplitStands(file, pos, a, b);
  }

  lemma GlyphStands(file: seq<byte>, pos: nat, g: Glyph)
    requires Storable(g) && StandsAt(file, pos, GlyphBytes(g))
    ensures pos + 10 + |g.bitmap| <= |file|
    ensures Unsigned(file, pos, 2) == g.width && Unsigned(file, pos + 2, 2) == g.height
    ensures Signed16(file, pos + 4) == g.xOfs && Signed16(file, pos + 6) == g.yOfs && Signed16(file, pos + 8) == g.deviceWidth
    ensures file[pos + 10..pos + 10 + |g.bitmap|] == g.bitmap
  {
    hide ToBE, Unsigned, Signed16;
    Moduli();
    SixStand(file, pos, ToBE(g.width, 2), ToBE(g.height, 2), ToBE(g.xOfs, 2), ToBE(g.yOfs, 2), ToBE(g.deviceWidth, 2), g.bitmap);
    UnsignedReadsBack(file, pos, 2, g.width);
    UnsignedReadsBack(file, pos + 2, 2, g.height);
    SignedReadsBack(file, pos + 4, g.xOfs);
    SignedReadsBack(file, pos + 6, g.yOfs);
    SignedReadsBack(file, pos + 8, g.deviceWidth);
  }

  lemma GlyphReadsBack(file: seq<byte>, pos: nat, g: Glyph)
    requires Storable(g) && StandsAt(file, pos, GlyphBytes(g))
    ensures ReadGlyph(file, pos) == Some(AsLoaded(g))
  {
    GlyphStands(file, pos, g);
    hide Unsigned, Signed16, StandsAt;
  }

  // ----- the index -----

  predicate Ascending(gs: seq<Glyph>, n: nat)
    requires n <= |gs|
  {
    forall i :: 0 < i < n ==> gs[i - 1].charCode < gs[i].charCode
  }

  function Entries(gs: seq<Glyph>, n: nat, first: nat): (r: seq<IndexEntry>)
    requires n <= |gs|
    ensures |r| == n
  {
    if n == 0 then [] else Entries(gs, n - 1, first) + [IndexEntry(gs[n - 1].charCode, 0, first + GlyphSpace(gs, n - 1))]
  }

  lemma ByteReadsBack(file: seq<byte>, pos: nat, b: byte)
    requires StandsAt(file, pos, [b])
    ensures pos < |file| && file[pos] == b
  {
    assert file[pos..pos + 1][0] == b;
  }

  lemma FieldReadsBack(file: seq<byte>, pos: nat, v: nat)
    requires StandsAt(file, pos, ToBE(v, 4)) && v < LIMIT
    ensures pos + 4 <= |file| && Unsigned(file, pos, 4) == v
  {
    hide ToBE;
    Moduli();
    UnsignedReadsBack(file, pos, 4, v);
  }

  lemma EntryReadsBack(file: seq<byte>, at: nat, g: Glyph, offset: nat)
    requires StandsAt(file, at, EntryBytes(g, offset)) && offset < LIMIT
    ensures at + 9 <= |file| && ReadEntry(file, at) == IndexEntry(g.charCode, 0, offset)
  {
    hide ToBE, StandsAt, Unsigned;
    var c, o := ToBE(g.charCode, 4), ToBE(offset, 4);
    SplitStands(file, at, c + [0], o);
    SplitStands(file, at, c, [0]);
    FieldReadsBack(file, at, g.charCode);
    ByteReadsBack(file, at + 4, 0);
    FieldReadsBack(file, at + 5, offset);
  }

  lemma LastEntry(gs: seq<Glyph>, n: nat, first: nat)
    requires 0 < n <= |gs|
    ensures Entries(gs, n, first)[n - 1].code == gs[n - 1].charCode
  {
  }

  /** The loader accepts the index exactly when the codes ascend, and then has every code and offset. */
  lemma {:induction false} IndexReadsBack(file: seq<byte>, pos: nat, gs: seq<Glyph>, n: nat, first: nat)
    requires n <= |gs| && StandsAt(file, pos, IndexBytes(gs, n, first))
    requires first + GlyphSpace(gs, n) < LIMIT
    ensures LoadIndex(file, pos, n) == if Ascending(gs, n) then Some(Entries(gs, n, first)) else None
  {
    hide EntryBytes, ReadEntry, StandsAt;
    if n > 0 {
      var offset := first + GlyphSpace(gs, n - 1);
      SplitStands(file, pos, IndexBytes(gs, n - 1, first), EntryBytes(gs[n - 1], offset));
      IndexReadsBack(file, pos, gs, n - 1, first);
      EntryReadsBack(file, pos + 9 * (n - 1), gs[n - 1], offset);
      hide IndexBytes, GlyphSpace;
      if n > 1 { LastEntry(gs, n - 1, first); }
    }
  }

  // ----- the header -----

  /** A section of the header that the loader has a use for, or skips, without fault. */
  predicate Readable(s: Section) {
    |s.name| == 4 && s.body != [] && KindOf(Ascii(s.name)) != IndexKind && KindOf(Ascii(s.name)) != DataKind
  }

  /** The font after the loader has read the first n sections. */
  function AbsorbAll(font: Font, ss: seq<Section>, n: nat): Option<Font>
    requires n <= |ss| && forall k :: 0 <= k < |ss| ==> Readable(ss[k])
  {
    if n == 0 then Some(font)
    else
      match AbsorbAll(font, ss, n - 1)
      case None => None
      case Some(font') => Absorb(font', KindOf(Ascii(ss[n - 1].name)), ss[n - 1].body)
  }

  /** A marker with its length stands at pos. */
  lemma MarkerReadsBack(file: seq<byte>, pos: nat, name: string, length: int)
    requires |name| == 4 && StandsAt(file, pos, Marker(name, length))
    ensures pos + 8 <= |file| && file[pos..pos + 4] == Ascii(name) && Unsigned(file, pos + 4, 4) == length % LIMIT
  {
    hide ToBE, Ascii;
    Moduli();
    SplitStands(file, pos, Ascii(name), ToBE(length, 4));
    UnsignedReadsBack(file, pos + 4, 4, length);
  }

  lemma SectionStep(file: seq<byte>, pos: nat, s: Section, font: Font)
    requires Readable(s) && StandsAt(file, pos, SectionBytes(s)) && |file| < LIMIT
    ensures LoadFrom(file, pos, font) == match Absorb(font, KindOf(Ascii(s.name)), s.body)
                                         case None => None
                                         case Some(font') => LoadFrom(file, pos + |SectionBytes(s)|, font')
  {
    hide ToBE, Ascii, Marker, Unsigned, LoadIndex, KindOf, Absorb, Complete;
    SplitStands(file, pos, Marker(s.name, |s.body|), s.body);
    MarkerReadsBack(file, pos, s.name, |s.body|);
  }

  lemma {:induction false} SectionsStep(file: seq<byte>, pos: nat, ss: seq<Section>, n: nat, font: Font)
    requires n <= |ss| && (forall k :: 0 <= k < |ss| ==> Readable(ss[k])) && |file| < LIMIT
    requires StandsAt(file, pos, SectionsBytes(ss[..n]))
    ensures var r := AbsorbAll(font, ss, n);
            && (r.Some? ==> LoadFrom(file, pos, font) == LoadFrom(file, pos + |SectionsBytes(ss[..n])|, r.value))
            && (r.None? ==> LoadFrom(file, pos, font) == None)
  {
    hide SectionBytes, StandsAt, LoadFrom, Readable, Marker, Absorb, KindOf;
    if n > 0 {
      assert ss[..n][..n - 1] == ss[..n - 1];
      SplitStands(file, pos, SectionsBytes(ss[..n - 1]), SectionBytes(ss[n - 1]));
      SectionsStep(file, pos, ss, n - 1, font);
      var r := AbsorbAll(font, ss, n - 1);
      if r.Some? {
        SectionStep(file, pos + |SectionsBytes(ss[..n - 1])|, ss[n - 1], r.value);
      }
    }
  }

  lemma Regroup<T>(a: seq<T>, b: seq<T>, c: seq<T>)
    ensures a + (b + c) == (a + b) + c
  {
  }

  lemma {:induction false} SectionsAppend(a: seq<Section>, b: seq<Section>)
    ensures SectionsBytes(a + b) == SectionsBytes(a) + SectionsBytes(b)
  {
    hide SectionBytes;
    if |b| == 0 {
      assert a + b == a;
    } else {
      var init, s := b[..|b| - 1], b[|b| - 1];
      assert (a + b)[..|a + b| - 1] == a + init;
      SectionsAppend(a, init);
      Regroup(SectionsBytes(a), SectionsBytes(init), SectionBytes(s));
    }
  }

  lemma KindsOfNames()
    ensures KindOf(Ascii("NAME")) == NameKind && KindOf(Ascii("WEIG")) == WeightKind
    ensures KindOf(Ascii("FAMI")) == OtherKind && KindOf(Ascii("SLAN")) == OtherKind
    ensures KindOf(Ascii("CHIX")) == IndexKind && KindOf(Ascii("DATA")) == DataKind
  {
  }

  lemma KindsOfMetrics()
    ensures KindOf(Ascii("PTSZ")) == SizeKind && KindOf(Ascii("MAXW")) == WidthKind && KindOf(Ascii("MAXH")) == HeightKind
    ensures KindOf(Ascii("ASCE")) == AscentKind && KindOf(Ascii("DESC")) == DescentKind
  {
  }

  lemma {:induction false} CStringStops(s: seq<byte>)
    ensures CString(s + [0]) == CString(s)
    ensures 0 !in s ==> CString(s) == s
  {
    if |s| > 0 {
      assert (s + [0])[1..] == s[1..] + [0];
      CStringStops(s[1..]);
      assert 0 !in s ==> 0 !in s[1..];
      assert s == [s[0]] + s[1..];
    }
  }

  lemma WeightReadsBack(bold: bool, before: int)
    ensures WeightOf(CString(Ascii(if bold then "bold" else "normal") + [0]), before) == if bold then 200 else 100
  {
    var s := Ascii(if bold then "bold" else "normal");
    CStringStops(s);
    assert 0 !in s;
    hide CString;
    assert |Ascii("bold")| != |Ascii("normal")|;
  }

  /** What the loader knows once it has read the header. */
  function HeaderFont(info: FontInfo): Font {
    Font(Some(CString(info.fontName)), Wrap16(info.size), if info.bold then 200 else 100,
         Wrap16(info.maxWidth), Wrap16(info.maxHeight), Wrap16(Ascent(info)), Wrap16(Descent(info)), [])
  }

  /** The sections behind the first. */
  function Rest(info: FontInfo): (ss: seq<Section>)
    ensures |ss| == 9
    ensures Header(info) == [Section("FILE", Ascii("PFF2"))] + ss
  {
    hide Ascii, ToBE;
    Header(info)[1..]
  }

  lemma RestReadable(info: FontInfo)
    ensures forall k :: 0 <= k < 9 ==> Readable(Rest(info)[k])
  {
    KindsOfNames();
    KindsOfMetrics();
    hide Ascii, ToBE, KindOf;
  }

  lemma NamesRead(info: FontInfo)
    requires forall k :: 0 <= k < 9 ==> Readable(Rest(info)[k])
    ensures AbsorbAll(EMPTY, Rest(info), 4)
         == Some(EMPTY.(name := Some(CString(info.fontName)), weight := if info.bold then 200 else 100))
  {
    KindsOfNames();
    CStringStops(info.fontName);
    WeightReadsBack(info.bold, 0);
    hide Ascii, ToBE, KindOf, CString, WeightOf, Readable;
    AbsorbNext(EMPTY, Rest(info), 1);
    AbsorbNext(EMPTY, Rest(info), 2);
    AbsorbNext(EMPTY, Rest(info), 3);
    AbsorbNext(EMPTY, Rest(info), 4);
  }

  lemma AbsorbNext(font: Font, ss: seq<Section>, n: nat)
    requires 0 < n <= |ss| && forall k :: 0 <= k < |ss| ==> Readable(ss[k])
    ensures AbsorbAll(font, ss, n) == match AbsorbAll(font, ss, n - 1)
                                      case None => None
                                      case Some(font') => Absorb(font', KindOf(Ascii(ss[n - 1].name)), ss[n - 1].body)
  {
    hide Absorb, Ascii, KindOf, Readable;
  }

  lemma ShortReadsBack(v: int)
    ensures Wrap16(FromBE(ToBE(v, 2))) == Wrap16(v)
  {
    BERoundTrip(v, 2);
    Moduli();
  }

  lemma RestMetrics(info: FontInfo)
    ensures Rest(info)[4] == Be16Section("PTSZ", info.size)
    ensures Rest(info)[5] == Be16Section("MAXW", info.maxWidth)
    ensures Rest(info)[6] == Be16Section("MAXH", info.maxHeight)
    ensures Rest(info)[7] == Be16Section("ASCE", Ascent(info))
    ensures Rest(info)[8] == Be16Section("DESC", Descent(info))
  {
    hide ToBE, Ascii, Ascent, Descent;
  }

  /** Section n holds the short number v under the given name. */
  lemma AbsorbShort(font: Font, ss: seq<Section>, n: nat, name: string, v: int)
    requires n < |ss| && (forall k :: 0 <= k < |ss| ==> Readable(ss[k]))
    requires |name| == 4 && ss[n] == Be16Section(name, v) && AbsorbAll(font, ss, n).Some?
    ensures var font', r := AbsorbAll(font, ss, n).value, AbsorbAll(font, ss, n + 1);
            match KindOf(Ascii(name))
            case SizeKind => r == Some(font'.(pointSize := Wrap16(v)))
            case WidthKind => r == Some(font'.(maxWidth := Wrap16(v)))
            case HeightKind => r == Some(font'.(maxHeight := Wrap16(v)))
            case AscentKind => r == Some(font'.(ascent := Wrap16(v)))
            case DescentKind => r == Some(font'.(descent := Wrap16(v)))
            case _ => true
  {
    hide Ascii, ToBE, FromBE, KindOf, CString, WeightOf, Readable, Wrap16;
    ShortReadsBack(v);
    AbsorbNext(font, ss, n + 1);
  }

  lemma RestAbsorbed(info: FontInfo)
    requires forall k :: 0 <= k < 9 ==> Readable(Rest(info)[k])
    ensures AbsorbAll(EMPTY, Rest(info), 9) == Some(HeaderFont(info))
  {
    hide Ascii, KindOf, CString, Readable, Wrap16, Ascent, Descent, Rest, Absorb, AbsorbAll, Be16Section;
    NamesRead(info);
    KindsOfMetrics();
    RestMetrics(info);
    AbsorbShort(EMPTY, Rest(info), 4, "PTSZ", info.size);
    AbsorbShort(EMPTY, Rest(info), 5, "MAXW", info.maxWidth);
    AbsorbShort(EMPTY, Rest(info), 6, "MAXH", info.maxHeight);
    AbsorbShort(EMPTY, Rest(info), 7, "ASCE", Ascent(info));
    AbsorbShort(EMPTY, Rest(info), 8, "DESC", Descent(info));
  }

  // ----- the whole file -----

  lemma FontUnfolds(info: FontInfo, gs: seq<Glyph>)
    ensures FontBytes(info, gs) == SectionsBytes(Header(info)) + IndexSection(info, gs) + Marker("DATA", -1) + DataBytes(gs, |gs|)
  {
  }

  function IndexSection(info: FontInfo, gs: seq<Glyph>): (b: seq<byte>)
    ensures |b| == 8 + 9 * |gs|
  {
    Marker("CHIX", 9 * |gs|) + IndexBytes(gs, |gs|, FirstGlyph(info, gs))
  }

  lemma WholeStands(file: seq<byte>)
    ensures StandsAt(file, 0, file)
  {
  }

  lemma FontSize(info: FontInfo, gs: seq<Glyph>)
    ensures |FontBytes(info, gs)| == FirstGlyph(info, gs) + GlyphSpace(gs, |gs|)
  {
    hide Header, Marker, IndexBytes, DataBytes, GlyphSpace, SectionsBytes;
  }

  lemma FourStand(file: seq<byte>, a: seq<byte>, b: seq<byte>, c: seq<byte>, d: seq<byte>)
    requires StandsAt(file, 0, a + b + c + d)
    ensures StandsAt(file, 0, a) && StandsAt(file, |a|, b)
    ensures StandsAt(file, |a| + |b|, c) && StandsAt(file, |a| + |b| + |c|, d)
  {
    hide StandsAt;
    SplitStands(file, 0, a + b + c, d);
    SplitStands(file, 0, a + b, c);
    SplitStands(file, 0, a, b);
  }

  /** The loader reaches the index behind the header, knowing what the header says. */
  lemma WalkHeader(info: FontInfo, file: seq<byte>)
    requires StandsAt(file, 0, SectionsBytes(Header(info))) && |file| < LIMIT
    ensures Load(file) == LoadFrom(file, |SectionsBytes(Header(info))|, HeaderFont(info))
  {
    hide *;
    var rest := Rest(info);
    RestReadable(info);
    RestAbsorbed(info);
    HeaderStands(info, file);
    assert rest[..9] == rest;
    SectionsStep(file, 12, rest, 9, EMPTY);
  }

  lemma HeaderStands(info: FontInfo, file: seq<byte>)
    requires StandsAt(file, 0, SectionsBytes(Header(info)))
    ensures |SectionsBytes(Header(info))| == 12 + |SectionsBytes(Rest(info))| && StandsAt(file, 12, SectionsBytes(Rest(info)))
    ensures Load(file) == LoadFrom(file, 12, EMPTY)
  {
    hide *;
    var first := [Section("FILE", Ascii("PFF2"))];
    SectionsAppend(first, Rest(info));
    FileSection(file, first, SectionsBytes(Rest(info)));
  }

  lemma OneSection(s: Section)
    ensures SectionsBytes([s]) == SectionBytes(s)
  {
    hide SectionBytes;
    assert [s][..0] == [];
  }

  lemma FileSection(file: seq<byte>, first: seq<Section>, rest: seq<byte>)
    requires first == [Section("FILE", Ascii("PFF2"))] && StandsAt(file, 0, SectionsBytes(first) + rest)
    ensures |SectionsBytes(first)| == 12 && StandsAt(file, 12, rest) && Load(file) == LoadFrom(file, 12, EMPTY)
  {
    hide Ascii, ToBE, LoadFrom, Unsigned, SectionsBytes, Marker;
    OneSection(first[0]);
    SplitStands(file, 0, SectionBytes(first[0]), rest);
    SplitStands(file, 0, Marker("FILE", 4), Ascii("PFF2"));
    MarkerReadsBack(file, 0, "FILE", 4);
  }

  lemma IndexStep(file: seq<byte>, pos: nat, n: nat, font: Font)
    requires 9 * n < LIMIT && StandsAt(file, pos, Marker("CHIX", 9 * n))
    ensures LoadFrom(file, pos, font) == match LoadIndex(file, pos + 8, n)
                                         case None => None
                                         case Some(es) => LoadFrom(file, pos + 8 + 9 * n, font.(index := es))
  {
    KindsOfNames();
    hide Ascii, Unsigned, LoadIndex, StandsAt, Marker, KindOf, Absorb, Complete;
    MarkerReadsBack(file, pos, "CHIX", 9 * n);
  }

  lemma DataStep(file: seq<byte>, pos: nat, font: Font)
    requires StandsAt(file, pos, Marker("DATA", -1))
    ensures LoadFrom(file, pos, font) == Complete(font)
  {
    KindsOfNames();
    MarkerReadsBack(file, pos, "DATA", -1);
    hide Ascii, Unsigned, LoadIndex, StandsAt, Marker, KindOf, Absorb, Complete;
  }

  /** None of the four metrics the loader asks for is stored as zero. */
  predicate Measured(info: FontInfo) {
    && info.maxWidth % 0x10000 != 0 && info.maxHeight % 0x10000 != 0
    && Ascent(info) % 0x10000 != 0 && Descent(info) % 0x10000 != 0
  }

  lemma CompleteExactly(info: FontInfo, es: seq<IndexEntry>)
    ensures Complete(HeaderFont(info).(index := es))
         == if es != [] && Measured(info) then Some(HeaderFont(info).(index := es)) else None
  {
    hide CString, Ascent, Descent;
  }

  /** The loader accepts the written font exactly when its codes strictly ascend, there is at least one,
      and none of the four metrics is stored as zero; it then holds the name, the metrics, and every
      glyph's code and offset. */
  lemma FontLoads(info: FontInfo, gs: seq<Glyph>)
    requires |FontBytes(info, gs)| < LIMIT
    ensures Load(FontBytes(info, gs))
         == if Ascending(gs, |gs|) && gs != [] && Measured(info)
            then Some(HeaderFont(info).(index := Entries(gs, |gs|, FirstGlyph(info, gs)))) else None
  {
    hide Header, SectionsBytes, FontBytes, Unsigned, LoadIndex, IndexBytes, DataBytes, StandsAt, Load, LoadFrom, Entries, Marker,
      Ascending, GlyphSpace, Complete, HeaderFont, Measured;
    var file, h, n, first := FontBytes(info, gs), |SectionsBytes(Header(info))|, |gs|, FirstGlyph(info, gs);
    var font := HeaderFont(info);
    FontSize(info, gs);
    FontStands(info, gs);
    WalkHeader(info, file);
    SplitStands(file, h, Marker("CHIX", 9 * n), IndexBytes(gs, n, first));
    IndexStep(file, h, n, font);
    IndexReadsBack(file, h + 8, gs, n, first);
    if Ascending(gs, n) {
      DataStep(file, h + 8 + 9 * n, font.(index := Entries(gs, n, first)));
      CompleteExactly(info, Entries(gs, n, first));
    }
  }

  lemma PartSizes(info: FontInfo, gs: seq<Glyph>)
    ensures |IndexSection(info, gs)| == 8 + 9 * |gs| && |Marker("DATA", -1)| == 8
    ensures FirstGlyph(info, gs) == |SectionsBytes(Header(info))| + (8 + 9 * |gs|) + 8
  {
  }

  /** Where the parts of the file stand. */
  lemma FontStands(info: FontInfo, gs: seq<Glyph>)
    ensures var file, h := FontBytes(info, gs), |SectionsBytes(Header(info))|;
            && StandsAt(file, 0, SectionsBytes(Header(info))) && StandsAt(file, h, IndexSection(info, gs))
            && StandsAt(file, h + 8 + 9 * |gs|, Marker("DATA", -1))
            && StandsAt(file, FirstGlyph(info, gs), DataBytes(gs, |gs|))
  {
    hide *;
    FontUnfolds(info, gs);
    PartSizes(info, gs);
    WholeStands(FontBytes(info, gs));
    FourStand(FontBytes(info, gs), SectionsBytes(Header(info)), IndexSection(info, gs), Marker("DATA", -1), DataBytes(gs, |gs|));
  }

  lemma {:induction false} GlyphStandsAt(file: seq<byte>, pos: nat, gs: seq<Glyph>, n: nat, i: nat)
    requires i < n <= |gs| && StandsAt(file, pos, DataBytes(gs, n))
    ensures StandsAt(file, pos + GlyphSpace(gs, i), GlyphBytes(gs[i]))
  {
    hide StandsAt, GlyphBytes;
    SplitStands(file, pos, DataBytes(gs, n - 1), GlyphBytes(gs[n - 1]));
    if i < n - 1 { GlyphStandsAt(file, pos, gs, n - 1, i); }
  }

  lemma {:induction false} EntryAt(gs: seq<Glyph>, n: nat, first: nat, i: nat)
    requires i < n <= |gs|
    ensures Entries(gs, n, first)[i] == IndexEntry(gs[i].charCode, 0, first + GlyphSpace(gs, i))
  {
    if i < n - 1 { EntryAt(gs, n - 1, first, i); }
  }

  lemma {:induction false} EntryStandsAt(file: seq<byte>, pos: nat, gs: seq<Glyph>, n: nat, first: nat, i: nat)
    requires i < n <= |gs| && StandsAt(file, pos, IndexBytes(gs, n, first))
    ensures StandsAt(file, pos + 9 * i, EntryBytes(gs[i], first + GlyphSpace(gs, i)))
  {
    hide StandsAt, EntryBytes, GlyphSpace;
    SplitStands(file, pos, IndexBytes(gs, n - 1, first), EntryBytes(gs[n - 1], first + GlyphSpace(gs, n - 1)));
    if i < n - 1 { EntryStandsAt(file, pos, gs, n - 1, first, i); }
  }

  lemma {:induction false} SpaceGrows(gs: seq<Glyph>, i: nat, n: nat)
    requires i <= n <= |gs|
    ensures GlyphSpace(gs, i) <= GlyphSpace(gs, n)
  {
    if i < n { SpaceGrows(gs, i, n - 1); }
  }

  /** Where entry i of the index stands in the file. */
  function EntryPlace(info: FontInfo, i: nat): nat { |SectionsBytes(Header(info))| + 8 + 9 * i }

  lemma EntryInFile(info: FontInfo, gs: seq<Glyph>, i: nat)
    requires |FontBytes(info, gs)| < LIMIT && i < |gs|
    ensures var file, at := FontBytes(info, gs), EntryPlace(info, i);
            at + 9 <= |file| && ReadEntry(file, at) == IndexEntry(gs[i].charCode, 0, FirstGlyph(info, gs) + GlyphSpace(gs, i))
  {
    hide FontBytes, IndexBytes, GlyphSpace, StandsAt, SectionsBytes, Header, Marker, EntryBytes, ReadEntry, DataBytes;
    var file, h, first := FontBytes(info, gs), |SectionsBytes(Header(info))|, FirstGlyph(info, gs);
    FontStands(info, gs);
    FontSize(info, gs);
    SpaceGrows(gs, i, |gs|);
    SplitStands(file, h, Marker("CHIX", 9 * |gs|), IndexBytes(gs, |gs|, first));
    EntryStandsAt(file, h + 8, gs, |gs|, first, i);
    EntryReadsBack(file, h + 8 + 9 * i, gs[i], first + GlyphSpace(gs, i));
  }

  /** The index is exact, whatever the font's name and its list of glyphs, sorted or not, with repeated codes
      or without: the entry that stands for glyph i holds its code, and seeking to the offset
      in it fetches that glyph's metrics and bitmap. */
  lemma IndexIsExact(info: FontInfo, gs: seq<Glyph>, i: nat)
    requires |FontBytes(info, gs)| < LIMIT && i < |gs| && Storable(gs[i])
    ensures var file, at := FontBytes(info, gs), EntryPlace(info, i);
            && at + 9 <= |file| && ReadEntry(file, at).code == gs[i].charCode
            && ReadGlyph(file, ReadEntry(file, at).offset) == Some(AsLoaded(gs[i]))
  {
    hide FontBytes, ReadGlyph, GlyphBytes, DataBytes, GlyphSpace, StandsAt, SectionsBytes, Header, Marker, IndexSection, ReadEntry,
      EntryPlace;
    var file, first := FontBytes(info, gs), FirstGlyph(info, gs);
    EntryInFile(info, gs, i);
    FontStands(info, gs);
    GlyphStandsAt(file, first, gs, |gs|, i);
    GlyphReadsBack(file, first + GlyphSpace(gs, i), gs[i]);
  }

  /** A loaded font holds the file's index entries. */
  lemma LoadedEntry(info: FontInfo, gs: seq<Glyph>, i: nat)
    requires |FontBytes(info, gs)| < LIMIT && i < |gs| && Load(FontBytes(info, gs)).Some?
    ensures var file, at, index := FontBytes(info, gs), EntryPlace(info, i), Load(FontBytes(info, gs)).value.index;
            && |index| == |gs| && at + 9 <= |file| && index[i] == ReadEntry(file, at)
            && index[i].code == gs[i].charCode
  {
    hide FontBytes, Load, Entries, GlyphSpace, SectionsBytes, Header, Ascending, ReadEntry, HeaderFont, Measured;
    FontLoads(info, gs);
    EntryInFile(info, gs, i);
    EntryAt(gs, |gs|, FirstGlyph(info, gs), i);
    HeaderIndex(info, Entries(gs, |gs|, FirstGlyph(info, gs)));
  }

  lemma HeaderIndex(info: FontInfo, es: seq<IndexEntry>)
    ensures HeaderFont(info).(index := es).index == es
  {
  }
}
