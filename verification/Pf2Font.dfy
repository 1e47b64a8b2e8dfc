/** The PF2 font file: the writer, which computes every glyph's offset before the glyph is written,
    against the way the boot loader opens the file and fetches a glyph. */
module Pf2Font {
  import opened Outcomes
  import opened Words
  import opened GlyphSort

  function Ascii(s: string): (b: seq<byte>)
    ensures |b| == |s|
  {
    seq(|s|, i requires 0 <= i < |s| => (s[i] as int) % 256)
  }

  /** One section of the header: a four-letter name and its contents. */
  datatype Section = Section(name: string, body: seq<byte>)

  /** What announces a section: its name and a big-endian length. */
  function Marker(name: string, length: int): (b: seq<byte>)
    ensures |b| == |name| + 4
  {
    Ascii(name) + ToBE(length, 4)
  }

  function SectionBytes(s: Section): seq<byte> { Marker(s.name, |s.body|) + s.body }

  function SectionsBytes(ss: seq<Section>): seq<byte> {
    if |ss| == 0 then [] else SectionsBytes(ss[..|ss| - 1]) + SectionBytes(ss[|ss| - 1])
  }

  datatype FontInfo = FontInfo(fontName: seq<byte>, family: seq<byte>, bold: bool, italic: bool, size: int, maxWidth: int, maxHeight: int,
                               minY: int, maxY: int, asce: int, desc: int)

  function Descent(info: FontInfo): int {
    if info.desc != 0 then info.desc else if info.minY >= 0 then 1 else -info.minY
  }

  function Ascent(info: FontInfo): int {
    if info.asce != 0 then info.asce else if info.maxY <= 0 then 1 else info.maxY
  }

  function StringSection(name: string, s: seq<byte>): Section { Section(name, s + [0]) }

  function Be16Section(name: string, v: int): Section { Section(name, ToBE(v, 2)) }

  function Names(info: FontInfo): seq<Section> {
    [ Section("FILE", Ascii("PFF2")),
      StringSection("NAME", info.fontName),
      StringSection("FAMI", info.family),
      StringSection("WEIG", Ascii(if info.bold then "bold" else "normal")),
      StringSection("SLAN", Ascii(if info.italic then "italic" else "normal")) ]
  }

  function Metrics(info: FontInfo): seq<Section> {
    [ Be16Section("PTSZ", info.size),
      Be16Section("MAXW", info.maxWidth),
      Be16Section("MAXH", info.maxHeight),
      Be16Section("ASCE", Ascent(info)),
      Be16Section("DESC", Descent(info)) ]
  }

  /** Everything in front of the character index. */
  function Header(info: FontInfo): seq<Section> { Names(info) + Metrics(info) }

  // ----- the contents of the file -----

  function GlyphBytes(g: Glyph): (b: seq<byte>)
    ensures |b| == 10 + |g.bitmap|
  {
    ToBE(g.width, 2) + ToBE(g.height, 2) + ToBE(g.xOfs, 2) + ToBE(g.yOfs, 2) + ToBE(g.deviceWidth, 2) + g.bitmap
  }

  function EntryBytes(g: Glyph, offset: nat): (b: seq<byte>)
    ensures |b| == 9
  {
    ToBE(g.charCode, 4) + [0] + ToBE(offset, 4)
  }

  /** How many bytes the first n glyphs take. */
  function GlyphSpace(gs: seq<Glyph>, n: nat): nat
    requires n <= |gs|
  {
    if n == 0 then 0 else GlyphSpace(gs, n - 1) + 10 + |gs[n - 1].bitmap|
  }

  function IndexBytes(gs: seq<Glyph>, n: nat, first: nat): (b: seq<byte>)
    requires n <= |gs|
    ensures |b| == 9 * n
  {
    if n == 0 then [] else IndexBytes(gs, n - 1, first) + EntryBytes(gs[n - 1], first + GlyphSpace(gs, n - 1))
  }

  function DataBytes(gs: seq<Glyph>, n: nat): (b: seq<byte>)
    requires n <= |gs|
    ensures |b| == GlyphSpace(gs, n)
  {
    if n == 0 then [] else DataBytes(gs, n - 1) + GlyphBytes(gs[n - 1])
  }

  /** Where the first glyph stands: behind the header, the index section and the DATA marker. */
  function FirstGlyph(info: FontInfo, gs: seq<Glyph>): nat { |SectionsBytes(Header(info))| + 8 + 9 * |gs| + 8 }

  function FontBytes(info: FontInfo, gs: seq<Glyph>): seq<byte> {
    SectionsBytes(Header(info))
      + (Marker("CHIX", 9 * |gs|) + IndexBytes(gs, |gs|, FirstGlyph(info, gs)))
      + Marker("DATA", -1)
      + DataBytes(gs, |gs|)
  }

  lemma SectionsSnoc(ss: seq<Section>, s: Section)
    ensures SectionsBytes(ss + [s]) == SectionsBytes(ss) + SectionBytes(s)
  {
    assert (ss + [s])[..|ss|] == ss;
  }

  lemma SectionWritten(before: seq<byte>, name: seq<byte>, length: seq<byte>, body: seq<byte>)
    ensures before + name + length + body == before + (name + length + body)
  {
  }

  // ----- write_font_pf2 -----

  /** The output file and the offset the writer keeps beside it; sections is what the header holds so far. */
  class FontFile {
    var bytes: seq<byte>
    var offset: nat
    ghost var sections: seq<Section>

    constructor ()
      ensures bytes == [] && offset == 0 && sections == []
    {
      bytes, offset, sections := [], 0, [];
    }

    method Write(data: seq<byte>)
      modifies this`bytes
      ensures bytes == old(bytes) + data
    {
      bytes := bytes + data;
    }

    /** Only sections so far, and the offset is where the next byte goes. */
    ghost predicate InHeader()
      reads this
    {
      bytes == SectionsBytes(sections) && offset == |bytes|
    }

    method WriteStringSection(name: string, s: seq<byte>)
      requires |name| == 4 && InHeader()
      modifies this
      ensures InHeader() && sections == old(sections) + [StringSection(name, s)]
    {
      hide SectionsBytes, ToBE, Ascii;
      var length := |s| + 1;
      Write(Ascii(name));
      Write(ToBE(length, 4));
      Write(s + [0]);
      offset := offset + 8 + length;
      SectionWritten(old(bytes), Ascii(name), ToBE(length, 4), s + [0]);
      SectionsSnoc(sections, StringSection(name, s));
      sections := sections + [StringSection(name, s)];
    }

    method WriteBe16Section(name: string, v: int)
      requires |name| == 4 && InHeader()
      modifies this
      ensures InHeader() && sections == old(sections) + [Be16Section(name, v)]
    {
      hide SectionsBytes, ToBE, Ascii;
      Write(Ascii(name));
      Write(ToBE(2, 4));
      Write(ToBE(v, 2));
      offset := offset + 10;
      SectionWritten(old(bytes), Ascii(name), ToBE(2, 4), ToBE(v, 2));
      SectionsSnoc(sections, Be16Section(name, v));
      sections := sections + [Be16Section(name, v)];
    }

    method WriteFileSection()
      requires bytes == [] && offset == 0 && sections == []
      modifies this
      ensures InHeader() && sections == [Section("FILE", Ascii("PFF2"))]
    {
      hide ToBE, Ascii;
      Write(Ascii("FILE"));
      Write(ToBE(4, 4));
      Write(Ascii("PFF2"));
      offset := offset + 12;
      SectionWritten([], Ascii("FILE"), ToBE(4, 4), Ascii("PFF2"));
      SectionsSnoc([], Section("FILE", Ascii("PFF2")));
      sections := [Section("FILE", Ascii("PFF2"))];
      assert [] + sections == sections;
    }

    method WriteNames(info: FontInfo)
      requires bytes == [] && offset == 0 && sections == []
      modifies this
      ensures InHeader() && sections == Names(info)
    {
      hide SectionsBytes, ToBE, Ascii, StringSection, Be16Section;
      WriteFileSection();
      WriteStringSection("NAME", info.fontName);
      WriteStringSection("FAMI", info.family);
      WriteStringSection("WEIG", Ascii(if info.bold then "bold" else "normal"));
      WriteStringSection("SLAN", Ascii(if info.italic then "italic" else "normal"));
    }

    method WriteMetrics(info: FontInfo)
      requires InHeader()
      modifies this
      ensures InHeader() && sections == old(sections) + Metrics(info)
    {
      hide SectionsBytes, ToBE, Ascii, StringSection, Be16Section;
      WriteBe16Section("PTSZ", info.size);
      WriteBe16Section("MAXW", info.maxWidth);
      WriteBe16Section("MAXH", info.maxHeight);
      var desc := info.desc;
      if desc == 0 {
        desc := if info.minY >= 0 then 1 else -info.minY;
      }
      var asce := info.asce;
      if asce == 0 {
        asce := if info.maxY <= 0 then 1 else info.maxY;
      }
      WriteBe16Section("ASCE", asce);
      WriteBe16Section("DESC", desc);
    }

    /** The index entries, each with the offset its glyph will have; offset runs ahead of the file. */
    method WriteIndex(gs: seq<Glyph>)
      modifies this`bytes, this`offset
      ensures bytes == old(bytes) + IndexBytes(gs, |gs|, old(offset))
      ensures offset == old(offset) + GlyphSpace(gs, |gs|)
    {
      hide ToBE;
      for i := 0 to |gs|
        invariant offset == old(offset) + GlyphSpace(gs, i)
        invariant bytes == old(bytes) + IndexBytes(gs, i, old(offset))
      {
        Write(ToBE(gs[i].charCode, 4));
        Write([0]);
        Write(ToBE(offset, 4));
        assert bytes == old(bytes) + IndexBytes(gs, i + 1, old(offset));
        offset := offset + 10 + |gs[i].bitmap|;
      }
    }

    /** The glyphs themselves: five metrics of two bytes, then the bitmap. */
    method WriteGlyphs(gs: seq<Glyph>)
      modifies this`bytes
      ensures bytes == old(bytes) + DataBytes(gs, |gs|)
    {
      hide ToBE;
      for i := 0 to |gs|
        invariant bytes == old(bytes) + DataBytes(gs, i)
      {
        Write(ToBE(gs[i].width, 2));
        Write(ToBE(gs[i].height, 2));
        Write(ToBE(gs[i].xOfs, 2));
        Write(ToBE(gs[i].yOfs, 2));
        Write(ToBE(gs[i].deviceWidth, 2));
        Write(gs[i].bitmap);
        assert bytes == old(bytes) + (DataBytes(gs, i) + GlyphBytes(gs[i]));
      }
    }

    method WriteFont(info: FontInfo, gs: seq<Glyph>)
      requires bytes == [] && offset == 0 && sections == []
      modifies this
      ensures bytes == FontBytes(info, gs)
    {
      hide ToBE, Ascii, SectionsBytes, Names, Metrics;
      WriteNames(info);
      WriteMetrics(info);
      Write(Ascii("CHIX"));
      Write(ToBE(9 * |gs|, 4));
      offset := offset + 8 + 9 * |gs| + 8;
      WriteIndex(gs);
      Write(Ascii("DATA"));
      Write(ToBE(-1, 4));
      WriteGlyphs(gs);
    }
  }
}
