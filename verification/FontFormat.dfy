/** The PF2 file byte by byte: ten sections with their names, lengths and contents, the character index, the
    DATA marker, and the glyph that each index entry points at. */
module FontFormat {
  import opened Words
  import opened GlyphSort
  import opened Pf2Font
  import opened Pf2Loader

  const SECTION_NAMES: seq<string> := ["FILE", "NAME", "FAMI", "WEIG", "SLAN", "PTSZ", "MAXW", "MAXH", "ASCE", "DESC"]

  predicate SpeltAt(file: seq<byte>, pos: nat, text: string) {
    pos + |text| <= |file| && forall k :: 0 <= k < |text| ==> file[pos + k] == (text[k] as int) % 256
  }

  /** The big-endian number in w bytes at pos. */
  function Big(file: seq<byte>, pos: nat, w: nat): nat
    requires pos + w <= |file|
  {
    FromBE(file[pos..pos + w])
  }

  /** A section with a four-letter name, from pos to next. */
  predicate SectionAt(file: seq<byte>, pos: nat, name: string, next: nat) {
    pos + 8 <= next <= |file| && |name| == 4 && SpeltAt(file, pos, name) && Big(file, pos + 4, 4) == (next - pos - 8) % 0x1_0000_0000
  }

  predicate Says(body: seq<byte>, v: int) { |body| == 2 && FromBE(body) == v % 0x10000 }

  /** The contents of the i-th section; without an ascent or a descent of its own a font has those of its glyphs. */
  predicate BodyIs(i: nat, body: seq<byte>, info: FontInfo) {
    && (i == 0 ==> |body| == 4 && SpeltAt(body, 0, "PFF2"))
    && (i == 1 ==> body == info.fontName + [0])
    && (i == 2 ==> body == info.family + [0])
    && (i == 3 && info.bold ==> |body| == 5 && SpeltAt(body, 0, "bold") && body[4] == 0)
    && (i == 3 && !info.bold ==> |body| == 7 && SpeltAt(body, 0, "normal") && body[6] == 0)
    && (i == 4 && info.italic ==> |body| == 7 && SpeltAt(body, 0, "italic") && body[6] == 0)
    && (i == 4 && !info.italic ==> |body| == 7 && SpeltAt(body, 0, "normal") && body[6] == 0)
    && (i == 5 ==> Says(body, info.size))
    && (i == 6 ==> Says(body, info.maxWidth))
    && (i == 7 ==> Says(body, info.maxHeight))
    && (i == 8 ==> Says(body, if info.asce != 0 then info.asce else if info.maxY > 0 then info.maxY else 1))
    && (i == 9 ==> Says(body, if info.desc != 0 then info.desc else if info.minY < 0 then -info.minY else 1))
  }

  /** The glyph's record. */
  predicate GlyphAt(file: seq<byte>, pos: nat, g: Glyph) {
    && pos + 10 + |g.bitmap| <= |file|
    && Big(file, pos, 2) == g.width % 0x10000 && Big(file, pos + 2, 2) == g.height % 0x10000
    && Big(file, pos + 4, 2) == g.xOfs % 0x10000 && Big(file, pos + 6, 2) == g.yOfs % 0x10000
    && Big(file, pos + 8, 2) == g.deviceWidth % 0x10000
    && file[pos + 10..pos + 10 + |g.bitmap|] == g.bitmap
  }

  /** Entry i of the index section at pos, and the glyph it points at; the glyphs follow each other up to the end. */
  predicate EntryAt(file: seq<byte>, pos: nat, i: nat, gs: seq<Glyph>)
    requires i < |gs| && pos + 8 + 9 * |gs| <= |file|
  {
    var at := pos + 8 + 9 * i;
    && Big(file, at, 4) == gs[i].charCode % 0x1_0000_0000 && file[at + 4] == 0
    && GlyphAt(file, Big(file, at + 5, 4), gs[i])
    && var end := Big(file, at + 5, 4) + 10 + |gs[i].bitmap|;
       if i + 1 < |gs| then Big(file, at + 14, 4) == end else end == |file|
  }

  /** The index at pos, and what is behind it. */
  predicate TablesAt(file: seq<byte>, pos: nat, gs: seq<Glyph>) {
    var data := pos + 8 + 9 * |gs|;
    && data + 8 <= |file|
    && SpeltAt(file, pos, "CHIX") && Big(file, pos + 4, 4) == (9 * |gs|) % 0x1_0000_0000
    && SpeltAt(file, data, "DATA") && Big(file, data + 4, 4) == 0xffff_ffff
    && forall i :: 0 <= i < |gs| ==> EntryAt(file, pos, i, gs)
  }

  predicate SectionIs(file: seq<byte>, at: seq<nat>, i: nat, info: FontInfo)
    requires i < 10 && |at| == 11
  {
    SectionAt(file, at[i], SECTION_NAMES[i], at[i + 1]) && BodyIs(i, file[at[i] + 8..at[i + 1]], info)
  }

  ghost predicate SectionsAt(file: seq<byte>, at: seq<nat>, info: FontInfo) {
    |at| == 11 && at[0] == 0 && forall i :: 0 <= i < 10 ==> SectionIs(file, at, i, info)
  }

  ghost predicate FileStands(file: seq<byte>, info: FontInfo, gs: seq<Glyph>) {
    exists at :: SectionsAt(file, at, info) && TablesAt(file, at[10], gs)
  }

  // ----- the pieces of the file -----

  lemma {:induction false} SectionOfMany(file: seq<byte>, pos: nat, ss: seq<Section>, i: nat)
    requires StandsAt(file, pos, SectionsBytes(ss)) && i < |ss|
    ensures StandsAt(file, pos + |SectionsBytes(ss[..i])|, SectionBytes(ss[i]))
    ensures |SectionsBytes(ss[..i + 1])| == |SectionsBytes(ss[..i])| + |SectionBytes(ss[i])|
    decreases |ss|
  {
    hide SectionBytes, StandsAt;
    var n := |ss| - 1;
    SplitStands(file, pos, SectionsBytes(ss[..n]), SectionBytes(ss[n]));
    if i < n {
      SectionOfMany(file, pos, ss[..n], i);
      assert ss[..n][..i] == ss[..i] && ss[..n][..i + 1] == ss[..i + 1];
    } else {
      assert ss[..i + 1] == ss;
    }
  }

  lemma {:induction false} EntryOfMany(file: seq<byte>, pos: nat, gs: seq<Glyph>, n: nat, first: nat, i: nat)
    requires n <= |gs| && StandsAt(file, pos, IndexBytes(gs, n, first)) && i < n
    ensures StandsAt(file, pos + 9 * i, EntryBytes(gs[i], first + GlyphSpace(gs, i)))
  {
    hide EntryBytes, StandsAt, GlyphSpace;
    SplitStands(file, pos, IndexBytes(gs, n - 1, first), EntryBytes(gs[n - 1], first + GlyphSpace(gs, n - 1)));
    if i < n - 1 {
      EntryOfMany(file, pos, gs, n - 1, first, i);
    }
  }

  lemma {:induction false} GlyphOfMany(file: seq<byte>, pos: nat, gs: seq<Glyph>, n: nat, i: nat)
    requires n <= |gs| && StandsAt(file, pos, DataBytes(gs, n)) && i < n
    ensures StandsAt(file, pos + GlyphSpace(gs, i), GlyphBytes(gs[i]))
    ensures GlyphSpace(gs, i + 1) == GlyphSpace(gs, i) + 10 + |gs[i].bitmap|
  {
    hide GlyphBytes, StandsAt;
    SplitStands(file, pos, DataBytes(gs, n - 1), GlyphBytes(gs[n - 1]));
    if i < n - 1 {
      GlyphOfMany(file, pos, gs, n - 1, i);
    }
  }

  lemma NumberStands(file: seq<byte>, pos: nat, v: int, w: nat)
    requires StandsAt(file, pos, ToBE(v, w)) && (w == 2 || w == 4)
    ensures pos + w <= |file| && Big(file, pos, w) == v % if w == 2 then 0x10000 else 0x1_0000_0000
  {
    hide ToBE;
    Moduli();
    BERoundTrip(v, w);
  }

  lemma TextStands(file: seq<byte>, pos: nat, text: string)
    requires StandsAt(file, pos, Ascii(text))
    ensures SpeltAt(file, pos, text)
  {
    forall k | 0 <= k < |text|
      ensures file[pos + k] == (text[k] as int) % 256
    {
      assert file[pos..pos + |text|][k] == Ascii(text)[k];
    }
  }

  lemma MarkerStands(file: seq<byte>, pos: nat, name: string, length: int)
    requires StandsAt(file, pos, Marker(name, length)) && |name| == 4
    ensures pos + 8 <= |file| && SpeltAt(file, pos, name) && Big(file, pos + 4, 4) == length % 0x1_0000_0000
  {
    hide ToBE, Ascii, StandsAt, SpeltAt;
    SplitStands(file, pos, Ascii(name), ToBE(length, 4));
    TextStands(file, pos, name);
    NumberStands(file, pos + 4, length, 4);
  }

  lemma SectionStands(file: seq<byte>, pos: nat, s: Section)
    requires StandsAt(file, pos, SectionBytes(s)) && |s.name| == 4
    ensures SectionAt(file, pos, s.name, pos + |SectionBytes(s)|) && file[pos + 8..pos + |SectionBytes(s)|] == s.body
  {
    hide Marker, SpeltAt, Big;
    SplitStands(file, pos, Marker(s.name, |s.body|), s.body);
    MarkerStands(file, pos, s.name, |s.body|);
  }

  lemma GlyphIsAt(file: seq<byte>, pos: nat, g: Glyph)
    requires StandsAt(file, pos, GlyphBytes(g))
    ensures GlyphAt(file, pos, g)
  {
    hide ToBE, Big;
    SixStand(file, pos, ToBE(g.width, 2), ToBE(g.height, 2), ToBE(g.xOfs, 2), ToBE(g.yOfs, 2), ToBE(g.deviceWidth, 2), g.bitmap);
    NumberStands(file, pos, g.width, 2);
    NumberStands(file, pos + 2, g.height, 2);
    NumberStands(file, pos + 4, g.xOfs, 2);
    NumberStands(file, pos + 6, g.yOfs, 2);
    NumberStands(file, pos + 8, g.deviceWidth, 2);
  }

  lemma EntryStands(file: seq<byte>, at: nat, g: Glyph, offset: nat)
    requires StandsAt(file, at, EntryBytes(g, offset)) && offset < 0x1_0000_0000
    ensures at + 9 <= |file| && Big(file, at, 4) == g.charCode % 0x1_0000_0000 && file[at + 4] == 0 && Big(file, at + 5, 4) == offset
  {
    hide ToBE, StandsAt, Big;
    var c, o := ToBE(g.charCode, 4), ToBE(offset, 4);
    SplitStands(file, at, c + [0], o);
    SplitStands(file, at, c, [0]);
    NumberStands(file, at, g.charCode, 4);
    ByteReadsBack(file, at + 4, 0);
    NumberStands(file, at + 5, offset, 4);
  }

  // ----- the contents of the sections -----

  lemma TextBody(text: string)
    ensures SpeltAt(Ascii(text), 0, text) && SpeltAt(Ascii(text) + [0], 0, text) && (Ascii(text) + [0])[|text|] == 0
  {
  }

  lemma NumberBody(v: int)
    ensures Says(ToBE(v, 2), v)
  {
    hide ToBE;
    Moduli();
    BERoundTrip(v, 2);
  }

  lemma NamesAre(info: FontInfo, i: nat)
    requires i < 5
    ensures |Header(info)| == 10 && Header(info)[i].name == SECTION_NAMES[i] && BodyIs(i, Header(info)[i].body, info)
  {
    hide Ascii, SpeltAt;
    TextBody("PFF2");
    TextBody("bold");
    TextBody("normal");
    TextBody("italic");
  }

  lemma MetricsAre(info: FontInfo, i: nat)
    requires 5 <= i < 10
    ensures |Header(info)| == 10 && Header(info)[i].name == SECTION_NAMES[i] && BodyIs(i, Header(info)[i].body, info)
  {
    hide Ascii, ToBE, Says;
    NumberBody(info.size);
    NumberBody(info.maxWidth);
    NumberBody(info.maxHeight);
    NumberBody(Ascent(info));
    NumberBody(Descent(info));
  }

  lemma HeaderIs(info: FontInfo, i: nat)
    requires i < 10
    ensures |Header(info)| == 10 && Header(info)[i].name == SECTION_NAMES[i] && BodyIs(i, Header(info)[i].body, info)
  {
    hide Header, BodyIs;
    if i < 5 {
      NamesAre(info, i);
    } else {
      MetricsAre(info, i);
    }
  }

  // ----- the whole file -----

  lemma FourParts(info: FontInfo, gs: seq<Glyph>)
    ensures var file, h := FontBytes(info, gs), |SectionsBytes(Header(info))|;
            && StandsAt(file, 0, SectionsBytes(Header(info)))
            && StandsAt(file, h, Marker("CHIX", 9 * |gs|)) && StandsAt(file, h + 8, IndexBytes(gs, |gs|, FirstGlyph(info, gs)))
            && StandsAt(file, h + 8 + 9 * |gs|, Marker("DATA", -1))
            && StandsAt(file, FirstGlyph(info, gs), DataBytes(gs, |gs|)) && |file| == FirstGlyph(info, gs) + GlyphSpace(gs, |gs|)
  {
    hide SectionsBytes, IndexBytes, DataBytes, Marker, Header, StandsAt, GlyphSpace;
    var a, m, x, d, g := SectionsBytes(Header(info)), Marker("CHIX", 9 * |gs|), IndexBytes(gs, |gs|, FirstGlyph(info, gs)), Marker("DATA", -1),
                         DataBytes(gs, |gs|);
    var file := a + (m + x) + d + g;
    WholeStands(file);
    SplitStands(file, 0, a + (m + x) + d, g);
    SplitStands(file, 0, a + (m + x), d);
    SplitStands(file, 0, a, m + x);
    SplitStands(file, |a|, m, x);
  }

  lemma WholeStands(file: seq<byte>)
    ensures StandsAt(file, 0, file)
  {
    assert file[0..0 + |file|] == file;
  }

  lemma HeaderStands(file: seq<byte>, info: FontInfo) returns (at: seq<nat>)
    requires StandsAt(file, 0, SectionsBytes(Header(info)))
    ensures SectionsAt(file, at, info) && at[10] == |SectionsBytes(Header(info))|
  {
    hide StandsAt, SectionsBytes, SectionBytes, Header, BodyIs, SectionAt;
    var ss := Header(info);
    HeaderIs(info, 0);
    at := seq(11, i requires 0 <= i < 11 => |SectionsBytes(ss[..i])|);
    forall i | 0 <= i < 10
      ensures SectionIs(file, at, i, info)
    {
      HeaderIs(info, i);
      FourLetters(i);
      SectionOfMany(file, 0, ss, i);
      SectionStands(file, at[i], ss[i]);
      SectionInFile(file, at[i], SECTION_NAMES[i], at[i + 1]);
      assert SectionIs(file, at, i, info);
    }
    NoSections();
    assert ss[..0] == [] && ss[..10] == ss;
  }

  lemma FourLetters(i: nat)
    requires i < 10
    ensures |SECTION_NAMES[i]| == 4
  {
  }

  lemma NoSections()
    ensures SectionsBytes([]) == []
  {
  }

  lemma SectionInFile(file: seq<byte>, pos: nat, name: string, next: nat)
    requires SectionAt(file, pos, name, next)
    ensures pos + 8 <= next <= |file|
  {
  }

  lemma EntryIsAt(file: seq<byte>, pos: nat, gs: seq<Glyph>, first: nat, i: nat)
    requires StandsAt(file, pos + 8, IndexBytes(gs, |gs|, first)) && StandsAt(file, first, DataBytes(gs, |gs|)) && i < |gs|
    requires |file| == first + GlyphSpace(gs, |gs|) && |file| < 0x1_0000_0000
    requires pos + 8 + 9 * |gs| <= |file|
    ensures EntryAt(file, pos, i, gs)
  {
    hide EntryBytes, IndexBytes, DataBytes, GlyphBytes, GlyphSpace, Big, GlyphAt;
    SpaceGrows(gs, i, |gs|);
    EntryOfMany(file, pos + 8, gs, |gs|, first, i);
    GlyphOfMany(file, first, gs, |gs|, i);
    EntryStands(file, pos + 8 + 9 * i, gs[i], first + GlyphSpace(gs, i));
    GlyphIsAt(file, first + GlyphSpace(gs, i), gs[i]);
    if i + 1 < |gs| {
      SpaceGrows(gs, i + 1, |gs|);
      EntryOfMany(file, pos + 8, gs, |gs|, first, i + 1);
      EntryStands(file, pos + 8 + 9 * (i + 1), gs[i + 1], first + GlyphSpace(gs, i + 1));
    }
  }

  lemma {:induction false} SpaceGrows(gs: seq<Glyph>, i: nat, n: nat)
    requires i <= n <= |gs|
    ensures GlyphSpace(gs, i) <= GlyphSpace(gs, n)
    decreases n
  {
    if i < n {
      SpaceGrows(gs, i, n - 1);
    }
  }

  /** The file that is written, for every font below 4 GiB. */
  lemma FileIsWritten(info: FontInfo, gs: seq<Glyph>)
    requires |FontBytes(info, gs)| < 0x1_0000_0000
    ensures FileStands(FontBytes(info, gs), info, gs)
  {
    hide FontBytes, StandsAt, SectionsBytes, IndexBytes, DataBytes, Header, Marker, SectionsAt, EntryAt, SpeltAt, Big, GlyphSpace;
    var file, h := FontBytes(info, gs), |SectionsBytes(Header(info))|;
    FourParts(info, gs);
    var at := HeaderStands(file, info);
    MarkerStands(file, h, "CHIX", 9 * |gs|);
    MarkerStands(file, h + 8 + 9 * |gs|, "DATA", -1);
    forall i | 0 <= i < |gs|
      ensures EntryAt(file, h, i, gs)
    {
      EntryIsAt(file, h, gs, FirstGlyph(info, gs), i);
    }
    TenSections(file, at, info);
    assert TablesAt(file, at[10], gs);
  }

  lemma TenSections(file: seq<byte>, at: seq<nat>, info: FontInfo)
    requires SectionsAt(file, at, info)
    ensures |at| == 11
  {
    hide SectionAt, BodyIs;
  }
}
