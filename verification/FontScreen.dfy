/** The whole way of a glyph: the rasteriser's bitmap, the font compiler's list, the file, the boot loader's
    memory, the screen. */
module FontScreen {
  import opened Outcomes
  import opened Words
  import opened GlyphBitmap
  import opened GlyphPicture
  import opened GlyphSort
  import opened Pf2Font
  import opened Pf2Loader
  import opened FontLookup
  import opened FontPipeline

  /** What the rasteriser has for one code; no image when it cannot load the glyph. */
  datatype Raster = Raster(code: uint32, image: Option<Bitmap>, left: int, top: int, advance: int)

  predicate ValidRaster(r: Raster) { r.image.Some? ==> Valid(r.image.value) }

  ghost predicate Compiled(g: Glyph, r: Raster, nocut: bool)
    requires ValidRaster(r)
  {
    && r.image.Some? && g.charCode == r.code && g.deviceWidth == r.advance
    && exists c :: CompiledFrom(g, r.image.value, c, r.left, r.top)
                   && if nocut then c == Cuts(0, 0, 0, 0) else Tight(r.image.value, c)
  }

  lemma IsCompiled(g: Glyph, c: Cuts, r: Raster, nocut: bool)
    requires ValidRaster(r) && r.image.Some? && g.charCode == r.code && g.deviceWidth == r.advance
    requires CompiledFrom(g, r.image.value, c, r.left, r.top)
    requires if nocut then c == Cuts(0, 0, 0, 0) else Tight(r.image.value, c)
    ensures Compiled(g, r, nocut)
  {
    hide CompiledFrom, Tight;
  }

  // ----- the list of glyphs and the extremes -----

  /** The extremes after one more glyph; a glyph that hangs down further than the font's size does not count. */
  function Noted(info: FontInfo, g: Glyph): FontInfo {
    info.(maxWidth := Max(info.maxWidth, g.width),
          maxHeight := Max(info.maxHeight, g.height),
          minY := if g.yOfs < info.minY && g.yOfs > -info.size then g.yOfs else info.minY,
          maxY := Max(info.maxY, g.yOfs + g.height))
  }

  /** The extremes of a list that grew at its front. */
  function NotedAll(base: FontInfo, gs: seq<Glyph>): FontInfo {
    if |gs| == 0 then base else Noted(NotedAll(base, gs[1..]), gs[0])
  }

  /** The four numbers really are the extremes: each bounds the whole list, and is what the font started with or what
      some glyph of the list has. A glyph that hangs down by the font's size or more is left out of the last. */
  ghost predicate ExtremesOf(base: FontInfo, info: FontInfo, gs: seq<Glyph>) {
    && (forall g :: g in gs ==> g.width <= info.maxWidth && g.height <= info.maxHeight && g.yOfs + g.height <= info.maxY)
    && (forall g :: g in gs && g.yOfs > -base.size ==> info.minY <= g.yOfs)
    && base.maxWidth <= info.maxWidth && base.maxHeight <= info.maxHeight && base.maxY <= info.maxY && info.minY <= base.minY
    && (info.maxWidth == base.maxWidth || exists g :: g in gs && g.width == info.maxWidth)
    && (info.maxHeight == base.maxHeight || exists g :: g in gs && g.height == info.maxHeight)
    && (info.maxY == base.maxY || exists g :: g in gs && g.yOfs + g.height == info.maxY)
    && (info.minY == base.minY || exists g :: g in gs && g.yOfs > -base.size && g.yOfs == info.minY)
  }

  /** Nothing else about the font is changed by its glyphs. */
  predicate SameFont(base: FontInfo, info: FontInfo) {
    && info.fontName == base.fontName && info.family == base.family && info.bold == base.bold && info.italic == base.italic
    && info.size == base.size && info.asce == base.asce && info.desc == base.desc
  }

  lemma {:induction false} NotedAreExtremes(base: FontInfo, gs: seq<Glyph>)
    ensures ExtremesOf(base, NotedAll(base, gs), gs) && SameFont(base, NotedAll(base, gs))
  {
    if |gs| > 0 {
      NotedAreExtremes(base, gs[1..]);
      OneMoreNoted(base, NotedAll(base, gs[1..]), gs);
    }
  }

  lemma OneMoreNoted(base: FontInfo, info: FontInfo, gs: seq<Glyph>)
    requires |gs| > 0 && ExtremesOf(base, info, gs[1..]) && SameFont(base, info)
    ensures ExtremesOf(base, Noted(info, gs[0]), gs)
  {
    assert gs == [gs[0]] + gs[1..];
    forall g | g in gs
      ensures g == gs[0] || g in gs[1..]
    {
    }
    assert gs[0] in gs;
  }

  /** The rasters that have an image. */
  function Rendered(rs: seq<Raster>): (r: seq<Raster>)
    ensures forall i :: 0 <= i < |r| ==> r[i] in rs && r[i].image.Some?
  {
    if |rs| == 0 then []
    else Rendered(rs[..|rs| - 1]) + if rs[|rs| - 1].image.Some? then [rs[|rs| - 1]] else []
  }

  ghost predicate AllValid(rs: seq<Raster>) { forall r :: r in rs ==> ValidRaster(r) }

  /** The list holds the compiled rasters, the last one first. */
  ghost predicate CompiledAll(gs: seq<Glyph>, rs: seq<Raster>, nocut: bool)
    requires AllValid(rs)
  {
    |gs| == |rs| && forall i :: 0 <= i < |gs| ==> Compiled(gs[i], rs[|rs| - 1 - i], nocut)
  }

  /** The font being made: its description and the list of glyphs, newest first. */
  class FontBuilder {
    var info: FontInfo
    var unsorted: seq<Glyph>

    constructor (base: FontInfo)
      ensures info == base && unsorted == []
    {
      info, unsorted := base, [];
    }

    /** add_glyph. */
    method AddGlyph(r: Raster, nocut: bool)
      requires ValidRaster(r)
      modifies this
      ensures r.image.None? ==> info == old(info) && unsorted == old(unsorted)
      ensures r.image.Some? ==> |unsorted| == |old(unsorted)| + 1 && unsorted[1..] == old(unsorted)
      ensures r.image.Some? ==> Compiled(unsorted[0], r, nocut) && info == Noted(old(info), unsorted[0])
    {
      hide CompiledFrom, Tight, Compiled;
      if r.image.None? {
        return;
      }
      var g, c := CompileGlyph(r.code, r.image.value, r.left, r.top, r.advance, nocut);
      IsCompiled(g, c, r, nocut);
      unsorted := [g] + unsorted;
      NoteGlyph(g);
    }

    /** The end of add_glyph's bookkeeping. */
    method NoteGlyph(g: Glyph)
      modifies this`info
      ensures info == Noted(old(info), g)
    {
      if g.width > info.maxWidth {
        info := info.(maxWidth := g.width);
      }
      if g.height > info.maxHeight {
        info := info.(maxHeight := g.height);
      }
      if g.yOfs < info.minY && g.yOfs > -info.size {
        info := info.(minY := g.yOfs);
      }
      if g.yOfs + g.height > info.maxY {
        info := info.(maxY := g.yOfs + g.height);
      }
    }

    method AddGlyphs(rs: seq<Raster>, nocut: bool)
      requires AllValid(rs) && unsorted == []
      modifies this
      ensures CompiledAll(unsorted, Rendered(rs), nocut)
      ensures info == NotedAll(old(info), unsorted)
      ensures ExtremesOf(old(info), info, unsorted) && SameFont(old(info), info)
    {
      hide Compiled, Noted, CompiledAll, Rendered, ExtremesOf, SameFont;
      NoneCompiled(nocut);
      NoneRendered(rs);
      for i := 0 to |rs|
        invariant CompiledAll(unsorted, Rendered(rs[..i]), nocut)
        invariant info == NotedAll(old(info), unsorted)
      {
        RenderedNext(rs, i);
        ghost var before := unsorted;
        AddGlyph(rs[i], nocut);
        if rs[i].image.Some? {
          OneMore(before, Rendered(rs[..i]), unsorted, rs[i], nocut);
        }
      }
      assert rs[..|rs|] == rs;
      NotedAreExtremes(old(info), unsorted);
    }
  }

  lemma NoneCompiled(nocut: bool)
    ensures CompiledAll([], [], nocut)
  {
  }

  lemma NoneRendered(rs: seq<Raster>)
    ensures Rendered(rs[..0]) == []
  {
  }

  lemma RenderedNext(rs: seq<Raster>, i: nat)
    requires i < |rs|
    ensures rs[i].image.Some? ==> Rendered(rs[..i + 1]) == Rendered(rs[..i]) + [rs[i]]
    ensures rs[i].image.None? ==> Rendered(rs[..i + 1]) == Rendered(rs[..i])
  {
    assert rs[..i + 1][..i] == rs[..i];
  }

  lemma OneMore(gs: seq<Glyph>, rs: seq<Raster>, gs': seq<Glyph>, r: Raster, nocut: bool)
    requires AllValid(rs) && CompiledAll(gs, rs, nocut) && ValidRaster(r)
    requires |gs'| == |gs| + 1 && gs'[1..] == gs && Compiled(gs'[0], r, nocut)
    ensures AllValid(rs + [r]) && CompiledAll(gs', rs + [r], nocut)
  {
    hide Compiled;
    forall i | 0 <= i < |gs'|
      ensures Compiled(gs'[i], (rs + [r])[|rs| - i], nocut)
    {
      assert i > 0 ==> gs'[i] == gs[i - 1];
    }
  }

  // ----- the screen -----

  /** grub_font_draw_glyph hands the glyph to the video driver with its left edge at the pen plus offset and
      its lower edge above the base line by the other; the driver takes bit y * width + x of the bitmap. */
  predicate Lit(l: LoadedGlyph, pen: int, baseline: int, x: int, y: int)
    requires Packed(l.width * l.height) <= |l.bitmap|
  {
    var left, top := pen + l.xOfs, baseline - l.yOfs - l.height;
    && left <= x < left + l.width && top <= y < top + l.height
    && DriverBit(l, x - left, y - top)
  }

  predicate DriverBit(l: LoadedGlyph, x: nat, y: nat)
    requires Packed(l.width * l.height) <= |l.bitmap| && x < l.width && y < l.height
  {
    RowFits(y, l.width, l.height);
    var i := y * l.width + x;
    (l.bitmap[i / 8] as bv8 >> (7 - i % 8)) & 1 != 0
  }

  lemma DriverBitIsInk(g: Glyph, i: nat, j: nat)
    requires Storable(g) && i < g.width && j < g.height
    ensures InBox(g, g.xOfs + i, g.yOfs + g.height - 1 - j)
    ensures DriverBit(AsLoaded(g), i, j) <==> Cell(g, 0, 0, g.xOfs + i, g.yOfs + g.height - 1 - j) == '#'
  {
    hide BitAt;
    RowFits(j, g.width, g.height);
    var p := j * g.width + i;
    assert BitIndex(g, g.xOfs + i, g.yOfs + g.height - 1 - j) == p;
    HighBitFirst(g.bitmap[p / 8] as bv8, p % 8);
  }

  lemma LitIsInk(g: Glyph, pen: int, baseline: int, x: int, y: int)
    requires Storable(g)
    ensures Lit(AsLoaded(g), pen, baseline, x, y) <==> Cell(g, 0, 0, x - pen, baseline - 1 - y) == '#'
  {
    hide BitAt, DriverBit, BitIndex;
    var i, j := x - pen - g.xOfs, y - (baseline - g.yOfs - g.height);
    if 0 <= i < g.width && 0 <= j < g.height {
      DriverBitIsInk(g, i, j);
    }
  }

  /** The screen shows the rasteriser's bitmap, hung up at the pen and the base line. */
  ghost predicate Shows(l: LoadedGlyph, r: Raster)
    requires ValidRaster(r) && r.image.Some?
  {
    && l.deviceWidth == r.advance && Packed(l.width * l.height) <= |l.bitmap|
    && forall pen: int, baseline: int, x: int, y: int ::
         Lit(l, pen, baseline, x, y) <==>
           (var i, j := x - pen - r.left, y - baseline + r.top;
            0 <= i < r.image.value.width && 0 <= j < r.image.value.rows && Pixel(r.image.value, i, j))
  }

  lemma CompiledShows(g: Glyph, r: Raster, nocut: bool)
    requires ValidRaster(r) && Compiled(g, r, nocut) && Storable(g)
    ensures Shows(AsLoaded(g), r)
  {
    hide Pixel, Lit, Cell, CompiledFrom, Tight;
    var c :| CompiledFrom(g, r.image.value, c, r.left, r.top);
    forall pen: int, baseline: int, x: int, y: int
      ensures Lit(AsLoaded(g), pen, baseline, x, y) <==>
                (var i, j := x - pen - r.left, y - baseline + r.top;
                 0 <= i < r.image.value.width && 0 <= j < r.image.value.rows && Pixel(r.image.value, i, j))
    {
      LitIsInk(g, pen, baseline, x, y);
      PictureShowsBitmap(g, r.image.value, c, r.left, r.top, 0, 0, x - pen, baseline - 1 - y);
    }
  }

  // ----- from rasters to the screen -----

  predicate DistinctRasters(rs: seq<Raster>) {
    forall i, j :: 0 <= i < j < |rs| ==> rs[i].code != rs[j].code
  }

  /** The metrics fit the 16-bit fields of the file, however the glyph is cut. */
  predicate Fits(r: Raster) {
    && r.image.Some? && r.image.value.rows < 0x10000 && r.image.value.width < 0x10000
    && -0x8000 <= r.left && r.left + r.image.value.width < 0x8000
    && -0x8000 <= r.top - r.image.value.rows && r.top < 0x8000
    && -0x8000 <= r.advance < 0x8000
  }

  predicate HasInk(r: Raster)
    requires ValidRaster(r)
  {
    r.image.Some? && exists i, j :: 0 <= i < r.image.value.width && 0 <= j < r.image.value.rows && Pixel(r.image.value, i, j)
  }

  /** A description no glyph has been noted in yet, with the metrics the user may have set within 16 bits. */
  predicate Plain(base: FontInfo) {
    && base.maxWidth == base.maxHeight == base.minY == base.maxY == 0
    && 0 <= base.asce < 0x10000 && 0 <= base.desc < 0x10000
  }

  predicate Modest(g: Glyph) {
    g.width < 0x10000 && g.height < 0x10000 && -0x8000 <= g.yOfs && g.yOfs + g.height < 0x8000
  }

  lemma FitsModest(g: Glyph, r: Raster, nocut: bool)
    requires ValidRaster(r) && Compiled(g, r, nocut) && Fits(r)
    ensures Storable(g) && Modest(g)
  {
    hide Holds, BoxBits, Pixel, Tight;
    var c :| CompiledFrom(g, r.image.value, c, r.left, r.top);
  }

  /** Cutting leaves a glyph with ink both a width and a height, and one without neither. */
  lemma InkHasSize(g: Glyph, r: Raster)
    requires ValidRaster(r) && Compiled(g, r, false)
    ensures g.width > 0 <==> HasInk(r)
    ensures g.height > 0 <==> HasInk(r)
  {
    hide Holds, BoxBits, Pixel;
    var c :| CompiledFrom(g, r.image.value, c, r.left, r.top) && Tight(r.image.value, c);
  }

  lemma {:induction false} Extremes(base: FontInfo, gs: seq<Glyph>)
    requires Plain(base) && forall g :: g in gs ==> Modest(g)
    ensures var info := NotedAll(base, gs);
            && 0 <= info.maxWidth < 0x10000 && 0 <= info.maxHeight < 0x10000
            && -0x8000 <= info.minY <= 0 <= info.maxY < 0x8000 && info.asce == base.asce && info.desc == base.desc
            && (info.maxWidth > 0 <==> exists g :: g in gs && g.width > 0)
            && (info.maxHeight > 0 <==> exists g :: g in gs && g.height > 0)
  {
    if |gs| > 0 {
      Extremes(base, gs[1..]);
      assert gs == [gs[0]] + gs[1..];
      assert Modest(gs[0]);
    }
  }

  lemma MeasuredExactly(base: FontInfo, gs: seq<Glyph>)
    requires Plain(base) && forall g :: g in gs ==> Modest(g)
    ensures Measured(NotedAll(base, gs)) <==> (exists g :: g in gs && g.width > 0) && (exists g :: g in gs && g.height > 0)
  {
    hide NotedAll, Modest;
    Extremes(base, gs);
  }

  lemma SameDistinct(gs: seq<Glyph>, rs: seq<Raster>, nocut: bool)
    requires AllValid(rs) && CompiledAll(gs, rs, nocut)
    ensures DistinctCodes(gs) <==> DistinctRasters(rs)
  {
    hide CompiledFrom, Tight;
    var n := |rs| - 1;
    if DistinctCodes(gs) {
      forall i, j | 0 <= i < j < |rs|
        ensures rs[i].code != rs[j].code
      {
        assert Compiled(gs[n - i], rs[i], nocut) && Compiled(gs[n - j], rs[j], nocut);
      }
    }
    if DistinctRasters(rs) {
      forall i, j | 0 <= i < j < |gs|
        ensures gs[i].charCode != gs[j].charCode
      {
        assert Compiled(gs[i], rs[n - i], nocut) && Compiled(gs[j], rs[n - j], nocut);
      }
    }
  }

  /** With cutting, the file asks for nothing but one set pixel. */
  lemma MeasuredByInk(base: FontInfo, gs: seq<Glyph>, rs: seq<Raster>)
    requires AllValid(rs) && CompiledAll(gs, rs, false) && Plain(base) && forall r :: r in rs ==> Fits(r)
    ensures Measured(NotedAll(base, gs)) <==> exists r :: r in rs && HasInk(r)
  {
    hide CompiledFrom, Tight, Compiled, HasInk, Measured, NotedAll, Fits, Modest;
    var n := |rs| - 1;
    forall i | 0 <= i < |gs|
      ensures Modest(gs[i]) && (gs[i].width > 0 <==> HasInk(rs[n - i])) && (gs[i].height > 0 <==> HasInk(rs[n - i]))
    {
      FitsModest(gs[i], rs[n - i], false);
      InkHasSize(gs[i], rs[n - i]);
    }
    MeasuredExactly(base, gs);
    if r :| r in rs && HasInk(r) {
      var i :| 0 <= i < |rs| && rs[i] == r;
      assert HasInk(rs[n - (n - i)]);
      assert gs[n - i] in gs;
    }
  }

  /** The loader looks the code up, fetches a glyph, and drawing it shows the bitmap, wherever the pen is. */
  ghost predicate Drawn(file: seq<byte>, es: seq<IndexEntry>, r: Raster)
    requires ValidRaster(r) && r.image.Some?
  {
    && es != [] && Search(es, r.code).At?
    && var l := ReadGlyph(file, es[Search(es, r.code).k].offset);
    l.Some? && Shows(l.value, r)
  }

  lemma DrawnExactly(file: seq<byte>, es: seq<IndexEntry>, g: Glyph, r: Raster, nocut: bool, gs: seq<Glyph>)
    requires ValidRaster(r) && Compiled(g, r, nocut) && Fits(r) && Storable(g)
    requires FoundOrShadowed(file, es, g, gs)
    ensures Drawn(file, es, r) <==> !(r.code == ABSENT && FillsBmp(gs))
  {
    hide Shows, Search, FillsBmp, Storable, CompiledFrom, Tight;
    CompiledShows(g, r, nocut);
  }

  /** From bitmaps to a font file; for this format glyphs are always cut. The boot loader accepts the file exactly
      when the codes are distinct and, as long as all metrics fit the file's fields, some glyph has a set
      pixel. It then draws under every code exactly the bitmap the rasteriser made for it, but for
      code 0xFFFF in a font that has all the codes below. */
  method MakeFont(base: FontInfo, rs: seq<Raster>) returns (file: seq<byte>, info: FontInfo, glyphs: seq<Glyph>)
    requires AllValid(rs)
    ensures CompiledAll(glyphs, Rendered(rs), false)
    ensures ExtremesOf(base, info, glyphs) && SameFont(base, info)
    ensures |file| < LIMIT ==> exists list :: FileOf(file, info, list, glyphs)
    ensures |file| < LIMIT && Load(file).Some? ==> Describes(Load(file).value, info)
    ensures |file| < LIMIT ==> (Load(file).Some? <==> DistinctRasters(Rendered(rs)) && Rendered(rs) != [] && Measured(info))
    ensures |file| < LIMIT && Plain(base) && (forall r :: r in Rendered(rs) ==> Fits(r)) ==>
              (Load(file).Some? <==> DistinctRasters(Rendered(rs)) && exists r :: r in Rendered(rs) && HasInk(r))
    ensures |file| < LIMIT && Load(file).Some? ==>
              forall r :: r in Rendered(rs) && Fits(r) ==>
                (Drawn(file, Load(file).value.index, r) <==> !(r.code == ABSENT && FillsBmp(glyphs)))
  {
    hide *;
    RenderedValid(rs);
    var builder := new FontBuilder(base);
    builder.AddGlyphs(rs, false);
    glyphs, info := builder.unsorted, builder.info;
    file := CompileFont(info, glyphs);
    SameDistinct(glyphs, Rendered(rs), false);
    SameSize(glyphs, Rendered(rs), false);
    if Plain(base) && forall r :: r in Rendered(rs) ==> Fits(r) {
      MeasuredByInk(base, glyphs, Rendered(rs));
    }
    NotedAreExtremes(base, glyphs);
    if |file| < LIMIT && Load(file).Some? {
      HeaderDescribes(info, Load(file).value, Load(file).value.index);
      forall r | r in Rendered(rs) && Fits(r)
        ensures Drawn(file, Load(file).value.index, r) <==> !(r.code == ABSENT && FillsBmp(glyphs))
      {
        var i := GlyphOf(glyphs, Rendered(rs), false, r);
        FitsModest(glyphs[i], r, false);
        DrawnExactly(file, Load(file).value.index, glyphs[i], r, false, glyphs);
      }
    }
  }

  /** Equal as numbers of 16 bits. */
  predicate Same16(a: int, b: int) { (a - b) % 0x10000 == 0 }

  /** name is what s has in front of its first zero byte. */
  predicate UpToZero(name: seq<byte>, s: seq<byte>) { name <= s && 0 !in name && (|name| < |s| ==> s[|name|] == 0) }

  lemma {:induction false} CStringIs(s: seq<byte>)
    ensures UpToZero(CString(s), s)
  {
    if |s| > 0 && s[0] != 0 {
      CStringIs(s[1..]);
      assert s == [s[0]] + s[1..];
    }
  }

  /** What the boot loader knows of a font: name, size, weight and metrics as the compiler had them; ascent and
      descent are the user's, or else those of the glyphs, and never zero. */
  predicate Describes(font: Font, info: FontInfo) {
    && font.name.Some? && UpToZero(font.name.value, info.fontName) && Same16(font.pointSize, info.size) && font.weight == (if info.bold then 200 else 100)
    && Same16(font.maxWidth, info.maxWidth) && Same16(font.maxHeight, info.maxHeight)
    && Same16(font.ascent, if info.asce != 0 then info.asce else if info.maxY <= 0 then 1 else info.maxY)
    && Same16(font.descent, if info.desc != 0 then info.desc else if info.minY >= 0 then 1 else -info.minY)
  }

  lemma Wrap16Same(v: int)
    ensures Same16(Wrap16(v), v) && -0x8000 <= Wrap16(v) < 0x8000
  {
  }

  lemma HeaderDescribes(info: FontInfo, font: Font, es: seq<IndexEntry>)
    requires font == HeaderFont(info).(index := es)
    ensures Describes(font, info)
  {
    hide Wrap16, CString, Same16, UpToZero;
    CStringIs(info.fontName);
    Wrap16Same(info.size);
    Wrap16Same(info.maxWidth);
    Wrap16Same(info.maxHeight);
    Wrap16Same(Ascent(info));
    Wrap16Same(Descent(info));
  }

  lemma RenderedValid(rs: seq<Raster>)
    requires AllValid(rs)
    ensures AllValid(Rendered(rs)) && forall r :: r in Rendered(rs) ==> r.image.Some? && ValidRaster(r)
  {
  }

  lemma SameSize(gs: seq<Glyph>, rs: seq<Raster>, nocut: bool)
    requires AllValid(rs) && CompiledAll(gs, rs, nocut)
    ensures |gs| == |rs|
  {
  }

  lemma GlyphOf(gs: seq<Glyph>, rs: seq<Raster>, nocut: bool, r: Raster) returns (i: nat)
    requires AllValid(rs) && CompiledAll(gs, rs, nocut) && r in rs
    ensures i < |gs| && ValidRaster(r) && Compiled(gs[i], r, nocut)
  {
    hide Compiled;
    var k :| 0 <= k < |rs| && rs[k] == r;
    i := |rs| - 1 - k;
    assert rs[|rs| - 1 - i] == r;
  }
}
