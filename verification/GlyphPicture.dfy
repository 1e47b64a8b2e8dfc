/** The compiled glyph, and the picture that the tool prints of it. */
module GlyphPicture {
  import opened GlyphBitmap
  import opened GlyphSort
  import opened Words

  /** A run of bytes as the eight-bit words that masks apply to, and back. */
  function AsBits(s: seq<byte>): (b: seq<bv8>)
    ensures |b| == |s|
  {
    seq(|s|, i requires 0 <= i < |s| => s[i] as bv8)
  }

  function AsBytes(b: seq<bv8>): (s: seq<byte>)
    ensures |s| == |b|
  {
    seq(|b|, i requires 0 <= i < |b| => b[i] as int)
  }

  lemma BytesAndBits(b: seq<bv8>)
    ensures AsBits(AsBytes(b)) == b
  {
  }

  /** g is bitmap b cut by c, hung up at left and top. */
  predicate CompiledFrom(g: Glyph, b: Bitmap, c: Cuts, left: int, top: int)
    requires Valid(b)
  {
    && Covers(b, c)
    && g.width == b.width - c.left - c.right && g.height == b.rows - c.top - c.bottom
    && g.xOfs == left + c.left && g.yOfs == top - g.height - c.top
    && |g.bitmap| == (g.width * g.height + 7) / 8
    && Holds(AsBits(g.bitmap), BoxBits(b, c.top, c.left, g.width, g.height))
  }

  /** The part of add_glyph that makes the glyph, from the rasteriser's bitmap and bearings on. */
  method CompileGlyph(charCode: uint32, b: Bitmap, left: int, top: int, deviceWidth: int, nocut: bool) returns (g: Glyph, c: Cuts)
    requires Valid(b)
    ensures CompiledFrom(g, b, c, left, top) && g.charCode == charCode && g.deviceWidth == deviceWidth
    ensures if nocut then c == Cuts(0, 0, 0, 0) else Tight(b, c)
  {
    hide Pixel, Holds, BoxBits, Tight;
    c := Crop(b, nocut);
    var width, height := b.width - c.left - c.right, b.rows - c.top - c.bottom;
    var bitmap := Pack(b, c);
    BytesAndBits(bitmap[..]);
    g := Glyph(charCode, width, height, left + c.left, top - height - c.top, deviceWidth, AsBytes(bitmap[..]));
  }

  // ----- the picture -----

  function Min(a: int, b: int): int { if a < b then a else b }
  function Max(a: int, b: int): int { if a > b then a else b }

  predicate WellSized(g: Glyph) { Packed(g.width * g.height) <= |g.bitmap| }

  predicate InBox(g: Glyph, x: int, y: int) {
    g.xOfs <= x < g.xOfs + g.width && g.yOfs <= y < g.yOfs + g.height
  }

  /** The bit for a place in the box: rows from the top, columns from the left. */
  function BitIndex(g: Glyph, x: int, y: int): (p: nat)
    requires InBox(g, x, y)
    ensures p < g.width * g.height
  {
    RowFits(g.yOfs + g.height - 1 - y, g.width, g.height);
    (g.yOfs + g.height - 1 - y) * g.width + (x - g.xOfs)
  }

  function Cell(g: Glyph, asce: int, desc: int, x: int, y: int): char
    requires WellSized(g)
  {
    if InBox(g, x, y) then
      if BitAt(g.bitmap[BitIndex(g, x, y) / 8] as bv8, BitIndex(g, x, y) % 8) then '#' else '_'
    else if 0 <= x < g.deviceWidth && -desc <= y < asce then
      if x == 0 || y == 0 then '+' else '.'
    else '*'
  }

  /** Bits read before row y, the one below all those rows of the box that are above it. */
  function Above(g: Glyph, y: int): (n: nat)
    ensures n <= g.height
  {
    Max(0, Min(g.height, g.yOfs + g.height - 1 - y))
  }

  /** Bits read in row y before column x. */
  function Beside(g: Glyph, x: int, y: int): (n: nat)
    ensures n <= g.width
  {
    if g.yOfs <= y < g.yOfs + g.height then Max(0, Min(g.width, x - g.xOfs)) else 0
  }

  /** The reader is at bit p. */
  predicate ReaderAt(p: nat, at: nat, mask: bv8) { at == p / 8 && mask == Mask(p % 8) }

  method NextBit(at: nat, mask: bv8, ghost p: nat) returns (at': nat, mask': bv8)
    requires ReaderAt(p, at, mask)
    ensures ReaderAt(p + 1, at', mask')
  {
    MaskShifts(p % 8);
    MaskIsBit(p + 1);
    at', mask' := at, mask >> 1;
    if mask' == 0 {
      mask' := 0x80;
      at' := at' + 1;
    }
  }

  method PrintCell(g: Glyph, asce: int, desc: int, x: int, y: int, at: nat, mask: bv8) returns (ch: char, at': nat, mask': bv8)
    requires WellSized(g) && ReaderAt(Above(g, y) * g.width + Beside(g, x, y), at, mask)
    ensures ch == Cell(g, asce, desc, x, y)
    ensures ReaderAt(Above(g, y) * g.width + Beside(g, x + 1, y), at', mask')
  {
    hide Mask, BitAt;
    at', mask' := at, mask;
    if x >= g.xOfs && x < g.xOfs + g.width && y >= g.yOfs && y < g.yOfs + g.height {
      ghost var p := BitIndex(g, x, y);
      var bits := g.bitmap[at] as bv8;
      assert BitAt(bits, p % 8) <==> bits & mask != 0 by { BitByMask(bits, p % 8, mask); }
      ch := if bits & mask != 0 then '#' else '_';
      at', mask' := NextBit(at, mask, p);
    } else if x >= 0 && x < g.deviceWidth && y >= -desc && y < asce {
      ch := if x == 0 || y == 0 then '+' else '.';
    } else {
      ch := '*';
    }
  }

  lemma BitByMask(byte: bv8, k: nat, mask: bv8)
    requires mask == Mask(k)
    ensures BitAt(byte, k) <==> byte & mask != 0
  {
  }

  method PrintLine(g: Glyph, asce: int, desc: int, xmin: int, xmax: int, y: int, at: nat, mask: bv8)
    returns (line: string, at': nat, mask': bv8)
    requires WellSized(g) && xmin <= g.xOfs && g.xOfs + g.width <= xmax
    requires ReaderAt(Above(g, y) * g.width, at, mask)
    ensures |line| == xmax - xmin && forall k :: 0 <= k < |line| ==> line[k] == Cell(g, asce, desc, xmin + k, y)
    ensures ReaderAt(Above(g, y - 1) * g.width, at', mask')
  {
    hide ReaderAt, Cell, Above, WellSized;
    line, at', mask' := "", at, mask;
    for x := xmin to xmax
      invariant |line| == x - xmin && forall k :: 0 <= k < |line| ==> line[k] == Cell(g, asce, desc, xmin + k, y)
      invariant ReaderAt(Above(g, y) * g.width + Beside(g, x, y), at', mask')
    {
      var ch;
      ch, at', mask' := PrintCell(g, asce, desc, x, y, at', mask');
      line := line + [ch];
    }
    RowRead(g, y);
  }

  /** A whole row read: all of the box's width, or none. */
  lemma RowRead(g: Glyph, y: int)
    ensures Above(g, y - 1) * g.width == Above(g, y) * g.width + if g.yOfs <= y < g.yOfs + g.height then g.width else 0
  {
    if g.yOfs <= y < g.yOfs + g.height {
      assert Above(g, y - 1) == Above(g, y) + 1;
    } else {
      assert Above(g, y - 1) == Above(g, y);
    }
  }

  /** print_glyphs, one glyph: a line for each row of the window, the top one first. */
  method PrintGlyph(g: Glyph, asce: int, desc: int) returns (lines: seq<string>, xmin: int, ymax: int)
    requires WellSized(g)
    ensures xmin == Min(g.xOfs, 0) && ymax == Max(g.yOfs + g.height, asce)
    ensures |lines| == ymax - Min(g.yOfs, -desc)
    ensures forall r :: 0 <= r < |lines| ==> |lines[r]| == Max(g.xOfs + g.width, g.deviceWidth) - xmin
    ensures forall r, k :: 0 <= r < |lines| && 0 <= k < |lines[r]| ==> lines[r][k] == Cell(g, asce, desc, xmin + k, ymax - 1 - r)
  {
    hide ReaderAt, Cell, Above, WellSized;
    var xmax := g.xOfs + g.width;
    if xmax < g.deviceWidth {
      xmax := g.deviceWidth;
    }
    xmin := g.xOfs;
    if xmin > 0 {
      xmin := 0;
    }
    ymax := g.yOfs + g.height;
    if ymax < asce {
      ymax := asce;
    }
    var ymin := g.yOfs;
    if ymin > -desc {
      ymin := -desc;
    }
    var at, mask := 0, 0x80;
    StartsAtZero(g, ymax - 1, mask);
    lines := [];
    var y := ymax - 1;
    while y > ymin - 1
      invariant ymin - 1 <= y < ymax && |lines| == ymax - 1 - y
      invariant ReaderAt(Above(g, y) * g.width, at, mask)
      invariant forall r :: 0 <= r < |lines| ==> |lines[r]| == xmax - xmin
      invariant forall r, k :: 0 <= r < |lines| && 0 <= k < |lines[r]| ==> lines[r][k] == Cell(g, asce, desc, xmin + k, ymax - 1 - r)
    {
      var line;
      line, at, mask := PrintLine(g, asce, desc, xmin, xmax, y, at, mask);
      lines := lines + [line];
      y := y - 1;
    }
  }

  lemma StartsAtZero(g: Glyph, y: int, mask: bv8)
    requires y >= g.yOfs + g.height - 1 && mask == 0x80
    ensures ReaderAt(Above(g, y) * g.width, 0, mask)
  {
    MaskIsBit(0);
    assert Above(g, y) == 0;
  }

  /** Cropping moves nothing and loses nothing: for every compiled glyph and every place in the picture,
      there is ink exactly where the rasteriser's bitmap, hung up at left and top, has a set pixel. */
  lemma PictureShowsBitmap(g: Glyph, b: Bitmap, c: Cuts, left: int, top: int, asce: int, desc: int, x: int, y: int)
    requires Valid(b) && CompiledFrom(g, b, c, left, top)
    ensures WellSized(g)
    ensures Cell(g, asce, desc, x, y) == '#'
       <==> 0 <= x - left < b.width && 0 <= top - 1 - y < b.rows && Pixel(b, x - left, top - 1 - y)
  {
    hide Pixel, Holds, BoxBits, BitAt, RowBits;
    if InBox(g, x, y) {
      var r, k := g.yOfs + g.height - 1 - y, x - g.xOfs;
      BoxBitAt(b, c.top, c.left, g.width, g.height, r, k);
      HoldsAt(AsBits(g.bitmap), BoxBits(b, c.top, c.left, g.width, g.height), BitIndex(g, x, y));
    }
  }

  lemma HoldsAt(bytes: seq<bv8>, bits: seq<bool>, p: nat)
    requires Holds(bytes, bits) && p < |bits|
    ensures p / 8 < |bytes| && bits[p] == BitAt(bytes[p / 8], p % 8)
  {
  }
}
