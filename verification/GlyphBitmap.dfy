/** One glyph from the rasteriser's bitmap to the compiled one and to the picture that the tool prints:
    crop, pack, and read back. */
module GlyphBitmap {

  /** A one-bit-per-pixel bitmap; row j starts at byte j * pitch, and the leftmost pixel is the high bit. */
  datatype Bitmap = Bitmap(rows: nat, width: nat, pitch: nat, buffer: seq<bv8>)

  predicate Valid(b: Bitmap) { b.width <= 8 * b.pitch && b.rows * b.pitch <= |b.buffer| }

  function Mask(k: nat): bv8 {
    if k == 0 then 128
    else if k == 1 then 64
    else if k == 2 then 32
    else if k == 3 then 16
    else if k == 4 then 8
    else if k == 5 then 4
    else if k == 6 then 2
    else if k == 7 then 1
    else 0
  }

  predicate BitAt(byte: bv8, k: nat) { byte & Mask(k) != 0 }

  /** Shifting the mask right goes on to the next bit, and after the last one leaves none. */
  lemma MaskShifts(k: nat)
    requires k < 8
    ensures Mask(k) >> 1 == Mask(k + 1) && Mask(k) != 0
  {
  }

  /** Or-ing one bit in sets that bit and no other. */
  lemma OrSetsOne(byte: bv8, k: nat, j: nat)
    requires k < 8 && j < 8
    ensures BitAt(byte | Mask(k), j) <==> j == k || BitAt(byte, j)
  {
  }

  lemma ZeroHasNone(j: nat)
    ensures !BitAt(0, j)
  {
  }

  // ----- pixels of the source bitmap -----

  lemma PixelInBuffer(b: Bitmap, i: nat, j: nat)
    requires Valid(b) && i < b.width && j < b.rows
    ensures i / 8 + j * b.pitch < |b.buffer|
  {
    assert (j + 1) * b.pitch <= b.rows * b.pitch;
    assert (j + 1) * b.pitch == j * b.pitch + b.pitch;
  }

  predicate Pixel(b: Bitmap, i: nat, j: nat)
    requires Valid(b) && i < b.width && j < b.rows
  {
    PixelInBuffer(b, i, j);
    BitAt(b.buffer[i / 8 + j * b.pitch], i % 8)
  }

  /** Row j starts at byte j * pitch, and the leftmost of eight pixels is the highest bit. */
  lemma PixelIs(b: Bitmap, i: nat, j: nat)
    requires Valid(b) && i < b.width && j < b.rows
    ensures i / 8 + j * b.pitch < |b.buffer|
    ensures Pixel(b, i, j) <==> (b.buffer[j * b.pitch + i / 8] >> (7 - i % 8)) & 1 != 0
  {
    PixelInBuffer(b, i, j);
    HighBitFirst(b.buffer[i / 8 + j * b.pitch], i % 8);
  }

  lemma HighBitFirst(byte: bv8, k: nat)
    requires k < 8
    ensures (byte >> (7 - k)) & 1 != 0 <==> BitAt(byte, k)
  {
  }

  predicate RowBlank(b: Bitmap, j: nat)
    requires Valid(b) && j < b.rows
  {
    forall i :: 0 <= i < b.width ==> !Pixel(b, i, j)
  }

  predicate ColumnBlank(b: Bitmap, i: nat)
    requires Valid(b) && i < b.width
  {
    forall j :: 0 <= j < b.rows ==> !Pixel(b, i, j)
  }

  // ----- cropping -----

  datatype Cuts = Cuts(top: nat, bottom: nat, left: nat, right: nat)

  method IsRowBlank(b: Bitmap, j: nat) returns (blank: bool)
    requires Valid(b) && j < b.rows
    ensures blank <==> RowBlank(b, j)
  {
    hide Pixel;
    var i := 0;
    while i < b.width && !Pixel(b, i, j)
      invariant i <= b.width && forall k :: 0 <= k < i ==> !Pixel(b, k, j)
    {
      i := i + 1;
    }
    blank := i == b.width;
  }

  method IsColumnBlank(b: Bitmap, i: nat) returns (blank: bool)
    requires Valid(b) && i < b.width
    ensures blank <==> ColumnBlank(b, i)
  {
    hide Pixel;
    var j := 0;
    while j < b.rows && !Pixel(b, i, j)
      invariant j <= b.rows && forall k :: 0 <= k < j ==> !Pixel(b, i, k)
    {
      j := j + 1;
    }
    blank := j == b.rows;
  }

  /** The blank rows above and below; a glyph that is blank throughout is cut from the top alone. */
  method CutRows(b: Bitmap) returns (top: nat, bottom: nat)
    requires Valid(b)
    ensures top + bottom <= b.rows
    ensures forall j :: 0 <= j < b.rows && !RowBlank(b, j) ==> top <= j < b.rows - bottom
    ensures top + bottom < b.rows ==> !RowBlank(b, top) && !RowBlank(b, b.rows - 1 - bottom)
  {
    hide RowBlank;
    top := 0;
    var going := true;
    while top < b.rows && going
      invariant top <= b.rows && (forall j :: 0 <= j < top ==> RowBlank(b, j))
      invariant !going ==> top < b.rows && !RowBlank(b, top)
      decreases b.rows - top, going
    {
      going := IsRowBlank(b, top);
      if going {
        top := top + 1;
      }
    }
    var last := b.rows - 1;
    going := true;
    while last >= 0 && going
      invariant -1 <= last < b.rows && (forall j :: last < j < b.rows ==> RowBlank(b, j))
      invariant !going ==> last >= 0 && !RowBlank(b, last)
      decreases last + 1, going
    {
      going := IsRowBlank(b, last);
      if going {
        last := last - 1;
      }
    }
    bottom := b.rows - 1 - last;
    if bottom + top >= b.rows {
      bottom := 0;
    }
  }

  method CutColumns(b: Bitmap) returns (left: nat, right: nat)
    requires Valid(b)
    ensures left + right <= b.width
    ensures forall i :: 0 <= i < b.width && !ColumnBlank(b, i) ==> left <= i < b.width - right
    ensures left + right < b.width ==> !ColumnBlank(b, left) && !ColumnBlank(b, b.width - 1 - right)
  {
    hide ColumnBlank;
    left := 0;
    var going := true;
    while left < b.width && going
      invariant left <= b.width && (forall i :: 0 <= i < left ==> ColumnBlank(b, i))
      invariant !going ==> left < b.width && !ColumnBlank(b, left)
      decreases b.width - left, going
    {
      going := IsColumnBlank(b, left);
      if going {
        left := left + 1;
      }
    }
    var last := b.width - 1;
    going := true;
    while last >= 0 && going
      invariant -1 <= last < b.width && (forall i :: last < i < b.width ==> ColumnBlank(b, i))
      invariant !going ==> last >= 0 && !ColumnBlank(b, last)
      decreases last + 1, going
    {
      going := IsColumnBlank(b, last);
      if going {
        last := last - 1;
      }
    }
    right := b.width - 1 - last;
    if right + left >= b.width {
      right := 0;
    }
  }

  /** The box keeps every set pixel. */
  predicate Covers(b: Bitmap, c: Cuts)
    requires Valid(b)
  {
    && c.top + c.bottom <= b.rows && c.left + c.right <= b.width
    && forall i, j :: 0 <= i < b.width && 0 <= j < b.rows && Pixel(b, i, j) ==>
         c.top <= j < b.rows - c.bottom && c.left <= i < b.width - c.right
  }

  /** No smaller box does: each of its four sides has a set pixel on it, or the box is empty both ways. */
  predicate Tight(b: Bitmap, c: Cuts)
    requires Valid(b) && c.top + c.bottom <= b.rows && c.left + c.right <= b.width
  {
    if c.top + c.bottom < b.rows && c.left + c.right < b.width then
      !RowBlank(b, c.top) && !RowBlank(b, b.rows - 1 - c.bottom) && !ColumnBlank(b, c.left) && !ColumnBlank(b, b.width - 1 - c.right)
    else
      c.top + c.bottom == b.rows && c.left + c.right == b.width
  }

  method Crop(b: Bitmap, nocut: bool) returns (c: Cuts)
    requires Valid(b)
    ensures Covers(b, c)
    ensures nocut ==> c == Cuts(0, 0, 0, 0)
    ensures !nocut ==> Tight(b, c)
  {
    hide Pixel;
    if nocut {
      return Cuts(0, 0, 0, 0);
    }
    var top, bottom := CutRows(b);
    var left, right := CutColumns(b);
    c := Cuts(top, bottom, left, right);
    forall i, j | 0 <= i < b.width && 0 <= j < b.rows && Pixel(b, i, j)
      ensures top <= j < b.rows - bottom && left <= i < b.width - right
    {
      assert !RowBlank(b, j) && !ColumnBlank(b, i);
    }
    if top + bottom < b.rows {
      var i :| 0 <= i < b.width && Pixel(b, i, top);
    }
  }

  /** Any box that covers the glyph contains a tight one, so cropping is minimal. */
  lemma CropIsMinimal(b: Bitmap, c: Cuts, d: Cuts)
    requires Valid(b) && Covers(b, c) && Tight(b, c) && Covers(b, d)
    ensures b.rows - c.top - c.bottom <= b.rows - d.top - d.bottom && b.width - c.left - c.right <= b.width - d.left - d.right
    ensures c.top + c.bottom < b.rows ==> d.top <= c.top && d.bottom <= c.bottom && d.left <= c.left && d.right <= c.right
  {
    hide Pixel, RowBlank, ColumnBlank, Covers;
    CoversBounds(b, c);
    CoversBounds(b, d);
    if c.top + c.bottom < b.rows && c.left + c.right < b.width {
      NotAbove(b, d, c.top);
      NotAbove(b, d, b.rows - 1 - c.bottom);
      NotBeside(b, d, c.left);
      NotBeside(b, d, b.width - 1 - c.right);
    }
  }

  lemma CoversBounds(b: Bitmap, d: Cuts)
    requires Valid(b) && Covers(b, d)
    ensures d.top + d.bottom <= b.rows && d.left + d.right <= b.width
  {
  }

  lemma NotAbove(b: Bitmap, d: Cuts, j: nat)
    requires Valid(b) && Covers(b, d) && j < b.rows && !RowBlank(b, j)
    ensures d.top <= j < b.rows - d.bottom
  {
    hide Pixel;
    var i :| 0 <= i < b.width && Pixel(b, i, j);
  }

  lemma NotBeside(b: Bitmap, d: Cuts, i: nat)
    requires Valid(b) && Covers(b, d) && i < b.width && !ColumnBlank(b, i)
    ensures d.left <= i < b.width - d.right
  {
    hide Pixel;
    var j :| 0 <= j < b.rows && Pixel(b, i, j);
  }

  // ----- packing -----

  function Packed(count: nat): nat { (count + 7) / 8 }

  /** The first |bits| bits of the bytes, high bit first. */
  predicate Holds(bytes: seq<bv8>, bits: seq<bool>) {
    && Packed(|bits|) <= |bytes|
    && forall p :: 0 <= p < |bits| ==> bits[p] == BitAt(bytes[p / 8], p % 8)
  }

  /** The byte that the next pixel goes to, and its bit; no bit when the byte is full or none was begun. */
  predicate Cursor(count: nat, at: int, mask: bv8) {
    at == Packed(count) - 1 && mask == if count % 8 == 0 then 0 else Mask(count % 8)
  }

  /** The bits of byte n / 8 from bit n % 8 on are clear. */
  predicate RestClear(bytes: seq<bv8>, n: nat)
    requires n / 8 < |bytes|
  {
    forall j :: n % 8 <= j < 8 ==> !BitAt(bytes[n / 8], j)
  }

  lemma MaskIsBit(n: nat)
    ensures n % 8 != 0 ==> Mask(n % 8) != 0
    ensures Mask(0) == 128 && Mask(8) == 0
  {
  }

  /** The bytes with one more bit. */
  function WithBit(bytes: seq<bv8>, n: nat, on: bool): (after: seq<bv8>)
    requires n / 8 < |bytes|
    ensures |after| == |bytes|
  {
    if on then bytes[n / 8 := bytes[n / 8] | Mask(n % 8)] else bytes
  }

  /** That bit is set, and no other has changed. */
  lemma WithBitAt(bytes: seq<bv8>, n: nat, on: bool, p: nat)
    requires n / 8 < |bytes| && p / 8 < |bytes|
    ensures BitAt(WithBit(bytes, n, on)[p / 8], p % 8) <==> (p == n && on) || BitAt(bytes[p / 8], p % 8)
  {
    hide BitAt, Mask;
    if on && p / 8 == n / 8 {
      OrSetsOne(bytes[n / 8], n % 8, p % 8);
      assert p == 8 * (p / 8) + p % 8 && n == 8 * (n / 8) + n % 8;
    }
  }

  /** One more bit in a byte whose remaining bits are clear. */
  lemma BitAdded(bytes: seq<bv8>, bits: seq<bool>, on: bool)
    requires |bits| / 8 < |bytes| && Holds(bytes, bits) && RestClear(bytes, |bits|)
    ensures Holds(WithBit(bytes, |bits|, on), bits + [on])
  {
    hide BitAt, WithBit;
    var n := |bits|;
    forall p | 0 <= p < n + 1
      ensures (bits + [on])[p] == BitAt(WithBit(bytes, n, on)[p / 8], p % 8)
    {
      WithBitAt(bytes, n, on, p);
    }
  }

  lemma RestStillClear(bytes: seq<bv8>, n: nat, on: bool)
    requires n / 8 < |bytes| && RestClear(bytes, n)
    ensures (n + 1) % 8 != 0 ==> (n + 1) / 8 == n / 8 && RestClear(WithBit(bytes, n, on), n + 1)
  {
    hide BitAt, WithBit;
    forall j | 0 < (n + 1) % 8 <= j < 8
      ensures !BitAt(WithBit(bytes, n, on)[n / 8], j)
    {
      var p := n / 8 * 8 + j;
      assert p / 8 == n / 8 && p % 8 == j;
      WithBitAt(bytes, n, on, p);
    }
  }

  lemma FreshByte(bytes: seq<bv8>, bits: seq<bool>)
    requires |bits| % 8 == 0 && |bits| / 8 < |bytes| && Holds(bytes, bits)
    ensures Holds(bytes[|bits| / 8 := 0], bits) && RestClear(bytes[|bits| / 8 := 0], |bits|)
  {
    forall j | 0 <= j < 8
      ensures !BitAt(0, j)
    {
      ZeroHasNone(j);
    }
  }

  /** Begin a cleared byte when the one in hand is full. */
  method NextByte(bitmap: array<bv8>, at: int, mask: bv8, ghost bits: seq<bool>) returns (at': int, mask': bv8)
    requires Packed(|bits| + 1) <= bitmap.Length
    requires Cursor(|bits|, at, mask) && Holds(bitmap[..], bits)
    requires |bits| % 8 != 0 ==> RestClear(bitmap[..], |bits|)
    modifies bitmap
    ensures at' == |bits| / 8 && mask' == Mask(|bits| % 8) && Holds(bitmap[..], bits) && RestClear(bitmap[..], |bits|)
  {
    hide BitAt, Holds, RestClear, Mask;
    at', mask' := at, mask;
    MaskIsBit(|bits|);
    if mask' == 0 {
      FreshByte(bitmap[..], bits);
      at' := at' + 1;
      bitmap[at'] := 0;
      mask' := 128;
      assert bitmap[..] == old(bitmap[..])[|bits| / 8 := 0];
    }
  }

  /** add_pixel: one more bit. */
  method AddPixel(bitmap: array<bv8>, at: int, mask: bv8, on: bool, ghost bits: seq<bool>) returns (at': int, mask': bv8)
    requires Packed(|bits| + 1) <= bitmap.Length
    requires Cursor(|bits|, at, mask) && Holds(bitmap[..], bits)
    requires |bits| % 8 != 0 ==> RestClear(bitmap[..], |bits|)
    modifies bitmap
    ensures Cursor(|bits| + 1, at', mask') && Holds(bitmap[..], bits + [on])
    ensures (|bits| + 1) % 8 != 0 ==> RestClear(bitmap[..], |bits| + 1)
  {
    hide BitAt, Holds, RestClear, Mask, Cursor, WithBit;
    at', mask' := NextByte(bitmap, at, mask, bits);
    ghost var before := bitmap[..];
    assert WithBit(before, |bits|, on) == if on then before[at' := before[at'] | mask'] else before by {
      WithBitIs(before, |bits|, on);
    }
    BitAdded(before, bits, on);
    RestStillClear(before, |bits|, on);
    if on {
      bitmap[at'] := bitmap[at'] | mask';
    }
    assert bitmap[..] == WithBit(before, |bits|, on);
    CursorMoves(|bits|, at', mask');
    mask' := mask' >> 1;
  }

  lemma WithBitIs(bytes: seq<bv8>, n: nat, on: bool)
    requires n / 8 < |bytes|
    ensures WithBit(bytes, n, on) == if on then bytes[n / 8 := bytes[n / 8] | Mask(n % 8)] else bytes
  {
    hide Mask;
  }

  lemma CursorMoves(n: nat, at: int, mask: bv8)
    requires at == n / 8 && mask == Mask(n % 8)
    ensures Cursor(n + 1, at, mask >> 1)
  {
    hide Mask;
    MaskShifts(n % 8);
    MaskIsBit(n + 1);
  }

  // ----- the box, row by row -----

  /** The first n pixels of row j from column left. */
  function RowBits(b: Bitmap, j: nat, left: nat, n: nat): (bits: seq<bool>)
    requires Valid(b) && j < b.rows && left + n <= b.width
    ensures |bits| == n
    ensures forall c :: 0 <= c < n ==> bits[c] == Pixel(b, left + c, j)
  {
    seq(n, c requires 0 <= c < n => Pixel(b, left + c, j))
  }

  /** The first n rows of the box, top row first. */
  function BoxBits(b: Bitmap, top: nat, left: nat, width: nat, n: nat): (bits: seq<bool>)
    requires Valid(b) && top + n <= b.rows && left + width <= b.width
    ensures |bits| == n * width
  {
    if n == 0 then [] else BoxBits(b, top, left, width, n - 1) + RowBits(b, top + n - 1, left, width)
  }

  lemma {:induction false} BoxBitAt(b: Bitmap, top: nat, left: nat, width: nat, n: nat, r: nat, c: nat)
    requires Valid(b) && top + n <= b.rows && left + width <= b.width && r < n && c < width
    ensures r * width + c < n * width
    ensures BoxBits(b, top, left, width, n)[r * width + c] == Pixel(b, left + c, top + r)
  {
    hide Pixel;
    assert (r + 1) * width == r * width + width;
    assert (r + 1) * width <= n * width;
    if r < n - 1 {
      BoxBitAt(b, top, left, width, n - 1, r, c);
    }
  }

  /** The packing loops: the bits of the box fill exactly the bytes set aside for them. */
  method Pack(b: Bitmap, c: Cuts) returns (bitmap: array<bv8>)
    requires Valid(b) && c.top + c.bottom <= b.rows && c.left + c.right <= b.width
    ensures var width, height := b.width - c.left - c.right, b.rows - c.top - c.bottom;
            bitmap.Length == (width * height + 7) / 8 && Holds(bitmap[..], BoxBits(b, c.top, c.left, width, height))
    ensures fresh(bitmap)
  {
    hide Pixel, Holds, RestClear, BoxBits, RowBits, Mask;
    var width, height := b.width - c.left - c.right, b.rows - c.top - c.bottom;
    bitmap := new bv8[(width * height + 7) / 8];
    var at: int, mask: bv8 := -1, 0;
    NoBits(b, c.top, c.left, width, bitmap[..]);
    for j := 0 to height
      invariant fresh(bitmap) && Cursor(j * width, at, mask) && Holds(bitmap[..], BoxBits(b, c.top, c.left, width, j))
      invariant (j * width) % 8 != 0 ==> (j * width) / 8 < bitmap.Length && RestClear(bitmap[..], j * width)
    {
      at, mask := PackRow(bitmap, b, c, j, at, mask);
    }
  }

  lemma NoBits(b: Bitmap, top: nat, left: nat, width: nat, bytes: seq<bv8>)
    requires Valid(b) && top <= b.rows && left + width <= b.width
    ensures BoxBits(b, top, left, width, 0) == [] && Holds(bytes, [])
  {
  }

  /** One row of the box. */
  method PackRow(bitmap: array<bv8>, b: Bitmap, c: Cuts, j: nat, at: int, mask: bv8) returns (at': int, mask': bv8)
    requires Valid(b) && c.top + c.bottom <= b.rows && c.left + c.right <= b.width && j < b.rows - c.top - c.bottom
    requires bitmap.Length == ((b.width - c.left - c.right) * (b.rows - c.top - c.bottom) + 7) / 8
    requires var width := b.width - c.left - c.right;
             && Cursor(j * width, at, mask) && Holds(bitmap[..], BoxBits(b, c.top, c.left, width, j))
             && ((j * width) % 8 != 0 ==> (j * width) / 8 < bitmap.Length && RestClear(bitmap[..], j * width))
    modifies bitmap
    ensures var width := b.width - c.left - c.right;
            && Cursor((j + 1) * width, at', mask') && Holds(bitmap[..], BoxBits(b, c.top, c.left, width, j + 1))
            && (((j + 1) * width) % 8 != 0 ==> ((j + 1) * width) / 8 < bitmap.Length && RestClear(bitmap[..], (j + 1) * width))
  {
    hide Pixel, Holds, RestClear, RowBits, Mask, BoxBits;
    var width := b.width - c.left - c.right;
    RowFits(j, width, b.rows - c.top - c.bottom);
    RowDone(b, c.top, c.left, width, j);
    ghost var above := BoxBits(b, c.top, c.left, width, j);
    at', mask' := at, mask;
    for i := 0 to width
      invariant Cursor(j * width + i, at', mask') && Holds(bitmap[..], above + RowBits(b, c.top + j, c.left, i))
      invariant (j * width + i) % 8 != 0 ==> (j * width + i) / 8 < bitmap.Length && RestClear(bitmap[..], j * width + i)
    {
      NextInRow(b, c.top + j, c.left, i);
      assert above + (RowBits(b, c.top + j, c.left, i) + [Pixel(b, c.left + i, c.top + j)])
          == (above + RowBits(b, c.top + j, c.left, i)) + [Pixel(b, c.left + i, c.top + j)];
      at', mask' := AddPixel(bitmap, at', mask', Pixel(b, c.left + i, c.top + j), above + RowBits(b, c.top + j, c.left, i));
    }
  }

  lemma RowFits(j: nat, width: nat, height: nat)
    requires j < height
    ensures (j + 1) * width == j * width + width <= width * height
  {
    assert (j + 1) * width <= height * width;
  }

  lemma RowDone(b: Bitmap, top: nat, left: nat, width: nat, j: nat)
    requires Valid(b) && top + j < b.rows && left + width <= b.width
    ensures BoxBits(b, top, left, width, j + 1) == BoxBits(b, top, left, width, j) + RowBits(b, top + j, left, width)
    ensures RowBits(b, top + j, left, 0) == [] && BoxBits(b, top, left, width, j) + [] == BoxBits(b, top, left, width, j)
  {
  }

  lemma NextInRow(b: Bitmap, j: nat, left: nat, i: nat)
    requires Valid(b) && j < b.rows && left + i < b.width
    ensures RowBits(b, j, left, i + 1) == RowBits(b, j, left, i) + [Pixel(b, left + i, j)]
  {
    hide Pixel;
  }
}
