/** TPL textures (`structs/texture/tpl_file.py`, with an older copy in
    `helper_texture.py`): the 32-byte texture header, its validity test,
    and the texel readers that find one texel of a tiled GameCube image.

    Images are stored as rows of rectangular tiles. I4 and C4 tiles are
    8x8 texels of four bits (32 bytes), C8 tiles are 8x4 texels of one byte
    (32 bytes), and CMPR tiles are 8x8 texels made of 2x2 DXT1-style blocks
    of 8 bytes. Each reader computes the address with shifts and masks; the
    lemmas relate it to `TileTexel`, the position of a texel counted tile by
    tile, and show that `TileCoords` recovers the texel from it.

    A reader indexes the image bytes and the palette, so an address past
    either end is an IndexError, and the IA8 reader's two-byte unpack of a
    short slice is a struct.error.
 */
module Tpl {
  import opened Bits
  import opened Wrappers
  import opened Fields
  import opened TplColor
  import TextureMath
  import Compressor

  // ---------------------------------------------------------------------
  // TPLTextureHeader: '>IIHHxxxxxxxxxxxBxxBxxxxx'

  datatype TextureHeader = TextureHeader(
    address: nat, height: nat, width: nat, format: nat, palette: nat, paletteFormat: nat)

  const HeaderSize: nat := 32

  predicate HeaderFits(h: TextureHeader) {
    && h.address < Word32 && h.palette < Word32 && h.height < Word16 && h.width < Word16
    && h.format < 256 && h.paletteFormat < 256
  }

  /** Image address, palette address, height and width, then the format
      byte at 23 and the palette format byte at 26; the other bytes are
      padding. */
  function ParseHeader(b: seq<u8>, offset: nat): (res: Result<TextureHeader>)
    ensures res.Err? <==> offset + HeaderSize > |b|
    ensures res.Err? ==> res.error == OutOfBytes
    ensures res.Ok? ==> HeaderFits(res.value)
  {
    if offset + HeaderSize > |b| then Err(OutOfBytes)
    else Ok(TextureHeader(U32At(b, offset), U16At(b, offset + 8), U16At(b, offset + 10),
                          U8At(b, offset + 23), U32At(b, offset + 4), U8At(b, offset + 26)))
  }

  function EncodeHeader(h: TextureHeader): (e: seq<u8>)
    requires HeaderFits(h)
    ensures |e| == HeaderSize
  {
    EncodeHeaderHead(h) + EncodeHeaderTail(h)
  }

  /** Address, palette, height and width. */
  function EncodeHeaderHead(h: TextureHeader): (e: seq<u8>)
    requires HeaderFits(h)
    ensures |e| == 12
  {
    Be32(h.address) + Be32(h.palette) + Be16(h.height) + Be16(h.width)
  }

  /** Eleven pad bytes, the format, two pad bytes, the palette format and
      five pad bytes. */
  function EncodeHeaderTail(h: TextureHeader): (e: seq<u8>)
    requires HeaderFits(h)
    ensures |e| == 20
  {
    Zeros(11) + Be8(h.format) + Zeros(2) + Be8(h.paletteFormat) + Zeros(5)
  }

  /** A header written at `offset` reads back unchanged. */
  lemma {:induction false} HeaderRoundTrip(b: seq<u8>, offset: nat, h: TextureHeader)
    requires HeaderFits(h) && offset + HeaderSize <= |b| && b[offset..offset + HeaderSize] == EncodeHeader(h)
    ensures ParseHeader(b, offset) == Ok(h)
  {
    var e1, e2 := EncodeHeaderHead(h), EncodeHeaderTail(h);
    SplitSlice(b, offset, e1, e2);
    HeaderHeadRead(b, offset, h);
    HeaderTailRead(b, offset + 12, h);
  }

  lemma {:induction false} HeaderHeadRead(b: seq<u8>, offset: nat, h: TextureHeader)
    requires HeaderFits(h) && offset + 12 <= |b| && b[offset..offset + 12] == EncodeHeaderHead(h)
    ensures U32At(b, offset) == h.address && U32At(b, offset + 4) == h.palette
    ensures U16At(b, offset + 8) == h.height && U16At(b, offset + 10) == h.width
  {
    var e := EncodeHeaderHead(h);
    Read32At(b, offset, e, 0, h.address);
    Read32At(b, offset, e, 4, h.palette);
    Read16At(b, offset, e, 8, h.height);
    Read16At(b, offset, e, 10, h.width);
  }

  lemma {:induction false} HeaderTailRead(b: seq<u8>, offset: nat, h: TextureHeader)
    requires HeaderFits(h) && offset + 20 <= |b| && b[offset..offset + 20] == EncodeHeaderTail(h)
    ensures U8At(b, offset + 11) == h.format && U8At(b, offset + 14) == h.paletteFormat
  {
    var e := EncodeHeaderTail(h);
    Read8At(b, offset, e, 11, h.format);
    Read8At(b, offset, e, 14, h.paletteFormat);
  }

  // ---------------------------------------------------------------------
  // Image formats and validity

  /** `VALID_IMAGE_FORMATS`: format code to name. */
  const ImageFormats: map<nat, string> := map[
    0 := "I4", 1 := "I8", 2 := "IA4", 3 := "IA8", 4 := "RGB565", 5 := "RGB5A3",
    6 := "RGBA32", 8 := "C4", 9 := "C8", 0xa := "C14X2", 0xe := "CMPR"]

  /** `REV_VALID_IMAGE_FORMATS`: name to format code. */
  const FormatCodes: map<string, nat> := map[
    "I4" := 0, "I8" := 1, "IA4" := 2, "IA8" := 3, "RGB565" := 4, "RGB5A3" := 5,
    "RGBA32" := 6, "C4" := 8, "C8" := 9, "C14X2" := 0xa, "CMPR" := 0xe]

  /** The reversed table undoes the table: no two formats share a name. */
  lemma {:induction false} FormatCodesInvert(code: nat)
    requires code in ImageFormats
    ensures ImageFormats[code] in FormatCodes && FormatCodes[ImageFormats[code]] == code
  {
  }

  /** `is_valid`: a known format, and a width and height that are positive
      multiples of 4. */
  predicate IsValid(h: TextureHeader) {
    && h.format in ImageFormats
    && h.width % 4 == 0
    && h.height % 4 == 0
    && h.height > 0
    && h.width > 0
  }

  /** `blocks_to_read` of the C4 and CMPR readers: 8 bytes per 4x4 block. */
  function BlockBytes(h: TextureHeader): nat {
    (h.width / 4) * (h.height / 4) * 8
  }

  /** A valid header's formats are exactly the listed codes, and its block
      byte count is half a byte per texel and never zero. */
  lemma {:induction false} ValidBlockBytes(h: TextureHeader)
    ensures IsValid(h) <==> (h.format in {0, 1, 2, 3, 4, 5, 6, 8, 9, 0xa, 0xe}
                             && h.width >= 4 && h.height >= 4 && h.width % 4 == 0 && h.height % 4 == 0)
    ensures IsValid(h) ==> BlockBytes(h) > 0 && BlockBytes(h) * 2 == h.width * h.height
  {
    if IsValid(h) {
      var w, v := h.width / 4, h.height / 4;
      assert h.width == 4 * w && h.height == 4 * v;
      assert h.width * h.height == 16 * (w * v);
      MulLeMul(1, w, v);
    }
  }

  // ---------------------------------------------------------------------
  // Tile addressing

  /** A product of naturals, named so that proofs multiply out only the
      products they need. */
  function Mul(a: nat, b: nat): nat {
    a * b
  }

  /** The position of texel `(s, t)` in an image of `tileW` x `tileH` tiles,
      `tiles` to a row, counted in texels tile by tile and row by row
      within a tile. */
  function TileTexel(s: nat, t: nat, tileW: nat, tileH: nat, tiles: nat): nat
    requires tileW >= 1 && tileH >= 1
  {
    Mul(TileOf(s, t, tileW, tileH, tiles), Mul(tileW, tileH)) + WithinTile(s, t, tileW, tileH)
  }

  /** The tile holding texel `(s, t)`, counted row by row. */
  function TileOf(s: nat, t: nat, tileW: nat, tileH: nat, tiles: nat): nat
    requires tileW >= 1 && tileH >= 1
  {
    Mul(t / tileH, tiles) + s / tileW
  }

  /** The position of texel `(s, t)` inside its tile. */
  function WithinTile(s: nat, t: nat, tileW: nat, tileH: nat): (r: nat)
    requires tileW >= 1 && tileH >= 1
    ensures r < Mul(tileW, tileH)
  {
    MulLeMul(t % tileH, tileH - 1, tileW);
    Mul(t % tileH, tileW) + s % tileW
  }

  /** The texel at a tile-by-tile position. */
  function TileCoords(i: nat, tileW: nat, tileH: nat, tiles: nat): (nat, nat)
    requires tileW >= 1 && tileH >= 1 && tiles >= 1
  {
    MulLeMul(1, tileW, tileH);
    var area := Mul(tileW, tileH);
    DivNat(i, area);
    var tile: nat, within: nat := i / area, i % area;
    DivNat(tile, tiles);
    DivNat(within, tileW);
    var row: nat, column: nat := tile / tiles, within / tileW;
    (Mul(tile % tiles, tileW) + within % tileW, Mul(row, tileH) + column)
  }

  /** Within one row of tiles no two texels share a position: `TileCoords`
      recovers the texel. */
  lemma {:induction false} TileInverse(s: nat, t: nat, tileW: nat, tileH: nat, tiles: nat)
    requires tileW >= 1 && tileH >= 1 && tiles >= 1
    requires s < tileW * tiles
    ensures TileCoords(TileTexel(s, t, tileW, tileH, tiles), tileW, tileH, tiles) == (s, t)
  {
    var tile, within := TileOf(s, t, tileW, tileH, tiles), WithinTile(s, t, tileW, tileH);
    MulLeMul(1, tileW, tileH);
    DivModUnique(TileTexel(s, t, tileW, tileH, tiles), Mul(tileW, tileH), tile, within);
    TileSplit(s, t, tileW, tileH, tiles);
  }

  /** The tile number and the in-tile position each split back into the
      texel's coordinates. */
  lemma {:induction false} TileSplit(s: nat, t: nat, tileW: nat, tileH: nat, tiles: nat)
    requires tileW >= 1 && tileH >= 1 && tiles >= 1
    requires s < tileW * tiles
    ensures var tile := TileOf(s, t, tileW, tileH, tiles);
      tile % tiles == s / tileW && tile / tiles == t / tileH
    ensures var within := WithinTile(s, t, tileW, tileH);
      within % tileW == s % tileW && within / tileW == t % tileH
    ensures Mul(s / tileW, tileW) + s % tileW == s && Mul(t / tileH, tileH) + t % tileH == t
  {
    assert s / tileW < tiles by {
      if s / tileW >= tiles {
        MulLeMul(tiles, s / tileW, tileW);
      }
    }
    DivModUnique(TileOf(s, t, tileW, tileH, tiles), tiles, t / tileH, s / tileW);
    DivModUnique(WithinTile(s, t, tileW, tileH), tileW, t % tileH, s % tileW);
  }

  /** Tiles per row as the I4 reader computes them: `(width + 7) // 8`,
      enough tiles to cover the width. */
  function TilesPerRow(width: nat): (r: nat)
    ensures width <= 8 * r < width + 8
    ensures width >= 1 ==> r >= 1
  {
    (width + 7) / 8
  }

  /** Tiles per row as the C4, C8 and CMPR readers compute them:
      `width >> 3`, which drops a partly filled last tile. */
  function NarrowTilesPerRow(width: nat): (r: nat)
    ensures 8 * r <= width
  {
    Pow2Values();
    Shr(width, 3)
  }

  /** The two counts agree when the width is a whole number of tiles. */
  lemma {:induction false} NarrowTilesAgree(width: nat)
    ensures NarrowTilesPerRow(width) == TilesPerRow(width) <==> width % 8 == 0
  {
    Pow2Values();
  }

  /** `x & 7`, `x & 3`, `x & 1` and the matching right shifts. */
  lemma {:induction false} LowBits(x: nat)
    ensures And(x, 7) == x % 8 && And(x, 3) == x % 4 && And(x, 1) == x % 2
    ensures Shr(x, 3) == x / 8 && Shr(x, 2) == x / 4 && Shr(x, 1) == x / 2
  {
    Pow2Values();
    MaskIsAnd(x, 3);
    MaskIsAnd(x, 2);
    MaskIsAnd(x, 1);
  }

  /** The byte and nibble of texel `(s, t)` in 8x8 tiles of 32 bytes, as the
      I4 and C4 readers compute them: `base = (tBlock * tiles + sBlock) << 5`,
      `blockOff = ((t & 7) << 3) + (s & 7)`, byte `base + (blockOff >> 1)`,
      low nibble when `blockOff` is odd. */
  function NibbleAddress(s: nat, t: nat, tiles: nat): (r: (nat, bool))
    ensures r.0 == TileTexel(s, t, 8, 8, tiles) / 2
    ensures r.1 <==> TileTexel(s, t, 8, 8, tiles) % 2 == 1
  {
    LowBits(s);
    LowBits(t);
    Pow2Values();
    var base := Shl(Mul(Shr(t, 3), tiles) + Shr(s, 3), 5);
    var blockOff := Shl(And(t, 7), 3) + And(s, 7);
    LowBits(blockOff);
    NibbleSplit(s, t, tiles);
    (base + Shr(blockOff, 1), And(blockOff, 1) != 0)
  }

  lemma {:induction false} NibbleSplit(s: nat, t: nat, tiles: nat)
    ensures var tile, blockOff := TileOf(s, t, 8, 8, tiles), Mul(t % 8, 8) + s % 8;
      && TileTexel(s, t, 8, 8, tiles) / 2 == tile * 32 + blockOff / 2
      && TileTexel(s, t, 8, 8, tiles) % 2 == blockOff % 2
  {
    var tile, blockOff := TileOf(s, t, 8, 8, tiles), Mul(t % 8, 8) + s % 8;
    assert TileTexel(s, t, 8, 8, tiles) == tile * 64 + blockOff;
    DivModUnique(tile * 64 + blockOff, 2, tile * 32 + blockOff / 2, blockOff % 2);
  }

  /** The byte of texel `(s, t)` in 8x4 tiles of 32 bytes, as the C8 reader
      computes it: `((tBlk * tiles + sBlk) << 5) + ((t & 3) << 3) + (s & 7)`. */
  function ByteAddress(s: nat, t: nat, tiles: nat): (r: nat)
    ensures r == TileTexel(s, t, 8, 4, tiles)
  {
    LowBits(s);
    LowBits(t);
    Pow2Values();
    Shl(Mul(Shr(t, 2), tiles) + Shr(s, 3), 5) + Shl(And(t, 3), 3) + And(s, 7)
  }

  /** The first byte of the 8-byte block holding texel `(s, t)`, as the CMPR
      reader computes it: the 4x4 block `(s >> 2, t >> 2)` sits in 2x2
      groups per tile, so it is block `TileTexel` of the block grid. */
  function BlockAddress(s: nat, t: nat, tiles: nat): (r: nat)
    ensures r == TileTexel(s / 4, t / 4, 2, 2, tiles) * 8
  {
    LowBits(s);
    LowBits(t);
    Pow2Values();
    var sDxt, tDxt := Shr(s, 2), Shr(t, 2);
    LowBits(sDxt);
    LowBits(tDxt);
    var base := Shl(Mul(Shr(tDxt, 1), tiles) + Shr(sDxt, 1), 2);
    var blockOffset := Shl(And(tDxt, 1), 1) + And(sDxt, 1);
    Shl(base + blockOffset, 3)
  }

  /** Four bits of a byte: `(b >> 0) & 0xf` for the low nibble, `(b >> 4) & 0xf`
      for the high one. */
  function Nibble(b: nat, low: bool): (r: nat)
    ensures r < 16
    ensures r == if low then b % 16 else b / 16 % 16
  {
    Pow2Values();
    var rs := if low then 0 else 4;
    MaskIsAnd(Shr(b, rs), 4);
    And(Shr(b, rs), 0xF)
  }

  // ---------------------------------------------------------------------
  // Texel readers

  /** `TPLFileI4.get_pixel`: the nibble expanded to 8 bits as a gray value
      with full alpha. */
  function I4Texel(src: seq<u8>, s: nat, t: nat, width: nat): (r: Result<Color>)
    ensures var a := NibbleAddress(s, t, TilesPerRow(width));
      && (r.Err? <==> a.0 >= |src|)
      && (r.Err? ==> r.error == IndexOutOfRange)
      && (r.Ok? ==> var v := Nibble(src[a.0], a.1);
                    r.value == Rgba(17 * v, 17 * v, 17 * v, 255))
  {
    var (at, low) := NibbleAddress(s, t, TilesPerRow(width));
    if at >= |src| then Err(IndexOutOfRange)
    else
      var v := Nibble(src[at], low);
      var intensity := Intensity(v);
      Ok(Rgba(intensity, intensity, intensity, 0xFF))
  }

  /** `expand_to_8_bits(val, 4)`: a nibble scaled to a byte. */
  function Intensity(v: nat): (r: nat)
    requires v < 16
    ensures r == 17 * v
  {
    TextureMath.ExpandNibble(v);
    TextureMath.ExpandTo8Bits(v, 4).value
  }

  /** `TPLFileI8.get_pixel`: the byte at `t * width + s`, as gray when there
      is no palette (None or empty) and as a palette entry otherwise. */
  function I8Texel(src: seq<u8>, s: nat, t: nat, width: nat, palette: Option<seq<Color>>): (r: Result<Color>)
    ensures var at := t * width + s;
      var gray := palette.None? || |palette.value| == 0;
      && (r.Err? <==> at >= |src| || (!gray && src[at] >= |palette.value|))
      && (r.Err? ==> r.error == IndexOutOfRange)
      && (r.Ok? && gray ==> r.value == Rgba(src[at], src[at], src[at], 255))
      && (r.Ok? && !gray ==> r.value == palette.value[src[at]])
  {
    var offset := t * width + s;
    if offset >= |src| then Err(IndexOutOfRange)
    else
      var val := src[offset];
      if palette.None? || |palette.value| == 0 then Ok(Rgba(val, val, val, 0xFF))
      else if val >= |palette.value| then Err(IndexOutOfRange)
      else Ok(palette.value[val])
  }

  /** `TPLFileIA8.get_pixel`: the big-endian halfword at `2 * (t * width + s)`,
      intensity in the high byte and alpha in the low byte. */
  function Ia8Texel(src: seq<u8>, s: nat, t: nat, width: nat): (r: Result<Color>)
    ensures var at := (t * width + s) * 2;
      && (r.Err? <==> at + 2 > |src|)
      && (r.Err? ==> r.error == ShortBuffer)
      && (r.Ok? ==> r.value.Rgba? && r.value.r == r.value.g == r.value.b && Bytes(r.value)
                    && r.value.r * 256 + r.value.a == U16At(src, at)
                    && r.value.r == src[at] && r.value.a == src[at + 1])
  {
    var offset := (t * width + s) * 2;
    var chunk := Compressor.Slice(src, offset, offset + 2);
    if |chunk| != 2 then Err(ShortBuffer)
    else
      var texel := BigEndian(chunk);
      Ia8Halves(chunk);
      Pow2Values();
      MaskIsAnd(texel, 8);
      Ok(Rgba(Shr(texel, 8), Shr(texel, 8), Shr(texel, 8), And(texel, 0xFF)))
  }

  lemma {:induction false} Ia8Halves(chunk: seq<u8>)
    requires |chunk| == 2
    ensures BigEndian(chunk) / 256 == chunk[0] && BigEndian(chunk) % 256 == chunk[1]
  {
    BigEndian2(chunk);
    DivModUnique(BigEndian(chunk), 256, chunk[0], chunk[1]);
  }

  /** The palette entry of the nibble at `a`, failing past the image or
      the palette. */
  function C4Lookup(src: seq<u8>, a: (nat, bool), palette: seq<Color>): (r: Result<Color>)
    ensures r.Err? <==> a.0 >= |src| || Nibble(src[a.0], a.1) >= |palette|
    ensures r.Err? ==> r.error == IndexOutOfRange
    ensures r.Ok? ==> r.value == palette[Nibble(src[a.0], a.1)]
  {
    if a.0 >= |src| then Err(IndexOutOfRange)
    else
      var val := Nibble(src[a.0], a.1);
      if val >= |palette| then Err(IndexOutOfRange) else Ok(palette[val])
  }

  /** `TPLFileC4.get_pixel`: the palette entry of the texel's nibble, with
      `width >> 3` tiles per row. */
  function C4Texel(src: seq<u8>, s: nat, t: nat, width: nat, palette: seq<Color>): (r: Result<Color>)
    ensures var (at, low) := NibbleAddress(s, t, NarrowTilesPerRow(width));
      && (r.Err? <==> at >= |src| || Nibble(src[at], low) >= |palette|)
      && (r.Err? ==> r.error == IndexOutOfRange)
      && (r.Ok? ==> r.value == palette[Nibble(src[at], low)])
  {
    C4Lookup(src, NibbleAddress(s, t, NarrowTilesPerRow(width)), palette)
  }

  /** The C4 reader with `(width + 7) // 8` tiles per row, as the I4 reader
      counts them. */
  function C4TexelPadded(src: seq<u8>, s: nat, t: nat, width: nat, palette: seq<Color>): (r: Result<Color>)
    ensures var (at, low) := NibbleAddress(s, t, TilesPerRow(width));
      && (r.Err? <==> at >= |src| || Nibble(src[at], low) >= |palette|)
      && (r.Err? ==> r.error == IndexOutOfRange)
      && (r.Ok? ==> r.value == palette[Nibble(src[at], low)])
  {
    C4Lookup(src, NibbleAddress(s, t, TilesPerRow(width)), palette)
  }

  /** The palette entry of the byte at `at`, failing past the image or the
      palette. */
  function C8Lookup(src: seq<u8>, at: nat, palette: seq<Color>): (r: Result<Color>)
    ensures r.Err? <==> at >= |src| || src[at] >= |palette|
    ensures r.Err? ==> r.error == IndexOutOfRange
    ensures r.Ok? ==> r.value == palette[src[at]]
  {
    if at >= |src| then Err(IndexOutOfRange)
    else
      var val := src[at];
      if val >= |palette| then Err(IndexOutOfRange) else Ok(palette[val])
  }

  /** `TPLFileC8.get_pixel`: the palette entry of the texel's byte, with
      `width >> 3` tiles per row. */
  function C8Texel(src: seq<u8>, s: nat, t: nat, width: nat, palette: seq<Color>): (r: Result<Color>)
    ensures var at := ByteAddress(s, t, NarrowTilesPerRow(width));
      && (r.Err? <==> at >= |src| || src[at] >= |palette|)
      && (r.Err? ==> r.error == IndexOutOfRange)
      && (r.Ok? ==> r.value == palette[src[at]])
  {
    C8Lookup(src, ByteAddress(s, t, NarrowTilesPerRow(width)), palette)
  }

  /** The C8 reader with `(width + 7) // 8` tiles per row. */
  function C8TexelPadded(src: seq<u8>, s: nat, t: nat, width: nat, palette: seq<Color>): (r: Result<Color>)
    ensures var at := ByteAddress(s, t, TilesPerRow(width));
      && (r.Err? <==> at >= |src| || src[at] >= |palette|)
      && (r.Err? ==> r.error == IndexOutOfRange)
      && (r.Ok? ==> r.value == palette[src[at]])
  {
    C8Lookup(src, ByteAddress(s, t, TilesPerRow(width)), palette)
  }

  // ---------------------------------------------------------------------
  // CMPR

  /** Python's comparison of two colour tuples: lexicographic. */
  predicate Greater(c1: Color, c2: Color) {
    c1.r > c2.r || (c1.r == c2.r && (c1.g > c2.g || (c1.g == c2.g && c1.b > c2.b)))
  }

  /** The tuples of two R5G6B5 values compare as the values do, which is the
      DXT1 rule for choosing between four colours and three with a
      transparent one. */
  lemma {:induction false} GreaterIsNumeric(x: nat, y: nat)
    requires x < 0x1_0000 && y < 0x1_0000
    ensures Greater(R565FromInt(x), R565FromInt(y)) <==> x > y
  {
    R565Value(x);
    R565Value(y);
    Split565(x);
    Split565(y);
    LexNumeric(x / 2048, x / 32 % 64, x % 32, y / 2048, y / 32 % 64, y % 32);
  }

  lemma {:induction false} LexNumeric(h1: nat, m1: nat, l1: nat, h2: nat, m2: nat, l2: nat)
    requires m1 < 64 && l1 < 32 && m2 < 64 && l2 < 32
    ensures (h1 > h2 || (h1 == h2 && (m1 > m2 || (m1 == m2 && l1 > l2))))
        <==> h1 * 2048 + m1 * 32 + l1 > h2 * 2048 + m2 * 32 + l2
  {
    if h1 > h2 {
      MulLeMul(h2 + 1, h1, 2048);
    } else if h1 < h2 {
      MulLeMul(h1 + 1, h2, 2048);
    }
  }

  /** The 8 bytes of the block holding texel `(s, t)` with `tiles` tiles
      per row, fewer at the end of the image (a slice of the source). */
  function CmprBlock(src: seq<u8>, s: nat, t: nat, tiles: nat): (block: seq<u8>)
    ensures |block| <= 8
    ensures var at := BlockAddress(s, t, tiles);
      forall k :: 0 <= k < |block| ==> at + k < |src| && block[k] == src[at + k]
    ensures var at := BlockAddress(s, t, tiles);
      |block| == if at + 8 <= |src| then 8 else if at < |src| then |src| - at else 0
  {
    var at := BlockAddress(s, t, tiles);
    Compressor.Slice(src, at, at + 8)
  }

  /** An endpoint colour: the R5G6B5 value of a two-byte slice of the block. */
  function Endpoint(block: seq<u8>, at: nat): Color {
    R565FromInt(BigEndian(Compressor.Slice(block, at, at + 2)))
  }

  /** A block's first endpoint is greater exactly when its first halfword
      is larger, so the reader chooses between four colours and three as
      DXT1 does. */
  lemma {:induction false} EndpointOrder(block: seq<u8>)
    requires |block| >= 4
    ensures Greater(Endpoint(block, 0), Endpoint(block, 2)) <==> U16At(block, 0) > U16At(block, 2)
  {
    assert Compressor.Slice(block, 0, 2) == block[0..2];
    assert Compressor.Slice(block, 2, 4) == block[2..4];
    GreaterIsNumeric(U16At(block, 0), U16At(block, 2));
  }

  /** The 2-bit code of the texel in column `ss` and row `tt` of a block:
      code byte `tt`, the texel counted from the top bits. */
  function CmprCode(block: seq<u8>, ss: nat, tt: nat): (code: nat)
    requires ss < 4 && 4 + tt < |block|
    ensures code < 4
  {
    ModBounds(block[4 + tt] / Pow2(6 - 2 * ss), 4);
    block[4 + tt] / Pow2(6 - 2 * ss) % 4
  }

  /** `dxt_blend`. */
  function Blend(v1: nat, v2: nat): nat {
    TextureMath.DxtBlend(v1, v2)
  }

  /** `(v1 + v2) // 2`. */
  function Average(v1: nat, v2: nat): nat {
    (v1 + v2) / 2
  }

  /** The texel `(s, t)` of a CMPR block: the texel's code selects one of
      the two endpoints or a colour between them; the code is lifted by 4
      when the first endpoint is not greater, and only code 3 of that mode
      is transparent. `dxt_block[4:][t & 3]` fails exactly when the block
      has no byte at `4 + (t & 3)`. */
  function CmprDecode(block: seq<u8>, s: nat, t: nat): (r: Result<Color>)
    ensures r.Err? <==> |block| <= 4 + t % 4
    ensures r.Err? ==> r.error == IndexOutOfRange
    ensures r.Ok? ==> CmprProperties(block, s % 4, t % 4, r.value)
  {
    LowBits(s);
    LowBits(t);
    CmprAt(block, And(s, 3), And(t, 3))
  }

  /** The decoding of `CmprDecode` from `ss = s & 3` and `tt = t & 3`. */
  function CmprAt(block: seq<u8>, ss: nat, tt: nat): (r: Result<Color>)
    requires ss < 4 && tt < 4
    ensures r.Err? <==> |block| <= 4 + tt
    ensures r.Err? ==> r.error == IndexOutOfRange
    ensures r.Ok? ==> CmprProperties(block, ss, tt, r.value)
  {
    var c1, c2 := Endpoint(block, 0), Endpoint(block, 2);
    if 4 + tt >= |block| then Err(IndexOutOfRange)
    else
      var rs := 6 - Shl(ss, 1);
      var code := And(Shr(block[4 + tt], rs), 3);
      var four := Greater(c1, c2);
      var sel := Or(code, if four then 0 else 4);
      assert rs == 6 - 2 * ss by { Pow2Values(); }
      CmprSelector(block, ss, tt, code, sel, four);
      CmprColorProperties(c1, c2, sel);
      Ok(CmprColor(c1, c2, sel))
  }

  /** `TPLFileCMPR.get_pixel`: the texel decoded from its block, found with
      `width >> 3` tiles per row. */
  function CmprTexel(src: seq<u8>, s: nat, t: nat, width: nat): (r: Result<Color>)
    ensures var block := CmprBlock(src, s, t, NarrowTilesPerRow(width));
      && (r.Err? <==> |block| <= 4 + t % 4)
      && (r.Err? ==> r.error == IndexOutOfRange)
      && (r.Ok? ==> CmprProperties(block, s % 4, t % 4, r.value))
  {
    CmprDecode(CmprBlock(src, s, t, NarrowTilesPerRow(width)), s, t)
  }

  /** The CMPR reader with `(width + 7) // 8` tiles per row. */
  function CmprTexelPadded(src: seq<u8>, s: nat, t: nat, width: nat): (r: Result<Color>)
    ensures var block := CmprBlock(src, s, t, TilesPerRow(width));
      && (r.Err? <==> |block| <= 4 + t % 4)
      && (r.Err? ==> r.error == IndexOutOfRange)
      && (r.Ok? ==> CmprProperties(block, s % 4, t % 4, r.value))
  {
    CmprDecode(CmprBlock(src, s, t, TilesPerRow(width)), s, t)
  }

  /** The colour table of the CMPR reader, selector by selector; a selector
      from 8 up is transparent black. */
  function CmprColor(c1: Color, c2: Color, sel: nat): Color {
    if sel == 0 || sel == 4 then Rgba(c1.r, c1.g, c1.b, 255)
    else if sel == 1 || sel == 5 then Rgba(c2.r, c2.g, c2.b, 255)
    else if sel == 2 then Rgba(Blend(c2.r, c1.r), Blend(c2.g, c1.g), Blend(c2.b, c1.b), 255)
    else if sel == 3 then Rgba(Blend(c1.r, c2.r), Blend(c1.g, c2.g), Blend(c1.b, c2.b), 255)
    else if sel == 6 then Rgba(Average(c1.r, c2.r), Average(c1.g, c2.g), Average(c1.b, c2.b), 255)
    else if sel == 7 then Rgba(Average(c1.r, c2.r), Average(c1.g, c2.g), Average(c1.b, c2.b), 0)
    else Rgba(0, 0, 0, 0)
  }

  /** What a decoded CMPR texel is: each channel between the endpoints'
      channels; the first endpoint for code 0 and the second for code 1,
      opaque; and transparent exactly for code 3 when the first endpoint is
      not greater. */
  ghost predicate CmprProperties(block: seq<u8>, ss: nat, tt: nat, texel: Color)
    requires ss < 4 && 4 + tt < |block|
  {
    var c1, c2 := Endpoint(block, 0), Endpoint(block, 2);
    var code := CmprCode(block, ss, tt);
    && texel.Rgba?
    && Channels(c1, c2, texel)
    && (texel.a == 0 <==> (code == 3 && !Greater(c1, c2)))
    && (texel.a != 0 ==> texel.a == 255)
    && (code == 0 ==> texel == Rgba(c1.r, c1.g, c1.b, 255))
    && (code == 1 ==> texel == Rgba(c2.r, c2.g, c2.b, 255))
  }

  /** Every channel of `texel` lies between the channels of `c1` and `c2`. */
  ghost predicate Channels(c1: Color, c2: Color, texel: Color) {
    && TextureMath.Min(c1.r, c2.r) <= texel.r <= TextureMath.Max(c1.r, c2.r)
    && TextureMath.Min(c1.g, c2.g) <= texel.g <= TextureMath.Max(c1.g, c2.g)
    && TextureMath.Min(c1.b, c2.b) <= texel.b <= TextureMath.Max(c1.b, c2.b)
  }

  /** The selector the source computes is the code, plus 4 unless the first
      endpoint is greater. */
  lemma {:induction false} CmprSelector(block: seq<u8>, ss: nat, tt: nat, code: nat, sel: nat, four: bool)
    requires ss < 4 && 4 + tt < |block|
    requires code == And(Shr(block[4 + tt], 6 - 2 * ss), 3)
    requires sel == Or(code, if four then 0 else 4)
    ensures code == CmprCode(block, ss, tt)
    ensures sel == if four then code else code + 4
  {
    Pow2Values();
    MaskIsAnd(Shr(block[4 + tt], 6 - 2 * ss), 2);
    if !four {
      OrShifted(1, code, 2);
      OrComm(Shl(1, 2), code);
    }
  }

  /** The colour of each selector below 8: channels between the endpoints,
      alpha 0 only for selector 7, and the endpoints themselves for 0, 4 and
      1, 5. */
  lemma {:induction false} CmprColorProperties(c1: Color, c2: Color, sel: nat)
    requires sel < 8
    ensures var texel := CmprColor(c1, c2, sel);
      && texel.Rgba?
      && Channels(c1, c2, texel)
      && (texel.a == 0 <==> sel == 7)
      && (texel.a != 0 ==> texel.a == 255)
      && (sel == 0 || sel == 4 ==> texel == Rgba(c1.r, c1.g, c1.b, 255))
      && (sel == 1 || sel == 5 ==> texel == Rgba(c2.r, c2.g, c2.b, 255))
  {
    var texel := CmprColor(c1, c2, sel);
    if sel == 2 {
      BlendChannels(c2, c1, c1, c2, texel);
    } else if sel == 3 {
      BlendChannels(c1, c2, c1, c2, texel);
    } else if sel >= 6 {
      AverageChannels(c1, c2, texel);
    }
  }

  /** `dxt_blend` of `x` and `y` channel by channel stays between the
      endpoints when `x` and `y` are the endpoints in either order. */
  lemma {:induction false} BlendChannels(x: Color, y: Color, c1: Color, c2: Color, texel: Color)
    requires (x, y) == (c1, c2) || (x, y) == (c2, c1)
    requires texel.r == Blend(x.r, y.r) && texel.g == Blend(x.g, y.g) && texel.b == Blend(x.b, y.b)
    ensures Channels(c1, c2, texel)
  {
    TextureMath.DxtBlendBetween(x.r, y.r);
    TextureMath.DxtBlendBetween(x.g, y.g);
    TextureMath.DxtBlendBetween(x.b, y.b);
  }

  /** The channel averages stay between the endpoints. */
  lemma {:induction false} AverageChannels(c1: Color, c2: Color, texel: Color)
    requires texel.r == Average(c1.r, c2.r) && texel.g == Average(c1.g, c2.g) && texel.b == Average(c1.b, c2.b)
    ensures Channels(c1, c2, texel)
  {
    TextureMath.HalfBlendBetween(c1.r, c2.r);
    TextureMath.HalfBlendBetween(c1.g, c2.g);
    TextureMath.HalfBlendBetween(c1.b, c2.b);
  }

  // ---------------------------------------------------------------------
  // Palettes

  /** `count` big-endian halfwords from `source[at:][:2 * count]`; a halfword
      slice cut short by the end of the source reads as fewer bytes, and an
      empty one as 0. */
  function PaletteWords(source: seq<u8>, at: nat, count: nat): (words: seq<nat>)
    ensures |words| == count
    ensures forall i :: 0 <= i < count && at + 2 * i + 2 <= |source| ==> words[i] == U16At(source, at + 2 * i)
    ensures forall i :: 0 <= i < count && at + 2 * i >= |source| ==> words[i] == 0
    ensures forall i :: 0 <= i < count ==> words[i] < 0x1_0000
  {
    var byt := Compressor.Slice(source, at, at + 2 * count);
    var words := seq(count, i requires 0 <= i < count => BigEndian(Compressor.Slice(byt, 2 * i, 2 * i + 2)));
    forall i | 0 <= i < count
      ensures at + 2 * i + 2 <= |source| ==> words[i] == U16At(source, at + 2 * i)
      ensures at + 2 * i >= |source| ==> words[i] == 0
      ensures words[i] < 0x1_0000
    {
      PaletteWord(source, at, count, i);
    }
    words
  }

  lemma {:induction false} PaletteWord(source: seq<u8>, at: nat, count: nat, i: nat)
    requires i < count
    ensures var w := BigEndian(Compressor.Slice(Compressor.Slice(source, at, at + 2 * count), 2 * i, 2 * i + 2));
      && (at + 2 * i + 2 <= |source| ==> w == U16At(source, at + 2 * i))
      && (at + 2 * i >= |source| ==> w == 0)
      && w < 0x1_0000
  {
    var byt := Compressor.Slice(source, at, at + 2 * count);
    var chunk := Compressor.Slice(byt, 2 * i, 2 * i + 2);
    Pow2Values();
    if at + 2 * i + 2 <= |source| {
      assert |byt| >= 2 * i + 2 && byt == source[at..|byt| + at];
      assert chunk == byt[2 * i..2 * i + 2];
      assert chunk[0] == source[at + 2 * i] && chunk[1] == source[at + 2 * i + 1];
      assert chunk == source[at + 2 * i..at + 2 * i + 2];
      BigEndian2(chunk);
    } else if at + 2 * i >= |source| {
      assert chunk == [];
    } else {
      assert |chunk| == 1;
      BigEndian1(chunk);
    }
  }

  /** The image mode chosen with the palette: RGB only for R5G6B5. */
  datatype PixelFormat = RGB | RGBA

  /** The C4 palette dispatch: palette format 0 is IA8, 1 is R5G6B5, 2 is
      RGB5A3, and any other value fails the source's `assert`. */
  function PaletteKind(paletteFormat: nat): (r: Result<(Kind, PixelFormat)>)
    ensures r.Err? <==> paletteFormat > 2
    ensures r.Err? ==> r.error == AssertionFailed
    ensures r.Ok? ==> (r.value.1 == RGB <==> r.value.0 == R5G6B5)
  {
    if paletteFormat == 0 then Ok((IA8, RGBA))
    else if paletteFormat == 1 then Ok((R5G6B5, RGB))
    else if paletteFormat == 2 then Ok((RGB5A3, RGBA))
    else Err(AssertionFailed)
  }

  /** The 16 colours of a C4 palette, decoded with the class its format
      selects, and the image mode to draw them in. */
  function C4Palette(source: seq<u8>, h: TextureHeader): (r: Result<(PixelFormat, seq<Color>)>)
    ensures r.Err? <==> h.paletteFormat > 2
    ensures r.Err? ==> r.error == AssertionFailed
    ensures r.Ok? ==> |r.value.1| == 16
    ensures r.Ok? ==> forall i :: 0 <= i < 16 ==>
      Bytes(r.value.1[i]) && (HasAlpha(r.value.1[i]) <==> r.value.0 == RGBA)
  {
    var words := PaletteWords(source, h.palette, 0x10);
    var (kind, mode) :- PaletteKind(h.paletteFormat);
    var colors := seq(0x10, i requires 0 <= i < 0x10 => FromInt(kind, words[i]));
    forall i | 0 <= i < 16
      ensures Bytes(colors[i]) && (HasAlpha(colors[i]) <==> mode == RGBA)
    {
      FromIntBytes(kind, words[i]);
    }
    Ok((mode, colors))
  }

  /** The 256 RGB5A3 colours the C8 reader draws with, from
      `source[palette:][:0x200]`. */
  function C8Palette(source: seq<u8>, h: TextureHeader): (colors: seq<Color>)
    ensures |colors| == 0x100
    ensures forall i :: 0 <= i < 0x100 ==> Bytes(colors[i]) && HasAlpha(colors[i])
  {
    var words := PaletteWords(source, h.palette, 0x100);
    var colors := seq(0x100, i requires 0 <= i < 0x100 => Rgb5a3FromInt(words[i]));
    forall i | 0 <= i < 0x100
      ensures Bytes(colors[i]) && HasAlpha(colors[i])
    {
      Rgb5a3Value(words[i]);
    }
    colors
  }

  /** The I8 reader's palette: none when the palette address is 0, else 256
      RGB5A3 colours. */
  function I8Palette(source: seq<u8>, h: TextureHeader): (r: Option<seq<Color>>)
    ensures r.None? <==> h.palette == 0
    ensures r.Some? ==> |r.value| == 0x100
  {
    if h.palette != 0 then Some(C8Palette(source, h)) else None
  }

  /** With the palette the C4 reader builds, no nibble misses the palette:
      the read fails only past the end of the image. */
  lemma {:induction false} C4PaletteCovers(src: seq<u8>, s: nat, t: nat, width: nat, source: seq<u8>, h: TextureHeader)
    requires C4Palette(source, h).Ok?
    ensures C4Texel(src, s, t, width, C4Palette(source, h).value.1).Err?
        <==> NibbleAddress(s, t, NarrowTilesPerRow(width)).0 >= |src|
  {
  }

  /** With the palette the C8 reader builds, no byte misses the palette. */
  lemma {:induction false} C8PaletteCovers(src: seq<u8>, s: nat, t: nat, width: nat, source: seq<u8>, h: TextureHeader)
    ensures C8Texel(src, s, t, width, C8Palette(source, h)).Err?
        <==> ByteAddress(s, t, NarrowTilesPerRow(width)) >= |src|
  {
  }

  // ---------------------------------------------------------------------
  // Tiles per row as written

  /** When the width is 4 more than a multiple of 8, as a valid header
      allows, the C4 reader reads texel `x = width - 4 + s` of the partly
      filled last tile column of row `t` from the nibble of texel `s` of
      row `t + 8`: the partial tile is counted as the first tile of the
      next row. */
  lemma {:induction false} NarrowTilesOverlap(width: nat, height: nat, x: nat, s: nat, t: nat, src: seq<u8>,
                                              palette: seq<Color>)
    requires width % 8 == 4 && height % 4 == 0 && t + 8 < height && s < 4 && x == width - 4 + s
    ensures IsValid(TextureHeader(0, height, width, 8, 0, 0)) && x < width
    ensures C4Texel(src, x, t, width, palette) == C4Texel(src, s, t + 8, width, palette)
  {
    assert 8 in ImageFormats;
    WidthFour(width);
    var n := NarrowWidth(width);
    NibbleShift(n, x, s, t);
  }

  /** The same for the C8 reader, whose tiles are 4 rows high: texel
      `x = width - 4 + s` of row `t` is read from the byte of texel `s` of
      row `t + 4`. */
  lemma {:induction false} C8TilesOverlap(width: nat, height: nat, x: nat, s: nat, t: nat, src: seq<u8>,
                                          palette: seq<Color>)
    requires width % 8 == 4 && height % 4 == 0 && t + 4 < height && s < 4 && x == width - 4 + s
    ensures IsValid(TextureHeader(0, height, width, 9, 0, 0)) && x < width
    ensures C8Texel(src, x, t, width, palette) == C8Texel(src, s, t + 4, width, palette)
  {
    assert 9 in ImageFormats;
    WidthFour(width);
    var n := NarrowWidth(width);
    ByteShift(n, x, s, t);
  }

  /** The same for the CMPR reader: texel `x = width - 4 + s` of row `t`
      is decoded from the block and the code position of texel `s` of row
      `t + 8`. */
  lemma {:induction false} CmprTilesOverlap(width: nat, height: nat, x: nat, s: nat, t: nat, src: seq<u8>)
    requires width % 8 == 4 && height % 4 == 0 && t + 8 < height && s < 4 && x == width - 4 + s
    ensures IsValid(TextureHeader(0, height, width, 0xe, 0, 0)) && x < width
    ensures CmprTexel(src, x, t, width) == CmprTexel(src, s, t + 8, width)
  {
    assert 0xe in ImageFormats;
    WidthFour(width);
    var n := NarrowWidth(width);
    CmprShift(src, n, x, s, t);
  }

  /** The decoding half of `CmprTilesOverlap`, for `n` tiles per row. */
  lemma {:induction false} CmprShift(src: seq<u8>, n: nat, x: nat, s: nat, t: nat)
    requires x == 8 * n + s && s < 4
    ensures CmprDecode(CmprBlock(src, x, t, n), x, t) == CmprDecode(CmprBlock(src, s, t + 8, n), s, t + 8)
  {
    BlockShift(n, x, s, t);
    var block := CmprBlock(src, x, t, n);
    assert block == CmprBlock(src, s, t + 8, n);
    DivModUnique(x, 4, 2 * n, s);
    DivModUnique(s, 4, 0, s);
    DivModUnique(t + 8, 4, t / 4 + 2, t % 4);
    CmprDecodeRow(block, x, t, s, t + 8);
  }

  /** A width 4 more than a multiple of 8 is a valid width. */
  lemma {:induction false} WidthFour(width: nat)
    requires width % 8 == 4
    ensures width % 4 == 0 && width > 0
  {
    var k := width / 8;
    DivModUnique(width, 4, 2 * k + 1, 0);
  }

  /** `width >> 3` is `width / 8`. */
  lemma {:induction false} NarrowWidth(width: nat) returns (n: nat)
    ensures n == NarrowTilesPerRow(width) && n == width / 8 && 8 * n <= width
    ensures width % 8 == 4 ==> 8 * n + 4 == width
  {
    n := NarrowTilesPerRow(width);
    LowBits(width);
  }

  /** Texel `s` of tile column `n` sits where texel `s` of tile column 0 of
      the next tile row would, when a row has `n` tiles. */
  lemma {:induction false} NibbleShift(n: nat, x: nat, s: nat, t: nat)
    requires x == 8 * n + s && s < 8
    ensures NibbleAddress(x, t, n) == NibbleAddress(s, t + 8, n)
  {
    assert x / 8 == n && x % 8 == s;
    assert (t + 8) / 8 == t / 8 + 1 && (t + 8) % 8 == t % 8;
    assert TileOf(x, t, 8, 8, n) == TileOf(s, t + 8, 8, 8, n) by {
      assert Mul((t + 8) / 8, n) == Mul(t / 8, n) + n;
    }
    assert WithinTile(x, t, 8, 8) == WithinTile(s, t + 8, 8, 8);
  }

  /** The same for the 8x4 tiles of C8. */
  lemma {:induction false} ByteShift(n: nat, x: nat, s: nat, t: nat)
    requires x == 8 * n + s && s < 8
    ensures ByteAddress(x, t, n) == ByteAddress(s, t + 4, n)
  {
    assert x / 8 == n && x % 8 == s;
    assert (t + 4) / 4 == t / 4 + 1 && (t + 4) % 4 == t % 4;
    assert TileOf(x, t, 8, 4, n) == TileOf(s, t + 4, 8, 4, n) by {
      assert Mul((t + 4) / 4, n) == Mul(t / 4, n) + n;
    }
    assert WithinTile(x, t, 8, 4) == WithinTile(s, t + 4, 8, 4);
  }

  /** The same for the 2x2 block groups of CMPR. */
  lemma {:induction false} BlockShift(n: nat, x: nat, s: nat, t: nat)
    requires x == 8 * n + s && s < 4
    ensures BlockAddress(x, t, n) == BlockAddress(s, t + 8, n)
  {
    assert x / 4 == 2 * n && s / 4 == 0;
    var q := t / 4;
    assert (t + 8) / 4 == q + 2;
    assert (q + 2) / 2 == q / 2 + 1 && (q + 2) % 2 == q % 2;
    assert TileOf(2 * n, q, 2, 2, n) == TileOf(0, q + 2, 2, 2, n) by {
      assert Mul((q + 2) / 2, n) == Mul(q / 2, n) + n;
    }
    assert WithinTile(2 * n, q, 2, 2) == WithinTile(0, q + 2, 2, 2);
  }

  /** A CMPR block decodes a texel from its column and row within the
      block only. */
  lemma {:induction false} CmprDecodeRow(block: seq<u8>, s1: nat, t1: nat, s2: nat, t2: nat)
    requires s1 % 4 == s2 % 4 && t1 % 4 == t2 % 4
    ensures CmprDecode(block, s1, t1) == CmprDecode(block, s2, t2)
  {
    LowBits(s1);
    LowBits(s2);
    LowBits(t1);
    LowBits(t2);
  }

  /** With whole tiles per row, distinct texels inside the width never share
      a nibble, a C8 byte or a CMPR code. */
  lemma {:induction false} PaddedTilesDistinct(s1: nat, t1: nat, s2: nat, t2: nat, width: nat)
    requires s1 < width && s2 < width && (s1, t1) != (s2, t2)
    ensures NibbleAddress(s1, t1, TilesPerRow(width)) != NibbleAddress(s2, t2, TilesPerRow(width))
    ensures ByteAddress(s1, t1, TilesPerRow(width)) != ByteAddress(s2, t2, TilesPerRow(width))
    ensures (BlockAddress(s1, t1, TilesPerRow(width)), t1 % 4, s1 % 4)
         != (BlockAddress(s2, t2, TilesPerRow(width)), t2 % 4, s2 % 4)
  {
    var tiles := TilesPerRow(width);
    TileInverse(s1, t1, 8, 8, tiles);
    TileInverse(s2, t2, 8, 8, tiles);
    var i1, i2 := TileTexel(s1, t1, 8, 8, tiles), TileTexel(s2, t2, 8, 8, tiles);
    assert i1 != i2;
    assert i1 == i1 / 2 * 2 + i1 % 2 && i2 == i2 / 2 * 2 + i2 % 2;
    TileInverse(s1, t1, 8, 4, tiles);
    TileInverse(s2, t2, 8, 4, tiles);
    BlockDistinct(s1, t1, s2, t2, tiles);
  }

  lemma {:induction false} BlockDistinct(s1: nat, t1: nat, s2: nat, t2: nat, tiles: nat)
    requires 8 * tiles > s1 && 8 * tiles > s2 && (s1, t1) != (s2, t2)
    ensures (BlockAddress(s1, t1, tiles), t1 % 4, s1 % 4) != (BlockAddress(s2, t2, tiles), t2 % 4, s2 % 4)
  {
    assert s1 / 4 < 2 * tiles && s2 / 4 < 2 * tiles;
    var a1, a2 := TileTexel(s1 / 4, t1 / 4, 2, 2, tiles), TileTexel(s2 / 4, t2 / 4, 2, 2, tiles);
    if BlockAddress(s1, t1, tiles) == BlockAddress(s2, t2, tiles) {
      assert a1 * 8 == a2 * 8;
      TileInverse(s1 / 4, t1 / 4, 2, 2, tiles);
      TileInverse(s2 / 4, t2 / 4, 2, 2, tiles);
      assert s1 / 4 == s2 / 4 && t1 / 4 == t2 / 4;
    }
  }
}
