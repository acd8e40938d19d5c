/** The seven display-object header records
    (`structs/display_object/display_object_structs.py`, with older copies
    in `helper_c3.py`) and the quantize bytes that describe how vertex
    attributes are stored.

    A quantize byte holds a format in its high nibble and a fixed-point
    shift in its low nibble; the format selects a component size from a
    table, and a format the table does not list is a KeyError. The float
    field of the lighting header is kept as its raw 4-byte pattern.
 */
module DisplayObject {
  import opened Bits
  import opened Wrappers
  import opened Fields
  import opened Layout

  // ---------------------------------------------------------------------
  // Quantize info

  /** How position, texture-coordinate and normal components are stored. */
  datatype Quantize = Quantize(format: nat, componentSize: nat, shift: nat, signed: bool)

  /** `QUANTIZE_INFO["size info"]`: 0 unshifted, 1 float, 2 u16, 3 s16, 4 u8, 5 s8. */
  const SizeInfo: seq<nat> := [2, 4, 2, 2, 1, 1]

  /** `QUANTIZE_INFO["signed info"]`. */
  const SignedInfo: seq<bool> := [false, true, false, true, false, true]

  /** `format = info >> 4`, `shift = info & 0xf`, then the two table lookups. */
  function DecodeQuantize(info: nat): (res: Result<Quantize>)
    ensures res.Err? <==> info >= 96
    ensures res.Err? ==> res.error == MissingKey
    ensures res.Ok? ==> var q := res.value;
      && q.format * 16 + q.shift == info && q.shift < 16
      && (q.signed <==> q.format % 2 == 1)
      && q.componentSize in {1, 2, 4}
  {
    Pow2Values();
    var format := Shr(info, 4);
    if format >= |SizeInfo| then Err(MissingKey)
    else Ok(Quantize(format, SizeInfo[format], Mask(info, 4), SignedInfo[format]))
  }

  /** The shift is `info & 0xf`. */
  lemma {:induction false} ShiftIsLowNibble(info: nat)
    requires DecodeQuantize(info).Ok?
    ensures DecodeQuantize(info).value.shift == And(info, 15)
  {
    Pow2Values();
    MaskIsAnd(info, 4);
  }

  /** The colour component formats: RGB565, RGB8, RGBX8, RGBA4, RGBA6, RGBA8. */
  datatype ColorFormat = ColorFormat(format: nat, alpha: bool, componentSize: nat)

  /** `DisplayObjectColorHeader.QUANTIZE_INFO`: bytes per colour. */
  const ColorSizes: seq<nat> := [2, 3, 4, 2, 3, 4]

  /** `format = info >> 4`, `alpha = format > 2`, then the size lookup. */
  function DecodeColorFormat(info: nat): (res: Result<ColorFormat>)
    ensures res.Err? <==> info >= 96
    ensures res.Err? ==> res.error == MissingKey
    ensures res.Ok? ==> var c := res.value;
      && c.format == info / 16
      && (c.alpha <==> c.format >= 3)
      && c.componentSize == 2 + c.format % 3
  {
    Pow2Values();
    var format := Shr(info, 4);
    var alpha := format > 2;
    if format >= |ColorSizes| then Err(MissingKey)
    else Ok(ColorFormat(format, alpha, ColorSizes[format]))
  }

  // ---------------------------------------------------------------------
  // DisplayObjectLayout: '>IIIIIBxxx'

  datatype ObjectLayout = ObjectLayout(
    positionData: nat, colorData: nat, textureData: nat, lightingData: nat, displayData: nat,
    textureCount: nat)

  const ObjectLayoutSize: nat := 24

  predicate ObjectLayoutFits(h: ObjectLayout) {
    && h.positionData < Word32 && h.colorData < Word32 && h.textureData < Word32
    && h.lightingData < Word32 && h.displayData < Word32 && h.textureCount < 256
  }

  function ParseObjectLayout(b: seq<u8>, offset: nat): (res: Result<ObjectLayout>)
    ensures res.Err? <==> offset + ObjectLayoutSize > |b|
    ensures res.Err? ==> res.error == OutOfBytes
    ensures res.Ok? ==> ObjectLayoutFits(res.value)
  {
    if offset + ObjectLayoutSize > |b| then Err(OutOfBytes)
    else Ok(ObjectLayout(U32At(b, offset), U32At(b, offset + 4), U32At(b, offset + 8),
                         U32At(b, offset + 12), U32At(b, offset + 16), U8At(b, offset + 20)))
  }

  function EncodeObjectLayout(h: ObjectLayout): (e: seq<u8>)
    requires ObjectLayoutFits(h)
    ensures |e| == ObjectLayoutSize
  {
    Be32(h.positionData) + Be32(h.colorData) + Be32(h.textureData) + Be32(h.lightingData)
      + Be32(h.displayData) + Be8(h.textureCount) + Zeros(3)
  }

  /** Five section pointers, the texture count and 3 pad bytes. */
  lemma {:induction false} ObjectLayoutRoundTrip(h: ObjectLayout)
    requires ObjectLayoutFits(h)
    ensures ParseObjectLayout(EncodeObjectLayout(h), 0) == Ok(h)
  {
    var e := EncodeObjectLayout(h);
    Read32(e, 0, h.positionData);
    Read32(e, 4, h.colorData);
    Read32(e, 8, h.textureData);
    Read32(e, 12, h.lightingData);
    Read32(e, 16, h.displayData);
    Read8(e, 20, h.textureCount);
  }

  /** `DisplayObjectLayout.add_offset`: every non-null section pointer moves. */
  function RelocateObjectLayout(h: ObjectLayout, offset: nat): (r: ObjectLayout)
    ensures r.textureCount == h.textureCount
    ensures r.positionData == 0 <==> h.positionData == 0
    ensures r.colorData == 0 <==> h.colorData == 0
    ensures r.textureData == 0 <==> h.textureData == 0
    ensures r.lightingData == 0 <==> h.lightingData == 0
    ensures r.displayData == 0 <==> h.displayData == 0
    ensures h.positionData != 0 ==> r.positionData == h.positionData + offset
    ensures h.colorData != 0 ==> r.colorData == h.colorData + offset
    ensures h.textureData != 0 ==> r.textureData == h.textureData + offset
    ensures h.lightingData != 0 ==> r.lightingData == h.lightingData + offset
    ensures h.displayData != 0 ==> r.displayData == h.displayData + offset
  {
    ObjectLayout(Relocate(h.positionData, offset), Relocate(h.colorData, offset),
                 Relocate(h.textureData, offset), Relocate(h.lightingData, offset),
                 Relocate(h.displayData, offset), h.textureCount)
  }

  lemma {:induction false} RelocateObjectLayoutTwice(h: ObjectLayout, a: nat, c: nat)
    ensures RelocateObjectLayout(RelocateObjectLayout(h, a), c) == RelocateObjectLayout(h, a + c)
    ensures RelocateObjectLayout(h, 0) == h
  {
  }

  // ---------------------------------------------------------------------
  // DisplayObjectPositionHeader: '>IHBB'

  datatype PositionHeader = PositionHeader(
    positionArray: nat, positionCount: nat, quantizeInfo: nat, componentCount: nat,
    quantize: Quantize)

  const PositionHeaderSize: nat := 8

  predicate PositionHeaderFits(h: PositionHeader) {
    && h.positionArray < Word32 && h.positionCount < Word16
    && h.quantizeInfo < 256 && h.componentCount < 256
    && DecodeQuantize(h.quantizeInfo) == Ok(h.quantize)
  }

  /** The header is parsed, then its quantize byte decoded. */
  function ParsePositionHeader(b: seq<u8>, offset: nat): (res: Result<PositionHeader>)
    ensures res.Err? ==> res.error in {OutOfBytes, MissingKey}
    ensures res.Err? && res.error == OutOfBytes <==> offset + PositionHeaderSize > |b|
    ensures res.Ok? ==> PositionHeaderFits(res.value)
  {
    if offset + PositionHeaderSize > |b| then Err(OutOfBytes)
    else
      var info := U8At(b, offset + 6);
      var q :- DecodeQuantize(info);
      Ok(PositionHeader(U32At(b, offset), U16At(b, offset + 4), info, U8At(b, offset + 7), q))
  }

  function EncodePositionHeader(h: PositionHeader): (e: seq<u8>)
    requires PositionHeaderFits(h)
    ensures |e| == PositionHeaderSize
  {
    Be32(h.positionArray) + Be16(h.positionCount) + Be8(h.quantizeInfo) + Be8(h.componentCount)
  }

  /** Array pointer, count, quantize byte and component count. */
  lemma {:induction false} PositionHeaderRoundTrip(h: PositionHeader)
    requires PositionHeaderFits(h)
    ensures ParsePositionHeader(EncodePositionHeader(h), 0) == Ok(h)
  {
    var e := EncodePositionHeader(h);
    Read32(e, 0, h.positionArray);
    Read16(e, 4, h.positionCount);
    Read8(e, 6, h.quantizeInfo);
    Read8(e, 7, h.componentCount);
  }

  /** `DisplayObjectPositionHeader.add_offset`. */
  function RelocatePositionHeader(h: PositionHeader, offset: nat): (r: PositionHeader)
    ensures r.positionCount == h.positionCount && r.quantizeInfo == h.quantizeInfo
    ensures r.componentCount == h.componentCount && r.quantize == h.quantize
    ensures r.positionArray == 0 <==> h.positionArray == 0
    ensures h.positionArray != 0 ==> r.positionArray == h.positionArray + offset
  {
    h.(positionArray := Relocate(h.positionArray, offset))
  }

  lemma {:induction false} RelocatePositionHeaderTwice(h: PositionHeader, a: nat, c: nat)
    ensures RelocatePositionHeader(RelocatePositionHeader(h, a), c) == RelocatePositionHeader(h, a + c)
    ensures RelocatePositionHeader(h, 0) == h
  {
  }

  // ---------------------------------------------------------------------
  // DisplayObjectColorHeader: '>IHBB'

  datatype ColorHeader = ColorHeader(
    colorArray: nat, colorCount: nat, quantizeInfo: nat, componentCount: nat,
    colorFormat: ColorFormat)

  const ColorHeaderSize: nat := 8

  predicate ColorHeaderFits(h: ColorHeader) {
    && h.colorArray < Word32 && h.colorCount < Word16
    && h.quantizeInfo < 256 && h.componentCount < 256
    && DecodeColorFormat(h.quantizeInfo) == Ok(h.colorFormat)
  }

  function ParseColorHeader(b: seq<u8>, offset: nat): (res: Result<ColorHeader>)
    ensures res.Err? ==> res.error in {OutOfBytes, MissingKey}
    ensures res.Err? && res.error == OutOfBytes <==> offset + ColorHeaderSize > |b|
    ensures res.Ok? ==> ColorHeaderFits(res.value)
  {
    if offset + ColorHeaderSize > |b| then Err(OutOfBytes)
    else
      var info := U8At(b, offset + 6);
      var c :- DecodeColorFormat(info);
      Ok(ColorHeader(U32At(b, offset), U16At(b, offset + 4), info, U8At(b, offset + 7), c))
  }

  function EncodeColorHeader(h: ColorHeader): (e: seq<u8>)
    requires ColorHeaderFits(h)
    ensures |e| == ColorHeaderSize
  {
    Be32(h.colorArray) + Be16(h.colorCount) + Be8(h.quantizeInfo) + Be8(h.componentCount)
  }

  lemma {:induction false} ColorHeaderRoundTrip(h: ColorHeader)
    requires ColorHeaderFits(h)
    ensures ParseColorHeader(EncodeColorHeader(h), 0) == Ok(h)
  {
    var e := EncodeColorHeader(h);
    Read32(e, 0, h.colorArray);
    Read16(e, 4, h.colorCount);
    Read8(e, 6, h.quantizeInfo);
    Read8(e, 7, h.componentCount);
  }

  /** `DisplayObjectColorHeader.add_offset`. */
  function RelocateColorHeader(h: ColorHeader, offset: nat): (r: ColorHeader)
    ensures r.colorCount == h.colorCount && r.quantizeInfo == h.quantizeInfo
    ensures r.componentCount == h.componentCount && r.colorFormat == h.colorFormat
    ensures r.colorArray == 0 <==> h.colorArray == 0
    ensures h.colorArray != 0 ==> r.colorArray == h.colorArray + offset
  {
    h.(colorArray := Relocate(h.colorArray, offset))
  }

  lemma {:induction false} RelocateColorHeaderTwice(h: ColorHeader, a: nat, c: nat)
    ensures RelocateColorHeader(RelocateColorHeader(h, a), c) == RelocateColorHeader(h, a + c)
    ensures RelocateColorHeader(h, 0) == h
  {
  }

  // ---------------------------------------------------------------------
  // DisplayObjectTextureHeader: '>IHBBII'

  /** The texture-coordinate header; its palette name is looked up later. */
  datatype TextureHeader = TextureHeader(
    coordinateArray: nat, coordinateCount: nat, quantizeInfo: nat, componentCount: nat,
    paletteFileName: nat, palettePointer: nat, quantize: Quantize, name: Option<string>)

  const TextureHeaderSize: nat := 16

  predicate TextureHeaderFits(h: TextureHeader) {
    && h.coordinateArray < Word32 && h.coordinateCount < Word16
    && h.quantizeInfo < 256 && h.componentCount < 256
    && h.paletteFileName < Word32 && h.palettePointer < Word32
    && DecodeQuantize(h.quantizeInfo) == Ok(h.quantize)
  }

  function ParseTextureHeader(b: seq<u8>, offset: nat): (res: Result<TextureHeader>)
    ensures res.Err? ==> res.error in {OutOfBytes, MissingKey}
    ensures res.Err? && res.error == OutOfBytes <==> offset + TextureHeaderSize > |b|
    ensures res.Ok? ==> TextureHeaderFits(res.value) && res.value.name.None?
  {
    if offset + TextureHeaderSize > |b| then Err(OutOfBytes)
    else
      var info := U8At(b, offset + 6);
      var q :- DecodeQuantize(info);
      Ok(TextureHeader(U32At(b, offset), U16At(b, offset + 4), info, U8At(b, offset + 7),
                       U32At(b, offset + 8), U32At(b, offset + 12), q, None))
  }

  function EncodeTextureHeader(h: TextureHeader): (e: seq<u8>)
    requires TextureHeaderFits(h)
    ensures |e| == TextureHeaderSize
  {
    Be32(h.coordinateArray) + Be16(h.coordinateCount) + Be8(h.quantizeInfo) + Be8(h.componentCount)
      + Be32(h.paletteFileName) + Be32(h.palettePointer)
  }

  /** Coordinate pointer, count, quantize byte, component count, palette
      file name pointer and palette pointer. */
  lemma {:induction false} TextureHeaderRoundTrip(h: TextureHeader)
    requires TextureHeaderFits(h)
    ensures ParseTextureHeader(EncodeTextureHeader(h), 0) == Ok(h.(name := None))
  {
    var e := EncodeTextureHeader(h);
    Read32(e, 0, h.coordinateArray);
    Read16(e, 4, h.coordinateCount);
    Read8(e, 6, h.quantizeInfo);
    Read8(e, 7, h.componentCount);
    Read32(e, 8, h.paletteFileName);
    Read32(e, 12, h.palettePointer);
  }

  /** `DisplayObjectTextureHeader.add_offset`: the three pointers move when non-null. */
  function RelocateTextureHeader(h: TextureHeader, offset: nat): (r: TextureHeader)
    ensures r.coordinateCount == h.coordinateCount && r.quantizeInfo == h.quantizeInfo
    ensures r.componentCount == h.componentCount && r.quantize == h.quantize && r.name == h.name
    ensures r.coordinateArray == 0 <==> h.coordinateArray == 0
    ensures r.paletteFileName == 0 <==> h.paletteFileName == 0
    ensures r.palettePointer == 0 <==> h.palettePointer == 0
    ensures h.coordinateArray != 0 ==> r.coordinateArray == h.coordinateArray + offset
    ensures h.paletteFileName != 0 ==> r.paletteFileName == h.paletteFileName + offset
    ensures h.palettePointer != 0 ==> r.palettePointer == h.palettePointer + offset
  {
    h.(coordinateArray := Relocate(h.coordinateArray, offset),
       paletteFileName := Relocate(h.paletteFileName, offset),
       palettePointer := Relocate(h.palettePointer, offset))
  }

  lemma {:induction false} RelocateTextureHeaderTwice(h: TextureHeader, a: nat, c: nat)
    ensures RelocateTextureHeader(RelocateTextureHeader(h, a), c) == RelocateTextureHeader(h, a + c)
    ensures RelocateTextureHeader(h, 0) == h
  {
  }

  // ---------------------------------------------------------------------
  // DisplayObjectDisplayHeader: '>IIHxx'

  datatype DisplayHeader = DisplayHeader(primitiveBank: nat, displayStateList: nat, displayStateCount: nat)

  const DisplayHeaderSize: nat := 12

  predicate DisplayHeaderFits(h: DisplayHeader) {
    h.primitiveBank < Word32 && h.displayStateList < Word32 && h.displayStateCount < Word16
  }

  function ParseDisplayHeader(b: seq<u8>, offset: nat): (res: Result<DisplayHeader>)
    ensures res.Err? <==> offset + DisplayHeaderSize > |b|
    ensures res.Err? ==> res.error == OutOfBytes
    ensures res.Ok? ==> DisplayHeaderFits(res.value)
  {
    if offset + DisplayHeaderSize > |b| then Err(OutOfBytes)
    else Ok(DisplayHeader(U32At(b, offset), U32At(b, offset + 4), U16At(b, offset + 8)))
  }

  function EncodeDisplayHeader(h: DisplayHeader): (e: seq<u8>)
    requires DisplayHeaderFits(h)
    ensures |e| == DisplayHeaderSize
  {
    Be32(h.primitiveBank) + Be32(h.displayStateList) + Be16(h.displayStateCount) + Zeros(2)
  }

  lemma {:induction false} DisplayHeaderRoundTrip(h: DisplayHeader)
    requires DisplayHeaderFits(h)
    ensures ParseDisplayHeader(EncodeDisplayHeader(h), 0) == Ok(h)
  {
    var e := EncodeDisplayHeader(h);
    Read32(e, 0, h.primitiveBank);
    Read32(e, 4, h.displayStateList);
    Read16(e, 8, h.displayStateCount);
  }

  /** `DisplayObjectDisplayHeader.add_offset`. */
  function RelocateDisplayHeader(h: DisplayHeader, offset: nat): (r: DisplayHeader)
    ensures r.displayStateCount == h.displayStateCount
    ensures r.primitiveBank == 0 <==> h.primitiveBank == 0
    ensures r.displayStateList == 0 <==> h.displayStateList == 0
    ensures h.primitiveBank != 0 ==> r.primitiveBank == h.primitiveBank + offset
    ensures h.displayStateList != 0 ==> r.displayStateList == h.displayStateList + offset
  {
    h.(primitiveBank := Relocate(h.primitiveBank, offset),
       displayStateList := Relocate(h.displayStateList, offset))
  }

  lemma {:induction false} RelocateDisplayHeaderTwice(h: DisplayHeader, a: nat, c: nat)
    ensures RelocateDisplayHeader(RelocateDisplayHeader(h, a), c) == RelocateDisplayHeader(h, a + c)
    ensures RelocateDisplayHeader(h, 0) == h
  {
  }

  // ---------------------------------------------------------------------
  // DisplayObjectLightingHeader: '>IHBBf'

  datatype LightingHeader = LightingHeader(
    normalArray: nat, normalCount: nat, quantizeInfo: nat, componentCount: nat,
    ambientBrightness: nat, quantize: Quantize)

  const LightingHeaderSize: nat := 12

  predicate LightingHeaderFits(h: LightingHeader) {
    && h.normalArray < Word32 && h.normalCount < Word16
    && h.quantizeInfo < 256 && h.componentCount < 256 && h.ambientBrightness < Word32
    && DecodeQuantize(h.quantizeInfo) == Ok(h.quantize)
  }

  /** The ambient brightness is a float, kept here as its raw bits. */
  function ParseLightingHeader(b: seq<u8>, offset: nat): (res: Result<LightingHeader>)
    ensures res.Err? ==> res.error in {OutOfBytes, MissingKey}
    ensures res.Err? && res.error == OutOfBytes <==> offset + LightingHeaderSize > |b|
    ensures res.Ok? ==> LightingHeaderFits(res.value)
  {
    if offset + LightingHeaderSize > |b| then Err(OutOfBytes)
    else
      var info := U8At(b, offset + 6);
      var q :- DecodeQuantize(info);
      Ok(LightingHeader(U32At(b, offset), U16At(b, offset + 4), info, U8At(b, offset + 7),
                        U32At(b, offset + 8), q))
  }

  function EncodeLightingHeader(h: LightingHeader): (e: seq<u8>)
    requires LightingHeaderFits(h)
    ensures |e| == LightingHeaderSize
  {
    Be32(h.normalArray) + Be16(h.normalCount) + Be8(h.quantizeInfo) + Be8(h.componentCount)
      + Be32(h.ambientBrightness)
  }

  lemma {:induction false} LightingHeaderRoundTrip(h: LightingHeader)
    requires LightingHeaderFits(h)
    ensures ParseLightingHeader(EncodeLightingHeader(h), 0) == Ok(h)
  {
    var e := EncodeLightingHeader(h);
    Read32(e, 0, h.normalArray);
    Read16(e, 4, h.normalCount);
    Read8(e, 6, h.quantizeInfo);
    Read8(e, 7, h.componentCount);
    Read32(e, 8, h.ambientBrightness);
  }

  /** `DisplayObjectLightingHeader.add_offset`. */
  function RelocateLightingHeader(h: LightingHeader, offset: nat): (r: LightingHeader)
    ensures r.normalCount == h.normalCount && r.quantizeInfo == h.quantizeInfo
    ensures r.componentCount == h.componentCount && r.ambientBrightness == h.ambientBrightness
    ensures r.quantize == h.quantize
    ensures r.normalArray == 0 <==> h.normalArray == 0
    ensures h.normalArray != 0 ==> r.normalArray == h.normalArray + offset
  {
    h.(normalArray := Relocate(h.normalArray, offset))
  }

  lemma {:induction false} RelocateLightingHeaderTwice(h: LightingHeader, a: nat, c: nat)
    ensures RelocateLightingHeader(RelocateLightingHeader(h, a), c) == RelocateLightingHeader(h, a + c)
    ensures RelocateLightingHeader(h, 0) == h
  {
  }

  // ---------------------------------------------------------------------
  // DisplayObjectDisplayState: '>BxxxIII'

  /** One display-state entry: a state id, its setting word, and the
      primitive list it applies to. */
  datatype DisplayStateEntry = DisplayStateEntry(
    stateId: nat, setting: nat, primitiveList: nat, primitiveListLength: nat)

  const DisplayStateEntrySize: nat := 16

  predicate DisplayStateEntryFits(h: DisplayStateEntry) {
    h.stateId < 256 && h.setting < Word32 && h.primitiveList < Word32 && h.primitiveListLength < Word32
  }

  function ParseDisplayStateEntry(b: seq<u8>, offset: nat): (res: Result<DisplayStateEntry>)
    ensures res.Err? <==> offset + DisplayStateEntrySize > |b|
    ensures res.Err? ==> res.error == OutOfBytes
    ensures res.Ok? ==> DisplayStateEntryFits(res.value)
  {
    if offset + DisplayStateEntrySize > |b| then Err(OutOfBytes)
    else Ok(DisplayStateEntry(U8At(b, offset), U32At(b, offset + 4), U32At(b, offset + 8), U32At(b, offset + 12)))
  }

  function EncodeDisplayStateEntry(h: DisplayStateEntry): (e: seq<u8>)
    requires DisplayStateEntryFits(h)
    ensures |e| == DisplayStateEntrySize
  {
    Be8(h.stateId) + Zeros(3) + Be32(h.setting) + Be32(h.primitiveList) + Be32(h.primitiveListLength)
  }

  /** State id, 3 pad bytes, setting, primitive list pointer and its byte length. */
  lemma {:induction false} DisplayStateEntryRoundTrip(h: DisplayStateEntry)
    requires DisplayStateEntryFits(h)
    ensures ParseDisplayStateEntry(EncodeDisplayStateEntry(h), 0) == Ok(h)
  {
    var e := EncodeDisplayStateEntry(h);
    Read8(e, 0, h.stateId);
    Read32(e, 4, h.setting);
    Read32(e, 8, h.primitiveList);
    Read32(e, 12, h.primitiveListLength);
  }

  /** `DisplayObjectDisplayState.add_offset`: only the primitive list pointer moves. */
  function RelocateDisplayStateEntry(h: DisplayStateEntry, offset: nat): (r: DisplayStateEntry)
    ensures r.stateId == h.stateId && r.setting == h.setting
    ensures r.primitiveListLength == h.primitiveListLength
    ensures r.primitiveList == 0 <==> h.primitiveList == 0
    ensures h.primitiveList != 0 ==> r.primitiveList == h.primitiveList + offset
  {
    h.(primitiveList := Relocate(h.primitiveList, offset))
  }

  lemma {:induction false} RelocateDisplayStateEntryTwice(h: DisplayStateEntry, a: nat, c: nat)
    ensures RelocateDisplayStateEntry(RelocateDisplayStateEntry(h, a), c) == RelocateDisplayStateEntry(h, a + c)
    ensures RelocateDisplayStateEntry(h, 0) == h
  {
  }
}
