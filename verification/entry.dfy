/** One entry of the game's compression table (`DataEntry`).

    An entry is 16 big-endian bytes: two pad bytes, the repetition and
    look-back bit widths of the codec, a word whose low 28 bits are the
    decompressed size and whose high 4 bits are a compression flag, the
    byte offset of the compressed data in the disc image, and the
    compressed size. Compressed data is padded to the next 0x800-byte
    sector boundary; the padding is the entry's footer.
 */
module Entry {
  import opened Bits
  import opened Wrappers
  import opened Layout
  import Hex
  import Ranges

  /** `">xxBBIII"`. */
  const DataFormat: seq<Field> := [Pad, Pad, U8, U8, U32, U32, U32]

  /** The bytes one entry takes. */
  const EntrySize: nat := 16

  /** The disc sector the compressed data is aligned to. */
  const SectorSize: nat := 0x800

  datatype DataEntry = DataEntry(
    file: string,
    repetitionBits: nat,
    lookbackBits: nat,
    originalSize: nat,
    diskLocation: nat,
    compressedSize: nat,
    flag: nat,
    outputName: string)

  /** Every numeric field fits the width it is packed into. */
  predicate Fits(e: DataEntry) {
    && e.repetitionBits < 256 && e.lookbackBits < 256
    && e.originalSize < 0x1000_0000 && e.flag < 16
    && e.diskLocation < 0x1_0000_0000 && e.compressedSize < 0x1_0000_0000
  }

  /** The default output name: `"<file> <lb:02x><rb:02x> <loc:08x>.dat"`. */
  function OutputName(file: string, lookbackBits: nat, repetitionBits: nat, diskLocation: nat): string {
    file + " " + Hex.Format(lookbackBits, 2) + Hex.Format(repetitionBits, 2) + " "
      + Hex.Format(diskLocation, 8) + ".dat"
  }

  /** `name` reads back as the default name of `file` and the three
      fields: the file, a space, two and two hex digits, a space, eight hex
      digits and `.dat`. */
  predicate NameReadsBack(name: string, file: string, lb: nat, rb: nat, loc: nat) {
    var n := |file|;
    && |name| == n + 18
    && name[..n] == file && name[n] == ' ' && name[n + 5] == ' ' && name[n + 14..] == ".dat"
    && Hex.AllDigits(name[n + 1..n + 3]) && Hex.Value(name[n + 1..n + 3]) == lb
    && Hex.AllDigits(name[n + 3..n + 5]) && Hex.Value(name[n + 3..n + 5]) == rb
    && Hex.AllDigits(name[n + 6..n + 14]) && Hex.Value(name[n + 6..n + 14]) == loc
  }

  /** The default name of a fitting entry can be read back field by field. */
  lemma {:induction false} OutputNameFields(file: string, lb: nat, rb: nat, loc: nat)
    requires lb < 256 && rb < 256 && loc < 0x1_0000_0000
    ensures NameReadsBack(OutputName(file, lb, rb, loc), file, lb, rb, loc)
  {
    Pow2Values();
    Hex.FormatWidth(lb, 2);
    Hex.FormatWidth(rb, 2);
    Hex.FormatWidth(loc, 8);
    Hex.FormatValue(lb, 2);
    Hex.FormatValue(rb, 2);
    Hex.FormatValue(loc, 8);
    NameSlices(file, Hex.Format(lb, 2), Hex.Format(rb, 2), Hex.Format(loc, 8));
  }

  /** Where the pieces of a default name sit once the hex fields have
      their widths. */
  lemma {:induction false} NameSlices(file: string, a: string, b: string, c: string)
    requires |a| == 2 && |b| == 2 && |c| == 8
    ensures var name, n := file + " " + a + b + " " + c + ".dat", |file|;
      && |name| == n + 18
      && name[..n] == file && name[n] == ' ' && name[n + 5] == ' ' && name[n + 14..] == ".dat"
      && name[n + 1..n + 3] == a && name[n + 3..n + 5] == b && name[n + 6..n + 14] == c
  {
    var name, n := file + " " + a + b + " " + c + ".dat", |file|;
    assert name[n + 1..n + 3] == a;
    assert name[n + 3..n + 5] == b;
    assert name[n + 6..n + 14] == c;
  }

  /** `calcsize(">xxBBIII")`, and the five values it unpacks to. */
  lemma {:induction false} EntrySizeIs()
    ensures Size(DataFormat) == EntrySize && Count(DataFormat) == 5
  {
    assert DataFormat[1..][1..][1..][1..][1..][1..][1..] == [];
  }

  /** `DataEntry(b, offset, file)`: the record at `offset`, with the
      packed size word split into the flag and the size. */
  function Decode(b: seq<u8>, offset: nat, file: string): (res: Result<DataEntry>)
    ensures res.Err? <==> offset + EntrySize > |b|
    ensures res.Err? ==> res.error == OutOfBytes
    ensures res.Ok? ==> && Fits(res.value) && res.value.file == file
                        && res.value.outputName
                           == OutputName(file, res.value.lookbackBits, res.value.repetitionBits, res.value.diskLocation)
  {
    EntrySizeIs();
    var vals :- ParseBytes(b, offset, DataFormat);
    ValuesFitEntry(vals);
    var word := vals[2];
    Pow2Values();
    DivBoundGeneral(word, 0x1000_0000, 16);
    Ok(DataEntry(file, vals[0], vals[1], Mask(word, 28), vals[3], vals[4], Shr(word, 28),
                 OutputName(file, vals[1], vals[0], vals[3])))
  }

  /** An entry is decoded from its own sixteen bytes only. */
  lemma {:induction false} DecodeSameBytes(a: seq<u8>, i: nat, b: seq<u8>, j: nat, file: string)
    requires i + EntrySize <= |a| && j + EntrySize <= |b|
    requires a[i..i + EntrySize] == b[j..j + EntrySize]
    ensures Decode(a, i, file) == Decode(b, j, file)
  {
    EntrySizeIs();
    ParseSameBytes(a, i, b, j, DataFormat);
  }

  /** The first two values of an entry are its bytes 2 and 3. */
  lemma {:induction false} UnpackHeader(w: seq<u8>)
    requires |w| == EntrySize
    ensures Size(DataFormat) == EntrySize && Unpack(DataFormat, w)[0] == w[2] as nat && Unpack(DataFormat, w)[1] == w[3] as nat
  {
    EntrySizeIs();
    var f := DataFormat;
    assert f[1..][1..] == f[2..];
    UnpackPad(f, w);
    UnpackPad(f[1..], w[1..]);
    assert w[1..][1..] == w[2..];
    UnpackWidths(f[2..], w[2..]);
  }

  lemma {:induction false} UnpackWidths(f: seq<Field>, w: seq<u8>)
    requires f == [U8, U8, U32, U32, U32] && |w| == Size(f)
    ensures |Unpack(f, w)| >= 2 && Unpack(f, w)[0] == w[0] as nat && Unpack(f, w)[1] == w[1] as nat
  {
    assert f[1..] == [U8, U32, U32, U32] && |f[1..][1..]| == 3;
    UnpackField(f, w);
    UnpackField(f[1..], w[1..]);
    assert w[..1] == [w[0]] && w[1..][..1] == [w[1]];
    BigEndian1([w[0]]);
    BigEndian1([w[1]]);
  }

  /** The bit widths of a decoded entry are bytes 2 and 3 of its record. */
  lemma {:induction false} DecodeWidths(b: seq<u8>, offset: nat, file: string)
    requires offset + EntrySize <= |b|
    ensures Decode(b, offset, file).Ok?
    ensures Decode(b, offset, file).value.repetitionBits == b[offset + 2] as nat
    ensures Decode(b, offset, file).value.lookbackBits == b[offset + 3] as nat
  {
    var w := b[offset..offset + EntrySize];
    UnpackHeader(w);
  }

  /** The value bounds `ValuesFit` gives for the entry format. */
  lemma {:induction false} ValuesFitEntry(vals: seq<nat>)
    requires |vals| == 5
    ensures ValuesFit(DataFormat, vals) <==>
      && vals[0] < 256 && vals[1] < 256
      && vals[2] < 0x1_0000_0000 && vals[3] < 0x1_0000_0000 && vals[4] < 0x1_0000_0000
  {
    Pow2Values();
    EntrySizeIs();
    var f := DataFormat;
    var f3, f4, f5, f6 := f[3..], f[4..], f[5..], f[6..];
    assert f[1..][1..] == f[2..] && f[2..][1..] == f3 && f3[1..] == f4 && f4[1..] == f5 && f5[1..] == f6;
    assert f6[1..] == [];
    assert ValuesFit(f, vals) == ValuesFit(f[2..], vals);
    {
      var v1, v2, v3, v4 := vals[1..], vals[2..], vals[3..], vals[4..];
      assert v1[1..] == v2 && v2[1..] == v3 && v3[1..] == v4 && v4[1..] == [];
      assert ValuesFit(f6, v4) <==> vals[4] < 0x1_0000_0000;
      assert ValuesFit(f5, v3) <==> vals[3] < 0x1_0000_0000 && vals[4] < 0x1_0000_0000;
      assert ValuesFit(f4, v2) <==> vals[2] < 0x1_0000_0000 && ValuesFit(f5, v3);
      assert ValuesFit(f3, v1) <==> vals[1] < 256 && ValuesFit(f4, v2);
    }
  }

  /** Decoding the packed bytes of fitting values gives the entry made of them. */
  lemma {:induction false} DecodePacked(vals: seq<nat>, file: string)
    requires ValuesFit(DataFormat, vals) && |vals| == 5
    ensures Pack(DataFormat, vals).Ok?
    ensures Decode(Pack(DataFormat, vals).value, 0, file)
         == Ok(DataEntry(file, vals[0], vals[1], Mask(vals[2], 28), vals[3], vals[4], Shr(vals[2], 28),
                         OutputName(file, vals[1], vals[0], vals[3])))
  {
    ValuesFitEntry(vals);
    ParsePacked(DataFormat, vals);
  }

  /** `footer_size`: the padding from the end of the compressed data to
      the next sector boundary. */
  function FooterSize(e: DataEntry): (footer: nat)
    ensures footer < SectorSize
    ensures (e.diskLocation + e.compressedSize + footer) % SectorSize == 0
  {
    var size := (e.diskLocation + e.compressedSize) % SectorSize;
    if size == 0 then 0 else SectorSize - size
  }

  /** No shorter padding reaches a sector boundary. */
  lemma {:induction false} FooterIsLeast(e: DataEntry, f: nat)
    requires f < FooterSize(e)
    ensures (e.diskLocation + e.compressedSize + f) % SectorSize != 0
  {
    var end := e.diskLocation + e.compressedSize;
    var rest := end % SectorSize;
    DivModUnique(end + f, SectorSize, end / SectorSize, rest + f);
  }

  /** `to_range`: the bytes of the disc image the entry occupies, footer included. */
  function ToRange(e: DataEntry): (r: Ranges.Range)
    ensures r.start == e.diskLocation && r.stop % SectorSize == 0
    ensures e.compressedSize <= r.stop - r.start < e.compressedSize + SectorSize
  {
    Ranges.Range(e.diskLocation, e.diskLocation + e.compressedSize + FooterSize(e))
  }

  // ---------------------------------------------------------------------
  // to_dict / from_dict

  /** The JSON object of one entry. `output` is absent when the key is. */
  datatype Dict = Dict(
    input: string,
    output: Option<string>,
    lookbackBitSize: int,
    repetitionBitSize: int,
    size: int,
    offset: int,
    compressedSize: int,
    compressionFlag: int,
    footerSize: int)

  /** `to_dict`. */
  function ToDict(e: DataEntry): Dict {
    Dict(e.file, Some(e.outputName), e.lookbackBits, e.repetitionBits, e.originalSize,
         e.diskLocation, e.compressedSize, e.flag, FooterSize(e))
  }

  /** The values `from_dict` packs fit `">xxBBIII"`; a negative value
      makes `|` and `<<` negative, which `struct.pack` rejects too. */
  predicate DictFits(d: Dict) {
    && 0 <= d.repetitionBitSize < 256 && 0 <= d.lookbackBitSize < 256
    && d.size >= 0 && d.compressionFlag >= 0
    && Or(d.size, d.compressionFlag * Pow2(28)) < 0x1_0000_0000
    && 0 <= d.offset < 0x1_0000_0000 && 0 <= d.compressedSize < 0x1_0000_0000
  }

  predicate NonNegative(d: Dict) {
    && d.repetitionBitSize >= 0 && d.lookbackBitSize >= 0 && d.size >= 0 && d.compressionFlag >= 0
    && d.offset >= 0 && d.compressedSize >= 0
  }

  /** The arguments `from_dict` passes to `pack`. */
  function PackedValues(d: Dict): (vals: seq<nat>)
    requires NonNegative(d)
    ensures |vals| == 5
  {
    [d.repetitionBitSize as nat, d.lookbackBitSize as nat,
     Or(d.size, d.compressionFlag * Pow2(28)), d.offset as nat, d.compressedSize as nat]
  }

  /** `from_dict`: pack the fields, decode them, and keep a given output
      name. The stored footer size is ignored. */
  function FromDict(d: Dict): (res: Result<DataEntry>)
    ensures res.Err? ==> res.error == PackRange
    ensures res.Ok? ==> res.value.file == d.input && Fits(res.value)
    ensures res.Ok? ==> res.value.outputName == match d.output
      case Some(name) => name
      case None => OutputName(d.input, res.value.lookbackBits, res.value.repetitionBits, res.value.diskLocation)
  {
    if !NonNegative(d) then Err(PackRange)
    else
      var b :- Pack(DataFormat, PackedValues(d));
      EntrySizeIs();
      var e := Decode(b, 0, d.input).value;
      match d.output
      case Some(name) => Ok(e.(outputName := name))
      case None => Ok(e)
  }

  /** The entry `from_dict` builds from a dictionary whose values fit. */
  lemma {:induction false} FromDictFitting(d: Dict)
    requires DictFits(d)
    ensures var word := Or(d.size, d.compressionFlag * Pow2(28));
      FromDict(d) == Ok(DataEntry(d.input, d.repetitionBitSize, d.lookbackBitSize, Mask(word, 28),
                                  d.offset, d.compressedSize, Shr(word, 28),
                                  match d.output
                                  case Some(name) => name
                                  case None => OutputName(d.input, d.lookbackBitSize, d.repetitionBitSize, d.offset)))
  {
    var vals := PackedValues(d);
    ValuesFitEntry(vals);
    DecodePacked(vals, d.input);
  }

  /** `from_dict` fails exactly on a dictionary whose values do not fit. */
  lemma {:induction false} FromDictFails(d: Dict)
    ensures FromDict(d).Err? <==> !DictFits(d)
  {
    if NonNegative(d) {
      var vals := PackedValues(d);
      ValuesFitEntry(vals);
      UnpackPacked(DataFormat, vals);
      if DictFits(d) {
        FromDictFitting(d);
      }
    }
  }

  /** `size | (flag << 28)` splits back into the flag and a size below 2^28. */
  lemma {:induction false} SplitWord(size: nat, flag: nat)
    requires size < 0x1000_0000
    ensures Or(size, flag * Pow2(28)) == size + flag * 0x1000_0000
    ensures Mask(Or(size, flag * Pow2(28)), 28) == size && Shr(Or(size, flag * Pow2(28)), 28) == flag
  {
    Pow2Values();
    OrDisjoint(size, flag, 28);
    Split(size, flag, 28);
  }

  /** Loading the dictionary of a fitting entry gives the entry back. */
  lemma {:induction false} FromToDict(e: DataEntry)
    requires Fits(e)
    ensures FromDict(ToDict(e)) == Ok(e)
  {
    SplitWord(e.originalSize, e.flag);
    assert e.originalSize + e.flag * 0x1000_0000 < 0x1_0000_0000;
    FromDictFitting(ToDict(e));
  }

  /** Storing an entry loaded from a dictionary whose size fits its 28
      bits gives the dictionary back, with the footer recomputed. */
  lemma {:induction false} ToFromDict(d: Dict)
    requires DictFits(d) && d.size < 0x1000_0000 && d.output.Some?
    ensures FromDict(d).Ok?
    ensures ToDict(FromDict(d).value) == d.(footerSize := FooterSize(FromDict(d).value))
  {
    SplitWord(d.size, d.compressionFlag);
    FromDictFitting(d);
    var e := FromDict(d).value;
    assert e.originalSize == d.size && e.flag == d.compressionFlag;
  }

  // ---------------------------------------------------------------------
  // Comparison

  /** `equals_besides_filename`: every numeric field, footer included. */
  predicate SameBesidesFile(a: DataEntry, b: DataEntry) {
    && a.lookbackBits == b.lookbackBits && a.repetitionBits == b.repetitionBits
    && a.originalSize == b.originalSize && a.diskLocation == b.diskLocation
    && a.compressedSize == b.compressedSize && a.flag == b.flag
    && FooterSize(a) == FooterSize(b)
  }

  /** `__eq__`: the numeric fields and the file; the output name is not compared. */
  predicate Equal(a: DataEntry, b: DataEntry) {
    SameBesidesFile(a, b) && a.file == b.file
  }

  /** The tuple `__hash__` hashes. */
  function HashKey(e: DataEntry): (string, nat, nat, nat, nat, nat, nat, nat) {
    (e.file, e.lookbackBits, e.repetitionBits, e.originalSize, e.diskLocation,
     e.compressedSize, e.flag, FooterSize(e))
  }

  /** Equal entries have equal hash tuples and, conversely, equal hash
      tuples mean equal entries, so sets of entries deduplicate by `__eq__`. */
  lemma {:induction false} EqualIsSameHash(a: DataEntry, b: DataEntry)
    ensures Equal(a, b) <==> HashKey(a) == HashKey(b)
  {
  }

  /** `__lt__`: entries order by disc location. */
  function Location(e: DataEntry): int {
    e.diskLocation
  }
}
