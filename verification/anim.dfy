/** Animation banks (`helper_anim.py`): a bank header, its sequences, each
    sequence's tracks and each track's keyframes, read as arrays of
    fixed-size big-endian records, plus the track's bit-packed animation
    and interpolation bytes.

    Only two pointers are relocated: the bank's sequence array by the
    bank's offset, and a sequence's name by the sequence's own offset.
    Track and keyframe arrays are used as stored. Times are floats and are
    kept as raw 4-byte patterns.
 */
module Anim {
  import opened Bits
  import opened Wrappers
  import opened Fields
  import opened Arrays
  import Layout

  // ---------------------------------------------------------------------
  // ANIMBank: '>I I H H H H I I'

  datatype Bank = Bank(
    versionNumber: nat, sequenceArray: nat, bankId: nat, sequenceCount: nat,
    trackCount: nat, keyframeCount: nat, userDataSize: nat, userData: nat)

  const BankSize: nat := 24

  predicate BankFits(h: Bank) {
    && h.versionNumber < Word32 && h.sequenceArray < Word32 && h.bankId < Word16
    && h.sequenceCount < Word16 && h.trackCount < Word16 && h.keyframeCount < Word16
    && h.userDataSize < Word32 && h.userData < Word32
  }

  /** `ANIMBank.add_offset`: the sequence array moves when it is not null. */
  function RelocateBank(h: Bank, offset: nat): (r: Bank)
    ensures r.(sequenceArray := h.sequenceArray) == h
    ensures r.sequenceArray == 0 <==> h.sequenceArray == 0
    ensures h.sequenceArray != 0 ==> r.sequenceArray == h.sequenceArray + offset
  {
    h.(sequenceArray := Layout.Relocate(h.sequenceArray, offset))
  }

  /** The bank header as stored, before relocation. */
  function ReadBank(b: seq<u8>, offset: nat): (h: Bank)
    requires offset + BankSize <= |b|
    ensures BankFits(h)
  {
    Bank(U32At(b, offset), U32At(b, offset + 4), U16At(b, offset + 8), U16At(b, offset + 10),
         U16At(b, offset + 12), U16At(b, offset + 14), U32At(b, offset + 16), U32At(b, offset + 20))
  }

  /** The header as the constructor leaves it: parsed, then relocated by its own offset. */
  function ParseBank(b: seq<u8>, offset: nat): (res: Result<Bank>)
    ensures res.Err? <==> offset + BankSize > |b|
    ensures res.Err? ==> res.error == OutOfBytes
    ensures res.Ok? ==> res.value == RelocateBank(ReadBank(b, offset), offset)
  {
    if offset + BankSize > |b| then Err(OutOfBytes)
    else Ok(RelocateBank(ReadBank(b, offset), offset))
  }

  function EncodeBank(h: Bank): (e: seq<u8>)
    requires BankFits(h)
    ensures |e| == BankSize
  {
    EncodeBankHead(h) + EncodeBankTail(h)
  }

  /** Version, sequence array, bank id and sequence count. */
  function EncodeBankHead(h: Bank): (e: seq<u8>)
    requires BankFits(h)
    ensures |e| == 12
  {
    Be32(h.versionNumber) + Be32(h.sequenceArray) + Be16(h.bankId) + Be16(h.sequenceCount)
  }

  /** Track count, keyframe count, user-data size and user-data pointer. */
  function EncodeBankTail(h: Bank): (e: seq<u8>)
    requires BankFits(h)
    ensures |e| == 12
  {
    Be16(h.trackCount) + Be16(h.keyframeCount) + Be32(h.userDataSize) + Be32(h.userData)
  }

  /** A header written at `offset` reads back with its sequence array relocated by `offset`. */
  lemma {:induction false} BankRoundTrip(b: seq<u8>, offset: nat, h: Bank)
    requires BankFits(h) && offset + BankSize <= |b| && b[offset..offset + BankSize] == EncodeBank(h)
    ensures ParseBank(b, offset) == Ok(RelocateBank(h, offset))
  {
    var e1, e2 := EncodeBankHead(h), EncodeBankTail(h);
    SplitSlice(b, offset, e1, e2);
    BankHeadRead(b, offset, h);
    BankTailRead(b, offset + 12, h);
  }

  lemma {:induction false} BankHeadRead(b: seq<u8>, offset: nat, h: Bank)
    requires BankFits(h) && offset + 12 <= |b| && b[offset..offset + 12] == EncodeBankHead(h)
    ensures U32At(b, offset) == h.versionNumber && U32At(b, offset + 4) == h.sequenceArray
    ensures U16At(b, offset + 8) == h.bankId && U16At(b, offset + 10) == h.sequenceCount
  {
    var e := EncodeBankHead(h);
    Read32At(b, offset, e, 0, h.versionNumber);
    Read32At(b, offset, e, 4, h.sequenceArray);
    Read16At(b, offset, e, 8, h.bankId);
    Read16At(b, offset, e, 10, h.sequenceCount);
  }

  lemma {:induction false} BankTailRead(b: seq<u8>, offset: nat, h: Bank)
    requires BankFits(h) && offset + 12 <= |b| && b[offset..offset + 12] == EncodeBankTail(h)
    ensures U16At(b, offset) == h.trackCount && U16At(b, offset + 2) == h.keyframeCount
    ensures U32At(b, offset + 4) == h.userDataSize && U32At(b, offset + 8) == h.userData
  {
    var e := EncodeBankTail(h);
    Read16At(b, offset, e, 0, h.trackCount);
    Read16At(b, offset, e, 2, h.keyframeCount);
    Read32At(b, offset, e, 4, h.userDataSize);
    Read32At(b, offset, e, 8, h.userData);
  }

  // ---------------------------------------------------------------------
  // ANIMSequence: '>I I H H'

  /** A sequence header; the second halfword is read and discarded. */
  datatype Sequence = Sequence(sequenceName: nat, trackArray: nat, trackCount: nat)

  const SequenceSize: nat := 12

  predicate SequenceFits(h: Sequence) {
    h.sequenceName < Word32 && h.trackArray < Word32 && h.trackCount < Word16
  }

  /** `ANIMSequence.add_offset`: only the name pointer moves. */
  function RelocateSequence(h: Sequence, offset: nat): (r: Sequence)
    ensures r.trackArray == h.trackArray && r.trackCount == h.trackCount
    ensures r.sequenceName == 0 <==> h.sequenceName == 0
    ensures h.sequenceName != 0 ==> r.sequenceName == h.sequenceName + offset
  {
    h.(sequenceName := Layout.Relocate(h.sequenceName, offset))
  }

  function ParseSequence(b: seq<u8>, offset: nat): (res: Result<Sequence>)
    ensures res.Err? <==> offset + SequenceSize > |b|
    ensures res.Err? ==> res.error == OutOfBytes
    ensures res.Ok? ==> res.value.trackArray < Word32 && res.value.trackCount < Word16
  {
    if offset + SequenceSize > |b| then Err(OutOfBytes)
    else Ok(RelocateSequence(Sequence(U32At(b, offset), U32At(b, offset + 4), U16At(b, offset + 8)), offset))
  }

  function EncodeSequence(h: Sequence): (e: seq<u8>)
    requires SequenceFits(h)
    ensures |e| == SequenceSize
  {
    Be32(h.sequenceName) + Be32(h.trackArray) + Be16(h.trackCount) + Zeros(2)
  }

  /** A sequence written at `offset` reads back with its name relocated by `offset`. */
  lemma {:induction false} SequenceRoundTrip(b: seq<u8>, offset: nat, h: Sequence)
    requires SequenceFits(h) && offset + SequenceSize <= |b| && b[offset..offset + SequenceSize] == EncodeSequence(h)
    ensures ParseSequence(b, offset) == Ok(RelocateSequence(h, offset))
  {
    var e := EncodeSequence(h);
    Read32At(b, offset, e, 0, h.sequenceName);
    Read32At(b, offset, e, 4, h.trackArray);
    Read16At(b, offset, e, 8, h.trackCount);
  }

  // ---------------------------------------------------------------------
  // ANIMTrack: '>f I H H BBBB'

  datatype Track = Track(
    animationTime: nat, keyframeArray: nat, keyframeCount: nat, trackId: nat,
    paramQuantizationInfo: nat, animationType: nat, interpolationType: nat)

  const TrackSize: nat := 16

  predicate TrackFits(h: Track) {
    && h.animationTime < Word32 && h.keyframeArray < Word32 && h.keyframeCount < Word16
    && h.trackId < Word16 && h.paramQuantizationInfo < 256 && h.animationType < 256
    && h.interpolationType < 256
  }

  function ParseTrack(b: seq<u8>, offset: nat): (res: Result<Track>)
    ensures res.Err? <==> offset + TrackSize > |b|
    ensures res.Err? ==> res.error == OutOfBytes
    ensures res.Ok? ==> TrackFits(res.value)
  {
    if offset + TrackSize > |b| then Err(OutOfBytes)
    else Ok(Track(U32At(b, offset), U32At(b, offset + 4), U16At(b, offset + 8), U16At(b, offset + 10),
                  U8At(b, offset + 12), U8At(b, offset + 13), U8At(b, offset + 14)))
  }

  function EncodeTrack(h: Track): (e: seq<u8>)
    requires TrackFits(h)
    ensures |e| == TrackSize
  {
    EncodeTrackHead(h) + EncodeTrackTail(h)
  }

  /** Time, keyframe array, keyframe count and track id. */
  function EncodeTrackHead(h: Track): (e: seq<u8>)
    requires TrackFits(h)
    ensures |e| == 12
  {
    Be32(h.animationTime) + Be32(h.keyframeArray) + Be16(h.keyframeCount) + Be16(h.trackId)
  }

  /** The three packed bytes and one unused byte. */
  function EncodeTrackTail(h: Track): (e: seq<u8>)
    requires TrackFits(h)
    ensures |e| == 4
  {
    Be8(h.paramQuantizationInfo) + Be8(h.animationType) + Be8(h.interpolationType) + Zeros(1)
  }

  /** Tracks are not relocated: one written anywhere reads back unchanged. */
  lemma {:induction false} TrackRoundTrip(b: seq<u8>, offset: nat, h: Track)
    requires TrackFits(h) && offset + TrackSize <= |b| && b[offset..offset + TrackSize] == EncodeTrack(h)
    ensures ParseTrack(b, offset) == Ok(h)
  {
    var e1, e2 := EncodeTrackHead(h), EncodeTrackTail(h);
    SplitSlice(b, offset, e1, e2);
    TrackHeadRead(b, offset, h);
    Read8At(b, offset + 12, e2, 0, h.paramQuantizationInfo);
    Read8At(b, offset + 12, e2, 1, h.animationType);
    Read8At(b, offset + 12, e2, 2, h.interpolationType);
  }

  lemma {:induction false} TrackHeadRead(b: seq<u8>, offset: nat, h: Track)
    requires TrackFits(h) && offset + 12 <= |b| && b[offset..offset + 12] == EncodeTrackHead(h)
    ensures U32At(b, offset) == h.animationTime && U32At(b, offset + 4) == h.keyframeArray
    ensures U16At(b, offset + 8) == h.keyframeCount && U16At(b, offset + 10) == h.trackId
  {
    var e := EncodeTrackHead(h);
    Read32At(b, offset, e, 0, h.animationTime);
    Read32At(b, offset, e, 4, h.keyframeArray);
    Read16At(b, offset, e, 8, h.keyframeCount);
    Read16At(b, offset, e, 10, h.trackId);
  }

  /** The `animTypes` flags of a track. */
  datatype AnimTypes = AnimTypes(matrix: bool, quatRot: bool, eulerRot: bool, scale: bool, trans: bool)

  /** `bool(animationType & mask)` for the masks 0b10000 down to 0b1. */
  function DecodeAnimTypes(animationType: nat): (r: AnimTypes)
  {
    Pow2Values();
    AnimTypes(And(animationType, 16) != 0, And(animationType, 8) != 0, And(animationType, 4) != 0,
              And(animationType, 2) != 0, And(animationType, 1) != 0)
  }

  /** The flag byte with exactly the given flags set. */
  function EncodeAnimTypes(t: AnimTypes): (x: nat)
    ensures x < 32
  {
    (if t.matrix then 16 else 0) + (if t.quatRot then 8 else 0) + (if t.eulerRot then 4 else 0)
      + (if t.scale then 2 else 0) + (if t.trans then 1 else 0)
  }

  /** Each flag is one bit of the byte: matrix bit 4, quatRot bit 3,
      eulerRot bit 2, scale bit 1, trans bit 0. */
  lemma {:induction false} AnimTypesBits(animationType: nat)
    ensures var t := DecodeAnimTypes(animationType);
      && (t.matrix <==> animationType / 16 % 2 == 1)
      && (t.quatRot <==> animationType / 8 % 2 == 1)
      && (t.eulerRot <==> animationType / 4 % 2 == 1)
      && (t.scale <==> animationType / 2 % 2 == 1)
      && (t.trans <==> animationType % 2 == 1)
  {
    Pow2Values();
    AndPow2(animationType, 4);
    AndPow2(animationType, 3);
    AndPow2(animationType, 2);
    AndPow2(animationType, 1);
    AndPow2(animationType, 0);
  }

  /** Decoding the flags of an encoded set gives the set back. */
  lemma {:induction false} AnimTypesRoundTrip(t: AnimTypes)
    ensures DecodeAnimTypes(EncodeAnimTypes(t)) == t
  {
    AnimTypesBits(EncodeAnimTypes(t));
  }

  /** The `interpolationTypes` fields of a track. */
  datatype InterpolationTypes = InterpolationTypes(rotation: nat, scale: nat, translation: nat)

  /** `(x >> 4) & 0b111`, `(x >> 2) & 0b11`, `x & 0b11`. */
  function DecodeInterpolationTypes(interpolationType: nat): (r: InterpolationTypes)
    ensures r.rotation < 8 && r.scale < 4 && r.translation < 4
  {
    Pow2Values();
    MaskIsAnd(Shr(interpolationType, 4), 3);
    MaskIsAnd(Shr(interpolationType, 2), 2);
    MaskIsAnd(interpolationType, 2);
    InterpolationTypes(And(Shr(interpolationType, 4), 7), And(Shr(interpolationType, 2), 3),
                       And(interpolationType, 3))
  }

  /** For a byte with bit 7 clear, the three fields rebuild it:
      rotation bits 4-6, scale bits 2-3, translation bits 0-1. */
  lemma {:induction false} InterpolationTypesComplete(interpolationType: nat)
    requires interpolationType < 128
    ensures var r := DecodeInterpolationTypes(interpolationType);
      interpolationType == r.rotation * 16 + r.scale * 4 + r.translation
  {
    Pow2Values();
    var x := interpolationType;
    var a, c := Shr(x, 2), Shr(x, 4);
    assert Shr(a, 2) == c by { DivDiv(x, 2, 2); }
    DivBound(x, 4, 3);
    MaskIsAnd(c, 3);
    MaskIsAnd(a, 2);
    MaskIsAnd(x, 2);
    MaskShr(x, 2);
    MaskShr(a, 2);
  }

  /** `_describe_interpolation`: the names of the seven interpolation kinds. */
  function InterpolationName(interpolation: nat): string {
    if interpolation == 0 then "None"
    else if interpolation == 1 then "Linear"
    else if interpolation == 2 then "Bezier"
    else if interpolation == 3 then "Hermite"
    else if interpolation == 4 then "SQUAD"
    else if interpolation == 5 then "SQUADEE"
    else if interpolation == 6 then "SLERP"
    else "Unknown"
  }

  /** The seven kinds have distinct names, and only values outside them are "Unknown". */
  lemma {:induction false} InterpolationNamesDistinct(a: nat, c: nat)
    ensures InterpolationName(a) == "Unknown" <==> a > 6
    ensures a <= 6 && c <= 6 && a != c ==> InterpolationName(a) != InterpolationName(c)
  {
  }

  // ---------------------------------------------------------------------
  // ANIMKeyFrame: '>f I I'

  datatype Keyframe = Keyframe(time: nat, settingBank: nat, interpolationInfo: nat)

  const KeyframeSize: nat := 12

  predicate KeyframeFits(k: Keyframe) {
    k.time < Word32 && k.settingBank < Word32 && k.interpolationInfo < Word32
  }

  function ParseKeyframe(b: seq<u8>, offset: nat): (res: Result<Keyframe>)
    ensures res.Err? <==> offset + KeyframeSize > |b|
    ensures res.Err? ==> res.error == OutOfBytes
    ensures res.Ok? ==> KeyframeFits(res.value)
  {
    if offset + KeyframeSize > |b| then Err(OutOfBytes)
    else Ok(Keyframe(U32At(b, offset), U32At(b, offset + 4), U32At(b, offset + 8)))
  }

  function EncodeKeyframe(k: Keyframe): (e: seq<u8>)
    requires KeyframeFits(k)
    ensures |e| == KeyframeSize
  {
    Be32(k.time) + Be32(k.settingBank) + Be32(k.interpolationInfo)
  }

  lemma {:induction false} KeyframeRoundTrip(b: seq<u8>, offset: nat, k: Keyframe)
    requires KeyframeFits(k) && offset + KeyframeSize <= |b| && b[offset..offset + KeyframeSize] == EncodeKeyframe(k)
    ensures ParseKeyframe(b, offset) == Ok(k)
  {
    var e := EncodeKeyframe(k);
    Read32At(b, offset, e, 0, k.time);
    Read32At(b, offset, e, 4, k.settingBank);
    Read32At(b, offset, e, 8, k.interpolationInfo);
  }

  // ---------------------------------------------------------------------
  // The whole bank

  datatype TrackTree = TrackTree(track: Track, keyframes: seq<Keyframe>)
  datatype SequenceTree = SequenceTree(sequence: Sequence, tracks: seq<TrackTree>)
  datatype BankTree = BankTree(bank: Bank, sequences: seq<SequenceTree>)

  function KeyframeParser(b: seq<u8>): nat -> Result<Keyframe> {
    (o: nat) => ParseKeyframe(b, o)
  }

  function TrackParser(b: seq<u8>): nat -> Result<TrackTree> {
    (o: nat) => ParseTrackTree(b, o)
  }

  function SequenceParser(b: seq<u8>): nat -> Result<SequenceTree> {
    (o: nat) => ParseSequenceTree(b, o)
  }

  /** `ANIMTrack(b, offset)`: the track and its keyframes at the stored pointer, 12 bytes apart. */
  function ParseTrackTree(b: seq<u8>, offset: nat): (res: Result<TrackTree>)
    ensures res.Ok? ==> ParseTrack(b, offset) == Ok(res.value.track)
    ensures res.Ok? ==> var t := res.value.track;
      && |res.value.keyframes| == t.keyframeCount
      && forall i :: 0 <= i < t.keyframeCount ==>
           ParseKeyframe(b, Element(t.keyframeArray, KeyframeSize, i)) == Ok(res.value.keyframes[i])
  {
    var t :- ParseTrack(b, offset);
    var keyframes :- ParseArray(KeyframeParser(b), t.keyframeArray, KeyframeSize, t.keyframeCount);
    Ok(TrackTree(t, keyframes))
  }

  /** `ANIMSequence(b, offset)`: the sequence and its tracks at the unrelocated
      track pointer, 16 bytes apart. */
  function ParseSequenceTree(b: seq<u8>, offset: nat): (res: Result<SequenceTree>)
    ensures res.Ok? ==> ParseSequence(b, offset) == Ok(res.value.sequence)
    ensures res.Ok? ==> var s := res.value.sequence;
      && |res.value.tracks| == s.trackCount
      && forall i :: 0 <= i < s.trackCount ==>
           ParseTrackTree(b, Element(s.trackArray, TrackSize, i)) == Ok(res.value.tracks[i])
  {
    var s :- ParseSequence(b, offset);
    var tracks :- ParseArray(TrackParser(b), s.trackArray, TrackSize, s.trackCount);
    Ok(SequenceTree(s, tracks))
  }

  /** `ANIMBank(b, offset)`: the bank and its sequences at the relocated
      sequence pointer, 12 bytes apart. */
  function ParseBankTree(b: seq<u8>, offset: nat): (res: Result<BankTree>)
    ensures res.Ok? ==> ParseBank(b, offset) == Ok(res.value.bank)
    ensures res.Ok? ==> var h := res.value.bank;
      && |res.value.sequences| == h.sequenceCount
      && forall i :: 0 <= i < h.sequenceCount ==>
           ParseSequenceTree(b, Element(h.sequenceArray, SequenceSize, i)) == Ok(res.value.sequences[i])
    ensures offset + BankSize > |b| ==> res == Err(OutOfBytes)
  {
    var h :- ParseBank(b, offset);
    var sequences :- ParseArray(SequenceParser(b), h.sequenceArray, SequenceSize, h.sequenceCount);
    Ok(BankTree(h, sequences))
  }

  /** A bank parses exactly when its header, every sequence, every track and
      every keyframe does. */
  lemma {:induction false} BankTreeOk(b: seq<u8>, offset: nat)
    requires ParseBank(b, offset).Ok?
    ensures var h := ParseBank(b, offset).value;
      ParseBankTree(b, offset).Ok? <==>
        (forall i :: 0 <= i < h.sequenceCount ==> ParseSequenceTree(b, Element(h.sequenceArray, SequenceSize, i)).Ok?)
  {
    var h := ParseBank(b, offset).value;
    ParseArrayOk(SequenceParser(b), h.sequenceArray, SequenceSize, h.sequenceCount);
  }
}
