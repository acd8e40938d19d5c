/** The archive codec (`ArchiveDecompressor` and `ArchiveCompressor`).

    A compressed stream is a sequence of tokens read from a `BitStream`
    reader. Each token starts with a one-bit flag: 1 is followed by an
    8-bit literal byte, 0 by a back-reference made of a
    `lookbackBits`-wide distance and a `repetitionBits`-wide length field;
    the reference copies `field + 2` bytes starting `distance + 1` bytes
    before the end of the output produced so far. The widths 0/0 mark data
    that is stored without compression.

    Decoding stops once the output reaches the expected size when one is
    given, and otherwise when the reader has reached the last byte and its
    bit buffer holds no set bit.
 */
module Codec {
  import opened Bits
  import opened Wrappers
  import opened BitStream

  datatype Token = Literal(byte: u8) | Reference(distance: nat, length: nat)

  /** An `ArchiveDecompressor`: the bytes, the two field widths and the
      optional expected output size. */
  datatype Decompressor = Decompressor(
    data: seq<u8>, lookbackBits: nat, repetitionBits: nat, originalSize: Option<nat>)

  /** The output and the `compressed_size` property: the number of bytes
      of whole words the reader fetched. */
  datatype Decoded = Decoded(output: seq<u8>, compressedSize: nat)

  /** Widths 0/0 mean the bytes are stored as they are. */
  predicate Stored(lookbackBits: nat, repetitionBits: nat) {
    lookbackBits == 0 && repetitionBits == 0
  }

  /** The longest copy one reference can ask for. */
  function MaxCopy(repetitionBits: nat): nat {
    Pow2(repetitionBits) + 1
  }

  // ---------------------------------------------------------------------
  // Decoding

  /** `__has_bits`: `byte_index >= len - 1` with Python's signed
      arithmetic, so an empty buffer has no bits. */
  predicate HasBits(r: Reader) {
    if r.byteIndex + 1 >= |r.data| then r.bitBuffer != 0 else true
  }

  /** `__should_keep_decompressing`. */
  predicate KeepGoing(r: Reader, produced: nat, originalSize: Option<nat>) {
    match originalSize
    case Some(size) => produced < size
    case None => HasBits(r)
  }

  /** One token: the flag, then either the literal or the two fields. */
  function ReadToken(r: Reader, lookbackBits: nat, repetitionBits: nat): (res: Result<(Token, Reader)>)
    requires Valid(r)
    ensures res.Ok? ==> Advances(r, res.value.1) && Remaining(res.value.1) < Remaining(r)
    ensures res.Ok? && res.value.0.Reference? ==>
      res.value.0.distance < Pow2(lookbackBits)
      && 2 <= res.value.0.length <= MaxCopy(repetitionBits)
    ensures res.Err? ==> res.error == NoMoreInts || res.error == NegativeShift
  {
    var head := ReadBits(r, 1);
    if head.Err? then Err(head.error)
    else if head.value.0 == 0 then ReadReference(head.value.1, lookbackBits, repetitionBits)
    else ReadLiteral(head.value.1)
  }

  /** `r'` is a later reachable state of the reader `r`. */
  predicate Advances(r: Reader, r': Reader) {
    Valid(r') && r'.data == r.data && r.byteIndex <= r'.byteIndex
  }

  function ReadReference(r: Reader, lookbackBits: nat, repetitionBits: nat): (res: Result<(Token, Reader)>)
    requires Valid(r)
    ensures res.Ok? ==> Advances(r, res.value.1) && Remaining(res.value.1) <= Remaining(r)
    ensures res.Ok? ==> (res.value.0.Reference?
      && res.value.0.distance < Pow2(lookbackBits)
      && 2 <= res.value.0.length <= MaxCopy(repetitionBits))
    ensures res.Err? ==> res.error == NoMoreInts || res.error == NegativeShift
  {
    var (distance, r1) :- ReadBits(r, lookbackBits);
    var (field, r2) :- ReadBits(r1, repetitionBits);
    Ok((Reference(distance, field + 2), r2))
  }

  function ReadLiteral(r: Reader): (res: Result<(Token, Reader)>)
    requires Valid(r)
    ensures res.Ok? ==> Advances(r, res.value.1) && Remaining(res.value.1) <= Remaining(r)
    ensures res.Ok? ==> res.value.0.Literal?
    ensures res.Err? ==> res.error == NoMoreInts || res.error == NegativeShift
  {
    var (byte, r1) :- ReadBits(r, 8);
    Pow2Byte();
    Ok((Literal(byte), r1))
  }

  /** The reader a failed `ReadToken` leaves behind. The fields read
      before the failing one stay consumed; a field that fails because no
      word is left changes nothing, so the reader stops exactly where the
      word could not be fetched. A field that fails with a negative shift
      is treated the same way (its fetched word is not kept). */
  function TokenRemains(r: Reader, lookbackBits: nat, repetitionBits: nat): (r': Reader)
    requires Valid(r)
    ensures Advances(r, r')
    ensures var t := ReadToken(r, lookbackBits, repetitionBits);
      (t.Ok? ==> r' == t.value.1) && (t.Err? && t.error == NoMoreInts ==> ReadInt(r').Err?)
  {
    var head := ReadBits(r, 1);
    if head.Err? then r
    else
      var r1 := head.value.1;
      var first := ReadBits(r1, if head.value.0 == 0 then lookbackBits else 8);
      if first.Err? then r1
      else if head.value.0 != 0 then first.value.1
      else
        var second := ReadBits(first.value.1, repetitionBits);
        if second.Err? then first.value.1 else second.value.1
  }

  /** The copy loop of a reference: append, `count` times, the byte
      `distance + 1` positions before the current end. */
  function CopyBack(out: seq<u8>, distance: nat, count: nat): (res: seq<u8>)
    requires distance < |out|
    ensures |res| == |out| + count && res[..|out|] == out
    decreases count
  {
    if count == 0 then out
    else
      var next := CopyBack(out + [out[|out| - 1 - distance]], distance, count - 1);
      assert next[..|out| + 1][..|out|] == next[..|out|];
      next
  }

  /** Every byte a copy appends repeats the byte `distance + 1` places
      before it, so a copy longer than the distance repeats its own
      output. */
  lemma {:induction false} CopyBackRepeats(out: seq<u8>, distance: nat, count: nat, j: nat)
    requires distance < |out| && |out| <= j < |out| + count
    ensures CopyBack(out, distance, count)[j] == CopyBack(out, distance, count)[j - 1 - distance]
    decreases count
  {
    var out' := out + [out[|out| - 1 - distance]];
    var res := CopyBack(out', distance, count - 1);
    if j > |out| {
      CopyBackRepeats(out', distance, count - 1, j);
    } else {
      assert res[j] == res[..|out'|][j];
      assert res[j - 1 - distance] == res[..|out'|][j - 1 - distance];
    }
  }

  /** The `decompress` loop from reader `r` with output `out` so far. A
      distance beyond the output raises ValueError; a distance equal to
      the output length passes that test and then indexes before the start
      of the output. */
  function DecodeFrom(r: Reader, out: seq<u8>, lookbackBits: nat, repetitionBits: nat,
                      originalSize: Option<nat>): (res: Result<(seq<u8>, Reader)>)
    requires Valid(r)
    ensures res.Ok? ==> (out <= res.value.0
      && Advances(r, res.value.1) && !KeepGoing(res.value.1, |res.value.0|, originalSize))
    ensures res.Ok? && originalSize.Some? && |out| <= originalSize.value + Pow2(repetitionBits) ==>
      |res.value.0| <= originalSize.value + Pow2(repetitionBits)
    decreases Remaining(r)
  {
    if !KeepGoing(r, |out|, originalSize) then Ok((out, r))
    else
      var (token, r') :- ReadToken(r, lookbackBits, repetitionBits);
      match token
      case Literal(byte) =>
        DecodeFrom(r', out + [byte], lookbackBits, repetitionBits, originalSize)
      case Reference(distance, length) =>
        if distance > |out| then Err(LookbackTooFar)
        else if distance == |out| then Err(LookbackIndex)
        else
          DecodeFrom(r', CopyBack(out, distance, length), lookbackBits, repetitionBits, originalSize)
  }

  /** `decompress`, together with the `compressed_size` it leaves behind. */
  function Decompress(d: Decompressor): (res: Result<Decoded>)
    ensures res.Ok? ==> res.value.compressedSize % 4 == 0
    ensures res.Ok? && d.originalSize.Some? && !Stored(d.lookbackBits, d.repetitionBits) ==>
      d.originalSize.value <= |res.value.output| <= d.originalSize.value + Pow2(d.repetitionBits)
  {
    if Stored(d.lookbackBits, d.repetitionBits) then
      match d.originalSize
      case Some(size) => Ok(Decoded(d.data[..Min(size, |d.data|)], 0))
      case None => Ok(Decoded([], 0))
    else
      var (out, r) :- DecodeFrom(Start(d.data), [], d.lookbackBits, d.repetitionBits, d.originalSize);
      Ok(Decoded(out, r.byteIndex))
  }

  /** The `is_valid_decompression` loop: counts the output without
      producing it and answers False at the first distance that does not
      point into the output. */
  function CountFrom(r: Reader, count: nat, lookbackBits: nat, repetitionBits: nat,
                     originalSize: Option<nat>): (res: Result<bool>)
    requires Valid(r)
    decreases Remaining(r)
  {
    if !KeepGoing(r, count, originalSize) then Ok(true)
    else
      var (token, r') :- ReadToken(r, lookbackBits, repetitionBits);
      match token
      case Literal(_) => CountFrom(r', count + 1, lookbackBits, repetitionBits, originalSize)
      case Reference(distance, length) =>
        if distance >= count then Ok(false)
        else CountFrom(r', count + length, lookbackBits, repetitionBits, originalSize)
  }

  /** `is_valid_decompression`. */
  function IsValidDecompression(d: Decompressor): Result<bool> {
    if Stored(d.lookbackBits, d.repetitionBits) then Ok(true)
    else CountFrom(Start(d.data), 0, d.lookbackBits, d.repetitionBits, d.originalSize)
  }

  /** A decoding error that comes from a bad reference rather than from
      the bit reader. */
  predicate BadReference(e: Error) {
    e == LookbackTooFar || e == LookbackIndex
  }

  /** What the counting loop answers for a given outcome of the decoding
      loop: True for a decoding, False for a bad reference, and the
      reader's own error otherwise. */
  function Verdict<T>(d: Result<T>): Result<bool> {
    if d.Ok? then Ok(true)
    else if BadReference(d.error) then Ok(false)
    else Err(d.error)
  }

  /** What the counting loop's answer says about the decoding loop's. */
  predicate Agree<T>(c: Result<bool>, d: Result<T>) {
    (c == Ok(true) <==> d.Ok?)
    && (c == Ok(false) <==> d.Err? && BadReference(d.error))
    && (c.Err? ==> d.Err? && d.error == c.error)
  }

  lemma {:induction false} VerdictAgrees<T>(d: Result<T>)
    ensures Agree(Verdict(d), d)
  {
  }

  /** The counting loop reads the same tokens as the decoding loop and
      counts exactly the bytes it appends, so its answer is the verdict on
      the decoding loop's outcome. */
  lemma {:induction false} CountAgreesWithDecode(r: Reader, out: seq<u8>, lookbackBits: nat,
                                                 repetitionBits: nat, originalSize: Option<nat>)
    requires Valid(r)
    ensures CountFrom(r, |out|, lookbackBits, repetitionBits, originalSize)
      == Verdict(DecodeFrom(r, out, lookbackBits, repetitionBits, originalSize))
    decreases Remaining(r), 1
  {
    if KeepGoing(r, |out|, originalSize) {
      var t := ReadToken(r, lookbackBits, repetitionBits);
      if t.Err? {
        FailStep(r, out, lookbackBits, repetitionBits, originalSize);
      } else {
        var token, r' := t.value.0, t.value.1;
        if token.Literal? {
          LiteralStep(r, out, lookbackBits, repetitionBits, originalSize, token, r');
        } else if token.distance < |out| {
          CopyStep(r, out, lookbackBits, repetitionBits, originalSize, token, r');
        } else {
          BadReferenceStep(r, out, lookbackBits, repetitionBits, originalSize, token, r');
        }
      }
    }
  }

  // One turn of the two loops, for each way a turn can go.

  lemma {:induction false} FailStep(r: Reader, out: seq<u8>, lookbackBits: nat, repetitionBits: nat,
                 originalSize: Option<nat>)
    requires Valid(r) && KeepGoing(r, |out|, originalSize)
    requires ReadToken(r, lookbackBits, repetitionBits).Err?
    ensures CountFrom(r, |out|, lookbackBits, repetitionBits, originalSize)
      == Verdict(DecodeFrom(r, out, lookbackBits, repetitionBits, originalSize))
  {
  }

  lemma {:induction false} BadReferenceStep(r: Reader, out: seq<u8>, lookbackBits: nat, repetitionBits: nat,
                         originalSize: Option<nat>, token: Token, r': Reader)
    requires Valid(r) && KeepGoing(r, |out|, originalSize)
    requires ReadToken(r, lookbackBits, repetitionBits) == Ok((token, r'))
    requires token.Reference? && token.distance >= |out|
    ensures CountFrom(r, |out|, lookbackBits, repetitionBits, originalSize)
      == Verdict(DecodeFrom(r, out, lookbackBits, repetitionBits, originalSize))
  {
  }

  lemma {:induction false} LiteralStep(r: Reader, out: seq<u8>, lookbackBits: nat, repetitionBits: nat,
                    originalSize: Option<nat>, token: Token, r': Reader)
    requires Valid(r) && KeepGoing(r, |out|, originalSize)
    requires ReadToken(r, lookbackBits, repetitionBits) == Ok((token, r')) && token.Literal?
    ensures CountFrom(r, |out|, lookbackBits, repetitionBits, originalSize)
      == Verdict(DecodeFrom(r, out, lookbackBits, repetitionBits, originalSize))
    decreases Remaining(r), 0
  {
    var out' := out + [token.byte];
    calc {
      CountFrom(r, |out|, lookbackBits, repetitionBits, originalSize);
    == { CountLiteralStep(r, |out|, lookbackBits, repetitionBits, originalSize, token, r'); }
      CountFrom(r', |out'|, lookbackBits, repetitionBits, originalSize);
    == { CountAgreesWithDecode(r', out', lookbackBits, repetitionBits, originalSize); }
      Verdict(DecodeFrom(r', out', lookbackBits, repetitionBits, originalSize));
    == { DecodeLiteralStep(r, out, lookbackBits, repetitionBits, originalSize, token, r'); }
      Verdict(DecodeFrom(r, out, lookbackBits, repetitionBits, originalSize));
    }
  }

  lemma {:induction false} CopyStep(r: Reader, out: seq<u8>, lookbackBits: nat, repetitionBits: nat,
                 originalSize: Option<nat>, token: Token, r': Reader)
    requires Valid(r) && KeepGoing(r, |out|, originalSize)
    requires ReadToken(r, lookbackBits, repetitionBits) == Ok((token, r'))
    requires token.Reference? && token.distance < |out|
    ensures CountFrom(r, |out|, lookbackBits, repetitionBits, originalSize)
      == Verdict(DecodeFrom(r, out, lookbackBits, repetitionBits, originalSize))
    decreases Remaining(r), 0
  {
    var out' := CopyBack(out, token.distance, token.length);
    var count, count' := |out|, |out'|;
    calc {
      CountFrom(r, count, lookbackBits, repetitionBits, originalSize);
    == { CountCopyStep(r, count, lookbackBits, repetitionBits, originalSize, token, r', count'); }
      CountFrom(r', count', lookbackBits, repetitionBits, originalSize);
    == { CountAgreesWithDecode(r', out', lookbackBits, repetitionBits, originalSize); }
      Verdict(DecodeFrom(r', out', lookbackBits, repetitionBits, originalSize));
    == { DecodeCopyStep(r, out, lookbackBits, repetitionBits, originalSize, token, r'); }
      Verdict(DecodeFrom(r, out, lookbackBits, repetitionBits, originalSize));
    }
  }

  lemma {:induction false} CountLiteralStep(r: Reader, count: nat, lookbackBits: nat, repetitionBits: nat,
                         originalSize: Option<nat>, token: Token, r': Reader)
    requires Valid(r) && KeepGoing(r, count, originalSize)
    requires ReadToken(r, lookbackBits, repetitionBits) == Ok((token, r')) && token.Literal?
    ensures CountFrom(r, count, lookbackBits, repetitionBits, originalSize)
      == CountFrom(r', count + 1, lookbackBits, repetitionBits, originalSize)
  {
  }

  lemma {:induction false} DecodeLiteralStep(r: Reader, out: seq<u8>, lookbackBits: nat, repetitionBits: nat,
                          originalSize: Option<nat>, token: Token, r': Reader)
    requires Valid(r) && KeepGoing(r, |out|, originalSize)
    requires ReadToken(r, lookbackBits, repetitionBits) == Ok((token, r')) && token.Literal?
    ensures DecodeFrom(r, out, lookbackBits, repetitionBits, originalSize)
      == DecodeFrom(r', out + [token.byte], lookbackBits, repetitionBits, originalSize)
  {
  }

  lemma {:induction false} CountCopyStep(r: Reader, count: nat, lookbackBits: nat, repetitionBits: nat,
                      originalSize: Option<nat>, token: Token, r': Reader, count': nat)
    requires Valid(r) && KeepGoing(r, count, originalSize)
    requires ReadToken(r, lookbackBits, repetitionBits) == Ok((token, r'))
    requires token.Reference? && token.distance < count && count' == count + token.length
    ensures CountFrom(r, count, lookbackBits, repetitionBits, originalSize)
      == CountFrom(r', count', lookbackBits, repetitionBits, originalSize)
  {
    var (t, next) := ReadToken(r, lookbackBits, repetitionBits).value;
    assert t == token && next == r';
  }

  lemma {:induction false} DecodeCopyStep(r: Reader, out: seq<u8>, lookbackBits: nat, repetitionBits: nat,
                       originalSize: Option<nat>, token: Token, r': Reader)
    requires Valid(r) && KeepGoing(r, |out|, originalSize)
    requires ReadToken(r, lookbackBits, repetitionBits) == Ok((token, r'))
    requires token.Reference? && token.distance < |out|
    ensures DecodeFrom(r, out, lookbackBits, repetitionBits, originalSize)
      == DecodeFrom(r', CopyBack(out, token.distance, token.length), lookbackBits, repetitionBits, originalSize)
  {
  }

  /** `is_valid_decompression` returns True exactly when `decompress`
      succeeds, and False exactly when `decompress` meets a reference
      before the start of the output. */
  lemma {:induction false} IsValidIffDecompresses(d: Decompressor)
    ensures Agree(IsValidDecompression(d), Decompress(d))
  {
    if !Stored(d.lookbackBits, d.repetitionBits) {
      var r := Start(d.data);
      CountAgreesWithDecode(r, [], d.lookbackBits, d.repetitionBits, d.originalSize);
      VerdictAgrees(DecodeFrom(r, [], d.lookbackBits, d.repetitionBits, d.originalSize));
    }
  }

  /** Stored data: the first `originalSize` bytes, or nothing without a
      size, and no words fetched. */
  lemma {:induction false} StoredDecompress(d: Decompressor)
    requires Stored(d.lookbackBits, d.repetitionBits)
    ensures IsValidDecompression(d) == Ok(true)
    ensures d.originalSize.Some? ==> Decompress(d) == Ok(Decoded(d.data[..Min(d.originalSize.value, |d.data|)], 0))
    ensures d.originalSize.None? ==> Decompress(d) == Ok(Decoded([], 0))
  {
  }

  function Min(a: nat, b: nat): nat {
    if a <= b then a else b
  }
}
