/** The 32-bit-word bit streams of the archive codec.

    The decoder state (`ArchiveDecompressor` and `RollingDecompressor`) is a
    byte buffer, a byte index, and a bit buffer holding the not yet
    consumed low bits of the last big-endian word read. The encoder state
    (`CompressedBufferHelper`) is the list of completed words, a buffer and
    the number of bits already placed in it, filled from the low end.

    The source combines bit fields with `|`; here they are combined with
    `Place` and `Join` from `Bits`, which equal the bitwise forms whenever
    the fields do not overlap, and `Valid`/`WriterValid` (kept by every
    step) guarantee that they never do.

    The lemmas at the end relate the two sides: a reader positioned where a
    writer stood reads back exactly the value the writer added next.
 */
module BitStream {
  import opened Bits
  import opened Wrappers

  // ---------------------------------------------------------------------
  // Reader

  datatype Reader = Reader(data: seq<u8>, byteIndex: nat, bitBuffer: nat, bitsInBuffer: nat)

  /** The state after `__reset_buffer`. */
  function Start(data: seq<u8>): (r: Reader)
    ensures Valid(r) && Remaining(r) == 8 * |data|
  {
    Reader(data, 0, 0, 0)
  }

  /** What every reachable decoder state satisfies: whole words have been
      fetched, and the bit buffer holds exactly `bitsInBuffer` bits. */
  predicate Valid(r: Reader) {
    r.byteIndex <= |r.data| && r.byteIndex % 4 == 0
    && r.bitsInBuffer <= 32 && r.bitBuffer < Pow2(r.bitsInBuffer)
  }

  /** The number of bits not yet consumed. */
  function Remaining(r: Reader): nat
    requires r.byteIndex <= |r.data|
  {
    8 * (|r.data| - r.byteIndex) + r.bitsInBuffer
  }

  /** `__read_int`: the next big-endian 32-bit word, if four bytes remain. */
  function ReadInt(r: Reader): (res: Result<(nat, Reader)>)
    ensures res.Err? <==> r.byteIndex + 3 >= |r.data|
    ensures res.Err? ==> res.error == NoMoreInts
    ensures res.Ok? ==> (res.value.0 < 0x1_0000_0000
      && res.value.0 == BigEndian(r.data[r.byteIndex..r.byteIndex + 4])
      && res.value.1 == r.(byteIndex := r.byteIndex + 4))
  {
    if r.byteIndex + 3 >= |r.data| then Err(NoMoreInts)
    else
      Pow2Word();
      Ok((BigEndian(r.data[r.byteIndex..r.byteIndex + 4]), r.(byteIndex := r.byteIndex + 4)))
  }

  /** `__read_bits`: `n` bits, low-order bits of the stream first. When the
      buffer runs short its bits become the high part of the value and the
      low part comes from a freshly read word; asking for more than 32 new
      bits makes the source shift by a negative count. */
  function ReadBits(r: Reader, n: nat): (res: Result<(nat, Reader)>)
    ensures n <= r.bitsInBuffer ==> res.Ok?
    ensures res.Err? ==> (n > r.bitsInBuffer
      && (res.error == NoMoreInts || (res.error == NegativeShift && n - r.bitsInBuffer > 32)))
    ensures res.Ok? ==> res.value.1.data == r.data
    ensures res.Ok? ==> (res.value.1.byteIndex == r.byteIndex || res.value.1.byteIndex == r.byteIndex + 4)
    ensures res.Ok? && Valid(r) ==> Valid(res.value.1)
    ensures res.Ok? && Valid(r) ==> res.value.0 < Pow2(n)
    ensures res.Ok? && Valid(r) ==> Remaining(res.value.1) + n == Remaining(r)
  {
    if n <= r.bitsInBuffer then
      ShiftFacts(r.bitBuffer, r.bitsInBuffer, n);
      Ok((Mask(r.bitBuffer, n), r.(bitBuffer := Shr(r.bitBuffer, n), bitsInBuffer := r.bitsInBuffer - n)))
    else
      var (word, r1) :- ReadInt(r);
      var needed := n - r.bitsInBuffer;
      if needed > 32 then Err(NegativeShift)
      else
        RefillFacts(r.bitBuffer, r.bitsInBuffer, word, needed);
        Ok((Join(r.bitBuffer, word, needed), r1.(bitBuffer := Shr(word, needed), bitsInBuffer := 32 - needed)))
  }

  lemma {:induction false} ShiftFacts(buffer: nat, count: nat, n: nat)
    requires n <= count
    ensures buffer < Pow2(count) ==> Shr(buffer, n) < Pow2(count - n)
  {
    if buffer < Pow2(count) {
      DivBound(buffer, n, count - n);
    }
  }

  lemma {:induction false} RefillFacts(buffer: nat, count: nat, word: nat, needed: nat)
    requires word < 0x1_0000_0000 && needed <= 32
    ensures buffer < Pow2(count) ==> Join(buffer, word, needed) < Pow2(needed + count)
    ensures Shr(word, needed) < Pow2(32 - needed)
  {
    if buffer < Pow2(count) {
      PlaceBound(Mask(word, needed), buffer, needed, count);
    }
    Pow2Word();
    DivBound(word, needed, 32 - needed);
  }

  // ---------------------------------------------------------------------
  // Writer

  datatype Writer = Writer(words: seq<nat>, buffer: nat, count: nat)

  const Empty := Writer([], 0, 0)

  /** The buffer holds no bits above `count`: true of every writer state. */
  predicate Clean(w: Writer) {
    w.buffer < Pow2(w.count)
  }

  /** What every writer state reached with fields of at most 32 bits satisfies. */
  predicate WriterValid(w: Writer) {
    w.count < 32 && Clean(w) && forall i :: 0 <= i < |w.words| ==> w.words[i] < 0x1_0000_0000
  }

  /** `add_bits`: place the `n`-bit `value` above the bits already buffered,
      emitting the word once it holds 32 bits; a value that does not fit
      contributes its high bits to the current word and its low bits start
      the next one. */
  function AddBits(w: Writer, value: nat, n: nat): (w': Writer)
    requires value < Pow2(n)
    ensures |w.words| <= |w'.words| && w'.words[..|w.words|] == w.words
    ensures Clean(w) ==> Clean(w')
    ensures WriterValid(w) && n <= 32 ==> WriterValid(w')
  {
    if w.count + n <= 32 then
      PlaceBoundIf(w.buffer, value, w.count, n);
      Pow2Word();
      var buffer := Place(w.buffer, value, w.count);
      var count := w.count + n;
      if count == 32 then Writer(w.words + [buffer], 0, 0) else Writer(w.words, buffer, count)
    else
      var low := w.count + n - 32;
      SpillFacts(w.buffer, value, w.count, n);
      Writer(w.words + [Place(w.buffer, Shr(value, low), w.count)], Mask(value, low), low)
  }

  lemma {:induction false} PlaceBoundIf(buffer: nat, value: nat, count: nat, n: nat)
    requires value < Pow2(n)
    ensures buffer < Pow2(count) ==> Place(buffer, value, count) < Pow2(count + n)
  {
    if buffer < Pow2(count) {
      PlaceBound(buffer, value, count, n);
    }
  }

  /** A value split across two words: its high part still fits the first one. */
  lemma {:induction false} SpillFacts(buffer: nat, value: nat, count: nat, n: nat)
    requires count + n > 32 && value < Pow2(n)
    ensures buffer < Pow2(count) && count < 32 ==>
      Place(buffer, Shr(value, count + n - 32), count) < 0x1_0000_0000
  {
    if buffer < Pow2(count) && count < 32 {
      var upper := Shr(value, count + n - 32);
      DivBound(value, count + n - 32, 32 - count);
      PlaceBound(buffer, upper, count, 32 - count);
      Pow2Word();
    }
  }

  /** `flush`: emit a partly filled word. */
  function Flush(w: Writer): (w': Writer)
    ensures w'.count == 0 && |w.words| <= |w'.words| <= |w.words| + 1
    ensures w'.words[..|w.words|] == w.words
    ensures WriterValid(w) ==> WriterValid(w')
  {
    FlushFacts(w);
    if w.count > 0 then Writer(w.words + [w.buffer], 0, 0) else w
  }

  lemma {:induction false} FlushFacts(w: Writer)
    ensures WriterValid(w) ==> w.buffer < 0x1_0000_0000
  {
    if WriterValid(w) {
      Pow2Mono(w.count, 32);
      Pow2Word();
    }
  }

  /** The number of bits written so far: the complete words and the
      buffered bits. */
  function WrittenBits(w: Writer): nat {
    32 * |w.words| + w.count
  }

  /** Adding `n` bits adds `n` to the bits written, whichever of the
      three branches of `add_bits` is taken. */
  lemma {:induction false} AddBitsCount(w: Writer, value: nat, n: nat)
    requires WriterValid(w) && n <= 32 && value < Pow2(n)
    ensures WrittenBits(AddBits(w, value, n)) == WrittenBits(w) + n
  {
  }

  /** Flushing rounds the bits written up to whole words. */
  lemma {:induction false} FlushCount(w: Writer)
    requires WriterValid(w)
    ensures |Flush(w).words| == (WrittenBits(w) + 31) / 32
  {
    var k := |w.words|;
    DivModUnique(32 * k + w.count + 31, 32, k + (if w.count > 0 then 1 else 0),
                 (w.count + 31) % 32);
  }

  /** Every word fits in 32 bits. */
  predicate Fits(words: seq<nat>) {
    forall i :: 0 <= i < |words| ==> words[i] < 0x1_0000_0000
  }

  /** Four big-endian bytes per word, for words known to fit. */
  function Concat4(words: seq<nat>): (r: seq<u8>)
    requires Fits(words)
    ensures |r| == 4 * |words|
  {
    if |words| == 0 then [] else WordBytes(words[0]) + Concat4(words[1..])
  }

  /** `to_byte_array`: `to_bytes(4, 'big')` of each word, which raises
      OverflowError on a word of more than 32 bits. */
  function ToByteArray(words: seq<nat>): (r: Result<seq<u8>>)
    ensures r.Ok? <==> Fits(words)
    ensures r.Ok? ==> r.value == Concat4(words)
    ensures r.Err? ==> r.error == Overflow
  {
    if |words| == 0 then Ok([])
    else if words[0] >= 0x1_0000_0000 then Err(Overflow)
    else
      match ToByteArray(words[1..])
      case Err(e) =>
        assert !Fits(words[1..]);
        Err(e)
      case Ok(rest) =>
        assert Fits(words) by {
          forall i | 0 <= i < |words| ensures words[i] < 0x1_0000_0000 {
            if i > 0 { assert words[i] == words[1..][i - 1]; }
          }
        }
        Ok(WordBytes(words[0]) + rest)
  }

  lemma {:induction false} Concat4Word(words: seq<nat>, k: nat)
    requires Fits(words) && k < |words|
    ensures Concat4(words)[4 * k..4 * k + 4] == WordBytes(words[k])
    ensures BigEndian(Concat4(words)[4 * k..4 * k + 4]) == words[k]
    decreases k
  {
    if k > 0 {
      Concat4Word(words[1..], k - 1);
      var head, tail := WordBytes(words[0]), Concat4(words[1..]);
      assert Concat4(words) == head + tail;
      assert |head| == 4;
      assert (head + tail)[4 * k..4 * k + 4] == tail[4 * k - 4..4 * k];
    }
    WordBytesRoundTrip(words[k]);
  }

  // ---------------------------------------------------------------------
  // Reading back what was written

  /** `fin` is a completed word list that the writer `w` can still become:
      its complete words come first and its buffered bits are the low bits
      of the next word. */
  ghost predicate PrefixOf(w: Writer, fin: seq<nat>) {
    |w.words| <= |fin| && fin[..|w.words|] == w.words
    && (w.count > 0 ==> |w.words| < |fin| && fin[|w.words|] % Pow2(w.count) == w.buffer)
  }

  /** The reader `r` over the bytes of `fin` is positioned exactly where the
      writer `w` stood. */
  ghost predicate Sync(w: Writer, r: Reader, fin: seq<nat>) {
    Fits(fin) && r.data == Concat4(fin) && PrefixOf(w, fin)
    && if w.count == 0 then
         r.byteIndex == 4 * |w.words| && r.bitsInBuffer == 0 && r.bitBuffer == 0
       else
         r.byteIndex == 4 * (|w.words| + 1) && r.bitsInBuffer == 32 - w.count
         && r.bitBuffer == fin[|w.words|] / Pow2(w.count)
  }

  lemma {:induction false} SyncStart(fin: seq<nat>)
    requires Fits(fin)
    ensures Sync(Empty, Start(Concat4(fin)), fin)
  {
  }

  /** A reader in step with a writer is a reachable decoder state. */
  lemma {:induction false} SyncValid(w: Writer, r: Reader, fin: seq<nat>)
    requires Sync(w, r, fin)
    ensures Valid(r)
  {
    if w.count > 0 {
      var x := fin[|w.words|];
      assert x < 0x1_0000_0000;
      Pow2Word();
      DivBound(x, w.count, 32 - w.count);
    }
  }

  /** Once the last field is read, the reader has consumed every byte of
      the flushed words. */
  lemma {:induction false} SyncEnd(w: Writer, r: Reader)
    requires Sync(w, r, Flush(w).words)
    ensures r.byteIndex == |r.data|
  {
  }

  /** The final word list of a writer is consistent with every earlier state. */
  lemma {:induction false} AddBitsPrefix(w: Writer, value: nat, n: nat, fin: seq<nat>)
    requires WriterValid(w) && n <= 32 && value < Pow2(n)
    requires PrefixOf(AddBits(w, value, n), fin)
    ensures PrefixOf(w, fin)
  {
    var w' := AddBits(w, value, n);
    if w.count + n < 32 {
      FitShape(w, value, n);
      FitPrefix(w, w', value, n, fin);
    } else if w.count + n == 32 {
      FillShape(w, value, n);
      EmitPrefix(w, w', value, fin);
    } else {
      SpillShape(w, value, n);
      EmitPrefix(w, w', Shr(value, w.count + n - 32), fin);
    }
  }

  lemma {:induction false} FitPrefix(w: Writer, w': Writer, value: nat, n: nat, fin: seq<nat>)
    requires Clean(w) && w.count + n < 32
    requires w' == Writer(w.words, Place(w.buffer, value, w.count), w.count + n)
    requires PrefixOf(w', fin)
    ensures PrefixOf(w, fin)
  {
    if w.count > 0 {
      var k := |w.words|;
      ModMod(fin[k], w.count, w.count + n);
      Split(w.buffer, value, w.count);
    }
  }

  lemma {:induction false} EmitPrefix(w: Writer, w': Writer, upper: nat, fin: seq<nat>)
    requires Clean(w)
    requires w'.words == w.words + [Place(w.buffer, upper, w.count)]
    requires PrefixOf(w', fin)
    ensures PrefixOf(w, fin)
  {
    var k := |w.words|;
    assert fin[..k] == w'.words[..k];
    assert fin[k] == w'.words[k];
    Split(w.buffer, upper, w.count);
  }

  lemma {:induction false} FlushPrefix(w: Writer)
    requires WriterValid(w)
    ensures PrefixOf(w, Flush(w).words)
  {
    if w.count > 0 {
      ModBounds(w.buffer, Pow2(w.count));
      assert Flush(w).words[..|w.words|] == w.words;
    }
  }

  // The shapes of one step of each side.

  lemma {:induction false} FitShape(w: Writer, value: nat, n: nat)
    requires value < Pow2(n) && w.count + n < 32
    ensures AddBits(w, value, n) == Writer(w.words, Place(w.buffer, value, w.count), w.count + n)
  {
  }

  lemma {:induction false} FillShape(w: Writer, value: nat, n: nat)
    requires value < Pow2(n) && w.count + n == 32
    ensures AddBits(w, value, n) == Writer(w.words + [Place(w.buffer, value, w.count)], 0, 0)
  {
  }

  lemma {:induction false} SpillShape(w: Writer, value: nat, n: nat)
    requires value < Pow2(n) && w.count + n > 32
    ensures var low := w.count + n - 32;
      AddBits(w, value, n)
      == Writer(w.words + [Place(w.buffer, Shr(value, low), w.count)], Mask(value, low), low)
  {
  }

  lemma {:induction false} ShiftShape(r: Reader, n: nat)
    requires n <= r.bitsInBuffer
    ensures ReadBits(r, n).Ok?
    ensures ReadBits(r, n).value.0 == Mask(r.bitBuffer, n)
    ensures ReadBits(r, n).value.1
      == Reader(r.data, r.byteIndex, Shr(r.bitBuffer, n), r.bitsInBuffer - n)
  {
  }

  lemma {:induction false} RefillShape(r: Reader, n: nat, word: nat)
    requires r.bitsInBuffer < n <= r.bitsInBuffer + 32
    requires ReadInt(r) == Ok((word, r.(byteIndex := r.byteIndex + 4)))
    ensures ReadBits(r, n).Ok?
    ensures ReadBits(r, n).value.0 == Join(r.bitBuffer, word, n - r.bitsInBuffer)
    ensures ReadBits(r, n).value.1
      == Reader(r.data, r.byteIndex + 4, Shr(word, n - r.bitsInBuffer), 32 - (n - r.bitsInBuffer))
  {
  }

  lemma {:induction false} ReadWord(r: Reader, fin: seq<nat>, k: nat)
    requires Fits(fin) && r.data == Concat4(fin) && k < |fin| && r.byteIndex == 4 * k
    ensures ReadInt(r) == Ok((fin[k], r.(byteIndex := r.byteIndex + 4)))
  {
    Concat4Word(fin, k);
  }

  /** The word a writer emitted is the next word of `fin`. */
  lemma {:induction false} EmittedWord(w': Writer, fin: seq<nat>, k: nat)
    requires PrefixOf(w', fin) && k < |w'.words|
    ensures fin[k] == w'.words[k]
  {
    assert fin[k] == fin[..|w'.words|][k];
  }

  /** Reading `n` bits where the writer added the `n`-bit `value` yields
      `value`, and leaves the reader in step with the writer. */
  lemma {:induction false} ReadInSync(w: Writer, r: Reader, fin: seq<nat>, value: nat, n: nat)
    requires WriterValid(w) && n <= 32 && value < Pow2(n)
    requires Sync(w, r, fin)
    requires PrefixOf(AddBits(w, value, n), fin)
    ensures ReadBits(r, n).Ok?
    ensures ReadBits(r, n).value.0 == value
    ensures Sync(AddBits(w, value, n), ReadBits(r, n).value.1, fin)
  {
    var w' := AddBits(w, value, n);
    var c, k := w.count, |w.words|;
    if c + n < 32 {
      FitShape(w, value, n);
      if c == 0 && n == 0 {
        ShiftShape(r, n);
      } else if c == 0 {
        ReadFitFromBoundary(w, r, fin, value, n);
      } else {
        ShiftShape(r, n);
        FitSync(w, w', r, ReadBits(r, n).value.1, fin, value, n, ReadBits(r, n).value.0);
      }
    } else if c + n == 32 {
      FillShape(w, value, n);
      if c == 0 {
        ReadFillFromBoundary(w, r, fin, value, n);
      } else {
        ShiftShape(r, n);
        FillSync(w, w', r, ReadBits(r, n).value.1, fin, value, n, ReadBits(r, n).value.0);
      }
    } else {
      SpillShape(w, value, n);
      EmittedWord(w', fin, k);
      ReadWord(r, fin, k + 1);
      RefillShape(r, n, fin[k + 1]);
      SpillSync(w, w', r, ReadBits(r, n).value.1, fin, value, n, ReadBits(r, n).value.0);
    }
  }

  /** `ReadInSync` for a field that starts a fresh word and does not fill it. */
  lemma {:induction false} ReadFitFromBoundary(w: Writer, r: Reader, fin: seq<nat>, value: nat, n: nat)
    requires WriterValid(w) && 0 < n < 32 && w.count == 0 && value < Pow2(n)
    requires Sync(w, r, fin)
    requires PrefixOf(AddBits(w, value, n), fin)
    ensures ReadBits(r, n).Ok?
    ensures ReadBits(r, n).value.0 == value
    ensures Sync(AddBits(w, value, n), ReadBits(r, n).value.1, fin)
  {
    var w' := AddBits(w, value, n);
    FitShape(w, value, n);
    ReadWord(r, fin, |w.words|);
    RefillShape(r, n, fin[|w.words|]);
    FitFromBoundary(w, w', r, ReadBits(r, n).value.1, fin, value, n, ReadBits(r, n).value.0);
  }

  /** `ReadInSync` for a 32-bit field that fills a fresh word. */
  lemma {:induction false} ReadFillFromBoundary(w: Writer, r: Reader, fin: seq<nat>, value: nat, n: nat)
    requires WriterValid(w) && n == 32 && w.count == 0 && value < Pow2(n)
    requires Sync(w, r, fin)
    requires PrefixOf(AddBits(w, value, n), fin)
    ensures ReadBits(r, n).Ok?
    ensures ReadBits(r, n).value.0 == value
    ensures Sync(AddBits(w, value, n), ReadBits(r, n).value.1, fin)
  {
    var w' := AddBits(w, value, n);
    FillShape(w, value, n);
    ReadWord(r, fin, |w.words|);
    RefillShape(r, n, fin[|w.words|]);
    FillFromBoundary(w, w', r, ReadBits(r, n).value.1, fin, value, n, ReadBits(r, n).value.0);
  }

  // The four ways one read lines up with one write. Each takes the
  // writer's next state `w'` and the reader's next state `r'` with the
  // value `got` that was read, as the shape lemmas above describe them.

  lemma {:induction false} FitFromBoundary(w: Writer, w': Writer, r: Reader, r': Reader, fin: seq<nat>,
                        value: nat, n: nat, got: nat)
    requires Clean(w) && Sync(w, r, fin) && w.count == 0 && 1 <= n < 32 && value < Pow2(n)
    requires w' == Writer(w.words, Place(w.buffer, value, 0), n)
    requires PrefixOf(w', fin)
    requires got == Join(r.bitBuffer, fin[|w.words|], n)
    requires r' == Reader(r.data, r.byteIndex + 4, Shr(fin[|w.words|], n), 32 - n)
    ensures got == value && Sync(w', r', fin)
  {
    assert w.buffer == 0 && Pow2(0) == 1;
  }

  lemma {:induction false} FillFromBoundary(w: Writer, w': Writer, r: Reader, r': Reader, fin: seq<nat>,
                         value: nat, n: nat, got: nat)
    requires Clean(w) && Sync(w, r, fin) && w.count == 0 && n == 32 && value < Pow2(n)
    requires w' == Writer(w.words + [Place(w.buffer, value, 0)], 0, 0)
    requires PrefixOf(w', fin)
    requires got == Join(r.bitBuffer, fin[|w.words|], n)
    requires r' == Reader(r.data, r.byteIndex + 4, Shr(fin[|w.words|], n), 32 - n)
    ensures got == value && Sync(w', r', fin)
  {
    var k := |w.words|;
    assert w.buffer == 0 && Pow2(0) == 1;
    EmittedWord(w', fin, k);
    assert fin[k] == value;
    DivModUnique(value, Pow2(n), 0, value);
  }

  lemma {:induction false} FitSync(w: Writer, w': Writer, r: Reader, r': Reader, fin: seq<nat>,
                value: nat, n: nat, got: nat)
    requires Clean(w) && value < Pow2(n)
    requires Sync(w, r, fin) && w.count > 0 && w.count + n < 32
    requires w' == Writer(w.words, Place(w.buffer, value, w.count), w.count + n)
    requires PrefixOf(w', fin)
    requires got == Mask(r.bitBuffer, n)
    requires r' == Reader(r.data, r.byteIndex, Shr(r.bitBuffer, n), r.bitsInBuffer - n)
    ensures got == value && Sync(w', r', fin)
  {
    var c, x := w.count, fin[|w.words|];
    assert x / Pow2(c) / Pow2(n) == x / Pow2(c + n) by {
      DivDiv(x, c, n);
    }
    assert (x / Pow2(c)) % Pow2(n) == value by {
      DivMod(x, c, n);
      Split(w.buffer, value, c);
    }
  }

  lemma {:induction false} FillSync(w: Writer, w': Writer, r: Reader, r': Reader, fin: seq<nat>,
                 value: nat, n: nat, got: nat)
    requires Clean(w) && value < Pow2(n)
    requires Sync(w, r, fin) && w.count > 0 && w.count + n == 32
    requires w' == Writer(w.words + [Place(w.buffer, value, w.count)], 0, 0)
    requires PrefixOf(w', fin)
    requires got == Mask(r.bitBuffer, n)
    requires r' == Reader(r.data, r.byteIndex, Shr(r.bitBuffer, n), r.bitsInBuffer - n)
    ensures got == value && Sync(w', r', fin)
  {
    var c, k := w.count, |w.words|;
    var x := fin[k];
    EmittedWord(w', fin, k);
    assert x / Pow2(c) == value by {
      Split(w.buffer, value, c);
    }
    assert value % Pow2(n) == value by {
      ModBounds(value, Pow2(n));
    }
    assert value / Pow2(n) == 0 by {
      DivModUnique(value, Pow2(n), 0, value);
    }
  }

  lemma {:induction false} SpillSync(w: Writer, w': Writer, r: Reader, r': Reader, fin: seq<nat>,
                  value: nat, n: nat, got: nat)
    requires Clean(w) && n <= 32 && value < Pow2(n)
    requires Sync(w, r, fin) && w.count > 0 && w.count + n > 32
    requires var low := w.count + n - 32;
      w' == Writer(w.words + [Place(w.buffer, Shr(value, low), w.count)], Mask(value, low), low)
    requires PrefixOf(w', fin) && |w.words| + 1 < |fin|
    requires fin[|w.words|] == Place(w.buffer, Shr(value, w.count + n - 32), w.count)
    requires got == Join(r.bitBuffer, fin[|w.words| + 1], n - r.bitsInBuffer)
    requires r' == Reader(r.data, r.byteIndex + 4, Shr(fin[|w.words| + 1], n - r.bitsInBuffer),
                          32 - (n - r.bitsInBuffer))
    ensures got == value && Sync(w', r', fin)
  {
    var k, c := |w.words|, w.count;
    var low := c + n - 32;
    var x, y := fin[k], fin[k + 1];
    assert n - r.bitsInBuffer == low;
    SpillArith(x, y, w.buffer, value, value / Pow2(low), Pow2(low), Pow2(c));
  }

  /** The arithmetic of a read that straddles a word boundary: `p` and
      `bigP` stand for the powers of two of the two parts' widths. */
  lemma {:induction false} SpillArith(x: int, y: int, buffer: int, value: int, q: int, p: int, bigP: int)
    requires p >= 1 && 0 <= buffer < bigP && q == value / p
    requires x == buffer + q * bigP && y % p == value % p
    ensures x / bigP == q
    ensures y % p + q * p == value
  {
    DivModUnique(x, bigP, q, buffer);
  }
}
