/** The lazy decompressor (`RollingDecompressor`) and its slice views.

    It reads the same token stream as the archive decoder, but keeps its
    reader and its output between calls: `decompress(size)` only appends
    until at least `size` bytes (or `MaxSize` bytes) exist. Indexing
    materialises just enough output; a slice without a stop becomes a view
    (`RollingDecompressorSlice`) that decompresses nothing until it is
    indexed itself.

    The object's mutable state is threaded explicitly: every operation
    takes a decompressor and returns the updated one.
 */
module Rolling {
  import opened Bits
  import opened Wrappers
  import opened BitStream
  import Codec

  /** `MAX_SIZE`: decompression never continues past 4,000,000 bytes. */
  const MaxSize: nat := 4_000_000

  datatype Rolling = Rolling(reader: Reader, lookbackBits: nat, repetitionBits: nat, output: seq<u8>)

  predicate Good(d: Rolling) {
    Valid(d.reader)
  }

  /** A fresh decompressor over `buffer`. */
  function New(buffer: seq<u8>, lookbackBits: nat, repetitionBits: nat): (d: Rolling)
    ensures Good(d) && d.output == [] && d.reader.data == buffer
  {
    Rolling(Start(buffer), lookbackBits, repetitionBits, [])
  }

  /** `d'` is `d` after more decompression: same input and widths, and the
      old output is a prefix of the new one. */
  predicate Extends(d: Rolling, d': Rolling) {
    Good(d') && d'.reader.data == d.reader.data
    && d'.lookbackBits == d.lookbackBits && d'.repetitionBits == d.repetitionBits
    && d.output <= d'.output
  }

  /** The loop condition of `decompress(size)` is false. */
  predicate Done(d: Rolling, size: nat) {
    |d.output| >= size || |d.output| >= MaxSize
  }

  function Max(a: int, b: int): int {
    if a >= b then a else b
  }

  // ---------------------------------------------------------------------
  // decompress

  /** What an operation on the object leaves behind: the state the object
      is in afterwards, and the value returned or the exception raised.
      The source mutates the object as it goes, so a call that raises
      still leaves the bytes and reader it reached (the extractor writes
      that partial output after catching the exception). */
  datatype Call<T> = Call(state: Rolling, result: Result<T>)

  /** `decompress(size)`: read tokens until the output holds `size` bytes
      or `MaxSize` bytes. A reference that reaches before the output fails
      as in the archive decoder, after its fields have been read and
      before anything is appended; a token whose bits run out fails with
      the fields read so far consumed. The last copy is not cut short, so
      the output may overshoot by less than one maximal copy. */
  function Decompress(d: Rolling, size: nat): (c: Call<()>)
    requires Good(d)
    ensures Extends(d, c.state)
    ensures c.result.Ok? <==> Done(c.state, size)
    ensures Done(d, size) ==> c == Call(d, Ok(()))
    ensures c.result.Err? ==>
      c.result.error in {NoMoreInts, NegativeShift, LookbackTooFar, LookbackIndex}
    ensures c.result == Err(NoMoreInts) ==> ReadInt(c.state.reader).Err?
    decreases Remaining(d.reader)
  {
    if Done(d, size) then Call(d, Ok(()))
    else
      var t := Codec.ReadToken(d.reader, d.lookbackBits, d.repetitionBits);
      if t.Err? then
        Call(d.(reader := Codec.TokenRemains(d.reader, d.lookbackBits, d.repetitionBits)), Err(t.error))
      else
        var (token, r') := t.value;
        match token
        case Literal(byte) =>
          Decompress(d.(reader := r', output := d.output + [byte]), size)
        case Reference(distance, length) =>
          if distance > |d.output| then Call(d.(reader := r'), Err(LookbackTooFar))
          else if distance == |d.output| then Call(d.(reader := r'), Err(LookbackIndex))
          else
            Decompress(d.(reader := r', output := Codec.CopyBack(d.output, distance, length)), size)
  }

  /** After a failed `decompress(size)` the output left in the object is
      exactly what a successful `decompress` to that many bytes produces:
      every token before the failing one completed, and the failing one
      appended nothing. */
  lemma {:induction false} FailureKeepsDecoded(d: Rolling, size: nat)
    requires Good(d) && Decompress(d, size).result.Err?
    ensures var left := Decompress(d, size).state;
      var upTo := Decompress(d, |left.output|);
      upTo.result.Ok? && upTo.state.output == left.output
    decreases Remaining(d.reader)
  {
    var t := Codec.ReadToken(d.reader, d.lookbackBits, d.repetitionBits);
    if t.Ok? {
      var (token, r') := t.value;
      match token
      case Literal(byte) =>
        var d' := d.(reader := r', output := d.output + [byte]);
        FailureKeepsDecoded(d', size);
      case Reference(distance, length) =>
        if distance < |d.output| {
          var d' := d.(reader := r', output := Codec.CopyBack(d.output, distance, length));
          FailureKeepsDecoded(d', size);
        }
    }
  }

  /** What the extractor writes when a call on a fresh object raises: the
      bytes left behind are exactly what the archive decoder produces when
      it expects that many bytes. */
  lemma {:induction false} FailureOutputMatchesArchive(buffer: seq<u8>, lookbackBits: nat, repetitionBits: nat, size: nat)
    requires !Codec.Stored(lookbackBits, repetitionBits)
    requires Decompress(New(buffer, lookbackBits, repetitionBits), size).result.Err?
    ensures var left := Decompress(New(buffer, lookbackBits, repetitionBits), size).state.output;
      var archive := Codec.Decompress(Codec.Decompressor(buffer, lookbackBits, repetitionBits, Some(|left|)));
      archive.Ok? && archive.value.output == left
  {
    var d := New(buffer, lookbackBits, repetitionBits);
    FailureKeepsDecoded(d, size);
    RollingMatchesArchive(buffer, lookbackBits, repetitionBits, |Decompress(d, size).state.output|);
  }

  /** A decompression outcome in the archive decoder's terms. */
  function AsArchive(c: Call<()>): Result<(seq<u8>, Reader)> {
    match c.result
    case Ok(_) => Ok((c.state.output, c.state.reader))
    case Err(e) => Err(e)
  }

  /** `decompress(size)` runs the archive decoder's loop with the expected
      size `min(size, MaxSize)`, continuing from the saved reader and
      output: same bytes, same final reader, same errors. */
  lemma {:induction false} DecompressIsArchiveLoop(d: Rolling, size: nat)
    requires Good(d)
    ensures AsArchive(Decompress(d, size))
      == Codec.DecodeFrom(d.reader, d.output, d.lookbackBits, d.repetitionBits, Some(Codec.Min(size, MaxSize)))
    decreases Remaining(d.reader)
  {
    if !Done(d, size) {
      var t := Codec.ReadToken(d.reader, d.lookbackBits, d.repetitionBits);
      if t.Ok? {
        var (token, r') := t.value;
        match token
        case Literal(byte) =>
          DecompressIsArchiveLoop(d.(reader := r', output := d.output + [byte]), size);
        case Reference(distance, length) =>
          if distance < |d.output| {
            DecompressIsArchiveLoop(d.(reader := r', output := Codec.CopyBack(d.output, distance, length)), size);
          }
      }
    }
  }

  /** From a fresh decompressor and for sizes up to `MaxSize`, the output
      is what `ArchiveDecompressor.decompress` produces for that expected
      size, and the reader has fetched `compressed_size` bytes. Stored data
      (widths 0/0) is the exception: the rolling decoder has no stored
      mode. */
  lemma {:induction false} RollingMatchesArchive(buffer: seq<u8>, lookbackBits: nat, repetitionBits: nat, size: nat)
    requires size <= MaxSize && !Codec.Stored(lookbackBits, repetitionBits)
    ensures var rolled := Decompress(New(buffer, lookbackBits, repetitionBits), size);
      var archive := Codec.Decompress(Codec.Decompressor(buffer, lookbackBits, repetitionBits, Some(size)));
      (rolled.result.Ok? <==> archive.Ok?)
      && (rolled.result.Ok? ==> rolled.state.output == archive.value.output
                                && rolled.state.reader.byteIndex == archive.value.compressedSize
                                && size <= |rolled.state.output| <= size + Pow2(repetitionBits))
  {
    DecompressIsArchiveLoop(New(buffer, lookbackBits, repetitionBits), size);
  }

  /** What running `decompress(b)` after a call does: continue from its
      state, or let its exception propagate. */
  function Then(c: Call<()>, b: nat): Call<()>
    requires Good(c.state)
  {
    if c.result.Ok? then Decompress(c.state, b) else c
  }

  /** Decompressing in two calls is decompressing once to the larger
      size: the lazy object never ends in a different state, or raises a
      different error, for being asked in smaller steps. */
  lemma {:induction false} DecompressResumes(d: Rolling, a: nat, b: nat)
    requires Good(d)
    ensures Decompress(d, Max(a, b)) == Then(Decompress(d, a), b)
    decreases Remaining(d.reader)
  {
    if !Done(d, a) {
      var t := Codec.ReadToken(d.reader, d.lookbackBits, d.repetitionBits);
      if t.Ok? {
        var (token, r') := t.value;
        match token
        case Literal(byte) =>
          DecompressResumes(d.(reader := r', output := d.output + [byte]), a, b);
        case Reference(distance, length) =>
          if distance < |d.output| {
            DecompressResumes(d.(reader := r', output := Codec.CopyBack(d.output, distance, length)), a, b);
          }
      }
    }
  }

  // ---------------------------------------------------------------------
  // Python slicing

  /** `s[start:stop:step]` for a non-negative start and stop and a
      positive step: the elements at `start`, `start + step`, ... below
      both `stop` and the length. */
  function PySlice(s: seq<u8>, start: nat, stop: nat, step: nat): (r: seq<u8>)
    requires step > 0
    decreases |s| - start
  {
    if start >= stop || start >= |s| then [] else [s[start]] + PySlice(s, start + step, stop, step)
  }

  /** The index form of a slice: element `i` of `s[start:stop:step]` is
      `s[start + i * step]`, and it exists exactly when that position is
      below both the stop and the length. */
  lemma {:induction false} PySliceIndex(s: seq<u8>, start: nat, stop: nat, step: nat, i: nat)
    requires step > 0
    ensures i < |PySlice(s, start, stop, step)| <==> start + i * step < Codec.Min(stop, |s|)
    ensures i < |PySlice(s, start, stop, step)| ==> PySlice(s, start, stop, step)[i] == s[start + i * step]
    decreases i
  {
    if i > 0 && start < Codec.Min(stop, |s|) {
      PySliceIndex(s, start + step, stop, step, i - 1);
      assert start + step + (i - 1) * step == start + i * step;
    }
  }

  /** Slicing a slice is one slice of the original: `s[a:e:v][b:c:t]` is
      `s[a + b*v : min(e, a + c*v) : t*v]`. */
  lemma {:induction false} PySliceOfSlice(s: seq<u8>, a: nat, e: nat, v: nat, b: nat, c: nat, t: nat)
    requires v > 0 && t > 0
    ensures PySlice(PySlice(s, a, e, v), b, c, t) == PySlice(s, a + b * v, Codec.Min(e, a + c * v), t * v)
    decreases |PySlice(s, a, e, v)| - b
  {
    var x := PySlice(s, a, e, v);
    PySliceIndex(s, a, e, v, b);
    if b < c {
      MulLtMul(b, c, v);
    } else {
      MulLeMul(c, b, v);
    }
    if b < c && b < |x| {
      PySliceOfSlice(s, a, e, v, b + t, c, t);
      MulAddRight(b, t, v);
    }
  }

  /** Clamping the stop to the length changes nothing. */
  lemma {:induction false} PySliceClamp(s: seq<u8>, start: nat, stop: nat, step: nat)
    requires step > 0
    ensures PySlice(s, start, stop, step) == PySlice(s, start, Codec.Min(stop, |s|), step)
    decreases |s| - start
  {
    if start < stop && start < |s| {
      PySliceClamp(s, start + step, stop, step);
    }
  }

  /** A slice that ends within `s` is the same slice of any extension of `s`. */
  lemma {:induction false} PySlicePrefix(s: seq<u8>, s': seq<u8>, start: nat, stop: nat, step: nat)
    requires step > 0 && s <= s' && stop <= |s|
    ensures PySlice(s', start, stop, step) == PySlice(s, start, stop, step)
    decreases |s| - start
  {
    if start < stop {
      PySlicePrefix(s, s', start + step, stop, step);
    }
  }

  // ---------------------------------------------------------------------
  // Indexing the decompressor

  /** `len()` of the decompressor and of its views. */
  const Length: nat := 0xFFFF_FFFF

  /** The length reported is the largest 32-bit unsigned value. */
  lemma {:induction false} LengthIsMaxWord()
    ensures Length == Pow2(32) - 1
  {
    Pow2Word();
  }

  /** `r[key]` for an integer key: materialise `key + 1` bytes and return
      byte `key`. The object is left as `decompress(key + 1)` leaves it,
      whether that succeeds or raises. Only past `MaxSize` can the output
      stay too short, and then the index fails. */
  function At(d: Rolling, key: int): (c: Call<u8>)
    requires Good(d)
    ensures key < 0 ==> c == Call(d, Err(AssertionFailed))
    ensures Extends(d, c.state)
    ensures key >= 0 ==> c.state == Decompress(d, key + 1).state
    ensures c.result.Ok? ==> 0 <= key < |c.state.output| && c.result.value == c.state.output[key]
    ensures 0 <= key < MaxSize ==> (c.result.Ok? <==> Decompress(d, key + 1).result.Ok?)
  {
    if key < 0 then Call(d, Err(AssertionFailed))
    else
      var run := Decompress(d, key + 1);
      if run.result.Err? then Call(run.state, Err(run.result.error))
      else if key < |run.state.output| then Call(run.state, Ok(run.state.output[key]))
      else Call(run.state, Err(IndexOutOfRange))
  }

  /** From a fresh decompressor, `r[k]` is byte `k` of what the archive
      decoder produces when it expects `k + 1` bytes. */
  lemma {:induction false} AtMatchesArchive(buffer: seq<u8>, lookbackBits: nat, repetitionBits: nat, k: nat)
    requires k < MaxSize && !Codec.Stored(lookbackBits, repetitionBits)
    ensures var got := At(New(buffer, lookbackBits, repetitionBits), k);
      var archive := Codec.Decompress(Codec.Decompressor(buffer, lookbackBits, repetitionBits, Some(k + 1)));
      (got.result.Ok? <==> archive.Ok?) && (got.result.Ok? ==> got.result.value == archive.value.output[k])
  {
    RollingMatchesArchive(buffer, lookbackBits, repetitionBits, k + 1);
  }

  /** A Python slice object; `None` parts are absent. */
  datatype Key = Key(start: Option<int>, stop: Option<int>, step: Option<int>)

  /** The asserts on a slice key: a positive step and non-negative bounds. */
  predicate Allowed(key: Key) {
    (key.step.None? || key.step.value > 0)
    && (key.start.None? || key.start.value >= 0)
    && (key.stop.None? || key.stop.value >= 0)
  }

  function OrElse(o: Option<int>, default: int): int {
    if o.Some? then o.value else default
  }

  /** A `RollingDecompressorSlice`: the view `output[start::step]` of the
      whole decompressed stream. Its stop is always `None`. */
  datatype View = View(start: nat, step: nat)

  /** What indexing with a slice returns: bytes, or a lazy view. */
  datatype Answer = Bytes(bytes: seq<u8>) | Lazy(view: View)

  /** `r[start:stop:step]`. With a stop, `max(start, stop)` bytes are
      materialised and sliced, and the object is left as that
      `decompress` leaves it; without one the result is a view and
      nothing is decompressed. */
  function Slice(d: Rolling, key: Key): (c: Call<Answer>)
    requires Good(d)
    ensures !Allowed(key) ==> c == Call(d, Err(AssertionFailed))
    ensures Extends(d, c.state)
    ensures key.stop.None? ==>
      c.state == d && (c.result.Ok? <==> Allowed(key)) && (c.result.Ok? ==> c.result.value.Lazy?)
    ensures Allowed(key) && key.stop.Some? ==>
      var run := Decompress(d, Max(OrElse(key.start, 0), key.stop.value));
      c.state == run.state && (c.result.Ok? <==> run.result.Ok?)
    ensures c.result.Ok? && key.stop.Some? ==> c.result.value.Bytes?
  {
    if !Allowed(key) then Call(d, Err(AssertionFailed))
    else if key.stop.Some? then
      var start, stop := OrElse(key.start, 0), key.stop.value;
      var run := Decompress(d, Max(start, stop));
      if run.result.Err? then Call(run.state, Err(run.result.error))
      else Call(run.state, Ok(Bytes(PySlice(run.state.output, start, stop, OrElse(key.step, 1)))))
    else
      Call(d, Ok(Lazy(View(OrElse(key.start, 0), OrElse(key.step, 1)))))
  }

  /** The bytes a slice returns are that slice of every longer
      decompression: asking for more output later never changes them. */
  lemma {:induction false} SliceIsStable(d: Rolling, key: Key, n: nat)
    requires Good(d) && Slice(d, key).result.Ok? && key.stop.Some?
    requires Decompress(Slice(d, key).state, n).result.Ok?
    ensures var d' := Slice(d, key).state;
      Slice(d, key).result.value.bytes
        == PySlice(Decompress(d', n).state.output, OrElse(key.start, 0), key.stop.value, OrElse(key.step, 1))
  {
    var d' := Slice(d, key).state;
    var d'' := Decompress(d', n).state;
    var start, stop, step := OrElse(key.start, 0), key.stop.value, OrElse(key.step, 1);
    if |d'.output| >= stop {
      PySlicePrefix(d'.output, d''.output, start, stop, step);
    } else {
      assert d'' == d';
    }
  }

  // ---------------------------------------------------------------------
  // Views

  /** The bytes a view stands for, over the output materialised so far. */
  function ViewBytes(out: seq<u8>, v: View): seq<u8>
    requires v.step > 0
  {
    PySlice(out, v.start, |out|, v.step)
  }

  /** `view[key]` for an integer key: after the assert, the source takes
      `max` of the view's start and its `None` stop, which raises
      TypeError before anything is decompressed, so integer indexing of a
      view always fails and leaves the object as it was. */
  function ViewAt(d: Rolling, v: View, key: int): (c: Call<u8>)
    ensures c.state == d && c.result.Err? && (c.result.error == AssertionFailed <==> key < 0)
  {
    if key < 0 then Call(d, Err(AssertionFailed)) else Call(d, Err(NoneCompared))
  }

  /** The output positions a view slice reads: from `start` below `end`
      every `step` positions. */
  datatype Span = Span(start: nat, end: nat, step: nat)

  /** Materialise `max(start, end)` bytes and read the span; the object is
      left as that `decompress` leaves it. */
  function ReadSpan(d: Rolling, sp: Span): (c: Call<Answer>)
    requires Good(d) && sp.step > 0
    ensures Extends(d, c.state)
    ensures var run := Decompress(d, Max(sp.start, sp.end));
      c.state == run.state && (c.result.Ok? <==> run.result.Ok?)
    ensures c.result.Ok? ==> (Done(c.state, Max(sp.start, sp.end))
      && c.result.value == Bytes(PySlice(c.state.output, sp.start, sp.end, sp.step)))
  {
    var run := Decompress(d, Max(sp.start, sp.end));
    if run.result.Err? then Call(run.state, Err(run.result.error))
    else Call(run.state, Ok(Bytes(PySlice(run.state.output, sp.start, sp.end, sp.step))))
  }

  /** `view[b:c:t]` reads element `b` of the view, which is output
      position `start + b * step`, up to element `c`. */
  function SpanOf(v: View, b: nat, c: nat, t: nat): Span {
    var first := v.start + b * v.step;
    Span(first, first + Max((c - b) * v.step, 0), t * v.step)
  }

  /** The span of `view[b:c:t]` ends at output position `start +
      max(b, c) * step`: the slice materialises the view up to its
      element `max(b, c)`. */
  lemma {:induction false} SpanReach(v: View, b: nat, c: nat, t: nat)
    ensures var sp := SpanOf(v, b, c, t);
      Max(sp.start, sp.end) == v.start + Max(b, c) * v.step
  {
    if b <= c {
      MulAddRight(c - b, b, v.step);
    } else {
      MulLeMul(c, b, v.step);
    }
  }

  /** `view[b::t]` is the view starting at element `b` of this view,
      stepping `t` elements at a time. */
  function TailOf(v: View, b: nat, t: nat): View {
    View(v.start + b * v.step, t * v.step)
  }

  /** `view[start:stop:step]`. A bounded slice materialises the view up to
      element `max(start, stop)` and leaves the object as that
      `decompress` leaves it; an open one decompresses nothing. */
  function ViewSlice(d: Rolling, v: View, key: Key): (c: Call<Answer>)
    requires Good(d) && v.step > 0
    ensures !Allowed(key) ==> c == Call(d, Err(AssertionFailed))
    ensures Extends(d, c.state)
    ensures key.stop.None? ==>
      c.state == d && (c.result.Ok? <==> Allowed(key)) && (c.result.Ok? ==> c.result.value.Lazy?)
    ensures Allowed(key) && key.stop.Some? ==>
      var reach: nat := v.start + Max(OrElse(key.start, 0), key.stop.value) * v.step;
      c.state == Decompress(d, reach).state && (c.result.Ok? <==> Decompress(d, reach).result.Ok?)
    ensures c.result.Ok? && key.stop.Some? ==> c.result.value.Bytes?
  {
    if !Allowed(key) then Call(d, Err(AssertionFailed))
    else
      var b, t := OrElse(key.start, 0), OrElse(key.step, 1);
      if key.stop.Some? then
        var sp := SpanOf(v, b, key.stop.value, t);
        SpanReach(v, b, key.stop.value, t);
        assert Max(sp.start, sp.end) == v.start + Max(b, key.stop.value) * v.step;
        ReadSpan(d, sp)
      else Call(d, Ok(Lazy(TailOf(v, b, t))))
  }

  /** Slicing a view with a stop returns that slice of the view's bytes. */
  lemma {:induction false} ViewSliceComposes(d: Rolling, v: View, key: Key)
    requires Good(d) && v.step > 0 && key.stop.Some?
    requires ViewSlice(d, v, key).result.Ok?
    ensures var c := ViewSlice(d, v, key);
      c.result.value == Bytes(PySlice(ViewBytes(c.state.output, v), OrElse(key.start, 0), key.stop.value, OrElse(key.step, 1)))
  {
    var d' := ViewSlice(d, v, key).state;
    SpanReadsView(d'.output, v, OrElse(key.start, 0), key.stop.value, OrElse(key.step, 1));
  }

  /** The span of `view[b:c:t]` reads exactly `b:c:t` of the view's bytes. */
  lemma {:induction false} SpanReadsView(out: seq<u8>, v: View, b: nat, c: nat, t: nat)
    requires v.step > 0 && t > 0
    ensures var sp := SpanOf(v, b, c, t);
      PySlice(out, sp.start, sp.end, sp.step) == PySlice(ViewBytes(out, v), b, c, t)
  {
    var sp := SpanOf(v, b, c, t);
    var a, w := v.start, v.step;
    PySliceOfSlice(out, a, |out|, w, b, c, t);
    if b <= c {
      var n := c - b;
      assert (c - b) * w == n * w;
      MulAddRight(n, b, w);
      assert sp.end == a + c * w;
      PySliceClamp(out, sp.start, sp.end, sp.step);
    } else {
      MulLeMul(c, b, w);
      assert sp.end == sp.start;
    }
  }

  /** Slicing a view without a stop gives the view of the view's bytes
      from element `b` on, every `t` elements, over any output. */
  lemma {:induction false} TailComposes(v: View, b: nat, t: nat, out: seq<u8>)
    requires v.step > 0 && t > 0
    ensures ViewBytes(out, TailOf(v, b, t)) == PySlice(ViewBytes(out, v), b, |ViewBytes(out, v)|, t)
  {
    var x := ViewBytes(out, v);
    PySliceOfSlice(out, v.start, |out|, v.step, b, |x|, t);
    PySliceIndex(out, v.start, |out|, v.step, |x|);
  }

  // ---------------------------------------------------------------------
  // View slicing as the source writes it

  /** The span the source computes for `view[b:c:t]`: it starts at
      `start + b` instead of `start + b * step`, ends `(c - b) * step`
      positions after that start, and steps by `t * step`. */
  function SpanAsWritten(v: View, b: nat, c: nat, t: nat): Span {
    var first := b + v.start;
    Span(first, first + Max((c - b) * v.step, 0), t * v.step)
  }

  /** The view the source builds for `view[b::t]`: it starts at
      `start + b * t` instead of `start + b * step`. */
  function TailAsWritten(v: View, b: nat, t: nat): View {
    View(v.start + b * t, t * v.step)
  }

  /** `view[start:stop:step]` as the source computes it. A bounded slice
      materialises `max(total_start, total_end)` bytes of the source's
      span and leaves the object as that `decompress` leaves it; an open
      one decompresses nothing. */
  function ViewSliceAsWritten(d: Rolling, v: View, key: Key): (c: Call<Answer>)
    requires Good(d) && v.step > 0
    ensures !Allowed(key) ==> c == Call(d, Err(AssertionFailed))
    ensures Extends(d, c.state)
    ensures key.stop.None? ==>
      c.state == d && (c.result.Ok? <==> Allowed(key)) && (c.result.Ok? ==> c.result.value.Lazy?)
    ensures Allowed(key) && key.stop.Some? ==>
      var b := OrElse(key.start, 0);
      var run := Decompress(d, b + v.start + Max((key.stop.value - b) * v.step, 0));
      c.state == run.state && (c.result.Ok? <==> run.result.Ok?)
    ensures c.result.Ok? && key.stop.Some? ==> c.result.value.Bytes?
  {
    if !Allowed(key) then Call(d, Err(AssertionFailed))
    else
      var b, t := OrElse(key.start, 0), OrElse(key.step, 1);
      if key.stop.Some? then ReadSpan(d, SpanAsWritten(v, b, key.stop.value, t))
      else Call(d, Ok(Lazy(TailAsWritten(v, b, t))))
  }

  /** The source's arithmetic is the intended one for a slice from element
      0, for a bounded slice of a step-1 view, and for an open slice whose
      step equals the view's. */
  lemma {:induction false} AsWrittenAgreesWhenAligned(d: Rolling, v: View, key: Key)
    requires Good(d) && v.step > 0
    requires var b, t := OrElse(key.start, 0), OrElse(key.step, 1);
      b == 0 || (if key.stop.Some? then v.step == 1 else t == v.step)
    ensures ViewSliceAsWritten(d, v, key) == ViewSlice(d, v, key)
  {
    if Allowed(key) {
      var b: nat, t: nat := OrElse(key.start, 0), OrElse(key.step, 1);
      if key.stop.Some? {
        SameSpan(v, b, key.stop.value, t);
      } else {
        SameTail(v, b, t);
      }
    }
  }

  lemma {:induction false} SameSpan(v: View, b: nat, c: nat, t: nat)
    requires v.step == 1 || b == 0
    ensures SpanAsWritten(v, b, c, t) == SpanOf(v, b, c, t)
  {
    assert b * v.step == b;
  }

  lemma {:induction false} SameTail(v: View, b: nat, t: nat)
    requires t == v.step || b == 0
    ensures TailAsWritten(v, b, t) == TailOf(v, b, t)
  {
  }

  /** A decompressor whose output is already `[0, 1, 2, 3]`. */
  function Materialised(): (d: Rolling)
    ensures Good(d) && d.output == [0, 1, 2, 3]
  {
    Rolling(Start([]), 1, 1, [0, 1, 2, 3])
  }

  /** `r[::2][1:2]` over the output `[0, 1, 2, 3]`: the view holds
      `[0, 2]`, so the answer should be `[2]`; the source returns `[1]`. */
  lemma {:induction false} BoundedViewSliceMisreads()
    ensures var d, v, key := Materialised(), View(0, 2), Key(Some(1), Some(2), None);
      && ViewBytes(d.output, v) == [0, 2]
      && ViewSliceAsWritten(d, v, key) == Call(d, Ok(Bytes([1])))
      && ViewSlice(d, v, key) == Call(d, Ok(Bytes([2])))
  {
    var d, v := Materialised(), View(0, 2);
    assert PySlice(d.output, 0, 4, 2) == [0, 2] by {
      assert PySlice(d.output, 4, 4, 2) == [];
      assert PySlice(d.output, 2, 4, 2) == [2];
    }
    assert PySlice(d.output, 1, 3, 2) == [1] by {
      assert PySlice(d.output, 3, 3, 2) == [];
    }
    assert PySlice(d.output, 2, 4, 2) == [2] by {
      assert PySlice(d.output, 4, 4, 2) == [];
    }
  }

  /** `r[::2][1:]` over the output `[0, 1, 2, 3]`: the tail of `[0, 2]`
      from element 1 is `[2]`; the source's view stands for `[1, 3]`. */
  lemma {:induction false} OpenViewSliceMisreads()
    ensures var d, v, key := Materialised(), View(0, 2), Key(Some(1), None, None);
      && ViewSliceAsWritten(d, v, key) == Call(d, Ok(Lazy(View(1, 2))))
      && ViewBytes(d.output, View(1, 2)) == [1, 3]
      && ViewSlice(d, v, key) == Call(d, Ok(Lazy(View(2, 2))))
      && ViewBytes(d.output, View(2, 2)) == [2]
  {
    var d := Materialised();
    assert PySlice(d.output, 1, 4, 2) == [1, 3] by {
      assert PySlice(d.output, 5, 4, 2) == [];
      assert PySlice(d.output, 3, 4, 2) == [3];
    }
    assert PySlice(d.output, 2, 4, 2) == [2] by {
      assert PySlice(d.output, 4, 4, 2) == [];
    }
  }
}
