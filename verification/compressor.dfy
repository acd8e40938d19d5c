/** The compressor of the archive codec (`ArchiveCompressor`): a greedy
    search for the longest earlier copy of the bytes ahead, a bit writer
    for the two kinds of token, and the proof that what it writes is read
    back by the decompressor as the original bytes.
 */
module Compressor {
  import opened Bits
  import opened Wrappers
  import opened BitStream
  import opened Codec

  /** A match found by `bytesearch`: where the earlier copy starts and how
      many bytes it covers. */
  datatype Sublist = Sublist(offset: nat, length: nat)

  // ---------------------------------------------------------------------
  // Searching

  /** Python's `s[a:b]` for non-negative bounds: the stop is clamped to the
      length, and a start at or past the stop gives the empty slice. */
  function Slice(s: seq<u8>, a: nat, b: nat): (r: seq<u8>)
    ensures |r| <= |s|
  {
    var stop := Min(b, |s|);
    if a >= stop then [] else s[a..stop]
  }

  /** `needle` occurs in `hay` starting at `k`. */
  predicate MatchAt(hay: seq<u8>, needle: seq<u8>, k: nat) {
    k + |needle| <= |hay| && hay[k..k + |needle|] == needle
  }

  /** `bytes.find` from position `j` on: the first occurrence at or after
      `j`, or -1 (see `FindFromFirst`). */
  function FindFrom(hay: seq<u8>, needle: seq<u8>, j: nat): (r: int)
    ensures r >= -1
    decreases |hay| - j
  {
    if j + |needle| > |hay| then -1
    else if hay[j..j + |needle|] == needle then j
    else FindFrom(hay, needle, j + 1)
  }

  lemma {:induction false} FindFromFirst(hay: seq<u8>, needle: seq<u8>, j: nat)
    ensures var r := FindFrom(hay, needle, j);
      (r == -1 || (j <= r && MatchAt(hay, needle, r)))
      && (r >= 0 ==> forall k :: j <= k < r ==> !MatchAt(hay, needle, k))
      && (r == -1 ==> forall k :: j <= k ==> !MatchAt(hay, needle, k))
    decreases |hay| - j
  {
    if j + |needle| <= |hay| && hay[j..j + |needle|] != needle {
      FindFromFirst(hay, needle, j + 1);
    }
  }

  /** `bytes.find`: the lowest index where `needle` occurs, or -1 (see
      `FindFirst`). */
  function Find(hay: seq<u8>, needle: seq<u8>): (r: int)
    ensures r >= -1
  {
    FindFrom(hay, needle, 0)
  }

  /** `Find` reports the first occurrence, and -1 exactly when there is none. */
  lemma {:induction false} FindFirst(hay: seq<u8>, needle: seq<u8>)
    ensures var r := Find(hay, needle);
      (r >= 0 ==> MatchAt(hay, needle, r))
      && (r >= 0 ==> forall k :: 0 <= k < r ==> !MatchAt(hay, needle, k))
      && (r == -1 <==> forall k :: 0 <= k ==> !MatchAt(hay, needle, k))
  {
    FindFromFirst(hay, needle, 0);
  }

  /** No occurrence of `needle` in `hay` starts before `usable`. */
  predicate NoneBefore(hay: seq<u8>, needle: seq<u8>, usable: int) {
    forall k: nat :: k < usable ==> !MatchAt(hay, needle, k)
  }

  /** The loop of `bytesearch`: try `sub[..len]`, and drop its last byte
      while no occurrence starts before `usable`, until it is shorter than
      `minSize`. A hit is reported relative to the window start `w0`. */
  function ShrinkSearch(hay: seq<u8>, sub: seq<u8>, len: nat, usable: int, w0: nat,
                        minSize: nat): (res: Option<Sublist>)
    requires len <= |sub| && minSize >= 1
    ensures res.Some? ==> minSize <= res.value.length <= len && w0 <= res.value.offset
    decreases len
  {
    if len < minSize then None
    else
      var ind := Find(hay, sub[..len]);
      if 0 <= ind < usable then Some(Sublist(w0 + ind, len))
      else ShrinkSearch(hay, sub, len - 1, usable, w0, minSize)
  }

  /** The loop stops at a prefix that occurs before `usable`, at its
      first occurrence. */
  lemma {:induction false} ShrinkSearchHit(hay: seq<u8>, sub: seq<u8>, len: nat, usable: int, w0: nat,
                                           minSize: nat)
    requires len <= |sub| && minSize >= 1
    ensures var res := ShrinkSearch(hay, sub, len, usable, w0, minSize);
      res.Some? ==> (res.value.offset - w0 < usable
        && MatchAt(hay, sub[..res.value.length], res.value.offset - w0)
        && NoneBefore(hay, sub[..res.value.length], res.value.offset - w0))
    decreases len
  {
    if len >= minSize {
      var needle := sub[..len];
      var ind := Find(hay, needle);
      if 0 <= ind < usable {
        FoundFirst(hay, needle);
      } else {
        ShrinkSearchHit(hay, sub, len - 1, usable, w0, minSize);
      }
    }
  }

  /** No prefix longer than the one the loop stops at (and, when it finds
      none, no prefix of at least `minSize` bytes) occurs before `usable`. */
  lemma {:induction false} ShrinkSearchNoLonger(hay: seq<u8>, sub: seq<u8>, len: nat, usable: int, w0: nat,
                                                minSize: nat, l: nat)
    requires len <= |sub| && minSize >= 1
    requires var res := ShrinkSearch(hay, sub, len, usable, w0, minSize);
      (if res.Some? then res.value.length < l else minSize <= l) && l <= len
    ensures NoneBefore(hay, sub[..l], usable)
    decreases len
  {
    var needle := sub[..len];
    NotFoundBefore(hay, needle, usable);
    if l < len {
      ShrinkSearchNoLonger(hay, sub, len - 1, usable, w0, minSize, l);
    }
  }

  lemma {:induction false} FoundFirst(hay: seq<u8>, needle: seq<u8>)
    requires Find(hay, needle) >= 0
    ensures MatchAt(hay, needle, Find(hay, needle)) && NoneBefore(hay, needle, Find(hay, needle))
  {
    FindFirst(hay, needle);
  }

  lemma {:induction false} NotFoundBefore(hay: seq<u8>, needle: seq<u8>, usable: int)
    requires !(0 <= Find(hay, needle) < usable)
    ensures NoneBefore(hay, needle, usable)
  {
    FindFirst(hay, needle);
  }

  /** `needle` occurs in `data` at `p`, ending no later than `stop`. */
  predicate Hit(data: seq<u8>, p: nat, stop: nat, needle: seq<u8>) {
    p + |needle| <= stop <= |data| && data[p..p + |needle|] == needle
  }

  /** `res` is the longest prefix of `sub`, at least `minSize` long, that
      occurs in `data` at a position in `[w0, w1)` and ends by `stop`, at
      its earliest such position; `None` when there is no such prefix. */
  ghost predicate Longest(data: seq<u8>, w0: nat, w1: nat, stop: nat, sub: seq<u8>, minSize: nat,
                          res: Option<Sublist>) {
    && (res.Some? ==> (minSize <= res.value.length <= |sub|
      && w0 <= res.value.offset < w1
      && Hit(data, res.value.offset, stop, sub[..res.value.length])
      && forall p: nat :: w0 <= p < res.value.offset ==> !Hit(data, p, stop, sub[..res.value.length])))
    && (forall l, p: nat :: ((if res.Some? then res.value.length < l else minSize <= l)
      && l <= |sub| && w0 <= p < w1) ==> !Hit(data, p, stop, sub[..l]))
  }

  /** `bytesearch`: the longest prefix of `data[sub_start:sub_stop]`, at
      least `minSize` long, that occurs starting inside the window
      `[window_start, window_stop)` and ending within `lookAhead` bytes of
      the window's end; the earliest such occurrence (see
      `ByteSearchLongest`). Negative starts are clamped to zero as in the
      source. A zero `minSize` would make the source loop forever on an
      empty sublist. */
  function ByteSearch(data: seq<u8>, subStart: int, subStop: nat, windowStart: int,
                      windowStop: nat, lookAhead: nat, minSize: nat): (res: Option<Sublist>)
    requires minSize >= 1
    ensures res.Some? ==> minSize <= res.value.length
  {
    var s0: nat := if subStart < 0 then 0 else subStart;
    var w0: nat := if windowStart < 0 then 0 else windowStart;
    var w1 := Min(|data|, windowStop);
    var sub := Slice(data, s0, Min(|data|, subStop));
    ShrinkSearch(Slice(data, w0, w1 + lookAhead), sub, |sub|, w1 - w0, w0, minSize)
  }

  lemma {:induction false} ByteSearchLongest(data: seq<u8>, subStart: int, subStop: nat, windowStart: int,
                          windowStop: nat, lookAhead: nat, minSize: nat)
    requires minSize >= 1
    ensures var w0, w1 := if windowStart < 0 then 0 else windowStart, Min(|data|, windowStop);
      var sub := Slice(data, if subStart < 0 then 0 else subStart, Min(|data|, subStop));
      Longest(data, w0, w1, Min(|data|, w1 + lookAhead), sub, minSize,
              ByteSearch(data, subStart, subStop, windowStart, windowStop, lookAhead, minSize))
  {
    var s0: nat := if subStart < 0 then 0 else subStart;
    var w0: nat := if windowStart < 0 then 0 else windowStart;
    var w1 := Min(|data|, windowStop);
    var sub := Slice(data, s0, Min(|data|, subStop));
    var res := ShrinkSearch(Slice(data, w0, w1 + lookAhead), sub, |sub|, w1 - w0, w0, minSize);
    SearchInData(data, w0, w1, w1 + lookAhead, sub, minSize, res);
  }

  /** Restates the result of the shrinking loop on the slice `data[w0:b]`
      in terms of positions in `data`. */
  lemma {:induction false} SearchInData(data: seq<u8>, w0: nat, w1: nat, b: nat, sub: seq<u8>, minSize: nat,
                     res: Option<Sublist>)
    requires minSize >= 1
    requires res == ShrinkSearch(Slice(data, w0, b), sub, |sub|, w1 - w0, w0, minSize)
    ensures Longest(data, w0, w1, Min(|data|, b), sub, minSize, res)
  {
    if res.Some? {
      HitInData(data, w0, w1, b, sub, minSize, res.value);
    }
    forall l, p: nat | (if res.Some? then res.value.length < l else minSize <= l)
        && l <= |sub| && w0 <= p < w1
      ensures !Hit(data, p, Min(|data|, b), sub[..l])
    {
      NoLongerInData(data, w0, w1, b, sub, minSize, res, l, p);
    }
  }

  lemma {:induction false} HitInData(data: seq<u8>, w0: nat, w1: nat, b: nat, sub: seq<u8>, minSize: nat, m: Sublist)
    requires minSize >= 1
    requires Some(m) == ShrinkSearch(Slice(data, w0, b), sub, |sub|, w1 - w0, w0, minSize)
    ensures minSize <= m.length <= |sub| && w0 <= m.offset < w1
    ensures Hit(data, m.offset, Min(|data|, b), sub[..m.length])
    ensures forall p: nat :: w0 <= p < m.offset ==> !Hit(data, p, Min(|data|, b), sub[..m.length])
  {
    var hay := Slice(data, w0, b);
    ShrinkSearchHit(hay, sub, |sub|, w1 - w0, w0, minSize);
    HayMatch(data, w0, b, sub[..m.length], m.offset);
    forall p: nat | w0 <= p < m.offset ensures !Hit(data, p, Min(|data|, b), sub[..m.length]) {
      HayMatch(data, w0, b, sub[..m.length], p);
    }
  }

  lemma {:induction false} NoLongerInData(data: seq<u8>, w0: nat, w1: nat, b: nat, sub: seq<u8>, minSize: nat,
                       res: Option<Sublist>, l: nat, p: nat)
    requires minSize >= 1
    requires res == ShrinkSearch(Slice(data, w0, b), sub, |sub|, w1 - w0, w0, minSize)
    requires (if res.Some? then res.value.length < l else minSize <= l) && l <= |sub| && w0 <= p < w1
    ensures !Hit(data, p, Min(|data|, b), sub[..l])
  {
    ShrinkSearchNoLonger(Slice(data, w0, b), sub, |sub|, w1 - w0, w0, minSize, l);
    HayMatch(data, w0, b, sub[..l], p);
  }

  /** Looking for a needle in the slice `data[w0:b]` at `p - w0` is looking
      for it in `data` at `p`, up to the clamped stop. */
  lemma {:induction false} HayMatch(data: seq<u8>, w0: nat, b: nat, needle: seq<u8>, p: nat)
    requires |needle| >= 1 && w0 <= p
    ensures Hit(data, p, Min(|data|, b), needle) <==> MatchAt(Slice(data, w0, b), needle, p - w0)
  {
    var hay := Slice(data, w0, b);
    var stop := Min(|data|, b);
    if w0 < stop {
      assert hay == data[w0..stop];
      if p + |needle| <= stop {
        var k := p - w0;
        assert hay[k..k + |needle|] == data[w0..stop][k..k + |needle|];
        SliceOfSlice(data, w0, stop, k, k + |needle|);
      }
    }
  }

  lemma {:induction false} SliceOfSlice(s: seq<u8>, a: nat, b: nat, c: nat, d: nat)
    requires a <= b <= |s| && c <= d <= b - a
    ensures s[a..b][c..d] == s[a + c..a + d]
  {
    var x, y := s[a..b][c..d], s[a + c..a + d];
    assert |x| == |y|;
    forall i | 0 <= i < |x| ensures x[i] == y[i] {
      assert x[i] == s[a + c + i];
    }
  }

  /** The bytes `l` long at `p` are the bytes `l` long at `di`: an earlier
      copy of the input ahead. */
  predicate CopyAt(data: seq<u8>, p: nat, di: nat, l: nat) {
    p <= di && di + l <= |data| && data[p..p + l] == data[di..di + l]
  }

  /** The first position a reference of `lookbackBits` bits can reach from `di`. */
  function WindowStart(di: nat, lookbackBits: nat): nat {
    if di < Pow2(lookbackBits) then 0 else di - Pow2(lookbackBits)
  }

  /** `res` is the longest copy of at least two and at most `MaxCopy` bytes
      of the input at `di` that starts in the window before `di`, at the
      earliest position such a copy starts; `None` when no such copy of two
      or more bytes exists. */
  ghost predicate Greedy(data: seq<u8>, di: nat, lookbackBits: nat, repetitionBits: nat,
                         res: Option<Sublist>) {
    var w0 := WindowStart(di, lookbackBits);
    && (res.Some? ==> (2 <= res.value.length <= MaxCopy(repetitionBits)
      && w0 <= res.value.offset < di
      && CopyAt(data, res.value.offset, di, res.value.length)
      && forall p: nat :: w0 <= p < res.value.offset ==> !CopyAt(data, p, di, res.value.length)))
    && (forall l, p: nat :: ((if res.Some? then res.value.length < l else 2 <= l)
      && l <= MaxCopy(repetitionBits) && w0 <= p < di) ==> !CopyAt(data, p, di, l))
  }

  /** `m`, when present, is a copy a repetition can encode: two to
      `MaxCopy` bytes long, starting inside the window before `di`. */
  predicate Usable(data: seq<u8>, di: nat, lookbackBits: nat, repetitionBits: nat, m: Option<Sublist>) {
    m.Some? ==> (2 <= m.value.length <= MaxCopy(repetitionBits)
      && WindowStart(di, lookbackBits) <= m.value.offset < di && CopyAt(data, m.value.offset, di, m.value.length))
  }

  /** The search `compress` makes at `di`: the bytes ahead, up to
      `2**rb + 1` of them, looked for in the `2**lb` bytes before `di` with
      that many bytes of look-ahead, so that a copy may overlap its own
      output. */
  function LongestMatch(data: seq<u8>, di: nat, lookbackBits: nat, repetitionBits: nat): (res: Option<Sublist>)
    requires di < |data|
    ensures Usable(data, di, lookbackBits, repetitionBits, res)
  {
    LongestMatchGreedy(data, di, lookbackBits, repetitionBits);
    ByteSearch(data, di, di + MaxCopy(repetitionBits), di - Pow2(lookbackBits), di,
               MaxCopy(repetitionBits), 2)
  }

  /** The search at `di` finds the longest earliest copy in the window. */
  lemma {:induction false} LongestMatchGreedy(data: seq<u8>, di: nat, lookbackBits: nat, repetitionBits: nat)
    requires di < |data|
    ensures Greedy(data, di, lookbackBits, repetitionBits,
      ByteSearch(data, di, di + MaxCopy(repetitionBits), di - Pow2(lookbackBits), di,
                 MaxCopy(repetitionBits), 2))
  {
    var res := ByteSearch(data, di, di + MaxCopy(repetitionBits), di - Pow2(lookbackBits), di,
                          MaxCopy(repetitionBits), 2);
    ByteSearchLongest(data, di, di + MaxCopy(repetitionBits), di - Pow2(lookbackBits), di,
                      MaxCopy(repetitionBits), 2);
    var stop := Min(|data|, di + MaxCopy(repetitionBits));
    assert Min(|data|, di) == di;
    assert Slice(data, di, stop) == data[di..stop];
    assert (if di - Pow2(lookbackBits) < 0 then 0 else di - Pow2(lookbackBits)) == WindowStart(di, lookbackBits);
    GreedyFromLongest(data, di, lookbackBits, repetitionBits, res);
  }

  lemma {:induction false} GreedyFromLongest(data: seq<u8>, di: nat, lookbackBits: nat, repetitionBits: nat,
                          res: Option<Sublist>)
    requires di < |data|
    requires var stop := Min(|data|, di + MaxCopy(repetitionBits));
      Longest(data, WindowStart(di, lookbackBits), di, stop, data[di..stop], 2, res)
    ensures Greedy(data, di, lookbackBits, repetitionBits, res)
  {
    var stop := Min(|data|, di + MaxCopy(repetitionBits));
    var sub := data[di..stop];
    var w0 := WindowStart(di, lookbackBits);
    forall l: nat, p: nat | l <= |sub| && p < di
      ensures Hit(data, p, stop, sub[..l]) <==> CopyAt(data, p, di, l)
    {
      assert sub[..l] == data[di..di + l];
    }
    forall l, p: nat | ((if res.Some? then res.value.length < l else 2 <= l)
      && l <= MaxCopy(repetitionBits) && w0 <= p < di)
      ensures !CopyAt(data, p, di, l)
    {
      if l <= |sub| {
        assert sub[..l] == data[di..di + l];
      }
    }
  }

  // ---------------------------------------------------------------------
  // Writing tokens

  /** `write_original_data`: a 1 flag bit, then the byte. */
  function WriteOriginalData(w: Writer, byte: u8): (w': Writer)
    ensures WriterValid(w) ==> WriterValid(w')
    ensures |w.words| <= |w'.words| && w'.words[..|w.words|] == w.words
  {
    Pow2Byte();
    var w1 := AddBits(w, 1, 1);
    var w2 := AddBits(w1, byte, 8);
    assert w2.words[..|w1.words|][..|w.words|] == w2.words[..|w.words|];
    w2
  }

  /** `write_repetition`: a 0 flag bit, the lookback field, then the
      repetition field. The source asserts that both fields fit their
      widths; `compress` always meets that (see `CompressFrom`). */
  function WriteRepetition(w: Writer, lookback: nat, lookbackBits: nat, reps: nat,
                           repetitionBits: nat): (w': Writer)
    requires lookback < Pow2(lookbackBits) && reps < Pow2(repetitionBits)
    ensures WriterValid(w) && lookbackBits <= 32 && repetitionBits <= 32 ==> WriterValid(w')
    ensures |w.words| <= |w'.words| && w'.words[..|w.words|] == w.words
  {
    var w1 := AddBits(w, 0, 1);
    var w2 := AddBits(w1, lookback, lookbackBits);
    var w3 := AddBits(w2, reps, repetitionBits);
    assert w3.words[..|w2.words|][..|w.words|] == w3.words[..|w.words|];
    assert w2.words[..|w1.words|][..|w.words|] == w2.words[..|w.words|];
    w3
  }

  /** A writer that can still become `fin` after a literal could already
      become `fin` before it. */
  lemma {:induction false} LiteralPrefix(w: Writer, byte: u8, fin: seq<nat>)
    requires WriterValid(w) && PrefixOf(WriteOriginalData(w, byte), fin)
    ensures PrefixOf(w, fin)
  {
    Pow2Byte();
    AddBitsPrefix(AddBits(w, 1, 1), byte, 8, fin);
    AddBitsPrefix(w, 1, 1, fin);
  }

  lemma {:induction false} RepetitionPrefix(w: Writer, lookback: nat, lookbackBits: nat, reps: nat,
                         repetitionBits: nat, fin: seq<nat>)
    requires lookback < Pow2(lookbackBits) && reps < Pow2(repetitionBits)
    requires lookbackBits <= 32 && repetitionBits <= 32
    requires WriterValid(w) && PrefixOf(WriteRepetition(w, lookback, lookbackBits, reps, repetitionBits), fin)
    ensures PrefixOf(w, fin)
  {
    var w1 := AddBits(w, 0, 1);
    var w2 := AddBits(w1, lookback, lookbackBits);
    AddBitsPrefix(w2, reps, repetitionBits, fin);
    AddBitsPrefix(w1, lookback, lookbackBits, fin);
    AddBitsPrefix(w, 0, 1, fin);
  }

  /** A literal written where the reader stands is read back as that
      literal, and leaves the reader where the writer then stands. */
  lemma {:induction false} LiteralReadsBack(w: Writer, r: Reader, fin: seq<nat>, byte: u8,
                         lookbackBits: nat, repetitionBits: nat, next: Writer)
    requires WriterValid(w) && Sync(w, r, fin)
    requires next == WriteOriginalData(w, byte) && PrefixOf(next, fin)
    ensures Valid(r) && ReadToken(r, lookbackBits, repetitionBits).Ok?
    ensures ReadToken(r, lookbackBits, repetitionBits).value.0 == Literal(byte)
    ensures Sync(next, ReadToken(r, lookbackBits, repetitionBits).value.1, fin)
  {
    SyncValid(w, r, fin);
    Pow2Byte();
    var w1 := AddBits(w, 1, 1);
    AddBitsPrefix(w1, byte, 8, fin);
    ReadInSync(w, r, fin, 1, 1);
    var r1 := ReadBits(r, 1).value.1;
    ReadInSync(w1, r1, fin, byte, 8);
    SyncValid(w1, r1, fin);
    assert ReadToken(r, lookbackBits, repetitionBits) == ReadLiteral(r1);
  }

  /** A repetition written where the reader stands is read back as the
      reference it encodes: the field values, with the length two more than
      the repetition field. */
  lemma {:induction false} RepetitionReadsBack(w: Writer, r: Reader, fin: seq<nat>, lookback: nat, lookbackBits: nat,
                            reps: nat, repetitionBits: nat, next: Writer)
    requires lookback < Pow2(lookbackBits) && reps < Pow2(repetitionBits)
    requires lookbackBits <= 32 && repetitionBits <= 32
    requires WriterValid(w) && Sync(w, r, fin)
    requires next == WriteRepetition(w, lookback, lookbackBits, reps, repetitionBits) && PrefixOf(next, fin)
    ensures Valid(r) && ReadToken(r, lookbackBits, repetitionBits).Ok?
    ensures ReadToken(r, lookbackBits, repetitionBits).value.0 == Reference(lookback, reps + 2)
    ensures Sync(next, ReadToken(r, lookbackBits, repetitionBits).value.1, fin)
  {
    SyncValid(w, r, fin);
    var w1 := AddBits(w, 0, 1);
    var w2 := AddBits(w1, lookback, lookbackBits);
    AddBitsPrefix(w2, reps, repetitionBits, fin);
    AddBitsPrefix(w1, lookback, lookbackBits, fin);
    ReadInSync(w, r, fin, 0, 1);
    var r1 := ReadBits(r, 1).value.1;
    SyncValid(w1, r1, fin);
    ReferenceReadsBack(w1, r1, fin, lookback, lookbackBits, reps, repetitionBits);
    assert ReadToken(r, lookbackBits, repetitionBits) == ReadReference(r1, lookbackBits, repetitionBits);
  }

  lemma {:induction false} ReferenceReadsBack(w1: Writer, r1: Reader, fin: seq<nat>, lookback: nat, lookbackBits: nat,
                           reps: nat, repetitionBits: nat)
    requires lookback < Pow2(lookbackBits) && reps < Pow2(repetitionBits)
    requires lookbackBits <= 32 && repetitionBits <= 32
    requires WriterValid(w1) && Sync(w1, r1, fin)
    requires PrefixOf(AddBits(AddBits(w1, lookback, lookbackBits), reps, repetitionBits), fin)
    ensures Valid(r1) && ReadReference(r1, lookbackBits, repetitionBits).Ok?
    ensures ReadReference(r1, lookbackBits, repetitionBits).value.0 == Reference(lookback, reps + 2)
    ensures Sync(AddBits(AddBits(w1, lookback, lookbackBits), reps, repetitionBits),
                 ReadReference(r1, lookbackBits, repetitionBits).value.1, fin)
  {
    SyncValid(w1, r1, fin);
    var w2 := AddBits(w1, lookback, lookbackBits);
    AddBitsPrefix(w2, reps, repetitionBits, fin);
    ReadInSync(w1, r1, fin, lookback, lookbackBits);
    var r2 := ReadBits(r1, lookbackBits).value.1;
    ReadInSync(w2, r2, fin, reps, repetitionBits);
  }

  // ---------------------------------------------------------------------
  // Compressing

  /** Where one round of the `compress` loop leaves the input position
      and the writer. */
  datatype Progress = Progress(position: nat, writer: Writer)

  /** One round of the `compress` loop at `di` given the search result `m`:
      a copy becomes a repetition with lookback `di - offset - 1` and field
      `length - 2`; without one the byte is written as a literal. */
  function Step(data: seq<u8>, di: nat, lookbackBits: nat, repetitionBits: nat, w: Writer,
                m: Option<Sublist>): (p: Progress)
    requires di < |data| && Usable(data, di, lookbackBits, repetitionBits, m)
    ensures di < p.position <= |data|
    ensures |w.words| <= |p.writer.words| && p.writer.words[..|w.words|] == w.words
    ensures WriterValid(w) && lookbackBits <= 32 && repetitionBits <= 32 ==> WriterValid(p.writer)
  {
    match m
    case Some(copy) =>
      Progress(di + copy.length,
               WriteRepetition(w, di - copy.offset - 1, lookbackBits, copy.length - 2, repetitionBits))
    case None =>
      Progress(di + 1, WriteOriginalData(w, data[di]))
  }

  /** The `compress` loop from input position `di` with writer `w`. */
  function CompressFrom(data: seq<u8>, di: nat, lookbackBits: nat, repetitionBits: nat,
                        w: Writer): (w': Writer)
    requires di <= |data|
    ensures |w.words| <= |w'.words| && w'.words[..|w.words|] == w.words
    ensures WriterValid(w) && lookbackBits <= 32 && repetitionBits <= 32 ==> WriterValid(w')
    decreases |data| - di
  {
    if di == |data| then w
    else
      var p := Step(data, di, lookbackBits, repetitionBits, w, LongestMatch(data, di, lookbackBits, repetitionBits));
      var w' := CompressFrom(data, p.position, lookbackBits, repetitionBits, p.writer);
      assert w'.words[..|p.writer.words|][..|w.words|] == w'.words[..|w.words|];
      w'
  }

  /** `compress`: the token stream, flushed, as big-endian words. */
  function Compress(data: seq<u8>, lookbackBits: nat, repetitionBits: nat): (res: Result<seq<u8>>)
    ensures lookbackBits <= 32 && repetitionBits <= 32 ==> res.Ok?
    ensures res.Ok? ==> |res.value| % 4 == 0
  {
    EmptyValid();
    Finish(CompressFrom(data, 0, lookbackBits, repetitionBits, Empty))
  }

  lemma {:induction false} EmptyValid()
    ensures WriterValid(Empty)
  {
  }

  /** The end of `compress`: flush and convert the words to bytes. */
  function Finish(w: Writer): (res: Result<seq<u8>>)
    ensures WriterValid(w) ==> res.Ok?
    ensures res.Ok? ==> |res.value| == 4 * |Flush(w).words| && |res.value| % 4 == 0
  {
    MultipleOfFour(|Flush(w).words|);
    ToByteArray(Flush(w).words)
  }

  lemma {:induction false} MultipleOfFour(k: nat)
    ensures (4 * k) % 4 == 0
  {
  }

  // ---------------------------------------------------------------------
  // Round trip

  /** Copying `count` bytes from `distance + 1` back reproduces the input
      when the input ahead repeats the bytes that far back. */
  lemma {:induction false} CopyBackMatch(data: seq<u8>, n: nat, distance: nat, count: nat)
    requires distance < n && n + count <= |data|
    requires forall j :: n <= j < n + count ==> data[j] == data[j - distance - 1]
    ensures CopyBack(data[..n], distance, count) == data[..n + count]
    decreases count
  {
    if count > 0 {
      assert data[..n] + [data[..n][n - 1 - distance]] == data[..n + 1];
      CopyBackMatch(data, n + 1, distance, count - 1);
    }
  }

  /** A copy found by the search is a repetition the decoder resolves to the
      input itself. */
  lemma {:induction false} CopyAtMatch(data: seq<u8>, di: nat, m: Sublist)
    requires m.offset < di && CopyAt(data, m.offset, di, m.length)
    ensures di + m.length <= |data|
    ensures CopyBack(data[..di], di - m.offset - 1, m.length) == data[..di + m.length]
  {
    forall j | di <= j < di + m.length ensures data[j] == data[j - (di - m.offset - 1) - 1] {
      assert data[m.offset..m.offset + m.length][j - di] == data[di..di + m.length][j - di];
    }
    CopyBackMatch(data, di, di - m.offset - 1, m.length);
  }

  /** A writer the rest of the loop turns into one that can become `fin`
      can itself become `fin`. */
  lemma {:induction false} CompressPrefix(data: seq<u8>, di: nat, lookbackBits: nat, repetitionBits: nat,
                                          w: Writer, fin: seq<nat>)
    requires di <= |data| && lookbackBits <= 32 && repetitionBits <= 32 && WriterValid(w)
    requires PrefixOf(CompressFrom(data, di, lookbackBits, repetitionBits, w), fin)
    ensures PrefixOf(w, fin)
    decreases |data| - di
  {
    if di < |data| {
      var m := LongestMatch(data, di, lookbackBits, repetitionBits);
      var p := Step(data, di, lookbackBits, repetitionBits, w, m);
      CompressPrefix(data, p.position, lookbackBits, repetitionBits, p.writer, fin);
      StepPrefix(data, di, lookbackBits, repetitionBits, w, m, fin);
    }
  }

  lemma {:induction false} StepPrefix(data: seq<u8>, di: nat, lookbackBits: nat, repetitionBits: nat,
                   w: Writer, m: Option<Sublist>, fin: seq<nat>)
    requires di < |data| && lookbackBits <= 32 && repetitionBits <= 32 && WriterValid(w)
    requires Usable(data, di, lookbackBits, repetitionBits, m)
    requires PrefixOf(Step(data, di, lookbackBits, repetitionBits, w, m).writer, fin)
    ensures PrefixOf(w, fin)
  {
    match m
    case Some(copy) =>
      RepetitionPrefix(w, di - copy.offset - 1, lookbackBits, copy.length - 2, repetitionBits, fin);
    case None =>
      LiteralPrefix(w, data[di], fin);
  }

  /** The words `compress` ends with when it continues from `di` with
      writer `w`. */
  function FinalWords(data: seq<u8>, di: nat, lookbackBits: nat, repetitionBits: nat, w: Writer): seq<nat>
    requires di <= |data|
  {
    Flush(CompressFrom(data, di, lookbackBits, repetitionBits, w)).words
  }

  /** The induction of the round trip: a reader standing where the writer
      stood after the first `di` input bytes decodes the rest of the input,
      asked for exactly `|data|` bytes, and ends at the end of the words. */
  lemma {:induction false} DecodeCompressed(data: seq<u8>, di: nat, lookbackBits: nat,
                                            repetitionBits: nat, w: Writer, r: Reader)
    requires di <= |data| && lookbackBits <= 32 && repetitionBits <= 32
    requires WriterValid(w) && Sync(w, r, FinalWords(data, di, lookbackBits, repetitionBits, w))
    ensures Valid(r)
    ensures var d := DecodeFrom(r, data[..di], lookbackBits, repetitionBits, Some(|data|));
      d.Ok? && d.value.0 == data && d.value.1.byteIndex == |r.data|
    decreases |data| - di
  {
    var fin := FinalWords(data, di, lookbackBits, repetitionBits, w);
    SyncValid(w, r, fin);
    if di == |data| {
      assert data[..di] == data;
      SyncEnd(w, r);
    } else {
      var m := LongestMatch(data, di, lookbackBits, repetitionBits);
      var p := Step(data, di, lookbackBits, repetitionBits, w, m);
      assert fin == FinalWords(data, p.position, lookbackBits, repetitionBits, p.writer);
      FlushPrefix(CompressFrom(data, p.position, lookbackBits, repetitionBits, p.writer));
      CompressPrefix(data, p.position, lookbackBits, repetitionBits, p.writer, fin);
      StepReadsBack(data, di, lookbackBits, repetitionBits, w, m, r, fin, p);
      var r' := ReadToken(r, lookbackBits, repetitionBits).value.1;
      EmittedReproduces(data, di, lookbackBits, repetitionBits, w, m);
      DecodeApply(r, data[..di], lookbackBits, repetitionBits, Some(|data|), Emitted(data, di, m), r');
      DecodeCompressed(data, p.position, lookbackBits, repetitionBits, p.writer, r');
    }
  }

  /** The token one round of the loop writes. */
  function Emitted(data: seq<u8>, di: nat, m: Option<Sublist>): Token
    requires di < |data| && (m.Some? ==> m.value.offset < di)
  {
    match m
    case Some(copy) => Reference(di - copy.offset - 1, copy.length)
    case None => Literal(data[di])
  }

  /** What decoding one token appends to the output. */
  function Apply(out: seq<u8>, token: Token): seq<u8>
    requires token.Reference? ==> token.distance < |out|
  {
    match token
    case Literal(byte) => out + [byte]
    case Reference(distance, length) => CopyBack(out, distance, length)
  }

  /** One round of the loop, read back: the token it wrote is the next
      token the reader finds, and the reader then stands where the writer
      does. */
  lemma {:induction false} StepReadsBack(data: seq<u8>, di: nat, lookbackBits: nat, repetitionBits: nat,
                      w: Writer, m: Option<Sublist>, r: Reader, fin: seq<nat>, p: Progress)
    requires di < |data| && lookbackBits <= 32 && repetitionBits <= 32
    requires Usable(data, di, lookbackBits, repetitionBits, m)
    requires WriterValid(w) && Sync(w, r, fin)
    requires p == Step(data, di, lookbackBits, repetitionBits, w, m) && PrefixOf(p.writer, fin)
    ensures Valid(r) && ReadToken(r, lookbackBits, repetitionBits).Ok?
    ensures ReadToken(r, lookbackBits, repetitionBits).value.0 == Emitted(data, di, m)
    ensures Sync(p.writer, ReadToken(r, lookbackBits, repetitionBits).value.1, fin)
  {
    match m
    case Some(copy) =>
      RepetitionReadsBack(w, r, fin, di - copy.offset - 1, lookbackBits, copy.length - 2, repetitionBits, p.writer);
    case None =>
      LiteralReadsBack(w, r, fin, data[di], lookbackBits, repetitionBits, p.writer);
  }

  /** Decoding the token a round wrote appends exactly the input bytes the
      round consumed. */
  lemma {:induction false} EmittedReproduces(data: seq<u8>, di: nat, lookbackBits: nat, repetitionBits: nat,
                          w: Writer, m: Option<Sublist>)
    requires di < |data| && Usable(data, di, lookbackBits, repetitionBits, m)
    ensures var t := Emitted(data, di, m); t.Reference? ==> t.distance < di
    ensures Apply(data[..di], Emitted(data, di, m))
      == data[..Step(data, di, lookbackBits, repetitionBits, w, m).position]
  {
    match m
    case Some(copy) => CopyAtMatch(data, di, copy);
    case None => assert data[..di] + [data[di]] == data[..di + 1];
  }

  /** Decoding one token read by the decoder's loop continues with the
      output that token produces. */
  lemma {:induction false} DecodeApply(r: Reader, out: seq<u8>, lookbackBits: nat, repetitionBits: nat,
                    originalSize: Option<nat>, token: Token, r': Reader)
    requires Valid(r) && KeepGoing(r, |out|, originalSize)
    requires ReadToken(r, lookbackBits, repetitionBits) == Ok((token, r'))
    requires token.Reference? ==> token.distance < |out|
    ensures Valid(r')
    ensures DecodeFrom(r, out, lookbackBits, repetitionBits, originalSize)
      == DecodeFrom(r', Apply(out, token), lookbackBits, repetitionBits, originalSize)
  {
    if token.Literal? {
      DecodeLiteralStep(r, out, lookbackBits, repetitionBits, originalSize, token, r');
    } else {
      DecodeCopyStep(r, out, lookbackBits, repetitionBits, originalSize, token, r');
    }
  }

  /** Round trip: decompressing what `compress` produced, with the same
      widths and the original size, gives back the original bytes, and the
      reader consumes every word. Widths up to 32 bits are covered; 0/0
      would select the stored mode. */
  lemma {:induction false} CompressRoundTrip(data: seq<u8>, lookbackBits: nat, repetitionBits: nat)
    requires lookbackBits <= 32 && repetitionBits <= 32 && !Stored(lookbackBits, repetitionBits)
    ensures Compress(data, lookbackBits, repetitionBits).Ok?
    ensures var c := Compress(data, lookbackBits, repetitionBits).value;
      Decompress(Decompressor(c, lookbackBits, repetitionBits, Some(|data|))) == Ok(Decoded(data, |c|))
  {
    var fin := FinalWords(data, 0, lookbackBits, repetitionBits, Empty);
    SyncStart(fin);
    var c := Concat4(fin);
    assert data[..0] == [];
    DecodeCompressed(data, 0, lookbackBits, repetitionBits, Empty, Start(c));
  }

  /** What `compress` produces passes `is_valid_decompression`. */
  lemma {:induction false} CompressedIsValid(data: seq<u8>, lookbackBits: nat, repetitionBits: nat)
    requires lookbackBits <= 32 && repetitionBits <= 32 && !Stored(lookbackBits, repetitionBits)
    ensures Compress(data, lookbackBits, repetitionBits).Ok?
    ensures var c := Compress(data, lookbackBits, repetitionBits).value;
      IsValidDecompression(Decompressor(c, lookbackBits, repetitionBits, Some(|data|))) == Ok(true)
  {
    CompressRoundTrip(data, lookbackBits, repetitionBits);
    var c := Compress(data, lookbackBits, repetitionBits).value;
    IsValidIffDecompresses(Decompressor(c, lookbackBits, repetitionBits, Some(|data|)));
  }

  // ---------------------------------------------------------------------
  // Output size

  /** The bits one token takes: the flag and the byte, or the flag and the
      two fields. */
  function TokenBits(m: Option<Sublist>, lookbackBits: nat, repetitionBits: nat): nat {
    if m.Some? then 1 + lookbackBits + repetitionBits else 9
  }

  /** Where the input position moves after a round with search result `m`. */
  function NextPosition(di: nat, m: Option<Sublist>): nat {
    match m
    case Some(copy) => di + copy.length
    case None => di + 1
  }

  /** The bits the loop writes from input position `di` on. */
  function EncodedBits(data: seq<u8>, di: nat, lookbackBits: nat, repetitionBits: nat): nat
    requires di <= |data|
    decreases |data| - di
  {
    if di == |data| then 0
    else
      var m := LongestMatch(data, di, lookbackBits, repetitionBits);
      TokenBits(m, lookbackBits, repetitionBits)
        + EncodedBits(data, NextPosition(di, m), lookbackBits, repetitionBits)
  }

  lemma {:induction false} StepBits(data: seq<u8>, di: nat, lookbackBits: nat, repetitionBits: nat, w: Writer,
                 m: Option<Sublist>)
    requires di < |data| && Usable(data, di, lookbackBits, repetitionBits, m)
    requires WriterValid(w) && lookbackBits <= 32 && repetitionBits <= 32
    ensures var p := Step(data, di, lookbackBits, repetitionBits, w, m);
      && WrittenBits(p.writer) == WrittenBits(w) + TokenBits(m, lookbackBits, repetitionBits)
      && p.position == NextPosition(di, m)
  {
    match m
    case Some(copy) =>
      var w1 := AddBits(w, 0, 1);
      var w2 := AddBits(w1, di - copy.offset - 1, lookbackBits);
      AddBitsCount(w, 0, 1);
      AddBitsCount(w1, di - copy.offset - 1, lookbackBits);
      AddBitsCount(w2, copy.length - 2, repetitionBits);
    case None =>
      Pow2Byte();
      AddBitsCount(w, 1, 1);
      AddBitsCount(AddBits(w, 1, 1), data[di], 8);
  }

  /** The loop adds exactly `EncodedBits` bits to the writer. */
  lemma {:induction false} CompressBits(data: seq<u8>, di: nat, lookbackBits: nat, repetitionBits: nat,
                                        w: Writer)
    requires di <= |data| && WriterValid(w) && lookbackBits <= 32 && repetitionBits <= 32
    ensures WrittenBits(CompressFrom(data, di, lookbackBits, repetitionBits, w))
      == WrittenBits(w) + EncodedBits(data, di, lookbackBits, repetitionBits)
    decreases |data| - di
  {
    if di < |data| {
      var m := LongestMatch(data, di, lookbackBits, repetitionBits);
      var p := Step(data, di, lookbackBits, repetitionBits, w, m);
      StepBits(data, di, lookbackBits, repetitionBits, w, m);
      CompressBits(data, p.position, lookbackBits, repetitionBits, p.writer);
    }
  }

  /** `compress` pads the bits it writes to whole 4-byte words: the output
      holds every bit and less than one word of padding. */
  lemma {:induction false} CompressSize(data: seq<u8>, lookbackBits: nat, repetitionBits: nat)
    requires lookbackBits <= 32 && repetitionBits <= 32
    ensures Compress(data, lookbackBits, repetitionBits).Ok?
    ensures var size, bits := |Compress(data, lookbackBits, repetitionBits).value|,
                              EncodedBits(data, 0, lookbackBits, repetitionBits);
      size % 4 == 0 && 8 * size - 32 < bits <= 8 * size
  {
    EmptyValid();
    CompressBits(data, 0, lookbackBits, repetitionBits, Empty);
    FinishSize(CompressFrom(data, 0, lookbackBits, repetitionBits, Empty));
  }

  lemma {:induction false} FinishSize(w: Writer)
    requires WriterValid(w)
    ensures Finish(w).Ok?
    ensures var size := |Finish(w).value|;
      size % 4 == 0 && 8 * size - 32 < WrittenBits(w) <= 8 * size
  {
    FlushCount(w);
  }

  /** The smallest multiple of four bytes holding `bits` bits. */
  lemma {:induction false} PaddedSize(bits: nat, size: nat)
    requires size % 4 == 0 && 8 * size - 32 < bits <= 8 * size
    ensures size == 4 * ((bits + 31) / 32)
  {
    DivModUnique(bits + 31, 32, size / 4, bits + 31 - 8 * size);
  }

  /** With no usable copy anywhere, every byte costs nine bits. */
  lemma {:induction false} LiteralBits(data: seq<u8>, di: nat, lookbackBits: nat, repetitionBits: nat)
    requires di <= |data|
    requires forall i | di <= i < |data| :: LongestMatch(data, i, lookbackBits, repetitionBits).None?
    ensures EncodedBits(data, di, lookbackBits, repetitionBits) == 9 * (|data| - di)
    decreases |data| - di
  {
    if di < |data| {
      LiteralBits(data, di + 1, lookbackBits, repetitionBits);
    }
  }

  /** An input compressed entirely as literals takes the fewest whole
      words that hold nine bits per byte, which `PaddedSize` turns into
      `4 * ceil(9n / 32)` bytes. */
  lemma {:induction false} AllLiteralSize(data: seq<u8>, lookbackBits: nat, repetitionBits: nat)
    requires lookbackBits <= 32 && repetitionBits <= 32
    requires forall i | 0 <= i < |data| :: LongestMatch(data, i, lookbackBits, repetitionBits).None?
    ensures Compress(data, lookbackBits, repetitionBits).Ok?
    ensures var size := |Compress(data, lookbackBits, repetitionBits).value|;
      size % 4 == 0 && 8 * size - 32 < 9 * |data| <= 8 * size
  {
    CompressSize(data, lookbackBits, repetitionBits);
    LiteralBits(data, 0, lookbackBits, repetitionBits);
  }
}
