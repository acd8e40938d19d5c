/** The scans of `FingerPrintSearcher` for compression-table entries.

    A compressed entry starts with the bytes `00 00 rb lb` (the two pad
    bytes and the two bit widths); an entry of stored data starts with four
    zero bytes, which are its pads, its zero widths and the high byte of
    its size word. Each scan looks for the marker, decodes an entry at
    every hit and keeps the plausible ones.

    The source re-slices the buffer after every hit (`d = d[ind + k:]`)
    and searches the slice again. Here the slice `d` is `data[start..]`
    and positions are absolute: `FindSlice` and `DecodeSlice` show that
    searching and decoding the slice is searching and decoding `data` at
    `start` plus the position in the slice.
 */
module Fingerprint {
  import opened Bits
  import opened Wrappers
  import opened Compressor
  import opened Entry

  // ---------------------------------------------------------------------
  // Slices

  /** `d.find(needle)` on `d = data[start:]`, in terms of `data`. */
  lemma {:induction false} FindSlice(data: seq<u8>, needle: seq<u8>, start: nat)
    requires start <= |data|
    ensures var p := FindFrom(data, needle, start);
      Find(data[start..], needle) == (if p < 0 then -1 else p - start)
  {
    FindSliceFrom(data, needle, start, 0);
  }

  lemma {:induction false} FindSliceFrom(data: seq<u8>, needle: seq<u8>, start: nat, j: nat)
    requires start + j <= |data|
    ensures var p := FindFrom(data, needle, start + j);
      FindFrom(data[start..], needle, j) == (if p < 0 then -1 else p - start)
    decreases |data| - start - j
  {
    var d := data[start..];
    if j + |needle| <= |d| {
      assert d[j..j + |needle|] == data[start + j..start + j + |needle|];
      if d[j..j + |needle|] != needle {
        FindSliceFrom(data, needle, start, j + 1);
      }
    }
  }

  /** `DataEntry(d, ind)` on `d = data[start:]` is the entry at `start + ind`. */
  lemma {:induction false} DecodeSlice(data: seq<u8>, start: nat, ind: nat, file: string)
    requires start <= |data|
    ensures Decode(data[start..], ind, file) == Decode(data, start + ind, file)
  {
    if start + ind + EntrySize <= |data| {
      SliceOfSlice(data, start, ind, EntrySize);
      DecodeSameBytes(data[start..], ind, data, start + ind, file);
    } else {
      var r := Decode(data[start..], ind, file);
      var t := Decode(data, start + ind, file);
      assert r.Err? && r.error == OutOfBytes;
      assert t.Err? && t.error == OutOfBytes;
    }
  }

  lemma {:induction false} SliceOfSlice(data: seq<u8>, start: nat, i: nat, n: nat)
    requires start + i + n <= |data|
    ensures data[start..][i..i + n] == data[start + i..start + i + n]
  {
  }

  /** A hit of `FindFrom` is a match at or after `from`. */
  lemma {:induction false} Hit(data: seq<u8>, needle: seq<u8>, from: nat)
    ensures var p := FindFrom(data, needle, from);
      p >= 0 ==> from <= p && MatchAt(data, needle, p)
  {
    FindFromFirst(data, needle, from);
  }

  /** A match at `q` means `FindFrom` hits at or before `q`. */
  lemma {:induction false} HitBefore(data: seq<u8>, needle: seq<u8>, from: nat, q: nat)
    requires from <= q && MatchAt(data, needle, q)
    ensures var p := FindFrom(data, needle, from);
      0 <= p <= q && MatchAt(data, needle, p)
  {
    FindFromFirst(data, needle, from);
  }

  /** The bytes of a match. */
  lemma {:induction false} MatchBytes(data: seq<u8>, needle: seq<u8>, p: nat, k: nat)
    requires MatchAt(data, needle, p) && k < |needle|
    ensures data[p + k] == needle[k]
  {
    assert data[p..p + |needle|][k] == data[p + k];
  }

  // ---------------------------------------------------------------------
  // search_compression

  /** `((repetitions << 8) | lookback).to_bytes(4, 'big')`; a value that
      does not fit four bytes is an OverflowError. */
  function CompressionMarker(lookbackBits: nat, repetitionBits: nat): (res: Result<seq<u8>>)
    ensures res.Ok? ==> |res.value| == 4
    ensures res.Err? ==> res.error == Overflow
  {
    Pow2Values();
    var word := Or(Shl(repetitionBits, 8), lookbackBits);
    if word >= 0x1_0000_0000 then Err(Overflow) else Ok(WordBytes(word))
  }

  /** For byte-sized widths the marker is `00 00 rb lb`. */
  lemma {:induction false} MarkerBytes(lookbackBits: nat, repetitionBits: nat)
    requires lookbackBits < 256 && repetitionBits < 256
    ensures CompressionMarker(lookbackBits, repetitionBits) == Ok([0, 0, repetitionBits, lookbackBits])
  {
    MarkerWord(lookbackBits, repetitionBits);
    MarkerWordBytes(lookbackBits, repetitionBits);
  }

  lemma {:induction false} MarkerWord(lookbackBits: nat, repetitionBits: nat)
    requires lookbackBits < 256 && repetitionBits < 256
    ensures Or(Shl(repetitionBits, 8), lookbackBits) == lookbackBits + repetitionBits * 256
  {
    Pow2Values();
    OrDisjoint(lookbackBits, repetitionBits, 8);
    OrComm(repetitionBits * 256, lookbackBits);
  }

  lemma {:induction false} MarkerWordBytes(lookbackBits: nat, repetitionBits: nat)
    requires lookbackBits < 256 && repetitionBits < 256
    ensures WordBytes(lookbackBits + repetitionBits * 256) == [0, 0, repetitionBits, lookbackBits]
  {
    var word := lookbackBits + repetitionBits * 256;
    DivModUnique(word, 256, repetitionBits, lookbackBits);
    DivModUnique(word, 0x1_0000, 0, word);
    DivModUnique(word, 0x100_0000, 0, word);
  }

  /** The location test both scans apply: a non-zero multiple of 0x800. */
  predicate Aligned(e: DataEntry) {
    e.diskLocation % SectorSize == 0 && e.diskLocation != 0
  }

  /** Positions, all of them matches of `marker` with a whole entry after
      them, in increasing order from `start`. */
  predicate Visits(data: seq<u8>, marker: seq<u8>, start: nat, hits: seq<nat>) {
    && (forall i :: 0 <= i < |hits| ==> start <= hits[i] && hits[i] + EntrySize <= |data| && MatchAt(data, marker, hits[i]))
    && (forall i, j :: 0 <= i < j < |hits| ==> hits[i] < hits[j])
  }

  /** The positions the loop of `search_compression` decodes, from
      `d = data[start:]` on. As written (`atStart` false) the loop goes on
      only while the hit is past the start of the slice (`ind > 0`); the
      corrected loop (`atStart` true) also takes a hit at the very start
      (`ind >= 0`). The loop stops once the slice is shorter than an
      entry; a hit whose entry runs past the end is a ValueError. */
  function Hits(data: seq<u8>, marker: seq<u8>, start: nat, atStart: bool): (res: Result<seq<nat>>)
    requires |marker| == 4 && start <= |data|
    ensures res.Err? ==> res.error == OutOfBytes
    ensures res.Ok? ==> Visits(data, marker, start, res.value)
    decreases |data| - start
  {
    var p := FindFrom(data, marker, start);
    if p < 0 || (p == start && !atStart) || |data| - start < EntrySize then Ok([])
    else if |data| < p + EntrySize then Err(OutOfBytes)
    else
      Hit(data, marker, start);
      var rest :- Hits(data, marker, p + 4, atStart);
      Ok([p] + rest)
  }

  /** The entries decoded at `hits` that pass the scan's test. */
  function Decoded(data: seq<u8>, file: string, hits: seq<nat>, stored: bool): (found: set<DataEntry>)
    requires forall i :: 0 <= i < |hits| ==> hits[i] + EntrySize <= |data|
  {
    set i | 0 <= i < |hits| && Keep(Decode(data, hits[i], file).value, stored) :: Decode(data, hits[i], file).value
  }

  /** The test applied to a decoded entry: alignment for compressed
      entries, `StoredLooking` for stored data. */
  predicate Keep(e: DataEntry, stored: bool) {
    if stored then StoredLooking(e) else Aligned(e)
  }

  /** An entry is kept exactly when it decodes at one of the hits and
      passes the test. */
  lemma {:induction false} DecodedIs(data: seq<u8>, file: string, hits: seq<nat>, stored: bool, e: DataEntry)
    requires forall i :: 0 <= i < |hits| ==> hits[i] + EntrySize <= |data|
    ensures e in Decoded(data, file, hits, stored) <==>
      exists i :: 0 <= i < |hits| && Decode(data, hits[i], file) == Ok(e) && Keep(e, stored)
  {
    if e in Decoded(data, file, hits, stored) {
      var i :| 0 <= i < |hits| && Keep(Decode(data, hits[i], file).value, stored) && e == Decode(data, hits[i], file).value;
      assert Decode(data, hits[i], file) == Ok(e);
    }
  }

  /** The hit a kept entry was decoded at. */
  lemma {:induction false} DecodedAt(data: seq<u8>, file: string, hits: seq<nat>, stored: bool, e: DataEntry) returns (i: nat)
    requires forall i :: 0 <= i < |hits| ==> hits[i] + EntrySize <= |data|
    requires e in Decoded(data, file, hits, stored)
    ensures i < |hits| && Decode(data, hits[i], file) == Ok(e) && Keep(e, stored)
  {
    DecodedIs(data, file, hits, stored, e);
    i :| 0 <= i < |hits| && Decode(data, hits[i], file) == Ok(e) && Keep(e, stored);
  }

  /** The entry decoded at a marker carries the marker's widths. */
  lemma {:induction false} WidthsAt(data: seq<u8>, marker: seq<u8>, p: nat, file: string)
    requires |marker| == 4 && p + EntrySize <= |data| && MatchAt(data, marker, p)
    ensures Decode(data, p, file).Ok?
    ensures Decode(data, p, file).value.repetitionBits == marker[2] as nat
    ensures Decode(data, p, file).value.lookbackBits == marker[3] as nat
  {
    DecodeWidths(data, p, file);
    MatchBytes(data, marker, p, 2);
    MatchBytes(data, marker, p, 3);
  }

  /** `search_compression(lookback, repetitions)` as written. */
  function SearchCompressionAsWritten(data: seq<u8>, file: string, lookbackBits: nat, repetitionBits: nat)
    : (res: Result<set<DataEntry>>)
    ensures res.Err? ==> res.error in {Overflow, OutOfBytes}
  {
    var marker :- CompressionMarker(lookbackBits, repetitionBits);
    var hits :- Hits(data, marker, 0, false);
    Ok(Decoded(data, file, hits, false))
  }

  /** `search_compression` with the loop condition `ind >= 0`. */
  function SearchCompression(data: seq<u8>, file: string, lookbackBits: nat, repetitionBits: nat)
    : (res: Result<set<DataEntry>>)
    ensures res.Err? ==> res.error in {Overflow, OutOfBytes}
  {
    var marker :- CompressionMarker(lookbackBits, repetitionBits);
    var hits :- Hits(data, marker, 0, true);
    Ok(Decoded(data, file, hits, false))
  }

  /** Every entry found carries the widths searched for, an aligned
      non-zero location, the file name and fields in range. */
  lemma {:induction false} SearchCompressionFinds(data: seq<u8>, file: string, lookbackBits: nat, repetitionBits: nat, e: DataEntry)
    requires lookbackBits < 256 && repetitionBits < 256
    requires SearchCompression(data, file, lookbackBits, repetitionBits).Ok?
    requires e in SearchCompression(data, file, lookbackBits, repetitionBits).value
    ensures e.lookbackBits == lookbackBits && e.repetitionBits == repetitionBits
    ensures Aligned(e) && e.file == file && Fits(e)
  {
    MarkerBytes(lookbackBits, repetitionBits);
    var marker: seq<u8> := [0, 0, repetitionBits as u8, lookbackBits as u8];
    var hits := Hits(data, marker, 0, true).value;
    var i := DecodedAt(data, file, hits, false, e);
    WidthsAt(data, marker, hits[i], file);
  }

  /** With both widths non-zero two markers cannot overlap. */
  lemma {:induction false} MarkersApart(data: seq<u8>, marker: seq<u8>, p: nat, q: nat)
    requires |marker| == 4 && marker[0] == 0 && marker[1] == 0 && marker[2] != 0 && marker[3] != 0
    requires MatchAt(data, marker, p) && MatchAt(data, marker, q) && p < q
    ensures p + 4 <= q
  {
  }

  /** The corrected loop visits every marker at or after `start` that has
      a whole entry after it. */
  lemma {:induction false} HitsComplete(data: seq<u8>, marker: seq<u8>, start: nat, q: nat)
    requires |marker| == 4 && marker[0] == 0 && marker[1] == 0 && marker[2] != 0 && marker[3] != 0
    requires start <= q && q + EntrySize <= |data| && MatchAt(data, marker, q)
    requires Hits(data, marker, start, true).Ok?
    ensures q in Hits(data, marker, start, true).value
    decreases |data| - start
  {
    var p := FindFrom(data, marker, start);
    Hit(data, marker, start);
    HitBefore(data, marker, start, q);
    var rest := Hits(data, marker, p + 4, true);
    assert Hits(data, marker, start, true) == Ok([p] + rest.value);
    if p < q {
      MarkersApart(data, marker, p, q);
      HitsComplete(data, marker, p + 4, q);
    }
  }

  /** For non-zero byte-sized widths the corrected search keeps exactly the
      aligned entries decoded at the markers. */
  lemma {:induction false} SearchCompressionIs(data: seq<u8>, file: string, lookbackBits: nat, repetitionBits: nat, e: DataEntry)
    requires 0 < lookbackBits < 256 && 0 < repetitionBits < 256
    requires SearchCompression(data, file, lookbackBits, repetitionBits).Ok?
    ensures e in SearchCompression(data, file, lookbackBits, repetitionBits).value <==>
      exists q :: 0 <= q && q + EntrySize <= |data| && MatchAt(data, [0, 0, repetitionBits as u8, lookbackBits as u8], q)
                  && Decode(data, q, file) == Ok(e) && Aligned(e)
  {
    MarkerBytes(lookbackBits, repetitionBits);
    var marker: seq<u8> := [0, 0, repetitionBits as u8, lookbackBits as u8];
    var hits := Hits(data, marker, 0, true).value;
    DecodedIs(data, file, hits, false, e);
    if q :| 0 <= q && q + EntrySize <= |data| && MatchAt(data, marker, q)
            && Decode(data, q, file) == Ok(e) && Aligned(e) {
      HitsComplete(data, marker, 0, q);
      var i :| 0 <= i < |hits| && hits[i] == q;
    }
  }

  /** Where both succeed, the loop as written visits a prefix of what the
      corrected loop visits: the two agree until the one as written stops. */
  lemma {:induction false} HitsAsWrittenPrefix(data: seq<u8>, marker: seq<u8>, start: nat)
    requires |marker| == 4 && start <= |data|
    requires Hits(data, marker, start, false).Ok? && Hits(data, marker, start, true).Ok?
    ensures Hits(data, marker, start, false).value <= Hits(data, marker, start, true).value
    decreases |data| - start
  {
    var p := FindFrom(data, marker, start);
    Hit(data, marker, start);
    if p >= 0 && p > start && |data| - start >= EntrySize {
      HitsAsWrittenPrefix(data, marker, p + 4);
    }
  }

  /** Decoding more positions keeps everything found before. */
  lemma {:induction false} DecodedMonotone(data: seq<u8>, file: string, early: seq<nat>, late: seq<nat>, stored: bool)
    requires early <= late && forall i :: 0 <= i < |late| ==> late[i] + EntrySize <= |data|
    ensures Decoded(data, file, early, stored) <= Decoded(data, file, late, stored)
  {
    forall e | e in Decoded(data, file, early, stored)
      ensures e in Decoded(data, file, late, stored)
    {
      DecodedIs(data, file, early, stored, e);
      var i :| 0 <= i < |early| && Decode(data, early[i], file) == Ok(e) && Keep(e, stored);
      assert late[i] == early[i];
      DecodedIs(data, file, late, stored, e);
    }
  }

  /** Where both succeed, the search as written finds a subset of what the
      corrected search finds. */
  lemma {:induction false} SearchCompressionAsWrittenWithin(data: seq<u8>, file: string, lookbackBits: nat, repetitionBits: nat)
    requires SearchCompressionAsWritten(data, file, lookbackBits, repetitionBits).Ok?
    requires SearchCompression(data, file, lookbackBits, repetitionBits).Ok?
    ensures SearchCompressionAsWritten(data, file, lookbackBits, repetitionBits).value
            <= SearchCompression(data, file, lookbackBits, repetitionBits).value
  {
    var marker := CompressionMarker(lookbackBits, repetitionBits).value;
    HitsAsWrittenPrefix(data, marker, 0);
    DecodedMonotone(data, file, Hits(data, marker, 0, false).value, Hits(data, marker, 0, true).value, false);
  }

  /** A marker at the very start of the data ends the loop as written
      before anything is decoded, while the corrected loop decodes there. */
  lemma {:induction false} HitsMissStart(data: seq<u8>, marker: seq<u8>)
    requires |marker| == 4 && EntrySize <= |data| && MatchAt(data, marker, 0)
    ensures Hits(data, marker, 0, false) == Ok([])
    ensures Hits(data, marker, 0, true).Ok? ==> Hits(data, marker, 0, true).value[..1] == [0]
  {
    HitBefore(data, marker, 0, 0);
  }

  /** Concretely: for a buffer holding one entry with widths (11, 4) the
      loop as written decodes nothing and the corrected loop decodes it. */
  lemma {:induction false} HitsMissStartExample()
    ensures var data: seq<u8> := [0, 0, 4, 11, 0, 0, 0, 16, 0, 0, 8, 0, 0, 0, 0, 8];
      && Hits(data, [0, 0, 4, 11], 0, false) == Ok([])
      && Hits(data, [0, 0, 4, 11], 0, true) == Ok([0])
  {
    var data: seq<u8> := [0, 0, 4, 11, 0, 0, 0, 16, 0, 0, 8, 0, 0, 0, 0, 8];
    var marker: seq<u8> := [0, 0, 4, 11];
    assert MatchAt(data, marker, 0);
    HitsMissStart(data, marker);
    HitBefore(data, marker, 0, 0);
    assert FindFrom(data, marker, 0) == 0;
    assert Hits(data, marker, 4, true) == Ok([]);
    assert Hits(data, marker, 0, true) == Ok([0] + []);
    assert [0] + [] == [0];
  }

  // ---------------------------------------------------------------------
  // search_uncompressed

  /** How far the compressed and decompressed sizes of stored data may differ. */
  const Epsilon: nat := 3

  /** `abs(a - b)`. */
  function Distance(a: int, b: int): nat {
    if a >= b then a - b else b - a
  }

  /** The test `search_uncompressed` applies to a decoded entry. */
  predicate StoredLooking(e: DataEntry) {
    Aligned(e) && e.compressedSize > 0 && e.originalSize > 0
    && Distance(e.compressedSize, e.originalSize) <= Epsilon
  }

  /** `(0).to_bytes(4, 'big')`. */
  const Zeros: seq<u8> := [0, 0, 0, 0]

  /** The positions the loop of `search_uncompressed` decodes, from
      `d = data[start:]` on: it goes on while a hit leaves a whole entry,
      and resumes one byte after the hit. */
  function StoredHits(data: seq<u8>, start: nat): (hits: seq<nat>)
    requires start <= |data|
    ensures Visits(data, Zeros, start, hits)
    decreases |data| - start
  {
    var p := FindFrom(data, Zeros, start);
    if p < 0 || |data| - p < EntrySize then []
    else
      Hit(data, Zeros, start);
      [p] + StoredHits(data, p + 1)
  }

  /** `search_uncompressed()`. */
  function SearchUncompressed(data: seq<u8>, file: string): (found: set<DataEntry>)
    ensures forall e :: e in found ==> StoredLooking(e) && Fits(e) && e.file == file
  {
    var hits := StoredHits(data, 0);
    var found := Decoded(data, file, hits, true);
    assert forall e :: e in found ==> StoredLooking(e) && Fits(e) && e.file == file by {
      forall e | e in found ensures StoredLooking(e) && Fits(e) && e.file == file {
        DecodedIs(data, file, hits, true, e);
      }
    }
    found
  }

  /** The stored-data loop visits every zero word with a whole entry after it. */
  lemma {:induction false} StoredHitsComplete(data: seq<u8>, start: nat, q: nat)
    requires start <= q && q + EntrySize <= |data| && MatchAt(data, Zeros, q)
    ensures q in StoredHits(data, start)
    decreases |data| - start
  {
    var p := FindFrom(data, Zeros, start);
    Hit(data, Zeros, start);
    HitBefore(data, Zeros, start, q);
    assert StoredHits(data, start) == [p] + StoredHits(data, p + 1);
    if p < q {
      StoredHitsComplete(data, p + 1, q);
    }
  }

  /** The scan keeps exactly the stored-looking entries decoded at zero words. */
  lemma {:induction false} SearchUncompressedIs(data: seq<u8>, file: string, e: DataEntry)
    ensures e in SearchUncompressed(data, file) <==>
      exists q :: 0 <= q && q + EntrySize <= |data| && MatchAt(data, Zeros, q)
                  && Decode(data, q, file) == Ok(e) && StoredLooking(e)
  {
    var hits := StoredHits(data, 0);
    DecodedIs(data, file, hits, true, e);
    if q :| 0 <= q && q + EntrySize <= |data| && MatchAt(data, Zeros, q)
            && Decode(data, q, file) == Ok(e) && StoredLooking(e) {
      StoredHitsComplete(data, 0, q);
      var i :| 0 <= i < |hits| && hits[i] == q;
    }
  }

  /** An entry of stored data found by the scan has zero widths. */
  lemma {:induction false} SearchUncompressedWidths(data: seq<u8>, file: string, e: DataEntry)
    requires e in SearchUncompressed(data, file)
    ensures e.lookbackBits == 0 && e.repetitionBits == 0
  {
    var hits := StoredHits(data, 0);
    var i := DecodedAt(data, file, hits, true, e);
    WidthsAt(data, Zeros, hits[i], file);
  }
}
