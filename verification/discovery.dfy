/** The decision steps of `discover_files`: which fingerprint hits and
    probes become catalogue entries, in what order, under which names, and
    which byte ranges of the archive they claim.

    The archive, the buffers to search and the pre-seeded lists are given
    as values. `order` stands for the order in which Python lists a set:
    the steps sort by disc location afterwards, and only entries with the
    same location depend on it.
 */
module Discovery {
  import opened Bits
  import opened Wrappers
  import Codec
  import opened Compressor
  import opened Entry
  import opened Ranges
  import opened Sorting
  import opened Fingerprint
  import Hex
  import Paths

  /** The widths searched for and probed with, and the probe's expected size. */
  const ProbeLookback: nat := 11
  const ProbeRepetition: nat := 4
  const ProbeSize: nat := 200

  // ---------------------------------------------------------------------
  // Collecting candidates

  /** `main_search_results` and `found_raw_entries`. */
  datatype Candidates = Candidates(compressed: set<DataEntry>, raw: set<DataEntry>)

  /** `f` over the buffers, united; the first buffer on which `f` fails
      stops the loop with its error. */
  function CollectOf(buffers: seq<seq<u8>>, f: seq<u8> -> Result<set<DataEntry>>): (res: Result<set<DataEntry>>)
    ensures res.Err? ==> exists k :: 0 <= k < |buffers| && f(buffers[k]) == Err(res.error)
    decreases |buffers|
  {
    if |buffers| == 0 then Ok({})
    else
      var rest :- CollectOf(buffers[..|buffers| - 1], f);
      var found :- f(buffers[|buffers| - 1]);
      Ok(rest + found)
  }

  /** The union succeeds iff `f` succeeds on every buffer, and then holds
      exactly what `f` finds in some buffer. */
  lemma {:induction false} CollectOfIs(buffers: seq<seq<u8>>, f: seq<u8> -> Result<set<DataEntry>>, e: DataEntry)
    ensures CollectOf(buffers, f).Ok? <==> forall k :: 0 <= k < |buffers| ==> f(buffers[k]).Ok?
    ensures CollectOf(buffers, f).Ok? ==>
      (e in CollectOf(buffers, f).value <==> exists k :: 0 <= k < |buffers| && e in f(buffers[k]).value)
    decreases |buffers|
  {
    if |buffers| > 0 {
      var init := buffers[..|buffers| - 1];
      CollectOfIs(init, f, e);
      assert forall k :: 0 <= k < |init| ==> init[k] == buffers[k];
    }
  }

  /** The fingerprint searches of all buffers for the given widths. */
  function SearchCompressionAll(buffers: seq<seq<u8>>, file: string, lookbackBits: nat, repetitionBits: nat)
    : (res: Result<set<DataEntry>>)
    ensures res.Err? ==> res.error in {Overflow, OutOfBytes}
  {
    CollectOf(buffers, b => SearchCompression(b, file, lookbackBits, repetitionBits))
  }

  /** The stored-data searches of all buffers, which cannot fail. */
  function SearchUncompressedAll(buffers: seq<seq<u8>>, file: string): set<DataEntry> {
    CollectOf(buffers, b => Ok(SearchUncompressed(b, file))).value
  }

  /** The search loop over the buffers, both searches of each naming
      `file`. The stored-data search never fails, so the loop fails
      exactly when a fingerprint search does, with the first such error. */
  function SearchAll(buffers: seq<seq<u8>>, file: string, lookbackBits: nat, repetitionBits: nat)
    : (res: Result<Candidates>)
    ensures res.Err? ==> res.error in {Overflow, OutOfBytes}
  {
    var compressed :- SearchCompressionAll(buffers, file, lookbackBits, repetitionBits);
    Ok(Candidates(compressed, SearchUncompressedAll(buffers, file)))
  }

  /** Every compressed candidate carries the searched widths and lies on
      a sector boundary past 0; every raw candidate looks stored. */
  lemma {:induction false} CandidatesLook(buffers: seq<seq<u8>>, file: string, lookbackBits: nat, repetitionBits: nat, e: DataEntry)
    requires lookbackBits < 256 && repetitionBits < 256
    requires SearchAll(buffers, file, lookbackBits, repetitionBits).Ok?
    ensures e in SearchAll(buffers, file, lookbackBits, repetitionBits).value.compressed ==>
      && e.lookbackBits == lookbackBits && e.repetitionBits == repetitionBits
      && Aligned(e) && e.file == file && Fits(e)
    ensures e in SearchAll(buffers, file, lookbackBits, repetitionBits).value.raw ==>
      StoredLooking(e) && e.file == file && Fits(e)
  {
    CollectOfIs(buffers, b => SearchCompression(b, file, lookbackBits, repetitionBits), e);
    CollectOfIs(buffers, b => Ok(SearchUncompressed(b, file)), e);
    if e in SearchAll(buffers, file, lookbackBits, repetitionBits).value.compressed {
      var k :| 0 <= k < |buffers| && e in SearchCompression(buffers[k], file, lookbackBits, repetitionBits).value;
      SearchCompressionFinds(buffers[k], file, lookbackBits, repetitionBits, e);
    }
  }

  // ---------------------------------------------------------------------
  // Ordering and the rel filter

  /** `list(s)`: each element of `s` exactly once. */
  ghost predicate Lists(xs: seq<DataEntry>, s: set<DataEntry>) {
    && (forall x :: x in xs <==> x in s)
    && (forall i, j :: 0 <= i < j < |xs| ==> xs[i] != xs[j])
  }

  /** `[x for x in xs if not rel.equals_besides_filename(x)]`. */
  function DropMatching(xs: seq<DataEntry>, rel: DataEntry): (ys: seq<DataEntry>)
    ensures |ys| <= |xs|
  {
    if |xs| == 0 then []
    else (if SameBesidesFile(rel, xs[0]) then [] else [xs[0]]) + DropMatching(xs[1..], rel)
  }

  /** The loop over the rels, one filter per rel. */
  function DropRels(xs: seq<DataEntry>, rels: seq<DataEntry>): (ys: seq<DataEntry>)
    ensures |ys| <= |xs|
    decreases |rels|
  {
    if |rels| == 0 then xs else DropRels(DropMatching(xs, rels[0]), rels[1..])
  }

  lemma {:induction false} DropMatchingIs(xs: seq<DataEntry>, rel: DataEntry, e: DataEntry)
    ensures e in DropMatching(xs, rel) <==> e in xs && !SameBesidesFile(rel, e)
  {
    if |xs| > 0 {
      DropMatchingIs(xs[1..], rel, e);
      assert xs == [xs[0]] + xs[1..];
    }
  }

  /** An entry survives the filter iff it is a candidate that no rel
      equals in every field but the file. */
  lemma {:induction false} DropRelsIs(xs: seq<DataEntry>, rels: seq<DataEntry>, e: DataEntry)
    ensures e in DropRels(xs, rels) <==> e in xs && forall r :: r in rels ==> !SameBesidesFile(r, e)
    decreases |rels|
  {
    if |rels| > 0 {
      DropMatchingIs(xs, rels[0], e);
      DropRelsIs(DropMatching(xs, rels[0]), rels[1..], e);
      assert rels == [rels[0]] + rels[1..];
    }
  }

  lemma {:induction false} DropMatchingSorted(xs: seq<DataEntry>, rel: DataEntry)
    requires SortedBy(xs, Location)
    ensures SortedBy(DropMatching(xs, rel), Location)
  {
    if |xs| > 0 {
      var tail := DropMatching(xs[1..], rel);
      DropMatchingSorted(xs[1..], rel);
      forall i | 0 <= i < |tail| ensures xs[0].diskLocation <= tail[i].diskLocation {
        DropMatchingIs(xs[1..], rel, tail[i]);
        var j :| 0 <= j < |xs[1..]| && xs[1..][j] == tail[i];
        assert xs[j + 1] == tail[i];
      }
    }
  }

  /** The filter keeps the disc-location order. */
  lemma {:induction false} DropRelsSorted(xs: seq<DataEntry>, rels: seq<DataEntry>)
    requires SortedBy(xs, Location)
    ensures SortedBy(DropRels(xs, rels), Location)
    decreases |rels|
  {
    if |rels| > 0 {
      DropMatchingSorted(xs, rels[0]);
      DropRelsSorted(DropMatching(xs, rels[0]), rels[1..]);
    }
  }

  /** `list_entries` after the sort and the filter. */
  function Ordered(listing: seq<DataEntry>, rels: seq<DataEntry>): seq<DataEntry> {
    DropRels(SortBy(listing, Location), rels)
  }

  /** The compressed candidates come out sorted by disc location, and an
      entry is among them iff it is a candidate equal to no rel entry. */
  lemma {:induction false} OrderedIs(listing: seq<DataEntry>, s: set<DataEntry>, rels: seq<DataEntry>, e: DataEntry)
    requires Lists(listing, s)
    ensures SortedBy(Ordered(listing, rels), Location)
    ensures e in Ordered(listing, rels) <==> e in s && forall r :: r in rels ==> !SameBesidesFile(r, e)
  {
    SortBySorted(listing, Location);
    DropRelsSorted(SortBy(listing, Location), rels);
    DropRelsIs(SortBy(listing, Location), rels, e);
    SortByPermutes(listing, Location);
    assert e in SortBy(listing, Location) <==> e in multiset(SortBy(listing, Location));
    assert e in listing <==> e in multiset(listing);
  }

  // ---------------------------------------------------------------------
  // Decoding checks

  /** The bytes `is_decompression_valid` reads: the entry's compressed
      bytes, cut short at the end of the file. */
  function Window(data: seq<u8>, e: DataEntry): (w: seq<u8>)
    ensures |w| <= e.compressedSize
    ensures e.diskLocation + e.compressedSize <= |data| ==>
      w == data[e.diskLocation..e.diskLocation + e.compressedSize]
  {
    Slice(data, e.diskLocation, e.diskLocation + e.compressedSize)
  }

  /** The entry's widths with no expected size: the decoder runs until
      its stream gives out. */
  function Check(data: seq<u8>, e: DataEntry): Codec.Decompressor {
    Codec.Decompressor(Window(data, e), e.lookbackBits, e.repetitionBits, None)
  }

  /** `is_decompression_valid`. */
  function IsDecompressionValid(data: seq<u8>, e: DataEntry): Result<bool> {
    Codec.IsValidDecompression(Check(data, e))
  }

  /** The check says True exactly when the window decompresses, False
      exactly when decompressing it meets a bad back-reference, and
      fails with the decompressor's own error otherwise. */
  lemma {:induction false} IsDecompressionValidAgrees(data: seq<u8>, e: DataEntry)
    ensures Codec.Agree(IsDecompressionValid(data, e), Codec.Decompress(Check(data, e)))
  {
    Codec.IsValidIffDecompresses(Check(data, e));
  }

  /** The brute-force probe at `i`: 400 bytes, widths (11, 4), expecting 200 bytes. */
  function Probe(data: seq<u8>, i: nat): Codec.Decompressor {
    Codec.Decompressor(Slice(data, i, i + 2 * ProbeSize), ProbeLookback, ProbeRepetition, Some(ProbeSize))
  }

  function ProbeAt(data: seq<u8>, i: nat): Result<bool> {
    Codec.IsValidDecompression(Probe(data, i))
  }

  /** A probe hit is exactly a 400-byte window that decodes to its 200
      bytes. */
  lemma {:induction false} ProbeAtAgrees(data: seq<u8>, i: nat)
    ensures Codec.Agree(ProbeAt(data, i), Codec.Decompress(Probe(data, i)))
  {
    Codec.IsValidIffDecompresses(Probe(data, i));
  }

  // ---------------------------------------------------------------------
  // The lists and the mapping

  /** The four lists `discover_files` builds and `file_mapping`. */
  datatype State = State(
    compressed: seq<DataEntry>,
    raw: seq<DataEntry>,
    unreferenced: seq<DataEntry>,
    forms: seq<DataEntry>,
    mapping: seq<Range>)

  /** The entry under a new output name: the old one with the characters
      of `strip` cut from both ends, after `prefix`, inside `folder`. */
  function Rename(e: DataEntry, folder: string, prefix: string, strip: string): (r: DataEntry)
    ensures r == e.(outputName := r.outputName)
  {
    e.(outputName := Paths.Join(folder, prefix + Paths.Strip(e.outputName, strip)))
  }

  /** Renaming changes neither the claimed range nor the fields `to_dict` packs. */
  lemma {:induction false} RenameKeeps(e: DataEntry, folder: string, prefix: string, strip: string)
    ensures ToRange(Rename(e, folder, prefix, strip)) == ToRange(e)
    ensures Fits(Rename(e, folder, prefix, strip)) == Fits(e)
    ensures SameBesidesFile(Rename(e, folder, prefix, strip), e)
  {
  }

  /** `add_range` of each range in turn. */
  function ClaimAll(mapping: seq<Range>, rs: seq<Range>): Result<seq<Range>>
    decreases |rs|
  {
    if |rs| == 0 then Ok(mapping)
    else
      var m :- AddRange(mapping, rs[0]);
      ClaimAll(m, rs[1..])
  }

  /** Claiming non-empty ranges one by one keeps the mapping canonical,
      and it covers afterwards what it covered before and the claimed
      ranges. */
  lemma {:induction false} ClaimAllCovers(mapping: seq<Range>, rs: seq<Range>)
    requires Canonical(mapping) && forall k :: 0 <= k < |rs| ==> NonEmpty(rs[k])
    ensures ClaimAll(mapping, rs).Ok? && Canonical(ClaimAll(mapping, rs).value)
    ensures forall x :: Covers(ClaimAll(mapping, rs).value, x) <==>
      Covers(mapping, x) || exists k :: 0 <= k < |rs| && In(x, rs[k])
    decreases |rs|
  {
    if |rs| > 0 {
      AddRangeKeepsCanonical(mapping, rs[0]);
      var m := AddRange(mapping, rs[0]).value;
      ClaimAllCovers(m, rs[1..]);
      forall x ensures Covers(ClaimAll(mapping, rs).value, x) <==>
        Covers(mapping, x) || exists k :: 0 <= k < |rs| && In(x, rs[k])
      {
        if exists k :: 0 <= k < |rs| && In(x, rs[k]) {
          var k :| 0 <= k < |rs| && In(x, rs[k]);
          if k > 0 {
            assert rs[1..][k - 1] == rs[k];
          }
        }
        if exists k :: 0 <= k < |rs[1..]| && In(x, rs[1..][k]) {
          var k :| 0 <= k < |rs[1..]| && In(x, rs[1..][k]);
          assert rs[k + 1] == rs[1..][k];
        }
      }
    }
  }

  /** The ranges of a list of entries. */
  function RangesOf(es: seq<DataEntry>): (rs: seq<Range>)
    ensures |rs| == |es| && forall k :: 0 <= k < |es| ==> rs[k] == ToRange(es[k])
  {
    if |es| == 0 then [] else [ToRange(es[0])] + RangesOf(es[1..])
  }

  /** The state before the compressed candidates are checked: the known
      compressed files; the known raw files, listed twice (once by
      `extend`, once more by the seeding loop); and a mapping holding the
      raw files' ranges. */
  function Seed(knownCompressed: seq<DataEntry>, knownRaw: seq<DataEntry>): Result<State> {
    var mapping :- ClaimAll([], RangesOf(knownRaw));
    Ok(State(knownCompressed, knownRaw + knownRaw, [], [], mapping))
  }

  /** When every known raw file claims a non-empty range, the seeded
      mapping is canonical and covers exactly those ranges, and each known
      raw file appears at both `k` and `k + |knownRaw|`. */
  lemma {:induction false} SeedIs(knownCompressed: seq<DataEntry>, knownRaw: seq<DataEntry>)
    requires forall k :: 0 <= k < |knownRaw| ==> NonEmpty(ToRange(knownRaw[k]))
    ensures Seed(knownCompressed, knownRaw).Ok?
    ensures var s := Seed(knownCompressed, knownRaw).value;
      && s.compressed == knownCompressed && s.unreferenced == [] && s.forms == []
      && |s.raw| == 2 * |knownRaw|
      && (forall k :: 0 <= k < |knownRaw| ==> s.raw[k] == s.raw[k + |knownRaw|] == knownRaw[k])
      && Canonical(s.mapping)
      && forall x :: Covers(s.mapping, x) <==> exists k :: 0 <= k < |knownRaw| && In(x, ToRange(knownRaw[k]))
  {
    var rs := RangesOf(knownRaw);
    ClaimAllCovers([], rs);
    var s := Seed(knownCompressed, knownRaw).value;
    forall x ensures Covers(s.mapping, x) <==> exists k :: 0 <= k < |knownRaw| && In(x, ToRange(knownRaw[k])) {
      assert !Covers([], x);
      if exists k :: 0 <= k < |rs| && In(x, rs[k]) {
        var k :| 0 <= k < |rs| && In(x, rs[k]);
        assert In(x, ToRange(knownRaw[k]));
      }
    }
  }

  // ---------------------------------------------------------------------
  // Checking the compressed candidates

  /** A list of accepted entries and the mapping they claimed into. */
  datatype Claimed = Claimed(entries: seq<DataEntry>, mapping: seq<Range>)

  /** The loop over the candidates: a candidate whose `check` says True
      is renamed, appended and its range claimed; one whose check says
      False is passed over; a failing check stops the loop. */
  function AcceptWhere(cands: seq<DataEntry>, acc: Claimed, check: DataEntry -> Result<bool>,
                       rename: DataEntry -> DataEntry): (res: Result<Claimed>)
    ensures res.Ok? ==> acc.entries <= res.value.entries
    decreases |cands|
  {
    if |cands| == 0 then Ok(acc)
    else
      var e := cands[0];
      var valid :- check(e);
      if valid then
        var m :- AddRange(acc.mapping, ToRange(e));
        AcceptWhere(cands[1..], Claimed(acc.entries + [rename(e)], m), check, rename)
      else AcceptWhere(cands[1..], acc, check, rename)
  }

  /** The accepted entries are the renamed candidates whose check says
      True, and no others. */
  lemma {:induction false} AcceptWhereIs(cands: seq<DataEntry>, acc: Claimed, check: DataEntry -> Result<bool>,
                                         rename: DataEntry -> DataEntry, e: DataEntry)
    requires AcceptWhere(cands, acc, check, rename).Ok?
    ensures var added := AcceptWhere(cands, acc, check, rename).value.entries[|acc.entries|..];
      e in added <==> (exists c :: c in cands && check(c) == Ok(true) && e == rename(c))
    decreases |cands|
  {
    if |cands| > 0 {
      var c := cands[0];
      var valid := check(c).value;
      var acc' := if valid then Claimed(acc.entries + [rename(c)], AddRange(acc.mapping, ToRange(c)).value) else acc;
      AcceptWhereIs(cands[1..], acc', check, rename, e);
      var res := AcceptWhere(cands, acc, check, rename).value.entries;
      assert res == AcceptWhere(cands[1..], acc', check, rename).value.entries;
      assert cands == [c] + cands[1..];
      if valid {
        assert res[|acc.entries|..] == [rename(c)] + res[|acc'.entries|..];
      }
    }
  }

  /** On a canonical mapping and candidates with non-empty ranges, the
      loop fails exactly when some check fails; the mapping stays
      canonical, and it covers afterwards what it covered before and the
      ranges of the candidates whose check says True. */
  lemma {:induction false} AcceptWhereClaims(cands: seq<DataEntry>, acc: Claimed, check: DataEntry -> Result<bool>,
                                             rename: DataEntry -> DataEntry)
    requires Canonical(acc.mapping) && forall k :: 0 <= k < |cands| ==> NonEmpty(ToRange(cands[k]))
    ensures AcceptWhere(cands, acc, check, rename).Ok? <==> forall k :: 0 <= k < |cands| ==> check(cands[k]).Ok?
    ensures AcceptWhere(cands, acc, check, rename).Ok? ==>
      var m := AcceptWhere(cands, acc, check, rename).value.mapping;
      && Canonical(m)
      && forall x :: Covers(m, x) <==>
        Covers(acc.mapping, x) || exists k :: 0 <= k < |cands| && check(cands[k]) == Ok(true) && In(x, ToRange(cands[k]))
    decreases |cands|
  {
    if |cands| > 0 {
      var c := cands[0];
      var tail := cands[1..];
      assert forall k :: 0 <= k < |tail| ==> tail[k] == cands[k + 1];
      if check(c).Ok? {
        var valid := check(c).value;
        if valid {
          AddRangeKeepsCanonical(acc.mapping, ToRange(c));
        }
        var acc' := if valid then Claimed(acc.entries + [rename(c)], AddRange(acc.mapping, ToRange(c)).value) else acc;
        AcceptWhereClaims(tail, acc', check, rename);
        if AcceptWhere(cands, acc, check, rename).Ok? {
          var m := AcceptWhere(cands, acc, check, rename).value.mapping;
          forall x ensures Covers(m, x) <==>
            Covers(acc.mapping, x) || exists k :: 0 <= k < |cands| && check(cands[k]) == Ok(true) && In(x, ToRange(cands[k]))
          {
            if exists k :: 0 <= k < |cands| && check(cands[k]) == Ok(true) && In(x, ToRange(cands[k])) {
              var k :| 0 <= k < |cands| && check(cands[k]) == Ok(true) && In(x, ToRange(cands[k]));
              if k > 0 {
                assert tail[k - 1] == cands[k];
              }
            }
          }
        }
      }
    }
  }

  /** The loop over the sorted compressed candidates: a candidate that
      passes `is_decompression_valid` is renamed `"cmp " + name.strip(mainName)`
      inside `folder`, appended, and its range claimed. */
  function AcceptCompressed(data: seq<u8>, cands: seq<DataEntry>, s: State, folder: string, mainName: string)
    : (res: Result<State>)
    ensures res.Ok? ==> res.value == s.(compressed := res.value.compressed, mapping := res.value.mapping)
  {
    var c :- AcceptWhere(cands, Claimed(s.compressed, s.mapping), e => IsDecompressionValid(data, e),
                         e => Rename(e, folder, "cmp ", mainName));
    Ok(s.(compressed := c.entries, mapping := c.mapping))
  }

  // ---------------------------------------------------------------------
  // Building entries

  /** `from_dict` of a dictionary with an output name and fitting values
      gives the entry with exactly those fields. */
  lemma {:induction false} LoadFitting(file: string, name: string, lb: nat, rb: nat, size: nat, loc: nat, csize: nat, flag: nat)
    requires lb < 256 && rb < 256 && size < 0x1000_0000 && flag < 16
    requires loc < 0x1_0000_0000 && csize < 0x1_0000_0000
    ensures FromDict(Dict(file, Some(name), lb, rb, size, loc, csize, flag, 0)) ==
      Ok(DataEntry(file, rb, lb, size, loc, csize, flag, name))
  {
    var d := Dict(file, Some(name), lb, rb, size, loc, csize, flag, 0);
    SplitWord(size, flag);
    FromDictFitting(d);
  }

  /** The entry a probe hit at `i` records. */
  function Unreferenced(file: string, folder: string, i: nat): Result<DataEntry> {
    FromDict(Dict(file, Some(Paths.Join(folder, "cmp unverified " + Hex.Digits(i) + ".dat")),
                  ProbeLookback, ProbeRepetition, 0, i, 0, 0, 0))
  }

  /** A probe record names offset `i` with widths (11, 4) and sizes and
      flag 0; it fails only past the 32-bit offsets. */
  lemma {:induction false} UnreferencedFields(file: string, folder: string, i: nat)
    ensures Unreferenced(file, folder, i).Ok? <==> i < 0x1_0000_0000
    ensures Unreferenced(file, folder, i).Ok? ==>
      var e := Unreferenced(file, folder, i).value;
      && e.file == file && e.diskLocation == i
      && e.lookbackBits == ProbeLookback && e.repetitionBits == ProbeRepetition
      && e.originalSize == 0 && e.compressedSize == 0 && e.flag == 0
  {
    var name := Paths.Join(folder, "cmp unverified " + Hex.Digits(i) + ".dat");
    FromDictFails(Dict(file, Some(name), ProbeLookback, ProbeRepetition, 0, i, 0, 0, 0));
    if i < 0x1_0000_0000 {
      LoadFitting(file, name, ProbeLookback, ProbeRepetition, 0, i, 0, 0);
    }
  }

  // ---------------------------------------------------------------------
  // The brute-force probe

  /** The probe loop over `range(i, size, 0x800)`: an offset that
      `i in file_mapping` reports (the as-written membership test, which
      can miss the first of two ranges) is skipped; otherwise a probe hit
      records an entry and claims `[i, i + 200)`. A failing probe or
      record stops the loop. */
  function ProbeFrom(size: nat, i: nat, acc: Claimed, probe: nat -> Result<bool>, make: nat -> Result<DataEntry>)
    : (res: Result<Claimed>)
    ensures res.Ok? ==> acc.entries <= res.value.entries
    decreases size - i
  {
    if i >= size then Ok(acc)
    else if ContainsAsWritten(acc.mapping, i) then ProbeFrom(size, i + SectorSize, acc, probe, make)
    else
      var hit :- probe(i);
      if !hit then ProbeFrom(size, i + SectorSize, acc, probe, make)
      else
        var e :- make(i);
        var m :- AddRange(acc.mapping, Ranges.Range(i, i + ProbeSize));
        ProbeFrom(size, i + SectorSize, Claimed(acc.entries + [e], m), probe, make)
  }

  /** The state after the probe at `i`, when the loop goes on. */
  function ProbeStep(i: nat, acc: Claimed, probe: nat -> Result<bool>, make: nat -> Result<DataEntry>): Claimed
  {
    if !ContainsAsWritten(acc.mapping, i) && probe(i) == Ok(true) && make(i).Ok?
      && AddRange(acc.mapping, Ranges.Range(i, i + ProbeSize)).Ok?
    then Claimed(acc.entries + [make(i).value], AddRange(acc.mapping, Ranges.Range(i, i + ProbeSize)).value)
    else acc
  }

  /** One step of the loop, when it does not fail. */
  lemma {:induction false} ProbeUnfold(size: nat, i: nat, acc: Claimed, probe: nat -> Result<bool>, make: nat -> Result<DataEntry>)
    requires i < size && ProbeFrom(size, i, acc, probe, make).Ok?
    ensures ProbeFrom(size, i, acc, probe, make) == ProbeFrom(size, i + SectorSize, ProbeStep(i, acc, probe, make), probe, make)
  {
  }

  /** The state after `n` steps of the loop from `i`. */
  function StepsFrom(i: nat, acc: Claimed, probe: nat -> Result<bool>, make: nat -> Result<DataEntry>, n: nat): Claimed
    decreases n
  {
    if n == 0 then acc else StepsFrom(i + SectorSize, ProbeStep(i, acc, probe, make), probe, make, n - 1)
  }

  /** Steps keep a canonical mapping canonical and keep what it covered. */
  lemma {:induction false} StepsKeep(i: nat, acc: Claimed, probe: nat -> Result<bool>, make: nat -> Result<DataEntry>,
                                     n: nat, x: nat)
    requires Canonical(acc.mapping)
    ensures Canonical(StepsFrom(i, acc, probe, make, n).mapping)
    ensures Covers(acc.mapping, x) ==> Covers(StepsFrom(i, acc, probe, make, n).mapping, x)
    decreases n
  {
    if n > 0 {
      StepCanonical(i, acc, probe, make);
      StepCovers(i, acc, probe, make, x);
      StepsKeep(i + SectorSize, ProbeStep(i, acc, probe, make), probe, make, n - 1, x);
    }
  }

  /** The probe loop keeps a canonical mapping canonical and keeps what it covered. */
  lemma {:induction false} ProbeFromKeeps(size: nat, i: nat, acc: Claimed, probe: nat -> Result<bool>,
                                          make: nat -> Result<DataEntry>)
    requires Canonical(acc.mapping) && ProbeFrom(size, i, acc, probe, make).Ok?
    ensures var res := ProbeFrom(size, i, acc, probe, make).value;
      Canonical(res.mapping) && forall x :: Covers(acc.mapping, x) ==> Covers(res.mapping, x)
    decreases size - i
  {
    if i < size {
      ProbeUnfold(size, i, acc, probe, make);
      AddRangeKeepsCanonical(acc.mapping, Ranges.Range(i, i + ProbeSize));
      ProbeFromKeeps(size, i + SectorSize, ProbeStep(i, acc, probe, make), probe, make);
    }
  }

  /** Every sector boundary in `[i, size)` where the probe hits ends up
      covered by the mapping. */
  lemma {:induction false} ProbeFromComplete(size: nat, i: nat, acc: Claimed, probe: nat -> Result<bool>,
                                             make: nat -> Result<DataEntry>, n: nat)
    requires Canonical(acc.mapping) && ProbeFrom(size, i, acc, probe, make).Ok?
    requires i + n * SectorSize < size && probe(i + n * SectorSize) == Ok(true)
    ensures Covers(ProbeFrom(size, i, acc, probe, make).value.mapping, i + n * SectorSize)
    decreases size - i
  {
    var j := i + n * SectorSize;
    ProbeUnfold(size, i, acc, probe, make);
    var next := ProbeStep(i, acc, probe, make);
    StepCanonical(i, acc, probe, make);
    if n == 0 {
      ContainsAsWrittenIsSound(acc.mapping, i);
      StepCovers(i, acc, probe, make, i);
      if !ContainsAsWritten(acc.mapping, i) {
        StepClaims(i, acc, probe, make);
      }
      ProbeFromKeeps(size, i + SectorSize, next, probe, make);
    } else {
      assert j == (i + SectorSize) + (n - 1) * SectorSize;
      ProbeFromComplete(size, i + SectorSize, next, probe, make, n - 1);
    }
  }

  /** Every recorded entry comes from a sector boundary `j` in `[i, size)`,
      reached after `n` steps, that the membership test did not report for
      the mapping of that step and where the probe hit. An offset the
      starting mapping already covered is probed again only when the
      mapping of that step holds exactly two ranges. */
  lemma {:induction false} ProbeFromSound(size: nat, i: nat, acc: Claimed, probe: nat -> Result<bool>,
                                          make: nat -> Result<DataEntry>, e: DataEntry) returns (j: nat, n: nat)
    requires Canonical(acc.mapping) && ProbeFrom(size, i, acc, probe, make).Ok?
    requires e in ProbeFrom(size, i, acc, probe, make).value.entries[|acc.entries|..]
    ensures j == i + n * SectorSize && j < size
    ensures !ContainsAsWritten(StepsFrom(i, acc, probe, make, n).mapping, j)
    ensures Covers(acc.mapping, j) ==> |StepsFrom(i, acc, probe, make, n).mapping| == 2
    ensures probe(j) == Ok(true) && make(j) == Ok(e)
    decreases size - i
  {
    if i >= size {
      assert false;
    }
    ProbeUnfold(size, i, acc, probe, make);
    var next := ProbeStep(i, acc, probe, make);
    var res := ProbeFrom(size, i, acc, probe, make).value.entries;
    if next != acc && e == make(i).value {
      StepTaken(i, acc, probe, make);
      j, n := i, 0;
    } else {
      if next != acc {
        assert res[|acc.entries|..] == [make(i).value] + res[|next.entries|..];
      }
      StepCanonical(i, acc, probe, make);
      var m;
      j, m := ProbeFromSound(size, i + SectorSize, next, probe, make, e);
      n := m + 1;
      StepsShift(i, acc, probe, make, j, m);
    }
  }

  /** A step that recorded an entry found an offset the membership test
      did not report, which the mapping covers only when it holds two ranges. */
  lemma {:induction false} StepTaken(i: nat, acc: Claimed, probe: nat -> Result<bool>, make: nat -> Result<DataEntry>)
    requires Canonical(acc.mapping) && ProbeStep(i, acc, probe, make) != acc
    ensures !ContainsAsWritten(acc.mapping, i) && (Covers(acc.mapping, i) ==> |acc.mapping| == 2)
    ensures probe(i) == Ok(true) && make(i).Ok?
  {
    ContainsAsWrittenIsSound(acc.mapping, i);
  }

  /** What holds `m` steps after the first step holds `m + 1` steps from the start. */
  lemma {:induction false} StepsShift(i: nat, acc: Claimed, probe: nat -> Result<bool>, make: nat -> Result<DataEntry>,
                                      j: nat, m: nat)
    requires Canonical(acc.mapping)
    requires var mid := StepsFrom(i + SectorSize, ProbeStep(i, acc, probe, make), probe, make, m).mapping;
      Covers(ProbeStep(i, acc, probe, make).mapping, j) ==> |mid| == 2
    ensures StepsFrom(i, acc, probe, make, m + 1) == StepsFrom(i + SectorSize, ProbeStep(i, acc, probe, make), probe, make, m)
    ensures Covers(acc.mapping, j) ==> |StepsFrom(i, acc, probe, make, m + 1).mapping| == 2
  {
    StepCovers(i, acc, probe, make, j);
  }

  /** With the exact membership test in its place, a recorded entry never
      comes from an offset the starting mapping covered. */
  lemma {:induction false} ProbeFreshWhenExact(size: nat, i: nat, acc: Claimed, probe: nat -> Result<bool>,
                                               make: nat -> Result<DataEntry>, e: DataEntry, j: nat, n: nat)
    requires Canonical(acc.mapping) && j == i + n * SectorSize
    requires !ContainsAsWritten(StepsFrom(i, acc, probe, make, n).mapping, j)
    requires |StepsFrom(i, acc, probe, make, n).mapping| != 2
    ensures !Covers(acc.mapping, j)
  {
    var mid := StepsFrom(i, acc, probe, make, n).mapping;
    StepsKeep(i, acc, probe, make, n, j);
    ContainsAsWrittenIsSound(mid, j);
  }

  /** Every recorded entry is what `make` gives for some offset of the loop. */
  lemma {:induction false} ProbeFromMakes(size: nat, i: nat, acc: Claimed, probe: nat -> Result<bool>,
                                          make: nat -> Result<DataEntry>, e: DataEntry) returns (j: nat)
    requires ProbeFrom(size, i, acc, probe, make).Ok?
    requires e in ProbeFrom(size, i, acc, probe, make).value.entries[|acc.entries|..]
    ensures i <= j < size && make(j) == Ok(e)
    decreases size - i
  {
    ProbeUnfold(size, i, acc, probe, make);
    var next := ProbeStep(i, acc, probe, make);
    var res := ProbeFrom(size, i, acc, probe, make).value.entries;
    if next != acc && e == make(i).value {
      j := i;
    } else {
      if next != acc {
        AfterPrefix(res, acc.entries, make(i).value);
      }
      j := ProbeFromMakes(size, i + SectorSize, next, probe, make, e);
    }
  }

  /** One probe step keeps the mapping canonical. */
  lemma {:induction false} StepCanonical(i: nat, acc: Claimed, probe: nat -> Result<bool>, make: nat -> Result<DataEntry>)
    requires Canonical(acc.mapping)
    ensures Canonical(ProbeStep(i, acc, probe, make).mapping)
  {
    AddRangeKeepsCanonical(acc.mapping, Ranges.Range(i, i + ProbeSize));
  }

  /** A probe step that hits an offset the membership test does not
      report claims that offset. */
  lemma {:induction false} StepClaims(i: nat, acc: Claimed, probe: nat -> Result<bool>, make: nat -> Result<DataEntry>)
    requires Canonical(acc.mapping) && !ContainsAsWritten(acc.mapping, i) && probe(i) == Ok(true)
    requires make(i).Ok? && AddRange(acc.mapping, Ranges.Range(i, i + ProbeSize)).Ok?
    ensures Covers(ProbeStep(i, acc, probe, make).mapping, i)
  {
    AddRangeKeepsCanonical(acc.mapping, Ranges.Range(i, i + ProbeSize));
  }

  /** One probe step covers what the mapping covered, and at most the
      claimed range besides. */
  lemma {:induction false} StepCovers(i: nat, acc: Claimed, probe: nat -> Result<bool>, make: nat -> Result<DataEntry>, x: nat)
    requires Canonical(acc.mapping)
    ensures Covers(acc.mapping, x) ==> Covers(ProbeStep(i, acc, probe, make).mapping, x)
    ensures Covers(ProbeStep(i, acc, probe, make).mapping, x) ==>
      Covers(acc.mapping, x) || In(x, Ranges.Range(i, i + ProbeSize))
  {
    AddRangeKeepsCanonical(acc.mapping, Ranges.Range(i, i + ProbeSize));
  }

  // ---------------------------------------------------------------------
  // AdGCForm blocks

  /** The eight bytes `b"AdGCForm"` that mark a form block. */
  const FormMarker: seq<u8> := [0x41, 0x64, 0x47, 0x43, 0x46, 0x6f, 0x72, 0x6d]

  /** Two occurrences of the marker never overlap: only its first byte is `A`. */
  lemma {:induction false} FormMarkersApart(data: seq<u8>, p: nat, q: nat)
    requires MatchAt(data, FormMarker, p) && MatchAt(data, FormMarker, q) && p < q
    ensures p + |FormMarker| <= q
  {
    assert data[q] == 0x41 by {
      assert data[q] == data[q..q + 8][0];
    }
    forall k | p < k < p + 8
      ensures data[k] != 0x41
    {
      assert data[k] == data[p..p + 8][k - p];
    }
  }

  /** The marker positions the search loop visits from `start` on: each
      search resumes just past the previous marker. */
  function FormHits(data: seq<u8>, start: nat): (hits: seq<nat>)
    decreases |data| - start
  {
    FindFromFirst(data, FormMarker, start);
    var p := FindFrom(data, FormMarker, start);
    if p < 0 then [] else [p as nat] + FormHits(data, p as nat + |FormMarker|)
  }

  /** The visited positions are exactly the occurrences of the marker at or
      after `start`, in increasing order. */
  lemma {:induction false} FormHitsAre(data: seq<u8>, start: nat, q: nat)
    ensures forall k :: 0 <= k < |FormHits(data, start)| ==>
      start <= FormHits(data, start)[k] && MatchAt(data, FormMarker, FormHits(data, start)[k])
    ensures forall k :: 0 < k < |FormHits(data, start)| ==>
      FormHits(data, start)[k - 1] + |FormMarker| <= FormHits(data, start)[k]
    ensures start <= q && MatchAt(data, FormMarker, q) ==> q in FormHits(data, start)
    decreases |data| - start
  {
    FindFromFirst(data, FormMarker, start);
    var p := FindFrom(data, FormMarker, start);
    if p >= 0 {
      var hits := FormHits(data, start);
      var rest := FormHits(data, p + |FormMarker|);
      FormHitsAre(data, p + |FormMarker|, q);
      assert hits == [p] + rest;
      assert forall k :: 0 < k < |hits| ==> hits[k] == rest[k - 1];
      forall k | 0 < k < |hits|
        ensures hits[k - 1] + |FormMarker| <= hits[k]
      {
        if k == 1 {
          assert p + |FormMarker| <= rest[0];
        } else {
          assert rest[k - 2] + |FormMarker| <= rest[k - 1];
        }
      }
      if start <= q && MatchAt(data, FormMarker, q) && q != p {
        FormMarkersApart(data, p, q);
      }
    }
  }

  /** `int.from_bytes(b, 'little')` of four bytes. */
  function Little(b: seq<u8>): nat
    requires |b| == 4
  {
    b[0] as nat + 0x100 * b[1] as nat + 0x1_0000 * b[2] as nat + 0x100_0000 * b[3] as nat
  }

  /** `w.to_bytes(4, 'little')`. */
  function LittleBytes(w: nat): (b: seq<u8>)
    requires w < 0x1_0000_0000
    ensures |b| == 4
  {
    [w % 0x100, (w / 0x100) % 0x100, (w / 0x1_0000) % 0x100, w / 0x100_0000]
  }

  /** Little-endian words read back as written, and bytes as read. */
  lemma {:induction false} LittleRoundTrip(w: nat, b: seq<u8>)
    requires w < 0x1_0000_0000 && |b| == 4
    ensures Little(LittleBytes(w)) == w
    ensures Little(b) < 0x1_0000_0000 && LittleBytes(Little(b)) == b
  {
    var x := Little(b);
    assert x / 0x100 == b[1] as nat + 0x100 * b[2] as nat + 0x1_0000 * b[3] as nat;
    assert x / 0x1_0000 == b[2] as nat + 0x100 * b[3] as nat;
    assert x / 0x100_0000 == b[3] as nat;
    assert LittleBytes(x) == b;
    var c, d := w / 0x100, w / 0x1_0000;
    assert c == d * 0x100 + c % 0x100;
    assert w == c * 0x100 + w % 0x100;
    assert d == (w / 0x100_0000) * 0x100 + d % 0x100;
  }

  /** The eight bytes before a marker, `unpack('<II', ...)`: the packed
      size word split into its top four bits and the 28-bit size, and the
      compression word. */
  datatype FormHeader = FormHeader(flag: nat, size: nat, info: nat)

  function ReadHeader(b: seq<u8>): (h: FormHeader)
    requires |b| == 8
    ensures h.flag < 16 && h.size < 0x1000_0000 && h.info < 0x1_0000_0000
  {
    var packed := Little(b[..4]);
    LittleRoundTrip(0, b[..4]);
    LittleRoundTrip(0, b[4..]);
    Pow2Values();
    DivBound(packed, 28, 4);
    FormHeader(Shr(packed, 28), Mask(packed, 28), Little(b[4..]))
  }

  /** The bytes of a header. */
  function HeaderBytes(h: FormHeader): (b: seq<u8>)
    requires h.flag < 16 && h.size < 0x1000_0000 && h.info < 0x1_0000_0000
    ensures |b| == 8
  {
    SplitWord(h.size, h.flag);
    Pow2Values();
    LittleBytes(Or(h.size, h.flag * Pow2(28))) + LittleBytes(h.info)
  }

  /** Headers read back as written, and bytes as read. */
  lemma {:induction false} HeaderRoundTrip(h: FormHeader, b: seq<u8>)
    requires h.flag < 16 && h.size < 0x1000_0000 && h.info < 0x1_0000_0000 && |b| == 8
    ensures ReadHeader(HeaderBytes(h)) == h
    ensures HeaderBytes(ReadHeader(b)) == b
  {
    SplitWord(h.size, h.flag);
    Pow2Values();
    var w := Or(h.size, h.flag * Pow2(28));
    LittleRoundTrip(w, b[..4]);
    LittleRoundTrip(h.info, b[4..]);
    assert HeaderBytes(h)[..4] == LittleBytes(w);
    assert HeaderBytes(h)[4..] == LittleBytes(h.info);
    var r := ReadHeader(b);
    var packed := Little(b[..4]);
    Split(Mask(packed, 28), Shr(packed, 28), 28);
    SplitWord(r.size, r.flag);
    assert Or(r.size, r.flag * Pow2(28)) == packed;
    assert b == b[..4] + b[4..];
  }

  /** The output name of the form whose data begins at `location`. */
  function FormName(folder: string, location: nat): string {
    Paths.Join(folder, "AdGCForm " + Hex.Format(location, 8) + ".dat")
  }

  /** The bytes from `i` on; empty past the end. */
  function Tail(data: seq<u8>, i: nat): (r: seq<u8>)
    ensures |r| <= |data|
  {
    if i <= |data| then data[i..] else []
  }

  /** The record of the marker at `p`: its data begins after the marker; a
      zero flag means the data is stored as it is, otherwise the widths are
      the low two bytes of the compression word and the compressed size is
      what decoding `size` bytes from there reads. Fewer than eight header
      bytes make `unpack` fail. */
  function FormAt(data: seq<u8>, file: string, folder: string, p: nat): (res: Result<DataEntry>)
    ensures res.Ok? ==> Fits(res.value)
  {
    if p < 8 || p > |data| then Err(ShortBuffer)
    else
      var h := ReadHeader(data[p - 8..p]);
      var location := p + |FormMarker|;
      if h.flag == 0 then
        FromDict(Dict(file, Some(FormName(folder, location)), 0, 0, h.size, location, h.size, 0, 0))
      else
        var lookbackBits, repetitionBits := Mask(h.info, 8), Mask(Shr(h.info, 8), 8);
        var decoded :- Codec.Decompress(Codec.Decompressor(Tail(data, location), lookbackBits, repetitionBits, Some(h.size)));
        FromDict(Dict(file, Some(FormName(folder, location)), lookbackBits, repetitionBits, h.size, location,
                      decoded.compressedSize, h.flag, 0))
  }

  /** What a form record holds: the header's flag and size, the location
      after the marker, and either widths 0 with the size as compressed
      size or the widths of the compression word with the compressed size
      decoding reads. It fails on a short header, a failing decode, or a
      location or compressed size past 32 bits. */
  lemma {:induction false} FormAtFields(data: seq<u8>, file: string, folder: string, p: nat)
    requires 8 <= p <= |data|
    ensures var h := ReadHeader(data[p - 8..p]);
      var d := Codec.Decompressor(Tail(data, p + 8), Mask(h.info, 8), Mask(Shr(h.info, 8), 8), Some(h.size));
      && (h.flag == 0 ==> (FormAt(data, file, folder, p).Ok? <==> p + 8 < 0x1_0000_0000))
      && (h.flag != 0 ==> (FormAt(data, file, folder, p).Ok? <==>
            Codec.Decompress(d).Ok? && p + 8 < 0x1_0000_0000 && Codec.Decompress(d).value.compressedSize < 0x1_0000_0000))
      && (FormAt(data, file, folder, p).Ok? ==>
          var e := FormAt(data, file, folder, p).value;
          && e.file == file && e.outputName == FormName(folder, p + 8)
          && e.diskLocation == p + 8 && e.originalSize == h.size && e.flag == h.flag
          && (h.flag == 0 ==> e.lookbackBits == 0 && e.repetitionBits == 0 && e.compressedSize == h.size)
          && (h.flag != 0 ==>
                && e.lookbackBits == d.lookbackBits && e.repetitionBits == d.repetitionBits
                && e.compressedSize == Codec.Decompress(d).value.compressedSize))
  {
    var h := ReadHeader(data[p - 8..p]);
    var location := p + 8;
    SplitWord(h.size, h.flag);
    SplitWord(h.size, 0);
    Pow2Values();
    var flag := if h.flag == 0 then 0 else h.flag;
    var d := Codec.Decompressor(Tail(data, location), Mask(h.info, 8), Mask(Shr(h.info, 8), 8), Some(h.size));
    MaskBound(h.info);
    MaskBound(Shr(h.info, 8));
    if h.flag == 0 {
      var dict := Dict(file, Some(FormName(folder, location)), 0, 0, h.size, location, h.size, 0, 0);
      FromDictFails(dict);
      if DictFits(dict) { FromDictFitting(dict); }
    } else if Codec.Decompress(d).Ok? {
      var dict := Dict(file, Some(FormName(folder, location)), d.lookbackBits, d.repetitionBits, h.size, location,
                       Codec.Decompress(d).value.compressedSize, h.flag, 0);
      FromDictFails(dict);
      if DictFits(dict) { FromDictFitting(dict); }
    }
  }

  lemma {:induction false} MaskBound(x: nat)
    ensures Mask(x, 8) < 256
  {
    Pow2Values();
  }

  /** The form loop from `start`: at each marker it reads the header, which
      fails unless eight bytes of the remaining buffer precede the marker,
      then records the form with `at`; the first failure stops the loop. */
  function FormsFrom(data: seq<u8>, start: nat, at: nat -> Result<DataEntry>): (res: Result<seq<DataEntry>>)
    decreases |data| - start
  {
    FindFromFirst(data, FormMarker, start);
    var p := FindFrom(data, FormMarker, start);
    if p < 0 then Ok([])
    else if p - start < 8 then Err(ShortBuffer)
    else
      var e :- at(p as nat);
      var rest :- FormsFrom(data, p as nat + |FormMarker|, at);
      Ok([e] + rest)
  }

  /** The `k`-th visited marker has eight bytes of the buffer searched
      for it before it, and records successfully. */
  predicate FormReadable(hits: seq<nat>, start: nat, at: nat -> Result<DataEntry>, k: nat)
    requires k < |hits|
  {
    (if k == 0 then start else hits[k - 1] + |FormMarker|) + 8 <= hits[k] && at(hits[k]).Ok?
  }

  /** The loop succeeds iff every marker it visits has eight bytes of its
      own buffer before it and records successfully; then it holds one
      record per marker, in order. */
  lemma {:induction false} FormsFromIs(data: seq<u8>, start: nat, at: nat -> Result<DataEntry>)
    ensures var hits := FormHits(data, start);
      FormsFrom(data, start, at).Ok? <==> forall k :: 0 <= k < |hits| ==> FormReadable(hits, start, at, k)
    ensures var hits := FormHits(data, start);
      FormsFrom(data, start, at).Ok? ==>
        |FormsFrom(data, start, at).value| == |hits|
        && forall k :: 0 <= k < |hits| ==> at(hits[k]) == Ok(FormsFrom(data, start, at).value[k])
    decreases |data| - start
  {
    FindFromFirst(data, FormMarker, start);
    var p := FindFrom(data, FormMarker, start);
    if p < 0 {
      assert FormHits(data, start) == [] && FormsFrom(data, start, at) == Ok([]);
    } else {
      var q: nat := p as nat;
      var next: nat := q + 8;
      FormsFromStep(data, start, at, q, next);
      FormsFromIs(data, next, at);
      FormsCons(FormHits(data, start), FormHits(data, next), start, q, next, at,
                FormsFrom(data, start, at), FormsFrom(data, next, at));
    }
  }

  /** One round of the form loop at the marker `q` it finds. */
  lemma {:induction false} FormsFromStep(data: seq<u8>, start: nat, at: nat -> Result<DataEntry>, q: nat, next: nat)
    requires FindFrom(data, FormMarker, start) == q as int && next == q + 8
    ensures FormHits(data, start) == [q] + FormHits(data, next)
    ensures !(start + 8 <= q && at(q).Ok?) ==> FormsFrom(data, start, at).Err?
    ensures start + 8 <= q && at(q).Ok? ==>
      FormsFrom(data, start, at) == (var r :- FormsFrom(data, next, at); Ok([at(q).value] + r))
  {
    FindFromFirst(data, FormMarker, start);
  }

  /** The step of `FormsFromIs`: the loop's result from one marker on is
      described by the visited markers when the result from the next
      marker on is. */
  lemma {:induction false} FormsCons(hits: seq<nat>, rest: seq<nat>, start: nat, p: nat, next: nat, at: nat -> Result<DataEntry>,
                  whole: Result<seq<DataEntry>>, tail: Result<seq<DataEntry>>)
    requires hits == [p] + rest && next == p + 8
    requires !(start + 8 <= p && at(p).Ok?) ==> whole.Err?
    requires start + 8 <= p && at(p).Ok? ==> whole == (var r :- tail; Ok([at(p).value] + r))
    requires tail.Ok? <==> forall k :: 0 <= k < |rest| ==> FormReadable(rest, next, at, k)
    requires tail.Ok? ==> |tail.value| == |rest| && forall k :: 0 <= k < |rest| ==> at(rest[k]) == Ok(tail.value[k])
    ensures whole.Ok? <==> forall k :: 0 <= k < |hits| ==> FormReadable(hits, start, at, k)
    ensures whole.Ok? ==> |whole.value| == |hits| && forall k :: 0 <= k < |hits| ==> at(hits[k]) == Ok(whole.value[k])
  {
    forall k | 0 < k < |hits|
      ensures FormReadable(hits, start, at, k) == FormReadable(rest, next, at, k - 1)
    {
      assert hits[k] == rest[k - 1] && hits[k - 1] + |FormMarker| == (if k == 1 then next else rest[k - 2] + |FormMarker|);
    }
    if !FormReadable(hits, start, at, 0) {
      assert !(forall k :: 0 <= k < |hits| ==> FormReadable(hits, start, at, k));
    } else if tail.Ok? {
      assert whole.value == [at(p).value] + tail.value;
      forall k | 0 <= k < |hits|
        ensures FormReadable(hits, start, at, k) && at(hits[k]) == Ok(whole.value[k])
      {
        if k > 0 {
          assert FormReadable(rest, next, at, k - 1);
          assert hits[k] == rest[k - 1] && whole.value[k] == tail.value[k - 1];
        }
      }
    } else {
      var k' :| 0 <= k' < |rest| && !FormReadable(rest, next, at, k');
      assert !FormReadable(hits, start, at, k' + 1);
    }
  }

  /** The forms of the archive. */
  function Forms(data: seq<u8>, file: string, folder: string): Result<seq<DataEntry>> {
    FormsFrom(data, 0, (p: nat) => FormAt(data, file, folder, p))
  }

  // ---------------------------------------------------------------------
  // Placing the raw candidates

  /** Some entry of `es` claims `x`. */
  ghost predicate Claims(es: seq<DataEntry>, x: int) {
    exists k :: 0 <= k < |es| && In(x, ToRange(es[k]))
  }

  /** No point of `r` is covered by `rs`. */
  ghost predicate Apart(rs: seq<Range>, r: Range) {
    forall x :: In(x, r) ==> !Covers(rs, x)
  }

  /** Two ranges share no point. */
  ghost predicate Disjoint(a: Range, b: Range) {
    forall x :: !(In(x, a) && In(x, b))
  }

  /** The loop over the sorted raw candidates: one whose range passes
      `does_overlap` against the mapping is skipped; any other is renamed
      `"raw " + name.strip(file)` inside `folder`, appended, and its range
      claimed. */
  function AcceptFree(cands: seq<DataEntry>, acc: Claimed, rename: DataEntry -> DataEntry): (res: Result<Claimed>)
    ensures res.Ok? ==> acc.entries <= res.value.entries
    decreases |cands|
  {
    if |cands| == 0 then Ok(acc)
    else
      var e := cands[0];
      if DoesOverlap(acc.mapping, ToRange(e)) then AcceptFree(cands[1..], acc, rename)
      else
        var m :- AddRange(acc.mapping, ToRange(e));
        AcceptFree(cands[1..], Claimed(acc.entries + [rename(e)], m), rename)
  }

  /** What follows a prefix `a + [e]` of `s`, seen from `a`. */
  lemma {:induction false} AfterPrefix<T>(s: seq<T>, a: seq<T>, e: T)
    requires a + [e] <= s
    ensures s[|a|..] == [e] + s[|a| + 1..]
  {
    assert s[|a|] == (a + [e])[|a|];
  }

  /** The points a list claims are those its head claims and those its tail claims. */
  lemma {:induction false} ClaimsCons(e: DataEntry, es: seq<DataEntry>)
    ensures forall x :: Claims([e] + es, x) <==> In(x, ToRange(e)) || Claims(es, x)
  {
    var all := [e] + es;
    forall x ensures Claims(all, x) <==> In(x, ToRange(e)) || Claims(es, x) {
      if Claims(es, x) {
        var k :| 0 <= k < |es| && In(x, ToRange(es[k]));
        assert all[k + 1] == es[k];
      }
      if Claims(all, x) && !In(x, ToRange(e)) {
        var k :| 0 <= k < |all| && In(x, ToRange(all[k]));
        assert k > 0 && es[k - 1] == all[k];
      }
      assert all[0] == e;
    }
  }

  /** A range that `does_overlap` passes over shares no point with the mapping. */
  lemma {:induction false} NoOverlapApart(rs: seq<Range>, r: Range)
    requires !DoesOverlap(rs, r)
    ensures Apart(rs, r)
  {
  }

  /** A range that `does_overlap` catches on a canonical mapping touches a
      covered point: one inside it or right before it. */
  lemma {:induction false} OverlapTouches(rs: seq<Range>, r: Range) returns (x: int)
    requires Canonical(rs) && NonEmpty(r) && DoesOverlap(rs, r)
    ensures r.start - 1 <= x <= r.stop && Covers(rs, x)
  {
    var i :| 0 <= i < |rs| && Overlap(rs[i], r);
    assert NonEmpty(rs[i]);
    OverlapMeaning(rs[i], r);
    x := if rs[i].start <= r.start - 1 then r.start - 1 else rs[i].start;
    assert In(x, rs[i]);
  }

  /** On a canonical mapping and candidates with non-empty ranges the loop
      cannot fail; the mapping stays canonical and covers afterwards what
      it covered before and the ranges of the added entries. */
  lemma {:induction false} AcceptFreeCovers(cands: seq<DataEntry>, acc: Claimed, rename: DataEntry -> DataEntry)
    requires Canonical(acc.mapping) && forall k :: 0 <= k < |cands| ==> NonEmpty(ToRange(cands[k]))
    requires forall e :: ToRange(rename(e)) == ToRange(e)
    ensures AcceptFree(cands, acc, rename).Ok?
    ensures var res := AcceptFree(cands, acc, rename).value;
      && Canonical(res.mapping)
      && forall x :: Covers(res.mapping, x) <==> Covers(acc.mapping, x) || Claims(res.entries[|acc.entries|..], x)
    decreases |cands|, 1
  {
    if |cands| > 0 {
      var tail := cands[1..];
      assert forall k :: 0 <= k < |tail| ==> tail[k] == cands[k + 1];
      if DoesOverlap(acc.mapping, ToRange(cands[0])) {
        AcceptFreeCovers(tail, acc, rename);
      } else {
        AcceptedCovers(cands, acc, rename);
      }
    }
  }

  /** The case of `AcceptFreeCovers` where the first candidate is free and
      is added. */
  lemma {:induction false} AcceptedCovers(cands: seq<DataEntry>, acc: Claimed, rename: DataEntry -> DataEntry)
    requires Canonical(acc.mapping) && forall k :: 0 <= k < |cands| ==> NonEmpty(ToRange(cands[k]))
    requires forall e :: ToRange(rename(e)) == ToRange(e)
    requires |cands| > 0 && !DoesOverlap(acc.mapping, ToRange(cands[0]))
    ensures AcceptFree(cands, acc, rename).Ok?
    ensures var res := AcceptFree(cands, acc, rename).value;
      && Canonical(res.mapping)
      && forall x :: Covers(res.mapping, x) <==> Covers(acc.mapping, x) || Claims(res.entries[|acc.entries|..], x)
    decreases |cands|, 0
  {
    var c := cands[0];
    var tail := cands[1..];
    assert forall k :: 0 <= k < |tail| ==> tail[k] == cands[k + 1];
    AddRangeKeepsCanonical(acc.mapping, ToRange(c));
    var e := rename(c);
    var acc' := Claimed(acc.entries + [e], AddRange(acc.mapping, ToRange(c)).value);
    AcceptFreeCovers(tail, acc', rename);
    var res := AcceptFree(tail, acc', rename).value;
    assert res == AcceptFree(cands, acc, rename).value;
    AfterPrefix(res.entries, acc.entries, e);
    AddedCovers(acc.mapping, acc'.mapping, res.mapping, res.entries[|acc.entries|..], e,
                res.entries[|acc'.entries|..]);
  }

  /** The step of `AcceptFreeCovers`: a mapping that adds an entry's range,
      then the ranges of the entries after it, covers the first mapping
      plus all of them. */
  lemma {:induction false} AddedCovers(mapping: seq<Range>, m: seq<Range>, final: seq<Range>,
                                       added: seq<DataEntry>, e: DataEntry, rest: seq<DataEntry>)
    requires added == [e] + rest
    requires forall x :: Covers(m, x) <==> Covers(mapping, x) || In(x, ToRange(e))
    requires forall x :: Covers(final, x) <==> Covers(m, x) || Claims(rest, x)
    ensures forall x :: Covers(final, x) <==> Covers(mapping, x) || Claims(added, x)
  {
    ClaimsCons(e, rest);
  }

  /** Every added entry's range shares no point with the mapping the loop
      started from, nor with any other added entry's range. */
  lemma {:induction false} AcceptFreeApart(cands: seq<DataEntry>, acc: Claimed, rename: DataEntry -> DataEntry)
    requires Canonical(acc.mapping) && forall k :: 0 <= k < |cands| ==> NonEmpty(ToRange(cands[k]))
    requires forall e :: ToRange(rename(e)) == ToRange(e)
    ensures AcceptFree(cands, acc, rename).Ok?
    ensures var added := AcceptFree(cands, acc, rename).value.entries[|acc.entries|..];
      && (forall k :: 0 <= k < |added| ==> Apart(acc.mapping, ToRange(added[k])))
      && forall j, k :: 0 <= j < k < |added| ==> Disjoint(ToRange(added[j]), ToRange(added[k]))
    decreases |cands|
  {
    AcceptFreeCovers(cands, acc, rename);
    if |cands| > 0 {
      var c := cands[0];
      var tail := cands[1..];
      assert forall k :: 0 <= k < |tail| ==> tail[k] == cands[k + 1];
      if DoesOverlap(acc.mapping, ToRange(c)) {
        AcceptFreeApart(tail, acc, rename);
      } else {
        AddRangeKeepsCanonical(acc.mapping, ToRange(c));
        var m := AddRange(acc.mapping, ToRange(c)).value;
        var e := rename(c);
        var acc' := Claimed(acc.entries + [e], m);
        AcceptFreeApart(tail, acc', rename);
        var res := AcceptFree(tail, acc', rename).value;
        assert res == AcceptFree(cands, acc, rename).value;
        AfterPrefix(res.entries, acc.entries, e);
        NoOverlapApart(acc.mapping, ToRange(c));
        ApartCons(acc.mapping, m, res.entries[|acc.entries|..], e, res.entries[|acc'.entries|..]);
      }
    }
  }

  /** The step of `AcceptFreeApart`: an entry apart from the old mapping,
      followed by entries apart from the mapping that also covers it. */
  lemma {:induction false} ApartCons(mapping: seq<Range>, m: seq<Range>, added: seq<DataEntry>, e: DataEntry, rest: seq<DataEntry>)
    requires added == [e] + rest
    requires forall x :: Covers(m, x) <==> Covers(mapping, x) || In(x, ToRange(e))
    requires Apart(mapping, ToRange(e))
    requires forall k :: 0 <= k < |rest| ==> Apart(m, ToRange(rest[k]))
    requires forall j, k :: 0 <= j < k < |rest| ==> Disjoint(ToRange(rest[j]), ToRange(rest[k]))
    ensures forall k :: 0 <= k < |added| ==> Apart(mapping, ToRange(added[k]))
    ensures forall j, k :: 0 <= j < k < |added| ==> Disjoint(ToRange(added[j]), ToRange(added[k]))
  {
    forall k | 0 <= k < |rest| ensures Apart(mapping, ToRange(rest[k])) && Disjoint(ToRange(e), ToRange(rest[k])) {
      assert Apart(m, ToRange(rest[k]));
    }
    forall k | 0 <= k < |added| ensures Apart(mapping, ToRange(added[k])) {
      if k > 0 { assert added[k] == rest[k - 1]; }
    }
    forall j, k | 0 <= j < k < |added| ensures Disjoint(ToRange(added[j]), ToRange(added[k])) {
      assert added[k] == rest[k - 1];
      if j > 0 { assert added[j] == rest[j - 1]; }
    }
  }

  /** Every added entry is a renamed candidate. */
  lemma {:induction false} AcceptFreeFrom(cands: seq<DataEntry>, acc: Claimed, rename: DataEntry -> DataEntry,
                                          c: DataEntry)
    requires AcceptFree(cands, acc, rename).Ok?
    requires c in AcceptFree(cands, acc, rename).value.entries[|acc.entries|..]
    ensures exists d :: d in cands && c == rename(d)
    decreases |cands|
  {
    var d := cands[0];
    var tail := cands[1..];
    assert cands == [d] + tail;
    if DoesOverlap(acc.mapping, ToRange(d)) {
      AcceptFreeFrom(tail, acc, rename, c);
    } else {
      var acc' := Claimed(acc.entries + [rename(d)], AddRange(acc.mapping, ToRange(d)).value);
      var res := AcceptFree(tail, acc', rename).value;
      AfterPrefix(res.entries, acc.entries, rename(d));
      if c != rename(d) {
        AcceptFreeFrom(tail, acc', rename, c);
      }
    }
  }

  /** Every candidate is either added or touches a point the final
      mapping covers: one inside its range or right before it. */
  lemma {:induction false} AcceptFreeSkips(cands: seq<DataEntry>, acc: Claimed, rename: DataEntry -> DataEntry,
                                           k: nat) returns (x: int)
    requires Canonical(acc.mapping) && forall k :: 0 <= k < |cands| ==> NonEmpty(ToRange(cands[k]))
    requires forall e :: ToRange(rename(e)) == ToRange(e)
    requires k < |cands|
    ensures AcceptFree(cands, acc, rename).Ok?
    ensures var res := AcceptFree(cands, acc, rename).value;
      || rename(cands[k]) in res.entries[|acc.entries|..]
      || (ToRange(cands[k]).start - 1 <= x <= ToRange(cands[k]).stop && Covers(res.mapping, x))
    decreases |cands|, 1
  {
    var d := cands[0];
    if DoesOverlap(acc.mapping, ToRange(d)) {
      AcceptFreeCovers(cands, acc, rename);
      var tail := cands[1..];
      assert forall j :: 0 <= j < |tail| ==> tail[j] == cands[j + 1];
      AcceptFreeCovers(tail, acc, rename);
      if k == 0 {
        x := OverlapTouches(acc.mapping, ToRange(d));
      } else {
        x := AcceptFreeSkips(tail, acc, rename, k - 1);
      }
    } else if k == 0 {
      AcceptedFirst(cands, acc, rename);
      x := 0;
    } else {
      x := AcceptedSkips(cands, acc, rename, k);
    }
  }

  /** The case of `AcceptFreeSkips` where the first candidate is free and
      is added, and a later candidate is asked about. */
  lemma {:induction false} AcceptedSkips(cands: seq<DataEntry>, acc: Claimed, rename: DataEntry -> DataEntry,
                                         k: nat) returns (x: int)
    requires Canonical(acc.mapping) && forall k :: 0 <= k < |cands| ==> NonEmpty(ToRange(cands[k]))
    requires forall e :: ToRange(rename(e)) == ToRange(e)
    requires 0 < k < |cands| && !DoesOverlap(acc.mapping, ToRange(cands[0]))
    ensures AcceptFree(cands, acc, rename).Ok?
    ensures var res := AcceptFree(cands, acc, rename).value;
      || rename(cands[k]) in res.entries[|acc.entries|..]
      || (ToRange(cands[k]).start - 1 <= x <= ToRange(cands[k]).stop && Covers(res.mapping, x))
    decreases |cands|, 0
  {
    var tail := cands[1..];
    var acc' := FreeStep(cands, acc, rename);
    x := AcceptFreeSkips(tail, acc', rename, k - 1);
    var res := AcceptFree(tail, acc', rename).value;
    assert AcceptFree(cands, acc, rename).value == res;
    var e := cands[k];
    assert e == tail[k - 1];
    if rename(e) in res.entries[|acc'.entries|..] {
      InLater(res.entries, acc.entries, rename(cands[0]), rename(e));
      assert rename(e) in res.entries[|acc.entries|..];
    } else {
      assert ToRange(e).start - 1 <= x <= ToRange(e).stop && Covers(res.mapping, x);
    }
  }

  /** An element after the prefix `a + [e]` of `s` is also after `a`. */
  lemma {:induction false} InLater<T>(s: seq<T>, a: seq<T>, e: T, y: T)
    requires a + [e] <= s && y in s[|a| + 1..]
    ensures y in s[|a|..]
  {
    AfterPrefix(s, a, e);
  }

  /** One step of `AcceptFree` that adds a free first candidate: the rest
      of the walk continues from the claimed state `acc'`. */
  lemma {:induction false} FreeStep(cands: seq<DataEntry>, acc: Claimed, rename: DataEntry -> DataEntry)
    returns (acc': Claimed)
    requires Canonical(acc.mapping) && forall k :: 0 <= k < |cands| ==> NonEmpty(ToRange(cands[k]))
    requires 0 < |cands| && !DoesOverlap(acc.mapping, ToRange(cands[0]))
    ensures Canonical(acc'.mapping) && acc'.entries == acc.entries + [rename(cands[0])]
    ensures forall j :: 0 <= j < |cands[1..]| ==> NonEmpty(ToRange(cands[1..][j]))
    ensures AcceptFree(cands, acc, rename) == AcceptFree(cands[1..], acc', rename)
  {
    var tail := cands[1..];
    assert forall j :: 0 <= j < |tail| ==> tail[j] == cands[j + 1];
    AddRangeKeepsCanonical(acc.mapping, ToRange(cands[0]));
    acc' := Claimed(acc.entries + [rename(cands[0])], AddRange(acc.mapping, ToRange(cands[0])).value);
  }

  /** A first candidate that is free is accepted. */
  lemma {:induction false} AcceptedFirst(cands: seq<DataEntry>, acc: Claimed, rename: DataEntry -> DataEntry)
    requires Canonical(acc.mapping) && forall k :: 0 <= k < |cands| ==> NonEmpty(ToRange(cands[k]))
    requires forall e :: ToRange(rename(e)) == ToRange(e)
    requires 0 < |cands| && !DoesOverlap(acc.mapping, ToRange(cands[0]))
    ensures AcceptFree(cands, acc, rename).Ok?
    ensures rename(cands[0]) in AcceptFree(cands, acc, rename).value.entries[|acc.entries|..]
  {
    AcceptFreeCovers(cands, acc, rename);
    var d := cands[0];
    AddRangeKeepsCanonical(acc.mapping, ToRange(d));
    var acc' := Claimed(acc.entries + [rename(d)], AddRange(acc.mapping, ToRange(d)).value);
    var res := AcceptFree(cands[1..], acc', rename).value;
    AfterPrefix(res.entries, acc.entries, rename(d));
  }

  // ---------------------------------------------------------------------
  // The whole discovery

  /** The names the steps use: the archive's name (`this_zzzz`), which
      every found entry names as its file and which raw names are
      stripped of; the main archive's name (`US_ZZZZ_FILE`), which
      compressed names are stripped of; the folder for compressed names
      (`OUTPUT_FOLDER`); and the folder for all other names
      (`this_output_folder`). */
  datatype Names = Names(archive: string, mainArchive: string, mainFolder: string, folder: string)

  /** The four lists of the output object, as dictionaries. */
  datatype Catalog = Catalog(
    referencedCompressed: seq<Dict>,
    referencedRaw: seq<Dict>,
    unreferencedCompressed: seq<Dict>,
    forms: seq<Dict>)

  /** `[x.to_dict() for x in es]`. */
  function ToDicts(es: seq<DataEntry>): (ds: seq<Dict>)
    ensures |ds| == |es| && forall k :: 0 <= k < |es| ==> ds[k] == ToDict(es[k])
  {
    if |es| == 0 then [] else [ToDict(es[0])] + ToDicts(es[1..])
  }

  /** The probe loop over the whole archive, starting from `mapping`. */
  function ProbeAll(data: seq<u8>, names: Names, mapping: seq<Range>): Result<Claimed> {
    ProbeFrom(|data|, 0, Claimed([], mapping), (i: nat) => ProbeAt(data, i),
              (i: nat) => Unreferenced(names.archive, names.folder, i))
  }

  /** The raw loop over the sorted raw candidates, after `raw`. */
  function PlaceRaw(cands: seq<DataEntry>, raw: seq<DataEntry>, mapping: seq<Range>, names: Names)
    : Result<Claimed>
  {
    AcceptFree(cands, Claimed(raw, mapping), e => Rename(e, names.folder, "raw ", names.archive))
  }

  /** The state once every step has run. */
  function Steps(data: seq<u8>, buffers: seq<seq<u8>>, rels: seq<DataEntry>, knownCompressed: seq<DataEntry>,
                 knownRaw: seq<DataEntry>, names: Names, order: set<DataEntry> -> seq<DataEntry>)
    : (res: Result<State>)
  {
    var cands :- SearchAll(buffers, names.archive, ProbeLookback, ProbeRepetition);
    var seeded :- Seed(knownCompressed, knownRaw);
    var checked :- AcceptCompressed(data, Ordered(order(cands.compressed), rels), seeded, names.mainFolder,
                                    names.mainArchive);
    var probed :- ProbeAll(data, names, checked.mapping);
    var forms :- Forms(data, names.archive, names.folder);
    var placed :- PlaceRaw(SortBy(order(cands.raw), Location), checked.raw, probed.mapping, names);
    Ok(State(checked.compressed, placed.entries, probed.entries, forms, placed.mapping))
  }

  /** `discover_files` from the search on: the output object, or the
      error that stopped it. */
  function Discover(data: seq<u8>, buffers: seq<seq<u8>>, rels: seq<DataEntry>, knownCompressed: seq<DataEntry>,
                    knownRaw: seq<DataEntry>, names: Names, order: set<DataEntry> -> seq<DataEntry>)
    : (res: Result<Catalog>)
  {
    var s :- Steps(data, buffers, rels, knownCompressed, knownRaw, names, order);
    Ok(Catalog(ToDicts(s.compressed), ToDicts(s.raw), ToDicts(s.unreferenced), ToDicts(s.forms)))
  }

  /** Every entry of a list. */
  ghost predicate AllFit(es: seq<DataEntry>) {
    forall k :: 0 <= k < |es| ==> Fits(es[k])
  }

  /** `order` lists each set it is given. */
  ghost predicate ListsSets(order: set<DataEntry> -> seq<DataEntry>) {
    forall s :: Lists(order(s), s)
  }

  /** The checked compressed list is the known one followed by renamed
      candidates, so it fits when the known one does. */
  lemma {:induction false} CheckedFit(data: seq<u8>, cands: seq<DataEntry>, seeded: State, names: Names)
    requires AcceptCompressed(data, cands, seeded, names.mainFolder, names.mainArchive).Ok?
    requires AllFit(seeded.compressed) && forall c :: c in cands ==> Fits(c)
    ensures AllFit(AcceptCompressed(data, cands, seeded, names.mainFolder, names.mainArchive).value.compressed)
  {
    var check := e => IsDecompressionValid(data, e);
    var rename := e => Rename(e, names.mainFolder, "cmp ", names.mainArchive);
    var res := AcceptWhere(cands, Claimed(seeded.compressed, seeded.mapping), check, rename).value.entries;
    forall k | 0 <= k < |res| ensures Fits(res[k]) {
      if k >= |seeded.compressed| {
        var added := res[|seeded.compressed|..];
        assert res[k] == added[k - |seeded.compressed|];
        AcceptWhereIs(cands, Claimed(seeded.compressed, seeded.mapping), check, rename, res[k]);
        var c :| c in cands && check(c) == Ok(true) && res[k] == rename(c);
        RenameKeeps(c, names.mainFolder, "cmp ", names.mainArchive);
      }
    }
  }

  /** Every probe record fits: `from_dict` built it. */
  lemma {:induction false} ProbedFit(data: seq<u8>, names: Names, mapping: seq<Range>)
    requires ProbeAll(data, names, mapping).Ok?
    ensures AllFit(ProbeAll(data, names, mapping).value.entries)
  {
    var probe := (i: nat) => ProbeAt(data, i);
    var make := (i: nat) => Unreferenced(names.archive, names.folder, i);
    var res := ProbeAll(data, names, mapping).value.entries;
    forall k | 0 <= k < |res| ensures Fits(res[k]) {
      var j := ProbeFromMakes(|data|, 0, Claimed([], mapping), probe, make, res[k]);
    }
  }

  /** Every form record fits: `from_dict` built it. */
  lemma {:induction false} FormsFit(data: seq<u8>, names: Names)
    requires Forms(data, names.archive, names.folder).Ok?
    ensures AllFit(Forms(data, names.archive, names.folder).value)
  {
    FormsFromIs(data, 0, (p: nat) => FormAt(data, names.archive, names.folder, p));
  }

  /** The placed raw list is the earlier one followed by renamed
      candidates, so it fits when they do. */
  lemma {:induction false} PlacedFit(cands: seq<DataEntry>, raw: seq<DataEntry>, mapping: seq<Range>, names: Names)
    requires PlaceRaw(cands, raw, mapping, names).Ok?
    requires AllFit(raw) && forall c :: c in cands ==> Fits(c)
    ensures AllFit(PlaceRaw(cands, raw, mapping, names).value.entries)
  {
    var rename := e => Rename(e, names.folder, "raw ", names.archive);
    var res := PlaceRaw(cands, raw, mapping, names).value.entries;
    forall k | 0 <= k < |res| ensures Fits(res[k]) {
      if k >= |raw| {
        var added := res[|raw|..];
        assert res[k] == added[k - |raw|];
        AcceptFreeFrom(cands, Claimed(raw, mapping), rename, res[k]);
        var c :| c in cands && res[k] == rename(c);
        RenameKeeps(c, names.folder, "raw ", names.archive);
      }
    }
  }

  /** Each dictionary loads with `from_dict` into an entry whose `to_dict`
      is that dictionary again. */
  predicate Loads(ds: seq<Dict>) {
    forall k :: 0 <= k < |ds| ==> FromDict(ds[k]).Ok? && ToDict(FromDict(ds[k]).value) == ds[k]
  }

  lemma {:induction false} LoadsBack(es: seq<DataEntry>)
    requires AllFit(es)
    ensures Loads(ToDicts(es))
  {
    forall k | 0 <= k < |es| ensures FromDict(ToDicts(es)[k]) == Ok(es[k]) {
      FromToDict(es[k]);
    }
  }

  /** Every candidate the steps consider fits its packed widths. */
  lemma {:induction false} CandidatesFit(buffers: seq<seq<u8>>, rels: seq<DataEntry>, names: Names,
                      order: set<DataEntry> -> seq<DataEntry>)
    requires ListsSets(order)
    requires SearchAll(buffers, names.archive, ProbeLookback, ProbeRepetition).Ok?
    ensures var cands := SearchAll(buffers, names.archive, ProbeLookback, ProbeRepetition).value;
      && (forall c :: c in Ordered(order(cands.compressed), rels) ==> Fits(c))
      && (forall c :: c in SortBy(order(cands.raw), Location) ==> Fits(c))
  {
    var cands := SearchAll(buffers, names.archive, ProbeLookback, ProbeRepetition).value;
    assert Lists(order(cands.compressed), cands.compressed) && Lists(order(cands.raw), cands.raw);
    forall c | c in Ordered(order(cands.compressed), rels) ensures Fits(c) {
      OrderedIs(order(cands.compressed), cands.compressed, rels, c);
      CandidatesLook(buffers, names.archive, ProbeLookback, ProbeRepetition, c);
    }
    forall c | c in SortBy(order(cands.raw), Location) ensures Fits(c) {
      SortByPermutes(order(cands.raw), Location);
      assert c in multiset(SortBy(order(cands.raw), Location));
      CandidatesLook(buffers, names.archive, ProbeLookback, ProbeRepetition, c);
    }
  }

  /** When `order` lists sets faithfully and the known entries fit, every
      dictionary of the output object loads back into the entry it was
      written from. */
  lemma {:induction false} DiscoverLoads(data: seq<u8>, buffers: seq<seq<u8>>, rels: seq<DataEntry>, knownCompressed: seq<DataEntry>,
                      knownRaw: seq<DataEntry>, names: Names, order: set<DataEntry> -> seq<DataEntry>)
    requires ListsSets(order) && AllFit(knownCompressed) && AllFit(knownRaw)
    requires Discover(data, buffers, rels, knownCompressed, knownRaw, names, order).Ok?
    ensures var c := Discover(data, buffers, rels, knownCompressed, knownRaw, names, order).value;
      Loads(c.referencedCompressed) && Loads(c.referencedRaw) && Loads(c.unreferencedCompressed) && Loads(c.forms)
  {
    var cands := SearchAll(buffers, names.archive, ProbeLookback, ProbeRepetition).value;
    CandidatesFit(buffers, rels, names, order);
    var seeded := Seed(knownCompressed, knownRaw).value;
    assert AllFit(seeded.raw) by {
      assert seeded.raw == knownRaw + knownRaw;
      forall k | 0 <= k < |seeded.raw| ensures Fits(seeded.raw[k]) {
        if k >= |knownRaw| { assert seeded.raw[k] == knownRaw[k - |knownRaw|]; }
      }
    }
    var listed := Ordered(order(cands.compressed), rels);
    CheckedFit(data, listed, seeded, names);
    var checked := AcceptCompressed(data, listed, seeded, names.mainFolder, names.mainArchive).value;
    ProbedFit(data, names, checked.mapping);
    var probed := ProbeAll(data, names, checked.mapping).value;
    FormsFit(data, names);
    PlacedFit(SortBy(order(cands.raw), Location), checked.raw, probed.mapping, names);
    var s := Steps(data, buffers, rels, knownCompressed, knownRaw, names, order).value;
    LoadsBack(s.compressed);
    LoadsBack(s.raw);
    LoadsBack(s.unreferenced);
    LoadsBack(s.forms);
  }

  /** The known compressed files open the referenced compressed list, and
      the known raw files, twice over, open the referenced raw list. */
  lemma {:induction false} DiscoverKeepsKnown(data: seq<u8>, buffers: seq<seq<u8>>, rels: seq<DataEntry>, knownCompressed: seq<DataEntry>,
                           knownRaw: seq<DataEntry>, names: Names, order: set<DataEntry> -> seq<DataEntry>)
    requires Discover(data, buffers, rels, knownCompressed, knownRaw, names, order).Ok?
    ensures var c := Discover(data, buffers, rels, knownCompressed, knownRaw, names, order).value;
      && ToDicts(knownCompressed) <= c.referencedCompressed
      && ToDicts(knownRaw + knownRaw) <= c.referencedRaw
  {
    var cands := SearchAll(buffers, names.archive, ProbeLookback, ProbeRepetition).value;
    var seeded := Seed(knownCompressed, knownRaw).value;
    var listed := Ordered(order(cands.compressed), rels);
    var checked := AcceptCompressed(data, listed, seeded, names.mainFolder, names.mainArchive).value;
    var probed := ProbeAll(data, names, checked.mapping).value;
    var s := Steps(data, buffers, rels, knownCompressed, knownRaw, names, order).value;
    assert knownCompressed <= s.compressed && knownRaw + knownRaw <= s.raw;
    PrefixDicts(knownCompressed, s.compressed);
    PrefixDicts(knownRaw + knownRaw, s.raw);
  }

  lemma {:induction false} PrefixDicts(a: seq<DataEntry>, b: seq<DataEntry>)
    requires a <= b
    ensures ToDicts(a) <= ToDicts(b)
  {
  }
}
