/** The two small readers of `helpers/binary.py` (duplicated in
    `helpers/to_sort.py`): the part table at the start of an archive
    section and NUL-terminated strings.
 */
module Binary {
  import opened Bits
  import opened Wrappers
  import opened Compressor

  // ---------------------------------------------------------------------
  // get_parts_of_file

  /** The big-endian integer of the `k`-th four-byte slot. Past the end
      of the buffer the slice is short, so it reads as a shorter integer,
      and an empty slice reads as 0. */
  function Word(bytes: seq<u8>, k: nat): nat {
    BigEndian(Slice(bytes, 4 * k, 4 * k + 4))
  }

  /** A slot that starts at or past the end of the buffer reads as 0. */
  lemma {:induction false} WordPastEnd(bytes: seq<u8>, k: nat)
    requires 4 * k >= |bytes|
    ensures Word(bytes, k) == 0
  {
  }

  /** `r` is the part table read from slot `j` on, after a previous part
      `last` (if any), where `word(k)` is the `k`-th slot: consecutive
      slots, each nonzero and larger than the one before, ended by the
      first slot that is 0 or not larger. */
  predicate IsPartTable(word: nat -> nat, j: nat, last: Option<nat>, r: seq<nat>) {
    && (forall k :: 0 <= k < |r| ==> r[k] == word(j + k) && r[k] > 0)
    && (forall k :: 0 < k < |r| ==> r[k - 1] < r[k])
    && (|r| > 0 && last.Some? ==> last.value < r[0])
    && var w := word(j + |r|);
       (|| w == 0
        || (|r| > 0 && w <= r[|r| - 1])
        || (|r| == 0 && last.Some? && w <= last.value))
  }

  /** Every nonzero slot starts inside a buffer of `size` bytes. */
  ghost predicate ZeroPast(word: nat -> nat, size: nat) {
    forall k: nat :: word(k) != 0 ==> 4 * k < size
  }

  /** The slots of a buffer are zero past its end. */
  lemma {:induction false} WordsZeroPast(bytes: seq<u8>)
    ensures ZeroPast(Slots(bytes), |bytes|)
  {
  }

  /** The slots of a buffer as a function of the slot number. */
  function Slots(bytes: seq<u8>): nat -> nat {
    (k: nat) => Word(bytes, k)
  }

  /** The loop of `get_parts_of_file` from slot `j` on. */
  function PartsFrom(word: nat -> nat, size: nat, j: nat, last: Option<nat>): (r: seq<nat>)
    requires ZeroPast(word, size)
    decreases size - 4 * j
  {
    var w := word(j);
    if w == 0 || (last.Some? && w <= last.value) then []
    else
      assert 4 * j < size;
      [w] + PartsFrom(word, size, j + 1, Some(w))
  }

  /** The loop reads consecutive slots, each nonzero, and no slot past
      the buffer. */
  lemma {:induction false} PartsFromWords(word: nat -> nat, size: nat, j: nat, last: Option<nat>)
    requires ZeroPast(word, size)
    ensures var r := PartsFrom(word, size, j, last);
      && (forall k :: 0 <= k < |r| ==> r[k] == word(j + k) && r[k] > 0)
      && (|r| > 0 ==> 4 * (j + |r|) <= size + 3)
    decreases size - 4 * j
  {
    var w := word(j);
    if !(w == 0 || (last.Some? && w <= last.value)) {
      var rest := PartsFrom(word, size, j + 1, Some(w));
      PartsFromWords(word, size, j + 1, Some(w));
      var r := [w] + rest;
      forall k | 0 < k < |r|
        ensures r[k] == word(j + k)
      {
        assert r[k] == rest[k - 1];
      }
    }
  }

  /** Each part is larger than the one before, the first larger than `last`. */
  lemma {:induction false} PartsFromIncreasing(word: nat -> nat, size: nat, j: nat, last: Option<nat>)
    requires ZeroPast(word, size)
    ensures var r := PartsFrom(word, size, j, last);
      && (forall k :: 0 < k < |r| ==> r[k - 1] < r[k])
      && (|r| > 0 && last.Some? ==> last.value < r[0])
    decreases size - 4 * j
  {
    var w := word(j);
    if !(w == 0 || (last.Some? && w <= last.value)) {
      var rest := PartsFrom(word, size, j + 1, Some(w));
      PartsFromIncreasing(word, size, j + 1, Some(w));
      var r := [w] + rest;
      forall k | 0 < k < |r|
        ensures r[k - 1] < r[k]
      {
        assert r[k] == rest[k - 1];
        if k > 1 {
          assert r[k - 1] == rest[k - 2];
        }
      }
    }
  }

  /** The slot after the last part is 0 or not larger than the last part. */
  lemma {:induction false} PartsFromStops(word: nat -> nat, size: nat, j: nat, last: Option<nat>)
    requires ZeroPast(word, size)
    ensures var r := PartsFrom(word, size, j, last);
      var w := word(j + |r|);
      (|| w == 0
       || (|r| > 0 && w <= r[|r| - 1])
       || (|r| == 0 && last.Some? && w <= last.value))
    decreases size - 4 * j
  {
    var w := word(j);
    if !(w == 0 || (last.Some? && w <= last.value)) {
      var rest := PartsFrom(word, size, j + 1, Some(w));
      PartsFromStops(word, size, j + 1, Some(w));
      var r := [w] + rest;
      assert j + |r| == (j + 1) + |rest|;
      assert r[|r| - 1] == (if |rest| > 0 then rest[|rest| - 1] else w);
    }
  }

  /** The loop from slot `j` yields the part table from there. */
  lemma {:induction false} PartsFromIs(word: nat -> nat, size: nat, j: nat, last: Option<nat>)
    requires ZeroPast(word, size)
    ensures var r := PartsFrom(word, size, j, last);
      IsPartTable(word, j, last, r) && (|r| > 0 ==> 4 * (j + |r|) <= size + 3)
  {
    PartsFromWords(word, size, j, last);
    PartsFromIncreasing(word, size, j, last);
    PartsFromStops(word, size, j, last);
  }

  /** `get_parts_of_file(bytes)`. */
  function PartsOfFile(bytes: seq<u8>): seq<nat> {
    WordsZeroPast(bytes);
    PartsFrom(Slots(bytes), |bytes|, 0, None)
  }

  /** The result of `get_parts_of_file` is the part table of the buffer,
      strictly increasing and nonzero, with at most one part per started
      four-byte slot. */
  lemma {:induction false} PartsOfFileIs(bytes: seq<u8>)
    ensures var r := PartsOfFile(bytes);
      && IsPartTable(Slots(bytes), 0, None, r)
      && (forall a, b :: 0 <= a < b < |r| ==> 0 < r[a] < r[b])
      && 4 * |r| <= |bytes| + 3
  {
    WordsZeroPast(bytes);
    PartsFromIs(Slots(bytes), |bytes|, 0, None);
    Increasing(PartsOfFile(bytes));
  }

  /** A sequence of positive numbers that grows at every step is strictly
      increasing. */
  lemma {:induction false} Increasing(r: seq<nat>)
    requires forall k :: 0 <= k < |r| ==> r[k] > 0
    requires forall k :: 0 < k < |r| ==> r[k - 1] < r[k]
    ensures forall a, b :: 0 <= a < b < |r| ==> 0 < r[a] < r[b]
  {
    forall a, b | 0 <= a < b < |r|
      ensures r[a] < r[b]
    {
      Chain(r, a, b);
    }
  }

  /** In a sequence that grows at every step, earlier is smaller. */
  lemma {:induction false} Chain(r: seq<nat>, a: nat, b: nat)
    requires forall k :: 0 < k < |r| ==> r[k - 1] < r[k]
    requires a < b < |r|
    ensures r[a] < r[b]
    decreases b - a
  {
    if a + 1 < b {
      Chain(r, a, b - 1);
    }
  }

  /** There is exactly one part table: the result of `get_parts_of_file`
      is the only sequence that meets the description. */
  lemma {:induction false} PartTableUnique(bytes: seq<u8>, r: seq<nat>)
    ensures IsPartTable(Slots(bytes), 0, None, r) <==> r == PartsOfFile(bytes)
  {
    PartsOfFileIs(bytes);
    if IsPartTable(Slots(bytes), 0, None, r) {
      WordsZeroPast(bytes);
      TableIsParts(Slots(bytes), |bytes|, 0, None, r);
    }
  }

  /** A part table from slot `j` is what the loop yields from there. */
  lemma {:induction false} TableIsParts(word: nat -> nat, size: nat, j: nat, last: Option<nat>, r: seq<nat>)
    requires ZeroPast(word, size) && IsPartTable(word, j, last, r)
    ensures r == PartsFrom(word, size, j, last)
    decreases |r|
  {
    if |r| > 0 {
      TableTail(word, j, last, r);
      TableIsParts(word, size, j + 1, Some(r[0]), r[1..]);
      assert r == [r[0]] + r[1..];
    }
  }

  /** Without its first part, a part table is the table from the next slot. */
  lemma {:induction false} TableTail(word: nat -> nat, j: nat, last: Option<nat>, r: seq<nat>)
    requires IsPartTable(word, j, last, r) && |r| > 0
    ensures IsPartTable(word, j + 1, Some(r[0]), r[1..])
  {
    var t := r[1..];
    forall k | 0 <= k < |t|
      ensures t[k] == word(j + 1 + k) && t[k] > 0
    {
      assert t[k] == r[k + 1];
    }
    forall k | 0 < k < |t|
      ensures t[k - 1] < t[k]
    {
      assert t[k] == r[k + 1] && t[k - 1] == r[k];
    }
    assert j + 1 + |t| == j + |r|;
    assert |t| > 0 ==> t[0] == r[1] && t[|t| - 1] == r[|r| - 1];
  }

  // ---------------------------------------------------------------------
  // get_c_str

  /** `chr` of one byte. */
  function Chr(x: u8): char {
    x as char
  }

  /** The characters of a byte string, one per byte. */
  function Chars(s: seq<u8>): (r: string)
    ensures |r| == |s| && forall k :: 0 <= k < |s| ==> r[k] == Chr(s[k])
  {
    seq(|s|, k requires 0 <= k < |s| => Chr(s[k]))
  }

  /** The scan of `get_c_str` from index `i`: `left` is how many more
      characters may be collected before the length limit stops the loop
      (`None` for no limit). An index past the end is an IndexError. */
  function ScanFrom(b: seq<u8>, i: nat, left: Option<int>): (res: Result<string>)
    ensures res.Err? ==> res.error == IndexOutOfRange
    ensures res.Ok? ==> i + |res.value| <= |b| && res.value == Chars(b[i..i + |res.value|])
    decreases |b| - i
  {
    if i >= |b| then Err(IndexOutOfRange)
    else if b[i] == 0 then Ok([])
    else if left.Some? && left.value <= 1 then Ok([Chr(b[i])])
    else
      var rest :- ScanFrom(b, i + 1, if left.Some? then Some(left.value - 1) else None);
      Ok([Chr(b[i])] + rest)
  }

  /** `get_c_str(b, offset, max_length)`; `max_length` defaults to 100 at
      the call sites, and `None` lifts the limit. */
  function CStr(b: seq<u8>, offset: nat, maxLength: Option<int>): (res: Result<string>)
    ensures res.Err? ==> res.error == IndexOutOfRange
    ensures res.Ok? ==> offset + |res.value| <= |b| && res.value == Chars(b[offset..offset + |res.value|])
  {
    ScanFrom(b, offset, maxLength)
  }

  /** The longest string the limit lets through: one character is always
      collected before the limit is checked. */
  function Limit(maxLength: int): nat {
    if maxLength < 1 then 1 else maxLength
  }

  /** A string `ScanFrom` returns holds no NUL byte and ends at a NUL or
      once the limit is reached. */
  lemma {:induction false} ScanFromStops(b: seq<u8>, i: nat, left: Option<int>)
    ensures var res := ScanFrom(b, i, left);
      res.Ok? ==>
        && (forall k :: i <= k < i + |res.value| ==> b[k] != 0)
        && (|| (i + |res.value| < |b| && b[i + |res.value|] == 0)
            || (left.Some? && |res.value| == Limit(left.value)))
    decreases |b| - i
  {
    if i < |b| && b[i] != 0 && !(left.Some? && left.value <= 1) {
      var next := if left.Some? then Some(left.value - 1) else None;
      ScanFromStops(b, i + 1, next);
    }
  }

  /** The scan fails only when the buffer ends first, with no NUL and
      fewer bytes than the limit. */
  lemma {:induction false} ScanFromFails(b: seq<u8>, i: nat, left: Option<int>)
    ensures ScanFrom(b, i, left).Err? ==>
      && (forall k :: i <= k < |b| ==> b[k] != 0)
      && (left.Some? ==> |b| - i < Limit(left.value))
    decreases |b| - i
  {
    if i < |b| && b[i] != 0 && !(left.Some? && left.value <= 1) {
      var next := if left.Some? then Some(left.value - 1) else None;
      ScanFromFails(b, i + 1, next);
    }
  }

  /** `get_c_str` returns the characters from `offset` up to the first NUL,
      cut at the length limit, and never a NUL character; it fails exactly
      when the buffer ends before a NUL or the limit. */
  lemma {:induction false} CStrIs(b: seq<u8>, offset: nat, maxLength: Option<int>)
    ensures var res := CStr(b, offset, maxLength);
      && (res.Ok? ==>
            && '\0' !in res.value
            && (maxLength.Some? ==> |res.value| <= Limit(maxLength.value))
            && (|| (offset + |res.value| < |b| && b[offset + |res.value|] == 0)
                || (maxLength.Some? && |res.value| == Limit(maxLength.value))))
      && (res.Err? <==>
            && (forall k :: offset <= k < |b| ==> b[k] != 0)
            && (maxLength.Some? ==> |b| - offset < Limit(maxLength.value)))
  {
    var res := CStr(b, offset, maxLength);
    ScanFromStops(b, offset, maxLength);
    ScanFromFails(b, offset, maxLength);
    if res.Ok? {
      var s := res.value;
      forall k | 0 <= k < |s|
        ensures s[k] != '\0'
      {
        assert s[k] == Chr(b[offset + k]);
      }
      if maxLength.Some? {
        CStrWithinLimit(b, offset, maxLength.value);
      }
      if (forall k :: offset <= k < |b| ==> b[k] != 0) {
        assert !(offset + |s| < |b| && b[offset + |s|] == 0);
        assert maxLength.Some? && |s| == Limit(maxLength.value);
      }
    }
  }

  /** A limited scan never collects more characters than the limit. */
  lemma {:induction false} ScanWithinLimit(b: seq<u8>, i: nat, left: int)
    ensures ScanFrom(b, i, Some(left)).Ok? ==> |ScanFrom(b, i, Some(left)).value| <= Limit(left)
    decreases |b| - i
  {
    if i < |b| && b[i] != 0 && left > 1 {
      ScanWithinLimit(b, i + 1, left - 1);
    }
  }

  lemma {:induction false} CStrWithinLimit(b: seq<u8>, offset: nat, maxLength: int)
    ensures CStr(b, offset, Some(maxLength)).Ok? ==> |CStr(b, offset, Some(maxLength)).value| <= Limit(maxLength)
  {
    ScanWithinLimit(b, offset, maxLength);
  }
}
