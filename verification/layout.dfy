/** Fixed-layout big-endian records (`DataBytesInterpreter`).

    A `struct` format string such as `'>IHBBxx'` is a sequence of fields:
    pad bytes, unsigned integers of one, two or four bytes, and 4-byte
    floats, which are kept as their raw bit pattern. `Unpack` is
    `struct.unpack`, `Pack` is `struct.pack`, and `ParseBytes` is
    `parse_bytes_static`: it takes exactly `calcsize` bytes at an offset and
    fails when fewer are left.

    `Relocate` is what every `add_offset` does to one pointer field: a
    non-null pointer is moved by the offset, a null pointer stays null.
 */
module Layout {
  import opened Bits
  import opened Wrappers

  /** One format character: `x`, `B`, `H`, `I` or `f`. */
  datatype Field = Pad | U8 | U16 | U32 | F32

  /** The bytes one format character takes (no alignment under `>`). */
  function Width(f: Field): nat {
    match f
    case Pad => 1
    case U8 => 1
    case U16 => 2
    case U32 => 4
    case F32 => 4
  }

  /** `calcsize`. */
  function Size(fmt: seq<Field>): nat {
    if |fmt| == 0 then 0 else Width(fmt[0]) + Size(fmt[1..])
  }

  /** The number of values the format unpacks to: every field but the pads. */
  function Count(fmt: seq<Field>): nat {
    if |fmt| == 0 then 0 else (if fmt[0] == Pad then 0 else 1) + Count(fmt[1..])
  }

  /** `vals` has one value per non-pad field, each fitting its field's width. */
  predicate ValuesFit(fmt: seq<Field>, vals: seq<nat>) {
    if |fmt| == 0 then vals == []
    else if fmt[0] == Pad then ValuesFit(fmt[1..], vals)
    else |vals| > 0 && vals[0] < Pow2(8 * Width(fmt[0])) && ValuesFit(fmt[1..], vals[1..])
  }

  /** Fitting values are exactly one per non-pad field. */
  lemma {:induction false} ValuesFitCount(fmt: seq<Field>, vals: seq<nat>)
    requires ValuesFit(fmt, vals)
    ensures |vals| == Count(fmt)
  {
    if |fmt| > 0 {
      if fmt[0] == Pad {
        ValuesFitCount(fmt[1..], vals);
      } else {
        ValuesFitCount(fmt[1..], vals[1..]);
      }
    }
  }

  /** The pad bytes of `b` under `fmt` are zero, as `struct.pack` writes them. */
  predicate PadsZero(fmt: seq<Field>, b: seq<u8>)
    requires |b| == Size(fmt)
  {
    if |fmt| == 0 then true
    else (fmt[0] != Pad || b[0] == 0) && PadsZero(fmt[1..], b[Width(fmt[0])..])
  }

  // ---------------------------------------------------------------------
  // Integers as big-endian bytes

  /** `x.to_bytes(n, 'big')` for a value that fits. */
  function ToBigEndian(x: nat, n: nat): (r: seq<u8>)
    requires x < Pow2(8 * n)
    ensures |r| == n
  {
    if n == 0 then []
    else
      HighBytes(x, n);
      ToBigEndian(x / 256, n - 1) + [x % 256]
  }

  /** Without its last byte, an `n`-byte value fits in `n - 1` bytes. */
  lemma {:induction false} HighBytes(x: nat, n: nat)
    requires n > 0 && x < Pow2(8 * n)
    ensures x / 256 < Pow2(8 * (n - 1))
  {
    Pow2Add(8 * (n - 1), 8);
    Pow2Values();
    DivBoundGeneral(x, 256, Pow2(8 * (n - 1)));
  }

  /** Writing a value and reading it back gives the value. */
  lemma {:induction false} ReadWritten(x: nat, n: nat)
    requires x < Pow2(8 * n)
    ensures BigEndian(ToBigEndian(x, n)) == x
  {
    if n > 0 {
      HighBytes(x, n);
      var high := ToBigEndian(x / 256, n - 1);
      var s := ToBigEndian(x, n);
      assert s[..n - 1] == high;
      ReadWritten(x / 256, n - 1);
      assert BigEndian(s) == BigEndian(high) * 256 + s[n - 1] as int;
    }
  }

  /** Reading bytes and writing the value back gives the bytes. */
  lemma {:induction false} WrittenRead(s: seq<u8>)
    ensures ToBigEndian(BigEndian(s), |s|) == s
  {
    if |s| > 0 {
      var n := |s|;
      var prefix := s[..n - 1];
      WrittenRead(prefix);
      var x := BigEndian(s);
      assert x == BigEndian(prefix) * 256 + s[n - 1] as int;
      DivModUnique(x, 256, BigEndian(prefix), s[n - 1]);
      assert s == prefix + [s[n - 1]];
    }
  }

  // ---------------------------------------------------------------------
  // unpack / pack

  /** `struct.unpack(fmt, b)`. */
  function Unpack(fmt: seq<Field>, b: seq<u8>): (vals: seq<nat>)
    requires |b| == Size(fmt)
    ensures |vals| == Count(fmt) && ValuesFit(fmt, vals)
  {
    if |fmt| == 0 then []
    else
      var w := Width(fmt[0]);
      var rest := Unpack(fmt[1..], b[w..]);
      if fmt[0] == Pad then rest
      else
        var v := BigEndian(b[..w]);
        assert ([v] + rest)[1..] == rest;
        [v] + rest
  }

  /** Unpacking a leading pad skips one byte. */
  lemma {:induction false} UnpackPad(fmt: seq<Field>, b: seq<u8>)
    requires |fmt| > 0 && fmt[0] == Pad && |b| == Size(fmt)
    ensures |b[1..]| == Size(fmt[1..]) && Unpack(fmt, b) == Unpack(fmt[1..], b[1..])
  {
  }

  /** Unpacking a leading value field reads its bytes big-endian. */
  lemma {:induction false} UnpackField(fmt: seq<Field>, b: seq<u8>)
    requires |fmt| > 0 && fmt[0] != Pad && |b| == Size(fmt)
    ensures Width(fmt[0]) <= |b| && |b[Width(fmt[0])..]| == Size(fmt[1..])
    ensures Unpack(fmt, b) == [BigEndian(b[..Width(fmt[0])])] + Unpack(fmt[1..], b[Width(fmt[0])..])
  {
  }

  /** `struct.pack(fmt, *vals)`: a value too wide for its field, or the
      wrong number of values, is a `struct.error`. */
  function Pack(fmt: seq<Field>, vals: seq<nat>): (res: Result<seq<u8>>)
    ensures res.Ok? ==> |res.value| == Size(fmt)
    ensures res.Err? ==> res.error == PackRange
  {
    if |fmt| == 0 then
      if vals == [] then Ok([]) else Err(PackRange)
    else if fmt[0] == Pad then
      var rest :- Pack(fmt[1..], vals);
      Ok([0] + rest)
    else
      var w := Width(fmt[0]);
      if |vals| == 0 || vals[0] >= Pow2(8 * w) then Err(PackRange)
      else
        var rest :- Pack(fmt[1..], vals[1..]);
        Ok(ToBigEndian(vals[0], w) + rest)
  }

  /** Packing succeeds exactly on values that fit, and unpacking the
      packed bytes gives the values back. */
  lemma {:induction false} UnpackPacked(fmt: seq<Field>, vals: seq<nat>)
    ensures Pack(fmt, vals).Ok? <==> ValuesFit(fmt, vals)
    ensures Pack(fmt, vals).Ok? ==> Unpack(fmt, Pack(fmt, vals).value) == vals
  {
    if |fmt| > 0 {
      var w := Width(fmt[0]);
      if fmt[0] == Pad {
        UnpackPacked(fmt[1..], vals);
        if Pack(fmt, vals).Ok? {
          assert Pack(fmt, vals).value[1..] == Pack(fmt[1..], vals).value;
        }
      } else if |vals| > 0 && vals[0] < Pow2(8 * w) {
        UnpackPacked(fmt[1..], vals[1..]);
        if Pack(fmt, vals).Ok? {
          var head, rest := ToBigEndian(vals[0], w), Pack(fmt[1..], vals[1..]).value;
          var b := Pack(fmt, vals).value;
          assert b[..w] == head && b[w..] == rest;
          ReadWritten(vals[0], w);
          assert vals == [vals[0]] + vals[1..];
        }
      }
    }
  }

  /** Unpacking bytes whose pads are zero and packing the values again
      gives the bytes back. */
  lemma {:induction false} PackUnpacked(fmt: seq<Field>, b: seq<u8>)
    requires |b| == Size(fmt) && PadsZero(fmt, b)
    ensures Pack(fmt, Unpack(fmt, b)) == Ok(b)
  {
    if |fmt| > 0 {
      var w := Width(fmt[0]);
      PackUnpacked(fmt[1..], b[w..]);
      var vals := Unpack(fmt, b);
      if fmt[0] == Pad {
        assert b == [0] + b[1..];
      } else {
        var v := BigEndian(b[..w]);
        assert vals == [v] + Unpack(fmt[1..], b[w..]);
        assert vals[1..] == Unpack(fmt[1..], b[w..]);
        WrittenRead(b[..w]);
        assert b == b[..w] + b[w..];
      }
    }
  }

  // ---------------------------------------------------------------------
  // parse_bytes_static

  /** `parse_bytes_static(all, offset, fmt)`: the `calcsize(fmt)` bytes at
      `offset`, unpacked; a short slice is a ValueError. */
  function ParseBytes(all: seq<u8>, offset: nat, fmt: seq<Field>): (res: Result<seq<nat>>)
    ensures res.Err? <==> offset + Size(fmt) > |all| && Size(fmt) > 0
    ensures res.Err? ==> res.error == OutOfBytes
    ensures res.Ok? ==> |res.value| == Count(fmt) && ValuesFit(fmt, res.value)
  {
    var n := Size(fmt);
    if offset + n <= |all| then Ok(Unpack(fmt, all[offset..offset + n]))
    else if n == 0 then Ok(Unpack(fmt, []))
    else Err(OutOfBytes)
  }

  /** A record reads nothing but its own bytes: parsing at `offset` is
      parsing the slice that starts there. */
  lemma {:induction false} ParseWindow(all: seq<u8>, offset: nat, fmt: seq<Field>)
    requires offset + Size(fmt) <= |all|
    ensures ParseBytes(all, offset, fmt) == ParseBytes(all[offset..offset + Size(fmt)], 0, fmt)
  {
    var n := Size(fmt);
    assert all[offset..offset + n][0..n] == all[offset..offset + n];
  }

  /** Two buffers with the same bytes at the two offsets parse alike. */
  lemma {:induction false} ParseSameBytes(a: seq<u8>, i: nat, b: seq<u8>, j: nat, fmt: seq<Field>)
    requires i + Size(fmt) <= |a| && j + Size(fmt) <= |b|
    requires a[i..i + Size(fmt)] == b[j..j + Size(fmt)]
    ensures ParseBytes(a, i, fmt) == ParseBytes(b, j, fmt)
  {
  }

  /** Parsing the packed bytes of fitting values gives the values. */
  lemma {:induction false} ParsePacked(fmt: seq<Field>, vals: seq<nat>)
    requires ValuesFit(fmt, vals)
    ensures Pack(fmt, vals).Ok? && ParseBytes(Pack(fmt, vals).value, 0, fmt) == Ok(vals)
  {
    UnpackPacked(fmt, vals);
    var b := Pack(fmt, vals).value;
    assert b[0..|b|] == b;
  }

  // ---------------------------------------------------------------------
  // add_offset

  /** `if ptr: ptr += offset`. */
  function Relocate(ptr: nat, offset: nat): (r: nat)
    ensures r == 0 <==> ptr == 0
    ensures ptr != 0 ==> r - ptr == offset
  {
    if ptr != 0 then ptr + offset else ptr
  }

  /** Relocating twice is relocating once by the sum. */
  lemma {:induction false} RelocateTwice(ptr: nat, a: nat, b: nat)
    ensures Relocate(Relocate(ptr, a), b) == Relocate(ptr, a + b)
  {
  }
}
