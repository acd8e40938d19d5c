/** The integer helpers of the texture decoders (`helpers/textures.py`,
    with an older copy at the end of `helper_texture.py`).

    Shifts and masks are Python's on unbounded integers: `x >> n` is
    `Shr`, `x << n` is `Shl`, `&` and `|` are `And` and `Or`. Each helper
    is written with those operators as the source writes it, and the lemmas
    give the arithmetic it amounts to: bit replication that keeps the
    value in its top bits, blends that stay between their inputs, mip
    counts that grow with every level, a byte swap that undoes itself and
    a packed RGBA word whose bytes come back out.
 */
module TextureMath {
  import opened Bits
  import opened Wrappers

  // ---------------------------------------------------------------------
  // expand_to_8_bits

  /** `expand_to_8_bits(val, num_bits)`: the `num_bits`-bit value repeated
      downwards to fill a byte. Widths 4 and 3 have their own formula; any
      other width shifts left by `8 - num_bits` and right by
      `2 * num_bits - 8`, so a width below 3 or above 8 makes one of the
      shift counts negative, which Python rejects with a ValueError. */
  function ExpandTo8Bits(val: nat, numBits: int): (r: Result<nat>)
    ensures r.Err? <==> numBits < 3 || numBits > 8
    ensures r.Err? ==> r.error == NegativeShift
  {
    if numBits == 4 then Ok(Or(Shl(val, 4), val))
    else if numBits == 3 then Ok(Or(Or(Shl(val, 5), Shl(val, 2)), Shr(val, 1)))
    else if 8 - numBits < 0 || numBits * 2 - 8 < 0 then Err(NegativeShift)
    else Ok(Or(Shl(val, 8 - numBits), Shr(val, numBits * 2 - 8)))
  }

  /** `(v << 4) | v` is `17 * v` for a nibble: the nibble twice. */
  lemma {:induction false} ExpandNibble(v: nat)
    requires v < 16
    ensures ExpandTo8Bits(v, 4) == Ok(17 * v)
  {
    assert Pow2(4) == 16;
    OrShifted(v, v, 4);
  }

  /** `(v << 5) | (v << 2) | (v >> 1)` for a 3-bit value. */
  lemma {:induction false} ExpandThree(v: nat)
    requires v < 8
    ensures ExpandTo8Bits(v, 3) == Ok(36 * v + v / 2)
  {
    assert Pow2(1) == 2 && Pow2(2) == 4 && Pow2(3) == 8 && Pow2(5) == 32;
    var x, y := Shl(v, 5), Shl(v, 2);
    assert x == v * Pow2(3) * Pow2(2) && y == v * Pow2(2);
    assert Or(x, y) == 36 * v by {
      OrComm(x, y);
      OrDisjoint(y, v, 5);
    }
    assert 36 * v == Shl(9 * v, 2);
    OrShifted(9 * v, Shr(v, 1), 2);
  }

  /** The general formula for widths 5 to 8. */
  lemma {:induction false} ExpandWide(v: nat, n: nat)
    requires 5 <= n <= 8 && v < Pow2(n)
    ensures ExpandTo8Bits(v, n) == Ok(v * Pow2(8 - n) + v / Pow2(2 * n - 8))
  {
    LowHalfFits(v, n);
    OrShifted(v, Shr(v, 2 * n - 8), 8 - n);
  }

  /** The byte an expansion produces, as plain arithmetic: the value in the
      top `n` bits and its leading bits again below them. */
  lemma {:induction false} ExpandValue(v: nat, n: nat)
    requires 3 <= n <= 8 && v < Pow2(n)
    ensures ExpandTo8Bits(v, n).Ok?
    ensures n == 3 ==> ExpandTo8Bits(v, n).value == 36 * v + v / 2
    ensures n >= 4 ==> ExpandTo8Bits(v, n).value == v * Pow2(8 - n) + v / Pow2(2 * n - 8)
  {
    if n == 4 {
      assert Pow2(4) == 16 && Pow2(0) == 1;
      ExpandNibble(v);
    } else if n == 3 {
      assert Pow2(3) == 8;
      ExpandThree(v);
    } else {
      ExpandWide(v, n);
    }
  }

  /** For widths 5 to 8 the bits shifted in from the right fit below the
      value: `v >> (2n - 8) < 2^(8 - n)`. */
  lemma {:induction false} LowHalfFits(v: nat, n: nat)
    requires 5 <= n <= 8 && v < Pow2(n)
    ensures v / Pow2(2 * n - 8) < Pow2(8 - n)
  {
    Pow2Values();
    assert Pow2(0) == 1;
    if n == 5 {
      assert v / 4 < 8;
    } else if n == 6 {
      assert v / 16 < 4;
    } else if n == 7 {
      assert v / 64 < 2;
    } else {
      assert v / 256 == 0;
    }
  }

  /** For every width from 3 to 8 the expansion is a byte, 0 stays 0, the
      largest value becomes 255, and shifting the byte back down gives the
      value: the top bits are the value itself. */
  lemma {:induction false} ExpandBounds(v: nat, n: nat)
    requires 3 <= n <= 8 && v < Pow2(n)
    ensures ExpandTo8Bits(v, n).Ok?
    ensures ExpandTo8Bits(v, n).value < 256
    ensures v == 0 ==> ExpandTo8Bits(v, n).value == 0
    ensures v == Pow2(n) - 1 ==> ExpandTo8Bits(v, n).value == 255
    ensures Shr(ExpandTo8Bits(v, n).value, 8 - n) == v
  {
    ExpandValue(v, n);
    ExpandArith(v, n, ExpandTo8Bits(v, n).value);
  }

  /** The arithmetic behind `ExpandBounds`, on the formula `ExpandValue` gives. */
  lemma {:induction false} ExpandArith(v: nat, n: nat, r: nat)
    requires 3 <= n <= 8 && v < Pow2(n)
    requires n == 3 ==> r == 36 * v + v / 2
    requires n >= 4 ==> r == v * Pow2(8 - n) + v / Pow2(2 * n - 8)
    ensures r < 256
    ensures v == 0 ==> r == 0
    ensures v == Pow2(n) - 1 ==> r == 255
    ensures r / Pow2(8 - n) == v
  {
    if n == 3 {
      ThreeBitArith(v, r);
    } else {
      var k := 8 - n;
      DivNat(v, Pow2(2 * n - 8));
      var low := v / Pow2(2 * n - 8);
      if n == 4 {
        assert Pow2(0) == 1 && Pow2(4) == 16;
      } else {
        LowHalfFits(v, n);
      }
      TopBits(v, k, low);
      ShiftedBound(v, n, k, low);
    }
    if v == Pow2(n) - 1 {
      ExpandLargest(n, r);
    }
  }

  lemma {:induction false} ThreeBitArith(v: nat, r: nat)
    requires v < 8 && r == 36 * v + v / 2
    ensures r < 256 && r / Pow2(5) == v
  {
    assert Pow2(5) == 32;
    assert r == v * 32 + (4 * v + v / 2);
    TopBits(v, 5, 4 * v + v / 2);
  }

  /** `v * 2^k + low` with `low < 2^k` and `v < 2^n` stays below `2^(n + k)`. */
  lemma {:induction false} ShiftedBound(v: nat, n: nat, k: nat, low: nat)
    requires v < Pow2(n) && low < Pow2(k) && n + k == 8
    ensures v * Pow2(k) + low < 256
  {
    var p, q := Pow2(k), Pow2(n);
    MulAddRight(v, 1, p);
    MulLeMul(v + 1, q, p);
    Pow2Add(n, k);
    assert q * p == Pow2(8) == 256;
  }

  /** The value sits above `k` low bits that are below `2^k`. */
  lemma {:induction false} TopBits(v: nat, k: nat, low: nat)
    requires low < Pow2(k)
    ensures (v * Pow2(k) + low) / Pow2(k) == v
  {
    DivModUnique(v * Pow2(k) + low, Pow2(k), v, low);
  }

  /** The all-ones value of each width expands to 255. */
  lemma {:induction false} ExpandLargest(n: nat, r: nat)
    requires 3 <= n <= 8
    requires n == 3 ==> r == 36 * (Pow2(n) - 1) + (Pow2(n) - 1) / 2
    requires n >= 4 ==> r == (Pow2(n) - 1) * Pow2(8 - n) + (Pow2(n) - 1) / Pow2(2 * n - 8)
    ensures r == 255
  {
    Pow2Values();
    assert Pow2(0) == 1;
  }

  // ---------------------------------------------------------------------
  // Blends

  /** `S3TCBlend(a, b)`: `((a << 1) + a + (b << 2) + b) >> 3`. */
  function S3tcBlend(a: nat, b: nat): nat {
    Shr((Shl(a, 1) + a) + (Shl(b, 2) + b), 3)
  }

  /** `DXTBlend(v1, v2)`, also `TPLFileCMPR.dxt_blend`: `(3 * v1 + 5 * v2) >> 3`,
      five eighths of the second value and three eighths of the first. */
  function DxtBlend(v1: nat, v2: nat): nat {
    Shr(v1 * 3 + v2 * 5, 3)
  }

  /** The two blends are one formula written two ways. */
  lemma {:induction false} S3tcIsDxt(a: nat, b: nat)
    ensures S3tcBlend(a, b) == DxtBlend(a, b)
  {
    Pow2Values();
  }

  /** A blend lies between its inputs. */
  lemma {:induction false} DxtBlendBetween(v1: nat, v2: nat)
    ensures Min(v1, v2) <= DxtBlend(v1, v2) <= Max(v1, v2)
  {
    Pow2Values();
    var s := v1 * 3 + v2 * 5;
    assert 8 * Min(v1, v2) <= s <= 8 * Max(v1, v2);
  }

  /** `halfBlend(a, b)`: `(a + b) >> 1`. */
  function HalfBlend(a: nat, b: nat): nat {
    Shr(a + b, 1)
  }

  /** The average lies between its inputs. */
  lemma {:induction false} HalfBlendBetween(a: nat, b: nat)
    ensures Min(a, b) <= HalfBlend(a, b) <= Max(a, b)
  {
    Pow2Values();
  }

  function Min(a: nat, b: nat): nat {
    if a <= b then a else b
  }

  function Max(a: nat, b: nat): nat {
    if a >= b then a else b
  }

  // ---------------------------------------------------------------------
  // Mip counts

  /** One mip step on a dimension: halved while it is above 1. */
  function Halve(x: nat): (r: nat)
    ensures x >= 1 ==> 1 <= r <= x
  {
    if x > 1 then x / 2 else x
  }

  /** `range(mips - 1)` runs `mips - 1` times, and not at all for `mips <= 1`. */
  function Iterations(mips: int): nat {
    if mips > 1 then mips - 1 else 0
  }

  /** The texels of the `levels` mip levels below a `width` by `height` one. */
  function MipLevels(width: nat, height: nat, levels: nat): nat {
    if levels == 0 then 0
    else
      var w, h := Halve(width), Halve(height);
      w * h + MipLevels(w, h, levels - 1)
  }

  /** The texels of a `mips`-level chain: the full image and the levels below it. */
  function MippedTexelCount(width: nat, height: nat, mips: int): (r: nat)
    ensures mips <= 1 ==> r == width * height
  {
    width * height + MipLevels(width, height, Iterations(mips))
  }

  /** `computeMippedTexelCount`: the loop adds the area of each halved level. */
  method ComputeMippedTexelCount(width: nat, height: nat, mips: int) returns (ret: nat)
    ensures ret == MippedTexelCount(width, height, mips)
  {
    var w, h := width, height;
    ret := w * h;
    var i := 0;
    var n := Iterations(mips);
    while i < n
      invariant 0 <= i <= n
      invariant ret + MipLevels(w, h, n - i) == MippedTexelCount(width, height, mips)
    {
      if w > 1 {
        w := w / 2;
      }
      if h > 1 {
        h := h / 2;
      }
      ret := ret + w * h;
      i := i + 1;
    }
  }

  /** `computeMippedBlockCountDXT1`: the same chain on 4 by 4 blocks. */
  method ComputeMippedBlockCountDxt1(width: nat, height: nat, mips: int) returns (ret: nat)
    ensures ret == MippedTexelCount(width / 4, height / 4, mips)
  {
    ret := ComputeMippedTexelCount(width / 4, height / 4, mips);
  }

  /** A further level of a non-empty image adds at least one texel. */
  lemma {:induction false} MipLevelsGrow(width: nat, height: nat, levels: nat)
    requires width >= 1 && height >= 1
    ensures MipLevels(width, height, levels + 1) >= MipLevels(width, height, levels) + 1
    decreases levels
  {
    var w, h := Halve(width), Halve(height);
    MulLeMul(1, h, w);
    if levels > 0 {
      MipLevelsGrow(w, h, levels - 1);
    }
  }

  /** More mip levels never count fewer texels, and for a non-empty image
      each level past the first counts strictly more. */
  lemma {:induction false} MipCountMonotone(width: nat, height: nat, mips1: int, mips2: int)
    requires width >= 1 && height >= 1 && 1 <= mips1 <= mips2
    ensures MippedTexelCount(width, height, mips1) <= MippedTexelCount(width, height, mips2)
    ensures mips1 < mips2 ==> MippedTexelCount(width, height, mips1) < MippedTexelCount(width, height, mips2)
    decreases mips2 - mips1
  {
    if mips1 < mips2 {
      MipCountMonotone(width, height, mips1, mips2 - 1);
      MipLevelsGrow(width, height, Iterations(mips2 - 1));
    }
  }

  // ---------------------------------------------------------------------
  // bswap16 and make_RGBA

  /** `bswap16(val)`: `((val & 0xFF) << 8) | ((val >> 8) & 0xFF)`. */
  function Bswap16(val: nat): nat {
    Or(Shl(And(val, 0xFF), 8), And(Shr(val, 8), 0xFF))
  }

  /** The swap puts the low byte on top and the second byte below it. */
  lemma {:induction false} Bswap16Value(val: nat)
    ensures Bswap16(val) == val % 256 * 256 + val / 256 % 256
    ensures Bswap16(val) < 0x1_0000
  {
    Pow2Values();
    MaskIsAnd(val, 8);
    MaskIsAnd(Shr(val, 8), 8);
    var lo, hi := val % 256, val / 256 % 256;
    OrComm(lo * 256, hi);
    OrDisjoint(hi, lo, 8);
  }

  /** Swapping twice gives back any 16-bit value. */
  lemma {:induction false} Bswap16Involution(val: nat)
    requires val < 0x1_0000
    ensures Bswap16(Bswap16(val)) == val
  {
    Bswap16Value(val);
    var x := Bswap16(val);
    Bswap16Value(x);
    SwapBytes(val, x);
  }

  /** The arithmetic of a double swap: the bytes of `x` are those of `val`
      the other way round. */
  lemma {:induction false} SwapBytes(val: nat, x: nat)
    requires val < 0x1_0000 && x == val % 256 * 256 + val / 256 % 256
    ensures x % 256 * 256 + x / 256 % 256 == val
  {
    var lo, hi := val % 256, val / 256;
    assert hi < 256;
    assert hi % 256 == hi;
    DivModUnique(x, 256, lo, hi);
  }

  /** `make_RGBA(r, g, b, a)`: `(a << 24) | (b << 16) | (g << 8) | r`. */
  function MakeRgba(r: nat, g: nat, b: nat, a: nat): nat {
    Or(Or(Or(Shl(a, 24), Shl(b, 16)), Shl(g, 8)), r)
  }

  /** With byte-sized channels the OR-ed word is their sum. */
  lemma {:induction false} MakeRgbaValue(r: nat, g: nat, b: nat, a: nat)
    requires r < 256 && g < 256 && b < 256 && a < 256
    ensures MakeRgba(r, g, b, a) == a * 0x100_0000 + b * 0x1_0000 + g * 256 + r
  {
    Pow2Values();
    var ab := Or(Shl(a, 24), Shl(b, 16));
    assert ab == Shl(a * 256 + b, 16) by {
      OrShifted(a, b * 0x1_0000, 24);
    }
    var abg := Or(ab, Shl(g, 8));
    assert abg == Shl(a * 0x1_0000 + b * 256 + g, 8) by {
      OrShifted(a * 256 + b, g * 256, 16);
    }
    OrShifted(a * 0x1_0000 + b * 256 + g, r, 8);
  }

  /** Each channel comes back out of the word: its big-endian bytes are
      alpha, blue, green and red, and reading them back gives the word. */
  lemma {:induction false} MakeRgbaBytes(r: nat, g: nat, b: nat, a: nat)
    requires r < 256 && g < 256 && b < 256 && a < 256
    ensures MakeRgba(r, g, b, a) < 0x1_0000_0000
    ensures WordBytes(MakeRgba(r, g, b, a)) == [a, b, g, r]
    ensures BigEndian([a, b, g, r]) == MakeRgba(r, g, b, a)
  {
    MakeRgbaValue(r, g, b, a);
    var w := MakeRgba(r, g, b, a);
    DivModUnique(w, 0x100_0000, a, b * 0x1_0000 + g * 256 + r);
    DivModUnique(w, 0x1_0000, a * 256 + b, g * 256 + r);
    DivModUnique(w / 0x1_0000, 256, a, b);
    DivModUnique(w, 256, a * 0x1_0000 + b * 256 + g, r);
    DivModUnique(w / 256, 256, a * 256 + b, g);
    BigEndian4([a, b, g, r]);
  }
}
