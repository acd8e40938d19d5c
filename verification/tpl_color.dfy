/** The 16-bit colour encodings of TPL textures and palettes
    (`structs/texture/tpl_color.py`, with an older copy in
    `helper_texture.py`).

    Each colour class turns an integer into a `data` tuple with `from_int`
    and back with `to_int`: IA8 is an intensity byte and an alpha byte,
    R5G6B5 is three channels of 5, 6 and 5 bits without alpha, and RGB5A3
    is either three 5-bit channels that are opaque (top bit set) or three
    4-bit channels with a 3-bit alpha (top bit clear). Channels are scaled
    to a byte by shifting left, as the source does. `to_int` indexes the
    tuple, so a three-channel tuple given to a class that reads alpha is an
    IndexError.
 */
module TplColor {
  import opened Bits
  import opened Wrappers
  import TextureMath
  import Layout

  /** A colour class's `data`: three channels, or four with alpha. */
  datatype Color = Rgb(r: nat, g: nat, b: nat) | Rgba(r: nat, g: nat, b: nat, a: nat)

  /** `has_alpha`: the tuple has four entries. */
  predicate HasAlpha(c: Color) {
    c.Rgba?
  }

  /** Every channel of the colour is a byte. */
  predicate Bytes(c: Color) {
    c.r < 256 && c.g < 256 && c.b < 256 && (c.Rgba? ==> c.a < 256)
  }

  /** The three colour classes. */
  datatype Kind = IA8 | R5G6B5 | RGB5A3

  // ---------------------------------------------------------------------
  // IA8

  /** `TPLColorIA8.from_int`: the low byte is alpha, the rest is the intensity. */
  function Ia8FromInt(i: nat): (c: Color)
    ensures c.Rgba? && c.r == c.g == c.b && c.a < 256
    ensures c.r * 256 + c.a == i
  {
    MaskIsAnd(i, 8);
    MaskShr(i, 8);
    Pow2Values();
    var a := And(i, 0xFF);
    var v := Shr(i, 8);
    Rgba(v, v, v, a)
  }

  /** `TPLColorIA8.to_int`: `(alpha << 8) | intensity`. */
  function Ia8ToInt(c: Color): (r: Result<nat>)
    ensures r.Err? <==> !c.Rgba?
    ensures r.Err? ==> r.error == IndexOutOfRange
  {
    if !c.Rgba? then Err(IndexOutOfRange)
    else Ok(Or(Shl(c.a, 8), c.r))
  }

  /** Reading a 16-bit IA8 value and writing it back swaps its two bytes:
      the intensity byte comes out low. */
  lemma {:induction false} Ia8RoundTrip(x: nat)
    requires x < 0x1_0000
    ensures Ia8ToInt(Ia8FromInt(x)) == Ok(TextureMath.Bswap16(x))
  {
    Pow2Values();
    var v := Shr(x, 8);
    assert v < 256;
    MaskIsAnd(v, 8);
  }

  // ---------------------------------------------------------------------
  // R5G6B5

  /** `TPLColorR5G6B5.from_int`. */
  function R565FromInt(i: nat): Color {
    Rgb(Shl(Shr(i, 11), 3), Shl(And(Shr(i, 5), 0x3F), 2), Shl(And(i, 0x1F), 3))
  }

  /** `TPLColorR5G6B5.to_int`: it reads only the first three entries. */
  function R565ToInt(c: Color): nat {
    Or(Or(Shl(Shr(c.r, 3), 11), Shl(Shr(c.g, 2), 5)), Shr(c.b, 3))
  }

  /** The channels of a decoded value: bits 11-15, 5-10 and 0-4, each
      moved to the top of a byte. */
  lemma {:induction false} R565Value(i: nat)
    requires i < 0x1_0000
    ensures R565FromInt(i) == Rgb(i / 2048 * 8, i / 32 % 64 * 4, i % 32 * 8)
    ensures Bytes(R565FromInt(i)) && !HasAlpha(R565FromInt(i))
  {
    Pow2Values();
    MaskIsAnd(Shr(i, 5), 6);
    MaskIsAnd(i, 5);
  }

  /** A colour R5G6B5 can hold: no alpha and channels with their low 3, 2
      and 3 bits clear. */
  predicate R565Exact(c: Color) {
    c.Rgb? && Bytes(c) && c.r % 8 == 0 && c.g % 4 == 0 && c.b % 8 == 0
  }

  /** The three fields packed back: `hi << 11 | mid << 5 | lo`. */
  lemma {:induction false} Pack565(hi: nat, mid: nat, lo: nat)
    requires mid < 64 && lo < 32
    ensures Or(Or(Shl(hi, 11), Shl(mid, 5)), lo) == hi * 2048 + mid * 32 + lo
  {
    Pow2Fields();
    OrShifted(hi, mid * 32, 11);
    assert hi * 2048 + mid * 32 == Shl(hi * 64 + mid, 5);
    OrShifted(hi * 64 + mid, lo, 5);
  }

  /** Encoding the channels of fields `hi`, `mid` and `lo` packs the fields. */
  lemma {:induction false} R565Pack(hi: nat, mid: nat, lo: nat)
    requires mid < 64 && lo < 32
    ensures R565ToInt(Rgb(hi * 8, mid * 4, lo * 8)) == hi * 2048 + mid * 32 + lo
  {
    Pow2Fields();
    DivModUnique(hi * 8, 8, hi, 0);
    DivModUnique(mid * 4, 4, mid, 0);
    DivModUnique(lo * 8, 8, lo, 0);
    Pack565(hi, mid, lo);
  }

  /** A 16-bit value is its three R5G6B5 fields put together. */
  lemma {:induction false} Split565(i: nat)
    ensures i == i / 2048 * 2048 + i / 32 % 64 * 32 + i % 32
  {
    DivModUnique(i, 32, i / 32, i % 32);
    DivDivGeneral(i, 32, 64);
    DivModUnique(i / 32, 64, i / 2048, i / 32 % 64);
  }

  /** Fields put together come apart again. */
  lemma {:induction false} Unsplit565(hi: nat, mid: nat, lo: nat)
    requires mid < 64 && lo < 32
    ensures (hi * 2048 + mid * 32 + lo) / 2048 == hi
    ensures (hi * 2048 + mid * 32 + lo) / 32 % 64 == mid
    ensures (hi * 2048 + mid * 32 + lo) % 32 == lo
  {
    var i := hi * 2048 + mid * 32 + lo;
    DivModUnique(i, 2048, hi, mid * 32 + lo);
    DivModUnique(i, 32, hi * 64 + mid, lo);
    DivModUnique(hi * 64 + mid, 64, hi, mid);
  }

  /** Decoding a 16-bit value and encoding it again gives the value. */
  lemma {:induction false} R565RoundTrip(i: nat)
    requires i < 0x1_0000
    ensures R565ToInt(R565FromInt(i)) == i
  {
    R565Value(i);
    Split565(i);
    R565Pack(i / 2048, i / 32 % 64, i % 32);
  }

  /** Encoding a colour R5G6B5 can hold and decoding it gives the colour. */
  lemma {:induction false} R565Inverse(c: Color)
    requires R565Exact(c)
    ensures R565ToInt(c) < 0x1_0000
    ensures R565FromInt(R565ToInt(c)) == c
  {
    var hi, mid, lo := c.r / 8, c.g / 4, c.b / 8;
    assert c == Rgb(hi * 8, mid * 4, lo * 8);
    R565Pack(hi, mid, lo);
    Unsplit565(hi, mid, lo);
    R565Value(R565ToInt(c));
  }

  // ---------------------------------------------------------------------
  // RGB5A3

  /** `TPLColorRGB5A3.from_int`: with bit 15 set, three 5-bit channels and
      alpha 0xFF; otherwise three 4-bit channels and a 3-bit alpha in bits
      12-14 (the mask lets a fourth bit through for values above 16 bits). */
  function Rgb5a3FromInt(a: nat): (c: Color)
    ensures c.Rgba?
  {
    if And(a, 0x8000) != 0 then
      Rgba(Shl(And(Shr(a, 10), 0x1F), 3), Shl(And(Shr(a, 5), 0x1F), 3), Shl(And(a, 0x1F), 3), 0xFF)
    else
      Rgba(Shl(And(Shr(a, 8), 0xF), 4), Shl(And(Shr(a, 4), 0xF), 4), Shl(And(a, 0xF), 4),
           Shl(And(Shr(a, 12), 0xF), 5))
  }

  /** `TPLColorRGB5A3.to_int`: alpha 255 selects the opaque layout. */
  function Rgb5a3ToInt(c: Color): (r: Result<nat>)
    ensures r.Err? <==> !c.Rgba?
    ensures r.Err? ==> r.error == IndexOutOfRange
  {
    if !c.Rgba? then Err(IndexOutOfRange)
    else if c.a == 255 then
      Ok(Or(Or(Or(0x8000, Shl(c.r, 7)), Shl(c.g, 2)), Shr(c.b, 3)))
    else
      Ok(Or(Or(Or(Shl(c.r, 4), c.g), Shr(c.b, 4)), Shl(c.a, 7)))
  }

  /** Bit 15 of a 16-bit value is set exactly from 0x8000 up. */
  lemma {:induction false} TopBit(a: nat)
    requires a < 0x1_0000
    ensures (And(a, 0x8000) != 0) <==> a >= 0x8000
  {
    Pow2Fields();
    AndPow2(a, 15);
  }

  /** The channels of a decoded 16-bit value in each of the two layouts. */
  lemma {:induction false} Rgb5a3Value(a: nat)
    requires a < 0x1_0000
    ensures a >= 0x8000 ==> Rgb5a3FromInt(a) == Rgba(a / 1024 % 32 * 8, a / 32 % 32 * 8, a % 32 * 8, 255)
    ensures a < 0x8000 ==> Rgb5a3FromInt(a) == Rgba(a / 256 % 16 * 16, a / 16 % 16 * 16, a % 16 * 16, a / 4096 * 32)
    ensures Bytes(Rgb5a3FromInt(a)) && HasAlpha(Rgb5a3FromInt(a))
  {
    TopBit(a);
    Pow2Fields();
    if a >= 0x8000 {
      MaskIsAnd(Shr(a, 10), 5);
      MaskIsAnd(Shr(a, 5), 5);
      MaskIsAnd(a, 5);
    } else {
      MaskIsAnd(Shr(a, 8), 4);
      MaskIsAnd(Shr(a, 4), 4);
      MaskIsAnd(a, 4);
      MaskIsAnd(Shr(a, 12), 4);
      assert a / 4096 < 8;
    }
  }

  /** `0x8000 | r5 << 10`. */
  lemma {:induction false} OpaqueTop(r5: nat)
    requires r5 < 32
    ensures Or(0x8000, Shl(r5 * 8, 7)) == Shl(32 + r5, 10)
  {
    Pow2Fields();
    assert Shl(1, 15) == 0x8000;
    OrShifted(1, r5 * 1024, 15);
  }

  /** The opaque layout packed back: `0x8000 | r5 << 10 | g5 << 5 | b5`. */
  lemma {:induction false} PackOpaque(r5: nat, g5: nat, b5: nat)
    requires r5 < 32 && g5 < 32 && b5 < 32
    ensures Or(Or(Or(0x8000, Shl(r5 * 8, 7)), Shl(g5 * 8, 2)), b5)
         == 0x8000 + r5 * 1024 + g5 * 32 + b5
  {
    OpaqueTop(r5);
    Pow2Fields();
    var top := Or(0x8000, Shl(r5 * 8, 7));
    assert Shl(g5 * 8, 2) == g5 * 32;
    OrShifted(32 + r5, g5 * 32, 10);
    var x := (32 + r5) * 32 + g5;
    assert Or(top, Shl(g5 * 8, 2)) == x * 32 by {
      assert (32 + r5) * Pow2(10) + g5 * 32 == x * 32;
    }
    assert Or(top, Shl(g5 * 8, 2)) == Shl(x, 5);
    OrShifted(x, b5, 5);
    assert x * 32 + b5 == 0x8000 + r5 * 1024 + g5 * 32 + b5;
  }

  /** The translucent layout packed back: `a3 << 12 | r4 << 8 | g4 << 4 | b4`. */
  lemma {:induction false} PackTranslucent(r4: nat, g4: nat, b4: nat, a3: nat)
    requires r4 < 16 && g4 < 16 && b4 < 16
    ensures Or(Or(Or(Shl(r4 * 16, 4), g4 * 16), b4), Shl(a3 * 32, 7))
         == a3 * 4096 + r4 * 256 + g4 * 16 + b4
  {
    Pow2Fields();
    assert Shl(r4 * 16, 4) == Shl(r4, 8);
    OrShifted(r4, g4 * 16, 8);
    assert r4 * 256 + g4 * 16 == Shl(r4 * 16 + g4, 4);
    OrShifted(r4 * 16 + g4, b4, 4);
    assert Shl(a3 * 32, 7) == a3 * Pow2(12);
    OrDisjoint(r4 * 256 + g4 * 16 + b4, a3, 12);
  }

  /** Encoding opaque channels packs their 5-bit fields under bit 15. */
  lemma {:induction false} OpaquePack(r5: nat, g5: nat, b5: nat)
    requires r5 < 32 && g5 < 32 && b5 < 32
    ensures Rgb5a3ToInt(Rgba(r5 * 8, g5 * 8, b5 * 8, 255)) == Ok(0x8000 + r5 * 1024 + g5 * 32 + b5)
  {
    Pow2Fields();
    DivModUnique(b5 * 8, 8, b5, 0);
    PackOpaque(r5, g5, b5);
  }

  /** Encoding translucent channels packs their 4-bit fields and the alpha. */
  lemma {:induction false} TranslucentPack(r4: nat, g4: nat, b4: nat, a3: nat)
    requires r4 < 16 && g4 < 16 && b4 < 16 && a3 < 8
    ensures Rgb5a3ToInt(Rgba(r4 * 16, g4 * 16, b4 * 16, a3 * 32)) == Ok(a3 * 4096 + r4 * 256 + g4 * 16 + b4)
  {
    Pow2Fields();
    DivModUnique(b4 * 16, 16, b4, 0);
    PackTranslucent(r4, g4, b4, a3);
  }

  /** A value from 0x8000 up is bit 15 and its three 5-bit fields. */
  lemma {:induction false} SplitOpaque(a: nat)
    requires 0x8000 <= a < 0x1_0000
    ensures a == 0x8000 + a / 1024 % 32 * 1024 + a / 32 % 32 * 32 + a % 32
  {
    var q := a / 32;
    DivModUnique(a, 32, q, a % 32);
    DivDivGeneral(a, 32, 32);
    DivModUnique(q, 32, a / 1024, q % 32);
    assert a / 1024 - 32 == a / 1024 % 32;
  }

  /** A value below 0x8000 is its alpha and three 4-bit fields. */
  lemma {:induction false} SplitTranslucent(a: nat)
    requires a < 0x8000
    ensures a == a / 4096 * 4096 + a / 256 % 16 * 256 + a / 16 % 16 * 16 + a % 16
  {
    var q := a / 16;
    DivModUnique(a, 16, q, a % 16);
    DivDivGeneral(a, 16, 16);
    var p := a / 256;
    DivModUnique(q, 16, p, q % 16);
    DivDivGeneral(a, 256, 16);
    DivModUnique(p, 16, a / 4096, p % 16);
  }

  /** Decoding a 16-bit value and encoding it again gives the value. The
      translucent alpha is at most 0xE0, never 255, so the encoder picks
      the layout the decoder used. */
  lemma {:induction false} Rgb5a3RoundTrip(a: nat)
    requires a < 0x1_0000
    ensures Rgb5a3ToInt(Rgb5a3FromInt(a)) == Ok(a)
  {
    Rgb5a3Value(a);
    if a >= 0x8000 {
      OpaqueRoundTrip(a);
    } else {
      TranslucentRoundTrip(a);
    }
  }

  /** The opaque half of `Rgb5a3RoundTrip`. */
  lemma {:induction false} OpaqueRoundTrip(a: nat)
    requires 0x8000 <= a < 0x1_0000
    ensures Rgb5a3ToInt(Rgba(a / 1024 % 32 * 8, a / 32 % 32 * 8, a % 32 * 8, 255)) == Ok(a)
  {
    var r5, g5, b5 := a / 1024 % 32, a / 32 % 32, a % 32;
    SplitOpaque(a);
    OpaquePack(r5, g5, b5);
  }

  /** The translucent half of `Rgb5a3RoundTrip`: the alpha `a3 * 32` is
      never 255, so the encoder picks the translucent layout. */
  lemma {:induction false} TranslucentRoundTrip(a: nat)
    requires a < 0x8000
    ensures Rgb5a3ToInt(Rgba(a / 256 % 16 * 16, a / 16 % 16 * 16, a % 16 * 16, a / 4096 * 32)) == Ok(a)
  {
    var r4, g4, b4, a3 := a / 256 % 16, a / 16 % 16, a % 16, a / 4096;
    assert a3 < 8;
    SplitTranslucent(a);
    TranslucentPack(r4, g4, b4, a3);
  }

  // ---------------------------------------------------------------------
  // Class dispatch and bytes

  /** `from_int` of the chosen class. */
  function FromInt(kind: Kind, i: nat): Color {
    match kind
    case IA8 => Ia8FromInt(i)
    case R5G6B5 => R565FromInt(i)
    case RGB5A3 => Rgb5a3FromInt(i)
  }

  /** `to_int` of the chosen class. */
  function ToInt(kind: Kind, c: Color): Result<nat> {
    match kind
    case IA8 => Ia8ToInt(c)
    case R5G6B5 => Ok(R565ToInt(c))
    case RGB5A3 => Rgb5a3ToInt(c)
  }

  /** A decoded 16-bit value has byte channels, and alpha exactly when
      the class stores one. */
  lemma {:induction false} FromIntBytes(kind: Kind, i: nat)
    requires i < 0x1_0000
    ensures Bytes(FromInt(kind, i))
    ensures HasAlpha(FromInt(kind, i)) <==> kind != R5G6B5
  {
    match kind
    case IA8 =>
      assert FromInt(kind, i).r < 256;
    case R5G6B5 =>
      R565Value(i);
    case RGB5A3 =>
      Rgb5a3Value(i);
  }

  /** `from_bytes`: the big-endian integer of the bytes, decoded. */
  function FromBytes(kind: Kind, b: seq<u8>): Color {
    FromInt(kind, BigEndian(b))
  }

  /** `SIZE` as each class declares it: 1 for IA8, 2 for the others. */
  function DeclaredSize(kind: Kind): nat {
    if kind == IA8 then 1 else 2
  }

  /** Every class holds a 16-bit value, IA8 included. */
  const ValueSize: nat := 2

  /** `to_bytes` as written: `to_int().to_bytes(SIZE, 'big')`, an
      OverflowError when the value needs more than `SIZE` bytes. */
  function ToBytesAsWritten(kind: Kind, c: Color): (r: Result<seq<u8>>)
    ensures r.Ok? ==> |r.value| == DeclaredSize(kind)
  {
    var x :- ToInt(kind, c);
    var n := DeclaredSize(kind);
    if x >= Pow2(8 * n) then Err(Overflow) else Ok(Layout.ToBigEndian(x, n))
  }

  /** An IA8 texel with intensity 0 and alpha 1 cannot be written back in
      the single byte IA8 declares. */
  lemma {:induction false} Ia8ToBytesOverflows()
    ensures ToBytesAsWritten(IA8, FromBytes(IA8, [0, 1])) == Err(Overflow)
  {
    BigEndian2([0, 1]);
    Ia8RoundTrip(1);
    TextureMath.Bswap16Value(1);
    Pow2Values();
  }

  /** `to_bytes` with the two bytes every class holds. */
  function ToBytes(kind: Kind, c: Color): (r: Result<seq<u8>>)
    ensures r.Ok? ==> |r.value| == ValueSize
  {
    var x :- ToInt(kind, c);
    if x >= Pow2(8 * ValueSize) then Err(Overflow) else Ok(Layout.ToBigEndian(x, ValueSize))
  }

  /** Two bytes decoded and written back: R5G6B5 and RGB5A3 give the bytes
      again, IA8 gives them swapped. */
  lemma {:induction false} BytesRoundTrip(kind: Kind, b: seq<u8>)
    requires |b| == 2
    ensures kind != IA8 ==> ToBytes(kind, FromBytes(kind, b)) == Ok(b)
    ensures kind == IA8 ==> ToBytes(kind, FromBytes(kind, b)) == Ok([b[1], b[0]])
  {
    Pow2Values();
    BigEndian2(b);
    var x := BigEndian(b);
    Layout.WrittenRead(b);
    match kind
    case IA8 =>
      Ia8RoundTrip(x);
      TextureMath.Bswap16Value(x);
      var y := TextureMath.Bswap16(x);
      DivModUnique(x, 256, b[0], b[1]);
      BigEndian2([b[1], b[0]]);
      Layout.WrittenRead([b[1], b[0]]);
      assert y == BigEndian([b[1], b[0]]);
    case R5G6B5 =>
      R565RoundTrip(x);
    case RGB5A3 =>
      Rgb5a3RoundTrip(x);
  }
}
