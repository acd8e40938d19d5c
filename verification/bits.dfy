/** Unbounded-integer models of the bit manipulation the extractor performs.

    Python integers are unbounded, so a right shift `x >> n` is the floor
    division `x / Pow2(n)` and a left shift `x << n` is the product
    `x * Pow2(n)`. Bitwise `&` and `|` are defined here bit by bit on
    naturals, and the lemmas connect them to arithmetic: masking with
    `2^n - 1` is a remainder, and OR-ing values whose bits do not overlap is
    an addition.
 */
module Bits {

  /** An unsigned byte. */
  type u8 = x: int | 0 <= x < 256

  function Pow2(n: nat): (r: nat)
    ensures r >= 1
  {
    if n == 0 then 1 else 2 * Pow2(n - 1)
  }

  /** Python's `a & b` on non-negative integers. */
  function And(a: nat, b: nat): nat
    decreases a
  {
    if a == 0 || b == 0 then 0
    else 2 * And(a / 2, b / 2) + (if a % 2 == 1 && b % 2 == 1 then 1 else 0)
  }

  /** Python's `a | b` on non-negative integers. */
  function Or(a: nat, b: nat): nat
    decreases a + b
  {
    if a == 0 then b
    else if b == 0 then a
    else 2 * Or(a / 2, b / 2) + (if a % 2 == 1 || b % 2 == 1 then 1 else 0)
  }

  /** `x >> n`. */
  function Shr(x: nat, n: nat): nat {
    DivNat(x, Pow2(n));
    x / Pow2(n)
  }

  /** `x << n`. */
  function Shl(x: nat, n: nat): nat {
    x * Pow2(n)
  }

  /** `x & (2**n - 1)`: the low `n` bits of `x` (see `MaskIsAnd`). */
  function Mask(x: nat, n: nat): (r: nat)
    ensures r < Pow2(n)
    ensures x < Pow2(n) ==> r == x
  {
    ModBounds(x, Pow2(n));
    x % Pow2(n)
  }

  /** `buffer | (value << count)` when the bits of `buffer` above `count`
      are clear, which `PlaceIsOr` shows is an addition. */
  function Place(buffer: nat, value: nat, count: nat): nat {
    buffer + value * Pow2(count)
  }

  lemma {:induction false} PlaceIsOr(buffer: nat, value: nat, count: nat)
    requires buffer < Pow2(count)
    ensures Place(buffer, value, count) == Or(buffer, Shl(value, count))
  {
    OrDisjoint(buffer, value, count);
  }

  /** `(high << n) | (word & (0xffffffff >> (32 - n)))`: `n` low bits taken
      from a 32-bit word below the bits of `high` (see `JoinIsOr`). */
  function Join(high: nat, word: nat, n: nat): nat {
    Mask(word, n) + high * Pow2(n)
  }

  lemma {:induction false} JoinIsOr(high: nat, word: nat, n: nat)
    requires n <= 32
    ensures Join(high, word, n) == Or(Shl(high, n), And(word, Shr(0xffff_ffff, 32 - n)))
  {
    var m := Mask(word, n);
    assert Shr(0xffff_ffff, 32 - n) == Pow2(n) - 1 by {
      Pow2Word();
      AllOnesShift(n, 32);
    }
    assert And(word, Pow2(n) - 1) == m by {
      MaskIsAnd(word, n);
    }
    assert Or(m, Shl(high, n)) == Join(high, word, n) by {
      OrDisjoint(m, high, n);
    }
    OrComm(m, Shl(high, n));
  }

  lemma {:induction false} MaskIsAnd(x: nat, n: nat)
    ensures Mask(x, n) == And(x, Pow2(n) - 1)
  {
    AndLowBits(x, n);
  }

  // ---------------------------------------------------------------------
  // Powers of two

  lemma {:induction false} Pow2Add(a: nat, b: nat)
    ensures Pow2(a + b) == Pow2(a) * Pow2(b)
    decreases a
  {
    if a > 0 {
      Pow2Add(a - 1, b);
      calc {
        Pow2(a + b);
        2 * Pow2(a - 1 + b);
        2 * (Pow2(a - 1) * Pow2(b));
        (2 * Pow2(a - 1)) * Pow2(b);
      }
    }
  }

  lemma {:induction false} Pow2Mono(a: nat, b: nat)
    requires a <= b
    ensures Pow2(a) <= Pow2(b)
    decreases b
  {
    if a < b {
      Pow2Mono(a, b - 1);
    }
  }

  lemma {:induction false} Pow2Values()
    ensures Pow2(1) == 2 && Pow2(2) == 4 && Pow2(3) == 8 && Pow2(4) == 16
    ensures Pow2(5) == 32 && Pow2(6) == 64 && Pow2(7) == 128 && Pow2(8) == 256
    ensures Pow2(16) == 0x1_0000 && Pow2(24) == 0x100_0000 && Pow2(28) == 0x1000_0000
    ensures Pow2(32) == 0x1_0000_0000
  {
    assert Pow2(8) == 256;
    assert Pow2(16) == Pow2(8) * Pow2(8) by { Pow2Add(8, 8); }
    assert Pow2(24) == Pow2(16) * Pow2(8) by { Pow2Add(16, 8); }
    assert Pow2(28) == Pow2(24) * Pow2(4) by { Pow2Add(24, 4); }
    assert Pow2(32) == Pow2(16) * Pow2(16) by { Pow2Add(16, 16); }
  }

  /** The powers the 16-bit colour layouts shift by. */
  lemma {:induction false} Pow2Fields()
    ensures Pow2(2) == 4 && Pow2(3) == 8 && Pow2(4) == 16 && Pow2(5) == 32 && Pow2(7) == 128
    ensures Pow2(8) == 256 && Pow2(10) == 1024 && Pow2(11) == 2048 && Pow2(12) == 4096
    ensures Pow2(15) == 0x8000 && Pow2(16) == 0x1_0000
  {
    assert Pow2(8) == 256;
    assert Pow2(10) == Pow2(8) * Pow2(2) by { Pow2Add(8, 2); }
    assert Pow2(11) == Pow2(8) * Pow2(3) by { Pow2Add(8, 3); }
    assert Pow2(12) == Pow2(8) * Pow2(4) by { Pow2Add(8, 4); }
    assert Pow2(15) == Pow2(8) * Pow2(7) by { Pow2Add(8, 7); }
    assert Pow2(16) == Pow2(8) * Pow2(8) by { Pow2Add(8, 8); }
  }

  lemma {:induction false} Pow2Byte()
    ensures Pow2(8) == 256
  {
  }

  lemma {:induction false} Pow2Word()
    ensures Pow2(32) == 0x1_0000_0000
  {
    Pow2Values();
  }

  // ---------------------------------------------------------------------
  // Division and remainder

  lemma {:induction false} DivNat(x: nat, d: int)
    requires d >= 1
    ensures 0 <= x / d <= x
  {
    var q := x / d;
    assert x == q * d + x % d;
    if q < 0 {
      MulLeMul(0, -q, d);
    } else {
      MulLeMul(1, d, q);
    }
  }

  lemma {:induction false} MulSmall(k: int, d: int)
    requires d >= 1 && -d < k * d < d
    ensures k == 0
  {
  }

  lemma {:induction false} MulLeMul(a: int, b: int, c: int)
    requires 0 <= a <= b && c >= 0
    ensures a * c <= b * c
  {
  }

  lemma {:induction false} MulLtMul(a: int, b: int, c: int)
    requires a < b && c >= 1
    ensures a * c < b * c
  {
  }

  lemma {:induction false} MulAddRight(a: int, b: int, c: int)
    ensures (a + b) * c == a * c + b * c
  {
  }

  lemma {:induction false} ModBounds(x: nat, d: nat)
    requires d >= 1
    ensures x % d < d
    ensures x < d ==> x % d == x
  {
    if x < d {
      DivModUnique(x, d, 0, x);
    }
  }

  /** Quotient and remainder are determined by `x == q * d + r` with `0 <= r < d`. */
  lemma {:induction false} DivModUnique(x: int, d: int, q: int, r: int)
    requires d >= 1 && 0 <= r < d && x == q * d + r
    ensures x / d == q && x % d == r
  {
    var q', r' := x / d, x % d;
    assert (q - q') * d == r' - r;
    MulSmall(q - q', d);
  }

  lemma {:induction false} DivDivGeneral(x: nat, a: nat, b: nat)
    requires a >= 1 && b >= 1
    ensures x / a / b == x / (a * b)
  {
    var y := x / a;
    var q := y / b;
    var r := (y % b) * a + x % a;
    assert x == y * a + x % a;
    assert y == q * b + y % b;
    assert x == q * (a * b) + r by {
      assert y * a == (q * b + y % b) * a;
      assert (q * b + y % b) * a == q * (a * b) + (y % b) * a;
    }
    MulLeMul(y % b, b - 1, a);
    assert (b - 1) * a == a * b - a;
    DivModUnique(x, a * b, q, r);
  }

  lemma {:induction false} ModModGeneral(x: nat, a: nat, c: nat)
    requires a >= 1 && c >= 1
    ensures x % (a * c) % a == x % a
  {
    var y := x % (a * c);
    var q := x / (a * c);
    assert x == q * (a * c) + y;
    assert y == (y / a) * a + y % a;
    assert x == (q * c + y / a) * a + y % a by {
      assert q * (a * c) == (q * c) * a;
      assert (q * c + y / a) * a == (q * c) * a + (y / a) * a;
    }
    DivModUnique(x, a, q * c + y / a, y % a);
  }

  lemma {:induction false} DivModGeneral(x: nat, a: nat, b: nat)
    requires a >= 1 && b >= 1
    ensures (x / a) % b == (x % (a * b)) / a
  {
    var lo := x % (a * b);
    var hi := x / (a * b);
    assert x == hi * (a * b) + lo;
    var l0, l1 := lo % a, lo / a;
    assert lo == l1 * a + l0;
    assert l1 < b by {
      if l1 >= b { MulLeMul(b, l1, a); }
    }
    assert x == (l1 + hi * b) * a + l0 by {
      assert hi * (a * b) == (hi * b) * a;
      assert (l1 + hi * b) * a == l1 * a + (hi * b) * a;
    }
    DivModUnique(x, a, l1 + hi * b, l0);
    DivModUnique(l1 + hi * b, b, hi, l1);
  }

  /** A value placed above `n` low bits splits back into its two parts. */
  lemma {:induction false} Split(low: nat, high: nat, n: nat)
    requires low < Pow2(n)
    ensures (low + high * Pow2(n)) % Pow2(n) == low
    ensures (low + high * Pow2(n)) / Pow2(n) == high
  {
    DivModUnique(low + high * Pow2(n), Pow2(n), high, low);
  }

  lemma {:induction false} DivDiv(x: nat, a: nat, b: nat)
    ensures x / Pow2(a) / Pow2(b) == x / Pow2(a + b)
  {
    Pow2Add(a, b);
    DivDivGeneral(x, Pow2(a), Pow2(b));
  }

  lemma {:induction false} ModMod(x: nat, a: nat, b: nat)
    requires a <= b
    ensures x % Pow2(b) % Pow2(a) == x % Pow2(a)
  {
    Pow2Add(a, b - a);
    ModModGeneral(x, Pow2(a), Pow2(b - a));
  }

  /** Bits `c .. c+n` of `x`, read either way round. */
  lemma {:induction false} DivMod(x: nat, c: nat, n: nat)
    ensures (x / Pow2(c)) % Pow2(n) == (x % Pow2(c + n)) / Pow2(c)
  {
    Pow2Add(c, n);
    DivModGeneral(x, Pow2(c), Pow2(n));
  }

  lemma {:induction false} DivBound(x: nat, n: nat, m: nat)
    requires x < Pow2(n + m)
    ensures x / Pow2(n) < Pow2(m)
  {
    Pow2Add(n, m);
    DivBoundGeneral(x, Pow2(n), Pow2(m));
  }

  lemma {:induction false} DivBoundGeneral(x: nat, p: int, q: int)
    requires p >= 1 && q >= 1 && x < p * q
    ensures x / p < q
  {
    var d := x / p;
    assert x == d * p + x % p;
    if d >= q {
      MulLeMul(q, d, p);
    }
  }

  lemma {:induction false} PlaceBound(low: nat, high: nat, n: nat, m: nat)
    requires low < Pow2(n) && high < Pow2(m)
    ensures low + high * Pow2(n) < Pow2(n + m)
  {
    Pow2Add(n, m);
    MulLeMul(high, Pow2(m) - 1, Pow2(n));
  }

  /** `(2**k - 1) >> (k - n)` is the mask of the low `n` bits. */
  lemma {:induction false} AllOnesShift(n: nat, k: nat)
    requires n <= k
    ensures (Pow2(k) - 1) / Pow2(k - n) == Pow2(n) - 1
  {
    Pow2Add(n, k - n);
    AllOnesGeneral(Pow2(n), Pow2(k - n));
  }

  lemma {:induction false} AllOnesGeneral(p: int, q: int)
    requires p >= 1 && q >= 1
    ensures (p * q - 1) / q == p - 1
  {
    assert (p - 1) * q == p * q - q;
    DivModUnique(p * q - 1, q, p - 1, q - 1);
  }

  // ---------------------------------------------------------------------
  // Bitwise operators

  lemma {:induction false} ModDouble(x: nat, p: nat)
    requires p >= 1
    ensures x % (2 * p) == 2 * ((x / 2) % p) + x % 2
  {
    var h := x / 2;
    assert x == 2 * h + x % 2;
    assert h == (h / p) * p + h % p;
    assert x == (h / p) * (2 * p) + (2 * (h % p) + x % 2);
    DivModUnique(x, 2 * p, h / p, 2 * (h % p) + x % 2);
  }

  lemma {:induction false} ZeroMod(d: nat)
    requires d >= 1
    ensures 0 % d == 0
  {
  }

  lemma {:induction false} ModOne(x: nat)
    ensures x % 1 == 0
  {
  }

  lemma {:induction false} AndLowBits(x: nat, n: nat)
    ensures And(x, Pow2(n) - 1) == x % Pow2(n)
    decreases n
  {
    if n == 0 {
      ModOne(x);
    } else if x == 0 {
      ZeroMod(Pow2(n));
    } else {
      var p := Pow2(n - 1);
      var m := 2 * p;
      assert Pow2(n) == m;
      assert And(x, m - 1) == x % m by {
        AndOddMask(x, p);
        AndLowBits(x / 2, n - 1);
        ModDouble(x, p);
      }
    }
  }

  lemma {:induction false} AndOddMask(x: nat, p: nat)
    requires x > 0 && p >= 1
    ensures And(x, 2 * p - 1) == 2 * And(x / 2, p - 1) + x % 2
  {
    var m := 2 * p - 1;
    assert m / 2 == p - 1 && m % 2 == 1;
  }

  /** A value is its low `n` bits plus the rest shifted back up. */
  lemma {:induction false} MaskShr(x: nat, n: nat)
    ensures x == Mask(x, n) + Shr(x, n) * Pow2(n)
  {
  }

  /** `x & 2**k` keeps exactly bit `k` of `x`. */
  lemma {:induction false} AndPow2(x: nat, k: nat)
    ensures And(x, Pow2(k)) == Pow2(k) * (x / Pow2(k) % 2)
    decreases k
  {
    if x == 0 {
      assert 0 / Pow2(k) == 0;
    } else if k == 0 {
      assert And(x, 1) == 2 * And(x / 2, 0) + x % 2;
    } else {
      var p := Pow2(k - 1);
      assert Pow2(k) == 2 * p;
      assert And(x, 2 * p) == 2 * And(x / 2, p) by {
        DivModUnique(2 * p, 2, p, 0);
      }
      AndPow2(x / 2, k - 1);
      var bit := x / 2 / p % 2;
      assert bit == x / (2 * p) % 2 by {
        DivDivGeneral(x, 2, p);
      }
      MulTwice(p, bit);
    }
  }

  lemma {:induction false} MulTwice(p: int, b: int)
    ensures 2 * (p * b) == (2 * p) * b
  {
  }

  /** OR-ing a value into bits that are still clear is an addition. */
  lemma {:induction false} OrDisjoint(low: nat, high: nat, n: nat)
    requires low < Pow2(n)
    ensures Or(low, high * Pow2(n)) == low + high * Pow2(n)
    decreases n
  {
    if n > 0 && low > 0 && high > 0 {
      var p := Pow2(n - 1);
      assert Pow2(n) == 2 * p;
      var c := high * (2 * p);
      assert c == 2 * (high * p);
      assert c / 2 == high * p && c % 2 == 0;
      assert low / 2 < p;
      OrDisjoint(low / 2, high, n - 1);
      assert Or(low, c) == 2 * Or(low / 2, high * p) + low % 2;
    }
  }

  /** OR-ing a value below bit `n` into a value shifted up by `n` is an addition. */
  lemma {:induction false} OrShifted(high: nat, low: nat, n: nat)
    requires low < Pow2(n)
    ensures Or(Shl(high, n), low) == high * Pow2(n) + low
  {
    OrComm(Shl(high, n), low);
    OrDisjoint(low, high, n);
  }

  lemma {:induction false} OrComm(a: nat, b: nat)
    ensures Or(a, b) == Or(b, a)
    decreases a + b
  {
    if a > 0 && b > 0 {
      OrComm(a / 2, b / 2);
    }
  }

  lemma {:induction false} OrSelf(a: nat)
    ensures Or(a, a) == a
    decreases a
  {
    if a > 0 {
      OrSelf(a / 2);
    }
  }

  // ---------------------------------------------------------------------
  // Big-endian integers

  /** `int.from_bytes(s, 'big')`: an empty sequence reads as 0. */
  function BigEndian(s: seq<u8>): (r: nat)
    ensures r < Pow2(8 * |s|)
  {
    if |s| == 0 then 0
    else
      var prefix := BigEndian(s[..|s| - 1]);
      Pow2Add(8 * (|s| - 1), 8);
      Pow2Values();
      PlaceBound(s[|s| - 1], prefix, 8, 8 * (|s| - 1));
      prefix * 256 + s[|s| - 1] as int
  }

  /** The four bytes of `w.to_bytes(4, 'big')`. */
  function WordBytes(w: nat): (r: seq<u8>)
    requires w < 0x1_0000_0000
    ensures |r| == 4
  {
    [w / 0x100_0000, (w / 0x1_0000) % 256, (w / 256) % 256, w % 256]
  }

  lemma {:induction false} BigEndian4(s: seq<u8>)
    requires |s| == 4
    ensures BigEndian(s) == (s[0] as int) * 0x100_0000 + (s[1] as int) * 0x1_0000 + (s[2] as int) * 256 + s[3]
  {
    var a, b, c := BigEndian(s[..1]), BigEndian(s[..2]), BigEndian(s[..3]);
    assert a == s[0] by {
      assert s[..1][..0] == [];
    }
    assert b == a * 256 + s[1] as int by {
      assert s[..2][..1] == s[..1];
    }
    assert c == b * 256 + s[2] as int by {
      assert s[..3][..2] == s[..2];
    }
    assert BigEndian(s) == c * 256 + s[3] as int;
  }

  lemma {:induction false} BigEndian2(s: seq<u8>)
    requires |s| == 2
    ensures BigEndian(s) == (s[0] as int) * 256 + s[1]
  {
    assert s[..1][..0] == [];
  }

  lemma {:induction false} BigEndian1(s: seq<u8>)
    requires |s| == 1
    ensures BigEndian(s) == s[0]
  {
    assert s[..0] == [];
  }

  /** Reading back the four bytes of a word gives the word. */
  lemma {:induction false} WordBytesRoundTrip(w: nat)
    requires w < 0x1_0000_0000
    ensures BigEndian(WordBytes(w)) == w
  {
    var s := WordBytes(w);
    BigEndian4(s);
    var a, b, c, d := w / 0x100_0000, w / 0x1_0000, w / 256, w;
    assert b == a * 256 + b % 256 by { DivModUnique(b, 256, b / 256, b % 256); assert b / 256 == a; }
    assert c == b * 256 + c % 256 by { assert c / 256 == b; }
    assert d == c * 256 + d % 256;
  }
}
