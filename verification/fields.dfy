/** Big-endian fields at fixed byte offsets, the building blocks of the
    record decoders (`struct.unpack` with a `>` format reads each field
    big-endian, with no alignment), and the encoders that write a field
    back.
 */
module Fields {
  import opened Bits
  import Layout

  const Word32: nat := 0x1_0000_0000
  const Word16: nat := 0x1_0000

  /** The `I` field at byte `i`. */
  function U32At(b: seq<u8>, i: nat): (x: nat)
    requires i + 4 <= |b|
    ensures x < Word32
  {
    Pow2Word();
    BigEndian(b[i..i + 4])
  }

  /** The `H` field at byte `i`. */
  function U16At(b: seq<u8>, i: nat): (x: nat)
    requires i + 2 <= |b|
    ensures x < Word16
  {
    BigEndian2(b[i..i + 2]);
    BigEndian(b[i..i + 2])
  }

  /** The `B` field at byte `i`. */
  function U8At(b: seq<u8>, i: nat): (x: nat)
    requires i < |b|
    ensures x < 256
  {
    b[i]
  }

  /** `struct.pack('>I', x)`. */
  function Be32(x: nat): (r: seq<u8>)
    requires x < Word32
    ensures |r| == 4
  {
    Pow2Values();
    Layout.ToBigEndian(x, 4)
  }

  /** `struct.pack('>H', x)`. */
  function Be16(x: nat): (r: seq<u8>)
    requires x < Word16
    ensures |r| == 2
  {
    Pow2Values();
    Layout.ToBigEndian(x, 2)
  }

  /** `struct.pack('>B', x)`. */
  function Be8(x: nat): (r: seq<u8>)
    requires x < 256
    ensures |r| == 1
  {
    [x]
  }

  /** `n` pad bytes as `struct.pack` writes them. */
  function Zeros(n: nat): (r: seq<u8>)
    ensures |r| == n && forall k :: 0 <= k < n ==> r[k] == 0
  {
    seq(n, k => 0)
  }

  /** A written `I` field reads back as its value. */
  lemma {:induction false} Read32(b: seq<u8>, i: nat, x: nat)
    requires x < Word32 && i + 4 <= |b| && b[i..i + 4] == Be32(x)
    ensures U32At(b, i) == x
  {
    Pow2Values();
    Layout.ReadWritten(x, 4);
  }

  /** A written `H` field reads back as its value. */
  lemma {:induction false} Read16(b: seq<u8>, i: nat, x: nat)
    requires x < Word16 && i + 2 <= |b| && b[i..i + 2] == Be16(x)
    ensures U16At(b, i) == x
  {
    Pow2Values();
    Layout.ReadWritten(x, 2);
  }

  /** A written `B` field reads back as its value. */
  lemma {:induction false} Read8(b: seq<u8>, i: nat, x: nat)
    requires x < 256 && i < |b| && b[i..i + 1] == Be8(x)
    ensures U8At(b, i) == x
  {
    assert b[i] == b[i..i + 1][0];
  }

  /** A field of an encoded record placed at `offset` reads back as its value. */
  lemma {:induction false} Read32At(b: seq<u8>, offset: nat, e: seq<u8>, i: nat, x: nat)
    requires offset + |e| <= |b| && b[offset..offset + |e|] == e
    requires x < Word32 && i + 4 <= |e| && e[i..i + 4] == Be32(x)
    ensures U32At(b, offset + i) == x
  {
    var c, field, written := b[offset..offset + |e|], b[offset + i..offset + i + 4], e[i..i + 4];
    forall k | 0 <= k < 4
      ensures field[k] == written[k]
    {
      assert c[i + k] == field[k];
    }
    assert field == written;
    Read32(b, offset + i, x);
  }

  lemma {:induction false} Read16At(b: seq<u8>, offset: nat, e: seq<u8>, i: nat, x: nat)
    requires offset + |e| <= |b| && b[offset..offset + |e|] == e
    requires x < Word16 && i + 2 <= |e| && e[i..i + 2] == Be16(x)
    ensures U16At(b, offset + i) == x
  {
    var c, field, written := b[offset..offset + |e|], b[offset + i..offset + i + 2], e[i..i + 2];
    forall k | 0 <= k < 2
      ensures field[k] == written[k]
    {
      assert c[i + k] == field[k];
    }
    assert field == written;
    Read16(b, offset + i, x);
  }

  lemma {:induction false} Read8At(b: seq<u8>, offset: nat, e: seq<u8>, i: nat, x: nat)
    requires offset + |e| <= |b| && b[offset..offset + |e|] == e
    requires x < 256 && i + 1 <= |e| && e[i..i + 1] == Be8(x)
    ensures U8At(b, offset + i) == x
  {
    assert b[offset + i] == b[offset..offset + |e|][i];
    assert b[offset + i] == e[i..i + 1][0];
  }

  /** Two records written one after the other are each found in place. */
  lemma {:induction false} SplitSlice(b: seq<u8>, offset: nat, e1: seq<u8>, e2: seq<u8>)
    requires offset + |e1| + |e2| <= |b| && b[offset..offset + |e1| + |e2|] == e1 + e2
    ensures b[offset..offset + |e1|] == e1
    ensures b[offset + |e1|..offset + |e1| + |e2|] == e2
  {
    var c := b[offset..offset + |e1| + |e2|];
    assert b[offset..offset + |e1|] == c[..|e1|];
    assert b[offset + |e1|..offset + |e1| + |e2|] == c[|e1|..];
  }

  /** A field read and written again gives back its bytes. */
  lemma {:induction false} Write32(b: seq<u8>, i: nat)
    requires i + 4 <= |b|
    ensures Be32(U32At(b, i)) == b[i..i + 4]
  {
    Layout.WrittenRead(b[i..i + 4]);
  }

  lemma {:induction false} Write16(b: seq<u8>, i: nat)
    requires i + 2 <= |b|
    ensures Be16(U16At(b, i)) == b[i..i + 2]
  {
    Layout.WrittenRead(b[i..i + 2]);
  }

  lemma {:induction false} Write8(b: seq<u8>, i: nat)
    requires i < |b|
    ensures Be8(U8At(b, i)) == b[i..i + 1]
  {
  }
}
