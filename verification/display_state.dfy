/** Display-state settings (`structs/display_object/display_state_structs.py`).

    A display-state entry carries a 32-bit setting word whose meaning
    depends on the state id: a texture binding, a vertex-descriptor (VCD)
    word of thirteen 2-bit attribute fields, or a matrix load. The setting
    helper keeps the latest texture binding per layer, the latest VCD and
    the latest matrix load. Objects the source creates without running
    `from_setting` have no attributes yet; reading one is an AttributeError.
 */
module DisplayState {
  import opened Bits
  import opened Wrappers

  // ---------------------------------------------------------------------
  // Texture setting

  datatype TextureSetting = TextureSetting(
    textureIndex: nat, layer: nat, wrapS: nat, wrapT: nat, minFilter: nat, magFilter: nat)

  predicate TextureSettingFits(t: TextureSetting) {
    && t.textureIndex < 256 && t.layer < 8 && t.wrapS < 16 && t.wrapT < 16
    && t.minFilter < 16 && t.magFilter < 16
  }

  /** `DisplayStateTextureSetting.from_setting`: the index from the low byte,
      then, after dropping 13 bits, a 3-bit layer and four 4-bit fields. */
  function DecodeTextureSetting(setting: nat): (t: TextureSetting)
    ensures TextureSettingFits(t)
  {
    Pow2Values();
    var s1 := Shr(setting, 13);
    var s2 := Shr(s1, 3);
    var s3 := Shr(s2, 4);
    var s4 := Shr(s3, 4);
    var s5 := Shr(s4, 4);
    TextureSetting(Mask(setting, 8), Mask(s1, 3), Mask(s2, 4), Mask(s3, 4), Mask(s4, 4), Mask(s5, 4))
  }

  /** The bit position of every field: index bits 0-7, layer 13-15, wrapS
      16-19, wrapT 20-23, minFilter 24-27, magFilter 28-31. */
  lemma {:induction false} TextureSettingBits(setting: nat)
    ensures var t := DecodeTextureSetting(setting);
      && t.textureIndex == setting % Pow2(8)
      && t.layer == setting / Pow2(13) % Pow2(3)
      && t.wrapS == setting / Pow2(16) % Pow2(4)
      && t.wrapT == setting / Pow2(20) % Pow2(4)
      && t.minFilter == setting / Pow2(24) % Pow2(4)
      && t.magFilter == setting / Pow2(28) % Pow2(4)
  {
    DivDiv(setting, 13, 3);
    DivDiv(setting, 16, 4);
    DivDiv(setting, 20, 4);
    DivDiv(setting, 24, 4);
  }

  /** The setting word a texture binding is decoded from, with bits 8-12 clear. */
  function EncodeTextureSetting(t: TextureSetting): (s: nat)
    requires TextureSettingFits(t)
    ensures s < Pow2(32)
  {
    Pow2Values();
    var h4 := Place(t.minFilter, t.magFilter, 4);
    var h3 := Place(t.wrapT, h4, 4);
    var h2 := Place(t.wrapS, h3, 4);
    var h1 := Place(t.layer, h2, 3);
    PlaceBound(t.minFilter, t.magFilter, 4, 4);
    PlaceBound(t.wrapT, h4, 4, 8);
    PlaceBound(t.wrapS, h3, 4, 12);
    PlaceBound(t.layer, h2, 3, 16);
    Pow2Mono(8, 13);
    PlaceBound(t.textureIndex, h1, 13, 19);
    Place(t.textureIndex, h1, 13)
  }

  lemma {:induction false} TextureSettingRoundTrip(t: TextureSetting)
    requires TextureSettingFits(t)
    ensures DecodeTextureSetting(EncodeTextureSetting(t)) == t
  {
    Pow2Values();
    var h4 := Place(t.minFilter, t.magFilter, 4);
    var h3 := Place(t.wrapT, h4, 4);
    var h2 := Place(t.wrapS, h3, 4);
    var h1 := Place(t.layer, h2, 3);
    var s := EncodeTextureSetting(t);
    assert s == Place(t.textureIndex, h1, 13);
    Pow2Mono(8, 13);
    Unplace(t.textureIndex, h1, 13, s);
    LowMask(t.textureIndex, h1, 8, 13, s);
    Unplace(t.layer, h2, 3, h1);
    Unplace(t.wrapS, h3, 4, h2);
    Unplace(t.wrapT, h4, 4, h3);
    Unplace(t.minFilter, t.magFilter, 4, h4);
  }

  /** A field placed below `high` is its low `n` bits, and `high` the rest. */
  lemma {:induction false} Unplace(low: nat, high: nat, n: nat, s: nat)
    requires low < Pow2(n) && s == Place(low, high, n)
    ensures Mask(s, n) == low && Shr(s, n) == high
  {
    Split(low, high, n);
  }

  /** A field of `n` bits placed below `high` at bit `m >= n` is the low
      `n` bits of the value. */
  lemma {:induction false} LowMask(low: nat, high: nat, n: nat, m: nat, s: nat)
    requires low < Pow2(n) && n <= m && s == Place(low, high, m)
    ensures Mask(s, n) == low
  {
    Pow2Add(n, m - n);
    var k := high * Pow2(m - n);
    assert high * Pow2(m) == k * Pow2(n) by {
      assert Pow2(m) == Pow2(n) * Pow2(m - n);
    }
    Split(low, k, n);
  }

  /** A 32-bit setting with bits 8-12 clear is determined by its fields. */
  lemma {:induction false} TextureSettingComplete(setting: nat)
    requires setting < Pow2(32) && setting / Pow2(8) % Pow2(5) == 0
    ensures EncodeTextureSetting(DecodeTextureSetting(setting)) == setting
  {
    var s1 := HighBits(setting);
    var t := DecodeTextureSetting(setting);
    DecodeFields(setting, s1, t);
    HighFieldsEncode(t, s1);
    LowAndHigh(setting);
  }

  /** The 19 bits above bit 13 of a 32-bit setting. */
  lemma {:induction false} HighBits(setting: nat) returns (s1: nat)
    requires setting < Pow2(32)
    ensures s1 == Shr(setting, 13) && s1 < Pow2(19)
  {
    DivBound(setting, 13, 19);
    s1 := Shr(setting, 13);
  }

  /** The decoded fields, spelled out as masks of successive shifts. */
  lemma {:induction false} DecodeFields(setting: nat, s1: nat, t: TextureSetting)
    requires s1 == Shr(setting, 13) && t == DecodeTextureSetting(setting)
    ensures t.textureIndex == Mask(setting, 8) && t.layer == Mask(s1, 3)
    ensures var s2 := Shr(s1, 3); var s3 := Shr(s2, 4); var s4 := Shr(s3, 4);
      t.wrapS == Mask(s2, 4) && t.wrapT == Mask(s3, 4) && t.minFilter == Mask(s4, 4)
      && t.magFilter == Mask(Shr(s4, 4), 4)
  {
  }

  /** Fields taken from the 19 bits `s1` encode back to `s1` above bit 13. */
  lemma {:induction false} HighFieldsEncode(t: TextureSetting, s1: nat)
    requires s1 < Pow2(19) && t.textureIndex < 256 && t.layer == Mask(s1, 3)
    requires var s2 := Shr(s1, 3); var s3 := Shr(s2, 4); var s4 := Shr(s3, 4);
      t.wrapS == Mask(s2, 4) && t.wrapT == Mask(s3, 4) && t.minFilter == Mask(s4, 4)
      && t.magFilter == Mask(Shr(s4, 4), 4)
    ensures TextureSettingFits(t)
    ensures EncodeTextureSetting(t) == Place(t.textureIndex, s1, 13)
  {
    Pow2Values();
    var h1 := TextureHigh(s1);
  }

  /** With bits 8-12 clear, a setting is its low byte with the bits from
      13 up placed above it. */
  lemma {:induction false} LowAndHigh(setting: nat)
    requires setting / Pow2(8) % Pow2(5) == 0
    ensures Place(Mask(setting, 8), Shr(setting, 13), 13) == setting
  {
    MaskShr(setting, 13);
    LowBitsClear(setting);
  }

  /** The fields above bit 13 of a texture setting, decoded and placed
      again, give back the bits they came from. */
  lemma {:induction false} TextureHigh(s1: nat) returns (h1: nat)
    requires s1 < Pow2(19)
    ensures var s2 := Shr(s1, 3); var s3 := Shr(s2, 4); var s4 := Shr(s3, 4); var s5 := Shr(s4, 4);
      h1 == Place(Mask(s1, 3), Place(Mask(s2, 4), Place(Mask(s3, 4), Place(Mask(s4, 4), Mask(s5, 4), 4), 4), 4), 3)
    ensures h1 == s1
  {
    var s2 := Shr(s1, 3);
    var s3 := Shr(s2, 4);
    var s4 := Shr(s3, 4);
    var s5 := Shr(s4, 4);
    TopField(s1);
    assert Mask(s5, 4) == s5;
    RePlace(s4, 4);
    RePlace(s3, 4);
    RePlace(s2, 4);
    RePlace(s1, 3);
    h1 := Place(Mask(s1, 3), Place(Mask(s2, 4), Place(Mask(s3, 4), Place(Mask(s4, 4), Mask(s5, 4), 4), 4), 4), 3);
  }

  /** The magnification filter is the top four of the 19 bits. */
  lemma {:induction false} TopField(s1: nat)
    requires s1 < Pow2(19)
    ensures Shr(Shr(Shr(Shr(s1, 3), 4), 4), 4) < Pow2(4)
  {
    DivDiv(s1, 3, 4);
    DivDiv(s1, 7, 4);
    DivDiv(s1, 11, 4);
    DivBound(s1, 15, 4);
  }

  /** A value is its low `n` bits with the rest placed above them. */
  lemma {:induction false} RePlace(x: nat, n: nat)
    ensures Place(Mask(x, n), Shr(x, n), n) == x
  {
    MaskShr(x, n);
  }

  /** With bits 8-12 clear, the low 13 bits are the low byte. */
  lemma {:induction false} LowBitsClear(setting: nat)
    requires setting / Pow2(8) % Pow2(5) == 0
    ensures setting % Pow2(13) == setting % Pow2(8)
  {
    Pow2Add(8, 5);
    ModSplit(setting, Pow2(8), Pow2(5));
  }

  // ---------------------------------------------------------------------
  // Equal-width bit groups

  /** `n` fields of `w` bits each, taken from the low end by repeated
      masking and shifting, the way the VCD decoder walks its setting. */
  function BitGroups(x: nat, w: nat, n: nat): (r: seq<nat>)
    ensures |r| == n
    ensures forall i :: 0 <= i < n ==> r[i] < Pow2(w)
  {
    if n == 0 then [] else [Mask(x, w)] + BitGroups(Shr(x, w), w, n - 1)
  }

  /** Group `i` holds bits `w*i .. w*i+w`. */
  lemma {:induction false} BitGroupsAt(x: nat, w: nat, n: nat, i: nat)
    requires i < n
    ensures BitGroups(x, w, n)[i] == x / Pow2(w * i) % Pow2(w)
    decreases n
  {
    if i == 0 {
      assert Pow2(w * 0) == 1;
    } else {
      BitGroupsAt(Shr(x, w), w, n - 1, i - 1);
      DivDiv(x, w, w * (i - 1));
      assert w + w * (i - 1) == w * i;
    }
  }

  /** The groups put back together, lowest first. */
  function JoinGroups(groups: seq<nat>, w: nat): nat {
    if groups == [] then 0 else groups[0] + JoinGroups(groups[1..], w) * Pow2(w)
  }

  /** Splitting a value into groups and joining them keeps its low `w*n` bits. */
  lemma {:induction false} BitGroupsJoin(x: nat, w: nat, n: nat)
    ensures JoinGroups(BitGroups(x, w, n), w) == x % Pow2(w * n)
    decreases n
  {
    var g := BitGroups(x, w, n);
    if n == 0 {
      assert Pow2(w * 0) == 1;
    } else {
      var p, q := Pow2(w), Pow2(w * (n - 1));
      var y := Shr(x, w);
      assert g[0] == x % p && g[1..] == BitGroups(y, w, n - 1);
      assert JoinGroups(g, w) == g[0] + JoinGroups(g[1..], w) * p;
      BitGroupsJoin(y, w, n - 1);
      ModSplit(x, p, q);
      Pow2Add(w, w * (n - 1));
      assert w + w * (n - 1) == w * n;
    }
  }

  /** The low bits of `x` below `p * q` are its low bits below `p` and the
      next ones above them. */
  lemma {:induction false} ModSplit(x: nat, p: nat, q: nat)
    requires p >= 1 && q >= 1
    ensures x % p + (x / p % q) * p == x % (p * q)
  {
    var z := x % (p * q);
    DivModGeneral(x, p, q);
    ModModGeneral(x, p, q);
    assert z == z % p + (z / p) * p;
  }

  /** Joining groups that fit their width and splitting again gives them back. */
  lemma {:induction false} JoinGroupsSplit(groups: seq<nat>, w: nat)
    requires forall i :: 0 <= i < |groups| ==> groups[i] < Pow2(w)
    ensures BitGroups(JoinGroups(groups, w), w, |groups|) == groups
    decreases |groups|
  {
    if groups != [] {
      var rest := JoinGroups(groups[1..], w);
      Split(groups[0], rest, w);
      JoinGroupsSplit(groups[1..], w);
    }
  }

  // ---------------------------------------------------------------------
  // Vertex descriptor (VCD) setting

  datatype VcdSetting = VcdSetting(
    setting: nat, positionMatrixIndex: nat, position: nat, normal: nat,
    colors: seq<nat>, textures: seq<nat>)

  /** `DisplayStateVCDSetting.from_setting`: thirteen 2-bit fields, lowest first. */
  function DecodeVcdSetting(setting: nat): (v: VcdSetting)
    ensures v.setting == setting && |v.colors| == 2 && |v.textures| == 8
  {
    var g := BitGroups(setting, 2, 13);
    VcdSetting(setting, g[0], g[1], g[2], g[3..5], g[5..13])
  }

  /** Every VCD field is in 0..3 and sits at its GX bit position:
      posMtx at 0, position at 2, normal at 4, colours from 6, texture
      coordinates from 10. */
  lemma {:induction false} VcdSettingBits(setting: nat)
    ensures var v := DecodeVcdSetting(setting);
      && v.positionMatrixIndex < 4 && v.position < 4 && v.normal < 4
      && v.positionMatrixIndex == setting % 4
      && v.position == setting / 4 % 4
      && v.normal == setting / 16 % 4
      && (forall c :: 0 <= c < 2 ==> v.colors[c] < 4 && v.colors[c] == setting / Pow2(6 + 2 * c) % 4)
      && (forall k :: 0 <= k < 8 ==> v.textures[k] < 4 && v.textures[k] == setting / Pow2(10 + 2 * k) % 4)
  {
    VcdScalars(setting);
    forall c | 0 <= c < 2
      ensures DecodeVcdSetting(setting).colors[c] < 4
      ensures DecodeVcdSetting(setting).colors[c] == setting / Pow2(6 + 2 * c) % 4
    {
      VcdColor(setting, c);
    }
    forall k | 0 <= k < 8
      ensures DecodeVcdSetting(setting).textures[k] < 4
      ensures DecodeVcdSetting(setting).textures[k] == setting / Pow2(10 + 2 * k) % 4
    {
      VcdTexture(setting, k);
    }
  }

  /** The matrix index, position and normal fields. */
  lemma {:induction false} VcdScalars(setting: nat)
    ensures var v := DecodeVcdSetting(setting);
      && v.positionMatrixIndex < 4 && v.position < 4 && v.normal < 4
      && v.positionMatrixIndex == setting % 4
      && v.position == setting / 4 % 4
      && v.normal == setting / 16 % 4
  {
    assert Pow2(0) == 1 && Pow2(2) == 4 && Pow2(4) == 16;
    VcdGroup(setting, 0);
    VcdGroup(setting, 1);
    VcdGroup(setting, 2);
  }

  /** Colour channel `c` is the two bits at position `6 + 2 * c`. */
  lemma {:induction false} VcdColor(setting: nat, c: nat)
    requires c < 2
    ensures DecodeVcdSetting(setting).colors[c] < 4
    ensures DecodeVcdSetting(setting).colors[c] == setting / Pow2(6 + 2 * c) % 4
  {
    var g := BitGroups(setting, 2, 13);
    assert DecodeVcdSetting(setting).colors == g[3..3+|DecodeVcdSetting(setting).colors|];
    VcdGroup(setting, 3 + c);
    assert 2 * (3 + c) == 6 + 2 * c;
  }

  /** Texture coordinate `k` is the two bits at position `10 + 2 * k`. */
  lemma {:induction false} VcdTexture(setting: nat, k: nat)
    requires k < 8
    ensures DecodeVcdSetting(setting).textures[k] < 4
    ensures DecodeVcdSetting(setting).textures[k] == setting / Pow2(10 + 2 * k) % 4
  {
    var g := BitGroups(setting, 2, 13);
    assert DecodeVcdSetting(setting).textures == g[5..5+|DecodeVcdSetting(setting).textures|];
    VcdGroup(setting, 5 + k);
    assert 2 * (5 + k) == 10 + 2 * k;
  }

  /** VCD field `i` is the two bits at position `2 * i`. */
  lemma {:induction false} VcdGroup(setting: nat, i: nat)
    requires i < 13
    ensures BitGroups(setting, 2, 13)[i] < 4
    ensures BitGroups(setting, 2, 13)[i] == setting / Pow2(2 * i) % 4
  {
    assert Pow2(2) == 4;
    BitGroupsAt(setting, 2, 13, i);
  }

  // ---------------------------------------------------------------------
  // Matrix load setting

  datatype MtxLoadSetting = MtxLoadSetting(destinationMatrixIndex: nat, sourceMatrixIndex: nat)

  /** `DisplayStateMTXLoadSetting.from_setting`: the low 16 bits and the rest. */
  function DecodeMtxLoadSetting(setting: nat): (m: MtxLoadSetting)
    ensures m.destinationMatrixIndex < 0x1_0000
    ensures m.sourceMatrixIndex * 0x1_0000 + m.destinationMatrixIndex == setting
  {
    Pow2Values();
    MtxLoadSetting(Mask(setting, 16), Shr(setting, 16))
  }

  // ---------------------------------------------------------------------
  // Vertex components

  /** The per-attribute size of an index: none, 8-bit, 16-bit. A direct
      attribute (field value 1) is not in the table. */
  function ComponentSize(field: nat): (r: Result<nat>)
    ensures r.Err? <==> field !in {0, 2, 3}
    ensures r.Err? ==> r.error == MissingKey
    ensures r.Ok? ==> r.value == (if field == 0 then 0 else field - 1)
  {
    if field == 0 then Ok(0)
    else if field == 2 then Ok(1)
    else if field == 3 then Ok(2)
    else Err(MissingKey)
  }

  /** `(setting >> (j * 2)) & 3`. */
  function ComponentField(setting: nat, j: nat): (r: nat)
    ensures r < 4
  {
    Pow2Values();
    Mask(Shr(setting, 2 * j), 2)
  }

  /** `[(setting >> (j * 2)) & 3 for j in range(13)]`. */
  function ComponentFields(setting: nat): (r: seq<nat>)
    ensures |r| == 13
  {
    seq(13, j requires 0 <= j < 13 => ComponentField(setting, j))
  }

  /** The components read by position agree with the VCD decoder's walk. */
  lemma {:induction false} ComponentFieldsAreGroups(setting: nat)
    ensures ComponentFields(setting) == BitGroups(setting, 2, 13)
  {
    var f := ComponentFields(setting);
    var g := BitGroups(setting, 2, 13);
    forall j | 0 <= j < 13
      ensures f[j] == g[j]
    {
      BitGroupsAt(setting, 2, 13, j);
    }
  }

  /** The sizes of the fields, failing at the first one not in the table. */
  function Sizes(fields: seq<nat>): (r: Result<seq<nat>>)
    ensures r.Err? <==> exists i :: 0 <= i < |fields| && fields[i] !in {0, 2, 3}
    ensures r.Err? ==> r.error == MissingKey
    ensures r.Ok? ==> |r.value| == |fields|
    ensures r.Ok? ==> forall i :: 0 <= i < |fields| ==> Ok(r.value[i]) == ComponentSize(fields[i])
  {
    if fields == [] then Ok([])
    else
      var head :- ComponentSize(fields[0]);
      var tail :- Sizes(fields[1..]);
      assert forall i :: 1 <= i < |fields| ==> fields[i] == fields[1..][i - 1];
      Ok([head] + tail)
  }

  function Sum(s: seq<nat>): nat {
    if s == [] then 0 else s[0] + Sum(s[1..])
  }

  /** Prefix sums grow by the next element and stay below the total. */
  lemma {:induction false} SumPrefix(s: seq<nat>, i: nat)
    requires i < |s|
    ensures Sum(s[..i + 1]) == Sum(s[..i]) + s[i]
    ensures Sum(s[..i + 1]) <= Sum(s)
    decreases |s|
  {
    if i > 0 {
      assert s[..i + 1][1..] == s[1..][..i];
      assert s[..i][1..] == s[1..][..i - 1];
      SumPrefix(s[1..], i - 1);
    } else {
      assert s[..1][1..] == [];
    }
  }

  /** What `getComponents` returns: the vertex size and where the position,
      normal and texture-coordinate indices sit inside a vertex. */
  datatype Components = Components(
    vectorSize: nat, posSize: nat, posOffset: nat, normSize: nat, normOffset: nat,
    uvSizes: seq<nat>, uvOffsets: seq<nat>)

  /** The dictionary `getComponents` builds from the thirteen sizes. */
  function ComponentsFromSizes(sizes: seq<nat>): (c: Components)
    requires |sizes| == 13
    ensures |c.uvSizes| == 8 && |c.uvOffsets| == 8
  {
    Components(Sum(sizes), sizes[1], Sum(sizes[..1]), sizes[2], Sum(sizes[..2]),
               sizes[5..], seq(8, i requires 0 <= i < 8 => Sum(sizes[..5 + i])))
  }

  /** The attributes are packed in GX order: every offset is the sum of the
      sizes before it, so each attribute lies inside the vertex. */
  lemma {:induction false} ComponentsPacked(sizes: seq<nat>)
    requires |sizes| == 13
    ensures var c := ComponentsFromSizes(sizes);
      && c.posOffset + c.posSize <= c.vectorSize
      && c.normOffset == c.posOffset + c.posSize
      && c.normOffset + c.normSize <= c.vectorSize
      && (forall i :: 0 <= i < 8 ==> c.uvOffsets[i] + c.uvSizes[i] <= c.vectorSize)
      && (forall i :: 0 <= i < 7 ==> c.uvOffsets[i + 1] == c.uvOffsets[i] + c.uvSizes[i])
  {
    var c := ComponentsFromSizes(sizes);
    SumPrefix(sizes, 0);
    assert sizes[..0] == [];
    SumPrefix(sizes, 1);
    SumPrefix(sizes, 2);
    forall i | 0 <= i < 8
      ensures c.uvOffsets[i] + c.uvSizes[i] <= c.vectorSize
      ensures i < 7 ==> c.uvOffsets[i + 1] == c.uvOffsets[i] + c.uvSizes[i]
    {
      SumPrefix(sizes, 5 + i);
    }
  }

  /** `getComponents` on a given VCD setting word. */
  function ComponentsOf(setting: nat): (r: Result<Components>)
    ensures r.Err? <==> exists j :: 0 <= j < 13 && ComponentField(setting, j) == 1
    ensures r.Err? ==> r.error == MissingKey
    ensures r.Ok? ==> (Sizes(ComponentFields(setting)).Ok?
      && r.value == ComponentsFromSizes(Sizes(ComponentFields(setting)).value))
  {
    var fields := ComponentFields(setting);
    assert forall i :: 0 <= i < 13 ==> fields[i] == ComponentField(setting, i);
    var sizes :- Sizes(fields);
    Ok(ComponentsFromSizes(sizes))
  }

  /** The position and normal sizes follow the VCD decoder's fields. */
  lemma {:induction false} ComponentsMatchVcd(setting: nat)
    requires ComponentsOf(setting).Ok?
    ensures var c := ComponentsOf(setting).value;
      var v := DecodeVcdSetting(setting);
      && Ok(c.posSize) == ComponentSize(v.position)
      && Ok(c.normSize) == ComponentSize(v.normal)
      && forall k :: 0 <= k < 8 ==> Ok(c.uvSizes[k]) == ComponentSize(v.textures[k])
  {
    ComponentFieldsAreGroups(setting);
    var fields := ComponentFields(setting);
    var sizes := Sizes(fields).value;
    assert Ok(sizes[1]) == ComponentSize(fields[1]);
    assert Ok(sizes[2]) == ComponentSize(fields[2]);
  }

  // ---------------------------------------------------------------------
  // The setting helper

  const StateTexture: nat := 1
  const StateVcd: nat := 2
  const StateMtxLoad: nat := 3

  /** `DisplayStateSettingHelper`: texture bindings keyed by layer; a VCD or
      matrix load that has not been set yet has no attributes. */
  datatype SettingHelper = SettingHelper(
    vcd: Option<VcdSetting>, textures: map<nat, TextureSetting>, mtxLoad: Option<MtxLoadSetting>)

  const InitialHelper: SettingHelper := SettingHelper(None, map[], None)

  /** `setSetting`: dispatch on the state id. */
  function SetSetting(h: SettingHelper, stateId: nat, setting: nat): (r: Result<SettingHelper>)
    ensures r.Err? <==> stateId !in {StateTexture, StateVcd, StateMtxLoad}
    ensures r.Err? ==> r.error == UnknownValue
    ensures r.Ok? && stateId != StateTexture ==> r.value.textures == h.textures
    ensures r.Ok? && stateId != StateVcd ==> r.value.vcd == h.vcd
    ensures r.Ok? && stateId != StateMtxLoad ==> r.value.mtxLoad == h.mtxLoad
  {
    if stateId == StateTexture then
      var t := DecodeTextureSetting(setting);
      Ok(h.(textures := h.textures[t.layer := t]))
    else if stateId == StateMtxLoad then
      Ok(h.(mtxLoad := Some(DecodeMtxLoadSetting(setting))))
    else if stateId == StateVcd then
      Ok(h.(vcd := Some(DecodeVcdSetting(setting))))
    else
      Err(UnknownValue)
  }

  /** `getTextureIndex(layer)`. */
  function TextureIndex(h: SettingHelper, layer: nat): (r: Option<nat>)
    ensures r.Some? <==> layer in h.textures
    ensures r.Some? ==> r.value == h.textures[layer].textureIndex
  {
    if layer in h.textures then Some(h.textures[layer].textureIndex) else None
  }

  /** `getSrcMtxIndex`. */
  function SourceMatrixIndex(h: SettingHelper): (r: Result<nat>)
    ensures r.Err? <==> h.mtxLoad.None?
    ensures r.Err? ==> r.error == MissingAttribute
  {
    if h.mtxLoad.None? then Err(MissingAttribute) else Ok(h.mtxLoad.value.sourceMatrixIndex)
  }

  /** `getDestMtxIndex`. */
  function DestinationMatrixIndex(h: SettingHelper): (r: Result<nat>)
    ensures r.Err? <==> h.mtxLoad.None?
    ensures r.Err? ==> r.error == MissingAttribute
  {
    if h.mtxLoad.None? then Err(MissingAttribute) else Ok(h.mtxLoad.value.destinationMatrixIndex)
  }

  /** `getComponents` on the helper's current VCD. */
  function HelperComponents(h: SettingHelper): (r: Result<Components>)
    ensures h.vcd.None? ==> r == Err(MissingAttribute)
  {
    if h.vcd.None? then Err(MissingAttribute) else ComponentsOf(h.vcd.value.setting)
  }

  /** A texture setting replaces the binding of its own layer and no other. */
  lemma {:induction false} TextureIndexLatest(h: SettingHelper, setting: nat, layer: nat)
    ensures var r := SetSetting(h, StateTexture, setting).value;
      var t := DecodeTextureSetting(setting);
      TextureIndex(r, layer) == if layer == t.layer then Some(t.textureIndex) else TextureIndex(h, layer)
  {
  }

  /** Before any texture setting, every layer reads as None. */
  lemma {:induction false} InitialTextureIndex(layer: nat)
    ensures TextureIndex(InitialHelper, layer) == None
    ensures HelperComponents(InitialHelper).Err? && SourceMatrixIndex(InitialHelper).Err?
  {
  }

  /** After a VCD setting, `getComponents` describes that setting word. */
  lemma {:induction false} VcdSettingComponents(h: SettingHelper, setting: nat)
    ensures HelperComponents(SetSetting(h, StateVcd, setting).value) == ComponentsOf(setting)
  {
    var v := DecodeVcdSetting(setting);
    assert SetSetting(h, StateVcd, setting) == Ok(h.(vcd := Some(v)));
  }

  /** After a matrix load, the source and destination indices split the word. */
  lemma {:induction false} MtxLoadIndices(h: SettingHelper, setting: nat)
    ensures var r := SetSetting(h, StateMtxLoad, setting).value;
      && SourceMatrixIndex(r).Ok? && DestinationMatrixIndex(r).Ok?
      && DestinationMatrixIndex(r).value < 0x1_0000
      && SourceMatrixIndex(r).value * 0x1_0000 + DestinationMatrixIndex(r).value == setting
  {
  }
}
