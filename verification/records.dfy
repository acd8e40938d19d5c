/** The fixed-layout records of the geometry palette and actor sections
    (`structs/common.py`, `structs/geo_palette/gpl_structs.py`,
    `structs/actor/actor_struct.py`, `structs/actor/bones.py`, and their
    older copies in `helper_c3.py`).

    Each record is parsed from the bytes at an offset. The parse fails
    with a ValueError when fewer bytes are left than the record takes,
    exactly as `parse_bytes_static` does. Pointers in a record are
    relative to the start of its section; `add_offset` turns them into
    absolute positions by `Relocate`, which leaves null pointers null.
    Each record also has an encoder, the layout written back, so that the
    field order and offsets are pinned down by a round trip.
 */
module Records {
  import opened Bits
  import opened Wrappers
  import opened Fields
  import opened Layout

  // ---------------------------------------------------------------------
  // DSTree: '>xxxxI'

  /** The root of a tree of branches: 4 unused bytes, then the root pointer. */
  datatype Tree = Tree(root: nat)

  const TreeSize: nat := 8

  predicate TreeFits(t: Tree) {
    t.root < Word32
  }

  function ParseTree(b: seq<u8>, offset: nat): (res: Result<Tree>)
    ensures res.Err? <==> offset + TreeSize > |b|
    ensures res.Err? ==> res.error == OutOfBytes
    ensures res.Ok? ==> TreeFits(res.value)
  {
    if offset + TreeSize > |b| then Err(OutOfBytes)
    else Ok(Tree(U32At(b, offset + 4)))
  }

  function EncodeTree(t: Tree): (r: seq<u8>)
    requires TreeFits(t)
    ensures |r| == TreeSize
  {
    Zeros(4) + Be32(t.root)
  }

  /** The root pointer sits in bytes 4 to 7. */
  lemma {:induction false} TreeRoundTrip(t: Tree)
    requires TreeFits(t)
    ensures ParseTree(EncodeTree(t), 0) == Ok(t)
  {
    Read32(EncodeTree(t), 4, t.root);
  }

  /** `DSTree.add_offset`. */
  function RelocateTree(t: Tree, offset: nat): (r: Tree)
    ensures r.root == 0 <==> t.root == 0
    ensures t.root != 0 ==> r.root == t.root + offset
  {
    Tree(Relocate(t.root, offset))
  }

  // ---------------------------------------------------------------------
  // DSBranch: '>IIII'

  /** A node of a tree: links to its neighbours, its parent and its first child. */
  datatype Branch = Branch(previous: nat, next: nat, parent: nat, firstChild: nat)

  const BranchSize: nat := 16

  predicate BranchFits(r: Branch) {
    r.previous < Word32 && r.next < Word32 && r.parent < Word32 && r.firstChild < Word32
  }

  function ParseBranch(b: seq<u8>, offset: nat): (res: Result<Branch>)
    ensures res.Err? <==> offset + BranchSize > |b|
    ensures res.Err? ==> res.error == OutOfBytes
    ensures res.Ok? ==> BranchFits(res.value)
  {
    if offset + BranchSize > |b| then Err(OutOfBytes)
    else Ok(Branch(U32At(b, offset), U32At(b, offset + 4), U32At(b, offset + 8), U32At(b, offset + 12)))
  }

  function EncodeBranch(r: Branch): (e: seq<u8>)
    requires BranchFits(r)
    ensures |e| == BranchSize
  {
    Be32(r.previous) + Be32(r.next) + Be32(r.parent) + Be32(r.firstChild)
  }

  /** The four links are big-endian words in the order previous, next,
      parent, first child. */
  lemma {:induction false} BranchRoundTrip(r: Branch)
    requires BranchFits(r)
    ensures ParseBranch(EncodeBranch(r), 0) == Ok(r)
  {
    var e := EncodeBranch(r);
    Read32(e, 0, r.previous);
    Read32(e, 4, r.next);
    Read32(e, 8, r.parent);
    Read32(e, 12, r.firstChild);
  }

  /** Encoding the parsed branch gives back its 16 bytes. */
  lemma {:induction false} BranchBytesRoundTrip(b: seq<u8>)
    requires |b| == BranchSize
    ensures ParseBranch(b, 0).Ok? && EncodeBranch(ParseBranch(b, 0).value) == b
  {
    Write32(b, 0);
    Write32(b, 4);
    Write32(b, 8);
    Write32(b, 12);
    assert b == b[0..4] + b[4..8] + b[8..12] + b[12..16];
  }

  /** `DSBranch.add_offset`: exactly the non-null links move. */
  function RelocateBranch(r: Branch, offset: nat): (s: Branch)
    ensures s.previous == 0 <==> r.previous == 0
    ensures s.next == 0 <==> r.next == 0
    ensures s.parent == 0 <==> r.parent == 0
    ensures s.firstChild == 0 <==> r.firstChild == 0
    ensures r.previous != 0 ==> s.previous == r.previous + offset
    ensures r.next != 0 ==> s.next == r.next + offset
    ensures r.parent != 0 ==> s.parent == r.parent + offset
    ensures r.firstChild != 0 ==> s.firstChild == r.firstChild + offset
  {
    Branch(Relocate(r.previous, offset), Relocate(r.next, offset),
           Relocate(r.parent, offset), Relocate(r.firstChild, offset))
  }

  /** Relocating twice is relocating once by the sum, and by 0 changes nothing. */
  lemma {:induction false} RelocateBranchTwice(r: Branch, a: nat, c: nat)
    ensures RelocateBranch(RelocateBranch(r, a), c) == RelocateBranch(r, a + c)
    ensures RelocateBranch(r, 0) == r
  {
  }

  // ---------------------------------------------------------------------
  // GeoPaletteHeader: '>IIIII'

  datatype GeoPaletteHeader = GeoPaletteHeader(
    versionNumber: nat,
    userDefinedDataSize: nat,
    userDefinedData: nat,
    descriptorCount: nat,
    descriptorArray: nat)

  const GeoPaletteHeaderSize: nat := 20

  predicate GeoPaletteHeaderFits(h: GeoPaletteHeader) {
    && h.versionNumber < Word32 && h.userDefinedDataSize < Word32
    && h.userDefinedData < Word32 && h.descriptorCount < Word32
    && h.descriptorArray < Word32
  }

  function ParseGeoPaletteHeader(b: seq<u8>, offset: nat): (res: Result<GeoPaletteHeader>)
    ensures res.Err? <==> offset + GeoPaletteHeaderSize > |b|
    ensures res.Err? ==> res.error == OutOfBytes
    ensures res.Ok? ==> GeoPaletteHeaderFits(res.value)
  {
    if offset + GeoPaletteHeaderSize > |b| then Err(OutOfBytes)
    else Ok(GeoPaletteHeader(U32At(b, offset), U32At(b, offset + 4), U32At(b, offset + 8),
                             U32At(b, offset + 12), U32At(b, offset + 16)))
  }

  function EncodeGeoPaletteHeader(h: GeoPaletteHeader): (e: seq<u8>)
    requires GeoPaletteHeaderFits(h)
    ensures |e| == GeoPaletteHeaderSize
  {
    Be32(h.versionNumber) + Be32(h.userDefinedDataSize) + Be32(h.userDefinedData)
      + Be32(h.descriptorCount) + Be32(h.descriptorArray)
  }

  /** The header is five big-endian words in declared order. */
  lemma {:induction false} GeoPaletteHeaderRoundTrip(h: GeoPaletteHeader)
    requires GeoPaletteHeaderFits(h)
    ensures ParseGeoPaletteHeader(EncodeGeoPaletteHeader(h), 0) == Ok(h)
  {
    var e := EncodeGeoPaletteHeader(h);
    Read32(e, 0, h.versionNumber);
    Read32(e, 4, h.userDefinedDataSize);
    Read32(e, 8, h.userDefinedData);
    Read32(e, 12, h.descriptorCount);
    Read32(e, 16, h.descriptorArray);
  }

  /** Encoding the parsed header gives back its 20 bytes. */
  lemma {:induction false} GeoPaletteHeaderBytesRoundTrip(b: seq<u8>)
    requires |b| == GeoPaletteHeaderSize
    ensures ParseGeoPaletteHeader(b, 0).Ok?
    ensures EncodeGeoPaletteHeader(ParseGeoPaletteHeader(b, 0).value) == b
  {
    Write32(b, 0);
    Write32(b, 4);
    Write32(b, 8);
    Write32(b, 12);
    Write32(b, 16);
    assert b == b[0..4] + b[4..8] + b[8..12] + b[12..16] + b[16..20];
  }

  /** `GeoPaletteHeader.add_offset`: the descriptor-array and user-data
      pointers move when non-null; version, size and count stay. */
  function RelocateGeoPaletteHeader(h: GeoPaletteHeader, offset: nat): (r: GeoPaletteHeader)
    ensures r.versionNumber == h.versionNumber
    ensures r.userDefinedDataSize == h.userDefinedDataSize
    ensures r.descriptorCount == h.descriptorCount
    ensures r.userDefinedData == 0 <==> h.userDefinedData == 0
    ensures r.descriptorArray == 0 <==> h.descriptorArray == 0
    ensures h.userDefinedData != 0 ==> r.userDefinedData == h.userDefinedData + offset
    ensures h.descriptorArray != 0 ==> r.descriptorArray == h.descriptorArray + offset
  {
    h.(descriptorArray := Relocate(h.descriptorArray, offset),
       userDefinedData := Relocate(h.userDefinedData, offset))
  }

  lemma {:induction false} RelocateGeoPaletteHeaderTwice(h: GeoPaletteHeader, a: nat, c: nat)
    ensures RelocateGeoPaletteHeader(RelocateGeoPaletteHeader(h, a), c) == RelocateGeoPaletteHeader(h, a + c)
    ensures RelocateGeoPaletteHeader(h, 0) == h
  {
  }

  // ---------------------------------------------------------------------
  // GeoDescriptor: '>II'

  /** One entry of the descriptor array; its name is set later from the
      string its name pointer points at. */
  datatype GeoDescriptor = GeoDescriptor(displayObject: nat, namePointer: nat, name: Option<string>)

  const GeoDescriptorSize: nat := 8

  predicate GeoDescriptorFits(d: GeoDescriptor) {
    d.displayObject < Word32 && d.namePointer < Word32
  }

  function ParseGeoDescriptor(b: seq<u8>, offset: nat): (res: Result<GeoDescriptor>)
    ensures res.Err? <==> offset + GeoDescriptorSize > |b|
    ensures res.Err? ==> res.error == OutOfBytes
    ensures res.Ok? ==> GeoDescriptorFits(res.value) && res.value.name.None?
  {
    if offset + GeoDescriptorSize > |b| then Err(OutOfBytes)
    else Ok(GeoDescriptor(U32At(b, offset), U32At(b, offset + 4), None))
  }

  function EncodeGeoDescriptor(d: GeoDescriptor): (e: seq<u8>)
    requires GeoDescriptorFits(d)
    ensures |e| == GeoDescriptorSize
  {
    Be32(d.displayObject) + Be32(d.namePointer)
  }

  /** The display-object pointer comes first, then the name pointer; the
      name is not stored in the record. */
  lemma {:induction false} GeoDescriptorRoundTrip(d: GeoDescriptor)
    requires GeoDescriptorFits(d)
    ensures ParseGeoDescriptor(EncodeGeoDescriptor(d), 0) == Ok(d.(name := None))
  {
    var e := EncodeGeoDescriptor(d);
    Read32(e, 0, d.displayObject);
    Read32(e, 4, d.namePointer);
  }

  /** `GeoDescriptor.add_offset`. */
  function RelocateGeoDescriptor(d: GeoDescriptor, offset: nat): (r: GeoDescriptor)
    ensures r.name == d.name
    ensures r.displayObject == 0 <==> d.displayObject == 0
    ensures r.namePointer == 0 <==> d.namePointer == 0
    ensures d.displayObject != 0 ==> r.displayObject == d.displayObject + offset
    ensures d.namePointer != 0 ==> r.namePointer == d.namePointer + offset
  {
    d.(displayObject := Relocate(d.displayObject, offset), namePointer := Relocate(d.namePointer, offset))
  }

  /** `GeoDescriptor.set_name`: only the name changes. */
  function SetName(d: GeoDescriptor, name: string): (r: GeoDescriptor)
    ensures r.name == Some(name)
    ensures r.displayObject == d.displayObject && r.namePointer == d.namePointer
  {
    d.(name := Some(name))
  }

  lemma {:induction false} RelocateGeoDescriptorTwice(d: GeoDescriptor, a: nat, c: nat)
    ensures RelocateGeoDescriptor(RelocateGeoDescriptor(d, a), c) == RelocateGeoDescriptor(d, a + c)
    ensures RelocateGeoDescriptor(d, 0) == d
  {
  }

  // ---------------------------------------------------------------------
  // ACTLayoutHeader: '>IHHxxxxxxxxIHxxII', with a DSTree in the pad bytes

  /** The version every actor layout must carry. */
  const ActorVersion: nat := 0x7B7960

  datatype ActorLayout = ActorLayout(
    versionNumber: nat,
    actorId: nat,
    boneCount: nat,
    geoPaletteName: nat,
    skinFileId: nat,
    userDefinedDataSize: nat,
    userDefinedData: nat,
    boneTree: Tree)

  const ActorLayoutSize: nat := 32

  predicate ActorLayoutFits(h: ActorLayout) {
    && h.versionNumber < Word32 && h.actorId < Word16 && h.boneCount < Word16
    && h.geoPaletteName < Word32 && h.skinFileId < Word16
    && h.userDefinedDataSize < Word32 && h.userDefinedData < Word32
    && TreeFits(h.boneTree)
  }

  /** `ACTLayoutHeader(b, offset)`: the 32 bytes are parsed, the version is
      asserted, and the bone tree is parsed from the pad bytes at
      `offset + 8`. */
  function ParseActorLayout(b: seq<u8>, offset: nat): (res: Result<ActorLayout>)
    ensures res.Err? ==> res.error in {OutOfBytes, AssertionFailed}
    ensures res.Err? && res.error == OutOfBytes <==> offset + ActorLayoutSize > |b|
    ensures res.Ok? ==> ActorLayoutFits(res.value) && res.value.versionNumber == ActorVersion
  {
    if offset + ActorLayoutSize > |b| then Err(OutOfBytes)
    else
      var version := U32At(b, offset);
      if version != ActorVersion then Err(AssertionFailed)
      else
        var tree := ParseTree(b, offset + 8).value;
        Ok(ActorLayout(version, U16At(b, offset + 4), U16At(b, offset + 6), U32At(b, offset + 16),
                       U16At(b, offset + 20), U32At(b, offset + 24), U32At(b, offset + 28), tree))
  }

  /** The version check fails exactly on a full record whose first word is
      not the actor version, and the bone tree is the tree read at
      `offset + 8`. */
  lemma {:induction false} ActorLayoutChecks(b: seq<u8>, offset: nat)
    ensures var res := ParseActorLayout(b, offset);
      && (res.Err? && res.error == AssertionFailed
          <==> offset + ActorLayoutSize <= |b| && U32At(b, offset) != ActorVersion)
      && (res.Ok? ==> ParseTree(b, offset + 8) == Ok(res.value.boneTree))
  {
  }

  function EncodeActorLayout(h: ActorLayout): (e: seq<u8>)
    requires ActorLayoutFits(h)
    ensures |e| == ActorLayoutSize
  {
    Be32(h.versionNumber) + Be16(h.actorId) + Be16(h.boneCount) + EncodeTree(h.boneTree)
      + Be32(h.geoPaletteName) + Be16(h.skinFileId) + Zeros(2)
      + Be32(h.userDefinedDataSize) + Be32(h.userDefinedData)
  }

  /** Field order and offsets: version, actor id, bone count, the 8 tree
      bytes, GEO palette name pointer, skin file id, 2 pad bytes, user
      data size and user data pointer. */
  lemma {:induction false} ActorLayoutRoundTrip(h: ActorLayout)
    requires ActorLayoutFits(h) && h.versionNumber == ActorVersion
    ensures ParseActorLayout(EncodeActorLayout(h), 0) == Ok(h)
  {
    var e := EncodeActorLayout(h);
    Read32(e, 0, h.versionNumber);
    Read16(e, 4, h.actorId);
    Read16(e, 6, h.boneCount);
    Read32(e, 12, h.boneTree.root);
    Read32(e, 16, h.geoPaletteName);
    Read16(e, 20, h.skinFileId);
    Read32(e, 24, h.userDefinedDataSize);
    Read32(e, 28, h.userDefinedData);
  }

  /** `ACTLayoutHeader.add_offset`: the user-data and GEO palette name
      pointers move when non-null, and so does the tree root. */
  function RelocateActorLayout(h: ActorLayout, offset: nat): (r: ActorLayout)
    ensures r.versionNumber == h.versionNumber && r.actorId == h.actorId && r.boneCount == h.boneCount
    ensures r.skinFileId == h.skinFileId && r.userDefinedDataSize == h.userDefinedDataSize
    ensures r.userDefinedData == 0 <==> h.userDefinedData == 0
    ensures r.geoPaletteName == 0 <==> h.geoPaletteName == 0
    ensures h.userDefinedData != 0 ==> r.userDefinedData == h.userDefinedData + offset
    ensures h.geoPaletteName != 0 ==> r.geoPaletteName == h.geoPaletteName + offset
    ensures r.boneTree == RelocateTree(h.boneTree, offset)
  {
    h.(userDefinedData := Relocate(h.userDefinedData, offset),
       geoPaletteName := Relocate(h.geoPaletteName, offset),
       boneTree := RelocateTree(h.boneTree, offset))
  }

  lemma {:induction false} RelocateActorLayoutTwice(h: ActorLayout, a: nat, c: nat)
    ensures RelocateActorLayout(RelocateActorLayout(h, a), c) == RelocateActorLayout(h, a + c)
    ensures RelocateActorLayout(h, 0) == h
  {
  }

  // ---------------------------------------------------------------------
  // ACTBoneLayoutHeader: '>I' + 16 pad bytes + 'HHBBxx', with a DSBranch in the pads

  /** A bone. The links to the neighbouring bone records and the CTRL
      record are resolved later from the branch pointers; they start unset. */
  datatype Bone = Bone(
    control: nat,
    geoFileId: nat,
    boneId: nat,
    inheritanceFlag: nat,
    drawingPriority: nat,
    branch: Branch,
    previousBone: Option<nat>,
    nextBone: Option<nat>,
    parentBone: Option<nat>,
    firstChildBone: Option<nat>)

  const BoneSize: nat := 28

  predicate BoneFits(h: Bone) {
    && h.control < Word32 && h.geoFileId < Word16 && h.boneId < Word16
    && h.inheritanceFlag < 256 && h.drawingPriority < 256
    && BranchFits(h.branch)
  }

  /** No link of the bone is resolved yet. */
  predicate Unlinked(h: Bone) {
    h.previousBone.None? && h.nextBone.None? && h.parentBone.None? && h.firstChildBone.None?
  }

  /** `ACTBoneLayoutHeader(b, offset)`: the 28 bytes, with the branch read
      from the pad bytes at `offset + 4`. */
  function ParseBone(b: seq<u8>, offset: nat): (res: Result<Bone>)
    ensures res.Err? <==> offset + BoneSize > |b|
    ensures res.Err? ==> res.error == OutOfBytes
    ensures res.Ok? ==> BoneFits(res.value) && Unlinked(res.value)
  {
    if offset + BoneSize > |b| then Err(OutOfBytes)
    else
      var branch := ParseBranch(b, offset + 4).value;
      Ok(Bone(U32At(b, offset), U16At(b, offset + 20), U16At(b, offset + 22), U8At(b, offset + 24),
              U8At(b, offset + 25), branch, None, None, None, None))
  }

  /** The branch of a bone is the branch read at `offset + 4`. */
  lemma {:induction false} BoneBranchAt(b: seq<u8>, offset: nat)
    ensures ParseBone(b, offset).Ok? ==> ParseBranch(b, offset + 4) == Ok(ParseBone(b, offset).value.branch)
  {
  }

  function EncodeBone(h: Bone): (e: seq<u8>)
    requires BoneFits(h)
    ensures |e| == BoneSize
  {
    Be32(h.control) + EncodeBranch(h.branch) + Be16(h.geoFileId) + Be16(h.boneId)
      + Be8(h.inheritanceFlag) + Be8(h.drawingPriority) + Zeros(2)
  }

  /** Field order and offsets: CTRL pointer, the 16 branch bytes, GEO file
      id, bone id, inheritance flag, drawing priority and 2 pad bytes. */
  lemma {:induction false} BoneRoundTrip(h: Bone)
    requires BoneFits(h) && Unlinked(h)
    ensures ParseBone(EncodeBone(h), 0) == Ok(h)
  {
    var e := EncodeBone(h);
    Read32(e, 0, h.control);
    Read32(e, 4, h.branch.previous);
    Read32(e, 8, h.branch.next);
    Read32(e, 12, h.branch.parent);
    Read32(e, 16, h.branch.firstChild);
    Read16(e, 20, h.geoFileId);
    Read16(e, 22, h.boneId);
    Read8(e, 24, h.inheritanceFlag);
    Read8(e, 25, h.drawingPriority);
  }

  /** `ACTBoneLayoutHeader.add_offset`: the CTRL pointer moves when
      non-null, and the branch is relocated. */
  function RelocateBone(h: Bone, offset: nat): (r: Bone)
    ensures r.control == 0 <==> h.control == 0
    ensures h.control != 0 ==> r.control == h.control + offset
    ensures r.branch == RelocateBranch(h.branch, offset)
    ensures r.geoFileId == h.geoFileId && r.boneId == h.boneId
    ensures r.inheritanceFlag == h.inheritanceFlag && r.drawingPriority == h.drawingPriority
    ensures Unlinked(h) ==> Unlinked(r)
  {
    h.(control := Relocate(h.control, offset), branch := RelocateBranch(h.branch, offset))
  }

  lemma {:induction false} RelocateBoneTwice(h: Bone, a: nat, c: nat)
    ensures RelocateBone(RelocateBone(h, a), c) == RelocateBone(h, a + c)
    ensures RelocateBone(h, 0) == h
  {
    RelocateBranchTwice(h.branch, a, c);
  }

  // ---------------------------------------------------------------------
  // SECTION_TEMPLATES

  /** The section kinds of an archive part list. */
  const SectionAct: nat := 0
  const SectionGeo: nat := 1
  const SectionTexture: nat := 2
  const SectionCollision: nat := 3

  /** Template name -> group -> section kind -> index in the part table. */
  const SectionTemplates: map<string, map<string, map<nat, nat>>> :=
    map["Stadium" := map[
      "stadium" := map[SectionAct := 0, SectionGeo := 3, SectionTexture := 5, SectionCollision := 2],
      "backdrop" := map[SectionAct := 1, SectionGeo := 4]]]

  /** The stadium template: the stadium group has all four sections and the
      backdrop only an actor and a geometry palette; no part serves two
      sections. */
  lemma {:induction false} StadiumTemplate()
    ensures "Stadium" in SectionTemplates
    ensures var t := SectionTemplates["Stadium"];
      && t.Keys == {"stadium", "backdrop"}
      && t["stadium"].Keys == {SectionAct, SectionGeo, SectionTexture, SectionCollision}
      && t["backdrop"].Keys == {SectionAct, SectionGeo}
      && t["stadium"].Values == {0, 3, 5, 2}
      && t["backdrop"].Values == {1, 4}
  {
    var t := SectionTemplates["Stadium"];
    var s := t["stadium"];
    assert s.Values == {0, 3, 5, 2} by {
      assert s[SectionAct] == 0 && s[SectionGeo] == 3 && s[SectionTexture] == 5 && s[SectionCollision] == 2;
    }
    var d := t["backdrop"];
    assert d.Values == {1, 4} by {
      assert d[SectionAct] == 1 && d[SectionGeo] == 4;
    }
  }
}
