/** Stadium collision data (`structs/collision/collision_structs.py`, with a
    copy in `helper_collision.py`).

    A collision block starts with a 12-byte header: a collection count, an
    unknown halfword, a bounding-box pointer, and, from byte 8 on, one
    32-bit pointer per collection. Pointers are relative to the block. Each
    collection is a chain of triangle groups: a (type, count) header and
    its 16-byte vertex records, strip or singles, ended by a group whose
    count is zero. Coordinates are floats and are kept as raw words.
 */
module Collision {
  import opened Bits
  import opened Wrappers
  import opened Fields
  import opened Arrays

  // ---------------------------------------------------------------------
  // Records

  /** `StadiumTriangleCollectionType`. */
  datatype GroupType = Singles | Strip

  /** The enum constructor: any value but 0 and 1 is a ValueError. */
  function GroupTypeOf(value: nat): (r: Result<GroupType>)
    ensures r.Err? <==> value > 1
    ensures r.Err? ==> r.error == UnknownValue
    ensures r.Ok? ==> GroupTypeValue(r.value) == value
  {
    if value == 0 then Ok(Singles)
    else if value == 1 then Ok(Strip)
    else Err(UnknownValue)
  }

  /** `StadiumTriangleCollectionType.value`. */
  function GroupTypeValue(t: GroupType): (v: nat)
    ensures v < 2
  {
    match t
    case Singles => 0
    case Strip => 1
  }

  /** Converting a type to its value and back gives the type. */
  lemma {:induction false} GroupTypeRoundTrip(t: GroupType)
    ensures GroupTypeOf(GroupTypeValue(t)) == Ok(t)
  {
  }

  /** The number of vertex records of a group: a strip of `count` triangles
      has `count + 2` vertices, `count` single triangles have three each. */
  function RecordCount(t: GroupType, count: nat): (n: nat)
    ensures count > 0 ==> n >= 3
    ensures t == Strip ==> n == count + 2
    ensures t == Singles ==> n == 3 * count
  {
    if t == Strip then count + 2 else count * 3
  }

  /** One vertex record, '>fffHH': three raw float words, a collision type and a pad. */
  datatype Triangle = Triangle(x: nat, y: nat, z: nat, triangleType: nat, pad: nat)

  const GroupHeaderSize: nat := 4
  const TriangleSize: nat := 16
  const BoundingBoxSize: nat := 24
  const CollisionHeaderSize: nat := 12

  predicate TriangleFits(t: Triangle) {
    t.x < Word32 && t.y < Word32 && t.z < Word32 && t.triangleType < Word16 && t.pad < Word16
  }

  function ParseTriangle(b: seq<u8>, offset: nat): (res: Result<Triangle>)
    ensures res.Err? <==> offset + TriangleSize > |b|
    ensures res.Err? ==> res.error == OutOfBytes
    ensures res.Ok? ==> TriangleFits(res.value)
  {
    if offset + TriangleSize > |b| then Err(OutOfBytes)
    else Ok(Triangle(U32At(b, offset), U32At(b, offset + 4), U32At(b, offset + 8),
                     U16At(b, offset + 12), U16At(b, offset + 14)))
  }

  function EncodeTriangle(t: Triangle): (e: seq<u8>)
    requires TriangleFits(t)
    ensures |e| == TriangleSize
  {
    Be32(t.x) + Be32(t.y) + Be32(t.z) + Be16(t.triangleType) + Be16(t.pad)
  }

  lemma {:induction false} TriangleRoundTrip(b: seq<u8>, offset: nat, t: Triangle)
    requires TriangleFits(t) && offset + TriangleSize <= |b|
    requires b[offset..offset + TriangleSize] == EncodeTriangle(t)
    ensures ParseTriangle(b, offset) == Ok(t)
  {
    var e := EncodeTriangle(t);
    Read32At(b, offset, e, 0, t.x);
    Read32At(b, offset, e, 4, t.y);
    Read32At(b, offset, e, 8, t.z);
    Read16At(b, offset, e, 12, t.triangleType);
    Read16At(b, offset, e, 14, t.pad);
  }

  function TriangleParser(b: seq<u8>): nat -> Result<Triangle> {
    (o: nat) => ParseTriangle(b, o)
  }

  /** A group: its type, its triangle count and its vertex records. */
  datatype TriangleGroup = TriangleGroup(groupType: GroupType, triangleCount: nat, triangles: seq<Triangle>)

  /** `TriangleGroup(b, offset)`: the header, the enum conversion, then,
      unless the count is zero, the records right after the header. */
  function ParseTriangleGroup(b: seq<u8>, offset: nat): (res: Result<TriangleGroup>)
    ensures offset + GroupHeaderSize > |b| ==> res == Err(OutOfBytes)
    ensures offset + GroupHeaderSize <= |b| && U16At(b, offset) > 1 ==> res == Err(UnknownValue)
    ensures res.Ok? ==> var g := res.value;
      && offset + GroupHeaderSize <= |b|
      && GroupTypeValue(g.groupType) == U16At(b, offset)
      && g.triangleCount == U16At(b, offset + 2)
      && |g.triangles| == (if g.triangleCount == 0 then 0 else RecordCount(g.groupType, g.triangleCount))
      && forall i :: 0 <= i < |g.triangles| ==>
           ParseTriangle(b, Element(offset + GroupHeaderSize, TriangleSize, i)) == Ok(g.triangles[i])
  {
    if offset + GroupHeaderSize > |b| then Err(OutOfBytes)
    else
      var groupType :- GroupTypeOf(U16At(b, offset));
      var count := U16At(b, offset + 2);
      if count == 0 then Ok(TriangleGroup(groupType, 0, []))
      else
        var triangles :- ParseArray(TriangleParser(b), offset + GroupHeaderSize, TriangleSize,
                                    RecordCount(groupType, count));
        Ok(TriangleGroup(groupType, count, triangles))
  }

  /** The group header as written: type and count. */
  function EncodeGroupHeader(t: GroupType, count: nat): (e: seq<u8>)
    requires count < Word16
    ensures |e| == GroupHeaderSize
  {
    Be16(GroupTypeValue(t)) + Be16(count)
  }

  /** A zero-count header parses as an empty group of its type: the
      terminator of a collection. */
  lemma {:induction false} TerminatorRoundTrip(b: seq<u8>, offset: nat, t: GroupType)
    requires offset + GroupHeaderSize <= |b| && b[offset..offset + GroupHeaderSize] == EncodeGroupHeader(t, 0)
    ensures ParseTriangleGroup(b, offset) == Ok(TriangleGroup(t, 0, []))
  {
    var e := EncodeGroupHeader(t, 0);
    Read16At(b, offset, e, 0, GroupTypeValue(t));
    Read16At(b, offset, e, 2, 0);
  }

  /** A group header followed by its records parses back as that group. */
  lemma {:induction false} GroupRoundTrip(b: seq<u8>, offset: nat, g: TriangleGroup)
    requires 0 < g.triangleCount < Word16 && |g.triangles| == RecordCount(g.groupType, g.triangleCount)
    requires offset + GroupHeaderSize <= |b| && b[offset..offset + GroupHeaderSize] == EncodeGroupHeader(g.groupType, g.triangleCount)
    requires forall i :: 0 <= i < |g.triangles| ==>
      ParseTriangle(b, Element(offset + GroupHeaderSize, TriangleSize, i)) == Ok(g.triangles[i])
    ensures ParseTriangleGroup(b, offset) == Ok(g)
  {
    var e := EncodeGroupHeader(g.groupType, g.triangleCount);
    Read16At(b, offset, e, 0, GroupTypeValue(g.groupType));
    Read16At(b, offset, e, 2, g.triangleCount);
    var n := RecordCount(g.groupType, g.triangleCount);
    ParseArrayIs(TriangleParser(b), offset + GroupHeaderSize, TriangleSize, g.triangles);
  }

  /** The bytes a non-empty group takes: its header and its records. */
  function GroupSize(g: TriangleGroup): (n: nat)
    ensures n >= GroupHeaderSize
  {
    GroupHeaderSize + TriangleSize * RecordCount(g.groupType, g.triangleCount)
  }

  // ---------------------------------------------------------------------
  // The group walk

  /** A group parser that only succeeds where a group header fits below `limit`. */
  ghost predicate Bounded(parse: nat -> Result<TriangleGroup>, limit: nat) {
    forall p: nat :: parse(p).Ok? ==> p + GroupHeaderSize <= limit
  }

  /** The `while True` loop of `parse_triangle_collections`: groups are read
      one after the other until one with a zero count, which is not kept;
      the pointer moves past each kept group's header and records. */
  function Walk(parse: nat -> Result<TriangleGroup>, limit: nat, ptr: nat): (r: Result<seq<TriangleGroup>>)
    requires Bounded(parse, limit)
    ensures r.Ok? ==> forall k :: 0 <= k < |r.value| ==> r.value[k].triangleCount != 0
    decreases limit - ptr
  {
    var g :- parse(ptr);
    if g.triangleCount == 0 then Ok([])
    else
      var rest :- Walk(parse, limit, ptr + GroupSize(g));
      Ok([g] + rest)
  }

  /** Where group `k` of a walk from `ptr` starts. */
  function GroupStart(ptr: nat, groups: seq<TriangleGroup>, k: nat): nat
    requires k <= |groups|
    decreases k
  {
    if k == 0 then ptr else GroupStart(ptr + GroupSize(groups[0]), groups[1..], k - 1)
  }

  /** Each kept group is the one found where the previous group ends. */
  lemma {:induction false} WalkChain(parse: nat -> Result<TriangleGroup>, limit: nat, ptr: nat)
    requires Bounded(parse, limit) && Walk(parse, limit, ptr).Ok?
    ensures var groups := Walk(parse, limit, ptr).value;
      forall k :: 0 <= k < |groups| ==> parse(GroupStart(ptr, groups, k)) == Ok(groups[k])
    decreases limit - ptr
  {
    var groups := Walk(parse, limit, ptr).value;
    if groups != [] {
      var next := ptr + GroupSize(groups[0]);
      var rest := Walk(parse, limit, next).value;
      WalkChain(parse, limit, next);
      assert groups[1..] == rest;
      forall k | 0 <= k < |groups|
        ensures parse(GroupStart(ptr, groups, k)) == Ok(groups[k])
      {
        if k > 0 {
          GroupStartTail(ptr, groups, next, rest, k);
        }
      }
    }
  }

  /** Group `k` of a walk from `ptr` is group `k - 1` of the walk from
      where the first group ends. */
  lemma {:induction false} GroupStartTail(ptr: nat, groups: seq<TriangleGroup>, next: nat,
                                          rest: seq<TriangleGroup>, k: nat)
    requires 0 < k <= |groups| && rest == groups[1..] && next == ptr + GroupSize(groups[0])
    ensures GroupStart(ptr, groups, k) == GroupStart(next, rest, k - 1)
  {
  }

  /** The walk ends at a zero-count group, past the last kept one. */
  lemma {:induction false} WalkEnd(parse: nat -> Result<TriangleGroup>, limit: nat, ptr: nat)
    requires Bounded(parse, limit) && Walk(parse, limit, ptr).Ok?
    ensures var groups := Walk(parse, limit, ptr).value;
      var end := parse(GroupStart(ptr, groups, |groups|));
      end.Ok? && end.value.triangleCount == 0
    decreases limit - ptr
  {
    var groups := Walk(parse, limit, ptr).value;
    if groups != [] {
      var next := ptr + GroupSize(groups[0]);
      var rest := Walk(parse, limit, next).value;
      WalkEnd(parse, limit, next);
      assert groups[1..] == rest;
      assert GroupStart(ptr, groups, |groups|) == GroupStart(next, rest, |rest|);
    }
  }

  /** A walk that starts at a terminator keeps nothing. */
  lemma {:induction false} WalkStops(parse: nat -> Result<TriangleGroup>, limit: nat, ptr: nat)
    requires Bounded(parse, limit) && parse(ptr).Ok? && parse(ptr).value.triangleCount == 0
    ensures Walk(parse, limit, ptr) == Ok([])
  {
  }

  function GroupParser(b: seq<u8>): nat -> Result<TriangleGroup> {
    (o: nat) => ParseTriangleGroup(b, o)
  }

  lemma {:induction false} GroupParserBounded(b: seq<u8>)
    ensures Bounded(GroupParser(b), |b|)
  {
  }

  /** The group walk over the bytes of a collision block. */
  function WalkGroups(b: seq<u8>, ptr: nat): (r: Result<seq<TriangleGroup>>)
    ensures r.Ok? ==> forall k :: 0 <= k < |r.value| ==> r.value[k].triangleCount != 0
  {
    GroupParserBounded(b);
    Walk(GroupParser(b), |b|, ptr)
  }

  /** Each group of a collection is the one parsed where the previous ends,
      and a zero-count group follows the last. */
  lemma {:induction false} WalkGroupsChain(b: seq<u8>, ptr: nat)
    requires WalkGroups(b, ptr).Ok?
    ensures var groups := WalkGroups(b, ptr).value;
      && (forall k :: 0 <= k < |groups| ==> ParseTriangleGroup(b, GroupStart(ptr, groups, k)) == Ok(groups[k]))
      && ParseTriangleGroup(b, GroupStart(ptr, groups, |groups|)).Ok?
      && ParseTriangleGroup(b, GroupStart(ptr, groups, |groups|)).value.triangleCount == 0
  {
    GroupParserBounded(b);
    WalkChain(GroupParser(b), |b|, ptr);
    WalkEnd(GroupParser(b), |b|, ptr);
  }

  // ---------------------------------------------------------------------
  // Bounding boxes

  datatype Vec = Vec(x: nat, y: nat, z: nat)
  datatype BoundingBox = BoundingBox(corner1: Vec, corner2: Vec)

  /** `Vec(b, offset)`: three raw float words. */
  function ParseVec(b: seq<u8>, offset: nat): (res: Result<Vec>)
    ensures res.Err? <==> offset + 12 > |b|
    ensures res.Err? ==> res.error == OutOfBytes
  {
    if offset + 12 > |b| then Err(OutOfBytes)
    else Ok(Vec(U32At(b, offset), U32At(b, offset + 4), U32At(b, offset + 8)))
  }

  /** `BoundingBox(b, offset)`: two corners, 12 bytes apart. */
  function ParseBoundingBox(b: seq<u8>, offset: nat): (res: Result<BoundingBox>)
    ensures res.Err? <==> offset + BoundingBoxSize > |b|
    ensures res.Err? ==> res.error == OutOfBytes
    ensures res.Ok? ==> (ParseVec(b, offset) == Ok(res.value.corner1)
                         && ParseVec(b, offset + 12) == Ok(res.value.corner2))
  {
    var corner1 :- ParseVec(b, offset);
    var corner2 :- ParseVec(b, offset + 12);
    Ok(BoundingBox(corner1, corner2))
  }

  function BoxParser(b: seq<u8>): nat -> Result<BoundingBox> {
    (o: nat) => ParseBoundingBox(b, o)
  }

  /** `parse_bounding_boxes`: `count` boxes, 24 bytes apart from `base`. */
  function ParseBoxes(b: seq<u8>, base: nat, count: nat): (r: Result<seq<BoundingBox>>)
    ensures r.Ok? ==> |r.value| == count
    ensures r.Ok? ==> forall i :: 0 <= i < count ==> ParseBoundingBox(b, Element(base, BoundingBoxSize, i)) == Ok(r.value[i])
  {
    ParseArray(BoxParser(b), base, BoundingBoxSize, count)
  }

  // ---------------------------------------------------------------------
  // The collision block

  datatype CollisionHeader = CollisionHeader(count: nat, unknown: nat, boundingBoxes: nat, trianglePointerArray: nat)

  predicate CollisionHeaderFits(h: CollisionHeader) {
    h.count < Word16 && h.unknown < Word16 && h.boundingBoxes < Word32 && h.trianglePointerArray < Word32
  }

  function ParseCollisionHeader(b: seq<u8>, offset: nat): (res: Result<CollisionHeader>)
    ensures res.Err? <==> offset + CollisionHeaderSize > |b|
    ensures res.Err? ==> res.error == OutOfBytes
    ensures res.Ok? ==> CollisionHeaderFits(res.value)
  {
    if offset + CollisionHeaderSize > |b| then Err(OutOfBytes)
    else Ok(CollisionHeader(U16At(b, offset), U16At(b, offset + 2), U32At(b, offset + 4), U32At(b, offset + 8)))
  }

  function EncodeCollisionHeader(h: CollisionHeader): (e: seq<u8>)
    requires CollisionHeaderFits(h)
    ensures |e| == CollisionHeaderSize
  {
    Be16(h.count) + Be16(h.unknown) + Be32(h.boundingBoxes) + Be32(h.trianglePointerArray)
  }

  lemma {:induction false} CollisionHeaderRoundTrip(b: seq<u8>, offset: nat, h: CollisionHeader)
    requires CollisionHeaderFits(h) && offset + CollisionHeaderSize <= |b|
    requires b[offset..offset + CollisionHeaderSize] == EncodeCollisionHeader(h)
    ensures ParseCollisionHeader(b, offset) == Ok(h)
  {
    var e := EncodeCollisionHeader(h);
    Read16At(b, offset, e, 0, h.count);
    Read16At(b, offset, e, 2, h.unknown);
    Read32At(b, offset, e, 4, h.boundingBoxes);
    Read32At(b, offset, e, 8, h.trianglePointerArray);
  }

  /** `parse_bytes_static(b, o, ">I")[0] + offset`: a collection pointer
      made absolute. */
  function PointerAt(b: seq<u8>, offset: nat, o: nat): (res: Result<nat>)
    ensures res.Err? <==> o + 4 > |b|
    ensures res.Err? ==> res.error == OutOfBytes
    ensures res.Ok? ==> res.value >= offset
  {
    if o + 4 > |b| then Err(OutOfBytes) else Ok(U32At(b, o) + offset)
  }

  function PointerParser(b: seq<u8>, offset: nat): nat -> Result<nat> {
    (o: nat) => PointerAt(b, offset, o)
  }

  /** The first loop of `parse_triangle_collections`: pointer `i` is read
      at `offset + 8 + 4 * i`, so the first one is the header's last word. */
  function CollectionStarts(b: seq<u8>, offset: nat, count: nat): (r: Result<seq<nat>>)
    ensures r.Ok? ==> |r.value| == count
    ensures r.Ok? ==> forall i :: 0 <= i < count ==> PointerAt(b, offset, Element(offset + 8, 4, i)) == Ok(r.value[i])
  {
    ParseArray(PointerParser(b, offset), offset + 8, 4, count)
  }

  /** The pointer array is read exactly when its `count` words fit. */
  lemma {:induction false} CollectionStartsFit(b: seq<u8>, offset: nat, count: nat)
    ensures CollectionStarts(b, offset, count).Err? <==> count > 0 && offset + 8 + 4 * count > |b|
  {
    var parse, base := PointerParser(b, offset), offset + 8;
    ParseArrayOk(parse, base, 4, count);
    if count > 0 && base + 4 * count > |b| {
      assert !parse(Element(base, 4, count - 1)).Ok?;
    } else {
      assert forall i :: 0 <= i < count ==> parse(Element(base, 4, i)).Ok?;
    }
  }

  /** The walk of every collection, in order. */
  function WalkAll(b: seq<u8>, starts: seq<nat>): (r: Result<seq<seq<TriangleGroup>>>)
    ensures r.Ok? ==> |r.value| == |starts|
    ensures r.Ok? ==> forall i :: 0 <= i < |starts| ==> WalkGroups(b, starts[i]) == Ok(r.value[i])
  {
    if starts == [] then Ok([])
    else
      var first :- WalkGroups(b, starts[0]);
      var rest :- WalkAll(b, starts[1..]);
      Ok([first] + rest)
  }

  datatype TriangleCollection = TriangleCollection(boundingBox: BoundingBox, groups: seq<TriangleGroup>)

  /** Each bounding box paired with the walk of the same index. */
  function Collections(boxes: seq<BoundingBox>, groups: seq<seq<TriangleGroup>>): (r: seq<TriangleCollection>)
    requires |boxes| == |groups|
    ensures |r| == |boxes|
    ensures forall i :: 0 <= i < |r| ==> r[i].boundingBox == boxes[i] && r[i].groups == groups[i]
  {
    seq(|boxes|, i requires 0 <= i < |boxes| => TriangleCollection(boxes[i], groups[i]))
  }

  datatype CollisionBlock = CollisionBlock(
    header: CollisionHeader, boundingBoxes: seq<BoundingBox>, collections: seq<TriangleCollection>)

  /** `Collision(b, offset)`: the header, `count` bounding boxes 24 bytes
      apart from the box pointer, then one group walk per collection,
      paired with the box of the same index. */
  function ParseCollision(b: seq<u8>, offset: nat): (res: Result<CollisionBlock>)
    ensures offset + CollisionHeaderSize > |b| ==> res == Err(OutOfBytes)
    ensures res.Ok? ==> var c := res.value;
      && ParseCollisionHeader(b, offset) == Ok(c.header)
      && |c.boundingBoxes| == c.header.count && |c.collections| == c.header.count
      && forall i :: 0 <= i < c.header.count ==>
           && ParseBoundingBox(b, Element(c.header.boundingBoxes + offset, BoundingBoxSize, i)) == Ok(c.boundingBoxes[i])
           && c.collections[i].boundingBox == c.boundingBoxes[i]
  {
    var hr := ParseCollisionHeader(b, offset);
    if hr.Err? then Err(hr.error) else
    var h := hr.value;
    var br := ParseBoxes(b, h.boundingBoxes + offset, h.count);
    if br.Err? then Err(br.error) else
    var sr := CollectionStarts(b, offset, h.count);
    if sr.Err? then Err(sr.error) else
    var gr := WalkAll(b, sr.value);
    if gr.Err? then Err(gr.error) else
    Ok(CollisionBlock(h, br.value, Collections(br.value, gr.value)))
  }

  /** Collection `i` holds the walk from pointer `i`, made absolute. */
  lemma {:induction false} CollisionWalks(b: seq<u8>, offset: nat)
    requires ParseCollision(b, offset).Ok?
    ensures var c := ParseCollision(b, offset).value;
      forall i :: 0 <= i < |c.collections| ==>
        WalkGroups(b, U32At(b, Element(offset + 8, 4, i)) + offset) == Ok(c.collections[i].groups)
  {
    var h := ParseCollisionHeader(b, offset).value;
    var boxes := ParseBoxes(b, h.boundingBoxes + offset, h.count).value;
    var starts := CollectionStarts(b, offset, h.count).value;
    var groups := WalkAll(b, starts).value;
    var c := ParseCollision(b, offset).value;
    assert c.collections == Collections(boxes, groups);
    forall i | 0 <= i < |c.collections|
      ensures WalkGroups(b, U32At(b, Element(offset + 8, 4, i)) + offset) == Ok(c.collections[i].groups)
    {
      WalkFrom(b, offset, h.count, starts, groups, i);
    }
  }

  /** One collection of the walk: pointer `i` read, made absolute, walked. */
  lemma {:induction false} WalkFrom(b: seq<u8>, offset: nat, count: nat, starts: seq<nat>,
                                    groups: seq<seq<TriangleGroup>>, i: nat)
    requires CollectionStarts(b, offset, count) == Ok(starts)
    requires WalkAll(b, starts) == Ok(groups)
    requires i < count
    ensures WalkGroups(b, U32At(b, Element(offset + 8, 4, i)) + offset) == Ok(groups[i])
  {
    var p := Element(offset + 8, 4, i);
    assert PointerAt(b, offset, p) == Ok(starts[i]);
    assert WalkGroups(b, starts[i]) == Ok(groups[i]);
  }
}
