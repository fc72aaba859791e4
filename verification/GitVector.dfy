/** The captured Git state, and the bytes its digest is taken over. */
module GitVector {
  import opened Prelude
  import opened Bytes

  datatype ObjectId = Sha1(bytes: Bytes) | Sha256(bytes: Bytes)

  datatype Vector = Vector(repository: Bytes, worktree: Bytes, headKind: Byte, headTarget: Option<ObjectId>,
                           headTree: Option<ObjectId>, index: Option<Bytes>, indexCount: Option<nat>, conflicts: bool,
                           operation: Byte, policy: Bytes, attributes: Bytes, inventory: Bytes)

  ghost predicate TypedObject(o: Option<ObjectId>) {
    match o
    case None => true
    case Some(Sha1(bytes)) => |bytes| == 20
    case Some(Sha256(bytes)) => |bytes| == 32
  }

  /** The widths that the field types guarantee. */
  ghost predicate TypedVector(v: Vector) {
    && |v.repository| == |v.worktree| == 16
    && TypedObject(v.headTarget) && TypedObject(v.headTree)
    && (v.index.Some? ==> |v.index.value| == 32)
    && (v.indexCount.Some? ==> v.indexCount.value <= U64_MAX)
    && |v.policy| == |v.attributes| == |v.inventory| == 32
  }

  function ObjectBytes(o: Option<ObjectId>): Bytes {
    match o
    case None => [0]
    case Some(Sha1(bytes)) => [1, 1] + bytes
    case Some(Sha256(bytes)) => [1, 2] + bytes
  }

  function IndexBytes(index: Option<Bytes>): Bytes {
    match index
    case None => [0]
    case Some(bytes) => [1] + bytes
  }

  function Count(v: Vector): nat {
    match v.indexCount case None => U64_MAX case Some(n) => n
  }

  function Tail(v: Vector): Bytes {
    BigEndian(Count(v), 8) + [if v.conflicts then 1 else 0, v.operation] + v.policy + v.attributes + v.inventory
  }

  function Preimage(v: Vector): Bytes {
    v.repository + v.worktree + [v.headKind] +
    (ObjectBytes(v.headTarget) + (ObjectBytes(v.headTree) + (IndexBytes(v.index) + Tail(v))))
  }

  lemma SplitAt(n: nat, a: Bytes, x: Bytes, b: Bytes, y: Bytes)
    requires |a| == |b| == n && a + x == b + y
    ensures a == b && x == y
  {
    assert (a + x)[..n] == a && (b + y)[..n] == b && (a + x)[n..] == x && (b + y)[n..] == y;
  }

  lemma ObjectFront(a: Option<ObjectId>, x: Bytes, b: Option<ObjectId>, y: Bytes)
    requires TypedObject(a) && TypedObject(b) && ObjectBytes(a) + x == ObjectBytes(b) + y
    ensures a == b && x == y
  {
    var p, q := ObjectBytes(a), ObjectBytes(b);
    assert (p + x)[0] == p[0] && (q + y)[0] == q[0];
    if a.Some? && b.Some? { assert (p + x)[1] == p[1] && (q + y)[1] == q[1]; }
    SplitAt(|p|, p, x, q, y);
    if a.Some? && b.Some? { assert p[2..] == a.value.bytes && q[2..] == b.value.bytes; }
  }

  lemma IndexFront(a: Option<Bytes>, x: Bytes, b: Option<Bytes>, y: Bytes)
    requires (a.Some? ==> |a.value| == 32) && (b.Some? ==> |b.value| == 32) && IndexBytes(a) + x == IndexBytes(b) + y
    ensures a == b && x == y
  {
    var p, q := IndexBytes(a), IndexBytes(b);
    assert (p + x)[0] == p[0] && (q + y)[0] == q[0];
    SplitAt(|p|, p, x, q, y);
    if a.Some? { assert p[1..] == a.value && q[1..] == b.value; }
  }

  lemma TailParts(v: Vector, w: Vector)
    requires TypedVector(v) && TypedVector(w) && Tail(v) == Tail(w)
    ensures Count(v) == Count(w) && v.conflicts == w.conflicts && v.operation == w.operation
    ensures v.policy == w.policy && v.attributes == w.attributes && v.inventory == w.inventory
  {
    hide BigEndian, FromBigEndian, Power256;
    var s, t := Tail(v), Tail(w);
    EightBytes();
    BigEndianRoundTrip(Count(v), 8);
    BigEndianRoundTrip(Count(w), 8);
    assert s[..8] == BigEndian(Count(v), 8) && t[..8] == BigEndian(Count(w), 8);
    assert s[8] == (if v.conflicts then 1 else 0) && t[8] == (if w.conflicts then 1 else 0);
    assert s[9] == v.operation && t[9] == w.operation;
    assert s[10..42] == v.policy && t[10..42] == w.policy;
    assert s[42..74] == v.attributes && t[42..74] == w.attributes;
    assert s[74..106] == v.inventory && t[74..106] == w.inventory;
  }

  lemma EightBytes()
    ensures Power256(8) == U64_MAX + 1
  {
    assert Power256(4) == 0x1_0000_0000;
    assert Power256(6) == 256 * 256 * Power256(4);
    assert Power256(8) == 256 * 256 * Power256(6);
  }

  /** What is digested tells vectors apart, except an absent index count from the largest one. */
  lemma PreimageBinds(v: Vector, w: Vector)
    requires TypedVector(v) && TypedVector(w)
    ensures Preimage(v) == Preimage(w) <==> Count(v) == Count(w) && v == w.(indexCount := v.indexCount)
  {
    hide Tail, IndexBytes, ObjectBytes;
    if Preimage(v) == Preimage(w) {
      var headV, headW := v.repository + v.worktree + [v.headKind], w.repository + w.worktree + [w.headKind];
      var restV := ObjectBytes(v.headTree) + (IndexBytes(v.index) + Tail(v));
      var restW := ObjectBytes(w.headTree) + (IndexBytes(w.index) + Tail(w));
      SplitAt(33, headV, ObjectBytes(v.headTarget) + restV, headW, ObjectBytes(w.headTarget) + restW);
      assert headV[..16] == v.repository && headV[16..32] == v.worktree && headV[32] == v.headKind;
      assert headW[..16] == w.repository && headW[16..32] == w.worktree && headW[32] == w.headKind;
      ObjectFront(v.headTarget, restV, w.headTarget, restW);
      ObjectFront(v.headTree, IndexBytes(v.index) + Tail(v), w.headTree, IndexBytes(w.index) + Tail(w));
      IndexFront(v.index, Tail(v), w.index, Tail(w));
      TailParts(v, w);
    }
    if Count(v) == Count(w) && v == w.(indexCount := v.indexCount) { SameTail(v, w); }
  }

  /** Where the parts stand when both objects are SHA-1 and the index is known: each is marked as present, and the
      objects by their format. */
  lemma PreimageLayout(v: Vector)
    requires TypedVector(v) && v.headTarget.Some? && v.headTree.Some? && v.index.Some?
    requires v.headTarget.value.Sha1? && v.headTree.value.Sha1?
    ensures var p := Preimage(v);
            && |p| == 216 && p[..16] == v.repository && p[16..32] == v.worktree && p[32] == v.headKind
            && p[33..35] == [1, 1] && p[35..55] == v.headTarget.value.bytes
            && p[55..57] == [1, 1] && p[57..77] == v.headTree.value.bytes
            && p[77] == 1 && p[78..110] == v.index.value && p[110..118] == BigEndian(Count(v), 8)
            && p[118] == (if v.conflicts then 1 else 0) && p[119] == v.operation && p[120..152] == v.policy
            && p[152..184] == v.attributes && p[184..] == v.inventory
  {
    hide BigEndian, Count;
    var p, tail := Preimage(v), Tail(v);
    assert p[110..] == tail;
    assert tail[..8] == BigEndian(Count(v), 8) && tail[10..42] == v.policy && tail[42..74] == v.attributes;
    assert p[33..35] == ObjectBytes(v.headTarget)[..2];
    assert p[55..57] == ObjectBytes(v.headTree)[..2];
  }

  lemma SameTail(v: Vector, w: Vector)
    requires Count(v) == Count(w) && v == w.(indexCount := v.indexCount)
    ensures Tail(v) == Tail(w)
  {
  }
}
