/** Type identities: canonical term bytes, and tables that bind an identity once. */
module TypeInterner {
  import opened Prelude
  import opened Bytes
  import opened Cbef
  import opened CbefRoundTrip
  import opened CbefRecord

  const TYPE_DOMAIN: nat := 11
  const CONSTRUCTORS: nat := 35
  const UNION: nat := 9
  const INTERSECTION: nat := 10

  /** A type constructor, by its position in the closed constructor list, and its fields. */
  datatype Term = Term(kind: nat, fields: seq<Field>)

  ghost predicate TypedTerm(t: Term) {
    t.kind < CONSTRUCTORS && TypedRecord(Record(TYPE_DOMAIN, t.fields))
  }

  predicate SetLike(kind: nat) {
    kind == UNION || kind == INTERSECTION
  }

  /** Lists directly in the fields of a union or an intersection are sets. */
  function AsSet(f: Field): Field {
    match f.value
    case OrderedList(items) => Field(f.tag, Members(items))
    case _ => f
  }

  function ShapeFields(t: Term): (r: seq<Field>)
    ensures |r| == |t.fields|
    ensures forall i :: 0 <= i < |r| ==> r[i] == if SetLike(t.kind) then AsSet(t.fields[i]) else t.fields[i]
  {
    if SetLike(t.kind) then seq(|t.fields|, i requires 0 <= i < |t.fields| => AsSet(t.fields[i])) else t.fields
  }

  function Shape(t: Term): Record {
    Record(TYPE_DOMAIN, ShapeFields(t))
  }

  function TermBytes(u: Unicode, t: Term): Result<Bytes, Error>
    requires t.kind < CONSTRUCTORS
  {
    match EncodeRecord(u, Shape(t))
    case Err(e) => Err(e)
    case Ok(record) => Ok([1] + BigEndian(t.kind + 1, 2) + record)
  }

  /** The loop that rewrites the fields in place before they are encoded. */
  method CanonicalBytes(u: Unicode, t: Term) returns (r: Result<Bytes, Error>)
    requires t.kind < CONSTRUCTORS
    ensures r == TermBytes(u, t)
  {
    hide EncodeRecord;
    var fields := t.fields;
    if SetLike(t.kind) {
      for i := 0 to |fields|
        invariant |fields| == |t.fields|
        invariant forall k :: 0 <= k < i ==> fields[k] == AsSet(t.fields[k])
        invariant forall k :: i <= k < |fields| ==> fields[k] == t.fields[k]
      {
        if fields[i].value.OrderedList? {
          fields := fields[i := Field(fields[i].tag, Members(fields[i].value.items))];
        }
      }
    }
    assert fields == ShapeFields(t);
    var record := EncodeRecord(u, Record(TYPE_DOMAIN, fields));
    if record.Err? { return Err(record.error); }
    r := Ok([1] + BigEndian(t.kind + 1, 2) + record.value);
  }

  lemma ShapeTyped(t: Term)
    requires TypedTerm(t)
    ensures TypedRecord(Shape(t))
  {
    forall f | f in Shape(t).fields ensures f.tag < U16_SIZE && Typed(f.value) {
      var i :| 0 <= i < |t.fields| && ShapeFields(t)[i] == f;
      assert t.fields[i] in t.fields;
    }
  }

  lemma EqualShapes(u: Unicode, s: Term, t: Term)
    requires Sound(u) && TypedTerm(s) && TypedTerm(t) && TermBytes(u, s).Ok? && TermBytes(u, t).Ok?
    ensures TermBytes(u, s) == TermBytes(u, t) <==>
            s.kind == t.kind && CanonRecord(u, Shape(s)) == CanonRecord(u, Shape(t))
  {
    hide EncodeRecord, CanonRecord, Shape, Sound, BigEndian, FromBigEndian;
    ShapeTyped(s);
    ShapeTyped(t);
    EqualRecordBytes(u, Shape(s), Shape(t));
    var a, b := EncodeRecord(u, Shape(s)).value, EncodeRecord(u, Shape(t)).value;
    SizesArePowers();
    BigEndianRoundTrip(s.kind + 1, 2);
    BigEndianRoundTrip(t.kind + 1, 2);
    if TermBytes(u, s) == TermBytes(u, t) {
      HeadAndTail(BigEndian(s.kind + 1, 2), a, BigEndian(t.kind + 1, 2), b);
    }
  }

  // When two terms are one type.

  function Listed(v: Value): Option<seq<Value>> {
    match v
    case OrderedList(items) => Some(items)
    case Members(members) => Some(members)
    case _ => None
  }

  ghost predicate OccursIn(u: Unicode, items: seq<Value>, b: Bytes) {
    exists x :: x in items && EncodeTyped(u, x) == Ok(b)
  }

  /** Lists and sets agree in the encodings of their members, whatever order and repeats; other values are equal. */
  ghost predicate SameUnordered(u: Unicode, v: Value, w: Value) {
    if Listed(v).Some? && Listed(w).Some? then
      forall b :: OccursIn(u, Listed(v).value, b) <==> OccursIn(u, Listed(w).value, b)
    else Listed(v).None? && Listed(w).None? && Canon(u, v) == Canon(u, w)
  }

  /** One constructor with the same fields; only a union (9) and an intersection (10) forget the order of their
      members. */
  ghost predicate SameType(u: Unicode, s: Term, t: Term) {
    && s.kind == t.kind && |s.fields| == |t.fields|
    && forall i :: 0 <= i < |s.fields| ==>
         && s.fields[i].tag == t.fields[i].tag
         && if s.kind == 9 || s.kind == 10 then SameUnordered(u, s.fields[i].value, t.fields[i].value)
            else Canon(u, s.fields[i].value) == Canon(u, t.fields[i].value)
  }

  lemma {:induction false} FieldEncodes(u: Unicode, fields: seq<Field>, i: nat)
    requires EncodeFields(u, fields).Ok? && i < |fields|
    ensures EncodeTyped(u, fields[i].value).Ok?
  {
    hide EncodeTyped;
    if i > 0 { FieldEncodes(u, fields[1..], i - 1); }
  }

  lemma EncodedOccurs(u: Unicode, items: seq<Value>, b: Bytes)
    requires EncodeAll(u, items).Ok?
    ensures b in EncodeAll(u, items).value <==> OccursIn(u, items, b)
  {
    hide EncodeAll, EncodeTyped;
    EncodeAllLength(u, items);
    forall i | 0 <= i < |items| ensures EncodeTyped(u, items[i]) == Ok(EncodeAll(u, items).value[i]) {
      EncodeAllAt(u, items, i);
    }
    if b in EncodeAll(u, items).value {
      var i :| 0 <= i < |items| && EncodeAll(u, items).value[i] == b;
      assert items[i] in items;
    }
  }

  lemma MembersEncode(u: Unicode, items: seq<Value>)
    requires EncodeTyped(u, Members(items)).Ok?
    ensures EncodeAll(u, items).Ok?
  {
  }

  lemma SetFieldsAlike(u: Unicode, v: Value, w: Value)
    requires Sound(u) && Typed(v) && Typed(w) && Listed(v).Some? && Listed(w).Some?
    requires EncodeTyped(u, Members(Listed(v).value)).Ok? && EncodeTyped(u, Members(Listed(w).value)).Ok?
    ensures Canon(u, Members(Listed(v).value)) == Canon(u, Members(Listed(w).value)) <==> SameUnordered(u, v, w)
  {
    hide EncodeTyped, Sound, Canon, OccursIn, EncodeAll;
    var xs, ys := Listed(v).value, Listed(w).value;
    assert Typed(Members(xs)) && Typed(Members(ys));
    EqualBytesIffEqualCanon(u, Members(xs), Members(ys));
    MembersEncode(u, xs);
    MembersEncode(u, ys);
    SetBytesIffSameMembers(u, xs, ys);
    forall b ensures b in EncodeAll(u, xs).value <==> OccursIn(u, xs, b) { EncodedOccurs(u, xs, b); }
    forall b ensures b in EncodeAll(u, ys).value <==> OccursIn(u, ys, b) { EncodedOccurs(u, ys, b); }
  }

  lemma FieldsAlike(u: Unicode, f: Field, g: Field)
    requires Sound(u) && Typed(f.value) && Typed(g.value)
    requires EncodeTyped(u, AsSet(f).value).Ok? && EncodeTyped(u, AsSet(g).value).Ok?
    ensures Canon(u, AsSet(f).value) == Canon(u, AsSet(g).value) <==> SameUnordered(u, f.value, g.value)
  {
    hide EncodeTyped, Sound, OccursIn;
    if Listed(f.value).Some? && Listed(g.value).Some? { SetFieldsAlike(u, f.value, g.value); }
  }

  lemma ShapesAlike(u: Unicode, s: Term, t: Term, i: nat)
    requires Sound(u) && TypedTerm(s) && TypedTerm(t) && TermBytes(u, s).Ok? && TermBytes(u, t).Ok?
    requires s.kind == t.kind && |s.fields| == |t.fields| && i < |s.fields|
    ensures Canon(u, ShapeFields(s)[i].value) == Canon(u, ShapeFields(t)[i].value) <==>
            if s.kind == 9 || s.kind == 10 then SameUnordered(u, s.fields[i].value, t.fields[i].value)
            else Canon(u, s.fields[i].value) == Canon(u, t.fields[i].value)
  {
    hide EncodeTyped, Sound, Canon, SameUnordered;
    if SetLike(s.kind) {
      FieldEncodes(u, ShapeFields(s), i);
      FieldEncodes(u, ShapeFields(t), i);
      assert s.fields[i] in s.fields && t.fields[i] in t.fields;
      FieldsAlike(u, s.fields[i], t.fields[i]);
    }
  }

  /** Terms share their canonical bytes exactly when they are one type. */
  lemma EqualTermBytes(u: Unicode, s: Term, t: Term)
    requires Sound(u) && TypedTerm(s) && TypedTerm(t) && TermBytes(u, s).Ok? && TermBytes(u, t).Ok?
    ensures TermBytes(u, s) == TermBytes(u, t) <==> SameType(u, s, t)
  {
    hide EncodeRecord, Sound, TermBytes, Canon, SameUnordered, TypedTerm;
    EqualShapes(u, s, t);
    if s.kind == t.kind && |s.fields| == |t.fields| {
      var a, b := CanonFields(u, ShapeFields(s)), CanonFields(u, ShapeFields(t));
      forall i | 0 <= i < |s.fields|
        ensures a[i] == b[i] <==>
                && s.fields[i].tag == t.fields[i].tag
                && if s.kind == 9 || s.kind == 10 then SameUnordered(u, s.fields[i].value, t.fields[i].value)
                   else Canon(u, s.fields[i].value) == Canon(u, t.fields[i].value)
      {
        ShapesAlike(u, s, t, i);
      }
      if SameType(u, s, t) {
        assert a == b;
      } else {
        var i :| 0 <= i < |s.fields| && a[i] != b[i];
      }
    }
  }

  /** Canonical bytes are one version byte, the constructor counted from one, and a record of the type domain. */
  lemma TermStarts(u: Unicode, t: Term, b: Bytes)
    requires t.kind < CONSTRUCTORS && TermBytes(u, t) == Ok(b)
    ensures |b| >= 12 && b[0] == 1 && FromBigEndian(b[1..3]) == t.kind + 1
    ensures b[3..8] == [67, 70, 73, 68, 1] && FromBigEndian(b[8..10]) == 11 && FromBigEndian(b[10..12]) == |t.fields|
  {
    hide EncodeRecord, BigEndian, FromBigEndian, ShapeFields;
    var record := EncodeRecord(u, Shape(t)).value;
    SizesArePowers();
    BigEndianRoundTrip(t.kind + 1, 2);
    RecordStarts(u, Shape(t), record);
    assert b[1..3] == BigEndian(t.kind + 1, 2) && b[3..] == record;
    assert b[3..8] == record[..5] && b[8..10] == record[5..7] && b[10..12] == record[7..9];
  }

  lemma HeadAndTail(k: Bytes, a: Bytes, k': Bytes, b: Bytes)
    requires |k| == |k'| == 2 && [1] + k + a == [1] + k' + b
    ensures k == k' && a == b
  {
    assert ([1] + k + a)[1..3] == k && ([1] + k' + b)[1..3] == k';
    assert ([1] + k + a)[3..] == a && ([1] + k' + b)[3..] == b;
  }

  // Members of a union or an intersection may be reordered and repeated.

  ghost predicate SameMembers(v: Value, w: Value) {
    || v == w
    || (v.OrderedList? && w.OrderedList? && forall x :: x in v.items <==> x in w.items)
  }

  lemma {:induction false} EncodeAllOk(u: Unicode, vs: seq<Value>)
    ensures EncodeAll(u, vs).Ok? <==> forall v :: v in vs ==> EncodeTyped(u, v).Ok?
    decreases |vs|
  {
    hide EncodeTyped;
    if vs != [] {
      EncodeAllOk(u, vs[1..]);
      assert vs[0] in vs && forall v :: v in vs <==> v == vs[0] || v in vs[1..];
    }
  }

  lemma SetFieldBytes(u: Unicode, f: Field, g: Field)
    requires f.tag == g.tag && SameMembers(f.value, g.value) && EncodeTyped(u, AsSet(f).value).Ok?
    ensures EncodeTyped(u, AsSet(g).value) == EncodeTyped(u, AsSet(f).value)
  {
    if f.value != g.value {
      EncodeAllOk(u, f.value.items);
      EncodeAllOk(u, g.value.items);
      MembersOrderIrrelevant(u, f.value.items, g.value.items);
    }
  }

  ghost predicate SameButOrder(fs: seq<Field>, gs: seq<Field>) {
    |fs| == |gs| && forall i :: 0 <= i < |fs| ==> fs[i].tag == gs[i].tag && SameMembers(fs[i].value, gs[i].value)
  }

  lemma {:induction false} FieldsBytesAgree(u: Unicode, fs: seq<Field>, gs: seq<Field>)
    requires EncodeFields(u, fs).Ok? && |fs| == |gs|
    requires forall i :: 0 <= i < |fs| ==>
               fs[i].tag == gs[i].tag &&
               (EncodeTyped(u, fs[i].value).Ok? ==> EncodeTyped(u, gs[i].value) == EncodeTyped(u, fs[i].value))
    ensures EncodeFields(u, gs) == EncodeFields(u, fs)
    decreases |fs|
  {
    hide EncodeTyped, BigEndian;
    if fs != [] { FieldsBytesAgree(u, fs[1..], gs[1..]); }
  }

  lemma ReorderedMembers(u: Unicode, s: Term, t: Term)
    requires s.kind == t.kind < CONSTRUCTORS && SetLike(s.kind) && SameButOrder(s.fields, t.fields)
    requires TermBytes(u, s).Ok?
    ensures TermBytes(u, t) == TermBytes(u, s)
  {
    hide EncodeTyped, BigEndian, EncodeFields;
    var fs, gs := ShapeFields(s), ShapeFields(t);
    forall i | 0 <= i < |fs| && EncodeTyped(u, fs[i].value).Ok?
      ensures EncodeTyped(u, gs[i].value) == EncodeTyped(u, fs[i].value)
    {
      SetFieldBytes(u, s.fields[i], t.fields[i]);
    }
    FieldsBytesAgree(u, fs, gs);
    forall i | 0 < i < |gs| ensures gs[i - 1].tag < gs[i].tag {
      assert fs[i - 1].tag < fs[i].tag;
    }
  }

  // The tables.

  type Table<T> = map<Bytes, T>

  datatype Failure = Encoding(error: Error) | IdCollision(id: Bytes)

  /** Bind an identity to its evidence, unless other evidence already holds it. */
  function Bind<T(==)>(table: Table<T>, id: Bytes, evidence: T): Result<Table<T>, Failure> {
    if id in table && table[id] != evidence then Err(IdCollision(id)) else Ok(table[id := evidence])
  }

  /** An identity keeps the first 16 bytes of a digest. */
  function Short(digest: Bytes): Bytes {
    if |digest| >= 16 then digest[..16] else digest
  }

  /** Identity derivation over any digest function. */
  function Derive(u: Unicode, digest: Bytes -> Bytes, r: Record): Result<Bytes, Error>
    requires r.domain <= DOMAINS
  {
    match EncodeRecord(u, r)
    case Err(e) => Err(e)
    case Ok(preimage) => Ok(Short(digest(preimage)))
  }

  function TypeRecord(workspace: Bytes, context: Bytes, shape: Bytes): Record {
    Record(TYPE_DOMAIN, [Field(1, Identity(workspace)), Field(2, Identity(context)),
                         Field(3, Unsigned([0, 1])), Field(4, Blob(shape))])
  }

  function FieldOf(tag: nat, code: Byte, payload: Bytes): Bytes {
    BigEndian(tag, 2) + [code] + BigEndian(|payload|, 4) + payload
  }

  lemma FirstFieldOf(u: Unicode, fields: seq<Field>, payload: Bytes)
    requires fields != [] && EncodePayload(u, fields[0].value) == Ok(payload) && EncodeFields(u, fields).Ok?
    ensures EncodeFields(u, fields[1..]).Ok?
    ensures EncodeFields(u, fields).value ==
            FieldOf(fields[0].tag, TypeCode(fields[0].value), payload) + EncodeFields(u, fields[1..]).value
  {
    hide BigEndian, EncodePayload;
    var tag, rest := BigEndian(fields[0].tag, 2), EncodeFields(u, fields[1..]).value;
    var typed := [TypeCode(fields[0].value)] + BigEndian(|payload|, 4) + payload;
    assert EncodeFields(u, fields).value == tag + typed + rest;
    assert tag + typed == FieldOf(fields[0].tag, TypeCode(fields[0].value), payload);
  }

  /** What the digest of a type is taken over: the record header, then workspace, context, version and shape, each with
      its tag, its type and its length. */
  lemma TypePreimage(u: Unicode, workspace: Bytes, context: Bytes, shape: Bytes, b: Bytes)
    requires EncodeRecord(u, TypeRecord(workspace, context, shape)) == Ok(b)
    ensures b == [67, 70, 73, 68, 1] + BigEndian(11, 2) + BigEndian(4, 2) + (FieldOf(1, 7, workspace) +
                 (FieldOf(2, 7, context) + (FieldOf(3, 4, [0, 1]) + FieldOf(4, 1, shape))))
  {
    hide BigEndian, TagsAscend, EncodeFields, FieldOf, EncodePayload;
    var fields := TypeRecord(workspace, context, shape).fields;
    PlainPayloads(u, shape);
    FirstFieldOf(u, fields, workspace);
    FirstFieldOf(u, fields[1..], context);
    FirstFieldOf(u, fields[2..], [0, 1]);
    FirstFieldOf(u, fields[3..], shape);
    assert fields[1..][1..] == fields[2..] && fields[2..][1..] == fields[3..] && fields[3..][1..] == [];
    assert EncodeFields(u, []).value == [] by { NoFieldBytes(u); }
    assert FieldOf(4, 1, shape) + [] == FieldOf(4, 1, shape);
    assert MAGIC + [FORMAT_VERSION] == [67, 70, 73, 68, 1];
  }

  lemma NoFieldBytes(u: Unicode)
    ensures EncodeFields(u, []) == Ok([])
  {
  }

  lemma PlainPayloads(u: Unicode, shape: Bytes)
    ensures forall id :: EncodePayload(u, Identity(id)) == Ok(id)
    ensures EncodePayload(u, Unsigned([0, 1])) == Ok([0, 1]) && EncodePayload(u, Blob(shape)) == Ok(shape)
  {
  }

  lemma {:induction false} PlainFields(u: Unicode, fields: seq<Field>)
    requires forall f :: f in fields ==> f.value.Identity? || f.value.Unsigned? || f.value.Blob?
    ensures CanonFields(u, fields) == fields
  {
    if fields != [] {
      assert fields[0] in fields;
      PlainFields(u, fields[1..]);
    }
  }

  lemma TypeRecordIsTyped(u: Unicode, w: Bytes, c: Bytes, shape: Bytes)
    requires |w| == |c| == 16
    ensures TypedRecord(TypeRecord(w, c, shape)) && CanonRecord(u, TypeRecord(w, c, shape)) == TypeRecord(w, c, shape)
  {
    PlainFields(u, TypeRecord(w, c, shape).fields);
  }

  lemma PlainEncodes(u: Unicode, v: Value)
    requires v.Identity? || v.Blob? || (v.Unsigned? && |v.magnitude| == 2)
    ensures EncodeTyped(u, v).Ok? <==>
            |(match v case Identity(id) => id case Blob(b) => b case Unsigned(m) => m)| < U32_SIZE
  {
  }

  /** A type identity can be derived exactly for shapes shorter than 4 GiB. */
  lemma TypeRecordEncodes(u: Unicode, w: Bytes, c: Bytes, shape: Bytes)
    requires |w| == |c| == 16
    ensures EncodeRecord(u, TypeRecord(w, c, shape)).Ok? <==> |shape| < U32_SIZE
  {
    hide EncodeTyped, BigEndian;
    var fields := TypeRecord(w, c, shape).fields;
    PlainEncodes(u, fields[0].value);
    PlainEncodes(u, fields[1].value);
    PlainEncodes(u, fields[2].value);
    PlainEncodes(u, fields[3].value);
    assert EncodeFields(u, fields[4..]).Ok?;
    assert fields[3..][1..] == fields[4..] && fields[2..][1..] == fields[3..] && fields[1..][1..] == fields[2..];
    assert EncodeFields(u, fields[3..]).Ok? <==> |shape| < U32_SIZE;
    assert EncodeFields(u, fields[2..]).Ok? <==> EncodeFields(u, fields[3..]).Ok?;
    assert EncodeFields(u, fields[1..]).Ok? <==> EncodeFields(u, fields[2..]).Ok?;
  }

  lemma TypeRecordBinds(w: Bytes, c: Bytes, shape: Bytes, w': Bytes, c': Bytes, shape': Bytes)
    ensures TypeRecord(w, c, shape) == TypeRecord(w', c', shape') <==> w == w' && c == c' && shape == shape'
  {
    var r, s := TypeRecord(w, c, shape).fields, TypeRecord(w', c', shape').fields;
    assert r == s ==> r[0] == s[0] && r[1] == s[1] && r[3] == s[3];
  }

  /** The preimage of a type identity determines workspace, context and shape. */
  lemma PreimageBindsType(u: Unicode, w: Bytes, c: Bytes, shape: Bytes, w': Bytes, c': Bytes, shape': Bytes)
    requires Sound(u) && |w| == |c| == |w'| == |c'| == 16
    requires EncodeRecord(u, TypeRecord(w, c, shape)).Ok? && EncodeRecord(u, TypeRecord(w', c', shape')).Ok?
    ensures EncodeRecord(u, TypeRecord(w, c, shape)) == EncodeRecord(u, TypeRecord(w', c', shape')) <==>
            w == w' && c == c' && shape == shape'
  {
    hide EncodeRecord, Sound, TypeRecord, CanonRecord, TypedRecord;
    TypeRecordIsTyped(u, w, c, shape);
    TypeRecordIsTyped(u, w', c', shape');
    EqualRecordBytes(u, TypeRecord(w, c, shape), TypeRecord(w', c', shape'));
    TypeRecordBinds(w, c, shape, w', c', shape');
  }

  datatype Request = Request(workspace: Bytes, context: Bytes, term: Term)

  /** The table after one request, and its answer. */
  function Serve(u: Unicode, digest: Bytes -> Bytes, table: Table<Bytes>, q: Request)
    : (Table<Bytes>, Result<Bytes, Failure>)
    requires q.term.kind < CONSTRUCTORS
  {
    match TermBytes(u, q.term)
    case Err(e) => (table, Err(Encoding(e)))
    case Ok(shape) =>
      match Derive(u, digest, TypeRecord(q.workspace, q.context, shape))
      case Err(e) => (table, Err(Encoding(e)))
      case Ok(id) =>
        match Bind(table, id, shape)
        case Err(e) => (table, Err(e))
        case Ok(next) => (next, Ok(id))
  }

  class TypeTable {
    var byId: Table<Bytes>

    constructor ()
      ensures byId == map[]
    {
      byId := map[];
    }

    method Intern(u: Unicode, digest: Bytes -> Bytes, q: Request) returns (r: Result<Bytes, Failure>)
      requires q.term.kind < CONSTRUCTORS
      modifies this
      ensures (byId, r) == Serve(u, digest, old(byId), q)
    {
      hide EncodeRecord, TermBytes;
      var shape := CanonicalBytes(u, q.term);
      if shape.Err? { return Err(Encoding(shape.error)); }
      var id := Derive(u, digest, TypeRecord(q.workspace, q.context, shape.value));
      if id.Err? { return Err(Encoding(id.error)); }
      if id.value in byId {
        if byId[id.value] != shape.value { return Err(IdCollision(id.value)); }
        assert byId[id.value := shape.value] == byId;
      } else {
        byId := byId[id.value := shape.value];
      }
      r := Ok(id.value);
    }
  }

  /** The answers to a whole sequence of requests. */
  function Answers(u: Unicode, digest: Bytes -> Bytes, table: Table<Bytes>,
                   qs: seq<Request>): (r: seq<Result<Bytes, Failure>>)
    requires forall q :: q in qs ==> q.term.kind < CONSTRUCTORS
    ensures |r| == |qs|
    decreases |qs|
  {
    if qs == [] then []
    else
      var (next, answer) := Serve(u, digest, table, qs[0]);
      [answer] + Answers(u, digest, next, qs[1..])
  }

  /** Once an identity is bound, every later success with it has the same canonical bytes. */
  lemma {:induction false} BoundForGood(u: Unicode, digest: Bytes -> Bytes, table: Table<Bytes>, qs: seq<Request>,
                                        j: nat, id: Bytes)
    requires forall q :: q in qs ==> q.term.kind < CONSTRUCTORS
    requires j < |qs| && id in table && Answers(u, digest, table, qs)[j] == Ok(id)
    ensures TermBytes(u, qs[j].term) == Ok(table[id])
    decreases |qs|
  {
    hide TermBytes, Derive;
    var (next, answer) := Serve(u, digest, table, qs[0]);
    if j > 0 {
      assert qs[j] == qs[1..][j - 1];
      BoundForGood(u, digest, next, qs[1..], j - 1, id);
    }
  }

  /** Two successes that return one identity interned terms with equal canonical bytes. */
  lemma {:induction false} SameIdSameBytes(u: Unicode, digest: Bytes -> Bytes, table: Table<Bytes>, qs: seq<Request>,
                                           i: nat, j: nat, id: Bytes)
    requires forall q :: q in qs ==> q.term.kind < CONSTRUCTORS
    requires i < j < |qs|
    requires Answers(u, digest, table, qs)[i] == Answers(u, digest, table, qs)[j] == Ok(id)
    ensures TermBytes(u, qs[i].term).Ok? && TermBytes(u, qs[i].term) == TermBytes(u, qs[j].term)
    decreases i
  {
    hide TermBytes, Derive;
    var (next, answer) := Serve(u, digest, table, qs[0]);
    assert qs[j] == qs[1..][j - 1];
    if i > 0 {
      assert qs[i] == qs[1..][i - 1];
      SameIdSameBytes(u, digest, next, qs[1..], i - 1, j - 1, id);
    } else {
      BoundForGood(u, digest, next, qs[1..], j - 1, id);
    }
  }

  /** Hence one identity never stands for two types, whatever the digest function. */
  lemma SameIdSameType(u: Unicode, digest: Bytes -> Bytes, qs: seq<Request>, i: nat, j: nat, id: Bytes)
    requires Sound(u) && forall q :: q in qs ==> q.term.kind < CONSTRUCTORS && TypedTerm(q.term)
    requires i < j < |qs|
    requires Answers(u, digest, map[], qs)[i] == Answers(u, digest, map[], qs)[j] == Ok(id)
    ensures SameType(u, qs[i].term, qs[j].term)
  {
    hide TermBytes, Answers, TypedRecord, SameType;
    SameIdSameBytes(u, digest, map[], qs, i, j, id);
    assert qs[i] in qs && qs[j] in qs;
    EqualTermBytes(u, qs[i].term, qs[j].term);
  }

  /** A request that succeeded once succeeds whenever it is repeated, with the same identity. */
  lemma {:induction false} Idempotent(u: Unicode, digest: Bytes -> Bytes, table: Table<Bytes>, qs: seq<Request>,
                                      i: nat, j: nat)
    requires forall q :: q in qs ==> q.term.kind < CONSTRUCTORS
    requires i < j < |qs| && qs[i] == qs[j] && Answers(u, digest, table, qs)[i].Ok?
    ensures Answers(u, digest, table, qs)[j] == Answers(u, digest, table, qs)[i]
    decreases i
  {
    hide TermBytes, Derive;
    var (next, answer) := Serve(u, digest, table, qs[0]);
    assert qs[j] == qs[1..][j - 1];
    if i > 0 {
      assert qs[i] == qs[1..][i - 1];
      Idempotent(u, digest, next, qs[1..], i - 1, j - 1);
    } else {
      RepeatSucceeds(u, digest, next, qs[1..], j - 1, answer.value);
    }
  }

  lemma {:induction false} RepeatSucceeds(u: Unicode, digest: Bytes -> Bytes, table: Table<Bytes>, qs: seq<Request>,
                                          j: nat, id: Bytes)
    requires forall q :: q in qs ==> q.term.kind < CONSTRUCTORS
    requires j < |qs| && TermBytes(u, qs[j].term).Ok? && id in table && table[id] == TermBytes(u, qs[j].term).value
    requires Derive(u, digest, TypeRecord(qs[j].workspace, qs[j].context, table[id])) == Ok(id)
    ensures Answers(u, digest, table, qs)[j] == Ok(id)
    decreases |qs|
  {
    hide TermBytes, Derive;
    var (next, answer) := Serve(u, digest, table, qs[0]);
    if j > 0 {
      assert qs[j] == qs[1..][j - 1];
      RepeatSucceeds(u, digest, next, qs[1..], j - 1, id);
    }
  }

  // The registry of derived identities works the same way, with digest and preimage as evidence.

  datatype Evidence = Evidence(digest: Bytes, preimage: Bytes)

  class IdentityRegistry {
    var records: Table<Evidence>

    constructor ()
      ensures records == map[]
    {
      records := map[];
    }

    method Register(id: Bytes, evidence: Evidence) returns (r: Result<(), Failure>)
      modifies this
      ensures match Bind(old(records), id, evidence)
              case Err(e) => r == Err(e) && records == old(records)
              case Ok(next) => r == Ok(()) && records == next
    {
      if id in records {
        if records[id] != evidence { return Err(IdCollision(id)); }
        assert records[id := evidence] == records;
        return Ok(());
      }
      records := records[id := evidence];
      r := Ok(());
    }
  }

  function Registered(table: Table<Evidence>, ids: seq<(Bytes, Evidence)>): (r: seq<bool>)
    ensures |r| == |ids|
    decreases |ids|
  {
    if ids == [] then []
    else
      match Bind(table, ids[0].0, ids[0].1)
      case Err(_) => [false] + Registered(table, ids[1..])
      case Ok(next) => [true] + Registered(next, ids[1..])
  }

  /** Registrations of one identity that both succeed carry the same digest and preimage. */
  lemma {:induction false} RegisteredOnce(table: Table<Evidence>, ids: seq<(Bytes, Evidence)>, j: nat)
    requires j < |ids| && ids[j].0 in table && Registered(table, ids)[j]
    ensures ids[j].1 == table[ids[j].0]
    decreases |ids|
  {
    if j > 0 {
      assert ids[j] == ids[1..][j - 1];
      match Bind(table, ids[0].0, ids[0].1) {
        case Err(_) => RegisteredOnce(table, ids[1..], j - 1);
        case Ok(next) => RegisteredOnce(next, ids[1..], j - 1);
      }
    }
  }

  lemma {:induction false} SameIdSameEvidence(table: Table<Evidence>, ids: seq<(Bytes, Evidence)>, i: nat, j: nat)
    requires i < j < |ids| && ids[i].0 == ids[j].0 && Registered(table, ids)[i] && Registered(table, ids)[j]
    ensures ids[i].1 == ids[j].1
    decreases i
  {
    var next := match Bind(table, ids[0].0, ids[0].1) case Err(_) => table case Ok(next) => next;
    assert ids[j] == ids[1..][j - 1];
    if i > 0 {
      assert ids[i] == ids[1..][i - 1];
      SameIdSameEvidence(next, ids[1..], i - 1, j - 1);
    } else {
      RegisteredOnce(next, ids[1..], j - 1);
    }
  }

  /** A registration succeeds exactly when it carries the evidence first registered for its identity. */
  lemma {:induction false} RegisteredIff(table: Table<Evidence>, ids: seq<(Bytes, Evidence)>, first: nat, j: nat)
    requires first <= j < |ids| && ids[first].0 == ids[j].0 && forall k :: 0 <= k < first ==> ids[k].0 != ids[j].0
    ensures Registered(table, ids)[j] <==> (if ids[j].0 in table then table[ids[j].0] else ids[first].1) == ids[j].1
    decreases j
  {
    if j > 0 {
      var next := match Bind(table, ids[0].0, ids[0].1) case Err(_) => table case Ok(next) => next;
      var rest := ids[1..];
      assert ids[j] == rest[j - 1];
      if first > 0 {
        assert ids[first] == rest[first - 1] && forall k :: 0 <= k < first - 1 ==> rest[k] == ids[k + 1];
        RegisteredIff(next, rest, first - 1, j - 1);
      } else {
        var f := FirstOf(rest, j - 1);
        RegisteredIff(next, rest, f, j - 1);
      }
    }
  }

  lemma {:induction false} FirstOf(ids: seq<(Bytes, Evidence)>, j: nat) returns (f: nat)
    requires j < |ids|
    ensures f <= j && ids[f].0 == ids[j].0 && forall k :: 0 <= k < f ==> ids[k].0 != ids[j].0
  {
    f := 0;
    while ids[f].0 != ids[j].0
      invariant f <= j && forall k :: 0 <= k < f ==> ids[k].0 != ids[j].0
      decreases j - f
    {
      f := f + 1;
    }
  }
}
