/** CBEF-v1 records: a header and tagged fields in strictly ascending tag order. */
module CbefRecord {
  import opened Prelude
  import opened Bytes
  import opened Cbef
  import opened CbefCanonical
  import opened CbefRoundTrip

  const MAGIC: Bytes := [67, 70, 73, 68]
  const FORMAT_VERSION: Byte := 1
  const DOMAINS: nat := 23
  const HEADER_SIZE: nat := 9

  datatype Field = Field(tag: nat, value: Value)
  datatype Record = Record(domain: nat, fields: seq<Field>)

  /** What the field types of a record already guarantee. */
  ghost predicate TypedRecord(r: Record) {
    && 1 <= r.domain <= 23
    && forall f :: f in r.fields ==> f.tag < 65536 && Typed(f.value)
  }

  predicate TagsAscend(previous: nat, fields: seq<Field>) {
    && (fields != [] ==> previous < fields[0].tag)
    && forall i :: 0 < i < |fields| ==> fields[i - 1].tag < fields[i].tag
  }

  function RecordHeader(domain: nat, count: nat): (h: Bytes)
    requires domain < U16_SIZE && count < U16_SIZE
    ensures |h| == HEADER_SIZE
  {
    MAGIC + [FORMAT_VERSION] + BigEndian(domain, 2) + BigEndian(count, 2)
  }

  function EncodeFields(u: Unicode, fields: seq<Field>): Result<Bytes, Error> {
    if fields == [] then Ok([])
    else
      match EncodeTyped(u, fields[0].value)
      case Err(e) => Err(e)
      case Ok(first) =>
        if fields[0].tag >= U16_SIZE then Err(Scalar)
        else
          match EncodeFields(u, fields[1..])
          case Err(e) => Err(e)
          case Ok(rest) => Ok(BigEndian(fields[0].tag, 2) + first + rest)
  }

  function EncodeRecord(u: Unicode, r: Record): Result<Bytes, Error>
    requires r.domain <= DOMAINS
  {
    if !TagsAscend(0, r.fields) then Err(FieldOrder)
    else if |r.fields| >= U16_SIZE then Err(Scalar)
    else
      match EncodeFields(u, r.fields)
      case Err(e) => Err(e)
      case Ok(body) => Ok(RecordHeader(r.domain, |r.fields|) + body)
  }

  datatype FieldRun = FieldRun(fields: seq<Field>, end: nat)

  /** The next `count` fields from the cursor on; their tags must ascend beyond `previous`. */
  function ReadFields(b: Bytes, cursor: nat, count: nat, previous: nat): Result<FieldRun, Error>
    decreases count
  {
    if count == 0 then Ok(FieldRun([], cursor))
    else
      match ReadNumber(b, cursor, 2)
      case Err(e) => Err(e)
      case Ok(tag) =>
        if tag <= previous then Err(FieldOrder)
        else
          match Take(b, cursor + 2, 1)
          case Err(e) => Err(e)
          case Ok(code) =>
            if code[0] > 12 then Err(UnknownTypeCode(code[0]))
            else
              match ReadFrame(b, cursor + 3)
              case Err(e) => Err(e)
              case Ok(payload) =>
                match DecodePayload(Below(|b|), code[0], payload)
                case Err(e) => Err(e)
                case Ok(value) =>
                  match ReadFields(b, cursor + 7 + |payload|, count - 1, tag)
                  case Err(e) => Err(e)
                  case Ok(rest) => Ok(FieldRun([Field(tag, value)] + rest.fields, rest.end))
  }

  function DecodeRecord(b: Bytes): Result<Record, Error> {
    match Take(b, 0, 4)
    case Err(e) => Err(e)
    case Ok(magic) =>
      if magic != MAGIC then Err(Error.Header)
      else
        match Take(b, 4, 1)
        case Err(e) => Err(e)
        case Ok(version) =>
          if version != [FORMAT_VERSION] then Err(Error.Header)
          else
            match ReadNumber(b, 5, 2)
            case Err(e) => Err(e)
            case Ok(domain) =>
              if !(1 <= domain <= DOMAINS) then Err(UnknownDomain(domain))
              else
                match ReadNumber(b, 7, 2)
                case Err(e) => Err(e)
                case Ok(count) =>
                  match ReadFields(b, HEADER_SIZE, count, 0)
                  case Err(e) => Err(e)
                  case Ok(run) =>
                    if run.end != |b| then Err(TrailingBytes) else Ok(Record(domain, run.fields))
  }

  // encode(decode(b)) = b.

  lemma BelowFaithful(u: Unicode, n: nat)
    ensures Faithful(u, Below(n))
  {
    hide DecodeTyped, Encodes, Typed;
    forall x {:trigger Below(n)(x)} | Below(n)(x).Ok?
      ensures Encodes(u, Below(n)(x).value, x) && Typed(Below(n)(x).value)
    {
      ReencodeTyped(u, x);
    }
  }

  /** One accepted field: its bytes are its tag and the encoding of its value. */
  lemma FirstField(u: Unicode, b: Bytes, cursor: nat, count: nat, previous: nat) returns (f: Field, next: nat)
    requires cursor <= |b| && count > 0 && ReadFields(b, cursor, count, previous).Ok?
    ensures cursor <= next <= |b| && previous < f.tag < U16_SIZE && Typed(f.value)
    ensures EncodeTyped(u, f.value).Ok? && b[cursor..next] == BigEndian(f.tag, 2) + EncodeTyped(u, f.value).value
    ensures ReadFields(b, next, count - 1, f.tag).Ok?
    ensures var rest := ReadFields(b, next, count - 1, f.tag).value;
            ReadFields(b, cursor, count, previous).value == FieldRun([f] + rest.fields, rest.end)
  {
    hide DecodePayload, Below, ReadFrame, ReadNumber, EncodeTyped, BigEndian, Typed;
    var tag, code, payload := ReadNumber(b, cursor, 2).value, b[cursor + 2], ReadFrame(b, cursor + 3).value;
    var value := DecodePayload(Below(|b|), code, payload).value;
    next := cursor + 7 + |payload|;
    f := Field(tag, value);
    FieldBytes(u, b, cursor, next, tag, code, payload, value);
  }

  lemma FieldBytes(u: Unicode, b: Bytes, cursor: nat, next: nat, tag: nat, code: Byte, payload: Bytes, value: Value)
    requires cursor + 3 <= |b| && ReadNumber(b, cursor, 2) == Ok(tag) && b[cursor + 2] == code <= 12
    requires ReadFrame(b, cursor + 3) == Ok(payload) && next == cursor + 7 + |payload|
    requires DecodePayload(Below(|b|), code, payload) == Ok(value)
    ensures next <= |b| && tag < U16_SIZE && Typed(value)
    ensures EncodeTyped(u, value).Ok? && b[cursor..next] == BigEndian(tag, 2) + EncodeTyped(u, value).value
  {
    hide BigEndian, FromBigEndian, EncodePayload, Below;
    hide DecodePayload, Typed, Faithful;
    BelowFaithful(u, |b|);
    ReencodePayload(u, Below(|b|), code, payload);
    NumberShape(b, cursor, 2);
    SizesArePowers();
    FrameShape(b, cursor + 3);
    assert b[cursor..next] == b[cursor..cursor + 2] + ([code] + b[cursor + 3..next]);
    assert [code] + (BigEndian(|payload|, 4) + payload) == [code] + BigEndian(|payload|, 4) + payload;
  }

  lemma FieldsFirst(u: Unicode, b: Bytes, cursor: nat, next: nat, end: nat, f: Field, rest: seq<Field>)
    requires cursor <= next <= end <= |b| && f.tag < U16_SIZE && EncodeTyped(u, f.value).Ok?
    requires b[cursor..next] == BigEndian(f.tag, 2) + EncodeTyped(u, f.value).value
    requires EncodeFields(u, rest) == Ok(b[next..end])
    ensures EncodeFields(u, [f] + rest) == Ok(b[cursor..end])
  {
    hide EncodeTyped, BigEndian;
    assert ([f] + rest)[1..] == rest;
    assert b[cursor..end] == b[cursor..next] + b[next..end];
  }

  ghost predicate FieldsRead(u: Unicode, b: Bytes, cursor: nat, count: nat, previous: nat, run: FieldRun) {
    && |run.fields| == count && cursor <= run.end <= |b|
    && EncodeFields(u, run.fields) == Ok(b[cursor..run.end])
    && TagsAscend(previous, run.fields)
    && forall f :: f in run.fields ==> f.tag < U16_SIZE && Typed(f.value)
  }

  lemma FieldsReadFirst(u: Unicode, b: Bytes, cursor: nat, next: nat, count: nat, previous: nat, f: Field,
                        rest: FieldRun)
    requires count > 0 && cursor <= next <= |b| && previous < f.tag < U16_SIZE && Typed(f.value)
    requires EncodeTyped(u, f.value).Ok? && b[cursor..next] == BigEndian(f.tag, 2) + EncodeTyped(u, f.value).value
    requires FieldsRead(u, b, next, count - 1, f.tag, rest)
    ensures FieldsRead(u, b, cursor, count, previous, FieldRun([f] + rest.fields, rest.end))
  {
    hide EncodeTyped, BigEndian, Typed, EncodeFields;
    FieldsFirst(u, b, cursor, next, rest.end, f, rest.fields);
    var all := [f] + rest.fields;
    forall i | 0 < i < |all| ensures all[i - 1].tag < all[i].tag {
      if i > 1 { assert rest.fields[i - 1 - 1].tag < rest.fields[i - 1].tag; }
    }
  }

  lemma {:induction false} ReadFieldsShape(u: Unicode, b: Bytes, cursor: nat, count: nat, previous: nat)
    requires cursor <= |b| && ReadFields(b, cursor, count, previous).Ok?
    ensures FieldsRead(u, b, cursor, count, previous, ReadFields(b, cursor, count, previous).value)
    decreases count
  {
    hide DecodePayload, ReadFrame, ReadNumber, EncodeTyped, Typed;
    if count == 0 {
      assert b[cursor..cursor] == [];
    } else {
      hide *;
      var f, next := FirstField(u, b, cursor, count, previous);
      ReadFieldsShape(u, b, next, count - 1, f.tag);
      var rest := ReadFields(b, next, count - 1, f.tag).value;
      FieldsReadFirst(u, b, cursor, next, count, previous, f, rest);
    }
  }

  lemma HeaderShape(b: Bytes, domain: nat, count: nat)
    requires Take(b, 0, 4) == Ok(MAGIC) && Take(b, 4, 1) == Ok([FORMAT_VERSION])
    requires ReadNumber(b, 5, 2) == Ok(domain) && ReadNumber(b, 7, 2) == Ok(count)
    ensures domain < U16_SIZE && count < U16_SIZE && HEADER_SIZE <= |b|
            && b[..HEADER_SIZE] == RecordHeader(domain, count)
  {
    hide BigEndian, FromBigEndian;
    SizesArePowers();
    NumberShape(b, 5, 2);
    NumberShape(b, 7, 2);
    assert b[..9] == b[0..4] + b[4..5] + b[5..7] + b[7..9];
  }

  /** Every accepted byte string is the encoding of the record it decodes to, whatever the Unicode tables. */
  lemma ReencodeRecord(u: Unicode, b: Bytes)
    requires DecodeRecord(b).Ok?
    ensures TypedRecord(DecodeRecord(b).value)
    ensures EncodeRecord(u, DecodeRecord(b).value) == Ok(b)
  {
    hide ReadFields, EncodeFields, BigEndian, Typed, FromBigEndian, RecordHeader;
    var domain, count := ReadNumber(b, 5, 2).value, ReadNumber(b, 7, 2).value;
    HeaderShape(b, domain, count);
    ReadFieldsShape(u, b, HEADER_SIZE, count, 0);
    assert b == b[..HEADER_SIZE] + b[HEADER_SIZE..|b|];
  }

  // decode(encode(r)) is r in canonical form.

  function CanonFields(u: Unicode, fields: seq<Field>): (r: seq<Field>)
    ensures |r| == |fields| && forall i :: 0 <= i < |r| ==> r[i] == Field(fields[i].tag, Canon(u, fields[i].value))
  {
    seq(|fields|, i requires 0 <= i < |fields| => Field(fields[i].tag, Canon(u, fields[i].value)))
  }

  function CanonRecord(u: Unicode, r: Record): Record {
    Record(r.domain, CanonFields(u, r.fields))
  }

  /** Where the parts of one field lie. */
  lemma FieldParts(b: Bytes, cursor: nat, tag: nat, code: Byte, payload: Bytes, rest: Bytes)
    requires cursor <= |b| && tag < U16_SIZE && |payload| < U32_SIZE
    requires b[cursor..] == BigEndian(tag, 2) + ([code] + BigEndian(|payload|, 4) + payload) + rest
    ensures ReadNumber(b, cursor, 2) == Ok(tag) && Take(b, cursor + 2, 1) == Ok([code])
    ensures ReadFrame(b, cursor + 3) == Ok(payload) && b[cursor + 7 + |payload|..] == rest
  {
    hide BigEndian, FromBigEndian;
    SizesArePowers();
    BigEndianRoundTrip(tag, 2);
    BigEndianRoundTrip(|payload|, 4);
    TwoParts(b, cursor, BigEndian(tag, 2), code, BigEndian(|payload|, 4), payload, rest);
    FrameReads(b, cursor + 3, BigEndian(|payload|, 4), payload, rest);
  }

  lemma TwoParts(b: Bytes, cursor: nat, head: Bytes, code: Byte, length: Bytes, payload: Bytes, rest: Bytes)
    requires cursor <= |b| && |head| == 2 && b[cursor..] == head + ([code] + length + payload) + rest
    ensures cursor + 3 <= |b| && b[cursor..cursor + 2] == head && b[cursor + 2..cursor + 3] == [code]
    ensures b[cursor + 3..] == length + payload + rest
  {
    assert b[cursor..] == head + [code] + (length + payload + rest);
    ThreeParts(b, cursor, head, [code], length + payload + rest);
  }

  lemma FirstFieldReads(b: Bytes, cursor: nat, count: nat, previous: nat, tag: nat, code: Byte, payload: Bytes,
                        value: Value, rest: FieldRun)
    requires count > 0 && previous < tag && code <= 12
    requires ReadNumber(b, cursor, 2) == Ok(tag) && Take(b, cursor + 2, 1) == Ok([code])
    requires ReadFrame(b, cursor + 3) == Ok(payload) && DecodePayload(Below(|b|), code, payload) == Ok(value)
    requires ReadFields(b, cursor + 7 + |payload|, count - 1, tag) == Ok(rest)
    ensures ReadFields(b, cursor, count, previous) == Ok(FieldRun([Field(tag, value)] + rest.fields, rest.end))
  {
    hide DecodePayload, Below, ReadFrame, ReadNumber, Take;
  }

  lemma TagsAscendTail(previous: nat, fields: seq<Field>)
    requires TagsAscend(previous, fields) && fields != []
    ensures TagsAscend(fields[0].tag, fields[1..])
  {
    var rest := fields[1..];
    forall i | 0 < i < |rest| ensures rest[i - 1].tag < rest[i].tag {
      assert fields[i + 1 - 1].tag < fields[i + 1].tag;
    }
  }

  ghost predicate FieldsTyped(fields: seq<Field>) {
    forall f :: f in fields ==> f.tag < U16_SIZE && Typed(f.value)
  }

  /** The first field of an encoded field list reads back, and the other fields follow it. */
  lemma FirstFieldBack(u: Unicode, b: Bytes, cursor: nat, fields: seq<Field>) returns (payload: Bytes)
    requires Sound(u) && FieldsTyped(fields) && fields != []
    requires cursor <= |b| && EncodeFields(u, fields) == Ok(b[cursor..])
    ensures ReadNumber(b, cursor, 2) == Ok(fields[0].tag) && Take(b, cursor + 2, 1) == Ok([TypeCode(fields[0].value)])
    ensures ReadFrame(b, cursor + 3) == Ok(payload)
    ensures DecodePayload(Below(|b|), TypeCode(fields[0].value), payload) == Ok(Canon(u, fields[0].value))
    ensures cursor + 7 + |payload| <= |b| && EncodeFields(u, fields[1..]) == Ok(b[cursor + 7 + |payload|..])
  {
    hide DecodePayload, Below, Canon, Typed, EncodePayload, Sound, BigEndian;
    var f, rest := fields[0], EncodeFields(u, fields[1..]).value;
    payload := EncodePayload(u, f.value).value;
    FieldParts(b, cursor, f.tag, TypeCode(f.value), payload, rest);
    assert f in fields;
    assert cursor + 7 + |payload| <= |b| by { hide ReadNumber, Take; }
    PayloadReadsBack(u, f.value, payload, |b|);
  }

  lemma FieldsTail(u: Unicode, previous: nat, fields: seq<Field>)
    requires TagsAscend(previous, fields) && FieldsTyped(fields) && fields != []
    ensures previous < fields[0].tag && TagsAscend(fields[0].tag, fields[1..]) && FieldsTyped(fields[1..])
    ensures CanonFields(u, fields) == [Field(fields[0].tag, Canon(u, fields[0].value))] + CanonFields(u, fields[1..])
  {
    hide Canon, Typed;
    TagsAscendTail(previous, fields);
  }

  lemma NoFieldsBack(u: Unicode, b: Bytes, cursor: nat, fields: seq<Field>, previous: nat)
    requires fields == [] && cursor <= |b| && EncodeFields(u, fields) == Ok(b[cursor..])
    ensures ReadFields(b, cursor, |fields|, previous) == Ok(FieldRun(CanonFields(u, fields), |b|))
  {
    assert |b[cursor..]| == 0;
  }

  lemma {:induction false} FieldsReadBack(u: Unicode, b: Bytes, cursor: nat, fields: seq<Field>, previous: nat)
    requires Sound(u) && FieldsTyped(fields) && TagsAscend(previous, fields)
    requires cursor <= |b| && EncodeFields(u, fields) == Ok(b[cursor..])
    ensures ReadFields(b, cursor, |fields|, previous) == Ok(FieldRun(CanonFields(u, fields), |b|))
    decreases |fields|
  {
    hide *;
    if fields == [] {
      NoFieldsBack(u, b, cursor, fields, previous);
    } else {
      var payload := FirstFieldBack(u, b, cursor, fields);
      FieldsTail(u, previous, fields);
      FieldsReadBack(u, b, cursor + 7 + |payload|, fields[1..], fields[0].tag);
      FirstFieldReads(b, cursor, |fields|, previous, fields[0].tag, TypeCode(fields[0].value), payload,
                      Canon(u, fields[0].value), FieldRun(CanonFields(u, fields[1..]), |b|));
    }
  }

  lemma HeaderReads(b: Bytes, domain: nat, count: nat)
    requires domain < U16_SIZE && count < U16_SIZE && HEADER_SIZE <= |b|
             && b[..HEADER_SIZE] == RecordHeader(domain, count)
    ensures Take(b, 0, 4) == Ok(MAGIC) && Take(b, 4, 1) == Ok([FORMAT_VERSION])
    ensures ReadNumber(b, 5, 2) == Ok(domain) && ReadNumber(b, 7, 2) == Ok(count)
  {
    hide BigEndian, FromBigEndian;
    SizesArePowers();
    BigEndianRoundTrip(domain, 2);
    BigEndianRoundTrip(count, 2);
    var h := b[..HEADER_SIZE];
    assert b[0..4] == h[0..4] == MAGIC && b[4..5] == h[4..5] == [FORMAT_VERSION];
    assert b[5..7] == h[5..7] == BigEndian(domain, 2) && b[7..9] == h[7..9] == BigEndian(count, 2);
  }

  /** Decoding what encodes gives the record back with every value in canonical form. */
  lemma DecodeOfEncodeRecord(u: Unicode, r: Record, b: Bytes)
    requires Sound(u) && TypedRecord(r) && EncodeRecord(u, r) == Ok(b)
    ensures DecodeRecord(b) == Ok(CanonRecord(u, r))
  {
    hide ReadFields, EncodeFields, BigEndian, FromBigEndian, Typed, Sound, RecordHeader, Take, ReadNumber;
    var body := EncodeFields(u, r.fields).value;
    assert b[..HEADER_SIZE] == RecordHeader(r.domain, |r.fields|) && b[HEADER_SIZE..] == body;
    HeaderReads(b, r.domain, |r.fields|);
    FieldsReadBack(u, b, HEADER_SIZE, r.fields, 0);
  }

  // No accepted record is a proper prefix of another.

  lemma PrefixReads(a: Bytes, b: Bytes, cursor: nat, width: nat)
    requires a <= b && cursor + width <= |a|
    ensures a[cursor..cursor + width] == b[cursor..cursor + width]
    ensures ReadNumber(a, cursor, width) == ReadNumber(b, cursor, width)
  {
    assert a[cursor..cursor + width] == b[..|a|][cursor..cursor + width];
  }

  /** Where a field list ends is settled by its own bytes, whatever follows them. */
  lemma {:induction false} FieldEndsAgree(a: Bytes, b: Bytes, cursor: nat, count: nat, previous: nat)
    requires a <= b && ReadFields(a, cursor, count, previous).Ok? && ReadFields(b, cursor, count, previous).Ok?
    ensures ReadFields(a, cursor, count, previous).value.end == ReadFields(b, cursor, count, previous).value.end
    decreases count
  {
    hide DecodePayload, Below, FromBigEndian;
    if count > 0 {
      PrefixReads(a, b, cursor, 2);
      PrefixReads(a, b, cursor + 3, 4);
      var tag, length := ReadNumber(a, cursor, 2).value, ReadNumber(a, cursor + 3, 4).value;
      FieldEndsAgree(a, b, cursor + 7 + length, count - 1, tag);
    }
  }

  lemma PrefixFree(a: Bytes, b: Bytes)
    requires a <= b && DecodeRecord(a).Ok? && DecodeRecord(b).Ok?
    ensures a == b
  {
    hide ReadFields, FromBigEndian;
    PrefixReads(a, b, 7, 2);
    FieldEndsAgree(a, b, HEADER_SIZE, ReadNumber(a, 7, 2).value, 0);
  }

  /** Records that encode share their bytes exactly when they share a canonical form. */
  lemma EqualRecordBytes(u: Unicode, r: Record, s: Record)
    requires Sound(u) && TypedRecord(r) && TypedRecord(s) && EncodeRecord(u, r).Ok? && EncodeRecord(u, s).Ok?
    ensures EncodeRecord(u, r) == EncodeRecord(u, s) <==> CanonRecord(u, r) == CanonRecord(u, s)
  {
    var a, b := EncodeRecord(u, r).value, EncodeRecord(u, s).value;
    hide DecodeRecord, EncodeRecord, CanonRecord, TypedRecord, Sound;
    DecodeOfEncodeRecord(u, r, a);
    DecodeOfEncodeRecord(u, s, b);
    ReencodeRecord(u, a);
    ReencodeRecord(u, b);
  }

  lemma {:induction false} FieldsEncodeIff(u: Unicode, fields: seq<Field>)
    ensures EncodeFields(u, fields).Ok? <==>
            forall i :: 0 <= i < |fields| ==> fields[i].tag < 65536 && EncodeTyped(u, fields[i].value).Ok?
  {
    hide EncodeTyped, BigEndian;
    if fields != [] {
      var rest := fields[1..];
      FieldsEncodeIff(u, rest);
      assert forall i :: 0 <= i < |rest| ==> rest[i] == fields[i + 1];
      if forall i :: 0 <= i < |rest| ==> rest[i].tag < 65536 && EncodeTyped(u, rest[i].value).Ok? {
        forall i | 0 < i < |fields| ensures fields[i].tag < 65536 && EncodeTyped(u, fields[i].value).Ok? {
          assert fields[i] == rest[i - 1];
        }
      }
    }
  }

  /** A record encodes exactly if its tags are two-byte numbers from one up, in ascending order, there are no more
      fields than two bytes can count, and every value encodes. */
  lemma RecordEncodesIff(u: Unicode, r: Record)
    requires r.domain <= DOMAINS
    ensures EncodeRecord(u, r).Ok? <==>
            && |r.fields| <= 65535
            && (forall i :: 0 <= i < |r.fields| ==> 1 <= r.fields[i].tag <= 65535
                                                    && EncodeTyped(u, r.fields[i].value).Ok?)
            && forall i, j :: 0 <= i < j < |r.fields| ==> r.fields[i].tag < r.fields[j].tag
  {
    hide EncodeTyped, BigEndian, EncodeFields;
    FieldsEncodeIff(u, r.fields);
    if TagsAscend(0, r.fields) {
      forall i, j | 0 <= i < j < |r.fields| ensures r.fields[i].tag < r.fields[j].tag {
        TagsAscendApart(r.fields, i, j);
      }
    }
  }

  lemma {:induction false} TagsAscendApart(fields: seq<Field>, i: nat, j: nat)
    requires TagsAscend(0, fields) && i < j < |fields|
    ensures fields[i].tag < fields[j].tag
    decreases j
  {
    assert fields[j - 1].tag < fields[j].tag;
    if i < j - 1 { TagsAscendApart(fields, i, j - 1); }
  }

  /** Every encoded record starts with the four magic letters, the format version, its domain and its field count. */
  lemma RecordStarts(u: Unicode, r: Record, b: Bytes)
    requires 1 <= r.domain <= DOMAINS && EncodeRecord(u, r) == Ok(b)
    ensures |b| >= 9 && b[..5] == [67, 70, 73, 68, 1]
    ensures FromBigEndian(b[5..7]) == r.domain && FromBigEndian(b[7..9]) == |r.fields|
  {
    hide EncodeFields, BigEndian, FromBigEndian, TagsAscend;
    var header := RecordHeader(r.domain, |r.fields|);
    SizesArePowers();
    BigEndianRoundTrip(r.domain, 2);
    BigEndianRoundTrip(|r.fields|, 2);
    assert b[..9] == header;
    assert header[..5] == MAGIC + [FORMAT_VERSION];
    assert header[5..7] == BigEndian(r.domain, 2) && header[7..9] == BigEndian(|r.fields|, 2);
    assert b[..5] == header[..5] && b[5..7] == header[5..7] && b[7..9] == header[7..9];
  }
}
