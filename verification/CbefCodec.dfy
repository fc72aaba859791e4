/** The codec as cursor and buffer loops, each computing its specification function. */
module CbefCodec {
  import opened Prelude
  import opened Bytes
  import opened Utf8
  import opened Cbef
  import opened CbefRecord

  // Decoding.

  /** Runs read so far, joined to what the rest of the payload gives. */
  function JoinRun(encoded: seq<Bytes>, values: seq<Value>, rest: Result<Run, Error>): Result<Run, Error> {
    match rest
    case Err(e) => Err(e)
    case Ok(run) => Ok(Run(encoded + run.encoded, values + run.values, run.end))
  }

  function JoinEntries(encoded: seq<(Bytes, Bytes)>, entries: seq<Entry>,
                       rest: Result<EntryRun, Error>): Result<EntryRun, Error> {
    match rest
    case Err(e) => Err(e)
    case Ok(run) => Ok(EntryRun(encoded + run.encoded, entries + run.entries, run.end))
  }

  function JoinFields(fields: seq<Field>, rest: Result<FieldRun, Error>): Result<FieldRun, Error> {
    match rest
    case Err(e) => Err(e)
    case Ok(run) => Ok(FieldRun(fields + run.fields, run.end))
  }

  lemma JoinRunStep(decode: Decoder, p: Bytes, cursor: nat, count: nat, encoded: seq<Bytes>, values: seq<Value>)
    requires count > 0
    ensures ReadFrame(p, cursor).Err? ==>
              JoinRun(encoded, values, ReadItems(decode, p, cursor, count)) == Err(ReadFrame(p, cursor).error)
    ensures ReadFrame(p, cursor).Ok? ==>
              var item := ReadFrame(p, cursor).value;
              JoinRun(encoded, values, ReadItems(decode, p, cursor, count)) ==
              match decode(item)
              case Err(e) => Err(e)
              case Ok(v) => JoinRun(encoded + [item], values + [v],
                                    ReadItems(decode, p, cursor + 4 + |item|, count - 1))
  {
    hide ReadFrame;
    if ReadFrame(p, cursor).Ok? && decode(ReadFrame(p, cursor).value).Ok? {
      var item := ReadFrame(p, cursor).value;
      match ReadItems(decode, p, cursor + 4 + |item|, count - 1) {
        case Err(_) =>
        case Ok(run) =>
          assert encoded + ([item] + run.encoded) == encoded + [item] + run.encoded;
          assert values + ([decode(item).value] + run.values) == values + [decode(item).value] + run.values;
      }
    }
  }

  lemma JoinRunEnds(decode: Decoder, p: Bytes, cursor: nat, encoded: seq<Bytes>, values: seq<Value>)
    ensures forall rest: Result<Run, Error> :: JoinRun([], [], rest) == rest
    ensures JoinRun(encoded, values, ReadItems(decode, p, cursor, 0)) == Ok(Run(encoded, values, cursor))
  {
    forall rest: Result<Run, Error> ensures JoinRun([], [], rest) == rest {
      if rest.Ok? {
        assert [] + rest.value.encoded == rest.value.encoded && [] + rest.value.values == rest.value.values;
      }
    }
    assert encoded + [] == encoded && values + [] == values;
  }

  method DecodeSequenceBytes(p: Bytes, sorted: bool, ghost n: nat) returns (r: Result<seq<Value>, Error>)
    requires |p| < n
    ensures r == DecodeSequence(Below(n), p, sorted)
    decreases |p|, 1
  {
    hide DecodeTyped, ReadItems, FromBigEndian;
    var counted := ReadNumber(p, 0, 4);
    if counted.Err? { return Err(counted.error); }
    var count := counted.value;
    var cursor: nat := 4;
    var encoded: seq<Bytes> := [];
    ghost var values: seq<Value> := [];
    var i := 0;
    JoinRunEnds(Below(n), p, cursor, encoded, values);
    while i < count
      invariant 0 <= i <= count
      invariant ReadItems(Below(n), p, 4, count) == JoinRun(encoded, values, ReadItems(Below(n), p, cursor, count - i))
      invariant |values| == |encoded| == i
      invariant forall k :: 0 <= k < i ==> |encoded[k]| < |p| && DecodeTyped(encoded[k]) == Ok(values[k])
    {
      JoinRunStep(Below(n), p, cursor, count - i, encoded, values);
      var frame := ReadFrame(p, cursor);
      if frame.Err? { return Err(frame.error); }
      var item := frame.value;
      var decoded := DecodeValue(item);
      if decoded.Err? { return Err(decoded.error); }
      encoded := encoded + [item];
      values := values + [decoded.value];
      cursor := cursor + 4 + |item|;
      i := i + 1;
    }
    JoinRunEnds(Below(n), p, cursor, encoded, values);
    if cursor != |p| { return Err(TrailingBytes); }
    if sorted && !Ascends(Whole, encoded) { return Err(ContainerOrder); }
    var again := DecodeEach(p, encoded, values);
    r := Ok(again);
  }

  /** The accepted items decoded once more, in order. */
  method DecodeEach(p: Bytes, encoded: seq<Bytes>, ghost values: seq<Value>) returns (r: seq<Value>)
    requires |values| == |encoded|
    requires forall k :: 0 <= k < |encoded| ==> |encoded[k]| < |p| && DecodeTyped(encoded[k]) == Ok(values[k])
    ensures r == values
    decreases |p|, 0
  {
    hide DecodeTyped;
    r := [];
    for i := 0 to |encoded|
      invariant r == values[..i]
    {
      var decoded := DecodeValue(encoded[i]);
      r := r + [decoded.value];
    }
  }

  lemma JoinEntriesEnds(decode: Decoder, p: Bytes, cursor: nat, previous: Option<Bytes>,
                        encoded: seq<(Bytes, Bytes)>, entries: seq<Entry>)
    ensures forall rest: Result<EntryRun, Error> :: JoinEntries([], [], rest) == rest
    ensures JoinEntries(encoded, entries, ReadEntries(decode, p, cursor, 0, previous)) ==
            Ok(EntryRun(encoded, entries, cursor))
  {
    forall rest: Result<EntryRun, Error> ensures JoinEntries([], [], rest) == rest {
      if rest.Ok? {
        assert [] + rest.value.encoded == rest.value.encoded && [] + rest.value.entries == rest.value.entries;
      }
    }
    assert encoded + [] == encoded && entries + [] == entries;
  }

  /** How reading on depends on the next entry. */
  lemma JoinEntriesStep(decode: Decoder, p: Bytes, cursor: nat, count: nat, previous: Option<Bytes>, key: Bytes,
                        value: Bytes, encoded: seq<(Bytes, Bytes)>, entries: seq<Entry>)
    requires count > 0 && ReadFrame(p, cursor) == Ok(key) && ReadFrame(p, cursor + 4 + |key|) == Ok(value)
    requires previous.Some? ==> Less(previous.value, key)
    ensures JoinEntries(encoded, entries, ReadEntries(decode, p, cursor, count, previous)) ==
            match decode(key)
            case Err(e) => Err(e)
            case Ok(k) =>
              match decode(value)
              case Err(e) => Err(e)
              case Ok(v) =>
                JoinEntries(encoded + [(key, value)], entries + [Entry(k, v)],
                            ReadEntries(decode, p, cursor + 4 + |key| + 4 + |value|, count - 1, Some(key)))
  {
    hide ReadFrame, Less;
    if decode(key).Ok? && decode(value).Ok? {
      var e := Entry(decode(key).value, decode(value).value);
      match ReadEntries(decode, p, cursor + 4 + |key| + 4 + |value|, count - 1, Some(key)) {
        case Err(_) =>
        case Ok(run) =>
          assert encoded + ([(key, value)] + run.encoded) == encoded + [(key, value)] + run.encoded;
          assert entries + ([e] + run.entries) == entries + [e] + run.entries;
      }
    }
  }

  lemma JoinEntriesStops(decode: Decoder, p: Bytes, cursor: nat, count: nat, previous: Option<Bytes>,
                         encoded: seq<(Bytes, Bytes)>, entries: seq<Entry>)
    requires count > 0
    ensures var joined := JoinEntries(encoded, entries, ReadEntries(decode, p, cursor, count, previous));
            match ReadFrame(p, cursor)
            case Err(e) => joined == Err(e)
            case Ok(key) =>
              if previous.Some? && !Less(previous.value, key) then joined == Err(ContainerOrder)
              else ReadFrame(p, cursor + 4 + |key|).Err? ==> joined == Err(ReadFrame(p, cursor + 4 + |key|).error)
  {
    hide ReadFrame, Less;
  }

  method DecodeMapBytes(p: Bytes, ghost n: nat) returns (r: Result<seq<Entry>, Error>)
    requires |p| < n
    ensures r == DecodeMap(Below(n), p)
    decreases |p|, 1
  {
    hide DecodeTyped, ReadEntries, FromBigEndian, Less;
    var counted := ReadNumber(p, 0, 4);
    if counted.Err? { return Err(counted.error); }
    var count := counted.value;
    var cursor: nat := 4;
    var previous: Option<Bytes> := None;
    ghost var encoded: seq<(Bytes, Bytes)> := [];
    var entries: seq<Entry> := [];
    var i := 0;
    JoinEntriesEnds(Below(n), p, cursor, previous, encoded, entries);
    while i < count
      invariant 0 <= i <= count
      invariant ReadEntries(Below(n), p, 4, count, None) ==
                JoinEntries(encoded, entries, ReadEntries(Below(n), p, cursor, count - i, previous))
    {
      JoinEntriesStops(Below(n), p, cursor, count - i, previous, encoded, entries);
      var keyFrame := ReadFrame(p, cursor);
      if keyFrame.Err? { return Err(keyFrame.error); }
      var key := keyFrame.value;
      if previous.Some? && !Less(previous.value, key) { return Err(ContainerOrder); }
      var valueFrame := ReadFrame(p, cursor + 4 + |key|);
      if valueFrame.Err? { return Err(valueFrame.error); }
      var value := valueFrame.value;
      JoinEntriesStep(Below(n), p, cursor, count - i, previous, key, value, encoded, entries);
      var decodedKey := DecodeValue(key);
      if decodedKey.Err? { return Err(decodedKey.error); }
      var decodedValue := DecodeValue(value);
      if decodedValue.Err? { return Err(decodedValue.error); }
      encoded := encoded + [(key, value)];
      entries := entries + [Entry(decodedKey.value, decodedValue.value)];
      cursor := cursor + 4 + |key| + 4 + |value|;
      previous := Some(key);
      i := i + 1;
    }
    JoinEntriesEnds(Below(n), p, cursor, previous, encoded, entries);
    if cursor != |p| { return Err(TrailingBytes); }
    r := Ok(entries);
  }

  method DecodeUnionBytes(p: Bytes, ghost n: nat) returns (r: Result<Value, Error>)
    requires |p| < n
    ensures r == DecodeUnion(Below(n), p)
    decreases |p|, 1
  {
    hide DecodeTyped, FromBigEndian;
    var variant := ReadNumber(p, 0, 2);
    if variant.Err? { return Err(variant.error); }
    var frame := ReadFrame(p, 2);
    if frame.Err? { return Err(frame.error); }
    var value := DecodeValue(frame.value);
    if value.Err? { return Err(value.error); }
    if 6 + |frame.value| != |p| { return Err(TrailingBytes); }
    r := Ok(TaggedUnion(variant.value, value.value));
  }

  method DecodePayloadBytes(code: Byte, p: Bytes, ghost n: nat) returns (r: Result<Value, Error>)
    requires code <= 12 && |p| < n
    ensures r == DecodePayload(Below(n), code, p)
    decreases |p|, 2
  {
    hide DecodeTyped, DecodeSequence, DecodeMap, DecodeUnion, WellFormed;
    if code == 9 || code == 10 {
      var values := DecodeSequenceBytes(p, code == 10, n);
      if values.Err? { return Err(values.error); }
      r := Ok(if code == 9 then OrderedList(values.value) else Members(values.value));
    } else if code == 11 {
      var entries := DecodeMapBytes(p, n);
      if entries.Err? { return Err(entries.error); }
      r := Ok(Entries(entries.value));
    } else if code == 12 {
      r := DecodeUnionBytes(p, n);
    } else {
      r := DecodeScalar(code, p);
    }
  }

  /** The payloads that hold no other values. */
  method DecodeScalar(code: Byte, p: Bytes) returns (r: Result<Value, Error>)
    requires code <= 8
    ensures forall decode: Decoder {:trigger DecodePayload(decode, code, p)} :: r == DecodePayload(decode, code, p)
  {
    hide WellFormed;
    if code == 0 && p == [] { return Ok(Absent); }
    if code == 1 { return Ok(Blob(p)); }
    if code == 2 { return if WellFormed(p) then Ok(Text(p, Verbatim)) else Err(Scalar); }
    if code == 3 {
      if p == [] { return Err(Scalar); }
      if !(1 <= p[0] <= 3) { return Err(Platform(p[0])); }
      return Ok(RawPath(p[0], p[1..]));
    }
    if (code == 4 || code == 5) && ScalarWidth(|p|) { return Ok(if code == 4 then Unsigned(p) else Signed(p)); }
    if code == 6 && (p == [0] || p == [1]) { return Ok(Boolean(p[0] == 1)); }
    if code == 7 && |p| == 16 { return Ok(Identity(p)); }
    if code == 8 && |p| == 32 { return Ok(Digest(p)); }
    r := Err(Scalar);
  }

  method DecodeValue(b: Bytes) returns (r: Result<Value, Error>)
    ensures r == DecodeTyped(b)
    decreases |b|, 3
  {
    hide DecodePayload, Below, FromBigEndian;
    var code := Take(b, 0, 1);
    if code.Err? { return Err(code.error); }
    if code.value[0] > 12 { return Err(UnknownTypeCode(code.value[0])); }
    var frame := ReadFrame(b, 1);
    if frame.Err? { return Err(frame.error); }
    if 5 + |frame.value| != |b| { return Err(TrailingBytes); }
    r := DecodePayloadBytes(code.value[0], frame.value, |b|);
  }

  // Records.

  lemma JoinFieldsEnds(b: Bytes, cursor: nat, previous: nat, fields: seq<Field>)
    ensures forall rest: Result<FieldRun, Error> :: JoinFields([], rest) == rest
    ensures JoinFields(fields, ReadFields(b, cursor, 0, previous)) == Ok(FieldRun(fields, cursor))
  {
    forall rest: Result<FieldRun, Error> ensures JoinFields([], rest) == rest {
      if rest.Ok? { assert [] + rest.value.fields == rest.value.fields; }
    }
    assert fields + [] == fields;
  }

  /** How reading on depends on the next field. */
  lemma JoinFieldsStep(b: Bytes, cursor: nat, count: nat, previous: nat, tag: nat, code: Byte, payload: Bytes,
                       fields: seq<Field>)
    requires count > 0 && ReadNumber(b, cursor, 2) == Ok(tag) && previous < tag
    requires Take(b, cursor + 2, 1) == Ok([code]) && code <= 12 && ReadFrame(b, cursor + 3) == Ok(payload)
    ensures JoinFields(fields, ReadFields(b, cursor, count, previous)) ==
            match DecodePayload(Below(|b|), code, payload)
            case Err(e) => Err(e)
            case Ok(value) =>
              JoinFields(fields + [Field(tag, value)], ReadFields(b, cursor + 7 + |payload|, count - 1, tag))
  {
    hide ReadFrame, DecodePayload, Below, ReadNumber, Take;
    var decoded := DecodePayload(Below(|b|), code, payload);
    if decoded.Ok? {
      match ReadFields(b, cursor + 7 + |payload|, count - 1, tag) {
        case Err(_) =>
        case Ok(run) =>
          assert fields + ([Field(tag, decoded.value)] + run.fields) ==
                 fields + [Field(tag, decoded.value)] + run.fields;
      }
    }
  }

  lemma JoinFieldsStops(b: Bytes, cursor: nat, count: nat, previous: nat, fields: seq<Field>)
    requires count > 0
    ensures var joined := JoinFields(fields, ReadFields(b, cursor, count, previous));
            match ReadNumber(b, cursor, 2)
            case Err(e) => joined == Err(e)
            case Ok(tag) =>
              if tag <= previous then joined == Err(FieldOrder)
              else
                match Take(b, cursor + 2, 1)
                case Err(e) => joined == Err(e)
                case Ok(code) =>
                  if code[0] > 12 then joined == Err(UnknownTypeCode(code[0]))
                  else ReadFrame(b, cursor + 3).Err? ==> joined == Err(ReadFrame(b, cursor + 3).error)
  {
    hide ReadFrame, DecodePayload, Below, ReadNumber;
  }

  method DecodeFieldsBytes(b: Bytes, count: nat) returns (r: Result<FieldRun, Error>)
    requires HEADER_SIZE <= |b|
    ensures r == ReadFields(b, HEADER_SIZE, count, 0)
  {
    hide ReadFields, DecodePayload, Below, FromBigEndian;
    var cursor: nat := HEADER_SIZE;
    var previous: nat := 0;
    var fields: seq<Field> := [];
    var i := 0;
    JoinFieldsEnds(b, cursor, previous, fields);
    while i < count
      invariant 0 <= i <= count && HEADER_SIZE <= cursor
      invariant ReadFields(b, HEADER_SIZE, count, 0) == JoinFields(fields, ReadFields(b, cursor, count - i, previous))
    {
      JoinFieldsStops(b, cursor, count - i, previous, fields);
      var tag := ReadNumber(b, cursor, 2);
      if tag.Err? { return Err(tag.error); }
      if tag.value <= previous { return Err(FieldOrder); }
      var code := Take(b, cursor + 2, 1);
      if code.Err? { return Err(code.error); }
      if code.value[0] > 12 { return Err(UnknownTypeCode(code.value[0])); }
      var frame := ReadFrame(b, cursor + 3);
      if frame.Err? { return Err(frame.error); }
      assert code.value == [code.value[0]];
      JoinFieldsStep(b, cursor, count - i, previous, tag.value, code.value[0], frame.value, fields);
      var value := DecodePayloadBytes(code.value[0], frame.value, |b|);
      if value.Err? { return Err(value.error); }
      fields := fields + [Field(tag.value, value.value)];
      previous := tag.value;
      cursor := cursor + 7 + |frame.value|;
      i := i + 1;
    }
    JoinFieldsEnds(b, cursor, previous, fields);
    r := Ok(FieldRun(fields, cursor));
  }

  method DecodeRecordBytes(b: Bytes) returns (r: Result<Record, Error>)
    ensures r == DecodeRecord(b)
  {
    hide ReadFields, FromBigEndian;
    var magic := Take(b, 0, 4);
    if magic.Err? { return Err(magic.error); }
    if magic.value != MAGIC { return Err(Error.Header); }
    var version := Take(b, 4, 1);
    if version.Err? { return Err(version.error); }
    if version.value != [FORMAT_VERSION] { return Err(Error.Header); }
    var domain := ReadNumber(b, 5, 2);
    if domain.Err? { return Err(domain.error); }
    if !(1 <= domain.value <= DOMAINS) { return Err(UnknownDomain(domain.value)); }
    var count := ReadNumber(b, 7, 2);
    if count.Err? { return Err(count.error); }
    var run := DecodeFieldsBytes(b, count.value);
    if run.Err? { return Err(run.error); }
    if run.value.end != |b| { return Err(TrailingBytes); }
    r := Ok(Record(domain.value, run.value.fields));
  }

  // Encoding.

  function JoinBytes(done: Bytes, rest: Result<Bytes, Error>): Result<Bytes, Error> {
    match rest
    case Err(e) => Err(e)
    case Ok(bytes) => Ok(done + bytes)
  }

  lemma JoinBytesStep(u: Unicode, done: Bytes, fields: seq<Field>, i: nat)
    requires i < |fields| && fields[i].tag < U16_SIZE
    ensures JoinBytes(done, EncodeFields(u, fields[i..])) ==
            match EncodeTyped(u, fields[i].value)
            case Err(e) => Err(e)
            case Ok(bytes) => JoinBytes(done + BigEndian(fields[i].tag, 2) + bytes, EncodeFields(u, fields[i + 1..]))
  {
    hide EncodeTyped, BigEndian;
    assert fields[i..][1..] == fields[i + 1..];
    match EncodeFields(u, fields[i + 1..]) {
      case Err(_) =>
      case Ok(rest) =>
        if EncodeTyped(u, fields[i].value).Ok? {
          var tag, bytes := BigEndian(fields[i].tag, 2), EncodeTyped(u, fields[i].value).value;
          assert done + (tag + bytes + rest) == done + tag + bytes + rest;
        }
    }
  }

  /** Tags must be positive and ascend. */
  method CheckTags(fields: seq<Field>) returns (ok: bool)
    ensures ok <==> TagsAscend(0, fields)
  {
    if fields != [] && fields[0].tag == 0 { return false; }
    var k := 1;
    while k < |fields|
      invariant forall j :: 0 < j < k && j < |fields| ==> fields[j - 1].tag < fields[j].tag
    {
      if fields[k - 1].tag >= fields[k].tag { return false; }
      k := k + 1;
    }
    ok := true;
  }

  /** Append the fields to the buffer. */
  method AppendFields(u: Unicode, start: Bytes, fields: seq<Field>) returns (encoded: Result<Bytes, Error>)
    requires forall i :: 0 <= i < |fields| ==> fields[i].tag < U16_SIZE
    ensures encoded == JoinBytes(start, EncodeFields(u, fields))
  {
    hide EncodeTyped, BigEndian, EncodeFields, JoinBytes;
    var buffer := start;
    assert fields[0..] == fields;
    for i := 0 to |fields|
      invariant JoinBytes(start, EncodeFields(u, fields)) == JoinBytes(buffer, EncodeFields(u, fields[i..]))
    {
      JoinBytesStep(u, buffer, fields, i);
      var bytes := EncodeTyped(u, fields[i].value);
      if bytes.Err? { return Err(bytes.error); }
      buffer := buffer + BigEndian(fields[i].tag, 2) + bytes.value;
    }
    NoFields(u, fields[|fields|..]);
    JoinNothing(buffer);
    encoded := Ok(buffer);
  }

  lemma JoinNothing(done: Bytes)
    ensures JoinBytes(done, Ok([])) == Ok(done)
  {
    assert done + [] == done;
  }

  method EncodeRecordBytes(u: Unicode, r: Record) returns (encoded: Result<Bytes, Error>)
    requires r.domain <= DOMAINS && forall f :: f in r.fields ==> f.tag < U16_SIZE
    ensures encoded == EncodeRecord(u, r)
  {
    hide EncodeFields, TagsAscend, RecordHeader;
    var ascending := CheckTags(r.fields);
    if !ascending { return Err(FieldOrder); }
    if |r.fields| >= U16_SIZE { return Err(Scalar); }
    assert forall i :: 0 <= i < |r.fields| ==> r.fields[i] in r.fields;
    encoded := AppendFields(u, RecordHeader(r.domain, |r.fields|), r.fields);
  }

  lemma NoFields(u: Unicode, fields: seq<Field>)
    requires fields == []
    ensures EncodeFields(u, fields) == Ok([])
  {
  }
}
