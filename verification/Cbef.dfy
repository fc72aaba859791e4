/** The CBEF-v1 canonical binary format: typed values, records, strict decoding. */
module Cbef {
  import opened Prelude
  import opened Bytes
  import opened Utf8

  datatype Error =
    | Header
    | UnknownDomain(domainCode: nat)
    | UnknownTypeCode(typeCode: Byte)
    | Truncated
    | FieldOrder
    | ContainerOrder
    | Scalar
    | TrailingBytes
    | Platform(platformCode: Byte)

  datatype Normalization = Verbatim | Nfc | Nfkc | AsciiLowered | PythonIdentifierNfkc | RustCanonical

  /** The Unicode normalization forms, which the format takes from a library. */
  datatype Unicode = Unicode(nfc: Bytes -> Bytes, nfkc: Bytes -> Bytes)

  ghost predicate Sound(u: Unicode) {
    forall s :: WellFormed(s) ==> WellFormed(u.nfc(s)) && WellFormed(u.nfkc(s))
  }

  datatype Value =
    | Absent
    | Blob(bytes: Bytes)
    | Text(text: Bytes, rule: Normalization)
    | RawPath(platform: Byte, path: Bytes)
    | Unsigned(magnitude: Bytes)
    | Signed(magnitude: Bytes)
    | Boolean(flag: bool)
    | Identity(id: Bytes)
    | Digest(digest: Bytes)
    | OrderedList(items: seq<Value>)
    | Members(members: seq<Value>)
    | Entries(entries: seq<Entry>)
    | TaggedUnion(variant: nat, value: Value)

  datatype Entry = Entry(key: Value, value: Value)

  /** What the field types of a value already guarantee. */
  ghost predicate Typed(v: Value) {
    match v
    case Text(text, _) => WellFormed(text)
    case Identity(id) => |id| == 16
    case Digest(digest) => |digest| == 32
    case OrderedList(items) => forall x :: x in items ==> Typed(x)
    case Members(members) => forall x :: x in members ==> Typed(x)
    case Entries(entries) => forall e :: e in entries ==> Typed(e.key) && Typed(e.value)
    case TaggedUnion(variant, value) => variant < U16_SIZE && Typed(value)
    case _ => true
  }

  function TypeCode(v: Value): (c: Byte)
    ensures c <= 12
  {
    match v
    case Absent => 0
    case Blob(_) => 1
    case Text(_, _) => 2
    case RawPath(_, _) => 3
    case Unsigned(_) => 4
    case Signed(_) => 5
    case Boolean(_) => 6
    case Identity(_) => 7
    case Digest(_) => 8
    case OrderedList(_) => 9
    case Members(_) => 10
    case Entries(_) => 11
    case TaggedUnion(_, _) => 12
  }

  predicate ScalarWidth(n: nat) {
    n in {1, 2, 4, 8, 16}
  }

  function Normalized(u: Unicode, text: Bytes, rule: Normalization): Result<Bytes, Error> {
    match rule
    case Verbatim => Ok(text)
    case RustCanonical => Ok(text)
    case Nfc => Ok(u.nfc(text))
    case Nfkc => Ok(u.nfkc(text))
    case PythonIdentifierNfkc => Ok(u.nfkc(text))
    case AsciiLowered => if IsAscii(text) then Ok(AsciiLower(text)) else Err(Scalar)
  }

  // Encoding.

  /** A 32-bit length and the bytes it measures. */
  function Framed(item: Bytes): Result<Bytes, Error> {
    if |item| < U32_SIZE then Ok(BigEndian(|item|, 4) + item) else Err(Scalar)
  }

  function FramedAll(items: seq<Bytes>): Result<Bytes, Error> {
    if items == [] then Ok([])
    else
      match Framed(items[0])
      case Err(e) => Err(e)
      case Ok(first) =>
        match FramedAll(items[1..])
        case Err(e) => Err(e)
        case Ok(rest) => Ok(first + rest)
  }

  /** Each key and its value framed in turn. */
  function FramedPairs(pairs: seq<(Bytes, Bytes)>): Result<Bytes, Error> {
    if pairs == [] then Ok([])
    else
      match Framed(pairs[0].0)
      case Err(e) => Err(e)
      case Ok(key) =>
        match Framed(pairs[0].1)
        case Err(e) => Err(e)
        case Ok(value) =>
          match FramedPairs(pairs[1..])
          case Err(e) => Err(e)
          case Ok(rest) => Ok(key + (value + rest))
  }

  /** A 32-bit count before a body. */
  function Counted(count: nat, framed: Result<Bytes, Error>): Result<Bytes, Error> {
    if count >= U32_SIZE then Err(Scalar)
    else
      match framed
      case Err(e) => Err(e)
      case Ok(body) => Ok(BigEndian(count, 4) + body)
  }

  function KeyBytes(pair: (Bytes, Bytes)): Bytes { pair.0 }

  function EncodeTyped(u: Unicode, v: Value): Result<Bytes, Error>
    decreases v, 1
  {
    match EncodePayload(u, v)
    case Err(e) => Err(e)
    case Ok(payload) =>
      if |payload| < U32_SIZE then Ok([TypeCode(v)] + BigEndian(|payload|, 4) + payload) else Err(Scalar)
  }

  function EncodePayload(u: Unicode, v: Value): Result<Bytes, Error>
    decreases v, 0
  {
    match v
    case Absent => Ok([])
    case Blob(bytes) => Ok(bytes)
    case Text(text, rule) => Normalized(u, text, rule)
    case RawPath(platform, path) => if 1 <= platform <= 3 then Ok([platform] + path) else Err(Platform(platform))
    case Unsigned(magnitude) => if ScalarWidth(|magnitude|) then Ok(magnitude) else Err(Scalar)
    case Signed(magnitude) => if ScalarWidth(|magnitude|) then Ok(magnitude) else Err(Scalar)
    case Boolean(flag) => Ok([if flag then 1 else 0])
    case Identity(id) => Ok(id)
    case Digest(digest) => Ok(digest)
    case OrderedList(items) =>
      (match EncodeAll(u, items)
       case Err(e) => Err(e)
       case Ok(encoded) => Counted(|encoded|, FramedAll(encoded)))
    case Members(members) =>
      (match EncodeAll(u, members)
       case Err(e) => Err(e)
       case Ok(encoded) => var sorted := SortDistinct(Whole, encoded); Counted(|sorted|, FramedAll(sorted)))
    case Entries(entries) =>
      (match EncodeEntries(u, entries)
       case Err(e) => Err(e)
       case Ok(pairs) =>
         // Two entries share an encoded key exactly when sorting by key drops one.
         var sorted := SortDistinct(KeyBytes, pairs);
         if |sorted| != |pairs| then Err(ContainerOrder) else Counted(|sorted|, FramedPairs(sorted)))
    case TaggedUnion(variant, value) =>
      (match EncodeTyped(u, value)
       case Err(e) => Err(e)
       case Ok(encoded) =>
         if |encoded| < U32_SIZE && variant < U16_SIZE
         then Ok(BigEndian(variant, 2) + BigEndian(|encoded|, 4) + encoded) else Err(Scalar))
  }

  function EncodeAll(u: Unicode, vs: seq<Value>): Result<seq<Bytes>, Error>
    decreases vs, 0
  {
    if vs == [] then Ok([])
    else
      match EncodeTyped(u, vs[0])
      case Err(e) => Err(e)
      case Ok(first) =>
        match EncodeAll(u, vs[1..])
        case Err(e) => Err(e)
        case Ok(rest) => Ok([first] + rest)
  }

  function EncodeEntry(u: Unicode, e: Entry): Result<(Bytes, Bytes), Error>
    decreases e
  {
    match EncodeTyped(u, e.key)
    case Err(e) => Err(e)
    case Ok(key) =>
      match EncodeTyped(u, e.value)
      case Err(e) => Err(e)
      case Ok(value) => Ok((key, value))
  }

  function EncodeEntries(u: Unicode, es: seq<Entry>): Result<seq<(Bytes, Bytes)>, Error>
    decreases es, 0
  {
    if es == [] then Ok([])
    else
      match EncodeEntry(u, es[0])
      case Err(e) => Err(e)
      case Ok(first) =>
        match EncodeEntries(u, es[1..])
        case Err(e) => Err(e)
        case Ok(rest) => Ok([first] + rest)
  }

  // Decoding.

  function Take(b: Bytes, cursor: nat, count: nat): Result<Bytes, Error> {
    if cursor + count <= |b| then Ok(b[cursor..cursor + count]) else Err(Truncated)
  }

  function ReadNumber(b: Bytes, cursor: nat, width: nat): Result<nat, Error> {
    if cursor + width <= |b| then Ok(FromBigEndian(b[cursor..cursor + width])) else Err(Truncated)
  }

  /** The bytes measured by the 32-bit length at the cursor. */
  function ReadFrame(b: Bytes, cursor: nat): (r: Result<Bytes, Error>)
    ensures r.Ok? ==> cursor + 4 + |r.value| <= |b|
  {
    match ReadNumber(b, cursor, 4)
    case Err(e) => Err(e)
    case Ok(length) => Take(b, cursor + 4, length)
  }

  datatype Run = Run(encoded: seq<Bytes>, values: seq<Value>, end: nat)

  // Containers are read with a given decoder for their members.

  type Decoder = Bytes -> Result<Value, Error>

  /** The next `count` framed values from the cursor on. */
  function ReadItems(decode: Decoder, p: Bytes, cursor: nat, count: nat): Result<Run, Error>
    decreases count
  {
    if count == 0 then Ok(Run([], [], cursor))
    else
      match ReadFrame(p, cursor)
      case Err(e) => Err(e)
      case Ok(item) =>
        match decode(item)
        case Err(e) => Err(e)
        case Ok(value) =>
          match ReadItems(decode, p, cursor + 4 + |item|, count - 1)
          case Err(e) => Err(e)
          case Ok(rest) => Ok(Run([item] + rest.encoded, [value] + rest.values, rest.end))
  }

  function DecodeSequence(decode: Decoder, p: Bytes, sorted: bool): Result<seq<Value>, Error> {
    match ReadNumber(p, 0, 4)
    case Err(e) => Err(e)
    case Ok(count) =>
      match ReadItems(decode, p, 4, count)
      case Err(e) => Err(e)
      case Ok(run) =>
        if run.end != |p| then Err(TrailingBytes)
        else if sorted && !Ascends(Whole, run.encoded) then Err(ContainerOrder)
        else Ok(run.values)
  }

  datatype EntryRun = EntryRun(encoded: seq<(Bytes, Bytes)>, entries: seq<Entry>, end: nat)

  /** The next `count` entries from the cursor on; their keys must ascend beyond `previous`. */
  function ReadEntries(decode: Decoder, p: Bytes, cursor: nat, count: nat,
                       previous: Option<Bytes>): Result<EntryRun, Error>
    decreases count
  {
    if count == 0 then Ok(EntryRun([], [], cursor))
    else
      match ReadFrame(p, cursor)
      case Err(e) => Err(e)
      case Ok(key) =>
        if previous.Some? && !Less(previous.value, key) then Err(ContainerOrder)
        else
          match ReadFrame(p, cursor + 4 + |key|)
          case Err(e) => Err(e)
          case Ok(value) =>
            match decode(key)
            case Err(e) => Err(e)
            case Ok(k) =>
              match decode(value)
              case Err(e) => Err(e)
              case Ok(v) =>
                match ReadEntries(decode, p, cursor + 4 + |key| + 4 + |value|, count - 1, Some(key))
                case Err(e) => Err(e)
                case Ok(rest) => Ok(EntryRun([(key, value)] + rest.encoded, [Entry(k, v)] + rest.entries, rest.end))
  }

  function DecodeMap(decode: Decoder, p: Bytes): Result<seq<Entry>, Error> {
    match ReadNumber(p, 0, 4)
    case Err(e) => Err(e)
    case Ok(count) =>
      match ReadEntries(decode, p, 4, count, None)
      case Err(e) => Err(e)
      case Ok(run) => if run.end != |p| then Err(TrailingBytes) else Ok(run.entries)
  }

  function DecodeUnion(decode: Decoder, p: Bytes): Result<Value, Error> {
    match ReadNumber(p, 0, 2)
    case Err(e) => Err(e)
    case Ok(variant) =>
      match ReadFrame(p, 2)
      case Err(e) => Err(e)
      case Ok(item) =>
        match decode(item)
        case Err(e) => Err(e)
        case Ok(value) => if 6 + |item| != |p| then Err(TrailingBytes) else Ok(TaggedUnion(variant, value))
  }

  function DecodePayload(decode: Decoder, code: Byte, p: Bytes): Result<Value, Error>
    requires code <= 12
  {
    if code == 0 then if p == [] then Ok(Absent) else Err(Scalar)
    else if code == 1 then Ok(Blob(p))
    else if code == 2 then if WellFormed(p) then Ok(Text(p, Verbatim)) else Err(Scalar)
    else if code == 3 then
      if p == [] then Err(Scalar)
      else if 1 <= p[0] <= 3 then Ok(RawPath(p[0], p[1..])) else Err(Platform(p[0]))
    else if code == 4 then if ScalarWidth(|p|) then Ok(Unsigned(p)) else Err(Scalar)
    else if code == 5 then if ScalarWidth(|p|) then Ok(Signed(p)) else Err(Scalar)
    else if code == 6 then
      if p == [0] then Ok(Boolean(false)) else if p == [1] then Ok(Boolean(true)) else Err(Scalar)
    else if code == 7 then if |p| == 16 then Ok(Identity(p)) else Err(Scalar)
    else if code == 8 then if |p| == 32 then Ok(Digest(p)) else Err(Scalar)
    else if code == 9 then
      match DecodeSequence(decode, p, false)
      case Err(e) => Err(e)
      case Ok(values) => Ok(OrderedList(values))
    else if code == 10 then
      match DecodeSequence(decode, p, true)
      case Err(e) => Err(e)
      case Ok(values) => Ok(Members(values))
    else if code == 11 then
      match DecodeMap(decode, p)
      case Err(e) => Err(e)
      case Ok(entries) => Ok(Entries(entries))
    else DecodeUnion(decode, p)
  }

  function DecodeTyped(b: Bytes): Result<Value, Error>
    decreases |b|, 1
  {
    match Take(b, 0, 1)
    case Err(e) => Err(e)
    case Ok(code) =>
      if code[0] > 12 then Err(UnknownTypeCode(code[0]))
      else
        match ReadFrame(b, 1)
        case Err(e) => Err(e)
        case Ok(payload) =>
          if 5 + |payload| != |b| then Err(TrailingBytes) else DecodePayload(Below(|b|), code[0], payload)
  }

  /** The decoder for members of an n-byte value; a member is always shorter. */
  function Below(n: nat): Decoder
    decreases n, 0
  {
    b => if |b| < n then DecodeTyped(b) else Err(Truncated)
  }
}
