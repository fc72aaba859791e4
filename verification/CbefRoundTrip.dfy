/** Decoding an encoding gives back the value in canonical form. */
module CbefRoundTrip {
  import opened Prelude
  import opened Bytes
  import opened Utf8
  import opened Cbef
  import opened CbefCanonical

  // Canonical form.

  function KeyOf(u: Unicode): Value -> Bytes {
    (v: Value) => match EncodeTyped(u, v)
         case Ok(b) => b
         case Err(_) => []
  }

  function EntryKey(u: Unicode): Entry -> Bytes {
    (e: Entry) => KeyOf(u)(e.key)
  }

  /** Strings normalized, sets sorted by encoding without repeats, maps sorted by encoded key. */
  function Canon(u: Unicode, v: Value): Value
    decreases v, 1
  {
    match v
    case Text(text, rule) =>
      (match Normalized(u, text, rule)
       case Ok(normal) => Text(normal, Verbatim)
       case Err(_) => v)
    case OrderedList(items) => OrderedList(CanonAll(u, items))
    case Members(members) => Members(SortDistinct(KeyOf(u), CanonAll(u, members)))
    case Entries(entries) => Entries(SortDistinct(EntryKey(u), CanonEntries(u, entries)))
    case TaggedUnion(variant, value) => TaggedUnion(variant, Canon(u, value))
    case _ => v
  }

  function CanonAll(u: Unicode, vs: seq<Value>): (r: seq<Value>)
    ensures |r| == |vs|
    decreases vs, 0
  {
    if vs == [] then [] else [Canon(u, vs[0])] + CanonAll(u, vs[1..])
  }

  function CanonEntry(u: Unicode, e: Entry): Entry
    decreases e
  {
    Entry(Canon(u, e.key), Canon(u, e.value))
  }

  function CanonEntries(u: Unicode, es: seq<Entry>): (r: seq<Entry>)
    ensures |r| == |es|
    decreases es, 0
  {
    if es == [] then [] else [CanonEntry(u, es[0])] + CanonEntries(u, es[1..])
  }

  // Reading back frames.

  lemma ThreeParts(p: Bytes, cursor: nat, head: Bytes, item: Bytes, tail: Bytes)
    requires cursor <= |p| && p[cursor..] == head + item + tail
    ensures var middle := cursor + |head|; var end := middle + |item|;
            end <= |p| && p[cursor..middle] == head && p[middle..end] == item && p[end..] == tail
  {
    var rest := p[cursor..];
    assert |rest| == |p| - cursor;
    assert p[cursor..cursor + |head|] == rest[..|head|];
    assert p[cursor + |head|..cursor + |head| + |item|] == rest[|head|..|head| + |item|];
    assert p[cursor + |head| + |item|..] == rest[|head| + |item|..];
  }

  lemma FrameReads(p: Bytes, cursor: nat, head: Bytes, item: Bytes, tail: Bytes)
    requires cursor <= |p| && |head| == 4 && FromBigEndian(head) == |item|
    requires p[cursor..] == head + item + tail
    ensures ReadFrame(p, cursor) == Ok(item)
    ensures cursor + 4 + |item| <= |p| && p[cursor + 4 + |item|..] == tail
  {
    ThreeParts(p, cursor, head, item, tail);
  }

  /** The first of the frames at the cursor reads back, and the others follow it. */
  lemma FirstFrame(p: Bytes, cursor: nat, item: Bytes, items: seq<Bytes>) returns (next: nat)
    requires cursor <= |p| && FramedAll([item] + items) == Ok(p[cursor..])
    ensures ReadFrame(p, cursor) == Ok(item) && next == cursor + 4 + |item| <= |p|
    ensures FramedAll(items) == Ok(p[next..])
  {
    assert ([item] + items)[1..] == items;
    SizesArePowers();
    BigEndianRoundTrip(|item|, 4);
    FrameReads(p, cursor, BigEndian(|item|, 4), item, FramedAll(items).value);
    next := cursor + 4 + |item|;
  }

  lemma Uncons<T>(xs: seq<T>)
    requires xs != []
    ensures xs == [xs[0]] + xs[1..]
  {
  }

  lemma {:induction false} ItemsReadBack(decode: Decoder, p: Bytes, cursor: nat, items: seq<Bytes>, vs: seq<Value>)
    requires cursor <= |p| && FramedAll(items) == Ok(p[cursor..]) && |items| == |vs|
    requires forall i :: 0 <= i < |items| ==> decode(items[i]) == Ok(vs[i])
    ensures ReadItems(decode, p, cursor, |items|) == Ok(Run(items, vs, |p|))
    decreases |items|
  {
    hide ReadFrame;
    if items == [] {
      assert |p[cursor..]| == 0;
    } else {
      Uncons(items);
      Uncons(vs);
      var next := FirstFrame(p, cursor, items[0], items[1..]);
      ItemsReadBack(decode, p, next, items[1..], vs[1..]);
      FirstItemReads(decode, p, cursor, |items|, items[0], vs[0], Run(items[1..], vs[1..], |p|));
    }
  }

  lemma FirstItemReads(decode: Decoder, p: Bytes, cursor: nat, count: nat, item: Bytes, v: Value, rest: Run)
    requires count > 0 && ReadFrame(p, cursor) == Ok(item) && decode(item) == Ok(v)
    requires ReadItems(decode, p, cursor + 4 + |item|, count - 1) == Ok(rest)
    ensures ReadItems(decode, p, cursor, count) == Ok(Run([item] + rest.encoded, [v] + rest.values, rest.end))
  {
  }

  /** A key and its value at the cursor read back, and the other entries follow them. */
  lemma FirstTwoFrames(p: Bytes, cursor: nat, pairs: seq<(Bytes, Bytes)>) returns (next: nat)
    requires pairs != [] && cursor <= |p| && FramedPairs(pairs) == Ok(p[cursor..])
    ensures ReadFrame(p, cursor) == Ok(pairs[0].0) && ReadFrame(p, cursor + 4 + |pairs[0].0|) == Ok(pairs[0].1)
    ensures next == cursor + 4 + |pairs[0].0| + 4 + |pairs[0].1| <= |p|
    ensures FramedPairs(pairs[1..]) == Ok(p[next..])
  {
    hide BigEndian, FromBigEndian;
    var key, value, rest := pairs[0].0, pairs[0].1, FramedPairs(pairs[1..]).value;
    var middle := cursor + 4 + |key|;
    SizesArePowers();
    BigEndianRoundTrip(|key|, 4);
    BigEndianRoundTrip(|value|, 4);
    FrameReads(p, cursor, BigEndian(|key|, 4), key, BigEndian(|value|, 4) + value + rest);
    FrameReads(p, middle, BigEndian(|value|, 4), value, rest);
    next := middle + 4 + |value|;
  }

  ghost predicate EntriesDecode(decode: Decoder, pairs: seq<(Bytes, Bytes)>, es: seq<Entry>) {
    && |pairs| == |es|
    && forall i :: 0 <= i < |pairs| ==> decode(pairs[i].0) == Ok(es[i].key) && decode(pairs[i].1) == Ok(es[i].value)
  }

  ghost predicate KeysAscend(previous: Option<Bytes>, pairs: seq<(Bytes, Bytes)>) {
    Ascends(KeyBytes, pairs) && (previous.Some? && pairs != [] ==> Less(previous.value, pairs[0].0))
  }

  lemma KeysAscendTail(previous: Option<Bytes>, pairs: seq<(Bytes, Bytes)>)
    requires KeysAscend(previous, pairs) && pairs != []
    ensures KeysAscend(Some(pairs[0].0), pairs[1..])
  {
    AscendsTail(KeyBytes, pairs);
    if |pairs| > 1 { assert pairs[1..][0] in pairs[1..]; }
  }

  lemma {:induction false} EntriesReadBack(decode: Decoder, p: Bytes, cursor: nat, pairs: seq<(Bytes, Bytes)>,
                                           es: seq<Entry>, previous: Option<Bytes>)
    requires cursor <= |p| && FramedPairs(pairs) == Ok(p[cursor..])
    requires EntriesDecode(decode, pairs, es) && KeysAscend(previous, pairs)
    ensures ReadEntries(decode, p, cursor, |pairs|, previous) == Ok(EntryRun(pairs, es, |p|))
    decreases |pairs|
  {
    hide ReadFrame, Less;
    if pairs == [] {
      assert |p[cursor..]| == 0;
    } else {
      var next := FirstTwoFrames(p, cursor, pairs);
      KeysAscendTail(previous, pairs);
      EntriesReadBack(decode, p, next, pairs[1..], es[1..], Some(pairs[0].0));
      FirstEntryReads(decode, p, cursor, |pairs|, previous, pairs[0].0, pairs[0].1, es[0],
                      EntryRun(pairs[1..], es[1..], |p|));
      Uncons(pairs);
      Uncons(es);
    }
  }

  lemma {:induction false} FirstEntryReads(decode: Decoder, p: Bytes, cursor: nat, count: nat, previous: Option<Bytes>,
                                           key: Bytes, value: Bytes, e: Entry, rest: EntryRun)
    requires count > 0 && ReadFrame(p, cursor) == Ok(key) && ReadFrame(p, cursor + 4 + |key|) == Ok(value)
    requires previous.Some? ==> Less(previous.value, key)
    requires decode(key) == Ok(e.key) && decode(value) == Ok(e.value)
    requires ReadEntries(decode, p, cursor + 4 + |key| + 4 + |value|, count - 1, Some(key)) == Ok(rest)
    ensures ReadEntries(decode, p, cursor, count, previous) ==
            Ok(EntryRun([(key, value)] + rest.encoded, [e] + rest.entries, rest.end))
  {
    hide ReadFrame, Less;
    assert e == Entry(e.key, e.value);
  }

  // Sorting commutes with encoding.

  function Mapped<A, B>(f: A -> B, xs: seq<A>): (r: seq<B>)
    ensures |r| == |xs| && forall i :: 0 <= i < |xs| ==> r[i] == f(xs[i])
  {
    seq(|xs|, i requires 0 <= i < |xs| => f(xs[i]))
  }

  lemma MappedFirst<A, B>(f: A -> B, x: A, xs: seq<A>)
    ensures Mapped(f, [x] + xs) == [f(x)] + Mapped(f, xs)
  {
  }

  lemma {:induction false} InsertMapped<A, B>(f: A -> B, key: A -> Bytes, key': B -> Bytes, x: A, xs: seq<A>)
    requires key'(f(x)) == key(x) && forall y :: y in xs ==> key'(f(y)) == key(y)
    ensures Mapped(f, Insert(key, x, xs)) == Insert(key', f(x), Mapped(f, xs))
  {
    hide Less;
    MappedFirst(f, x, xs);
    if xs != [] {
      var first, rest := xs[0], xs[1..];
      assert first in xs && xs == [first] + rest;
      MappedFirst(f, first, rest);
      assert ([f(first)] + Mapped(f, rest))[1..] == Mapped(f, rest);
      if !Less(key(x), key(first)) && key(x) != key(first) {
        InsertMapped(f, key, key', x, rest);
        MappedFirst(f, first, Insert(key, x, rest));
      }
    }
  }

  lemma {:induction false} SortMapped<A, B>(f: A -> B, key: A -> Bytes, key': B -> Bytes, xs: seq<A>)
    requires forall y :: y in xs ==> key'(f(y)) == key(y)
    ensures Mapped(f, SortDistinct(key, xs)) == SortDistinct(key', Mapped(f, xs))
  {
    if xs != [] {
      var rest := SortDistinct(key, xs[1..]);
      SortMapped(f, key, key', xs[1..]);
      SortDistinctMeaning(key, xs[1..]);
      assert xs[0] in xs && forall y :: y in rest ==> y in xs;
      InsertMapped(f, key, key', xs[0], rest);
      assert Mapped(f, xs) == [f(xs[0])] + Mapped(f, xs[1..]);
    }
  }

  // Containers read back.

  lemma {:induction false} FramedShort(items: seq<Bytes>, i: nat)
    requires FramedAll(items).Ok? && i < |items|
    ensures |items[i]| + 4 <= |FramedAll(items).value|
  {
    if i > 0 { FramedShort(items[1..], i - 1); }
  }

  lemma CountReads(count: nat, body: Bytes)
    requires count < U32_SIZE
    ensures ReadNumber(BigEndian(count, 4) + body, 0, 4) == Ok(count)
    ensures (BigEndian(count, 4) + body)[4..] == body
  {
    SizesArePowers();
    BigEndianRoundTrip(count, 4);
    assert (BigEndian(count, 4) + body)[0..4] == BigEndian(count, 4);
  }

  lemma SequenceReadsBack(decode: Decoder, p: Bytes, items: seq<Bytes>, vs: seq<Value>, sorted: bool)
    requires Counted(|items|, FramedAll(items)) == Ok(p) && |items| == |vs|
    requires forall i :: 0 <= i < |items| ==> decode(items[i]) == Ok(vs[i])
    requires sorted ==> Ascends(Whole, items)
    ensures DecodeSequence(decode, p, sorted) == Ok(vs)
  {
    CountedReads(|items|, FramedAll(items), p);
    ItemsReadBack(decode, p, 4, items, vs);
  }

  lemma MapReadsBack(decode: Decoder, p: Bytes, pairs: seq<(Bytes, Bytes)>, es: seq<Entry>)
    requires Counted(|pairs|, FramedPairs(pairs)) == Ok(p) && EntriesDecode(decode, pairs, es)
    requires Ascends(KeyBytes, pairs)
    ensures DecodeMap(decode, p) == Ok(es)
  {
    CountedReads(|pairs|, FramedPairs(pairs), p);
    FirstEntriesReadBack(decode, p, pairs, es);
    MapDecodes(decode, p, |pairs|, EntryRun(pairs, es, |p|));
  }

  lemma CountedReads(count: nat, framed: Result<Bytes, Error>, p: Bytes)
    requires Counted(count, framed) == Ok(p)
    ensures 4 <= |p| && ReadNumber(p, 0, 4) == Ok(count) && framed == Ok(p[4..])
  {
    CountReads(count, framed.value);
  }

  lemma FirstEntriesReadBack(decode: Decoder, p: Bytes, pairs: seq<(Bytes, Bytes)>, es: seq<Entry>)
    requires 4 <= |p| && FramedPairs(pairs) == Ok(p[4..])
    requires EntriesDecode(decode, pairs, es) && Ascends(KeyBytes, pairs)
    ensures ReadEntries(decode, p, 4, |pairs|, None) == Ok(EntryRun(pairs, es, |p|))
  {
    EntriesReadBack(decode, p, 4, pairs, es, None);
  }

  lemma MapDecodes(decode: Decoder, p: Bytes, count: nat, run: EntryRun)
    requires ReadNumber(p, 0, 4) == Ok(count)
    requires ReadEntries(decode, p, 4, count, None) == Ok(run) && run.end == |p|
    ensures DecodeMap(decode, p) == Ok(run.entries)
  {
  }

  lemma UnionReadsBack(decode: Decoder, variant: nat, item: Bytes, v: Value)
    requires variant < U16_SIZE && |item| < U32_SIZE && decode(item) == Ok(v)
    ensures DecodeUnion(decode, BigEndian(variant, 2) + BigEndian(|item|, 4) + item) == Ok(TaggedUnion(variant, v))
  {
    var p := BigEndian(variant, 2) + BigEndian(|item|, 4) + item;
    SizesArePowers();
    BigEndianRoundTrip(variant, 2);
    BigEndianRoundTrip(|item|, 4);
    assert p[0..2] == BigEndian(variant, 2);
    assert p[2..] == BigEndian(|item|, 4) + item + [];
    FrameReads(p, 2, BigEndian(|item|, 4), item, []);
  }

  // Values read back in canonical form.

  ghost predicate ReadsBack(v: Value, b: Bytes) {
    DecodeTyped(b) == Ok(v)
  }

  ghost predicate AllReadBack(ws: seq<Value>, items: seq<Bytes>) {
    |ws| == |items| && forall i :: 0 <= i < |ws| ==> ReadsBack(ws[i], items[i])
  }

  lemma KeyReadsBack(u: Unicode, w: Value, b: Bytes)
    requires ReadsBack(w, b)
    ensures KeyOf(u)(w) == b
  {
    ReencodeTyped(u, b);
  }

  /** Sorting canonical members by encoding matches sorting their encodings. */
  lemma SortedReadBack(u: Unicode, ws: seq<Value>, items: seq<Bytes>)
    requires AllReadBack(ws, items)
    ensures AllReadBack(SortDistinct(KeyOf(u), ws), SortDistinct(Whole, items))
    ensures Ascends(Whole, SortDistinct(Whole, items))
  {
    var sorted := SortDistinct(KeyOf(u), ws);
    forall i | 0 <= i < |ws| ensures KeyOf(u)(ws[i]) == items[i] { KeyReadsBack(u, ws[i], items[i]); }
    assert items == Mapped(KeyOf(u), ws);
    SortMapped(KeyOf(u), KeyOf(u), Whole, ws);
    SortDistinctMeaning(KeyOf(u), ws);
    SortDistinctMeaning(Whole, items);
    forall i | 0 <= i < |sorted| ensures ReadsBack(sorted[i], SortDistinct(Whole, items)[i]) {
      assert sorted[i] in ws;
      var j :| 0 <= j < |ws| && ws[j] == sorted[i];
      assert ReadsBack(ws[j], items[j]);
    }
  }

  // Maps: entries sort by key, and so do their encodings.

  ghost predicate EntriesReadBackAs(es: seq<Entry>, pairs: seq<(Bytes, Bytes)>) {
    && |es| == |pairs|
    && forall i :: 0 <= i < |es| ==> ReadsBack(es[i].key, pairs[i].0) && ReadsBack(es[i].value, pairs[i].1)
  }

  function PairOf(u: Unicode): Entry -> (Bytes, Bytes) {
    (e: Entry) => (KeyOf(u)(e.key), KeyOf(u)(e.value))
  }

  lemma SortedEntriesReadBack(u: Unicode, es: seq<Entry>, pairs: seq<(Bytes, Bytes)>)
    requires EntriesReadBackAs(es, pairs)
    ensures EntriesReadBackAs(SortDistinct(EntryKey(u), es), SortDistinct(KeyBytes, pairs))
    ensures Ascends(KeyBytes, SortDistinct(KeyBytes, pairs))
  {
    hide EncodeTyped, DecodeTyped, KeyOf;
    var sorted := SortDistinct(EntryKey(u), es);
    forall i | 0 <= i < |es| ensures PairOf(u)(es[i]) == pairs[i] {
      KeyReadsBack(u, es[i].key, pairs[i].0);
      KeyReadsBack(u, es[i].value, pairs[i].1);
    }
    assert pairs == Mapped(PairOf(u), es);
    SortMapped(PairOf(u), EntryKey(u), KeyBytes, es);
    SortDistinctMeaning(EntryKey(u), es);
    SortDistinctMeaning(KeyBytes, pairs);
    forall i | 0 <= i < |sorted|
      ensures ReadsBack(sorted[i].key, SortDistinct(KeyBytes, pairs)[i].0)
      ensures ReadsBack(sorted[i].value, SortDistinct(KeyBytes, pairs)[i].1)
    {
      assert sorted[i] in es;
      var j :| 0 <= j < |es| && es[j] == sorted[i];
      assert ReadsBack(es[j].key, pairs[j].0) && ReadsBack(es[j].value, pairs[j].1);
      assert SortDistinct(KeyBytes, pairs)[i] == PairOf(u)(sorted[i]) == pairs[j];
    }
  }

  /** A normalized string is again well-formed text. */
  lemma NormalizedIsText(u: Unicode, text: Bytes, rule: Normalization)
    requires Sound(u) && WellFormed(text) && Normalized(u, text, rule).Ok?
    ensures WellFormed(Normalized(u, text, rule).value)
  {
    if rule.AsciiLowered? {
      AsciiLowerIsAscii(text);
      AsciiIsWellFormed(AsciiLower(text));
    }
  }

  /** Only lowering can fail, exactly on text beyond ASCII; it lowers byte by byte, and once is enough. */
  lemma NormalizedBy(u: Unicode, text: Bytes, rule: Normalization)
    ensures Normalized(u, text, rule).Err? <==> rule.AsciiLowered? && exists i :: 0 <= i < |text| && text[i] > 127
    ensures Normalized(u, text, rule).Err? ==> Normalized(u, text, rule).error == Scalar
    ensures rule.Verbatim? || rule.RustCanonical? ==> Normalized(u, text, rule) == Ok(text)
    ensures rule.Nfc? ==> Normalized(u, text, rule) == Ok(u.nfc(text))
    ensures rule.Nfkc? || rule.PythonIdentifierNfkc? ==> Normalized(u, text, rule) == Ok(u.nfkc(text))
    ensures rule.AsciiLowered? && Normalized(u, text, rule).Ok? ==>
              var lowered := Normalized(u, text, rule).value;
              && |lowered| == |text|
              && (forall i :: 0 <= i < |text| ==> lowered[i] == if 65 <= text[i] <= 90 then text[i] + 32 else text[i])
              && Normalized(u, lowered, rule) == Ok(lowered)
  {
    if rule.AsciiLowered? && IsAscii(text) {
      var lowered := AsciiLower(text);
      assert AsciiLower(lowered) == lowered;
    }
  }

  lemma SequencePayloadReadsBack(p: Bytes, n: nat, items: seq<Bytes>, ws: seq<Value>, sorted: bool)
    requires Counted(|items|, FramedAll(items)) == Ok(p) && |p| < n && AllReadBack(ws, items)
    requires sorted ==> Ascends(Whole, items)
    ensures DecodeSequence(Below(n), p, sorted) == Ok(ws)
  {
    hide DecodeTyped, DecodeSequence;
    forall i | 0 <= i < |items| ensures Below(n)(items[i]) == Ok(ws[i]) {
      FramedShort(items, i);
      assert ReadsBack(ws[i], items[i]);
    }
    SequenceReadsBack(Below(n), p, items, ws, sorted);
  }

  lemma {:induction false} PairsShort(pairs: seq<(Bytes, Bytes)>, i: nat)
    requires FramedPairs(pairs).Ok? && i < |pairs|
    ensures |pairs[i].0| + |pairs[i].1| + 8 <= |FramedPairs(pairs).value|
  {
    if i > 0 { PairsShort(pairs[1..], i - 1); }
  }

  lemma MapPayloadReadsBack(p: Bytes, n: nat, pairs: seq<(Bytes, Bytes)>, ws: seq<Entry>)
    requires Counted(|pairs|, FramedPairs(pairs)) == Ok(p) && |p| < n && EntriesReadBackAs(ws, pairs)
    requires Ascends(KeyBytes, pairs)
    ensures DecodeMap(Below(n), p) == Ok(ws)
  {
    hide DecodeTyped, DecodeMap;
    forall i | 0 <= i < |pairs|
      ensures Below(n)(pairs[i].0) == Ok(ws[i].key) && Below(n)(pairs[i].1) == Ok(ws[i].value)
    {
      PairsShort(pairs, i);
      assert ReadsBack(ws[i].key, pairs[i].0) && ReadsBack(ws[i].value, pairs[i].1);
    }
    MapReadsBack(Below(n), p, pairs, ws);
  }

  lemma TypedFrame(code: Byte, p: Bytes, b: Bytes)
    requires |p| < U32_SIZE && b == [code] + BigEndian(|p|, 4) + p
    ensures |b| == 5 + |p| && Take(b, 0, 1) == Ok([code]) && ReadFrame(b, 1) == Ok(p)
  {
    hide BigEndian, FromBigEndian;
    SizesArePowers();
    BigEndianRoundTrip(|p|, 4);
    assert b[1..] == BigEndian(|p|, 4) + p + [];
    FrameReads(b, 1, BigEndian(|p|, 4), p, []);
    assert b[0..1] == [code];
  }

  lemma TypedDecodes(code: Byte, p: Bytes, w: Value, b: Bytes)
    requires code <= 12 && |p| < U32_SIZE && b == [code] + BigEndian(|p|, 4) + p
    requires DecodePayload(Below(|b|), code, p) == Ok(w)
    ensures ReadsBack(w, b)
  {
    hide DecodePayload, Below, ReadFrame, BigEndian;
    TypedFrame(code, p, b);
  }

  /** decode(encode(v)) is the canonical form of v, for every value that encodes. */
  lemma {:induction false} DecodeOfEncode(u: Unicode, v: Value, b: Bytes)
    requires Sound(u) && Typed(v) && EncodeTyped(u, v) == Ok(b)
    ensures ReadsBack(Canon(u, v), b)
    decreases v, 2
  {
    hide DecodePayload, Canon, Typed, Sound, DecodeTyped;
    var p := EncodePayload(u, v).value;
    PayloadReadsBack(u, v, p, |b|);
    TypedDecodes(TypeCode(v), p, Canon(u, v), b);
  }

  lemma {:induction false} PayloadReadsBack(u: Unicode, v: Value, p: Bytes, n: nat)
    requires Sound(u) && Typed(v) && EncodePayload(u, v) == Ok(p) && |p| < n
    ensures DecodePayload(Below(n), TypeCode(v), p) == Ok(Canon(u, v))
    decreases v, 1
  {
    hide DecodeSequence, DecodeMap, DecodeUnion, DecodeTyped, Sound, WellFormed, Below, FramedAll, FramedPairs,
         SortDistinct, BigEndian, Ascends, AllReadBack, EntriesReadBackAs, ReadsBack, KeyOf, EntryKey, CanonAll,
         CanonEntries;
    match v {
      case Text(text, rule) => NormalizedIsText(u, text, rule);
      case RawPath(platform, path) => assert p[1..] == path;
      case OrderedList(items) =>
        var encoded := EncodeAll(u, items).value;
        AllDecode(u, items, encoded);
        SequencePayloadReadsBack(p, n, encoded, CanonAll(u, items), false);
      case Members(members) =>
        var encoded := EncodeAll(u, members).value;
        AllDecode(u, members, encoded);
        SortedReadBack(u, CanonAll(u, members), encoded);
        SequencePayloadReadsBack(p, n, SortDistinct(Whole, encoded), SortDistinct(KeyOf(u), CanonAll(u, members)),
                                 true);
      case Entries(entries) =>
        var pairs := EncodeEntries(u, entries).value;
        EntriesDecodeBack(u, entries, pairs);
        SortedEntriesReadBack(u, CanonEntries(u, entries), pairs);
        MapPayloadReadsBack(p, n, SortDistinct(KeyBytes, pairs), SortDistinct(EntryKey(u), CanonEntries(u, entries)));
      case TaggedUnion(variant, value) =>
        var encoded := EncodeTyped(u, value).value;
        DecodeOfEncode(u, value, encoded);
        UnionPayloadReadsBack(n, variant, encoded, Canon(u, value));
      case _ =>
    }
  }

  lemma UnionPayloadReadsBack(n: nat, variant: nat, item: Bytes, w: Value)
    requires variant < U16_SIZE && |item| < U32_SIZE && ReadsBack(w, item) && 6 + |item| < n
    ensures DecodeUnion(Below(n), BigEndian(variant, 2) + BigEndian(|item|, 4) + item) == Ok(TaggedUnion(variant, w))
  {
    hide DecodeTyped, DecodeUnion;
    UnionReadsBack(Below(n), variant, item, w);
  }

  lemma {:induction false} AllDecode(u: Unicode, vs: seq<Value>, items: seq<Bytes>)
    requires Sound(u) && (forall x :: x in vs ==> Typed(x)) && EncodeAll(u, vs) == Ok(items)
    ensures AllReadBack(CanonAll(u, vs), items)
    decreases vs, 0
  {
    hide Sound, Typed, EncodeTyped, Canon, ReadsBack;
    if vs != [] {
      DecodeOfEncode(u, vs[0], items[0]);
      AllDecode(u, vs[1..], items[1..]);
    }
  }

  lemma {:induction false} EntriesDecodeBack(u: Unicode, es: seq<Entry>, pairs: seq<(Bytes, Bytes)>)
    requires Sound(u) && (forall e :: e in es ==> Typed(e.key) && Typed(e.value)) && EncodeEntries(u, es) == Ok(pairs)
    ensures EntriesReadBackAs(CanonEntries(u, es), pairs)
    decreases es, 0
  {
    hide Sound, Typed, EncodeTyped, Canon, ReadsBack;
    if es != [] {
      assert es[0] in es;
      EntryDecodesBack(u, es[0], pairs[0]);
      EntriesDecodeBack(u, es[1..], pairs[1..]);
    }
  }

  lemma {:induction false} EntryDecodesBack(u: Unicode, e: Entry, pair: (Bytes, Bytes))
    requires Sound(u) && Typed(e.key) && Typed(e.value) && EncodeEntry(u, e) == Ok(pair)
    ensures ReadsBack(Canon(u, e.key), pair.0) && ReadsBack(Canon(u, e.value), pair.1)
    decreases e
  {
    hide Sound, Typed, EncodeTyped, Canon, ReadsBack;
    DecodeOfEncode(u, e.key, pair.0);
    DecodeOfEncode(u, e.value, pair.1);
  }

  // What canonical form means.

  /** Encoding does not tell a value from its canonical form, which is itself canonical. */
  lemma CanonIsCanonical(u: Unicode, v: Value)
    requires Sound(u) && Typed(v) && EncodeTyped(u, v).Ok?
    ensures EncodeTyped(u, Canon(u, v)) == EncodeTyped(u, v)
    ensures Typed(Canon(u, v)) && Canon(u, Canon(u, v)) == Canon(u, v)
  {
    hide EncodeTyped, Canon, Typed, Sound, DecodeTyped;
    var b := EncodeTyped(u, v).value;
    DecodeOfEncode(u, v, b);
    ReencodeTyped(u, b);
    DecodeOfEncode(u, Canon(u, v), b);
  }

  lemma SortedKeepsReadable(u: Unicode, ws: seq<Value>, items: seq<Bytes>, w: Value)
    requires AllReadBack(ws, items) && w in ws
    ensures w in SortDistinct(KeyOf(u), ws)
  {
    hide KeyOf, ReadsBack;
    SortDistinctMeaning(KeyOf(u), ws);
    assert HasKey(KeyOf(u), SortDistinct(KeyOf(u), ws), KeyOf(u)(w));
    var x :| x in SortDistinct(KeyOf(u), ws) && KeyOf(u)(x) == KeyOf(u)(w);
    var i :| 0 <= i < |ws| && ws[i] == w;
    var j :| 0 <= j < |ws| && ws[j] == x;
    KeyReadsBack(u, ws[i], items[i]);
    KeyReadsBack(u, ws[j], items[j]);
    ReadsBackOnce(w, x, items[i]);
  }

  lemma ReadsBackOnce(v: Value, w: Value, b: Bytes)
    requires ReadsBack(v, b) && ReadsBack(w, b)
    ensures v == w
  {
  }

  /** A canonical set lists the canonical members once each, in ascending order of their encodings. */
  lemma CanonSet(u: Unicode, members: seq<Value>)
    requires Sound(u) && (forall x :: x in members ==> Typed(x)) && EncodeAll(u, members).Ok?
    ensures Canon(u, Members(members)).Members?
    ensures var sorted := Canon(u, Members(members)).members;
            Ascends(KeyOf(u), sorted) && forall w :: w in sorted <==> w in CanonAll(u, members)
  {
    hide EncodeAll, CanonAll, KeyOf, Sound, Typed, AllReadBack;
    var ws := CanonAll(u, members);
    AllDecode(u, members, EncodeAll(u, members).value);
    SortDistinctMeaning(KeyOf(u), ws);
    forall w | w in ws ensures w in SortDistinct(KeyOf(u), ws) {
      SortedKeepsReadable(u, ws, EncodeAll(u, members).value, w);
    }
  }

  /** A canonical map lists each canonical entry once, none lost, in ascending order of the encoded keys. */
  lemma CanonMap(u: Unicode, es: seq<Entry>)
    requires Sound(u) && (forall e :: e in es ==> Typed(e.key) && Typed(e.value)) && EncodeTyped(u, Entries(es)).Ok?
    ensures Canon(u, Entries(es)).Entries?
    ensures var sorted := Canon(u, Entries(es)).entries;
            Ascends(EntryKey(u), sorted) && multiset(sorted) == multiset(CanonEntries(u, es))
  {
    hide EncodeEntries, CanonEntries, EntryKey, Sound, Typed, EntriesReadBackAs, Ascends, SortDistinct;
    var ws, pairs := CanonEntries(u, es), EncodeEntries(u, es).value;
    EntriesDecodeBack(u, es, pairs);
    SortedEntriesReadBack(u, ws, pairs);
    SameLengths(ws, pairs);
    SameLengths(SortDistinct(EntryKey(u), ws), SortDistinct(KeyBytes, pairs));
    SortDistinctMeaning(EntryKey(u), ws);
    SortKeepsAllIff(EntryKey(u), ws);
  }

  lemma SameLengths(es: seq<Entry>, pairs: seq<(Bytes, Bytes)>)
    requires EntriesReadBackAs(es, pairs)
    ensures |es| == |pairs|
  {
  }

  /** A number is encoded exactly if it has 1, 2, 4, 8 or 16 bytes, and a path exactly if its platform is one of three
      and its length has four bytes. */
  lemma LeafEncodesIff(u: Unicode, magnitude: Bytes, platform: Byte, path: Bytes)
    ensures EncodeTyped(u, Unsigned(magnitude)).Ok? <==>
            |magnitude| == 1 || |magnitude| == 2 || |magnitude| == 4 || |magnitude| == 8 || |magnitude| == 16
    ensures EncodeTyped(u, Signed(magnitude)).Ok? <==> EncodeTyped(u, Unsigned(magnitude)).Ok?
    ensures EncodeTyped(u, Unsigned(magnitude)).Err? ==> EncodeTyped(u, Unsigned(magnitude)).error == Scalar
    ensures EncodeTyped(u, RawPath(platform, path)).Ok? <==>
            (platform == 1 || platform == 2 || platform == 3) && |path| + 1 < 4294967296
    ensures EncodeTyped(u, RawPath(platform, path)) == Err(Platform(platform)) <==>
            platform != 1 && platform != 2 && platform != 3
  {
    hide BigEndian;
    assert |magnitude| in {1, 2, 4, 8, 16} <==>
           |magnitude| == 1 || |magnitude| == 2 || |magnitude| == 4 || |magnitude| == 8 || |magnitude| == 16;
  }

  /** A map is refused for its keys exactly when two of them share an encoding. */
  lemma MapRefusedIff(u: Unicode, es: seq<Entry>)
    requires EncodeEntries(u, es).Ok?
    ensures EncodePayload(u, Entries(es)) == Err(ContainerOrder) <==> !KeysDiffer(KeyBytes, EncodeEntries(u, es).value)
  {
    hide EncodeEntries, SortDistinct, KeysDiffer, FramedPairs;
    var pairs := EncodeEntries(u, es).value;
    SortKeepsAllIff(KeyBytes, pairs);
    FramesOnlyFailByLength(SortDistinct(KeyBytes, pairs));
  }

  lemma {:induction false} FramesOnlyFailByLength(pairs: seq<(Bytes, Bytes)>)
    ensures FramedPairs(pairs).Err? ==> FramedPairs(pairs).error == Scalar
  {
    if pairs != [] { FramesOnlyFailByLength(pairs[1..]); }
  }

  /** Two values share an encoding exactly when they share a canonical form. */
  lemma EqualBytesIffEqualCanon(u: Unicode, v: Value, w: Value)
    requires Sound(u) && Typed(v) && Typed(w) && EncodeTyped(u, v).Ok? && EncodeTyped(u, w).Ok?
    ensures EncodeTyped(u, v) == EncodeTyped(u, w) <==> Canon(u, v) == Canon(u, w)
  {
    hide EncodeTyped, Canon, Typed, Sound, DecodeTyped;
    DecodeOfEncode(u, v, EncodeTyped(u, v).value);
    DecodeOfEncode(u, w, EncodeTyped(u, w).value);
    CanonIsCanonical(u, v);
    CanonIsCanonical(u, w);
  }

  // Sets encode by their members alone.

  /** Sorting without repeats depends only on which byte strings there are. */
  lemma SortDependsOnMembers(a: seq<Bytes>, b: seq<Bytes>)
    requires forall x :: x in a <==> x in b
    ensures SortDistinct(Whole, a) == SortDistinct(Whole, b)
  {
    SortKeepsMembers(a);
    SortKeepsMembers(b);
    AscendingUnique(SortDistinct(Whole, a), SortDistinct(Whole, b));
  }

  lemma SortKeepsMembers(a: seq<Bytes>)
    ensures Ascends(Whole, SortDistinct(Whole, a)) && forall x :: x in a <==> x in SortDistinct(Whole, a)
  {
    SortDistinctMeaning(Whole, a);
    forall x | x in a ensures x in SortDistinct(Whole, a) {
      assert HasKey(Whole, SortDistinct(Whole, a), Whole(x));
    }
  }

  /** Framed lists with equal bytes are equal lists. */
  lemma CountedInjective(a: seq<Bytes>, b: seq<Bytes>)
    requires Counted(|a|, FramedAll(a)).Ok? && Counted(|a|, FramedAll(a)) == Counted(|b|, FramedAll(b))
    ensures a == b
  {
    var p := Counted(|a|, FramedAll(a)).value;
    var decode: Decoder := x => Ok(Blob(x));
    CountedReads(|a|, FramedAll(a), p);
    CountedReads(|b|, FramedAll(b), p);
    ItemsReadBack(decode, p, 4, a, Mapped(x => Blob(x), a));
    ItemsReadBack(decode, p, 4, b, Mapped(x => Blob(x), b));
  }

  lemma {:induction false} EncodeAllAt(u: Unicode, vs: seq<Value>, i: nat)
    requires i < |vs| && EncodeAll(u, vs).Ok?
    ensures |EncodeAll(u, vs).value| == |vs| && EncodeTyped(u, vs[i]) == Ok(EncodeAll(u, vs).value[i])
    decreases i
  {
    hide EncodeTyped;
    if i > 0 { EncodeAllAt(u, vs[1..], i - 1); } else { EncodeAllLength(u, vs); }
  }

  lemma {:induction false} EncodeAllLength(u: Unicode, vs: seq<Value>)
    requires EncodeAll(u, vs).Ok?
    ensures |EncodeAll(u, vs).value| == |vs|
  {
    hide EncodeTyped;
    if vs != [] { EncodeAllLength(u, vs[1..]); }
  }

  /** Two sets share an encoding exactly when the same member encodings occur in both. */
  lemma SetBytesIffSameMembers(u: Unicode, xs: seq<Value>, ys: seq<Value>)
    requires EncodeAll(u, xs).Ok? && EncodeTyped(u, Members(xs)).Ok?
    requires EncodeAll(u, ys).Ok? && EncodeTyped(u, Members(ys)).Ok?
    ensures EncodeTyped(u, Members(xs)) == EncodeTyped(u, Members(ys)) <==>
            forall b :: b in EncodeAll(u, xs).value <==> b in EncodeAll(u, ys).value
  {
    var a, b := EncodeAll(u, xs).value, EncodeAll(u, ys).value;
    var p, q := EncodePayload(u, Members(xs)).value, EncodePayload(u, Members(ys)).value;
    if EncodeTyped(u, Members(xs)) == EncodeTyped(u, Members(ys)) {
      TypedPayload(10, p, q);
      CountedInjective(SortDistinct(Whole, a), SortDistinct(Whole, b));
      SortKeepsMembers(a);
      SortKeepsMembers(b);
    }
    if forall x :: x in a <==> x in b {
      SortDependsOnMembers(a, b);
    }
  }

  lemma TypedPayload(code: Byte, p: Bytes, q: Bytes)
    requires [code] + BigEndian(|p|, 4) + p == [code] + BigEndian(|q|, 4) + q
    ensures p == q
  {
    assert p == ([code] + BigEndian(|p|, 4) + p)[5..] && q == ([code] + BigEndian(|q|, 4) + q)[5..];
  }

  /** Reordering or repeating the members of a set leaves its encoding as it is. */
  lemma MembersOrderIrrelevant(u: Unicode, xs: seq<Value>, ys: seq<Value>)
    requires forall v :: v in xs <==> v in ys
    requires EncodeTyped(u, Members(xs)).Ok? && EncodeAll(u, ys).Ok?
    ensures EncodeTyped(u, Members(ys)) == EncodeTyped(u, Members(xs))
  {
    var a, b := EncodeAll(u, xs).value, EncodeAll(u, ys).value;
    SameEncodings(u, xs, ys);
    SameEncodings(u, ys, xs);
    SortDependsOnMembers(a, b);
  }

  lemma SameEncodings(u: Unicode, xs: seq<Value>, ys: seq<Value>)
    requires EncodeAll(u, xs).Ok? && EncodeAll(u, ys).Ok? && forall v :: v in xs ==> v in ys
    ensures forall b :: b in EncodeAll(u, xs).value ==> b in EncodeAll(u, ys).value
  {
    hide EncodeAll, EncodeTyped;
    var a, c := EncodeAll(u, xs).value, EncodeAll(u, ys).value;
    forall b | b in a ensures b in c {
      var i :| 0 <= i < |a| && a[i] == b;
      EncodeAllLength(u, xs);
      EncodeAllAt(u, xs, i);
      assert xs[i] in ys;
      var j :| 0 <= j < |ys| && ys[j] == xs[i];
      EncodeAllAt(u, ys, j);
    }
  }
}
