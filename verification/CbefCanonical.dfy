/** CBEF-v1 encodings and values correspond one to one. */
module CbefCanonical {
  import opened Prelude
  import opened Bytes
  import opened Cbef

  lemma {:induction false} SortAscending<T>(key: T -> Bytes, items: seq<T>)
    requires Ascends(key, items)
    ensures SortDistinct(key, items) == items
  {
    if items != [] {
      AscendsTail(key, items);
      SortAscending(key, items[1..]);
      if |items| > 1 { assert items[1] in items[1..]; }
    }
  }

  /** Members at equal positions are related. */
  ghost predicate Pairwise<A, B>(related: (A, B) -> bool, xs: seq<A>, ys: seq<B>) {
    |xs| == |ys| && forall i :: 0 <= i < |xs| ==> related(xs[i], ys[i])
  }

  lemma PairwiseCons<A, B>(related: (A, B) -> bool, x: A, y: B, xs: seq<A>, ys: seq<B>)
    requires related(x, y) && Pairwise(related, xs, ys)
    ensures Pairwise(related, [x] + xs, [y] + ys)
  {
    forall i | 0 <= i < |[x] + xs| ensures related(([x] + xs)[i], ([y] + ys)[i]) {
      if i > 0 { assert related(xs[i - 1], ys[i - 1]); }
    }
  }

  // The shape of what a strict reader accepts.

  lemma NumberShape(b: Bytes, cursor: nat, width: nat)
    requires ReadNumber(b, cursor, width).Ok?
    ensures cursor + width <= |b| && ReadNumber(b, cursor, width).value < Power256(width)
    ensures b[cursor..cursor + width] == BigEndian(ReadNumber(b, cursor, width).value, width)
  {
    FromBigEndianRoundTrip(b[cursor..cursor + width]);
  }

  lemma FrameShape(b: Bytes, cursor: nat)
    requires ReadFrame(b, cursor).Ok?
    ensures var item := ReadFrame(b, cursor).value;
            && |item| < U32_SIZE && cursor + 4 + |item| <= |b|
            && b[cursor..cursor + 4 + |item|] == BigEndian(|item|, 4) + item
  {
    NumberShape(b, cursor, 4);
    SizesArePowers();
    var item := ReadFrame(b, cursor).value;
    assert b[cursor..cursor + 4 + |item|] == b[cursor..cursor + 4] + b[cursor + 4..cursor + 4 + |item|];
  }

  /** A member's encoding inside p, and what it decodes to. */
  ghost function ItemOf(decode: Decoder, p: Bytes): (Bytes, Value) -> bool {
    (b: Bytes, v: Value) => |b| < |p| && decode(b) == Ok(v)
  }

  ghost function EntryOf(decode: Decoder, p: Bytes): ((Bytes, Bytes), Entry) -> bool {
    (pair: (Bytes, Bytes), e: Entry) =>
      && |pair.0| < |p| && decode(pair.0) == Ok(e.key)
      && |pair.1| < |p| && decode(pair.1) == Ok(e.value)
  }

  lemma FrameFirst(item: Bytes, rest: seq<Bytes>, p: Bytes, cursor: nat, next: nat, end: nat)
    requires cursor <= next <= end <= |p| && |item| < U32_SIZE
    requires p[cursor..next] == BigEndian(|item|, 4) + item && FramedAll(rest) == Ok(p[next..end])
    ensures FramedAll([item] + rest) == Ok(p[cursor..end])
  {
    assert ([item] + rest)[1..] == rest;
    assert p[cursor..end] == p[cursor..next] + p[next..end];
  }

  ghost predicate ItemsRead(decode: Decoder, p: Bytes, cursor: nat, count: nat, run: Run) {
    && |run.encoded| == count && cursor <= run.end <= |p|
    && FramedAll(run.encoded) == Ok(p[cursor..run.end])
    && Pairwise(ItemOf(decode, p), run.encoded, run.values)
  }

  lemma {:induction false} ReadItemsShape(decode: Decoder, p: Bytes, cursor: nat, count: nat)
    requires cursor <= |p| && ReadItems(decode, p, cursor, count).Ok?
    ensures ItemsRead(decode, p, cursor, count, ReadItems(decode, p, cursor, count).value)
    decreases count
  {
    if count == 0 {
      assert p[cursor..cursor] == [];
    } else {
      var item := ReadFrame(p, cursor).value;
      FrameShape(p, cursor);
      var next := cursor + 4 + |item|;
      ReadItemsShape(decode, p, next, count - 1);
      var rest := ReadItems(decode, p, next, count - 1).value;
      FrameFirst(item, rest.encoded, p, cursor, next, rest.end);
      PairwiseCons(ItemOf(decode, p), item, decode(item).value, rest.encoded, rest.values);
    }
  }

  lemma AscendsCons<T>(key: T -> Bytes, first: T, rest: seq<T>)
    requires Ascends(key, rest) && (rest != [] ==> Less(key(first), key(rest[0])))
    ensures Ascends(key, [first] + rest)
  {
    var all := [first] + rest;
    forall i | 0 < i < |all| ensures Less(key(all[i - 1]), key(all[i])) {
      if i > 1 { assert Less(key(rest[i - 1 - 1]), key(rest[i - 1])); }
    }
  }

  lemma EntryFrames(key: Bytes, value: Bytes, tail: seq<(Bytes, Bytes)>, p: Bytes,
                    cursor: nat, middle: nat, next: nat, end: nat)
    requires cursor <= middle <= next <= end <= |p| && |key| < U32_SIZE && |value| < U32_SIZE
    requires p[cursor..middle] == BigEndian(|key|, 4) + key && p[middle..next] == BigEndian(|value|, 4) + value
    requires FramedPairs(tail) == Ok(p[next..end])
    ensures FramedPairs([(key, value)] + tail) == Ok(p[cursor..end])
  {
    assert ([(key, value)] + tail)[1..] == tail;
    assert p[middle..end] == p[middle..next] + p[next..end];
    assert p[cursor..end] == p[cursor..middle] + p[middle..end];
  }

  ghost predicate EntriesFramed(p: Bytes, cursor: nat, previous: Option<Bytes>, pairs: seq<(Bytes, Bytes)>, end: nat) {
    && cursor <= end <= |p| && FramedPairs(pairs) == Ok(p[cursor..end])
    && Ascends(KeyBytes, pairs) && (previous.Some? && pairs != [] ==> Less(previous.value, pairs[0].0))
  }

  lemma EntriesFramedFirst(p: Bytes, cursor: nat, middle: nat, next: nat, previous: Option<Bytes>,
                           key: Bytes, value: Bytes, pairs: seq<(Bytes, Bytes)>, end: nat)
    requires |key| < U32_SIZE && |value| < U32_SIZE && cursor <= middle <= next <= |p|
    requires p[cursor..middle] == BigEndian(|key|, 4) + key && p[middle..next] == BigEndian(|value|, 4) + value
    requires EntriesFramed(p, next, Some(key), pairs, end)
    requires previous.Some? ==> Less(previous.value, key)
    ensures EntriesFramed(p, cursor, previous, [(key, value)] + pairs, end)
  {
    EntryFrames(key, value, pairs, p, cursor, middle, next, end);
    AscendsCons(KeyBytes, (key, value), pairs);
  }

  ghost predicate EntriesRead(decode: Decoder, p: Bytes, cursor: nat, count: nat, previous: Option<Bytes>,
                              run: EntryRun) {
    && |run.encoded| == count && EntriesFramed(p, cursor, previous, run.encoded, run.end)
    && Pairwise(EntryOf(decode, p), run.encoded, run.entries)
  }

  /** What one accepted entry contributes. */
  lemma FirstEntry(decode: Decoder, p: Bytes, cursor: nat, count: nat, previous: Option<Bytes>)
    returns (key: Bytes, value: Bytes, middle: nat, next: nat)
    requires count > 0 && ReadEntries(decode, p, cursor, count, previous).Ok?
    ensures |key| < U32_SIZE && |value| < U32_SIZE && cursor <= middle <= next <= |p|
    ensures p[cursor..middle] == BigEndian(|key|, 4) + key && p[middle..next] == BigEndian(|value|, 4) + value
    ensures previous.Some? ==> Less(previous.value, key)
    ensures decode(key).Ok? && decode(value).Ok? && ReadEntries(decode, p, next, count - 1, Some(key)).Ok?
    ensures var rest := ReadEntries(decode, p, next, count - 1, Some(key)).value;
            ReadEntries(decode, p, cursor, count, previous).value ==
            EntryRun([(key, value)] + rest.encoded, [Entry(decode(key).value, decode(value).value)] + rest.entries,
                     rest.end)
  {
    hide BigEndian, FromBigEndian, Less;
    key := ReadFrame(p, cursor).value;
    FrameShape(p, cursor);
    middle := cursor + 4 + |key|;
    value := ReadFrame(p, middle).value;
    FrameShape(p, middle);
    next := middle + 4 + |value|;
  }

  lemma EntriesReadFirst(decode: Decoder, p: Bytes, cursor: nat, middle: nat, next: nat, count: nat,
                         previous: Option<Bytes>, key: Bytes, value: Bytes, rest: EntryRun)
    requires count > 0 && |key| < U32_SIZE && |value| < U32_SIZE && cursor <= middle <= next <= |p|
    requires p[cursor..middle] == BigEndian(|key|, 4) + key && p[middle..next] == BigEndian(|value|, 4) + value
    requires previous.Some? ==> Less(previous.value, key)
    requires decode(key).Ok? && decode(value).Ok? && EntriesRead(decode, p, next, count - 1, Some(key), rest)
    ensures EntriesRead(decode, p, cursor, count, previous,
              EntryRun([(key, value)] + rest.encoded, [Entry(decode(key).value, decode(value).value)] + rest.entries,
                       rest.end))
  {
    EntriesFramedFirst(p, cursor, middle, next, previous, key, value, rest.encoded, rest.end);
    assert |p[cursor..middle]| > |key| && |p[middle..next]| > |value|;
    PairwiseCons(EntryOf(decode, p), (key, value), Entry(decode(key).value, decode(value).value),
                 rest.encoded, rest.entries);
  }

  lemma {:induction false} ReadEntriesShape(decode: Decoder, p: Bytes, cursor: nat, count: nat, previous: Option<Bytes>)
    requires cursor <= |p| && ReadEntries(decode, p, cursor, count, previous).Ok?
    ensures EntriesRead(decode, p, cursor, count, previous, ReadEntries(decode, p, cursor, count, previous).value)
    decreases count
  {
    hide ReadFrame, Less;
    if count == 0 {
      assert p[cursor..cursor] == [];
    } else {
      var key, value, middle, next := FirstEntry(decode, p, cursor, count, previous);
      ReadEntriesShape(decode, p, next, count - 1, Some(key));
      var rest := ReadEntries(decode, p, next, count - 1, Some(key)).value;
      EntriesReadFirst(decode, p, cursor, middle, next, count, previous, key, value, rest);
    }
  }

  // Every accepted byte string is the encoding of what it decodes to.

  ghost predicate Encodes(u: Unicode, v: Value, b: Bytes) {
    EncodeTyped(u, v) == Ok(b)
  }

  /** Re-encoding any member that `decode` accepts gives its bytes back. */
  ghost predicate Faithful(u: Unicode, decode: Decoder) {
    forall b {:trigger decode(b)} :: decode(b).Ok? ==> Encodes(u, decode(b).value, b) && Typed(decode(b).value)
  }

  lemma {:induction false} EncodeAllPointwise(u: Unicode, vs: seq<Value>, encoded: seq<Bytes>)
    requires |vs| == |encoded| && forall i :: 0 <= i < |vs| ==> Encodes(u, vs[i], encoded[i])
    ensures EncodeAll(u, vs) == Ok(encoded)
    decreases |vs|
  {
    if vs != [] {
      assert Encodes(u, vs[0], encoded[0]);
      forall i | 0 <= i < |vs[1..]| ensures Encodes(u, vs[1..][i], encoded[1..][i]) {
        assert Encodes(u, vs[i + 1], encoded[i + 1]);
      }
      EncodeAllPointwise(u, vs[1..], encoded[1..]);
      assert encoded == [encoded[0]] + encoded[1..];
    }
  }

  lemma {:induction false} EncodeEntriesPointwise(u: Unicode, es: seq<Entry>, pairs: seq<(Bytes, Bytes)>)
    requires |es| == |pairs|
    requires forall i :: 0 <= i < |es| ==> Encodes(u, es[i].key, pairs[i].0) && Encodes(u, es[i].value, pairs[i].1)
    ensures EncodeEntries(u, es) == Ok(pairs)
    decreases |es|
  {
    if es != [] {
      assert Encodes(u, es[0].key, pairs[0].0) && Encodes(u, es[0].value, pairs[0].1);
      forall i | 0 <= i < |es[1..]|
        ensures Encodes(u, es[1..][i].key, pairs[1..][i].0) && Encodes(u, es[1..][i].value, pairs[1..][i].1)
      {
        assert Encodes(u, es[i + 1].key, pairs[i + 1].0);
      }
      EncodeEntriesPointwise(u, es[1..], pairs[1..]);
      assert pairs == [pairs[0]] + pairs[1..];
    }
  }

  lemma ReencodeSequence(u: Unicode, decode: Decoder, p: Bytes, sorted: bool)
    requires Faithful(u, decode) && DecodeSequence(decode, p, sorted).Ok?
    ensures var values := DecodeSequence(decode, p, sorted).value;
            && (forall v :: v in values ==> Typed(v))
            && EncodeAll(u, values).Ok?
            && var encoded := EncodeAll(u, values).value;
               Counted(|encoded|, FramedAll(encoded)) == Ok(p) && (sorted ==> SortDistinct(Whole, encoded) == encoded)
  {
    hide EncodeAll, FramedAll, ReadItems, SortDistinct, Typed, Ascends;
    var count := ReadNumber(p, 0, 4).value;
    NumberShape(p, 0, 4);
    SizesArePowers();
    var run := ReadItems(decode, p, 4, count).value;
    ReadItemsShape(decode, p, 4, count);
    ReencodeItems(u, decode, p, run.values, run.encoded);
    assert p == p[0..4] + p[4..|p|];
    if sorted { SortAscending(Whole, run.encoded); }
  }

  lemma ReencodeEntries(u: Unicode, decode: Decoder, p: Bytes, es: seq<Entry>, pairs: seq<(Bytes, Bytes)>)
    requires Faithful(u, decode) && Pairwise(EntryOf(decode, p), pairs, es)
    ensures EncodeEntries(u, es) == Ok(pairs) && forall e :: e in es ==> Typed(e.key) && Typed(e.value)
  {
    forall i | 0 <= i < |es|
      ensures Encodes(u, es[i].key, pairs[i].0) && Encodes(u, es[i].value, pairs[i].1)
      ensures Typed(es[i].key) && Typed(es[i].value)
    {
      assert EntryOf(decode, p)(pairs[i], es[i]);
    }
    EncodeEntriesPointwise(u, es, pairs);
  }

  lemma ReencodeItems(u: Unicode, decode: Decoder, p: Bytes, vs: seq<Value>, encoded: seq<Bytes>)
    requires Faithful(u, decode) && Pairwise(ItemOf(decode, p), encoded, vs)
    ensures EncodeAll(u, vs) == Ok(encoded) && forall v :: v in vs ==> Typed(v)
  {
    forall i | 0 <= i < |vs| ensures Encodes(u, vs[i], encoded[i]) && Typed(vs[i]) {
      assert ItemOf(decode, p)(encoded[i], vs[i]);
    }
    EncodeAllPointwise(u, vs, encoded);
  }

  lemma ReencodeMap(u: Unicode, decode: Decoder, p: Bytes)
    requires Faithful(u, decode) && DecodeMap(decode, p).Ok?
    ensures forall e :: e in DecodeMap(decode, p).value ==> Typed(e.key) && Typed(e.value)
    ensures EncodeEntries(u, DecodeMap(decode, p).value).Ok?
    ensures var pairs := EncodeEntries(u, DecodeMap(decode, p).value).value;
            SortDistinct(KeyBytes, pairs) == pairs && Counted(|pairs|, FramedPairs(pairs)) == Ok(p)
  {
    var count := ReadNumber(p, 0, 4).value;
    NumberShape(p, 0, 4);
    SizesArePowers();
    var run := ReadEntries(decode, p, 4, count, None).value;
    ReadEntriesShape(decode, p, 4, count, None);
    ReencodeEntries(u, decode, p, run.entries, run.encoded);
    SortAscending(KeyBytes, run.encoded);
    assert p == p[0..4] + p[4..|p|];
  }

  lemma ReencodeUnion(u: Unicode, decode: Decoder, p: Bytes)
    requires Faithful(u, decode) && DecodeUnion(decode, p).Ok?
    ensures EncodePayload(u, DecodeUnion(decode, p).value) == Ok(p)
    ensures Typed(DecodeUnion(decode, p).value) && DecodeUnion(decode, p).value.TaggedUnion?
  {
    hide ReadFrame, ReadNumber, BigEndian, FromBigEndian, EncodeTyped, Typed, Power256;
    var item, variant := ReadFrame(p, 2).value, ReadNumber(p, 0, 2).value;
    NumberShape(p, 0, 2);
    SizesArePowers();
    FrameShape(p, 2);
    UnionShape(p, variant, item);
    var value := decode(item).value;
    assert Encodes(u, value, item) && Typed(value);
    UnionPayload(u, variant, value, item);
    UnionTyped(variant, value);
  }

  lemma UnionShape(p: Bytes, variant: nat, item: Bytes)
    requires |p| == 6 + |item| && p[0..2] == BigEndian(variant, 2) && p[2..6 + |item|] == BigEndian(|item|, 4) + item
    ensures p == BigEndian(variant, 2) + BigEndian(|item|, 4) + item
  {
    hide BigEndian;
    assert p == p[0..2] + p[2..6 + |item|];
  }

  lemma UnionPayload(u: Unicode, variant: nat, value: Value, item: Bytes)
    requires Encodes(u, value, item) && |item| < U32_SIZE && variant < U16_SIZE
    ensures EncodePayload(u, TaggedUnion(variant, value)) == Ok(BigEndian(variant, 2) + BigEndian(|item|, 4) + item)
  {
    hide EncodeTyped, BigEndian;
  }

  lemma UnionTyped(variant: nat, value: Value)
    requires variant < U16_SIZE && Typed(value)
    ensures Typed(TaggedUnion(variant, value))
  {
  }

  lemma ReencodePayload(u: Unicode, decode: Decoder, code: Byte, p: Bytes)
    requires code <= 12 && Faithful(u, decode) && DecodePayload(decode, code, p).Ok?
    ensures EncodePayload(u, DecodePayload(decode, code, p).value) == Ok(p)
    ensures Typed(DecodePayload(decode, code, p).value) && TypeCode(DecodePayload(decode, code, p).value) == code
  {
    if code == 3 {
      assert p == [p[0]] + p[1..];
    } else if code == 9 {
      ReencodeSequence(u, decode, p, false);
    } else if code == 10 {
      ReencodeSequence(u, decode, p, true);
    } else if code == 11 {
      ReencodeMap(u, decode, p);
    } else if code == 12 {
      ReencodeUnion(u, decode, p);
    }
  }

  /** encode(decode(b)) = b for every accepted typed value. */
  lemma {:induction false} ReencodeTyped(u: Unicode, b: Bytes)
    requires DecodeTyped(b).Ok?
    ensures Encodes(u, DecodeTyped(b).value, b) && Typed(DecodeTyped(b).value)
    decreases |b|
  {
    forall x {:trigger Below(|b|)(x)} | Below(|b|)(x).Ok?
      ensures Encodes(u, Below(|b|)(x).value, x) && Typed(Below(|b|)(x).value)
    {
      ReencodeTyped(u, x);
    }
    var payload := ReadFrame(b, 1).value;
    FrameShape(b, 1);
    ReencodePayload(u, Below(|b|), b[0], payload);
    assert b[1..|b|] == BigEndian(|payload|, 4) + payload;
    assert b == [b[0]] + b[1..|b|];
    assert [b[0]] + (BigEndian(|payload|, 4) + payload) == [b[0]] + BigEndian(|payload|, 4) + payload;
  }
}
