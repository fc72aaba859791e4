/** Workspace paths: percent-escaped components joined by slashes. */
module PathCodec {
  import opened Prelude
  import opened Bytes
  import opened Utf8

  const PERCENT: Byte := 37

  type Component = Bytes

  datatype PathError = PathEncoding

  // One byte.

  function HexDigit(n: nat): (d: Byte)
    requires n < 16
  {
    if n < 10 then 48 + n else 55 + n
  }

  /** Upper-case hexadecimal only. */
  predicate IsHex(d: Byte) {
    48 <= d <= 57 || 65 <= d <= 70
  }

  function HexValue(d: Byte): (n: nat)
    requires IsHex(d)
    ensures n < 16 && HexDigit(n) == d
  {
    if d <= 57 then d - 48 else d - 55
  }

  /** Text escapes separators and control bytes; other components escape all but ASCII graphics. */
  predicate Escaped(text: bool, b: Byte) {
    || b == SLASH
    || b == PERCENT
    || if text then b <= 31 || b == 127 else !(33 <= b <= 126)
  }

  function EncodeByte(text: bool, b: Byte): (r: Bytes) {
    if Escaped(text, b) then [PERCENT, HexDigit(b as int / 16), HexDigit(b as int % 16)] else [b]
  }

  // One component.

  function EncodeBytes(text: bool, c: Bytes): Bytes {
    if c == [] then [] else EncodeByte(text, c[0]) + EncodeBytes(text, c[1..])
  }

  function EncodeComponent(c: Component): Bytes {
    EncodeBytes(WellFormed(c), c)
  }

  function DecodeComponent(c: Bytes): Result<Component, PathError> {
    if c == [] then Ok([])
    else if c[0] != PERCENT then Cons(c[0], DecodeComponent(c[1..]))
    else if |c| < 3 || !IsHex(c[1]) || !IsHex(c[2]) then Err(PathEncoding)
    else Cons(16 * HexValue(c[1]) + HexValue(c[2]), DecodeComponent(c[3..]))
  }

  function Cons(b: Byte, rest: Result<Component, PathError>): Result<Component, PathError> {
    match rest
    case Err(e) => Err(e)
    case Ok(bytes) => Ok([b] + bytes)
  }

  function Prepend(done: Bytes, rest: Result<Component, PathError>): Result<Component, PathError> {
    match rest
    case Err(e) => Err(e)
    case Ok(bytes) => Ok(done + bytes)
  }

  /** The escaping loops; the second result says whether the component was no text. */
  method EncodeComponentBytes(c: Component) returns (encoded: Bytes, lossy: bool)
    ensures encoded == EncodeComponent(c) && lossy == !WellFormed(c)
  {
    hide WellFormed, EncodeByte;
    encoded, lossy := [], !WellFormed(c);
    for i := 0 to |c|
      invariant encoded + EncodeBytes(!lossy, c[i..]) == EncodeComponent(c)
    {
      assert c[i..][1..] == c[i + 1..];
      var piece := EncodeByte(!lossy, c[i]);
      assert encoded + (piece + EncodeBytes(!lossy, c[i + 1..])) == encoded + piece + EncodeBytes(!lossy, c[i + 1..]);
      encoded := encoded + piece;
    }
  }

  method DecodeComponentBytes(c: Bytes) returns (r: Result<Component, PathError>)
    ensures r == DecodeComponent(c)
  {
    var decoded: Bytes := [];
    var cursor := 0;
    assert c[0..] == c;
    PrependNothing(DecodeComponent(c));
    while cursor < |c|
      invariant 0 <= cursor <= |c|
      invariant DecodeComponent(c) == Prepend(decoded, DecodeComponent(c[cursor..]))
    {
      var rest := c[cursor..];
      if rest[0] == PERCENT {
        if cursor + 3 > |c| { return Err(PathEncoding); }
        if !IsHex(c[cursor + 1]) || !IsHex(c[cursor + 2]) { return Err(PathEncoding); }
        var byte := 16 * HexValue(c[cursor + 1]) + HexValue(c[cursor + 2]);
        assert rest[3..] == c[cursor + 3..];
        PrependOne(decoded, byte, DecodeComponent(rest[3..]));
        decoded := decoded + [byte];
        cursor := cursor + 3;
      } else {
        assert rest[1..] == c[cursor + 1..];
        PrependOne(decoded, rest[0], DecodeComponent(rest[1..]));
        decoded := decoded + [rest[0]];
        cursor := cursor + 1;
      }
    }
    assert decoded + [] == decoded;
    r := Ok(decoded);
  }

  lemma PrependNothing(rest: Result<Component, PathError>)
    ensures Prepend([], rest) == rest
  {
    if rest.Ok? { assert [] + rest.value == rest.value; }
  }

  lemma PrependOne(done: Bytes, b: Byte, rest: Result<Component, PathError>)
    ensures Prepend(done, Cons(b, rest)) == Prepend(done + [b], rest)
  {
    if rest.Ok? { assert done + ([b] + rest.value) == done + [b] + rest.value; }
  }

  lemma EncodedByteReads(text: bool, b: Byte, tail: Bytes)
    ensures DecodeComponent(EncodeByte(text, b) + tail) == Cons(b, DecodeComponent(tail))
  {
    var e := EncodeByte(text, b) + tail;
    if Escaped(text, b) {
      assert e[0] == PERCENT && e[1] == HexDigit(b as int / 16) && e[2] == HexDigit(b as int % 16);
      assert e[3..] == tail;
      assert HexValue(e[1]) == b as int / 16 && HexValue(e[2]) == b as int % 16;
    } else {
      assert e[1..] == tail;
    }
  }

  /** Unescaping gives back every component: any bytes, whichever escaping rule applied. */
  lemma {:induction false} ComponentRoundTrip(text: bool, c: Component)
    ensures DecodeComponent(EncodeBytes(text, c)) == Ok(c)
  {
    if c != [] {
      ComponentRoundTrip(text, c[1..]);
      EncodedByteReads(text, c[0], EncodeBytes(text, c[1..]));
      assert c == [c[0]] + c[1..];
    }
  }

  /** What needs no escape stays as it is: of text all but separators, percent signs and control bytes,
      of other components visible ASCII but for those two. */
  lemma {:induction false} PlainStays(text: bool, c: Component)
    requires forall b :: b in c ==> b != 47 && b != 37 && (if text then b > 31 && b != 127 else 33 <= b <= 126)
    ensures EncodeBytes(text, c) == c
  {
    if c != [] {
      assert c[0] in c && forall b :: b in c[1..] ==> b in c;
      PlainStays(text, c[1..]);
      assert c == [c[0]] + c[1..];
    }
  }

  lemma {:induction false} NoSlash(text: bool, c: Component)
    ensures SLASH !in EncodeBytes(text, c)
  {
    if c != [] { NoSlash(text, c[1..]); }
  }

  // Whole paths.

  function Join(parts: seq<Bytes>): Bytes {
    if parts == [] then []
    else if |parts| == 1 then parts[0]
    else parts[0] + [SLASH] + Join(parts[1..])
  }

  /** The stretches between slashes; never an empty list. */
  function Split(b: Bytes): (parts: seq<Bytes>)
    ensures parts != []
  {
    if b == [] then [[]]
    else
      var rest := Split(b[1..]);
      if b[0] == SLASH then [[]] + rest else [[b[0]] + rest[0]] + rest[1..]
  }

  function Encoded(components: seq<Component>): (r: seq<Bytes>)
    ensures |r| == |components| && forall i :: 0 <= i < |r| ==> r[i] == EncodeComponent(components[i])
  {
    seq(|components|, i requires 0 <= i < |components| => EncodeComponent(components[i]))
  }

  function Canonical(components: seq<Component>): Bytes {
    Join(Encoded(components))
  }

  /** Decode each part, and accept it only if it is what encoding would write. */
  function DecodeParts(parts: seq<Bytes>): Result<seq<Component>, PathError> {
    if parts == [] then Ok([])
    else
      match DecodeComponent(parts[0])
      case Err(e) => Err(e)
      case Ok(c) =>
        if EncodeComponent(c) != parts[0] then Err(PathEncoding)
        else
          match DecodeParts(parts[1..])
          case Err(e) => Err(e)
          case Ok(rest) => Ok([c] + rest)
  }

  function DecodedComponents(path: Bytes): Result<seq<Component>, PathError> {
    DecodeParts(Split(path))
  }

  method CanonicalBytes(components: seq<Component>) returns (path: Bytes, lossy: bool)
    ensures path == Canonical(components)
    ensures lossy <==> exists c :: c in components && !WellFormed(c)
  {
    hide WellFormed, EncodeComponent;
    path, lossy := [], false;
    for i := 0 to |components|
      invariant path == Join(Encoded(components[..i]))
      invariant lossy <==> exists c :: c in components[..i] && !WellFormed(c)
    {
      var encoded, componentLossy := EncodeComponentBytes(components[i]);
      JoinLast(Encoded(components[..i]), encoded);
      assert Encoded(components[..i + 1]) == Encoded(components[..i]) + [encoded];
      path := if i > 0 then path + [SLASH] + encoded else encoded;
      lossy := lossy || componentLossy;
      assert components[..i + 1] == components[..i] + [components[i]];
    }
    assert components[..|components|] == components;
  }

  lemma {:induction false} JoinLast(parts: seq<Bytes>, last: Bytes)
    ensures Join(parts + [last]) == if parts == [] then last else Join(parts) + [SLASH] + last
  {
    if parts != [] {
      JoinLast(parts[1..], last);
      assert (parts + [last])[1..] == parts[1..] + [last];
    }
  }

  lemma {:induction false} SplitFirst(part: Bytes, tail: Bytes)
    requires SLASH !in part
    ensures Split(part) == [part]
    ensures Split(part + [SLASH] + tail) == [part] + Split(tail)
  {
    if part == [] {
      assert part + [SLASH] + tail == [SLASH] + tail && ([SLASH] + tail)[1..] == tail;
    } else {
      SplitFirst(part[1..], tail);
      assert (part + [SLASH] + tail)[1..] == part[1..] + [SLASH] + tail;
      assert part == [part[0]] + part[1..];
    }
  }

  lemma {:induction false} SplitOfJoin(parts: seq<Bytes>)
    requires parts != [] && forall p :: p in parts ==> SLASH !in p
    ensures Split(Join(parts)) == parts
  {
    assert parts[0] in parts;
    if |parts| == 1 {
      SplitFirst(parts[0], []);
    } else {
      SplitOfJoin(parts[1..]);
      SplitFirst(parts[0], Join(parts[1..]));
    }
  }

  lemma {:induction false} JoinOfSplit(b: Bytes)
    ensures Join(Split(b)) == b
  {
    if b != [] {
      JoinOfSplit(b[1..]);
      var rest := Split(b[1..]);
      if b[0] == SLASH {
        assert ([[]] + rest)[1..] == rest;
      } else {
        var first := [[b[0]] + rest[0]] + rest[1..];
        assert first[1..] == rest[1..];
      }
    }
  }

  lemma {:induction false} PartsRoundTrip(components: seq<Component>)
    ensures DecodeParts(Encoded(components)) == Ok(components)
  {
    hide EncodeBytes, WellFormed, DecodeComponent;
    if components != [] {
      ComponentRoundTrip(WellFormed(components[0]), components[0]);
      PartsRoundTrip(components[1..]);
      assert Encoded(components)[1..] == Encoded(components[1..]);
      assert components == [components[0]] + components[1..];
    }
  }

  lemma {:induction false} PartsReencode(parts: seq<Bytes>)
    requires DecodeParts(parts).Ok?
    ensures Encoded(DecodeParts(parts).value) == parts
  {
    hide EncodeComponent, DecodeComponent;
    if parts != [] { PartsReencode(parts[1..]); }
  }

  /** Decoding the canonical bytes gives the components back exactly when there are any. */
  lemma PathRoundTrip(components: seq<Component>)
    ensures DecodedComponents(Canonical(components)) == Ok(if components == [] then [[]] else components)
  {
    hide WellFormed, EncodeBytes;
    if components == [] {
      PartsRoundTrip([[]]);
      EncodedNothing();
    } else {
      forall p | p in Encoded(components) ensures SLASH !in p {
        var i :| 0 <= i < |components| && Encoded(components)[i] == p;
        NoSlash(WellFormed(components[i]), components[i]);
      }
      SplitOfJoin(Encoded(components));
      PartsRoundTrip(components);
    }
  }

  lemma EncodedNothing()
    ensures Encoded([[]]) == [[]]
  {
  }

  /** Every accepted path is the canonical form of what it decodes to. */
  lemma AcceptedIsCanonical(path: Bytes)
    requires DecodedComponents(path).Ok?
    ensures Canonical(DecodedComponents(path).value) == path
  {
    hide DecodeParts, Split;
    JoinOfSplit(path);
    PartsReencode(Split(path));
  }

  /** Canonical bytes tell all component lists apart, but for the empty list and one empty component. */
  lemma CanonicalInjective(xs: seq<Component>, ys: seq<Component>)
    ensures Canonical(xs) == Canonical(ys) <==> xs == ys || (xs in {[], [[]]} && ys in {[], [[]]})
  {
    hide Canonical, DecodedComponents;
    PathRoundTrip(xs);
    PathRoundTrip(ys);
    EmptyPaths();
  }

  lemma EmptyPaths()
    ensures Canonical([]) == Canonical([[]]) == []
  {
    EncodedNothing();
  }
}
