/** The views of a workspace path: raw, canonical, comparison and display bytes. */
module PathViews {
  import opened Prelude
  import opened Bytes
  import opened Utf8
  import opened PathCodec

  // Canonical bytes are text.

  lemma {:induction false} TextJoins(a: Bytes, b: Bytes)
    requires WellFormed(a) && WellFormed(b)
    ensures WellFormed(a + b)
    decreases |a|
  {
    if a == [] {
      assert a + b == b;
    } else {
      var n := FrontLength(a);
      FrontStays(a, b);
      TextJoins(a[n..], b);
      hide FrontLength;
      NextCharacter(a, b, n);
    }
  }

  lemma NextCharacter(a: Bytes, b: Bytes, n: nat)
    requires 0 < n <= |a| && FrontLength(a + b) == n && WellFormed(a[n..] + b)
    ensures WellFormed(a + b)
  {
    hide FrontLength;
    assert (a + b)[n..] == a[n..] + b;
  }

  lemma FrontStays(a: Bytes, b: Bytes)
    requires FrontLength(a) > 0
    ensures FrontLength(a + b) == FrontLength(a)
  {
  }

  lemma {:induction false} EncodeJoins(text: bool, a: Bytes, b: Bytes)
    ensures EncodeBytes(text, a + b) == EncodeBytes(text, a) + EncodeBytes(text, b)
  {
    hide EncodeByte;
    if a == [] {
      assert a + b == b;
    } else {
      EncodeJoins(text, a[1..], b);
      EncodeNext(text, a, b);
    }
  }

  lemma EncodeNext(text: bool, a: Bytes, b: Bytes)
    requires a != []
    ensures EncodeBytes(text, a + b) == EncodeByte(text, a[0]) + EncodeBytes(text, a[1..] + b)
  {
    hide EncodeByte;
    assert (a + b)[1..] == a[1..] + b;
  }

  /** Escaping leaves no slash and no control byte, and of a component that is no text only visible ASCII. */
  lemma {:induction false} EncodedIsClean(text: bool, c: Component)
    ensures forall b :: b in EncodeBytes(text, c) ==> b != SLASH && 32 <= b && b != 127 && (!text ==> 33 <= b <= 126)
  {
    if c != [] {
      EncodedIsClean(text, c[1..]);
      EncodedByteIsClean(text, c[0]);
    }
  }

  lemma EncodedByteIsClean(text: bool, x: Byte)
    ensures forall b :: b in EncodeByte(text, x) ==> b != SLASH && 32 <= b && b != 127 && (!text ==> 33 <= b <= 126)
  {
  }

  lemma {:induction false} HighBytesStay(s: Bytes)
    requires forall i :: 0 <= i < |s| ==> s[i] >= 0x80
    ensures EncodeBytes(true, s) == s
  {
    if s != [] {
      HighBytesStay(s[1..]);
      assert s == [s[0]] + s[1..];
    }
  }

  lemma FrontIsText(s: Bytes)
    requires FrontLength(s) > 0
    ensures WellFormed(EncodeBytes(true, s[..FrontLength(s)]))
  {
    var front := s[..FrontLength(s)];
    if FrontLength(s) == 1 {
      assert front[1..] == [];
      assert EncodeBytes(true, front) == EncodeByte(true, s[0]) + [];
      AsciiIsWellFormed(EncodeBytes(true, front));
    } else {
      HighBytesStay(front);
      assert FrontLength(front) == |front| && front[|front|..] == [];
    }
  }

  lemma {:induction false} EncodedTextIsText(s: Bytes)
    requires WellFormed(s)
    ensures WellFormed(EncodeBytes(true, s))
    decreases |s|
  {
    if s != [] {
      var n := FrontLength(s);
      EncodedTextIsText(s[n..]);
      FrontIsText(s);
      assert s == s[..n] + s[n..];
      EncodeJoins(true, s[..n], s[n..]);
      TextJoins(EncodeBytes(true, s[..n]), EncodeBytes(true, s[n..]));
    }
  }

  /** Escaped components are text, also when the component is not. */
  lemma EncodedIsText(c: Component)
    ensures WellFormed(EncodeComponent(c))
  {
    if WellFormed(c) {
      EncodedTextIsText(c);
    } else {
      EncodedIsClean(false, c);
      assert forall i :: 0 <= i < |EncodeBytes(false, c)| ==> EncodeBytes(false, c)[i] in EncodeBytes(false, c);
      AsciiIsWellFormed(EncodeBytes(false, c));
    }
  }

  lemma {:induction false} JoinedIsText(parts: seq<Bytes>)
    requires forall p :: p in parts ==> WellFormed(p)
    ensures WellFormed(Join(parts))
  {
    hide WellFormed;
    if |parts| == 1 {
      assert parts[0] in parts;
    } else if parts != [] {
      assert parts[0] in parts;
      JoinedIsText(parts[1..]);
      AsciiIsWellFormed([SLASH]);
      TextJoins(parts[0], [SLASH]);
      TextJoins(parts[0] + [SLASH], Join(parts[1..]));
    } else {
      AsciiIsWellFormed([]);
    }
  }

  lemma CanonicalIsText(components: seq<Component>)
    ensures WellFormed(Canonical(components))
  {
    hide WellFormed, EncodeComponent;
    forall p | p in Encoded(components) ensures WellFormed(p) {
      var i :| 0 <= i < |components| && Encoded(components)[i] == p;
      EncodedIsText(components[i]);
    }
    JoinedIsText(Encoded(components));
  }

  // Raw bytes.

  lemma {:induction false} PartsHaveNoSlash(b: Bytes)
    ensures forall p :: p in Split(b) ==> SLASH !in p
  {
    if b != [] {
      PartsHaveNoSlash(b[1..]);
      var rest := Split(b[1..]);
      assert rest[0] in rest;
      assert forall p :: p in rest[1..] ==> p in rest;
    }
  }

  /** Raw bytes give the components back exactly when there are some and none holds a slash. */
  lemma RawSplitsIff(components: seq<Component>)
    ensures Split(Join(components)) == components <==> components != [] && forall c :: c in components ==> SLASH !in c
  {
    hide Split, Join;
    PartsHaveNoSlash(Join(components));
    if components != [] && forall c :: c in components ==> SLASH !in c { SplitOfJoin(components); }
  }

  // All views.

  datatype Platform = Unix | MacOs | WindowsWtf8

  datatype CaseMode = Sensitive | Insensitive

  datatype View = View(platform: Platform, raw: Bytes, canonical: Bytes, comparison: Bytes, mode: CaseMode,
                       display: Bytes, lossy: bool)

  datatype ViewError = ReservedPlatform | Unencodable

  /** A component as it is shown: itself if it is text, otherwise escaped. */
  function Shown(c: Component): Bytes {
    if WellFormed(c) then c else EncodeComponent(c)
  }

  function AllShown(components: seq<Component>): (r: seq<Bytes>)
    ensures |r| == |components| && forall i :: 0 <= i < |r| ==> r[i] == Shown(components[i])
  {
    seq(|components|, i requires 0 <= i < |components| => Shown(components[i]))
  }

  predicate AllText(components: seq<Component>) {
    forall c :: c in components ==> WellFormed(c)
  }

  /** Raw bytes, component by component. */
  method RawBytes(components: seq<Component>) returns (raw: Bytes)
    ensures raw == Join(components)
  {
    raw := [];
    for i := 0 to |components|
      invariant raw == Join(components[..i])
    {
      JoinLast(components[..i], components[i]);
      assert components[..i + 1] == components[..i] + [components[i]];
      if i > 0 { raw := raw + [SLASH]; }
      raw := raw + components[i];
    }
    assert components[..|components|] == components;
  }

  function DisplayOf(components: seq<Component>): Bytes {
    Join(AllShown(components))
  }

  lemma NextShown(components: seq<Component>, c: Component)
    ensures DisplayOf(components + [c]) == (if components == [] then [] else DisplayOf(components) + [SLASH]) + Shown(c)
  {
    hide Shown;
    JoinLast(AllShown(components), Shown(c));
    assert AllShown(components + [c]) == AllShown(components) + [Shown(c)];
  }

  /** The conversion of escaped bytes to text never fails. */
  method DisplayBytes(components: seq<Component>) returns (r: Result<Bytes, ViewError>)
    ensures r == Ok(DisplayOf(components))
  {
    hide WellFormed, EncodeComponent, AllShown, Join;
    var display := [];
    assert DisplayOf(components[..0]) == [] by { NothingShown(components[..0]); }
    hide DisplayOf;
    for i := 0 to |components|
      invariant display == DisplayOf(components[..i])
    {
      NextShown(components[..i], components[i]);
      assert components[..i + 1] == components[..i] + [components[i]];
      if i > 0 { display := display + [SLASH]; }
      if WellFormed(components[i]) {
        display := display + components[i];
      } else {
        var encoded, lossy := EncodeComponentBytes(components[i]);
        EncodedIsText(components[i]);
        if !WellFormed(encoded) { return Err(Unencodable); }
        display := display + encoded;
      }
    }
    assert components[..|components|] == components;
    r := Ok(display);
  }

  lemma NothingShown(components: seq<Component>)
    requires components == []
    ensures DisplayOf(components) == []
  {
  }

  /** Only the reserved platform is refused; `fold` stands for decomposition and case folding. */
  method FromComponents(platform: Platform, mode: CaseMode, components: seq<Component>, fold: Bytes -> Bytes)
    returns (r: Result<View, ViewError>)
    ensures r.Err? <==> platform.WindowsWtf8?
    ensures r.Err? ==> r.error == ReservedPlatform
    ensures r.Ok? ==>
              var folded := platform.MacOs? && mode.Insensitive? && AllText(components);
              r.value == View(platform, Join(components), Canonical(components),
                              if folded then fold(Join(components)) else Join(components),
                              mode, DisplayOf(components), !AllText(components))
  {
    hide WellFormed, Canonical, DisplayOf;
    if platform.WindowsWtf8? { return Err(ReservedPlatform); }
    var raw := RawBytes(components);
    var canonical, lossy := CanonicalBytes(components);
    var display := DisplayBytes(components);
    if display.Err? { return Err(Unencodable); }
    var comparison := raw;
    if platform.MacOs? && mode.Insensitive? {
      if !lossy { comparison := fold(raw); }
    }
    r := Ok(View(platform, raw, canonical, comparison, mode, display.value, lossy));
  }

  /** The display is always text, and where no component had to be escaped it is the raw path. */
  lemma DisplayIsText(components: seq<Component>)
    ensures WellFormed(DisplayOf(components))
    ensures AllText(components) ==> DisplayOf(components) == Join(components)
  {
    hide WellFormed, EncodeComponent, Join;
    forall p | p in AllShown(components) ensures WellFormed(p) {
      var i :| 0 <= i < |components| && AllShown(components)[i] == p;
      if !WellFormed(components[i]) { EncodedIsText(components[i]); }
    }
    JoinedIsText(AllShown(components));
    if AllText(components) {
      assert AllShown(components) == components;
    }
  }
}
