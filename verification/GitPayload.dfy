/** The cached form of a Git candidate set. */
module GitPayload {
  import opened Prelude
  import opened Bytes

  const MAXIMUM_CANDIDATES: nat := 100_000
  const MAXIMUM_PATH_BYTES: nat := 1_048_576
  const MAGIC: Bytes := [67, 70, 71, 67, 49]

  datatype Origin = IndexWorktree | HeadIndex | HeadTree

  datatype Candidate = Candidate(path: Bytes, prior: Option<Bytes>, origin: Origin)

  datatype Candidates = Candidates(rescan: bool, list: seq<Candidate>)

  datatype BudgetError = CandidateBudget | PathBudget

  function OriginCode(o: Origin): Byte {
    match o
    case IndexWorktree => 10
    case HeadIndex => 20
    case HeadTree => 30
  }

  function OriginOf(code: Byte): (o: Option<Origin>)
    ensures o.Some? ==> OriginCode(o.value) == code
  {
    if code == 10 then Some(IndexWorktree)
    else if code == 20 then Some(HeadIndex)
    else if code == 30 then Some(HeadTree)
    else None
  }

  // Encoding.

  predicate Fits(c: Candidate) {
    |c.path| <= MAXIMUM_PATH_BYTES && (c.prior.Some? ==> |c.prior.value| <= MAXIMUM_PATH_BYTES)
  }

  function EncodePath(p: Bytes): Bytes {
    BigEndian(|p|, 4) + p
  }

  function EncodePrior(prior: Option<Bytes>): Bytes {
    match prior
    case None => [0]
    case Some(p) => [1] + EncodePath(p)
  }

  function EncodeCandidate(c: Candidate): Bytes {
    [OriginCode(c.origin)] + EncodePath(c.path) + EncodePrior(c.prior)
  }

  function EncodeList(cs: seq<Candidate>): Bytes {
    if cs == [] then [] else EncodeCandidate(cs[0]) + EncodeList(cs[1..])
  }

  function EncodePayload(s: Candidates): Result<Bytes, BudgetError> {
    if |s.list| > MAXIMUM_CANDIDATES then Err(CandidateBudget)
    else if exists i :: 0 <= i < |s.list| && !Fits(s.list[i]) then Err(PathBudget)
    else Ok(MAGIC + [if s.rescan then 1 else 0] + BigEndian(|s.list|, 4) + EncodeList(s.list))
  }

  // Decoding, from the front of what is left.

  datatype Parsed<+T> = Parsed(value: T, rest: Bytes)

  function TakePath(b: Bytes): (r: Option<Parsed<Bytes>>)
    ensures r.Some? ==> |r.value.rest| < |b|
  {
    if |b| < 4 then None
    else
      var n := FromBigEndian(b[..4]);
      if n > MAXIMUM_PATH_BYTES || 4 + n > |b| then None else Some(Parsed(b[4..4 + n], b[4 + n..]))
  }

  function TakePrior(b: Bytes): (r: Option<Parsed<Option<Bytes>>>)
    ensures r.Some? ==> |r.value.rest| < |b|
  {
    if b == [] || b[0] > 1 then None
    else if b[0] == 0 then Some(Parsed(None, b[1..]))
    else
      match TakePath(b[1..])
      case None => None
      case Some(p) => Some(Parsed(Some(p.value), p.rest))
  }

  function TakeCandidate(b: Bytes): (r: Option<Parsed<Candidate>>)
    ensures r.Some? ==> |r.value.rest| < |b|
  {
    if b == [] || OriginOf(b[0]).None? then None
    else
      match TakePath(b[1..])
      case None => None
      case Some(path) =>
        match TakePrior(path.rest)
        case None => None
        case Some(prior) => Some(Parsed(Candidate(path.value, prior.value, OriginOf(b[0]).value), prior.rest))
  }

  function TakeList(b: Bytes, count: nat): Option<Parsed<seq<Candidate>>> {
    if count == 0 then Some(Parsed([], b))
    else
      match TakeCandidate(b)
      case None => None
      case Some(c) =>
        match TakeList(c.rest, count - 1)
        case None => None
        case Some(cs) => Some(Parsed([c.value] + cs.value, cs.rest))
  }

  function DecodePayload(b: Bytes): Option<Candidates> {
    if |b| < 10 || b[..5] != MAGIC || b[5] > 1 then None
    else
      var count := FromBigEndian(b[6..10]);
      if count > MAXIMUM_CANDIDATES then None
      else
        match TakeList(b[10..], count)
        case None => None
        case Some(cs) => if cs.rest != [] then None else Some(Candidates(b[5] == 1, cs.value))
  }

  // Decoding what was encoded.

  lemma PathReads(p: Bytes, rest: Bytes)
    requires |p| <= MAXIMUM_PATH_BYTES
    ensures TakePath(EncodePath(p) + rest) == Some(Parsed(p, rest))
  {
    var b := EncodePath(p) + rest;
    SizesArePowers();
    BigEndianRoundTrip(|p|, 4);
    assert b[..4] == BigEndian(|p|, 4) && b[4..4 + |p|] == p && b[4 + |p|..] == rest;
  }

  lemma PriorReads(prior: Option<Bytes>, rest: Bytes)
    requires prior.Some? ==> |prior.value| <= MAXIMUM_PATH_BYTES
    ensures TakePrior(EncodePrior(prior) + rest) == Some(Parsed(prior, rest))
  {
    hide TakePath, EncodePath;
    var b := EncodePrior(prior) + rest;
    match prior {
      case None => assert b[1..] == rest;
      case Some(p) =>
        assert b[1..] == EncodePath(p) + rest;
        PathReads(p, rest);
    }
  }

  lemma CandidateReads(c: Candidate, rest: Bytes)
    requires Fits(c)
    ensures TakeCandidate(EncodeCandidate(c) + rest) == Some(Parsed(c, rest))
  {
    hide TakePath, EncodePath, TakePrior, EncodePrior;
    var b := EncodeCandidate(c) + rest;
    assert b[1..] == EncodePath(c.path) + (EncodePrior(c.prior) + rest);
    PathReads(c.path, EncodePrior(c.prior) + rest);
    PriorReads(c.prior, rest);
  }

  lemma {:induction false} ListReads(cs: seq<Candidate>, rest: Bytes)
    requires forall i :: 0 <= i < |cs| ==> Fits(cs[i])
    ensures TakeList(EncodeList(cs) + rest, |cs|) == Some(Parsed(cs, rest))
  {
    hide TakeCandidate, EncodeCandidate, Fits;
    if cs == [] {
      assert [] + rest == rest;
    } else {
      var tail := EncodeList(cs[1..]) + rest;
      assert EncodeList(cs) + rest == EncodeCandidate(cs[0]) + tail;
      CandidateReads(cs[0], tail);
      ListReads(cs[1..], rest);
      assert cs == [cs[0]] + cs[1..];
    }
  }

  lemma DecodeOfEncode(s: Candidates, b: Bytes)
    requires EncodePayload(s) == Ok(b)
    ensures DecodePayload(b) == Some(s)
  {
    hide TakeList, EncodeList, Fits, BigEndian, FromBigEndian;
    SizesArePowers();
    BigEndianRoundTrip(|s.list|, 4);
    assert b[..5] == MAGIC && b[6..10] == BigEndian(|s.list|, 4) && b[10..] == EncodeList(s.list);
    ListReads(s.list, []);
    assert EncodeList(s.list) + [] == EncodeList(s.list);
  }

  /** Candidates are encoded exactly if there are at most 100,000, with paths of at most a mebibyte; the payload starts
      with the magic letters and digit, the rescan flag and the count. */
  lemma PayloadEncodesIff(s: Candidates)
    ensures EncodePayload(s) == Err(CandidateBudget) <==> |s.list| > 100000
    ensures EncodePayload(s).Ok? <==>
            && |s.list| <= 100000
            && forall c :: c in s.list ==> |c.path| <= 1048576 && (c.prior.Some? ==> |c.prior.value| <= 1048576)
    ensures EncodePayload(s).Ok? ==>
              var b := EncodePayload(s).value;
              && |b| >= 10 && b[..5] == [67, 70, 71, 67, 49] && b[5] == (if s.rescan then 1 else 0)
              && FromBigEndian(b[6..10]) == |s.list|
  {
    hide EncodeList, BigEndian, FromBigEndian;
    assert forall c :: c in s.list <==> exists i :: 0 <= i < |s.list| && s.list[i] == c;
    if EncodePayload(s).Ok? {
      var b := EncodePayload(s).value;
      SizesArePowers();
      BigEndianRoundTrip(|s.list|, 4);
      assert b[..5] == MAGIC && b[6..10] == BigEndian(|s.list|, 4);
    }
  }

  // Encoding what was decoded.

  lemma PathWrites(b: Bytes)
    requires TakePath(b).Some?
    ensures |TakePath(b).value.value| <= MAXIMUM_PATH_BYTES
    ensures b == EncodePath(TakePath(b).value.value) + TakePath(b).value.rest
  {
    FromBigEndianRoundTrip(b[..4]);
    var n := FromBigEndian(b[..4]);
    assert b == b[..4] + b[4..4 + n] + b[4 + n..];
  }

  lemma PriorWrites(b: Bytes)
    requires TakePrior(b).Some?
    ensures var r := TakePrior(b).value; r.value.Some? ==> |r.value.value| <= MAXIMUM_PATH_BYTES
    ensures b == EncodePrior(TakePrior(b).value.value) + TakePrior(b).value.rest
  {
    hide TakePath, EncodePath;
    if b[0] == 1 { PathWrites(b[1..]); }
    assert b == [b[0]] + b[1..];
  }

  lemma CandidateWrites(b: Bytes)
    requires TakeCandidate(b).Some?
    ensures Fits(TakeCandidate(b).value.value)
    ensures b == EncodeCandidate(TakeCandidate(b).value.value) + TakeCandidate(b).value.rest
  {
    hide TakePath, EncodePath, TakePrior, EncodePrior;
    var path := TakePath(b[1..]).value;
    PathWrites(b[1..]);
    PriorWrites(path.rest);
    assert b == [b[0]] + b[1..];
  }

  lemma {:induction false} ListWrites(b: Bytes, count: nat)
    requires TakeList(b, count).Some?
    ensures var r := TakeList(b, count).value;
            |r.value| == count && (forall i :: 0 <= i < count ==> Fits(r.value[i])) && b == EncodeList(r.value) + r.rest
    decreases count
  {
    hide TakeCandidate, EncodeCandidate, Fits;
    if count > 0 {
      var c := TakeCandidate(b).value;
      CandidateWrites(b);
      ListWrites(c.rest, count - 1);
      var cs := TakeList(c.rest, count - 1).value;
      assert ([c.value] + cs.value)[1..] == cs.value;
      assert EncodeCandidate(c.value) + (EncodeList(cs.value) + cs.rest) ==
             EncodeCandidate(c.value) + EncodeList(cs.value) + cs.rest;
    }
  }

  lemma EncodeOfDecode(b: Bytes)
    requires DecodePayload(b).Some?
    ensures EncodePayload(DecodePayload(b).value) == Ok(b)
  {
    hide TakeList, EncodeList, Fits, BigEndian, FromBigEndian;
    var count := FromBigEndian(b[6..10]);
    FromBigEndianRoundTrip(b[6..10]);
    ListWrites(b[10..], count);
    var cs := TakeList(b[10..], count).value.value;
    assert EncodeList(cs) + [] == EncodeList(cs);
    assert b == b[..5] + [b[5]] + b[6..10] + b[10..];
  }

  // The loops.

  method EncodePayloadBytes(s: Candidates) returns (r: Result<Bytes, BudgetError>)
    ensures r == EncodePayload(s)
  {
    hide EncodeCandidate, Fits, BigEndian;
    if |s.list| > MAXIMUM_CANDIDATES { return Err(CandidateBudget); }
    var payload := MAGIC + [if s.rescan then 1 else 0] + BigEndian(|s.list|, 4);
    ghost var start := payload;
    for i := 0 to |s.list|
      invariant forall k :: 0 <= k < i ==> Fits(s.list[k])
      invariant payload + EncodeList(s.list[i..]) == start + EncodeList(s.list)
    {
      if !Fits(s.list[i]) { return Err(PathBudget); }
      assert s.list[i..][1..] == s.list[i + 1..];
      var piece, rest := EncodeCandidate(s.list[i]), EncodeList(s.list[i + 1..]);
      assert payload + (piece + rest) == payload + piece + rest;
      payload := payload + piece;
    }
    assert payload + [] == payload;
    r := Ok(payload);
  }

  function Join(done: seq<Candidate>, rest: Option<Parsed<seq<Candidate>>>): Option<Parsed<seq<Candidate>>> {
    match rest
    case None => None
    case Some(r) => Some(Parsed(done + r.value, r.rest))
  }

  lemma JoinStep(done: seq<Candidate>, b: Bytes, count: nat)
    requires count > 0
    ensures Join(done, TakeList(b, count)) ==
            match TakeCandidate(b)
            case None => None
            case Some(c) => Join(done + [c.value], TakeList(c.rest, count - 1))
  {
    hide TakeCandidate;
    if TakeCandidate(b).Some? {
      var c := TakeCandidate(b).value;
      if TakeList(c.rest, count - 1).Some? {
        var cs := TakeList(c.rest, count - 1).value.value;
        assert done + ([c.value] + cs) == done + [c.value] + cs;
      }
    }
  }

  method DecodePayloadBytes(b: Bytes) returns (r: Option<Candidates>)
    ensures r == DecodePayload(b)
  {
    hide TakeCandidate, FromBigEndian, TakeList;
    if |b| < 10 || b[..5] != MAGIC || b[5] > 1 { return None; }
    var count := FromBigEndian(b[6..10]);
    if count > MAXIMUM_CANDIDATES { return None; }
    var rest := b[10..];
    var candidates: seq<Candidate> := [];
    var i := 0;
    JoinNone(TakeList(rest, count));
    while i < count
      invariant 0 <= i <= count
      invariant TakeList(b[10..], count) == Join(candidates, TakeList(rest, count - i))
    {
      JoinStep(candidates, rest, count - i);
      var next := TakeCandidate(rest);
      if next.None? { return None; }
      candidates := candidates + [next.value.value];
      rest := next.value.rest;
      i := i + 1;
    }
    ListEnds(candidates, rest);
    if rest != [] { return None; }
    r := Some(Candidates(b[5] == 1, candidates));
  }

  lemma JoinNone(rest: Option<Parsed<seq<Candidate>>>)
    ensures Join([], rest) == rest
  {
    if rest.Some? { assert [] + rest.value.value == rest.value.value; }
  }

  lemma ListEnds(done: seq<Candidate>, b: Bytes)
    ensures Join(done, TakeList(b, 0)) == Some(Parsed(done, b))
  {
    assert done + [] == done;
  }
}
