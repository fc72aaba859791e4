/** What a type identity stands for: exactly one type as far as the digests of the run are told apart, and never more
    than one shape. */
module TypeIdentity {
  import opened Prelude
  import opened Bytes
  import opened Cbef
  import opened CbefRecord
  import opened TypeInterner

  /** What is hashed for a request. */
  function TypePreimage(u: Unicode, q: Request): Result<Bytes, Error>
    requires q.term.kind < CONSTRUCTORS
  {
    match TermBytes(u, q.term)
    case Err(e) => Err(e)
    case Ok(shape) => EncodeRecord(u, TypeRecord(q.workspace, q.context, shape))
  }

  ghost predicate Requests(qs: seq<Request>) {
    forall q :: q in qs ==> q.term.kind < CONSTRUCTORS
  }

  /** Typed requests with 16-byte identities. */
  ghost predicate TypedRequests(qs: seq<Request>) {
    Requests(qs) && forall q :: q in qs ==> TypedTerm(q.term) && |q.workspace| == |q.context| == 16
  }

  lemma {:induction false} AnswerIsDerived(u: Unicode, digest: Bytes -> Bytes, table: Table<Bytes>, qs: seq<Request>,
                                           i: nat, id: Bytes)
    requires Requests(qs) && i < |qs| && Answers(u, digest, table, qs)[i] == Ok(id)
    ensures TypePreimage(u, qs[i]).Ok? && Short(digest(TypePreimage(u, qs[i]).value)) == id
    decreases |qs|
  {
    hide TermBytes, EncodeRecord;
    var (next, answer) := Serve(u, digest, table, qs[0]);
    if i > 0 {
      assert qs[i] == qs[1..][i - 1];
      AnswerIsDerived(u, digest, next, qs[1..], i - 1, id);
    }
  }

  // When a request is refused.

  /** Some request before j succeeded with this identity for other canonical bytes. */
  ghost predicate HeldBefore(u: Unicode, digest: Bytes -> Bytes, table: Table<Bytes>, qs: seq<Request>, j: nat,
                             id: Bytes)
    requires Requests(qs) && j < |qs|
  {
    exists i :: 0 <= i < j && Answers(u, digest, table, qs)[i] == Ok(id)
                && TermBytes(u, qs[i].term) != TermBytes(u, qs[j].term)
  }

  lemma HeldOneEarlier(u: Unicode, digest: Bytes -> Bytes, table: Table<Bytes>, qs: seq<Request>, j: nat, id: Bytes)
    requires Requests(qs) && 0 < j < |qs|
    ensures var (next, answer) := Serve(u, digest, table, qs[0]);
            HeldBefore(u, digest, table, qs, j, id) <==>
            || (answer == Ok(id) && TermBytes(u, qs[0].term) != TermBytes(u, qs[j].term))
            || HeldBefore(u, digest, next, qs[1..], j - 1, id)
  {
    hide TermBytes, Serve;
    var (next, answer) := Serve(u, digest, table, qs[0]);
    var rest := qs[1..];
    assert rest[j - 1] == qs[j];
    if i :| 0 <= i < j && Answers(u, digest, table, qs)[i] == Ok(id)
            && TermBytes(u, qs[i].term) != TermBytes(u, qs[j].term) {
      if i > 0 { assert rest[i - 1] == qs[i] && Answers(u, digest, next, rest)[i - 1] == Ok(id); }
    }
    if i :| 0 <= i < j - 1 && Answers(u, digest, next, rest)[i] == Ok(id)
            && TermBytes(u, rest[i].term) != TermBytes(u, rest[j - 1].term) {
      assert rest[i] == qs[i + 1] && Answers(u, digest, table, qs)[i + 1] == Ok(id);
    }
    if answer == Ok(id) { assert Answers(u, digest, table, qs)[0] == Ok(id); }
  }

  lemma ServeKnown(u: Unicode, digest: Bytes -> Bytes, table: Table<Bytes>, q: Request, id: Bytes)
    requires q.term.kind < CONSTRUCTORS && TypePreimage(u, q).Ok? && Short(digest(TypePreimage(u, q).value)) == id
    ensures Serve(u, digest, table, q).1 ==
            if id in table && Ok(table[id]) != TermBytes(u, q.term) then Err(IdCollision(id)) else Ok(id)
  {
    hide TermBytes, EncodeRecord;
  }

  lemma ServeBinds(u: Unicode, digest: Bytes -> Bytes, table: Table<Bytes>, q: Request, id: Bytes)
    requires q.term.kind < CONSTRUCTORS
    ensures var (next, answer) := Serve(u, digest, table, q);
            && (answer == Ok(id) ==> id in next && Ok(next[id]) == TermBytes(u, q.term))
            && (answer != Ok(id) ==> (id in next <==> id in table))
            && (id in table ==> id in next && next[id] == table[id])
  {
    hide TermBytes, EncodeRecord;
  }

  lemma {:induction false} RefusedFrom(u: Unicode, digest: Bytes -> Bytes, table: Table<Bytes>, qs: seq<Request>,
                                       j: nat, id: Bytes)
    requires Requests(qs) && j < |qs| && TypePreimage(u, qs[j]).Ok?
    requires Short(digest(TypePreimage(u, qs[j]).value)) == id
    ensures Answers(u, digest, table, qs)[j] ==
            if (id in table && Ok(table[id]) != TermBytes(u, qs[j].term)) || HeldBefore(u, digest, table, qs, j, id)
            then Err(IdCollision(id)) else Ok(id)
    decreases |qs|
  {
    hide TermBytes, Serve, TypePreimage;
    var (next, answer) := Serve(u, digest, table, qs[0]);
    if j == 0 {
      ServeKnown(u, digest, table, qs[0], id);
    } else {
      assert qs[j] == qs[1..][j - 1];
      RefusedFrom(u, digest, next, qs[1..], j - 1, id);
      HeldOneEarlier(u, digest, table, qs, j, id);
      ServeBinds(u, digest, table, qs[0], id);
    }
  }

  /** Whatever the digest function, a request that can be encoded is refused exactly when an earlier success holds the
      same identity for other canonical bytes, and otherwise gets its identity. */
  lemma RefusedExactlyWhen(u: Unicode, digest: Bytes -> Bytes, qs: seq<Request>, j: nat)
    requires Requests(qs) && j < |qs|
    ensures TypePreimage(u, qs[j]).Err? ==>
              Answers(u, digest, map[], qs)[j] == Err(Encoding(TypePreimage(u, qs[j]).error))
    ensures TypePreimage(u, qs[j]).Ok? ==>
              var id := Short(digest(TypePreimage(u, qs[j]).value));
              Answers(u, digest, map[], qs)[j] ==
              if HeldBefore(u, digest, map[], qs, j, id) then Err(IdCollision(id)) else Ok(id)
  {
    hide Answers, HeldBefore;
    if TypePreimage(u, qs[j]).Ok? {
      RefusedFrom(u, digest, map[], qs, j, Short(digest(TypePreimage(u, qs[j]).value)));
    } else {
      NotEncoded(u, digest, map[], qs, j);
    }
  }

  lemma {:induction false} NotEncoded(u: Unicode, digest: Bytes -> Bytes, table: Table<Bytes>, qs: seq<Request>, j: nat)
    requires Requests(qs) && j < |qs| && TypePreimage(u, qs[j]).Err?
    ensures Answers(u, digest, table, qs)[j] == Err(Encoding(TypePreimage(u, qs[j]).error))
    decreases |qs|
  {
    hide TermBytes, EncodeRecord;
    if j > 0 {
      assert qs[j] == qs[1..][j - 1];
      NotEncoded(u, digest, Serve(u, digest, table, qs[0]).0, qs[1..], j - 1);
    }
  }

  // Runs whose digests are told apart.

  /** The identities tell the preimages of these requests apart. */
  ghost predicate ToldApart(u: Unicode, digest: Bytes -> Bytes, qs: seq<Request>)
    requires Requests(qs)
  {
    forall p, q :: p in qs && q in qs && TypePreimage(u, p).Ok? && TypePreimage(u, q).Ok?
                   && Short(digest(TypePreimage(u, p).value)) == Short(digest(TypePreimage(u, q).value)) ==>
                   TypePreimage(u, p) == TypePreimage(u, q)
  }

  lemma SamePreimage(u: Unicode, p: Request, q: Request)
    requires Sound(u) && TypedRequests([p, q]) && TypePreimage(u, p).Ok? && TypePreimage(u, q).Ok?
    ensures TypePreimage(u, p) == TypePreimage(u, q) <==>
            p.workspace == q.workspace && p.context == q.context && TermBytes(u, p.term) == TermBytes(u, q.term)
  {
    hide TermBytes, EncodeRecord, TypeRecord, Sound, TypedTerm;
    assert p == [p, q][0] && q == [p, q][1];
    PreimageBindsType(u, p.workspace, p.context, TermBytes(u, p.term).value, q.workspace, q.context,
                      TermBytes(u, q.term).value);
  }

  /** Then no request is refused: each succeeds exactly if its canonical bytes exist and are shorter than 4 GiB. */
  lemma NeverRefused(u: Unicode, digest: Bytes -> Bytes, qs: seq<Request>, j: nat)
    requires Sound(u) && TypedRequests(qs) && ToldApart(u, digest, qs) && j < |qs|
    ensures Answers(u, digest, map[], qs)[j].Err? ==> Answers(u, digest, map[], qs)[j].error.Encoding?
    ensures Answers(u, digest, map[], qs)[j].Ok? <==>
            TermBytes(u, qs[j].term).Ok? && |TermBytes(u, qs[j].term).value| < U32_SIZE
  {
    hide Answers, TermBytes, EncodeRecord, TypeRecord, Sound, TypedTerm, Short;
    var q := qs[j];
    assert q in qs;
    if TermBytes(u, q.term).Ok? { TypeRecordEncodes(u, q.workspace, q.context, TermBytes(u, q.term).value); }
    RefusedExactlyWhen(u, digest, qs, j);
    if TypePreimage(u, q).Ok? {
      var id := Short(digest(TypePreimage(u, q).value));
      forall i | 0 <= i < j && Answers(u, digest, map[], qs)[i] == Ok(id)
        ensures TermBytes(u, qs[i].term) == TermBytes(u, q.term)
      {
        assert qs[i] in qs;
        AnswerIsDerived(u, digest, map[], qs, i, id);
        assert TypePreimage(u, qs[i]) == TypePreimage(u, q);
        SamePreimage(u, qs[i], q);
      }
    }
  }

  /** And two requests get one identity exactly if workspace, context and type agree. */
  lemma IdentityStandsForOneType(u: Unicode, digest: Bytes -> Bytes, qs: seq<Request>, i: nat, j: nat, a: Bytes,
                                 b: Bytes)
    requires Sound(u) && TypedRequests(qs) && ToldApart(u, digest, qs) && i < |qs| && j < |qs|
    requires Answers(u, digest, map[], qs)[i] == Ok(a) && Answers(u, digest, map[], qs)[j] == Ok(b)
    ensures a == b <==>
            && qs[i].workspace == qs[j].workspace && qs[i].context == qs[j].context
            && SameType(u, qs[i].term, qs[j].term)
  {
    hide TermBytes, Answers, SameType, TypedRecord, EncodeRecord, Sound, TypeRecord, Short;
    var q, p := qs[i], qs[j];
    assert q in qs && p in qs;
    AnswerIsDerived(u, digest, map[], qs, i, a);
    AnswerIsDerived(u, digest, map[], qs, j, b);
    SamePreimage(u, q, p);
    EqualTermBytes(u, q.term, p.term);
  }

  // Such digests exist for every run of fewer than 256^16 requests.

  function IndexOf(ps: seq<Bytes>, b: Bytes): (i: nat)
    ensures i <= |ps| && (i < |ps| ==> ps[i] == b) && (b in ps ==> i < |ps|)
    decreases |ps|
  {
    if ps == [] || ps[0] == b then 0 else 1 + IndexOf(ps[1..], b)
  }

  function PreimageOf(u: Unicode, q: Request): Bytes {
    if q.term.kind < CONSTRUCTORS && TypePreimage(u, q).Ok? then TypePreimage(u, q).value else []
  }

  /** Number the preimages. */
  function Numbering(ps: seq<Bytes>): Bytes -> Bytes {
    (b: Bytes) => BigEndian(IndexOf(ps, b), 16)
  }

  lemma NumberingTellsApart(ps: seq<Bytes>, a: Bytes, b: Bytes)
    requires |ps| < Power256(16) && a in ps && b in ps && Short(Numbering(ps)(a)) == Short(Numbering(ps)(b))
    ensures a == b
  {
    hide Power256, BigEndian;
    var x, y := Numbering(ps)(a), Numbering(ps)(b);
    assert x[..16] == x && y[..16] == y;
    BigEndianRoundTrip(IndexOf(ps, a), 16);
    BigEndianRoundTrip(IndexOf(ps, b), 16);
  }

  lemma SomeDigestTellsApart(u: Unicode, qs: seq<Request>) returns (digest: Bytes -> Bytes)
    requires Requests(qs) && |qs| < Power256(16)
    ensures ToldApart(u, digest, qs)
  {
    hide Power256, TypePreimage, Short, Numbering;
    var ps := seq(|qs|, i requires 0 <= i < |qs| => PreimageOf(u, qs[i]));
    digest := Numbering(ps);
    forall q | q in qs ensures PreimageOf(u, q) in ps {
      var i :| 0 <= i < |qs| && qs[i] == q;
      assert ps[i] == PreimageOf(u, q);
    }
    forall p, q | p in qs && q in qs && TypePreimage(u, p).Ok? && TypePreimage(u, q).Ok?
                  && Short(digest(TypePreimage(u, p).value)) == Short(digest(TypePreimage(u, q).value))
      ensures TypePreimage(u, p) == TypePreimage(u, q)
    {
      NumberingTellsApart(ps, PreimageOf(u, p), PreimageOf(u, q));
    }
  }

  // No digest tells all workspaces and contexts apart.

  function Image(f: nat -> nat, m: nat): set<nat> {
    set k | 0 <= k < m :: f(k)
  }

  lemma {:induction false} ImageSize(f: nat -> nat, m: nat)
    requires forall i, j :: 0 <= i < j < m ==> f(i) != f(j)
    ensures |Image(f, m)| == m
  {
    if m == 0 {
      assert Image(f, m) == {};
    } else {
      ImageSize(f, m - 1);
      assert Image(f, m) == Image(f, m - 1) + {f(m - 1)};
    }
  }

  lemma Pigeonhole(f: nat -> nat, n: nat) returns (i: nat, j: nat)
    requires forall k :: 0 <= k <= n ==> f(k) < n
    ensures i < j <= n && f(i) == f(j)
  {
    if forall i, j :: 0 <= i < j < n + 1 ==> f(i) != f(j) {
      var same: nat -> nat := k => k;
      ImageSize(f, n + 1);
      ImageSize(same, n);
      forall k | k in Image(f, n + 1) ensures k in Image(same, n) { assert same(k) == k; }
      Proper(Image(f, n + 1), Image(same, n));
      assert false;
    }
    i, j :| 0 <= i < j < n + 1 && f(i) == f(j);
  }

  /** Identities, of whatever length up to 16, as numbers. */
  function Padded(id: Bytes): (r: Bytes)
    requires |id| <= 16
    ensures |r| == 17
  {
    seq(16 - |id|, i => 0) + [1] + id
  }

  lemma PaddedInjective(a: Bytes, b: Bytes)
    requires |a| <= |b| <= 16 && Padded(a) == Padded(b)
    ensures a == b
  {
    var n := 16 - |b|;
    assert Padded(b)[n] == 1;
    assert forall i :: 0 <= i < 16 - |a| ==> Padded(a)[i] == 0;
    assert Padded(a)[n + 1..] == a && Padded(b)[n + 1..] == b;
  }

  function Number(id: Bytes): nat
    requires |id| <= 16
  {
    FromBigEndian(Padded(id))
  }

  lemma NumberInjective(a: Bytes, b: Bytes)
    requires |a| <= 16 && |b| <= 16 && Number(a) == Number(b)
    ensures a == b
  {
    hide Padded;
    FromBigEndianRoundTrip(Padded(a));
    FromBigEndianRoundTrip(Padded(b));
    if |a| <= |b| { PaddedInjective(a, b); } else { PaddedInjective(b, a); }
  }

  /** The k-th workspace and context. */
  function KthRequest(term: Term, k: nat): Request {
    Request(BigEndian(k, 32)[..16], BigEndian(k, 32)[16..], term)
  }

  lemma KthDiffer(term: Term, i: nat, j: nat)
    requires i < j < Power256(32)
    ensures KthRequest(term, i) != KthRequest(term, j)
  {
    hide BigEndian, Power256;
    BigEndianRoundTrip(i, 32);
    BigEndianRoundTrip(j, 32);
    var a, b := BigEndian(i, 32), BigEndian(j, 32);
    assert a == a[..16] + a[16..] && b == b[..16] + b[16..];
  }

  /** The identity derived for the k-th request. */
  function KthIdentity(u: Unicode, digest: Bytes -> Bytes, term: Term, k: nat): (id: Bytes)
    requires term.kind < CONSTRUCTORS
    ensures |id| <= 16
  {
    match TypePreimage(u, KthRequest(term, k))
    case Ok(preimage) => Short(digest(preimage))
    case Err(_) => []
  }

  lemma Encodable(u: Unicode, term: Term, k: nat)
    requires term.kind < CONSTRUCTORS && TermBytes(u, term).Ok? && |TermBytes(u, term).value| < U32_SIZE
    ensures TypePreimage(u, KthRequest(term, k)).Ok?
  {
    hide TermBytes, EncodeRecord, BigEndian;
    var q := KthRequest(term, k);
    TypeRecordEncodes(u, q.workspace, q.context, TermBytes(u, term).value);
  }

  lemma {:induction false} PowersGrow(m: nat, n: nat)
    requires m < n
    ensures Power256(m) < Power256(n)
  {
    if m > 0 { PowersGrow(m - 1, n - 1); } else if n > 1 { PowersGrow(m, n - 1); }
  }

  /** Whatever the digest function, every type has two workspaces or contexts that get the same identity, because the
      table compares shapes alone. */
  lemma EveryDigestConfusesContexts(u: Unicode, digest: Bytes -> Bytes, term: Term) returns (p: Request, q: Request)
    requires term.kind < CONSTRUCTORS && TermBytes(u, term).Ok? && |TermBytes(u, term).value| < U32_SIZE
    ensures p != q && p.term == q.term == term
    ensures |p.workspace| == |p.context| == |q.workspace| == |q.context| == 16
    ensures var answers := Answers(u, digest, map[], [p, q]);
            answers[0].Ok? && answers[0] == answers[1]
  {
    hide TermBytes, TypePreimage, Power256, BigEndian, Number, Answers;
    var f := (k: nat) => Number(KthIdentity(u, digest, term, k));
    forall k: nat | k <= Power256(17) ensures f(k) < Power256(17) {
      NumberBounded(KthIdentity(u, digest, term, k));
    }
    var i, j := Pigeonhole(f, Power256(17));
    p, q := KthRequest(term, i), KthRequest(term, j);
    NumberInjective(KthIdentity(u, digest, term, i), KthIdentity(u, digest, term, j));
    PowersGrow(17, 32);
    KthDiffer(term, i, j);
    Encodable(u, term, i);
    Encodable(u, term, j);
    SameTermNotRefused(u, digest, p, q);
  }

  lemma NumberBounded(id: Bytes)
    requires |id| <= 16
    ensures Number(id) < Power256(17)
  {
    FromBigEndianRoundTrip(Padded(id));
  }

  lemma SameTermNotRefused(u: Unicode, digest: Bytes -> Bytes, p: Request, q: Request)
    requires p.term == q.term && p.term.kind < CONSTRUCTORS && TypePreimage(u, p).Ok? && TypePreimage(u, q).Ok?
    ensures Answers(u, digest, map[], [p, q]) ==
            [Ok(Short(digest(TypePreimage(u, p).value))), Ok(Short(digest(TypePreimage(u, q).value)))]
  {
    hide TermBytes, TypePreimage, Answers, Short;
    var qs := [p, q];
    RefusedExactlyWhen(u, digest, qs, 0);
    RefusedExactlyWhen(u, digest, qs, 1);
    assert qs[0] == p && qs[1] == q;
  }
}
