/** Disk growth reservations with rounding, two floors and exact release. */
module DiskHeadroom {
  import opened Prelude

  const MIB: nat := 1024 * 1024
  const DATA_FLOOR: nat := 128 * MIB
  const CLEANUP_FLOOR: nat := 16 * MIB

  datatype Class = Data | Control

  datatype Sample = Sample(available: nat, unit: nat)

  datatype Error = Unobservable | Overflow | Insufficient(available: nat, required: nat)

  datatype Permit = Permit(bytes: nat, class_: Class)

  /** What a probe reports: 64-bit sizes and a non-zero allocation unit. */
  predicate Probed(s: Sample) {
    s.available <= U64_MAX && 1 <= s.unit <= U64_MAX
  }

  function Floor(c: Class): nat {
    match c
    case Data => DATA_FLOOR
    case Control => CLEANUP_FLOOR
  }

  function AtLeastOne(bytes: nat): nat {
    if bytes == 0 then 1 else bytes
  }

  /** Whole allocation units, unless the intermediate sum leaves 64 bits. */
  function Rounded(bytes: nat, unit: nat): Result<nat, Error>
    requires unit >= 1
  {
    if AtLeastOne(bytes) + unit - 1 > U64_MAX then Err(Overflow)
    else
      var units := (AtLeastOne(bytes) + unit - 1) / unit;
      if units * unit > U64_MAX then Err(Overflow) else Ok(units * unit)
  }

  function Reserve(inFlight: nat, s: Sample, bytes: nat, c: Class): Result<nat, Error>
    requires s.unit >= 1
  {
    match Rounded(bytes, s.unit)
    case Err(e) => Err(e)
    case Ok(rounded) =>
      if inFlight + rounded > U64_MAX || inFlight + rounded + Floor(c) > U64_MAX then Err(Overflow)
      else if inFlight + rounded + Floor(c) > s.available then
          Err(Insufficient(s.available, inFlight + rounded + Floor(c)))
      else Ok(rounded)
  }

  /** A request is granted exactly when what is in flight, its rounded size and 128 MiB (16 MiB for control) together
      are available and fit 64 bits; otherwise nothing is granted, and a shortage names what is available and needed. */
  lemma GrantedIff(inFlight: nat, s: Sample, bytes: nat, c: Class)
    requires Probed(s)
    ensures var r, floor := Reserve(inFlight, s, bytes, c), if c == Data then 134217728 else 16777216;
            match Rounded(bytes, s.unit)
            case Err(e) => r == Err(Overflow)
            case Ok(rounded) =>
              var required := inFlight + rounded + floor;
              && (r.Ok? <==> required <= s.available)
              && (r.Ok? ==> r.value == rounded)
              && (r == Err(Overflow) <==> required > 0xFFFF_FFFF_FFFF_FFFF)
              && (s.available < required <= 0xFFFF_FFFF_FFFF_FFFF ==> r == Err(Insufficient(s.available, required)))
  {
  }

  // Rounding.

  lemma DivideUp(n: nat, unit: nat)
    requires n >= 1 && unit >= 1
    ensures var units := (n + unit - 1) / unit; n <= units * unit < n + unit && units >= 1
  {
    var units := (n + unit - 1) / unit;
    assert units * unit + (n + unit - 1) % unit == n + unit - 1;
  }

  /** The rounded size is the least positive multiple of the unit that covers the request. */
  lemma RoundedIsLeast(bytes: nat, unit: nat, k: nat)
    requires unit >= 1 && Rounded(bytes, unit).Ok?
    ensures var r := Rounded(bytes, unit).value;
            && r >= bytes && r >= 1
            && (exists units: nat :: r == units * unit)
            && (k * unit >= bytes && k * unit >= 1 ==> r <= k * unit)
  {
    var n := AtLeastOne(bytes);
    var units := (n + unit - 1) / unit;
    DivideUp(n, unit);
    assert Rounded(bytes, unit).value == units * unit;
    if k * unit >= n { LeastMultiple(n, unit, units, k); }
  }

  lemma LeastMultiple(n: nat, unit: nat, units: nat, k: nat)
    requires unit >= 1 && units * unit < n + unit && k * unit >= n
    ensures units * unit <= k * unit
  {
    if k < units { MultipleBelow(k, units, unit); }
  }

  lemma MultipleBelow(k: nat, units: nat, unit: nat)
    requires k + 1 <= units
    ensures k * unit + unit <= units * unit
  {
    assert (units - k - 1) * unit >= 0;
    assert units * unit == (units - k - 1) * unit + k * unit + unit;
  }

  /** Only a request within one unit of the 64-bit limit fails to round. */
  lemma RoundsExactlyWhen(bytes: nat, unit: nat)
    requires unit >= 1
    ensures Rounded(bytes, unit).Ok? <==>
            (if bytes == 0 then 1 else bytes) + unit - 1 <= 0xFFFF_FFFF_FFFF_FFFF
  {
    DivideUp(AtLeastOne(bytes), unit);
  }

  // Runs of reservations and releases.

  function Sum(permits: seq<Permit>): nat {
    if permits == [] then 0 else permits[0].bytes + Sum(permits[1..])
  }

  function SumOf(c: Class, permits: seq<Permit>): nat {
    if permits == [] then 0 else (if permits[0].class_ == c then permits[0].bytes else 0) + SumOf(c, permits[1..])
  }

  datatype Ledger = Ledger(inFlight: nat, live: seq<Permit>)

  datatype Event =
    | TryReserve(sample: Result<Sample, Error>, bytes: nat, class_: Class)
    | Drop(index: nat)

  function Without(permits: seq<Permit>, k: nat): seq<Permit>
    requires k < |permits|
  {
    permits[..k] + permits[k + 1..]
  }

  predicate Allowed(l: Ledger, e: Event) {
    match e
    case TryReserve(sample, _, _) => sample.Ok? ==> Probed(sample.value)
    case Drop(k) => k < |l.live|
  }

  /** A drop is exact: it would be a failure to subtract more than is in flight. */
  function Apply(l: Ledger, e: Event): Option<Ledger>
    requires Allowed(l, e)
  {
    match e
    case TryReserve(Err(_), _, _) => Some(l)
    case TryReserve(Ok(sample), bytes, c) =>
      (match Reserve(l.inFlight, sample, bytes, c)
       case Err(_) => Some(l)
       case Ok(rounded) => Some(Ledger(l.inFlight + rounded, l.live + [Permit(rounded, c)])))
    case Drop(k) =>
      if l.live[k].bytes > l.inFlight then None
      else Some(Ledger(l.inFlight - l.live[k].bytes, Without(l.live, k)))
  }

  ghost predicate Balanced(l: Ledger) {
    l.inFlight == Sum(l.live)
  }

  lemma {:induction false} SumSplits(a: seq<Permit>, b: seq<Permit>)
    ensures Sum(a + b) == Sum(a) + Sum(b) && forall c :: SumOf(c, a + b) == SumOf(c, a) + SumOf(c, b)
  {
    if a == [] {
      assert a + b == b;
    } else {
      SumSplits(a[1..], b);
      assert (a + b)[1..] == a[1..] + b;
    }
  }

  lemma SumWithout(permits: seq<Permit>, k: nat)
    requires k < |permits|
    ensures Sum(permits) == Sum(Without(permits, k)) + permits[k].bytes
    ensures forall c ::
              SumOf(c, permits) == SumOf(c, Without(permits, k)) + if permits[k].class_ == c then permits[k].bytes
                  else 0
  {
    hide Sum, SumOf;
    SumSplits(permits[..k], permits[k..]);
    SumSplits([permits[k]], permits[k + 1..]);
    SumSplits(permits[..k], permits[k + 1..]);
    assert permits == permits[..k] + permits[k..] && permits[k..] == [permits[k]] + permits[k + 1..];
    SumOne(permits[k]);
  }

  lemma SumOne(p: Permit)
    ensures Sum([p]) == p.bytes && forall c :: SumOf(c, [p]) == if p.class_ == c then p.bytes else 0
  {
    assert [p][1..] == [];
  }

  lemma {:induction false} SumByClass(permits: seq<Permit>)
    ensures Sum(permits) == SumOf(Data, permits) + SumOf(Control, permits)
  {
    if permits != [] { SumByClass(permits[1..]); }
  }

  /** Every event keeps the books balanced, so a drop never fails. */
  lemma ApplyBalances(l: Ledger, e: Event)
    requires Balanced(l) && Allowed(l, e)
    ensures Apply(l, e).Some? && Balanced(Apply(l, e).value)
  {
    hide Sum, SumOf, Reserve;
    match e {
      case TryReserve(Ok(sample), bytes, c) =>
        var r := Reserve(l.inFlight, sample, bytes, c);
        if r.Ok? {
          SumSplits(l.live, [Permit(r.value, c)]);
          SumOne(Permit(r.value, c));
        }
      case Drop(k) => SumWithout(l.live, k);
      case _ =>
    }
  }

  /** No sample reports more than this available size. */
  predicate AtMost(available: nat, e: Event) {
    e.TryReserve? && e.sample.Ok? ==> e.sample.value.available <= available
  }

  ghost predicate WithinFloor(available: nat, l: Ledger) {
    Balanced(l) && SumOf(Data, l.live) + DATA_FLOOR <= available
  }

  lemma ApplyKeepsFloor(available: nat, l: Ledger, e: Event)
    requires available >= DATA_FLOOR && WithinFloor(available, l) && Allowed(l, e) && AtMost(available, e)
    ensures Apply(l, e).Some? && WithinFloor(available, Apply(l, e).value)
  {
    hide Sum, SumOf, Rounded;
    ApplyBalances(l, e);
    match e {
      case TryReserve(Ok(sample), bytes, c) =>
        var r := Reserve(l.inFlight, sample, bytes, c);
        if r.Ok? {
          SumSplits(l.live, [Permit(r.value, c)]);
          SumOne(Permit(r.value, c));
          SumByClass(l.live);
        }
      case Drop(k) => SumWithout(l.live, k);
      case _ =>
    }
  }

  function RunEvents(l: Ledger, es: seq<Event>): Option<Ledger>
    decreases |es|
  {
    if es == [] then Some(l)
    else if !Allowed(l, es[0]) then None
    else
      match Apply(l, es[0])
      case None => None
      case Some(next) => RunEvents(next, es[1..])
  }

  /** Whether each event of a run is allowed where it occurs. */
  ghost predicate AllAllowed(l: Ledger, es: seq<Event>)
    decreases |es|
  {
    es != [] ==>
      Allowed(l, es[0]) && match Apply(l, es[0]) case None => true case Some(next) => AllAllowed(next, es[1..])
  }

  /** Over any run, what is in flight is the sum of the live permits and no release underflows. */
  lemma {:induction false} RunBalances(l: Ledger, es: seq<Event>)
    requires Balanced(l) && AllAllowed(l, es)
    ensures RunEvents(l, es).Some? && Balanced(RunEvents(l, es).value)
    decreases |es|
  {
    hide Balanced, Apply;
    if es != [] {
      ApplyBalances(l, es[0]);
      RunBalances(Apply(l, es[0]).value, es[1..]);
    }
  }

  /** Data growth stays clear of its floor below the largest sample. */
  lemma {:induction false} RunKeepsFloor(available: nat, l: Ledger, es: seq<Event>)
    requires available >= DATA_FLOOR && WithinFloor(available, l) && AllAllowed(l, es)
    requires forall e :: e in es ==> AtMost(available, e)
    ensures RunEvents(l, es).Some? && WithinFloor(available, RunEvents(l, es).value)
    decreases |es|
  {
    hide WithinFloor, Apply;
    if es != [] {
      assert es[0] in es;
      ApplyKeepsFloor(available, l, es[0]);
      RunKeepsFloor(available, Apply(l, es[0]).value, es[1..]);
    }
  }

  /** So cleanup always gets 112 MiB: as long as no earlier sample was larger, such a control request is admitted. */
  lemma ControlAdmitted(available: nat, es: seq<Event>, s: Sample, bytes: nat)
    requires available >= DATA_FLOOR && AllAllowed(Ledger(0, []), es) && forall e :: e in es ==> AtMost(available, e)
    requires Probed(s) && s.available >= available && Rounded(bytes, s.unit).Ok? && RunEvents(Ledger(0, []), es).Some?
    requires SumOf(Control, RunEvents(Ledger(0, []), es).value.live) + Rounded(bytes, s.unit).value <= 112 * MIB
    ensures Reserve(RunEvents(Ledger(0, []), es).value.inFlight, s, bytes, Control) == Rounded(bytes, s.unit)
  {
    hide RunEvents, Rounded, AllAllowed;
    RunKeepsFloor(available, Ledger(0, []), es);
    SumByClass(RunEvents(Ledger(0, []), es).value.live);
  }

  // The allocator.

  class Headroom {
    var inFlight: nat
    ghost var live: seq<Permit>

    ghost predicate Valid()
      reads this
    {
      Balanced(Ledger(inFlight, live))
    }

    constructor ()
      ensures Valid() && inFlight == 0 && live == []
    {
      inFlight := 0;
      live := [];
    }

    method TryReserveGrowth(sample: Result<Sample, Error>, bytes: nat, c: Class) returns (r: Result<Permit, Error>)
      requires Valid() && Allowed(Ledger(inFlight, live), TryReserve(sample, bytes, c)) && bytes <= U64_MAX
      modifies this
      ensures Valid()
      ensures Some(Ledger(inFlight, live)) == Apply(old(Ledger(inFlight, live)), TryReserve(sample, bytes, c))
      ensures match sample
              case Err(e) => r == Err(e)
              case Ok(s) =>
                match Reserve(old(inFlight), s, bytes, c)
                case Err(e) => r == Err(e)
                case Ok(rounded) => r == Ok(Permit(rounded, c)) && live == old(live) + [Permit(rounded, c)]
    {
      ApplyBalances(Ledger(inFlight, live), TryReserve(sample, bytes, c));
      if sample.Err? { return Err(sample.error); }
      var s := sample.value;
      var rounded := Rounded(bytes, s.unit);
      if rounded.Err? { return Err(rounded.error); }
      var newInFlight := inFlight + rounded.value;
      if newInFlight > U64_MAX { return Err(Overflow); }
      var required := newInFlight + Floor(c);
      if required > U64_MAX { return Err(Overflow); }
      if required > s.available { return Err(Insufficient(s.available, required)); }
      inFlight := newInFlight;
      var permit := Permit(rounded.value, c);
      live := live + [permit];
      r := Ok(permit);
    }

    /** Dropping a live permit gives back exactly what it reserved. */
    method Release(permit: Permit, ghost k: nat)
      requires Valid() && k < |live| && live[k] == permit
      modifies this
      ensures Valid() && inFlight == old(inFlight) - permit.bytes && live == Without(old(live), k)
    {
      ApplyBalances(Ledger(inFlight, live), Drop(k));
      inFlight := inFlight - permit.bytes;
      live := Without(live, k);
    }
  }
}
