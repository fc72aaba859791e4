/** Chunked inventory upload: an ordered stream that commits only at its end marker. */
module InventoryUpload {
  import opened Prelude

  const MAX_MODULES_PER_RUN: nat := 16_384
  const MODULES_PER_CHUNK: nat := 64
  const MAX_CHUNKS: nat := 2 * MAX_MODULES_PER_RUN / MODULES_PER_CHUNK
  const MAX_DESCRIPTOR_BYTES: nat := 32 * 1024 * 1024

  datatype Command<M, C> =
    | Chunk(sequence: nat, modules: seq<M>, changed: seq<C>)
    | End(chunks: nat, modulesCount: nat, changedCount: nat)
    | Cancel(run: string, reason: string)
    | Other

  /** What waiting for the next command may bring. */
  datatype Arrival<M, C> = Received(command: Command<M, C>, size: nat) | StreamFailed | TimedOut

  datatype Status = ResourceExhausted | InvalidArgument | DeadlineExceeded | Cancelled | Transport

  // The stream so far.

  function Size<M, C>(as_: seq<Arrival<M, C>>): nat {
    if as_ == [] then 0
    else
      var last := as_[|as_| - 1];
      Size(as_[..|as_| - 1]) + if last.Received? then last.size else 0
  }

  function IsChunk<M, C>(a: Arrival<M, C>): bool {
    a.Received? && a.command.Chunk?
  }

  function Modules<M, C>(as_: seq<Arrival<M, C>>): seq<M> {
    if as_ == [] then []
    else
      var last := as_[|as_| - 1];
      Modules(as_[..|as_| - 1]) + if IsChunk(last) then last.command.modules else []
  }

  function Changed<M, C>(as_: seq<Arrival<M, C>>): seq<C> {
    if as_ == [] then []
    else
      var last := as_[|as_| - 1];
      Changed(as_[..|as_| - 1]) + if IsChunk(last) then last.command.changed else []
  }

  /** The k-th arrival is chunk number k and keeps every bound. */
  ghost predicate GoodChunk<M, C>(as_: seq<Arrival<M, C>>, k: nat, expected: nat)
    requires k < |as_|
  {
    && IsChunk(as_[k]) && as_[k].command.sequence == k && k < 512
    && Size(as_[..k + 1]) <= 33554432
    && |as_[k].command.modules| <= 64 && |as_[k].command.changed| <= 64
    && |as_[k].command.modules| + |as_[k].command.changed| > 0
    && |Modules(as_[..k + 1])| <= expected && |Changed(as_[..k + 1])| <= 16384
  }

  /** Chunks 0, 1, 2, ... and then an end marker whose counts match. */
  ghost predicate Complete<M, C>(as_: seq<Arrival<M, C>>, n: nat, expected: nat) {
    && n < |as_| && (forall k :: 0 <= k < n ==> GoodChunk(as_, k, expected))
    && as_[n].Received? && as_[n].command == End(n, expected, |Changed(as_[..n])|)
    && Size(as_[..n + 1]) <= 33554432 && |Modules(as_[..n])| == expected
  }

  class AnalyzeRequest<M, C> {
    const run: string
    const expected: Option<nat>
    var modules: seq<M>
    var changed: seq<C>

    constructor (run: string, expected: Option<nat>, modules: seq<M>, changed: seq<C>)
      ensures this.run == run && this.expected == expected && this.modules == modules && this.changed == changed
    {
      this.run, this.expected, this.modules, this.changed := run, expected, modules, changed;
    }

    method ReceiveInventory(arrivals: seq<Arrival<M, C>>, inTime: bool) returns (r: Result<(), Status>)
      modifies this
      ensures r.Err? ==> modules == old(modules) && changed == old(changed)
      ensures expected.None? ==> modules == old(modules) && changed == old(changed)
      ensures expected.None? ==> (r.Ok? <==> |modules| <= 64 && |changed| <= 64)
      ensures expected.Some? ==>
                (r.Ok? <==> && expected.value <= 16384 && old(modules) == [] && old(changed) == [] && inTime
                            && exists n: nat :: Complete(arrivals, n, expected.value))
      ensures r.Ok? && expected.Some? ==>
                exists n: nat :: Complete(arrivals, n, expected.value) &&
                                 modules == Modules(arrivals[..n]) && changed == Changed(arrivals[..n])
      ensures r.Err? && expected.None? ==> r.error == ResourceExhausted
      ensures r.Err? && expected.Some? ==>
                if expected.value > 16384 || old(modules) != [] || old(changed) != [] then
                  r.error == InvalidArgument
                else if !inTime then r.error == DeadlineExceeded
                else exists n: nat :: RefusedAt(run, arrivals, n, expected.value, r.error)
    {
      if expected.None? {
        if |modules| > MODULES_PER_CHUNK || |changed| > MODULES_PER_CHUNK { return Err(ResourceExhausted); }
        return Ok(());
      }
      if expected.value > MAX_MODULES_PER_RUN || modules != [] || changed != [] { return Err(InvalidArgument); }
      if !inTime { return Err(DeadlineExceeded); }
      var assembled := Assemble(run, expected.value, arrivals);
      if assembled.Err? { return Err(assembled.error); }
      modules, changed := assembled.value.0, assembled.value.1;
      r := Ok(());
    }
  }

  /** The receive loop. */
  method Assemble<M, C>(run: string, expected: nat, arrivals: seq<Arrival<M, C>>)
    returns (r: Result<(seq<M>, seq<C>), Status>)
    ensures r.Ok? <==> exists n: nat :: Complete(arrivals, n, expected)
    ensures r.Ok? ==> exists n: nat ::
              Complete(arrivals, n, expected) && r.value == (Modules(arrivals[..n]), Changed(arrivals[..n]))
    ensures r.Err? ==> exists n: nat :: RefusedAt(run, arrivals, n, expected, r.error)
  {
    hide GoodChunk, Size, Modules, Changed, RefusedAt;
    var n := 0;
    var bytes := 0;
    var modules: seq<M> := [];
    var changed: seq<C> := [];
    StreamBegins<M, C>();
    assert arrivals[..0] == [];
    while true
      invariant 0 <= n <= |arrivals|
      invariant bytes == Size(arrivals[..n]) && modules == Modules(arrivals[..n]) && changed == Changed(arrivals[..n])
      invariant forall k :: 0 <= k < n ==> GoodChunk(arrivals, k, expected)
      decreases |arrivals| - n
    {
      if n == |arrivals| {
        NotComplete(arrivals, n, expected);
        RefusedHere(run, arrivals, n, expected);
        return Err(InvalidArgument);
      }
      StreamGrows(arrivals, n);
      NotBefore(arrivals, n, expected);
      RefusedHere(run, arrivals, n, expected);
      match arrivals[n] {
        case TimedOut => return Err(DeadlineExceeded);
        case StreamFailed => return Err(Transport);
        case Received(command, size) =>
          bytes := bytes + size;
          if bytes > MAX_DESCRIPTOR_BYTES { return Err(ResourceExhausted); }
          match command {
            case Chunk(sequence, ms, cs) =>
              if sequence != n || n >= MAX_CHUNKS || |ms| > MODULES_PER_CHUNK || |cs| > MODULES_PER_CHUNK ||
                 (|ms| == 0 && |cs| == 0) || |modules| + |ms| > expected || |changed| + |cs| > MAX_MODULES_PER_RUN
              {
                return Err(InvalidArgument);
              }
              modules := modules + ms;
              changed := changed + cs;
              n := n + 1;
            case End(chunks, modulesCount, changedCount) =>
              if chunks != n || modulesCount != expected || |modules| != expected || changedCount != |changed| {
                return Err(InvalidArgument);
              }
              assert Complete(arrivals, n, expected);
              return Ok((modules, changed));
            case Cancel(cancelled, reason) =>
              if cancelled == run && reason != "" { return Err(Status.Cancelled); }
              return Err(InvalidArgument);
            case Other => return Err(InvalidArgument);
          }
      }
    }
  }

  /** How the n-th arrival ends an upload that it does not continue. */
  function Refusal<M, C>(run: string, arrivals: seq<Arrival<M, C>>, n: nat): Status
    requires n <= |arrivals|
  {
    if n == |arrivals| then InvalidArgument
    else
      match arrivals[n]
      case TimedOut => DeadlineExceeded
      case StreamFailed => Transport
      case Received(command, size) =>
        if Size(arrivals[..n]) + size > MAX_DESCRIPTOR_BYTES then ResourceExhausted
        else if command.Cancel? && command.run == run && command.reason != "" then Status.Cancelled
        else InvalidArgument
  }

  /** The n-th arrival is the first that is no good chunk, nor does it complete the upload. */
  ghost predicate RefusedAt<M, C>(run: string, arrivals: seq<Arrival<M, C>>, n: nat, expected: nat, status: Status) {
    && n <= |arrivals| && (forall k :: 0 <= k < n ==> GoodChunk(arrivals, k, expected))
    && (n < |arrivals| ==> !GoodChunk(arrivals, n, expected) && !Complete(arrivals, n, expected))
    && (status == DeadlineExceeded <==> n < |arrivals| && arrivals[n].TimedOut?)
    && (status == Transport <==> n < |arrivals| && arrivals[n].StreamFailed?)
    && (status == ResourceExhausted <==>
        n < |arrivals| && arrivals[n].Received? && Size(arrivals[..n]) + arrivals[n].size > 33554432)
    && (status == Status.Cancelled <==>
        && n < |arrivals| && arrivals[n].Received? && Size(arrivals[..n]) + arrivals[n].size <= 33554432
        && arrivals[n].command.Cancel? && arrivals[n].command.run == run && arrivals[n].command.reason != "")
  }

  lemma RefusedHere<M, C>(run: string, arrivals: seq<Arrival<M, C>>, n: nat, expected: nat)
    requires n <= |arrivals| && forall k :: 0 <= k < n ==> GoodChunk(arrivals, k, expected)
    ensures || (n < |arrivals| && (GoodChunk(arrivals, n, expected) || Complete(arrivals, n, expected)))
            || RefusedAt(run, arrivals, n, expected, Refusal(run, arrivals, n))
  {
  }

  lemma StreamBegins<M, C>()
    ensures Size<M, C>([]) == 0 && Modules<M, C>([]) == [] && Changed<M, C>([]) == []
  {
  }

  /** What one arrival adds, and when it is a good chunk. */
  lemma StreamGrows<M, C>(as_: seq<Arrival<M, C>>, n: nat)
    requires n < |as_|
    ensures Size(as_[..n + 1]) == Size(as_[..n]) + if as_[n].Received? then as_[n].size else 0
    ensures Modules(as_[..n + 1]) == Modules(as_[..n]) + if IsChunk(as_[n]) then as_[n].command.modules else []
    ensures Changed(as_[..n + 1]) == Changed(as_[..n]) + if IsChunk(as_[n]) then as_[n].command.changed else []
    ensures forall expected: nat :: GoodChunk(as_, n, expected) <==>
              && IsChunk(as_[n]) && as_[n].command.sequence == n && n < MAX_CHUNKS
              && Size(as_[..n]) + as_[n].size <= MAX_DESCRIPTOR_BYTES
              && |as_[n].command.modules| <= MODULES_PER_CHUNK && |as_[n].command.changed| <= MODULES_PER_CHUNK
              && |as_[n].command.modules| + |as_[n].command.changed| > 0
              && |Modules(as_[..n])| + |as_[n].command.modules| <= expected
              && |Changed(as_[..n])| + |as_[n].command.changed| <= MAX_MODULES_PER_RUN
  {
    assert as_[..n + 1][..n] == as_[..n];
  }

  /** While good chunks keep coming, no earlier point completed the upload. */
  lemma NotBefore<M, C>(as_: seq<Arrival<M, C>>, n: nat, expected: nat)
    requires n < |as_| && forall k :: 0 <= k < n ==> GoodChunk(as_, k, expected)
    ensures forall m: nat :: Complete(as_, m, expected) ==> m == n || (m > n && GoodChunk(as_, n, expected))
  {
    hide Size, Modules, Changed;
    forall m: nat | Complete(as_, m, expected) ensures m == n || (m > n && GoodChunk(as_, n, expected)) {
      assert m < n ==> GoodChunk(as_, m, expected);
    }
  }

  lemma NotComplete<M, C>(as_: seq<Arrival<M, C>>, n: nat, expected: nat)
    requires n == |as_| && forall k :: 0 <= k < n ==> GoodChunk(as_, k, expected)
    ensures forall m: nat :: !Complete(as_, m, expected)
  {
    hide Size, Modules, Changed;
    forall m: nat ensures !Complete(as_, m, expected) {
      if m < n { assert GoodChunk(as_, m, expected); }
    }
  }

  // The sender.

  function Clip(n: nat, length: nat): nat {
    if n <= length then n else length
  }

  /** The k-th stretch of at most one chunk's items. */
  function Stretch<T>(xs: seq<T>, k: nat): seq<T> {
    xs[Clip(k * MODULES_PER_CHUNK, |xs|)..Clip((k + 1) * MODULES_PER_CHUNK, |xs|)]
  }

  function ChunkCount(modules: nat, changed: nat): nat {
    ((if modules >= changed then modules else changed) + MODULES_PER_CHUNK - 1) / MODULES_PER_CHUNK
  }

  method SendInventory<M, C>(modules: seq<M>, changed: seq<C>) returns (commands: seq<Command<M, C>>)
    ensures var count := ChunkCount(|modules|, |changed|);
            && |commands| == count + 1
            && (forall k :: 0 <= k < count ==> commands[k] == Chunk(k, Stretch(modules, k), Stretch(changed, k)))
            && commands[count] == End(count, |modules|, |changed|)
  {
    commands := [];
    var count := ChunkCount(|modules|, |changed|);
    for k := 0 to count
      invariant |commands| == k
      invariant forall j :: 0 <= j < k ==> commands[j] == Chunk(j, Stretch(modules, j), Stretch(changed, j))
    {
      commands := commands + [Chunk(k, Stretch(modules, k), Stretch(changed, k))];
    }
    commands := commands + [End(count, |modules|, |changed|)];
  }

  /** A stream that delivers exactly what the sender sends. */
  ghost predicate Delivers<M, C>(as_: seq<Arrival<M, C>>, modules: seq<M>, changed: seq<C>) {
    var count := ChunkCount(|modules|, |changed|);
    && |as_| == count + 1
    && (forall k :: 0 <= k < count ==>
          as_[k].Received? && as_[k].command == Chunk(k, Stretch(modules, k), Stretch(changed, k)))
    && as_[count].Received? && as_[count].command == End(count, |modules|, |changed|)
  }

  lemma StretchesJoin<T>(xs: seq<T>, k: nat)
    ensures xs[..Clip(k * MODULES_PER_CHUNK, |xs|)] + Stretch(xs, k) == xs[..Clip((k + 1) * MODULES_PER_CHUNK, |xs|)]
    ensures |Stretch(xs, k)| <= MODULES_PER_CHUNK
  {
  }

  /** After k chunks the receiver holds the first k stretches of both lists. */
  lemma {:induction false} Assembled<M, C>(as_: seq<Arrival<M, C>>, modules: seq<M>, changed: seq<C>, k: nat)
    requires Delivers(as_, modules, changed) && k <= ChunkCount(|modules|, |changed|)
    ensures Modules(as_[..k]) == modules[..Clip(k * MODULES_PER_CHUNK, |modules|)]
    ensures Changed(as_[..k]) == changed[..Clip(k * MODULES_PER_CHUNK, |changed|)]
  {
    if k > 0 {
      Assembled(as_, modules, changed, k - 1);
      StreamGrows(as_, k - 1);
      StretchesJoin(modules, k - 1);
      StretchesJoin(changed, k - 1);
    }
  }

  lemma ChunkCounts(modules: nat, changed: nat)
    ensures var count := ChunkCount(modules, changed);
            && count * MODULES_PER_CHUNK >= modules && count * MODULES_PER_CHUNK >= changed
            && forall k: nat :: k < count ==> k * MODULES_PER_CHUNK < modules || k * MODULES_PER_CHUNK < changed
    ensures modules <= MAX_MODULES_PER_RUN && changed <= MAX_MODULES_PER_RUN ==>
              ChunkCount(modules, changed) <= MAX_CHUNKS
  {
  }

  lemma {:induction false} SizeGrows<M, C>(as_: seq<Arrival<M, C>>, j: nat, k: nat)
    requires j <= k <= |as_|
    ensures Size(as_[..j]) <= Size(as_[..k])
    decreases k
  {
    if j < k {
      SizeGrows(as_, j, k - 1);
      StreamGrows(as_, k - 1);
    }
  }

  /** Whatever a sender packs within the limits is accepted and comes out as it went in. */
  lemma SentIsAccepted<M, C>(as_: seq<Arrival<M, C>>, modules: seq<M>, changed: seq<C>)
    requires Delivers(as_, modules, changed) && |modules| <= MAX_MODULES_PER_RUN && |changed| <= MAX_MODULES_PER_RUN
    requires Size(as_) <= MAX_DESCRIPTOR_BYTES
    ensures var n := ChunkCount(|modules|, |changed|);
            Complete(as_, n, |modules|) && Modules(as_[..n]) == modules && Changed(as_[..n]) == changed
  {
    hide Size, Modules, Changed;
    var n := ChunkCount(|modules|, |changed|);
    ChunkCounts(|modules|, |changed|);
    assert as_[..n + 1] == as_;
    Assembled(as_, modules, changed, n);
    assert modules[..|modules|] == modules && changed[..|changed|] == changed;
    forall k | 0 <= k < n ensures GoodChunk(as_, k, |modules|) {
      Assembled(as_, modules, changed, k + 1);
      SizeGrows(as_, k + 1, n + 1);
      assert k * MODULES_PER_CHUNK < |modules| || k * MODULES_PER_CHUNK < |changed|;
    }
  }

  /** Packing the two lists in separate chunks of full size never needs more chunks than allowed. */
  lemma SeparatePackingFits(modules: nat, changed: nat)
    requires modules <= MAX_MODULES_PER_RUN && changed <= MAX_MODULES_PER_RUN
    ensures ChunkCount(modules, 0) + ChunkCount(0, changed) <= MAX_CHUNKS
  {
  }
}
