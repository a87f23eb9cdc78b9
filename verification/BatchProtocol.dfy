/** Parallel batch tokenization: workers claim chunks from a shared counter, and whatever the
    interleaving, the collected result is that of the inputs in order. */
module BatchProtocol {
  import opened Wrappers
  import opened Sorting
  import opened Bytes

  type Document(==, !new)
  type Failure(==, !new)

  /** What happens to one input, morphology caches aside. */
  type Tokenizer = seq<byte> -> Result<Document, Failure>

  type Completed = (nat, seq<Document>)

  /** The inputs one by one in order; the first failure ends it. */
  function TokenizeAll(t: Tokenizer, inputs: seq<seq<byte>>): (r: Result<seq<Document>, Failure>)
    ensures r.Success? ==> |r.value| == |inputs|
  {
    if inputs == [] then Success([])
    else
      var body := TokenizeAll(t, inputs[..|inputs| - 1]);
      if body.Failure? then body
      else
        var last := t(inputs[|inputs| - 1]);
        if last.Failure? then Result.Failure(last.error) else Success(body.value + [last.value])
  }

  datatype Chunk = Chunk(start: nat, end: nat)

  /** The chunks tile the inputs. */
  ghost predicate Tiles(ranges: seq<Chunk>, n: nat) {
    && ranges != [] && ranges[0].start == 0 && ranges[|ranges| - 1].end == n
    && (forall i: nat | i < |ranges| :: ranges[i].start <= ranges[i].end <= n)
    && (forall i: nat | 0 < i < |ranges| :: ranges[i - 1].end == ranges[i].start)
  }

  datatype Batch = Batch(tokenizer: Tokenizer, inputs: seq<seq<byte>>, ranges: seq<Chunk>) {
    ghost predicate Valid() {
      Tiles(ranges, |inputs|)
    }

    /** What a worker gets from a chunk. */
    ghost function ChunkResult(c: nat): Result<seq<Document>, Failure>
      requires Valid() && c < |ranges|
    {
      TokenizeAll(tokenizer, inputs[ranges[c].start..ranges[c].end])
    }
  }

  datatype Status = Looping | Working(chunk: nat) | Stopped | Failed(chunk: nat, error: Failure)

  datatype Worker = Worker(status: Status, completed: seq<Completed>)

  /** The shared counter and the workers. */
  datatype State = State(next: nat, workers: seq<Worker>)

  ghost predicate Initial(s: State) {
    s.next == 0 && s.workers != [] && forall w: nat | w < |s.workers| :: s.workers[w] == Worker(Looping, [])
  }

  /** A worker takes the counter's value and increments it, in one atomic step. */
  ghost predicate Claim(b: Batch, s: State, s': State, w: nat) {
    && w < |s.workers| && s.workers[w].status == Looping
    && s' == State(
      s.next + 1,
      s.workers[w := s.workers[w].(status := if s.next < |b.ranges| then Working(s.next) else Stopped)])
  }

  /** A worker finishes the chunk it holds. */
  ghost predicate Finish(b: Batch, s: State, s': State, w: nat)
    requires b.Valid()
  {
    && w < |s.workers| && s.workers[w].status.Working? && s.workers[w].status.chunk < |b.ranges|
    && var chunk := s.workers[w].status.chunk;
      var result := b.ChunkResult(chunk);
      s' == State(
        s.next,
        s.workers[w :=
          if result.Success? then Worker(Looping, s.workers[w].completed + [(chunk, result.value)])
          else s.workers[w].(status := Failed(chunk, result.error))])
  }

  ghost predicate Step(b: Batch, s: State, s': State)
    requires b.Valid()
  {
    exists w: nat :: Claim(b, s, s', w) || Finish(b, s, s', w)
  }

  /** One interleaving, from the start on. */
  ghost predicate Run(b: Batch, trace: seq<State>)
    requires b.Valid()
  {
    && trace != [] && Initial(trace[0])
    && forall i: nat | 0 < i < |trace| :: Step(b, trace[i - 1], trace[i])
  }

  // ------------------------------------------------------- who holds which chunk

  ghost function Keys(done: seq<Completed>): seq<nat> {
    seq(|done|, i requires 0 <= i < |done| => done[i].0)
  }

  ghost function Held(w: Worker): multiset<nat> {
    multiset(Keys(w.completed))
    + match w.status
      case Working(chunk) => multiset{chunk}
      case Failed(chunk, _) => multiset{chunk}
      case _ => multiset{}
  }

  ghost function AllHeld(workers: seq<Worker>): multiset<nat> {
    if workers == [] then multiset{} else AllHeld(workers[..|workers| - 1]) + Held(workers[|workers| - 1])
  }

  ghost function Range(n: nat): seq<nat> {
    seq(n, i => i)
  }

  ghost predicate WorkerOk(b: Batch, next: nat, w: Worker)
    requires b.Valid()
  {
    && (forall i: nat | i < |w.completed| ::
      w.completed[i].0 < |b.ranges| && b.ChunkResult(w.completed[i].0) == Success(w.completed[i].1))
    && match w.status
      case Looping => true
      case Working(chunk) => chunk < |b.ranges|
      case Stopped => next >= |b.ranges|
      case Failed(chunk, error) => chunk < |b.ranges| && b.ChunkResult(chunk) == Result.Failure(error)
  }

  /** Every chunk below the counter is held by one worker, once. */
  ghost predicate Invariant(b: Batch, s: State)
    requires b.Valid()
  {
    && s.workers != []
    && AllHeld(s.workers) == multiset(Range(if s.next < |b.ranges| then s.next else |b.ranges|))
    && forall w: nat | w < |s.workers| :: WorkerOk(b, s.next, s.workers[w])
  }

  lemma Cancel(more: multiset<nat>, less: multiset<nat>, held: multiset<nat>, gained: multiset<nat>)
    requires more + held == less + (held + gained)
    ensures more == less + gained
  {
    forall c: nat
      ensures more[c] == less[c] + gained[c]
    {
      assert (more + held)[c] == (less + (held + gained))[c];
    }
  }

  lemma Exchange(left: multiset<nat>, old_: multiset<nat>, right: multiset<nat>, new_: multiset<nat>, rest: multiset<nat>)
    requires left + old_ == right + new_
    ensures left + rest + old_ == right + rest + new_
  {
    assert left + rest + old_ == left + old_ + rest;
    assert right + rest + new_ == right + new_ + rest;
  }

  lemma {:induction false} AllHeldUpdate(workers: seq<Worker>, w: nat, worker: Worker)
    requires w < |workers|
    ensures AllHeld(workers[w := worker]) + Held(workers[w]) == AllHeld(workers) + Held(worker)
  {
    hide Held;
    var body, last := workers[..|workers| - 1], |workers| - 1;
    if w < last {
      AllHeldUpdate(body, w, worker);
      assert workers[w := worker][..last] == body[w := worker];
      Exchange(AllHeld(body[w := worker]), Held(workers[w]), AllHeld(body), Held(worker), Held(workers[last]));
    } else {
      assert workers[w := worker][..last] == body;
    }
  }

  lemma {:induction false} InitialHolds(workers: seq<Worker>)
    requires forall w: nat | w < |workers| :: workers[w] == Worker(Looping, [])
    ensures AllHeld(workers) == multiset{}
  {
    if workers != [] {
      InitialHolds(workers[..|workers| - 1]);
    }
  }

  lemma RangeNext(n: nat)
    ensures multiset(Range(n + 1)) == multiset(Range(n)) + multiset{n}
  {
    assert Range(n + 1) == Range(n) + [n];
  }

  lemma KeysPush(done: seq<Completed>, c: Completed)
    ensures multiset(Keys(done + [c])) == multiset(Keys(done)) + multiset{c.0}
  {
    assert Keys(done + [c]) == Keys(done) + [c.0];
  }

  lemma ClaimKeepsInvariant(b: Batch, s: State, s': State, w: nat)
    requires b.Valid() && Invariant(b, s) && Claim(b, s, s', w)
    ensures Invariant(b, s')
  {
    hide AllHeld, Tiles, Held, Batch.ChunkResult, Range;
    ClaimHolds(b, s, s', w);
    forall v: nat | v < |s'.workers|
      ensures WorkerOk(b, s'.next, s'.workers[v])
    {
      assert WorkerOk(b, s.next, s.workers[v]);
    }
  }

  lemma ClaimHolds(b: Batch, s: State, s': State, w: nat)
    requires b.Valid() && Claim(b, s, s', w)
    requires AllHeld(s.workers) == multiset(Range(if s.next < |b.ranges| then s.next else |b.ranges|))
    ensures AllHeld(s'.workers) == multiset(Range(if s'.next < |b.ranges| then s'.next else |b.ranges|))
  {
    hide AllHeld, Tiles, Range, Keys;
    AllHeldUpdate(s.workers, w, s'.workers[w]);
    if s.next < |b.ranges| {
      RangeNext(s.next);
      Cancel(AllHeld(s'.workers), AllHeld(s.workers), Held(s.workers[w]), multiset{s.next});
    } else {
      Cancel(AllHeld(s'.workers), AllHeld(s.workers), Held(s.workers[w]), multiset{});
    }
  }

  lemma FinishKeepsInvariant(b: Batch, s: State, s': State, w: nat)
    requires b.Valid() && Invariant(b, s) && Finish(b, s, s', w)
    ensures Invariant(b, s')
  {
    hide AllHeld, Tiles, Batch.ChunkResult;
    var chunk := s.workers[w].status.chunk;
    var result := b.ChunkResult(chunk);
    AllHeldUpdate(s.workers, w, s'.workers[w]);
    if result.Success? {
      KeysPush(s.workers[w].completed, (chunk, result.value));
    }
    Cancel(AllHeld(s'.workers), AllHeld(s.workers), Held(s.workers[w]), multiset{});
    forall v: nat | v < |s'.workers|
      ensures WorkerOk(b, s'.next, s'.workers[v])
    {
      assert WorkerOk(b, s.next, s.workers[v]);
    }
  }

  /** Every state of every interleaving keeps the invariant. */
  lemma {:induction false} RunKeepsInvariant(b: Batch, trace: seq<State>)
    requires b.Valid() && Run(b, trace)
    ensures Invariant(b, trace[|trace| - 1])
  {
    hide Invariant, Claim, Finish, Tiles;
    if |trace| == 1 {
      InitialInvariant(b, trace[0]);
    } else {
      var body := trace[..|trace| - 1];
      var s, s' := trace[|trace| - 2], trace[|trace| - 1];
      RunKeepsInvariant(b, body);
      assert body[|body| - 1] == s && Step(b, trace[|trace| - 1 - 1], trace[|trace| - 1]);
      var w: nat :| Claim(b, s, s', w) || Finish(b, s, s', w);
      if Claim(b, s, s', w) {
        ClaimKeepsInvariant(b, s, s', w);
      } else {
        FinishKeepsInvariant(b, s, s', w);
      }
    }
  }

  lemma InitialInvariant(b: Batch, s: State)
    requires b.Valid() && Initial(s)
    ensures Invariant(b, s)
  {
    InitialHolds(s.workers);
    assert Range(0) == [];
  }

  // ------------------------------------------------------------ every run ends

  function StatusWeight(status: Status): nat {
    match status
    case Working(_) => 2
    case Looping => 1
    case _ => 0
  }

  ghost function Weights(workers: seq<Worker>): nat {
    if workers == [] then 0 else Weights(workers[..|workers| - 1]) + StatusWeight(workers[|workers| - 1].status)
  }

  ghost predicate AllStopped(s: State) {
    forall w: nat | w < |s.workers| :: s.workers[w].status.Stopped?
  }

  /** What is left to do. */
  ghost function Remaining(b: Batch, s: State): nat {
    Weights(s.workers) + 2 * (if s.next < |b.ranges| then |b.ranges| - s.next else 0)
  }

  lemma {:induction false} WeightsUpdate(workers: seq<Worker>, w: nat, worker: Worker)
    requires w < |workers|
    ensures Weights(workers[w := worker]) + StatusWeight(workers[w].status)
         == Weights(workers) + StatusWeight(worker.status)
  {
    hide StatusWeight;
    var body, last := workers[..|workers| - 1], |workers| - 1;
    if w < last {
      WeightsUpdate(body, w, worker);
      assert workers[w := worker][..last] == body[w := worker];
    } else {
      assert workers[w := worker][..last] == body;
    }
  }

  /** Every step uses something up, so no interleaving goes on forever. */
  lemma StepsEnd(b: Batch, s: State, s': State)
    requires b.Valid() && Step(b, s, s')
    ensures Remaining(b, s') < Remaining(b, s)
  {
    hide Weights, Batch.ChunkResult, Tiles;
    var w: nat :| Claim(b, s, s', w) || Finish(b, s, s', w);
    WeightsUpdate(s.workers, w, s'.workers[w]);
  }

  ghost predicate Halted(s: State) {
    forall w: nat | w < |s.workers| :: s.workers[w].status.Stopped? || s.workers[w].status.Failed?
  }

  /** No interleaving gets stuck before its workers have stopped. */
  lemma StepsGoOn(b: Batch, s: State)
    requires b.Valid() && Invariant(b, s) && !Halted(s)
    ensures exists s' :: Step(b, s, s')
  {
    hide AllHeld, Batch.ChunkResult, Tiles;
    var w: nat :| w < |s.workers| && (s.workers[w].status.Looping? || s.workers[w].status.Working?);
    assert WorkerOk(b, s.next, s.workers[w]);
    if s.workers[w].status.Looping? {
      var s' := State(
        s.next + 1,
        s.workers[w := s.workers[w].(status := if s.next < |b.ranges| then Working(s.next) else Stopped)]);
      assert Claim(b, s, s', w) && Step(b, s, s');
    } else {
      var chunk := s.workers[w].status.chunk;
      var result := b.ChunkResult(chunk);
      var s' := State(
        s.next,
        s.workers[w :=
          if result.Success? then Worker(Looping, s.workers[w].completed + [(chunk, result.value)])
          else s.workers[w].(status := Failed(chunk, result.error))]);
      assert Finish(b, s, s', w) && Step(b, s, s');
    }
  }

  // ------------------------------------------------------- collecting the results

  /** All finished chunks, worker by worker. */
  ghost function Collected(workers: seq<Worker>): seq<Completed> {
    if workers == [] then [] else Collected(workers[..|workers| - 1]) + workers[|workers| - 1].completed
  }

  ghost function Flatten(done: seq<Completed>): seq<Document> {
    if done == [] then [] else Flatten(done[..|done| - 1]) + done[|done| - 1].1
  }

  /** Ordered by chunk number; any sort does. */
  ghost predicate SortedByChunk(done: seq<Completed>) {
    forall i: nat, j: nat | i < j < |done| :: done[i].0 <= done[j].0
  }

  lemma {:induction false} CollectedKeys(workers: seq<Worker>)
    requires forall w: nat | w < |workers| :: workers[w].status.Stopped?
    ensures multiset(Keys(Collected(workers))) == AllHeld(workers)
  {
    if workers != [] {
      var body, last := workers[..|workers| - 1], workers[|workers| - 1];
      CollectedKeys(body);
      assert Keys(Collected(body) + last.completed) == Keys(Collected(body)) + Keys(last.completed);
    } else {
      assert Keys([]) == [];
    }
  }

  lemma {:induction false} CollectedOk(b: Batch, next: nat, workers: seq<Worker>)
    requires b.Valid() && forall w: nat | w < |workers| :: WorkerOk(b, next, workers[w])
    ensures forall c | c in Collected(workers) :: c.0 < |b.ranges| && b.ChunkResult(c.0) == Success(c.1)
  {
    hide Batch.ChunkResult, Tiles;
    if workers != [] {
      var last := workers[|workers| - 1];
      CollectedOk(b, next, workers[..|workers| - 1]);
      assert WorkerOk(b, next, last);
      forall c | c in last.completed
        ensures c.0 < |b.ranges| && b.ChunkResult(c.0) == Success(c.1)
      {
        var i: nat :| i < |last.completed| && last.completed[i] == c;
      }
    }
  }

  lemma KeysConcat(first: seq<Completed>, second: seq<Completed>)
    ensures Keys(first + second) == Keys(first) + Keys(second)
  {
  }

  /** Sorting moves the chunk numbers along. */
  lemma {:induction false} KeysPermute(done: seq<Completed>, sorted: seq<Completed>)
    requires multiset(done) == multiset(sorted)
    ensures multiset(Keys(done)) == multiset(Keys(sorted))
    decreases |done|
  {
    hide Keys;
    assert |multiset(done)| == |done| && |multiset(sorted)| == |sorted|;
    if done != [] {
      var body, last := done[..|done| - 1], done[|done| - 1];
      assert done == body + [last];
      assert last in multiset(sorted);
      var i: nat :| i < |sorted| && sorted[i] == last;
      var rest := sorted[..i] + sorted[i + 1..];
      assert sorted == sorted[..i] + [last] + sorted[i + 1..];
      assert multiset(done) == multiset(body) + multiset{last};
      assert multiset(sorted) == multiset(rest) + multiset{last};
      CancelOne(multiset(body), multiset(rest), last);
      KeysPermute(body, rest);
      KeysConcat(body, [last]);
      KeysConcat(sorted[..i] + [last], sorted[i + 1..]);
      KeysConcat(sorted[..i], [last]);
      KeysConcat(sorted[..i], sorted[i + 1..]);
    }
  }

  /** Ordered numbers that make up a range are the range. */
  lemma {:induction false} SortedRange(keys: seq<nat>, n: nat)
    requires multiset(keys) == multiset(Range(n))
    requires forall i: nat, j: nat | i < j < |keys| :: keys[i] <= keys[j]
    ensures keys == Range(n)
    decreases n
  {
    assert |multiset(keys)| == |keys| == |Range(n)| == n;
    if n > 0 {
      var body, last := keys[..|keys| - 1], keys[|keys| - 1];
      var top: nat := n - 1;
      LastIsGreatest(keys, n);
      hide Range;
      assert keys == body + [top];
      assert multiset(keys) == multiset(body) + multiset{top};
      RangeGrows(top);
      CancelOne(multiset(body), multiset(Range(top)), top);
      SortedRange(body, top);
    }
  }

  lemma RangeGrows(n: nat)
    ensures Range(n + 1) == Range(n) + [n] && multiset(Range(n + 1)) == multiset(Range(n)) + multiset{n}
  {
    assert Range(n + 1) == Range(n) + [n];
  }

  lemma LastIsGreatest(keys: seq<nat>, n: nat)
    requires multiset(keys) == multiset(Range(n)) && 0 < n == |keys|
    requires forall i: nat, j: nat | i < j < |keys| :: keys[i] <= keys[j]
    ensures keys[n - 1] == n - 1
  {
    assert keys[n - 1] in multiset(Range(n)) && keys[n - 1] in Range(n);
    assert Range(n)[n - 1] in multiset(keys);
    var i: nat :| i < |keys| && keys[i] == n - 1;
  }

  // ------------------------------------------------------- against the inputs in order

  lemma {:induction false} TokenizeAllConcat(t: Tokenizer, first: seq<seq<byte>>, second: seq<seq<byte>>)
    ensures TokenizeAll(t, first + second)
         == if TokenizeAll(t, first).Failure? then TokenizeAll(t, first)
            else if TokenizeAll(t, second).Failure? then TokenizeAll(t, second)
            else Success(TokenizeAll(t, first).value + TokenizeAll(t, second).value)
  {
    if second == [] {
      assert first + second == first;
      if TokenizeAll(t, first).Success? {
        assert TokenizeAll(t, first).value + [] == TokenizeAll(t, first).value;
      }
    } else {
      var body := second[..|second| - 1];
      TokenizeAllConcat(t, first, body);
      assert (first + second)[..|first + second| - 1] == first + body;
      if TokenizeAll(t, first).Success? && TokenizeAll(t, second).Success? {
        var one, other := TokenizeAll(t, first).value, TokenizeAll(t, body).value;
        var last := t(second[|second| - 1]).value;
        assert one + other + [last] == one + (other + [last]);
      }
    }
  }

  /** The chunks in order give the inputs in order. */
  lemma {:induction false} ChunksInOrder(b: Batch, done: seq<Completed>, n: nat)
    requires b.Valid() && 0 < n <= |b.ranges| && |done| == n
    requires forall i: nat | i < n :: done[i].0 == i && b.ChunkResult(i) == Success(done[i].1)
    ensures TokenizeAll(b.tokenizer, b.inputs[..b.ranges[n - 1].end]) == Success(Flatten(done))
  {
    hide TokenizeAll;
    var end := b.ranges[n - 1].end;
    var start := b.ranges[n - 1].start;
    assert b.inputs[..end] == b.inputs[..start] + b.inputs[start..end];
    TokenizeAllConcat(b.tokenizer, b.inputs[..start], b.inputs[start..end]);
    assert b.ChunkResult(n - 1) == Success(done[n - 1].1);
    if n > 1 {
      ChunksInOrder(b, done[..n - 1], n - 1);
      assert b.ranges[n - 1 - 1].end == b.ranges[n - 1].start;
    } else {
      NoInputs(b.tokenizer);
      assert b.inputs[..0] == [] && done[..0] == [];
    }
  }

  lemma NoInputs(t: Tokenizer)
    ensures TokenizeAll(t, []) == Success([])
  {
  }

  /** Whatever the interleaving: once all workers have stopped, each chunk was processed exactly
      once, and the sorted and flattened results are those of the inputs in order. */
  lemma {:induction false} EveryInterleaving(b: Batch, trace: seq<State>, sorted: seq<Completed>)
    requires b.Valid() && Run(b, trace)
    requires AllStopped(trace[|trace| - 1])
    requires multiset(sorted) == multiset(Collected(trace[|trace| - 1].workers)) && SortedByChunk(sorted)
    ensures Keys(sorted) == Range(|b.ranges|)
    ensures TokenizeAll(b.tokenizer, b.inputs) == Success(Flatten(sorted))
  {
    hide TokenizeAll, Flatten, Collected, AllHeld;
    var s := trace[|trace| - 1];
    RunKeepsInvariant(b, trace);
    assert WorkerOk(b, s.next, s.workers[0]);
    CollectedKeys(s.workers);
    KeysPermute(Collected(s.workers), sorted);
    SortedRange(Keys(sorted), |b.ranges|);
    CollectedOk(b, s.next, s.workers);
    forall i: nat | i < |sorted|
      ensures sorted[i].0 == i && b.ChunkResult(i) == Success(sorted[i].1)
    {
      assert Keys(sorted)[i] == i;
      assert sorted[i] in multiset(sorted);
    }
    assert |Keys(sorted)| == |sorted|;
    ChunksInOrder(b, sorted, |b.ranges|);
    assert b.inputs[..|b.inputs|] == b.inputs;
  }

  /** A failing chunk is a failing batch. */
  lemma ChunkFails(b: Batch, c: nat)
    requires b.Valid() && c < |b.ranges| && b.ChunkResult(c).Failure?
    ensures TokenizeAll(b.tokenizer, b.inputs).Failure?
  {
    hide TokenizeAll;
    var start, end := b.ranges[c].start, b.ranges[c].end;
    TokenizeAllConcat(b.tokenizer, b.inputs[..start], b.inputs[start..end]);
    TokenizeAllConcat(b.tokenizer, b.inputs[..end], b.inputs[end..]);
    assert b.inputs[..start] + b.inputs[start..end] == b.inputs[..end];
    assert b.inputs[..end] + b.inputs[end..] == b.inputs;
  }

  lemma {:induction false} HeldByCollected(workers: seq<Worker>, c: nat)
    requires forall w: nat | w < |workers| :: workers[w].status.Stopped?
    requires c in AllHeld(workers)
    ensures exists done :: done in Collected(workers) && done.0 == c
  {
    CollectedKeys(workers);
    assert c in Keys(Collected(workers));
    var i: nat :| i < |Collected(workers)| && Keys(Collected(workers))[i] == c;
    assert Collected(workers)[i] in Collected(workers);
  }

  /** Once all workers have halted, one of them has failed exactly if tokenizing the inputs in
      order fails. */
  lemma FailuresAgree(b: Batch, trace: seq<State>)
    requires b.Valid() && Run(b, trace) && Halted(trace[|trace| - 1])
    ensures AllStopped(trace[|trace| - 1]) <==> TokenizeAll(b.tokenizer, b.inputs).Success?
  {
    hide TokenizeAll, AllHeld, Collected, Tiles, Range;
    var s := trace[|trace| - 1];
    RunKeepsInvariant(b, trace);
    if AllStopped(s) {
      StoppedSucceeds(b, s);
    } else {
      var w: nat :| w < |s.workers| && !s.workers[w].status.Stopped?;
      assert WorkerOk(b, s.next, s.workers[w]);
      ChunkFails(b, s.workers[w].status.chunk);
    }
  }

  lemma StoppedSucceeds(b: Batch, s: State)
    requires b.Valid() && Invariant(b, s) && AllStopped(s)
    ensures TokenizeAll(b.tokenizer, b.inputs).Success?
  {
    hide TokenizeAll, AllHeld, Collected;
    var n := |b.ranges|;
    assert WorkerOk(b, s.next, s.workers[0]);
    CollectedOk(b, s.next, s.workers);
    forall c: nat | c < n
      ensures b.ChunkResult(c).Success?
    {
      assert Range(n)[c] == c;
      assert c in multiset(Range(n));
      HeldByCollected(s.workers, c);
    }
    var done := seq(n, i requires 0 <= i < n => (i as nat, b.ChunkResult(i).value));
    ChunksInOrder(b, done, n);
    assert b.inputs[..|b.inputs|] == b.inputs;
  }
}
