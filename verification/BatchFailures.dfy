/** Which error a failed batch returns. */
module BatchFailures {
  import opened Wrappers
  import opened Bytes
  import opened BatchProtocol

  /** Input `i` fails with the error and no input before it fails. */
  ghost predicate FirstFailure(t: Tokenizer, inputs: seq<seq<byte>>, i: nat, error: Failure) {
    i < |inputs| && t(inputs[i]) == Result.Failure(error) && forall k: nat | k < i :: t(inputs[k]).Success?
  }

  lemma {:induction false} AllSucceed(t: Tokenizer, inputs: seq<seq<byte>>)
    requires TokenizeAll(t, inputs).Success?
    ensures forall k: nat | k < |inputs| :: t(inputs[k]).Success?
  {
    if inputs != [] {
      AllSucceed(t, inputs[..|inputs| - 1]);
    }
  }

  lemma {:induction false} FailureHasInput(t: Tokenizer, inputs: seq<seq<byte>>) returns (i: nat)
    requires TokenizeAll(t, inputs).Failure?
    ensures FirstFailure(t, inputs, i, TokenizeAll(t, inputs).error)
  {
    var body := inputs[..|inputs| - 1];
    if TokenizeAll(t, body).Failure? {
      i := FailureHasInput(t, body);
    } else {
      AllSucceed(t, body);
      i := |inputs| - 1;
    }
  }

  /** The inputs of a chunk. */
  ghost function ChunkInputs(b: Batch, c: nat): seq<seq<byte>>
    requires b.Valid() && c < |b.ranges|
  {
    b.inputs[b.ranges[c].start..b.ranges[c].end]
  }

  /** The results are collected in the order of the workers; the first error ends it. */
  ghost function Outcome(workers: seq<Worker>): (error: Option<Failure>)
  {
    if workers == [] then None
    else
      var before, last := Outcome(workers[..|workers| - 1]), workers[|workers| - 1].status;
      if before.Some? then before else if last.Failed? then Some(last.error) else None
  }

  lemma {:induction false} OutcomeIsFirst(workers: seq<Worker>)
    ensures Outcome(workers).None? <==> forall w: nat | w < |workers| :: !workers[w].status.Failed?
    ensures Outcome(workers).Some? ==> exists w: nat :: ReturnedBy(workers, w, Outcome(workers).value)
  {
    if workers != [] {
      var body, last := workers[..|workers| - 1], |workers| - 1;
      OutcomeIsFirst(body);
      if Outcome(body).Some? {
        var w: nat :| ReturnedBy(body, w, Outcome(body).value);
        assert ReturnedBy(workers, w, Outcome(workers).value);
      } else if workers[last].status.Failed? {
        assert ReturnedBy(workers, last, Outcome(workers).value);
      }
    }
  }

  /** The first worker that failed, in the order of the workers, failed with the error. */
  ghost predicate ReturnedBy(workers: seq<Worker>, w: nat, error: Failure) {
    && w < |workers| && workers[w].status.Failed? && workers[w].status.error == error
    && forall v: nat | v < w :: !workers[v].status.Failed?
  }

  /** A worker that has failed on the chunk. */
  ghost predicate FailedOn(s: State, w: nat, c: nat) {
    w < |s.workers| && s.workers[w].status.Failed? && s.workers[w].status.chunk == c
  }

  lemma {:induction false} HolderExists(workers: seq<Worker>, c: nat) returns (w: nat)
    requires c in AllHeld(workers)
    ensures w < |workers| && c in Held(workers[w])
  {
    hide Held;
    if c in Held(workers[|workers| - 1]) {
      w := |workers| - 1;
    } else {
      w := HolderExists(workers[..|workers| - 1], c);
    }
  }

  lemma {:induction false} HeldIsHeld(workers: seq<Worker>, w: nat, c: nat)
    requires w < |workers| && c in Held(workers[w])
    ensures c in AllHeld(workers)
  {
    hide Held;
    if w < |workers| - 1 {
      HeldIsHeld(workers[..|workers| - 1], w, c);
    }
  }

  lemma InRangeIs(n: nat, c: nat)
    ensures c in multiset(Range(n)) <==> c < n
  {
    if c < n {
      assert Range(n)[c] == c;
    }
  }

  lemma HeldCompleted(b: Batch, next: nat, w: Worker, c: nat)
    requires b.Valid() && WorkerOk(b, next, w) && c in Held(w) && c < |b.ranges| && b.ChunkResult(c).Failure?
    requires w.status.Stopped? || w.status.Failed?
    ensures w.status.Failed? && w.status.chunk == c
  {
    hide Batch.ChunkResult, Tiles;
    forall i: nat | i < |w.completed|
      ensures Keys(w.completed)[i] != c
    {
      assert b.ChunkResult(w.completed[i].0).Success?;
    }
    assert c !in multiset(Keys(w.completed));
  }

  /** The workers fail on the first failing chunks: a failing chunk before one that a worker failed on
      has a worker that failed on it. */
  lemma FailuresAreFirst(b: Batch, trace: seq<State>, s: State, w: nat, c: nat, earlier: nat) returns (v: nat)
    requires b.Valid() && Run(b, trace) && s == trace[|trace| - 1] && Halted(s)
    requires FailedOn(s, w, c) && earlier <= c && earlier < |b.ranges| && b.ChunkResult(earlier).Failure?
    ensures FailedOn(s, v, earlier)
  {
    hide AllHeld, Batch.ChunkResult, Tiles, Range, Run, Keys;
    RunKeepsInvariant(b, trace);
    var claimed := if s.next < |b.ranges| then s.next else |b.ranges|;
    HeldIsHeld(s.workers, w, c);
    InRangeIs(claimed, c);
    InRangeIs(claimed, earlier);
    v := HolderExists(s.workers, earlier);
    assert WorkerOk(b, s.next, s.workers[v]);
    HeldCompleted(b, s.next, s.workers[v], earlier);
  }

  /** A chunk that fails while all before it succeed fails as the inputs in order do. */
  lemma FirstChunkDecides(b: Batch, c: nat)
    requires b.Valid() && c < |b.ranges| && b.ChunkResult(c).Failure?
    requires forall k: nat | k < c :: b.ChunkResult(k).Success?
    ensures TokenizeAll(b.tokenizer, b.inputs) == Result.Failure(b.ChunkResult(c).error)
  {
    hide TokenizeAll;
    var start, end := b.ranges[c].start, b.ranges[c].end;
    BeforeSucceeds(b, c);
    TokenizeAllConcat(b.tokenizer, b.inputs[..start], b.inputs[start..end]);
    TokenizeAllConcat(b.tokenizer, b.inputs[..end], b.inputs[end..]);
    assert b.inputs[..start] + b.inputs[start..end] == b.inputs[..end];
    assert b.inputs[..end] + b.inputs[end..] == b.inputs;
  }

  lemma BeforeSucceeds(b: Batch, c: nat)
    requires b.Valid() && c < |b.ranges| && forall k: nat | k < c :: b.ChunkResult(k).Success?
    ensures TokenizeAll(b.tokenizer, b.inputs[..b.ranges[c].start]).Success?
  {
    hide TokenizeAll;
    if c == 0 {
      NoInputs(b.tokenizer);
      assert b.inputs[..0] == [];
    } else {
      var done := seq(c, i requires 0 <= i < c => (i as nat, b.ChunkResult(i).value));
      ChunksInOrder(b, done, c);
      assert b.ranges[c - 1].end == b.ranges[c].start;
    }
  }

  lemma {:induction false} FirstFailing(b: Batch, c: nat) returns (first: nat)
    requires b.Valid() && c < |b.ranges| && b.ChunkResult(c).Failure?
    ensures first <= c && b.ChunkResult(first).Failure? && forall k: nat | k < first :: b.ChunkResult(k).Success?
  {
    hide Batch.ChunkResult, Tiles;
    if k: nat :| k < c && b.ChunkResult(k).Failure? {
      first := FirstFailing(b, k);
    } else {
      first := c;
    }
  }

  /** What can be said of the error, whatever the interleaving. A batch returns an error exactly if the
      inputs in order have one. The error is that of the first failing input of some chunk. The error of
      the inputs in order is always among those of the workers. */
  lemma FailedBatch(b: Batch, trace: seq<State>, s: State) returns (w: nat, chunk: nat, input: nat, first: nat)
    requires b.Valid() && Run(b, trace) && s == trace[|trace| - 1] && Halted(s)
    ensures Outcome(s.workers).Some? <==> TokenizeAll(b.tokenizer, b.inputs).Failure?
    ensures Outcome(s.workers).Some? ==>
      && ReturnedBy(s.workers, w, Outcome(s.workers).value) && FailedOn(s, w, chunk) && chunk < |b.ranges|
      && FirstFailure(b.tokenizer, ChunkInputs(b, chunk), input, Outcome(s.workers).value)
    ensures Outcome(s.workers).Some? ==>
      first < |s.workers| && s.workers[first].status.Failed?
      && TokenizeAll(b.tokenizer, b.inputs) == Result.Failure(s.workers[first].status.error)
  {
    hide Outcome, TokenizeAll, Run, Tiles, ReturnedBy, FirstFailure;
    w, chunk, input, first := 0, 0, 0, 0;
    FailuresAgree(b, trace);
    OutcomeIsFirst(s.workers);
    if Outcome(s.workers).Some? {
      var error := Outcome(s.workers).value;
      w :| ReturnedBy(s.workers, w, error);
      chunk := FailedChunk(b, trace, s, w, error);
      input := FailureHasInput(b.tokenizer, ChunkInputs(b, chunk));
      first := FirstErrorIsSeen(b, trace, s, w, chunk);
    }
  }

  lemma FailedChunk(b: Batch, trace: seq<State>, s: State, w: nat, error: Failure) returns (chunk: nat)
    requires b.Valid() && Run(b, trace) && s == trace[|trace| - 1] && ReturnedBy(s.workers, w, error)
    ensures FailedOn(s, w, chunk) && chunk < |b.ranges| && b.ChunkResult(chunk) == Result.Failure(error)
  {
    hide Batch.ChunkResult, Tiles, AllHeld, Run;
    RunKeepsInvariant(b, trace);
    assert WorkerOk(b, s.next, s.workers[w]);
    chunk := s.workers[w].status.chunk;
  }

  lemma FirstErrorIsSeen(b: Batch, trace: seq<State>, s: State, w: nat, c: nat) returns (v: nat)
    requires b.Valid() && Run(b, trace) && s == trace[|trace| - 1] && Halted(s)
    requires FailedOn(s, w, c) && c < |b.ranges| && b.ChunkResult(c).Failure?
    ensures v < |s.workers| && s.workers[v].status.Failed?
    ensures TokenizeAll(b.tokenizer, b.inputs) == Result.Failure(s.workers[v].status.error)
  {
    hide Batch.ChunkResult, Tiles, AllHeld, Run, TokenizeAll, Halted;
    var first := FirstFailing(b, c);
    v := FailuresAreFirst(b, trace, s, w, c, first);
    RunKeepsInvariant(b, trace);
    assert WorkerOk(b, s.next, s.workers[v]);
    FirstChunkDecides(b, first);
  }

  /** If no two inputs fail differently, every interleaving returns what the inputs in order do. */
  lemma OneErrorForAll(b: Batch, trace: seq<State>, s: State, error: Failure)
    requires b.Valid() && Run(b, trace) && s == trace[|trace| - 1] && Halted(s)
    requires forall i: nat | i < |b.inputs| && b.tokenizer(b.inputs[i]).Failure? :: b.tokenizer(b.inputs[i]).error == error
    ensures Outcome(s.workers) == Some(error) <==> TokenizeAll(b.tokenizer, b.inputs) == Result.Failure(error)
    ensures Outcome(s.workers).None? <==> TokenizeAll(b.tokenizer, b.inputs).Success?
  {
    hide Outcome, TokenizeAll, Run, Halted, ReturnedBy, FailedOn;
    var w, chunk, input, first := FailedBatch(b, trace, s);
    if Outcome(s.workers).Some? {
      assert ChunkInputs(b, chunk)[input] == b.inputs[b.ranges[chunk].start + input];
      var i := FailureHasInput(b.tokenizer, b.inputs);
      assert b.tokenizer(b.inputs[i]).Failure?;
    }
  }

  // ------------------------------------------------ the error depends on the interleaving

  ghost function TwoFailures(one: Failure, other: Failure): Batch {
    Batch((raw: seq<byte>) => Result.Failure(if raw == [] then one else other), [[], [0]], [Chunk(0, 1), Chunk(1, 2)])
  }

  /** Two workers: the second one claims the first chunk, the first one the other. */
  ghost function Crossed(one: Failure, other: Failure): seq<State> {
    var idle := Worker(Looping, []);
    [State(0, [idle, idle]),
     State(1, [idle, Worker(Working(0), [])]),
     State(2, [Worker(Working(1), []), Worker(Working(0), [])]),
     State(2, [Worker(Failed(1, other), []), Worker(Working(0), [])]),
     State(2, [Worker(Failed(1, other), []), Worker(Failed(0, one), [])])]
  }

  lemma OneInput(t: Tokenizer, raw: seq<byte>)
    ensures TokenizeAll(t, [raw]).Failure? <==> t(raw).Failure?
    ensures t(raw).Failure? ==> TokenizeAll(t, [raw]) == Result.Failure(t(raw).error)
  {
    assert [raw][..0] == [];
  }

  lemma FirstWorkerFails(first: Worker, second: Worker)
    requires first.status.Failed?
    ensures Outcome([first, second]) == Some(first.status.error)
  {
    assert Outcome([first]) == Some(first.status.error);
    assert [first, second][..1] == [first];
  }

  /** A batch in which the inputs in order fail with one error and an interleaving returns another. */
  lemma ErrorMayDiffer(one: Failure, other: Failure)
    requires one != other
    ensures var b, trace := TwoFailures(one, other), Crossed(one, other);
      && b.Valid() && Run(b, trace) && Halted(trace[|trace| - 1])
      && TokenizeAll(b.tokenizer, b.inputs) == Result.Failure(one)
      && Outcome(trace[|trace| - 1].workers) == Some(other)
  {
    var b, trace := TwoFailures(one, other), Crossed(one, other);
    assert b.inputs[0..1] == [[]] && b.inputs[1..2] == [[0]];
    OneInput(b.tokenizer, []);
    OneInput(b.tokenizer, [0]);
    FirstChunkDecides(b, 0);
    FirstWorkerFails(trace[4].workers[0], trace[4].workers[1]);
    assert b.ChunkResult(0) == Result.Failure(one) && b.ChunkResult(1) == Result.Failure(other);
    assert Claim(b, trace[0], trace[1], 1);
    assert Claim(b, trace[1], trace[2], 0);
    assert Finish(b, trace[2], trace[3], 0);
    assert Finish(b, trace[3], trace[4], 1);
  }
}
