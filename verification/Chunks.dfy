/** What IOBuffer's operations mean: a list of chunks with a cached size, as a value, against a flat
    byte queue. */
module Chunks {
  import opened Bytes

  datatype Buffer = Buffer(chunks: seq<seq<byte>>, size: nat)

  predicate Coherent(b: Buffer) {
    b.size == |Flat(b.chunks)|
  }

  lemma FlatCut(cs: seq<seq<byte>>, k: nat)
    requires k <= |cs|
    ensures Flat(cs) == Flat(cs[..k]) + Flat(cs[k..])
  {
    assert cs == cs[..k] + cs[k..];
    FlatAppend(cs[..k], cs[k..]);
  }

  lemma FlatGrows(cs: seq<seq<byte>>, j: nat, k: nat)
    requires j <= k <= |cs|
    ensures |Flat(cs[..j])| <= |Flat(cs[..k])| <= |Flat(cs)|
  {
    FlatCut(cs, k);
    FlatCut(cs[..k], j);
    assert cs[..k][..j] == cs[..j];
  }

  // ---------------------------------------------------------------- pullDown

  /** `k` is the length of the shortest non-empty chunk prefix that holds at least `n` bytes. */
  predicate IsShortestPrefix(cs: seq<seq<byte>>, n: nat, k: nat) {
    && 1 <= k <= |cs|
    && n <= |Flat(cs[..k])|
    && (k == 1 || |Flat(cs[..k - 1])| < n)
  }

  /** The number of chunks pullDown(n) makes contiguous, counting up from `k`. */
  function Need(cs: seq<seq<byte>>, n: nat, k: nat): (r: nat)
    requires 1 <= k <= |cs| && n <= |Flat(cs)|
    requires k == 1 || |Flat(cs[..k - 1])| < n
    ensures IsShortestPrefix(cs, n, r)
    decreases |cs| - k
  {
    assert cs[..|cs|] == cs;
    if n <= |Flat(cs[..k])| then k else Need(cs, n, k + 1)
  }

  lemma ShortestPrefixUnique(cs: seq<seq<byte>>, n: nat, j: nat, k: nat)
    requires IsShortestPrefix(cs, n, j) && IsShortestPrefix(cs, n, k)
    ensures j == k
  {
    if j < k {
      FlatGrows(cs, j, k - 1);
    } else if k < j {
      FlatGrows(cs, k, j - 1);
    }
  }

  /** The first `k` chunks merged into one, the later ones untouched. */
  function Merge(cs: seq<seq<byte>>, k: nat): seq<seq<byte>>
    requires k <= |cs|
  {
    [Flat(cs[..k])] + cs[k..]
  }

  lemma MergeKeepsContent(cs: seq<seq<byte>>, k: nat)
    requires k <= |cs|
    ensures Flat(Merge(cs, k)) == Flat(cs)
  {
    FlatCut(cs, k);
    FlatAppend([Flat(cs[..k])], cs[k..]);
    FlatOne(Flat(cs[..k]));
  }

  // ---------------------------------------------------------------- operations

  datatype Op =
    | AppendBytes(data: seq<byte>)
    | AppendBuffer(other: Buffer)
    | PullDown(n: nat)
    | Consume(m: nat)

  /** What the code relies on: another buffer is coherent, and consume finds a chunk. */
  predicate Defined(b: Buffer, op: Op) {
    match op
    case AppendBuffer(other) => Coherent(other)
    case Consume(_) => b.chunks != []
    case _ => true
  }

  predicate Pullable(b: Buffer, n: nat) {
    0 < b.size && n <= b.size
  }

  predicate Consumable(b: Buffer, m: nat) {
    b.chunks != [] && 0 < |b.chunks[0]| && m <= |b.chunks[0]|
  }

  function PullSpan(b: Buffer, n: nat): (k: nat)
    requires Coherent(b) && Pullable(b, n)
    ensures IsShortestPrefix(b.chunks, n, k)
  {
    Need(b.chunks, n, 1)
  }

  function Apply(b: Buffer, op: Op): Buffer
    requires Coherent(b) && Defined(b, op)
  {
    match op
    case AppendBytes(data) => Buffer(b.chunks + [data], b.size + |data|)
    case AppendBuffer(other) => Buffer(b.chunks + other.chunks, b.size + other.size)
    case PullDown(n) => if Pullable(b, n) then Buffer(Merge(b.chunks, PullSpan(b, n)), b.size) else b
    case Consume(m) =>
      if !Consumable(b, m) then b
      else
        FlatHead(b.chunks);
        var front := b.chunks[0];
        Buffer(if m == |front| then b.chunks[1..] else [front[m..]] + b.chunks[1..], b.size - m)
  }

  lemma FlatHead(cs: seq<seq<byte>>)
    requires cs != []
    ensures Flat(cs) == cs[0] + Flat(cs[1..])
    ensures |Flat(cs)| == |cs[0]| + |Flat(cs[1..])|
  {
  }

  /** Bytes an operation adds at the back, and bytes it takes off the front. */
  function Added(op: Op): seq<byte> {
    match op
    case AppendBytes(data) => data
    case AppendBuffer(other) => Flat(other.chunks)
    case _ => []
  }

  function Taken(b: Buffer, op: Op): seq<byte> {
    if op.Consume? && Consumable(b, op.m) then b.chunks[0][..op.m] else []
  }

  /** Each operation acts on the content as on a flat queue, and keeps the cached size right. */
  lemma StepIsQueue(b: Buffer, op: Op)
    requires Coherent(b) && Defined(b, op)
    ensures Coherent(Apply(b, op))
    ensures Taken(b, op) + Flat(Apply(b, op).chunks) == Flat(b.chunks) + Added(op)
  {
    match op
    case AppendBytes(data) => FlatSnoc(b.chunks, data);
    case AppendBuffer(other) => FlatAppend(b.chunks, other.chunks);
    case PullDown(n) =>
      if Pullable(b, n) {
        MergeKeepsContent(b.chunks, PullSpan(b, n));
      }
    case Consume(m) =>
      if Consumable(b, m) {
        ConsumeTakes(b, m);
      }
  }

  lemma ConsumeTakes(b: Buffer, m: nat)
    requires Coherent(b) && Consumable(b, m)
    ensures var b' := Apply(b, Consume(m));
            && Flat(b.chunks) == b.chunks[0][..m] + Flat(b'.chunks)
            && m <= |Flat(b.chunks)| && Flat(b'.chunks) == Flat(b.chunks)[m..]
            && b'.size == b.size - m && Coherent(b')
  {
    var front, rest := b.chunks[0], b.chunks[1..];
    FlatHead(b.chunks);
    assert front == front[..m] + front[m..];
    if m < |front| {
      var cs := [front[m..]] + rest;
      FlatHead(cs);
      assert cs[1..] == rest;
    }
  }

  // ---------------------------------------------------------------- runs

  predicate RunDefined(b: Buffer, ops: seq<Op>)
    requires Coherent(b)
    decreases |ops|
  {
    ops == [] || (Defined(b, ops[0]) && (StepIsQueue(b, ops[0]); RunDefined(Apply(b, ops[0]), ops[1..])))
  }

  function Run(b: Buffer, ops: seq<Op>): (b': Buffer)
    requires Coherent(b) && RunDefined(b, ops)
    ensures Coherent(b')
    decreases |ops|
  {
    if ops == [] then b
    else
      StepIsQueue(b, ops[0]);
      Run(Apply(b, ops[0]), ops[1..])
  }

  function AllAdded(ops: seq<Op>): seq<byte> {
    if ops == [] then [] else Added(ops[0]) + AllAdded(ops[1..])
  }

  function AllTaken(b: Buffer, ops: seq<Op>): seq<byte>
    requires Coherent(b) && RunDefined(b, ops)
    decreases |ops|
  {
    if ops == [] then []
    else
      StepIsQueue(b, ops[0]);
      Taken(b, ops[0]) + AllTaken(Apply(b, ops[0]), ops[1..])
  }

  /** Over any run, with empty chunks anywhere: what was consumed, followed by what is left, is what was
      there followed by everything appended, in order. */
  lemma {:induction false} RunIsQueue(b: Buffer, ops: seq<Op>)
    requires Coherent(b) && RunDefined(b, ops)
    ensures AllTaken(b, ops) + Flat(Run(b, ops).chunks) == Flat(b.chunks) + AllAdded(ops)
    decreases |ops|
  {
    hide Apply, Taken, Added, Flat;
    if ops != [] {
      var b', rest := Apply(b, ops[0]), ops[1..];
      StepIsQueue(b, ops[0]);
      RunIsQueue(b', rest);
      calc {
        AllTaken(b, ops) + Flat(Run(b, ops).chunks);
        Taken(b, ops[0]) + (AllTaken(b', rest) + Flat(Run(b', rest).chunks));
        (Taken(b, ops[0]) + Flat(b'.chunks)) + AllAdded(rest);
        Flat(b.chunks) + (Added(ops[0]) + AllAdded(rest));
      }
    }
  }

  // ---------------------------------------------------------------- cost of merging

  /** Bytes the merge insert copies, and loop rounds it takes. */
  function MergedBytes(b: Buffer, op: Op): nat
    requires Coherent(b)
  {
    if op.PullDown? && Pullable(b, op.n) then |Flat(b.chunks[1..PullSpan(b, op.n)])| else 0
  }

  function MergeRounds(b: Buffer, op: Op): nat
    requires Coherent(b)
  {
    if op.PullDown? && Pullable(b, op.n) then PullSpan(b, op.n) - 1 else 0
  }

  function ChunksAdded(op: Op): nat {
    match op
    case AppendBytes(_) => 1
    case AppendBuffer(other) => |other.chunks|
    case _ => 0
  }

  /** The potential: bytes, and chunks, behind the front chunk. */
  function BytesBehind(b: Buffer): nat {
    if b.chunks == [] then 0 else |Flat(b.chunks[1..])|
  }

  function ChunksBehind(b: Buffer): nat {
    if b.chunks == [] then 0 else |b.chunks| - 1
  }

  lemma StepCost(b: Buffer, op: Op)
    requires Coherent(b) && Defined(b, op)
    ensures MergedBytes(b, op) + BytesBehind(Apply(b, op)) <= BytesBehind(b) + |Added(op)|
    ensures MergeRounds(b, op) + ChunksBehind(Apply(b, op)) <= ChunksBehind(b) + ChunksAdded(op)
  {
    match op
    case AppendBytes(data) => AppendCost(b.chunks, [data]); FlatOne(data);
    case AppendBuffer(other) => AppendCost(b.chunks, other.chunks);
    case PullDown(n) =>
      if Pullable(b, n) {
        PullCost(b, n);
      }
    case Consume(m) =>
      if Consumable(b, m) {
        ConsumeCost(b, m);
      }
  }

  lemma AppendCost(cs: seq<seq<byte>>, more: seq<seq<byte>>)
    ensures (if cs + more == [] then 0 else |Flat((cs + more)[1..])|)
         <= (if cs == [] then 0 else |Flat(cs[1..])|) + |Flat(more)|
  {
    if cs != [] {
      assert (cs + more)[1..] == cs[1..] + more;
      FlatAppend(cs[1..], more);
    } else if more != [] {
      assert cs + more == more;
    }
  }

  lemma PullCost(b: Buffer, n: nat)
    requires Coherent(b) && Pullable(b, n)
    ensures MergedBytes(b, PullDown(n)) + BytesBehind(Apply(b, PullDown(n))) == BytesBehind(b)
    ensures MergeRounds(b, PullDown(n)) + ChunksBehind(Apply(b, PullDown(n))) == ChunksBehind(b)
  {
    var cs, k := b.chunks, PullSpan(b, n);
    assert Merge(cs, k)[1..] == cs[k..];
    assert cs[1..][..k - 1] == cs[1..k] && cs[1..][k - 1..] == cs[k..];
    FlatCut(cs[1..], k - 1);
  }

  lemma ConsumeCost(b: Buffer, m: nat)
    requires Coherent(b) && Consumable(b, m)
    ensures BytesBehind(Apply(b, Consume(m))) <= BytesBehind(b)
    ensures ChunksBehind(Apply(b, Consume(m))) <= ChunksBehind(b)
  {
    var front, rest := b.chunks[0], b.chunks[1..];
    if m == |front| {
      if rest != [] {
        FlatHead(rest);
      }
    } else {
      assert ([front[m..]] + rest)[1..] == rest;
    }
  }

  function TotalMergedBytes(b: Buffer, ops: seq<Op>): nat
    requires Coherent(b) && RunDefined(b, ops)
    decreases |ops|
  {
    if ops == [] then 0
    else
      StepIsQueue(b, ops[0]);
      MergedBytes(b, ops[0]) + TotalMergedBytes(Apply(b, ops[0]), ops[1..])
  }

  function TotalMergeRounds(b: Buffer, ops: seq<Op>): nat
    requires Coherent(b) && RunDefined(b, ops)
    decreases |ops|
  {
    if ops == [] then 0
    else
      StepIsQueue(b, ops[0]);
      MergeRounds(b, ops[0]) + TotalMergeRounds(Apply(b, ops[0]), ops[1..])
  }

  function TotalChunksAdded(ops: seq<Op>): nat {
    if ops == [] then 0 else ChunksAdded(ops[0]) + TotalChunksAdded(ops[1..])
  }

  lemma {:induction false} RunCost(b: Buffer, ops: seq<Op>)
    requires Coherent(b) && RunDefined(b, ops)
    ensures TotalMergedBytes(b, ops) + BytesBehind(Run(b, ops)) <= BytesBehind(b) + |AllAdded(ops)|
    ensures TotalMergeRounds(b, ops) + ChunksBehind(Run(b, ops)) <= ChunksBehind(b) + TotalChunksAdded(ops)
    decreases |ops|
  {
    hide Apply, MergedBytes, MergeRounds, BytesBehind, ChunksBehind, Flat, Added;
    if ops != [] {
      StepIsQueue(b, ops[0]);
      StepCost(b, ops[0]);
      RunCost(Apply(b, ops[0]), ops[1..]);
    }
  }

  /** Amortised bound: from an empty buffer, pullDown copies each appended byte at most once and goes
      round its loop at most once per appended chunk, over all calls together. */
  lemma MergingIsLinear(ops: seq<Op>)
    requires RunDefined(Buffer([], 0), ops)
    ensures TotalMergedBytes(Buffer([], 0), ops) <= |AllAdded(ops)|
    ensures TotalMergeRounds(Buffer([], 0), ops) <= TotalChunksAdded(ops)
  {
    RunCost(Buffer([], 0), ops);
  }

  // ---------------------------------------------------------------- pull / consume cycles

  /** Several consumes in a row: the buffer after them and the booleans they returned. */
  function ConsumeAll(b: Buffer, ms: seq<nat>): (Buffer, seq<bool>)
    requires Coherent(b)
    decreases |ms|
  {
    if ms == [] || b.chunks == [] then (b, [])
    else
      StepIsQueue(b, Consume(ms[0]));
      var (b', oks) := ConsumeAll(Apply(b, Consume(ms[0])), ms[1..]);
      (b', [Consumable(b, ms[0])] + oks)
  }

  predicate Positive(ms: seq<nat>) {
    forall i :: 0 <= i < |ms| ==> ms[i] > 0
  }

  function AllTrue(n: nat): seq<bool> {
    seq(n, _ => true)
  }

  /** Positive consumes that together fit into the front chunk all succeed and take exactly that much
      off the front. */
  lemma {:induction false} ConsumesWithinFront(b: Buffer, ms: seq<nat>)
    requires Coherent(b) && Positive(ms)
    requires ms == [] || (b.chunks != [] && Sum(ms) <= |b.chunks[0]|)
    ensures var (b', oks) := ConsumeAll(b, ms);
            && oks == AllTrue(|ms|) && Coherent(b')
            && Sum(ms) <= |Flat(b.chunks)| && Flat(b'.chunks) == Flat(b.chunks)[Sum(ms)..]
    decreases |ms|
  {
    hide Flat, Apply;
    if ms != [] {
      var m, rest := ms[0], ms[1..];
      assert m > 0;
      var b1 := Apply(b, Consume(m));
      ConsumeTakes(b, m);
      FrontAfterConsume(b, m);
      if rest != [] {
        assert rest[0] > 0 by {
          assert rest[0] == ms[1];
        }
      }
      ConsumesWithinFront(b1, rest);
      assert [true] + AllTrue(|rest|) == AllTrue(|ms|);
    }
  }

  lemma FrontAfterConsume(b: Buffer, m: nat)
    requires Coherent(b) && Consumable(b, m) && 0 < m
    ensures m < |b.chunks[0]| ==>
              var b' := Apply(b, Consume(m));
              b'.chunks != [] && |b'.chunks[0]| == |b.chunks[0]| - m
  {
  }

  /** After pullDown(n) the front chunk holds the first `n` bytes of the content. */
  lemma FrontAfterPull(b: Buffer, n: nat)
    requires Coherent(b) && Pullable(b, n)
    ensures var b' := Apply(b, PullDown(n));
            && b'.chunks != [] && n <= |b'.chunks[0]|
            && b'.chunks[0][..n] == Flat(b.chunks)[..n]
            && Flat(b'.chunks) == Flat(b.chunks) && Coherent(b')
  {
    var k := PullSpan(b, n);
    MergeKeepsContent(b.chunks, k);
    FlatCut(b.chunks, k);
  }

  /** Handshake: after a successful pullDown(n), any positive consumes totalling at most `n` all succeed
      and remove exactly that prefix. */
  lemma PullThenConsume(b: Buffer, n: nat, ms: seq<nat>)
    requires Coherent(b) && Pullable(b, n) && Positive(ms) && Sum(ms) <= n
    ensures var b1 := Apply(b, PullDown(n));
            && Coherent(b1)
            && var (b', oks) := ConsumeAll(b1, ms);
               && oks == AllTrue(|ms|) && Coherent(b')
               && Flat(b'.chunks) == Flat(b.chunks)[Sum(ms)..]
  {
    FrontAfterPull(b, n);
    ConsumesWithinFront(Apply(b, PullDown(n)), ms);
  }

  /** Without a pullDown, consume refuses, and changes nothing, exactly when the front chunk is empty or
      too short: other chunks do not help. ConsumeAll gives the boolean it returns. */
  lemma ConsumeRefusesIff(b: Buffer, m: nat)
    requires Coherent(b) && b.chunks != [] && 0 < m
    ensures (|b.chunks[0]| == 0 || |b.chunks[0]| < m) <==> ConsumeAll(b, [m]).1 == [false]
    ensures (|b.chunks[0]| == 0 || |b.chunks[0]| < m) <==> Flat(Apply(b, Consume(m)).chunks) == Flat(b.chunks)
    ensures (|b.chunks[0]| == 0 || |b.chunks[0]| < m) <==> Apply(b, Consume(m)) == b
  {
    if Consumable(b, m) {
      ConsumeTakes(b, m);
    }
    assert ConsumeAll(b, [m]).1[0] == Consumable(b, m);
  }

  // ---------------------------------------------------------------- chunking is unobservable

  /** One step of a client that follows the usage rule: feed, or pull `n` bytes and, if that worked,
      consume some of them. */
  datatype Step = Feed(data: seq<byte>) | Cycle(n: nat, ms: seq<nat>)

  predicate Disciplined(step: Step) {
    step.Cycle? ==> step.n >= 1 && Positive(step.ms) && Sum(step.ms) <= step.n
  }

  /** What the client sees of a step: the bytes it may read, and the booleans of its consumes. */
  datatype Seen = Nothing | Refused | Saw(bytes: seq<byte>, oks: seq<bool>)

  function Drive(b: Buffer, steps: seq<Step>): seq<Seen>
    requires Coherent(b) && forall i :: 0 <= i < |steps| ==> Disciplined(steps[i])
    decreases |steps|
  {
    if steps == [] then []
    else
      DriveStepCoherent(b, steps[0]);
      var (b', seen) := DriveStep(b, steps[0]);
      [seen] + Drive(b', steps[1..])
  }

  function DriveStep(b: Buffer, step: Step): (Buffer, Seen)
    requires Coherent(b) && Disciplined(step)
  {
    match step
    case Feed(data) => (Apply(b, AppendBytes(data)), Nothing)
    case Cycle(n, ms) =>
      if !Pullable(b, n) then (b, Refused)
      else
        FrontAfterPull(b, n);
        var b1 := Apply(b, PullDown(n));
        var (b', oks) := ConsumeAll(b1, ms);
        (b', Saw(b1.chunks[0][..n], oks))
  }

  /** The same client on a plain byte queue. */
  function QueueStep(q: seq<byte>, step: Step): (seq<byte>, Seen)
    requires Disciplined(step)
  {
    match step
    case Feed(data) => (q + data, Nothing)
    case Cycle(n, ms) =>
      if |q| < n then (q, Refused) else (q[Sum(ms)..], Saw(q[..n], AllTrue(|ms|)))
  }

  function DriveQueue(q: seq<byte>, steps: seq<Step>): seq<Seen>
    requires forall i :: 0 <= i < |steps| ==> Disciplined(steps[i])
    decreases |steps|
  {
    if steps == [] then []
    else
      var (q', seen) := QueueStep(q, steps[0]);
      [seen] + DriveQueue(q', steps[1..])
  }

  lemma DriveStepCoherent(b: Buffer, step: Step)
    requires Coherent(b) && Disciplined(step)
    ensures var (b', seen) := DriveStep(b, step);
            Coherent(b') && (Flat(b'.chunks), seen) == QueueStep(Flat(b.chunks), step)
  {
    hide Flat, Apply;
    match step
    case Feed(data) => StepIsQueue(b, AppendBytes(data)); FedQueue(b, data);
    case Cycle(n, ms) =>
      if Pullable(b, n) {
        FrontAfterPull(b, n);
        PullThenConsume(b, n, ms);
      }
  }

  lemma FedQueue(b: Buffer, data: seq<byte>)
    requires Coherent(b)
    ensures Flat(Apply(b, AppendBytes(data)).chunks) == Flat(b.chunks) + data
  {
    FlatSnoc(b.chunks, data);
  }

  /** The client cannot tell the buffer from a queue of its content. */
  lemma {:induction false} DriveIsQueue(b: Buffer, steps: seq<Step>)
    requires Coherent(b) && forall i :: 0 <= i < |steps| ==> Disciplined(steps[i])
    ensures Drive(b, steps) == DriveQueue(Flat(b.chunks), steps)
    decreases |steps|
  {
    hide Flat, DriveStep, QueueStep;
    if steps != [] {
      assert Disciplined(steps[0]);
      DriveStepCoherent(b, steps[0]);
      DriveIsQueue(DriveStep(b, steps[0]).0, steps[1..]);
    }
  }

  /** The buffer such a client leaves, and the queue. */
  function DriveEnd(b: Buffer, steps: seq<Step>): (b': Buffer)
    requires Coherent(b) && forall i :: 0 <= i < |steps| ==> Disciplined(steps[i])
    ensures Coherent(b')
    decreases |steps|
  {
    if steps == [] then b
    else
      DriveStepCoherent(b, steps[0]);
      DriveEnd(DriveStep(b, steps[0]).0, steps[1..])
  }

  function QueueEnd(q: seq<byte>, steps: seq<Step>): seq<byte>
    requires forall i :: 0 <= i < |steps| ==> Disciplined(steps[i])
    decreases |steps|
  {
    if steps == [] then q else QueueEnd(QueueStep(q, steps[0]).0, steps[1..])
  }

  lemma {:induction false} DriveEndIsQueueEnd(b: Buffer, steps: seq<Step>)
    requires Coherent(b) && forall i :: 0 <= i < |steps| ==> Disciplined(steps[i])
    ensures Flat(DriveEnd(b, steps).chunks) == QueueEnd(Flat(b.chunks), steps)
    decreases |steps|
  {
    hide Flat, DriveStep, QueueStep;
    if steps != [] {
      assert Disciplined(steps[0]);
      DriveStepCoherent(b, steps[0]);
      DriveEndIsQueueEnd(DriveStep(b, steps[0]).0, steps[1..]);
    }
  }

  /** So two buffers with the same content, however chunked, show every such client the same and keep the
      same content. */
  lemma ChunkingIsUnobservable(a: Buffer, b: Buffer, steps: seq<Step>)
    requires Coherent(a) && Coherent(b) && Flat(a.chunks) == Flat(b.chunks)
    requires forall i :: 0 <= i < |steps| ==> Disciplined(steps[i])
    ensures Drive(a, steps) == Drive(b, steps)
    ensures Flat(DriveEnd(a, steps).chunks) == Flat(DriveEnd(b, steps).chunks)
  {
    hide Drive, DriveQueue, DriveEnd, QueueEnd, Flat;
    DriveIsQueue(a, steps);
    DriveIsQueue(b, steps);
    DriveEndIsQueueEnd(a, steps);
    DriveEndIsQueueEnd(b, steps);
  }
}
