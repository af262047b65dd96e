/** The `Buffer` trait of src/buffer/mod.rs, as the contract every backend meets.

    A buffer is observed through its `filled()` view (unconsumed data, in order), its
    `appendable()` view (the free room right after it) and the size of its backing
    store. Each trait method becomes a predicate relating the observation before the
    call to the one after it; every backend class states, in the `ensures` of its
    methods, that it satisfies these predicates. The lemmas at the end show what any
    client can rely on from the contract alone: a buffer driven by any sequence of
    appends, consumes and enlargements behaves as a plain first-in first-out queue. */
module BufferContract {
  import opened Bytes

  /** What a caller sees of a buffer between two calls. */
  datatype Snapshot = Snapshot(filled: seq<byte>, appendable: seq<byte>, capacity: nat)

  /** `filled()` and `appendable()` never cover more than the backing store. */
  predicate WellFormed(s: Snapshot) {
    |s.filled| + |s.appendable| <= s.capacity
  }

  /** `new(cap)`: nothing filled, and room for at least `cap` bytes. */
  predicate NewOk(cap: nat, s: Snapshot): (r: bool)
    ensures r ==> WellFormed(s) && |s.appendable| >= cap
  {
    s.filled == [] && s.capacity >= cap && |s.appendable| == s.capacity
  }

  /** Writing `data` through the slice returned by `appendable()`: the first `|data|`
      bytes of the appendable view become `data`, nothing else is disturbed. */
  predicate WriteOk(before: Snapshot, data: seq<byte>, after: Snapshot): (r: bool)
    ensures r ==> (WellFormed(before) <==> WellFormed(after))
    ensures r ==> |data| <= |before.appendable| &&
                  after.appendable == data + before.appendable[|data|..]
  {
    |data| <= |before.appendable| &&
    after.filled == before.filled &&
    after.capacity == before.capacity &&
    |after.appendable| == |before.appendable| &&
    after.appendable[..|data|] == data &&
    after.appendable[|data|..] == before.appendable[|data|..]
  }

  /** `mark_appended(amount)`: the first `amount` bytes of `appendable()` are attached to
      the end of `filled()`, and the appendable view shrinks by them. */
  predicate MarkAppendedOk(before: Snapshot, amount: nat, after: Snapshot): (r: bool)
    ensures r ==> after.filled + after.appendable == before.filled + before.appendable
    ensures r ==> (WellFormed(before) <==> WellFormed(after))
  {
    amount <= |before.appendable| &&
    after.filled == before.filled + before.appendable[..amount] &&
    after.appendable == before.appendable[amount..] &&
    after.capacity == before.capacity
  }

  /** `consume(amount)`: up to `amount` bytes come off the front of `filled()` and are
      returned; never more than are filled. Room already written but not
      yet marked appended stays where it is. */
  predicate ConsumeOk(before: Snapshot, amount: nat, out: seq<byte>, after: Snapshot): (r: bool)
    ensures r ==> |out| <= amount && out + after.filled == before.filled
    ensures r && |out| < amount ==> after.filled == []
  {
    var k := Min(amount, |before.filled|);
    out == before.filled[..k] &&
    after.filled == before.filled[k..] &&
    before.appendable <= after.appendable &&
    after.capacity == before.capacity
  }

  /** A successful `enlarge()` keeps the data and never loses room. */
  predicate EnlargeKeepsData(before: Snapshot, after: Snapshot): (r: bool)
    ensures r ==> |after.filled| + |after.appendable| >= |before.filled| + |before.appendable|
  {
    after.filled == before.filled &&
    after.capacity >= before.capacity &&
    |after.appendable| >= |before.appendable|
  }

  /** A successful `enlarge()` leaves room to append into ("grow `appendable()` one way
      or the other"), unless the backing store has no room at all. */
  predicate EnlargeMakesRoom(before: Snapshot, after: Snapshot): (r: bool)
    ensures r && before.capacity > 0 && WellFormed(after) ==> |after.filled| < after.capacity
  {
    before.capacity > 0 ==> |after.appendable| > 0
  }

  /** The usage the trait documents: write into `appendable()`, then `mark_appended`
      the number of bytes written. */
  predicate AppendOk(before: Snapshot, data: seq<byte>, after: Snapshot) {
    |data| <= |before.appendable| &&
    after.filled == before.filled + data &&
    after.appendable == before.appendable[|data|..] &&
    after.capacity == before.capacity
  }

  lemma WriteThenMark(s0: Snapshot, data: seq<byte>, s1: Snapshot, s2: Snapshot)
    requires WriteOk(s0, data, s1)
    requires MarkAppendedOk(s1, |data|, s2)
    ensures AppendOk(s0, data, s2)
  {
    assert s1.appendable[|data|..] == s0.appendable[|data|..];
  }

  /** One call on a buffer, as a client issues it. */
  datatype Op = Append(data: seq<byte>) | Consume(amount: nat) | Enlarge

  /** The call `op` took the buffer from `before` to `after` and returned `out`. */
  predicate StepOk(before: Snapshot, op: Op, out: seq<byte>, after: Snapshot) {
    match op
    case Append(data) => AppendOk(before, data, after) && out == []
    case Consume(amount) => ConsumeOk(before, amount, out, after)
    case Enlarge => EnlargeKeepsData(before, after) && out == []
  }

  /** `snaps` are the observations around the calls `ops`, whose results are `outs`. */
  predicate TraceOk(snaps: seq<Snapshot>, ops: seq<Op>, outs: seq<seq<byte>>) {
    |snaps| == |ops| + 1 && |outs| == |ops| &&
    forall i :: 0 <= i < |ops| ==> StepOk(snaps[i], ops[i], outs[i], snaps[i + 1])
  }

  /** The reference: a naive queue of bytes, with no capacity and no layout. */
  function RefStep(q: seq<byte>, op: Op): (seq<byte>, seq<byte>) {
    match op
    case Append(data) => ([], q + data)
    case Consume(amount) => (q[..Min(amount, |q|)], q[Min(amount, |q|)..])
    case Enlarge => ([], q)
  }

  /** The outputs of `ops` run on the reference queue `q`, and the queue left at the end. */
  function RefRun(q: seq<byte>, ops: seq<Op>): (seq<seq<byte>>, seq<byte>)
    decreases |ops|
  {
    if ops == [] then ([], q)
    else
      var step := RefStep(q, ops[0]);
      var rest := RefRun(step.1, ops[1..]);
      ([step.0] + rest.0, rest.1)
  }

  /** Every byte put in by the `Append`s of `ops`, in order. */
  function Appended(ops: seq<Op>): seq<byte>
    decreases |ops|
  {
    if ops == [] then []
    else (if ops[0].Append? then ops[0].data else []) + Appended(ops[1..])
  }

  function Flatten(outs: seq<seq<byte>>): seq<byte>
    decreases |outs|
  {
    if outs == [] then [] else outs[0] + Flatten(outs[1..])
  }

  /** Any buffer meeting the contract returns what the reference queue returns, and ends
      holding what the reference queue holds. */
  lemma {:induction false} TraceMatchesReference(snaps: seq<Snapshot>, ops: seq<Op>, outs: seq<seq<byte>>)
    requires TraceOk(snaps, ops, outs)
    ensures RefRun(snaps[0].filled, ops) == (outs, snaps[|ops|].filled)
    decreases |ops|
  {
    if ops != [] {
      assert StepOk(snaps[0], ops[0], outs[0], snaps[1]);
      assert RefStep(snaps[0].filled, ops[0]) == (outs[0], snaps[1].filled);
      assert TraceOk(snaps[1..], ops[1..], outs[1..]) by {
        forall i | 0 <= i < |ops| - 1
          ensures StepOk(snaps[1..][i], ops[1..][i], outs[1..][i], snaps[1..][i + 1])
        {
          assert StepOk(snaps[i + 1], ops[i + 1], outs[i + 1], snaps[i + 2]);
        }
      }
      TraceMatchesReference(snaps[1..], ops[1..], outs[1..]);
      assert outs == [outs[0]] + outs[1..];
    }
  }

  /** The reference queue loses, duplicates and reorders nothing: what came out, followed
      by what is still queued, is what was queued at first followed by what was put in. */
  lemma {:induction false} ReferenceIsFifo(q: seq<byte>, ops: seq<Op>)
    ensures Flatten(RefRun(q, ops).0) + RefRun(q, ops).1 == q + Appended(ops)
    decreases |ops|
  {
    if ops != [] {
      var step := RefStep(q, ops[0]);
      ReferenceIsFifo(step.1, ops[1..]);
      var rest := RefRun(step.1, ops[1..]);
      assert RefRun(q, ops) == ([step.0] + rest.0, rest.1);
      assert ([step.0] + rest.0)[1..] == rest.0;
      assert Flatten(RefRun(q, ops).0) == step.0 + Flatten(rest.0);
      match ops[0]
      case Append(data) =>
        calc {
          Flatten(RefRun(q, ops).0) + RefRun(q, ops).1;
          Flatten(rest.0) + rest.1;
          step.1 + Appended(ops[1..]);
          q + (data + Appended(ops[1..]));
        }
      case Consume(amount) =>
        var k := Min(amount, |q|);
        calc {
          Flatten(RefRun(q, ops).0) + RefRun(q, ops).1;
          q[..k] + (Flatten(rest.0) + rest.1);
          q[..k] + (q[k..] + Appended(ops[1..]));
          { assert q[..k] + q[k..] == q; }
          q + Appended(ops[1..]);
        }
      case Enlarge =>
        assert Flatten(RefRun(q, ops).0) == Flatten(rest.0);
    }
  }

  /** Growth correctness: however a contract-abiding buffer is driven, the bytes it hands
      out followed by the bytes it still holds are its initial content followed by
      everything appended, in the original order. */
  lemma TraceIsFifo(snaps: seq<Snapshot>, ops: seq<Op>, outs: seq<seq<byte>>)
    requires TraceOk(snaps, ops, outs)
    ensures Flatten(outs) + snaps[|ops|].filled == snaps[0].filled + Appended(ops)
  {
    TraceMatchesReference(snaps, ops, outs);
    ReferenceIsFifo(snaps[0].filled, ops);
  }
}
