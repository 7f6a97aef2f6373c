/**
 The checksum accounting and calibration of config/scripts/native-chat-live-session-benchmark.ts.

 Every timed operation adds to one checksum, every sample adds the closed form of what it should have
 added to another; the theorems say that the two never drift apart.
 */
module Benchmark {
  import opened Options

  const TARGET_SAMPLE_MS: real := 50.0
  const MAX_ITERATIONS: nat := 16777216
  const ROUNDS: nat := 10

  type Nonempty = s: string | s != "" witness "u"

  datatype Block = TextBlock(text: string) | ToolCall(name: string) | ToolResult(output: string)
    | ImageRef(path: Option<string>, url: Option<string>, alt: Option<string>) | Grouped(groupId: string)

  datatype Message = Message(id: string, role: Nonempty, blocks: seq<Block>)

  datatype Session = Session(status: Nonempty, messages: seq<Message>)

  // ---------- sums ----------

  // f(0) + ... + f(n - 1)
  function SumOf(f: nat -> int, n: nat): int { if n == 0 then 0 else SumOf(f, n - 1) + f(n - 1) }

  function Total(values: seq<int>): int { if values == [] then 0 else Total(values[..|values| - 1]) + values[|values| - 1] }

  // The value at place i of the values repeated for ever; nothing to repeat counts as zero
  function Cyclic(values: seq<int>, i: nat): int { if values == [] then 0 else values[i % |values|] }

  function CyclicSum(values: seq<int>, n: nat): int { SumOf((i: nat) => Cyclic(values, i), n) }

  // A beginning of the values is summed like the cycle.
  lemma {:induction false} FirstCycle(values: seq<int>, n: nat)
    requires n <= |values|
    ensures CyclicSum(values, n) == Total(values[..n])
  {
    if n > 0 {
      FirstCycle(values, n - 1);
      assert values[..n][..n - 1] == values[..n - 1];
      assert (n - 1) % |values| == n - 1;
    }
  }

  lemma OneMore(values: seq<int>, n: nat)
    ensures CyclicSum(values, n + 1) == CyclicSum(values, n) + Cyclic(values, n)
  {
  }

  lemma SamePlace(values: seq<int>, n: nat)
    ensures Cyclic(values, n + |values|) == Cyclic(values, n)
  {
    if values != [] {
      AddModulus(n, |values|);
    }
  }

  lemma AddModulus(n: nat, m: nat)
    requires m > 0
    ensures (n + m) % m == n % m
  {
    var k := (n + m) / m - n / m - 1;
    assert k * m == n % m - (n + m) % m by {
      assert ((n + m) / m) * m + (n + m) % m == n + m && (n / m) * m + n % m == n;
      assert k * m == ((n + m) / m) * m - (n / m) * m - m;
    }
    SmallMultiple(k, m);
  }

  lemma SmallMultiple(k: int, m: int)
    requires -m < k * m < m
    ensures k == 0
  {
    AtLeastOnce(k, m);
    AtLeastOnce(-k, m);
  }

  lemma {:induction false} AtLeastOnce(k: int, m: int)
    requires m > 0
    ensures k >= 1 ==> k * m >= m
  {
    if k > 1 {
      AtLeastOnce(k - 1, m);
      assert k * m == (k - 1) * m + m;
    }
  }

  // One full cycle more adds the total of the values.
  lemma {:induction false} AnotherCycle(values: seq<int>, n: nat)
    requires values != []
    ensures CyclicSum(values, n + |values|) == CyclicSum(values, n) + Total(values)
  {
    if n == 0 {
      FirstCycle(values, |values|);
      assert values[..|values|] == values;
    } else {
      AnotherCycle(values, n - 1);
      SamePlace(values, n - 1);
      OneMore(values, n - 1);
      OneMore(values, n - 1 + |values|);
    }
  }

  lemma {:induction false} FullCycles(values: seq<int>, cycles: nat, rest: nat)
    requires values != [] && rest <= |values|
    ensures 0 <= cycles * |values| && CyclicSum(values, cycles * |values| + rest) == Total(values) * cycles + Total(values[..rest])
  {
    if cycles == 0 {
      FirstCycle(values, rest);
    } else {
      FullCycles(values, cycles - 1, rest);
      var n := (cycles - 1) * |values| + rest;
      assert cycles * |values| + rest == n + |values|;
      AnotherCycle(values, n);
      assert Total(values) * cycles == Total(values) * (cycles - 1) + Total(values);
    }
  }

  lemma ClosedForm(values: seq<int>, n: nat)
    requires values != []
    ensures CyclicSum(values, n) == Total(values) * (n / |values|) + Total(values[..n % |values|])
  {
    var cycles, rest := n / |values|, n % |values|;
    assert n == cycles * |values| + rest;
    FullCycles(values, cycles, rest);
  }

  // The closed form is the sum of the values taken cyclically, for any values and any count.
  method CyclicChecksum(values: seq<int>, iterations: nat) returns (total: int)
    ensures total == CyclicSum(values, iterations)
  {
    if |values| == 0 {
      NothingToRepeat(values, iterations);
      return 0;
    }
    var cycle := 0;
    for i := 0 to |values|
      invariant cycle == Total(values[..i])
    {
      assert values[..i + 1][..i] == values[..i];
      cycle := cycle + values[i];
    }
    assert values[..|values|] == values;
    var fullCycles := iterations / |values|;
    total := cycle * fullCycles;
    ghost var whole := total;
    for index := 0 to iterations % |values|
      invariant total == whole + Total(values[..index])
    {
      assert values[..index + 1][..index] == values[..index];
      total := total + values[index];
    }
    ClosedForm(values, iterations);
  }

  lemma {:induction false} NothingToRepeat(values: seq<int>, n: nat)
    requires values == []
    ensures CyclicSum(values, n) == 0
  {
    if n > 0 {
      NothingToRepeat(values, n - 1);
    }
  }

  // ---------- operations ----------

  function BlockContent(message: Message): string {
    if message.blocks == [] then ""
    else
      match message.blocks[0]
      case TextBlock(text) => text
      case ToolCall(name) => name
      case ToolResult(output) => output
      case ImageRef(path, url, alt) => if path.Some? then path.value else if url.Some? then url.value else if alt.Some? then alt.value else ""
      case Grouped(groupId) => groupId
  }

  function Tail(s: string): int { if s == "" then 0 else s[|s| - 1] as int }

  function MessageWeight(message: Message): int {
    var content := BlockContent(message);
    |message.id| + Tail(message.id) + message.role[0] as int + |content| + Tail(content)
  }

  // What the first block says, whatever follows it
  lemma ContentRead(id: string, role: Nonempty, text: string, other: string, third: string, rest: seq<Block>)
    ensures BlockContent(Message(id, role, [])) == ""
    ensures forall b :: b in {TextBlock(text), ToolCall(text), ToolResult(text), Grouped(text), ImageRef(Some(text), Some(other), Some(third)),
                              ImageRef(None, Some(text), Some(other)), ImageRef(None, None, Some(text))}
                        ==> BlockContent(Message(id, role, [b] + rest)) == text
    ensures BlockContent(Message(id, role, [ImageRef(None, None, None)] + rest)) == ""
  {
  }

  // Of an identifier and a content, either of them possibly empty, length and last character count.
  lemma WeightRead(id: string, last: char, role: char, more: string, blocks: seq<Block>, content: string, end: char)
    ensures var named, text := Message(id + [last], [role] + more, blocks), BlockContent(Message("", [role] + more, blocks));
            && MessageWeight(Message("", [role] + more, [])) == role as int
            && (text == "" ==> MessageWeight(named) == |id| + 1 + last as int + role as int)
            && (text == content + [end] ==> MessageWeight(named) == |id| + 1 + last as int + role as int + |content| + 1 + end as int)
  {
  }

  function Weights(messages: seq<Message>): seq<int> { seq(|messages|, i requires 0 <= i < |messages| => MessageWeight(messages[i])) }

  // The session operation: a session without messages counts its status only
  function Consumed(session: Session, index: nat): int {
    session.status[0] as int
    + if session.messages == [] then 0 else MessageWeight(session.messages[index % |session.messages|])
  }

  function PendingOutput(index: nat): int { (index % 7) + 1 }

  function SessionExpected(session: Session, iterations: nat): int {
    session.status[0] as int * iterations + CyclicSum(Weights(session.messages), iterations)
  }

  function PendingExpected(iterations: nat): int { CyclicSum([1, 2, 3, 4, 5, 6, 7], iterations) }

  // The operations and expectations the benchmark is called with
  function Consuming(session: Session): nat -> int { (i: nat) => Consumed(session, i) }

  function SessionExpectation(session: Session): nat -> int { (n: nat) => SessionExpected(session, n) }

  function Pending(): nat -> int { (i: nat) => PendingOutput(i) }

  function PendingExpectation(): nat -> int { (n: nat) => PendingExpected(n) }

  function Plus(f: nat -> int, g: nat -> int): nat -> int { (n: nat) => f(n) + g(n) }

  // The expected checksum of every count is the sum of the operation over that many indices.
  ghost predicate Accounts(operation: nat -> int, expected: nat -> int) {
    forall n: nat :: expected(n) == SumOf(operation, n)
  }

  lemma {:induction false} SessionSum(session: Session, n: nat)
    ensures SumOf(Consuming(session), n) == SessionExpected(session, n)
  {
    if n > 0 {
      SessionSum(session, n - 1);
      var status := session.status[0] as int;
      assert status * n == status * (n - 1) + status;
    }
  }

  lemma SessionAccounts(session: Session)
    ensures Accounts(Consuming(session), SessionExpectation(session))
  {
    forall n: nat
      ensures SumOf(Consuming(session), n) == SessionExpected(session, n)
    {
      SessionSum(session, n);
    }
  }

  lemma {:induction false} PendingSum(n: nat)
    ensures SumOf(Pending(), n) == PendingExpected(n)
  {
    if n > 0 {
      PendingSum(n - 1);
      assert Cyclic([1, 2, 3, 4, 5, 6, 7], n - 1) == PendingOutput(n - 1);
    }
  }

  lemma PendingAccounts()
    ensures Accounts(Pending(), PendingExpectation())
  {
    forall n: nat
      ensures SumOf(Pending(), n) == PendingExpected(n)
    {
      PendingSum(n);
    }
  }

  lemma {:induction false} SumOfBoth(f: nat -> int, g: nat -> int, n: nat)
    ensures SumOf(Plus(f, g), n) == SumOf(f, n) + SumOf(g, n)
  {
    if n > 0 {
      SumOfBoth(f, g, n - 1);
    }
  }

  // Operations added up account for expectations added up, as in the combined case.
  lemma CombinedAccounts(f: nat -> int, g: nat -> int, expectedF: nat -> int, expectedG: nat -> int)
    requires Accounts(f, expectedF) && Accounts(g, expectedG)
    ensures Accounts(Plus(f, g), Plus(expectedF, expectedG))
  {
    forall n: nat
      ensures Plus(expectedF, expectedG)(n) == SumOf(Plus(f, g), n)
    {
      SumOfBoth(f, g, n);
    }
  }

  // ---------- calibration ----------

  function Pow2(e: nat): nat { if e == 0 then 1 else 2 * Pow2(e - 1) }

  datatype Calibration = Calibration(iterations: nat, elapsedMs: real, capped: bool)

  // An operation and how often it ran in one sample
  datatype Ran = Ran(operation: nat -> int, iterations: nat)

  // All samples after the first of these ran this operation.
  ghost predicate RanOnly(before: seq<Ran>, runs: seq<Ran>, operation: nat -> int) {
    before <= runs && forall k :: |before| <= k < |runs| ==> runs[k].operation == operation
  }

  lemma RanMore(before: seq<Ran>, runs: seq<Ran>, operation: nat -> int, iterations: nat)
    requires RanOnly(before, runs, operation)
    ensures RanOnly(before, runs + [Ran(operation, iterations)], operation)
  {
  }

  // The time per operation of a sample
  function PerOperation(elapsedMs: real, c: Calibration): real
    requires c.iterations > 0
  {
    elapsedMs / c.iterations as real
  }

  // Round `r` of those from sample `from` on runs both arms as often as they were calibrated to, the baseline
  // first in even rounds and second in odd ones, and notes the time per operation of each.
  ghost predicate RoundAt(runs: seq<Ran>, elapsed: nat -> real, from: nat, r: nat, baseline: Arm, optimized: Arm, baselineMs: real, optimizedMs: real)
    requires baseline.calibration.iterations > 0 && optimized.calibration.iterations > 0
  {
    var b, o := from + 2 * r + r % 2, from + 2 * r + 1 - r % 2;
    && b < |runs| && o < |runs|
    && runs[b] == Ran(baseline.operation, baseline.calibration.iterations) && baselineMs == PerOperation(elapsed(b), baseline.calibration)
    && runs[o] == Ran(optimized.operation, optimized.calibration.iterations) && optimizedMs == PerOperation(elapsed(o), optimized.calibration)
  }

  ghost predicate Rounds(runs: seq<Ran>, elapsed: nat -> real, from: nat, baseline: Arm, optimized: Arm, baselineMs: seq<real>, optimizedMs: seq<real>)
    requires baseline.calibration.iterations > 0 && optimized.calibration.iterations > 0
  {
    && |runs| == from + 2 * |baselineMs| && |baselineMs| == |optimizedMs|
    && forall r :: 0 <= r < |baselineMs| ==> RoundAt(runs, elapsed, from, r, baseline, optimized, baselineMs[r], optimizedMs[r])
  }

  // An arm with what it was calibrated to
  datatype Arm = Arm(operation: nat -> int, calibration: Calibration)

  lemma RoundsMore(runs: seq<Ran>, later: seq<Ran>, elapsed: nat -> real, from: nat, baseline: Arm, optimized: Arm, baselineMs: seq<real>,
                   optimizedMs: seq<real>, b: real, o: real)
    requires baseline.calibration.iterations > 0 && optimized.calibration.iterations > 0
    requires Rounds(runs, elapsed, from, baseline, optimized, baselineMs, optimizedMs) && runs <= later && |later| == |runs| + 2
    requires RoundAt(later, elapsed, from, |baselineMs|, baseline, optimized, b, o)
    ensures Rounds(later, elapsed, from, baseline, optimized, baselineMs + [b], optimizedMs + [o])
  {
    forall r | 0 <= r < |baselineMs|
      ensures RoundAt(later, elapsed, from, r, baseline, optimized, baselineMs[r], optimizedMs[r])
    {
      assert RoundAt(runs, elapsed, from, r, baseline, optimized, baselineMs[r], optimizedMs[r]);
    }
  }

  // `elapsed(k)` is what the clock says of sample k: anything at all.
  class Bench {
    const elapsed: nat -> real
    var samples: nat
    var checksum: int
    var expectedChecksum: int
    ghost var runs: seq<Ran>    // what each sample ran

    ghost predicate Valid()
      reads this
    {
      |runs| == samples
    }

    constructor (elapsed: nat -> real)
      ensures this.elapsed == elapsed && samples == 0 && checksum == 0 && expectedChecksum == 0
      ensures Valid()
    {
      this.elapsed := elapsed;
      samples, checksum, expectedChecksum, runs := 0, 0, 0, [];
    }

    // How far the checksum is ahead of the expected one
    function Drift(): int
      reads this
    {
      checksum - expectedChecksum
    }

    // Whether sample k reached the target
    predicate Reached(k: nat) { elapsed(k) >= TARGET_SAMPLE_MS }

    method RunSample(operation: nat -> int, expected: nat -> int, iterations: nat) returns (elapsedMs: real)
      requires Valid()
      modifies this
      ensures Valid() && runs == old(runs) + [Ran(operation, iterations)]
      ensures checksum == old(checksum) + SumOf(operation, iterations)
      ensures expectedChecksum == old(expectedChecksum) + expected(iterations)
      ensures samples == old(samples) + 1 && elapsedMs == elapsed(old(samples))
    {
      var sampleChecksum := 0;
      for index := 0 to iterations
        invariant sampleChecksum == SumOf(operation, index)
      {
        sampleChecksum := sampleChecksum + operation(index);
      }
      elapsedMs := elapsed(samples);
      samples := samples + 1;
      checksum := checksum + sampleChecksum;
      expectedChecksum := expectedChecksum + expected(iterations);
      runs := runs + [Ran(operation, iterations)];
    }

    // A sample, of an operation that its expectation may account for
    method BalancedSample(operation: nat -> int, expected: nat -> int, iterations: nat) returns (elapsedMs: real)
      requires Valid()
      modifies this
      ensures Valid() && runs == old(runs) + [Ran(operation, iterations)]
      ensures Accounts(operation, expected) ==> Drift() == old(Drift())
      ensures samples == old(samples) + 1 && elapsedMs == elapsed(old(samples))
    {
      elapsedMs := RunSample(operation, expected, iterations);
    }

    // Whatever the clock says, calibration ends within 50 samples at a power of two up to the cap; it is
    // capped only if the last sample at the cap was too short, and otherwise the last two were long enough.
    method Calibrate(operation: nat -> int, expected: nat -> int) returns (c: Calibration, ghost e: nat)
      requires Valid()
      modifies this
      ensures Valid() && RanOnly(old(runs), runs, operation) && |runs| > 0 && runs[|runs| - 1] == Ran(operation, c.iterations)
      ensures old(samples) < samples <= old(samples) + 50
      ensures e <= 24 && 1 <= c.iterations == Pow2(e) <= MAX_ITERATIONS
      ensures c.elapsedMs == elapsed(samples - 1)
      ensures c.capped ==> c.iterations == MAX_ITERATIONS && !Reached(samples - 1)
      ensures !c.capped ==> samples >= old(samples) + 2 && Reached(samples - 1) && Reached(samples - 2) && runs[samples - 2] == runs[samples - 1]
      ensures Accounts(operation, expected) ==> Drift() == old(Drift())
    {
      PowersOfTwo();
      var iterations := 1;
      var reachedTarget := false;
      e := 0;
      while true
        invariant Valid() && RanOnly(old(runs), runs, operation)
        invariant e <= 24 && 1 <= iterations == Pow2(e) <= MAX_ITERATIONS
        invariant samples <= old(samples) + 2 * e + if reachedTarget then 1 else 0
        invariant old(samples) <= samples
        invariant reachedTarget ==> samples > old(samples) && Reached(samples - 1) && runs[samples - 1] == Ran(operation, iterations)
        invariant Accounts(operation, expected) ==> Drift() == old(Drift())
        decreases 24 - e, !reachedTarget
      {
        RanMore(old(runs), runs, operation, iterations);
        var elapsedMs := BalancedSample(operation, expected, iterations);
        if elapsedMs >= TARGET_SAMPLE_MS {
          if reachedTarget {
            return Calibration(iterations, elapsedMs, false), e;
          }
          reachedTarget := true;
          continue;
        }
        if iterations >= MAX_ITERATIONS {
          return Calibration(iterations, elapsedMs, true), e;
        }
        reachedTarget := false;
        PowersBelow(e);
        iterations := if iterations * 2 <= MAX_ITERATIONS then iterations * 2 else MAX_ITERATIONS;
        e := e + 1;
      }
    }

    // One round: the baseline first if the round is even
    method RunRound(round: nat, baseline: Arm, optimized: Arm, expected: nat -> int, ghost from: nat) returns (baselineMs: real, optimizedMs: real)
      requires Valid() && samples == from + 2 * round && baseline.calibration.iterations > 0 && optimized.calibration.iterations > 0
      modifies this
      ensures Valid() && old(runs) <= runs && samples == old(samples) + 2
      ensures RoundAt(runs, elapsed, from, round, baseline, optimized, baselineMs, optimizedMs)
      ensures Accounts(baseline.operation, expected) && Accounts(optimized.operation, expected) ==> Drift() == old(Drift())
    {
      var first, second := if round % 2 == 0 then baseline else optimized, if round % 2 == 0 then optimized else baseline;
      var firstMs := BalancedSample(first.operation, expected, first.calibration.iterations);
      firstMs := firstMs / first.calibration.iterations as real;
      var secondMs := BalancedSample(second.operation, expected, second.calibration.iterations);
      secondMs := secondMs / second.calibration.iterations as real;
      baselineMs, optimizedMs := if round % 2 == 0 then firstMs else secondMs, if round % 2 == 0 then secondMs else firstMs;
    }

    // Both arms are timed exactly when they agree on the first index.  Arms that differ there change
    // nothing, and arms that one expectation accounts for agree and never let the checksum drift.
    method TimeArms(baseline: nat -> int, optimized: nat -> int, expected: nat -> int)
      returns (timed: bool, calibrations: seq<Calibration>, baselineMs: seq<real>, optimizedMs: seq<real>, ghost middle: nat)
      requires Valid()
      modifies this
      ensures Valid() && old(runs) <= runs
      ensures timed <==> baseline(0) == optimized(0)
      ensures Accounts(baseline, expected) && Accounts(optimized, expected) ==> timed && Drift() == old(Drift())
      // The baseline is calibrated, then the optimized arm, and then come ten rounds of both.
      ensures timed ==> |calibrations| == 2 && old(samples) < middle <= old(samples) + 50 && middle < samples - 2 * ROUNDS <= middle + 50
      ensures timed ==> runs[middle - 1] == Ran(baseline, calibrations[0].iterations) && calibrations[0].elapsedMs == elapsed(middle - 1)
      ensures timed ==> runs[samples - 2 * ROUNDS - 1] == Ran(optimized, calibrations[1].iterations)
                        && calibrations[1].elapsedMs == elapsed(samples - 2 * ROUNDS - 1)
      ensures timed ==> |baselineMs| == ROUNDS && calibrations[0].iterations > 0 && calibrations[1].iterations > 0
      ensures timed ==> Rounds(runs, elapsed, samples - 2 * ROUNDS, Arm(baseline, calibrations[0]), Arm(optimized, calibrations[1]), baselineMs, optimizedMs)
      ensures !timed ==> calibrations == [] && baselineMs == optimizedMs == []
      ensures !timed ==> runs == old(runs) && checksum == old(checksum) && expectedChecksum == old(expectedChecksum)
    {
      timed, calibrations, baselineMs, optimizedMs, middle := baseline(0) == optimized(0), [], [], [], 0;
      FirstIndexAgrees(baseline, optimized, expected);
      if !timed {
        return;
      }
      var baselineCalibration, _ := Calibrate(baseline, expected);
      middle := samples;
      var optimizedCalibration, _ := Calibrate(optimized, expected);
      calibrations := [baselineCalibration, optimizedCalibration];
      ghost var calibrated := samples;
      ghost var before := runs;
      assert before[middle - 1] == Ran(baseline, baselineCalibration.iterations);
      var baselineArm, optimizedArm := Arm(baseline, baselineCalibration), Arm(optimized, optimizedCalibration);
      for round := 0 to ROUNDS
        invariant Valid() && before <= runs && |baselineMs| == round
        invariant Rounds(runs, elapsed, calibrated, baselineArm, optimizedArm, baselineMs, optimizedMs)
        invariant Accounts(baseline, expected) && Accounts(optimized, expected) ==> Drift() == old(Drift())
      {
        ghost var sofar := runs;
        var b, o := RunRound(round, baselineArm, optimizedArm, expected, calibrated);
        RoundsMore(sofar, runs, elapsed, calibrated, baselineArm, optimizedArm, baselineMs, optimizedMs, b, o);
        baselineMs, optimizedMs := baselineMs + [b], optimizedMs + [o];
      }
    }
  }

  lemma FirstIndexAgrees(baseline: nat -> int, optimized: nat -> int, expected: nat -> int)
    ensures Accounts(baseline, expected) && Accounts(optimized, expected) ==> baseline(0) == optimized(0)
  {
    assert SumOf(baseline, 1) == baseline(0) && SumOf(optimized, 1) == optimized(0);
  }

  lemma PowersOfTwo()
    ensures Pow2(24) == MAX_ITERATIONS
  {
    assert Pow2(4) == 16;
    assert Pow2(8) == 256;
    assert Pow2(12) == 4096;
    assert Pow2(16) == 65536;
    assert Pow2(20) == 1048576;
  }

  // Below the cap there is room to double.
  lemma {:induction false} PowersGrow(a: nat, b: nat)
    requires a <= b
    ensures Pow2(a) <= Pow2(b)
    decreases b - a
  {
    if a < b {
      PowersGrow(a + 1, b);
    }
  }

  lemma PowersBelow(e: nat)
    requires e <= 24 && Pow2(e) < MAX_ITERATIONS
    ensures e < 24 && Pow2(e + 1) == Pow2(e) * 2 <= MAX_ITERATIONS
  {
    PowersOfTwo();
    if e < 24 {
      PowersGrow(e + 1, 24);
    }
  }
}
