/** The generator of table sizes: a segmented sieve whose later segments are never sieved. */
module Primegen {
  import opened StoreModel

  const DEFAULT_MAX_LIMIT: nat := 1_000_000_000
  const SEGMENT_SIZE: nat := 1_000_000
  const INITIAL_TABLE_SIZE: nat := 2053

  ghost predicate Divides(d: nat, n: nat) {
    exists q: nat :: d * q == n
  }

  ghost predicate IsPrime(n: nat) {
    2 <= n && forall d :: 2 <= d < n ==> !Divides(d, n)
  }

  /** No divisor of `n` from `start` on whose square is at most `n`: what a sieve begun at `start` leaves. */
  ghost predicate Survives(start: nat, bound: nat, n: nat) {
    forall d :: start <= d < bound && d * d <= n ==> !Divides(d, n)
  }

  lemma CofactorDivides(d: nat, q: nat, n: nat)
    requires d * q == n
    ensures Divides(d, n) && Divides(q, n)
  {
    assert q * d == n;
  }

  lemma DividesTransitive(a: nat, b: nat, c: nat)
    requires Divides(a, b) && Divides(b, c)
    ensures Divides(a, c)
  {
    var p: nat :| a * p == b;
    var q: nat :| b * q == c;
    assert a * (p * q) == c;
  }

  lemma ScaleMonotone(c: nat, a: nat, b: nat)
    requires a <= b
    ensures c * a <= c * b
  {
  }

  lemma SquareMonotone(a: nat, b: nat)
    requires a <= b
    ensures a * a <= b * b
  {
    ScaleMonotone(a, a, b);
    ScaleMonotone(b, a, b);
  }

  lemma CofactorBounds(d: nat, q: nat, n: nat)
    requires d * q == n && 2 <= d < n
    ensures 2 <= q < n
  {
    assert q >= 2 by {
      assert d * 0 == 0 && d * 1 == d;
    }
    assert d * q >= 2 * q;
  }

  /** A divisor or its cofactor has a square no larger than the number. */
  lemma SmallDivisor(n: nat, d: nat) returns (e: nat)
    requires 2 <= d < n && Divides(d, n)
    ensures 2 <= e < n && e * e <= n && Divides(e, n)
  {
    var q: nat :| d * q == n;
    CofactorDivides(d, q, n);
    CofactorBounds(d, q, n);
    if d <= q {
      ScaleMonotone(d, d, q);
      e := d;
    } else {
      ScaleMonotone(q, q, d);
      e := q;
    }
  }

  /** In the first segment, which starts at 2, the survivors are the primes. */
  lemma FirstSegmentPrimes(n: nat)
    requires 2 <= n
    ensures Survives(2, n + 1, n) <==> IsPrime(n)
  {
    if !IsPrime(n) {
      var d :| 2 <= d < n && Divides(d, n);
      var e := SmallDivisor(n, d);
    } else {
      forall d | 2 <= d < n + 1 && d * d <= n ensures !Divides(d, n) {
        assert d < n by {
          assert d * 2 <= d * d;
        }
      }
    }
  }

  /** A segment that starts above the square root of its end is never sieved: every number in it survives. */
  lemma LaterSegmentsUnsieved(start: nat, bound: nat, n: nat)
    requires n < start * start
    ensures Survives(start, bound, n)
  {
    forall d | start <= d < bound ensures n < d * d {
      SquareMonotone(start, d);
    }
  }

  // ---------- The sieve ----------

  lemma NextMultiple(i: nat, k: nat, n: nat)
    requires 0 < i && i * k <= n < i * (k + 1)
    ensures Divides(i, n) <==> n == i * k
  {
    if Divides(i, n) {
      var q: nat :| i * q == n;
      if q < k {
        ScaleMonotone(i, q + 1, k);
      } else if q > k {
        ScaleMonotone(i, k + 1, q);
      }
    }
  }

  ghost predicate Struck(i: nat, n: nat, bound: nat) {
    i * i <= n < bound && Divides(i, n)
  }

  lemma StruckStep(i: nat, k: nat, n: nat)
    requires 0 < i <= k
    ensures Struck(i, n, i * (k + 1)) <==> Struck(i, n, i * k) || n == i * k
  {
    ScaleMonotone(i, i, k);
    if i * k <= n < i * (k + 1) {
      NextMultiple(i, k, n);
    }
    assert i * (k + 1) == i * k + i;
  }

  lemma RoundsUpToOne(x: nat, i: nat)
    requires 0 < i <= x < 2 * i
    ensures x / i == 1
  {
  }

  /** The flag of number `n` in a segment that begins at `start`. */
  predicate Flag(flags: seq<bool>, start: nat, n: nat) {
    start <= n < start + |flags| && flags[n - start]
  }

  /** The inner loop: clears the multiples of `i` from its square on. */
  method CrossOut(isPrime: array<bool>, start: nat, end: nat, i: nat)
    requires 2 <= start <= i && start <= end && end - start <= isPrime.Length
    modifies isPrime
    ensures forall n :: start <= n < end ==>
      (Flag(isPrime[..], start, n) <==> Flag(old(isPrime[..]), start, n) && !Struck(i, n, end))
  {
    RoundsUpToOne(start + i - 1, i);
    ScaleMonotone(i, 1, i);
    var j := if i * i >= (start + i - 1) / i * i then i * i else (start + i - 1) / i * i;
    ghost var k, flags := i, isPrime[..];
    while j < end
      invariant i <= k && j == i * k && start <= j
      invariant forall n :: start <= n < end ==>
        (Flag(isPrime[..], start, n) <==> Flag(flags, start, n) && !Struck(i, n, j))
      decreases end - j
    {
      ghost var before := isPrime[..];
      isPrime[j - start] := false;
      assert isPrime[..] == before[j - start := false];
      forall n | start <= n < end
        ensures Flag(isPrime[..], start, n) <==> Flag(flags, start, n) && !Struck(i, n, i * (k + 1))
      {
        StruckStep(i, k, n);
        assert Flag(isPrime[..], start, n) <==> Flag(before, start, n) && n != j;
      }
      assert i * (k + 1) == j + i;
      j, k := j + i, k + 1;
    }
    assert forall n :: start <= n < end ==> (Struck(i, n, j) <==> Struck(i, n, end));
  }

  lemma SurvivesStep(start: nat, i: nat, n: nat)
    requires start <= i
    ensures Survives(start, i + 1, n) <==> Survives(start, i, n) && !(i * i <= n && Divides(i, n))
  {
  }

  /** Once `i` itself is struck out, its multiples already are. */
  lemma CompositeAddsNothing(start: nat, i: nat, n: nat)
    requires 2 <= start <= i && !Survives(start, i, i) && i * i <= n
    ensures Survives(start, i, n) ==> !Divides(i, n)
  {
    var d :| start <= d < i && d * d <= i && Divides(d, i);
    if Divides(i, n) {
      DividesTransitive(d, i, n);
      SquareMonotone(d, i);
    }
  }

  lemma SurvivesAnyBound(start: nat, bound: nat, n: nat)
    requires 2 <= start && n < bound * bound
    ensures Survives(start, bound, n) <==> Survives(start, n + 1, n)
  {
    forall d | start <= d && d * d <= n ensures d < bound && d < n + 1 {
      if bound <= d {
        SquareMonotone(bound, d);
      }
      ScaleMonotone(d, 1, d);
    }
  }

  lemma SieveStep(start: nat, end: nat, i: nat)
    requires 2 <= start <= i
    ensures forall n :: start <= n < end ==>
      (Survives(start, i + 1, n) <==> Survives(start, i, n) && !Struck(i, n, end))
    ensures !Survives(start, i, i) ==>
      forall n :: start <= n < end ==> (Survives(start, i + 1, n) <==> Survives(start, i, n))
  {
    forall n | start <= n < end
      ensures Survives(start, i + 1, n) <==> Survives(start, i, n) && !Struck(i, n, end)
      ensures !Survives(start, i, i) ==> (Survives(start, i + 1, n) <==> Survives(start, i, n))
    {
      SurvivesStep(start, i, n);
      if i * i <= n && !Survives(start, i, i) {
        CompositeAddsNothing(start, i, n);
      }
    }
  }

  /** Leaves exactly the numbers without a divisor, from `start` on, whose square they reach. */
  method Sieve(isPrime: array<bool>, start: nat, end: nat)
    requires 2 <= start <= end && end - start <= isPrime.Length
    requires forall m :: 0 <= m < end - start ==> isPrime[m]
    modifies isPrime
    ensures forall n :: start <= n < end ==> (Flag(isPrime[..], start, n) <==> Survives(start, n + 1, n))
  {
    var i := 2;
    while i * i <= end
      invariant 2 <= i
      invariant forall n :: start <= n < end ==> (Flag(isPrime[..], start, n) <==> Survives(start, i, n))
      decreases end + 1 - i
    {
      ScaleMonotone(i, 2, i);
      if i >= start {
        SieveStep(start, end, i);
        assert Flag(isPrime[..], start, i) <==> Survives(start, i, i);
        if isPrime[i - start] {
          CrossOut(isPrime, start, end, i);
        }
      }
      i := i + 1;
    }
    forall n | start <= n < end ensures Survives(start, i, n) <==> Survives(start, n + 1, n) {
      SurvivesAnyBound(start, i, n);
    }
  }

  // ---------- Growth selection ----------

  function GrowthFactor(prime: nat): (g: real)
    ensures 1.05 <= g
  {
    if prime < 100000 then 4.0
    else if prime < 1000000 then 1.5
    else if prime < 10000000 then 1.2
    else if prime < 100000000 then 1.1
    else 1.05
  }

  /** The next size must reach this much. */
  function Target(lastStored: nat, g: real): int {
    (lastStored as real * g).Floor
  }

  lemma TargetGap(lastStored: nat, g: real)
    requires INITIAL_TABLE_SIZE <= lastStored && 1.05 <= g
    ensures lastStored + 2 <= Target(lastStored, g)
  {
    assert lastStored as real * g >= lastStored as real * 1.05;
  }

  /** What the sieve lets through: the primes of the first segment, and every number after it. */
  ghost predicate Candidate(segmentSize: nat, n: nat) {
    n < 2 + segmentSize ==> IsPrime(n)
  }

  function Previous(queue: seq<nat>, i: nat): nat
    requires i <= |queue|
  {
    if i == 0 then INITIAL_TABLE_SIZE else queue[i - 1]
  }

  function GrowthAfter(queue: seq<nat>, i: nat): (g: real)
    requires i <= |queue|
    ensures 1.05 <= g
  {
    if i == 0 then 2.0 else GrowthFactor(queue[i - 1])
  }

  /** No candidate from the target up to `end`. */
  ghost predicate NoneBefore(segmentSize: nat, lastStored: nat, g: real, end: nat) {
    forall n: nat :: Target(lastStored, g) <= n < end ==> !Candidate(segmentSize, n)
  }

  ghost predicate LeastFrom(segmentSize: nat, lastStored: nat, g: real, n: nat) {
    && Candidate(segmentSize, n)
    && Target(lastStored, g) <= n
    && NoneBefore(segmentSize, lastStored, g, n)
  }

  /** Each size is the least candidate that reaches the target set by the size before it. */
  ghost predicate Greedy(queue: seq<nat>, segmentSize: nat) {
    Obeys(queue, Least(segmentSize))
  }

  ghost function Least(segmentSize: nat): (nat, real, nat) -> bool {
    (last: nat, g: real, n: nat) => LeastFrom(segmentSize, last, g, n)
  }

  ghost predicate Obeys(queue: seq<nat>, rule: (nat, real, nat) -> bool) {
    forall i :: 0 <= i < |queue| ==> rule(Previous(queue, i), GrowthAfter(queue, i), queue[i])
  }

  ghost predicate Selection(queue: seq<nat>, lastStored: nat, g: real, segmentSize: nat, end: nat) {
    && Greedy(queue, segmentSize)
    && lastStored == Previous(queue, |queue|) && g == GrowthAfter(queue, |queue|)
    && (forall i :: 0 <= i < |queue| ==> INITIAL_TABLE_SIZE < queue[i] < end)
    && NoneBefore(segmentSize, lastStored, g, end)
  }

  /** A rule each size obeys with respect to the one before it is kept when one more obeys it. */
  lemma PushKeepsRule(queue: seq<nat>, n: nat, rule: (nat, real, nat) -> bool)
    requires Obeys(queue, rule)
    requires rule(Previous(queue, |queue|), GrowthAfter(queue, |queue|), n)
    ensures Obeys(queue + [n], rule)
  {
    var q := queue + [n];
    forall i | 0 <= i < |q| ensures rule(Previous(q, i), GrowthAfter(q, i), q[i]) {
      assert Previous(q, i) == Previous(queue, i) && GrowthAfter(q, i) == GrowthAfter(queue, i);
    }
  }

  lemma PushKeepsGreedy(queue: seq<nat>, segmentSize: nat, n: nat)
    requires Greedy(queue, segmentSize)
    requires LeastFrom(segmentSize, Previous(queue, |queue|), GrowthAfter(queue, |queue|), n)
    ensures Greedy(queue + [n], segmentSize)
  {
    PushKeepsRule(queue, n, Least(segmentSize));
  }

  lemma FarTarget(segmentSize: nat, lastStored: nat, g: real)
    requires INITIAL_TABLE_SIZE <= lastStored && 1.05 <= g
    ensures NoneBefore(segmentSize, lastStored, g, lastStored + 1)
  {
    TargetGap(lastStored, g);
  }

  lemma OfferKeepsSelection(queue: seq<nat>, lastStored: nat, g: real, segmentSize: nat, n: nat)
    requires Selection(queue, lastStored, g, segmentSize, n)
    ensures Candidate(segmentSize, n) && Target(lastStored, g) <= n ==>
      Selection(queue + [n], n, GrowthFactor(n), segmentSize, n + 1)
    ensures !(Candidate(segmentSize, n) && Target(lastStored, g) <= n) ==>
      Selection(queue, lastStored, g, segmentSize, n + 1)
  {
    if Candidate(segmentSize, n) && Target(lastStored, g) <= n {
      TargetGap(lastStored, g);
      PushKeepsGreedy(queue, segmentSize, n);
      FarTarget(segmentSize, n, GrowthFactor(n));
    }
  }

  /** The sizes grow by at least two each time, as the store's resizes need. */
  lemma GreedyGrows(queue: seq<nat>, lastStored: nat, g: real, segmentSize: nat, end: nat)
    requires Selection(queue, lastStored, g, segmentSize, end)
    ensures Grows(INITIAL_TABLE_SIZE, Primes(queue))
  {
    forall i | 0 <= i < |queue| ensures Previous(queue, i) + 2 <= queue[i] {
      assert LeastFrom(segmentSize, Previous(queue, i), GrowthAfter(queue, i), queue[i]);
      TargetGap(Previous(queue, i), GrowthAfter(queue, i));
    }
    forall i | 0 <= i < |queue| - 1 ensures queue[i] + 2 <= queue[i + 1] {
      assert Previous(queue, i + 1) + 2 <= queue[i + 1];
    }
  }

  // ---------- The factors, in whole numbers ----------

  /** What the size after `p` must reach; the first one must reach twice 2053. */
  function Reach(p: nat): nat {
    if p < 100000 then 4 * p
    else if p < 1000000 then 3 * p / 2
    else if p < 10000000 then 6 * p / 5
    else if p < 100000000 then 11 * p / 10
    else 21 * p / 20
  }

  lemma FloorIs(p: nat, g: real, a: nat, b: nat)
    requires 0 < b && g * b as real == a as real
    ensures Target(p, g) == a * p / b
  {
    var x, q := p as real * g, a * p / b;
    var r := a * p % b;
    assert a * p == b * q + r;
    assert x * b as real == p as real * (g * b as real) == p as real * a as real == (a * p) as real;
    assert (a * p) as real == b as real * q as real + r as real;
    assert (x - q as real) * b as real == r as real;
    Fraction(x - q as real, b, r);
  }

  lemma Fraction(y: real, b: nat, r: nat)
    requires r < b && y * b as real == r as real
    ensures 0.0 <= y < 1.0
  {
  }

  lemma TargetIsReach(p: nat)
    ensures Target(p, GrowthFactor(p)) == Reach(p)
  {
    FloorIs(p, 4.0, 4, 1);
    FloorIs(p, 1.5, 3, 2);
    FloorIs(p, 1.2, 6, 5);
    FloorIs(p, 1.1, 11, 10);
    FloorIs(p, 1.05, 21, 20);
  }

  /** `n` is the least candidate from `from` on. */
  ghost predicate LeastCandidate(segmentSize: nat, from: nat, n: nat) {
    && from <= n && Candidate(segmentSize, n)
    && forall m: nat :: from <= m < n ==> !Candidate(segmentSize, m)
  }

  /**
    The first size is the least candidate from 4106 on, and each later one the least that is four times the one
    before below 100000, and 1.5, 1.2, 1.1 or 1.05 times beyond, rounded down. None below the end that would be
    next was left out.
   */
  ghost predicate RightSizes(queue: seq<nat>, segmentSize: nat, end: nat) {
    && (queue != [] ==> LeastCandidate(segmentSize, 4106, queue[0]))
    && (forall i :: 0 < i < |queue| ==> LeastCandidate(segmentSize, Reach(queue[i - 1]), queue[i]))
    && (forall m: nat :: (if queue == [] then 4106 else Reach(queue[|queue| - 1])) <= m < end ==>
          !Candidate(segmentSize, m))
  }

  lemma SizesReach(queue: seq<nat>, lastStored: nat, g: real, segmentSize: nat, end: nat)
    requires Selection(queue, lastStored, g, segmentSize, end)
    ensures RightSizes(queue, segmentSize, end)
  {
    FloorIs(2053, 2.0, 2, 1);
    if queue != [] {
      assert LeastFrom(segmentSize, Previous(queue, 0), GrowthAfter(queue, 0), queue[0]);
      TargetIsReach(queue[|queue| - 1]);
    }
    forall i | 0 < i < |queue| ensures LeastCandidate(segmentSize, Reach(queue[i - 1]), queue[i]) {
      assert LeastFrom(segmentSize, Previous(queue, i), GrowthAfter(queue, i), queue[i]);
      TargetIsReach(queue[i - 1]);
    }
  }

  /** The selection loop over one sieved segment. */
  method Select(isPrime: array<bool>, start: nat, end: nat, ghost segmentSize: nat,
                queue0: seq<nat>, last0: nat, growth0: real)
    returns (queue: seq<nat>, lastStored: nat, growthFactor: real)
    requires start <= end && end - start <= isPrime.Length
    requires Selection(queue0, last0, growth0, segmentSize, start)
    requires forall n :: start <= n < end ==> (Flag(isPrime[..], start, n) <==> Candidate(segmentSize, n))
    ensures Selection(queue, lastStored, growthFactor, segmentSize, end)
  {
    queue, lastStored, growthFactor := queue0, last0, growth0;
    for i := 0 to end - start
      invariant Selection(queue, lastStored, growthFactor, segmentSize, start + i)
    {
      var prime := start + i;
      assert Flag(isPrime[..], start, prime) <==> Candidate(segmentSize, prime);
      OfferKeepsSelection(queue, lastStored, growthFactor, segmentSize, prime);
      if isPrime[i] {
        var nextCandidate := Target(lastStored, growthFactor);
        if prime >= nextCandidate {
          queue := queue + [prime];
          lastStored := prime;
          growthFactor := GrowthFactor(prime);
        }
      }
    }
  }

  /** What a segment's sieve leaves is exactly the candidates: only the first segment is really sieved. */
  lemma SegmentCandidates(segmentSize: nat, start: nat, n: nat)
    requires 2 <= start <= n < start + segmentSize && (start == 2 || 2 + segmentSize <= start)
    ensures Survives(start, n + 1, n) <==> Candidate(segmentSize, n)
  {
    if start == 2 {
      FirstSegmentPrimes(n);
    } else {
      ScaleMonotone(start, 2 + segmentSize, start);
      assert start * (2 + segmentSize) == 2 * start + start * segmentSize;
      ScaleMonotone(segmentSize, 1, start);
      LaterSegmentsUnsieved(start, n + 1, n);
    }
  }

  /**
    The queue of table sizes: each is the least candidate that reaches its target, none is left out
    below the limit, those within the first segment are prime, and they grow by at least two from the
    initial table size on.
   */
  method InitGenerator(maxLimit: nat, segmentSize: nat) returns (queue: seq<nat>)
    requires 0 < segmentSize && 2 <= maxLimit
    ensures Grows(INITIAL_TABLE_SIZE, Primes(queue)) && RightSizes(queue, segmentSize, maxLimit)
    ensures Greedy(queue, segmentSize) && (forall i :: 0 <= i < |queue| ==> queue[i] < maxLimit)
    ensures NoneBefore(segmentSize, Previous(queue, |queue|), GrowthAfter(queue, |queue|), maxLimit)
    ensures forall i :: 0 <= i < |queue| && queue[i] < 2 + segmentSize ==> IsPrime(queue[i])
  {
    var start := 2;
    var lastStored := INITIAL_TABLE_SIZE;
    var growthFactor := 2.0;
    queue := [];
    TargetGap(lastStored, growthFactor);
    while start < maxLimit
      invariant 2 <= start <= maxLimit && (start == 2 || start == maxLimit || 2 + segmentSize <= start)
      invariant Selection(queue, lastStored, growthFactor, segmentSize, start)
      decreases maxLimit - start
    {
      var end := if start + segmentSize < maxLimit then start + segmentSize else maxLimit;
      var isPrime := new bool[segmentSize](_ => true);
      Sieve(isPrime, start, end);
      forall n | start <= n < end ensures Flag(isPrime[..], start, n) <==> Candidate(segmentSize, n) {
        SegmentCandidates(segmentSize, start, n);
      }
      queue, lastStored, growthFactor :=
        Select(isPrime, start, end, segmentSize, queue, lastStored, growthFactor);
      start := end;
    }
    GreedyGrows(queue, lastStored, growthFactor, segmentSize, maxLimit);
    SizesReach(queue, lastStored, growthFactor, segmentSize, maxLimit);
  }

  /** The generator as the program configures it: what every store draws its sizes from. */
  method DefaultQueue() returns (queue: seq<nat>)
    ensures Grows(INITIAL_TABLE_SIZE, Primes(queue)) && Greedy(queue, SEGMENT_SIZE)
    ensures RightSizes(queue, 1_000_000, 1_000_000_000)
    ensures forall i :: 0 <= i < |queue| ==> queue[i] < 1_000_000_000 && (queue[i] < 1_000_002 ==> IsPrime(queue[i]))
  {
    queue := InitGenerator(DEFAULT_MAX_LIMIT, SEGMENT_SIZE);
  }
}
