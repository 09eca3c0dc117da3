/** Weighted sampling without replacement, as used to pick the validators of a request. */
module Sampling {
  import opened MachineTypes
  import opened NaturalPowers
  import opened CandidateWindow

  /** A pseudo-random generator, seen as the infinite stream of 64-bit numbers it will produce. */
  class Rng {
    const stream: nat -> uint64
    var drawn: nat

    constructor (stream: nat -> uint64)
      ensures this.stream == stream && drawn == 0
    {
      this.stream := stream;
      drawn := 0;
    }

    method NextUint64() returns (x: uint64)
      modifies this
      ensures x == stream(old(drawn)) && drawn == old(drawn) + 1
    {
      x := stream(drawn);
      drawn := drawn + 1;
    }
  }

  function AddUint64Overflow(a: uint64, b: uint64): (r: (uint64, bool))
    ensures r.1 <==> a + b > MAX_UINT64
    ensures !r.1 ==> r.0 == a + b
  {
    if MAX_UINT64 - a < b then (0, true) else (a + b, false)
  }

  /** The sum of the first n weights. */
  function PrefixSum(weights: seq<uint64>, n: nat): nat
    requires n <= |weights|
  {
    if n == 0 then 0 else PrefixSum(weights, n - 1) + weights[n - 1]
  }

  function Sum(weights: seq<uint64>): nat {
    PrefixSum(weights, |weights|)
  }

  /** The first index at or after `from` whose running sum exceeds the lucky number. */
  function Select(weights: seq<uint64>, luckyNumber: nat, from: nat): (i: nat)
    requires from <= |weights| && PrefixSum(weights, from) <= luckyNumber < Sum(weights)
    ensures from <= i < |weights|
    ensures PrefixSum(weights, i) <= luckyNumber < PrefixSum(weights, i + 1)
    decreases |weights| - from
  {
    if PrefixSum(weights, from + 1) > luckyNumber then from else Select(weights, luckyNumber, from + 1)
  }

  /** What ChooseOne does with the random number `draw`. An overflowing sum and the modulo
      by a zero sum both panic. */
  function Choice(weights: seq<uint64>, draw: uint64): Outcome<nat> {
    if Sum(weights) > MAX_UINT64 || Sum(weights) == 0 then Panicked
    else Returned(Select(weights, draw % Sum(weights), 0))
  }

  /** The draw, taken modulo the sum, falls among the numbers of index i: behind the weights in front of
      it, and within its own. */
  ghost predicate IsChoice(weights: seq<uint64>, draw: uint64, i: nat) {
    && i < |weights| && Sum(weights) > 0
    && PrefixSum(weights, i) <= draw % Sum(weights) < PrefixSum(weights, i + 1)
  }

  /** ChooseOne panics exactly on an overflowing or zero sum, and otherwise the draw decides its answer. */
  lemma ChoiceIsDecidedByDraw(weights: seq<uint64>, draw: uint64, i: nat)
    ensures Choice(weights, draw).Panicked? <==> Sum(weights) == 0 || Sum(weights) > MAX_UINT64
    ensures Choice(weights, draw) == Returned(i) <==> Sum(weights) <= MAX_UINT64 && IsChoice(weights, draw, i)
  {
    if i < |weights| && 0 < Sum(weights) <= MAX_UINT64 {
      SelectsIff(weights, draw % Sum(weights), i);
    }
  }

  lemma {:induction false} PrefixSumMonotone(weights: seq<uint64>, i: nat, j: nat)
    requires i <= j <= |weights|
    ensures PrefixSum(weights, i) <= PrefixSum(weights, j)
    decreases j
  {
    if i < j {
      PrefixSumMonotone(weights, i, j - 1);
    }
  }

  method ChooseOne(rng: Rng, weights: seq<uint64>) returns (r: Outcome<nat>)
    modifies rng
    ensures r == Choice(weights, rng.stream(old(rng.drawn)))
    ensures r.Panicked? <==> Sum(weights) == 0 || Sum(weights) > MAX_UINT64
    ensures r.Returned? ==> IsChoice(weights, rng.stream(old(rng.drawn)), r.value)
    ensures rng.drawn == old(rng.drawn) + if Sum(weights) > MAX_UINT64 then 0 else 1
  {
    var sum: uint64 := 0;
    for i := 0 to |weights|
      invariant sum == PrefixSum(weights, i)
    {
      var (added, overflow) := AddUint64Overflow(sum, weights[i]);
      if overflow {
        PrefixSumMonotone(weights, i + 1, |weights|);
        return Panicked;
      }
      sum := added;
    }
    assert sum == Sum(weights);
    var draw := rng.NextUint64();
    if sum == 0 {
      return Panicked;
    }
    var luckyNumber := draw % sum;
    var currentSum: uint64 := 0;
    for i := 0 to |weights|
      invariant rng.drawn == old(rng.drawn) + 1
      invariant currentSum == PrefixSum(weights, i) <= luckyNumber
      invariant Select(weights, luckyNumber, 0) == Select(weights, luckyNumber, i)
    {
      PrefixSumMonotone(weights, i + 1, |weights|);
      currentSum := currentSum + weights[i];
      if currentSum > luckyNumber {
        return Returned(i);
      }
    }
    assert false; // the trailing panic of the source is never reached
  }

  /** The index a lucky number selects is determined by the two running sums around it. */
  lemma SelectIsUnique(weights: seq<uint64>, luckyNumber: nat, i: nat)
    requires i < |weights| && PrefixSum(weights, i) <= luckyNumber < PrefixSum(weights, i + 1)
    ensures luckyNumber < Sum(weights) && Select(weights, luckyNumber, 0) == i
  {
    PrefixSumMonotone(weights, i + 1, |weights|);
    var s := Select(weights, luckyNumber, 0);
    if s < i {
      PrefixSumMonotone(weights, s + 1, i);
    } else if i < s {
      PrefixSumMonotone(weights, i + 1, s);
    }
  }

  lemma SelectsIff(weights: seq<uint64>, luckyNumber: nat, i: nat)
    requires i < |weights| && luckyNumber < Sum(weights)
    ensures Select(weights, luckyNumber, 0) == i
       <==> PrefixSum(weights, i) <= luckyNumber < PrefixSum(weights, i + 1)
  {
    if PrefixSum(weights, i) <= luckyNumber < PrefixSum(weights, i + 1) {
      SelectIsUnique(weights, luckyNumber, i);
    }
  }

  /** The lucky numbers that select index i. */
  function LuckyFor(weights: seq<uint64>, i: nat): set<nat> {
    set l: nat | l < Sum(weights) && Select(weights, l, 0) == i
  }

  function Interval(lo: nat, hi: nat): (s: set<nat>)
    requires lo <= hi
    ensures |s| == hi - lo
    ensures forall x: nat :: x in s <==> lo <= x < hi
    decreases hi - lo
  {
    if lo == hi then {} else Interval(lo, hi - 1) + {hi - 1}
  }

  /** Exact proportionality: of the lucky numbers 0..Sum-1, precisely weights[i] select index i. */
  lemma ChoiceIsProportional(weights: seq<uint64>, i: nat)
    requires i < |weights|
    ensures |LuckyFor(weights, i)| == weights[i]
  {
    var interval := Interval(PrefixSum(weights, i), PrefixSum(weights, i + 1));
    PrefixSumMonotone(weights, i + 1, |weights|);
    forall l: nat ensures l in LuckyFor(weights, i) <==> l in interval {
      if l < Sum(weights) {
        SelectsIff(weights, l, i);
      }
    }
    assert LuckyFor(weights, i) == interval;
  }

  /** The 64-bit draws below `bound` that ChooseOne turns into index i. */
  function DrawsFor(weights: seq<uint64>, i: nat, bound: nat): set<nat>
    requires Sum(weights) > 0
  {
    set x: nat | x < bound && Select(weights, x % Sum(weights), 0) == i
  }

  lemma {:induction false} DrawsForBlocks(weights: seq<uint64>, i: nat, blocks: nat)
    requires i < |weights| && Sum(weights) > 0
    ensures |DrawsFor(weights, i, blocks * Sum(weights))| == blocks * weights[i]
  {
    var sum := Sum(weights);
    if blocks == 0 {
      assert DrawsFor(weights, i, 0) == {};
    } else {
      DrawsForBlocks(weights, i, blocks - 1);
      ExactBlock(blocks - 1, sum);
      DrawsForTail(weights, i, (blocks - 1) * sum, sum);
      PrefixSumMonotone(weights, i + 1, |weights|);
      OneMore(blocks - 1, sum);
      OneMore(blocks - 1, weights[i]);
    }
  }

  /** The draws from a block boundary `base` up to `base + part` hit index i once for each of
      its lucky numbers below `part`. */
  lemma DrawsForTail(weights: seq<uint64>, i: nat, base: nat, part: nat)
    requires i < |weights| && part <= Sum(weights) && Sum(weights) > 0 && base % Sum(weights) == 0
    ensures |DrawsFor(weights, i, base + part)|
         == |DrawsFor(weights, i, base)|
          + Between(PrefixSum(weights, i), part, PrefixSum(weights, i + 1)) - PrefixSum(weights, i)
  {
    var lo, hi := PrefixSum(weights, i), PrefixSum(weights, i + 1);
    var top := Between(lo, part, hi);
    var tail := Interval(base + lo, base + top);
    forall x: nat ensures x in tail <==> base <= x < base + part && Select(weights, x % Sum(weights), 0) == i {
      if base <= x < base + part {
        BlockRemainder(x, base, Sum(weights));
        SelectsIff(weights, x - base, i);
      }
    }
    hide Select, PrefixSum;
    assert DrawsFor(weights, i, base + part) == DrawsFor(weights, i, base) + tail;
    assert DrawsFor(weights, i, base) !! tail;
  }

  /** `part`, pushed into the range lo..hi. */
  function Between(lo: nat, part: nat, hi: nat): (top: nat)
    requires lo <= hi
    ensures lo <= top <= hi
  {
    if part <= lo then lo else if part <= hi then part else hi
  }

  lemma ExactBlock(blocks: nat, sum: nat)
    requires sum > 0
    ensures (blocks * sum) % sum == 0
  {
    var x := blocks * sum;
    MultipleBounds(x / sum, blocks, sum, x % sum);
  }

  lemma BlockRemainder(x: nat, base: nat, sum: nat)
    requires sum > 0 && base % sum == 0 && base <= x < base + sum
    ensures x % sum == x - base
  {
    assert x - base == (x / sum - base / sum) * sum + x % sum;
    MultipleBounds(0, x / sum - base / sum, sum, x - base - x % sum);
  }

  /** a and b multiples of `sum` less than one `sum` apart are the same multiple. */
  lemma MultipleBounds(a: int, b: int, sum: nat, gap: int)
    requires b * sum == a * sum + gap && 0 - sum < gap < sum
    ensures a == b && gap == 0
  {
    var d := b - a;
    assert d * sum == gap;
    if d > 0 {
      assert d * sum == (d - 1) * sum + sum;
      ProductMonotone(0, d - 1, 0, sum);
    } else if d < 0 {
      assert (-d) * sum == (-d - 1) * sum + sum;
      ProductMonotone(0, -d - 1, 0, sum);
    }
  }

  /** The 64-bit draws on which ChooseOne returns index i. */
  function DrawsChoosing(weights: seq<uint64>, i: nat): set<uint64> {
    set x: uint64 | 0 <= x < TWO_TO_64 && Choice(weights, x) == Returned(i)
  }

  /** Of the 2^64 draws, ChooseOne answers i on its weight times the number of whole blocks, and once
      more for each of its lucky numbers below the remainder: at most one weight more. */
  lemma ModuloBiasIsExact(weights: seq<uint64>, i: nat)
    requires i < |weights| && 0 < Sum(weights) <= MAX_UINT64
    ensures |DrawsChoosing(weights, i)|
         == TWO_TO_64 / Sum(weights) * weights[i]
          + Between(PrefixSum(weights, i), TWO_TO_64 % Sum(weights), PrefixSum(weights, i + 1)) - PrefixSum(weights, i)
    ensures TWO_TO_64 / Sum(weights) * weights[i] <= |DrawsChoosing(weights, i)|
    ensures |DrawsChoosing(weights, i)| <= (TWO_TO_64 / Sum(weights) + 1) * weights[i]
  {
    var sum := Sum(weights);
    var blocks := TWO_TO_64 / sum;
    assert TWO_TO_64 == blocks * sum + TWO_TO_64 % sum;
    DrawsForBlocks(weights, i, blocks);
    ExactBlock(blocks, sum);
    DrawsForTail(weights, i, blocks * sum, TWO_TO_64 % sum);
    OneMore(blocks, weights[i]);
    SameDraws(weights, i);
  }

  lemma SameDraws(weights: seq<uint64>, i: nat)
    requires 0 < Sum(weights) <= MAX_UINT64
    ensures |DrawsChoosing(weights, i)| == |DrawsFor(weights, i, TWO_TO_64)|
  {
    hide Select, PrefixSum, Sum;
    var a, b := DrawsChoosing(weights, i), DrawsFor(weights, i, TWO_TO_64);
    assert forall x: nat :: x in b <==> x < TWO_TO_64 && (x as uint64) in a;
    SameNumbers(a, b);
  }

  /** Two sets of the same numbers have the same size, whatever the type of their elements. */
  lemma {:induction false} SameNumbers(a: set<uint64>, b: set<nat>)
    requires forall x: nat :: x in b <==> x < TWO_TO_64 && (x as uint64) in a
    ensures |a| == |b|
    decreases |a|
  {
    if x :| x in a {
      assert x as nat in b;
      SameNumbers(a - {x}, b - {x as nat});
    } else {
      assert b == {};
    }
  }

  // ---------- ChooseK ----------

  function WithoutIndex<T>(s: seq<T>, i: nat): (r: seq<T>)
    requires i < |s|
    ensures |r| == |s| - 1
  {
    s[..i] + s[i + 1..]
  }

  /** Go's `s = append(s[:i], s[i+1:]...)` on the first `length` cells of a buffer: the
      later entries shift down one place and the last cell keeps its stale value. */
  method DeleteAt<T>(buffer: array<T>, length: nat, i: nat)
    requires i < length <= buffer.Length
    modifies buffer
    ensures buffer[..length - 1] == WithoutIndex(old(buffer[..length]), i)
    ensures buffer[length - 1..] == old(buffer[length - 1..])
  {
    for j := i to length - 1
      invariant buffer[..i] == old(buffer[..i])
      invariant forall m :: i <= m < j ==> buffer[m] == old(buffer[m + 1])
      invariant forall m :: j <= m < buffer.Length ==> buffer[m] == old(buffer[m])
    {
      buffer[j] := buffer[j + 1];
    }
    assert forall m :: 0 <= m < i ==> buffer[m] == buffer[..i][m] == old(buffer[..i])[m];
  }

  /** The rounds `round`..k-1 of the sampler on the entries that are left: `values` are their
      weights, `indexes` their positions in the caller's list, n the length of that list. */
  function Rounds(round: nat, k: int, n: nat, values: seq<uint64>, indexes: seq<nat>,
                  stream: nat -> uint64, drawn: nat): Outcome<seq<nat>>
    requires |values| == |indexes|
    requires round < k <= n ==> |values| == n - round
    decreases k - round
  {
    if round >= k then Returned([])
    else
      match GetCandidateSize(round, k, n)
      case Panicked => Panicked
      case Returned(candidateSize) =>
        CandidateWindowFits(round, k, n);
        match Choice(values[..candidateSize], stream(drawn))
        case Panicked => Panicked
        case Returned(lucky) =>
          Prepend(indexes[lucky],
                  Rounds(round + 1, k, n, WithoutIndex(values, lucky), WithoutIndex(indexes, lucky),
                         stream, drawn + 1))
  }

  /** One unrolling of Rounds, after `done` has been picked. */
  lemma OneRound(done: seq<nat>, round: nat, k: int, n: nat, values: seq<uint64>, indexes: seq<nat>,
                 stream: nat -> uint64, drawn: nat)
      returns (left: (seq<uint64>, seq<nat>))
    requires round < k && |values| == |indexes| && (k <= n ==> |values| == n - round)
    ensures var size := GetCandidateSize(round, k, n);
            var whole := PrependAll(done, Rounds(round, k, n, values, indexes, stream, drawn));
            && (size.Panicked? ==> whole == Panicked)
            && (size.Returned? ==>
                  && k <= n && 1 <= size.value <= |values|
                  && var choice := Choice(values[..size.value], stream(drawn));
                  && (choice.Panicked? ==> whole == Panicked)
                  && (choice.Returned? ==>
                        && choice.value < |values|
                        && left == (WithoutIndex(values, choice.value), WithoutIndex(indexes, choice.value))
                        && whole == PrependAll(done + [indexes[choice.value]],
                                               Rounds(round + 1, k, n, left.0, left.1, stream, drawn + 1))))
  {
    left := ([], []);
    CandidateWindowFits(round, k, n);
    var size := GetCandidateSize(round, k, n);
    if size.Returned? {
      var choice := Choice(values[..size.value], stream(drawn));
      if choice.Returned? {
        var lucky := choice.value;
        left := (WithoutIndex(values, lucky), WithoutIndex(indexes, lucky));
        var rest := Rounds(round + 1, k, n, left.0, left.1, stream, drawn + 1);
        if rest.Returned? {
          assert done + ([indexes[lucky]] + rest.value) == done + [indexes[lucky]] + rest.value;
        }
      }
    }
  }

  function PrependAll(first: seq<nat>, rest: Outcome<seq<nat>>): Outcome<seq<nat>> {
    match rest
    case Panicked => Panicked
    case Returned(luckies) => Returned(first + luckies)
  }

  lemma PrependAllEmpty(rest: Outcome<seq<nat>>, done: seq<nat>)
    ensures PrependAll([], rest) == rest
    ensures PrependAll(done, Returned([])) == Returned(done)
  {
    assert done + [] == done;
    if rest.Returned? {
      assert [] + rest.value == rest.value;
    }
  }

  function Prepend(first: nat, rest: Outcome<seq<nat>>): Outcome<seq<nat>> {
    match rest
    case Panicked => Panicked
    case Returned(luckies) => Returned([first] + luckies)
  }

  function Identity(n: nat): seq<nat> {
    seq(n, i => i)
  }

  function Sample(weights: seq<uint64>, k: int, stream: nat -> uint64, drawn: nat): Outcome<seq<nat>> {
    Rounds(0, k, |weights|, weights, Identity(|weights|), stream, drawn)
  }

  lemma SampleIsAllRounds(weights: seq<uint64>, k: int, stream: nat -> uint64, drawn: nat)
    ensures Sample(weights, k, stream, drawn)
         == Rounds(0, k, |weights|, weights, Identity(|weights|), stream, drawn)
  {}

  /** One round: choose an entry among the first `candidateSize` and delete it from both buffers. */
  method PickAndDelete(rng: Rng, weightValues: array<uint64>, weightIndexes: array<nat>,
                       length: nat, candidateSize: nat)
      returns (picked: Outcome<(nat, nat)>)
    requires candidateSize <= length <= weightValues.Length && length <= weightIndexes.Length
    modifies rng, weightValues, weightIndexes
    ensures rng.drawn <= old(rng.drawn) + 1
    ensures var choice := Choice(old(weightValues[..candidateSize]), rng.stream(old(rng.drawn)));
            && (picked.Panicked? <==> choice.Panicked?)
            && (choice.Returned? ==>
                  && choice.value < length
                  && rng.drawn == old(rng.drawn) + 1
                  && picked.value == (choice.value, old(weightIndexes[..length])[choice.value])
                  && weightValues[..length - 1] == WithoutIndex(old(weightValues[..length]), choice.value)
                  && weightIndexes[..length - 1] == WithoutIndex(old(weightIndexes[..length]), choice.value))
  {
    var choice := ChooseOne(rng, weightValues[..candidateSize]);
    if choice.Panicked? {
      return Panicked;
    }
    var lucky := choice.value;
    picked := Returned((lucky, weightIndexes[lucky]));
    DeleteAt(weightIndexes, length, lucky);
    DeleteAt(weightValues, length, lucky);
  }

  /** The sampler's own copies: the weights, and the index of each of them. */
  method CopyWeights(weights: array<uint64>) returns (weightValues: array<uint64>, weightIndexes: array<nat>)
    ensures fresh(weightValues) && fresh(weightIndexes)
    ensures weightValues[..] == weights[..] && weightIndexes[..] == Identity(weights.Length)
  {
    weightValues := new uint64[weights.Length];
    forall i | 0 <= i < weights.Length {
      weightValues[i] := weights[i];
    }
    weightIndexes := new nat[weights.Length](i => i);
  }

  /** The entries that are left, in their order, without x. */
  function Without(s: seq<nat>, x: nat): seq<nat> {
    if s == [] then []
    else if s[0] == x then Without(s[1..], x)
    else [s[0]] + Without(s[1..], x)
  }

  /** The indexes 0..n-1 that have not been picked yet. */
  function LeftAfter(n: nat, picks: seq<nat>): seq<nat> {
    if picks == [] then Identity(n)
    else Without(LeftAfter(n, picks[..|picks| - 1]), picks[|picks| - 1])
  }

  function WeightsOf(weights: seq<uint64>, indexes: seq<nat>): seq<uint64>
    requires forall i :: 0 <= i < |indexes| ==> indexes[i] < |weights|
  {
    seq(|indexes|, i requires 0 <= i < |indexes| => weights[indexes[i]])
  }

  /** Pick `pick`, made when `picks` had been made before, is the answer of the draw over the window of
      the entries that were left. */
  ghost predicate IsPick(weights: seq<uint64>, k: int, picks: seq<nat>, pick: nat, draw: uint64) {
    var left := LeftAfter(|weights|, picks);
    var size := GetCandidateSize(|picks|, k, |weights|);
    && (forall i :: 0 <= i < |left| ==> left[i] < |weights|)
    && size.Returned? && 0 <= size.value <= |left|
    && exists j :: 0 <= j < size.value && left[j] == pick && IsChoice(WeightsOf(weights, left[..size.value]), draw, j)
  }

  /** Every pick is decided by its own draw, in order. */
  ghost predicate AreDrawn(weights: seq<uint64>, k: int, stream: nat -> uint64, drawn: nat, picks: seq<nat>) {
    forall r :: 0 <= r < |picks| ==> IsPick(weights, k, picks[..r], picks[r], stream(drawn + r))
  }

  method ChooseK(rng: Rng, weights: array<uint64>, k: int) returns (r: Outcome<seq<nat>>)
    modifies rng
    ensures r == Sample(weights[..], k, rng.stream, old(rng.drawn))
    ensures r.Returned? ==> AreDrawn(weights[..], k, rng.stream, old(rng.drawn), r.value)
    ensures r.Returned? ==> rng.drawn == old(rng.drawn) + |r.value|
    ensures weights[..] == old(weights[..])
  {
    hide AreDrawn, IsPick, Choice, GetCandidateSize, WithoutIndex, Sample, PrependAll, Rounds;
    var luckies: seq<nat> := [];
    var totalCount := weights.Length;
    var weightValues, weightIndexes := CopyWeights(weights);
    ghost var values, indexes, drawn := weights[..], Identity(totalCount), rng.drawn;
    ghost var whole := Rounds(0, k, totalCount, values, indexes, rng.stream, drawn);
    SampleIsAllRounds(values, k, rng.stream, drawn);
    PrependAllEmpty(whole, []);

    var round := 0;
    while round < k
      invariant round == 0 || round <= k <= totalCount
      invariant |values| == |indexes| == totalCount - round
      invariant weightValues[..|values|] == values && weightIndexes[..|indexes|] == indexes
      invariant rng.drawn == drawn == old(rng.drawn) + |luckies|
      invariant whole == PrependAll(luckies, Rounds(round, k, totalCount, values, indexes, rng.stream, drawn))
    {
      ghost var left := OneRound(luckies, round, k, totalCount, values, indexes, rng.stream, drawn);
      var size := GetCandidateSize(round, k, totalCount);
      if size.Panicked? {
        return Panicked;
      }
      assert weightValues[..size.value] == values[..size.value];
      var picked := PickAndDelete(rng, weightValues, weightIndexes, totalCount - round, size.value);
      if picked.Panicked? {
        return Panicked;
      }
      luckies := luckies + [picked.value.1];
      values, indexes, drawn := left.0, left.1, drawn + 1;
      round := round + 1;
    }
    NoRoundLeft(round, k, totalCount, values, indexes, rng.stream, drawn);
    PrependAllEmpty(whole, luckies);
    SampleIsDrawn(weights[..], k, rng.stream, old(rng.drawn));
    return Returned(luckies);
  }

  lemma NoRoundLeft(round: nat, k: int, n: nat, values: seq<uint64>, indexes: seq<nat>, stream: nat -> uint64, drawn: nat)
    requires round >= k && |values| == |indexes|
    ensures Rounds(round, k, n, values, indexes, stream, drawn) == Returned([])
  {
  }

  // ---------- what the sample guarantees ----------

  /** The remaining entries are the caller's entries in their original order, each with its own
      weight, and at most `round` of the entries in front of any of them have been deleted. */
  ghost predicate Remaining(weights: seq<uint64>, round: nat, values: seq<uint64>, indexes: seq<nat>) {
    && |values| == |indexes|
    && (forall i :: 0 <= i < |indexes| ==> indexes[i] < |weights| && values[i] == weights[indexes[i]])
    && (forall i, j :: 0 <= i < j < |indexes| ==> indexes[i] < indexes[j])
    && (forall i :: 0 <= i < |indexes| ==> indexes[i] <= i + round)
  }

  lemma RemainingAfterDelete(weights: seq<uint64>, round: nat, values: seq<uint64>, indexes: seq<nat>, lucky: nat)
    requires Remaining(weights, round, values, indexes) && lucky < |indexes|
    ensures Remaining(weights, round + 1, WithoutIndex(values, lucky), WithoutIndex(indexes, lucky))
    ensures indexes[lucky] !in WithoutIndex(indexes, lucky)
    ensures forall x :: x in WithoutIndex(indexes, lucky) ==> x in indexes
  {
    var left := WithoutIndex(indexes, lucky);
    forall i | 0 <= i < |left|
      ensures left[i] == indexes[if i < lucky then i else i + 1]
      ensures WithoutIndex(values, lucky)[i] == values[if i < lucky then i else i + 1]
    {}
  }

  /** Round r looked only at the first GetCandidateSize(r, k, n) entries, and at most r entries
      in front of its pick were already gone. */
  ghost predicate WithinWindow(luckies: seq<nat>, round: nat, k: int, n: nat) {
    forall r :: 0 <= r < |luckies| ==> PickInWindow(luckies[r], round + r, k, n)
  }

  ghost predicate PickInWindow(pick: nat, round: nat, k: int, n: nat) {
    var size := GetCandidateSize(round, k, n);
    size.Returned? && pick < size.value + round
  }

  lemma {:induction false} RoundsAreSound(weights: seq<uint64>, round: nat, k: int, values: seq<uint64>,
                                          indexes: seq<nat>, stream: nat -> uint64, drawn: nat)
    requires Remaining(weights, round, values, indexes)
    requires round < k <= |weights| ==> |values| == |weights| - round
    ensures var r := Rounds(round, k, |weights|, values, indexes, stream, drawn);
            r.Returned? ==>
              && |r.value| == (if round < k then k - round else 0)
              && Distinct(r.value)
              && (forall x :: x in r.value ==> x in indexes && weights[x] > 0)
              && WithinWindow(r.value, round, k, |weights|)
    decreases k - round
  {
    RemainingMeans(weights, round, values, indexes);
    hide Choice, GetCandidateSize, Remaining;
    var n := |weights|;
    var result := Rounds(round, k, n, values, indexes, stream, drawn);
    if round < k && result.Returned? {
      CandidateWindowFits(round, k, n);
      var candidateSize := GetCandidateSize(round, k, n).value;
      var lucky := Choice(values[..candidateSize], stream(drawn)).value;
      ChosenWeightIsPositive(values, candidateSize, stream(drawn));
      RemainingAfterDelete(weights, round, values, indexes, lucky);
      var left := WithoutIndex(indexes, lucky);
      var rest := Rounds(round + 1, k, n, WithoutIndex(values, lucky), left, stream, drawn + 1);
      assert result.value == [indexes[lucky]] + rest.value;
      RoundsAreSound(weights, round + 1, k, WithoutIndex(values, lucky), left, stream, drawn + 1);
      PickInFront(weights, round, k, indexes, lucky, left, rest.value);
      hide Rounds, WithoutIndex, WithinWindow;
    }
  }

  /** What holds of the later picks holds with the pick of this round in front of them. */
  lemma PickInFront(weights: seq<uint64>, round: nat, k: int, indexes: seq<nat>, lucky: nat, left: seq<nat>, rest: seq<nat>)
    requires round < k && lucky < |indexes| && indexes[lucky] < |weights| && weights[indexes[lucky]] > 0
    requires indexes[lucky] !in left && forall x :: x in left ==> x in indexes
    requires Distinct(rest) && forall x :: x in rest ==> x in left && x < |weights| && weights[x] > 0
    requires WithinWindow(rest, round + 1, k, |weights|) && PickInWindow(indexes[lucky], round, k, |weights|)
    ensures var all := [indexes[lucky]] + rest;
            && Distinct(all)
            && (forall x :: x in all ==> x in indexes && weights[x] > 0)
            && WithinWindow(all, round, k, |weights|)
  {
    hide PickInWindow;
    var all := [indexes[lucky]] + rest;
    forall r | 0 <= r < |all| ensures PickInWindow(all[r], round + r, k, |weights|) {
      assert r > 0 ==> PickInWindow(rest[r - 1], round + 1 + (r - 1), k, |weights|);
    }
  }

  lemma RemainingMeans(weights: seq<uint64>, round: nat, values: seq<uint64>, indexes: seq<nat>)
    requires Remaining(weights, round, values, indexes)
    ensures |values| == |indexes|
    ensures forall i :: 0 <= i < |indexes| ==> indexes[i] < |weights| && values[i] == weights[indexes[i]]
  {
  }

  lemma ChosenWeightIsPositive(values: seq<uint64>, size: nat, draw: uint64)
    requires size <= |values| && Choice(values[..size], draw).Returned?
    ensures Choice(values[..size], draw).value < size
    ensures values[Choice(values[..size], draw).value] > 0
  {}

  /** Whatever the random numbers: if ChooseK returns, it returns k different positions of the
      caller's list, all with a positive weight, and the pick of round r lies in the window. */
  lemma SampleIsSound(weights: seq<uint64>, k: int, stream: nat -> uint64, drawn: nat)
    ensures var r := Sample(weights, k, stream, drawn);
            r.Returned? ==>
              && |r.value| == (if k > 0 then k else 0)
              && Distinct(r.value)
              && (forall i :: 0 <= i < |r.value| ==> r.value[i] < |weights| && weights[r.value[i]] > 0)
              && WithinWindow(r.value, 0, k, |weights|)
  {
    RoundsAreSound(weights, 0, k, weights, Identity(|weights|), stream, drawn);
    var r := Sample(weights, k, stream, drawn);
    assert r.Returned? ==> forall i :: 0 <= i < |r.value| ==> r.value[i] in r.value;
  }

  lemma {:induction false} PositiveSum(weights: seq<uint64>, n: nat)
    requires 1 <= n <= |weights|
    requires forall i :: 0 <= i < |weights| ==> weights[i] > 0
    ensures PrefixSum(weights, n) > 0
  {}

  lemma {:induction false} PrefixSumOfPrefix(weights: seq<uint64>, size: nat, n: nat)
    requires n <= size <= |weights|
    ensures PrefixSum(weights[..size], n) == PrefixSum(weights, n)
  {
    if n > 0 {
      PrefixSumOfPrefix(weights, size, n - 1);
    }
  }

  lemma {:induction false} PrefixSumWithoutIndex(weights: seq<uint64>, i: nat, n: nat)
    requires i < |weights| && n <= |weights| - 1
    ensures PrefixSum(WithoutIndex(weights, i), n)
         == if n <= i then PrefixSum(weights, n) else PrefixSum(weights, n + 1) - weights[i]
  {
    if n > 0 {
      PrefixSumWithoutIndex(weights, i, n - 1);
      assert WithoutIndex(weights, i)[n - 1] == weights[if n - 1 < i then n - 1 else n];
    }
  }

  lemma FullWindowReturns(values: seq<uint64>, size: nat, draw: uint64)
    requires 1 <= size <= |values| && Sum(values) <= MAX_UINT64
    requires forall i :: 0 <= i < |values| ==> values[i] > 0
    ensures Choice(values[..size], draw).Returned?
    ensures Choice(values[..size], draw).value < size
  {
    PositiveSum(values[..size], size);
    PrefixSumOfPrefix(values, size, size);
    PrefixSumMonotone(values, size, |values|);
  }

  lemma {:induction false} RoundsReturn(round: nat, k: int, n: nat, values: seq<uint64>, indexes: seq<nat>,
                                        stream: nat -> uint64, drawn: nat)
    requires |values| == |indexes|
    requires round < k ==> k <= n && |values| == n - round
    requires Sum(values) <= MAX_UINT64
    requires forall i :: 0 <= i < |values| ==> values[i] > 0
    ensures Rounds(round, k, n, values, indexes, stream, drawn).Returned?
    decreases k - round
  {
    hide Choice, GetCandidateSize;
    if round < k {
      CandidateWindowFits(round, k, n);
      var size := GetCandidateSize(round, k, n).value;
      FullWindowReturns(values, size, stream(drawn));
      var lucky := Choice(values[..size], stream(drawn)).value;
      var left := WithoutIndex(values, lucky);
      PrefixSumWithoutIndex(values, lucky, |left|);
      assert Sum(left) <= Sum(values);
      assert forall i :: 0 <= i < |left| ==> left[i] == values[if i < lucky then i else i + 1];
      RoundsReturn(round + 1, k, n, left, WithoutIndex(indexes, lucky), stream, drawn + 1);
    }
  }

  /** On positive weights whose total fits 64 bits, ChooseK panics exactly when more picks are
      wanted than there are entries. */
  lemma SamplePanicsIffTooMany(weights: seq<uint64>, k: int, stream: nat -> uint64, drawn: nat)
    requires Sum(weights) <= MAX_UINT64
    requires forall i :: 0 <= i < |weights| ==> weights[i] > 0
    ensures Sample(weights, k, stream, drawn).Panicked? <==> k > |weights|
  {
    CandidateWindowFits(0, k, |weights|);
    if k <= |weights| {
      RoundsReturn(0, k, |weights|, weights, Identity(|weights|), stream, drawn);
    }
  }

  // ---------- the draws decide the sample ----------

  lemma {:induction false} WithoutNothing(s: seq<nat>, x: nat)
    requires x !in s
    ensures Without(s, x) == s
  {
    if s != [] {
      WithoutNothing(s[1..], x);
    }
  }

  /** In a list without repetitions, leaving out an entry is deleting its place. */
  lemma {:induction false} WithoutIsDeleting(s: seq<nat>, i: nat)
    requires i < |s| && forall a, b :: 0 <= a < b < |s| ==> s[a] < s[b]
    ensures Without(s, s[i]) == WithoutIndex(s, i)
  {
    if i == 0 {
      assert s[0] !in s[1..];
      WithoutNothing(s[1..], s[0]);
    } else {
      WithoutIsDeleting(s[1..], i - 1);
      assert WithoutIndex(s, i) == [s[0]] + WithoutIndex(s[1..], i - 1);
    }
  }

  /** The two buffers of a round after `done`: what is left, and its weights. */
  ghost predicate Buffers(weights: seq<uint64>, done: seq<nat>, values: seq<uint64>, indexes: seq<nat>) {
    && Remaining(weights, |done|, values, indexes)
    && indexes == LeftAfter(|weights|, done)
  }

  lemma BuffersAfterPick(weights: seq<uint64>, done: seq<nat>, values: seq<uint64>, indexes: seq<nat>, lucky: nat)
    requires Buffers(weights, done, values, indexes) && lucky < |indexes|
    ensures Buffers(weights, done + [indexes[lucky]], WithoutIndex(values, lucky), WithoutIndex(indexes, lucky))
  {
    RemainingAfterDelete(weights, |done|, values, indexes, lucky);
    WithoutIsDeleting(indexes, lucky);
    var more := done + [indexes[lucky]];
    assert more[..|more| - 1] == done;
    hide Remaining, Without, WithoutIndex;
  }

  lemma PickIsDrawn(weights: seq<uint64>, k: int, done: seq<nat>, values: seq<uint64>, indexes: seq<nat>, size: nat, lucky: nat, draw: uint64)
    requires Buffers(weights, done, values, indexes) && size <= |values|
    requires GetCandidateSize(|done|, k, |weights|) == Returned(size) && Choice(values[..size], draw) == Returned(lucky)
    ensures lucky < |indexes| && IsPick(weights, k, done, indexes[lucky], draw)
  {
    RemainingMeans(weights, |done|, values, indexes);
    ChoiceIsDecidedByDraw(values[..size], draw, lucky);
    hide Choice, GetCandidateSize, Remaining, LeftAfter, IsChoice;
    assert lucky < size by { ChoiceInRange(values[..size], draw, lucky); }
    assert WeightsOf(weights, indexes[..size]) == values[..size];
  }

  lemma ChoiceInRange(weights: seq<uint64>, draw: uint64, i: nat)
    requires IsChoice(weights, draw, i)
    ensures i < |weights|
  {
  }

  lemma {:induction false} RoundsAreDrawn(weights: seq<uint64>, done: seq<nat>, k: int, values: seq<uint64>, indexes: seq<nat>,
                                          stream: nat -> uint64, drawn: nat)
    requires Buffers(weights, done, values, indexes) && |values| == |indexes|
    requires |done| < k <= |weights| ==> |values| == |weights| - |done|
    requires AreDrawn(weights, k, stream, drawn, done)
    ensures var r := PrependAll(done, Rounds(|done|, k, |weights|, values, indexes, stream, drawn + |done|));
            r.Returned? ==> AreDrawn(weights, k, stream, drawn, r.value)
    decreases k - |done|
  {
    hide Choice, GetCandidateSize, Buffers, AreDrawn, WithoutIndex, Rounds, PrependAll;
    var n, round := |weights|, |done|;
    if round >= k {
      NoRoundLeft(round, k, n, values, indexes, stream, drawn + round);
      PrependAllEmpty(Returned([]), done);
    } else {
      var left := OneRound(done, round, k, n, values, indexes, stream, drawn + round);
      var size := GetCandidateSize(round, k, n);
      if size.Returned? {
        var draw := stream(drawn + round);
        var choice := Choice(values[..size.value], draw);
        if choice.Returned? {
          var lucky := choice.value;
          PickIsDrawn(weights, k, done, values, indexes, size.value, lucky, draw);
          BuffersAfterPick(weights, done, values, indexes, lucky);
          DrawnSoFar(weights, k, stream, drawn, done, indexes[lucky]);
          RoundsAreDrawn(weights, done + [indexes[lucky]], k, left.0, left.1, stream, drawn);
        }
      }
    }
  }

  lemma DrawnSoFar(weights: seq<uint64>, k: int, stream: nat -> uint64, drawn: nat, done: seq<nat>, pick: nat)
    requires AreDrawn(weights, k, stream, drawn, done) && IsPick(weights, k, done, pick, stream(drawn + |done|))
    ensures AreDrawn(weights, k, stream, drawn, done + [pick])
  {
    hide IsPick;
    var more := done + [pick];
    forall r | 0 <= r < |more| ensures IsPick(weights, k, more[..r], more[r], stream(drawn + r)) {
      if r < |done| {
        assert more[..r] == done[..r];
      } else {
        assert more[..r] == done;
      }
    }
  }

  /** Pick r of a sample is decided by draw number r over the window of what is left. */
  lemma SampleIsDrawn(weights: seq<uint64>, k: int, stream: nat -> uint64, drawn: nat)
    ensures var r := Sample(weights, k, stream, drawn);
            r.Returned? ==> AreDrawn(weights, k, stream, drawn, r.value)
  {
    hide Rounds, IsPick, GetCandidateSize;
    NothingPicked(weights);
    hide Buffers;
    RoundsAreDrawn(weights, [], k, weights, Identity(|weights|), stream, drawn);
    PrependAllEmpty(Sample(weights, k, stream, drawn), []);
  }

  lemma NothingPicked(weights: seq<uint64>)
    ensures Buffers(weights, [], weights, Identity(|weights|))
  {
  }
}
