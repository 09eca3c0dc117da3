/** The aggregation functions oracle scripts use on the reported values. */
module Aggregation {
  import opened MachineTypes

  // ---------- majority ----------

  function Occurrences<T(==)>(s: seq<T>, x: T): nat {
    if s == [] then 0 else Occurrences(s[..|s| - 1], x) + if s[|s| - 1] == x then 1 else 0
  }

  ghost predicate HasMajority<T>(s: seq<T>, x: T) {
    2 * Occurrences(s, x) > |s|
  }

  lemma OccurrencesGrow<T>(s: seq<T>, i: nat, x: T)
    requires i < |s|
    ensures Occurrences(s[..i + 1], x) == Occurrences(s[..i], x) + if s[i] == x then 1 else 0
  {
    assert s[..i + 1][..i] == s[..i];
  }

  /** What the vote knows after i values, with `count` votes for the candidate: this variant, which
      reseeds with the value that emptied the count, keeps bounds one looser than the textbook's. */
  ghost predicate Vote<T(!new)>(s: seq<T>, candidate: T, count: int) {
    && count >= 1
    && 2 * Occurrences(s, candidate) <= |s| + count
    && forall x :: x != candidate ==> 2 * Occurrences(s, x) <= |s| + 1 - count
  }

  /** One vote: a match adds, a mismatch takes away, and an empty count reseeds with the same value. */
  lemma VoteStep<T(!new)>(vec: seq<T>, i: nat, candidate: T, count: nat)
    requires 1 <= i < |vec| && Vote(vec[..i], candidate, count)
    ensures if vec[i] == candidate then Vote(vec[..i + 1], candidate, count + 1)
            else if count == 1 then Vote(vec[..i + 1], vec[i], 1)
            else Vote(vec[..i + 1], candidate, count - 1)
  {
    var before, after := vec[..i], vec[..i + 1];
    forall x ensures Occurrences(after, x) == Occurrences(before, x) + if vec[i] == x then 1 else 0 {
      OccurrencesGrow(vec, i, x);
    }
    assert |after| == |before| + 1;
    hide Occurrences;
    var next := if vec[i] == candidate || count > 1 then candidate else vec[i];
    forall x | x != next
      ensures vec[i] == candidate ==> 2 * Occurrences(after, x) <= |after| - count
      ensures vec[i] != candidate && count > 1 ==> 2 * Occurrences(after, x) <= |after| + 2 - count
      ensures vec[i] != candidate && count == 1 ==> 2 * Occurrences(after, x) <= |after|
    {
      assert x == candidate || 2 * Occurrences(before, x) <= |before| + 1 - count;
    }
  }

  /** The majority vote. Subtracting one never takes the unsigned count below zero, and the second
      pass makes the answer exact. The source indexes vec[0]; its callers pass a non-empty list. */
  method Majority<T(==, !new)>(vec: seq<T>) returns (r: Option<T>)
    requires vec != []
    ensures forall x :: r == Some(x) <==> HasMajority(vec, x)
  {
    var candidate := vec[0];
    var count: nat := 1;
    assert forall x :: Occurrences(vec[..1], x) == (if vec[0] == x then 1 else 0) by {
      forall x ensures Occurrences(vec[..1], x) == if vec[0] == x then 1 else 0 {
        OccurrencesGrow(vec, 0, x);
      }
    }
    for i := 1 to |vec|
      invariant Vote(vec[..i], candidate, count)
    {
      VoteStep(vec, i, candidate, count);
      if candidate == vec[i] {
        count := count + 1;
      } else {
        count := count - 1;
      }
      if count == 0 {
        candidate := vec[i];
        count := 1;
      }
    }
    assert vec[..|vec|] == vec;
    assert Vote(vec, candidate, count);

    count := 0;
    for i := 0 to |vec|
      invariant count == Occurrences(vec[..i], candidate)
    {
      OccurrencesGrow(vec, i, candidate);
      if candidate == vec[i] {
        count := count + 1;
      }
    }
    if 2 * count > |vec| {
      OnlyOneMajority(vec, candidate);
      return Some(candidate);
    }
    return None;
  }

  lemma {:induction false} TwoValuesFit<T>(s: seq<T>, x: T, y: T)
    requires x != y
    ensures Occurrences(s, x) + Occurrences(s, y) <= |s|
  {
    if s != [] {
      TwoValuesFit(s[..|s| - 1], x, y);
    }
  }

  lemma OnlyOneMajority<T(!new)>(s: seq<T>, x: T)
    requires HasMajority(s, x)
    ensures forall y :: HasMajority(s, y) ==> y == x
  {
    forall y | y != x ensures !HasMajority(s, y) {
      TwoValuesFit(s, x, y);
    }
  }

  /** load_majority, on the values load_input has parsed. */
  method LoadMajority<T(==, !new)>(values: seq<T>) returns (r: Option<T>)
    ensures forall x :: r == Some(x) <==> HasMajority(values, x)
  {
    if |values| == 0 {
      return None;
    }
    r := Majority(values);
  }

  // ---------- median ----------

  ghost predicate Sorted(s: seq<real>) {
    forall i, j :: 0 <= i < j < |s| ==> s[i] <= s[j]
  }

  function Insert(s: seq<real>, x: real): seq<real> {
    if s == [] || x <= s[0] then [x] + s else [s[0]] + Insert(s[1..], x)
  }

  function Sort(s: seq<real>): (r: seq<real>)
    ensures |r| == |s|
  {
    if s == [] then []
    else
      InsertAddsOne(Sort(s[1..]), s[0]);
      Insert(Sort(s[1..]), s[0])
  }

  lemma {:induction false} InsertAddsOne(s: seq<real>, x: real)
    ensures |Insert(s, x)| == |s| + 1
    ensures multiset(Insert(s, x)) == multiset(s) + multiset{x}
  {
    if s != [] && x > s[0] {
      InsertAddsOne(s[1..], x);
      assert s == [s[0]] + s[1..];
    }
  }

  lemma {:induction false} InsertKeepsSorted(s: seq<real>, x: real)
    requires Sorted(s)
    ensures Sorted(Insert(s, x))
  {
    if s != [] && x > s[0] {
      InsertKeepsSorted(s[1..], x);
      InsertAddsOne(s[1..], x);
      var rest := Insert(s[1..], x);
      forall j | 0 <= j < |rest| ensures s[0] <= rest[j] {
        assert rest[j] in multiset(rest);
        assert rest[j] in multiset(s[1..]) || rest[j] == x;
        if rest[j] in s[1..] {
          var k :| 0 <= k < |s[1..]| && s[1..][k] == rest[j];
        }
      }
    }
  }

  lemma {:induction false} SortKeepsValues(s: seq<real>)
    ensures multiset(Sort(s)) == multiset(s) && Sorted(Sort(s))
  {
    if s != [] {
      SortKeepsValues(s[1..]);
      InsertAddsOne(Sort(s[1..]), s[0]);
      InsertKeepsSorted(Sort(s[1..]), s[0]);
      assert s == [s[0]] + s[1..];
    }
  }

  /** Sorting has one result only. */
  lemma {:induction false} SortedIsUnique(a: seq<real>, b: seq<real>)
    requires Sorted(a) && Sorted(b) && multiset(a) == multiset(b)
    ensures a == b
    decreases |a|
  {
    if a == [] || b == [] {
      assert |a| == |multiset(a)| == |multiset(b)| == |b|;
    } else {
      SmallestFirst(a, b);
      SmallestFirst(b, a);
      assert a == [a[0]] + a[1..] && b == [b[0]] + b[1..];
      assert multiset(a[1..]) == multiset(a) - multiset{a[0]} == multiset(b[1..]);
      RestIsSorted(a);
      RestIsSorted(b);
      hide Sorted;
      SortedIsUnique(a[1..], b[1..]);
    }
  }

  lemma RestIsSorted(a: seq<real>)
    requires Sorted(a) && a != []
    ensures Sorted(a[1..])
  {
  }

  lemma SmallestFirst(a: seq<real>, b: seq<real>)
    requires Sorted(a) && a != [] && b != [] && multiset(a) == multiset(b)
    ensures a[0] <= b[0]
  {
    assert b[0] in multiset(b);
    assert b[0] in a;
  }

  /** How the element type adds and halves: exactly, or as an integer type with the values least..limit-1
      whose sums wrap around and whose division truncates towards zero. */
  datatype Arithmetic = Exact | Integer(least: int, limit: int)

  predicate Whole(x: real) {
    x == x.Floor as real
  }

  /** The element type holds x; an integer type holds 0. */
  predicate Holds(x: real, t: Arithmetic) {
    t.Integer? ==> t.least <= 0 < t.limit && Whole(x) && t.least as real <= x < t.limit as real
  }

  /** A sum that an integer type holds does not wrap. */
  predicate Fits(sum: real, t: Arithmetic) {
    t.Integer? ==> t.least as real <= sum < t.limit as real
  }

  /** The value of the element type that is equal to n modulo their number. */
  function Wrap(n: int, least: int, limit: int): int
    requires least < limit
  {
    (n - least) % (limit - least) + least
  }

  function Quotient(x: real): real {
    if x >= 0.0 then (x / 2.0).Floor as real else -((-x / 2.0).Floor as real)
  }

  function Half(sum: real, t: Arithmetic): real
    requires t.Integer? ==> t.least < t.limit
  {
    match t
    case Exact => sum / 2.0
    case Integer(least, limit) => Quotient(Wrap(sum.Floor, least, limit) as real)
  }

  function Median(values: seq<real>, t: Arithmetic): real
    requires values != [] && forall i :: 0 <= i < |values| ==> Holds(values[i], t)
  {
    var s, mid := Sort(values), |values| / 2;
    if |s| % 2 == 0 then assert Holds(values[0], t); Half(s[mid - 1] + s[mid], t) else s[mid]
  }

  /** What the sum of two elements is in an integer type: the sum itself, or the one number of values
      further down or up that the type holds. */
  function SumInType(sum: real, least: int, limit: int): real {
    var count := (limit - least) as real;
    if sum >= limit as real then sum - count else if sum < least as real then sum + count else sum
  }

  /** m is the middle value of the sorted values, or half the sum of the two middle ones: exactly half,
      or the whole number nearest to it on the side of zero. */
  ghost predicate IsMiddle(s: seq<real>, t: Arithmetic, m: real)
    requires s != []
  {
    var mid := |s| / 2;
    if |s| % 2 == 1 then m == s[mid]
    else
      var sum := s[mid - 1] + s[mid];
      match t
      case Exact => 2.0 * m == sum
      case Integer(least, limit) =>
        var w := SumInType(sum, least, limit);
        && Whole(m)
        && (w >= 0.0 ==> 0.0 <= 2.0 * m <= w < 2.0 * m + 2.0)
        && (w <= 0.0 ==> 2.0 * m - 2.0 < w <= 2.0 * m <= 0.0)
  }

  /** The median is the middle of any sorted arrangement of the values. */
  lemma MedianIsMiddle(values: seq<real>, t: Arithmetic, s: seq<real>)
    requires values != [] && forall i :: 0 <= i < |values| ==> Holds(values[i], t)
    requires Sorted(s) && multiset(s) == multiset(values)
    ensures s != [] && IsMiddle(s, t, Median(values, t))
  {
    hide Half, Sort, Sorted, Holds, SumInType;
    SortKeepsValues(values);
    SortedIsUnique(s, Sort(values));
    assert |s| == |values|;
    var mid := |s| / 2;
    if |s| % 2 == 0 {
      SortedValueComesFrom(values, mid - 1);
      SortedValueComesFrom(values, mid);
      assert s[mid - 1] <= s[mid] by { SortedAt(s, mid); }
      if t.Integer? {
        HalfIsTruncated(s[mid - 1], s[mid], t.least, t.limit);
      } else {
        assert 2.0 * Half(s[mid - 1] + s[mid], t) == s[mid - 1] + s[mid] by { ExactHalf(s[mid - 1] + s[mid]); }
      }
    }
  }

  lemma SortedAt(s: seq<real>, k: nat)
    requires Sorted(s) && 1 <= k < |s|
    ensures s[k - 1] <= s[k]
  {
  }

  lemma ExactHalf(sum: real)
    ensures 2.0 * Half(sum, Exact) == sum
  {
  }

  lemma HalfIsTruncated(a: real, b: real, least: int, limit: int)
    requires a <= b && Holds(a, Integer(least, limit)) && Holds(b, Integer(least, limit))
    ensures var m, w := Half(a + b, Integer(least, limit)), SumInType(a + b, least, limit);
            && Whole(m)
            && (w >= 0.0 ==> 0.0 <= 2.0 * m <= w < 2.0 * m + 2.0)
            && (w <= 0.0 ==> 2.0 * m - 2.0 < w <= 2.0 * m <= 0.0)
  {
    var x, y := a.Floor, b.Floor;
    assert a == x as real && b == y as real && a + b == (x + y) as real;
    assert (a + b).Floor == x + y;
    WrapOnce(x, y, least, limit);
    var w := Wrap(x + y, least, limit);
    assert SumInType(a + b, least, limit) == w as real;
    QuotientOfWhole(w);
    hide Wrap, Quotient;
    var q := IntQuotient(w);
    assert Half(a + b, Integer(least, limit)) == q as real;
    assert (q as real).Floor == q;
    assert w >= 0 ==> 0 <= 2 * q <= w < 2 * q + 2;
    assert w <= 0 ==> 2 * q - 2 < w <= 2 * q <= 0;
  }

  /** `vals.sort_by(...)`. */
  method SortInPlace(vals: array<real>)
    modifies vals
    ensures vals[..] == Sort(old(vals[..]))
  {
    var sorted := Sort(vals[..]);
    forall i | 0 <= i < vals.Length {
      vals[i] := sorted[i];
    }
    assert vals[..] == sorted;
  }

  method ComputeMedian(vals: array<real>, t: Arithmetic) returns (m: real)
    requires vals.Length > 0 && forall i :: 0 <= i < vals.Length ==> Holds(vals[i], t)
    modifies vals
    ensures m == Median(old(vals[..]), t)
    ensures Sorted(vals[..]) && multiset(vals[..]) == old(multiset(vals[..]))
    ensures IsMiddle(vals[..], t, m)
  {
    SortKeepsValues(vals[..]);
    MedianIsMiddle(vals[..], t, Sort(vals[..]));
    hide IsMiddle;
    SortInPlace(vals);
    var mid := vals.Length / 2;
    ghost var s := vals[..];
    if vals.Length % 2 == 0 {
      assert vals[mid - 1] == s[mid - 1] && vals[mid] == s[mid];
      m := Half(vals[mid - 1] + vals[mid], t);
    } else {
      assert vals[mid] == s[mid];
      m := vals[mid];
    }
  }

  /** The median does not depend on the order of the values. */
  lemma MedianIgnoresOrder(a: seq<real>, b: seq<real>, t: Arithmetic)
    requires a != [] && b != [] && multiset(a) == multiset(b)
    requires forall i :: 0 <= i < |a| ==> Holds(a[i], t)
    requires forall i :: 0 <= i < |b| ==> Holds(b[i], t)
    ensures Median(a, t) == Median(b, t)
  {
    hide Sort, Half, Sorted;
    SortKeepsValues(a);
    SortKeepsValues(b);
    SortedIsUnique(Sort(a), Sort(b));
    assert |a| == |multiset(a)| == |b|;
  }

  function CountWithin(s: seq<real>, lo: real, hi: real): nat {
    if s == [] then 0 else (if lo <= s[0] <= hi then 1 else 0) + CountWithin(s[1..], lo, hi)
  }

  lemma {:induction false} InsertCounts(s: seq<real>, x: real, lo: real, hi: real)
    ensures CountWithin(Insert(s, x), lo, hi) == CountWithin(s, lo, hi) + if lo <= x <= hi then 1 else 0
  {
    if s != [] && x > s[0] {
      InsertCounts(s[1..], x, lo, hi);
      assert Insert(s, x)[1..] == Insert(s[1..], x);
    } else {
      assert Insert(s, x)[1..] == s;
    }
  }

  lemma {:induction false} SortCounts(s: seq<real>, lo: real, hi: real)
    ensures CountWithin(Sort(s), lo, hi) == CountWithin(s, lo, hi)
  {
    if s != [] {
      SortCounts(s[1..], lo, hi);
      InsertCounts(Sort(s[1..]), s[0], lo, hi);
    }
  }

  /** If a stretch of the list lies outside the range, the rest bounds the count. */
  lemma {:induction false} OutsideDoesNotCount(s: seq<real>, from: nat, to: nat, lo: real, hi: real)
    requires from <= to <= |s|
    requires forall i :: from <= i < to ==> !(lo <= s[i] <= hi)
    ensures CountWithin(s, lo, hi) <= |s| - (to - from)
    decreases |s|
  {
    if s != [] {
      if from > 0 {
        OutsideDoesNotCount(s[1..], from - 1, to - 1, lo, hi);
      } else if to > 0 {
        OutsideDoesNotCount(s[1..], 0, to - 1, lo, hi);
      } else {
        OutsideDoesNotCount(s[1..], 0, 0, lo, hi);
      }
    }
  }

  /** Where the median of a sorted list is taken from, all values in between are in the range. */
  lemma MiddleIsWithin(s: seq<real>, k: nat, lo: real, hi: real)
    requires Sorted(s) && k < |s| && 2 * CountWithin(s, lo, hi) > |s|
    requires |s| - 1 <= 2 * k + 1 && 2 * k <= |s|
    ensures lo <= s[k] <= hi
  {
    if s[k] < lo {
      OutsideDoesNotCount(s, 0, k + 1, lo, hi);
    } else if s[k] > hi {
      OutsideDoesNotCount(s, k, |s|, lo, hi);
    }
  }

  /** The sum of the two middle values, if there are two, does not wrap. */
  predicate MiddleFits(values: seq<real>, t: Arithmetic)
    requires values != []
  {
    |values| % 2 == 1 || Fits(Sort(values)[|values| / 2 - 1] + Sort(values)[|values| / 2], t)
  }

  /** The median is robust: if more than half of the values lie in a range, so does the median,
      for odd and even lengths, as long as the sum of the two middle values fits. */
  lemma MedianIsRobust(values: seq<real>, t: Arithmetic, lo: real, hi: real)
    requires values != [] && 2 * CountWithin(values, lo, hi) > |values|
    requires forall i :: 0 <= i < |values| ==> Holds(values[i], t)
    requires MiddleFits(values, t)
    ensures lo <= Median(values, t) <= hi
  {
    hide Half, Sort, CountWithin, Holds, Fits;
    var s, mid := Sort(values), |values| / 2;
    SortKeepsValues(values);
    SortCounts(values, lo, hi);
    MiddleIsWithin(s, mid, lo, hi);
    if |values| % 2 == 0 {
      MiddleIsWithin(s, mid - 1, lo, hi);
      SortedValueComesFrom(values, mid - 1);
      SortedValueComesFrom(values, mid);
      HalfIsBetweenIff(s[mid - 1], s[mid], t);
    }
  }

  /** If that sum wraps the median is not robust: more than half of the values lie in a range and the
      median does not. */
  lemma WrappedMedianIsNotRobust(values: seq<real>, t: Arithmetic) returns (lo: real, hi: real)
    requires values != [] && forall i :: 0 <= i < |values| ==> Holds(values[i], t)
    requires !MiddleFits(values, t)
    ensures 2 * CountWithin(values, lo, hi) > |values|
    ensures !(lo <= Median(values, t) <= hi)
  {
    hide Half, Sort, CountWithin, Holds, Fits;
    var s, n, mid := Sort(values), |values|, |values| / 2;
    SortKeepsValues(values);
    SortedValueComesFrom(values, mid - 1);
    SortedValueComesFrom(values, mid);
    HalfIsBetweenIff(s[mid - 1], s[mid], t);
    if Median(values, t) < s[mid - 1] {
      lo, hi := s[mid - 1], s[n - 1];
      InsideCounts(s, mid - 1, n, lo, hi);
    } else {
      lo, hi := s[0], s[mid];
      InsideCounts(s, 0, mid + 1, lo, hi);
    }
    SortCounts(values, lo, hi);
  }

  lemma {:induction false} InsideCounts(s: seq<real>, from: nat, to: nat, lo: real, hi: real)
    requires from <= to <= |s|
    requires forall i :: from <= i < to ==> lo <= s[i] <= hi
    ensures CountWithin(s, lo, hi) >= to - from
    decreases |s|
  {
    if s != [] && to > 0 {
      InsideCounts(s[1..], if from > 0 then from - 1 else 0, to - 1, lo, hi);
    }
  }

  lemma SortedValueComesFrom(values: seq<real>, k: nat)
    requires k < |values|
    ensures Sort(values)[k] in values
  {
    hide Sort;
    SortKeepsValues(values);
    assert Sort(values)[k] in multiset(Sort(values));
  }

  /** Half the sum of two elements lies between them if and only if the sum does not wrap. */
  lemma HalfIsBetweenIff(a: real, b: real, t: Arithmetic)
    requires a <= b && Holds(a, t) && Holds(b, t)
    ensures a <= Half(a + b, t) <= b <==> Fits(a + b, t)
  {
    if t.Integer? {
      var x, y := a.Floor, b.Floor;
      assert a == x as real && b == y as real && a + b == (x + y) as real;
      assert (a + b).Floor == x + y;
      WrapOnce(x, y, t.least, t.limit);
      var w := Wrap(x + y, t.least, t.limit);
      QuotientOfWhole(w);
      assert Half(a + b, t) == Quotient(w as real);
      hide Half, Quotient, Wrap;
      WrappedHalf(x, y, w, t.least, t.limit);
    }
  }

  function IntQuotient(n: int): int {
    if n >= 0 then n / 2 else -(-n / 2)
  }

  lemma QuotientOfWhole(n: int)
    ensures Quotient(n as real) == IntQuotient(n) as real
  {
    if n >= 0 {
      FloorOfHalf(n);
    } else {
      FloorOfHalf(-n);
      assert -(n as real) == (-n) as real;
    }
  }

  lemma FloorOfHalf(n: nat)
    ensures (n as real / 2.0).Floor == n / 2
  {
    var k := n / 2;
    assert n == 2 * k || n == 2 * k + 1;
    assert k as real <= n as real / 2.0 < k as real + 1.0;
  }

  lemma WrapOnce(x: int, y: int, least: int, limit: int)
    requires least <= 0 < limit && least <= x <= y < limit
    ensures var range := limit - least;
            Wrap(x + y, least, limit) ==
            if x + y >= limit then x + y - range else if x + y < least then x + y + range else x + y
  {
    var range, shifted := limit - least, x + y - least;
    Remainder(shifted, range);
  }

  lemma Remainder(n: int, range: int)
    requires range > 0 && -range <= n < 2 * range
    ensures n % range == if n >= range then n - range else if n < 0 then n + range else n
  {
    var q := n / range;
    assert q >= 2 ==> q * range >= 2 * range;
    assert q <= -2 ==> q * range <= -2 * range;
    assert n == q * range + n % range;
  }

  lemma WrappedHalf(x: int, y: int, w: int, least: int, limit: int)
    requires least <= 0 < limit && least <= x <= y < limit
    requires w == if x + y >= limit then x + y - (limit - least) else if x + y < least then x + y + (limit - least) else x + y
    ensures x <= IntQuotient(w) <= y <==> least <= x + y < limit
  {
  }
}
