/** The shrinking candidate window of the validator sampler. */
module CandidateWindow {
  import opened MachineTypes
  import opened NaturalPowers

  /** The largest s <= limit with s^root <= target. */
  function FloorRoot(target: nat, root: nat, limit: nat): nat {
    if limit == 0 || Pow(limit, root) <= target then limit
    else FloorRoot(target, root, limit - 1)
  }

  /** The integer part of base^(p/q). */
  function FloorPower(base: nat, p: nat, q: nat): nat {
    FloorRoot(Pow(base, p), q, Pow(base, p))
  }

  function GetCandidateSize(currentRound: int, totalRound: int, totalCount: int): Outcome<int> {
    if currentRound < 0 || currentRound >= totalRound then Panicked
    else if totalCount < totalRound then Panicked
    else if currentRound == 0 then Returned(totalCount)
    else if totalCount == currentRound + 1 then Returned(1)
    else Returned(FloorPower(totalCount - 1, totalRound - 1 - currentRound, totalRound - 1) + 1)
  }

  // ---------- powers ----------

  /** (m+1)^i <= (i+1) * m^i as long as i <= m. */
  lemma {:induction false} SuccessorPowerBound(m: nat, i: nat)
    requires i <= m
    ensures Pow(m + 1, i) <= (i + 1) * Pow(m, i)
  {
    if i > 0 {
      SuccessorPowerBound(m, i - 1);
      var p, w := Pow(m, i - 1), Pow(m + 1, i - 1);
      ProductMonotone(m + 1, m + 1, w, i * p);
      Reassociate(m + 1, i, p);
      assert (m + 1) * i <= (i + 1) * m;
      ProductMonotone((m + 1) * i, (i + 1) * m, p, p);
      Reassociate(i + 1, m, p);
    }
  }

  lemma OneMore(a: int, x: int)
    ensures x * (a + 1) == x * a + x
    ensures (a + 1) * x == a * x + x
  {}

  lemma Reassociate(a: int, b: int, c: int)
    ensures a * b * c == a * (b * c)
  {}

  /** (j+1)^m > m^j for 1 <= j <= m. */
  lemma {:induction false} CrossPowerBound(j: nat, m: nat)
    requires 1 <= j <= m
    ensures Pow(j + 1, m) > Pow(m, j)
    decreases m
  {
    if m == j {
      StrictlyLargerBase(j, j);
    } else {
      CrossPowerBound(j, m - 1);
      SuccessorPowerBound(m - 1, j);
      assert Pow(j + 1, m) == (j + 1) * Pow(j + 1, m - 1);
      hide Pow;
      var below := Pow(m - 1, j);
      ProductMonotone(j + 1, j + 1, below + 1, Pow(j + 1, m - 1));
      OneMore(below, j + 1);
    }
  }

  /** (m-r+1)^q > m^(q-r) for 1 <= r <= q <= m and r < m: no q-th root of m^(q-r) reaches m-r+1. */
  lemma {:induction false} WindowInequality(m: nat, r: nat, q: nat)
    requires 1 <= r <= q <= m && r < m
    ensures Pow(m - r + 1, q) > Pow(m, q - r)
    decreases m - q
  {
    if q == m {
      CrossPowerBound(m - r, m);
    } else {
      WindowInequality(m, r, q + 1);
      var a, b := Pow(m - r + 1, q), Pow(m, q - r);
      assert Pow(m - r + 1, q + 1) == (m - r + 1) * a && Pow(m, q + 1 - r) == m * b;
      if a <= b {
        ProductMonotone(m - r + 1, m, a, b);
        assert false;
      }
    }
  }

  lemma {:induction false} FloorRootIsLargest(target: nat, root: nat, limit: nat)
    requires root >= 1
    ensures var s := FloorRoot(target, root, limit);
            && s <= limit && Pow(s, root) <= target
            && (s < limit ==> target < Pow(s + 1, root))
    decreases limit
  {
    if limit > 0 && Pow(limit, root) > target {
      FloorRootIsLargest(target, root, limit - 1);
    }
  }

  /** FloorPower(base, p, q) is the one s with s^q <= base^p < (s+1)^q. */
  lemma FloorPowerIsExact(base: nat, p: nat, q: nat, s: nat)
    requires q >= 1
    ensures s == FloorPower(base, p, q) <==> Pow(s, q) <= Pow(base, p) < Pow(s + 1, q)
  {
    var target, t := Pow(base, p), FloorPower(base, p, q);
    FloorRootIsLargest(target, q, target);
    PowAtLeastBase(target + 1, q);
    if t < s {
      PowMonotone(t + 1, s, q);
    } else if s < t {
      PowMonotone(s + 1, t, q);
    }
  }

  // ---------- the window ----------

  /** The value of every branch: all entries in the first round, one in front of the last entry, and
      otherwise one more than the integer part of (n-1)^((k-1-r)/(k-1)). */
  lemma CandidateSizeIsExact(currentRound: int, totalRound: int, totalCount: int, size: int)
    requires 0 <= currentRound < totalRound <= totalCount
    ensures GetCandidateSize(currentRound, totalRound, totalCount) == Returned(size) <==>
              if currentRound == 0 then size == totalCount
              else if totalCount == currentRound + 1 then size == 1
              else
                && size >= 1
                && Pow(size - 1, totalRound - 1) <= Pow(totalCount - 1, totalRound - 1 - currentRound) < Pow(size, totalRound - 1)
  {
    if currentRound > 0 && totalCount != currentRound + 1 {
      var m, q, p := totalCount - 1, totalRound - 1, totalRound - 1 - currentRound;
      if size >= 1 {
        FloorPowerIsExact(m, p, q, size - 1);
      }
      hide FloorPower, Pow;
    }
  }

  /** The window of every round fits the entries that are still left: totalCount is not
      reduced between rounds, `currentRound` entries have been deleted, and still the slice
      expression never reaches past the end. The function panics on exactly the other rounds. */
  lemma CandidateWindowFits(currentRound: int, totalRound: int, totalCount: int)
    ensures var size := GetCandidateSize(currentRound, totalRound, totalCount);
            && (size.Returned? <==> 0 <= currentRound < totalRound <= totalCount)
            && (size.Returned? ==> 1 <= size.value <= totalCount - currentRound)
  {
    if 1 <= currentRound < totalRound <= totalCount && totalCount != currentRound + 1 {
      var m, q := totalCount - 1, totalRound - 1;
      var s := FloorPower(m, q - currentRound, q);
      WindowInequality(m, currentRound, q);
      FloorPowerIsExact(m, q - currentRound, q, s);
      if s > m - currentRound {
        PowMonotone(m - currentRound + 1, s, q);
      }
    }
  }

  /** The window never grows from one round to the next. */
  lemma CandidateWindowNeverGrows(currentRound: int, totalRound: int, totalCount: int)
    requires 0 <= currentRound && currentRound + 1 < totalRound <= totalCount
    ensures GetCandidateSize(currentRound, totalRound, totalCount).Returned?
    ensures GetCandidateSize(currentRound + 1, totalRound, totalCount).Returned?
    ensures GetCandidateSize(currentRound + 1, totalRound, totalCount).value
         <= GetCandidateSize(currentRound, totalRound, totalCount).value
  {
    CandidateWindowFits(currentRound, totalRound, totalCount);
    CandidateWindowFits(currentRound + 1, totalRound, totalCount);
    if currentRound > 0 && totalCount != currentRound + 2 {
      var m, q, p := totalCount - 1, totalRound - 1, totalRound - 2 - currentRound;
      var early, late := FloorPower(m, p + 1, q), FloorPower(m, p, q);
      PowGrowsWithExponent(m, p);
      FloorPowerIsExact(m, p + 1, q, early);
      FloorPowerIsExact(m, p, q, late);
      if late > early {
        PowMonotone(early + 1, late, q);
      }
    }
  }

  /** The window has at least two candidates in every round but the one that is left with the last
      entry. */
  lemma CandidateWindowAtLeastTwoIff(currentRound: int, totalRound: int, totalCount: int)
    requires 0 <= currentRound < totalRound <= totalCount
    ensures GetCandidateSize(currentRound, totalRound, totalCount).Returned?
    ensures GetCandidateSize(currentRound, totalRound, totalCount).value >= 2 <==> totalCount != currentRound + 1
  {
    CandidateWindowFits(currentRound, totalRound, totalCount);
    if currentRound > 0 && totalCount != currentRound + 1 {
      var m, q, p := totalCount - 1, totalRound - 1, totalRound - 1 - currentRound;
      var s := FloorPower(m, p, q);
      FloorPowerIsExact(m, p, q, s);
      PowPositive(m, p);
      if s == 0 {
        assert Pow(1, q) == 1 by { PowOfOne(q); }
      }
    }
  }

  lemma {:induction false} PowOfOne(exponent: nat)
    ensures Pow(1, exponent) == 1
  {
    if exponent > 0 {
      PowOfOne(exponent - 1);
    }
  }

  /** Some s^root lies above `low` and at or below `high`. */
  ghost predicate PowerBetween(low: nat, high: nat, root: nat) {
    exists s: nat :: low < Pow(s, root) <= high
  }

  /** The window shrinks from the first round to the second and in front of the last remaining entry.
      Between any other two rounds it shrinks if and only if a (k-1)-th power lies between the powers
      of n-1 that the two rounds take the root of. */
  lemma CandidateWindowShrinksIff(currentRound: int, totalRound: int, totalCount: int)
    requires 0 <= currentRound && currentRound + 1 < totalRound <= totalCount
    ensures GetCandidateSize(currentRound, totalRound, totalCount).Returned?
    ensures GetCandidateSize(currentRound + 1, totalRound, totalCount).Returned?
    ensures GetCandidateSize(currentRound + 1, totalRound, totalCount).value
          < GetCandidateSize(currentRound, totalRound, totalCount).value
       <==> || currentRound == 0
            || totalCount == currentRound + 2
            || PowerBetween(Pow(totalCount - 1, totalRound - 2 - currentRound),
                            Pow(totalCount - 1, totalRound - 1 - currentRound), totalRound - 1)
  {
    CandidateWindowFits(currentRound, totalRound, totalCount);
    CandidateWindowFits(currentRound + 1, totalRound, totalCount);
    if totalCount == currentRound + 2 {
      CandidateWindowAtLeastTwoIff(currentRound, totalRound, totalCount);
    } else if currentRound > 0 {
      var m, q, p := totalCount - 1, totalRound - 1, totalRound - 2 - currentRound;
      RootsDifferIff(m, p, q);
      hide FloorPower, Pow, PowerBetween;
    }
  }

  /** The integer parts of base^((p+1)/q) and base^(p/q) differ exactly if a q-th power lies between. */
  lemma RootsDifferIff(base: nat, p: nat, q: nat)
    requires base >= 1 && q >= 1
    ensures FloorPower(base, p, q) < FloorPower(base, p + 1, q) <==> PowerBetween(Pow(base, p), Pow(base, p + 1), q)
  {
    hide FloorPower, Pow;
    var early, late := FloorPower(base, p + 1, q), FloorPower(base, p, q);
    FloorPowerIsExact(base, p + 1, q, early);
    FloorPowerIsExact(base, p, q, late);
    if late < early {
      PowMonotone(late + 1, early, q);
      assert Pow(base, p) < Pow(early, q) <= Pow(base, p + 1);
    }
    if s: nat :| Pow(base, p) < Pow(s, q) <= Pow(base, p + 1) {
      if s <= late {
        PowMonotone(s, late, q);
      }
      if early < s {
        PowMonotone(early + 1, s, q);
      }
    }
  }

  /** It does stay the same at times: with five validators and four rounds, the last two
      rounds both look at two candidates. */
  lemma CandidateWindowCanRepeat()
    ensures GetCandidateSize(2, 4, 5) == GetCandidateSize(3, 4, 5) == Returned(2)
  {
    assert Pow(1, 3) == 1 && Pow(2, 3) == 8;
    assert Pow(4, 1) == 4 && Pow(4, 0) == 1;
    FloorPowerIsExact(4, 1, 3, 1);
    FloorPowerIsExact(4, 0, 3, 1);
  }
}
