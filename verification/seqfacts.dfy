/** Order and distinctness facts about integer sequences, used for the constant tables. */
module SeqFacts {
  import opened Wrappers

  /** Each element is smaller than the next one. */
  predicate AdjacentAscending(s: seq<int>)
  {
    forall i | 0 <= i < |s| - 1 :: s[i] < s[i + 1]
  }

  /** Any earlier element is smaller than any later one. */
  predicate StrictlyAscending(s: seq<int>)
  {
    forall i, j | 0 <= i < j < |s| :: s[i] < s[j]
  }

  /** No value occurs twice. */
  predicate Distinct(s: seq<int>)
  {
    forall i, j | 0 <= i < |s| && 0 <= j < |s| && i != j :: s[i] != s[j]
  }

  /** Every element lies in [lo, hi). */
  predicate AllWithin(s: seq<int>, lo: int, hi: int)
  {
    forall i | 0 <= i < |s| :: lo <= s[i] < hi
  }

  lemma {:induction false} AdjacentGivesStrict(s: seq<int>)
    requires AdjacentAscending(s)
    ensures StrictlyAscending(s)
    decreases |s|
  {
    if |s| > 1 {
      var front := s[..|s| - 1];
      assert AdjacentAscending(front) by {
        forall i | 0 <= i < |front| - 1 ensures front[i] < front[i + 1] {
          assert front[i] == s[i] && front[i + 1] == s[i + 1];
        }
      }
      AdjacentGivesStrict(front);
      forall i, j | 0 <= i < j < |s| ensures s[i] < s[j] {
        if j < |s| - 1 {
          assert s[i] == front[i] && s[j] == front[j];
        } else if i < j - 1 {
          assert s[i] == front[i] && s[j - 1] == front[j - 1];
        }
      }
    }
  }

  /** Joining two ascending runs where the first ends below where the second starts. */
  lemma AdjacentAscendingJoin(a: seq<int>, b: seq<int>)
    requires AdjacentAscending(a) && AdjacentAscending(b)
    requires |a| > 0 && |b| > 0 && a[|a| - 1] < b[0]
    ensures AdjacentAscending(a + b)
  {
    forall i | 0 <= i < |a + b| - 1 ensures (a + b)[i] < (a + b)[i + 1] {
      if i < |a| - 1 {
      } else if i == |a| - 1 {
      } else {
        assert (a + b)[i] == b[i - |a|] && (a + b)[i + 1] == b[i - |a| + 1];
      }
    }
  }

  /** A strictly ascending sequence is duplicate-free. */
  lemma StrictlyAscendingDistinct(s: seq<int>)
    requires StrictlyAscending(s)
    ensures Distinct(s)
  {
    forall i, j | 0 <= i < |s| && 0 <= j < |s| && i != j ensures s[i] != s[j] {
      if i < j { assert s[i] < s[j]; } else { assert s[j] < s[i]; }
    }
  }

  /** A value strictly between two neighbours of an ascending sequence does not occur in it. */
  lemma {:induction false} GapNotMember(s: seq<int>, k: nat, x: int)
    requires StrictlyAscending(s)
    requires k + 1 < |s| && s[k] < x < s[k + 1]
    ensures x !in s
  {
    forall i | 0 <= i < |s| ensures s[i] != x {
      if i <= k {
        if i < k { assert s[i] < s[k]; }
      } else {
        if i > k + 1 { assert s[k + 1] < s[i]; }
      }
    }
  }

  /** Two duplicate-free sequences with no value in common join into a duplicate-free one. */
  lemma DistinctJoin(a: seq<int>, b: seq<int>)
    requires Distinct(a) && Distinct(b)
    requires forall i | 0 <= i < |b| :: b[i] !in a
    ensures Distinct(a + b)
  {
    var s := a + b;
    forall i, j | 0 <= i < |s| && 0 <= j < |s| && i != j ensures s[i] != s[j] {
      if i < |a| && j < |a| {
      } else if i >= |a| && j >= |a| {
        assert s[i] == b[i - |a|] && s[j] == b[j - |a|];
      } else if i < |a| {
        assert s[j] == b[j - |a|] && s[i] == a[i];
      } else {
        assert s[i] == b[i - |a|] && s[j] == a[j];
      }
    }
  }

  lemma AllWithinJoin(a: seq<int>, b: seq<int>, lo: int, hi: int)
    requires AllWithin(a, lo, hi) && AllWithin(b, lo, hi)
    ensures AllWithin(a + b, lo, hi)
  {
  }

  /** An ascending sequence lies between its first and its last element. */
  lemma AscendingWithin(s: seq<int>)
    requires StrictlyAscending(s) && |s| > 0
    ensures AllWithin(s, s[0], s[|s| - 1] + 1)
  {
    forall i | 0 < i < |s| - 1 ensures s[0] <= s[i] <= s[|s| - 1] {
      assert s[0] < s[i];
    }
  }

  /** The position of the last occurrence of `x` in `s`, if there is one. */
  function LastIndexOf(s: seq<int>, x: int): (k: Option<nat>)
    ensures k.Some? ==> k.value < |s| && s[k.value] == x
    ensures k.Some? ==> forall j | k.value < j < |s| :: s[j] != x
    ensures k.None? <==> x !in s
  {
    if |s| == 0 then None
    else if s[|s| - 1] == x then Some(|s| - 1)
    else LastIndexOf(s[..|s| - 1], x)
  }

  /** In a duplicate-free sequence every element is found at its own position. */
  lemma LastIndexOfDistinct(s: seq<int>, i: nat)
    requires Distinct(s) && i < |s|
    ensures LastIndexOf(s, s[i]) == Some(i)
  {
  }
}
