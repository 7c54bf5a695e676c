/** The in-place shuffle of the random number generators, driven by its draws. */
module Shuffle {
  import opened Bytes

  predicate Distinct<T(==)>(s: seq<T>) {
    forall i, j :: 0 <= i < j < |s| ==> s[i] != s[j]
  }

  /** The largest offset that can be drawn with `left` elements to go: 32 bits of left - 1. */
  function MaxDraw(left: nat): nat
    requires left > 0
  {
    (left - 1) % TWO32
  }

  predicate Permutes<T(==)>(s: seq<T>, p: seq<T>) {
    multiset(p) == multiset(s)
  }

  /** One draw for every position, each within the range it is drawn from. */
  predicate ValidDraws(d: seq<nat>, n: nat) {
    |d| == n && forall i :: 0 <= i < n ==> d[i] <= MaxDraw(n - i)
  }

  /** Exchange the first element with the one at `j`, then drop it. */
  function AfterSwap<T>(s: seq<T>, j: nat): (r: seq<T>)
    requires j < |s|
    ensures |r| == |s| - 1
  {
    if j == 0 then s[1..] else s[1..][j - 1 := s[0]]
  }

  function Shuffled<T>(s: seq<T>, d: seq<nat>): seq<T>
    requires ValidDraws(d, |s|)
    decreases |s|
  {
    if s == [] then [] else
      DrawInside(d, |s|);
      [s[d[0]]] + Shuffled(AfterSwap(s, d[0]), d[1..])
  }

  lemma DrawInside(d: seq<nat>, n: nat)
    requires ValidDraws(d, n) && n > 0
    ensures d[0] < n && ValidDraws(d[1..], n - 1)
  {
    forall i | 0 <= i < n - 1 ensures d[1..][i] <= MaxDraw(n - 1 - i) {
      assert d[1..][i] == d[i + 1] && d[i + 1] <= MaxDraw(n - (i + 1));
    }
  }

  lemma Regroup<T>(done: seq<T>, rest: seq<T>, d: seq<nat>)
    requires ValidDraws(d, |rest|) && rest != []
    ensures d[0] < |rest| && ValidDraws(d[1..], |rest| - 1)
    ensures done + Shuffled(rest, d) == (done + [rest[d[0]]]) + Shuffled(AfterSwap(rest, d[0]), d[1..])
  {
    ShuffledParts(rest, d);
  }

  lemma ShuffledNothing<T>(s: seq<T>, d: seq<nat>)
    requires s == [] && ValidDraws(d, 0)
    ensures Shuffled(s, d) == []
  {}

  /** After `begin` steps: the front is final, and shuffling the back completes it. */
  ghost predicate Progress<T>(m: seq<T>, draws: seq<nat>, begin: nat, whole: seq<T>) {
    && begin <= |m| == |draws| && ValidDraws(draws[begin..], |m| - begin)
    && m[..begin] + Shuffled(m[begin..], draws[begin..]) == whole
  }

  lemma ProgressStep<T>(m: seq<T>, draws: seq<nat>, begin: nat, whole: seq<T>)
    requires Progress(m, draws, begin, whole) && begin < |m|
    ensures begin + draws[begin] < |m|
    ensures var j := begin + draws[begin];
      Progress(m[begin := m[j]][j := m[begin]], draws, begin + 1, whole)
  {
    hide Shuffled, ValidDraws;
    var rest, done, d := m[begin..], m[..begin], draws[begin..];
    ShuffledParts(rest, d);
    Regroup(done, rest, d);
    var j := begin + d[0];
    var m' := m[begin := m[j]][j := m[begin]];
    assert draws[begin + 1..] == d[1..];
    assert m'[begin + 1..] == AfterSwap(rest, d[0]);
    assert m'[..begin + 1] == done + [rest[d[0]]];
  }

  lemma ProgressEnds<T>(m: seq<T>, draws: seq<nat>, whole: seq<T>)
    requires Progress(m, draws, |m|, whole)
    ensures m == whole
  {
    ShuffledNothing(m[|m|..], draws[|m|..]);
    assert m[..|m|] == m;
  }

  lemma ProgressStarts<T>(m: seq<T>, draws: seq<nat>)
    requires ValidDraws(draws, |m|)
    ensures Progress(m, draws, 0, Shuffled(m, draws))
  {
    assert m[0..] == m && draws[0..] == draws;
  }

  /** The loop over `begin`, swapping in place. */
  method Shuffle<T>(a: array<T>, draws: seq<nat>)
    requires ValidDraws(draws, a.Length)
    modifies a
    ensures a[..] == Shuffled(old(a[..]), draws)
  {
    hide Shuffled, Progress;
    ghost var whole := Shuffled(a[..], draws);
    var begin: nat := 0;
    ProgressStarts(a[..], draws);
    while begin != a.Length
      invariant begin <= a.Length && Progress(a[..], draws, begin, whole)
    {
      ProgressStep(a[..], draws, begin, whole);
      ghost var before := a[..];
      var j := begin + draws[begin];
      a[begin], a[j] := a[j], a[begin];
      assert a[..] == before[begin := before[j]][j := before[begin]];
      begin := begin + 1;
    }
    ProgressEnds(a[..], draws, whole);
  }

  /**
   What the draws mean: the result is the last of a run of sequences, each of which exchanges
   position `i` of the one before with the drawn offset behind it.
   */
  lemma ShuffledBySwaps<T>(s: seq<T>, draws: seq<nat>) returns (run: seq<seq<T>>)
    requires ValidDraws(draws, |s|)
    ensures |run| == |s| + 1 && run[0] == s && run[|s|] == Shuffled(s, draws)
    ensures forall i :: 0 <= i < |run| ==> |run[i]| == |s|
    ensures forall i :: 0 <= i < |s| ==> (
      && i + draws[i] < |s|
      && run[i + 1] == run[i][i := run[i][i + draws[i]]][i + draws[i] := run[i][i]])
  {
    hide Shuffled, Progress;
    var whole := Shuffled(s, draws);
    run := [s];
    ProgressStarts(s, draws);
    for k := 0 to |s|
      invariant |run| == k + 1 && run[0] == s && Progress(run[k], draws, k, whole)
      invariant forall i :: 0 <= i < |run| ==> |run[i]| == |s|
      invariant forall i :: 0 <= i < k ==> (
        && i + draws[i] < |s|
        && run[i + 1] == run[i][i := run[i][i + draws[i]]][i + draws[i] := run[i][i]])
    {
      ProgressStep(run[k], draws, k, whole);
      var m, j := run[k], k + draws[k];
      run := run + [m[k := m[j]][j := m[k]]];
    }
    ProgressEnds(run[|s|], draws, whole);
  }

  // ----- a permutation, whatever is drawn

  lemma SwapKeepsElements<T>(s: seq<T>, j: nat)
    requires j < |s|
    ensures multiset([s[j]] + AfterSwap(s, j)) == multiset(s)
  {
    assert s == [s[0]] + s[1..];
    if j > 0 {
      var t := s[1..];
      assert multiset(t[j - 1 := s[0]]) == multiset(t) - multiset{t[j - 1]} + multiset{s[0]};
    }
  }

  lemma {:induction false} ShuffledIsPermutation<T>(s: seq<T>, d: seq<nat>)
    requires ValidDraws(d, |s|)
    ensures |Shuffled(s, d)| == |s| && multiset(Shuffled(s, d)) == multiset(s)
    decreases |s|
  {
    if s != [] {
      DrawInside(d, |s|);
      ShuffledIsPermutation(AfterSwap(s, d[0]), d[1..]);
      SwapKeepsElements(s, d[0]);
    }
  }

  // ----- different draws, different permutations

  lemma SwapKeepsDistinct<T>(s: seq<T>, j: nat)
    requires j < |s| && Distinct(s)
    ensures Distinct(AfterSwap(s, j))
  {}

  lemma ShuffledParts<T>(s: seq<T>, d: seq<nat>)
    requires ValidDraws(d, |s|) && s != []
    ensures d[0] < |s| && ValidDraws(d[1..], |s| - 1)
    ensures Shuffled(s, d) != [] && Shuffled(s, d)[0] == s[d[0]]
    ensures Shuffled(s, d)[1..] == Shuffled(AfterSwap(s, d[0]), d[1..])
  {
    DrawInside(d, |s|);
  }

  lemma {:induction false} DrawsAreDetermined<T>(s: seq<T>, d: seq<nat>, d': seq<nat>)
    requires Distinct(s) && ValidDraws(d, |s|) && ValidDraws(d', |s|)
    requires Shuffled(s, d) == Shuffled(s, d')
    ensures d == d'
    decreases |s|
  {
    if s == [] {
      assert |d| == |d'| == 0;
    } else {
      ShuffledParts(s, d);
      ShuffledParts(s, d');
      assert d[0] == d'[0];
      SwapKeepsDistinct(s, d[0]);
      assert |d| == |d'| == |s|;
      hide Shuffled, Distinct, ValidDraws, AfterSwap;
      DrawsAreDetermined(AfterSwap(s, d[0]), d[1..], d'[1..]);
      assert d == [d[0]] + d[1..] && d' == [d'[0]] + d'[1..];
    }
  }

  // ----- every permutation is drawn, up to 2^32 elements

  function IndexOf<T(==)>(s: seq<T>, x: T): (i: nat)
    requires x in s
    ensures i < |s| && s[i] == x
  {
    if s[0] == x then 0 else 1 + IndexOf(s[1..], x)
  }

  lemma CancelHead<T>(x: T, a: seq<T>, b: seq<T>)
    requires multiset([x] + a) == multiset([x] + b)
    ensures multiset(a) == multiset(b)
  {
    assert multiset(a) == multiset([x] + a) - multiset{x};
    assert multiset(b) == multiset([x] + b) - multiset{x};
  }

  /** Where the first element of the permutation has to come from, and what is left to permute. */
  lemma FirstDraw<T>(s: seq<T>, p: seq<T>) returns (j: nat)
    requires Distinct(s) && multiset(p) == multiset(s) && s != []
    ensures p != [] && j < |s| && s[j] == p[0]
    ensures Distinct(AfterSwap(s, j)) && multiset(p[1..]) == multiset(AfterSwap(s, j))
  {
    assert |p| == |multiset(p)| == |multiset(s)| == |s|;
    assert p[0] in multiset(p);
    assert p[0] in s;
    j := IndexOf(s, p[0]);
    SwapKeepsElements(s, j);
    SwapKeepsDistinct(s, j);
    assert p == [p[0]] + p[1..];
    hide Distinct, AfterSwap;
    CancelHead(p[0], p[1..], AfterSwap(s, j));
  }

  lemma PrependDraw<T>(s: seq<T>, j: nat, tail: seq<nat>)
    requires j < |s| <= TWO32 && ValidDraws(tail, |s| - 1)
    ensures ValidDraws([j] + tail, |s|)
    ensures Shuffled(s, [j] + tail) == [s[j]] + Shuffled(AfterSwap(s, j), tail)
  {
    var d := [j] + tail;
    assert d[1..] == tail;
    forall i | 0 <= i < |s| ensures d[i] <= MaxDraw(|s| - i) {
      if i > 0 {
        assert d[i] == tail[i - 1] && tail[i - 1] <= MaxDraw(|s| - 1 - (i - 1));
      }
    }
  }

  /** The draws that produce `p`, read off position by position. */
  lemma {:induction false} EveryPermutationIsDrawn<T>(s: seq<T>, p: seq<T>) returns (d: seq<nat>)
    requires Distinct(s) && multiset(p) == multiset(s) && |s| <= TWO32
    ensures ValidDraws(d, |s|) && Shuffled(s, d) == p
    decreases |s|
  {
    if s == [] {
      assert |p| == |multiset(p)| == |multiset(s)| == 0;
      d := [];
    } else {
      var j := FirstDraw(s, p);
      hide *;
      var tail := EveryPermutationIsDrawn(AfterSwap(s, j), p[1..]);
      PrependDraw(s, j, tail);
      d := [j] + tail;
      assert p == [p[0]] + p[1..];
    }
  }

  /**
   The claim of a uniform permutation amounts to this: exactly one sequence of draws for every
   permutation. It holds for every array of distinct elements up to 2^32 of them.
   */
  lemma DrawsCorrespondToPermutations<T(!new)>(s: seq<T>)
    requires Distinct(s) && |s| <= TWO32
    ensures forall d :: ValidDraws(d, |s|) ==> Permutes(s, Shuffled(s, d))
    ensures forall p :: Permutes(s, p) ==> exists d :: ValidDraws(d, |s|) && Shuffled(s, d) == p
    ensures forall d, d' :: ValidDraws(d, |s|) && ValidDraws(d', |s|) && Shuffled(s, d) == Shuffled(s, d') ==> d == d'
  {
    forall d | ValidDraws(d, |s|) ensures Permutes(s, Shuffled(s, d)) {
      ShuffledIsPermutation(s, d);
    }
    forall p | Permutes(s, p) ensures exists d :: ValidDraws(d, |s|) && Shuffled(s, d) == p {
      var d := EveryPermutationIsDrawn(s, p);
    }
    forall d, d' | ValidDraws(d, |s|) && ValidDraws(d', |s|) && Shuffled(s, d) == Shuffled(s, d') ensures d == d' {
      DrawsAreDetermined(s, d, d');
    }
  }

  /** Beyond 2^32 elements no draw ever brings the last element to the front. */
  lemma LargeArraysMissPermutations<T>(s: seq<T>, d: seq<nat>)
    requires Distinct(s) && |s| > TWO32 && ValidDraws(d, |s|)
    ensures Shuffled(s, d) != [] && Shuffled(s, d)[0] != s[|s| - 1]
  {
    DrawInside(d, |s|);
    assert d[0] <= MaxDraw(|s| - 0);
  }

  /** So the permutations are all reachable exactly up to 2^32 elements. */
  lemma ReachableExactlyUpTo32Bits<T(!new)>(s: seq<T>)
    requires Distinct(s)
    ensures (forall p :: Permutes(s, p) ==> exists d :: ValidDraws(d, |s|) && Shuffled(s, d) == p)
       <==> |s| <= TWO32
  {
    hide Shuffled, ValidDraws, Distinct;
    if |s| <= TWO32 {
      DrawsCorrespondToPermutations(s);
    } else {
      var n := |s| - 1;
      var p := [s[n]] + s[..n];
      assert s == s[..n] + [s[n]];
      assert Permutes(s, p);
      forall d | ValidDraws(d, |s|) ensures Shuffled(s, d) != p {
        LargeArraysMissPermutations(s, d);
      }
    }
  }
}
