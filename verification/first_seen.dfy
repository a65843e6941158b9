/** The order-dependent "first seen wins" filter that the pipeline runs twice:
    over parsed species with a graph-isomorphism test, and over candidate
    structures with a symmetry-equivalence test. Elements are visited in
    order; each is compared against the list of elements kept so far and is
    kept exactly when the comparison reports no match.

    `compare(x, kept)` is the external test. For the structure filter it is
    ASE's `SymmetryEquivalenceCheck.compare`, which is read as "x is
    equivalent to some member of kept"; `MatchesSomeMember` states that
    reading and `EmptyNeverMatches` its consequence for an empty list. */
module FirstSeen {

  /** `[xs[k] for k in ks]` */
  function Select<T>(xs: seq<T>, ks: seq<nat>): (r: seq<T>)
    requires forall i :: 0 <= i < |ks| ==> ks[i] < |xs|
    ensures |r| == |ks| && forall i :: 0 <= i < |ks| ==> r[i] == xs[ks[i]]
  {
    seq(|ks|, i requires 0 <= i < |ks| => xs[ks[i]])
  }

  lemma SelectSnoc<T>(xs: seq<T>, ks: seq<nat>, t: nat)
    requires forall i :: 0 <= i < |ks| ==> ks[i] < |xs|
    requires t < |xs|
    ensures Select(xs, ks + [t]) == Select(xs, ks) + [xs[t]]
  {
  }

  /** Selecting below n reads the same from the list and from its first n elements. */
  lemma SelectPrefix<T>(xs: seq<T>, ks: seq<nat>, n: nat)
    requires n <= |xs| && forall i :: 0 <= i < |ks| ==> ks[i] < n
    ensures Select(xs, ks) == Select(xs[..n], ks)
  {
  }

  predicate Increasing(ks: seq<nat>)
  {
    forall i, j :: 0 <= i < j < |ks| ==> ks[i] < ks[j]
  }

  /** The positions the filter keeps, in visiting order. */
  function KeptPositions<T>(xs: seq<T>, compare: (T, seq<T>) -> bool): (ks: seq<nat>)
    ensures forall i :: 0 <= i < |ks| ==> ks[i] < |xs|
    ensures Increasing(ks)
  {
    if xs == [] then []
    else
      var n := |xs| - 1;
      var ks := KeptPositions(xs[..n], compare);
      if compare(xs[n], Select(xs, ks)) then ks else ks + [n]
  }

  /** The kept elements (`good_adsorbate` at the end of the loop). */
  function Kept<T>(xs: seq<T>, compare: (T, seq<T>) -> bool): seq<T>
  {
    Select(xs, KeptPositions(xs, compare))
  }

  /** The verdict the filter records for position j (`result_list[j]`). */
  predicate IsDuplicate<T>(xs: seq<T>, j: nat, compare: (T, seq<T>) -> bool)
    requires j < |xs|
  {
    compare(xs[j], Kept(xs[..j], compare))
  }

  /** The positions whose verdict is "duplicate", in visiting order. */
  function DuplicatePositions<T>(xs: seq<T>, compare: (T, seq<T>) -> bool): (ds: seq<nat>)
    ensures forall i :: 0 <= i < |ds| ==> ds[i] < |xs|
    ensures Increasing(ds)
  {
    if xs == [] then []
    else
      var n := |xs| - 1;
      DuplicatePositions(xs[..n], compare) + (if IsDuplicate(xs, n, compare) then [n] else [])
  }

  /** Extending the input by one element keeps the filter's earlier decisions. */
  lemma KeptOfPrefix<T>(xs: seq<T>, n: nat, compare: (T, seq<T>) -> bool)
    requires n < |xs|
    ensures Kept(xs[..n + 1], compare)
         == if IsDuplicate(xs, n, compare) then Kept(xs[..n], compare)
            else Kept(xs[..n], compare) + [xs[n]]
  {
    var p := xs[..n + 1];
    assert p[..n] == xs[..n];
    var ks := KeptPositions(xs[..n], compare);
    assert Select(p, ks) == Select(xs[..n], ks);
  }

  /** Visiting one more element either keeps it or not; earlier positions are unchanged. */
  lemma KeptPositionsStep<T>(xs: seq<T>, t: nat, compare: (T, seq<T>) -> bool)
    requires t < |xs|
    ensures var ks := KeptPositions(xs[..t], compare);
      KeptPositions(xs[..t + 1], compare)
        == if compare(xs[t], Select(xs, ks)) then ks else ks + [t]
  {
    var p := xs[..t + 1];
    assert p[..t] == xs[..t];
    var ks := KeptPositions(xs[..t], compare);
    assert Select(p, ks) == Select(xs, ks);
  }

  /** A position is kept exactly when the comparison with what was kept before it fails. */
  lemma {:induction false} KeptIffNotDuplicate<T>(xs: seq<T>, j: nat, compare: (T, seq<T>) -> bool)
    requires j < |xs|
    ensures j in KeptPositions(xs, compare) <==> !IsDuplicate(xs, j, compare)
  {
    var n := |xs| - 1;
    var p := xs[..n];
    var ks := KeptPositions(p, compare);
    assert Select(xs, ks) == Select(p, ks);
    if j < n {
      assert p[..j] == xs[..j];
      KeptIffNotDuplicate(p, j, compare);
    } else {
      assert j !in ks;
    }
  }

  lemma {:induction false} DuplicateIff<T>(xs: seq<T>, j: nat, compare: (T, seq<T>) -> bool)
    requires j < |xs|
    ensures j in DuplicatePositions(xs, compare) <==> IsDuplicate(xs, j, compare)
  {
    var n := |xs| - 1;
    var p := xs[..n];
    if j < n {
      assert p[..j] == xs[..j];
      DuplicateIff(p, j, compare);
    } else {
      assert j !in DuplicatePositions(p, compare);
    }
  }

  /** The kept and the duplicate positions split 0..|xs|-1 into two disjoint parts. */
  lemma Partition<T>(xs: seq<T>, compare: (T, seq<T>) -> bool)
    ensures forall j :: 0 <= j < |xs| ==>
      (j in KeptPositions(xs, compare) <==> j !in DuplicatePositions(xs, compare))
    ensures |KeptPositions(xs, compare)| + |DuplicatePositions(xs, compare)| == |xs|
  {
    forall j | 0 <= j < |xs|
      ensures j in KeptPositions(xs, compare) <==> j !in DuplicatePositions(xs, compare)
    {
      KeptIffNotDuplicate(xs, j, compare);
      DuplicateIff(xs, j, compare);
    }
    PartitionSize(xs, compare);
  }

  lemma {:induction false} PartitionSize<T>(xs: seq<T>, compare: (T, seq<T>) -> bool)
    ensures |KeptPositions(xs, compare)| + |DuplicatePositions(xs, compare)| == |xs|
  {
    if xs != [] {
      var n := |xs| - 1;
      PartitionSize(xs[..n], compare);
      KeptOfPrefix(xs, n, compare);
      assert xs[..n + 1] == xs;
      var ks := KeptPositions(xs[..n], compare);
      assert Select(xs, ks) == Kept(xs[..n], compare) by {
        assert Select(xs, ks) == Select(xs[..n], ks);
      }
    }
  }

  ghost predicate EmptyNeverMatches<T(!new)>(compare: (T, seq<T>) -> bool)
  {
    forall x :: !compare(x, [])
  }

  /** The first element is always kept when nothing matches an empty list. */
  lemma FirstIsKept<T(!new)>(xs: seq<T>, compare: (T, seq<T>) -> bool)
    requires EmptyNeverMatches(compare) && |xs| > 0
    ensures |KeptPositions(xs, compare)| > 0 && KeptPositions(xs, compare)[0] == 0
  {
    KeptIffNotDuplicate(xs, 0, compare);
    assert Kept(xs[..0], compare) == [];
    var ks := KeptPositions(xs, compare);
    var i :| 0 <= i < |ks| && ks[i] == 0;
    assert i == 0;
  }

  /** `compare(x, kept)` means: x is equivalent to some member of kept. */
  ghost predicate MatchesSomeMember<T(!new)>(compare: (T, seq<T>) -> bool, equiv: (T, T) -> bool)
  {
    forall x, ks :: compare(x, ks) <==> exists u :: u in ks && equiv(x, u)
  }

  /** Under that reading, a kept element is not equivalent to any element kept before it,
      and a duplicate is equivalent to an element kept before it: a later candidate is
      the one discarded, never the earlier one. */
  lemma DuplicatesMatchEarlierKept<T(!new)>(xs: seq<T>, compare: (T, seq<T>) -> bool,
                                            equiv: (T, T) -> bool, j: nat)
    requires MatchesSomeMember(compare, equiv) && j < |xs|
    ensures j in KeptPositions(xs, compare) ==>
      forall k :: k in KeptPositions(xs, compare) && k < j ==> !equiv(xs[j], xs[k])
    ensures j in DuplicatePositions(xs, compare) ==>
      exists k :: k in KeptPositions(xs, compare) && k < j && equiv(xs[j], xs[k])
  {
    KeptIffNotDuplicate(xs, j, compare);
    DuplicateIff(xs, j, compare);
    var before := KeptPositions(xs[..j], compare);
    KeptPositionsPrefix(xs, j, compare);
    assert Kept(xs[..j], compare) == Select(xs, before) by {
      assert Select(xs[..j], before) == Select(xs, before);
    }
    var ks := KeptPositions(xs, compare);
    forall k | k in ks && k < j ensures k in before {
    }
    if j in DuplicatePositions(xs, compare) {
      var u :| u in Select(xs, before) && equiv(xs[j], u);
      var i :| 0 <= i < |before| && Select(xs, before)[i] == u;
      assert before[i] in ks && before[i] < j;
    }
  }

  /** The positions kept from a prefix are exactly the kept positions below its length. */
  lemma {:induction false} KeptPositionsPrefix<T>(xs: seq<T>, j: nat, compare: (T, seq<T>) -> bool)
    requires j <= |xs|
    ensures forall k :: k in KeptPositions(xs[..j], compare) <==> k in KeptPositions(xs, compare) && k < j
    decreases |xs| - j
  {
    if j < |xs| {
      KeptPositionsPrefix(xs, j + 1, compare);
      KeptPositionsStep(xs, j, compare);
    } else {
      assert xs[..j] == xs;
    }
  }

  /** With an equivalence relation, every kept element is the first of its class. */
  lemma KeptIsFirstOfClass<T(!new)>(xs: seq<T>, compare: (T, seq<T>) -> bool,
                                    equiv: (T, T) -> bool, k: nat, j: nat)
    requires MatchesSomeMember(compare, equiv)
    requires forall a, b, c :: equiv(a, b) && equiv(b, c) ==> equiv(a, c)
    requires k in KeptPositions(xs, compare) && j < k
    ensures !equiv(xs[k], xs[j])
  {
    DuplicatesMatchEarlierKept(xs, compare, equiv, k);
    Partition(xs, compare);
    if j !in KeptPositions(xs, compare) {
      DuplicatesMatchEarlierKept(xs, compare, equiv, j);
      var m :| m in KeptPositions(xs, compare) && m < j && equiv(xs[j], xs[m]);
      var a, b, c := xs[k], xs[j], xs[m];
      assert equiv(a, b) ==> equiv(a, c);
    }
  }
}
