/** Symmetry deduplication of candidate structures (`checkSymmBeforeXTB` and
    `checkSymm` in build/lib/rmgcat_to_sella/ts_test_class.py). Both read the
    structures in sorted path order (`*.xyz` in the estimate directory,
    every `.traj` file below it) and run the first-seen filter with ASE's
    `SymmetryEquivalenceCheck.compare`, here the parameter `compare`. */
module SymmetryCheck {
  import opened Text
  import opened FirstSeen

  /** `[str(k).zfill(3) for k in ks]` */
  function Indices(ks: seq<nat>): (r: seq<string>)
    ensures |r| == |ks| && forall i :: 0 <= i < |ks| ==> r[i] == ZFill3(ks[i])
  {
    seq(|ks|, i requires 0 <= i < |ks| => ZFill3(ks[i]))
  }

  /** The first loop shared by both functions: each structure is compared with
      the structures kept so far (`good_adsorbate`), and kept when the answer
      is False. */
  method CompareInOrder<G>(geoms: seq<G>, compare: (G, seq<G>) -> bool) returns (results: seq<bool>)
    ensures |results| == |geoms|
    ensures forall j :: 0 <= j < |geoms| ==> results[j] == IsDuplicate(geoms, j, compare)
  {
    var good: seq<G> := [];
    results := [];
    for t := 0 to |geoms|
      invariant good == Kept(geoms[..t], compare)
      invariant |results| == t
      invariant forall j :: 0 <= j < t ==> results[j] == IsDuplicate(geoms, j, compare)
    {
      var result := compare(geoms[t], good);
      KeptOfPrefix(geoms, t, compare);
      results := results + [result];
      if !result {
        good := good + [geoms[t]];
      }
    }
  }

  /** The verdicts of the first t positions extend one position at a time. */
  lemma PositionsStep<G>(geoms: seq<G>, t: nat, compare: (G, seq<G>) -> bool)
    requires t < |geoms|
    ensures DuplicatePositions(geoms[..t + 1], compare)
         == DuplicatePositions(geoms[..t], compare) + (if IsDuplicate(geoms, t, compare) then [t] else [])
    ensures KeptPositions(geoms[..t + 1], compare)
         == KeptPositions(geoms[..t], compare) + (if IsDuplicate(geoms, t, compare) then [] else [t])
  {
    var p := geoms[..t + 1];
    assert p[..t] == geoms[..t];
    KeptPositionsStep(geoms, t, compare);
    var ks := KeptPositions(geoms[..t], compare);
    assert Select(geoms, ks) == Select(geoms[..t], ks);
  }

  /** `checkSymmBeforeXTB`: the three-digit indices of the structures found
      equivalent to an earlier kept one. */
  method CheckSymmBeforeXTB<G>(geoms: seq<G>, compare: (G, seq<G>) -> bool) returns (notUnique: seq<string>)
    ensures notUnique == Indices(DuplicatePositions(geoms, compare))
  {
    var results := CompareInOrder(geoms, compare);
    notUnique := [];
    for num := 0 to |results|
      invariant notUnique == Indices(DuplicatePositions(geoms[..num], compare))
    {
      PositionsStep(geoms, num, compare);
      if results[num] {
        notUnique := notUnique + [ZFill3(num)];
      }
    }
    assert geoms[..|results|] == geoms;
  }

  /** `checkSymm`: the three-digit indices of the structures kept. */
  method CheckSymm<G>(geoms: seq<G>, compare: (G, seq<G>) -> bool) returns (unique: seq<string>)
    ensures unique == Indices(KeptPositions(geoms, compare))
  {
    var results := CompareInOrder(geoms, compare);
    unique := [];
    for num := 0 to |results|
      invariant unique == Indices(KeptPositions(geoms[..num], compare))
    {
      PositionsStep(geoms, num, compare);
      if !results[num] {
        unique := unique + [ZFill3(num)];
      }
    }
    assert geoms[..|results|] == geoms;
  }

  /** Over the same input the two answers are complements: every position's
      index is in exactly one of them. */
  lemma IndicesComplement<G>(geoms: seq<G>, compare: (G, seq<G>) -> bool)
    ensures forall j :: 0 <= j < |geoms| ==>
      (ZFill3(j) in Indices(KeptPositions(geoms, compare)) <==> ZFill3(j) !in Indices(DuplicatePositions(geoms, compare)))
    ensures |Indices(KeptPositions(geoms, compare))| + |Indices(DuplicatePositions(geoms, compare))| == |geoms|
  {
    Partition(geoms, compare);
    forall j, ks: seq<nat> | 0 <= j < |geoms| && ks in [KeptPositions(geoms, compare), DuplicatePositions(geoms, compare)]
      ensures ZFill3(j) in Indices(ks) <==> j in ks
    {
      if ZFill3(j) in Indices(ks) {
        var i :| 0 <= i < |ks| && Indices(ks)[i] == ZFill3(j);
        ZFill3Injective(ks[i], j);
      }
      if j in ks {
        var i :| 0 <= i < |ks| && ks[i] == j;
        assert Indices(ks)[i] == ZFill3(j);
      }
    }
  }

  /** A reported duplicate is equivalent to an earlier structure that was kept,
      and with a `compare` that never matches an empty list, index "000" is
      never reported. */
  lemma DuplicateMeaning<G(!new)>(geoms: seq<G>, compare: (G, seq<G>) -> bool, equiv: (G, G) -> bool, j: nat)
    requires MatchesSomeMember(compare, equiv) && j < |geoms|
    requires ZFill3(j) in Indices(DuplicatePositions(geoms, compare))
    ensures j > 0
    ensures exists k :: k in KeptPositions(geoms, compare) && k < j && equiv(geoms[j], geoms[k])
  {
    var ds := DuplicatePositions(geoms, compare);
    var i :| 0 <= i < |ds| && Indices(ds)[i] == ZFill3(j);
    ZFill3Injective(ds[i], j);
    assert j in ds;
    DuplicatesMatchEarlierKept(geoms, compare, equiv, j);
  }
}
