/** The transition-state estimate step as a whole (`TS.prepare_ts_estimate`
    in build/lib/rmgcat_to_sella/ts_test_class.py): empty the estimate
    directory, resolve the reaction, place the candidate in every
    orientation, then drop symmetry-equivalent placements and renumber. */
module TSEstimate {
  import opened Errors
  import opened FirstSeen
  import opened Files
  import opened SpeciesResolver
  import opened CandidatePlacer
  import opened EstimateFilter

  /** The structures of the first n orientations in file order. */
  function Slots<G>(structsAt: nat -> seq<G>, n: nat): seq<G>
  {
    if n == 0 then [] else Slots(structsAt, n - 1) + structsAt(n - 1)
  }

  lemma {:induction false} SlotsLength<G>(structsAt: nat -> seq<G>, s: nat, n: nat)
    requires forall c :: 0 <= c < n ==> |structsAt(c)| == s
    ensures |Slots(structsAt, n)| == s * n
  {
    if n > 0 {
      SlotsLength(structsAt, s, n - 1);
      assert s * n == s * (n - 1) + s;
    }
  }

  /** With S sites in every orientation, file k of the placer holds the k-th
      structure in orientation-major order. */
  lemma {:induction false} PlacementIsSlot<G>(structsAt: nat -> seq<G>, nameOf: nat -> string, s: nat, n: nat, k: nat)
    requires Injective(nameOf)
    requires forall c :: 0 <= c < n ==> |structsAt(c)| == s
    requires k < s * n
    ensures |Slots(structsAt, n)| == s * n
    ensures nameOf(k) in Placements(map[], structsAt, nameOf, n)
    ensures Placements(map[], structsAt, nameOf, n)[nameOf(k)] == Slots(structsAt, n)[k]
  {
    SlotsLength(structsAt, s, n);
    SlotsLength(structsAt, s, n - 1);
    var prev := Placements(map[], structsAt, nameOf, n - 1);
    var base := s * (n - 1);
    WriteFirstContent(prev, structsAt(n - 1), base, nameOf, s);
    assert s * n == base + s;
    if k < base {
      PlacementIsSlot(structsAt, nameOf, s, n - 1, k);
      assert !NamedIn(nameOf(k), nameOf, base, base + s);
    }
  }

  /** Placing S sites in N orientations (S*N <= 1000) and then filtering
      leaves files 0 .. m-1, file j holding the j-th structure kept by the
      first-seen filter over the placements in file order. */
  lemma PlacedThenFiltered<G>(structsAt: nat -> seq<G>, rxn: string, s: nat, n: nat, compare: (G, seq<G>) -> bool)
    requires forall c :: 0 <= c < n ==> |structsAt(c)| == s
    requires s * n <= 1000
    ensures var gs := Slots(structsAt, n);
      var out := FilterOutcome(Placements(map[], structsAt, CandidateNames(rxn), n), rxn, compare);
      var kept := KeptPositions(gs, compare);
      && out.missing == [] && out.failed == None
      && (forall x :: x in out.files <==> NamedIn(x, CandidateNames(rxn), 0, |kept|))
      && forall j :: 0 <= j < |kept| ==>
           CandidateName(j, rxn) in out.files && out.files[CandidateName(j, rxn)] == gs[kept[j]]
  {
    CandidateNamesInjective(rxn);
    PlacementsKeys(structsAt, CandidateNames(rxn), s, n);
    SlotsLength(structsAt, s, n);
    var m := Placements(map[], structsAt, CandidateNames(rxn), n);
    var gs := Slots(structsAt, n);
    forall k | 0 <= k < |gs| ensures CandidateName(k, rxn) in m && m[CandidateName(k, rxn)] == gs[k] {
      PlacementIsSlot(structsAt, CandidateNames(rxn), s, n, k);
      assert CandidateNames(rxn)(k) == CandidateName(k, rxn);
    }
    FilterCandidates(m, gs, rxn, compare);
  }

  /** What the step produced. */
  datatype Estimate<I> = Estimate(prepared: Prepared<I>, plan: Plan<I>, missing: seq<string>)

  /** `prepare_ts_estimate`: the estimate directory is emptied first, so
      only this run's candidates are filtered and renumbered. The run
      succeeds exactly when there is a reaction, the candidate can be placed
      and no rename fails; a failure before the filter leaves the directory
      empty. */
  method PrepareTSEstimate<Sp, B, M, I, G>(
    dir: Directory<G>, reactions: seq<Reaction<Sp, B>>, symbolsOf: Sp -> string,
    lookup: string -> M, iso: (Sp, Sp) -> bool, place: Sp -> I, rotAngle: real,
    formulaOf: Candidate<I> -> string, atomCountOf: Candidate<I> -> nat,
    structsAt: (Candidate<I>, seq<Step>, Rule, nat) -> seq<G>, compare: (G, seq<G>) -> bool)
    returns (r: Result<Estimate<I>>)
    modifies dir
    ensures reactions == [] ==> r == Err(UnboundLocal) && dir.files == map[]
    ensures reactions != [] ==>
      var prep := PreparedOf(reactions, symbolsOf, iso, place).value;
      var plan := PlanFor(prep.rNames, prep.pNames, prep.images, rotAngle, formulaOf, atomCountOf);
      && (plan.Err? ==> r == Err(plan.error) && dir.files == map[])
      && (plan.Ok? ==>
            var p := plan.value;
            var placed := Placements(map[], (c: nat) => structsAt(p.candidate, p.steps, p.rule, c),
                                     CandidateNames(prep.rxnName), p.orientations);
            var out := FilterOutcome(placed, prep.rxnName, compare);
            && dir.files == out.files
            && (out.failed.Some? ==> r == Err(OSError))
            && (out.failed.None? ==> r == Ok(Estimate(prep, p, out.missing))))
  {
    dir.Clear();
    var prepared := PrepareReactList(reactions, symbolsOf, lookup, iso, place);
    if prepared.Err? {
      return Err(prepared.error);
    }
    var rxn := prepared.value.rxnName;
    var plan := TSPlacer(dir, rxn, prepared.value.rNames, prepared.value.pNames, prepared.value.images,
                         rotAngle, formulaOf, atomCountOf, structsAt);
    if plan.Err? {
      return Err(plan.error);
    }
    var missing, failed := FilterOutEquivalent(dir, rxn, compare);
    if failed.Some? {
      return Err(OSError);
    }
    r := Ok(Estimate(prepared.value, plan.value, missing));
  }
}
