/** Placement of the transition-state candidate on the slab (`TS.TS_placer`
    in build/lib/rmgcat_to_sella/ts_test_class.py): the choice of the
    candidate, the per-formula rule table, the rigid reorientation before
    placement, and the orientation loop that writes the numbered candidate
    files `NNN_<rxn_name>.xyz`.

    Geometry stays opaque: the chemical formula and atom count of the
    candidate are parameters, the reorientation is described as a list of
    steps, and `structsAt(c)` stands for the adsorbed structures that
    `Builder.add_adsorbate` returns for the candidate after `c` further
    rotations by `rotAngle` about z, already combined with the repeated slab. */
module CandidatePlacer {
  import opened Errors
  import opened Text
  import opened Files
  import opened SpeciesResolver

  /** Where `TS_candidate` comes from. */
  datatype Candidate<I> =
    | Molecule(name: string)   // `molecule(name)[0]` from ASE's database
    | Image(image: I)          // an entry of `images` from the reaction document

  /** The candidate of lines 142-148: a database molecule named by the first
      reactant when there are no more reactants than products, otherwise the
      third image. */
  function CandidateSource<I>(rNames: seq<string>, pNames: seq<string>, images: seq<I>): (r: Result<Candidate<I>>)
  {
    if |rNames| <= |pNames| then
      if rNames == [] then Err(IndexError) else Ok(Molecule(rNames[0]))
    else
      if |images| < 3 then Err(IndexError) else Ok(Image(images[2]))
  }

  /** The candidate side and the enumeration side disagree exactly on a tie:
      `rpDir` is then products, but the candidate is the first reactant. */
  lemma CandidateSide<I>(rNames: seq<string>, pNames: seq<string>, images: seq<I>)
    requires rNames != [] && |images| >= 3
    ensures CandidateSource(rNames, pNames, images).Ok?
    ensures CandidateSource(rNames, pNames, images).value.Molecule?
            <==> |rNames| <= |pNames|
    ensures CandidateSource(rNames, pNames, images).value.Molecule?
            ==> CandidateSource(rNames, pNames, images).value.name == rNames[0]
    ensures |rNames| == |pNames| ==>
      CandidateSource(rNames, pNames, images) == Ok(Molecule(rNames[0]))
      && EnumerationSide(|rNames|, |pNames|) == Products
  {
  }

  // ---------------------------------------------------------------------
  // Rule table

  /** Which atoms form the bond that is rescaled (`atom1`, `atom2`), the third
      atom of the bent angle (`atom0`, only for C2H5O2) and the atoms the
      adsorbate binds through (`bondedThrough`). */
  datatype Rule = Rule(atom0: Option<nat>, atom1: nat, atom2: nat, bondedThrough: seq<nat>)

  function RuleFor(formula: string): (r: Rule)
    ensures r.atom1 < r.atom2 && |r.bondedThrough| == 1
    ensures r.atom0.Some? <==> formula == "C2H5O2"
    ensures r.atom0.Some? ==> r.atom0.value < r.atom1
    ensures formula !in {"CHO", "COH", "CHO2", "C2H5O2"} ==> r == Rule(None, 0, 1, [0])
  {
    if formula == "CHO" || formula == "COH" then Rule(None, 0, 2, [0])
    else if formula == "CHO2" then Rule(None, 0, 1, [2])
    else if formula == "C2H5O2" then Rule(Some(0), 1, 5, [6])
    else Rule(None, 0, 1, [0])
  }

  datatype Axis = Y | Z

  /** One rigid or internal change of the candidate before placement. */
  datatype Step =
    | Rotate(degrees: int, axis: Axis)
      /** `set_distance(a1, a2, bondlen * scfactor, fix, indices)`: the bond is set
          to `scfactor` times its length before the reorientation; `moved` is
          `None` when every atom may move. */
    | ScaleBond(a1: nat, a2: nat, fix: nat, moved: Option<seq<nat>>)
      /** `set_angle(moving, vertex, fixed, degrees, indices, add=True)` */
    | AddAngle(moving: nat, vertex: nat, fixed: nat, degrees: int, indices: seq<nat>)

  /** The reorientation of lines 179-197. The atom count decides first; only
      for more than three atoms does the formula matter. */
  function Reorientation(atomCount: nat, formula: string): (steps: seq<Step>)
    ensures steps == [] <==> atomCount > 3 && formula != "C2H5O2" && formula != "CHO2"
    ensures steps != [] ==> steps[0] == Rotate(90, if atomCount < 3 then Y else Z)
    ensures steps != [] ==> steps[|steps| - 1].ScaleBond?
    ensures forall k :: 0 <= k < |steps| && steps[k].ScaleBond? ==>
      steps[k].a1 == RuleFor(formula).atom1 && steps[k].a2 == RuleFor(formula).atom2
    ensures forall k :: 0 < k < |steps| - 1 ==>
      formula == "C2H5O2" && steps[k] == AddAngle(5, 1, 0, -45, [0, 1, 2, 3, 4])
  {
    var rule := RuleFor(formula);
    if atomCount < 3 then
      [Rotate(90, Y), ScaleBond(rule.atom1, rule.atom2, 0, None)]
    else if atomCount == 3 then
      [Rotate(90, Z), ScaleBond(rule.atom1, rule.atom2, 0, None)]
    else if formula == "C2H5O2" then
      [Rotate(90, Z),
       AddAngle(rule.atom2, rule.atom1, rule.atom0.value, -45, [0, 1, 2, 3, 4]),
       ScaleBond(rule.atom1, rule.atom2, 1, Some([0, 1, 2, 3, 4]))]
    else if formula == "CHO2" then
      [Rotate(90, Z), ScaleBond(rule.atom1, rule.atom2, 0, None)]
    else
      []
  }

  // ---------------------------------------------------------------------
  // Orientation count and file names

  /** The number of passes of `while count <= 360 / rotAngle - 1` with count
      starting at 0: the floor of 360 / rotAngle, or none when that is
      negative. Python raises on a zero angle. */
  function OrientationCount(rotAngle: real): (r: Result<nat>)
    ensures r.Err? <==> rotAngle == 0.0
    ensures r.Ok? ==> r.value as real <= 360.0 / rotAngle || r.value == 0
    ensures r.Ok? ==> 360.0 / rotAngle < r.value as real + 1.0
  {
    if rotAngle == 0.0 then Err(ZeroDivision)
    else
      var f := (360.0 / rotAngle).Floor;
      Ok(if f < 0 then 0 else f)
  }

  /** For a positive whole angle the loop runs `360 div rotAngle` times. */
  lemma OrientationCountWhole(rotAngle: nat)
    requires rotAngle > 0
    ensures OrientationCount(rotAngle as real) == Ok(360 / rotAngle)
  {
    var q, m := 360 / rotAngle, 360 % rotAngle;
    var r := rotAngle as real;
    assert 360 == q * rotAngle + m;
    assert (q as real) * r <= 360.0 < (q as real + 1.0) * r;
    assert q as real <= 360.0 / r < q as real + 1.0;
  }

  /** `str(n).zfill(3) + '_' + rxn_name + '.xyz'` */
  function CandidateName(n: nat, rxn: string): string
  {
    ZFill3(n) + "_" + rxn + ".xyz"
  }

  function CandidateNames(rxn: string): nat -> string
  {
    (k: nat) => CandidateName(k, rxn)
  }

  /** Different numbers give different file names. */
  lemma CandidateNameInjective(a: nat, b: nat, rxn: string)
    requires CandidateName(a, rxn) == CandidateName(b, rxn)
    ensures a == b
  {
    var za, zb := ZFill3(a), ZFill3(b);
    var na, nb := CandidateName(a, rxn), CandidateName(b, rxn);
    assert na[|za|] == '_' && nb[|zb|] == '_';
    assert |za| == |zb|;
    assert za == na[..|za|] && zb == nb[..|zb|];
    ZFill3Injective(a, b);
  }

  /** Below 1000 the file names sort like their numbers. */
  lemma CandidateNameOrder(a: nat, b: nat, rxn: string)
    requires a < b < 1000
    ensures Less(CandidateName(a, rxn), CandidateName(b, rxn))
  {
    assert CandidateName(a, rxn) == ZFill3(a) + ("_" + rxn + ".xyz");
    assert CandidateName(b, rxn) == ZFill3(b) + ("_" + rxn + ".xyz");
    ZFill3Order(a, b, "_" + rxn + ".xyz", "_" + rxn + ".xyz");
  }

  /** From 1000 on the order breaks: `1000_<rxn>.xyz` sorts before
      `100_<rxn>.xyz`, since '0' comes before '_'. */
  lemma CandidateNameThousandFirst(rxn: string)
    ensures Less(CandidateName(1000, rxn), CandidateName(100, rxn))
  {
    assert NatToString(1) == "1";
    assert NatToString(10) == "10";
    assert NatToString(100) == "100";
    assert NatToString(1000) == "1000";
    var a, b := CandidateName(1000, rxn), CandidateName(100, rxn);
    assert a == "1000" + "_" + rxn + ".xyz" && b == "100" + "_" + rxn + ".xyz";
    assert a[3..][1..] == a[4..] && b[3..][1..] == b[4..];
    assert Less(a[3..], b[3..]);
    assert a[2..][1..] == a[3..] && b[2..][1..] == b[3..];
    assert a[1..][1..] == a[2..] && b[1..][1..] == b[2..];
  }

  // ---------------------------------------------------------------------
  // The files the loop writes

  /** The directory after the inner loop has written the first n structures of
      one orientation, numbered from `base` on; `nameOf(k)` is the name of file k. */
  function WriteFirst<G>(m: map<string, G>, structs: seq<G>, base: nat, nameOf: nat -> string, n: nat): map<string, G>
    requires n <= |structs|
  {
    if n == 0 then m
    else WriteFirst(m, structs, base, nameOf, n - 1)[nameOf(base + n - 1) := structs[n - 1]]
  }

  /** The directory after the first n orientations; orientation c numbers its
      structures from `len(structs) * c`. */
  function Placements<G>(m: map<string, G>, structsAt: nat -> seq<G>, nameOf: nat -> string, n: nat): map<string, G>
  {
    if n == 0 then m
    else
      var structs := structsAt(n - 1);
      WriteFirst(Placements(m, structsAt, nameOf, n - 1), structs, |structs| * (n - 1), nameOf, |structs|)
  }

  ghost predicate Injective(nameOf: nat -> string)
  {
    forall a, b :: nameOf(a) == nameOf(b) ==> a == b
  }

  /** x is the name of one of the files numbered lo .. hi-1. */
  ghost predicate NamedIn(x: string, nameOf: nat -> string, lo: nat, hi: nat)
  {
    exists k :: lo <= k < hi && x == nameOf(k)
  }

  lemma {:induction false} WriteFirstContent<G>(m: map<string, G>, structs: seq<G>, base: nat, nameOf: nat -> string, n: nat)
    requires n <= |structs| && Injective(nameOf)
    ensures forall x :: x in WriteFirst(m, structs, base, nameOf, n) <==> x in m || NamedIn(x, nameOf, base, base + n)
    ensures forall k :: base <= k < base + n ==>
      nameOf(k) in WriteFirst(m, structs, base, nameOf, n)
      && WriteFirst(m, structs, base, nameOf, n)[nameOf(k)] == structs[k - base]
    ensures forall x :: x in m && !NamedIn(x, nameOf, base, base + n) ==>
      WriteFirst(m, structs, base, nameOf, n)[x] == m[x]
  {
    if n > 0 {
      WriteFirstContent(m, structs, base, nameOf, n - 1);
      var w := WriteFirst(m, structs, base, nameOf, n);
      var last := nameOf(base + n - 1);
      forall x ensures x in w <==> x in m || NamedIn(x, nameOf, base, base + n) {
        if NamedIn(x, nameOf, base, base + n) && x != last {
          var k :| base <= k < base + n && x == nameOf(k);
          assert NamedIn(x, nameOf, base, base + n - 1);
        }
      }
      forall x | x in m && !NamedIn(x, nameOf, base, base + n) ensures w[x] == m[x] {
        assert !NamedIn(x, nameOf, base, base + n - 1);
        assert x != last by {
          assert !(base <= base + n - 1 < base + n && x == nameOf(base + n - 1));
        }
      }
    }
  }

  lemma {:induction false} MulStep(s: nat, c: nat, n: nat)
    requires c < n
    ensures s * c + s <= s * n
    decreases n - c
  {
    assert s * (c + 1) == s * c + s;
    if c + 1 < n {
      MulStep(s, c + 1, n);
    }
  }

  /** With S structures for every orientation, N orientations write exactly
      the files numbered 0 .. S*N-1. */
  lemma {:induction false} PlacementsKeys<G>(structsAt: nat -> seq<G>, nameOf: nat -> string, s: nat, n: nat)
    requires Injective(nameOf)
    requires forall c :: 0 <= c < n ==> |structsAt(c)| == s
    ensures forall x :: x in Placements(map[], structsAt, nameOf, n) <==> NamedIn(x, nameOf, 0, s * n)
  {
    if n > 0 {
      PlacementsKeys(structsAt, nameOf, s, n - 1);
      var prev := Placements(map[], structsAt, nameOf, n - 1);
      var base := s * (n - 1);
      WriteFirstContent(prev, structsAt(n - 1), base, nameOf, s);
      var p := Placements(map[], structsAt, nameOf, n);
      assert s * n == base + s;
      forall x ensures x in p <==> NamedIn(x, nameOf, 0, s * n) {
        if NamedIn(x, nameOf, 0, s * n) {
          var k :| 0 <= k < s * n && x == nameOf(k);
          if k < base {
            assert NamedIn(x, nameOf, 0, base);
          } else {
            assert NamedIn(x, nameOf, base, base + s);
          }
        }
        if NamedIn(x, nameOf, 0, base) {
          var k :| 0 <= k < base && x == nameOf(k);
          assert NamedIn(x, nameOf, 0, s * n);
        }
        if NamedIn(x, nameOf, base, base + s) {
          var k :| base <= k < base + s && x == nameOf(k);
          assert NamedIn(x, nameOf, 0, s * n);
        }
      }
    }
  }

  /** ... and file `i + S*c` holds structure i of orientation c: no later
      write replaces it. */
  lemma {:induction false} PlacementsValue<G>(structsAt: nat -> seq<G>, nameOf: nat -> string, s: nat, n: nat,
                                             c: nat, i: nat)
    requires Injective(nameOf)
    requires forall c :: 0 <= c < n ==> |structsAt(c)| == s
    requires c < n && i < s
    ensures nameOf(i + s * c) in Placements(map[], structsAt, nameOf, n)
    ensures Placements(map[], structsAt, nameOf, n)[nameOf(i + s * c)] == structsAt(c)[i]
  {
    var k := i + s * c;
    var prev := Placements(map[], structsAt, nameOf, n - 1);
    var base := s * (n - 1);
    WriteFirstContent(prev, structsAt(n - 1), base, nameOf, s);
    if c < n - 1 {
      PlacementsValue(structsAt, nameOf, s, n - 1, c, i);
      MulStep(s, c, n - 1);
      assert k < base;
      assert !NamedIn(nameOf(k), nameOf, base, base + s);
    } else {
      assert k == base + i;
    }
  }

  /** Candidate file names are distinct, so the loop's files are as above. */
  lemma CandidateNamesInjective(rxn: string)
    ensures Injective(CandidateNames(rxn))
  {
    forall a: nat, b: nat | CandidateName(a, rxn) == CandidateName(b, rxn) ensures a == b {
      CandidateNameInjective(a, b, rxn);
    }
  }

  /** What `TS_placer` decided. */
  datatype Plan<I> = Plan(candidate: Candidate<I>, rule: Rule, steps: seq<Step>, orientations: nat)

  /** The inner loop of lines 215-218: structure i of this orientation is
      written to file number `base + i`, named by `nameOf` (`TSPlacer` passes
      `CandidateNames(rxn)`). */
  method WriteOrientation<G>(dir: Directory<G>, structs: seq<G>, base: nat, nameOf: nat -> string)
    modifies dir
    ensures dir.files == WriteFirst(old(dir.files), structs, base, nameOf, |structs|)
  {
    ghost var m0 := dir.files;
    for i := 0 to |structs|
      invariant dir.files == WriteFirst(m0, structs, base, nameOf, i)
    {
      dir.Write(nameOf(base + i), structs[i]);
    }
  }

  /** The orientation loop of lines 208-225, writing into the estimate directory. */
  method PlaceOrientations<G>(dir: Directory<G>, rotAngle: real, nameOf: nat -> string, structsAt: nat -> seq<G>)
    returns (r: Result<nat>)
    modifies dir
    ensures r == OrientationCount(rotAngle)
    ensures r.Err? ==> dir.files == old(dir.files)
    ensures r.Ok? ==> dir.files == Placements(old(dir.files), structsAt, nameOf, r.value)
  {
    if rotAngle == 0.0 {
      return Err(ZeroDivision);
    }
    var possibleRotations := 360.0 / rotAngle - 1.0;
    ghost var bound := (360.0 / rotAngle).Floor;
    ghost var m0 := dir.files;
    var count: nat := 0;
    while count as real <= possibleRotations
      invariant count == 0 || count <= bound
      invariant dir.files == Placements(m0, structsAt, nameOf, count)
      decreases bound - count
    {
      var structs := structsAt(count);
      WriteOrientation(dir, structs, |structs| * count, nameOf);
      count := count + 1;
    }
    r := Ok(count);
  }

  /** What `TS_placer` settles before it writes anything: the candidate, its
      rule, its reorientation and the number of orientations. Reading the bond
      length (`get_distance(atom1, atom2)`, line 172) raises `IndexError` on a
      candidate without atom `atom2`; that happens before the orientation loop
      divides by `rotAngle`. */
  function PlanFor<I>(rNames: seq<string>, pNames: seq<string>, images: seq<I>, rotAngle: real,
                      formulaOf: Candidate<I> -> string, atomCountOf: Candidate<I> -> nat): Result<Plan<I>>
  {
    var source := CandidateSource(rNames, pNames, images);
    if source.Err? then Err(source.error)
    else
      var cand := source.value;
      var rule := RuleFor(formulaOf(cand));
      if atomCountOf(cand) <= rule.atom2 then Err(IndexError)
      else
        var n := OrientationCount(rotAngle);
        if n.Err? then Err(n.error)
        else Ok(Plan(cand, rule, Reorientation(atomCountOf(cand), formulaOf(cand)), n.value))
  }

  /** `TS_placer`: choose the candidate, look up its rule, measure its bond,
      reorient it and write one file per adsorption site and orientation. It
      succeeds exactly when there is a candidate that has atom `atom2` and the
      angle is not zero; when it fails, nothing has been written. */
  method TSPlacer<I, G>(dir: Directory<G>, rxn: string, rNames: seq<string>, pNames: seq<string>,
                        images: seq<I>, rotAngle: real,
                        formulaOf: Candidate<I> -> string, atomCountOf: Candidate<I> -> nat,
                        structsAt: (Candidate<I>, seq<Step>, Rule, nat) -> seq<G>)
    returns (r: Result<Plan<I>>)
    modifies dir
    ensures r == PlanFor(rNames, pNames, images, rotAngle, formulaOf, atomCountOf)
    ensures r.Ok? <==>
      && CandidateSource(rNames, pNames, images).Ok?
      && atomCountOf(CandidateSource(rNames, pNames, images).value)
           > RuleFor(formulaOf(CandidateSource(rNames, pNames, images).value)).atom2
      && rotAngle != 0.0
    ensures r.Err? ==> dir.files == old(dir.files)
    ensures r.Ok? ==>
      var cand := CandidateSource(rNames, pNames, images).value;
      var formula := formulaOf(cand);
      var rule := RuleFor(formula);
      var steps := Reorientation(atomCountOf(cand), formula);
      && r.value == Plan(cand, rule, steps, OrientationCount(rotAngle).value)
      && dir.files == Placements(old(dir.files), (c: nat) => structsAt(cand, steps, rule, c),
                                 CandidateNames(rxn), r.value.orientations)
  {
    var source := CandidateSource(rNames, pNames, images);
    if source.Err? {
      return Err(source.error);
    }
    var cand := source.value;
    var formula := formulaOf(cand);
    var rule := RuleFor(formula);
    if atomCountOf(cand) <= rule.atom2 {
      return Err(IndexError);
    }
    var steps := Reorientation(atomCountOf(cand), formula);
    var n := PlaceOrientations(dir, rotAngle, CandidateNames(rxn), (c: nat) => structsAt(cand, steps, rule, c));
    if n.Err? {
      return Err(n.error);
    }
    r := Ok(Plan(cand, rule, steps, n.value));
  }
}
