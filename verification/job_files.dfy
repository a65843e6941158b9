/** The job scripts written for the candidates: `create_all_TS_job_files`
    and `set_up_penalty_xtb` in build/lib/rmgcat_to_sella/ts_test_class.py.
    Both recover the candidate number and the reaction name from a file
    name `NNN_<rxn>.xyz` by slicing it, and `set_up_penalty_xtb` also looks
    up, for every species, the adsorbate atom and its nearest surface atom. */
module JobFiles {
  import opened Errors
  import opened Text
  import opened CandidatePlacer
  import opened GeometryScan

  // ---------------------------------------------------------------------
  // create_all_TS_job_files

  /** The script path and the template fields for one `.xyz` file `file`
      in the sub-directory `struc` of the candidate directory. */
  datatype TSJob = TSJob(script: string, ts: string, rxn: string, prefix: string)

  /** `file[:-4][4:]` names the reaction, `file[:3]` is the prefix. */
  function TSJobOf(candidates: string, struc: string, file: string): TSJob
  {
    var rxn := Drop(DropLast(file, 4), 4);
    TSJob(PathJoin(candidates, struc + "_" + rxn + "_relax.py"), PathJoin(struc, file), rxn, Take(file, 3))
  }

  /** For candidates numbered below 1000 the slices give back the number
      and the reaction name the placer wrote into the file name. */
  lemma TSJobOfCandidate(candidates: string, struc: string, n: nat, rxn: string)
    requires n < 1000
    ensures var job := TSJobOf(candidates, struc, CandidateName(n, rxn));
      && job.prefix == ZFill3(n)
      && DecimalValue(job.prefix) == n
      && job.rxn == rxn
      && job.script == PathJoin(candidates, struc + "_" + rxn + "_relax.py")
      && job.ts == PathJoin(struc, CandidateName(n, rxn))
  {
    var file := CandidateName(n, rxn);
    ZFill3Width(n);
    ZFill3Decimal(n);
    assert file == ZFill3(n) + ("_" + rxn + ".xyz");
    assert DropLast(file, 4) == ZFill3(n) + "_" + rxn;
    assert (ZFill3(n) + "_" + rxn)[4..] == rxn;
  }

  // ---------------------------------------------------------------------
  // set_up_penalty_xtb

  /** The paths and template fields for one `.xyz` file `geom` in the
      estimate directory `path`. */
  datatype PenaltyJob = PenaltyJob(prefix: string, calcDir: string, geomName: string,
                                   trajPath: string, initPng: string, script: string)

  /** `geom.split('_')[0]` is the prefix and the sub-directory; `geom[:-4]`
      the stem of the trajectory, picture and script names. */
  function PenaltyJobOf(path: string, geom: string): PenaltyJob
  {
    var prefix := BeforeFirst(geom, '_');
    var calcDir := PathJoin(path, prefix);
    var stem := DropLast(geom, 4);
    PenaltyJob(prefix, calcDir, stem, stem + ".traj",
               PathJoin(calcDir, stem + "_initial.png"), PathJoin(calcDir, stem + ".py"))
  }

  /** The prefix is the candidate number, whatever its width (unlike the
      fixed slices of `create_all_TS_job_files`), and every name keeps
      the reaction. */
  lemma PenaltyJobOfCandidate(path: string, n: nat, rxn: string)
    ensures var job := PenaltyJobOf(path, CandidateName(n, rxn));
      && job.prefix == ZFill3(n)
      && DecimalValue(job.prefix) == n
      && job.calcDir == PathJoin(path, ZFill3(n))
      && job.geomName == ZFill3(n) + "_" + rxn
      && job.trajPath == ZFill3(n) + "_" + rxn + ".traj"
      && job.script == PathJoin(PathJoin(path, ZFill3(n)), ZFill3(n) + "_" + rxn + ".py")
  {
    var file := CandidateName(n, rxn);
    var z := ZFill3(n);
    ZFill3Decimal(n);
    assert '_' !in z by {
      forall k | 0 <= k < |z| ensures z[k] != '_' {
        assert IsDigit(z[k]);
      }
    }
    assert file[..|z|] == z && file[|z|] == '_';
    FirstIndexIs(file, '_', |z|);
    assert BeforeFirst(file, '_') == z;
    assert DropLast(file, 4) == z + "_" + rxn;
  }

  /** Candidates with different numbers get different sub-directories. */
  lemma PenaltyDirsDistinct(path: string, n: nat, m: nat, rxn: string, rxn': string)
    requires n != m
    ensures PenaltyJobOf(path, CandidateName(n, rxn)).calcDir != PenaltyJobOf(path, CandidateName(m, rxn')).calcDir
  {
    PenaltyJobOfCandidate(path, n, rxn);
    PenaltyJobOfCandidate(path, m, rxn');
    forall k: nat ensures '/' !in ZFill3(k) {
      var z := ZFill3(k);
      forall i | 0 <= i < |z| ensures z[i] != '/' {
        assert IsDigit(z[i]);
      }
    }
    BasenameOfJoin(path, ZFill3(n));
    BasenameOfJoin(path, ZFill3(m));
    if ZFill3(n) == ZFill3(m) {
      ZFill3Injective(n, m);
    }
  }

  /** `get_index_adatom(species, geomPath)` returns `v`. */
  ghost predicate AdatomIndexIs(adsAtom: string, lines: seq<string>, v: int)
  {
    var ads := Indices(lines, AdsorbateSel(AdatomSymbol(adsAtom)));
    ads != [] && v == ads[0]
  }

  /** `get_index_surface_atom(species, geomPath)` returns `v`. */
  ghost predicate SurfaceIndexIs(adsAtom: string, lines: seq<string>, dist: (int, int) -> real, v: int)
  {
    var ads := Indices(lines, AdsorbateSel(AdatomSymbol(adsAtom)));
    var surface := Indices(lines, SurfaceSel());
    ads != [] && exists i :: FirstClosest(DistancesFrom(dist, ads[0], surface), i) && v == surface[i]
  }

  /** The exception the two look-ups raise for `adsAtom`, if any. */
  ghost function BondError(adsAtom: string, lines: seq<string>): Option<Error>
  {
    var ads := Indices(lines, AdsorbateSel(AdatomSymbol(adsAtom)));
    var surface := Indices(lines, SurfaceSel());
    if ads == [] then Some(IndexError)
    else if surface == [] then Some(ValueError)
    else None
  }

  /** The `bonds` list of one geometry: one (adsorbate atom, nearest surface
      atom) pair per species, in the order of `species`; the first species
      whose look-up raises ends the loop with that exception. */
  method PenaltyBonds(species: seq<string>, lines: seq<string>, dist: (int, int) -> real)
    returns (r: Result<seq<(int, int)>>)
    ensures r.Ok? ==>
      && |r.value| == |species|
      && forall k :: 0 <= k < |species| ==>
           AdatomIndexIs(species[k], lines, r.value[k].0)
           && SurfaceIndexIs(species[k], lines, dist, r.value[k].1)
    ensures r.Err? <==> exists k :: 0 <= k < |species| && BondError(species[k], lines).Some?
    ensures r.Err? ==>
      exists k :: && 0 <= k < |species|
                  && BondError(species[k], lines) == Some(r.error)
                  && forall j :: 0 <= j < k ==> BondError(species[j], lines) == None
  {
    var bonds: seq<(int, int)> := [];
    var k := 0;
    while k < |species|
      invariant k <= |species| && |bonds| == k
      invariant forall j :: 0 <= j < k ==>
        && BondError(species[j], lines) == None
        && AdatomIndexIs(species[j], lines, bonds[j].0)
        && SurfaceIndexIs(species[j], lines, dist, bonds[j].1)
    {
      var sym := AdatomSymbol(species[k]);
      IndicesFirst(lines, AdsorbateSel(sym));
      var spIndex := IndexAdatom(species[k], lines);
      if spIndex.Err? {
        return Err(spIndex.error);
      }
      var cuIndex := IndexSurfaceAtom(species[k], lines, dist);
      if cuIndex.Err? {
        return Err(cuIndex.error);
      }
      bonds := bonds + [(spIndex.value, cuIndex.value)];
      k := k + 1;
    }
    return Ok(bonds);
  }
}
