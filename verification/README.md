# rmgcat_to_sella: transition-state estimates and reaction energetics

This project models the core of `rmgcat_to_sella`. That package turns surface
reactions into transition-state (TS) estimates on a metal slab and then
summarises the energies of the finished calculations.

The model covers two parts of the package.

1. **Building the TS estimate** (`TS.prepare_ts_estimate` in
   `build/lib/rmgcat_to_sella/ts_test_class.py`), in four steps:
   - `prepare_react_list` reads the reactions and resolves the species of
     the last one. It looks up each distinct species once, names the
     reaction `A+B_C+D`, keeps one species of every isomorphism class, and
     chooses the side that is enumerated.
   - `TS_placer` chooses the candidate and its bond rule from a fixed
     table, reorients it, and writes one structure per adsorption site and
     orientation as `NNN_<rxn>.xyz` (`NNN` is `str(n).zfill(3)`).
   - `filtered_out_equiv_ts_estimate` runs `checkSymmBeforeXTB` to find the
     symmetry-equivalent structures, deletes their files, and renumbers the
     survivors `000, 001, …` in sorted order.
   - The job-file writers recover the number and the reaction name from
     those file names. `set_up_penalty_xtb` pairs every adsorbate atom with
     its nearest surface atom (`get_index_adatom`,
     `get_index_surface_atom`), and `get_av_dist` averages the
     adsorbate-surface distance over the relaxed minima.
2. **Reaction energetics** (class `Results` in
   `rmgcat_to_sella/results.py`). For each species it takes the lowest
   energy over its relaxed conformers, which is the fourth field of the
   last line of each `*out` file. From those it computes the reaction
   energy, with bare slabs added to the side that has fewer species, and
   the barrier of every TS in kJ/mol.

**How things are represented**
- A directory is a `Files.Directory` object whose `files` map goes from
  file name to an opaque geometry. `write`, `os.remove`, `os.rename`,
  `rmtree` + `makedirs` and `sorted(os.listdir())` are its methods.
- A geometry file is the sequence of its lines.
- Everything the package takes from ASE, catkit, networkx or the file
  system is a parameter of the operation that uses it:
  - distances between atoms, `float(s)` (a partial function `parse`) and
    the slab energy;
  - the isomorphism test and the symmetry comparator;
  - the adsorption builder and the species look-up.
- Python exceptions are `Err` values (`Errors.Error`).

**Module layout**

| module | covers |
|---|---|
| `Errors` | exceptions |
| `Text` | joins and splits, `zfill`, Python string order, `sorted`, `split()` |
| `Files` | the directory |
| `FirstSeen` | the "compare with what was kept so far" filter that both symmetry checks and the isomorphism loop run |
| `SymmetryCheck` | `checkSymm` and `checkSymmBeforeXTB` |
| `SpeciesResolver` | `prepare_react_list` |
| `CandidatePlacer` | `TS_placer` |
| `EstimateFilter` | `filtered_out_equiv_ts_estimate` |
| `TSEstimate` | `prepare_ts_estimate` |
| `GeometryScan` | the index look-ups and `get_av_dist` |
| `JobFiles` | the file-name slicing of the job writers |
| `EnergyResults` | `results.py` |

## Model

| member | source | states |
|---|---|---|
| TSEstimate.PrepareTSEstimate | build/lib/rmgcat_to_sella/ts_test_class.py:51-66 | The estimate directory is emptied first. With no reaction the step fails with an unbound local and leaves the directory empty. Otherwise the prepared lists are `PreparedOf` of the reactions and the plan is `PlanFor` of those lists. If the plan fails, that error is returned and the directory stays empty. If it succeeds, the directory is what the filter makes of the placer's files. The step then succeeds exactly when no rename failed, and reports the names whose removal failed; a failed rename gives `OSError`. |
| TSEstimate.PlacedThenFiltered | build/lib/rmgcat_to_sella/ts_test_class.py:51-66 | S sites in N orientations, with S·N at most 1000, are placed and then filtered. Afterwards exactly the files numbered 0 … m-1 remain. File j holds the j-th structure that the first-seen symmetry filter keeps, in placement order. No removal misses and no rename fails. |
| TSEstimate.PlacementIsSlot | build/lib/rmgcat_to_sella/ts_test_class.py:213-225 | File k written by the placer holds the k-th structure in orientation-major order (site i of orientation c is file i + S·c). |
| TSEstimate.SlotsLength | build/lib/rmgcat_to_sella/ts_test_class.py:213-225 | S sites in each of N orientations make S·N structures. |
| SpeciesResolver.PrepareReactList | build/lib/rmgcat_to_sella/ts_test_class.py:69-127 | Fails (unbound `reactants`) exactly when there is no reaction. Otherwise it returns the last reaction's symbol lists, the reaction name built from them, and the enumerated side. Each distinct symbol of the last reaction is looked up once, in order of first occurrence. There is one image per species kept by the isomorphism loop over all reactions, in order. The result is `PreparedOf` of the reactions. |
| SpeciesResolver.ReactionName | build/lib/rmgcat_to_sella/ts_test_class.py:100-103 | Computes `rxn_name`: the reactant symbols joined by `+`, an underscore, then the product symbols joined by `+`. |
| SpeciesResolver.PreparedOf | build/lib/rmgcat_to_sella/ts_test_class.py:69-127 | Computes the result of `prepare_react_list` from the definitions: an unbound local for no reaction, else the last reaction's names, title and side, the symbols in first-lookup order, and one image per species kept by the isomorphism filter over all reactions. |
| SpeciesResolver.ResolveSide | build/lib/rmgcat_to_sella/ts_test_class.py:91-98 | One side's list holds the looked-up minima of each species in order. The cache afterwards maps every symbol seen so far to its look-up. Only symbols not seen before are looked up. |
| SpeciesResolver.ResolveMinima | build/lib/rmgcat_to_sella/ts_test_class.py:91-98 | `r_unique[i]` is the look-up of reactant i and `p_unique[i]` that of product i. The look-ups made are the distinct symbols in order of first occurrence. |
| SpeciesResolver.CacheOfMembers | build/lib/rmgcat_to_sella/ts_test_class.py:96-98 | The `species_unique` cache holds exactly the symbols seen, each mapped to its own look-up. |
| SpeciesResolver.CacheOfSnoc | build/lib/rmgcat_to_sella/ts_test_class.py:96-98 | A symbol already cached leaves the cache unchanged. A new symbol is added with its look-up. |
| SpeciesResolver.LookupsOncePerSymbol | build/lib/rmgcat_to_sella/ts_test_class.py:91-98 | `get_all_species` is called for every symbol of the reaction and never twice for the same one. |
| SpeciesResolver.ReactionNameSplits | build/lib/rmgcat_to_sella/ts_test_class.py:100-103 | For symbols without `+` or `_`, splitting `rxn_name` on `_` and then each half on `+` gives back the reactant and product symbol lists. |
| SpeciesResolver.Names | build/lib/rmgcat_to_sella/ts_test_class.py:115-116 | The name lists hold the symbols of the species, one each, in order. |
| SpeciesResolver.EnumerationSide | build/lib/rmgcat_to_sella/ts_test_class.py:120-125 | Reactants are enumerated exactly when there are strictly fewer of them. A tie goes to products. |
| SpeciesResolver.IsomorphicToKept | build/lib/rmgcat_to_sella/ts_test_class.py:107-109 | The inner loop breaks exactly when some kept species is isomorphic to the current one. |
| SpeciesResolver.AnyIsoMatchesSomeMember | build/lib/rmgcat_to_sella/ts_test_class.py:107-109 | The loop's test is "isomorphic to some member of the kept list", and nothing matches an empty list. |
| SpeciesResolver.DedupIsomorphic | build/lib/rmgcat_to_sella/ts_test_class.py:106-113 | The kept species and their bonds are those at the first-seen positions of the isomorphism filter over `zip(speciesInd, bonds)`. The images are the 3-D placements of the kept species, in order. |
| SpeciesResolver.DedupStep | build/lib/rmgcat_to_sella/ts_test_class.py:106-113 | One turn of the loop: species t is appended, with its bond, exactly when no kept species is isomorphic to it. |
| CandidatePlacer.CandidateSource | build/lib/rmgcat_to_sella/ts_test_class.py:142-148 | Computes the candidate: the first reactant's molecule when reactants are not more numerous, else `images[2]`. An empty reactant list or fewer than three images gives `IndexError`. |
| CandidatePlacer.CandidateSide | build/lib/rmgcat_to_sella/ts_test_class.py:142-148 | The candidate is the first reactant's molecule when reactants are not more numerous, and `images[2]` otherwise. So on a tie it is built from the reactants while the products are enumerated. |
| CandidatePlacer.RuleFor | build/lib/rmgcat_to_sella/ts_test_class.py:137-170 | The bond rule table. `atom1 < atom2`, and exactly one atom is bonded through. A third atom exists only for `C2H5O2` and comes before `atom1`. Any formula outside the four listed uses atoms (0, 1) bonded through 0. |
| CandidatePlacer.Reorientation | build/lib/rmgcat_to_sella/ts_test_class.py:179-197 | There is no change exactly for candidates of more than three atoms that are neither `C2H5O2` nor `CHO2`. Otherwise it opens with a 90° turn (about y below three atoms, about z otherwise) and ends with the bond rescaled by `scfactor`. |
| CandidatePlacer.OrientationCount | build/lib/rmgcat_to_sella/ts_test_class.py:210-213 | A zero angle raises a division error. Otherwise the loop runs ⌊360/rotAngle⌋ times, and not at all for a negative angle. |
| CandidatePlacer.OrientationCountWhole | build/lib/rmgcat_to_sella/ts_test_class.py:210-213 | For a positive whole angle the loop runs `360 div rotAngle` times. |
| CandidatePlacer.CandidateName | build/lib/rmgcat_to_sella/ts_test_class.py:221-222 | Computes the name of candidate file n: `zfill(3)` of n, an underscore, the reaction name and `.xyz`. |
| CandidatePlacer.CandidateNameInjective | build/lib/rmgcat_to_sella/ts_test_class.py:221-222 | Different numbers give different file names, at any width of `zfill`. |
| CandidatePlacer.CandidateNameOrder | build/lib/rmgcat_to_sella/ts_test_class.py:221-222 | Below 1000, file names sort in Python's string order exactly as their numbers do. |
| CandidatePlacer.CandidateNameThousandFirst | build/lib/rmgcat_to_sella/ts_test_class.py:221-222 | From 1000 on the order breaks: `1000_<rxn>.xyz` sorts before `100_<rxn>.xyz`. |
| CandidatePlacer.WriteFirstContent | build/lib/rmgcat_to_sella/ts_test_class.py:219-222 | After the inner loop the directory holds its old files plus the files numbered base … base+n-1. Each new file holds its own structure, and no other file changes. |
| CandidatePlacer.Placements | build/lib/rmgcat_to_sella/ts_test_class.py:213-225 | Computes the directory after n orientations: orientation c writes its structures as the files numbered from the count written before it. |
| CandidatePlacer.PlacementsKeys | build/lib/rmgcat_to_sella/ts_test_class.py:213-225 | N orientations of S sites write exactly the files numbered 0 … S·N-1. |
| CandidatePlacer.PlacementsValue | build/lib/rmgcat_to_sella/ts_test_class.py:213-225 | File i + S·c holds site i of orientation c. No later write overwrites it. |
| CandidatePlacer.WriteOrientation | build/lib/rmgcat_to_sella/ts_test_class.py:219-222 | The inner write loop leaves the directory as described by `WriteFirst` for all of the orientation's structures. |
| CandidatePlacer.PlaceOrientations | build/lib/rmgcat_to_sella/ts_test_class.py:210-225 | The orientation loop runs `OrientationCount(rotAngle)` times. A zero angle changes nothing. Otherwise the directory ends as `Placements` over that many orientations. |
| CandidatePlacer.PlanFor | build/lib/rmgcat_to_sella/ts_test_class.py:142-213 | Computes what `TS_placer` settles before writing. It fails with the candidate's error, then with `IndexError` when the candidate lacks atom `atom2`, then with the division error of a zero angle. Otherwise it gives the candidate, its rule, its reorientation and the orientation count. |
| CandidatePlacer.TSPlacer | build/lib/rmgcat_to_sella/ts_test_class.py:130-225 | The result is `PlanFor` of the inputs. It succeeds exactly when there is a candidate, the candidate has atom `atom2` of its rule (the bond length at line 172 raises `IndexError` otherwise), and the angle is not zero. A failure writes nothing. On success the candidate, its rule, its reorientation and the orientation count are as above, and the directory holds the placements. |
| EstimateFilter.FilterOutcome | build/lib/rmgcat_to_sella/ts_test_class.py:229-243 | Computes the filter's effect on a directory: the symmetry check over the sorted `.xyz` listing, removal of the reported files, then renumbering of the sorted remainder. |
| EstimateFilter.FilterOutEquivalent | build/lib/rmgcat_to_sella/ts_test_class.py:229-243 | The new directory, the names whose removal failed and the first failed rename are those of `FilterOutcome`. `FilterOutcome` runs the symmetry check over the sorted `.xyz` listing, removes the reported files and renumbers the sorted remainder. |
| EstimateFilter.RemoveDuplicates | build/lib/rmgcat_to_sella/ts_test_class.py:230-236 | Every `NNN_<rxn>.xyz` reported is removed. The names that were not present are reported in order. Nothing else changes. |
| EstimateFilter.Renames | build/lib/rmgcat_to_sella/ts_test_class.py:238-243 | Computes the first n renames of the loop, stopping at the first source that is missing. |
| EstimateFilter.Renumber | build/lib/rmgcat_to_sella/ts_test_class.py:238-243 | The files of the sorted listing are renamed in turn to `zfill(3)(k) + name[3:]`. The loop stops at the first source that is no longer there (`OSError`). |
| EstimateFilter.RenamesStuck | build/lib/rmgcat_to_sella/ts_test_class.py:238-243 | After a failed rename no later rename happens. |
| EstimateFilter.XyzNames | build/lib/rmgcat_to_sella/ts_test_class.py:480 | `glob('*.xyz')` keeps exactly the names ending in `.xyz`. |
| EstimateFilter.CandidateFilesSorted | build/lib/rmgcat_to_sella/ts_test_class.py:480 | Candidate files with increasing numbers below 1000 are listed in strictly increasing order. |
| EstimateFilter.CandidateListing | build/lib/rmgcat_to_sella/ts_test_class.py:477-482 | Take a directory holding exactly the candidates 0 … M-1. Its sorted `.xyz` listing is those files in numeric order, and reading them gives the structures in that order. |
| EstimateFilter.CandidateRemoval | build/lib/rmgcat_to_sella/ts_test_class.py:230-236 | The files of the reported duplicate positions are distinct and all present, so no removal fails. |
| EstimateFilter.RemainingAreKept | build/lib/rmgcat_to_sella/ts_test_class.py:230-236 | After the removals exactly the files of the kept positions remain. |
| EstimateFilter.SurvivorsInPlace | build/lib/rmgcat_to_sella/ts_test_class.py:230-238 | The survivors list in numeric order and still hold their own structures. |
| EstimateFilter.NewName | build/lib/rmgcat_to_sella/ts_test_class.py:240-242 | Computes the new name: `zfill(3)` of the position, then the old name from its fourth character on. |
| EstimateFilter.NewNameOfCandidate | build/lib/rmgcat_to_sella/ts_test_class.py:240-242 | Below 1000, `zfill(3)(j) + name[3:]` renumbers candidate file k to number j with the same reaction. |
| EstimateFilter.RenamesNumbered | build/lib/rmgcat_to_sella/ts_test_class.py:238-243 | Renaming the increasing survivors in order never loses a source and never overwrites a file not yet renamed. After n renames, files 0 … n-1 hold survivors 0 … n-1. |
| EstimateFilter.RenamedAll | build/lib/rmgcat_to_sella/ts_test_class.py:238-243 | Once every survivor is renamed, exactly the numbers 0 … m-1 remain, each with its survivor's structure. |
| EstimateFilter.FilterCandidates | build/lib/rmgcat_to_sella/ts_test_class.py:229-243 | Take a directory of candidates 0 … M-1 with M at most 1000. Filtering leaves candidates 0 … m-1, holding the first-seen representatives in order. Nothing is missing and no rename fails. |
| Files.RenameStep | build/lib/rmgcat_to_sella/ts_test_class.py:242 | `os.rename` moves the content to the target and replaces any file there. The source disappears, and every other name keeps its content. |
| Files.Directory.constructor | build/lib/rmgcat_to_sella/ts_test_class.py:58-59 | A new directory is empty. |
| Files.Directory.Clear | build/lib/rmgcat_to_sella/ts_test_class.py:55-57 | `rmtree` followed by `makedirs` leaves the directory empty. |
| Files.Directory.Write | build/lib/rmgcat_to_sella/ts_test_class.py:221-222 | Writing creates or replaces exactly one file. |
| Files.Directory.Remove | build/lib/rmgcat_to_sella/ts_test_class.py:232-236 | Removal succeeds exactly when the file exists, and the file is gone afterwards. |
| Files.Directory.Rename | build/lib/rmgcat_to_sella/ts_test_class.py:242 | Renaming succeeds exactly when the source exists. The directory changes as `RenameStep`. |
| Files.Directory.Listing | build/lib/rmgcat_to_sella/ts_test_class.py:238 | `sorted(os.listdir())` lists every name once, in strictly increasing Python string order. |
| SymmetryCheck.CheckSymmBeforeXTB | build/lib/rmgcat_to_sella/ts_test_class.py:477-494 | Returns the three-digit indices of exactly the positions found equivalent to an earlier kept structure, in order. |
| SymmetryCheck.CheckSymm | build/lib/rmgcat_to_sella/ts_test_class.py:458-474 | Returns the three-digit indices of exactly the kept positions, in order. |
| SymmetryCheck.CompareInOrder | build/lib/rmgcat_to_sella/ts_test_class.py:462-469 | `result_list[j]` is the comparator's verdict on structure j against the structures kept before it. |
| SymmetryCheck.IndicesComplement | build/lib/rmgcat_to_sella/ts_test_class.py:458-494 | Over the same listing every index is reported by exactly one of the two checks. |
| SymmetryCheck.DuplicateMeaning | build/lib/rmgcat_to_sella/ts_test_class.py:477-494 | Suppose the comparator means "equivalent to some member". Then a reported duplicate j is not the first structure, and it is equivalent to a kept structure before it. |
| FirstSeen.KeptPositions | build/lib/rmgcat_to_sella/ts_test_class.py:466-469 | The kept positions are valid and strictly increasing. |
| FirstSeen.DuplicatePositions | build/lib/rmgcat_to_sella/ts_test_class.py:489-494 | The duplicate positions are valid and strictly increasing. |
| FirstSeen.KeptIffNotDuplicate | build/lib/rmgcat_to_sella/ts_test_class.py:466-469 | A position is kept exactly when the comparison with what was kept before it is false. |
| FirstSeen.DuplicateIff | build/lib/rmgcat_to_sella/ts_test_class.py:485-493 | A position is reported exactly when that comparison is true. |
| FirstSeen.Partition | build/lib/rmgcat_to_sella/ts_test_class.py:462-494 | The kept and the reported positions split 0 … n-1 into two disjoint parts. |
| FirstSeen.FirstIsKept | build/lib/rmgcat_to_sella/ts_test_class.py:462-469 | When nothing matches an empty list, the first structure is always kept. |
| FirstSeen.KeptOfPrefix | build/lib/rmgcat_to_sella/ts_test_class.py:462-469 | One more structure never changes the earlier decisions. |
| FirstSeen.KeptPositionsPrefix | build/lib/rmgcat_to_sella/ts_test_class.py:462-469 | The positions kept from a prefix are the kept positions below its length. |
| FirstSeen.DuplicatesMatchEarlierKept | build/lib/rmgcat_to_sella/ts_test_class.py:462-469 | A kept structure is equivalent to no structure kept before it. A duplicate is equivalent to one kept before it. |
| FirstSeen.KeptIsFirstOfClass | build/lib/rmgcat_to_sella/ts_test_class.py:462-469 | With an equivalence relation, every kept structure is the first of its class. |
| GeometryScan.AdatomSymbol | build/lib/rmgcat_to_sella/ts_test_class.py:417-418 | The symbol is cut to its first character. An empty symbol stays empty. |
| GeometryScan.AdatomSymbolWeaker | build/lib/rmgcat_to_sella/ts_test_class.py:417-424 | Every line that mentions the full symbol also matches the cut one. |
| GeometryScan.AvDistSymbol | build/lib/rmgcat_to_sella/ts_test_class.py:344-347 | `CH3O` and `CH2O` map to `O`. Any other symbol is cut to its first character. |
| GeometryScan.IndexAdatom | build/lib/rmgcat_to_sella/ts_test_class.py:414-426 | Fails with `IndexError` exactly when no line mentions the cut symbol without `Cu`. Otherwise it returns the number of the first such line minus 2. |
| GeometryScan.IndexSurfaceAtom | build/lib/rmgcat_to_sella/ts_test_class.py:429-455 | `IndexError` without an adsorbate line, and `ValueError` without a `'Cu '` line. Otherwise it returns the first surface atom at minimum distance from the first adsorbate atom. |
| GeometryScan.IndicesMembers | build/lib/rmgcat_to_sella/ts_test_class.py:421-424 | The indices are exactly the selected lines' numbers minus 2, strictly increasing. |
| GeometryScan.IndicesFirst | build/lib/rmgcat_to_sella/ts_test_class.py:426 | The list is empty exactly when no line is selected. Otherwise its head belongs to the first selected line. |
| GeometryScan.ScanFindsSameAdsorbates | build/lib/rmgcat_to_sella/ts_test_class.py:440-444 | The `elif` after the `'Cu '` test picks the same adsorbate atoms as `get_index_adatom`. |
| GeometryScan.MinOf | build/lib/rmgcat_to_sella/ts_test_class.py:449-450 | `min` returns a member that is at most every element. |
| GeometryScan.FirstAt | build/lib/rmgcat_to_sella/ts_test_class.py:453-455 | `np.where(ds == m)[0][0]` is the first position holding m. |
| GeometryScan.FirstAtMin | build/lib/rmgcat_to_sella/ts_test_class.py:447-455 | The first position of the minimum is the first argmin. |
| GeometryScan.ScanLines | build/lib/rmgcat_to_sella/ts_test_class.py:360-367 | One file's scan collects the `'Cu '` atoms and the other adsorbate atoms. |
| GeometryScan.FinalsMembers | build/lib/rmgcat_to_sella/ts_test_class.py:349-350 | The files read are exactly the `*_final.xyz` names of the listing, in order. |
| GeometryScan.Gathered | build/lib/rmgcat_to_sella/ts_test_class.py:339-367 | The index lists are never reset between files, so the first file's indices stay at their front. |
| GeometryScan.ConfDistancesAt | build/lib/rmgcat_to_sella/ts_test_class.py:369-371 | Every file measures from the first file's first adsorbate atom to all surface atoms gathered so far. |
| GeometryScan.MeasureFinal | build/lib/rmgcat_to_sella/ts_test_class.py:352-375 | One pass of the file loop extends the gathered lists, the distances and the running mean. Only the first file can fail. |
| GeometryScan.MeanBounds | build/lib/rmgcat_to_sella/ts_test_class.py:372-375 | The mean lies between any bounds of the per-file distances. |
| GeometryScan.AvDistOutcome | build/lib/rmgcat_to_sella/ts_test_class.py:337-376 | Computes the result of `get_av_dist`: unbound with no `*_final.xyz`, an error when the first file lacks an adsorbate or a surface line, else the mean of the per-file minimum distances, scaled when asked. |
| GeometryScan.AverageDistance | build/lib/rmgcat_to_sella/ts_test_class.py:337-376 | The result is `AvDistOutcome`. With no `*_final.xyz` the result name is unbound. The first file fails with `IndexError` or `ValueError`. Otherwise the result is the mean of the per-file minimum distances, scaled when asked. |
| JobFiles.TSJobOf | build/lib/rmgcat_to_sella/ts_test_class.py:526-531 | Computes the job script path, the TS path, the reaction name `file[:-4][4:]` and the prefix `file[:3]`. |
| JobFiles.TSJobOfCandidate | build/lib/rmgcat_to_sella/ts_test_class.py:526-531 | For a candidate number below 1000, `file[:3]` reads back the number and `file[:-4][4:]` the reaction name. |
| JobFiles.PenaltyJobOf | build/lib/rmgcat_to_sella/ts_test_class.py:288-302 | Computes the sub-directory `geom.split('_')[0]` and the trajectory, picture and script names from `geom[:-4]`. |
| JobFiles.PenaltyJobOfCandidate | build/lib/rmgcat_to_sella/ts_test_class.py:288-302 | `geom.split('_')[0]` reads back the candidate's number at any width. The sub-directory, trajectory and script names keep the reaction. |
| JobFiles.PenaltyDirsDistinct | build/lib/rmgcat_to_sella/ts_test_class.py:288-290 | Candidates with different numbers get different sub-directories. |
| JobFiles.PenaltyBonds | build/lib/rmgcat_to_sella/ts_test_class.py:270-279 | Each species gets one (adsorbate atom, nearest surface atom) pair, in order. The loop fails exactly when some species' look-up raises, and then with the error of the first such species. |
| EnergyResults.RxnTitle | rmgcat_to_sella/results.py:337-342 | Computes the title: the reactants joined by `+`, ` --> `, then the products joined by `+`. |
| EnergyResults.RxnTitleParses | rmgcat_to_sella/results.py:337-342 | For non-empty names without `+` or whitespace, the title splits into the joined reactants, `-->` and the joined products, and the names can be read back. |
| EnergyResults.MatchingMembers | rmgcat_to_sella/results.py:281-283 | `glob(pre + '*' + suf)` yields exactly the joined paths of the listed names that match. |
| EnergyResults.SpeciesOutFiles | rmgcat_to_sella/results.py:308-314 | Computes the `<species>_*out` files of the minima directory, in listing order. |
| EnergyResults.SpeciesOutFilesAre | rmgcat_to_sella/results.py:308-314 | A species' files are exactly the listed names starting with `<species>_` and ending in `out`. |
| EnergyResults.SpeciesFilesDisjoint | rmgcat_to_sella/results.py:309-311 | Two species without `_` in their names never share an output file, so `O` does not pick up `OH_…out`. |
| EnergyResults.TsOutFiles | rmgcat_to_sella/results.py:280-284 | The TS files are the `*out` matches, sorted. |
| EnergyResults.FormatTSName | rmgcat_to_sella/results.py:330-335 | There is one prefix per TS file. |
| EnergyResults.FormatTSNameOf | rmgcat_to_sella/results.py:330-335 | A TS file `<prefix>_<rest>` in the TS directory is named by its prefix. |
| EnergyResults.EnergyOf | rmgcat_to_sella/results.py:256-260 | Computes a file's energy: `IndexError` for no lines or fewer than four words on the last line, `ValueError` when the fourth word does not parse. |
| EnergyResults.EnergyOfLastLine | rmgcat_to_sella/results.py:256-260 | A file whose last line is words separated by single spaces yields the parsed fourth word. |
| EnergyResults.Each | rmgcat_to_sella/results.py:174-181 | A loop that stops at the first exception gives one result per element, in order, or the error of some element. |
| EnergyResults.EachFirstError | rmgcat_to_sella/results.py:174-181 | The error returned is that of the first failing element. |
| EnergyResults.LowestSpeciesEner | rmgcat_to_sella/results.py:252-263 | No files gives `ValueError`. On success the value is one file's energy, and every file reads and is at least that value. On failure some file raised that error. |
| EnergyResults.Nslabs | rmgcat_to_sella/results.py:184 | Adding `nslabs` slabs to the side with fewer species gives both sides the same count. Equal counts give no slabs. |
| EnergyResults.GetData | rmgcat_to_sella/results.py:172-186 | Succeeds exactly when every reactant and product has a lowest energy. Then it gives those energies in list order, the slab energy and `nslabs`. A failure carries some species' error. |
| EnergyResults.GetTsEner | rmgcat_to_sella/results.py:222-231 | Succeeds exactly when every sorted TS file reads. Then there is one energy per file, each read from that file. A failure carries the error of the first file that does not read. |
| EnergyResults.ReactionEnergy | rmgcat_to_sella/results.py:68-78 | Both sides are summed and topped up with bare slabs to the larger species count; the reaction energy is products minus reactants. |
| EnergyResults.ReactionEnergyCases | rmgcat_to_sella/results.py:68-78 | The corrected reaction energy is the formula of each branch, with both sides summed. |
| EnergyResults.ReactionEnergyReverse | rmgcat_to_sella/results.py:68-78 | Swapping reactants and products negates the reaction energy. |
| EnergyResults.ReactionEnergyAsWritten | rmgcat_to_sella/results.py:68-79 | As written, the result is `IndexError` exactly when the counts differ and the smaller side is empty. Equal counts give the balanced reaction energy. |
| EnergyResults.ReactionEnergyAsWrittenAgrees | rmgcat_to_sella/results.py:68-78 | The code as written is right when the side with fewer species holds one species. |
| EnergyResults.ReactionEnergyAsWrittenDropsSpecies | rmgcat_to_sella/results.py:68-74 | As written, A + B → C + D + E with energies 1, 2 and 0, 0, 0 reports −1 eV instead of −3 eV. |
| EnergyResults.Barrier | rmgcat_to_sella/results.py:122-133 | Computes `get_barrier`'s formula per TS: the TS less the reactants, plus `nslabs` slabs only when reactants outnumber products. The two tests cover every count, so the `NotImplementedError` branch cannot be reached. |
| EnergyResults.BalancedBarrier | rmgcat_to_sella/results.py:113-133 | Computes the balanced barrier: the TS is one structure on one slab, so it is topped up with one bare slab per reactant beyond the first before the reactants are subtracted. |
| EnergyResults.BarrierGap | rmgcat_to_sella/results.py:122-129 | `get_barrier` falls short of the balanced barrier by one slab energy per species beyond the first on the side with fewer species. |
| EnergyResults.BarrierAgrees | rmgcat_to_sella/results.py:122-129 | `get_barrier` is the balanced barrier when the side with fewer species holds one species (OH → O + H, O + H → OH). |
| EnergyResults.BarrierTwoReactantsMissesSlab | rmgcat_to_sella/results.py:122-123 | As written, A + B → C + D + E with species and TS at 0 eV and a slab at 1 eV gives a barrier of 0 instead of one slab energy. |
| EnergyResults.BalancedBarrierReverse | rmgcat_to_sella/results.py:113-133 | The balanced barrier of the reverse reaction is the forward one less the reaction energy. |
| EnergyResults.Barriers | rmgcat_to_sella/results.py:117-129 | Computes the dict of the `zip` loop over the first n pairs: key `TS_<prefix>`, a later duplicate prefix overwriting. |
| EnergyResults.BarriersKeys | rmgcat_to_sella/results.py:117-129 | Every TS prefix gets the key `TS_<prefix>`, and there are no others. |
| EnergyResults.BarriersValue | rmgcat_to_sella/results.py:117-129 | A prefix that does not come up again keeps the barrier of its own TS. |
| EnergyResults.GetBarrier | rmgcat_to_sella/results.py:113-133 | Succeeds exactly when `get_data` and `get_ts_ener` both succeed. A failure carries `get_data`'s error if it failed, else `get_ts_ener`'s. On success the dict is built from the sorted TS energies and prefixes, and its keys are exactly the `TS_<prefix>` names. |
| EnergyResults.GetBarrierOf | rmgcat_to_sella/results.py:113-133 | The barrier reported for a TS whose prefix no later TS shares is computed from that TS's own energy. |
| Text.ZFill3Decimal | build/lib/rmgcat_to_sella/ts_test_class.py:221-222 | `int(str(n).zfill(3)) == n` for every n. |
| Text.ZFill3Injective | build/lib/rmgcat_to_sella/ts_test_class.py:221-222 | Different numbers give different padded strings. |
| Text.ZFill3Order | build/lib/rmgcat_to_sella/ts_test_class.py:238 | Names that start with a padded number below 1000 sort by that number. |

## Left out

- Geometry is opaque. The following are parameters:
  - ASE, catkit and networkx objects: atoms, graphs, the adsorption
    builder, `SymmetryEquivalenceCheck`, `nx.is_isomorphic`;
  - `get_distances`, the rotations and the bond rescaling.

  The model records which changes `TS_placer` applies, not what they do to
  the coordinates.
- Reading the YAML reactions (`yaml.safe_load`, `rmgcat_to_gratoms`) is
  not modelled: the reactions are given as values. `get_all_species` and
  `get_3D_positions` are parameters.
- Reading and writing files: a file is its lines and the directory is a
  map. `read`/`write` of ASE formats and the PNG pictures are not modelled.
- `get_slab_ener` (reading the slab) is a parameter, and so is `float(s)`.
- `'{:.2f}'.format(...)` and `round` in the results are not modelled. The
  values are exact reals.
- The `reaction_energy[0]` at `rmgcat_to_sella/results.py:79` is not
  modelled in the equal-count branch, where it indexes a plain float. The
  energy there is a plain real.
- Floating point in the orientation guard `count <= 360 / rotAngle - 1` is
  not modelled. The division is exact, so rounding at angles that do not
  divide 360 is not captured.
- `os.path.join` is modelled without normalisation or absolute second
  parts.
- `TSPlacer` assumes the same number of adsorption sites in every
  orientation when relating file numbers to structures. Numbers of 1000 and
  above (four digits) are covered by the injectivity lemmas but not by the
  ordering ones, which need three digits. From 1000 placements on the
  sorted listing is no longer in numeric order
  (`CandidatePlacer.CandidateNameThousandFirst`), so the filter's verdicts,
  given by listing position, would remove and renumber other files; the
  filter lemmas are stated for at most 1000 placements.
- `CandidatePlacer.PlanFor`: failures inside the adsorption builder and the
  rotations (for instance the `bondedThrough` index) are not modelled; only
  the bond length read at line 172 of
  `build/lib/rmgcat_to_sella/ts_test_class.py` is checked against the
  candidate's atom count.
- `get_ts_ener` and `get_lowest_species_ener` collect into a dict keyed by
  path. The model keeps a list, which equals the dict's values because the
  glob yields distinct paths.
- `EstimateFilter.Renumber`: an `OSError` in the rename loop ends the
  function in Python. The model stops at that file and reports its name.
- Other functions of the two files are not part of this model:
  `gen_xyz_from_traj`, `get_bond_dist`, `create_all_TS`,
  `create_TS_unique_job_files`, `Results.plot`, the module-level copy of
  `set_up_penalty_xtb`, and the calls to `get_av_dist` and the file moves
  inside `set_up_penalty_xtb`. The same goes for `show.py`, the job
  templates and `setup.py`.
- `EnergyResults.FormatTSName`: its own contract states only the length.
  The value of each prefix is stated by `EnergyResults.FormatTSNameOf`.

## Findings

| source | as written | input that shows it | evidently intended | confidence | as-written member | corrected member |
|---|---|---|---|---|---|---|
| rmgcat_to_sella/results.py:68-74 | The unequal branches subtract the list `r_ener_list` (or add `p_ener_list`) instead of its sum. Under numpy broadcasting and the `[0]` of line 79, only the first reactant (or product) is counted. | A + B → C + D + E with reactant energies 1, 2, product energies 0, 0, 0 and slab energy 0: the code gives −1 eV·k instead of −3 eV·k. | Sum both sides and top up the side with fewer species with bare slabs. | not executed; with a plain Python float as the slab energy the line raises `TypeError` instead | EnergyResults.ReactionEnergyAsWrittenDropsSpecies | EnergyResults.ReactionEnergyCases |
| rmgcat_to_sella/results.py:122-129 | With `>=`, whenever products are at least as many as reactants the TS, one structure on one slab, is compared with reactants each on a slab of their own, and no bare slab is added. When reactants are more numerous it adds `nslabs` = #r − #p slabs instead of #r − 1. The barrier balances only when the smaller side holds one species. | A + B → C + D + E with every species and the TS at 0 eV and a slab at 1 eV: the code gives 0 instead of 1 eV·k. Equal counts (A + B → C + D) go the same branch, which the unreachable `NotImplementedError` suggests was meant to be rejected. | Add one bare slab to the TS per reactant beyond the first. | not executed; rests on every TS structure being placed on one slab (`build/lib/rmgcat_to_sella/ts_test_class.py:213-222`) | EnergyResults.BarrierTwoReactantsMissesSlab | EnergyResults.BarrierAgrees |
