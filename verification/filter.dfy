/** Removal of symmetry-equivalent candidates and renumbering of the rest
    (`TS.filtered_out_equiv_ts_estimate` in
    build/lib/rmgcat_to_sella/ts_test_class.py), run on the estimate
    directory right after the placer has written it. */
module EstimateFilter {
  import opened Errors
  import opened Text
  import opened FirstSeen
  import opened Files
  import opened SymmetryCheck
  import opened CandidatePlacer

  /** The names `Path(path).glob('*.xyz')` yields, kept in the given order. */
  function XyzNames(names: seq<string>): (r: seq<string>)
    ensures forall x :: x in r <==> x in names && EndsWith(x, ".xyz")
  {
    if names == [] then []
    else
      var init := XyzNames(names[..|names| - 1]);
      var last := names[|names| - 1];
      assert names == names[..|names| - 1] + [last];
      if EndsWith(last, ".xyz") then init + [last] else init
  }

  /** The structures `read` from the named files. */
  function Contents<G>(files: map<string, G>, names: seq<string>): (gs: seq<G>)
    requires forall i :: 0 <= i < |names| ==> names[i] in files
    ensures |gs| == |names| && forall i :: 0 <= i < |names| ==> gs[i] == files[names[i]]
  {
    seq(|names|, i requires 0 <= i < |names| => files[names[i]])
  }

  /** `eqsites + '_' + rxn_name + '.xyz'` for every reported index. */
  function DuplicateFiles(eqsites: seq<string>, rxn: string): (r: seq<string>)
    ensures |r| == |eqsites| && forall i :: 0 <= i < |eqsites| ==> r[i] == eqsites[i] + "_" + rxn + ".xyz"
  {
    seq(|eqsites|, i requires 0 <= i < |eqsites| => eqsites[i] + "_" + rxn + ".xyz")
  }

  /** The names whose removal fails (printed as "Error while deleting file"):
      those not present when their turn comes. */
  function Missing<G>(m: map<string, G>, names: seq<string>): seq<string>
  {
    if names == [] then []
    else (if names[0] in m then [] else [names[0]]) + Missing(m - {names[0]}, names[1..])
  }

  function NameSet(names: seq<string>): set<string>
  {
    set x | x in names
  }

  /** One turn of the removal loop: name i leaves the directory and is
      reported missing exactly when it was not there. */
  lemma RemoveStep<G>(m0: map<string, G>, m: map<string, G>, names: seq<string>, i: nat)
    requires i < |names| && m == m0 - NameSet(names[..i])
    ensures m - {names[i]} == m0 - NameSet(names[..i + 1])
    ensures Missing(m, names[i..]) == (if names[i] in m then [] else [names[i]]) + Missing(m - {names[i]}, names[i + 1..])
  {
    assert names[..i + 1] == names[..i] + [names[i]];
    assert NameSet(names[..i + 1]) == NameSet(names[..i]) + {names[i]};
    assert names[i..][0] == names[i] && names[i..][1..] == names[i + 1..];
  }

  /** The removal loop of lines 230-236. */
  method RemoveDuplicates<G>(dir: Directory<G>, eqsites: seq<string>, rxn: string) returns (missing: seq<string>)
    modifies dir
    ensures var names := DuplicateFiles(eqsites, rxn);
      dir.files == old(dir.files) - NameSet(names) && missing == Missing(old(dir.files), names)
  {
    ghost var names := DuplicateFiles(eqsites, rxn);
    ghost var m0 := dir.files;
    missing := [];
    assert names[..0] == [];
    for i := 0 to |eqsites|
      invariant dir.files == m0 - NameSet(names[..i])
      invariant missing + Missing(dir.files, names[i..]) == Missing(m0, names)
    {
      var fileToRemove := eqsites[i] + "_" + rxn + ".xyz";
      RemoveStep(m0, dir.files, names, i);
      var ok := dir.Remove(fileToRemove);
      if !ok {
        missing := missing + [fileToRemove];
      }
    }
    assert names[..|eqsites|] == names;
    assert names[|eqsites|..] == [];
  }

  /** `str(k).zfill(3) + old[3:]` */
  function NewName(k: nat, name: string): string
  {
    ZFill3(k) + Drop(name, 3)
  }

  /** The directory after a run of renames, and the first source name found
      missing, after which Python raises and nothing more is renamed. */
  datatype Renaming<G> = Renaming(files: map<string, G>, failed: Option<string>)

  /** The first n renames of the loop over `names`. */
  function Renames<G>(m: map<string, G>, names: seq<string>, n: nat): Renaming<G>
    requires n <= |names|
  {
    if n == 0 then Renaming(m, None)
    else
      var prev := Renames(m, names, n - 1);
      var src := names[n - 1];
      if prev.failed.Some? then prev
      else if src in prev.files then Renaming(RenameStep(prev.files, src, NewName(n - 1, src)), None)
      else Renaming(prev.files, Some(src))
  }

  lemma {:induction false} RenamesStuck<G>(m: map<string, G>, names: seq<string>, k: nat, n: nat)
    requires k <= n <= |names| && Renames(m, names, k).failed.Some?
    ensures Renames(m, names, n) == Renames(m, names, k)
    decreases n - k
  {
    if k < n {
      RenamesStuck(m, names, k, n - 1);
    }
  }

  /** The renaming loop of lines 238-242 over `sorted(os.listdir(path))`. */
  method Renumber<G>(dir: Directory<G>) returns (failed: Option<string>)
    modifies dir
    ensures var names := SortedSet(old(dir.files).Keys);
      Renames(old(dir.files), names, |names|) == Renaming(dir.files, failed)
  {
    var names := dir.Listing();
    ghost var m0 := dir.files;
    failed := None;
    for k := 0 to |names|
      invariant Renames(m0, names, k) == Renaming(dir.files, None)
    {
      var ok := dir.Rename(names[k], NewName(k, names[k]));
      if !ok {
        failed := Some(names[k]);
        RenamesStuck(m0, names, k + 1, |names|);
        return;
      }
    }
  }

  /** What the whole filter does to a directory. */
  datatype Filtered<G> = Filtered(files: map<string, G>, missing: seq<string>, failed: Option<string>)

  ghost function FilterOutcome<G>(m: map<string, G>, rxn: string, compare: (G, seq<G>) -> bool): Filtered<G>
  {
    var xyz := XyzNames(SortedSet(m.Keys));
    var geoms := Contents(m, xyz);
    var names := DuplicateFiles(Indices(DuplicatePositions(geoms, compare)), rxn);
    var removed := m - NameSet(names);
    var sorted := SortedSet(removed.Keys);
    var out := Renames(removed, sorted, |sorted|);
    Filtered(out.files, Missing(m, names), out.failed)
  }

  /** `filtered_out_equiv_ts_estimate(ts_estimate_path, rxn_name)` */
  method FilterOutEquivalent<G>(dir: Directory<G>, rxn: string, compare: (G, seq<G>) -> bool)
    returns (missing: seq<string>, failed: Option<string>)
    modifies dir
    ensures FilterOutcome(old(dir.files), rxn, compare) == Filtered(dir.files, missing, failed)
  {
    var listing := dir.Listing();
    var xyz := XyzNames(listing);
    var geoms := Contents(dir.files, xyz);
    var eqsites := CheckSymmBeforeXTB(geoms, compare);
    missing := RemoveDuplicates(dir, eqsites, rxn);
    failed := Renumber(dir);
  }

  // ---------------------------------------------------------------------
  // The filter on a directory of numbered candidates

  /** `[str(k).zfill(3) + '_' + rxn_name + '.xyz' for k in ks]` */
  function CandidateFiles(ks: seq<nat>, rxn: string): (r: seq<string>)
    ensures |r| == |ks| && forall j :: 0 <= j < |ks| ==> r[j] == CandidateName(ks[j], rxn)
  {
    seq(|ks|, j requires 0 <= j < |ks| => CandidateName(ks[j], rxn))
  }

  function Range(n: nat): (r: seq<nat>)
    ensures |r| == n && forall i :: 0 <= i < n ==> r[i] == i
  {
    seq(n, i requires 0 <= i < n => i)
  }

  lemma {:induction false} IncreasingAtLeastIndex(ks: seq<nat>, j: nat)
    requires Increasing(ks) && j < |ks|
    ensures ks[j] >= j
  {
    if j > 0 {
      IncreasingAtLeastIndex(ks, j - 1);
    }
  }

  /** Increasing numbers below 1000 give a sorted listing of their files. */
  lemma CandidateFilesSorted(ks: seq<nat>, rxn: string)
    requires Increasing(ks) && forall j :: 0 <= j < |ks| ==> ks[j] < 1000
    ensures StrictlySorted(CandidateFiles(ks, rxn))
  {
    var r := CandidateFiles(ks, rxn);
    forall i, j | 0 <= i < j < |r| ensures Less(r[i], r[j]) {
      CandidateNameOrder(ks[i], ks[j], rxn);
    }
  }

  lemma {:induction false} XyzNamesAll(names: seq<string>)
    requires forall i :: 0 <= i < |names| ==> EndsWith(names[i], ".xyz")
    ensures XyzNames(names) == names
  {
    if names != [] {
      var init := names[..|names| - 1];
      XyzNamesAll(init);
      assert EndsWith(names[|names| - 1], ".xyz");
      assert XyzNames(names) == XyzNames(init) + [names[|names| - 1]];
      assert init + [names[|names| - 1]] == names;
    }
  }

  lemma CandidateNameIsXyz(k: nat, rxn: string)
    ensures EndsWith(CandidateName(k, rxn), ".xyz")
  {
    var s := CandidateName(k, rxn);
    assert s == (ZFill3(k) + "_" + rxn) + ".xyz";
  }

  lemma {:induction false} MissingNone<G>(m: map<string, G>, names: seq<string>)
    requires forall i :: 0 <= i < |names| ==> names[i] in m
    requires forall i, j :: 0 <= i < j < |names| ==> names[i] != names[j]
    ensures Missing(m, names) == []
  {
    if names != [] {
      MissingNone(m - {names[0]}, names[1..]);
    }
  }

  /** The directory state after the first j renames of the candidate listing:
      files 0 .. j-1 already carry their new numbers, the others their old ones. */
  ghost predicate RenamedUpTo<G>(f: map<string, G>, nameOf: nat -> string, ks: seq<nat>, gs: seq<G>, j: nat)
    requires forall i :: 0 <= i < |ks| ==> ks[i] < |gs|
  {
    && (forall x :: x in f <==>
         NamedIn(x, nameOf, 0, j) || exists i :: j <= i < |ks| && x == nameOf(ks[i]))
    && (forall i {:trigger ks[i]} :: 0 <= i < j && i < |ks| ==> nameOf(i) in f && f[nameOf(i)] == gs[ks[i]])
    && (forall i :: j <= i < |ks| ==> nameOf(ks[i]) in f && f[nameOf(ks[i])] == gs[ks[i]])
  }

  /** Renaming file `ks[j]` to number j neither loses nor overwrites a file:
      j <= ks[j], and every later file has a larger number. */
  lemma RenameOne<G>(f: map<string, G>, nameOf: nat -> string, ks: seq<nat>, gs: seq<G>, j: nat)
    requires Injective(nameOf) && Increasing(ks) && forall i :: 0 <= i < |ks| ==> ks[i] < |gs|
    requires j < |ks| && RenamedUpTo(f, nameOf, ks, gs, j)
    ensures nameOf(ks[j]) in f
    ensures RenamedUpTo(RenameStep(f, nameOf(ks[j]), nameOf(j)), nameOf, ks, gs, j + 1)
  {
    var src, dst := nameOf(ks[j]), nameOf(j);
    IncreasingAtLeastIndex(ks, j);
    var f' := RenameStep(f, src, dst);
    forall x ensures x in f' <==>
      NamedIn(x, nameOf, 0, j + 1) || exists i :: j + 1 <= i < |ks| && x == nameOf(ks[i])
    {
      if NamedIn(x, nameOf, 0, j + 1) && x != dst {
        var k :| 0 <= k < j + 1 && x == nameOf(k);
        assert NamedIn(x, nameOf, 0, j);
      }
      if x in f && x != src && x != dst && !NamedIn(x, nameOf, 0, j) {
        var i :| j <= i < |ks| && x == nameOf(ks[i]);
        assert i != j;
      }
      if NamedIn(x, nameOf, 0, j) {
        var k :| 0 <= k < j && x == nameOf(k);
        assert NamedIn(x, nameOf, 0, j + 1);
      }
    }
  }

  /** Below 1000, `zfill(3)(j) + old[3:]` renumbers a candidate file to j. */
  lemma NewNameOfCandidate(k: nat, j: nat, rxn: string)
    requires k < 1000
    ensures NewName(j, CandidateName(k, rxn)) == CandidateName(j, rxn)
  {
    ZFill3Width(k);
    assert CandidateName(k, rxn) == ZFill3(k) + ("_" + rxn + ".xyz");
    assert Drop(CandidateName(k, rxn), 3) == "_" + rxn + ".xyz";
  }

  /** Rename n-1 of the loop below: file `ks[n-1]` becomes number n-1. */
  lemma RenamesNumberedStep<G>(f: map<string, G>, nameOf: nat -> string, names: seq<string>,
                               ks: seq<nat>, gs: seq<G>, n: nat)
    requires Injective(nameOf) && Increasing(ks) && forall i :: 0 <= i < |ks| ==> ks[i] < |gs|
    requires |names| == |ks| && forall i {:trigger names[i]} :: 0 <= i < |ks| ==> names[i] == nameOf(ks[i])
    requires forall i {:trigger names[i]} :: 0 <= i < |ks| ==> NewName(i, names[i]) == nameOf(i)
    requires 0 < n <= |ks|
    requires Renames(f, names, n - 1).failed == None
    requires RenamedUpTo(Renames(f, names, n - 1).files, nameOf, ks, gs, n - 1)
    ensures Renames(f, names, n).failed == None
    ensures RenamedUpTo(Renames(f, names, n).files, nameOf, ks, gs, n)
  {
    var prev := Renames(f, names, n - 1);
    RenameOne(prev.files, nameOf, ks, gs, n - 1);
    var next := RenameStep(prev.files, nameOf(ks[n - 1]), nameOf(n - 1));
    assert Renames(f, names, n) == Renaming(next, None);
  }

  /** The whole renaming loop over files named `nameOf(ks[0]), nameOf(ks[1]), ...`
      whose new names are `nameOf(0), nameOf(1), ...`. */
  lemma {:induction false} RenamesNumbered<G>(f: map<string, G>, nameOf: nat -> string, names: seq<string>,
                                              ks: seq<nat>, gs: seq<G>, n: nat)
    requires Injective(nameOf) && Increasing(ks) && forall i :: 0 <= i < |ks| ==> ks[i] < |gs|
    requires |names| == |ks| && forall i {:trigger names[i]} :: 0 <= i < |ks| ==> names[i] == nameOf(ks[i])
    requires forall i {:trigger names[i]} :: 0 <= i < |ks| ==> NewName(i, names[i]) == nameOf(i)
    requires n <= |ks| && RenamedUpTo(f, nameOf, ks, gs, 0)
    ensures Renames(f, names, n).failed == None
    ensures RenamedUpTo(Renames(f, names, n).files, nameOf, ks, gs, n)
  {
    if n > 0 {
      RenamesNumbered(f, nameOf, names, ks, gs, n - 1);
      RenamesNumberedStep(f, nameOf, names, ks, gs, n);
    }
  }

  /** A directory holding exactly the files numbered 0 .. M-1, whose names
      sort in numeric order and all end in `.xyz`, is listed in that order. */
  lemma NumberedListing<G>(m: map<string, G>, gs: seq<G>, nameOf: nat -> string, listing: seq<string>)
    requires |listing| == |gs| && forall k :: 0 <= k < |gs| ==> listing[k] == nameOf(k)
    requires StrictlySorted(listing) && forall k :: 0 <= k < |listing| ==> EndsWith(listing[k], ".xyz")
    requires forall x :: x in m <==> NamedIn(x, nameOf, 0, |gs|)
    requires forall k :: 0 <= k < |gs| ==> nameOf(k) in m && m[nameOf(k)] == gs[k]
    ensures XyzNames(SortedSet(m.Keys)) == listing
    ensures forall k :: 0 <= k < |gs| ==> listing[k] in m
    ensures Contents(m, listing) == gs
  {
    forall x ensures x in listing <==> x in m.Keys {
      if x in m {
        var k :| 0 <= k < |gs| && x == nameOf(k);
        assert listing[k] == x;
      }
    }
    SortedSetIs(m.Keys, listing);
    XyzNamesAll(listing);
  }

  /** The sorted `.xyz` listing of a directory holding the candidates 0 .. M-1
      is those files in numeric order, and reading them gives the structures. */
  lemma CandidateListing<G>(m: map<string, G>, gs: seq<G>, rxn: string)
    requires |gs| <= 1000
    requires forall x :: x in m <==> NamedIn(x, CandidateNames(rxn), 0, |gs|)
    requires forall k :: 0 <= k < |gs| ==> CandidateName(k, rxn) in m && m[CandidateName(k, rxn)] == gs[k]
    ensures XyzNames(SortedSet(m.Keys)) == CandidateFiles(Range(|gs|), rxn)
    ensures forall k :: 0 <= k < |gs| ==> CandidateFiles(Range(|gs|), rxn)[k] in m
    ensures Contents(m, CandidateFiles(Range(|gs|), rxn)) == gs
  {
    var listing := CandidateFiles(Range(|gs|), rxn);
    CandidateFilesSorted(Range(|gs|), rxn);
    forall k | 0 <= k < |gs| ensures listing[k] == CandidateNames(rxn)(k) && EndsWith(listing[k], ".xyz") {
      CandidateNameIsXyz(k, rxn);
    }
    forall k | 0 <= k < |gs| ensures CandidateNames(rxn)(k) in m && m[CandidateNames(rxn)(k)] == gs[k] {
      assert CandidateNames(rxn)(k) == CandidateName(k, rxn);
    }
    NumberedListing(m, gs, CandidateNames(rxn), listing);
  }

  /** Removing the files of the duplicate positions misses none of them and
      leaves exactly the files of the kept positions. */
  lemma CandidateRemoval<G>(m: map<string, G>, gs: seq<G>, rxn: string, compare: (G, seq<G>) -> bool)
    requires |gs| <= 1000
    requires forall x :: x in m <==> NamedIn(x, CandidateNames(rxn), 0, |gs|)
    ensures var names := DuplicateFiles(Indices(DuplicatePositions(gs, compare)), rxn);
      && Missing(m, names) == []
      && forall x :: x in m - NameSet(names) <==> x in CandidateFiles(KeptPositions(gs, compare), rxn)
  {
    CandidateNamesInjective(rxn);
    var dups := DuplicatePositions(gs, compare);
    var names := DuplicateFiles(Indices(dups), rxn);
    assert names == CandidateFiles(dups, rxn);
    forall i | 0 <= i < |names| ensures names[i] in m {
      assert CandidateNames(rxn)(dups[i]) == names[i];
    }
    forall i, j | 0 <= i < j < |names| ensures names[i] != names[j] {
      assert CandidateNames(rxn)(dups[i]) == names[i] && CandidateNames(rxn)(dups[j]) == names[j];
    }
    MissingNone(m, names);
    var kept := KeptPositions(gs, compare);
    Partition(gs, compare);
    RemainingAreKept(m, CandidateNames(rxn), |gs|, names, dups, CandidateFiles(kept, rxn), kept);
  }

  /** Removing the files of one part of a partition of 0 .. n-1 leaves the
      files of the other part. */
  lemma RemainingAreKept<G>(m: map<string, G>, nameOf: nat -> string, n: nat,
                            names: seq<string>, dups: seq<nat>, survivors: seq<string>, kept: seq<nat>)
    requires Injective(nameOf)
    requires forall x :: x in m <==> NamedIn(x, nameOf, 0, n)
    requires |names| == |dups| && forall i :: 0 <= i < |dups| ==> dups[i] < n && names[i] == nameOf(dups[i])
    requires |survivors| == |kept| && forall i :: 0 <= i < |kept| ==> kept[i] < n && survivors[i] == nameOf(kept[i])
    requires forall k :: 0 <= k < n ==> (k in kept <==> k !in dups)
    ensures forall x :: x in m - NameSet(names) <==> x in survivors
  {
    forall x | x in m && x !in names ensures x in survivors {
      var k :| 0 <= k < n && x == nameOf(k);
      assert k !in dups by {
        forall i | 0 <= i < |dups| ensures dups[i] != k {
          assert names[i] in names;
        }
      }
      var i :| 0 <= i < |kept| && kept[i] == k;
      assert survivors[i] == x;
    }
    forall x | x in survivors ensures x in m && x !in names {
      var i :| 0 <= i < |kept| && survivors[i] == x;
      assert NamedIn(x, nameOf, 0, n);
      forall i' | 0 <= i' < |names| ensures names[i'] != x {
        assert dups[i'] in dups && kept[i] in kept;
      }
    }
  }

  /** On a directory holding exactly the candidate files 0 .. M-1 (M <= 1000),
      the filter deletes every reported duplicate without a miss and renumbers
      the survivors without a clash: file j afterwards holds the j-th kept
      structure, for j = 0 .. (number kept) - 1, and nothing else remains. */
  lemma FilterCandidates<G>(m: map<string, G>, gs: seq<G>, rxn: string, compare: (G, seq<G>) -> bool)
    requires |gs| <= 1000
    requires forall x :: x in m <==> NamedIn(x, CandidateNames(rxn), 0, |gs|)
    requires forall k :: 0 <= k < |gs| ==> CandidateName(k, rxn) in m && m[CandidateName(k, rxn)] == gs[k]
    ensures var out := FilterOutcome(m, rxn, compare);
      var kept := KeptPositions(gs, compare);
      && out.missing == [] && out.failed == None
      && (forall x :: x in out.files <==> NamedIn(x, CandidateNames(rxn), 0, |kept|))
      && forall j :: 0 <= j < |kept| ==>
           CandidateName(j, rxn) in out.files && out.files[CandidateName(j, rxn)] == gs[kept[j]]
  {
    CandidateListing(m, gs, rxn);
    CandidateRemoval(m, gs, rxn, compare);
    CandidateNamesInjective(rxn);
    var names := DuplicateFiles(Indices(DuplicatePositions(gs, compare)), rxn);
    var removed := m - NameSet(names);
    var kept := KeptPositions(gs, compare);
    var survivors := CandidateFiles(kept, rxn);
    SurvivorsInPlace(m, gs, rxn, compare);
    forall i | 0 <= i < |kept| ensures NewName(i, survivors[i]) == CandidateNames(rxn)(i) {
      NewNameOfCandidate(kept[i], i, rxn);
    }
    RenamesNumbered(removed, CandidateNames(rxn), survivors, kept, gs, |kept|);
    var out := Renames(removed, survivors, |survivors|);
    assert FilterOutcome(m, rxn, compare) == Filtered(out.files, Missing(m, names), out.failed);
    RenamedAll(out.files, CandidateNames(rxn), kept, gs);
    forall j | 0 <= j < |kept| ensures CandidateName(j, rxn) in out.files && out.files[CandidateName(j, rxn)] == gs[kept[j]] {
      assert CandidateNames(rxn)(j) == CandidateName(j, rxn);
    }
  }

  /** Once every file is renamed, exactly the numbers 0 .. |ks|-1 remain. */
  lemma RenamedAll<G>(f: map<string, G>, nameOf: nat -> string, ks: seq<nat>, gs: seq<G>)
    requires forall i :: 0 <= i < |ks| ==> ks[i] < |gs|
    requires RenamedUpTo(f, nameOf, ks, gs, |ks|)
    ensures forall x :: x in f <==> NamedIn(x, nameOf, 0, |ks|)
    ensures forall j :: 0 <= j < |ks| ==> nameOf(j) in f && f[nameOf(j)] == gs[ks[j]]
  {
  }

  /** After the removals the survivors list in numeric order and still hold
      their structures: the state the renaming loop starts from. */
  lemma SurvivorsInPlace<G>(m: map<string, G>, gs: seq<G>, rxn: string, compare: (G, seq<G>) -> bool)
    requires |gs| <= 1000
    requires forall x :: x in m <==> NamedIn(x, CandidateNames(rxn), 0, |gs|)
    requires forall k :: 0 <= k < |gs| ==> CandidateName(k, rxn) in m && m[CandidateName(k, rxn)] == gs[k]
    ensures var removed := m - NameSet(DuplicateFiles(Indices(DuplicatePositions(gs, compare)), rxn));
      var kept := KeptPositions(gs, compare);
      && (forall i :: 0 <= i < |kept| ==> kept[i] < |gs|)
      && SortedSet(removed.Keys) == CandidateFiles(kept, rxn)
      && RenamedUpTo(removed, CandidateNames(rxn), kept, gs, 0)
  {
    CandidateRemoval(m, gs, rxn, compare);
    var names := DuplicateFiles(Indices(DuplicatePositions(gs, compare)), rxn);
    var removed := m - NameSet(names);
    var kept := KeptPositions(gs, compare);
    var survivors := CandidateFiles(kept, rxn);
    CandidateFilesSorted(kept, rxn);
    SortedSetIs(removed.Keys, survivors);
    forall x ensures x in removed <==> exists i :: 0 <= i < |kept| && x == CandidateNames(rxn)(kept[i]) {
      if x in removed {
        var i :| 0 <= i < |kept| && survivors[i] == x;
      }
    }
    forall i | 0 <= i < |kept| ensures CandidateName(kept[i], rxn) in removed && removed[CandidateName(kept[i], rxn)] == gs[kept[i]] {
      assert survivors[i] in survivors;
    }
  }
}
