/** The energy summary of a finished reaction (class `Results` in
    rmgcat_to_sella/results.py): the lowest energy of every reactant and
    product among its relaxed conformers, the reaction energy and the
    barrier of every transition state, in kJ/mol. Files are names in a
    directory listing and their lines; the slab energy is a parameter;
    `float(s)` is the partial function `parse`. */
module EnergyResults {
  import opened Errors
  import opened Text
  import opened GeometryScan

  /** `ev_to_kjmol`: one eV per particle in kJ/mol. */
  const EvToKjmol: real := 23.06035 * 4.184

  /** The fields set once by `Results.__init__`. */
  datatype Results = Results(minimaPath: string, tsPath: string, slabPath: string,
                             reactants: seq<string>, products: seq<string>)

  // ---------------------------------------------------------------------
  // rxn_title

  /** `'+'.join(reactants) + ' --> ' + '+'.join(products)` */
  function RxnTitle(res: Results): string
  {
    Join(res.reactants, "+") + " --> " + Join(res.products, "+")
  }

  lemma {:induction false} JoinNoSpace(xs: seq<string>, sep: string)
    requires NoSpace(sep) && forall k :: 0 <= k < |xs| ==> NoSpace(xs[k])
    ensures NoSpace(Join(xs, sep))
  {
    if |xs| > 1 {
      JoinNoSpace(xs[1..], sep);
      var rest := Join(xs[1..], sep);
      assert Join(xs, sep) == xs[0] + sep + rest;
      forall k | 0 <= k < |Join(xs, sep)| ensures !IsSpace(Join(xs, sep)[k]) {
        if k < |xs[0]| {
          assert Join(xs, sep)[k] == xs[0][k];
        } else if k < |xs[0]| + |sep| {
          assert Join(xs, sep)[k] == sep[k - |xs[0]|];
        } else {
          assert Join(xs, sep)[k] == rest[k - |xs[0]| - |sep|];
        }
      }
    }
  }

  lemma JoinNotEmpty(xs: seq<string>, sep: string)
    requires |xs| >= 1 && |xs[0]| > 0
    ensures |Join(xs, sep)| > 0
  {
  }

  /** With species names that are non-empty and hold neither '+' nor
      whitespace, the title is three words, the middle one the arrow, and
      each side splits back into its species list. */
  lemma RxnTitleParses(res: Results)
    requires |res.reactants| >= 1 && |res.products| >= 1
    requires forall k :: 0 <= k < |res.reactants| ==>
      |res.reactants[k]| > 0 && NoSpace(res.reactants[k]) && '+' !in res.reactants[k]
    requires forall k :: 0 <= k < |res.products| ==>
      |res.products[k]| > 0 && NoSpace(res.products[k]) && '+' !in res.products[k]
    ensures Words(RxnTitle(res)) == [Join(res.reactants, "+"), "-->", Join(res.products, "+")]
    ensures SplitOn(Words(RxnTitle(res))[0], '+') == res.reactants
    ensures SplitOn(Words(RxnTitle(res))[2], '+') == res.products
  {
    var r := Join(res.reactants, "+");
    var p := Join(res.products, "+");
    assert NoSpace("+") && NoSpace("-->") by {
      assert "+"[0] == '+';
      assert forall k :: 0 <= k < 3 ==> "-->"[k] in "->";
    }
    JoinNoSpace(res.reactants, "+");
    JoinNoSpace(res.products, "+");
    JoinNotEmpty(res.reactants, "+");
    JoinNotEmpty(res.products, "+");
    var ws := [r, "-->", p];
    assert ws[1..] == ["-->", p] && ws[1..][1..] == [p];
    assert Join(ws[1..], " ") == "-->" + " " + p;
    assert Join(ws, " ") == r + " " + ("-->" + " " + p);
    assert RxnTitle(res) == Join(ws, " ");
    WordsOfJoin(ws);
    SplitJoin(res.reactants, '+');
    SplitJoin(res.products, '+');
  }

  // ---------------------------------------------------------------------
  // Finding the output files

  /** Whether `name` matches the glob pattern `pre*suf`. */
  predicate GlobMatch(name: string, pre: string, suf: string)
  {
    |pre| + |suf| <= |name| && StartsWith(name, pre) && EndsWith(name, suf)
  }

  /** `Path(dir).glob(pre + '*' + suf)` over a directory listed as
      `listing`, in listing order, each match as a path. */
  function Matching(dir: string, listing: seq<string>, pre: string, suf: string): (r: seq<string>)
    ensures |r| <= |listing|
  {
    if listing == [] then []
    else
      var rest := Matching(dir, listing[1..], pre, suf);
      if GlobMatch(listing[0], pre, suf) then [PathJoin(dir, listing[0])] + rest else rest
  }

  lemma {:induction false} MatchingMembers(dir: string, listing: seq<string>, pre: string, suf: string)
    ensures forall p :: p in Matching(dir, listing, pre, suf) <==>
      exists n :: n in listing && GlobMatch(n, pre, suf) && p == PathJoin(dir, n)
  {
    if listing != [] {
      MatchingMembers(dir, listing[1..], pre, suf);
      forall p | p in Matching(dir, listing, pre, suf)
        ensures exists n :: n in listing && GlobMatch(n, pre, suf) && p == PathJoin(dir, n)
      {
        if p !in Matching(dir, listing[1..], pre, suf) {
          assert listing[0] in listing;
        } else {
          var n :| n in listing[1..] && GlobMatch(n, pre, suf) && p == PathJoin(dir, n);
          assert n in listing;
        }
      }
      forall n | n in listing && GlobMatch(n, pre, suf)
        ensures PathJoin(dir, n) in Matching(dir, listing, pre, suf)
      {
        if n != listing[0] {
          assert n in listing[1..];
        }
      }
    }
  }

  /** `get_species_out_files(species)`: the `<species>_*out` files of the
      minima directory, in listing order. */
  function SpeciesOutFiles(res: Results, minimaListing: seq<string>, species: string): seq<string>
  {
    Matching(res.minimaPath, minimaListing, species + "_", "out")
  }

  /** The files picked for `species` are exactly the listed names that
      start with `species_` and end in `out`. */
  lemma SpeciesOutFilesAre(res: Results, minimaListing: seq<string>, species: string)
    ensures forall p :: p in SpeciesOutFiles(res, minimaListing, species) <==>
      exists n :: n in minimaListing && |species| + 4 <= |n|
        && StartsWith(n, species + "_") && EndsWith(n, "out") && p == PathJoin(res.minimaPath, n)
  {
    MatchingMembers(res.minimaPath, minimaListing, species + "_", "out");
  }

  /** Two species whose names hold no '_' never share an output file: the
      pattern for `O` does not pick up `OH_00_relax.out`. */
  lemma SpeciesFilesDisjoint(name: string, a: string, b: string)
    requires '_' !in a && '_' !in b
    requires GlobMatch(name, a + "_", "out") && GlobMatch(name, b + "_", "out")
    ensures a == b
  {
    assert name[..|a|] == a && name[|a|] == '_';
    FirstIndexIs(name, '_', |a|);
    assert name[..|b|] == b && name[|b|] == '_';
    FirstIndexIs(name, '_', |b|);
  }

  /** `get_ts_out_files`: the `*out` files of the TS directory, sorted. */
  function TsOutFiles(res: Results, tsListing: seq<string>): (r: seq<string>)
    ensures Sorted(r)
    ensures multiset(r) == multiset(Matching(res.tsPath, tsListing, "", "out"))
  {
    SortSeq(Matching(res.tsPath, tsListing, "", "out"))
  }

  /** `format_TS_name`: the text before the first '_' of each basename. */
  function FormatTSName(paths: seq<string>): (r: seq<string>)
    ensures |r| == |paths|
  {
    seq(|paths|, i requires 0 <= i < |paths| => BeforeFirst(Basename(paths[i]), '_'))
  }

  /** A TS output file `<prefix>_<rest>` in the TS directory is named by its
      prefix. */
  lemma FormatTSNameOf(paths: seq<string>, i: nat, tsPath: string, prefix: string, rest: string)
    requires i < |paths| && paths[i] == PathJoin(tsPath, prefix + "_" + rest)
    requires '/' !in prefix + "_" + rest && '_' !in prefix
    ensures FormatTSName(paths)[i] == prefix
  {
    var name := prefix + "_" + rest;
    BasenameOfJoin(tsPath, name);
    assert name[..|prefix|] == prefix && name[|prefix|] == '_';
    FirstIndexIs(name, '_', |prefix|);
  }

  // ---------------------------------------------------------------------
  // Energies

  /** `float(data[-1].split()[3])`: the fourth field of the last line. */
  function EnergyOf(lines: seq<string>, parse: string -> Option<real>): Result<real>
  {
    if lines == [] then Err(IndexError)
    else
      var ws := Words(lines[|lines| - 1]);
      if |ws| < 4 then Err(IndexError)
      else if parse(ws[3]).None? then Err(ValueError)
      else Ok(parse(ws[3]).value)
  }

  /** A file whose last line is the words `ws` separated by single spaces
      yields the value of the fourth. */
  lemma EnergyOfLastLine(lines: seq<string>, ws: seq<string>, parse: string -> Option<real>, e: real)
    requires |lines| >= 1 && lines[|lines| - 1] == Join(ws, " ")
    requires |ws| >= 4 && forall k :: 0 <= k < |ws| ==> |ws[k]| > 0 && NoSpace(ws[k])
    requires parse(ws[3]) == Some(e)
    ensures EnergyOf(lines, parse) == Ok(e)
  {
    WordsOfJoin(ws);
  }

  /** A loop over `xs` that stops at the first exception. */
  function Each<A, B>(xs: seq<A>, f: A -> Result<B>): (r: Result<seq<B>>)
    ensures r.Ok? ==> |r.value| == |xs| && forall i :: 0 <= i < |xs| ==> f(xs[i]) == Ok(r.value[i])
    ensures r.Err? ==> exists i :: 0 <= i < |xs| && f(xs[i]) == Err(r.error)
  {
    if xs == [] then Ok([])
    else if f(xs[0]).Err? then Err(f(xs[0]).error)
    else
      var rest := Each(xs[1..], f);
      if rest.Err? then
        var i :| 0 <= i < |xs[1..]| && f(xs[1..][i]) == Err(rest.error);
        assert f(xs[i + 1]) == Err(rest.error);
        Err(rest.error)
      else Ok([f(xs[0]).value] + rest.value)
  }

  /** An exception ends the loop only if every element before it succeeded. */
  lemma {:induction false} EachFirstError<A, B>(xs: seq<A>, f: A -> Result<B>)
    requires Each(xs, f).Err?
    ensures exists i :: && 0 <= i < |xs| && f(xs[i]) == Err(Each(xs, f).error)
                        && forall j :: 0 <= j < i ==> f(xs[j]).Ok?
  {
    if f(xs[0]).Ok? {
      EachFirstError(xs[1..], f);
      var i :| 0 <= i < |xs[1..]| && f(xs[1..][i]) == Err(Each(xs[1..], f).error)
        && forall j :: 0 <= j < i ==> f(xs[1..][j]).Ok?;
      assert f(xs[i + 1]) == Err(Each(xs, f).error);
      forall j | 0 <= j < i + 1 ensures f(xs[j]).Ok? {
        if j > 0 {
          assert f(xs[1..][j - 1]).Ok?;
        }
      }
    }
  }

  function FileEnergy(linesOf: string -> seq<string>, parse: string -> Option<real>): string -> Result<real>
  {
    (p: string) => EnergyOf(linesOf(p), parse)
  }

  /** `get_lowest_species_ener(species)`: the lowest energy among the
      species' output files; reading a file can fail, and `min` of no
      files raises `ValueError`. */
  function LowestSpeciesEner(res: Results, minimaListing: seq<string>, linesOf: string -> seq<string>,
                             parse: string -> Option<real>, species: string): (r: Result<real>)
    ensures var files := SpeciesOutFiles(res, minimaListing, species);
      && (files == [] ==> r == Err(ValueError))
      && (r.Ok? ==>
            && (exists i :: 0 <= i < |files| && EnergyOf(linesOf(files[i]), parse) == Ok(r.value))
            && forall i :: 0 <= i < |files| ==>
                 EnergyOf(linesOf(files[i]), parse).Ok? && r.value <= EnergyOf(linesOf(files[i]), parse).value)
      && (r.Err? && files != [] ==>
            exists i :: 0 <= i < |files| && EnergyOf(linesOf(files[i]), parse) == Err(r.error))
  {
    var files := SpeciesOutFiles(res, minimaListing, species);
    var es := Each(files, FileEnergy(linesOf, parse));
    if es.Err? then Err(es.error)
    else if es.value == [] then Err(ValueError)
    else
      var m := MinOf(es.value);
      var i :| 0 <= i < |es.value| && es.value[i] == m;
      assert EnergyOf(linesOf(files[i]), parse) == Ok(m);
      Ok(m)
  }

  function Lowest(res: Results, minimaListing: seq<string>, linesOf: string -> seq<string>,
                  parse: string -> Option<real>): string -> Result<real>
  {
    (species: string) => LowestSpeciesEner(res, minimaListing, linesOf, parse, species)
  }

  /** `nslabs = abs(len(p_ener_list) - len(r_ener_list))`: the bare slabs
      that, added to the side with fewer species, give both sides the same
      number of surfaces. */
  function Nslabs(nReactants: nat, nProducts: nat): (n: nat)
    ensures nReactants + (if nReactants < nProducts then n else 0)
         == nProducts + (if nProducts < nReactants then n else 0)
    ensures nReactants == nProducts ==> n == 0
  {
    if nProducts >= nReactants then nProducts - nReactants else nReactants - nProducts
  }

  /** What `get_data` returns. */
  datatype Data = Data(rEner: seq<real>, pEner: seq<real>, slabEner: real, nslabs: nat)

  /** `get_data`: the lowest energy of each reactant, then of each product,
      in list order; the first species that fails ends it. */
  function GetData(res: Results, minimaListing: seq<string>, linesOf: string -> seq<string>,
                   parse: string -> Option<real>, slabEner: real): (r: Result<Data>)
    ensures var lowest := Lowest(res, minimaListing, linesOf, parse);
      && (r.Ok? <==> forall s :: s in res.reactants + res.products ==> lowest(s).Ok?)
      && (r.Ok? ==>
            && |r.value.rEner| == |res.reactants| && |r.value.pEner| == |res.products|
            && (forall i :: 0 <= i < |res.reactants| ==> lowest(res.reactants[i]) == Ok(r.value.rEner[i]))
            && (forall i :: 0 <= i < |res.products| ==> lowest(res.products[i]) == Ok(r.value.pEner[i]))
            && r.value.slabEner == slabEner
            && r.value.nslabs == Nslabs(|res.reactants|, |res.products|))
      && (r.Err? ==> exists s :: s in res.reactants + res.products && lowest(s) == Err(r.error))
  {
    var lowest := Lowest(res, minimaListing, linesOf, parse);
    var rs := Each(res.reactants, lowest);
    if rs.Err? then Err(rs.error)
    else
      var ps := Each(res.products, lowest);
      if ps.Err? then Err(ps.error)
      else Ok(Data(rs.value, ps.value, slabEner, Nslabs(|res.reactants|, |res.products|)))
  }

  /** `get_ts_ener`: the energy of every TS output file, in sorted order. */
  function GetTsEner(res: Results, tsListing: seq<string>, linesOf: string -> seq<string>,
                     parse: string -> Option<real>): (r: Result<seq<real>>)
    ensures var files := TsOutFiles(res, tsListing);
      r.Ok? ==> (|r.value| == |files|
        && forall i :: 0 <= i < |files| ==> EnergyOf(linesOf(files[i]), parse) == Ok(r.value[i]))
    ensures var files := TsOutFiles(res, tsListing);
      r.Ok? <==> forall i :: 0 <= i < |files| ==> EnergyOf(linesOf(files[i]), parse).Ok?
    ensures var files := TsOutFiles(res, tsListing);
      r.Err? ==> exists i :: && 0 <= i < |files| && EnergyOf(linesOf(files[i]), parse) == Err(r.error)
                             && forall j :: 0 <= j < i ==> EnergyOf(linesOf(files[j]), parse).Ok?
  {
    var files := TsOutFiles(res, tsListing);
    var es := Each(files, FileEnergy(linesOf, parse));
    if es.Err? then
      EachFirstError(files, FileEnergy(linesOf, parse));
      es
    else es
  }

  // ---------------------------------------------------------------------
  // Reaction energy

  /** The reaction energy with every species counted and the missing
      surfaces made up by bare slabs: both sides topped up to the larger
      species count. */
  function ReactionEnergy(d: Data): (e: real)
    ensures var m := if |d.rEner| <= |d.pEner| then |d.pEner| else |d.rEner|;
      e == ((Sum(d.pEner) + d.slabEner * ((m - |d.pEner|) as real))
            - (Sum(d.rEner) + d.slabEner * ((m - |d.rEner|) as real))) * EvToKjmol
  {
    (Sum(d.pEner) - Sum(d.rEner) + d.slabEner * ((|d.rEner| - |d.pEner|) as real)) * EvToKjmol
  }

  /** With `nslabs` from `get_data`, this is the formula of each branch of
      `get_reaction_energy`, summing over both sides. */
  lemma ReactionEnergyCases(d: Data)
    requires d.nslabs == Nslabs(|d.rEner|, |d.pEner|)
    ensures |d.pEner| > |d.rEner| ==>
      ReactionEnergy(d) == (Sum(d.pEner) - d.slabEner * (d.nslabs as real) - Sum(d.rEner)) * EvToKjmol
    ensures |d.pEner| < |d.rEner| ==>
      ReactionEnergy(d) == (Sum(d.pEner) + d.slabEner * (d.nslabs as real) - Sum(d.rEner)) * EvToKjmol
    ensures |d.pEner| == |d.rEner| ==> ReactionEnergy(d) == (Sum(d.pEner) - Sum(d.rEner)) * EvToKjmol
  {
  }

  /** The reaction energy read backwards: swapping reactants and products
      negates it. */
  lemma ReactionEnergyReverse(d: Data)
    ensures ReactionEnergy(Data(d.pEner, d.rEner, d.slabEner, d.nslabs)) == -ReactionEnergy(d)
  {
  }

  /** `get_reaction_energy` as written, with the numpy semantics of
      `scalar - list` (element by element) followed by `[0]`: on the side
      with fewer species only its first energy is subtracted or added. */
  function ReactionEnergyAsWritten(d: Data): (r: Result<real>)
    ensures r.Err? <==> |d.pEner| != |d.rEner| && (d.rEner == [] || d.pEner == [])
    ensures r.Err? ==> r.error == IndexError
    ensures |d.pEner| == |d.rEner| ==> r == Ok(ReactionEnergy(d))
  {
    var n := d.nslabs as real;
    if |d.pEner| > |d.rEner| then
      if d.rEner == [] then Err(IndexError)
      else Ok((Sum(d.pEner) - d.slabEner * n - d.rEner[0]) * EvToKjmol)
    else if |d.pEner| < |d.rEner| then
      if d.pEner == [] then Err(IndexError)
      else Ok((d.pEner[0] + d.slabEner * n - Sum(d.rEner)) * EvToKjmol)
    else Ok((Sum(d.pEner) - Sum(d.rEner)) * EvToKjmol)
  }

  /** The code as written is right when the side with fewer species holds a
      single one (OH --> O + H, O + H --> OH). */
  lemma ReactionEnergyAsWrittenAgrees(d: Data)
    requires d.nslabs == Nslabs(|d.rEner|, |d.pEner|)
    requires |d.pEner| > |d.rEner| ==> |d.rEner| == 1
    requires |d.pEner| < |d.rEner| ==> |d.pEner| == 1
    ensures ReactionEnergyAsWritten(d) == Ok(ReactionEnergy(d))
  {
    ReactionEnergyCases(d);
    var n := d.nslabs as real;
    if |d.pEner| > |d.rEner| {
      assert Sum(d.rEner) == d.rEner[0] by {
        assert d.rEner[..0] == [];
      }
      assert ReactionEnergy(d) == (Sum(d.pEner) - d.slabEner * n - d.rEner[0]) * EvToKjmol;
    } else if |d.pEner| < |d.rEner| {
      assert Sum(d.pEner) == d.pEner[0] by {
        assert d.pEner[..0] == [];
      }
      assert ReactionEnergy(d) == (d.pEner[0] + d.slabEner * n - Sum(d.rEner)) * EvToKjmol;
      assert ReactionEnergyAsWritten(d).Ok?;
      assert ReactionEnergyAsWritten(d).value == (d.pEner[0] + d.slabEner * n - Sum(d.rEner)) * EvToKjmol;
    }
  }

  /** A + B --> C + D + E with energies 1, 2 and 0, 0, 0 (slab 0): the code
      as written drops B and reports -1 eV instead of -3 eV. */
  lemma ReactionEnergyAsWrittenDropsSpecies()
    ensures var d := Data([1.0, 2.0], [0.0, 0.0, 0.0], 0.0, 1);
      && ReactionEnergyAsWritten(d) == Ok(-1.0 * EvToKjmol)
      && ReactionEnergy(d) == -3.0 * EvToKjmol
      && ReactionEnergyAsWritten(d) != Ok(ReactionEnergy(d))
  {
    var d := Data([1.0, 2.0], [0.0, 0.0, 0.0], 0.0, 1);
    assert Sum(d.rEner) == 3.0 by {
      assert d.rEner[..1] == [1.0];
      assert Sum([1.0]) == Sum([1.0][..0]) + 1.0;
    }
    assert Sum(d.pEner) == 0.0 by {
      assert d.pEner[..2] == [0.0, 0.0];
      assert [0.0, 0.0][..1] == [0.0];
      assert Sum([0.0]) == Sum([0.0][..0]) + 0.0;
    }
  }

  // ---------------------------------------------------------------------
  // Barriers

  /** The barrier of one TS from `get_barrier`: relative to the reactants,
      with the bare slabs added to the TS when reactants outnumber products.
      The two conditions cover every case, so the `NotImplementedError`
      branch cannot be reached. */
  function Barrier(ts: real, d: Data): (b: real)
    ensures |d.pEner| >= |d.rEner| ==> b == (ts - Sum(d.rEner)) * EvToKjmol
    ensures |d.pEner| < |d.rEner| ==> b == (ts + d.slabEner * (d.nslabs as real) - Sum(d.rEner)) * EvToKjmol
  {
    if |d.pEner| >= |d.rEner| then (ts - Sum(d.rEner)) * EvToKjmol
    else if |d.pEner| < |d.rEner| then (ts + d.slabEner * (d.nslabs as real) - Sum(d.rEner)) * EvToKjmol
    else assert false; 0.0
  }

  /** The barrier as it should balance: the TS is one structure on one
      slab and each reactant sits on a slab of its own, so the TS is topped
      up with one bare slab per reactant beyond the first. */
  function BalancedBarrier(ts: real, d: Data): real
  {
    (ts + d.slabEner * ((|d.rEner| - 1) as real) - Sum(d.rEner)) * EvToKjmol
  }

  /** How far `get_barrier` is from the balanced barrier: by one slab energy
      for every species beyond the first on the side with fewer species. */
  lemma BarrierGap(ts: real, d: Data)
    requires d.nslabs == Nslabs(|d.rEner|, |d.pEner|)
    ensures var fewer := if |d.rEner| <= |d.pEner| then |d.rEner| else |d.pEner|;
      BalancedBarrier(ts, d) - Barrier(ts, d) == d.slabEner * ((fewer - 1) as real) * EvToKjmol
  {
  }

  /** `get_barrier` is right when the side with fewer species holds a single
      one (OH --> O + H, O + H --> OH). */
  lemma BarrierAgrees(ts: real, d: Data)
    requires d.nslabs == Nslabs(|d.rEner|, |d.pEner|)
    requires |d.pEner| >= |d.rEner| ==> |d.rEner| == 1
    requires |d.pEner| < |d.rEner| ==> |d.pEner| == 1
    ensures Barrier(ts, d) == BalancedBarrier(ts, d)
  {
    BarrierGap(ts, d);
  }

  /** A + B --> C + D + E with every species and the TS at 0 eV and a slab
      at 1 eV: `get_barrier` compares the TS on one slab with the reactants
      on two and reports 0, the balanced barrier is one slab energy. */
  lemma BarrierTwoReactantsMissesSlab()
    ensures var d := Data([0.0, 0.0], [0.0, 0.0, 0.0], 1.0, 1);
      && d.nslabs == Nslabs(|d.rEner|, |d.pEner|)
      && Barrier(0.0, d) == 0.0
      && BalancedBarrier(0.0, d) == EvToKjmol
  {
    var d := Data([0.0, 0.0], [0.0, 0.0, 0.0], 1.0, 1);
    assert Sum(d.rEner) == 0.0 by {
      assert d.rEner[..1] == [0.0];
      assert Sum([0.0]) == Sum([0.0][..0]) + 0.0;
    }
  }

  /** The balanced barrier of the reverse reaction is the forward one less
      the reaction energy: the TS sits between both sides. */
  lemma BalancedBarrierReverse(ts: real, d: Data)
    ensures BalancedBarrier(ts, Data(d.pEner, d.rEner, d.slabEner, d.nslabs))
         == BalancedBarrier(ts, d) - ReactionEnergy(d)
  {
  }

  /** The dict built by the `zip` loop of `get_barrier` over the first `n`
      pairs: key `'TS_' + name`, a later duplicate name overwriting. */
  function Barriers(es: seq<real>, names: seq<string>, d: Data, n: nat): map<string, real>
    requires n <= |es| && n <= |names|
  {
    if n == 0 then map[]
    else Barriers(es, names, d, n - 1)["TS_" + names[n - 1] := Barrier(es[n - 1], d)]
  }

  /** Every name gets a key, and there are no others. */
  lemma {:induction false} BarriersKeys(es: seq<real>, names: seq<string>, d: Data, n: nat)
    requires n <= |es| && n <= |names|
    ensures forall k :: k in Barriers(es, names, d, n) <==> exists i :: 0 <= i < n && k == "TS_" + names[i]
  {
    if n > 0 {
      BarriersKeys(es, names, d, n - 1);
      forall k | k in Barriers(es, names, d, n) ensures exists i :: 0 <= i < n && k == "TS_" + names[i] {
        if k != "TS_" + names[n - 1] {
          assert k in Barriers(es, names, d, n - 1);
          var i :| 0 <= i < n - 1 && k == "TS_" + names[i];
        }
      }
    }
  }

  lemma KeyInjective(a: string, b: string)
    ensures "TS_" + a == "TS_" + b ==> a == b
  {
    assert ("TS_" + a)[3..] == a && ("TS_" + b)[3..] == b;
  }

  /** A name that does not come up again keeps the barrier of its own TS. */
  lemma {:induction false} BarriersValue(es: seq<real>, names: seq<string>, d: Data, n: nat, i: nat)
    requires n <= |es| && n <= |names|
    requires i < n && forall j :: i < j < n ==> names[j] != names[i]
    ensures "TS_" + names[i] in Barriers(es, names, d, n)
    ensures Barriers(es, names, d, n)["TS_" + names[i]] == Barrier(es[i], d)
  {
    if i < n - 1 {
      BarriersValue(es, names, d, n - 1, i);
      assert names[n - 1] != names[i];
      KeyInjective(names[n - 1], names[i]);
    }
  }

  /** `get_barrier`: reads the species energies, then the TS energies, and
      maps `'TS_' + prefix` to each TS barrier. */
  function GetBarrier(res: Results, minimaListing: seq<string>, tsListing: seq<string>,
                      linesOf: string -> seq<string>, parse: string -> Option<real>, slabEner: real)
    : (r: Result<map<string, real>>)
    ensures r.Ok? <==> GetData(res, minimaListing, linesOf, parse, slabEner).Ok?
                       && GetTsEner(res, tsListing, linesOf, parse).Ok?
    ensures r.Err? ==> r.error == if GetData(res, minimaListing, linesOf, parse, slabEner).Err?
                                 then GetData(res, minimaListing, linesOf, parse, slabEner).error
                                 else GetTsEner(res, tsListing, linesOf, parse).error
    ensures r.Ok? ==> r.value == Barriers(GetTsEner(res, tsListing, linesOf, parse).value,
      FormatTSName(TsOutFiles(res, tsListing)), GetData(res, minimaListing, linesOf, parse, slabEner).value,
      |TsOutFiles(res, tsListing)|)
    ensures r.Ok? ==> forall k :: k in r.value <==>
      exists i :: 0 <= i < |TsOutFiles(res, tsListing)| && k == "TS_" + FormatTSName(TsOutFiles(res, tsListing))[i]
  {
    var data := GetData(res, minimaListing, linesOf, parse, slabEner);
    if data.Err? then Err(data.error)
    else
      var es := GetTsEner(res, tsListing, linesOf, parse);
      if es.Err? then Err(es.error)
      else
        var files := TsOutFiles(res, tsListing);
        BarriersKeys(es.value, FormatTSName(files), data.value, |files|);
        Ok(Barriers(es.value, FormatTSName(files), data.value, |files|))
  }

  /** The barrier reported for a TS whose prefix no later TS shares is
      computed from that TS's own energy. */
  lemma GetBarrierOf(res: Results, minimaListing: seq<string>, tsListing: seq<string>,
                     linesOf: string -> seq<string>, parse: string -> Option<real>, slabEner: real, i: nat)
    requires GetBarrier(res, minimaListing, tsListing, linesOf, parse, slabEner).Ok?
    requires var names := FormatTSName(TsOutFiles(res, tsListing));
      i < |names| && forall j :: i < j < |names| ==> names[j] != names[i]
    ensures var files := TsOutFiles(res, tsListing);
      var names := FormatTSName(files);
      && EnergyOf(linesOf(files[i]), parse).Ok?
      && GetData(res, minimaListing, linesOf, parse, slabEner).Ok?
      && "TS_" + names[i] in GetBarrier(res, minimaListing, tsListing, linesOf, parse, slabEner).value
      && GetBarrier(res, minimaListing, tsListing, linesOf, parse, slabEner).value["TS_" + names[i]]
         == Barrier(EnergyOf(linesOf(files[i]), parse).value, GetData(res, minimaListing, linesOf, parse, slabEner).value)
  {
    var files := TsOutFiles(res, tsListing);
    var es := GetTsEner(res, tsListing, linesOf, parse);
    var data := GetData(res, minimaListing, linesOf, parse, slabEner);
    BarriersValue(es.value, FormatTSName(files), data.value, |files|, i);
  }
}
