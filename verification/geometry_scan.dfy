/** Index lookups by scanning the text of an `.xyz` geometry file
    (`get_index_adatom`, `get_index_surface_atom`, `get_av_dist` in
    build/lib/rmgcat_to_sella/ts_test_class.py). A file is its sequence of
    lines; line `num` describes atom `num - 2`, since an `.xyz` file opens
    with an atom count and a comment line. Interatomic distances are an
    opaque `dist(i, j)`. */
module GeometryScan {
  import opened Errors
  import opened Text

  // ---------------------------------------------------------------------
  // Symbols

  /** The adsorbate symbol is cut to its first character: `ads_atom[:1]`. */
  function AdatomSymbol(ads: string): (r: string)
    ensures |r| == if ads == "" then 0 else 1
    ensures StartsWith(ads, r)
  {
    if |ads| > 1 then ads[..1] else ads
  }

  /** Every line that mentions the full symbol also matches the cut one. */
  lemma AdatomSymbolWeaker(ads: string, line: string)
    requires Contains(line, ads)
    ensures Contains(line, AdatomSymbol(ads))
  {
    ContainsPrefix(line, ads, AdatomSymbol(ads));
  }

  /** `get_av_dist` first maps methoxy and formaldehyde to the oxygen they
      bind through, then cuts longer symbols to their first character. */
  function AvDistSymbol(species: string): (r: string)
    ensures |r| <= 1 && (r == "" <==> species == "")
    ensures species == "CH3O" || species == "CH2O" ==> r == "O"
    ensures species != "CH3O" && species != "CH2O" ==> StartsWith(species, r)
  {
    var s := if species == "CH3O" || species == "CH2O" then "O" else species;
    AdatomSymbol(s)
  }

  // ---------------------------------------------------------------------
  // Which lines count

  /** A surface atom: the line mentions `'Cu '`. */
  predicate SurfaceLine(line: string)
  {
    Contains(line, "Cu ")
  }

  /** An adsorbate atom for `get_index_adatom`: the line mentions the
      symbol and not `'Cu'`. */
  predicate AdsorbateLine(sym: string, line: string)
  {
    Contains(line, sym) && !Contains(line, "Cu")
  }

  /** The `elif` branch of the scans that also collect surface atoms. */
  predicate ScanAdsorbateLine(sym: string, line: string)
  {
    !SurfaceLine(line) && AdsorbateLine(sym, line)
  }

  function SurfaceSel(): string -> bool
  {
    (l: string) => SurfaceLine(l)
  }

  function AdsorbateSel(sym: string): string -> bool
  {
    (l: string) => AdsorbateLine(sym, l)
  }

  function ScanSel(sym: string): string -> bool
  {
    (l: string) => ScanAdsorbateLine(sym, l)
  }

  /** The atom numbers `num - 2` of the lines selected by `keep`, in file
      order: what the scanning loops append. */
  function Indices(lines: seq<string>, keep: string -> bool): seq<int>
  {
    if lines == [] then []
    else
      var prev := Indices(lines[..|lines| - 1], keep);
      if keep(lines[|lines| - 1]) then prev + [|lines| - 3] else prev
  }

  /** Every selected line and nothing else, each once, in increasing order. */
  lemma {:induction false} IndicesMembers(lines: seq<string>, keep: string -> bool)
    ensures forall x :: x in Indices(lines, keep) <==> exists j :: 0 <= j < |lines| && keep(lines[j]) && x == j - 2
    ensures forall i, j :: 0 <= i < j < |Indices(lines, keep)| ==> Indices(lines, keep)[i] < Indices(lines, keep)[j]
    ensures forall i :: 0 <= i < |Indices(lines, keep)| ==> -2 <= Indices(lines, keep)[i] < |lines| - 2
  {
    if lines != [] {
      var init := lines[..|lines| - 1];
      var n := |lines| - 1;
      IndicesMembers(init, keep);
      var r := Indices(lines, keep);
      var prev := Indices(init, keep);
      assert r == if keep(lines[n]) then prev + [n - 2] else prev;
      forall x ensures x in r <==> exists j :: 0 <= j < |lines| && keep(lines[j]) && x == j - 2 {
        if x in prev {
          var j :| 0 <= j < |init| && keep(init[j]) && x == j - 2;
          assert init[j] == lines[j];
        }
        if exists j :: 0 <= j < |lines| && keep(lines[j]) && x == j - 2 {
          var j :| 0 <= j < |lines| && keep(lines[j]) && x == j - 2;
          if j < n {
            assert init[j] == lines[j];
          }
        }
      }
    }
  }

  /** The first index belongs to the first selected line; there is one
      exactly when some line is selected. */
  lemma {:induction false} IndicesFirst(lines: seq<string>, keep: string -> bool)
    ensures Indices(lines, keep) == [] <==> forall j :: 0 <= j < |lines| ==> !keep(lines[j])
    ensures Indices(lines, keep) != [] ==>
      var n := Indices(lines, keep)[0] + 2;
      0 <= n < |lines| && keep(lines[n]) && forall j :: 0 <= j < n ==> !keep(lines[j])
  {
    var r := Indices(lines, keep);
    IndicesMembers(lines, keep);
    forall j | 0 <= j < |lines| && keep(lines[j]) ensures r != [] && r[0] <= j - 2 {
      assert j - 2 in r;
      var k :| 0 <= k < |r| && r[k] == j - 2;
      assert k == 0 || r[0] < r[k];
    }
    if r != [] {
      assert r[0] in r;
    }
  }

  /** Two selections that agree on every line find the same atoms. */
  lemma {:induction false} IndicesAgree(lines: seq<string>, p: string -> bool, q: string -> bool)
    requires forall j :: 0 <= j < |lines| ==> p(lines[j]) == q(lines[j])
    ensures Indices(lines, p) == Indices(lines, q)
  {
    if lines != [] {
      var init := lines[..|lines| - 1];
      assert forall j :: 0 <= j < |init| ==> init[j] == lines[j];
      IndicesAgree(init, p, q);
    }
  }

  lemma SurfaceLineMentionsCu(line: string)
    requires SurfaceLine(line)
    ensures Contains(line, "Cu")
  {
    ContainsPrefix(line, "Cu ", "Cu");
  }

  /** The `elif` changes nothing: a `'Cu '` line mentions `'Cu'` and is
      never an adsorbate line anyway, so the surface scans find the same
      adsorbate atoms as `get_index_adatom`. */
  lemma ScanFindsSameAdsorbates(sym: string, lines: seq<string>)
    ensures Indices(lines, ScanSel(sym)) == Indices(lines, AdsorbateSel(sym))
  {
    forall j | 0 <= j < |lines| ensures ScanSel(sym)(lines[j]) == AdsorbateSel(sym)(lines[j]) {
      if SurfaceLine(lines[j]) {
        SurfaceLineMentionsCu(lines[j]);
      }
    }
    IndicesAgree(lines, ScanSel(sym), AdsorbateSel(sym));
  }

  // ---------------------------------------------------------------------
  // get_index_adatom

  /** `get_index_adatom(ads_atom, geom)`: the atom of the first line that
      mentions the (cut) symbol and not `'Cu'`; `IndexError` when there is
      none. */
  method IndexAdatom(adsAtom: string, lines: seq<string>) returns (r: Result<int>)
    ensures var sym := AdatomSymbol(adsAtom);
      && (r.Err? <==> forall j :: 0 <= j < |lines| ==> !AdsorbateLine(sym, lines[j]))
      && (r.Err? ==> r.error == IndexError)
      && (r.Ok? ==> 0 <= r.value + 2 < |lines| && AdsorbateLine(sym, lines[r.value + 2])
                    && forall j :: 0 <= j < r.value + 2 ==> !AdsorbateLine(sym, lines[j]))
  {
    var sym := AdatomSymbol(adsAtom);
    var adsorbate: seq<int> := [];
    var num := 0;
    while num < |lines|
      invariant num <= |lines|
      invariant adsorbate == Indices(lines[..num], AdsorbateSel(sym))
    {
      assert lines[..num + 1][..num] == lines[..num];
      if Contains(lines[num], sym) {
        if !Contains(lines[num], "Cu") {
          adsorbate := adsorbate + [num - 2];
        }
      }
      num := num + 1;
    }
    assert lines[..num] == lines;
    IndicesFirst(lines, AdsorbateSel(sym));
    if adsorbate == [] {
      r := Err(IndexError);
    } else {
      r := Ok(adsorbate[0]);
    }
  }

  // ---------------------------------------------------------------------
  // get_index_surface_atom

  /** `struc.get_distances(a, surface)`. */
  function DistancesFrom(dist: (int, int) -> real, a: int, surface: seq<int>): (ds: seq<real>)
    ensures |ds| == |surface| && forall j :: 0 <= j < |ds| ==> ds[j] == dist(a, surface[j])
  {
    seq(|surface|, j requires 0 <= j < |surface| => dist(a, surface[j]))
  }

  /** Python's `min` of a non-empty list. */
  function MinOf(ds: seq<real>): (m: real)
    requires ds != []
    ensures m in ds && forall j :: 0 <= j < |ds| ==> m <= ds[j]
  {
    if |ds| == 1 then ds[0]
    else
      var m := MinOf(ds[..|ds| - 1]);
      assert forall j :: 0 <= j < |ds| - 1 ==> ds[..|ds| - 1][j] == ds[j];
      if ds[|ds| - 1] < m then ds[|ds| - 1] else m
  }

  /** `np.where(ds == m)[0][0]`: the first position holding `m`. */
  function FirstAt(ds: seq<real>, m: real): (i: nat)
    requires m in ds
    ensures i < |ds| && ds[i] == m && m !in ds[..i]
  {
    if ds[0] == m then 0
    else
      var i := FirstAt(ds[1..], m);
      assert ds[..i + 1] == [ds[0]] + ds[1..][..i];
      i + 1
  }

  /** Position i holds the smallest value and no earlier position does. */
  ghost predicate FirstClosest(ds: seq<real>, i: int)
  {
    && 0 <= i < |ds|
    && (forall j :: 0 <= j < |ds| ==> ds[i] <= ds[j])
    && (forall j :: 0 <= j < i ==> ds[i] < ds[j])
  }

  /** Taking the minimum and then its first occurrence is the first argmin. */
  lemma FirstAtMin(ds: seq<real>)
    requires ds != []
    ensures FirstClosest(ds, FirstAt(ds, MinOf(ds)))
  {
    var m := MinOf(ds);
    var i := FirstAt(ds, m);
    forall j | 0 <= j < i ensures ds[i] < ds[j] {
      assert ds[j] in ds[..i];
    }
  }

  /** `get_index_surface_atom(ads_atom, geom)`: of the `'Cu '` atoms, the
      first one closest to the first adsorbate atom, which is the atom
      `get_index_adatom` finds. `IndexError` without an adsorbate line,
      `ValueError` (the minimum of nothing) without a surface line. */
  method IndexSurfaceAtom(adsAtom: string, lines: seq<string>, dist: (int, int) -> real)
    returns (r: Result<int>)
    ensures var sym := AdatomSymbol(adsAtom);
      var ads := Indices(lines, AdsorbateSel(sym));
      var surface := Indices(lines, SurfaceSel());
      && (ads == [] ==> r == Err(IndexError))
      && (ads != [] && surface == [] ==> r == Err(ValueError))
      && (ads != [] && surface != [] ==>
            r.Ok? && exists i :: FirstClosest(DistancesFrom(dist, ads[0], surface), i) && r.value == surface[i])
  {
    var sym := AdatomSymbol(adsAtom);
    var surface: seq<int> := [];
    var adsorbate: seq<int> := [];
    var num := 0;
    while num < |lines|
      invariant num <= |lines|
      invariant surface == Indices(lines[..num], SurfaceSel())
      invariant adsorbate == Indices(lines[..num], ScanSel(sym))
    {
      assert lines[..num + 1][..num] == lines[..num];
      if Contains(lines[num], "Cu ") {
        surface := surface + [num - 2];
      } else if Contains(lines[num], sym) {
        if !Contains(lines[num], "Cu") {
          adsorbate := adsorbate + [num - 2];
        }
      }
      num := num + 1;
    }
    assert lines[..num] == lines;
    ScanFindsSameAdsorbates(sym, lines);
    if adsorbate == [] {
      return Err(IndexError);
    }
    var all := DistancesFrom(dist, adsorbate[0], surface);
    if all == [] {
      return Err(ValueError);
    }
    var i := FirstAt(all, MinOf(all));
    FirstAtMin(all);
    r := Ok(surface[i]);
  }

  // ---------------------------------------------------------------------
  // get_av_dist

  /** The files `get_av_dist` reads, in listing order. */
  function Finals(listing: seq<string>): seq<string>
  {
    if listing == [] then []
    else
      var last := listing[|listing| - 1];
      if EndsWith(last, "_final.xyz") then Finals(listing[..|listing| - 1]) + [last]
      else Finals(listing[..|listing| - 1])
  }

  /** They are the `*_final.xyz` names of the listing, in listing order. */
  lemma {:induction false} FinalsMembers(listing: seq<string>)
    ensures forall f :: f in Finals(listing) <==> f in listing && EndsWith(f, "_final.xyz")
  {
    if listing != [] {
      var init := listing[..|listing| - 1];
      FinalsMembers(init);
      assert listing == init + [listing[|listing| - 1]];
    }
  }

  /** The index list after scanning every file of `fs`: it is never reset
      between files, so the first file's indices stay at its front. */
  function Gathered(fs: seq<string>, linesOf: string -> seq<string>, keep: string -> bool): (r: seq<int>)
    ensures fs != [] ==>
      var first := Indices(linesOf(fs[0]), keep);
      |first| <= |r| && r[..|first|] == first
  {
    if fs == [] then []
    else
      var init := fs[..|fs| - 1];
      assert init != [] ==> init[0] == fs[0];
      Gathered(init, linesOf, keep) + Indices(linesOf(fs[|fs| - 1]), keep)
  }

  /** The minimum distance in one configuration from atom `a` to the
      surface atoms gathered so far. */
  function ConfDistance(dist: (int, int) -> real, a: int, surface: seq<int>): real
    requires surface != []
  {
    MinOf(DistancesFrom(dist, a, surface))
  }

  function Sum(xs: seq<real>): real
  {
    if xs == [] then 0.0 else Sum(xs[..|xs| - 1]) + xs[|xs| - 1]
  }

  /** `statistics.mean` */
  function Mean(xs: seq<real>): real
    requires xs != []
  {
    Sum(xs) / (|xs| as real)
  }

  lemma {:induction false} SumBounds(xs: seq<real>, lo: real, hi: real)
    requires forall j :: 0 <= j < |xs| ==> lo <= xs[j] <= hi
    ensures lo * (|xs| as real) <= Sum(xs) <= hi * (|xs| as real)
  {
    if xs != [] {
      var init := xs[..|xs| - 1];
      assert forall j :: 0 <= j < |init| ==> init[j] == xs[j];
      SumBounds(init, lo, hi);
      assert lo * (|xs| as real) == lo * (|init| as real) + lo;
      assert hi * (|xs| as real) == hi * (|init| as real) + hi;
    }
  }

  /** The mean lies between any bounds of its values. */
  lemma MeanBounds(xs: seq<real>, lo: real, hi: real)
    requires xs != []
    requires forall j :: 0 <= j < |xs| ==> lo <= xs[j] <= hi
    ensures lo <= Mean(xs) <= hi
  {
    SumBounds(xs, lo, hi);
    QuotientBounds(Sum(xs), |xs| as real, lo, hi);
  }

  lemma QuotientBounds(s: real, n: real, lo: real, hi: real)
    requires n > 0.0 && lo * n <= s <= hi * n
    ensures lo <= s / n <= hi
  {
    var q := s / n;
    assert q * n == s;
    assert (q - lo) * n == s - lo * n;
    assert (hi - q) * n == hi * n - s;
  }

  /** The per-file minimum distances, one per file in listing order. */
  function ConfDistances(distOf: string -> (int, int) -> real, fs: seq<string>, linesOf: string -> seq<string>,
                         keep: string -> bool, a: int)
    : (ds: seq<real>)
    requires fs != [] ==> Indices(linesOf(fs[0]), keep) != []
    ensures |ds| == |fs|
  {
    if fs == [] then []
    else
      var init := fs[..|fs| - 1];
      assert init != [] ==> init[0] == fs[0];
      ConfDistances(distOf, init, linesOf, keep, a)
        + [ConfDistance(distOf(fs[|fs| - 1]), a, Gathered(fs, linesOf, keep))]
  }

  /** Each file measures from the same atom `a` to every surface atom
      gathered up to and including that file. */
  lemma {:induction false} ConfDistancesAt(distOf: string -> (int, int) -> real, fs: seq<string>,
                                          linesOf: string -> seq<string>, keep: string -> bool, a: int, t: nat)
    requires fs != [] ==> Indices(linesOf(fs[0]), keep) != []
    requires t < |fs|
    ensures Gathered(fs[..t + 1], linesOf, keep) != []
    ensures ConfDistances(distOf, fs, linesOf, keep, a)[t]
         == ConfDistance(distOf(fs[t]), a, Gathered(fs[..t + 1], linesOf, keep))
  {
    var init := fs[..|fs| - 1];
    assert fs[..t + 1][0] == fs[0];
    if t < |fs| - 1 {
      assert init[0] == fs[0];
      ConfDistancesAt(distOf, init, linesOf, keep, a, t);
      assert init[..t + 1] == fs[..t + 1] && init[t] == fs[t];
      var whole := ConfDistances(distOf, fs, linesOf, keep, a);
      assert whole[..|init|] == ConfDistances(distOf, init, linesOf, keep, a);
      assert whole[t] == whole[..|init|][t];
    } else {
      assert fs[..t + 1] == fs;
    }
  }

  function Scaled(m: real, scfactorSurface: real, scaled: bool): real
  {
    if scaled then m * scfactorSurface else m
  }

  /** What `get_av_dist` computes, read off the first `*_final.xyz` file
      of the listing: with none the result variable is never bound; without
      an adsorbate line (`IndexError`) or a surface line (`ValueError`, the
      minimum of nothing) the first file already fails; otherwise the mean
      of the per-file minimum distances from that file's first adsorbate
      atom, scaled when asked. */
  function AvDistOutcome(sym: string, listing: seq<string>, linesOf: string -> seq<string>,
                         distOf: string -> (int, int) -> real, scfactorSurface: real, scaled: bool): Result<real>
  {
    var fs := Finals(listing);
    if fs == [] then Err(UnboundLocal)
    else
      var ads := Indices(linesOf(fs[0]), AdsorbateSel(sym));
      if ads == [] then Err(IndexError)
      else if Indices(linesOf(fs[0]), SurfaceSel()) == [] then Err(ValueError)
      else Ok(Scaled(Mean(ConfDistances(distOf, fs, linesOf, SurfaceSel(), ads[0])), scfactorSurface, scaled))
  }

  /** `get_av_dist(avDistPath, species, scfactor_surface, scaled)` over the
      sorted directory listing of the species. */
  method AverageDistance(species: string, listing: seq<string>, linesOf: string -> seq<string>,
                         distOf: string -> (int, int) -> real, scfactorSurface: real, scaled: bool)
    returns (r: Result<real>)
    ensures r == AvDistOutcome(AvDistSymbol(species), listing, linesOf, distOf, scfactorSurface, scaled)
  {
    var sym := AvDistSymbol(species);
    var surface: seq<int> := [];
    var adsorbate: seq<int> := [];
    var allConfDist: seq<real> := [];
    var meanDist: Option<real> := None;
    ghost var a: int := 0;
    var k := 0;
    while k < |listing|
      invariant k <= |listing|
      invariant AvDistState(sym, Finals(listing[..k]), linesOf, distOf, scfactorSurface, scaled,
                            surface, adsorbate, allConfDist, meanDist, a)
    {
      var xyz := listing[k];
      FinalsSnoc(listing, k);
      if EndsWith(xyz, "_final.xyz") {
        var d;
        ghost var prev := Finals(listing[..k]);
        surface, adsorbate, allConfDist, meanDist, d, a :=
          MeasureFinal(sym, prev, xyz, linesOf, distOf, scfactorSurface, scaled, surface, adsorbate, allConfDist, meanDist, a);
        if d.Err? {
          AvDistOutcomeFirstFails(sym, listing, k, linesOf, distOf, scfactorSurface, scaled, d);
          return Err(d.error);
        }
      }
      k := k + 1;
    }
    assert listing[..k] == listing;
    AvDistOutcomeOfState(sym, listing, linesOf, distOf, scfactorSurface, scaled,
                         surface, adsorbate, allConfDist, meanDist, a);
    match meanDist {
      case None => r := Err(UnboundLocal);
      case Some(m) => r := Ok(m);
    }
  }

  /** A failure in the first `*_final.xyz` file is the outcome of the whole scan. */
  lemma AvDistOutcomeFirstFails(sym: string, listing: seq<string>, k: nat, linesOf: string -> seq<string>,
                                distOf: string -> (int, int) -> real, scfactorSurface: real, scaled: bool,
                                d: Result<real>)
    requires k < |listing| && EndsWith(listing[k], "_final.xyz") && Finals(listing[..k]) == []
    requires var ads := Indices(linesOf(listing[k]), AdsorbateSel(sym));
      d == if ads == [] then Err(IndexError) else Err(ValueError)
    requires Indices(linesOf(listing[k]), AdsorbateSel(sym)) != [] ==> Indices(linesOf(listing[k]), SurfaceSel()) == []
    ensures AvDistOutcome(sym, listing, linesOf, distOf, scfactorSurface, scaled) == d
  {
    FinalsSnoc(listing, k);
    FirstFinal(listing, k + 1);
  }

  /** After the whole listing, the variables give the outcome. */
  lemma AvDistOutcomeOfState(sym: string, listing: seq<string>, linesOf: string -> seq<string>,
                             distOf: string -> (int, int) -> real, scfactorSurface: real, scaled: bool,
                             surface: seq<int>, adsorbate: seq<int>, allConfDist: seq<real>, meanDist: Option<real>, a: int)
    requires AvDistState(sym, Finals(listing), linesOf, distOf, scfactorSurface, scaled,
                         surface, adsorbate, allConfDist, meanDist, a)
    ensures AvDistOutcome(sym, listing, linesOf, distOf, scfactorSurface, scaled)
         == if meanDist.None? then Err(UnboundLocal) else Ok(meanDist.value)
  {
    var fs := Finals(listing);
    if fs != [] {
      ScanFindsSameAdsorbates(sym, linesOf(fs[0]));
    }
  }

  /** The variables of `get_av_dist` after the files `fs`: the index lists
      hold every file's atoms, and from the first file on the per-file
      distances are measured from that file's first adsorbate atom `a`. */
  ghost predicate AvDistState(sym: string, fs: seq<string>, linesOf: string -> seq<string>,
                              distOf: string -> (int, int) -> real, scfactorSurface: real, scaled: bool,
                              surface: seq<int>, adsorbate: seq<int>, allConfDist: seq<real>, meanDist: Option<real>, a: int)
  {
    && surface == Gathered(fs, linesOf, SurfaceSel())
    && adsorbate == Gathered(fs, linesOf, ScanSel(sym))
    && (fs == [] ==> meanDist == None && allConfDist == [])
    && (fs != [] ==>
          && Indices(linesOf(fs[0]), ScanSel(sym)) != [] && Indices(linesOf(fs[0]), SurfaceSel()) != []
          && a == Indices(linesOf(fs[0]), ScanSel(sym))[0]
          && allConfDist == ConfDistances(distOf, fs, linesOf, SurfaceSel(), a)
          && meanDist == Some(Scaled(Mean(allConfDist), scfactorSurface, scaled)))
  }

  /** The body of the loop for one `*_final.xyz` file `f`: its atoms are
      appended to the lists kept from earlier files, then the minimum
      distance from the first adsorbate atom to all surface atoms so far is
      taken and the mean recomputed. An error can only come from the first
      file. */
  method MeasureFinal(sym: string, ghost fs: seq<string>, f: string, linesOf: string -> seq<string>,
                      distOf: string -> (int, int) -> real, scfactorSurface: real, scaled: bool,
                      surface: seq<int>, adsorbate: seq<int>, allConfDist: seq<real>, meanDist: Option<real>, ghost a: int)
    returns (surface': seq<int>, adsorbate': seq<int>, allConfDist': seq<real>, meanDist': Option<real>,
             d: Result<real>, ghost a': int)
    requires AvDistState(sym, fs, linesOf, distOf, scfactorSurface, scaled, surface, adsorbate, allConfDist, meanDist, a)
    ensures d.Ok? ==> AvDistState(sym, fs + [f], linesOf, distOf, scfactorSurface, scaled,
                                  surface', adsorbate', allConfDist', meanDist', a')
    ensures d.Err? ==> fs == []
    ensures d.Err? ==> var ads := Indices(linesOf(f), AdsorbateSel(sym));
      d == if ads == [] then Err(IndexError) else Err(ValueError)
    ensures d.Err? ==> Indices(linesOf(f), AdsorbateSel(sym)) != [] ==> Indices(linesOf(f), SurfaceSel()) == []
    ensures d.Ok? ==> Indices(linesOf((fs + [f])[0]), AdsorbateSel(sym)) != []
  {
    var more, moreAds := ScanLines(sym, linesOf(f));
    surface' := surface + more;
    adsorbate' := adsorbate + moreAds;
    allConfDist', meanDist', a' := allConfDist, meanDist, a;
    ghost var fs' := fs + [f];
    assert fs'[..|fs'| - 1] == fs;
    assert fs != [] ==> fs[0] == fs'[0];
    ScanFindsSameAdsorbates(sym, linesOf(fs'[0]));
    if adsorbate' == [] {
      return surface', adsorbate', allConfDist', meanDist', Err(IndexError), a';
    }
    var all := DistancesFrom(distOf(f), adsorbate'[0], surface');
    if all == [] {
      return surface', adsorbate', allConfDist', meanDist', Err(ValueError), a';
    }
    if fs == [] {
      a' := adsorbate'[0];
    }
    ConfDistancesSnoc(distOf, fs, f, linesOf, SurfaceSel(), a');
    allConfDist' := allConfDist + [MinOf(all)];
    meanDist' := Some(Scaled(Mean(allConfDist'), scfactorSurface, scaled));
    d := Ok(MinOf(all));
  }

  lemma ConfDistancesSnoc(distOf: string -> (int, int) -> real, fs: seq<string>, f: string,
                          linesOf: string -> seq<string>, keep: string -> bool, a: int)
    requires Indices(linesOf((fs + [f])[0]), keep) != []
    ensures fs != [] ==> Indices(linesOf(fs[0]), keep) != []
    ensures Gathered(fs + [f], linesOf, keep) != []
    ensures ConfDistances(distOf, fs + [f], linesOf, keep, a)
         == ConfDistances(distOf, fs, linesOf, keep, a) + [ConfDistance(distOf(f), a, Gathered(fs + [f], linesOf, keep))]
  {
    SnocFirst(fs, f, linesOf, keep);
    var whole := fs + [f];
    assert whole[..|whole| - 1] == fs && whole[|whole| - 1] == f;
  }

  lemma SnocFirst(fs: seq<string>, f: string, linesOf: string -> seq<string>, keep: string -> bool)
    requires Indices(linesOf((fs + [f])[0]), keep) != []
    ensures fs != [] ==> Indices(linesOf(fs[0]), keep) != []
    ensures Gathered(fs + [f], linesOf, keep) != []
  {
    var whole := fs + [f];
    assert fs != [] ==> whole[0] == fs[0];
    GatheredNonEmpty(whole, linesOf, keep);
  }

  lemma GatheredNonEmpty(fs: seq<string>, linesOf: string -> seq<string>, keep: string -> bool)
    requires fs != [] && Indices(linesOf(fs[0]), keep) != []
    ensures Gathered(fs, linesOf, keep) != []
  {
    var first := Indices(linesOf(fs[0]), keep);
    var g := Gathered(fs, linesOf, keep);
    assert |first| <= |g|;
  }

  lemma FinalsSnoc(listing: seq<string>, k: nat)
    requires k < |listing|
    ensures Finals(listing[..k + 1])
         == if EndsWith(listing[k], "_final.xyz") then Finals(listing[..k]) + [listing[k]] else Finals(listing[..k])
  {
    assert listing[..k + 1][..k] == listing[..k];
  }

  /** The files found in a prefix of the listing come first. */
  lemma {:induction false} FinalsPrefix(listing: seq<string>, k: nat)
    requires k <= |listing|
    ensures |Finals(listing[..k])| <= |Finals(listing)|
    ensures Finals(listing)[..|Finals(listing[..k])|] == Finals(listing[..k])
  {
    if k < |listing| {
      var init := listing[..|listing| - 1];
      assert init[..k] == listing[..k];
      FinalsPrefix(init, k);
    } else {
      assert listing[..k] == listing;
    }
  }

  lemma FirstFinal(listing: seq<string>, k: nat)
    requires k <= |listing| && Finals(listing[..k]) != []
    ensures Finals(listing) != [] && Finals(listing)[0] == Finals(listing[..k])[0]
  {
    FinalsPrefix(listing, k);
    assert Finals(listing)[..|Finals(listing[..k])|][0] == Finals(listing)[0];
  }

  /** One file's scan: its surface atoms and its adsorbate atoms. */
  method ScanLines(sym: string, lines: seq<string>) returns (surface: seq<int>, adsorbate: seq<int>)
    ensures surface == Indices(lines, SurfaceSel())
    ensures adsorbate == Indices(lines, ScanSel(sym))
  {
    surface := [];
    adsorbate := [];
    var num := 0;
    while num < |lines|
      invariant num <= |lines|
      invariant surface == Indices(lines[..num], SurfaceSel())
      invariant adsorbate == Indices(lines[..num], ScanSel(sym))
    {
      assert lines[..num + 1][..num] == lines[..num];
      if Contains(lines[num], "Cu ") {
        surface := surface + [num - 2];
      } else if Contains(lines[num], sym) && !Contains(lines[num], "Cu") {
        adsorbate := adsorbate + [num - 2];
      }
      num := num + 1;
    }
    assert lines[..num] == lines;
  }
}
