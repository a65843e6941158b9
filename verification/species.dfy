/** Reaction and species resolution (`TS.prepare_react_list` in
    build/lib/rmgcat_to_sella/ts_test_class.py).

    The reaction document is taken already parsed: each reaction gives the
    species graphs and bond lists of its two sides, as `rmgcat_to_gratoms`
    returns them. Species graphs are an opaque type `Sp`; `symbolsOf` is
    `str(species.symbols)`, `iso` is `nx.is_isomorphic(.., .., node_test)`,
    `lookup` is `get_all_species` on the species' minima directory and
    `place` is `get_3D_positions`. */
module SpeciesResolver {
  import opened Errors
  import opened Text
  import opened FirstSeen

  datatype Reaction<Sp, B> = Reaction(reactants: seq<Sp>, rbonds: seq<B>, products: seq<Sp>, pbonds: seq<B>)

  /** `rpDir`: the side used to estimate the transition state. */
  datatype Side = Reactants | Products

  /** What `prepare_react_list` returns, plus the order in which it called
      `get_all_species` (its only other observable effect). */
  datatype Prepared<I> = Prepared(rxnName: string, side: Side, rNames: seq<string>,
                                  pNames: seq<string>, images: seq<I>, lookups: seq<string>)

  function Names<Sp>(species: seq<Sp>, symbolsOf: Sp -> string): (names: seq<string>)
    ensures |names| == |species| && forall i :: 0 <= i < |species| ==> names[i] == symbolsOf(species[i])
  {
    seq(|species|, i requires 0 <= i < |species| => symbolsOf(species[i]))
  }

  /** `rxn_name`: reactant symbols and product symbols, each joined by '+', then joined by '_'. */
  function ReactionName(rNames: seq<string>, pNames: seq<string>): string
  {
    Join(rNames, "+") + "_" + Join(pNames, "+")
  }

  /** Species symbols contain neither '+' nor '_', so the reaction name can be split back. */
  lemma ReactionNameSplits(rNames: seq<string>, pNames: seq<string>)
    requires |rNames| >= 1 && |pNames| >= 1
    requires forall k :: 0 <= k < |rNames| ==> '+' !in rNames[k] && '_' !in rNames[k]
    requires forall k :: 0 <= k < |pNames| ==> '+' !in pNames[k] && '_' !in pNames[k]
    ensures SplitOn(ReactionName(rNames, pNames), '_') == [Join(rNames, "+"), Join(pNames, "+")]
    ensures SplitOn(Join(rNames, "+"), '+') == rNames
    ensures SplitOn(Join(pNames, "+"), '+') == pNames
  {
    JoinAvoids(rNames, "+", '_');
    JoinAvoids(pNames, "+", '_');
    var parts := [Join(rNames, "+"), Join(pNames, "+")];
    assert Join(parts, "_") == ReactionName(rNames, pNames);
    SplitJoin(parts, '_');
    SplitJoin(rNames, '+');
    SplitJoin(pNames, '+');
  }

  /** `rpDir`: reactants only when there are strictly fewer of them; a tie goes to products. */
  function EnumerationSide(nReactants: nat, nProducts: nat): (side: Side)
    ensures side == Reactants <==> nReactants < nProducts
  {
    if nReactants < nProducts then Reactants else Products
  }

  // ---------------------------------------------------------------------
  // The minima cache

  /** The distinct strings of xs in order of first occurrence. */
  function FirstOccurrences(xs: seq<string>): (r: seq<string>)
  {
    if xs == [] then []
    else
      var init := FirstOccurrences(xs[..|xs| - 1]);
      if xs[|xs| - 1] in init then init else init + [xs[|xs| - 1]]
  }

  lemma {:induction false} FirstOccurrencesMembers(xs: seq<string>)
    ensures forall x :: x in FirstOccurrences(xs) <==> x in xs
    ensures forall i, j :: 0 <= i < j < |FirstOccurrences(xs)| ==>
      FirstOccurrences(xs)[i] != FirstOccurrences(xs)[j]
  {
    if xs != [] {
      var init := xs[..|xs| - 1];
      FirstOccurrencesMembers(init);
      assert xs == init + [xs[|xs| - 1]];
    }
  }

  lemma FirstOccurrencesSnoc(xs: seq<string>, s: string)
    ensures FirstOccurrences(xs + [s]) == if s in xs then FirstOccurrences(xs) else FirstOccurrences(xs) + [s]
  {
    FirstOccurrencesMembers(xs);
    assert (xs + [s])[..|xs|] == xs;
  }

  lemma PrefixSnoc<T>(xs: seq<T>, i: nat)
    requires i < |xs|
    ensures xs[..i + 1] == xs[..i] + [xs[i]]
  {
  }

  /** The cache after looking up xs in order: every string of xs, mapped to its result. */
  ghost function CacheOf<M>(xs: seq<string>, lookup: string -> M): map<string, M>
  {
    if xs == [] then map[]
    else
      var last := xs[|xs| - 1];
      CacheOf(xs[..|xs| - 1], lookup)[last := lookup(last)]
  }

  lemma {:induction false} CacheOfMembers<M>(xs: seq<string>, lookup: string -> M)
    ensures forall x :: x in CacheOf(xs, lookup) <==> x in xs
    ensures forall x :: x in CacheOf(xs, lookup) ==> CacheOf(xs, lookup)[x] == lookup(x)
  {
    if xs != [] {
      var init := xs[..|xs| - 1];
      CacheOfMembers(init, lookup);
      assert xs == init + [xs[|xs| - 1]];
    }
  }

  /** A string already seen is not looked up again: the cache stays as it is. */
  lemma CacheOfSnoc<M>(xs: seq<string>, s: string, lookup: string -> M)
    ensures s in CacheOf(xs, lookup) <==> s in xs
    ensures s in CacheOf(xs + [s], lookup) && CacheOf(xs + [s], lookup)[s] == lookup(s)
    ensures CacheOf(xs + [s], lookup) == if s in xs then CacheOf(xs, lookup) else CacheOf(xs, lookup)[s := lookup(s)]
  {
    CacheOfMembers(xs, lookup);
    assert (xs + [s])[..|xs|] == xs;
    var c := CacheOf(xs, lookup);
    if s in xs {
      assert c[s := lookup(s)] == c;
    }
  }

  /** One pass of the inner loop over one side: every symbols string not yet in
      the cache is looked up once and stored; each species gets the cached result. */
  method ResolveSide<M>(symbols: seq<string>, ghost seen: seq<string>, cache: map<string, M>,
                        lookups: seq<string>, lookup: string -> M)
    returns (unique: seq<M>, cache': map<string, M>, lookups': seq<string>)
    requires cache == CacheOf(seen, lookup)
    requires lookups == FirstOccurrences(seen)
    ensures |unique| == |symbols| && forall i :: 0 <= i < |symbols| ==> unique[i] == lookup(symbols[i])
    ensures cache' == CacheOf(seen + symbols, lookup)
    ensures lookups' == FirstOccurrences(seen + symbols)
  {
    unique, cache', lookups' := [], cache, lookups;
    ghost var visited := seen;
    assert seen + symbols[..0] == seen;
    for i := 0 to |symbols|
      invariant visited == seen + symbols[..i]
      invariant |unique| == i && forall k :: 0 <= k < i ==> unique[k] == lookup(symbols[k])
      invariant cache' == CacheOf(visited, lookup)
      invariant lookups' == FirstOccurrences(visited)
    {
      var s := symbols[i];
      PrefixSnoc(symbols, i);
      FirstOccurrencesSnoc(visited, s);
      CacheOfSnoc(visited, s, lookup);
      if s !in cache' {
        cache' := cache'[s := lookup(s)];
        lookups' := lookups' + [s];
      }
      unique := unique + [cache'[s]];
      visited := visited + [s];
    }
    assert symbols[..|symbols|] == symbols;
  }

  /** The two-side loop of `prepare_react_list` over the species of the last reaction. */
  method ResolveMinima<M>(rSymbols: seq<string>, pSymbols: seq<string>, lookup: string -> M)
    returns (rUnique: seq<M>, pUnique: seq<M>, lookups: seq<string>)
    ensures |rUnique| == |rSymbols| && forall i :: 0 <= i < |rSymbols| ==> rUnique[i] == lookup(rSymbols[i])
    ensures |pUnique| == |pSymbols| && forall i :: 0 <= i < |pSymbols| ==> pUnique[i] == lookup(pSymbols[i])
    ensures lookups == FirstOccurrences(rSymbols + pSymbols)
  {
    var cache: map<string, M> := map[];
    assert FirstOccurrences([]) == [] && CacheOf([], lookup) == cache;
    var c1, l1;
    rUnique, c1, l1 := ResolveSide(rSymbols, [], cache, [], lookup);
    assert [] + rSymbols == rSymbols;
    var c2;
    pUnique, c2, lookups := ResolveSide(pSymbols, rSymbols, c1, l1, lookup);
  }

  /** `get_all_species` is called exactly once for each distinct symbols string of the last reaction. */
  lemma LookupsOncePerSymbol(rSymbols: seq<string>, pSymbols: seq<string>)
    ensures var calls := FirstOccurrences(rSymbols + pSymbols);
      (forall x :: x in calls <==> x in rSymbols || x in pSymbols)
      && forall i, j :: 0 <= i < j < |calls| ==> calls[i] != calls[j]
  {
    FirstOccurrencesMembers(rSymbols + pSymbols);
  }

  // ---------------------------------------------------------------------
  // Isomorphism deduplication

  /** The isomorphism loop's test: some already-kept species is isomorphic to x. */
  function AnyIso<Sp>(iso: (Sp, Sp) -> bool): (Sp, seq<Sp>) -> bool
  {
    (x: Sp, kept: seq<Sp>) => exists i :: 0 <= i < |kept| && iso(x, kept[i])
  }

  lemma AnyIsoMatchesSomeMember<Sp(!new)>(iso: (Sp, Sp) -> bool)
    ensures MatchesSomeMember(AnyIso(iso), iso) && EmptyNeverMatches(AnyIso(iso))
  {
    forall x, ks: seq<Sp> ensures AnyIso(iso)(x, ks) <==> exists u :: u in ks && iso(x, u) {
      if exists u :: u in ks && iso(x, u) {
        var u :| u in ks && iso(x, u);
        var i :| 0 <= i < |ks| && ks[i] == u;
      }
    }
  }

  /** The inner `for species2 in good_adsorbate` loop, which breaks at the first match. */
  method IsomorphicToKept<Sp>(s1: Sp, kept: seq<Sp>, iso: (Sp, Sp) -> bool) returns (found: bool)
    ensures found <==> exists i :: 0 <= i < |kept| && iso(s1, kept[i])
  {
    found := false;
    var k := 0;
    while k < |kept| && !found
      invariant 0 <= k <= |kept|
      invariant found <==> exists i :: 0 <= i < k && iso(s1, kept[i])
    {
      if iso(s1, kept[k]) {
        found := true;
      }
      k := k + 1;
    }
  }

  /** `[get_3D_positions(s) for s in species]` */
  function Placed<Sp, I>(species: seq<Sp>, place: Sp -> I): (images: seq<I>)
    ensures |images| == |species| && forall i :: 0 <= i < |species| ==> images[i] == place(species[i])
  {
    seq(|species|, i requires 0 <= i < |species| => place(species[i]))
  }

  lemma PlacedSnoc<Sp, I>(species: seq<Sp>, s: Sp, place: Sp -> I)
    ensures Placed(species + [s], place) == Placed(species, place) + [place(s)]
  {
  }

  /** One turn of the deduplication loop: species t is kept exactly when no
      species kept so far is isomorphic to it. */
  lemma DedupStep<Sp, B>(species: seq<Sp>, bonds: seq<B>, iso: (Sp, Sp) -> bool, t: nat, ks: seq<nat>, found: bool)
    requires t < |species| && t < |bonds|
    requires ks == KeptPositions(species[..t], AnyIso(iso))
    requires forall i :: 0 <= i < |ks| ==> ks[i] < t
    requires found <==> exists i :: 0 <= i < |ks| && iso(species[t], Select(species, ks)[i])
    ensures var ks' := if found then ks else ks + [t];
      && ks' == KeptPositions(species[..t + 1], AnyIso(iso))
      && (forall i :: 0 <= i < |ks'| ==> ks'[i] < t + 1)
      && Select(species, ks') == (if found then Select(species, ks) else Select(species, ks) + [species[t]])
      && Select(bonds, ks') == (if found then Select(bonds, ks) else Select(bonds, ks) + [bonds[t]])
  {
    var cmp := AnyIso(iso);
    assert found == cmp(species[t], Select(species, ks));
    KeptPositionsStep(species, t, cmp);
    SelectSnoc(species, ks, t);
    SelectSnoc(bonds, ks, t);
  }

  /** The loop over `zip(speciesInd, bonds)` with its inner `for ... else`: a species
      is kept, with its bond list and its 3-D placement, when no kept species is
      isomorphic to it. */
  method DedupIsomorphic<Sp, B, I>(species: seq<Sp>, bonds: seq<B>, iso: (Sp, Sp) -> bool, place: Sp -> I)
    returns (unique: seq<Sp>, uniqueBonds: seq<B>, images: seq<I>)
    ensures var n := if |species| <= |bonds| then |species| else |bonds|;
      var ks := KeptPositions(species[..n], AnyIso(iso));
      unique == Select(species, ks) && uniqueBonds == Select(bonds, ks)
    ensures images == Placed(unique, place)
  {
    var n := if |species| <= |bonds| then |species| else |bonds|;
    unique, uniqueBonds, images := [], [], [];
    ghost var ks: seq<nat> := [];
    for t := 0 to n
      invariant ks == KeptPositions(species[..t], AnyIso(iso))
      invariant forall i :: 0 <= i < |ks| ==> ks[i] < t
      invariant unique == Select(species, ks) && uniqueBonds == Select(bonds, ks)
      invariant images == Placed(unique, place)
    {
      var s1 := species[t];
      var found := IsomorphicToKept(s1, unique, iso);
      DedupStep(species, bonds, iso, t, ks, found);
      if !found {
        PlacedSnoc(unique, s1, place);
        images := images + [place(s1)];
        unique := unique + [s1];
        uniqueBonds := uniqueBonds + [bonds[t]];
        ks := ks + [t];
      }
    }
  }

  /** `prepare_react_list`. With no reaction at all the loop variables `reactants`
      and `products` are never bound and the next statement raises. */
  method PrepareReactList<Sp, B, M, I>(reactions: seq<Reaction<Sp, B>>, symbolsOf: Sp -> string,
                                       lookup: string -> M, iso: (Sp, Sp) -> bool, place: Sp -> I)
    returns (r: Result<Prepared<I>>)
    ensures r == PreparedOf(reactions, symbolsOf, iso, place)
    ensures reactions == [] <==> r == Err(UnboundLocal)
    ensures r.Ok? ==>
      var last := reactions[|reactions| - 1];
      var rNames := Names(last.reactants, symbolsOf);
      var pNames := Names(last.products, symbolsOf);
      var all := AllSpecies(reactions);
      var allBonds := AllBonds(reactions);
      var n := if |all| <= |allBonds| then |all| else |allBonds|;
      && r.value.rNames == rNames && r.value.pNames == pNames
      && r.value.rxnName == ReactionName(rNames, pNames)
      && r.value.side == EnumerationSide(|rNames|, |pNames|)
      && r.value.lookups == FirstOccurrences(rNames + pNames)
      && |r.value.images| == |KeptPositions(all[..n], AnyIso(iso))|
      && forall i :: 0 <= i < |r.value.images| ==>
           r.value.images[i] == place(Kept(all[..n], AnyIso(iso))[i])
  {
    if reactions == [] {
      return Err(UnboundLocal);
    }
    var speciesInd: seq<Sp> := [];
    var bonds: seq<B> := [];
    for i := 0 to |reactions|
      invariant speciesInd == AllSpecies(reactions[..i]) && bonds == AllBonds(reactions[..i])
    {
      assert reactions[..i + 1][..i] == reactions[..i];
      speciesInd := speciesInd + reactions[i].reactants + reactions[i].products;
      bonds := bonds + reactions[i].rbonds + reactions[i].pbonds;
    }
    assert reactions[..|reactions|] == reactions;
    var last := reactions[|reactions| - 1];
    var rNames := Names(last.reactants, symbolsOf);
    var pNames := Names(last.products, symbolsOf);
    var rUnique, pUnique, lookups := ResolveMinima(rNames, pNames, lookup);
    var unique, uniqueBonds, images := DedupIsomorphic(speciesInd, bonds, iso, place);
    r := Ok(Prepared(ReactionName(rNames, pNames), EnumerationSide(|rNames|, |pNames|),
                     rNames, pNames, images, lookups));
    PreparedOfIs(reactions, symbolsOf, iso, place, speciesInd, bonds, images, lookups);
    PreparedOfImages(reactions, symbolsOf, iso, place);
  }

  /** The values the loop of `prepare_react_list` computes are those of `PreparedOf`. */
  lemma PreparedOfIs<Sp, B, I>(reactions: seq<Reaction<Sp, B>>, symbolsOf: Sp -> string,
                               iso: (Sp, Sp) -> bool, place: Sp -> I,
                               speciesInd: seq<Sp>, bonds: seq<B>, images: seq<I>, lookups: seq<string>)
    requires reactions != []
    requires speciesInd == AllSpecies(reactions) && bonds == AllBonds(reactions)
    requires var n := if |speciesInd| <= |bonds| then |speciesInd| else |bonds|;
      images == Placed(Select(speciesInd, KeptPositions(speciesInd[..n], AnyIso(iso))), place)
    requires var last := reactions[|reactions| - 1];
      lookups == FirstOccurrences(Names(last.reactants, symbolsOf) + Names(last.products, symbolsOf))
    ensures var last := reactions[|reactions| - 1];
      var rNames := Names(last.reactants, symbolsOf);
      var pNames := Names(last.products, symbolsOf);
      PreparedOf(reactions, symbolsOf, iso, place)
        == Ok(Prepared(ReactionName(rNames, pNames), EnumerationSide(|rNames|, |pNames|), rNames, pNames, images, lookups))
  {
    var n := if |speciesInd| <= |bonds| then |speciesInd| else |bonds|;
    SelectPrefix(speciesInd, KeptPositions(speciesInd[..n], AnyIso(iso)), n);
  }

  /** The images of `PreparedOf`, one per species kept by the filter, in order. */
  lemma PreparedOfImages<Sp, B, I>(reactions: seq<Reaction<Sp, B>>, symbolsOf: Sp -> string,
                                   iso: (Sp, Sp) -> bool, place: Sp -> I)
    requires reactions != []
    ensures var all := AllSpecies(reactions);
      var allBonds := AllBonds(reactions);
      var n := if |all| <= |allBonds| then |all| else |allBonds|;
      var images := PreparedOf(reactions, symbolsOf, iso, place).value.images;
      && |images| == |KeptPositions(all[..n], AnyIso(iso))|
      && forall i :: 0 <= i < |images| ==> images[i] == place(Kept(all[..n], AnyIso(iso))[i])
  {
  }

  /** What `prepare_react_list` returns, from the definitions above: the last
      reaction's names, title and enumeration side, the symbols in the order
      they are first looked up, and one image per species of the whole list
      that is not isomorphic to an earlier one. */
  function PreparedOf<Sp, B, I>(reactions: seq<Reaction<Sp, B>>, symbolsOf: Sp -> string,
                                iso: (Sp, Sp) -> bool, place: Sp -> I): Result<Prepared<I>>
  {
    if reactions == [] then Err(UnboundLocal)
    else
      var last := reactions[|reactions| - 1];
      var rNames := Names(last.reactants, symbolsOf);
      var pNames := Names(last.products, symbolsOf);
      var all := AllSpecies(reactions);
      var allBonds := AllBonds(reactions);
      var n := if |all| <= |allBonds| then |all| else |allBonds|;
      Ok(Prepared(ReactionName(rNames, pNames), EnumerationSide(|rNames|, |pNames|), rNames, pNames,
                  Placed(Kept(all[..n], AnyIso(iso)), place), FirstOccurrences(rNames + pNames)))
  }

  /** `speciesInd`: reactants then products of every reaction, in document order. */
  function AllSpecies<Sp, B>(reactions: seq<Reaction<Sp, B>>): (all: seq<Sp>)
  {
    if reactions == [] then []
    else
      var last := reactions[|reactions| - 1];
      AllSpecies(reactions[..|reactions| - 1]) + last.reactants + last.products
  }

  /** `bonds`: the bond lists in the same order as `speciesInd`. */
  function AllBonds<Sp, B>(reactions: seq<Reaction<Sp, B>>): (all: seq<B>)
  {
    if reactions == [] then []
    else
      var last := reactions[|reactions| - 1];
      AllBonds(reactions[..|reactions| - 1]) + last.rbonds + last.pbonds
  }
}
