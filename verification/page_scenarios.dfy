/**
 * What the other parts of the page show for the shipped catalog: the type
 * badges, the evolution chains and the card numbers.
 */
module PageScenarios {
  import opened Wrappers
  import opened Text
  import opened Catalog
  import opened Search
  import opened TypeList
  import opened Chains
  import opened IdLabel

  /** The badge list holds exactly the labels that have a colour. */
  lemma CatalogTypeBadgesHaveColours()
    ensures forall t :: t in AllTypes(PokemonData) <==> t in TypeColors
  {
    var c := PokemonData;
    DistinctElements(FlatTypes(c));
    CatalogWellFormed();
    assert c[0].types[0] == "Трава" && c[0].types[1] == "Яд" && c[3].types[0] == "Огонь";
    assert c[5].types[1] == "Полет" && c[6].types[0] == "Вода" && c[9].types[0] == "Электро";
    assert c[10].types[0] == "Нормал" && c[11].types[0] == "Психо";
  }

  /** Every fixed chain resolves: each of its ids is in the catalog. */
  lemma EvolutionChainsResolve()
    ensures forall chain, id :: chain in EvolutionChains && id in chain ==> HasId(PokemonData, id)
  {
    var c := PokemonData;
    assert c[0].id == 1 && c[1].id == 2 && c[2].id == 3;
    assert c[3].id == 4 && c[4].id == 5 && c[5].id == 6;
    assert c[6].id == 7 && c[7].id == 8 && c[8].id == 9;
  }

  /** The first chain: Бульбазавр → Ивизавр → Венузавр, with level badges 16 and
      32 on the first two, none on the last, and arrows after all but the last. */
  lemma FirstChainCards()
    ensures EvolutionChains[0] == [1, 2, 3]
    ensures forall id :: id in [1, 2, 3] ==> HasId(PokemonData, id)
    ensures var cards := ChainCards(ResolveChain(PokemonData, [1, 2, 3]));
      && |cards| == 3
      && cards[0].pokemon.name == "Бульбазавр" && cards[0].badge == Some(16) && cards[0].arrow
      && cards[1].pokemon.name == "Ивизавр" && cards[1].badge == Some(32) && cards[1].arrow
      && cards[2].pokemon.name == "Венузавр" && cards[2].badge == None && !cards[2].arrow
  {
    EvolutionChainsResolve();
    assert EvolutionChains[0] == [1, 2, 3];
    var r := ResolveChain(PokemonData, [1, 2, 3]);
    CatalogWellFormed();
    ResolveChainIsTheEntryWithThatId(PokemonData, [1, 2, 3], 0, Bulbasaur);
    ResolveChainIsTheEntryWithThatId(PokemonData, [1, 2, 3], 1, Ivysaur);
    ResolveChainIsTheEntryWithThatId(PokemonData, [1, 2, 3], 2, Venusaur);
  }

  /** Card numbers as the page prints them. */
  lemma CardLabels()
    ensures PadId(1) == "001" && PadId(25) == "025" && PadId(150) == "150"
  {
    assert ToDecimal(25) == "25";
    assert ToDecimal(150) == "150";
  }

  /** The padding is applied to the text, so a negative id keeps its sign after the zeros. */
  lemma NegativeIdLabel()
    ensures PadId(-5) == "0-5"
  {
    assert ToDecimal(-5) == "-5";
  }
}
