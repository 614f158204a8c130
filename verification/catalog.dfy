/**
 * The catalog store of the Pokédex page: the record type of one creature, the
 * constant table of twelve creatures, the colour of each type label and the
 * three fixed evolution chains.
 */
module Catalog {
  import opened Wrappers

  /** Where a creature stands in its evolution line. `from` and `to` are display
      names only; they are never resolved against the catalog. */
  datatype Evolution = Evolution(from: Option<string>, to: Option<string>, level: Option<int>)

  datatype Pokemon = Pokemon(
    id: int,
    name: string,
    types: seq<string>,
    image: Artwork,
    evolution: Option<Evolution>)

  /** Every picture is the official artwork of one sprite number; the record
      keeps the number and `Url` spells out the address the page loads. */
  datatype Artwork = Artwork(sprite: string)
  {
    function Url(): string
    {
      "https://raw.githubusercontent.com/PokeAPI/sprites/master/sprites/pokemon/other/official-artwork/" + sprite + ".png"
    }
  }

  const Bulbasaur := Pokemon(1, "Бульбазавр", ["Трава", "Яд"], Artwork("1"),
    Some(Evolution(None, Some("Ивизавр"), Some(16))))
  const Ivysaur := Pokemon(2, "Ивизавр", ["Трава", "Яд"], Artwork("2"),
    Some(Evolution(Some("Бульбазавр"), Some("Венузавр"), Some(32))))
  const Venusaur := Pokemon(3, "Венузавр", ["Трава", "Яд"], Artwork("3"),
    Some(Evolution(Some("Ивизавр"), None, None)))
  const Charmander := Pokemon(4, "Чармандер", ["Огонь"], Artwork("4"),
    Some(Evolution(None, Some("Чармелеон"), Some(16))))
  const Charmeleon := Pokemon(5, "Чармелеон", ["Огонь"], Artwork("5"),
    Some(Evolution(Some("Чармандер"), Some("Чаризард"), Some(36))))
  const Charizard := Pokemon(6, "Чаризард", ["Огонь", "Полет"], Artwork("6"),
    Some(Evolution(Some("Чармелеон"), None, None)))
  const Squirtle := Pokemon(7, "Сквиртл", ["Вода"], Artwork("7"),
    Some(Evolution(None, Some("Вартортл"), Some(16))))
  const Wartortle := Pokemon(8, "Вартортл", ["Вода"], Artwork("8"),
    Some(Evolution(Some("Сквиртл"), Some("Бластойз"), Some(36))))
  const Blastoise := Pokemon(9, "Бластойз", ["Вода"], Artwork("9"),
    Some(Evolution(Some("Вартортл"), None, None)))
  const Pikachu := Pokemon(25, "Пикачу", ["Электро"], Artwork("25"),
    Some(Evolution(Some("Пичу"), Some("Райчу"), None)))
  const Eevee := Pokemon(133, "Иви", ["Нормал"], Artwork("133"),
    Some(Evolution(None, Some("Вапореон/Джолтеон/Флареон"), None)))
  const Mewtwo := Pokemon(150, "Мьюту", ["Психо"], Artwork("150"), None)

  /** The whole catalog, in display order. */
  const PokemonData: seq<Pokemon> := [
    Bulbasaur, Ivysaur, Venusaur,
    Charmander, Charmeleon, Charizard,
    Squirtle, Wartortle, Blastoise,
    Pikachu, Eevee, Mewtwo
  ]

  /** Background colour class of each type badge. */
  const TypeColors: map<string, string> := map[
    "Трава" := "bg-green-500",
    "Яд" := "bg-purple-500",
    "Огонь" := "bg-red-500",
    "Вода" := "bg-blue-500",
    "Электро" := "bg-yellow-500",
    "Полет" := "bg-sky-400",
    "Нормал" := "bg-gray-400",
    "Психо" := "bg-pink-500"
  ]

  /** The evolution lines shown on the evolutions tab, as lists of ids. */
  const EvolutionChains: seq<seq<int>> := [[1, 2, 3], [4, 5, 6], [7, 8, 9]]

  /** No two records share an id: the id is the lookup key of the chains. */
  predicate UniqueIds(c: seq<Pokemon>)
  {
    forall i, j :: 0 <= i < j < |c| ==> c[i].id != c[j].id
  }

  /** The data invariants of the catalog: ids positive and unique, every
      creature has at least one type and every type has a colour. */
  predicate WellFormed(c: seq<Pokemon>, colors: map<string, string>)
  {
    && UniqueIds(c)
    && (forall i :: 0 <= i < |c| ==> c[i].id > 0 && |c[i].types| > 0)
    && (forall i, t :: 0 <= i < |c| && t in c[i].types ==> t in colors)
  }

  lemma CatalogIds()
    ensures UniqueIds(PokemonData)
    ensures forall i :: 0 <= i < |PokemonData| ==> PokemonData[i].id > 0 && |PokemonData[i].types| > 0
  {
  }

  lemma CatalogTypesColoured()
    ensures forall i, t :: 0 <= i < |PokemonData| && t in PokemonData[i].types ==> t in TypeColors
  {
    forall i, t | 0 <= i < |PokemonData| && t in PokemonData[i].types ensures t in TypeColors {
      assert PokemonData[i] in PokemonData;
    }
  }

  /** The shipped table meets the data invariants. */
  lemma CatalogWellFormed()
    ensures WellFormed(PokemonData, TypeColors)
  {
    CatalogIds();
    CatalogTypesColoured();
  }
}
