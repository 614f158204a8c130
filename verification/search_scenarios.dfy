/**
 * What the search tab shows for the shipped catalog, with the Cyrillic and
 * Latin capitals lower-cased by `RussianLower`.
 */
module SearchScenarios {
  import opened Wrappers
  import opened Text
  import opened Catalog
  import opened Search

  /** The type filter is a membership test: Бульбазавр carries two types and
      either of them selects it. */
  lemma TypeFilterIsMembership()
    ensures MatchesType(Bulbasaur, Some("Трава")) && MatchesType(Bulbasaur, Some("Яд"))
    ensures !MatchesType(Bulbasaur, Some("Огонь"))
  {
    assert Bulbasaur.types[1] == "Яд";
  }

  lemma CatalogTypes()
    ensures |PokemonData| == 12
    ensures PokemonData[0].types == PokemonData[1].types == PokemonData[2].types == ["Трава", "Яд"]
    ensures PokemonData[3].types == PokemonData[4].types == ["Огонь"] && PokemonData[5].types == ["Огонь", "Полет"]
    ensures PokemonData[6].types == PokemonData[7].types == PokemonData[8].types == ["Вода"]
    ensures PokemonData[9].types == ["Электро"] && PokemonData[10].types == ["Нормал"] && PokemonData[11].types == ["Психо"]
  {
  }

  lemma WaterEntries()
    ensures forall i :: 0 <= i < |PokemonData| ==> ("Вода" in PokemonData[i].types <==> 6 <= i < 9)
  {
    CatalogTypes();
    forall i | 0 <= i < |PokemonData| ensures "Вода" in PokemonData[i].types <==> 6 <= i < 9 {
      assert i == 0 || i == 1 || i == 2 || i == 3 || i == 4 || i == 5 || i == 6 || i == 7 || i == 8 || i == 9 || i == 10 || i == 11;
    }
  }

  lemma WaterEntriesMatch()
    ensures Filter(PokemonData, "", Some("Вода"), RussianLower) == PokemonData[6..9]
  {
    var c := PokemonData;
    var keep := p => Matches(p, "", Some("Вода"), RussianLower);
    WaterEntries();
    forall i | 0 <= i < |c| ensures keep(c[i]) <==> 6 <= i < 9 {
      ContainsEmpty(LowerCase(c[i].name, RussianLower));
    }
    FilterByBlock(c, keep, 6, 9);
  }

  lemma CatalogSlices()
    ensures PokemonData[6..9] == [Squirtle, Wartortle, Blastoise]
    ensures PokemonData[9..10] == [Pikachu]
  {
  }

  /** Selecting «Вода» with an empty query lists the three water creatures, in catalog order. */
  lemma WaterTypeSelection()
    ensures Filter(PokemonData, "", Some("Вода"), RussianLower) == [Squirtle, Wartortle, Blastoise]
  {
    WaterEntriesMatch();
    CatalogSlices();
  }

  /** A query starting with a small letter is not found in a name that holds
      neither that letter nor its capital. */
  lemma NotFoundByFirstLetter(name: string, query: string)
    requires |query| > 0
    requires 'а' <= query[0] <= 'я' || 'a' <= query[0] <= 'z'
    requires query[0] !in name && (query[0] as int - 32) as char !in name
    ensures !Contains(LowerCase(name, RussianLower), LowerCase(query, RussianLower))
  {
    var h, n := LowerCase(name, RussianLower), LowerCase(query, RussianLower);
    assert n[0] == query[0];
    forall k | 0 <= k < |h| ensures h[k] != n[0] {
      assert name[k] in name;
      if h[k] == n[0] {
        RussianLowerPreimage(name[k], query[0]);
      }
    }
    if Contains(h, n) {
      ContainsFirstChar(h, n);
    }
  }

  lemma CatalogNames()
    ensures |PokemonData| == 12
    ensures PokemonData[0].name == "Бульбазавр" && PokemonData[1].name == "Ивизавр" && PokemonData[2].name == "Венузавр"
    ensures PokemonData[3].name == "Чармандер" && PokemonData[4].name == "Чармелеон" && PokemonData[5].name == "Чаризард"
    ensures PokemonData[6].name == "Сквиртл" && PokemonData[7].name == "Вартортл" && PokemonData[8].name == "Бластойз"
    ensures PokemonData[9].name == "Пикачу" && PokemonData[10].name == "Иви" && PokemonData[11].name == "Мьюту"
  {
  }

  lemma EarlyNamesLackP()
    ensures forall i :: 0 <= i < 6 ==> 'п' !in PokemonData[i].name && 'П' !in PokemonData[i].name
  {
    CatalogNames();
    forall i | 0 <= i < 6 ensures 'п' !in PokemonData[i].name && 'П' !in PokemonData[i].name {
      assert i == 0 || i == 1 || i == 2 || i == 3 || i == 4 || i == 5;
    }
  }

  lemma LateNamesLackP()
    ensures forall i :: 6 <= i < |PokemonData| && i != 9 ==> 'п' !in PokemonData[i].name && 'П' !in PokemonData[i].name
  {
    CatalogNames();
    forall i | 6 <= i < |PokemonData| && i != 9 ensures 'п' !in PokemonData[i].name && 'П' !in PokemonData[i].name {
      assert i == 6 || i == 7 || i == 8 || i == 10 || i == 11;
    }
  }

  lemma PikachuMatchesPika()
    ensures Matches(PokemonData[9], "пика", None, RussianLower)
  {
    CatalogNames();
    var h := LowerCase(PokemonData[9].name, RussianLower);
    var n := LowerCase("пика", RussianLower);
    assert h[0] == 'п' && h[1] == 'и' && h[2] == 'к' && h[3] == 'а';
    assert n == h[..4];
  }

  lemma OthersMissPika()
    ensures forall i :: 0 <= i < |PokemonData| && i != 9 ==> !Matches(PokemonData[i], "пика", None, RussianLower)
  {
    EarlyNamesLackP();
    LateNamesLackP();
    forall i | 0 <= i < |PokemonData| && i != 9 ensures !Matches(PokemonData[i], "пика", None, RussianLower) {
      NotFoundByFirstLetter(PokemonData[i].name, "пика");
    }
  }

  /** «пика» finds Пикачу and nothing else. */
  lemma PikaFindsPikachu()
    ensures Filter(PokemonData, "пика", None, RussianLower) == [Pikachu]
  {
    PikachuMatchesPika();
    OthersMissPika();
    FilterByBlock(PokemonData, p => Matches(p, "пика", None, RussianLower), 9, 10);
    CatalogSlices();
  }
}
