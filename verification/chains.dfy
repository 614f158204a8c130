/**
 * The evolutions tab: each fixed chain of ids is resolved against the catalog
 * (`chain.map(id => pokemonData.find(p => p.id === id)!)`), then every resolved
 * card gets its level badge and, unless it is the last, an arrow to the next.
 */
module Chains {
  import opened Wrappers
  import opened Catalog

  /** `c.find(p => p.id === id)`: the first entry with that id, if any. */
  function Find(c: seq<Pokemon>, id: int): (r: Option<Pokemon>)
    ensures r.None? <==> forall k :: 0 <= k < |c| ==> c[k].id != id
    ensures r.Some? ==> r.value in c && r.value.id == id
    ensures forall k :: (0 <= k < |c| && c[k].id == id && (forall j :: 0 <= j < k ==> c[j].id != id)) ==> r == Some(c[k])
  {
    if c == [] then None
    else if c[0].id == id then Some(c[0])
    else
      var r := Find(c[1..], id);
      assert forall k :: 1 <= k < |c| ==> c[1..][k - 1] == c[k];
      r
  }

  predicate HasId(c: seq<Pokemon>, id: int)
  {
    exists k :: 0 <= k < |c| && c[k].id == id
  }

  /** The chain's ids resolved in order. A missing id would make `find` give
      `undefined` and rendering then fail at `pokemon.id` (Index.tsx:215); the
      model requires instead that every id is in the catalog. */
  function ResolveChain(c: seq<Pokemon>, ids: seq<int>): (r: seq<Pokemon>)
    requires forall id :: id in ids ==> HasId(c, id)
    ensures |r| == |ids|
    ensures forall i :: 0 <= i < |ids| ==> r[i] in c && r[i].id == ids[i]
    ensures forall i :: 0 <= i < |ids| ==> Find(c, ids[i]) == Some(r[i])
  {
    if ids == [] then []
    else
      assert ids[0] in ids && HasId(c, ids[0]);
      var first := Find(c, ids[0]);
      var rest := ResolveChain(c, ids[1..]);
      assert forall i :: 1 <= i < |ids| ==> ids[1..][i - 1] == ids[i];
      [first.value] + rest
  }

  /** With unique ids, the i-th resolved card is the one catalog entry carrying the i-th id. */
  lemma ResolveChainIsTheEntryWithThatId(c: seq<Pokemon>, ids: seq<int>, i: nat, p: Pokemon)
    requires UniqueIds(c)
    requires forall id :: id in ids ==> HasId(c, id)
    requires i < |ids| && p in c && p.id == ids[i]
    ensures ResolveChain(c, ids)[i] == p
  {
    var r := ResolveChain(c, ids);
    var a :| 0 <= a < |c| && c[a] == r[i];
    var b :| 0 <= b < |c| && c[b] == p;
    assert a == b;
  }

  /** JavaScript truthiness of a number: every number but zero (NaN is not an integer). */
  predicate Truthy(n: int)
  {
    n != 0
  }

  /** `pokemon.evolution?.level && <badge>`: the level shown under a card, if any. */
  function LevelBadge(p: Pokemon): (r: Option<int>)
    ensures r.Some? <==> p.evolution.Some? && p.evolution.value.level.Some? && p.evolution.value.level.value != 0
    ensures r.Some? ==> r == p.evolution.value.level
  {
    match p.evolution
    case None => None
    case Some(e) =>
      match e.level
      case Some(n) => if Truthy(n) then Some(n) else None
      case None => None
  }

  /** One card of a rendered chain. */
  datatype ChainCard = ChainCard(pokemon: Pokemon, badge: Option<int>, arrow: bool)

  /** The cards of one resolved chain, in order: `i < chainPokemon.length - 1` decides the arrow. */
  function ChainCards(chain: seq<Pokemon>): (r: seq<ChainCard>)
    ensures |r| == |chain|
    ensures forall i :: 0 <= i < |r| ==> r[i].pokemon == chain[i] && r[i].badge == LevelBadge(chain[i])
    ensures forall i :: 0 <= i < |r| ==> (r[i].arrow <==> i + 1 < |chain|)
  {
    seq(|chain|, i requires 0 <= i < |chain| => ChainCard(chain[i], LevelBadge(chain[i]), i < |chain| - 1))
  }

  function CountArrows(cards: seq<ChainCard>): nat
  {
    if cards == [] then 0 else (if cards[0].arrow then 1 else 0) + CountArrows(cards[1..])
  }

  /** A chain of n cards has n - 1 arrows: one between each consecutive pair. */
  lemma {:induction false} ArrowsBetweenCards(chain: seq<Pokemon>)
    requires |chain| > 0
    ensures CountArrows(ChainCards(chain)) == |chain| - 1
  {
    var cards := ChainCards(chain);
    ArrowCountPrefix(cards, |cards| - 1);
  }

  lemma {:induction false} ArrowCountPrefix(cards: seq<ChainCard>, n: nat)
    requires n <= |cards|
    requires forall i :: 0 <= i < |cards| ==> (cards[i].arrow <==> i < n)
    ensures CountArrows(cards) == n
    decreases |cards|
  {
    if cards != [] {
      var rest := cards[1..];
      var m := if n > 0 then n - 1 else 0;
      assert forall i :: 0 <= i < |rest| ==> rest[i] == cards[i + 1];
      ArrowCountPrefix(rest, m);
    }
  }
}
