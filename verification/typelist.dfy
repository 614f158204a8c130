/**
 * The type badges of the search tab:
 * `Array.from(new Set(pokemonData.flatMap(p => p.types)))`. A JavaScript `Set`
 * iterates in insertion order and ignores repeated insertions, so the badges
 * are the distinct type labels in order of first appearance.
 */
module TypeList {
  import opened Wrappers
  import opened Catalog
  import opened Search

  /** `pokemonData.flatMap(p => p.types)`: every type label of every entry, in order. */
  function FlatTypes(c: seq<Pokemon>): (r: seq<string>)
    ensures forall t :: t in r <==> exists i :: 0 <= i < |c| && t in c[i].types
  {
    if c == [] then []
    else
      assert forall i :: 1 <= i < |c| ==> c[1..][i - 1] == c[i];
      c[0].types + FlatTypes(c[1..])
  }

  /** `set.add(x)` on an insertion-ordered set represented by its iteration order. */
  function SetAdd<T(==)>(order: seq<T>, x: T): (r: seq<T>)
    ensures |order| <= |r| && r[..|order|] == order
    ensures x in r
    ensures |r| == if x in order then |order| else |order| + 1
  {
    if x in order then order else order + [x]
  }

  /** `Array.from(new Set(s))`: inserts the elements of `s` one after another. */
  function Distinct<T(==)>(s: seq<T>): seq<T>
    decreases |s|
  {
    if s == [] then [] else SetAdd(Distinct(s[..|s| - 1]), s[|s| - 1])
  }

  /** `allTypes` */
  function AllTypes(c: seq<Pokemon>): (r: seq<string>)
    ensures NoDuplicates(r)
    ensures forall t :: t in r <==> exists i :: 0 <= i < |c| && t in c[i].types
  {
    DistinctElements(FlatTypes(c));
    Distinct(FlatTypes(c))
  }

  predicate NoDuplicates<T(==)>(s: seq<T>)
  {
    forall i, j :: 0 <= i < j < |s| ==> s[i] != s[j]
  }

  /** Position of the first occurrence of `x` in `s`. */
  function FirstIndex<T(==)>(s: seq<T>, x: T): (k: nat)
    requires x in s
    ensures k < |s| && s[k] == x
    ensures forall j :: 0 <= j < k ==> s[j] != x
  {
    if s[0] == x then 0 else 1 + FirstIndex(s[1..], x)
  }

  /** Appending an element does not move the first occurrence of one already present. */
  lemma {:induction false} FirstIndexAppend<T>(s: seq<T>, y: T, x: T)
    requires x in s
    ensures x in s + [y] && FirstIndex(s + [y], x) == FirstIndex(s, x)
  {
    var k := FirstIndex(s, x);
    var k' := FirstIndex(s + [y], x);
    assert (s + [y])[k] == x;
    assert k' <= k;
    assert s[k'] == x;
  }

  /** The distinct elements: no label twice, and exactly the labels of the input. */
  lemma {:induction false} DistinctElements<T>(s: seq<T>)
    ensures NoDuplicates(Distinct(s))
    ensures forall x :: x in Distinct(s) <==> x in s
    decreases |s|
  {
    if s != [] {
      var front := s[..|s| - 1];
      DistinctElements(front);
      assert s == front + [s[|s| - 1]];
    }
  }

  predicate FirstAppearanceOrder<T(==)>(r: seq<T>, s: seq<T>)
    requires forall x :: x in r ==> x in s
  {
    forall i, j :: 0 <= i < j < |r| ==> FirstIndex(s, r[i]) < FirstIndex(s, r[j])
  }

  /** The distinct labels are listed in order of their first appearance in the input. */
  lemma {:induction false} DistinctInFirstAppearanceOrder<T>(s: seq<T>)
    ensures forall x :: x in Distinct(s) ==> x in s
    ensures FirstAppearanceOrder(Distinct(s), s)
    decreases |s|
  {
    DistinctElements(s);
    if s != [] {
      var last := |s| - 1;
      var front := s[..last];
      var y := s[last];
      var d0 := Distinct(front);
      DistinctInFirstAppearanceOrder(front);
      DistinctElements(front);
      assert s == front + [y];
      forall x | x in d0 ensures FirstIndex(s, x) == FirstIndex(front, x) {
        FirstIndexAppend(front, y, x);
      }
      var d := Distinct(s);
      forall i, j | 0 <= i < j < |d| ensures FirstIndex(s, d[i]) < FirstIndex(s, d[j]) {
        assert d[i] in d0;
        if j < |d0| {
          assert d[j] == d0[j] && d[i] == d0[i];
        } else {
          assert y !in d0 && d[j] == y;
          assert y !in front;
          assert FirstIndex(s, y) == last;
        }
      }
    }
  }

  /** Every badge selects at least one entry: the type filter for a listed label
      with an empty query is never empty. */
  lemma EveryTypeBadgeSelectsSomething(c: seq<Pokemon>, t: string, lower: char -> char)
    requires t in AllTypes(c)
    ensures Filter(c, "", Some(t), lower) != []
  {
    DistinctElements(FlatTypes(c));
    var i :| 0 <= i < |c| && t in c[i].types;
    Text.ContainsEmpty(Text.LowerCase(c[i].name, lower));
    assert Matches(c[i], "", Some(t), lower);
    assert c[i] in c;
  }
}
