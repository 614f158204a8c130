/**
 * The search tab's derived list: the catalog entries whose lower-cased name
 * contains the lower-cased query and that carry the selected type, if any.
 * The two pieces of view state (query text and selected type) are inputs; the
 * case mapping is a parameter.
 */
module Search {
  import opened Wrappers
  import opened Text
  import opened Catalog

  /** `s.filter(keep)`: the elements `keep` accepts, in their original order. */
  function FilterBy<T>(s: seq<T>, keep: T -> bool): (r: seq<T>)
    ensures |r| <= |s|
  {
    if s == [] then []
    else (if keep(s[0]) then [s[0]] else []) + FilterBy(s[1..], keep)
  }

  /** An element is in the result exactly when it is in the input and accepted. */
  lemma {:induction false} FilterByMembership<T>(s: seq<T>, keep: T -> bool, x: T)
    ensures x in FilterBy(s, keep) <==> x in s && keep(x)
    decreases |s|
  {
    if s != [] {
      FilterByMembership(s[1..], keep, x);
      assert s == [s[0]] + s[1..];
    }
  }

  /** The positions of the accepted elements, ascending: an independent
      description of what the filter keeps. */
  function KeptPositions<T>(s: seq<T>, keep: T -> bool): seq<nat>
  {
    if s == [] then []
    else
      var last := |s| - 1;
      KeptPositions(s[..last], keep) + (if keep(s[last]) then [last] else [])
  }

  /** Filtering distributes over concatenation. */
  lemma {:induction false} FilterByAppend<T>(a: seq<T>, b: seq<T>, keep: T -> bool)
    ensures FilterBy(a + b, keep) == FilterBy(a, keep) + FilterBy(b, keep)
    decreases |a|
  {
    if a == [] {
      assert a + b == b;
    } else {
      var head := if keep(a[0]) then [a[0]] else [];
      assert (a + b)[0] == a[0];
      assert (a + b)[1..] == a[1..] + b;
      FilterByAppend(a[1..], b, keep);
      calc {
        FilterBy(a + b, keep);
        head + FilterBy(a[1..] + b, keep);
        head + (FilterBy(a[1..], keep) + FilterBy(b, keep));
        (head + FilterBy(a[1..], keep)) + FilterBy(b, keep);
      }
    }
  }

  /** The kept positions are exactly the in-range positions of accepted elements. */
  lemma {:induction false} KeptPositionsExact<T>(s: seq<T>, keep: T -> bool)
    ensures forall i :: i in KeptPositions(s, keep) <==> 0 <= i < |s| && keep(s[i])
    decreases |s|
  {
    if s != [] {
      var last := |s| - 1;
      var front := s[..last];
      KeptPositionsExact(front, keep);
      forall i ensures i in KeptPositions(s, keep) <==> 0 <= i < |s| && keep(s[i]) {
        if 0 <= i < last {
          assert front[i] == s[i];
        }
      }
    }
  }

  predicate StrictlyAscending(idx: seq<nat>)
  {
    forall k, l :: 0 <= k < l < |idx| ==> idx[k] < idx[l]
  }

  /** The kept positions are listed in strictly ascending order. */
  lemma {:induction false} KeptPositionsAscending<T>(s: seq<T>, keep: T -> bool)
    ensures StrictlyAscending(KeptPositions(s, keep))
    decreases |s|
  {
    if s != [] {
      var last := |s| - 1;
      var idx0 := KeptPositions(s[..last], keep);
      KeptPositionsAscending(s[..last], keep);
      KeptPositionsExact(s[..last], keep);
      assert forall k :: 0 <= k < |idx0| ==> idx0[k] in idx0;
      var idx := KeptPositions(s, keep);
      assert idx == idx0 + if keep(s[last]) then [last] else [];
      forall k, l | 0 <= k < l < |idx| ensures idx[k] < idx[l] {
        if l >= |idx0| {
          assert idx[l] == last && idx[k] == idx0[k];
          assert idx0[k] in idx0;
          assert idx0[k] < last;
        } else {
          assert idx[l] == idx0[l] && idx[k] == idx0[k];
          assert idx0[k] < idx0[l];
        }
      }
    }
  }

  /**
   * The result is the subsequence of `s` at exactly the positions whose element
   * is accepted, in ascending order.
   */
  lemma {:induction false} FilterByIsKeptPositions<T>(s: seq<T>, keep: T -> bool)
    ensures var r, idx := FilterBy(s, keep), KeptPositions(s, keep);
      |idx| == |r| && forall k :: 0 <= k < |idx| ==> idx[k] < |s| && r[k] == s[idx[k]]
    decreases |s|
  {
    if s != [] {
      var last := |s| - 1;
      var front := s[..last];
      FilterByIsKeptPositions(front, keep);
      KeptPositionsExact(front, keep);
      var r0, idx0 := FilterBy(front, keep), KeptPositions(front, keep);
      assert forall k :: 0 <= k < |idx0| ==> idx0[k] in idx0;
      assert s == front + [s[last]];
      FilterByAppend(front, [s[last]], keep);
      assert FilterBy([s[last]], keep) == if keep(s[last]) then [s[last]] else [];
    }
  }

  /** When every element is accepted, nothing is removed. */
  lemma {:induction false} FilterByAllAccepted<T>(s: seq<T>, keep: T -> bool)
    requires forall i :: 0 <= i < |s| ==> keep(s[i])
    ensures FilterBy(s, keep) == s
    decreases |s|
  {
    if s != [] {
      assert forall i :: 1 <= i < |s| ==> s[1..][i - 1] == s[i];
      FilterByAllAccepted(s[1..], keep);
    }
  }

  /** When no element is accepted, nothing is left. */
  lemma {:induction false} FilterByNoneAccepted<T>(s: seq<T>, keep: T -> bool)
    requires forall i :: 0 <= i < |s| ==> !keep(s[i])
    ensures FilterBy(s, keep) == []
    decreases |s|
  {
    if s != [] {
      assert forall i :: 1 <= i < |s| ==> s[1..][i - 1] == s[i];
      FilterByNoneAccepted(s[1..], keep);
    }
  }

  /** When the accepted elements form one contiguous block, the result is that block. */
  lemma {:induction false} FilterByBlock<T>(s: seq<T>, keep: T -> bool, lo: nat, hi: nat)
    requires lo <= hi <= |s|
    requires forall i :: 0 <= i < lo ==> !keep(s[i])
    requires forall i :: lo <= i < hi ==> keep(s[i])
    requires forall i :: hi <= i < |s| ==> !keep(s[i])
    ensures FilterBy(s, keep) == s[lo..hi]
    decreases |s|
  {
    if hi == 0 {
      FilterByNoneAccepted(s, keep);
    } else {
      var rest := s[1..];
      assert forall i :: 1 <= i < |s| ==> rest[i - 1] == s[i];
      if lo == 0 {
        FilterByBlock(rest, keep, 0, hi - 1);
        assert s[..hi] == [s[0]] + rest[..hi - 1];
      } else {
        FilterByBlock(rest, keep, lo - 1, hi - 1);
        assert s[lo..hi] == rest[lo - 1..hi - 1];
      }
    }
  }

  /** Two tests that agree on the elements give the same result. */
  lemma {:induction false} FilterBySameTest<T>(s: seq<T>, keep: T -> bool, keep': T -> bool)
    requires forall x :: x in s ==> keep(x) == keep'(x)
    ensures FilterBy(s, keep) == FilterBy(s, keep')
    decreases |s|
  {
    if s != [] {
      FilterBySameTest(s[1..], keep, keep');
    }
  }

  /** Filtering twice by the conjunction's parts is filtering once by the conjunction. */
  lemma {:induction false} FilterByConjunction<T>(s: seq<T>, first: T -> bool, second: T -> bool, both: T -> bool)
    requires forall x :: x in s ==> both(x) == (first(x) && second(x))
    ensures FilterBy(s, both) == FilterBy(FilterBy(s, first), second)
    decreases |s|
  {
    if s != [] {
      var x, rest := s[0], s[1..];
      FilterByConjunction(rest, first, second, both);
      var head := if first(x) then [x] else [];
      assert FilterBy(s, first) == head + FilterBy(rest, first);
      FilterByAppend(head, FilterBy(rest, first), second);
      assert FilterBy(head, second) == if both(x) then [x] else [];
    }
  }

  /** `p.name.toLowerCase().includes(search.toLowerCase())` */
  predicate MatchesSearch(p: Pokemon, search: string, lower: char -> char)
  {
    Contains(LowerCase(p.name, lower), LowerCase(search, lower))
  }

  /** `!selectedType || p.types.includes(selectedType)`: no selection and the
      (falsy) empty label both let every entry through. */
  predicate MatchesType(p: Pokemon, selected: Option<string>)
  {
    match selected
    case None => true
    case Some(t) => t == "" || t in p.types
  }

  predicate Matches(p: Pokemon, search: string, selected: Option<string>, lower: char -> char)
  {
    MatchesSearch(p, search, lower) && MatchesType(p, selected)
  }

  /** `filteredPokemon`: the catalog entries matching the query and the selected type. */
  function Filter(c: seq<Pokemon>, search: string, selected: Option<string>, lower: char -> char): (r: seq<Pokemon>)
    ensures |r| <= |c|
    ensures forall p :: p in r <==> p in c && Matches(p, search, selected, lower)
  {
    var keep := p => Matches(p, search, selected, lower);
    forall p ensures p in FilterBy(c, keep) <==> p in c && keep(p) {
      FilterByMembership(c, keep, p);
    }
    FilterBy(c, keep)
  }

  /**
   * The search result is the subsequence of the catalog at exactly the
   * positions whose entry matches both predicates, in catalog order.
   */
  lemma FilterKeepsMatchingPositionsInOrder(c: seq<Pokemon>, search: string, selected: Option<string>, lower: char -> char)
    ensures var r, idx := Filter(c, search, selected, lower), KeptPositions(c, p => Matches(p, search, selected, lower));
      && |idx| == |r|
      && (forall k :: 0 <= k < |idx| ==> idx[k] < |c| && r[k] == c[idx[k]])
      && StrictlyAscending(idx)
      && (forall i :: 0 <= i < |c| ==> (i in idx <==> Matches(c[i], search, selected, lower)))
  {
    var keep := p => Matches(p, search, selected, lower);
    FilterByIsKeptPositions(c, keep);
    KeptPositionsAscending(c, keep);
    KeptPositionsExact(c, keep);
  }

  /** With an empty query and no selected type the whole catalog is shown. */
  lemma FilterNoCriteria(c: seq<Pokemon>, lower: char -> char)
    ensures Filter(c, "", None, lower) == c
  {
    forall i | 0 <= i < |c| ensures Matches(c[i], "", None, lower) {
      ContainsEmpty(LowerCase(c[i].name, lower));
    }
    FilterByAllAccepted(c, p => Matches(p, "", None, lower));
  }

  /** Selecting the empty label filters nothing more than selecting no type. */
  lemma EmptyLabelIsNoSelection(c: seq<Pokemon>, search: string, lower: char -> char)
    ensures Filter(c, search, Some(""), lower) == Filter(c, search, None, lower)
  {
    FilterBySameTest(c, p => Matches(p, search, Some(""), lower), p => Matches(p, search, None, lower));
  }

  /** Filtering the result again with the same criteria changes nothing. */
  lemma FilterIdempotent(c: seq<Pokemon>, search: string, selected: Option<string>, lower: char -> char)
    ensures var r := Filter(c, search, selected, lower); Filter(r, search, selected, lower) == r
  {
    var r := Filter(c, search, selected, lower);
    assert forall i :: 0 <= i < |r| ==> r[i] in r;
    FilterByAllAccepted(r, p => Matches(p, search, selected, lower));
  }

  /** Both criteria together are the query filter followed by the type filter. */
  lemma FilterComposes(c: seq<Pokemon>, search: string, selected: Option<string>, lower: char -> char)
    ensures Filter(c, search, selected, lower) == Filter(Filter(c, search, None, lower), "", selected, lower)
  {
    var bySearch := p => Matches(p, search, None, lower);
    var byType := p => Matches(p, "", selected, lower);
    forall p | p in c ensures Matches(p, search, selected, lower) == (bySearch(p) && byType(p)) {
      ContainsEmpty(LowerCase(p.name, lower));
    }
    FilterByConjunction(c, bySearch, byType, p => Matches(p, search, selected, lower));
  }

  /** The query is used only in lower-cased form: a query and its lower-cased
      version select the same entries. */
  lemma FilterIgnoresQueryCase(c: seq<Pokemon>, search: string, selected: Option<string>, lower: char -> char)
    requires Idempotent(lower)
    ensures Filter(c, LowerCase(search, lower), selected, lower) == Filter(c, search, selected, lower)
  {
    LowerCaseIdempotent(search, lower);
    FilterBySameTest(c, p => Matches(p, LowerCase(search, lower), selected, lower), p => Matches(p, search, selected, lower));
  }
}
