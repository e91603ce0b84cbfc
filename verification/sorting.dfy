/**
  The five orderings of the catalog view and the sort that applies them.
  `Array.prototype.sort` is stable (ECMA-262 since 2019), so the model is a
  stable insertion sort under the comparator each mode selects.
*/
module Sorting {
  import opened Text
  import opened Seqs
  import opened Records

  datatype SortMode = ByName | PriceLow | PriceHigh | TopRated | Popular

  /** The value of the "sort by" select; any value other than the four named ones sorts by name. */
  function ParseSortMode(sortBy: string): (m: SortMode)
    ensures m == PriceLow <==> sortBy == "price-low"
    ensures m == PriceHigh <==> sortBy == "price-high"
    ensures m == TopRated <==> sortBy == "rating"
    ensures m == Popular <==> sortBy == "popular"
    ensures m == ByName <==> sortBy != "price-low" && sortBy != "price-high" && sortBy != "rating" && sortBy != "popular"
  {
    if sortBy == "price-low" then PriceLow
    else if sortBy == "price-high" then PriceHigh
    else if sortBy == "rating" then TopRated
    else if sortBy == "popular" then Popular
    else ByName
  }

  /** `a` may come before `b`: the mode's comparator is not positive on `(a, b)`. */
  predicate Le(mode: SortMode, a: Listing, b: Listing) {
    match mode
    case PriceLow => a.product.price <= b.product.price
    case PriceHigh => a.product.price >= b.product.price
    case TopRated => a.product.rating >= b.product.rating
    case Popular => a.product.reviews >= b.product.reviews
    case ByName => StrLe(a.product.name, b.product.name)
  }

  lemma LeTotal(mode: SortMode, a: Listing, b: Listing)
    ensures Le(mode, a, b) || Le(mode, b, a)
  {
    if mode == ByName {
      StrLeTotal(a.product.name, b.product.name);
    }
  }

  lemma LeTrans(mode: SortMode, a: Listing, b: Listing, c: Listing)
    requires Le(mode, a, b) && Le(mode, b, c)
    ensures Le(mode, a, c)
  {
    if mode == ByName {
      StrLeTrans(a.product.name, b.product.name, c.product.name);
    }
  }

  predicate Sorted(mode: SortMode, s: seq<Listing>) {
    forall i, j :: 0 <= i < j < |s| ==> Le(mode, s[i], s[j])
  }

  /** Places `x` into the sorted `s`, after every element that is not strictly greater than it. */
  function Insert(mode: SortMode, x: Listing, s: seq<Listing>): seq<Listing>
    decreases |s|
  {
    if s == [] then [x]
    else if !Le(mode, s[0], x) then [x] + s
    else [s[0]] + Insert(mode, x, s[1..])
  }

  /** Insertion sort: each element, taken in input order, is inserted after its equals. */
  function InsertionSort(mode: SortMode, s: seq<Listing>): seq<Listing>
    decreases |s|
  {
    if s == [] then [] else Insert(mode, s[|s| - 1], InsertionSort(mode, s[..|s| - 1]))
  }

  lemma {:induction false} InsertPermutes(mode: SortMode, x: Listing, s: seq<Listing>)
    ensures multiset(Insert(mode, x, s)) == multiset(s) + multiset{x}
    decreases |s|
  {
    if s != [] && Le(mode, s[0], x) {
      InsertPermutes(mode, x, s[1..]);
      assert s == [s[0]] + s[1..];
    }
  }

  lemma {:induction false} InsertSorted(mode: SortMode, x: Listing, s: seq<Listing>)
    requires Sorted(mode, s)
    ensures Sorted(mode, Insert(mode, x, s))
    decreases |s|
  {
    if s == [] {
    } else if !Le(mode, s[0], x) {
      LeTotal(mode, s[0], x);
      forall j | 0 <= j < |s| ensures Le(mode, x, s[j]) {
        if j > 0 {
          LeTrans(mode, x, s[0], s[j]);
        }
      }
    } else {
      var t := Insert(mode, x, s[1..]);
      InsertSorted(mode, x, s[1..]);
      InsertPermutes(mode, x, s[1..]);
      forall j | 0 <= j < |t| ensures Le(mode, s[0], t[j]) {
        assert t[j] in multiset(t);
        if t[j] != x {
          assert t[j] in multiset(s[1..]);
          var k :| 0 <= k < |s[1..]| && s[1..][k] == t[j];
          assert s[k + 1] == t[j];
        }
      }
    }
  }

  /** The sort returns a permutation of its input, ordered by the mode. */
  lemma {:induction false} InsertionSortCorrect(mode: SortMode, s: seq<Listing>)
    ensures Sorted(mode, InsertionSort(mode, s))
    ensures multiset(InsertionSort(mode, s)) == multiset(s)
    decreases |s|
  {
    if s != [] {
      var init := s[..|s| - 1];
      InsertionSortCorrect(mode, init);
      InsertSorted(mode, s[|s| - 1], InsertionSort(mode, init));
      InsertPermutes(mode, s[|s| - 1], InsertionSort(mode, init));
      assert s == init + [s[|s| - 1]];
    }
  }

  /**
    `[...list].sort(comparator)`: a new, sorted permutation of `list`; the
    list itself is a value and is left as it was.
  */
  function SortListings(mode: SortMode, s: seq<Listing>): (r: seq<Listing>)
    ensures multiset(r) == multiset(s)
    ensures |r| == |s|
    ensures mode == PriceLow ==> forall i, j :: 0 <= i < j < |r| ==> r[i].product.price <= r[j].product.price
    ensures mode == PriceHigh ==> forall i, j :: 0 <= i < j < |r| ==> r[i].product.price >= r[j].product.price
    ensures mode == TopRated ==> forall i, j :: 0 <= i < j < |r| ==> r[i].product.rating >= r[j].product.rating
    ensures mode == Popular ==> forall i, j :: 0 <= i < j < |r| ==> r[i].product.reviews >= r[j].product.reviews
    ensures mode == ByName ==> forall i, j :: 0 <= i < j < |r| ==> StrLe(r[i].product.name, r[j].product.name)
  {
    InsertionSortCorrect(mode, s);
    assert |InsertionSort(mode, s)| == |multiset(InsertionSort(mode, s))|;
    InsertionSort(mode, s)
  }

  /** Inserting an element no smaller than everything in `s` appends it. */
  lemma {:induction false} InsertGreatest(mode: SortMode, x: Listing, s: seq<Listing>)
    requires forall i :: 0 <= i < |s| ==> Le(mode, s[i], x)
    ensures Insert(mode, x, s) == s + [x]
    decreases |s|
  {
    if s != [] {
      InsertGreatest(mode, x, s[1..]);
    }
  }

  /** Sorting a list that is already in order leaves it unchanged. */
  lemma {:induction false} SortSortedIsIdentity(mode: SortMode, s: seq<Listing>)
    requires Sorted(mode, s)
    ensures SortListings(mode, s) == s
    decreases |s|
  {
    if s != [] {
      var init := s[..|s| - 1];
      SortSortedIsIdentity(mode, init);
      InsertGreatest(mode, s[|s| - 1], init);
      assert s == init + [s[|s| - 1]];
    }
  }

  /** Sorting twice is sorting once. */
  lemma SortIdempotent(mode: SortMode, s: seq<Listing>)
    ensures SortListings(mode, SortListings(mode, s)) == SortListings(mode, s)
  {
    InsertionSortCorrect(mode, s);
    SortSortedIsIdentity(mode, SortListings(mode, s));
  }

  /** `y` compares equal to `k` under the mode: the comparator returns 0 for them. */
  function TiedWith(mode: SortMode, k: Listing): Listing -> bool {
    y => Le(mode, y, k) && Le(mode, k, y)
  }

  /** Nothing in a sorted list that starts strictly above `x` ties with anything `x` ties with. */
  lemma NoTieAbove(mode: SortMode, k: Listing, x: Listing, s: seq<Listing>)
    requires Sorted(mode, s) && s != [] && !Le(mode, s[0], x)
    requires TiedWith(mode, k)(x)
    ensures forall j :: 0 <= j < |s| ==> !TiedWith(mode, k)(s[j])
  {
    forall j | 0 <= j < |s| ensures !TiedWith(mode, k)(s[j]) {
      if TiedWith(mode, k)(s[j]) {
        LeTrans(mode, s[j], k, x);
        if j > 0 {
          LeTrans(mode, s[0], s[j], x);
        }
      }
    }
  }

  lemma {:induction false} InsertStable(mode: SortMode, k: Listing, x: Listing, s: seq<Listing>)
    requires Sorted(mode, s)
    ensures Filter(TiedWith(mode, k), Insert(mode, x, s))
         == Filter(TiedWith(mode, k), s) + (if TiedWith(mode, k)(x) then [x] else [])
    decreases |s|
  {
    var tied := TiedWith(mode, k);
    if s == [] {
    } else if !Le(mode, s[0], x) {
      FilterCons(tied, x, s);
      if tied(x) {
        NoTieAbove(mode, k, x, s);
        FilterNone(tied, s);
      }
    } else {
      var rest := s[1..];
      assert s == [s[0]] + rest;
      assert Sorted(mode, rest);
      InsertStable(mode, k, x, rest);
      FilterCons(tied, s[0], Insert(mode, x, rest));
      FilterCons(tied, s[0], rest);
    }
  }

  lemma {:induction false} InsertionSortStable(mode: SortMode, k: Listing, s: seq<Listing>)
    ensures Filter(TiedWith(mode, k), InsertionSort(mode, s)) == Filter(TiedWith(mode, k), s)
    decreases |s|
  {
    if s != [] {
      var tied := TiedWith(mode, k);
      var init := s[..|s| - 1];
      var last := s[|s| - 1];
      var sortedInit := InsertionSort(mode, init);
      var tail := if tied(last) then [last] else [];
      assert Sorted(mode, sortedInit) by {
        InsertionSortCorrect(mode, init);
      }
      calc {
        Filter(tied, InsertionSort(mode, s));
        Filter(tied, Insert(mode, last, sortedInit));
        { InsertStable(mode, k, last, sortedInit); }
        Filter(tied, sortedInit) + tail;
        { InsertionSortStable(mode, k, init); }
        Filter(tied, init) + tail;
        { assert Filter(tied, [last]) == tail; }
        Filter(tied, init) + Filter(tied, [last]);
        { FilterAppend(tied, init, [last]); }
        Filter(tied, init + [last]);
        { assert s == init + [last]; }
        Filter(tied, s);
      }
    }
  }

  /**
    The sort is stable: listings that compare equal keep the order they had
    in the input.
  */
  lemma SortStable(mode: SortMode, k: Listing, s: seq<Listing>)
    ensures Filter(TiedWith(mode, k), SortListings(mode, s)) == Filter(TiedWith(mode, k), s)
  {
    InsertionSortStable(mode, k, s);
  }
}
