/**
  The catalog view: attach category names to the fetched products, narrow
  them by the search box and the category select, and order them by the
  chosen sort mode.
*/
module Dashboard {
  import opened Wrappers
  import opened Text
  import opened Numerals
  import opened Seqs
  import opened Records
  import opened Sorting

  /** The first category whose id equals `id`, as its index. */
  function FindCategory(categories: seq<Category>, id: int): (r: Option<nat>)
    ensures r.None? <==> forall k :: 0 <= k < |categories| ==> categories[k].id != id
    ensures r.Some? ==> r.value < |categories| && categories[r.value].id == id
    ensures r.Some? ==> forall k :: 0 <= k < r.value ==> categories[k].id != id
    decreases |categories|
  {
    if categories == [] then None
    else if categories[0].id == id then Some(0)
    else match FindCategory(categories[1..], id)
      case None => None
      case Some(k) => Some(k + 1)
  }

  /** The category name shown on a product: a missing category and an empty name both read "Unknown". */
  function CategoryName(categories: seq<Category>, id: int): (name: string)
    ensures (forall k :: 0 <= k < |categories| ==> categories[k].id != id) ==> name == "Unknown"
    ensures forall k :: 0 <= k < |categories| && categories[k].id == id
                        && (forall j :: 0 <= j < k ==> categories[j].id != id)
                        ==> name == (if categories[k].name == "" then "Unknown" else categories[k].name)
    ensures name != ""
  {
    match FindCategory(categories, id)
    case None => "Unknown"
    case Some(k) => if categories[k].name == "" then "Unknown" else categories[k].name
  }

  /** One listing per product, in the products' order, each carrying its category's name. */
  function Enrich(products: seq<Product>, categories: seq<Category>): (r: seq<Listing>)
    ensures |r| == |products|
    ensures forall i :: 0 <= i < |r| ==> r[i].product == products[i]
    ensures forall i :: 0 <= i < |r| ==> r[i].categoryName == CategoryName(categories, products[i].category)
  {
    seq(|products|, i requires 0 <= i < |products| =>
      Listing(products[i], CategoryName(categories, products[i].category)))
  }

  /** The lower-cased name or description contains the lower-cased query. */
  predicate MatchesSearch(query: string, l: Listing) {
    Includes(Lower(l.product.name), Lower(query)) || Includes(Lower(l.product.description), Lower(query))
  }

  /** The search-box filter; an empty query leaves the list as it is. */
  function SearchFilter(query: string, listings: seq<Listing>): (r: seq<Listing>)
    ensures query == "" ==> r == listings
    ensures forall l :: multiset(r)[l] == if query == "" || MatchesSearch(query, l) then multiset(listings)[l] else 0
    ensures IsSubseq(r, listings)
  {
    if query == "" then
      assert IsSubseq(listings, listings) by { SubseqRefl(listings); }
      listings
    else
      FilterCounts(l => MatchesSearch(query, l), listings);
      FilterIsSubseq(l => MatchesSearch(query, l), listings);
      Filter(l => MatchesSearch(query, l), listings)
  }

  /** The decimal text of the product's category id equals the selected value. */
  predicate InCategory(selected: string, l: Listing) {
    IntToString(l.product.category) == selected
  }

  /** The category-select filter; the empty selection ("all categories") leaves the list as it is. */
  function CategoryFilter(selected: string, listings: seq<Listing>): (r: seq<Listing>)
    ensures selected == "" ==> r == listings
    ensures forall l :: multiset(r)[l] == if selected == "" || InCategory(selected, l) then multiset(listings)[l] else 0
    ensures IsSubseq(r, listings)
  {
    if selected == "" then
      assert IsSubseq(listings, listings) by { SubseqRefl(listings); }
      listings
    else
      FilterCounts(l => InCategory(selected, l), listings);
      FilterIsSubseq(l => InCategory(selected, l), listings);
      Filter(l => InCategory(selected, l), listings)
  }

  /** A listing survives both filters. */
  predicate Kept(query: string, selected: string, l: Listing) {
    (query == "" || MatchesSearch(query, l)) && (selected == "" || InCategory(selected, l))
  }

  /**
    The list the view renders: search, then category, then sort. Its length
    is the count shown in the heading.
  */
  function DisplayProducts(listings: seq<Listing>, query: string, selected: string, sortBy: string): (r: seq<Listing>)
    ensures forall l :: multiset(r)[l] == if Kept(query, selected, l) then multiset(listings)[l] else 0
    ensures |r| <= |listings|
    ensures Sorted(ParseSortMode(sortBy), r)
  {
    var mode := ParseSortMode(sortBy);
    var searched := SearchFilter(query, listings);
    var narrowed := CategoryFilter(selected, searched);
    InsertionSortCorrect(mode, narrowed);
    assert |narrowed| <= |listings| by {
      FilterLength(query, selected, listings, searched, narrowed);
    }
    SortListings(mode, narrowed)
  }

  lemma FilterLength(query: string, selected: string, listings: seq<Listing>, searched: seq<Listing>, narrowed: seq<Listing>)
    requires searched == SearchFilter(query, listings) && narrowed == CategoryFilter(selected, searched)
    ensures |narrowed| <= |listings|
  {
    SubseqLength(searched, listings);
    SubseqLength(narrowed, searched);
  }

  /** The search keeps exactly the listings whose lower-cased name or description has the lower-cased query at some position. */
  lemma SearchFilterMeaning(query: string, listings: seq<Listing>, l: Listing)
    requires query != ""
    ensures l in SearchFilter(query, listings) <==>
            l in listings
            && ((exists i :: OccursAt(Lower(l.product.name), Lower(query), i))
                || (exists i :: OccursAt(Lower(l.product.description), Lower(query), i)))
  {
    IncludesMeansOccurs(Lower(l.product.name), Lower(query));
    IncludesMeansOccurs(Lower(l.product.description), Lower(query));
    var r := SearchFilter(query, listings);
    assert l in r <==> multiset(r)[l] > 0;
    assert l in listings <==> multiset(listings)[l] > 0;
  }

  /** Selecting the text of a category id keeps exactly the listings in that category. */
  lemma CategoryFilterById(c: int, listings: seq<Listing>, l: Listing)
    ensures l in CategoryFilter(IntToString(c), listings) <==> l in listings && l.product.category == c
  {
    if IntToString(l.product.category) == IntToString(c) {
      IntToStringInjective(l.product.category, c);
    }
    var r := CategoryFilter(IntToString(c), listings);
    assert l in r <==> multiset(r)[l] > 0;
    assert l in listings <==> multiset(listings)[l] > 0;
  }

  /**
    A selection that is not the text of any integer keeps nothing: that
    covers text that does not parse as a number, and also "007" or "-0",
    which parse but are printed by no id.
  */
  lemma CategoryFilterNonNumeric(selected: string, listings: seq<Listing>)
    requires selected != "" && forall n :: IntToString(n) != selected
    ensures CategoryFilter(selected, listings) == []
  {
    var r := CategoryFilter(selected, listings);
    forall l: Listing ensures multiset(r)[l] == 0 {
      assert IntToString(l.product.category) != selected;
    }
    assert multiset(r) == multiset{};
    assert |r| == |multiset(r)|;
  }

  /** Text that does not parse as an integer is the text of no integer, so it selects nothing. */
  lemma UnparsableSelectsNothing(selected: string, listings: seq<Listing>)
    requires selected != "" && ParseInt(selected) == None
    ensures CategoryFilter(selected, listings) == []
  {
    forall n ensures IntToString(n) != selected {
      IntRoundTrip(n);
    }
    CategoryFilterNonNumeric(selected, listings);
  }

  /** Leading zeros and a negative zero parse, yet no category id prints that way. */
  lemma PaddedIdSelectsNothing(listings: seq<Listing>)
    ensures ParseInt("007") == Some(7) && ParseInt("-0") == Some(0)
    ensures CategoryFilter("007", listings) == [] && CategoryFilter("-0", listings) == []
  {
    forall n ensures IntToString(n) != "007" && IntToString(n) != "-0" {
      var t := IntToString(n);
      assert t[0] == '0' ==> t == "0";
      assert |t| >= 2 && t[0] == '-' ==> t[1] != '0';
    }
    assert "007"[..2] == "00" && "00"[..1] == "0" && "0"[..0] == "";
    assert "-0"[1..] == "0";
    CategoryFilterNonNumeric("007", listings);
    CategoryFilterNonNumeric("-0", listings);
  }

  /** With no search and no category, the view shows every listing, reordered only. */
  lemma NoFilterShowsAll(listings: seq<Listing>, sortBy: string)
    ensures multiset(DisplayProducts(listings, "", "", sortBy)) == multiset(listings)
    ensures |DisplayProducts(listings, "", "", sortBy)| == |listings|
  {
    var r := DisplayProducts(listings, "", "", sortBy);
    assert multiset(r) == multiset(listings);
    assert |r| == |multiset(r)|;
  }
}
