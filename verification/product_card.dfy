/**
  The product card's two decisions: the five-slot star row for a rating,
  and whether the struck-through original price is shown.
*/
module ProductCard {
  import opened Wrappers

  datatype Star = Full | Half | Empty

  /**
    `renderStars(rating)` for a rating of `rating / 100` stars.
    `Math.floor` of the rating is `rating / 100` (floor division), and
    the rating has a fractional part exactly when `rating % 100 != 0`.
  */
  function RenderStars(rating: int): (stars: seq<Star>)
    ensures |stars| == 5
    ensures forall i :: 0 <= i < 5 ==> (stars[i] == Full <==> i < rating / 100)
    ensures forall i :: 0 <= i < 5 ==> (stars[i] == Half <==> i == rating / 100 && rating % 100 != 0)
  {
    var fullStars := rating / 100;
    var hasHalfStar := rating % 100 != 0;
    seq(5, i requires 0 <= i < 5 =>
      if i < fullStars then Full
      else if i == fullStars && hasHalfStar then Half
      else Empty)
  }

  /** The value of one slot in half stars. */
  function SlotHalves(s: Star): nat {
    match s
    case Full => 2
    case Half => 1
    case Empty => 0
  }

  /** The value of a row in half stars. */
  function Halves(stars: seq<Star>): nat {
    if stars == [] then 0 else SlotHalves(stars[0]) + Halves(stars[1..])
  }

  /** The number of half stars in a row. */
  function HalfCount(stars: seq<Star>): nat {
    if stars == [] then 0 else (if stars[0] == Half then 1 else 0) + HalfCount(stars[1..])
  }

  lemma FiveSlots(stars: seq<Star>)
    requires |stars| == 5
    ensures Halves(stars) == SlotHalves(stars[0]) + SlotHalves(stars[1]) + SlotHalves(stars[2])
                           + SlotHalves(stars[3]) + SlotHalves(stars[4])
    ensures HalfCount(stars) == (if stars[0] == Half then 1 else 0) + (if stars[1] == Half then 1 else 0)
                              + (if stars[2] == Half then 1 else 0) + (if stars[3] == Half then 1 else 0)
                              + (if stars[4] == Half then 1 else 0)
  {
    var s1 := stars[1..];
    var s2 := s1[1..];
    var s3 := s2[1..];
    var s4 := s3[1..];
    assert s4[1..] == [];
    assert s1[0] == stars[1] && s2[0] == stars[2] && s3[0] == stars[3] && s4[0] == stars[4];
    assert Halves(s4) == SlotHalves(stars[4]);
    assert HalfCount(s4) == if stars[4] == Half then 1 else 0;
  }

  /**
    Between zero and five stars, the row shows the rating to within half a
    star, and it never shows more than one half star.
  */
  lemma StarsApproximateRating(rating: int)
    requires 0 <= rating <= 500
    ensures -50 < rating - 50 * Halves(RenderStars(rating)) < 50
    ensures HalfCount(RenderStars(rating)) <= 1
  {
    var stars := RenderStars(rating);
    FiveSlots(stars);
    var f := rating / 100;
    assert rating == f * 100 + rating % 100;
    assert 0 <= f <= 5;
  }

  /** Five stars or more fill every slot, and only they do; zero leaves every slot empty. */
  lemma StarsAtTheEnds(rating: int)
    ensures RenderStars(rating) == [Full, Full, Full, Full, Full] <==> rating >= 500
    ensures rating == 0 ==> RenderStars(rating) == [Empty, Empty, Empty, Empty, Empty]
  {
    var stars := RenderStars(rating);
    assert rating == (rating / 100) * 100 + rating % 100;
    if rating >= 500 {
      assert stars == [Full, Full, Full, Full, Full];
    }
    if rating == 0 {
      assert stars == [Empty, Empty, Empty, Empty, Empty];
    }
    if stars == [Full, Full, Full, Full, Full] {
      assert stars[4] == Full;
      assert rating / 100 >= 5;
    }
  }

  /** A higher rating never shows a slot with less fill. */
  lemma StarsMonotone(a: int, b: int, i: int)
    requires a <= b && 0 <= i < 5
    ensures SlotHalves(RenderStars(a)[i]) <= SlotHalves(RenderStars(b)[i])
  {
    assert a / 100 <= b / 100;
  }

  /**
    The card strikes through the original price when it is present, not
    zero (zero is falsy in the guard), and above the selling price.
  */
  function ShowsOriginalPrice(price: int, originalPrice: Option<int>): bool {
    originalPrice.Some? && originalPrice.value != 0 && originalPrice.value > price
  }

  /** For a non-negative price the zero test is subsumed: the original price shows exactly when it is a real discount. */
  lemma ShownPriceIsDiscount(price: int, originalPrice: Option<int>)
    requires price >= 0
    ensures ShowsOriginalPrice(price, originalPrice) <==> originalPrice.Some? && originalPrice.value > price
  {
  }
}
