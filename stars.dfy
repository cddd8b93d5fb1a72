// The five-star rating row drawn on every card (renderStars).

module Stars {

  const StarCount: nat := 5

  /** One star of a card's rating row: whether it is drawn active, and the
      call `setRating(movieIndex, value)` that clicking it makes. */
  datatype Star = Star(active: bool, movieIndex: nat, value: int)

  /** The row for a record with the given rating on the card at position
      `index`: star i (1 to 5) is active iff i <= rating. */
  function StarsFor(rating: int, index: nat): seq<Star>
  {
    seq(StarCount, j => Star(j + 1 <= rating, index, j + 1))
  }

  /** The number of active stars in a row. */
  function ActiveCount(stars: seq<Star>): nat
  {
    if stars == [] then 0
    else ActiveCount(stars[..|stars| - 1]) + (if stars[|stars| - 1].active then 1 else 0)
  }

  /** A rating brought into 0..5: what the row can show. */
  function Clamp(rating: int): nat
  {
    if rating < 0 then 0 else if rating > StarCount then StarCount else rating
  }

  /** A row whose active stars are exactly its first `n` has `n` active stars. */
  lemma {:induction false} ActivePrefixCount(stars: seq<Star>, n: nat)
    requires n <= |stars|
    requires forall j :: 0 <= j < |stars| ==> (stars[j].active <==> j < n)
    ensures ActiveCount(stars) == n
  {
    if stars != [] {
      var m := |stars| - 1;
      assert forall j :: 0 <= j < m ==> stars[..m][j] == stars[j];
      ActivePrefixCount(stars[..m], if n <= m then n else m);
    }
  }

  /** The row shows as many active stars as the rating, for ratings 0..5;
      a larger rating lights all five and a negative one none. */
  lemma ActiveStarsMatchRating(rating: int, index: nat)
    ensures ActiveCount(StarsFor(rating, index)) == Clamp(rating)
    ensures 0 <= rating <= StarCount ==> ActiveCount(StarsFor(rating, index)) == rating
  {
    ActivePrefixCount(StarsFor(rating, index), Clamp(rating));
  }

  /** `renderStars(rating, index)`: the for loop over i = 1..5. */
  method RenderStars(rating: int, index: nat) returns (stars: seq<Star>)
    ensures |stars| == StarCount
    ensures forall j :: 0 <= j < |stars| ==>
      stars[j].movieIndex == index && stars[j].value == j + 1 && (stars[j].active <==> j + 1 <= rating)
    ensures stars == StarsFor(rating, index)
  {
    stars := [];
    var i := 1;
    while i <= StarCount
      invariant 1 <= i <= StarCount + 1
      invariant |stars| == i - 1
      invariant forall j :: 0 <= j < |stars| ==>
        stars[j].movieIndex == index && stars[j].value == j + 1 && (stars[j].active <==> j + 1 <= rating)
    {
      var active := i <= rating;
      stars := stars + [Star(active, index, i)];
      i := i + 1;
    }
    assert forall j :: 0 <= j < StarCount ==> stars[j] == StarsFor(rating, index)[j];
  }
}
