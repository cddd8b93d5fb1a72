// The page's module-level state (the `movies` list, its storage slot, the
// search query and the edit-mode flag), the handlers that change it, and the
// projection of the filtered list onto cards.

module Journal {
  import opened Movies
  import opened Search
  import opened Stars

  /** What one card exposes: the record it shows, the position its Delete,
      Edit and star buttons pass to the handlers, its star row, and whether
      the Edit button is present. */
  datatype Card = Card(movie: Movie, index: nat, stars: seq<Star>, editable: bool)

  /** The cards for a filtered view: the card at position k shows view[k] and
      its buttons pass k. */
  function CardsFor(view: seq<Movie>, editMode: bool): seq<Card>
  {
    seq(|view|, k requires 0 <= k < |view| => Card(view[k], k, StarsFor(view[k].rating, k), editMode))
  }

  class MovieJournal {
    /** The in-memory list, in insertion order. */
    var movies: seq<Movie>
    /** The storage slot under the key "movies": None while nothing is stored. */
    var stored: Option<seq<Movie>>
    /** The lowercased search text. */
    var searchQuery: string
    var editMode: bool

    /** Page start-up: the list is read from the slot, or empty when the slot
        is empty; the query is empty and edit mode is off. */
    constructor (slot: Option<seq<Movie>>)
      ensures stored == slot && movies == Load(slot)
      ensures slot == None ==> movies == []
      ensures searchQuery == "" && !editMode
    {
      movies := Load(slot);
      stored := slot;
      searchQuery := "";
      editMode := false;
    }

    /** `saveMovies`: the slot is overwritten with the whole list. */
    method Save()
      modifies this`stored
      ensures stored == Some(movies)
    {
      stored := Some(movies);
    }

    /** The form's submit handler: one record built from the form fields and
        the optional poster is appended, then the list is saved. */
    method Submit(form: Draft, poster: Option<string>)
      modifies this`movies, this`stored
      ensures movies == old(movies) + [FromDraft(form, poster)]
      ensures stored == Some(movies)
    {
      movies := movies + [FromDraft(form, poster)];
      Save();
    }

    /** `deleteMovie(index)`. */
    method DeleteAt(index: nat)
      modifies this`movies, this`stored
      ensures movies == RemovedAt(old(movies), index)
      ensures stored == Some(movies)
    {
      movies := RemovedAt(movies, index);
      Save();
    }

    /** `editMovie(index)`: the record's title, rating and review go into the
        form, and the record is removed and the list saved exactly as
        deleteMovie does. The record's poster is not carried over. */
    method EditAt(index: nat) returns (form: Draft)
      requires index < |movies|
      modifies this`movies, this`stored
      ensures form.title == old(movies)[index].title
      ensures form.rating == old(movies)[index].rating
      ensures form.review == old(movies)[index].review
      ensures movies == RemovedAt(old(movies), index)
      ensures stored == Some(movies)
    {
      var movie := movies[index];
      form := DraftOf(movie);
      movies := RemovedAt(movies, index);
      Save();
    }

    /** `setRating(movieIndex, rating)`. */
    method SetRatingAt(index: nat, rating: int)
      requires index < |movies|
      modifies this`movies, this`stored
      ensures movies == WithRating(old(movies), index, rating)
      ensures stored == Some(movies)
    {
      movies := WithRating(movies, index, rating);
      Save();
    }

    /** The search box's input handler, once its timer fires. */
    method SetSearch(input: string)
      modifies this`searchQuery
      ensures searchQuery == ToLower(input)
    {
      searchQuery := ToLower(input);
    }

    /** The clear-search button. */
    method ClearSearch()
      modifies this`searchQuery
      ensures searchQuery == ""
    {
      searchQuery := "";
    }

    /** The edit-mode button. */
    method ToggleEditMode()
      modifies this`editMode
      ensures editMode == !old(editMode)
    {
      editMode := !editMode;
    }

    /** `renderMovies`: one card per record of the filtered view, in order. */
    method Render() returns (cards: seq<Card>)
      ensures |cards| == |Filter(movies, searchQuery)|
      ensures forall k :: 0 <= k < |cards| ==>
        cards[k].movie == Filter(movies, searchQuery)[k] && cards[k].index == k && cards[k].editable == editMode
      ensures cards == CardsFor(Filter(movies, searchQuery), editMode)
    {
      var view := Filter(movies, searchQuery);
      cards := [];
      var k := 0;
      while k < |view|
        invariant 0 <= k <= |view|
        invariant cards == CardsFor(view[..k], editMode)
      {
        var stars := RenderStars(view[k].rating, k);
        cards := cards + [Card(view[k], k, stars, editMode)];
        k := k + 1;
        assert view[..k] == view[..k - 1] + [view[k - 1]];
      }
      assert view[..k] == view;
    }
  }

  /** A card's buttons pass its filtered position k to handlers that index the
      whole list. Position k always exists in the whole list, so those
      handlers never fail when called from a card, but the record at k is
      the shown record only when the shown record's true position is k; the
      true position is never smaller than k. */
  lemma CardIndexInRange(ms: seq<Movie>, q: string, k: nat)
    requires k < |Filter(ms, q)|
    ensures k < |ms|
    ensures k < |FilterIndices(ms, q)| && k <= FilterIndices(ms, q)[k] < |ms| && Filter(ms, q)[k] == ms[FilterIndices(ms, q)[k]]
  {
    FilterIndicesSpec(ms, q);
  }

  lemma {:induction false} CardIndexAgreesAt(ms: seq<Movie>, q: string, k: nat)
    requires forall j :: 0 <= j < |FilterIndices(ms, q)| ==> Matches(ms[j], q)
    requires k < |FilterIndices(ms, q)|
    ensures FilterIndices(ms, q)[k] == k
    decreases k
  {
    FilterIndicesSpec(ms, q);
    var I := FilterIndices(ms, q);
    assert k in I;
    var m :| 0 <= m < |I| && I[m] == k;
    if m < k {
      CardIndexAgreesAt(ms, q, m);
    }
  }

  /** A shown record at a card position that equals its true position matches. */
  lemma AgreeingCardsMatch(ms: seq<Movie>, q: string)
    requires forall k :: 0 <= k < |FilterIndices(ms, q)| ==> FilterIndices(ms, q)[k] == k
    ensures forall j :: 0 <= j < |FilterIndices(ms, q)| ==> Matches(ms[j], q)
  {
    var I := FilterIndices(ms, q);
    FilterIndicesSpec(ms, q);
    forall j | 0 <= j < |I| ensures Matches(ms[j], q) {
      assert I[j] == j;
      assert j in I;
    }
  }

  /** When the first |view| records all match, every card position is its
      record's true position. */
  lemma MatchingPrefixAgrees(ms: seq<Movie>, q: string)
    requires forall j :: 0 <= j < |FilterIndices(ms, q)| ==> Matches(ms[j], q)
    ensures forall k :: 0 <= k < |FilterIndices(ms, q)| ==> FilterIndices(ms, q)[k] == k
  {
    forall k | 0 <= k < |FilterIndices(ms, q)| ensures FilterIndices(ms, q)[k] == k {
      CardIndexAgreesAt(ms, q, k);
    }
  }

  /** Every card acts on the record it shows iff the first |view| records of
      the whole list all match, i.e. no hidden record precedes a shown one. */
  lemma CardIndicesAgreeIff(ms: seq<Movie>, q: string)
    ensures (forall k :: 0 <= k < |FilterIndices(ms, q)| ==> FilterIndices(ms, q)[k] == k)
        <==> (forall j :: 0 <= j < |FilterIndices(ms, q)| ==> Matches(ms[j], q))
  {
    if forall j :: 0 <= j < |FilterIndices(ms, q)| ==> Matches(ms[j], q) {
      MatchingPrefixAgrees(ms, q);
    }
    if forall k :: 0 <= k < |FilterIndices(ms, q)| ==> FilterIndices(ms, q)[k] == k {
      AgreeingCardsMatch(ms, q);
    }
  }

  /** With the empty query the view is the whole list and every card's
      position is its record's true position. */
  lemma EmptyQueryCardsAgree(ms: seq<Movie>, k: nat)
    requires k < |ms|
    ensures k < |FilterIndices(ms, "")| && FilterIndices(ms, "")[k] == k
  {
    FilterEmptyQuery(ms);
    FilterIndicesSpec(ms, "");
    FilterAllIff(ms, "");
    CardIndicesAgreeIff(ms, "");
  }

  /** With the search "her" active over [Up, Her], the only card shows Her,
      but its Delete button calls deleteMovie(0), which removes Up and keeps
      Her. */
  lemma DeleteFromFilteredCardRemovesOther()
    ensures Filter([Movie("Up", 4, "", None), Movie("Her", 5, "", None)], "her") == [Movie("Her", 5, "", None)]
    ensures RemovedAt([Movie("Up", 4, "", None), Movie("Her", 5, "", None)], 0) == [Movie("Her", 5, "", None)]
  {
    var up, her := Movie("Up", 4, "", None), Movie("Her", 5, "", None);
    assert ToLower(up.title + " " + up.review) == "up ";
    assert ToLower(her.title + " " + her.review) == "her ";
    assert !Contains("p ", "her");
    assert "up "[..3][0] != "her"[0] && "up "[1..] == "p ";
    assert !Contains("up ", "her");
    assert !Matches(up, "her");
    assert "her "[..3] == "her";
    assert Matches(her, "her");
    assert [up, her][..1] == [up];
    assert [up][..0] == [];
  }

  /** A submission followed by deleting position 0 on a fresh page leaves an
      empty list, and the slot holds the empty list. */
  method AddThenRemove()
  {
    var journal := new MovieJournal(None);
    journal.Submit(Draft("Arrival", 0, ""), None);
    journal.DeleteAt(0);
    assert journal.movies == [] && journal.stored == Some([]);
  }
}
