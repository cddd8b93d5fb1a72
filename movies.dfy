// The movie record and the two value-level updates the journal applies to its
// list: removing one position (Array.prototype.splice(index, 1)) and replacing
// the rating of one record.

module Movies {

  datatype Option<T> = None | Some(value: T)

  /** One journal entry. The poster is absent (null) or one opaque reference
      (a data URL read from an uploaded file). */
  datatype Movie = Movie(title: string, rating: int, review: string, poster: Option<string>)

  /** The fields the entry form holds: editing a record copies these three
      into the form, and submitting the form builds a record from them. */
  datatype Draft = Draft(title: string, rating: int, review: string)

  function DraftOf(m: Movie): Draft
  {
    Draft(m.title, m.rating, m.review)
  }

  /** The record a form submission builds; `poster` is the uploaded file's
      data URL, or None when no file was chosen. */
  function FromDraft(d: Draft, poster: Option<string>): Movie
  {
    Movie(d.title, d.rating, d.review, poster)
  }

  /** What the storage slot yields at start-up: the stored list, or the empty
      list when nothing is stored under the key. */
  function Load(slot: Option<seq<Movie>>): seq<Movie>
  {
    match slot
    case None => []
    case Some(ms) => ms
  }

  /** `ms.splice(index, 1)`: the record at `index` is removed and the later
      records move down by one; an index past the end removes nothing. */
  function RemovedAt(ms: seq<Movie>, index: nat): (r: seq<Movie>)
    ensures index < |ms| ==> |r| == |ms| - 1
    ensures index < |ms| ==> forall j :: 0 <= j < |r| ==> r[j] == (if j < index then ms[j] else ms[j + 1])
    ensures index < |ms| ==> multiset(r) + multiset{ms[index]} == multiset(ms)
    ensures |ms| <= index ==> r == ms
  {
    if index < |ms| then
      assert ms == ms[..index] + [ms[index]] + ms[index + 1..];
      ms[..index] + ms[index + 1..]
    else
      ms
  }

  /** `ms[index].rating = rating`. */
  function WithRating(ms: seq<Movie>, index: nat, rating: int): (r: seq<Movie>)
    requires index < |ms|
    ensures |r| == |ms|
    ensures r[index].rating == rating
    ensures r[index].title == ms[index].title && r[index].review == ms[index].review
    ensures r[index].poster == ms[index].poster
    ensures forall j :: 0 <= j < |ms| && j != index ==> r[j] == ms[j]
  {
    ms[index := ms[index].(rating := rating)]
  }

  /** Appending a record and then deleting the last position gives back the
      list it was appended to. */
  lemma AppendThenDeleteLast(ms: seq<Movie>, m: Movie)
    ensures RemovedAt(ms + [m], |ms|) == ms
  {
    assert (ms + [m])[..|ms|] == ms;
  }

  /** The list after `editMovie(index)` followed by a submission of the
      unchanged form with no file chosen. */
  function Resubmitted(ms: seq<Movie>, index: nat): seq<Movie>
    requires index < |ms|
  {
    RemovedAt(ms, index) + [FromDraft(DraftOf(ms[index]), None)]
  }

  /** Editing record `index` and resubmitting the form unchanged, without
      choosing a file, moves the record to the end without any poster, and
      the records after it move up by one. */
  lemma EditThenResubmit(ms: seq<Movie>, index: nat)
    requires index < |ms|
    ensures |Resubmitted(ms, index)| == |ms|
    ensures Resubmitted(ms, index)[|ms| - 1] == ms[index].(poster := None)
    ensures forall j :: 0 <= j < index ==> Resubmitted(ms, index)[j] == ms[j]
    ensures forall j :: index <= j < |ms| - 1 ==> Resubmitted(ms, index)[j] == ms[j + 1]
  {
  }

  /** The resubmission gives back the original list exactly when the edited
      record has no poster and every record from `index` on equals it (for
      example, the last record without a poster); otherwise the list changes. */
  lemma {:induction false} ResubmitRestoresIff(ms: seq<Movie>, index: nat)
    requires index < |ms|
    ensures Resubmitted(ms, index) == ms <==>
      ms[index].poster == None && forall j :: index <= j < |ms| ==> ms[j] == ms[index]
  {
    EditThenResubmit(ms, index);
    var r := Resubmitted(ms, index);
    if r == ms {
      forall j | index <= j < |ms| ensures ms[j] == ms[index] {
        ShiftedRunEqual(ms, index, j);
      }
      assert ms[|ms| - 1] == ms[index];
    }
    if ms[index].poster == None && forall j :: index <= j < |ms| ==> ms[j] == ms[index] {
      assert forall j :: 0 <= j < |ms| ==> r[j] == ms[j];
    }
  }

  /** A run in which each record equals its successor is constant. */
  lemma {:induction false} ShiftedRunEqual(ms: seq<Movie>, index: nat, j: nat)
    requires index <= j < |ms|
    requires forall i :: index <= i < |ms| - 1 ==> ms[i] == ms[i + 1]
    ensures ms[j] == ms[index]
    decreases j - index
  {
    if index < j {
      ShiftedRunEqual(ms, index, j - 1);
    }
  }
}
