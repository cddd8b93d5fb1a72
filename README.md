# Movie journal record store

A model, in Dafny, of the client-side movie journal in `script.js`. The page
keeps a list of watched movies (title, rating, review, optional poster) in a
module-level array. It writes the array through to the browser's key-value
storage after every change. Cards are rendered from a live-search view of
the list, and each card carries Delete, Edit and star-rating buttons.

The model has four modules:

- `Movies` (`movies.dfy`): the record datatype and the two list updates the
  handlers apply. `RemovedAt` is `splice(index, 1)`. `WithRating` is the
  rating assignment in `setRating`. `Load` is the start-up read of the
  storage slot.
- `Search` (`search.dfy`): the search predicate (lowercased
  `title + " " + review` contains the query), the filter that builds the
  view, and `FilterIndices`. `FilterIndices` gives, for each card, the true
  position of the record it shows. `ToLower` is `toLowerCase`, `Contains`
  is `includes`, and `Matches` is the search predicate.
- `Stars` (`stars.dfy`): the five-star row `renderStars` draws, as a method
  with the source's loop.
- `Journal` (`journal.dfy`): the class `MovieJournal`. Its fields are the
  page state: `movies`, the storage slot `stored`, `searchQuery` and
  `editMode`. Its methods are the event handlers. The module also holds the
  lemmas about the index that card buttons pass. `AddThenRemove` is a short
  scenario on a fresh page: one submission, then a delete of position 0.

Two behaviours of the source are stated as they are, not fixed:

- Card buttons pass the card's position in the filtered view. The handlers
  use that position to index the whole list. `CardIndicesAgreeIff` says
  exactly when the two agree. `DeleteFromFilteredCardRemovesOther` gives a
  two-record list where a card's Delete button removes the other record.
- `editMovie` removes the record before the form is resubmitted, so
  abandoning the edit loses the record. `EditThenResubmit` shows that an
  unchanged resubmission moves the record to the end and drops any poster.
  `ResubmitRestoresIff` says exactly when the list comes back as it was: the
  record has no poster and every record from it to the end equals it, as
  for a last record without a poster. Otherwise the list changes.

Three more behaviours follow the source as written:

- Start-up falls back to the empty list only when nothing is stored under
  the key. Malformed stored text makes `JSON.parse` throw. The model does not
  claim recovery from it.
- Ratings are not checked to lie in 0..5. The form supplies the rating, and a
  star click writes 1..5.
- An out-of-range delete is a silent no-op.

## Model

| member | source | states |
|---|---|---|
| Movies.RemovedAt | script.js:143-147 | for an index in range the result is one shorter, earlier records keep their positions, later ones move down by one, and exactly that record leaves the multiset; past the end nothing changes |
| Movies.WithRating | script.js:177-181 | only the rating of record `index` changes, to the new value; its title, review and poster and every other record are unchanged |
| Movies.AppendThenDeleteLast | script.js:72-79 | appending a record and deleting the last position gives back the original list |
| Movies.EditThenResubmit | script.js:149-161 | edit followed by an unchanged resubmission puts the record last without its poster and shifts the records after it up by one |
| Movies.ResubmitRestoresIff | script.js:149-161 | edit followed by an unchanged resubmission gives back the original list iff the record has no poster and every record from it to the end equals it |
| Search.ToLowerIdempotent | script.js:26 | a lowercased query has no upper-case letter and lowercasing it again changes nothing |
| Search.ContainsIff | script.js:98 | the left-to-right `includes` scan succeeds iff the query occurs at some position of the text |
| Search.ContainsEmpty | script.js:98 | every text contains the empty query |
| Search.MatchesIgnoresCase | script.js:97 | two records whose title and review agree after lowercasing match the same queries |
| Search.Filter | script.js:96-99 | the view is never longer than the list |
| Search.FilterIndices | script.js:101 | there are never more cards than records |
| Search.FilterIndicesLength | script.js:96-101 | there is one true position per card |
| Search.FilterIndicesSpec | script.js:96-99 | the view is the list read at strictly increasing positions, each at or after its card position, and a position is among them iff its record matches |
| Search.FilterMembership | script.js:96-99 | a record is shown iff it is in the list and matches the query |
| Search.FilterConcat | script.js:96-99 | filtering distributes over concatenation, so order is preserved |
| Search.FilterEmptyQuery | script.js:31-35 | the empty query (cleared search) shows the whole list in order |
| Search.FilterAllIff | script.js:96-99 | the view is the whole list iff every record matches |
| Search.FilterIdempotent | script.js:96-99 | filtering the view again changes nothing |
| Search.FilterAfterAppend | script.js:72-80 | a submitted record appears at the end of the view iff it matches |
| Search.FilterAround | script.js:96-99 | the view splits at any position into the view before it, the record if it matches, and the view after it |
| Search.FilterAfterDelete | script.js:143-147 | deleting a position drops that record from the view and keeps the rest in order; deleting a hidden record leaves the view unchanged |
| Search.FilterIgnoresRating | script.js:177-181 | a rating change keeps every record at the same filtered position |
| Stars.ActivePrefixCount | script.js:166-172 | a row whose active stars are exactly its first n has n active stars |
| Stars.ActiveStarsMatchRating | script.js:163-175 | the row has as many active stars as the rating for ratings 0..5 (all five above 5, none below 0) |
| Stars.RenderStars | script.js:163-175 | exactly five stars; star i is active iff i <= rating, and clicking it calls setRating(index, i) |
| Journal.MovieJournal.constructor | script.js:14-16 | the list is what the slot holds, or empty when nothing is stored; the query is empty and edit mode is off |
| Journal.MovieJournal.Save | script.js:89-91 | the slot holds the whole list |
| Journal.MovieJournal.Submit | script.js:47-84 | exactly one record, built from the form fields and the optional poster, is appended at the end, and the slot equals the new list |
| Journal.MovieJournal.DeleteAt | script.js:143-147 | the list becomes RemovedAt of the old list and the slot equals it |
| Journal.MovieJournal.EditAt | script.js:149-161 | the form receives the record's title, rating and review; the list changes exactly as DeleteAt would and the slot equals it |
| Journal.MovieJournal.SetRatingAt | script.js:177-181 | the list becomes WithRating of the old list and the slot equals it; the index must exist |
| Journal.MovieJournal.SetSearch | script.js:22-29 | the stored query is the lowercased input |
| Journal.MovieJournal.ClearSearch | script.js:31-35 | the stored query is empty |
| Journal.MovieJournal.ToggleEditMode | script.js:41-45 | edit mode flips |
| Journal.MovieJournal.Render | script.js:93-134 | one card per record of the view, in order: card k shows view[k], passes k to its buttons, carries the star row and shows Edit iff edit mode is on |
| Journal.CardIndexInRange | script.js:101-127 | a card's position always indexes the whole list, so its handlers never fail, and the shown record's true position is never smaller |
| Journal.CardIndexAgreesAt | script.js:96-127 | when the first records up to the view's length all match, card k acts on true position k |
| Journal.AgreeingCardsMatch | script.js:96-127 | when every card position is its true position, the first records up to the view's length all match |
| Journal.MatchingPrefixAgrees | script.js:96-127 | when the first records up to the view's length all match, every card acts on the record it shows |
| Journal.CardIndicesAgreeIff | script.js:96-127 | every card acts on the record it shows iff no hidden record precedes a shown one |
| Journal.EmptyQueryCardsAgree | script.js:31-35 | with the empty query every card position is its record's true position |
| Journal.DeleteFromFilteredCardRemovesOther | script.js:126-147 | with the search "her" over [Up, Her] the only card shows Her, and its Delete removes Up |

## Left out

- DOM lookup, `innerHTML` templating, class toggling, the button text, the
  form's show/hide and `form.reset()` are not modelled. A card keeps only
  what the handlers see: the shown record, the position it passes, its star
  row and whether Edit is present. The "No poster" and "No review"
  placeholders are not modelled.
- The debounce timers of the search box are not modelled. `SetSearch` is the
  assignment the timer finally makes.
- `FileReader` loads the poster asynchronously. `Submit` is the moment of the
  push and takes the poster as an optional string. With no file chosen the
  push is immediate and the poster is None. With a file it happens in
  `onload`, with the data URL. A failed read has no handler and appends
  nothing, so it corresponds to no call of `Submit`.
- `localStorage` and JSON serialisation are foreign calls. The slot is the
  field `stored`, which holds the list itself. A stored `null` counts as an
  absent key. Malformed JSON, which throws, is not modelled.
- Journal.MovieJournal.Save: `setItem` is assumed to succeed. When it throws,
  for example because a large data-URL poster exceeds the storage quota, the
  source has already changed `movies`, the slot keeps the old list and the
  page is not re-rendered. The write-through ensures of Submit, DeleteAt,
  EditAt and SetRatingAt hold only under this assumption.
- `highlight` is never called. It builds a regular expression from user
  input, which is outside this model.
- Search.ToLower: only ASCII letters are lowercased. Unicode case mapping is
  not modelled.
- Movie.rating is an integer. The source stores the form's string and
  compares it with numbers through JavaScript coercion. `movie.rating || 0`
  is the identity on the modelled integers.
- Negative indices, for which `splice` counts from the end, are not
  modelled. Every index the page passes comes from `forEach` and is never
  negative.
- Search.Filter is defined by peeling off the last record rather than by a
  left-to-right scan. The resulting sequence is the same.
- Journal.MovieJournal.EditAt and Journal.MovieJournal.SetRatingAt require
  an index in range. In the source an out-of-range index reads `undefined`
  and the handler throws. `CardIndexInRange` shows that the page never
  passes one.
- Poster look-up by title and title suggestions from a movie database
  belong to other revisions of the script and are not part of this model.
