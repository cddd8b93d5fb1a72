// The live-search view transform: a record is shown when the lowercased text
// `title + " " + review` contains the (already lowercased) query.

module Search {
  import opened Movies

  /** ASCII lowercasing of one character; every other character is kept. */
  function LowerChar(c: char): char
  {
    if 'A' <= c <= 'Z' then (c as int - 'A' as int + 'a' as int) as char else c
  }

  /** `String.prototype.toLowerCase`, restricted to ASCII letters. */
  function ToLower(s: string): string
  {
    seq(|s|, i requires 0 <= i < |s| => LowerChar(s[i]))
  }

  /** A lowercased string has no upper-case ASCII letter, and lowercasing it
      again changes nothing: the stored query is a fixed point. */
  lemma ToLowerIdempotent(s: string)
    ensures forall i :: 0 <= i < |ToLower(s)| ==> !('A' <= ToLower(s)[i] <= 'Z')
    ensures ToLower(ToLower(s)) == ToLower(s)
  {
  }

  lemma ToLowerConcat(a: string, b: string)
    ensures ToLower(a + b) == ToLower(a) + ToLower(b)
  {
  }

  /** `q` occurs in `text` starting at position `i`. */
  predicate OccursAt(text: string, q: string, i: nat)
  {
    i + |q| <= |text| && text[i..i + |q|] == q
  }

  /** `text.includes(q)`: scans the start positions left to right. */
  predicate Contains(text: string, q: string)
    decreases |text|
  {
    |q| <= |text| && (text[..|q|] == q || Contains(text[1..], q))
  }

  /** The scan finds `q` exactly when `q` occurs at some position. */
  lemma {:induction false} ContainsIff(text: string, q: string)
    ensures Contains(text, q) <==> exists i: nat :: OccursAt(text, q, i)
  {
    if |q| <= |text| {
      if text[..|q|] == q {
        assert OccursAt(text, q, 0);
      } else {
        ContainsIff(text[1..], q);
        if Contains(text[1..], q) {
          var i: nat :| OccursAt(text[1..], q, i);
          TailSlice(text, i, |q|);
          assert OccursAt(text, q, i + 1);
        } else if exists i: nat :: OccursAt(text, q, i) {
          var i: nat :| OccursAt(text, q, i);
          assert i != 0;
          TailSlice(text, i - 1, |q|);
          assert OccursAt(text[1..], q, i - 1);
          assert false;
        }
      }
    }
  }

  /** A slice of the text's tail is the slice one position later in the text. */
  lemma TailSlice(text: string, i: nat, n: nat)
    requires i + 1 + n <= |text|
    ensures text[1..][i..i + n] == text[i + 1..i + 1 + n]
  {
  }

  /** The empty query is contained in every text (`"x".includes("")`). */
  lemma ContainsEmpty(text: string)
    ensures Contains(text, "")
  {
    assert text[..0] == "";
  }

  /** The search predicate inside renderMovies. */
  predicate Matches(m: Movie, q: string)
  {
    Contains(ToLower(m.title + " " + m.review), q)
  }

  /** `movies.filter(...)`: the records that match, in their original order.
      Defined by peeling off the last record, which gives the same sequence as
      the left-to-right scan of Array.prototype.filter. */
  function Filter(ms: seq<Movie>, q: string): (r: seq<Movie>)
    ensures |r| <= |ms|
  {
    if ms == [] then []
    else Filter(ms[..|ms| - 1], q) + (if Matches(ms[|ms| - 1], q) then [ms[|ms| - 1]] else [])
  }

  /** `FilterIndices(ms, q)[k]` is the true position in `ms` of the record
      shown at filtered position `k`. */
  function FilterIndices(ms: seq<Movie>, q: string): (r: seq<nat>)
    ensures |r| <= |ms|
  {
    if ms == [] then []
    else FilterIndices(ms[..|ms| - 1], q) + (if Matches(ms[|ms| - 1], q) then [|ms| - 1] else [])
  }

  lemma {:induction false} FilterIndicesLength(ms: seq<Movie>, q: string)
    ensures |FilterIndices(ms, q)| == |Filter(ms, q)|
  {
    if ms != [] {
      FilterIndicesLength(ms[..|ms| - 1], q);
    }
  }

  /** Filter keeps, in order, exactly the matching records: the filtered
      sequence is `ms` read at the strictly increasing positions
      FilterIndices, and a position is among them iff its record matches. */
  lemma {:induction false} FilterIndicesSpec(ms: seq<Movie>, q: string)
    ensures |FilterIndices(ms, q)| == |Filter(ms, q)|
    ensures forall k :: 0 <= k < |FilterIndices(ms, q)| ==>
      k <= FilterIndices(ms, q)[k] < |ms| && Filter(ms, q)[k] == ms[FilterIndices(ms, q)[k]]
    ensures forall k, l :: 0 <= k < l < |FilterIndices(ms, q)| ==> FilterIndices(ms, q)[k] < FilterIndices(ms, q)[l]
    ensures forall j :: 0 <= j < |ms| ==> (j in FilterIndices(ms, q) <==> Matches(ms[j], q))
  {
    FilterIndicesLength(ms, q);
    if ms != [] {
      var init := ms[..|ms| - 1];
      FilterIndicesSpec(init, q);
      FilterIndicesLength(init, q);
      assert forall j :: 0 <= j < |init| ==> init[j] == ms[j];
      var F, I := Filter(ms, q), FilterIndices(ms, q);
      var F', I' := Filter(init, q), FilterIndices(init, q);
      forall k | 0 <= k < |I| ensures k <= I[k] < |ms| && F[k] == ms[I[k]] {
        if k < |I'| {
          assert I[k] == I'[k] && F[k] == F'[k];
        }
      }
    }
  }

  /** A record is shown iff it is in the list and matches the query. */
  lemma {:induction false} FilterMembership(ms: seq<Movie>, q: string, m: Movie)
    ensures m in Filter(ms, q) <==> m in ms && Matches(m, q)
  {
    if ms != [] {
      FilterMembership(ms[..|ms| - 1], q, m);
      assert ms == ms[..|ms| - 1] + [ms[|ms| - 1]];
    }
  }

  /** Filtering distributes over concatenation. */
  lemma {:induction false} FilterConcat(a: seq<Movie>, b: seq<Movie>, q: string)
    ensures Filter(a + b, q) == Filter(a, q) + Filter(b, q)
  {
    if b == [] {
      assert a + b == a;
    } else {
      var init := b[..|b| - 1];
      FilterConcat(a, init, q);
      assert (a + b)[..|a + b| - 1] == a + init;
    }
  }

  /** The empty query (the cleared search box) shows every record, in order. */
  lemma {:induction false} FilterEmptyQuery(ms: seq<Movie>)
    ensures Filter(ms, "") == ms
  {
    if ms != [] {
      ContainsEmpty(ToLower(ms[|ms| - 1].title + " " + ms[|ms| - 1].review));
      FilterEmptyQuery(ms[..|ms| - 1]);
    }
  }

  /** The filter returns the whole list iff every record matches. */
  lemma FilterAllIff(ms: seq<Movie>, q: string)
    ensures Filter(ms, q) == ms <==> forall j :: 0 <= j < |ms| ==> Matches(ms[j], q)
  {
    if forall j :: 0 <= j < |ms| ==> Matches(ms[j], q) {
      FilterKeepsAll(ms, q);
    }
    if Filter(ms, q) == ms {
      forall j | 0 <= j < |ms| ensures Matches(ms[j], q) {
        FilterMembership(ms, q, ms[j]);
      }
    }
  }

  lemma {:induction false} FilterKeepsAll(ms: seq<Movie>, q: string)
    requires forall j :: 0 <= j < |ms| ==> Matches(ms[j], q)
    ensures Filter(ms, q) == ms
  {
    if ms != [] {
      var init := ms[..|ms| - 1];
      assert forall j :: 0 <= j < |init| ==> init[j] == ms[j];
      FilterKeepsAll(init, q);
      assert ms == init + [ms[|ms| - 1]];
    }
  }

  /** Filtering an already filtered view changes nothing. */
  lemma {:induction false} FilterIdempotent(ms: seq<Movie>, q: string)
    ensures Filter(Filter(ms, q), q) == Filter(ms, q)
  {
    var F := Filter(ms, q);
    forall j | 0 <= j < |F| ensures Matches(F[j], q) {
      FilterMembership(ms, q, F[j]);
    }
    FilterAllIff(F, q);
  }

  /** A newly submitted record appears at the end of the view iff it matches. */
  lemma FilterAfterAppend(ms: seq<Movie>, m: Movie, q: string)
    ensures Filter(ms + [m], q) == Filter(ms, q) + (if Matches(m, q) then [m] else [])
  {
    assert (ms + [m])[..|ms|] == ms;
  }

  /** The view splits around any position: what precedes it, the record
      itself when it matches, and what follows it. */
  lemma FilterAround(ms: seq<Movie>, index: nat, q: string)
    requires index < |ms|
    ensures Filter(ms, q) == Filter(ms[..index], q) + (if Matches(ms[index], q) then [ms[index]] else []) + Filter(ms[index + 1..], q)
  {
    var upTo, after := ms[..index + 1], ms[index + 1..];
    assert ms == upTo + after;
    FilterConcat(upTo, after, q);
    assert upTo == ms[..index] + [ms[index]];
    FilterAfterAppend(ms[..index], ms[index], q);
  }

  /** Deleting position `index` drops that record from the view when it is
      shown and leaves the rest of the view as it was, in order. */
  lemma FilterAfterDelete(ms: seq<Movie>, index: nat, q: string)
    requires index < |ms|
    ensures Filter(RemovedAt(ms, index), q) == Filter(ms[..index], q) + Filter(ms[index + 1..], q)
    ensures !Matches(ms[index], q) ==> Filter(RemovedAt(ms, index), q) == Filter(ms, q)
  {
    var before, after := ms[..index], ms[index + 1..];
    assert RemovedAt(ms, index) == before + after;
    FilterConcat(before, after, q);
    if !Matches(ms[index], q) {
      FilterAround(ms, index, q);
    }
  }

  /** The search text does not mention the rating, so a star click keeps every
      record at the same filtered position. */
  lemma FilterIgnoresRating(ms: seq<Movie>, index: nat, rating: int, q: string)
    requires index < |ms|
    ensures FilterIndices(WithRating(ms, index, rating), q) == FilterIndices(ms, q)
  {
    SameMatchesSameIndices(WithRating(ms, index, rating), ms, q);
  }

  lemma {:induction false} SameMatchesSameIndices(a: seq<Movie>, b: seq<Movie>, q: string)
    requires |a| == |b|
    requires forall j :: 0 <= j < |a| ==> (Matches(a[j], q) <==> Matches(b[j], q))
    ensures FilterIndices(a, q) == FilterIndices(b, q)
  {
    if a != [] {
      var n := |a| - 1;
      assert forall j :: 0 <= j < n ==> a[..n][j] == a[j] && b[..n][j] == b[j];
      SameMatchesSameIndices(a[..n], b[..n], q);
    }
  }

  /** Matching is case-insensitive in the record: two records whose title and
      review agree after lowercasing match the same queries. */
  lemma MatchesIgnoresCase(m1: Movie, m2: Movie, q: string)
    requires ToLower(m1.title) == ToLower(m2.title) && ToLower(m1.review) == ToLower(m2.review)
    ensures Matches(m1, q) <==> Matches(m2, q)
  {
    ToLowerConcat(m1.title + " ", m1.review);
    ToLowerConcat(m1.title, " ");
    ToLowerConcat(m2.title + " ", m2.review);
    ToLowerConcat(m2.title, " ");
  }
}
