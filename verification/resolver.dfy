/**
 * Result shaping of `fetchMovieDetails`: from the catalog search response to the
 * resolved identity `{id, release_year, adult}` or "not found".
 */
module Resolver {
  import opened Wrappers
  import opened Text

  /** One candidate of the search response; `release_date` may be null or missing. */
  datatype SearchHit = SearchHit(id: int, release_date: Option<string>, adult: bool)

  /** What the search request produced: a thrown error (transport failure, timeout,
      or a response shaped so that reading it throws), or the ranked result list. */
  datatype SearchOutcome = SearchFailed | SearchResults(results: seq<SearchHit>)

  /** The resolved identity; `release_year` is absent when neither the match nor
      the caller supplied one. */
  datatype Details = Details(id: int, release_year: Option<string>, adult: bool)

  /** The release year: the first piece of a present date split on `-` (so even an
      empty date gives a year, the empty one); the caller's year only when the date
      is null or missing, as optional chaining and nullish coalescing behave. */
  function ReleaseYear(releaseDate: Option<string>, year: Option<string>): (y: Option<string>)
    ensures releaseDate.Some? ==> y.Some? && IsPrefixBefore(y.value, releaseDate.value, '-')
    ensures releaseDate.None? ==> y == year
  {
    match releaseDate
    case Some(d) =>
      FirstPieceIsPrefixBefore(d, '-');
      Some(Split(d, '-')[0])
    case None => year
  }

  /** The first result wins; no result, or a failed request, is "not found". */
  function FetchMovieDetails(response: SearchOutcome, year: Option<string>): (r: Option<Details>)
    ensures r.None? <==> response.SearchFailed? || |response.results| == 0
    ensures r.Some? ==>
      var first := response.results[0];
      && r.value.id == first.id
      && r.value.adult == first.adult
      && (first.release_date.Some? ==>
            r.value.release_year.Some? && IsPrefixBefore(r.value.release_year.value, first.release_date.value, '-'))
      && (first.release_date.None? ==> r.value.release_year == year)
  {
    match response
    case SearchFailed => None
    case SearchResults(results) =>
      if |results| == 0 then None
      else
        var first := results[0];
        Some(Details(first.id, ReleaseYear(first.release_date, year), first.adult))
  }
}
