/**
 * `getFilteredMovies`: resolve each movie of the source list, look up its
 * subscription availability, and keep the movies that are not on any configured
 * service. The two catalog requests are parameters of the model.
 */
module Pipeline {
  import opened Wrappers
  import opened Seqs
  import opened Text
  import opened Resolver
  import opened Availability

  /** A movie record, of the source list and of the result. `rest` stands for all
      the record's other fields, which the pipeline never reads. */
  datatype Movie<X> = Movie(
    title: string,
    release_year: Option<string>,
    id: Option<int>,
    adult: Option<bool>,
    clean_title: Option<string>,
    rest: X)

  /** The outside world the pipeline depends on: the search request as a function
      of its `query` and `year` parameters, the provider request as a function of
      the movie id, and the configuration. */
  datatype Catalog = Catalog(
    search: (string, Option<string>) -> SearchOutcome,
    providers: int -> ProvidersOutcome,
    cfg: Config)

  /** The merged record, built by spreading the raw movie, then the resolved fields,
      then the clean title: the resolved fields override the raw ones (a missing
      resolved year included), and the clean title comes from the raw title. */
  function Enrich<X>(movie: Movie<X>, extra: Details): Movie<X> {
    movie.(id := Some(extra.id), release_year := extra.release_year, adult := Some(extra.adult),
           clean_title := Some(CleanTitle(movie.title)))
  }

  /** One iteration of the loop: `Some(record)` pushes the record, `None` drops the
      movie. Only a truthy id counts as resolved, so an id of 0 falls back to the raw
      record. */
  function ProcessMovie<X>(catalog: Catalog, movie: Movie<X>): Option<Movie<X>> {
    var extra := FetchMovieDetails(catalog.search(movie.title, movie.release_year), movie.release_year);
    if extra.Some? && extra.value.id != 0 then
      var available := FetchStreamingAvailability(catalog.providers(extra.value.id), catalog.cfg);
      if |available| == 0 then Some(Enrich(movie, extra.value)) else None
    else
      Some(movie)
  }

  function Step<X>(catalog: Catalog): Movie<X> -> Option<Movie<X>> {
    movie => ProcessMovie(catalog, movie)
  }

  /** The filtered list: every movie's outcome, in input order. */
  function FilteredMovies<X>(catalog: Catalog, movies: seq<Movie<X>>): seq<Movie<X>> {
    FilterMap(Step(catalog), movies)
  }

  /** The sequential loop over the source list, pushing onto `filteredMovies`. */
  method GetFilteredMovies<X>(catalog: Catalog, data: seq<Movie<X>>) returns (filteredMovies: seq<Movie<X>>)
    ensures filteredMovies == FilteredMovies(catalog, data)
    ensures |filteredMovies| <= |data|
  {
    filteredMovies := [];
    var i := 0;
    while i < |data|
      invariant 0 <= i <= |data|
      invariant filteredMovies == FilteredMovies(catalog, data[..i])
    {
      var movie := data[i];
      var extra := FetchMovieDetails(catalog.search(movie.title, movie.release_year), movie.release_year);
      if extra.Some? && extra.value.id != 0 {
        var available := FetchStreamingAvailability(catalog.providers(extra.value.id), catalog.cfg);
        if |available| == 0 {
          filteredMovies := filteredMovies + [Enrich(movie, extra.value)];
        }
      } else {
        filteredMovies := filteredMovies + [movie];
      }
      assert data[..i + 1][..i] == data[..i];
      i := i + 1;
    }
    assert data[..i] == data;
  }

  // ---------------------------------------------------------------------------
  // Per-movie decisions, stated on the catalog's raw responses
  // ---------------------------------------------------------------------------

  /** The search for the movie answered with a first result whose id is truthy. */
  predicate Resolves<X>(catalog: Catalog, movie: Movie<X>) {
    var response := catalog.search(movie.title, movie.release_year);
    response.SearchResults? && |response.results| > 0 && response.results[0].id != 0
  }

  function FirstHit<X>(catalog: Catalog, movie: Movie<X>): SearchHit
    requires Resolves(catalog, movie)
  {
    catalog.search(movie.title, movie.release_year).results[0]
  }

  /** The movie is resolved and offered on a configured service in the country. */
  predicate Excluded<X>(catalog: Catalog, movie: Movie<X>) {
    Resolves(catalog, movie) && OffersConfiguredService(catalog.providers(FirstHit(catalog, movie).id), catalog.cfg)
  }

  /** A failed, empty or id-0 search leaves the raw record in the output unchanged. */
  lemma UnresolvedPassesThrough<X>(catalog: Catalog, movie: Movie<X>)
    requires !Resolves(catalog, movie)
    ensures ProcessMovie(catalog, movie) == Some(movie)
  {
  }

  /** A movie is dropped exactly when it is resolved and on a configured service. */
  lemma DroppedIffExcluded<X>(catalog: Catalog, movie: Movie<X>)
    ensures ProcessMovie(catalog, movie).None? <==> Excluded(catalog, movie)
  {
    if Resolves(catalog, movie) {
      AvailableIffOffered(catalog.providers(FirstHit(catalog, movie).id), catalog.cfg);
    }
  }

  /** A resolved movie that is on no configured service is kept with the first
      result's id and adult flag, the year before the `-` of its release date (or the
      movie's own year when the date is missing), the clean title of its own title,
      and every other field unchanged. */
  lemma EnrichedRecord<X>(catalog: Catalog, movie: Movie<X>)
    requires Resolves(catalog, movie) && !Excluded(catalog, movie)
    ensures ProcessMovie(catalog, movie).Some?
    ensures var r, hit := ProcessMovie(catalog, movie).value, FirstHit(catalog, movie);
      && r.title == movie.title
      && r.rest == movie.rest
      && r.id == Some(hit.id)
      && r.adult == Some(hit.adult)
      && (hit.release_date.Some? ==>
            r.release_year.Some? && IsPrefixBefore(r.release_year.value, hit.release_date.value, '-'))
      && (hit.release_date.None? ==> r.release_year == movie.release_year)
      && r.clean_title == Some(CleanTitle(movie.title))
  {
    DroppedIffExcluded(catalog, movie);
  }

  /** For a source record without a clean title, the output record has one exactly
      when the movie was resolved. */
  lemma CleanTitleIffResolved<X>(catalog: Catalog, movie: Movie<X>)
    requires movie.clean_title.None?
    requires ProcessMovie(catalog, movie).Some?
    ensures ProcessMovie(catalog, movie).value.clean_title.Some? <==> Resolves(catalog, movie)
  {
  }

  // ---------------------------------------------------------------------------
  // The whole list
  // ---------------------------------------------------------------------------

  /** The output is an order-preserving subsequence of the per-movie outcomes: `idx`
      lists, in increasing order, the positions of the movies that are kept, the k-th
      output record is the outcome of the movie at `idx[k]`, and a movie is kept
      exactly when it is not excluded. In particular an unresolved movie appears in
      the output unchanged. */
  lemma OutputFollowsInput<X>(catalog: Catalog, movies: seq<Movie<X>>)
    ensures var out, idx := FilteredMovies(catalog, movies), KeptIndices(Step(catalog), movies);
      && |out| == |idx| <= |movies|
      && (forall k :: 0 <= k < |idx| ==> idx[k] < |movies| && ProcessMovie(catalog, movies[idx[k]]) == Some(out[k]))
      && (forall k, l :: 0 <= k < l < |idx| ==> idx[k] < idx[l])
      && (forall i :: 0 <= i < |movies| ==> (i in idx <==> !Excluded(catalog, movies[i])))
      && (forall i :: 0 <= i < |movies| && !Resolves(catalog, movies[i]) ==> movies[i] in out)
  {
    var out, idx := FilteredMovies(catalog, movies), KeptIndices(Step(catalog), movies);
    forall k | 0 <= k < |idx|
      ensures idx[k] < |movies| && ProcessMovie(catalog, movies[idx[k]]) == Some(out[k])
    {
      assert Step(catalog)(movies[idx[k]]) == Some(out[k]);
    }
    forall i | 0 <= i < |movies|
      ensures i in idx <==> !Excluded(catalog, movies[i])
      ensures !Resolves(catalog, movies[i]) ==> movies[i] in out
    {
      DroppedIffExcluded(catalog, movies[i]);
      assert Step(catalog)(movies[i]) == ProcessMovie(catalog, movies[i]);
      if !Resolves(catalog, movies[i]) {
        var k :| 0 <= k < |idx| && idx[k] == i;
        assert Step(catalog)(movies[idx[k]]) == Some(out[k]);
      }
    }
  }

  /** Movies are processed independently: filtering two lists one after the other is
      filtering their concatenation. */
  lemma FilteredMoviesAppend<X>(catalog: Catalog, a: seq<Movie<X>>, b: seq<Movie<X>>)
    ensures FilteredMovies(catalog, a + b) == FilteredMovies(catalog, a) + FilteredMovies(catalog, b)
  {
    FilterMapAppend(Step(catalog), a, b);
  }

  // ---------------------------------------------------------------------------
  // Scenarios
  // ---------------------------------------------------------------------------

  /** "Inception" (2010) matches id 27205, released 2010-07-16, not adult, with no
      subscription-tier list in the configured country: it is kept, enriched. */
  lemma InceptionIsKeptEnriched<X>(catalog: Catalog, rest: X)
    requires catalog.search("Inception", Some("2010"))
      == SearchResults([SearchHit(27205, Some("2010-07-16"), false)])
    requires catalog.providers(27205) == ProvidersResults(map[catalog.cfg.country := Region(None)])
    ensures FilteredMovies(catalog, [Movie("Inception", Some("2010"), None, None, None, rest)])
      == [Movie("Inception", Some("2010"), Some(27205), Some(false), Some("inception"), rest)]
  {
    var movie := Movie("Inception", Some("2010"), None, None, None, rest);
    InceptionDetails();
    InceptionCleanTitle();
    assert FetchStreamingAvailability(catalog.providers(27205), catalog.cfg) == [];
    assert ProcessMovie(catalog, movie)
      == Some(Movie("Inception", Some("2010"), Some(27205), Some(false), Some("inception"), rest));
    assert [movie][..0] == [];
  }

  /** The match for "Inception" resolves to id 27205, year "2010", not adult. */
  lemma InceptionDetails()
    ensures FetchMovieDetails(SearchResults([SearchHit(27205, Some("2010-07-16"), false)]), Some("2010"))
      == Some(Details(27205, Some("2010"), false))
  {
    var r := FetchMovieDetails(SearchResults([SearchHit(27205, Some("2010-07-16"), false)]), Some("2010"));
    assert IsPrefixBefore("2010", "2010-07-16", '-');
    PrefixBeforeUnique(r.value.release_year.value, "2010", "2010-07-16", '-');
  }

  /** The clean title of "Inception" is "inception". */
  lemma InceptionCleanTitle()
    ensures CleanTitle("Inception") == "inception"
  {
    CleanTitleIgnoresCaseFlag("Inception");
    assert Lower("Inception") == "inception";
    forall i | 0 <= i < |"inception"|
      ensures Keep(IsLowerAlnum)("inception"[i]) == Some("inception"[i])
    {
      assert IsLowerAlnum("inception"[i]);
    }
    FilterMapIdentity(Keep(IsLowerAlnum), "inception");
  }

  /** With only `netflix` configured, a resolved movie whose list holds "Netflix" is
      available on `netflix` and is dropped. */
  lemma NetflixTitleIsDropped<X>(catalog: Catalog, movie: Movie<X>)
    requires catalog.cfg.services == ["netflix"]
    requires Resolves(catalog, movie)
    requires catalog.providers(FirstHit(catalog, movie).id)
      == ProvidersResults(map[catalog.cfg.country := Region(Some([Provider(Some("Netflix"))]))])
    ensures FetchStreamingAvailability(catalog.providers(FirstHit(catalog, movie).id), catalog.cfg) == ["netflix"]
    ensures FilteredMovies(catalog, [movie]) == []
  {
    var names := ProviderNames([Provider(Some("Netflix"))]);
    assert names == ["Netflix"];
    assert Lower("Netflix") == "netflix";
    assert names[..0] == [];
    assert [movie][..0] == [];
  }
}
