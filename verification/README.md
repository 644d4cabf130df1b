# Movie enrich-and-filter pipeline, modelled in Dafny

This project models the decision logic of a small movie-list service. The service
reads a list of movie records. It resolves each movie against a film catalog
(`fetchMovieDetails`), then looks up which streaming services offer the movie by
subscription ("flatrate") in one configured country (`fetchStreamingAvailability`).
It keeps only the movies that are on none of the configured services
(`getFilteredMovies`). Kept movies that were resolved are enriched with the catalog
id, adult flag, release year and a normalised `clean_title`. Movies that could not
be resolved are kept unchanged.

The two catalog requests are parameters of the model. `Catalog.search` maps
`(query, year)` to the search response, and `Catalog.providers` maps a movie id to
the provider response. A request that throws is an explicit `SearchFailed` /
`ProvidersFailed` response. This includes transport errors, timeouts and responses
whose shape makes reading them throw. The model then includes the source's own
response shaping and error mapping. The configuration (country and the
comma-separated service list) is a plain value.

Modules, one per concern:

- `Wrappers`: `Option`, standing for JavaScript's `null`/`undefined` versus a value.
- `Seqs`: `FilterMap`, the "walk a list, push some results" loop shared by the
  provider filter, the movie loop and the regular-expression deletion. `KeptIndices`
  is its witness of an order-preserving subsequence.
- `Text`: `toLowerCase` on ASCII, the `clean_title` expression, `split` on one
  character with its inverse `Join`, and `trim` with ECMAScript's whitespace set.
- `Resolver`: `fetchMovieDetails` result shaping.
- `Availability`: the `STREAMING_SERVICES` normalisation and
  `fetchStreamingAvailability`.
- `Pipeline`: the `getFilteredMovies` loop, the per-movie decision and the
  whole-list properties.

Facts about the code that shape the model:

- Availability is an array, not a set: provider order and repeated entries are kept.
- Only a `null` or missing `release_date` falls back to the caller's year
  (src/index.ts:25, `?.` and `??`). An empty date string gives the year `""`.
- A movie is excluded only when its resolved id is truthy (src/index.ts:69), so a
  match with id `0` is treated as unresolved: the raw record is kept without an
  availability lookup.
- Unresolved records pass through as they are (src/index.ts:79), so `clean_title`
  is present in the output exactly when the movie was resolved only for source
  records that carry no `clean_title` of their own.

## Model

| member | source | states |
|---|---|---|
| Text.LowerChar | src/index.ts:11 | `toLowerCase` on one character changes exactly the ASCII capitals, each to the small letter at the same alphabet position, and never yields a capital |
| Text.Lower | src/index.ts:50-51 | `toLowerCase` keeps the length and lowercases position by position; its meaning on whole strings is stated by `Text.LowerIsLowercase` |
| Text.LowerIsLowercase | src/index.ts:75 | `toLowerCase` leaves no ASCII capital; it fixes exactly the strings that are already lowercase, so applying it twice equals applying it once |
| Text.CleanTitle | src/index.ts:75 | the `clean_title` expression; what it yields is stated by `Text.CleanTitleIgnoresCaseFlag`, `Text.CleanTitleSubsequence`, `Text.CleanTitleAlphabet` and `Text.CleanTitleIdempotent` |
| Text.CleanTitleIgnoresCaseFlag | src/index.ts:75 | after lowercasing, the `i` flag of `/[^a-z0-9]/gi` makes no difference: the clean title is the `[a-z0-9]` filter of the lowercased title |
| Text.CleanTitleSubsequence | src/index.ts:75 | the clean title is the in-order subsequence of the title's positions whose lowercased character is in `[a-z0-9]`; each survivor is that lowercased character, and no other position survives |
| Text.CleanTitleAlphabet | src/index.ts:75 | every character of the clean title is a lowercase ASCII letter or a digit |
| Text.CleanTitleIdempotent | src/index.ts:75 | normalising a clean title again leaves it unchanged |
| Text.Split | src/index.ts:11 | `split` on one character gives at least one piece; no piece contains the separator, and every character of a piece comes from the input |
| Text.JoinSplit | src/index.ts:11 | joining the pieces of a split with the separator restores the input |
| Text.SplitJoin | src/index.ts:11 | splitting a join of one or more separator-free pieces gives those pieces back |
| Text.FirstPieceIsPrefixBefore | src/index.ts:25 | `split('-')[0]` is the prefix before the first `-`, or the whole string when there is no `-`; an empty string gives `""` |
| Text.PrefixBeforeUnique | src/index.ts:25 | only one string is the prefix before the first separator, so the release year is determined by the date |
| Text.LeadingWhitespace | src/index.ts:11 | counts the longest prefix of ECMAScript whitespace: every character before the count is whitespace, and the character at the count is not |
| Text.TrailingWhitespace | src/index.ts:11 | counts the longest suffix of ECMAScript whitespace: every character in the suffix is whitespace, and the character before it is not |
| Text.Trim | src/index.ts:11 | `trim`; what it yields is stated by `Text.TrimIsSlice`, built on `Text.LeadingWhitespace` and `Text.TrailingWhitespace` |
| Text.TrimIsSlice | src/index.ts:11 | `trim` yields the contiguous slice of its input that starts after the leading whitespace; only whitespace is cut on either side, and the slice neither starts nor ends with whitespace |
| Seqs.FilterMap | src/index.ts:49-53 | a push-loop result is never longer than the list it walks |
| Seqs.KeptIndices | src/index.ts:49-53 | the result of a push loop holds exactly the images of the kept elements, in input order, repeats included, with a strictly increasing index witness |
| Seqs.EnumerationDeterminesResult | src/index.ts:49-53 | any sequence listing the kept images in input order equals the push-loop result, so the enumeration property fully specifies it |
| Seqs.FilterMapAppend | src/index.ts:67-81 | filtering a concatenation is the concatenation of the filtered parts, so items are handled independently |
| Seqs.FilterMapEmpty | src/index.ts:49-53 | a push loop pushes nothing exactly when every element is dropped |
| Resolver.ReleaseYear | src/index.ts:25 | a present date (even an empty one) gives the text before its first `-`; a missing date gives the caller's year |
| Resolver.FetchMovieDetails | src/index.ts:14-32 | "not found" exactly when the request failed or returned no results; otherwise the first result's id and adult flag verbatim, and the release year as in `Resolver.ReleaseYear` |
| Availability.ParseServices | src/index.ts:11 | the service setting gives one name per comma-separated piece, and each name is its piece with the leading and trailing whitespace cut off and then lowercased (`IsNormalisedPiece`) |
| Availability.ServiceName | src/index.ts:11 | a comma-free piece becomes the lowercasing of the slice after its leading whitespace, where only whitespace is cut on either side and the name is lowercase, comma-free and has no whitespace at either end |
| Availability.NormalisedPieceUnique | src/index.ts:11 | a piece has exactly one such normalisation, so the contracts of `ParseServices` and `ServiceName` fix their results |
| Availability.ParseServicesRoundTrip | src/index.ts:11 | a setting with no ASCII capital whose pieces have no whitespace at either end (inner spaces, as in `disney plus`, allowed) parses to its own pieces: joining them with `,` restores the setting |
| Availability.LoadConfig | src/index.ts:10-11 | the configuration keeps the country as given and holds one normalised name per comma-separated piece of the service setting |
| Availability.MatchConfigured | src/index.ts:50-51 | the forEach test and push; what it keeps is stated by `Availability.MatchedAreConfigured` and `Availability.AvailabilityFollowsFlatrate` |
| Availability.MatchedAreConfigured | src/index.ts:49-53 | every name the provider filter keeps is a configured service and lowercase |
| Availability.FetchStreamingAvailability | src/index.ts:34-61 | every element is a configured, lowercase name; a non-empty result needs a successful response with an entry for the country, a `flatrate` list, and a name on every provider |
| Availability.AvailableAreConfiguredNames | src/index.ts:11 | under the start-up configuration, every available service is one of the parsed service names, hence trimmed, lowercase and comma-free |
| Availability.AvailableIffOffered | src/index.ts:43-60 | availability is non-empty exactly when the country's `flatrate` list exists, names every provider, and lists a provider whose lowercased name is configured; it is empty on error, missing country or missing `flatrate` |
| Availability.AvailabilityFollowsFlatrate | src/index.ts:49-53 | with a named `flatrate` list, availability lists, in list order and with repeats, the lowercased name of each entry whose lowercased name is configured, and nothing else |
| Availability.CollectAvailable | src/index.ts:34-61 | the procedure, looking up the country's list and walking it with the push loop and the enclosing catch, computes exactly `Availability.FetchStreamingAvailability` |
| Pipeline.Enrich | src/index.ts:72-76 | the spread merge of a record with its details and clean title; its outcome is stated by `Pipeline.EnrichedRecord` |
| Pipeline.ProcessMovie | src/index.ts:68-80 | one loop iteration; its outcomes are stated by `Pipeline.UnresolvedPassesThrough`, `Pipeline.DroppedIffExcluded`, `Pipeline.EnrichedRecord` and `Pipeline.CleanTitleIffResolved` |
| Pipeline.FilteredMovies | src/index.ts:65-83 | the whole loop as a fold; its meaning is stated by `Pipeline.OutputFollowsInput` and `Pipeline.FilteredMoviesAppend` |
| Pipeline.GetFilteredMovies | src/index.ts:63-84 | the sequential loop computes the filtered list, and that list is no longer than the input |
| Pipeline.UnresolvedPassesThrough | src/index.ts:68-79 | a failed search, an empty result list, or a first result with id `0` keeps the raw record unchanged |
| Pipeline.DroppedIffExcluded | src/index.ts:68-80 | a movie is dropped exactly when its first search result has a truthy id and the provider list for that id offers a configured service |
| Pipeline.EnrichedRecord | src/index.ts:68-77 | a resolved movie that is not excluded is kept; its record has the first result's id and adult flag, the release year before the first `-` (or its own year when the date is missing), the clean title of its raw title, and its title and other fields unchanged |
| Pipeline.CleanTitleIffResolved | src/index.ts:69-79 | for a source record without a clean title, a kept record has one exactly when the movie was resolved |
| Pipeline.OutputFollowsInput | src/index.ts:65-83 | the output is an order-preserving subsequence of the per-movie outcomes; a movie is kept exactly when it is not excluded, and every unresolved movie appears unchanged |
| Pipeline.FilteredMoviesAppend | src/index.ts:67-81 | filtering two lists one after the other equals filtering their concatenation, so items are independent |
| Pipeline.InceptionIsKeptEnriched | src/index.ts:68-76 | "Inception" (2010), matched to id 27205 released 2010-07-16 with no `flatrate` list, is kept as `{title, release_year "2010", id 27205, adult false, clean_title "inception"}` |
| Pipeline.InceptionDetails | src/index.ts:20-27 | the single search result for "Inception" (id 27205, date "2010-07-16", not adult) resolves to id 27205, year "2010", adult false |
| Pipeline.InceptionCleanTitle | src/index.ts:75 | the clean title of "Inception" is "inception" |
| Pipeline.NetflixTitleIsDropped | src/index.ts:46-53 | with only `netflix` configured, a `flatrate` list holding "Netflix" yields availability `["netflix"]`, and the movie is dropped |

## Left out

- HTTP requests: the catalog search, the provider lookup and the download of the
  source list. The two catalog requests are the `Catalog` function parameters.
  Retries, timeouts and transport behaviour are not modelled. A failure to download
  the source list aborts the run and is outside the model.
- Reading the API key, source URL, country and service list from the environment.
  Country and service setting are plain parameters. Only the normalisation of the
  service list is modelled.
- Writing the result as pretty-printed JSON to `filteredMovies.json`, the static
  HTTP server, and the async entry point. These are I/O only.
- Console logging. It has no effect on results.
- Async sequencing. The loop awaits each call in turn, so it is modelled as a plain
  sequential fold.
- Text.LowerIsLowercase: `toLowerCase` is modelled on ASCII only, and every other
  character is left unchanged. Full Unicode lowercasing is not modelled. Two
  non-ASCII characters differ in the clean title as a result: the Kelvin sign
  (U+212A) lowercases to `k`, and capital I with dot (U+0130) lowercases to `i`
  plus a combining dot. JavaScript keeps that `k` or `i`; the model drops the
  character.
- Availability.FetchStreamingAvailability: because lowercasing is ASCII-only, a
  provider name with a non-ASCII capital (such as `ÖTV`) does not match the
  configured `ötv`, while `toLowerCase` in the program makes them match. The model
  then keeps a movie that the program drops.
- Availability.ServiceName: a configured service with a non-ASCII capital (such as
  `ÖTV`) stays as written, while the program lowercases it to `ötv`. Provider
  names are compared against a different list as a result, and the set of dropped
  movies can differ.
- Malformed responses: a non-string `release_date`, a missing `results` field, a
  `flatrate` that is not an array, or a `null` first search result. The source maps
  each of these to `null` or `[]` through its catch blocks or the `!movie` test, so
  each is represented by `SearchFailed` or `ProvidersFailed`. A missing
  `provider_name` is modelled explicitly.
- Ids are integers, so `0` is the only falsy id. `NaN` and non-numeric ids are not
  modelled. The adult flag is a boolean, and a missing flag is not modelled.
- A source record without a string `title` makes `toLowerCase` throw outside any
  catch, which aborts the whole run. The model types `title` as a string.
