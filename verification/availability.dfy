/**
 * `fetchStreamingAvailability` and the configuration it reads: which of the
 * configured streaming services offer a title by subscription ("flatrate") in
 * the configured country.
 */
module Availability {
  import opened Wrappers
  import opened Seqs
  import opened Text

  /** One provider entry; `provider_name` may be missing from a malformed response. */
  datatype Provider = Provider(provider_name: Option<string>)

  /** A country's entry; its subscription-tier list may be missing. */
  datatype Region = Region(flatrate: Option<seq<Provider>>)

  /** What the provider request produced: a thrown error, or the per-country map. */
  datatype ProvidersOutcome = ProvidersFailed | ProvidersResults(results: map<string, Region>)

  /** The configuration snapshot read once at start-up. */
  datatype Config = Config(country: string, services: seq<string>)

  /** Neither the first nor the last character is whitespace. */
  predicate NoOuterWhitespace(s: string) {
    |s| > 0 ==> !IsJsWhitespace(s[0]) && !IsJsWhitespace(s[|s| - 1])
  }

  /** A normalised service name: lowercase, free of commas, and without whitespace
      at either end. */
  predicate IsServiceName(name: string) {
    && IsLowercase(name)
    && ',' !in name
    && NoOuterWhitespace(name)
  }

  /** `name` is `piece` trimmed and lowercased: the lowercasing of the slice of
      `piece` that starts after its leading whitespace, where only whitespace is
      cut off on either side and the name is a normalised service name. */
  ghost predicate IsNormalisedPiece(piece: string, name: string) {
    var a := LeadingWhitespace(piece);
    && a + |name| <= |piece|
    && name == Lower(piece[a..a + |name|])
    && (forall k :: a + |name| <= k < |piece| ==> IsJsWhitespace(piece[k]))
    && IsServiceName(name)
  }

  /** A piece has only one normalisation, so `IsNormalisedPiece` fixes the name. */
  lemma NormalisedPieceUnique(piece: string, x: string, y: string)
    requires IsNormalisedPiece(piece, x) && IsNormalisedPiece(piece, y)
    ensures x == y
  {
  }

  /** `STREAMING_SERVICES`: the comma-separated setting split on `,`, each piece
      trimmed and lowercased. Pieces are neither dropped nor merged. */
  function ParseServices(setting: string): (services: seq<string>)
    ensures |services| == |Split(setting, ',')|
    ensures forall k :: 0 <= k < |services| ==> IsNormalisedPiece(Split(setting, ',')[k], services[k])
  {
    var parts := Split(setting, ',');
    seq(|parts|, k requires 0 <= k < |parts| => ServiceName(parts[k]))
  }

  /** One configured name: trimmed, then lowercased. */
  function ServiceName(piece: string): (name: string)
    requires ',' !in piece
    ensures IsNormalisedPiece(piece, name)
  {
    NormalisedName(piece);
    Lower(Trim(piece))
  }

  /** A comma-free piece, trimmed and lowercased, is its normalisation. */
  lemma NormalisedName(piece: string)
    requires ',' !in piece
    ensures IsNormalisedPiece(piece, Lower(Trim(piece)))
  {
    var t := Trim(piece);
    TrimIsSlice(piece);
    TrimmedNameIsServiceName(piece, t);
  }

  /** Lowercasing a comma-free trimmed slice gives a normalised service name. */
  lemma TrimmedNameIsServiceName(piece: string, t: string)
    requires ',' !in piece
    requires LeadingWhitespace(piece) + |t| <= |piece|
    requires t == piece[LeadingWhitespace(piece)..LeadingWhitespace(piece) + |t|]
    requires NoOuterWhitespace(t)
    ensures IsServiceName(Lower(t))
  {
    var name := Lower(t);
    var a := LeadingWhitespace(piece);
    assert ',' !in name by {
      forall i | 0 <= i < |t|
        ensures name[i] != ','
      {
        assert t[i] == piece[a + i];
      }
    }
    if |t| > 0 {
      LowerKeepsWhitespace(t[0]);
      LowerKeepsWhitespace(t[|t| - 1]);
    }
  }

  /** A setting with no ASCII capital whose pieces carry no whitespace at either end
      parses to its own pieces: joining them with `,` gives the setting back. Inner
      whitespace, as in `"disney plus,netflix"`, is kept. */
  lemma ParseServicesRoundTrip(setting: string)
    requires IsLowercase(setting)
    requires forall k :: 0 <= k < |Split(setting, ',')| ==> NoOuterWhitespace(Split(setting, ',')[k])
    ensures Join(ParseServices(setting), ',') == setting
  {
    var parts := Split(setting, ',');
    forall k | 0 <= k < |parts|
      ensures ServiceName(parts[k]) == parts[k]
    {
      var p := parts[k];
      assert NoOuterWhitespace(p);
      assert LeadingWhitespace(p) == 0;
      assert TrailingWhitespace(p) == 0 by {
        if |p| > 0 { assert !IsJsWhitespace(p[|p| - 1]); }
      }
      assert Trim(p) == p by {
        if |p| > 0 { assert p[0..|p|] == p; }
      }
      assert IsLowercase(p) by {
        forall i | 0 <= i < |p|
          ensures !IsUpperAscii(p[i])
        {
          assert p[i] in setting;
        }
      }
      LowerIsLowercase(p);
    }
    assert ParseServices(setting) == parts;
    JoinSplit(setting, ',');
  }

  /** The configuration: the country as given, the service list normalised. */
  function LoadConfig(country: string, servicesSetting: string): (cfg: Config)
    ensures cfg.country == country
    ensures |cfg.services| == |Split(servicesSetting, ',')|
    ensures forall k :: 0 <= k < |cfg.services| ==>
      IsNormalisedPiece(Split(servicesSetting, ',')[k], cfg.services[k])
  {
    Config(country, ParseServices(servicesSetting))
  }

  /** The forEach body: a provider name, lowercased, is kept when it is configured. */
  function MatchConfigured(services: seq<string>): string -> Option<string> {
    name => var n := Lower(name); if n in services then Some(n) else None
  }

  /** Every provider entry has a name (reading a missing one throws). */
  predicate AllNamed(flatrate: seq<Provider>) {
    forall k :: 0 <= k < |flatrate| ==> flatrate[k].provider_name.Some?
  }

  function ProviderNames(flatrate: seq<Provider>): (names: seq<string>)
    requires AllNamed(flatrate)
    ensures |names| == |flatrate|
    ensures forall k :: 0 <= k < |flatrate| ==> flatrate[k].provider_name == Some(names[k])
  {
    seq(|flatrate|, k requires 0 <= k < |flatrate| => flatrate[k].provider_name.value)
  }

  /** What the matching keeps is configured and lowercase. */
  lemma MatchedAreConfigured(services: seq<string>, names: seq<string>)
    ensures forall y :: y in FilterMap(MatchConfigured(services), names) ==> y in services && IsLowercase(y)
  {
  }

  /** The services a title is available on: empty when the request failed, when the
      country has no entry, when the entry has no subscription-tier list, or when a
      provider name is missing; otherwise the configured names among the lowercased
      provider names, in provider order with repeats kept. */
  function FetchStreamingAvailability(response: ProvidersOutcome, cfg: Config): (available: seq<string>)
    ensures forall k :: 0 <= k < |available| ==> available[k] in cfg.services && IsLowercase(available[k])
    ensures available != [] ==>
      && response.ProvidersResults?
      && cfg.country in response.results
      && response.results[cfg.country].flatrate.Some?
      && AllNamed(response.results[cfg.country].flatrate.value)
  {
    match response
    case ProvidersFailed => []
    case ProvidersResults(results) =>
      if cfg.country !in results then []
      else
        match results[cfg.country].flatrate
        case None => []
        case Some(flatrate) =>
          if !AllNamed(flatrate) then []
          else
            MatchedAreConfigured(cfg.services, ProviderNames(flatrate));
            FilterMap(MatchConfigured(cfg.services), ProviderNames(flatrate))
  }

  /** Under the configuration read at start-up, every available service is one of
      the configured names and so is trimmed, lowercase and comma-free. */
  lemma AvailableAreConfiguredNames(response: ProvidersOutcome, country: string, servicesSetting: string)
    ensures var available := FetchStreamingAvailability(response, LoadConfig(country, servicesSetting));
      forall k :: 0 <= k < |available| ==>
        available[k] in ParseServices(servicesSetting) && IsServiceName(available[k])
  {
  }

  /** The subscription-tier list of the configured country, when the response has one
      whose every entry is named. */
  predicate HasNamedFlatrate(response: ProvidersOutcome, cfg: Config) {
    && response.ProvidersResults?
    && cfg.country in response.results
    && response.results[cfg.country].flatrate.Some?
    && AllNamed(response.results[cfg.country].flatrate.value)
  }

  /** The list holds a provider whose lowercased name is configured. */
  predicate OffersConfiguredService(response: ProvidersOutcome, cfg: Config) {
    && HasNamedFlatrate(response, cfg)
    && var flatrate := response.results[cfg.country].flatrate.value;
       exists k :: 0 <= k < |flatrate| && Lower(flatrate[k].provider_name.value) in cfg.services
  }

  /** Availability is non-empty exactly when a configured service is on the list. */
  lemma AvailableIffOffered(response: ProvidersOutcome, cfg: Config)
    ensures FetchStreamingAvailability(response, cfg) != [] <==> OffersConfiguredService(response, cfg)
  {
    if HasNamedFlatrate(response, cfg) {
      var flatrate := response.results[cfg.country].flatrate.value;
      var names := ProviderNames(flatrate);
      FilterMapEmpty(MatchConfigured(cfg.services), names);
      if OffersConfiguredService(response, cfg) {
        var k :| 0 <= k < |flatrate| && Lower(flatrate[k].provider_name.value) in cfg.services;
        assert MatchConfigured(cfg.services)(names[k]).Some?;
      }
    }
  }

  /** With a named subscription-tier list, availability lists, for each entry whose
      lowercased name is configured and in the order of the list, that lowercased
      name, and nothing else: `idx` gives the entry each element comes from. */
  lemma AvailabilityFollowsFlatrate(response: ProvidersOutcome, cfg: Config)
    requires HasNamedFlatrate(response, cfg)
    ensures var flatrate := response.results[cfg.country].flatrate.value;
      var available := FetchStreamingAvailability(response, cfg);
      var idx := KeptIndices(MatchConfigured(cfg.services), ProviderNames(flatrate));
      && |idx| == |available|
      && (forall k :: 0 <= k < |idx| ==>
            idx[k] < |flatrate| && available[k] == Lower(flatrate[idx[k]].provider_name.value))
      && (forall k, l :: 0 <= k < l < |idx| ==> idx[k] < idx[l])
      && (forall i :: 0 <= i < |flatrate| ==>
            (i in idx <==> Lower(flatrate[i].provider_name.value) in cfg.services))
  {
  }

  /** `fetchStreamingAvailability` step by step: look up the country's
      subscription-tier list, walk it pushing each configured lowercased name; a
      missing name throws, and the catch returns `[]`. */
  method CollectAvailable(response: ProvidersOutcome, cfg: Config) returns (available: seq<string>)
    ensures available == FetchStreamingAvailability(response, cfg)
  {
    if !response.ProvidersResults? || cfg.country !in response.results {
      return [];
    }
    var region := response.results[cfg.country];
    if region.flatrate.None? {
      return [];
    }
    var flatrate := region.flatrate.value;
    available := [];
    var i := 0;
    while i < |flatrate|
      invariant 0 <= i <= |flatrate|
      invariant AllNamed(flatrate[..i])
      invariant available == FilterMap(MatchConfigured(cfg.services), ProviderNames(flatrate[..i]))
    {
      match flatrate[i].provider_name {
        case None =>
          assert !AllNamed(flatrate);
          return [];
        case Some(name) =>
          var n := Lower(name);
          if n in cfg.services {
            available := available + [n];
          }
      }
      var names := ProviderNames(flatrate[..i + 1]);
      assert names[..i] == ProviderNames(flatrate[..i]);
      i := i + 1;
    }
    assert flatrate[..i] == flatrate;
  }
}
