/** What app.py and generate_locations.py share: a server record as the
    backend sees it, coordinates, the country fixes, the `"city, country"`
    keys, and the alias lookup that turns a city into the name searched for. */
module Places {
  import opened Options
  import PyText

  /** A latitude and longitude. The values are only stored and copied, never
      computed with, so they are kept as opaque reals. */
  datatype Coords = Coords(lat: real, lon: real)

  /** One entry of the server list: its `SITE` and `COUNTRY` (`None` when
      absent or `null`) and the `lat`/`lon` the backend writes into it. */
  datatype Server = Server(site: Option<string>, country: Option<string>, coords: Option<Coords>)

  /** `city and country`: both present and not empty. */
  predicate Named(s: Server) {
    s.site.Some? && s.site.value != "" && s.country.Some? && s.country.value != ""
  }

  /** `COUNTRY_FIXES`: the list's `UK` and `USA` are the ISO codes `GB` and
      `US`; every other country is kept. */
  function FixCountry(country: string): string {
    if country == "UK" then "GB" else if country == "USA" then "US" else country
  }

  /** Fixing a country twice changes nothing more, and a fixed country is
      never `UK` or `USA`. */
  lemma FixCountryIdempotent(country: string)
    ensures FixCountry(FixCountry(country)) == FixCountry(country)
    ensures FixCountry(country) != "UK" && FixCountry(country) != "USA"
  {
  }

  /** `f"{city}, {country}"`. */
  function PlaceKey(city: string, country: string): string {
    city + ", " + country
  }

  /** Different countries give different keys for the same city, and
      different cities different keys in the same country. */
  lemma PlaceKeyInjective(city: string, city': string, country: string, country': string)
    ensures country != country' ==> PlaceKey(city, country) != PlaceKey(city, country')
    ensures city != city' ==> PlaceKey(city, country) != PlaceKey(city', country)
  {
    var a := PlaceKey(city, country);
    if PlaceKey(city, country) == PlaceKey(city, country') {
      assert country == a[|city| + 2..];
    }
    if PlaceKey(city, country) == PlaceKey(city', country) {
      assert |city| == |city'|;
      assert city == a[..|city|];
    }
  }

  /** The name searched for a city: the alias of its lower case in `aliases`,
      or the lower case itself. */
  function SearchCity(aliases: map<string, string>, city: string): string {
    var lower := PyText.Lower(city);
    if lower in aliases then aliases[lower] else lower
  }

  /** The search name does not depend on the city's case. */
  lemma SearchCityIgnoresCase(aliases: map<string, string>, city: string)
    ensures SearchCity(aliases, PyText.Lower(city)) == SearchCity(aliases, city)
  {
    PyText.LowerIdempotent(city);
  }

  /** The answer of the online geocoder for one query: a location, no
      location, or an exception. */
  datatype GeoAnswer = Found(coords: Coords) | NotFound | GeoError
}
