/** The backend's location state (app.py): the coordinate cache, the
    negative cache of failed lookups, the list of servers shown on the map,
    and the operations on them: `get_coordinates`, the merge in `load_cache`
    and the cache-only first pass of `update_servers_background`. */
module LocationService {
  import opened Options
  import opened Places

  /** `CITY_ALIASES` of app.py: names the offline table knows under another
      spelling. */
  const AppAliases: map<string, string> := map[
    "new york" := "new york city",
    "frankfurt" := "frankfurt am main",
    "st. louis" := "saint louis",
    "montreal" := "montréal",
    "reykjavik" := "reykjavík",
    "sao paulo" := "são paulo",
    "zurich" := "zürich",
    "quebec" := "québec"
  ]

  /** The outcome of one `get_coordinates` call: its result and the new
      coordinate cache and failed-lookup set. */
  datatype Lookup = Lookup(result: Option<Coords>, cache: map<string, Coords>, failed: set<string>)

  /** `get_coordinates(city, country)` over the cache `cache`, the failed
      lookups `failed`, the offline table `cities` and the online geocoder
      `geocode`. The country is fixed before the key is formed; a cache hit
      and a known failure change nothing; the offline table and the geocoder
      are asked with the aliased, lower-cased city, and what they find is
      stored under the key with the city as given; a place the geocoder does
      not know becomes a failed lookup, an error of the geocoder does not. */
  function GetCoords(cache: map<string, Coords>, failed: set<string>, cities: map<string, Coords>,
                     geocode: string -> GeoAnswer, city: string, country: string): (r: Lookup)
    ensures var key := PlaceKey(city, FixCountry(country));
      (forall k :: k in cache ==> k in r.cache && r.cache[k] == cache[k])
      && r.cache.Keys <= cache.Keys + {key}
      && failed <= r.failed <= failed + {key}
      && (r.result.Some? ==> key in r.cache && r.cache[key] == r.result.value)
      && (key in r.failed - failed ==> r.result.None? && r.cache == cache)
  {
    var fixed := FixCountry(country);
    var key := PlaceKey(city, fixed);
    if key in cache then Lookup(Some(cache[key]), cache, failed)
    else if key in failed then Lookup(None, cache, failed)
    else
      var offlineKey := OfflineKey(city, country);
      if offlineKey in cities then Lookup(Some(cities[offlineKey]), cache[key := cities[offlineKey]], failed)
      else match geocode(offlineKey)
        case Found(coords) => Lookup(Some(coords), cache[key := coords], failed)
        case NotFound => Lookup(None, cache, failed + {key})
        case GeoError => Lookup(None, cache, failed)
  }

  /** The key the offline table is asked with: the aliased, lower-cased city
      and the fixed country. */
  function OfflineKey(city: string, country: string): string {
    PlaceKey(SearchCity(AppAliases, city), FixCountry(country))
  }

  /** A cached place is answered from the cache, and nothing changes. */
  lemma GetCoordsCacheHit(cache: map<string, Coords>, failed: set<string>, cities: map<string, Coords>,
                          geocode: string -> GeoAnswer, city: string, country: string)
    requires PlaceKey(city, FixCountry(country)) in cache
    ensures GetCoords(cache, failed, cities, geocode, city, country)
      == Lookup(Some(cache[PlaceKey(city, FixCountry(country))]), cache, failed)
  {
  }

  /** A place that is not cached but already failed gets no answer, and
      nothing changes. */
  lemma GetCoordsKnownFailure(cache: map<string, Coords>, failed: set<string>, cities: map<string, Coords>,
                              geocode: string -> GeoAnswer, city: string, country: string)
    requires PlaceKey(city, FixCountry(country)) !in cache && PlaceKey(city, FixCountry(country)) in failed
    ensures GetCoords(cache, failed, cities, geocode, city, country) == Lookup(None, cache, failed)
  {
  }

  /** A new place the offline table knows gets the offline entry, which is
      cached under the place's own key; the geocoder is not asked. */
  lemma GetCoordsOffline(cache: map<string, Coords>, failed: set<string>, cities: map<string, Coords>,
                         geocode: string -> GeoAnswer, city: string, country: string)
    requires PlaceKey(city, FixCountry(country)) !in cache && PlaceKey(city, FixCountry(country)) !in failed
    requires OfflineKey(city, country) in cities
    ensures var coords := cities[OfflineKey(city, country)];
      GetCoords(cache, failed, cities, geocode, city, country)
        == Lookup(Some(coords), cache[PlaceKey(city, FixCountry(country)) := coords], failed)
  {
  }

  /** A new place the offline table does not know is sent to the geocoder
      with the offline key: a location found is cached, a place not found is
      recorded as failed, and an error of the geocoder answers nothing and
      changes nothing. */
  lemma GetCoordsOnline(cache: map<string, Coords>, failed: set<string>, cities: map<string, Coords>,
                        geocode: string -> GeoAnswer, city: string, country: string)
    requires PlaceKey(city, FixCountry(country)) !in cache && PlaceKey(city, FixCountry(country)) !in failed
    requires OfflineKey(city, country) !in cities
    ensures var key := PlaceKey(city, FixCountry(country));
      var r := GetCoords(cache, failed, cities, geocode, city, country);
      match geocode(OfflineKey(city, country))
      case Found(coords) => r == Lookup(Some(coords), cache[key := coords], failed)
      case NotFound => r == Lookup(None, cache, failed + {key})
      case GeoError => r == Lookup(None, cache, failed)
  {
  }

  /** Asking again settles: after a place was found, or found unknown, the
      same question is answered the same way without touching any state. Only
      an error of the geocoder leaves the place to be asked again. */
  lemma GetCoordsSettles(cache: map<string, Coords>, failed: set<string>, cities: map<string, Coords>,
                         geocode: string -> GeoAnswer, city: string, country: string)
    ensures var first := GetCoords(cache, failed, cities, geocode, city, country);
      var key := PlaceKey(city, FixCountry(country));
      first.result.Some? || key in first.failed ==>
        GetCoords(first.cache, first.failed, cities, geocode, city, country) == first
  {
  }

  /** `UK` and `GB` (and `USA` and `US`) are the same country to the lookup. */
  lemma GetCoordsFixesCountry(cache: map<string, Coords>, failed: set<string>, cities: map<string, Coords>,
                              geocode: string -> GeoAnswer, city: string)
    ensures GetCoords(cache, failed, cities, geocode, city, "UK") == GetCoords(cache, failed, cities, geocode, city, "GB")
    ensures GetCoords(cache, failed, cities, geocode, city, "USA") == GetCoords(cache, failed, cities, geocode, city, "US")
  {
  }

  /** The servers the first pass keeps: those with a site and a country whose
      key, formed with the country as listed, is in the cache, in their order,
      each with that entry's coordinates written in. */
  function CacheHits(servers: seq<Server>, cache: map<string, Coords>): (hits: seq<Server>)
    ensures |hits| <= |servers|
    ensures forall j :: 0 <= j < |hits| ==>
      (Named(hits[j])
       && PlaceKey(hits[j].site.value, hits[j].country.value) in cache
       && hits[j].coords == Some(cache[PlaceKey(hits[j].site.value, hits[j].country.value)]))
    decreases |servers|
  {
    if servers == [] then []
    else
      var s := servers[0];
      (if Named(s) && PlaceKey(s.site.value, s.country.value) in cache
       then [s.(coords := Some(cache[PlaceKey(s.site.value, s.country.value)]))]
       else [])
      + CacheHits(servers[1..], cache)
  }

  /** The first pass works server by server: the hits of a list are the hits
      of its parts, in order. */
  lemma {:induction false} CacheHitsAppend(a: seq<Server>, b: seq<Server>, cache: map<string, Coords>)
    ensures CacheHits(a + b, cache) == CacheHits(a, cache) + CacheHits(b, cache)
    decreases |a|
  {
    if a == [] {
      assert a + b == b;
    } else {
      assert (a + b)[1..] == a[1..] + b;
      CacheHitsAppend(a[1..], b, cache);
    }
  }

  /** A server is kept, annotated, exactly when it has a site and a country
      and its unfixed key is in the cache. */
  lemma {:induction false} CacheHitsMembers(servers: seq<Server>, cache: map<string, Coords>, s: Server)
    requires s in servers
    ensures Named(s) && PlaceKey(s.site.value, s.country.value) in cache ==>
      s.(coords := Some(cache[PlaceKey(s.site.value, s.country.value)])) in CacheHits(servers, cache)
    ensures (exists c :: s.(coords := c) in CacheHits(servers, cache)) ==>
      Named(s) && PlaceKey(s.site.value, s.country.value) in cache
    decreases |servers|
  {
    if servers[0] != s {
      CacheHitsMembers(servers[1..], cache, s);
    }
  }

  /** Every server the first pass keeps is the annotated copy of a server of
      the list that has a site and a country and whose unfixed key is in the
      cache. */
  lemma {:induction false} CacheHitsFrom(servers: seq<Server>, cache: map<string, Coords>, h: Server)
    requires h in CacheHits(servers, cache)
    ensures exists s {:trigger s in servers} ::
      (s in servers && Named(s) && PlaceKey(s.site.value, s.country.value) in cache
       && h == s.(coords := Some(cache[PlaceKey(s.site.value, s.country.value)])))
    decreases |servers|
  {
    var s := servers[0];
    var first := if Named(s) && PlaceKey(s.site.value, s.country.value) in cache
      then [s.(coords := Some(cache[PlaceKey(s.site.value, s.country.value)]))] else [];
    assert CacheHits(servers, cache) == first + CacheHits(servers[1..], cache);
    if h in first {
      assert s in servers;
    } else {
      CacheHitsFrom(servers[1..], cache, h);
      var t :| t in servers[1..] && Named(t) && PlaceKey(t.site.value, t.country.value) in cache
        && h == t.(coords := Some(cache[PlaceKey(t.site.value, t.country.value)]));
      assert t in servers;
    }
  }

  /** A `UK` or `USA` server is not kept by the first pass even once its
      location has been looked up: the lookup stores it under the fixed
      country, the pass asks with the listed one. */
  lemma FirstPassMissesFixedCountry(cache: map<string, Coords>, failed: set<string>, cities: map<string, Coords>,
                                    geocode: string -> GeoAnswer, s: Server)
    requires Named(s) && (s.country.value == "UK" || s.country.value == "USA")
    requires PlaceKey(s.site.value, s.country.value) !in cache
    ensures var after := GetCoords(cache, failed, cities, geocode, s.site.value, s.country.value);
      CacheHits([s], after.cache) == []
  {
    var city := s.site.value;
    var listed := PlaceKey(city, s.country.value);
    var fixed := PlaceKey(city, FixCountry(s.country.value));
    assert listed[|city| + 2..] != fixed[|city| + 2..];
    assert [s][1..] == [];
  }

  /** The cache file as `load_cache` finds it. */
  datatype CacheFile = Missing | Unreadable | Read(entries: map<string, Coords>)

  /** The cache after the file is read: a missing file keeps the cache as it
      was, an unreadable one empties it, a readable one replaces it. */
  function FileCache(cache: map<string, Coords>, file: CacheFile): map<string, Coords> {
    match file
    case Missing => cache
    case Unreadable => map[]
    case Read(entries) => entries
  }

  class LocationService {
    /** `location_cache`: coordinates by `"city, country"` key. */
    var locationCache: map<string, Coords>
    /** `failed_lookups`: keys the online geocoder did not know. */
    var failedLookups: set<string>
    /** `processed_servers`: the servers the map shows. */
    var processedServers: seq<Server>
    /** `cities_by_name`: the offline table, by lower-case name and country
        code. */
    const citiesByName: map<string, Coords>

    constructor (cities: map<string, Coords>)
      ensures locationCache == map[] && failedLookups == {} && processedServers == []
      ensures citiesByName == cities
    {
      locationCache := map[];
      failedLookups := {};
      processedServers := [];
      citiesByName := cities;
    }

    /** `get_coordinates(city, country)`, with `geocode` standing for the
        online geocoder. */
    method GetCoordinates(city: string, country: string, geocode: string -> GeoAnswer) returns (coords: Option<Coords>)
      modifies this`locationCache, this`failedLookups
      ensures var r := GetCoords(old(locationCache), old(failedLookups), citiesByName, geocode, city, country);
        coords == r.result && locationCache == r.cache && failedLookups == r.failed
    {
      var fixed := FixCountry(country);
      var key := PlaceKey(city, fixed);
      if key in locationCache {
        return Some(locationCache[key]);
      }
      if key in failedLookups {
        return None;
      }
      var searchCity := SearchCity(AppAliases, city);
      var offlineKey := PlaceKey(searchCity, fixed);
      if offlineKey in citiesByName {
        coords := Some(citiesByName[offlineKey]);
        locationCache := locationCache[key := citiesByName[offlineKey]];
        return;
      }
      var answer := geocode(offlineKey);
      match answer {
        case Found(c) =>
          locationCache := locationCache[key := c];
          coords := Some(c);
        case NotFound =>
          failedLookups := failedLookups + {key};
          coords := None;
        case GeoError =>
          coords := None;
      }
    }

    /** The loop of `load_cache` over the prefilled entries: an entry is
        added only when its key is not cached yet. */
    method MergePrefilled(extra: map<string, Coords>)
      modifies this`locationCache
      ensures locationCache.Keys == old(locationCache).Keys + extra.Keys
      ensures forall k :: k in old(locationCache) ==> locationCache[k] == old(locationCache)[k]
      ensures forall k :: k in extra && k !in old(locationCache) ==> locationCache[k] == extra[k]
    {
      var cache := locationCache;
      var rest := extra.Keys;
      while rest != {}
        invariant rest <= extra.Keys
        invariant forall k :: k in cache <==> k in locationCache || (k in extra && k !in rest)
        invariant forall k :: k in cache ==> cache[k] == if k in locationCache then locationCache[k] else extra[k]
        decreases |rest|
      {
        var k :| k in rest;
        if k !in cache {
          cache := cache[k := extra[k]];
        }
        rest := rest - {k};
      }
      locationCache := cache;
    }

    /** `load_cache`: the cache file replaces the cache (or empties it when
        unreadable), then every prefilled entry whose key is not yet cached
        is added; existing entries always win. `prefilled` is `None` when the
        prefilled file is missing or unreadable. */
    method LoadCache(file: CacheFile, prefilled: Option<map<string, Coords>>)
      modifies this`locationCache
      ensures var base := FileCache(old(locationCache), file);
        var extra := if prefilled.Some? then prefilled.value else map[];
        locationCache.Keys == base.Keys + extra.Keys
        && (forall k :: k in base ==> locationCache[k] == base[k])
        && (forall k :: k in extra && k !in base ==> locationCache[k] == extra[k])
    {
      locationCache := FileCache(locationCache, file);
      if prefilled.Some? {
        MergePrefilled(prefilled.value);
      }
    }

    /** The first pass of `update_servers_background`: the servers whose
        unfixed key is cached, annotated with the cached coordinates, become
        the servers shown. */
    method InitialPass(servers: seq<Server>)
      modifies this`processedServers
      ensures processedServers == CacheHits(servers, locationCache)
    {
      var cache := locationCache;
      var kept: seq<Server> := [];
      var i := 0;
      while i < |servers|
        invariant 0 <= i <= |servers|
        invariant kept == CacheHits(servers[..i], cache)
      {
        var server := servers[i];
        CacheHitsAppend(servers[..i], [server], cache);
        assert servers[..i + 1] == servers[..i] + [server];
        assert [server][1..] == [];
        if server.site.Some? && server.site.value != "" && server.country.Some? && server.country.value != "" {
          var key := PlaceKey(server.site.value, server.country.value);
          if key in cache {
            kept := kept + [server.(coords := Some(cache[key]))];
          }
        }
        i := i + 1;
      }
      assert servers[..i] == servers;
      processedServers := kept;
    }

    /** `update_servers_background` up to the end of its first pass: the
        cache is loaded, then the cached servers are shown. */
    method Refresh(servers: seq<Server>, file: CacheFile, prefilled: Option<map<string, Coords>>)
      modifies this`locationCache, this`processedServers
      ensures var base := FileCache(old(locationCache), file);
        var extra := if prefilled.Some? then prefilled.value else map[];
        locationCache.Keys == base.Keys + extra.Keys
        && (forall k :: k in base ==> locationCache[k] == base[k])
        && (forall k :: k in extra && k !in base ==> locationCache[k] == extra[k])
      ensures processedServers == CacheHits(servers, locationCache)
    {
      LoadCache(file, prefilled);
      InitialPass(servers);
    }
  }
}
