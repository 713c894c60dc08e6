/** The prefill generator (generate_locations.py): the distinct places of
    the server list, each resolved through the offline table or the online
    geocoder, written out sorted by key. */
module Prefill {
  import opened Options
  import opened Strings
  import opened Places
  import LocationService

  /** `CITY_ALIASES` of the generator. */
  const GeneratorAliases: map<string, string> := map[
    "new york" := "new york city",
    "frankfurt" := "frankfurt am main",
    "st. louis" := "saint louis",
    "montreal" := "montréal",
    "reykjavik" := "reykjavík",
    "sao paulo" := "são paulo",
    "zurich" := "zürich",
    "quebec" := "québec",
    "washington" := "washington, d.c."
  ]

  /** The generator's alias table is the backend's with `washington` added,
      so the two search the same name for every other city. */
  lemma GeneratorAliasesExtendApp()
    ensures "washington" !in LocationService.AppAliases
    ensures GeneratorAliases == LocationService.AppAliases["washington" := "washington, d.c."]
  {
  }

  /** Both tables give the same search name to every city whose lower case
      is not `washington`. */
  lemma SameSearchExceptWashington(city: string)
    requires PyText.Lower(city) != "washington"
    ensures SearchCity(GeneratorAliases, city) == SearchCity(LocationService.AppAliases, city)
  {
    GeneratorAliasesExtendApp();
  }

  /** A `(city, country)` pair of `unique_keys`. */
  datatype Place = Place(city: string, country: string)

  /** The places of a server list: the site and fixed country of every server
      with both. */
  function PlacesOf(servers: seq<Server>): set<Place> {
    set s | s in servers && Named(s) :: Place(s.site.value, FixCountry(s.country.value))
  }

  lemma PlacesOfSnoc(servers: seq<Server>, s: Server)
    ensures PlacesOf(servers + [s]) == PlacesOf(servers) + (if Named(s) then {Place(s.site.value, FixCountry(s.country.value))} else {})
  {
    var lhs := PlacesOf(servers + [s]);
    var rhs := PlacesOf(servers) + (if Named(s) then {Place(s.site.value, FixCountry(s.country.value))} else {});
    forall p | p in lhs ensures p in rhs {
      var t :| t in servers + [s] && Named(t) && p == Place(t.site.value, FixCountry(t.country.value));
      if t != s {
        assert t in servers;
      }
    }
    forall p | p in rhs ensures p in lhs {
      if p in PlacesOf(servers) {
        var t :| t in servers && Named(t) && p == Place(t.site.value, FixCountry(t.country.value));
        assert t in servers + [s];
      } else {
        assert s in servers + [s];
      }
    }
  }

  /** The loop that fills `unique_keys`: each server with a site and a
      country adds its place, the country fixed. */
  method UniqueKeys(servers: seq<Server>) returns (keys: set<Place>)
    ensures keys == PlacesOf(servers)
  {
    keys := {};
    var i := 0;
    while i < |servers|
      invariant 0 <= i <= |servers|
      invariant keys == PlacesOf(servers[..i])
    {
      var server := servers[i];
      PlacesOfSnoc(servers[..i], server);
      assert servers[..i + 1] == servers[..i] + [server];
      if server.site.Some? && server.site.value != "" && server.country.Some? && server.country.value != "" {
        keys := keys + {Place(server.site.value, FixCountry(server.country.value))};
      }
      i := i + 1;
    }
    assert servers[..i] == servers;
  }

  /** No place keeps `UK` or `USA` as its country. */
  lemma PlacesAreFixed(servers: seq<Server>, p: Place)
    requires p in PlacesOf(servers)
    ensures p.country != "UK" && p.country != "USA"
  {
    var s :| s in servers && Named(s) && p == Place(s.site.value, FixCountry(s.country.value));
    FixCountryIdempotent(s.country.value);
  }

  /** The key a place's result is stored under, with the city as listed. */
  function ResultKey(p: Place): string {
    PlaceKey(p.city, p.country)
  }

  /** The key looked up offline and the query sent online for a place: its
      search name and country. */
  function SearchKey(p: Place): string {
    PlaceKey(SearchCity(GeneratorAliases, p.city), p.country)
  }

  /** What the generator finds for one place: the offline entry when there
      is one, otherwise what the geocoder finds; an error or no location
      gives nothing. */
  function ResolvePlace(p: Place, cities: map<string, Coords>, geocode: string -> GeoAnswer): Option<Coords> {
    if SearchKey(p) in cities then Some(cities[SearchKey(p)])
    else match geocode(SearchKey(p))
      case Found(c) => Some(c)
      case _ => None
  }

  /** `results` is what the loop over `places` leaves: a key is present
      exactly when some place with that key was resolved, and its value is
      what one such place resolved to (the last one the loop met, when two
      places share a key). */
  ghost predicate ResolvedFrom(places: set<Place>, cities: map<string, Coords>, geocode: string -> GeoAnswer,
                         results: map<string, Coords>)
  {
    (forall k :: k in results <==> exists p :: p in places && ResultKey(p) == k && ResolvePlace(p, cities, geocode).Some?)
    && (forall k :: k in results ==> exists p :: p in places && ResultKey(p) == k && ResolvePlace(p, cities, geocode) == Some(results[k]))
  }

  /** The queries sent to the online geocoder: the search key of every place
      the offline table does not know. */
  function OnlineQueries(places: set<Place>, cities: map<string, Coords>): set<string> {
    set p | p in places && SearchKey(p) !in cities :: SearchKey(p)
  }

  /** Resolving one more place adds or overwrites its key when it resolves
      and keeps the rest. */
  lemma ResolveStep(done: set<Place>, p: Place, cities: map<string, Coords>, geocode: string -> GeoAnswer,
                    before: map<string, Coords>, after: map<string, Coords>)
    requires ResolvedFrom(done, cities, geocode, before)
    requires after == if ResolvePlace(p, cities, geocode).Some?
      then before[ResultKey(p) := ResolvePlace(p, cities, geocode).value] else before
    ensures ResolvedFrom(done + {p}, cities, geocode, after)
  {
    StepValues(done, p, cities, geocode, before, after);
    StepKeys(done, p, cities, geocode, before, after);
  }

  /** After one more place, every entry comes from a resolved place. */
  lemma StepValues(done: set<Place>, p: Place, cities: map<string, Coords>, geocode: string -> GeoAnswer,
                   before: map<string, Coords>, after: map<string, Coords>)
    requires ResolvedFrom(done, cities, geocode, before)
    requires after == if ResolvePlace(p, cities, geocode).Some?
      then before[ResultKey(p) := ResolvePlace(p, cities, geocode).value] else before
    ensures forall k :: k in after ==>
      exists q :: q in done + {p} && ResultKey(q) == k && ResolvePlace(q, cities, geocode) == Some(after[k])
  {
    var r := ResolvePlace(p, cities, geocode);
    forall k | k in after
      ensures exists q :: q in done + {p} && ResultKey(q) == k && ResolvePlace(q, cities, geocode) == Some(after[k])
    {
      if r.Some? && k == ResultKey(p) {
        assert p in done + {p};
      } else {
        assert k in before && after[k] == before[k];
        var q :| q in done && ResultKey(q) == k && ResolvePlace(q, cities, geocode) == Some(before[k]);
        assert q in done + {p};
      }
    }
  }

  /** After one more place, the key of every resolved place is present. */
  lemma StepKeys(done: set<Place>, p: Place, cities: map<string, Coords>, geocode: string -> GeoAnswer,
                 before: map<string, Coords>, after: map<string, Coords>)
    requires ResolvedFrom(done, cities, geocode, before)
    requires after == if ResolvePlace(p, cities, geocode).Some?
      then before[ResultKey(p) := ResolvePlace(p, cities, geocode).value] else before
    ensures forall k ::
      (exists q :: q in done + {p} && ResultKey(q) == k && ResolvePlace(q, cities, geocode).Some?) ==> k in after
  {
    forall k | exists q :: q in done + {p} && ResultKey(q) == k && ResolvePlace(q, cities, geocode).Some?
      ensures k in after
    {
      var q :| q in done + {p} && ResultKey(q) == k && ResolvePlace(q, cities, geocode).Some?;
      if q != p {
        assert q in done;
        assert k in before;
      }
    }
  }

  /** One more place sends one more query exactly when the offline table
      does not know it. */
  lemma QueriesStep(done: set<Place>, p: Place, cities: map<string, Coords>)
    ensures OnlineQueries(done + {p}, cities)
      == OnlineQueries(done, cities) + (if SearchKey(p) !in cities then {SearchKey(p)} else {})
  {
    var lhs := OnlineQueries(done + {p}, cities);
    var rhs := OnlineQueries(done, cities) + (if SearchKey(p) !in cities then {SearchKey(p)} else {});
    forall k | k in lhs ensures k in rhs {
      var q :| q in done + {p} && SearchKey(q) !in cities && k == SearchKey(q);
      if q != p {
        assert q in done;
      }
    }
    forall k | k in rhs ensures k in lhs {
      if k in OnlineQueries(done, cities) {
        var q :| q in done && SearchKey(q) !in cities && k == SearchKey(q);
        assert q in done + {p};
      } else {
        assert p in done + {p};
      }
    }
  }

  /** One turn of the loop: the offline entry when the table has the search
      key, otherwise a query to the geocoder, whose location is kept when it
      finds one. */
  method ResolveOne(p: Place, cities: map<string, Coords>, geocode: string -> GeoAnswer,
                    results: map<string, Coords>, queries: set<string>)
    returns (results': map<string, Coords>, queries': set<string>)
    ensures results' == if ResolvePlace(p, cities, geocode).Some?
      then results[ResultKey(p) := ResolvePlace(p, cities, geocode).value] else results
    ensures queries' == queries + (if SearchKey(p) !in cities then {SearchKey(p)} else {})
  {
    var key := PlaceKey(p.city, p.country);
    var searchKey := PlaceKey(SearchCity(GeneratorAliases, p.city), p.country);
    results', queries' := results, queries;
    if searchKey in cities {
      results' := results'[key := cities[searchKey]];
      return;
    }
    queries' := queries' + {searchKey};
    var answer := geocode(searchKey);
    if answer.Found? {
      results' := results'[key := answer.coords];
    }
  }

  /** The loop that fills `results`, in whatever order the set yields its
      places. `queries` collects the searches it sends online: an offline
      hit sends none. */
  method Resolve(places: set<Place>, cities: map<string, Coords>, geocode: string -> GeoAnswer)
    returns (results: map<string, Coords>, queries: set<string>)
    ensures ResolvedFrom(places, cities, geocode, results)
    ensures queries == OnlineQueries(places, cities)
  {
    results := map[];
    queries := {};
    var rest := places;
    while rest != {}
      invariant rest <= places
      invariant ResolvedFrom(places - rest, cities, geocode, results)
      invariant queries == OnlineQueries(places - rest, cities)
      decreases |rest|
    {
      var p :| p in rest;
      ghost var done := places - rest;
      ghost var before := results;
      assert places - (rest - {p}) == done + {p};
      results, queries := ResolveOne(p, cities, geocode, results, queries);
      ResolveStep(done, p, cities, geocode, before, results);
      QueriesStep(done, p, cities);
      rest := rest - {p};
    }
  }

  /** A place alone with its key and known offline gets the offline entry,
      under the key with the city as listed. */
  lemma OfflineHit(places: set<Place>, cities: map<string, Coords>, geocode: string -> GeoAnswer,
                   results: map<string, Coords>, p: Place)
    requires ResolvedFrom(places, cities, geocode, results)
    requires p in places && SearchKey(p) in cities
    requires forall q :: q in places && ResultKey(q) == ResultKey(p) ==> q == p
    ensures PlaceKey(p.city, p.country) in results
    ensures results[PlaceKey(p.city, p.country)] == cities[SearchKey(p)]
  {
    assert ResolvePlace(p, cities, geocode).Some?;
  }

  // ---------------------------------------------------------------------------
  // sorted(results.items())
  // ---------------------------------------------------------------------------

  predicate IsLeast(k: string, keys: set<string>) {
    k in keys && forall j :: j in keys && j != k ==> LexLess(k, j)
  }

  lemma {:induction false} LeastExists(keys: set<string>)
    requires keys != {}
    ensures exists k :: IsLeast(k, keys)
    decreases |keys|
  {
    var x :| x in keys;
    if keys == {x} {
      assert IsLeast(x, keys);
    } else {
      var rest := keys - {x};
      LeastExists(rest);
      var m :| IsLeast(m, rest);
      if LexLess(x, m) {
        forall j | j in keys && j != x ensures LexLess(x, j) {
          if j != m {
            LexLessTransitive(x, m, j);
          }
        }
        assert IsLeast(x, keys);
      } else {
        LexLessTotal(x, m);
        forall j | j in keys && j != m ensures LexLess(m, j) {
          if j != x {
            assert j in rest;
          }
        }
        assert IsLeast(m, keys);
      }
    }
  }

  lemma LeastUnique(keys: set<string>)
    ensures forall a, b :: IsLeast(a, keys) && IsLeast(b, keys) ==> a == b
  {
    forall a, b | IsLeast(a, keys) && IsLeast(b, keys)
      ensures a == b
    {
      if a != b {
        LexLessTransitive(a, b, a);
        LexLessIrreflexive(a);
      }
    }
  }

  /** The smallest key of a non-empty set. */
  function LeastKey(keys: set<string>): (k: string)
    requires keys != {}
    ensures IsLeast(k, keys)
  {
    LeastExists(keys);
    LeastUnique(keys);
    var k :| IsLeast(k, keys);
    k
  }

  /** `sorted(results.items())`: the entries of `m`, smallest key first. */
  function SortedItems(m: map<string, Coords>): seq<(string, Coords)>
    decreases |m|
  {
    if |m| == 0 then []
    else
      var k := LeastKey(m.Keys);
      [(k, m[k])] + SortedItems(m - {k})
  }

  /** One entry is written per key of the map. */
  lemma {:induction false} SortedItemsLength(m: map<string, Coords>)
    ensures |SortedItems(m)| == |m|
    decreases |m|
  {
    if |m| != 0 {
      var k := LeastKey(m.Keys);
      SortedItemsLength(m - {k});
      assert m.Keys == (m - {k}).Keys + {k};
    }
  }

  /** Every written entry is an entry of the map. */
  lemma {:induction false} SortedItemsFromMap(m: map<string, Coords>)
    ensures forall i :: 0 <= i < |SortedItems(m)| ==> SortedItems(m)[i].0 in m && m[SortedItems(m)[i].0] == SortedItems(m)[i].1
    decreases |m|
  {
    if |m| != 0 {
      var k := LeastKey(m.Keys);
      SortedItemsFromMap(m - {k});
    }
  }

  /** Every entry of the map is written. */
  lemma {:induction false} SortedItemsCover(m: map<string, Coords>)
    ensures forall k :: k in m ==> (k, m[k]) in SortedItems(m)
    decreases |m|
  {
    if |m| != 0 {
      var k := LeastKey(m.Keys);
      var rest := m - {k};
      SortedItemsCover(rest);
      forall key | key in m ensures (key, m[key]) in SortedItems(m) {
        if key != k {
          assert key in rest;
        }
      }
    }
  }

  /** The written keys strictly increase. */
  lemma {:induction false} SortedItemsOrdered(m: map<string, Coords>)
    ensures forall i, j :: 0 <= i < j < |SortedItems(m)| ==> LexLess(SortedItems(m)[i].0, SortedItems(m)[j].0)
    decreases |m|
  {
    if |m| != 0 {
      var k := LeastKey(m.Keys);
      var rest := m - {k};
      SortedItemsOrdered(rest);
      SortedItemsFromMap(rest);
      var tail := SortedItems(rest);
      var items := SortedItems(m);
      assert items == [(k, m[k])] + tail;
      forall i, j | 0 <= i < j < |items| ensures LexLess(items[i].0, items[j].0) {
        if i == 0 {
          assert items[j] == tail[j - 1];
          assert items[j].0 in rest;
        } else {
          assert items[i] == tail[i - 1] && items[j] == tail[j - 1];
        }
      }
    }
  }

  /** `generate_locations` after the server list is fetched: the places of
      the list, resolved, and the entries that are written out, sorted by
      key. */
  method GenerateLocations(servers: seq<Server>, cities: map<string, Coords>, geocode: string -> GeoAnswer)
    returns (results: map<string, Coords>, written: seq<(string, Coords)>, queries: set<string>)
    ensures ResolvedFrom(PlacesOf(servers), cities, geocode, results)
    ensures queries == OnlineQueries(PlacesOf(servers), cities)
    ensures written == SortedItems(results)
    ensures |written| == |results|
    ensures forall k :: k in results ==> (k, results[k]) in written
    ensures forall i :: 0 <= i < |written| ==> written[i].0 in results && results[written[i].0] == written[i].1
    ensures forall i, j :: 0 <= i < j < |written| ==> LexLess(written[i].0, written[j].0)
  {
    var places := UniqueKeys(servers);
    results, queries := Resolve(places, cities, geocode);
    written := SortedItems(results);
    SortedItemsLength(results);
    SortedItemsCover(results);
    SortedItemsFromMap(results);
    SortedItemsOrdered(results);
  }
}
