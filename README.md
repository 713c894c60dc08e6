# iperf3-map in Dafny

iperf3-map is a map of public iperf3 servers. This project models three
parts of it and proves properties of each:

- **The browser's decision logic** (static/script.js):
  - the ports a server's `PORT` text offers;
  - the grouping of servers by location (`"lat,lon"` key);
  - what each poll of `/api/servers` does next;
  - the flags text and request body sent to `/api/test`.
- **The backend's logic** (app.py):
  - how `run_test` checks the host and flags and builds the iperf3 argument vector;
  - the `get_coordinates` lookup chain: country fix, cache, negative cache, alias, offline table, online geocoder;
  - the merge in `load_cache`;
  - the cache-only first pass of `update_servers_background`.
- **The prefill generator** (generate_locations.py):
  - the distinct `(city, fixed country)` places;
  - resolving each place through the offline table or the online geocoder;
  - the entries written out, sorted by key.

## Modules

- `Options`, `Strings`: shared helpers. `Strings` holds split and join on one character, decimal rendering, and code-point order on strings.
- `JsText`: the JavaScript semantics the page relies on.
  - JavaScript white space and `String.prototype.trim`.
  - `parseInt`: leading white space, a sign, a `0x` prefix, the longest digit run. `NaN` is modelled as `None`.
  - The rendering of a number as text.
- `PyText`: the Python semantics the backend relies on.
  - `str.isspace`.
  - `str.split()` with no argument.
  - `str.lower()`.
- `PortSpec`: `openTestModal`'s port list. The range loop is a `while` loop with its `break`.
- `ServerMap`: the grouping and the poll step.
  - The page's state is the class `Poller`. Its fields are the groups (`serversByLocation`), the status indicator and the count text.
  - The groups are cleared key by key, then refilled server by server.
- `TestForm`: the flags text (built with `+=`, then trimmed) and the request body.
- `TestEndpoint`: `run_test` up to the process call. The posted port is a JSON value of any type, which the handler never checks: a text port reaches the command as it is. The flag tokens are appended one by one.
- `TestSubmit`: the two sides together. It states which iperf3 command the form's settings lead to.
- `Places`: what app.py and generate_locations.py share.
  - The server record and coordinates.
  - `COUNTRY_FIXES`.
  - The `"city, country"` key.
  - The alias lookup.
- `LocationService`: app.py's mutable state, as the class `LocationService`. Its fields are `location_cache`, `failed_lookups`, `processed_servers` and the offline table.
- `Prefill`: generate_locations.py. It models:
  - the loop filling `unique_keys`;
  - the loop filling `results`, which takes places from the set in any order;
  - `sorted(results.items())`.

The external calls become parameters:

- The online geocoder is a function from query text to `Found(coords)`, `NotFound` or `GeoError`.
- The offline table is a map.
- The cache files are values: missing, unreadable, or read with its entries.
- A fetch of the server list is the value `FetchFailed` or `Fetched(servers)`.
- The timer calls become the returned `Next` decision.

Coordinates in the backend are opaque reals, because they are only copied. The browser receives them as JSON numbers. There they are kept as the text JavaScript renders for them: the grouping key is made from that text, and a value is falsy exactly when that text is `0` or `NaN`.

### Where the code and its description differ

The model follows the code:

- A `PORT` range longer than 20 ports yields **21** ports. The loop at static/script.js:174-177 pushes a port before it tests `ports.length > 20`. `PortSpec.ExpandRange` states the bound as `RangeLimit + 1`.
- The port list can be **empty**. This happens when the range's start is `NaN`, its end is `NaN`, or the start is greater than the end. In that case the drop-down has no option, the chosen value is `""`, and the request's port is `null`. The backend then uses 5201, which `TestSubmit.SubmitTest` states.

## Model

| member | source | states |
|---|---|---|
| Strings.SplitOn | static/script.js:171 | `split` on one character: it yields at least one piece and no piece contains the separator; text without the separator is one piece, and text with it gives at least two pieces |
| Strings.JoinSplit | static/script.js:179 | joining the pieces of a split with the separator gives back the text |
| Strings.SplitJoin | static/script.js:179 | splitting a join of separator-free pieces gives back the pieces |
| Strings.JoinWithChars | static/script.js:249-253 | a character of a join is a character of some piece, or the separator when there are two pieces or more; the converse holds too |
| Strings.NatToDecimal | app.py:235 | the decimal text of a number is non-empty, is all digits, and has no leading zero unless the number is 0 |
| Strings.LexLessIrreflexive | generate_locations.py:96 | no string sorts before itself |
| Strings.LexLessTransitive | generate_locations.py:96 | the code-point order on strings is transitive |
| Strings.LexLessTotal | generate_locations.py:96 | any two different strings are ordered one way or the other |
| JsText.TrimStart | static/script.js:179 | removes exactly a leading run of white space; the rest starts with a non-white character |
| JsText.TrimEnd | static/script.js:179 | removes exactly a trailing run of white space; the rest ends with a non-white character |
| JsText.Trim | static/script.js:263 | the result has no white space at either end, and text that already has none is left as it is |
| JsText.TrimParts | static/script.js:263 | the text is white space, then the trimmed text, then white space |
| JsText.TrimKeepsChars | static/script.js:263 | trimming adds no character, and any non-white character is in the trimmed text if and only if it is in the text |
| JsText.TrimAfterWhite | static/script.js:251-263 | a white character in front of the text changes nothing that `trim` returns |
| JsText.DigitRun | static/script.js:172 | the length of the longest leading run of digits in the radix: all of them are digits and the next character is not |
| JsText.ParseDecimalPadded | static/script.js:171-173 | `parseInt` skips leading white space, takes one `+` or `-`, and reads a decimal number up to the first non-digit, as in the padded pieces `"5201 "` and `" 5203"` of a range; text after a lone `0` must not start with `x` or `X` |
| JsText.ParseHexPadded | static/script.js:172-181 | after white space and an optional sign, `0x` or `0X` and a run of hex digits are read as a hexadecimal number |
| JsText.ParseNaNText | static/script.js:187 | `parseInt("NaN")` is `NaN` |
| JsText.ParseNoDigits | static/script.js:172-181 | `parseInt` is `NaN` when no digit follows the leading white space and the optional sign, as for a `PORT` piece such as `"abc"` |
| JsText.ParseNatText | static/script.js:187 | `parseInt` reads back the decimal text of any natural number |
| JsText.ParseNegativeText | static/script.js:187 | `parseInt` reads back the text of any negative number |
| JsText.ParseNumberToString | static/script.js:248 | a port rendered into an option and read back with `parseInt` is the same port, `NaN` included (for the model's exact integers; see JsText.NumberToString under Left out for JavaScript's bounds) |
| PyText.Split | app.py:241 | `str.split()`: every token is non-empty and has no white space |
| PyText.SplitWord | app.py:241 | a non-empty run of non-white characters is one token, never cut |
| PyText.SplitKeepsText | app.py:241 | the tokens put back together are exactly the text's non-white characters in order: `str.split()` loses nothing |
| PyText.WordsChars | app.py:238-242 | every character of a token comes from the text split |
| PyText.SplitJoinedBySpaces | app.py:241 | splitting pieces joined by spaces gives the tokens of each piece, one piece after another |
| PyText.WordsAroundWhite | app.py:241 | a white character separates the tokens before it from the tokens after it |
| PyText.SplitOfTrim | app.py:241 | for text without U+FEFF, JavaScript's `trim` does not change what `str.split()` returns |
| PyText.Lower | app.py:92 | lower-casing keeps the length |
| PortSpec.ExpandRange | static/script.js:174-177 | the range loop yields `start, start+1, …` with at most 21 entries, and nothing for a `NaN` bound or a reversed range |
| PortSpec.PortSelection | static/script.js:168-185 | the rules in order: an absent or empty `PORT` gives exactly `[5201]`; text with `-` is the run between the first two pieces, even when it also holds `,`; text with `,` gives one entry per piece, each `parseInt` of the trimmed piece, `NaN` kept; anything else gives `[parseInt(PORT)]` |
| ServerMap.AtKey | static/script.js:71-85 | a group's members are located servers with the group's key, and there are no more of them than servers |
| ServerMap.AtKeyMembers | static/script.js:71-85 | a server is in the group of key `k` if and only if it has truthy `lat` and `lon` and its key is `k`; a server with a falsy coordinate, 0 included, is in no group |
| ServerMap.AtKeyAppend | static/script.js:71-85 | groups are filled in arrival order: the members from a longer list are those from its first part, followed by those from the rest |
| ServerMap.AtKeyFirst | static/script.js:74-81 | the first member of a group is the first server met with that key |
| ServerMap.Continuation | static/script.js:61-132 | the poll step: an empty list retries after 3000 ms; 1–99 servers refresh after 5000 ms; 100 or more servers are done and hide the status after 3000 ms; a failed fetch stops; it reschedules exactly when the fetch succeeded with fewer than 100 servers |
| ServerMap.Poller.ClearGroups | static/script.js:69 | the `delete` loop leaves no group |
| ServerMap.Poller.AddServer | static/script.js:72-83 | a located server is appended to the group of its key, and that group is created from it when new; other servers change nothing |
| ServerMap.Poller.Rebuild | static/script.js:69-85 | after the rebuild, the keys are exactly those of located servers, and each group holds its key's servers in order, with lat, lon, city and country taken from the first of them; nothing from before survives |
| ServerMap.Poller.Poll | static/script.js:52-133 | the poll returns the next step; a failure or an empty list changes no state; otherwise it shows the status with the count and rebuilds the groups; at 100 servers or more the status reads `Loaded N servers.` |
| TestForm.BuildFlags | static/script.js:249-253 | the flags are the trimmed words `-R` when reverse is checked, `-6` when IPv6 is checked, and the custom text when it is not empty, in that order and joined by single spaces; when the custom text has no white space at its ends, nothing is trimmed |
| TestForm.JoinedFlagsClean | static/script.js:263 | with a custom text that has no white space at its ends, trimming keeps the joined words unchanged |
| TestForm.StartTest | static/script.js:248-264 | the request carries the server's host, the chosen port unchanged (`NaN` and no port as `null`), and the assembled flags |
| TestForm.ReverseWithCustomFlags | static/script.js:249-263 | reverse mode with the custom text `-u -b 10M` sends `-R -u -b 10M` |
| TestEndpoint.PortArgReadsBack | app.py:235 | for a port the page posts (a JSON number or `null`), the port argument `str(port) if port else "5201"` reads back as the requested port, and as 5201 when the request has no port or port 0 |
| TestEndpoint.PortArgOfJson | app.py:225-235 | the port field is used unchecked whatever its JSON type: a non-empty text becomes the argument as it is, `true` becomes `True`, and every falsy value (absent, `null`, 0, `""`, `false`, an empty list or object) becomes 5201 |
| TestEndpoint.RunTest | app.py:224-242 | for a port field of any JSON type, a missing or empty host is refused as "Host is required" before any other check; a host with `;`, `&`, the pipe or a space is refused as "Invalid host format"; non-empty flags with `;`, `&` or the pipe are refused as "Invalid flags"; every refusal has status 400; a command is built exactly when none of these applies; the command is `iperf3 -c host -p port` followed by the white-space-split flag tokens in order |
| TestEndpoint.AcceptedReply | app.py:235-242 | an accepted host with clean flags gives the command followed by the flags' tokens |
| TestEndpoint.RefusedReply | app.py:237-239 | an accepted host with flags holding `;`, `&` or the pipe is refused as "Invalid flags" |
| TestEndpoint.PortArgClean | app.py:235 | for a port that is a number, a boolean or absent, the port argument holds no `;`, `&` or the pipe |
| TestEndpoint.TextPortUnchecked | app.py:225-235 | a text port `5201;x` with an accepted host and no flags gives the command `iperf3 -c h -p 5201;x`: the port is never checked for `;`, `&` or the pipe |
| TestEndpoint.CommandClean | app.py:229-242 | in every command built, the fifth argument is the port argument, and no other argument holds `;`, `&` or the pipe; the port argument is clean too when the port is a number, a boolean or absent; the host holds no space; every flag argument is non-empty and has no white space |
| TestEndpoint.ExampleCommand | app.py:235-242 | host `iperf.example.net`, port 5202 and flags `-R -u` give `iperf3 -c iperf.example.net -p 5202 -R -u` |
| TestSubmit.JoinedChar | static/script.js:249-253 | a character other than `-`, `R`, `6` and the space is in the joined form words if and only if it is in the custom text |
| TestSubmit.TokensOfForm | app.py:241 | the tokens the backend splits from the form's flags are `-R`, then `-6`, then the custom text's tokens, when the custom text holds no U+FEFF |
| TestSubmit.FlagsForbiddenIff | app.py:237-239 | the form's flags hold `;`, `&` or the pipe if and only if the custom text does |
| TestSubmit.FormAccepted | app.py:235-242 | for an accepted host with a custom text holding no `;`, `&`, the pipe or U+FEFF, the backend runs iperf3 against that host and port with `-R`, `-6` and the custom tokens |
| TestSubmit.FormRefused | app.py:237-239 | for an accepted host, a custom text with `;`, `&` or the pipe gets "Invalid flags" with status 400 |
| TestSubmit.SubmitTest | static/script.js:248-265 | pressing "Run iperf3 Test" gets the backend's reply to the chosen port (a JSON number, or `null` for `NaN` or no option) and the form's flags; a server without a host gets "Host is required" and one whose host holds `;`, `&`, the pipe or a space "Invalid host format", both with status 400; otherwise: for a clean host and a custom text without `;`, `&` or the pipe, the iperf3 command (with 5201 for `NaN`, 0 or no port) with the tokens of the posted flags, which are `-R`, `-6` and the custom tokens when the custom text also holds no U+FEFF; "Invalid flags" with status 400 for a custom text with `;`, `&` or the pipe |
| Places.PlaceKeyInjective | app.py:84 | `f"{city}, {country}"` keys are distinct for distinct countries of one city and for distinct cities of one country |
| Places.SearchCityIgnoresCase | app.py:92-96 | the search name does not depend on the case of the city |
| LocationService.GetCoords | app.py:79-123 | the lookup keeps every cached entry and adds at most the place's key; it adds at most that key to the failed lookups; a result is always cached under the key with the fixed country and the city as given; a new failed lookup returns nothing and leaves the cache as it was |
| LocationService.GetCoordsSettles | app.py:86-90 | once a place was found, or recorded as not found, looking it up again returns the same result and changes nothing; only a geocoder error is retried |
| LocationService.GetCoordsFixesCountry | app.py:81-84 | looking up `UK` or `USA` is the same as looking up `GB` or `US` |
| LocationService.GetCoordsCacheHit | app.py:86-87 | a place cached under its fixed-country key is answered from the cache and nothing changes |
| LocationService.GetCoordsKnownFailure | app.py:89-90 | a place not cached but recorded as failed gets no answer and nothing changes |
| LocationService.GetCoordsOffline | app.py:92-103 | a new place the offline table knows under its aliased, lower-cased name gets that entry, cached under the key with the city as given |
| LocationService.GetCoordsOnline | app.py:105-123 | otherwise the geocoder is asked with the offline key: a found location is returned and cached, a place not found returns nothing and is recorded as failed, and a geocoder error returns nothing and changes neither cache |
| LocationService.CacheHits | app.py:143-156 | every server kept by the first pass has a site, a country, and its unfixed key in the cache, and is annotated with that entry |
| LocationService.CacheHitsAppend | app.py:145-156 | the first pass keeps servers in their order |
| LocationService.CacheHitsMembers | app.py:145-156 | a server is kept, annotated, if and only if it has a site and a country and its unfixed key is cached; a server lacking either is never kept |
| LocationService.CacheHitsFrom | app.py:145-156 | every kept server is the annotated copy of a server of the list with a site, a country and a cached unfixed key: the pass keeps exactly those servers |
| LocationService.FirstPassMissesFixedCountry | app.py:151-153 | a `UK` or `USA` server whose listed key is not cached stays out of the first pass even after `get_coordinates` found it, because the lookup stores it under `GB` or `US` |
| LocationService.LocationService.constructor | app.py:16-23 | the caches and the server list start empty, and the offline table is the one given |
| LocationService.LocationService.GetCoordinates | app.py:79-123 | `get_coordinates` returns, and leaves in the cache and the failed lookups, exactly what `GetCoords` states |
| LocationService.LocationService.MergePrefilled | app.py:69-71 | a prefilled entry is added only when its key is absent, so every existing entry wins; the keys become the union |
| LocationService.LocationService.LoadCache | app.py:56-73 | a missing cache file keeps the cache, an unreadable one empties it, and a readable one replaces it; then the prefilled entries are merged, existing entries winning |
| LocationService.LocationService.InitialPass | app.py:143-159 | the servers shown become exactly the first pass's hits over the current cache |
| LocationService.LocationService.Refresh | app.py:141-159 | the cache is loaded as `LoadCache` states, then the servers shown are the hits over the loaded cache |
| Prefill.GeneratorAliasesExtendApp | generate_locations.py:8-18 | the generator's alias table is the backend's with `washington` added |
| Prefill.SameSearchExceptWashington | generate_locations.py:70-71 | for every city but `washington`, both programs search the same name |
| Prefill.UniqueKeys | generate_locations.py:54-61 | `unique_keys` holds exactly one `(site, fixed country)` pair per distinct pair of the servers that have both fields |
| Prefill.PlacesAreFixed | generate_locations.py:59-61 | no place keeps `UK` or `USA` |
| Prefill.ResolveOne | generate_locations.py:68-92 | one turn of the loop stores the place's resolution under its key, and sends a query only when the offline table lacks the search key |
| Prefill.Resolve | generate_locations.py:65-92 | a key is in `results` if and only if some place with that key resolved, and its value is what such a place resolved to; the queries sent online are exactly the search keys the offline table lacks |
| Prefill.OfflineHit | generate_locations.py:73-76 | a place known offline, and the only one with its key, is stored with the offline entry under the key with the city as listed |
| Prefill.SortedItemsLength | generate_locations.py:96 | one entry is written per key |
| Prefill.SortedItemsFromMap | generate_locations.py:96 | every written entry is an entry of `results` |
| Prefill.SortedItemsCover | generate_locations.py:96 | every entry of `results` is written |
| Prefill.SortedItemsOrdered | generate_locations.py:96 | the written keys strictly increase in code-point order |
| Prefill.GenerateLocations | generate_locations.py:54-96 | the written entries are exactly the resolved places' entries, sorted by key, and the online queries are the search keys the offline table lacks |

## Left out

- Leaflet rendering, markers, popups, the DOM and the modal's HTML, the geolocation API and the update-locations button: these only display the modelled state.
- `fetch`, HTTP and Flask routing: a fetch is modelled by its outcome, and a response by its error text and status or by its payload.
- `setTimeout`: the delay is returned as part of the poll decision and nothing is scheduled.
- The order in which `Object.values(serversByLocation)` visits the groups: it only decides the order markers are drawn in.
- `subprocess.run`, its 20-second timeout, output capture and the 504 and 500 answers: these run an external process.
- The Nominatim client, `requests.get` and `time.sleep`: the geocoder is a function given as a parameter.
- Reading and writing the JSON files: the caches are in-memory maps and a cache file is a value. A failing `save_cache` is not modelled.
- `setup_offline_geocoding` and the geonamescache data: the offline table is a given map.
- Threads, `processing_lock` and the second pass of `update_servers_background`: their point is concurrency.
- The in-place writing of `lat`/`lon` into the server dictionaries: the model returns annotated copies. Because of this, the sharing of those dictionaries with the second pass is not captured.
- The `update-locations` endpoint and a failed fetch of the list in the generator: these only chain the modelled operations or return early.
- JSON values of other types than text (numbers, lists) for `PORT`, `SITE`, `COUNTRY`, the posted host or the posted flags, a non-object request body, and cache entries lacking `lat` or `lon`: the model takes the fields to be text or absent. A non-text `SITE` in a lookup raises at `city.lower()` (app.py:92, generate_locations.py:70), while the first pass (app.py:146-153) only formats it into a key and may still show the server; neither case is modelled.
- TestEndpoint.PortArg: for a posted port that is a fractional number, a list or an object, the text Python's `str` renders for it (`5201.5`, `[1]`) is part of the value (`PortOther`) rather than computed, since the model has no floating point or nested JSON.
- TestSubmit.SubmitTest, TestSubmit.FormAccepted: the command's tokens are given as `-R`, `-6` and the custom text's tokens only for custom text without U+FEFF. JavaScript's `trim` removes U+FEFF at the ends of the flags, Python's `split()` keeps it inside a token; for such text SubmitTest states the command with the tokens of the posted flags.
- PyText.Lower: only ASCII and the Latin-1 capitals are lowered. Other Unicode case mappings are not modelled.
- JsText.NumberToString: integers are rendered as plain decimals and kept exact. JavaScript numbers are doubles: a `PORT` whose value is at least 10^21 parses (static/script.js:181) to at least 1e21, which renders in exponent form (`"1e+21"`, static/script.js:187) and reads back as 1 (static/script.js:248), and integers above 2^53 are rounded. So the round trip of JsText.ParseNumberToString holds in JavaScript only for ports of magnitude below 2^53; neither the exponent form nor the rounding is modelled.
- ServerMap.LocationKey: coordinates are modelled by the text JavaScript renders for them. Floating-point values themselves are not modelled.
- PortSpec.PortSelection: for a range whose bounds are far apart, the loop walks at most 21 values. The model does not bound integers, so a port beyond JavaScript's safe-integer range is treated exactly.
