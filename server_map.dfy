/** The server map's polling loop (static/script.js, `loadServers`): each
    poll of `/api/servers` either stops, retries, or rebuilds the grouping of
    servers by location and then decides whether to poll again. */
module ServerMap {
  import opened Options
  import opened Strings

  /** A server record as the client receives it. The numbers `lat` and `lon`
      are represented by their JavaScript text (`String(x)`); the other
      fields are the record's strings. `None` is a missing field. */
  datatype Server = Server(
    site: Option<string>, country: Option<string>, provider: Option<string>,
    host: Option<string>, port: Option<string>, options: Option<string>,
    lat: Option<string>, lon: Option<string>)

  /** JavaScript truthiness of a numeric field given by its text: a missing
      field, `0` (and `-0`, whose text is also "0") and `NaN` are falsy. */
  predicate Truthy(v: Option<string>) {
    v.Some? && v.value != "0" && v.value != "NaN"
  }

  /** The server takes part in grouping: `server.lat && server.lon`. */
  predicate Located(s: Server) {
    Truthy(s.lat) && Truthy(s.lon)
  }

  /** The grouping key `${server.lat},${server.lon}`. */
  function LocationKey(s: Server): string
    requires Located(s)
  {
    s.lat.value + "," + s.lon.value
  }

  /** One entry of `serversByLocation`. */
  datatype Group = Group(lat: string, lon: string, city: Option<string>, country: Option<string>, servers: seq<Server>)

  /** The located servers of `servers` whose key is `k`, in arrival order. */
  function AtKey(servers: seq<Server>, k: string): (r: seq<Server>)
    ensures |r| <= |servers|
    ensures forall j :: 0 <= j < |r| ==> Located(r[j]) && LocationKey(r[j]) == k
    decreases |servers|
  {
    if servers == [] then []
    else
      var last := servers[|servers| - 1];
      var init := AtKey(servers[..|servers| - 1], k);
      if Located(last) && LocationKey(last) == k then init + [last] else init
  }

  /** The group that a non-empty list of servers sharing a key forms: the
      coordinates, city and country of its first server, and all of them. */
  function GroupOf(members: seq<Server>): Group
    requires members != [] && Located(members[0])
  {
    Group(members[0].lat.value, members[0].lon.value, members[0].site, members[0].country, members)
  }

  /** A server is listed under key `k` exactly when it arrived, is located,
      and has key `k`: every located server is in exactly one group, and a
      server without truthy coordinates is in none. */
  lemma {:induction false} AtKeyMembers(servers: seq<Server>, k: string, x: Server)
    ensures x in AtKey(servers, k) <==> x in servers && Located(x) && LocationKey(x) == k
    decreases |servers|
  {
    if servers != [] {
      var init := servers[..|servers| - 1];
      AtKeyMembers(init, k, x);
      assert servers == init + [servers[|servers| - 1]];
    }
  }

  /** Arrival order: the servers listed under a key for a concatenation are
      those of the first part followed by those of the second. */
  lemma {:induction false} AtKeyAppend(a: seq<Server>, b: seq<Server>, k: string)
    ensures AtKey(a + b, k) == AtKey(a, k) + AtKey(b, k)
    decreases |b|
  {
    if b == [] {
      assert a + b == a;
    } else {
      var b' := b[..|b| - 1];
      AtKeyAppend(a, b', k);
      assert (a + b)[..|a + b| - 1] == a + b';
      assert (a + b)[|a + b| - 1] == b[|b| - 1];
    }
  }

  /** The first server listed under a key is the first located server that
      arrived with that key, so a group's city and country come from it. */
  lemma {:induction false} AtKeyFirst(servers: seq<Server>, k: string, j: nat)
    requires j < |servers| && Located(servers[j]) && LocationKey(servers[j]) == k
    requires forall i :: 0 <= i < j ==> !(Located(servers[i]) && LocationKey(servers[i]) == k)
    ensures AtKey(servers, k) != [] && AtKey(servers, k)[0] == servers[j]
  {
    var before, rest := servers[..j], servers[j..];
    assert servers == before + rest;
    AtKeyAppend(before, rest, k);
    assert AtKey(before, k) == [] by {
      if AtKey(before, k) != [] {
        AtKeyMembers(before, k, AtKey(before, k)[0]);
      }
    }
    assert rest == [servers[j]] + rest[1..];
    AtKeyAppend([servers[j]], rest[1..], k);
    assert AtKey([servers[j]], k) == [servers[j]] by {
      assert [servers[j]][..0] == [];
    }
  }

  // ---------------------------------------------------------------------------
  // The poll cycle
  // ---------------------------------------------------------------------------

  /** What one request to `/api/servers` gave: a transport or JSON error, or
      the list. */
  datatype FetchResult = FetchFailed | Fetched(servers: seq<Server>)

  /** What happens after a poll: poll again after a delay, stop with the final
      status shown (hidden after a delay), or stop after an error. */
  datatype Next = RetryAfter(ms: nat) | RefreshAfter(ms: nat) | Done(hideStatusAfter: nat) | Stop

  const EmptyRetryMs: nat := 3000
  const RefreshMs: nat := 5000
  const HideStatusMs: nat := 3000
  /** A list this long is taken as complete. */
  const CompleteCount: nat := 100

  predicate Reschedules(n: Next) {
    n.RetryAfter? || n.RefreshAfter?
  }

  /** The continuation policy of a poll: an empty list is retried after 3 s,
      a list of fewer than 100 servers is refreshed after 5 s, a longer one
      ends polling, and an error ends it too, without retry. */
  function Continuation(r: FetchResult): (n: Next)
    ensures Reschedules(n) <==> r.Fetched? && |r.servers| < CompleteCount
    ensures n.Stop? <==> r.FetchFailed?
    ensures n.RetryAfter? <==> r.Fetched? && r.servers == []
    ensures n.RetryAfter? ==> n.ms == EmptyRetryMs
    ensures n.RefreshAfter? ==> n.ms == RefreshMs
    ensures n.Done? ==> n.hideStatusAfter == HideStatusMs
  {
    match r
    case FetchFailed => Stop
    case Fetched(servers) =>
      if |servers| == 0 then RetryAfter(EmptyRetryMs)
      else if |servers| < CompleteCount then RefreshAfter(RefreshMs)
      else Done(HideStatusMs)
  }

  /** The state `loadServers` keeps between polls: the location grouping and
      the loading indicator. */
  class Poller {
    /** `serversByLocation`. */
    var groups: map<string, Group>
    /** Whether the loading indicator is displayed. */
    var statusShown: bool
    /** The text of the server-count element. */
    var countText: string
    /** The indicator's own text once replaced; `None` while it still holds
        the page's loading text. */
    var statusText: Option<string>

    constructor ()
      ensures groups == map[] && !statusShown && countText == "" && statusText == None
    {
      groups := map[];
      statusShown := false;
      countText := "";
      statusText := None;
    }

    /** `for (const key in serversByLocation) delete serversByLocation[key]`. */
    method ClearGroups()
      modifies this`groups
      ensures groups == map[]
    {
      var keys := groups.Keys;
      while keys != {}
        invariant groups.Keys == keys
        decreases keys
      {
        var k :| k in keys;
        groups := groups - {k};
        keys := keys - {k};
      }
      assert groups == map[];
    }

    /** The body of the `servers.forEach` loop: a located server is added to
        the group of its key, which is created from it if missing. */
    method AddServer(server: Server)
      modifies this`groups
      ensures !Located(server) ==> groups == old(groups)
      ensures Located(server) ==>
        var k := LocationKey(server);
        groups == old(groups)[k :=
          if k in old(groups) then old(groups)[k].(servers := old(groups)[k].servers + [server])
          else Group(server.lat.value, server.lon.value, server.site, server.country, [server])]
    {
      if Located(server) {
        var k := LocationKey(server);
        if k !in groups {
          groups := groups[k := Group(server.lat.value, server.lon.value, server.site, server.country, [])];
          assert groups[k].servers + [server] == [server];
        }
        groups := groups[k := groups[k].(servers := groups[k].servers + [server])];
      }
    }

    /** Clears the grouping and rebuilds it from `servers`: afterwards the
        keys are exactly those of the located servers, each group holds the
        servers with its key in arrival order, and nothing of the previous
        grouping is left. */
    method Rebuild(servers: seq<Server>)
      modifies this`groups
      ensures forall k :: k in groups <==> AtKey(servers, k) != []
      ensures forall k :: k in groups ==> groups[k] == GroupOf(AtKey(servers, k))
    {
      ClearGroups();
      var i := 0;
      while i < |servers|
        invariant 0 <= i <= |servers|
        invariant forall k :: k in groups <==> AtKey(servers[..i], k) != []
        invariant forall k :: k in groups ==> groups[k] == GroupOf(AtKey(servers[..i], k))
      {
        assert servers[..i + 1][..i] == servers[..i];
        AddServer(servers[i]);
        i := i + 1;
      }
      assert servers[..i] == servers;
    }

    /** One poll, given what the request returned. An error or an empty list
        leaves everything as it was; a non-empty list shows the indicator with
        the count and rebuilds the grouping, and a complete list (100 or more)
        replaces the indicator's text with "Loaded N servers.". */
    method Poll(r: FetchResult) returns (next: Next)
      modifies this
      ensures next == Continuation(r)
      ensures r.FetchFailed? || r.servers == [] ==> unchanged(this)
      ensures r.Fetched? && r.servers != [] ==>
        && statusShown && countText == NatToDecimal(|r.servers|)
        && (forall k :: k in groups <==> AtKey(r.servers, k) != [])
        && (forall k :: k in groups ==> groups[k] == GroupOf(AtKey(r.servers, k)))
        && statusText == if |r.servers| < CompleteCount then old(statusText)
                         else Some("Loaded " + NatToDecimal(|r.servers|) + " servers.")
    {
      next := Continuation(r);
      if r.FetchFailed? {
        return;
      }
      var servers := r.servers;
      if |servers| > 0 {
        statusShown := true;
        countText := NatToDecimal(|servers|);
      }
      if |servers| == 0 {
        return;
      }
      Rebuild(servers);
      if |servers| >= CompleteCount {
        statusText := Some("Loaded " + NatToDecimal(|servers|) + " servers.");
      }
    }
  }
}
