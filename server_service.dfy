/** The registry service: composes identity rows with liveness entries, registers servers,
    takes heartbeats, demotes stale servers and aggregates fleet-wide player counts. */
module ServerService {
  import opened Records
  import opened ServerRepository

  const ThresholdMs: int := 6 * 1000
  /** The staleness threshold in seconds, as the sweep compares it. */
  const ThresholdSeconds: int := ThresholdMs / 1000
  /** Lifetime, in seconds, that every write gives a liveness entry. */
  const TtlExpiry: int := 60

  const GlobalPlayerCountKey: string := "global:playerCount"
  const PlayerCountChannel: string := "global.playercount"
  const ApiSenderId: string := "api"

  /** The cache key of a server's liveness hash. */
  function RedisKey(serverId: string): (k: string)
    ensures |k| == 12 + |serverId|
    ensures k[..12] == "environment:" && k[12..] == serverId
  {
    "environment:" + serverId
  }

  /** Keying the liveness map by server id loses nothing: distinct ids have distinct cache
      keys, and no server's key is the global counter's key. */
  lemma RedisKeys(a: string, b: string)
    ensures RedisKey(a) == RedisKey(b) ==> a == b
    ensures RedisKey(a) != GlobalPlayerCountKey
  {
    assert RedisKey(a)[0] == 'e' != GlobalPlayerCountKey[0];
  }

  /** An entry expires only well after the sweep would have demoted it. */
  lemma TtlExceedsThreshold()
    ensures TtlExpiry > ThresholdSeconds
  {
  }

  /** The heartbeat the registry believes: the entry's own, or the row's when the hash lacks it. */
  function HeartbeatOf(entry: Liveness, fallback: int): int {
    entry.lastHeartbeat.GetOr(fallback)
  }

  /** The sweep's test: the heartbeat is more than the threshold old. */
  predicate IsStale(entry: Liveness, fallback: int, now: int) {
    now - HeartbeatOf(entry, fallback) > ThresholdSeconds
  }

  /** A heartbeat exactly at the threshold is fresh; one second older is stale. */
  lemma StaleBoundary(entry: Liveness, fallback: int, now: int)
    ensures IsStale(entry, fallback, now) <==> now - HeartbeatOf(entry, fallback) >= 7
  {
  }

  function Lookup(live: map<string, Liveness>, serverId: string): Option<Liveness> {
    if serverId in live then Some(live[serverId]) else None
  }

  /** Composes a projected row with its liveness entry, as getServer and getAllServers do.
      Decoding a malformed player list throws. */
  function WithState(server: Server, entry: Option<Liveness>): (r: Result<ServerView>)
    ensures r.Err? <==> entry.Some? && entry.value.playerList.Unparseable?
    ensures r.Err? ==> r.error == MalformedVolatileState
    ensures r.Ok? ==> (r.value.status == Online <==> entry.Some?)
    ensures r.Ok? ==> r.value.server.(lastHeartbeat := server.lastHeartbeat) == server
    ensures r.Ok? && entry.None? ==> r.value.server == server && r.value.playerCount == 0 && r.value.playerList == []
    ensures r.Ok? && entry.Some? ==>
      && r.value.server.lastHeartbeat == HeartbeatOf(entry.value, server.lastHeartbeat)
      && r.value.playerCount == entry.value.playerCount.GetOr(0)
      && r.value.playerList == (if entry.value.playerList.Players? then entry.value.playerList.sessions else [])
  {
    match entry
    case None => Ok(ServerView(server, 0, [], Offline))
    case Some(e) =>
      var players: Result<seq<PlayerSession>> :=
        match e.playerList
        case NoPlayerList => Ok([])
        case Players(ps) => Ok(ps)
        case Unparseable => Err(MalformedVolatileState);
      if players.Err? then Err(players.error)
      else
        Ok(ServerView(server.(lastHeartbeat := HeartbeatOf(e, server.lastHeartbeat)),
                      e.playerCount.GetOr(0), players.value, Online))
  }

  /** The row registerServer persists: the caller's identity fields, both timestamps `now`. */
  function Persistent(metadata: Server, now: int): (row: Server)
    ensures row.lastStarted == now && row.lastHeartbeat == now && row.lastSeenOffline.None?
    ensures row.(lastStarted := metadata.lastStarted, lastHeartbeat := metadata.lastHeartbeat,
                 lastSeenOffline := metadata.lastSeenOffline) == metadata
  {
    Server(metadata.serverId, metadata.serverName, metadata.serverType, metadata.environment,
           metadata.version, metadata.port, now, now, None)
  }

  /** The liveness entry registerServer seeds. */
  function Seed(now: int): (e: Liveness)
    ensures e.HasField()
    ensures forall fallback :: HeartbeatOf(e, fallback) == now
    ensures Contribution(Some(e)) == Counters(0, 0)
  {
    Liveness(Some(0), Some(now), Players([]))
  }

  /** Which of registerServer's cache calls throws, if any (the error is logged and swallowed). */
  datatype CacheFault = NoCacheFault | DelFails | HSetFails

  /** The liveness map after registerServer's del / hSet sequence for `serverId`. */
  function Reseeded(live: map<string, Liveness>, serverId: string, now: int, fault: CacheFault)
    : (r: map<string, Liveness>)
    ensures forall id :: id != serverId ==> (id in r <==> id in live)
    ensures forall id :: id in live && id != serverId ==> r[id] == live[id]
    ensures fault == NoCacheFault ==> serverId in r && r[serverId] == Liveness(Some(0), Some(now), Players([]))
    ensures fault == HSetFails ==> serverId !in r
    ensures fault == DelFails ==> r == live
  {
    match fault
    case NoCacheFault => live[serverId := Seed(now)]
    case DelFails => live
    case HSetFails => live - {serverId}
  }

  /** updateServer's effect: an existing entry takes the three fields as sent (the player count
      is not recomputed); a missing entry is not recreated. */
  function Heartbeat(live: map<string, Liveness>, serverId: string, update: UpdateRequest)
    : (r: map<string, Liveness>)
    ensures r.Keys == live.Keys
    ensures forall id :: id in live && id != serverId ==> r[id] == live[id]
    ensures serverId in live ==>
      && r[serverId].playerCount == Some(update.playerCount)
      && r[serverId].lastHeartbeat == Some(update.lastHeartbeat)
      && r[serverId].playerList == Players(update.playerList)
  {
    if serverId in live then
      live[serverId := Liveness(Some(update.playerCount), Some(update.lastHeartbeat), Players(update.playerList))]
    else
      live
  }

  /** A server without an entry stays without one: a heartbeat cannot bring it back. */
  lemma HeartbeatCannotResurrect(live: map<string, Liveness>, serverId: string, update: UpdateRequest)
    requires serverId !in live
    ensures Heartbeat(live, serverId, update) == live
  {
  }

  // ---------------------------------------------------------------------------------------
  // Reconciliation (checkForDownedServers)
  // ---------------------------------------------------------------------------------------

  /** Both stores at once. */
  datatype Stores = Stores(rows: map<string, Server>, live: map<string, Liveness>)

  /** The stores after (part of) a sweep, and whether a store failure ended it early. */
  datatype Run = Run(stores: Stores, aborted: bool)

  /** One iteration of the sweep for the scanned record `server`. A failed offline mark
      throws out of the whole sweep before the entry is deleted. */
  function SweepStep(st: Stores, server: Server, now: int, markFails: set<string>): (r: Run)
    ensures var id := server.serverId;
      var stale := id in st.live && IsStale(st.live[id], server.lastHeartbeat, now);
      && (r.aborted <==> stale && id in markFails)
      && (stale && !r.aborted ==>
            && r.stores.live == st.live - {id}
            && r.stores.rows == MarkOffline(st.rows, id, HeartbeatOf(st.live[id], server.lastHeartbeat), now))
      && (!stale || r.aborted ==> r.stores == st)
  {
    var id := server.serverId;
    if id in st.live && IsStale(st.live[id], server.lastHeartbeat, now) then
      if id in markFails then Run(st, true)
      else
        var hb := HeartbeatOf(st.live[id], server.lastHeartbeat);
        Run(Stores(MarkOffline(st.rows, id, hb, now), st.live - {id}), false)
    else
      Run(st, false)
  }

  /** The sweep over the scanned records `servers`, in order, stopping at the first failure. */
  function Sweep(st: Stores, servers: seq<Server>, now: int, markFails: set<string>): (r: Run)
    ensures r.aborted ==> exists i :: 0 <= i < |servers| && servers[i].serverId in markFails
    decreases |servers|
  {
    if servers == [] then Run(st, false)
    else
      var prev := Sweep(st, servers[..|servers| - 1], now, markFails);
      if prev.aborted then prev else SweepStep(prev.stores, servers[|servers| - 1], now, markFails)
  }

  /** The sweep over one more record is one more step, unless it has already aborted. */
  lemma SweepExtend(st: Stores, servers: seq<Server>, i: nat, now: int, markFails: set<string>)
    requires i < |servers|
    ensures var prev := Sweep(st, servers[..i], now, markFails);
      Sweep(st, servers[..i + 1], now, markFails) ==
        (if prev.aborted then prev else SweepStep(prev.stores, servers[i], now, markFails))
  {
    assert servers[..i + 1][..i] == servers[..i] && servers[..i + 1][i] == servers[i];
  }

  /** Once a prefix of the sweep has aborted, the rest of the records are never visited. */
  lemma {:induction false} SweepAbortIsFinal(st: Stores, servers: seq<Server>, k: nat, now: int, markFails: set<string>)
    requires k <= |servers|
    requires Sweep(st, servers[..k], now, markFails).aborted
    ensures Sweep(st, servers, now, markFails) == Sweep(st, servers[..k], now, markFails)
    decreases |servers| - k
  {
    if k < |servers| {
      assert servers[..|servers| - 1][..k] == servers[..k];
      SweepAbortIsFinal(st, servers[..|servers| - 1], k, now, markFails);
    } else {
      assert servers[..k] == servers;
    }
  }

  /** A sweep never adds or removes rows and never adds liveness entries. */
  lemma {:induction false} SweepKeys(st: Stores, servers: seq<Server>, now: int, markFails: set<string>)
    ensures Sweep(st, servers, now, markFails).stores.rows.Keys == st.rows.Keys
    ensures Sweep(st, servers, now, markFails).stores.live.Keys <= st.live.Keys
    ensures forall id :: id in st.rows ==>
      Sweep(st, servers, now, markFails).stores.rows[id].serverId == st.rows[id].serverId
    decreases |servers|
  {
    if servers != [] {
      SweepKeys(st, servers[..|servers| - 1], now, markFails);
    }
  }

  /** A sweep leaves a server alone unless it visits that server's record. */
  lemma {:induction false} SweepFrame(st: Stores, servers: seq<Server>, now: int, markFails: set<string>, id: string)
    requires forall i :: 0 <= i < |servers| ==> servers[i].serverId != id
    ensures var r := Sweep(st, servers, now, markFails).stores;
      && (id in r.live <==> id in st.live)
      && (id in st.live ==> r.live[id] == st.live[id])
      && (id in st.rows ==> id in r.rows && r.rows[id] == st.rows[id])
    decreases |servers|
  {
    if servers != [] {
      SweepFrame(st, servers[..|servers| - 1], now, markFails, id);
    }
  }

  /** What a completed sweep does to each visited server: a stale one gets the guarded offline
      mark (with the heartbeat the sweep read) and loses its liveness entry; any other is untouched. */
  lemma {:induction false} SweepEffect(st: Stores, servers: seq<Server>, now: int, markFails: set<string>, i: nat)
    requires forall a, b :: 0 <= a < b < |servers| ==> servers[a].serverId != servers[b].serverId
    requires i < |servers|
    requires !Sweep(st, servers, now, markFails).aborted
    ensures var r := Sweep(st, servers, now, markFails).stores;
      var id := servers[i].serverId;
      var stale := id in st.live && IsStale(st.live[id], servers[i].lastHeartbeat, now);
      && (id in r.live <==> id in st.live && !stale)
      && (id in r.live ==> r.live[id] == st.live[id])
      && (id in st.rows ==>
            && id in r.rows
            && r.rows[id] == (if stale then MarkedRow(st.rows[id], HeartbeatOf(st.live[id], servers[i].lastHeartbeat), now)
                              else st.rows[id]))
    decreases |servers|
  {
    var n := |servers| - 1;
    var prefix := servers[..n];
    var prev := Sweep(st, prefix, now, markFails);
    assert !prev.aborted;
    if i < n {
      SweepEffect(st, prefix, now, markFails, i);
      assert servers[n].serverId != servers[i].serverId;
    } else {
      SweepFrame(st, prefix, now, markFails, servers[n].serverId);
    }
  }

  /** A row already marked offline is never written by a sweep: reconciliation of such a server
      only deletes its liveness entry. */
  lemma {:induction false} SweepKeepsMarkedRows(st: Stores, servers: seq<Server>, now: int, markFails: set<string>, id: string)
    requires id in st.rows && st.rows[id].lastSeenOffline.Some?
    ensures var r := Sweep(st, servers, now, markFails).stores;
      id in r.rows && r.rows[id] == st.rows[id]
    decreases |servers|
  {
    if servers != [] {
      SweepKeepsMarkedRows(st, servers[..|servers| - 1], now, markFails, id);
    }
  }

  /** A sweep keeps every offline mark. */
  lemma {:induction false} SweepKeepsOfflineMarks(st: Stores, servers: seq<Server>, now: int, markFails: set<string>)
    ensures OfflineMarksKept(st.rows, Sweep(st, servers, now, markFails).stores.rows)
  {
    var r := Sweep(st, servers, now, markFails).stores;
    forall id | id in st.rows && st.rows[id].lastSeenOffline.Some?
      ensures id in r.rows && r.rows[id].lastSeenOffline == st.rows[id].lastSeenOffline
    {
      SweepKeepsMarkedRows(st, servers, now, markFails, id);
    }
  }

  /** The sweep over the whole table, stated per stored server: a fresh server (age at most
      the threshold) or one without an entry keeps both records; a stale one is demoted. */
  lemma SweepTable(rows: map<string, Server>, order: seq<string>, live: map<string, Liveness>,
                   now: int, id: string)
    requires WellFormed(rows, order)
    requires id in rows
    ensures var run := Sweep(Stores(rows, live), Projection(rows, order), now, {});
      var stale := id in live && IsStale(live[id], rows[id].lastHeartbeat, now);
      && !run.aborted
      && (id in run.stores.live <==> id in live && !stale)
      && (id in run.stores.live ==> run.stores.live[id] == live[id])
      && id in run.stores.rows
      && run.stores.rows[id] == (if stale then MarkedRow(rows[id], HeartbeatOf(live[id], rows[id].lastHeartbeat), now)
                                 else rows[id])
  {
    var servers := Projection(rows, order);
    var i :| 0 <= i < |order| && order[i] == id;
    assert servers[i] == Selected(rows[id]);
    SweepEffect(Stores(rows, live), servers, now, {}, i);
  }

  /** A stale server is demoted by exactly one sweep: the next sweep, at any later time, finds
      no entry for it and leaves its row (and the offline mark the first sweep wrote) alone. */
  lemma DemotionHappensOnce(rows: map<string, Server>, order: seq<string>, live: map<string, Liveness>,
                            now1: int, now2: int, id: string)
    requires WellFormed(rows, order)
    requires id in rows && id in live && IsStale(live[id], rows[id].lastHeartbeat, now1)
    ensures var first := Sweep(Stores(rows, live), Projection(rows, order), now1, {}).stores;
      && first.rows.Keys == rows.Keys
      && id !in first.live
      && first.rows[id].lastSeenOffline.Some?
      && var second := Sweep(first, Projection(first.rows, order), now2, {}).stores;
         id !in second.live && id in second.rows && second.rows[id] == first.rows[id]
  {
    var first := Sweep(Stores(rows, live), Projection(rows, order), now1, {}).stores;
    SweepTable(rows, order, live, now1, id);
    SweepKeys(Stores(rows, live), Projection(rows, order), now1, {});
    assert WellFormed(first.rows, order);
    SweepTable(first.rows, order, first.live, now2, id);
  }

  /** A failed offline mark ends the sweep: a second stale server later in the scan keeps its
      liveness entry and its row, although its own write would have succeeded. */
  lemma FailedMarkAbortsSweep(a: Server, b: Server, e: Liveness, now: int)
    requires a.serverId != b.serverId
    requires IsStale(e, a.lastHeartbeat, now) && IsStale(e, b.lastHeartbeat, now)
    ensures var st := Stores(map[a.serverId := a, b.serverId := b], map[a.serverId := e, b.serverId := e]);
      var run := Sweep(st, [a, b], now, {a.serverId});
      && run.aborted
      && run.stores == st
  {
    var st := Stores(map[a.serverId := a, b.serverId := b], map[a.serverId := e, b.serverId := e]);
    assert [a, b][..1] == [a] && [a][..0] == [];
    assert Sweep(st, [a], now, {a.serverId}) == Run(st, true);
  }

  // ---------------------------------------------------------------------------------------
  // Aggregation (updateGlobalPlayerCounts)
  // ---------------------------------------------------------------------------------------

  /** `players.filter(p => !p.vanished)`. */
  function Visible(players: seq<PlayerSession>): (r: seq<PlayerSession>)
    ensures |r| <= |players|
    ensures forall p :: p in r ==> p in players && !p.vanished
  {
    if players == [] then []
    else if players[0].vanished then Visible(players[1..])
    else [players[0]] + Visible(players[1..])
  }

  /** The filter keeps every non-vanished session as often as the roster holds it and drops
      every vanished one, so the visible count is exactly the number of non-vanished entries. */
  lemma {:induction false} VisibleIsFilter(players: seq<PlayerSession>)
    ensures forall p :: multiset(Visible(players))[p] == if p.vanished then 0 else multiset(players)[p]
  {
    if players != [] {
      VisibleIsFilter(players[1..]);
      assert players == [players[0]] + players[1..];
    }
  }

  /** What one server adds to the totals: nothing without an entry, nothing when its list is
      missing (it decodes as `[]`) or does not decode (the error is caught). */
  function Contribution(entry: Option<Liveness>): (c: Counters)
    ensures 0 <= c.visible <= c.actual
    ensures entry.Some? && entry.value.playerList.Players? ==>
      c == Counters(|Visible(entry.value.playerList.sessions)|, |entry.value.playerList.sessions|)
    ensures !(entry.Some? && entry.value.playerList.Players?) ==> c == Counters(0, 0)
  {
    match entry
    case None => Counters(0, 0)
    case Some(e) =>
      match e.playerList
      case Players(ps) => Counters(|Visible(ps)|, |ps|)
      case NoPlayerList => Counters(0, 0)
      case Unparseable => Counters(0, 0)
  }

  /** The totals over the scanned records `servers`, accumulated in scan order. */
  function Tally(live: map<string, Liveness>, servers: seq<Server>): (c: Counters)
    ensures 0 <= c.visible <= c.actual
    decreases |servers|
  {
    if servers == [] then Counters(0, 0)
    else
      var prev := Tally(live, servers[..|servers| - 1]);
      var add := Contribution(Lookup(live, servers[|servers| - 1].serverId));
      Counters(prev.visible + add.visible, prev.actual + add.actual)
  }

  /** The totals over one more record add that record's contribution. */
  lemma TallyExtend(live: map<string, Liveness>, servers: seq<Server>, i: nat)
    requires i < |servers|
    ensures Tally(live, servers[..i + 1]).visible ==
      Tally(live, servers[..i]).visible + Contribution(Lookup(live, servers[i].serverId)).visible
    ensures Tally(live, servers[..i + 1]).actual ==
      Tally(live, servers[..i]).actual + Contribution(Lookup(live, servers[i].serverId)).actual
  {
    assert servers[..i + 1][..i] == servers[..i] && servers[..i + 1][i] == servers[i];
  }

  /** The totals split over any division of the scan: each server's share is independent. */
  lemma {:induction false} TallyAppend(live: map<string, Liveness>, a: seq<Server>, b: seq<Server>)
    ensures Tally(live, a + b).visible == Tally(live, a).visible + Tally(live, b).visible
    ensures Tally(live, a + b).actual == Tally(live, a).actual + Tally(live, b).actual
    decreases |b|
  {
    if b == [] {
      assert a + b == a;
    } else {
      var n := |b| - 1;
      assert (a + b)[..|a + b| - 1] == a + b[..n];
      TallyAppend(live, a, b[..n]);
    }
  }

  /** Servers without a liveness entry contribute nothing. */
  lemma {:induction false} TallyIgnoresOffline(live: map<string, Liveness>, servers: seq<Server>)
    requires forall i :: 0 <= i < |servers| ==> servers[i].serverId !in live
    ensures Tally(live, servers) == Counters(0, 0)
    decreases |servers|
  {
    if servers != [] {
      TallyIgnoresOffline(live, servers[..|servers| - 1]);
    }
  }

  /** Both stores stay consistent when every liveness entry has an identity row. */
  ghost predicate StoresConsistent(rows: map<string, Server>, live: map<string, Liveness>) {
    live.Keys <= rows.Keys
  }

  /** The registry: the identity table, the liveness map keyed by server id, the global
      counter hash, and the log of published events. */
  class Registry {
    const table: ServerTable
    var live: map<string, Liveness>
    var counters: Option<Counters>
    var published: seq<Event>

    ghost predicate Valid()
      reads this, table
    {
      table.Valid() && forall id :: id in live ==> live[id].HasField()
    }

    constructor ()
      ensures Valid() && fresh(table)
      ensures table.rows == map[] && table.order == []
      ensures live == map[] && counters == None && published == []
    {
      table := new ServerTable();
      live := map[];
      counters := None;
      published := [];
    }

    /** getServer: null exactly when no identity row exists, whatever the cache holds;
        otherwise the composed view, online exactly when a liveness entry exists. */
    function GetServer(serverId: string, dbUp: bool): (r: Result<Option<ServerView>>)
      reads this, table
      ensures !dbUp ==> r == Err(StoreUnavailable)
      ensures dbUp ==> (r == Ok(None) <==> serverId !in table.rows)
      ensures dbUp && serverId in table.rows ==>
        (r.Err? <==> serverId in live && live[serverId].playerList.Unparseable?)
      ensures r.Ok? && r.value.Some? ==>
        serverId in table.rows && (r.value.value.status == Online <==> serverId in live)
      ensures r.Ok? && r.value.Some? && serverId !in live ==>
        r.value.value == ServerView(Selected(table.rows[serverId]), 0, [], Offline)
      ensures r.Ok? && r.value.Some? && serverId in live ==>
        && r.value.value.server.lastHeartbeat == HeartbeatOf(live[serverId], table.rows[serverId].lastHeartbeat)
        && r.value.value.playerCount == live[serverId].playerCount.GetOr(0)
        && r.value.value.playerList ==
             (if live[serverId].playerList.Players? then live[serverId].playerList.sessions else [])
    {
      var found := table.GetServerIfExist(serverId, dbUp);
      if found.Err? then Err(found.error)
      else if found.value.None? then Ok(None)
      else
        var view := WithState(found.value.value, Lookup(live, serverId));
        if view.Err? then Err(view.error) else Ok(Some(view.value))
    }

    /** getAllServers: one view per identity row, in scan order, each composed exactly as
        getServer composes it; any failure (store, or a list that does not decode) fails the call. */
    method GetAllServers(dbUp: bool) returns (r: Result<seq<ServerView>>)
      requires Valid()
      ensures !dbUp ==> r == Err(StoreUnavailable)
      ensures dbUp ==> (r.Err? <==> exists i :: 0 <= i < |table.order| && GetServer(table.order[i], true).Err?)
      ensures r.Ok? ==> |r.value| == |table.order|
      ensures r.Ok? ==> forall i :: 0 <= i < |r.value| ==> GetServer(table.order[i], true) == Ok(Some(r.value[i]))
    {
      var servers := table.GetAllServers(dbUp);
      if servers.Err? {
        return Err(servers.error);
      }
      var list := servers.value;
      var results: seq<ServerView> := [];
      var i := 0;
      while i < |list|
        invariant 0 <= i <= |list| == |table.order|
        invariant |results| == i
        invariant forall k :: 0 <= k < i ==> GetServer(table.order[k], true) == Ok(Some(results[k]))
      {
        var server := list[i];
        assert server == Selected(table.rows[table.order[i]]) && server.serverId == table.order[i];
        var view := WithState(server, Lookup(live, server.serverId));
        assert GetServer(table.order[i], true) == if view.Err? then Err(view.error) else Ok(Some(view.value));
        if view.Err? {
          return Err(view.error);
        }
        results := results + [view.value];
        i := i + 1;
      }
      r := Ok(results);
    }

    /** registerServer. A failed identity write is logged and swallowed and leaves the cache
        alone; otherwise the liveness entry is deleted and reseeded wholesale. */
    method RegisterServer(metadata: Server, now: int, dbUp: bool, cacheFault: CacheFault)
      requires Valid()
      modifies this, table
      ensures Valid()
      ensures table.rows == if dbUp then Upsert(old(table.rows), Persistent(metadata, now)) else old(table.rows)
      ensures table.order ==
        if dbUp && metadata.serverId !in old(table.rows) then old(table.order) + [metadata.serverId]
        else old(table.order)
      ensures live == if dbUp then Reseeded(old(live), metadata.serverId, now, cacheFault) else old(live)
      ensures counters == old(counters) && published == old(published)
      ensures OfflineMarksKept(old(table.rows), table.rows)
      ensures StoresConsistent(old(table.rows), old(live)) ==> StoresConsistent(table.rows, live)
      ensures dbUp && cacheFault == NoCacheFault ==>
        GetServer(metadata.serverId, true) == Ok(Some(ServerView(Persistent(metadata, now), 0, [], Online)))
    {
      var persisted := table.InsertOrUpdateServer(Persistent(metadata, now), dbUp);
      WritesKeepOfflineMarks(old(table.rows), Persistent(metadata, now), metadata.serverId, now, now);
      if persisted.Err? {
        return;
      }
      var serverId := metadata.serverId;
      match cacheFault {
        case DelFails =>
        case HSetFails =>
          live := live - {serverId};
        case NoCacheFault =>
          live := live - {serverId};
          live := live[serverId := Seed(now)];
      }
    }

    /** updateServer: overwrites an existing liveness entry with the heartbeat's fields; a
        server without an entry is left without one. The identity table is never written. */
    method UpdateServer(serverId: string, update: UpdateRequest)
      requires Valid()
      modifies this
      ensures Valid()
      ensures live == Heartbeat(old(live), serverId, update)
      ensures counters == old(counters) && published == old(published)
      ensures StoresConsistent(old(table.rows), old(live)) ==> StoresConsistent(table.rows, live)
    {
      if serverId !in live {
        return;
      }
      live := live[serverId := Liveness(Some(update.playerCount), Some(update.lastHeartbeat), Players(update.playerList))];
    }

    /** One iteration of checkForDownedServers for the scanned record `server`. */
    method DemoteIfStale(server: Server, now: int, markFails: set<string>) returns (r: Result<()>)
      requires Valid()
      modifies this, table
      ensures Valid() && table.order == old(table.order)
      ensures counters == old(counters) && published == old(published)
      ensures SweepStep(Stores(old(table.rows), old(live)), server, now, markFails)
              == Run(Stores(table.rows, live), r.Err?)
      ensures r.Err? ==> r == Err(StoreUnavailable)
    {
      ghost var before := Stores(table.rows, live);
      var serverId := server.serverId;
      if serverId in live {
        var lastHeartbeat := HeartbeatOf(live[serverId], server.lastHeartbeat);
        if now - lastHeartbeat > ThresholdSeconds {
          assert IsStale(before.live[serverId], server.lastHeartbeat, now);
          var marked := table.MarkServerOffline(serverId, lastHeartbeat, now, serverId !in markFails);
          if marked.Err? {
            return marked;
          }
          live := live - {serverId};
        }
      }
      r := Ok(());
    }

    /** checkForDownedServers: for each scanned row with a liveness entry whose heartbeat is
        stale, mark the row offline and delete the entry. A store failure is not caught: it
        ends the sweep. */
    method CheckForDownedServers(now: int, dbUp: bool, markFails: set<string>) returns (r: Result<()>)
      requires Valid()
      modifies this, table
      ensures Valid()
      ensures table.order == old(table.order)
      ensures counters == old(counters) && published == old(published)
      ensures !dbUp ==> r == Err(StoreUnavailable) && table.rows == old(table.rows) && live == old(live)
      ensures dbUp ==>
        var run := Sweep(Stores(old(table.rows), old(live)), Projection(old(table.rows), old(table.order)), now, markFails);
        && table.rows == run.stores.rows
        && live == run.stores.live
        && (r.Err? <==> run.aborted)
      ensures OfflineMarksKept(old(table.rows), table.rows)
      ensures StoresConsistent(old(table.rows), old(live)) ==> StoresConsistent(table.rows, live)
    {
      var servers := table.GetAllServers(dbUp);
      if servers.Err? {
        return Err(servers.error);
      }
      var list := servers.value;
      ghost var start := Stores(table.rows, live);
      var i := 0;
      while i < |list|
        invariant 0 <= i <= |list|
        invariant Valid() && table.order == old(table.order)
        invariant counters == old(counters) && published == old(published)
        invariant Sweep(start, list[..i], now, markFails) == Run(Stores(table.rows, live), false)
      {
        SweepExtend(start, list, i, now, markFails);
        var step := DemoteIfStale(list[i], now, markFails);
        if step.Err? {
          SweepAbortIsFinal(start, list, i + 1, now, markFails);
          SweepKeys(start, list, now, markFails);
          SweepKeepsOfflineMarks(start, list, now, markFails);
          return step;
        }
        i := i + 1;
      }
      assert list[..i] == list;
      SweepKeys(start, list, now, markFails);
      SweepKeepsOfflineMarks(start, list, now, markFails);
      r := Ok(());
    }

    /** updateGlobalPlayerCounts: sums visible and actual players over the scanned rows that have
        a liveness entry, overwrites the global counter hash and publishes the same pair. */
    method UpdateGlobalPlayerCounts(dbUp: bool) returns (r: Result<()>)
      requires Valid()
      modifies this
      ensures Valid() && live == old(live)
      ensures !dbUp ==> r == Err(StoreUnavailable) && counters == old(counters) && published == old(published)
      ensures dbUp ==>
        var totals := Tally(live, Projection(table.rows, table.order));
        && r == Ok(())
        && counters == Some(totals)
        && published == old(published) + [Event(PlayerCountChannel, ApiSenderId, totals.visible, totals.actual)]
      ensures dbUp ==> counters.Some? && 0 <= counters.value.visible <= counters.value.actual
    {
      var servers := table.GetAllServers(dbUp);
      if servers.Err? {
        return Err(servers.error);
      }
      var list := servers.value;
      var totalVisible, totalActual := 0, 0;
      var i := 0;
      while i < |list|
        invariant 0 <= i <= |list|
        invariant live == old(live) && counters == old(counters) && published == old(published)
        invariant Counters(totalVisible, totalActual) == Tally(live, list[..i])
      {
        var server := list[i];
        TallyExtend(live, list, i);
        if server.serverId in live {
          match live[server.serverId].playerList {
            case Players(players) =>
              totalVisible := totalVisible + |Visible(players)|;
              totalActual := totalActual + |players|;
            case NoPlayerList =>
            case Unparseable =>
          }
        }
        i := i + 1;
      }
      assert list[..i] == list;
      counters := Some(Counters(totalVisible, totalActual));
      published := published + [Event(PlayerCountChannel, ApiSenderId, totalVisible, totalActual)];
      r := Ok(());
    }
  }
}
