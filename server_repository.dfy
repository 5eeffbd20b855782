/** The durable identity store: the `servers` table, keyed by `server_id`. */
module ServerRepository {
  import opened Records

  /** No two positions of `ids` hold the same id. */
  predicate Distinct(ids: seq<string>) {
    forall i, j :: 0 <= i < j < |ids| ==> ids[i] != ids[j]
  }

  /** The shape of the table: each row is stored under its own id, and `order` lists every
      stored id exactly once (the order in which a full scan returns the rows). */
  predicate WellFormed(rows: map<string, Server>, order: seq<string>) {
    && (forall id :: id in rows ==> rows[id].serverId == id)
    && (forall id :: id in rows ==> id in order)
    && (forall i :: 0 <= i < |order| ==> order[i] in rows)
    && Distinct(order)
  }

  /** The record a SELECT maps a row to. The SELECT lists name every column except
      `last_seen_offline`, so the record never carries that column's value. */
  function Selected(row: Server): (s: Server)
    ensures s.lastSeenOffline.None?
    ensures s.(lastSeenOffline := row.lastSeenOffline) == row
  {
    row.(lastSeenOffline := None)
  }

  /** `rows.map(...)` over a full scan in the order `order`. */
  function Projection(rows: map<string, Server>, order: seq<string>): (r: seq<Server>)
    requires forall i :: 0 <= i < |order| ==> order[i] in rows
    ensures |r| == |order|
    ensures forall i :: 0 <= i < |order| ==> r[i] == Selected(rows[order[i]])
  {
    if order == [] then [] else [Selected(rows[order[0]])] + Projection(rows, order[1..])
  }

  /** INSERT ... ON DUPLICATE KEY UPDATE: a new id gets the eight inserted columns and a null
      `last_seen_offline`; an existing id gets seven columns replaced and keeps `last_seen_offline`. */
  function Upsert(rows: map<string, Server>, data: Server): (r: map<string, Server>)
    ensures r.Keys == rows.Keys + {data.serverId}
    ensures forall id :: id in rows && id != data.serverId ==> r[id] == rows[id]
    ensures r[data.serverId].(lastSeenOffline := data.lastSeenOffline) == data
    ensures data.serverId !in rows ==> r[data.serverId].lastSeenOffline.None?
    ensures data.serverId in rows ==> r[data.serverId].lastSeenOffline == rows[data.serverId].lastSeenOffline
  {
    var kept := if data.serverId in rows then rows[data.serverId].lastSeenOffline else None;
    rows[data.serverId := data.(lastSeenOffline := kept)]
  }

  /** The effect of the guarded UPDATE on one row: only a row whose `last_seen_offline` is null
      takes the new `last_heartbeat` and `last_seen_offline`. */
  function MarkedRow(row: Server, lastHeartbeat: int, offlineTimestamp: int): (r: Server)
    ensures row.lastSeenOffline.Some? ==> r == row
    ensures row.lastSeenOffline.None? ==>
      r.lastHeartbeat == lastHeartbeat && r.lastSeenOffline == Some(offlineTimestamp)
    ensures r.(lastHeartbeat := row.lastHeartbeat, lastSeenOffline := row.lastSeenOffline) == row
  {
    if row.lastSeenOffline.None? then
      row.(lastHeartbeat := lastHeartbeat, lastSeenOffline := Some(offlineTimestamp))
    else
      row
  }

  /** UPDATE servers SET ... WHERE server_id = ? AND last_seen_offline IS NULL. */
  function MarkOffline(rows: map<string, Server>, serverId: string, lastHeartbeat: int, offlineTimestamp: int)
    : (r: map<string, Server>)
    ensures r.Keys == rows.Keys
    ensures forall id :: id in rows && id != serverId ==> r[id] == rows[id]
    ensures serverId in rows ==> r[serverId] == MarkedRow(rows[serverId], lastHeartbeat, offlineTimestamp)
  {
    if serverId in rows then rows[serverId := MarkedRow(rows[serverId], lastHeartbeat, offlineTimestamp)] else rows
  }

  /** Every offline mark in `before` is still in `after`, with the same timestamp. */
  predicate OfflineMarksKept(before: map<string, Server>, after: map<string, Server>) {
    forall id :: id in before && before[id].lastSeenOffline.Some? ==>
      id in after && after[id].lastSeenOffline == before[id].lastSeenOffline
  }

  /** The offline mark is write-once: a second mark of the same row changes nothing, so the
      first timestamp (and the heartbeat recorded with it) survive. */
  lemma MarkOfflineWriteOnce(rows: map<string, Server>, serverId: string, hb1: int, ts1: int, hb2: int, ts2: int)
    requires serverId in rows
    ensures var once := MarkOffline(rows, serverId, hb1, ts1);
      && MarkOffline(once, serverId, hb2, ts2) == once
      && once[serverId].lastSeenOffline ==
           (if rows[serverId].lastSeenOffline.Some? then rows[serverId].lastSeenOffline else Some(ts1))
  {
  }

  /** Neither write can remove or overwrite an offline mark. */
  lemma WritesKeepOfflineMarks(rows: map<string, Server>, data: Server, serverId: string, hb: int, ts: int)
    ensures OfflineMarksKept(rows, Upsert(rows, data))
    ensures OfflineMarksKept(rows, MarkOffline(rows, serverId, hb, ts))
  {
  }

  /** The identity table. */
  class ServerTable {
    var rows: map<string, Server>
    var order: seq<string>

    ghost predicate Valid()
      reads this
    {
      WellFormed(rows, order)
    }

    constructor ()
      ensures Valid() && rows == map[] && order == []
    {
      rows := map[];
      order := [];
    }

    /** insertOrUpdateServer: rethrows a store failure, otherwise upserts `data`. */
    method InsertOrUpdateServer(data: Server, dbUp: bool) returns (r: Result<()>)
      requires Valid()
      modifies this
      ensures Valid()
      ensures r == if dbUp then Ok(()) else Err(StoreUnavailable)
      ensures rows == if dbUp then Upsert(old(rows), data) else old(rows)
      ensures order == if dbUp && data.serverId !in old(rows) then old(order) + [data.serverId] else old(order)
    {
      if !dbUp {
        return Err(StoreUnavailable);
      }
      if data.serverId !in rows {
        order := order + [data.serverId];
      }
      rows := Upsert(rows, data);
      r := Ok(());
    }

    /** markServerOffline: rethrows a store failure, otherwise applies the guarded update. */
    method MarkServerOffline(serverId: string, lastHeartbeat: int, offlineTimestamp: int, dbUp: bool)
      returns (r: Result<()>)
      requires Valid()
      modifies this
      ensures Valid() && order == old(order)
      ensures r == if dbUp then Ok(()) else Err(StoreUnavailable)
      ensures rows == if dbUp then MarkOffline(old(rows), serverId, lastHeartbeat, offlineTimestamp) else old(rows)
    {
      if !dbUp {
        return Err(StoreUnavailable);
      }
      rows := MarkOffline(rows, serverId, lastHeartbeat, offlineTimestamp);
      r := Ok(());
    }

    /** getServerIfExist: the row's record, or null when no row has the id. */
    function GetServerIfExist(serverId: string, dbUp: bool): (r: Result<Option<Server>>)
      reads this
      ensures !dbUp ==> r == Err(StoreUnavailable)
      ensures dbUp ==> r.Ok? && (r.value.Some? <==> serverId in rows)
      ensures dbUp && serverId in rows ==> r.value.value == Selected(rows[serverId])
    {
      if !dbUp then Err(StoreUnavailable)
      else if serverId in rows then Ok(Some(Selected(rows[serverId])))
      else Ok(None)
    }

    /** getAllServers: one record per stored row, in scan order. */
    function GetAllServers(dbUp: bool): (r: Result<seq<Server>>)
      reads this
      requires Valid()
      ensures !dbUp ==> r == Err(StoreUnavailable)
      ensures dbUp ==> r.Ok? && |r.value| == |order|
      ensures dbUp ==> forall i :: 0 <= i < |order| ==> r.value[i] == Selected(rows[order[i]])
      ensures dbUp ==> forall i, j :: 0 <= i < j < |r.value| ==> r.value[i].serverId != r.value[j].serverId
    {
      if dbUp then
        var all := Projection(rows, order);
        assert forall i :: 0 <= i < |order| ==> all[i].serverId == order[i];
        Ok(all)
      else
        Err(StoreUnavailable)
    }

    /** getOnlineServers: despite its name, the same unfiltered scan as getAllServers. */
    function GetOnlineServers(dbUp: bool): (r: Result<seq<Server>>)
      reads this
      requires Valid()
      ensures r == GetAllServers(dbUp)
    {
      if dbUp then Ok(Projection(rows, order)) else Err(StoreUnavailable)
    }
  }
}
