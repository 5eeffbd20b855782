/** Value types shared by the identity store, the liveness store and the registry service. */
module Records {

  datatype Option<T> = None | Some(value: T) {
    /** The wrapped value, or `default` when there is none (the `x || fallback` idiom). */
    function GetOr(default: T): T {
      if this.Some? then this.value else default
    }
  }

  /** What a call can surface instead of a result. */
  datatype StoreError =
    | StoreUnavailable          // the database (or cache) call threw
    | MalformedVolatileState    // a liveness entry's player list is not a decodable array

  datatype Result<T> = Ok(value: T) | Err(error: StoreError)

  /** A row of the `servers` table, and the `Server` record built from one.
      `serverType` is the `type` column (a reserved word in Dafny). Times are unix seconds. */
  datatype Server = Server(
    serverId: string,
    serverName: string,
    serverType: string,
    environment: string,
    version: string,
    port: int,
    lastStarted: int,
    lastHeartbeat: int,
    lastSeenOffline: Option<int>)

  datatype PlayerSession = PlayerSession(uuid: string, username: string, joinedAt: int, vanished: bool)

  /** The `playerList` field of a liveness hash: missing, a decoded array, or text that does not decode. */
  datatype PlayerListField = NoPlayerList | Players(sessions: seq<PlayerSession>) | Unparseable

  /** The liveness hash of one server. Each field may be missing from the hash. */
  datatype Liveness = Liveness(playerCount: Option<int>, lastHeartbeat: Option<int>, playerList: PlayerListField) {
    /** A hash without fields does not exist in the cache, so every stored entry has one. */
    predicate HasField() {
      playerCount.Some? || lastHeartbeat.Some? || !playerList.NoPlayerList?
    }
  }

  /** The body of a heartbeat. */
  datatype UpdateRequest = UpdateRequest(playerCount: int, lastHeartbeat: int, playerList: seq<PlayerSession>)

  datatype Status = Online | Offline

  /** `ServerWithState`: the projected row (with `lastHeartbeat` overridden by the live value)
      plus the volatile fields and the derived status. */
  datatype ServerView = ServerView(server: Server, playerCount: int, playerList: seq<PlayerSession>, status: Status)

  /** The `global:playerCount` hash. */
  datatype Counters = Counters(visible: int, actual: int)

  /** One message published on the event channel; the random event id is not modelled. */
  datatype Event = Event(channel: string, senderId: string, visible: int, actual: int)
}
