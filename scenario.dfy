/** A client of the registry: the lifecycle of one server, from registration to demotion,
    checked against the operations' contracts alone. */
module Scenario {
  import opened Records
  import opened ServerRepository
  import opened ServerService

  /** Registration at t = 100: the server reads back online with an empty roster. */
  method RegisterReadsBackOnline() {
    var registry := new Registry();
    var metadata := Server("s1", "lobby-1", "paper", "production", "1.21", 25565, 0, 0, None);
    registry.RegisterServer(metadata, 100, true, NoCacheFault);
    var row := Persistent(metadata, 100);
    assert registry.GetServer("s1", true) == Ok(Some(ServerView(row, 0, [], Online)));
  }

  /** Registration, then a heartbeat whose roster holds one vanished player, then aggregation. */
  method RegisterAndAggregate() {
    var registry := new Registry();
    var metadata := Server("s1", "lobby-1", "paper", "production", "1.21", 25565, 0, 0, None);
    registry.RegisterServer(metadata, 100, true, NoCacheFault);
    var row := Persistent(metadata, 100);
    assert registry.table.rows == map["s1" := row] && registry.table.order == ["s1"];

    // A heartbeat at t = 101 with one visible and one vanished player.
    var alice := PlayerSession("a", "alice", 100, false);
    var bob := PlayerSession("b", "bob", 100, true);
    registry.UpdateServer("s1", UpdateRequest(2, 101, [alice, bob]));
    var entry := Liveness(Some(2), Some(101), Players([alice, bob]));
    assert registry.live == map["s1" := entry];

    // The aggregation counts both players and shows one.
    var aggregated := registry.UpdateGlobalPlayerCounts(true);
    assert Projection(registry.table.rows, registry.table.order) == [Selected(row)];
    assert [Selected(row)][..0] == [];
    assert Visible([alice, bob]) == [alice] by {
      assert [alice, bob][1..] == [bob] && [bob][1..] == [];
    }
    assert registry.counters == Some(Counters(1, 2));
    assert registry.published[|registry.published| - 1] == Event(PlayerCountChannel, ApiSenderId, 1, 2);
  }

  /** The same server falls silent after its heartbeat and is demoted by the next sweep. */
  method SilentServerIsDemoted() {
    var registry := new Registry();
    var metadata := Server("s1", "lobby-1", "paper", "production", "1.21", 25565, 0, 0, None);
    registry.RegisterServer(metadata, 100, true, NoCacheFault);
    var row := Persistent(metadata, 100);
    assert registry.table.rows == map["s1" := row] && registry.table.order == ["s1"];
    var alice := PlayerSession("a", "alice", 100, false);
    registry.UpdateServer("s1", UpdateRequest(1, 101, [alice]));
    var entry := Liveness(Some(1), Some(101), Players([alice]));
    assert registry.live == map["s1" := entry];

    // Ten seconds of silence: the sweep at t = 111 demotes the server and records when.
    var swept := registry.CheckForDownedServers(111, true, {});
    SweepTable(map["s1" := row], ["s1"], map["s1" := entry], 111, "s1");
    var demoted := row.(lastHeartbeat := 101, lastSeenOffline := Some(111));
    assert registry.table.rows["s1"] == demoted;
    assert "s1" !in registry.live;
    assert registry.GetServer("s1", true) == Ok(Some(ServerView(Selected(demoted), 0, [], Offline)));
  }
}
