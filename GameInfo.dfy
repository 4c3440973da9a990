/** The game-state codes of Kingpin (`enum KingpinState`, KingpinGame.cs:93-96).
    The tracker casts whatever integer it reads to this enum, so a state is any
    `int`; only these two codes carry a meaning. */
module KingpinState {

  const MenuOrLoading: int := 3
  const InGame: int := 4

  /** The value a state property holds before anything has been read. */
  const Unset: int := 0
}

/** The per-tick game-state tracker (`partial class GameInfo`, KingpinGame.cs:103-145).

    The two reads from the game's memory are parameters: `gameStateRead` is the
    result of reading the state code, `mapRead` the result of reading the map
    name; `None` is a failed read. The map name is only consulted when the
    tracker actually re-reads it (when the state pair differs). */
module ComponentAutosplitter {

  import opened Wrappers
  import KingpinState

  /** The six properties of the tracker, as one value. */
  datatype GameSnapshot = GameSnapshot(
    previousState: int,
    currentState: int,
    previousMap: Option<string>,
    currentMap: Option<string>,
    mapChanged: bool,
    inGame: bool)

  /** The tracker before the first tick: both states at the enum default,
      both maps unset, both flags false. */
  function Initial(): GameSnapshot
  {
    GameSnapshot(KingpinState.Unset, KingpinState.Unset, None, None, false, false)
  }

  /** `UpdateMap` (KingpinGame.cs:134-144): a successful read of a name that is
      not the current map shifts current into previous, stores the name and
      raises MapChanged; anything else changes nothing. */
  function UpdateMapStep(s: GameSnapshot, mapRead: Option<string>): (r: GameSnapshot)
    // only the three map properties may change
    ensures r.(previousMap := s.previousMap, currentMap := s.currentMap, mapChanged := s.mapChanged) == s
    // after a successful read the current map is the name just read
    ensures mapRead.Some? ==> r.currentMap == mapRead
    ensures mapRead.None? ==> r == s
    // the map changes exactly when the read found a name different from the current map
    ensures r.currentMap != s.currentMap <==> mapRead.Some? && mapRead != s.currentMap
    ensures r.currentMap != s.currentMap ==> r.previousMap == s.currentMap && r.mapChanged
    ensures r.currentMap == s.currentMap ==> r == s
    // MapChanged is only ever raised here, never cleared
    ensures s.mapChanged ==> r.mapChanged
  {
    if mapRead.Some? && mapRead != s.currentMap then
      s.(previousMap := s.currentMap, currentMap := mapRead, mapChanged := true)
    else
      s
  }

  /** One call of `UpdateInfo` (KingpinGame.cs:114-132). */
  function Tick(s: GameSnapshot, gameStateRead: Option<int>, mapRead: Option<string>): (r: GameSnapshot)
    // a failed state read keeps the state pair
    ensures gameStateRead.None? ==> r.previousState == s.previousState && r.currentState == s.currentState
    // a successful read of v shifts the old current state into the previous one
    ensures gameStateRead.Some? ==> r.previousState == s.currentState && r.currentState == gameStateRead.value
    // an unchanged pair clears MapChanged and touches nothing else
    ensures r.previousState == r.currentState ==>
              && !r.mapChanged
              && r.previousMap == s.previousMap && r.currentMap == s.currentMap
              && r.inGame == s.inGame
    // a differing pair re-reads the map and recomputes InGame
    ensures r.previousState != r.currentState ==>
              && r.inGame == (r.currentState == KingpinState.InGame)
              && (mapRead.Some? ==> r.currentMap == mapRead)
              && (r.currentMap != s.currentMap <==> mapRead.Some? && mapRead != s.currentMap)
              && (r.currentMap != s.currentMap ==> r.previousMap == s.currentMap && r.mapChanged)
              && (r.currentMap == s.currentMap ==> r.previousMap == s.previousMap && r.mapChanged == s.mapChanged)
  {
    var read := if gameStateRead.Some? then s.(previousState := s.currentState, currentState := gameStateRead.value)
                else s;
    if read.previousState != read.currentState then
      UpdateMapStep(read, mapRead).(inGame := read.currentState == KingpinState.InGame)
    else
      read.(mapChanged := false)
  }

  /** What every snapshot the tracker can reach satisfies: InGame agrees with
      the current state code, MapChanged is only raised once a map is known,
      and once a map is known the previous map is a different one. */
  ghost predicate Consistent(s: GameSnapshot)
  {
    && s.inGame == (s.currentState == KingpinState.InGame)
    && (s.currentMap.None? ==> s.previousMap.None? && !s.mapChanged)
    && (s.currentMap.Some? ==> s.previousMap != s.currentMap)
  }

  lemma InitialIsConsistent()
    ensures Consistent(Initial())
  {
  }

  lemma UpdateMapKeepsConsistent(s: GameSnapshot, mapRead: Option<string>)
    requires Consistent(s)
    ensures Consistent(UpdateMapStep(s, mapRead))
  {
  }

  lemma TickKeepsConsistent(s: GameSnapshot, gameStateRead: Option<int>, mapRead: Option<string>)
    requires Consistent(s)
    ensures Consistent(Tick(s, gameStateRead, mapRead))
  {
  }

  /** The two memory reads the host performs for one tick. */
  datatype Reads = Reads(gameState: Option<int>, mapName: Option<string>)

  /** The tracker after the host has driven it through `ticks`, oldest first. */
  ghost function Run(s: GameSnapshot, ticks: seq<Reads>): GameSnapshot
    decreases |ticks|
  {
    if ticks == [] then s else Run(Tick(s, ticks[0].gameState, ticks[0].mapName), ticks[1..])
  }

  lemma {:induction false} RunKeepsConsistent(s: GameSnapshot, ticks: seq<Reads>)
    requires Consistent(s)
    ensures Consistent(Run(s, ticks))
    decreases |ticks|
  {
    if ticks != [] {
      TickKeepsConsistent(s, ticks[0].gameState, ticks[0].mapName);
      RunKeepsConsistent(Tick(s, ticks[0].gameState, ticks[0].mapName), ticks[1..]);
    }
  }

  /** Every snapshot reachable from the start is consistent. */
  lemma ReachableIsConsistent(ticks: seq<Reads>)
    ensures Consistent(Run(Initial(), ticks))
  {
    InitialIsConsistent();
    RunKeepsConsistent(Initial(), ticks);
  }

  /** Once a map has been read, it stays known and the previous map differs
      from the current one for every later tick. */
  lemma {:induction false} MapsStayDistinct(s: GameSnapshot, ticks: seq<Reads>)
    requires Consistent(s) && s.currentMap.Some?
    ensures Run(s, ticks).currentMap.Some?
    ensures Run(s, ticks).previousMap != Run(s, ticks).currentMap
    decreases |ticks|
  {
    if ticks != [] {
      TickKeepsConsistent(s, ticks[0].gameState, ticks[0].mapName);
      MapsStayDistinct(Tick(s, ticks[0].gameState, ticks[0].mapName), ticks[1..]);
    } else {
      assert Consistent(Run(s, ticks));
    }
  }

  /** Running two sequences of ticks one after the other is running their
      concatenation. */
  lemma {:induction false} RunAppend(s: GameSnapshot, first: seq<Reads>, second: seq<Reads>)
    ensures Run(s, first + second) == Run(Run(s, first), second)
    decreases |first|
  {
    if first != [] {
      assert (first + second)[0] == first[0];
      assert (first + second)[1..] == first[1..] + second;
      RunAppend(Tick(s, first[0].gameState, first[0].mapName), first[1..], second);
    } else {
      assert first + second == second;
    }
  }

  /** Once a session has read a map, every later snapshot of that session has
      a known current map that differs from the previous map. */
  lemma MapsStayDistinctAfterRead(earlier: seq<Reads>, later: seq<Reads>)
    requires Run(Initial(), earlier).currentMap.Some?
    ensures Run(Initial(), earlier + later).currentMap.Some?
    ensures Run(Initial(), earlier + later).previousMap != Run(Initial(), earlier + later).currentMap
  {
    ReachableIsConsistent(earlier);
    MapsStayDistinct(Run(Initial(), earlier), later);
    RunAppend(Initial(), earlier, later);
  }

  /** MapChanged is not cleared by a tick whose state read fails while the
      state pair still differs: `UpdateMap` runs again, finds the same map (or
      fails to read one) and leaves the flag raised, so the snapshot, flag
      included, carries over to the next tick unchanged. */
  lemma MapChangedCanPersist(s: GameSnapshot)
    requires Consistent(s) && s.previousState != s.currentState && s.mapChanged
    ensures Tick(s, None, s.currentMap) == s
    ensures Tick(s, None, None) == s
  {
  }

  /** Such snapshots occur: reading MenuOrLoading without a map, then InGame
      on map `m`, leaves a differing pair with MapChanged raised. */
  lemma PersistingSnapshotIsReachable(m: string)
    ensures var s := Run(Initial(), [Reads(Some(KingpinState.MenuOrLoading), None), Reads(Some(KingpinState.InGame), Some(m))]);
            && Consistent(s) && s.previousState != s.currentState && s.mapChanged
  {
    var ticks := [Reads(Some(KingpinState.MenuOrLoading), None), Reads(Some(KingpinState.InGame), Some(m))];
    ReachableIsConsistent(ticks);
    var s1 := Tick(Initial(), ticks[0].gameState, ticks[0].mapName);
    assert Run(Initial(), ticks) == Run(s1, ticks[1..]);
    assert Run(s1, ticks[1..]) == Run(Tick(s1, ticks[1].gameState, ticks[1].mapName), []);
  }

  /** The tracker, with its six properties as fields. `InGame` is declared by
      the host's half of the partial class; here it is a field like the rest. */
  class GameInfo {
    var previousGameState: int
    var currentGameState: int
    var previousMap: Option<string>
    var currentMap: Option<string>
    var mapChanged: bool
    var inGame: bool

    /** The properties as one value. */
    function Snapshot(): GameSnapshot
      reads this
    {
      GameSnapshot(previousGameState, currentGameState, previousMap, currentMap, mapChanged, inGame)
    }

    /** Every property starts at its default. */
    constructor ()
      ensures Snapshot() == Initial()
      ensures Consistent(Snapshot())
    {
      previousGameState, currentGameState := KingpinState.Unset, KingpinState.Unset;
      previousMap, currentMap := None, None;
      mapChanged, inGame := false, false;
    }

    method UpdateMap(mapRead: Option<string>)
      modifies this
      ensures Snapshot() == UpdateMapStep(old(Snapshot()), mapRead)
      ensures old(Consistent(Snapshot())) ==> Consistent(Snapshot())
    {
      if mapRead.Some? && mapRead != currentMap {
        previousMap := currentMap;
        currentMap := mapRead;
        mapChanged := true;
      }
    }

    method UpdateInfo(gameStateRead: Option<int>, mapRead: Option<string>)
      modifies this
      ensures Snapshot() == Tick(old(Snapshot()), gameStateRead, mapRead)
      ensures old(Consistent(Snapshot())) ==> Consistent(Snapshot())
    {
      if gameStateRead.Some? {
        previousGameState := currentGameState;
        currentGameState := gameStateRead.value;
      }
      if previousGameState != currentGameState {
        UpdateMap(mapRead);
        inGame := currentGameState == KingpinState.InGame;
      } else {
        mapChanged := false;
      }
    }
  }
}
