/** The Kingpin split events (KingpinGame.cs:25-91): events bound to one map,
    whose map name is normalised once at construction and which are then
    evaluated against the tracker's snapshot on every tick. */
module Kingpin {

  import opened Wrappers
  import KingpinState
  import opened ComponentAutosplitter

  /** The extension of a Kingpin map file. */
  const MapExtension: string := ".bsp"

  /** Ordinal suffix test, as `string.EndsWith` behaves on these ASCII names. */
  predicate EndsWith(s: string, suffix: string)
  {
    |suffix| <= |s| && s[|s| - |suffix|..] == suffix
  }

  /** The name a map event stores for the map it is given
      (`KingpinMapEvent(string)`, KingpinGame.cs:33-40). */
  function Normalize(name: string): (r: string)
    // the given name is kept as a prefix and the result names a map file
    ensures |name| <= |r| && r[..|name|] == name
    ensures EndsWith(r, MapExtension)
    // a name that already names a map file is kept as it is
    ensures r == name <==> EndsWith(name, MapExtension)
    // otherwise exactly the extension is added
    ensures r != name ==> |r| == |name| + |MapExtension|
  {
    if EndsWith(name, MapExtension) then name else name + MapExtension
  }

  /** Normalising twice is normalising once. */
  lemma NormalizeIdempotent(name: string)
    ensures Normalize(Normalize(name)) == Normalize(name)
  {
  }

  /** Writing the extension or leaving it off makes no difference. */
  lemma ExtensionIsOptional(name: string)
    requires !EndsWith(name, MapExtension)
    ensures Normalize(name + MapExtension) == Normalize(name)
  {
  }

  /** The two kinds of map event the game offers (`EventTypes`, KingpinGame.cs:11-12). */
  datatype EventKind = Loaded | Finished

  /** A configured event: its kind, its normalised map and the attribute
      values the host persists for it. */
  datatype MapEvent = MapEvent(kind: EventKind, mapName: string, attributeValues: seq<string>)

  /** The invariant every constructed event keeps. */
  ghost predicate WellFormed(e: MapEvent)
  {
    EndsWith(e.mapName, MapExtension) && e.attributeValues == [e.mapName]
  }

  /** `LoadedMapEvent(string)` / `FinishedMapEvent(string)` (KingpinGame.cs:31-43). */
  function NewMapEvent(kind: EventKind, name: string): (e: MapEvent)
    ensures WellFormed(e) && e.kind == kind
    ensures e.mapName == name <==> EndsWith(name, MapExtension)
    ensures |name| <= |e.mapName| && e.mapName[..|name|] == name
    ensures e.mapName != name ==> |e.mapName| == |name| + |MapExtension|
  {
    var stored := Normalize(name);
    MapEvent(kind, stored, [stored])
  }

  /** Events built from "x" and from "x.bsp" are the same event, so they fire
      on exactly the same ticks and persist the same attribute. */
  lemma SameEventWithOrWithoutExtension(kind: EventKind, name: string, info: GameSnapshot)
    requires !EndsWith(name, MapExtension)
    ensures NewMapEvent(kind, name) == NewMapEvent(kind, name + MapExtension)
    ensures HasOccured(NewMapEvent(kind, name), info) == HasOccured(NewMapEvent(kind, name + MapExtension), info)
  {
    ExtensionIsOptional(name);
  }

  /** `LoadedMapEvent.HasOccured` (KingpinGame.cs:58-62). */
  predicate LoadedHasOccured(target: string, info: GameSnapshot)
  {
    info.previousState != KingpinState.InGame && info.inGame && info.currentMap == Some(target)
  }

  /** `FinishedMapEvent.HasOccured` (KingpinGame.cs:82-85). */
  predicate FinishedHasOccured(target: string, info: GameSnapshot)
  {
    info.mapChanged && info.currentMap != Some(target) && info.previousMap == Some(target)
  }

  /** An event's guard: `LoadedMapEvent.HasOccured` (KingpinGame.cs:58-62) or
      `FinishedMapEvent.HasOccured` (KingpinGame.cs:82-85), chosen by its kind. */
  predicate HasOccured(e: MapEvent, info: GameSnapshot)
  {
    match e.kind
    case Loaded => LoadedHasOccured(e.mapName, info)
    case Finished => FinishedHasOccured(e.mapName, info)
  }

  /** A map is never loaded and finished on the same tick, and it is never
      finished on a snapshot whose MapChanged flag is false. */
  lemma LoadedAndFinishedExclusive(target: string, info: GameSnapshot)
    ensures !(LoadedHasOccured(target, info) && FinishedHasOccured(target, info))
    ensures !info.mapChanged ==> !FinishedHasOccured(target, info)
  {
  }

  /** On every snapshot the tracker can reach, InGame is the current state
      code being InGame, so a map counts as loaded exactly when the stored
      previous state is not InGame, the current one is, and the current map
      is the target. */
  lemma LoadedOnReachable(ticks: seq<Reads>, target: string)
    ensures var s := Run(Initial(), ticks);
            LoadedHasOccured(target, s) <==>
              && s.previousState != KingpinState.InGame
              && s.currentState == KingpinState.InGame
              && s.currentMap == Some(target)
  {
    ReachableIsConsistent(ticks);
  }

  /** On every snapshot the tracker can reach, the current map differs from
      the previous one whenever the previous one is known, so a map counts as
      finished exactly when MapChanged is raised and it is the previous map. */
  lemma FinishedOnReachable(ticks: seq<Reads>, target: string)
    ensures var s := Run(Initial(), ticks);
            FinishedHasOccured(target, s) <==> s.mapChanged && s.previousMap == Some(target)
  {
    ReachableIsConsistent(ticks);
  }

  /** A session of four ticks: the menu on map "", "intro" loading in game,
      a tick on which the state code stays InGame, and the state dropping back
      to loading on map "rcboss2". The map is re-read only on ticks whose state
      pair differs after the state read. On the third tick the state stays
      InGame, so the pair is equal and "intro" counts as finished on the fourth
      tick, not the third. */
  lemma IntroSession()
    ensures var loaded, finished := NewMapEvent(Loaded, "intro"), NewMapEvent(Finished, "intro");
            var s1 := Tick(Initial(), Some(KingpinState.MenuOrLoading), Some(""));
            var s2 := Tick(s1, Some(KingpinState.InGame), Some("intro.bsp"));
            var s3 := Tick(s2, Some(KingpinState.InGame), Some("rcboss2.bsp"));
            var s4 := Tick(s3, Some(KingpinState.MenuOrLoading), Some("rcboss2.bsp"));
            && !HasOccured(loaded, s1) && HasOccured(loaded, s2) && !HasOccured(loaded, s3) && !HasOccured(loaded, s4)
            && !HasOccured(finished, s1) && !HasOccured(finished, s2) && !HasOccured(finished, s3) && HasOccured(finished, s4)
            && s3.currentMap == Some("intro.bsp")
  {
    assert "intro"[1..] == "ntro";
    assert Normalize("intro") == "intro.bsp";
  }

  /** A failed state read right after a map change repeats the finish:
      "intro" is finished when the state drops to loading on map "rcboss2",
      and again on the next tick, whose state read fails and whose map read
      finds "rcboss2" once more. */
  lemma FinishedFiresTwice()
    ensures var finished := NewMapEvent(Finished, "intro");
            var s1 := Tick(Initial(), Some(KingpinState.InGame), Some("intro.bsp"));
            var s2 := Tick(s1, Some(KingpinState.MenuOrLoading), Some("rcboss2.bsp"));
            var s3 := Tick(s2, None, Some("rcboss2.bsp"));
            !HasOccured(finished, s1) && HasOccured(finished, s2) && HasOccured(finished, s3)
  {
    assert "intro"[1..] == "ntro";
    assert Normalize("intro") == "intro.bsp";
  }

  /** A failed state read right after "intro" is loaded keeps the
      (MenuOrLoading, InGame) pair, so "intro" counts as loaded again on the
      next tick. */
  lemma LoadedFiresTwice()
    ensures var loaded := NewMapEvent(Loaded, "intro");
            var s1 := Tick(Initial(), Some(KingpinState.MenuOrLoading), None);
            var s2 := Tick(s1, Some(KingpinState.InGame), Some("intro.bsp"));
            var s3 := Tick(s2, None, Some("intro.bsp"));
            !HasOccured(loaded, s1) && HasOccured(loaded, s2) && HasOccured(loaded, s3)
  {
    assert "intro"[1..] == "ntro";
    assert Normalize("intro") == "intro.bsp";
  }

  /** The word a kind's description ends with (KingpinGame.cs:66, 89). */
  function Suffix(kind: EventKind): string
  {
    match kind
    case Loaded => "' was loaded"
    case Finished => "' was finished"
  }

  /** `ToString` of either event (KingpinGame.cs:64-67, 87-90). */
  function ToString(e: MapEvent): (r: string)
    ensures |r| == 5 + |e.mapName| + |Suffix(e.kind)|
    ensures r[..5] == "Map '"
    ensures r[5..5 + |e.mapName|] == e.mapName
    ensures r[5 + |e.mapName|..] == Suffix(e.kind)
  {
    "Map '" + e.mapName + Suffix(e.kind)
  }

  /** The twelfth character from the end of a description tells the kinds apart. */
  lemma KindMarker(e: MapEvent)
    ensures |ToString(e)| >= 17
    ensures ToString(e)[|ToString(e)| - 12] == (if e.kind == Loaded then '\'' else 'w')
  {
  }

  /** Two events with the same description have the same kind and map. */
  lemma ToStringInjective(a: MapEvent, b: MapEvent)
    requires ToString(a) == ToString(b)
    ensures a.kind == b.kind && a.mapName == b.mapName
  {
    KindMarker(a);
    KindMarker(b);
  }
}
