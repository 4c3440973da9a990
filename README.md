# Kingpin autosplitter: game-state tracker and split events

This project models the game-specific core of the Kingpin autosplitter plugin
for a speedrun timer, `KingpinGame.cs`:

- the **game-state tracker** (`GameInfo.UpdateInfo` / `GameInfo.UpdateMap`),
  which the host calls once per tick and which keeps six properties: the
  previous and current game-state code, the previous and current map name,
  the `MapChanged` flag and the `InGame` flag;
- the **map events** `LoadedMapEvent` and `FinishedMapEvent`, each bound to
  one map whose name is normalised to end in `.bsp` when the event is
  constructed, with their `HasOccured` guards and their `ToString` texts.

Layout:

- `Wrappers.dfy`: `Option`, used both for a memory read that may fail and for
  a map property that is still unset (`null` in the source).
- `GameInfo.dfy`: module `KingpinState` (the state codes: `MenuOrLoading` = 3,
  `InGame` = 4, default 0; the tracker casts any `int` it reads, so states are
  `int`), and module `ComponentAutosplitter`: the `GameSnapshot` value of the
  six properties, the pure specification functions `UpdateMapStep` and `Tick`,
  the class `GameInfo` whose methods `UpdateMap` and `UpdateInfo` update its
  fields in place and are proved to equal those functions, the invariant
  `Consistent` that every reachable snapshot satisfies, and `Run`, the tracker
  driven through a sequence of ticks.
- `KingpinGame.dfy`: module `Kingpin`: `Normalize`, the `MapEvent` datatype
  and its constructor function `NewMapEvent`, the guards `LoadedHasOccured`,
  `FinishedHasOccured` and `HasOccured`, `ToString`, and the lemmas about them.

The two memory reads of a tick are parameters of `Tick` / `UpdateInfo`:
`gameStateRead: Option<int>` and `mapRead: Option<string>` (`None` = the read
failed). The map read is only consulted when the tracker re-reads the map,
that is when the state pair differs after the state read.

Two behaviours of the tracker are worth knowing when reading the events:

- `MapChanged` is not a one-tick edge: a failed state read keeps the last
  state pair, and if that pair differs, `UpdateMap` runs again, finds the
  same map and leaves `MapChanged` raised (`MapChangedCanPersist`), so a
  finish can be reported on two consecutive ticks (`FinishedFiresTwice`).
- The map is re-read only on ticks whose state pair differs after the state
  read (a new state code, or a failed read that keeps a differing pair), so a
  map change during a run of equal InGame reads is seen only at the next such
  tick (`IntroSession`).
- For the same reason a failed state read right after a load keeps the
  loaded guard true for a second tick (`LoadedFiresTwice`).

## Model

| member | source | states |
|---|---|---|
| `Kingpin.Normalize` | KingpinGame.cs:33-40 | the stored name ends in `.bsp` and starts with the given name; it equals the given name iff that already ends in `.bsp`, otherwise exactly the four characters of the extension are added |
| `Kingpin.NormalizeIdempotent` | KingpinGame.cs:33-40 | normalising a normalised name changes nothing |
| `Kingpin.ExtensionIsOptional` | KingpinGame.cs:33-40 | for a name without the extension, normalising `name + ".bsp"` gives the same map as normalising `name` |
| `Kingpin.NewMapEvent` | KingpinGame.cs:31-43 | a constructed event stores a map ending in `.bsp` that starts with the given name, is the given name iff it already ends in `.bsp` and otherwise is the name with exactly the four characters of the extension added, and its attribute values are exactly the one-element list of that map |
| `Kingpin.SameEventWithOrWithoutExtension` | KingpinGame.cs:31-43 | events built from `x` and from `x.bsp` are equal, hence fire on exactly the same snapshots |
| `Kingpin.LoadedHasOccured` | KingpinGame.cs:58-62 | `LoadedMapEvent.HasOccured`: the previous state code is not InGame, `InGame` is set and the current map is the target |
| `Kingpin.FinishedHasOccured` | KingpinGame.cs:82-85 | `FinishedMapEvent.HasOccured`: `MapChanged` is set, the current map is not the target and the previous map is the target |
| `Kingpin.HasOccured` | KingpinGame.cs:58-85 | an event's guard, chosen by its kind |
| `Kingpin.LoadedAndFinishedExclusive` | KingpinGame.cs:58-85 | for one target map the loaded and finished guards never hold on the same snapshot (one needs current map = target, the other current map ≠ target); the finished guard never holds when `MapChanged` is false |
| `Kingpin.LoadedOnReachable` | KingpinGame.cs:58-62 | on every snapshot reachable from the start, the loaded guard holds iff the previous state is not InGame, the current state is InGame and the current map is the target |
| `Kingpin.FinishedOnReachable` | KingpinGame.cs:82-85 | on every reachable snapshot, the finished guard holds iff `MapChanged` is raised and the previous map is the target (the "current map ≠ target" conjunct is then implied) |
| `Kingpin.IntroSession` | KingpinGame.cs:114-144 | in the session menu/"" → InGame/"intro.bsp" → InGame/"rcboss2.bsp" → loading/"rcboss2.bsp", "intro" is loaded on tick 2 only and finished on tick 4 only; the current map after tick 3 is still "intro.bsp" |
| `Kingpin.FinishedFiresTwice` | KingpinGame.cs:82-144 | after the session InGame/"intro.bsp" → loading/"rcboss2.bsp", a tick whose state read fails and whose map read finds "rcboss2.bsp" again reports "intro" finished a second time |
| `Kingpin.LoadedFiresTwice` | KingpinGame.cs:58-144 | after the session loading/no map → InGame/"intro.bsp", a tick whose state read fails keeps the (MenuOrLoading, InGame) pair and reports "intro" loaded a second time |
| `Kingpin.ToString` | KingpinGame.cs:64-90 | the text is `Map '`, then the event's map, then `' was loaded` or `' was finished` by kind, with the lengths that make each part recoverable |
| `Kingpin.ToStringInjective` | KingpinGame.cs:64-90 | two events with the same text have the same kind and the same map |
| `ComponentAutosplitter.Initial` | KingpinGame.cs:105-109 | the tracker before the first tick: state codes 0, both maps unset, both flags false |
| `ComponentAutosplitter.UpdateMapStep` | KingpinGame.cs:134-144 | only the three map properties change; after a successful read the current map is the name read; the map changes iff the read succeeded with a name different from the current map, and then the old current map becomes the previous map and `MapChanged` is raised; otherwise nothing changes; `MapChanged` is never cleared |
| `ComponentAutosplitter.Tick` | KingpinGame.cs:114-132 | a failed state read keeps both state codes, a read of v makes previous := old current and current := v; if the pair is then equal, `MapChanged` is false and maps and `InGame` are unchanged; otherwise `InGame` = (current state is InGame), after a successful map read the current map is the name read, and the map changes iff that name differs from the old current map, in which case the old current map becomes the previous map and `MapChanged` is raised; otherwise maps and `MapChanged` keep their values |
| `ComponentAutosplitter.Run` | KingpinGame.cs:114-132 | the host calling `UpdateInfo` once per tick: the snapshot after a sequence of ticks, oldest first |
| `ComponentAutosplitter.RunAppend` | KingpinGame.cs:114-132 | running two tick sequences one after the other equals running their concatenation |
| `ComponentAutosplitter.GameInfo.constructor` | KingpinGame.cs:105-109 | a new tracker holds state codes 0, unset maps and both flags false, which is consistent |
| `ComponentAutosplitter.GameInfo.UpdateMap` | KingpinGame.cs:134-144 | updating the fields in place yields exactly `UpdateMapStep` of the old properties and keeps the invariant `Consistent` |
| `ComponentAutosplitter.GameInfo.UpdateInfo` | KingpinGame.cs:114-132 | updating the fields in place (calling `UpdateMap`) yields exactly `Tick` of the old properties and keeps the invariant `Consistent` |
| `ComponentAutosplitter.InitialIsConsistent` | KingpinGame.cs:105-109 | the default properties satisfy the tracker invariant |
| `ComponentAutosplitter.UpdateMapKeepsConsistent` | KingpinGame.cs:134-144 | `UpdateMap` preserves the invariant: `InGame` agrees with the current state code, `MapChanged` only with a known map, a known current map differs from the previous one |
| `ComponentAutosplitter.TickKeepsConsistent` | KingpinGame.cs:114-144 | one tick preserves the invariant |
| `ComponentAutosplitter.RunKeepsConsistent` | KingpinGame.cs:114-144 | any sequence of ticks preserves the invariant |
| `ComponentAutosplitter.ReachableIsConsistent` | KingpinGame.cs:105-144 | every snapshot reachable from the defaults satisfies the invariant |
| `ComponentAutosplitter.MapsStayDistinct` | KingpinGame.cs:134-144 | once a map has been read, every later snapshot has a known current map different from the previous map |
| `ComponentAutosplitter.MapsStayDistinctAfterRead` | KingpinGame.cs:105-144 | in a session from the defaults, once a map has been read, every later snapshot has a known current map that differs from the previous map |
| `ComponentAutosplitter.MapChangedCanPersist` | KingpinGame.cs:117-131 | from every consistent snapshot with a differing state pair and `MapChanged` raised, a tick whose state read fails and whose map read finds the same map (or fails) changes nothing, so `MapChanged` stays raised |
| `ComponentAutosplitter.PersistingSnapshotIsReachable` | KingpinGame.cs:114-144 | reading MenuOrLoading without a map and then InGame on any map reaches a consistent snapshot with a differing pair and `MapChanged` raised |

## Left out

- `Factory.cs`: host integration metadata (component name, description, update URLs, assembly version, construction of the host component); no logic.
- The memory reads (`gameProcess.ReadValue`, `gameProcess.ReadString`), the base address and the fixed offsets `0x90A705` / `0xE7A180`: the reads are host library calls and become `Option` parameters; the offsets are build-specific constants.
- The 16-character capacity of the map-name buffer: the read primitive that honours it is host code, so any string can be read.
- The `KingpinGame` metadata (`Name`, `ProcessNames`, `GameTimeExists`, `LoadRemovalExists`), the event `Description` strings and the base classes `Game`, `MapEvent` and `CustomSettingBool`: host framework, not shown.
- The parameterless event constructors: they defer to the `MapEvent` base class, which is not part of this model.
- `Kingpin.Normalize`: a `null` name (a `NullReferenceException` in the source) is not modelled, and `EndsWith` is an ordinal suffix test, whereas the source's `string.EndsWith` is culture-sensitive; the two agree on the ASCII extension `.bsp` for ordinary map names.
- `InGame` is declared in the host's half of the partial `GameInfo` class; the model assumes it starts false and is written only by `UpdateInfo`.
- The host's timer loop is modelled only as `Run`, a sequence of ticks; concurrency with the game process (reads within one tick are not atomic) is not modelled.
