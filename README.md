# go_ibm_db connection pool, modelled in Dafny

This project models the connection pool of the go_ibm_db driver (`pooling.go`).
A `Pool` keeps two tables from a connection string to a FIFO slice of pooled
connections (`*DBP`):
- `availablePool` holds the idle connections.
- `usedPool` holds the checked-out ones.

The pool also keeps a capacity `maxPoolSize` and a counter `curPoolSize`.
The operations are:
- `Pconnect` builds an empty pool.
- `Pool.Open` acquires a connection. Under capacity it reuses the oldest idle connection or opens a fresh tracked one. At capacity it opens an untracked overflow connection.
- `DBP.Close` hands a connection back.
- `DBP.Timeout` is the eviction step that runs after a connection's idle duration.
- `Pool.Release` closes everything and drops both maps.

`Open` also reads a small option grammar (`SetConnMaxLifetime=N`) to resolve the idle duration.

Every operation runs under the pool's mutex, so each one is modelled as a
single atomic method. The code is modelled as written, including its
positional fallbacks and its unconditional counter decrement.

Layout:
- `options.dfy` (module `Options`) covers the option grammar:
  - `strings.Split` on `=`, as `Fields`, with its inverse `Join`;
  - `strconv.Atoi` on plain signed decimals, with its inverse `Itoa`;
  - the resolved idle duration: `LifetimeOf` is the specification and `ResolveLifetime` is the option loop of `Open`.
- `tables.dfy` (module `Tables`) holds the bookkeeping as values:
  - the two tables (`State`) and Go's slice and map primitives (`Append`, `RemoveAt`);
  - the position scan (`LastIndex`, `FindPosition`);
  - the transitions `Reuse`, `Track`, `Return` and `Evict`;
  - the invariant `WellFormed`: no key maps to an empty slice, and no connection identity occurs twice across both tables combined;
  - lemmas that every transition keeps the invariant;
  - lemmas that on a tracked connection the positional removal is removal by identity (`Without`, `Drop`).
- `pooling.dfy` (module `Pooling`) holds the classes `DBP` and `Pool`:
  - their fields are the source's fields;
  - their methods follow the source's branches;
  - each method is proved against the transitions of `Tables` and keeps `Pool.Valid()`.
- `scenarios.dfy` (module `Scenarios`) holds call sequences on a real pool, proved from the method contracts alone.

The model follows the code as written. These behaviours may surprise a caller:
- A reused connection keeps its old idle duration `n`. Only the driver handle's lifetime is reset.
- Options that contain no recognised key give an idle duration of 0, not the 30-second default.
- `Close` decrements the counter even for an overflow connection, so the counter can go below zero (`ZeroCapacityOpenClose`).
- `Close` and `Timeout` remove by position. When the connection is not in the slice, they fall back to the front entry, so closing an overflow connection can move a connection that is still in use to the idle list (`OverflowCloseScenario`). A stale eviction can close a different idle connection (`StaleTimeoutScenario`).
- `Close` closes a connection's handle directly only when `usedPool` has no entry for its connection string. An idle entry for that string in `availablePool` does not prevent the direct close.
- Closing a tracked connection twice closes its handle while it stays in `availablePool[con]`, because the second `Close` no longer finds the key in `usedPool`. The next `Open` for that string hands out the closed handle (`DoubleClose`).

## Model

| member | source | states |
|---|---|---|
| `Pooling.Pool.Pconnect` | pooling.go:30-39 | a new pool has the given capacity, a zero counter, two empty maps and no closed handles, and satisfies the pool invariant |
| `Pooling.Pool.Open` | pooling.go:43-119 | under capacity the counter rises by exactly one, even when the driver open fails and null is returned. If an idle connection exists, its front entry is returned and moved to the end of `usedPool[c]` (`Reuse`), and its `n` is unchanged. Otherwise a fresh connection with `n` equal to the resolved duration is appended to `usedPool[c]`. At capacity the counter and both maps are unchanged, and a fresh overflow connection with `n` 0 is returned that is in neither map. The pool invariant is kept |
| `Pooling.DBP.Close` | pooling.go:122-154 | the counter drops by exactly one. When `usedPool[con]` exists and holds this connection, the connection leaves it with the others in order and the key deleted if the slice empties, and is appended to `availablePool[con]`. When the key exists but the connection is absent, the front entry moves instead. When the key is absent, only this connection's handle is closed. No other key changes and the invariant is kept |
| `Pooling.DBP.Timeout` | pooling.go:157-186 | when `availablePool[con]` holds this connection, exactly it is removed and its handle closed, and the key is deleted if the slice empties. When the key exists but the connection is absent, the front entry is removed and closed. When the key is absent nothing changes. `usedPool` and the counter are never touched |
| `Pooling.Pool.Release` | pooling.go:189-209 | every connection in either map has its handle closed, both maps become nil (empty, `released`) and the counter is unchanged. A second Release closes nothing |
| `Pooling.Pool.CloseAll` | pooling.go:194-206 | the nested range loops, run once over `availablePool` (lines 194-198) and once over `usedPool` (lines 202-206), close exactly the connections of every slice of the map |
| `Options.Fields` | pooling.go:54 | `strings.Split` on `=` yields at least one field, no field contains `=`, and the text without `=` is a single field |
| `Options.JoinFields` | pooling.go:54 | joining the split fields with `=` gives back the option text |
| `Options.FieldsJoin` | pooling.go:54 | splitting fields joined with `=` gives back the fields |
| `Options.Atoi` | pooling.go:56 | `strconv.Atoi` with its error dropped: only an optional `+` or `-` followed by decimal digits gives a non-zero value; a negative value comes only from a leading `-`; plain digits give a non-negative value |
| `Options.AtoiItoa` | pooling.go:56 | `Atoi` reads back the decimal rendering of every integer |
| `Options.AdmissibleIff` | pooling.go:54-56 | the only option that makes the value lookup `opt[1]` panic is the bare key `SetConnMaxLifetime` |
| `Options.LastSettingNone` | pooling.go:53-61 | options without a recognised key leave the duration at its starting value |
| `Options.LastSettingIsLast` | pooling.go:53-61 | the last recognised option decides the duration |
| `Options.LifetimeOf` | pooling.go:47-64 | the resolved duration is 30 s with no options, 0 when options are given but none is recognised, and otherwise the value of the last `SetConnMaxLifetime=N` (0 when N is not numeric) |
| `Options.ResolveLifetime` | pooling.go:47-64 | the option loop computes `LifetimeOf(options)` |
| `Tables.Reuse` | pooling.go:69-85 | the front (oldest) idle entry for c leaves `available[c]`, with the key deleted exactly when it was the only entry, and is appended to `used[c]` (created if missing); every other key of both maps is unchanged |
| `Tables.Track` | pooling.go:87-102 | the fresh connection is appended to `used[c]` (created if missing); `available` and every other key of `used` are unchanged |
| `Tables.Return` | pooling.go:128-149 | the entry moved to the end of `available[c]` is d when d is in `used[c]` and otherwise the front entry of `used[c]` (the scan's fallback to position 0); `used[c]` loses one entry and its key exactly when that was the only entry; every other key of both maps is unchanged |
| `Tables.ReturnMovesOne` | pooling.go:139-144 | whichever entry the scan picks, exactly that one entry leaves `used[c]` and all the others stay |
| `Tables.Evicted` | pooling.go:165-183 | the connection whose handle Timeout closes is an entry of `available[c]`: d when present, otherwise the front entry (the scan's fallback to position 0) |
| `Tables.Evict` | pooling.go:165-183 | `available[c]` loses one entry and its key exactly when that was the only entry; every other key is unchanged |
| `Tables.EvictRemovesOne` | pooling.go:173-177 | whichever entry the scan picks, exactly the closed entry leaves `available[c]` and all the others stay |
| `Tables.LastIndex` | pooling.go:128-138 | the scanned position is the last index holding the connection, or 0 when it is absent |
| `Tables.FindPosition` | pooling.go:133-138 | the scan loop computes `LastIndex` |
| `Tables.ReturnEntry` | pooling.go:131-149 | the slice work of Close computes the `Return` transition |
| `Tables.EvictEntry` | pooling.go:165-183 | the slice work of Timeout computes the `Evict` transition and returns the entry it closes |
| `Tables.ReusePreserves` | pooling.go:69-85 | reuse keeps the invariant (no empty slice, no identity twice across both maps) and the set of tracked connections |
| `Tables.TrackPreserves` | pooling.go:87-102 | appending a connection that is in neither map keeps the invariant and adds exactly that connection |
| `Tables.ReturnPreserves` | pooling.go:131-149 | Close with its key in `usedPool` keeps the invariant and the set of tracked connections |
| `Tables.EvictPreserves` | pooling.go:165-183 | Timeout with its key in `availablePool` keeps the invariant and removes exactly the connection it closes |
| `Tables.ReturnTracked` | pooling.go:131-149 | for a connection present in `usedPool[c]`, the positional move is removal by identity, with the key deleted when the slice empties, followed by an append to `availablePool[c]` |
| `Tables.ReturnUntracked` | pooling.go:128-149 | for a connection absent from `usedPool[c]`, the front entry is moved instead, and no other key changes |
| `Tables.EvictTracked` | pooling.go:165-183 | for a connection present in `availablePool[c]`, exactly that connection is closed and removed, with the others kept in order |
| `Tables.RemoveAtIsWithout` | pooling.go:139-142 | the copy-and-truncate removal at the position of an entry that occurs once equals leaving that entry out |
| `Tables.MembersRemoveAt` | pooling.go:173-176 | removing a position from a table without repeats removes exactly that connection from its members |
| `Tables.MembersAppend` | pooling.go:144 | an append adds exactly the appended connection to the members |
| `Scenarios.ZeroCapacityOpenClose` | pooling.go:105-153 | with capacity 0, an Open followed by a Close leaves the counter at -1 |
| `Scenarios.ReuseScenario` | pooling.go:66-85 | with capacity 2: open c1 and c2, close c1, and open again. The same connection c1 is handed back and the counter is 2 |
| `Scenarios.EvictionScenario` | pooling.go:122-185 | closing both connections and running both eviction steps leaves no idle connection and a counter of 0 |
| `Scenarios.OverflowCloseScenario` | pooling.go:105-153 | closing an overflow connection while a tracked one exists moves the tracked one, still in use, to the idle list |
| `Scenarios.StaleTimeoutScenario` | pooling.go:157-185 | the eviction step of a connection that was reused evicts the front idle connection instead |
| `Scenarios.DoubleClose` | pooling.go:122-154 | capacity 1: open c1 and close it twice. The second Close finds no `usedPool["D"]` and closes c1's handle while c1 stays idle, and the next Open hands back that closed c1 |
| `Scenarios.LifetimeScenario` | pooling.go:47-64 | fresh connections get 30 with no options, 0 with only an unrecognised option, and 5 with `SetConnMaxLifetime=5` |

## Left out

- Concurrency: the `sync.Mutex`, the `go d.Timeout()` goroutine and the `time.After` wait are left out. Each operation is one atomic method. `Close` reports through a ghost result that it would schedule the eviction step, and `Timeout` is a method a caller may invoke at any later point. The model does not capture that `Timeout` holds the lock while it sleeps.
- The driver (`database/sql`) is left out:
  - `sql.Open` is a success flag passed to `Open`;
  - `DB.Close` adds the connection to the pool's ghost `closed` set;
  - `SetConnMaxLifetime` on the handle is not modelled, because it changes no pool state;
  - the embedded `sql.DB` value copy is not modelled.
- Output: `Display` and the "not a valid parameter" message only print.
- Pooling.Pool.Open: calling it after `Release` under capacity with a working driver is a precondition violation, because Go panics when it writes to the nil `usedPool`. The other paths after `Release` are modelled.
- Options.LifetimeOf: `strconv.Atoi` is modelled without its range-error clamping, and durations are unbounded integers of seconds. `time.Duration` nanosecond overflow is not modelled.
- Integer width: `curPoolSize` and `maxPoolSize` are unbounded integers. Go's 64-bit wrap-around is not reachable by any realistic number of calls.
- Slices are modelled as values. Go's backing arrays are not shared between two map entries in this code, so aliasing is not modelled.
