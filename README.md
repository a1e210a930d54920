# Stream monitor keep-alive registry

A Dafny model of the keep-alive registry in `streamMonitor.go` of RTSPtoWeb.
The registry is a table `cameraMap` from camera identifier to `CameraStatus`.
Each status holds an `Active` flag and an `Expiry` instant. Two operations act on it:

- `AddOrUpdateLiveStreamStatus(camID)` is called on every keep-alive.
  A camera not yet in the table is inserted as active, expiring one minute from now, and the call returns `"add"`.
  A camera already in the table gets its expiry moved to one minute from now and keeps its flag, and the call returns `"updated"`.
- `monitorCameraStatus` wakes every ten seconds and sweeps the table.
  Every entry whose expiry is strictly before the current instant has its stream torn down by `StreamDelete(camID)` and is deleted from the table.

The model lives in one module, `StreamMonitor` (`stream_monitor.dfy`):

- `CameraStatus` is a datatype. Time is an integer count of seconds passed in as `now`. `TTL` is the constant 60.
- `Touched` and `Swept` are the pure specifications of one touch and of one sweep pass. `Expired` is the set of keys a sweep removes.
- `Registry` is a class. Its field `cameras` is the global table. Its field `teardowns` logs every `StreamDelete` call in order.
  `AddOrUpdateLiveStreamStatus` updates `cameras` in place.
  `Sweep` is one tick of the monitor. It loops over the keys in an unspecified order, as Go's `range` over a map does. It calls `StreamDelete` and deletes each expired entry as it goes.
- The lemmas prove the properties of these specifications: idempotence of touch and sweep, the strict-after boundary, that the all-active invariant is kept, and the teardown count.

## Model

| member | source | states |
|---|---|---|
| `StreamMonitor.Registry.constructor` | streamMonitor.go:15-18 | the table starts empty and no teardown has been made |
| `StreamMonitor.Touched` | streamMonitor.go:29-44 | after a touch the key set is the old key set plus `camID`; the entry of `camID` expires at `now + TTL`; it is active if it was new and keeps its old flag otherwise; every other entry is unchanged |
| `StreamMonitor.Registry.AddOrUpdateLiveStreamStatus` | streamMonitor.go:20-48 | returns `"add"` or `"updated"`, and `"add"` exactly when `camID` was absent beforehand; the new table is the touched table |
| `StreamMonitor.TouchIdempotent` | streamMonitor.go:29-44 | after a touch `camID` is in the table, so a second touch reports `"updated"`; touching twice at the same instant yields the same table as touching once |
| `StreamMonitor.TouchKeepsAllActive` | streamMonitor.go:29-44 | a touch never clears an `Active` flag: if every entry was active, every entry still is |
| `StreamMonitor.Swept` | streamMonitor.go:58-63 | a sweep keeps a key exactly when its expiry is at or after `now`, never adds a key, and never changes a surviving entry |
| `StreamMonitor.ExpiredRemoved` | streamMonitor.go:60-62 | the keys torn down are exactly the keys the sweep removes from the table |
| `StreamMonitor.PartlySweptStep` | streamMonitor.go:58-63 | visiting one more key during the loop deletes it if its expiry is strictly before `now` and keeps it unchanged otherwise |
| `StreamMonitor.Registry.StreamDelete` | streamMonitor.go:61 | the teardown collaborator appends `camID` to the teardown log and changes nothing else |
| `StreamMonitor.Registry.Sweep` | streamMonitor.go:57-65 | after one tick the table is the swept table; the teardown log grows by a list with no repeats, whose elements are exactly the expired keys, one per removed entry |
| `StreamMonitor.SweepKeepsAllActive` | streamMonitor.go:58-63 | a sweep only removes entries, so if every entry was active, every entry still is |
| `StreamMonitor.SweepIdempotent` | streamMonitor.go:58-63 | after a sweep no entry is expired at that instant, so a second sweep at the same `now` removes nothing and tears nothing down |
| `StreamMonitor.TouchThenSweep` | streamMonitor.go:29-63 | a camera touched at `t` survives a sweep at `now` exactly when `now <= t + TTL`; an entry that expires exactly at `now` is kept |
| `StreamMonitor.SweepCount` | streamMonitor.go:58-63 | the surviving and the removed entries partition the table, so their counts add up to the old size |
| `StreamMonitor.TeardownCount` | streamMonitor.go:60-62 | a teardown log that names each expired key once is as long as the number of entries the sweep removed |

## Left out

- The mutex `cameraMapLock` (streamMonitor.go:17, 25-26, 57, 65). Each operation is modelled as atomic, which is what the lock guarantees.
- The ten-second ticker, the `select` and the stop channel (streamMonitor.go:51-56, 67, 72). `Registry.Sweep` models one tick, and the scheduling around it is not modelled.
- The log message written on stop (streamMonitor.go:68-71). It is output only.
- The body of `StreamDelete`. It is defined outside streamMonitor.go, which is not part of this model. Only the fact that it was called, and with which identifier, is recorded.
- Wall-clock time. `time.Time` is an integer number of seconds given as a parameter, and `1 * time.Minute` is `TTL = 60`. Sub-second precision is not modelled.
- `Registry.Sweep`: uses one `now` for the whole pass. The source calls `time.Now()` again for each entry, so an entry that expires during a long pass may be removed by the source but kept by the model.
