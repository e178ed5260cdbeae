# SensoresElectiva: classifiers and report reconciler

A Dafny model of the logic of the SensoresElectiva Android application: a
proximity classifier and a motion classifier that turn sensor samples into a
displayed state and into events written to a remote real-time database, and a
reports view model that keeps one list of report items in step with the
`added`, `changed` and `removed` notifications of the two remote paths
"proximidad" and "movimiento".

Modules:

- `Models` (models.dfy): `ReportItem`, `ProximityEvent`, `MotionEvent`; `MotionEvent` is taken to have exactly the two String fields `tipo` and `fecha`.
- `Wrappers` (wrappers.dfy): `Option`, for Kotlin's nullable values and `?:`.
- `StringOrder` (string_order.dfy): Kotlin's `String.compareTo`, the order `sortedByDescending { it.fecha }` uses, proved a total order.
- `Fecha` (fecha.dfy): the "yyyy-MM-dd HH:mm:ss" dates the classifiers write, with the proof that their string order is the order of the wall-clock fields they print, and that a list of such dates is most recent first exactly when those wall-clock times never increase.
The remaining modules follow the source's view models:

- `ReportList` (report_list.dfy): `addReport`, `updateReport` and `removeReport` as pure functions over sequences. The sort is a stable insertion sort. `SortUnique` proves that every sorted, stable rearrangement of a list is this one, so the JVM's stable sort gives the same list.
- `ReportsViewModel` (reports_view_model.dfy): the class holding `_reportes` as a `seq` field, the three helpers that overwrite it, and the six listener callbacks that decode a snapshot and dispatch.
- `Motion` (motion.dfy): `MotionViewModel.onSensorChanged`. The function `Step` specifies one sample. Lemmas cover the three bands and runs of many samples. The class updates the fields in place.
- `Proximity` (proximity.dfy): `ProximityViewModel.onSensorChanged`, with the same layout.

Three behaviours of the code worth knowing:

- A strong shake inside the 500 ms window changes nothing, not even the displayed state (`StepIgnoresBouncedShake`).
- The window is strict (`now - lastShakeTime > 500`), so shakes exactly 500 ms apart count once (`TwoShakes`).
- `addReport` does not deduplicate keys. Only the conditional statements hold (`AddedKeepsKeysUnique`, `UpdatedKeepsKeysUnique`, `RemoveKeepsKeysUnique`).

## Model

| member | source | states |
|---|---|---|
| StringOrder.CompareTo | app/src/main/java/com/example/tallerevaluativoelectiva/viewmodels/ReportsViewModel.kt:95 | Kotlin's `String.compareTo`: a string compares as equal to itself, and a proper prefix compares below the longer string by the difference of the lengths |
| StringOrder.CompareToZero | app/src/main/java/com/example/tallerevaluativoelectiva/viewmodels/ReportsViewModel.kt:95 | two fechas compare as equal exactly when they are the same string |
| StringOrder.CompareToFlip | app/src/main/java/com/example/tallerevaluativoelectiva/viewmodels/ReportsViewModel.kt:95 | swapping the operands of `compareTo` flips the sign, so the descending comparator is the mirror of the ascending one |
| StringOrder.CompareToTransitive | app/src/main/java/com/example/tallerevaluativoelectiva/viewmodels/ReportsViewModel.kt:95 | "not after" is transitive; with the two lemmas above, `compareTo` is a total order, so sorting by fecha is well defined |
| Fecha.Digits | app/src/main/java/com/example/tallerevaluativoelectiva/viewmodels/MotionViewModel.kt:97 | a zero-padded field of the date pattern has exactly its width |
| Fecha.DigitsOrder | app/src/main/java/com/example/tallerevaluativoelectiva/viewmodels/MotionViewModel.kt:97 | zero-padded numbers of one width are equal iff the numbers are, and compare as strings as the numbers do |
| Fecha.Format | app/src/main/java/com/example/tallerevaluativoelectiva/viewmodels/MotionViewModel.kt:97 | a formatted fecha is always 19 characters long |
| Fecha.FormatOrder | app/src/main/java/com/example/tallerevaluativoelectiva/viewmodels/ViewModel.kt:48 | for two "yyyy-MM-dd HH:mm:ss" fechas, string order is the order of the printed wall-clock fields (first iff earlier, equal iff the same fields) |
| Fecha.NotAfterChronological | app/src/main/java/com/example/tallerevaluativoelectiva/viewmodels/ReportsViewModel.kt:95 | two items dated by formatted wall-clock times stand in descending order exactly when the first time is not earlier than the second |
| Fecha.SortedIsChronological | app/src/main/java/com/example/tallerevaluativoelectiva/viewmodels/ReportsViewModel.kt:94-110 | when every fecha is the formatted wall-clock time of its event, the reports list is most recent first exactly when those times never increase along it |
| ReportList.NotAfter | app/src/main/java/com/example/tallerevaluativoelectiva/viewmodels/ReportsViewModel.kt:95 | the comparator of `sortedByDescending { it.fecha }` lets items with equal fechas stand either way round (they are tied) |
| ReportList.NotAfterMirror | app/src/main/java/com/example/tallerevaluativoelectiva/viewmodels/ReportsViewModel.kt:95 | x may stand before y under the descending comparator exactly when x's fecha compares at or above y's in ascending `compareTo` |
| ReportList.Insert | app/src/main/java/com/example/tallerevaluativoelectiva/viewmodels/ReportsViewModel.kt:95 | one insertion step of the sort adds exactly the item to the multiset of the list |
| ReportList.SortByFechaDesc | app/src/main/java/com/example/tallerevaluativoelectiva/viewmodels/ReportsViewModel.kt:95 | `sortedByDescending` returns a permutation of its input (same multiset, same length) |
| ReportList.SortSorted | app/src/main/java/com/example/tallerevaluativoelectiva/viewmodels/ReportsViewModel.kt:95 | the sorted list is most recent first under `compareTo` |
| ReportList.SortStable | app/src/main/java/com/example/tallerevaluativoelectiva/viewmodels/ReportsViewModel.kt:95 | the sort is stable: items with equal fecha keep their relative order |
| ReportList.SortUnique | app/src/main/java/com/example/tallerevaluativoelectiva/viewmodels/ReportsViewModel.kt:95 | any list that is sorted and a stable rearrangement of the input equals the modelled sort, whatever stable algorithm computed it |
| ReportList.SortOfSorted | app/src/main/java/com/example/tallerevaluativoelectiva/viewmodels/ReportsViewModel.kt:103 | re-sorting a list that is already most recent first leaves it unchanged |
| ReportList.Added | app/src/main/java/com/example/tallerevaluativoelectiva/viewmodels/ReportsViewModel.kt:94-97 | `addReport` grows the list by exactly the new item: length plus one, multiset plus the item |
| ReportList.AddedSortedStable | app/src/main/java/com/example/tallerevaluativoelectiva/viewmodels/ReportsViewModel.kt:94-97 | after `addReport` the list is sorted, and ties keep arrival order with the new item after older equal-fecha items |
| ReportList.InsertionIndex | app/src/main/java/com/example/tallerevaluativoelectiva/viewmodels/ReportsViewModel.kt:95 | the insertion index is the first position whose item is strictly older than the new item |
| ReportList.AddedToSorted | app/src/main/java/com/example/tallerevaluativoelectiva/viewmodels/ReportsViewModel.kt:94-97 | on a sorted list, `addReport` inserts the item after every item at least as recent and leaves all other items in place |
| ReportList.AddedCommutes | app/src/main/java/com/example/tallerevaluativoelectiva/viewmodels/ReportsViewModel.kt:94-97 | two items with different fechas give the same list whichever stream delivers first |
| ReportList.AddedKeepsKeysUnique | app/src/main/java/com/example/tallerevaluativoelectiva/viewmodels/ReportsViewModel.kt:94-97 | if the keys were unique and the new key is absent, the keys stay unique |
| ReportList.RemoveByKey | app/src/main/java/com/example/tallerevaluativoelectiva/viewmodels/ReportsViewModel.kt:108-110 | `removeReport` keeps exactly the items whose key differs and never lengthens the list |
| ReportList.RemoveAbsent | app/src/main/java/com/example/tallerevaluativoelectiva/viewmodels/ReportsViewModel.kt:108-110 | removing a key that is not there leaves the list exactly unchanged |
| ReportList.RemoveIdempotent | app/src/main/java/com/example/tallerevaluativoelectiva/viewmodels/ReportsViewModel.kt:108-110 | removing the same key twice is the same as removing it once |
| ReportList.RemoveConcat | app/src/main/java/com/example/tallerevaluativoelectiva/viewmodels/ReportsViewModel.kt:108-110 | removal works item by item over concatenation, so the kept items keep their relative order |
| ReportList.RemoveMultiset | app/src/main/java/com/example/tallerevaluativoelectiva/viewmodels/ReportsViewModel.kt:108-110 | removal drops every copy of each item keyed `k` and keeps every copy of every other item |
| ReportList.RemoveSorted | app/src/main/java/com/example/tallerevaluativoelectiva/viewmodels/ReportsViewModel.kt:108-110 | `removeReport` does not re-sort, yet a most-recent-first list stays most recent first |
| ReportList.RemoveKeepsKeysUnique | app/src/main/java/com/example/tallerevaluativoelectiva/viewmodels/ReportsViewModel.kt:108-110 | removal keeps unique keys unique |
| ReportList.ReplaceByKey | app/src/main/java/com/example/tallerevaluativoelectiva/viewmodels/ReportsViewModel.kt:102 | the `map` step of `updateReport`: same length, each item keyed k becomes n and every other item stays in its place, n appears if the key did, and with the key absent the list is unchanged |
| ReportList.Updated | app/src/main/java/com/example/tallerevaluativoelectiva/viewmodels/ReportsViewModel.kt:100-105 | `updateReport` preserves the length of the list |
| ReportList.UpdatedSortedStable | app/src/main/java/com/example/tallerevaluativoelectiva/viewmodels/ReportsViewModel.kt:100-105 | after `updateReport` the list is sorted, and it is a stable permutation of the list with the replacements made |
| ReportList.UpdatedAbsentKey | app/src/main/java/com/example/tallerevaluativoelectiva/viewmodels/ReportsViewModel.kt:100-105 | with the key absent, `updateReport` inserts nothing: same multiset, and an already sorted list is unchanged |
| ReportList.UpdatedReplaces | app/src/main/java/com/example/tallerevaluativoelectiva/viewmodels/ReportsViewModel.kt:100-105 | when the new item carries the key: every item with the key becomes it, it is present iff the key was, and items with other keys are unchanged as a multiset |
| ReportList.UpdatedKeyedIsNew | app/src/main/java/com/example/tallerevaluativoelectiva/viewmodels/ReportsViewModel.kt:100-105 | with n keyed k, after `updateReport` the only item keyed k is n |
| ReportList.UpdatedHasNew | app/src/main/java/com/example/tallerevaluativoelectiva/viewmodels/ReportsViewModel.kt:100-105 | with n keyed k, n is in the list after `updateReport` exactly when the key was there before |
| ReportList.UpdatedKeepsKeysUnique | app/src/main/java/com/example/tallerevaluativoelectiva/viewmodels/ReportsViewModel.kt:100-105 | with the new item carrying the key, unique keys stay unique |
| ReportList.UpdateAfterAddIsNoop | app/src/main/java/com/example/tallerevaluativoelectiva/viewmodels/ReportsViewModel.kt:94-105 | a "changed" notification with the same payload right after the "added" of a new key leaves the list unchanged |
| ReportsViewModel.ProximityItem | app/src/main/java/com/example/tallerevaluativoelectiva/viewmodels/ReportsViewModel.kt:37 | the item for a proximity event keeps its estado and fecha, carries the key, and has kind "Proximidad", never "Movimiento" (also built at line 45) |
| ReportsViewModel.MotionItem | app/src/main/java/com/example/tallerevaluativoelectiva/viewmodels/ReportsViewModel.kt:64 | the item for a motion event has the event's tipo as estado, keeps its fecha, carries the key, and has kind "Movimiento", never "Proximidad" (also built at line 71) |
| Wrappers.Option.GetOr | app/src/main/java/com/example/tallerevaluativoelectiva/viewmodels/ReportsViewModel.kt:35 | the elvis operator `?:`: the value when present, the default otherwise (also at lines 63 and ViewModel.kt:39) |
| ReportsViewModel.ReportsViewModel.constructor | app/src/main/java/com/example/tallerevaluativoelectiva/viewmodels/ReportsViewModel.kt:26 | the list starts empty (and sorted) |
| ReportsViewModel.ReportsViewModel.AddReport | app/src/main/java/com/example/tallerevaluativoelectiva/viewmodels/ReportsViewModel.kt:94-97 | the field becomes `Added` of its old value; the list stays sorted |
| ReportsViewModel.ReportsViewModel.UpdateReport | app/src/main/java/com/example/tallerevaluativoelectiva/viewmodels/ReportsViewModel.kt:100-105 | the field becomes `Updated` of its old value; the list stays sorted |
| ReportsViewModel.ReportsViewModel.RemoveReport | app/src/main/java/com/example/tallerevaluativoelectiva/viewmodels/ReportsViewModel.kt:108-110 | the field becomes `RemoveByKey` of its old value; the list stays sorted |
| ReportsViewModel.ReportsViewModel.OnProximityChildAdded | app/src/main/java/com/example/tallerevaluativoelectiva/viewmodels/ReportsViewModel.kt:31-39 | an undecodable value changes nothing; otherwise a "Proximidad" item with the event's estado and fecha is added under the snapshot key, or under the fresh random key when there is none |
| ReportsViewModel.ReportsViewModel.OnProximityChildChanged | app/src/main/java/com/example/tallerevaluativoelectiva/viewmodels/ReportsViewModel.kt:41-47 | without a decodable value or without a key nothing changes; otherwise the keyed item is replaced by the "Proximidad" item |
| ReportsViewModel.ReportsViewModel.OnProximityChildRemoved | app/src/main/java/com/example/tallerevaluativoelectiva/viewmodels/ReportsViewModel.kt:49-53 | without a key nothing changes; otherwise the key is removed whatever the value |
| ReportsViewModel.ReportsViewModel.OnMotionChildAdded | app/src/main/java/com/example/tallerevaluativoelectiva/viewmodels/ReportsViewModel.kt:61-66 | as for proximity, with a "Movimiento" item whose estado is the event's tipo |
| ReportsViewModel.ReportsViewModel.OnMotionChildChanged | app/src/main/java/com/example/tallerevaluativoelectiva/viewmodels/ReportsViewModel.kt:68-73 | as for proximity, with the "Movimiento" item |
| ReportsViewModel.ReportsViewModel.OnMotionChildRemoved | app/src/main/java/com/example/tallerevaluativoelectiva/viewmodels/ReportsViewModel.kt:75-78 | without a key nothing changes; otherwise the key is removed |
| Motion.Initial | app/src/main/java/com/example/tallerevaluativoelectiva/viewmodels/MotionViewModel.kt:30-41 | the initial fields: counter 0, "Inactivo", nothing written, and the counter invariant holds |
| Motion.Step | app/src/main/java/com/example/tallerevaluativoelectiva/viewmodels/MotionViewModel.kt:55-75 | one sample never lowers the counter and raises it by at most one; it writes at most one event and keeps earlier writes; it keeps the counter equal to the number of "sacudida" events |
| Motion.StepCountsShake | app/src/main/java/com/example/tallerevaluativoelectiva/viewmodels/MotionViewModel.kt:57-64 | g > 2.7f outside the window: counter +1, lastShakeTime = now, state "Sacudida detectada", exactly one "sacudida" event |
| Motion.StepIgnoresBouncedShake | app/src/main/java/com/example/tallerevaluativoelectiva/viewmodels/MotionViewModel.kt:59 | g > 2.7f with now - lastShakeTime <= 500 (500 included): nothing changes, not even the displayed state, and nothing is written |
| Motion.StepLightMotion | app/src/main/java/com/example/tallerevaluativoelectiva/viewmodels/MotionViewModel.kt:67-70 | 1.2f < g <= 2.7f: state "Movimiento leve", one "leve" event, counter and lastShakeTime unchanged |
| Motion.StepRest | app/src/main/java/com/example/tallerevaluativoelectiva/viewmodels/MotionViewModel.kt:72-74 | g <= 1.2f: state "En reposo", nothing written, counter and lastShakeTime unchanged |
| Motion.RunConsistent | app/src/main/java/com/example/tallerevaluativoelectiva/viewmodels/MotionViewModel.kt:57-74 | over any run of samples the counter stays equal to the number of "sacudida" events written |
| Motion.RunCounterBounds | app/src/main/java/com/example/tallerevaluativoelectiva/viewmodels/MotionViewModel.kt:59-63 | over any run the counter never decreases, grows by at most one per sample, and earlier writes are never lost |
| Motion.CounterMatchesWrites | app/src/main/java/com/example/tallerevaluativoelectiva/viewmodels/MotionViewModel.kt:30-41 | from the initial state (counter 0, "Inactivo", lastShakeTime 0) the counter always equals the number of "sacudida" events |
| Motion.TwoShakes | app/src/main/java/com/example/tallerevaluativoelectiva/viewmodels/MotionViewModel.kt:59-61 | two strong shakes d ms apart count twice iff d > 500, once when d <= 500 |
| Motion.MotionViewModel.constructor | app/src/main/java/com/example/tallerevaluativoelectiva/viewmodels/MotionViewModel.kt:30-41 | initial counter 0, state "Inactivo", lastShakeTime 0, nothing written |
| Motion.MotionViewModel.GuardarEvento | app/src/main/java/com/example/tallerevaluativoelectiva/viewmodels/MotionViewModel.kt:96-104 | one event with the given tipo and fecha is appended to the writes |
| Motion.MotionViewModel.OnSensorChanged | app/src/main/java/com/example/tallerevaluativoelectiva/viewmodels/MotionViewModel.kt:45-76 | the fields after the sample are `Step` of the fields before; the counter invariant is kept |
| Proximity.Initial | app/src/main/java/com/example/tallerevaluativoelectiva/viewmodels/ViewModel.kt:29 | the initial state "Desconocido" with nothing written satisfies the last-write invariant |
| Proximity.Step | app/src/main/java/com/example/tallerevaluativoelectiva/viewmodels/ViewModel.kt:37-54 | one sample appends exactly one event carrying the sample's fecha, keeps earlier writes, and leaves the state near or far and equal to that event's estado |
| Proximity.Classify | app/src/main/java/com/example/tallerevaluativoelectiva/viewmodels/ViewModel.kt:39-42 | the state is "Objeto detectado cerca" iff distance < range (0 without a sensor), else "Sin objetos cerca" |
| Proximity.AtRangeIsFar | app/src/main/java/com/example/tallerevaluativoelectiva/viewmodels/ViewModel.kt:39 | a distance equal to the range is "Sin objetos cerca" |
| Proximity.NoSensorIsFar | app/src/main/java/com/example/tallerevaluativoelectiva/viewmodels/ViewModel.kt:39 | without a sensor, every non-negative distance is "Sin objetos cerca" |
| Proximity.RunWritesEverySample | app/src/main/java/com/example/tallerevaluativoelectiva/viewmodels/ViewModel.kt:45-54 | every sample writes exactly one event, carrying its own classification and fecha, with no deduplication of repeated states |
| Proximity.RunShowsLastWrite | app/src/main/java/com/example/tallerevaluativoelectiva/viewmodels/ViewModel.kt:29-45 | before any sample the state is "Desconocido" with nothing written; afterwards it is near or far and equals the estado of the last event written |
| Proximity.ProximityViewModel.constructor | app/src/main/java/com/example/tallerevaluativoelectiva/viewmodels/ViewModel.kt:29 | the state starts as "Desconocido" with nothing written |
| Proximity.ProximityViewModel.OnSensorChanged | app/src/main/java/com/example/tallerevaluativoelectiva/viewmodels/ViewModel.kt:37-55 | the fields after the sample are `Step` of the fields before; the displayed state stays that of the last write |

## Left out

- `MotionEvent` is taken to have exactly two String fields, `tipo` and `fecha`, as it is built at MotionViewModel.kt:98 and read at ReportsViewModel.kt:64.
- The g-force computation: division by `GRAVITY_EARTH` and `sqrt` over Floats. `gForce` is a `real` input. The thresholds are the exact values of the Floats `2.7f` and `1.2f`, so a real input compares the way a Float would.
- The distance and the sensor's maximum range are `real` inputs; Float rounding is not modelled.
- Clocks and formatting: `System.currentTimeMillis` becomes the `now` parameter and the formatted `Date()` becomes the `fecha` parameter. `Fecha.Format` models the pattern only for years below 10000 and ASCII digits. Locales with other digit shapes are not modelled.
- Time zones, daylight saving and resolution: `SimpleDateFormat` prints local wall-clock time in the writer's default zone, to the second. `Fecha.FormatOrder` and `Fecha.SortedIsChronological` order wall-clock fields only. The model does not promise that the list is most recent first in real time. It can fail to be during a daylight-saving fall-back hour, when writers sit in different zones, or when two events fall in the same second (they are then tied and keep arrival order).
- UUID generation: the fresh key of an "added" notification without a key is a parameter (`randomKey`).
- The remote database: `push().setValue` runs in a coroutine and nobody waits for it. It is modelled as an immediate append to the `written` log of each classifier. Write failures and completion order are not modelled.
- Listener registration (`addChildEventListener`, `removeEventListener` in `onCleared`) and sensor registration (`startListening`, `stopListening`) are platform calls. A notification or a sample is modelled as a call of the handler method.
- `onChildMoved`, `onCancelled` and `onAccuracyChanged` do nothing in the source.
- `StateFlow` observation and coroutines: the flows are plain fields, and concurrent delivery is not modelled.
- The sort algorithm: the JVM sorts with a merge sort, modelled by a stable insertion sort. `SortUnique` shows that both give the same list.
- `String.compareTo` compares UTF-16 code units, while Dafny's `char` is a Unicode scalar value. The two orders differ only for characters outside the Basic Multilingual Plane, which the ASCII fechas never contain.
- The shake counter is a 32-bit `Int` and the times are `Long`. Both are unbounded here, so overflow after 2^31 shakes is not modelled.
- The Compose UI (MainActivity.kt) only renders the list. Its assumption that keys are unique is stated only as the conditional lemmas above.
