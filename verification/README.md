# OpenPilot system alarms, modelled in Dafny

The flight firmware keeps a table of system alarms in `flight/Libraries/alarms.c`.
Each alarm id `0..N-1` has a severity. Each "extended" id `0..K-1` also has two
diagnostic bytes, a status and a substatus. Any module can set, clear or reset an
alarm. A supervisor asks whether any alarm is at warning, error or critical level.
Every writing operation follows the same steps. It fetches a snapshot of the table
from the object store, changes one slot, and publishes the snapshot back only when
the severity actually changed.

The project has two modules:

- `AlarmData` (`alarm_data.dfy`) treats the snapshot (`SystemAlarmsData`) as a
  value, `Table`. It has one specification function per operation: `Get`, `Set`,
  `ExtendedSet` and `Clear`. It has fold functions `DefaultUpTo` and `ClearUpTo`,
  which give the state after the first `n` rounds of the two `*All` loops, and the
  threshold predicate `AnyAtLeast`. The lemmas state the closed-form effect of the
  loops and how the severity queries relate to each other. The build-time
  congruence check in `flight/Libraries/inc/sanitycheck.h:40-43` is
  `Table.Congruent()`: there are as many status bytes as substatus bytes, and no
  more of them than alarms.
- `Alarms` (`alarm_store.dfy`) holds the class `AlarmStore`. Its three arrays play
  the role of the object store. `publishCount` counts the calls to
  `SystemAlarmsSet`. Its methods carry the names of the C functions. Each method is
  proved against the `AlarmData` function of the same operation: it returns the
  same code and leaves the store holding the same table. The publish counter goes
  up exactly when that function says the operation published. `Valid()` is the
  congruence invariant. It is what makes every extended id a valid alarm id in
  `ExtendedAlarmsSet` and `AlarmsClear`.

The code's behaviour that a reader might not expect:

- Clearing an extended alarm does not always zero its diagnostic bytes. `AlarmsClear`
  goes through `ExtendedAlarmsSet`, and that call does nothing when the severity is
  already OK. `ClearKeepsDiagnosticsWhenAlreadyOk` shows such a case.
- There is one default severity for all alarms (`SYSTEMALARMS_ALARM_DEFAULT`), not
  one per alarm. It is the constructor argument `dflt`.
- `AlarmsGet` takes no lock.
- `hasSeverity` and its three wrappers return the integers 1 and 0, not booleans.

## Model

| member | source | states |
|---|---|---|
| `AlarmData.Get` | flight/Libraries/alarms.c:131-143 | a valid id reads its stored severity; an id at or beyond N reads 0 (UNINITIALISED) |
| `AlarmData.UnknownIdIsLowest` | flight/Libraries/alarms.c:136-138 | the value read for an unknown id is no greater than any severity |
| `AlarmData.Set` | flight/Libraries/alarms.c:63-88 | -1 iff id >= N or the lock was not taken, and then nothing changes; on success the slot reads back the new severity; it publishes iff the severity differs; other slots and all diagnostic bytes are unchanged; shape kept |
| `AlarmData.ExtendedSet` | flight/Libraries/alarms.c:98-124 | -1 iff id >= K or the lock was not taken; it publishes iff the severity differs, and then severity, status and substatus of the slot are written together; otherwise the table is unchanged even when the diagnostic arguments differ; nothing else changes |
| `AlarmData.Clear` | flight/Libraries/alarms.c:171-178 | returns 0 or -1; -1 iff id >= N or the lock was not taken (the extended branch never sees an invalid id, because K <= N); a valid id with the lock taken returns 0 and the slot reads OK; it publishes iff the slot was not OK; the diagnostic bytes of an extended id are zeroed exactly when it published |
| `AlarmData.DefaultUpTo` | flight/Libraries/alarms.c:158-164 | the rounds of the default loop keep the table's shape and publish at most once per round |
| `AlarmData.ClearUpTo` | flight/Libraries/alarms.c:183-189 | the rounds of the clear loop keep the table's shape and congruence and publish at most once per round |
| `AlarmData.DefaultUpToEffect` | flight/Libraries/alarms.c:158-164 | after n rounds, ids below n hold the default, the others are untouched, no diagnostic byte changed, and publishes = number of ids below n not already at the default |
| `AlarmData.ClearUpToEffect` | flight/Libraries/alarms.c:183-189 | after n rounds, ids below n are OK, the others are untouched, extended ids below n had their diagnostics zeroed exactly when they were not OK, and publishes = number of ids below n not already OK |
| `AlarmData.ClearUpToDiagnosticsAt` | flight/Libraries/alarms.c:171-189 | after n rounds of the clear loop, extended id i has zero status and substatus when i < n and it was not OK before; otherwise its diagnostic bytes keep their values |
| `AlarmData.CountOtherZero` | flight/Libraries/alarms.c:158-189 | the number of entries of a severity sequence that differ from a value is zero exactly when every entry equals that value |
| `AlarmData.DefaultAllPublishesNothingIff` | flight/Libraries/alarms.c:158-164 | the default-all loop publishes nothing exactly when every alarm already holds the default severity |
| `AlarmData.ClearAllPublishesNothingIff` | flight/Libraries/alarms.c:183-189 | the clear-all loop publishes nothing exactly when every alarm is already OK |
| `AlarmData.AnyAtLeastMonotone` | flight/Libraries/alarms.c:224-246 | raising the threshold can only turn a positive answer negative |
| `AlarmData.CriticalImpliesErrorImpliesWarning` | flight/Libraries/alarms.c:195-217 | has-critical implies has-errors, and has-errors implies has-warnings |
| `AlarmData.SetTwice` | flight/Libraries/alarms.c:77-82 | repeating a successful set gives the same code and table and does not publish |
| `AlarmData.ClearKeepsDiagnosticsWhenAlreadyOk` | flight/Libraries/alarms.c:171-178 | clearing an extended alarm already at OK leaves status 7 and substatus 3 in place and does not publish |
| `AlarmData.FiveAlarmScenario` | flight/Libraries/alarms.c:98-189 | five alarms, two extended: an extended set to ERROR with 7/3 reads back ERROR and has-errors holds; a repeat with 9/9 keeps 7/3; a clear reads OK with 0/0; defaulting all puts every slot at the default |
| `Alarms.AlarmStore.constructor` | flight/Libraries/inc/sanitycheck.h:40-43 | a store holding any congruent initial table, with the congruence as its invariant and nothing published |
| `Alarms.AlarmStore.AlarmsSet` | flight/Libraries/alarms.c:63-88 | returns `Set`'s code; the store then holds `Set`'s table; the publish count goes up by one iff `Set` published |
| `Alarms.AlarmStore.ExtendedAlarmsSet` | flight/Libraries/alarms.c:98-124 | returns `ExtendedSet`'s code; the store then holds `ExtendedSet`'s table; the publish count goes up by one iff `ExtendedSet` published |
| `Alarms.AlarmStore.AlarmsGet` | flight/Libraries/alarms.c:131-143 | reads the store without changing it and agrees with `Get` on the current table |
| `Alarms.AlarmStore.AlarmsDefault` | flight/Libraries/alarms.c:150-153 | acts as `Set` with the default severity |
| `Alarms.AlarmStore.AlarmsDefaultAll` | flight/Libraries/alarms.c:158-164 | every slot ends at the default; the diagnostic bytes are unchanged; publishes once per slot that was not at the default (loop invariant: ids below n are done) |
| `Alarms.AlarmStore.AlarmsClear` | flight/Libraries/alarms.c:171-178 | returns `Clear`'s code; the store then holds `Clear`'s table; the publish count goes up by one iff `Clear` published |
| `Alarms.AlarmStore.AlarmsClearAll` | flight/Libraries/alarms.c:183-189 | every slot ends at OK; extended diagnostics are zeroed exactly where the slot was not OK before; publishes once per slot that was not OK |
| `Alarms.AlarmStore.HasSeverity` | flight/Libraries/alarms.c:224-246 | returns 1 iff some slot is at or above the threshold, else 0; changes nothing |
| `Alarms.AlarmStore.AlarmsHasWarnings` | flight/Libraries/alarms.c:195-198 | returns 1 iff some slot is at WARNING or above, else 0 |
| `Alarms.AlarmStore.AlarmsHasErrors` | flight/Libraries/alarms.c:204-207 | returns 1 iff some slot is at ERROR or above, else 0 |
| `Alarms.AlarmStore.AlarmsHasCritical` | flight/Libraries/alarms.c:214-217 | returns 1 iff some slot is at CRITICAL or above, else 0 |

## Left out

- The recursive mutex (`xSemaphoreCreateRecursiveMutex`, take and give) is not modelled as a lock. The result of taking it is the `lockTaken` argument of `AlarmsSet`, `ExtendedAlarmsSet`, `AlarmsDefault` and `AlarmsClear`: when it is false the call returns -1 and changes nothing. Releasing the lock is not modelled.
- AlarmsDefaultAll: each round is modelled with the lock taken. Taking it waits up to `portMAX_DELAY`, so a round that fails to get the lock is not covered.
- AlarmsClearAll: each round is modelled with the lock taken, for the same reason.
- `hasSeverity` ignores the result of taking the lock, and so does the model.
- Concurrency between tasks is not modelled. This includes the linearizability of single operations and the lack of atomicity of the `*All` loops. The model is sequential.
- The UAVObject store is not modelled (`SystemAlarmsInitialize`, `SystemAlarmsGet`, `SystemAlarmsSet` and their change notifications). The store is the class's own arrays, and `SystemAlarmsSet` is a counter. The source copies the snapshot into a local variable and writes it back; the model writes into the store's arrays in place. Under the lock the two give the same result.
- `AlarmsInitialize` is not modelled. It only creates the lock and calls the store's initialiser, which is foreign generated code. The constructor stands in for the initial table.
- `configuration_check` is not modelled. It is only declared in the header.
- The numeric values of the severity enumeration come from the generated `systemalarms.h`, which is not part of this model. The model uses UNINITIALISED=0, OK=1, WARNING=2, ERROR=3 and CRITICAL=4. It relies only on `AlarmsGet` returning the literal 0 and on WARNING <= ERROR <= CRITICAL.
- The value of `SYSTEMALARMS_ALARM_DEFAULT` is a constructor argument, because the generated header is not part of this model.
- Alarm ids are natural numbers. The id enumeration has no negative members, so the source's unsigned range check (`alarm >= NUMELEM`) is the only check modelled.
- include/rtslam/worldAbstract.hpp is not part of this model. It is an unrelated container with no alarm logic.
