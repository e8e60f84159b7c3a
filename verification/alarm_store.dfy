/**
  The alarms library over its store. The store's three arrays are the fields
  of `AlarmStore`; publishing a snapshot (`SystemAlarmsSet`) is counted in
  `publishCount`. Each method is proved against the specification function of
  the same operation in `AlarmData`.
 */
module Alarms {
  import opened AlarmData

  class AlarmStore {
    /** Severity per alarm id (`Alarm[]`). */
    const alarm: array<Severity>
    /** Diagnostic bytes of the extended alarms (`ExtendedAlarmStatus[]`, `ExtendedAlarmSubStatus[]`). */
    const status: array<byte>
    const subStatus: array<byte>
    /** The severity `AlarmsDefault` writes (`SYSTEMALARMS_ALARM_DEFAULT`). */
    const defaultSeverity: Severity
    /** Number of snapshots published to the store so far. */
    var publishCount: nat

    /** The build-time congruence of the table, and distinct diagnostic arrays. */
    ghost predicate Valid() {
      status.Length == subStatus.Length <= alarm.Length && status != subStatus
    }

    /** The store's current contents as a snapshot. */
    ghost function Data(): Table
      reads alarm, status, subStatus
    {
      Table(alarm[..], status[..], subStatus[..])
    }

    /** The store holds the table `step` leaves behind, and has published once more than `count` exactly when `step` did. */
    ghost predicate Reflects(step: Step, count: nat)
      reads this, alarm, status, subStatus
    {
      Data() == step.table && publishCount == count + if step.published then 1 else 0
    }

    /** The store holds the table `run` leaves behind and has published `run.publishes` more times than `count`. */
    ghost predicate ReflectsRun(run: Run, count: nat)
      reads this, alarm, status, subStatus
    {
      Data() == run.table && publishCount == count + run.publishes
    }

    /** A store holding `initial`, as the generated initialisation code leaves it. */
    constructor (initial: Table, dflt: Severity)
      requires initial.Congruent()
      ensures Valid() && Data() == initial && defaultSeverity == dflt && publishCount == 0
      ensures fresh(alarm) && fresh(status) && fresh(subStatus)
    {
      alarm := new Severity[|initial.alarm|](i requires 0 <= i < |initial.alarm| => initial.alarm[i]);
      status := new byte[|initial.status|](i requires 0 <= i < |initial.status| => initial.status[i]);
      subStatus := new byte[|initial.subStatus|](i requires 0 <= i < |initial.subStatus| => initial.subStatus[i]);
      defaultSeverity := dflt;
      publishCount := 0;
    }

    /** `AlarmsSet`; `lockTaken` is the outcome of taking the lock. */
    method AlarmsSet(id: nat, severity: Severity, lockTaken: bool) returns (r: int)
      requires Valid()
      modifies this, alarm
      ensures var step := Set(old(Data()), id, severity, lockTaken);
        r == step.code && Reflects(step, old(publishCount))
    {
      if id >= alarm.Length {
        return -1;
      }
      if !lockTaken {
        return -1;
      }
      // write back and publish only when the severity changes
      if alarm[id] != severity {
        alarm[id] := severity;
        publishCount := publishCount + 1;
      }
      r := 0;
    }

    /** `ExtendedAlarmsSet`; `lockTaken` is the outcome of taking the lock. */
    method ExtendedAlarmsSet(id: nat, severity: Severity, st: byte, subSt: byte, lockTaken: bool) returns (r: int)
      requires Valid()
      modifies this, alarm, status, subStatus
      ensures var step := ExtendedSet(old(Data()), id, severity, st, subSt, lockTaken);
        r == step.code && Reflects(step, old(publishCount))
    {
      if id >= status.Length {
        return -1;
      }
      if !lockTaken {
        return -1;
      }
      // the diagnostic bytes travel with the severity, and only when it changes
      if alarm[id] != severity {
        status[id] := st;
        subStatus[id] := subSt;
        alarm[id] := severity;
        publishCount := publishCount + 1;
      }
      r := 0;
    }

    /** `AlarmsGet`: the severity of `id`, or 0 for an id outside the table. */
    function AlarmsGet(id: nat): (s: Severity)
      reads alarm, status, subStatus
      ensures s == Get(Data(), id)
    {
      if id >= alarm.Length then 0 else alarm[id]
    }

    /** `AlarmsDefault`: `AlarmsSet` with the default severity. */
    method AlarmsDefault(id: nat, lockTaken: bool) returns (r: int)
      requires Valid()
      modifies this, alarm
      ensures var step := Set(old(Data()), id, defaultSeverity, lockTaken);
        r == step.code && Reflects(step, old(publishCount))
    {
      r := AlarmsSet(id, defaultSeverity, lockTaken);
    }

    /** `AlarmsDefaultAll`: `AlarmsDefault` on every id in turn. */
    method AlarmsDefaultAll()
      requires Valid()
      modifies this, alarm
      ensures ReflectsRun(DefaultUpTo(old(Data()), defaultSeverity, alarm.Length), old(publishCount))
      ensures forall i | 0 <= i < alarm.Length :: alarm[i] == defaultSeverity
      ensures status[..] == old(status[..]) && subStatus[..] == old(subStatus[..])
      ensures publishCount == old(publishCount) + CountOther(old(alarm[..]), defaultSeverity)
    {
      var n := 0;
      while n < alarm.Length
        invariant n <= alarm.Length
        invariant ReflectsRun(DefaultUpTo(old(Data()), defaultSeverity, n), old(publishCount))
      {
        var _ := AlarmsDefault(n, true);
        n := n + 1;
      }
      DefaultUpToEffect(old(Data()), defaultSeverity, alarm.Length);
      assert old(alarm[..])[..alarm.Length] == old(alarm[..]);
    }

    /** `AlarmsClear`: extended ids through `ExtendedAlarmsSet` with zero diagnostics, the others through `AlarmsSet`. */
    method AlarmsClear(id: nat, lockTaken: bool) returns (r: int)
      requires Valid()
      modifies this, alarm, status, subStatus
      ensures var step := Clear(old(Data()), id, lockTaken);
        r == step.code && Reflects(step, old(publishCount))
    {
      if id < status.Length {
        r := ExtendedAlarmsSet(id, OK, 0, 0, lockTaken);
      } else {
        r := AlarmsSet(id, OK, lockTaken);
      }
    }

    /** `AlarmsClearAll`: `AlarmsClear` on every id in turn. */
    method AlarmsClearAll()
      requires Valid()
      modifies this, alarm, status, subStatus
      ensures ReflectsRun(ClearUpTo(old(Data()), alarm.Length), old(publishCount))
      ensures forall i | 0 <= i < alarm.Length :: alarm[i] == OK
      ensures forall i | 0 <= i < status.Length ::
        status[i] == (if old(alarm[i]) != OK then 0 else old(status[i])) &&
        subStatus[i] == (if old(alarm[i]) != OK then 0 else old(subStatus[i]))
      ensures publishCount == old(publishCount) + CountOther(old(alarm[..]), OK)
    {
      var n := 0;
      while n < alarm.Length
        invariant n <= alarm.Length
        invariant ReflectsRun(ClearUpTo(old(Data()), n), old(publishCount))
      {
        var _ := AlarmsClear(n, true);
        n := n + 1;
      }
      ClearUpToEffect(old(Data()), alarm.Length);
      assert old(alarm[..])[..alarm.Length] == old(alarm[..]);
    }

    /** `hasSeverity`: 1 when some alarm is at `threshold` or above, else 0; scans ids in order and stops at the first hit. */
    method HasSeverity(threshold: Severity) returns (r: int)
      ensures r == 0 || r == 1
      ensures r == 1 <==> AnyAtLeast(Data(), threshold)
    {
      var n := 0;
      while n < alarm.Length
        invariant n <= alarm.Length
        invariant forall j | 0 <= j < n :: alarm[j] < threshold
      {
        if alarm[n] >= threshold {
          return 1;
        }
        n := n + 1;
      }
      return 0;
    }

    /** `AlarmsHasWarnings`: some alarm is at WARNING or above. */
    method AlarmsHasWarnings() returns (r: int)
      ensures r == 0 || r == 1
      ensures r == 1 <==> AnyAtLeast(Data(), WARNING)
    {
      r := HasSeverity(WARNING);
    }

    /** `AlarmsHasErrors`: some alarm is at ERROR or above. */
    method AlarmsHasErrors() returns (r: int)
      ensures r == 0 || r == 1
      ensures r == 1 <==> AnyAtLeast(Data(), ERROR)
    {
      r := HasSeverity(ERROR);
    }

    /** `AlarmsHasCritical`: some alarm is at CRITICAL or above. */
    method AlarmsHasCritical() returns (r: int)
      ensures r == 0 || r == 1
      ensures r == 1 <==> AnyAtLeast(Data(), CRITICAL)
    {
      r := HasSeverity(CRITICAL);
    }
  }
}
