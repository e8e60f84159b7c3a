/**
  The system alarm table as a value: the `SystemAlarmsData` snapshot that every
  operation of the alarms library fetches, edits and (sometimes) publishes back,
  and one specification function per library operation. The class in module
  `Alarms` is proved against these functions.
 */
module AlarmData {

  /** An unsigned 8-bit field of the snapshot (`uint8_t`). */
  newtype byte = b: int | 0 <= b < 0x100

  /** An alarm severity; the enumeration is stored in one byte and compared numerically. */
  newtype Severity = s: int | 0 <= s < 0x100

  const UNINITIALISED: Severity := 0
  const OK: Severity := 1
  const WARNING: Severity := 2
  const ERROR: Severity := 3
  const CRITICAL: Severity := 4

  /**
    One snapshot of the table: a severity per alarm id `0..N-1` and the two
    diagnostic bytes for the extended ids `0..K-1`, where N = |alarm| and
    K = |status|.
   */
  datatype Table = Table(alarm: seq<Severity>, status: seq<byte>, subStatus: seq<byte>)
  {
    /** The build-time congruence check: as many status as substatus bytes, and no more of them than alarms. */
    predicate Congruent() {
      |status| == |subStatus| <= |alarm|
    }
  }

  /** Two snapshots with the same number of alarms and of extended alarms. */
  predicate SameShape(a: Table, b: Table) {
    |a.alarm| == |b.alarm| && |a.status| == |b.status| && |a.subStatus| == |b.subStatus|
  }

  /** What one call does: its return code (0 or -1), the table afterwards, and whether it published. */
  datatype Step = Step(code: int, table: Table, published: bool)

  /** What a loop of calls does: the table afterwards and how many times it published. */
  datatype Run = Run(table: Table, publishes: nat)

  /** The severity `AlarmsGet` reports: the stored one for a valid id, the lowest severity otherwise. */
  function Get(t: Table, id: nat): (r: Severity)
    ensures id < |t.alarm| ==> r == t.alarm[id]
    ensures id >= |t.alarm| ==> r == UNINITIALISED
  {
    if id >= |t.alarm| then 0 else t.alarm[id]
  }

  /** The value reported for an unknown id is the lowest severity there is. */
  lemma UnknownIdIsLowest(t: Table, id: nat, s: Severity)
    requires id >= |t.alarm|
    ensures Get(t, id) <= s
  {
  }

  /** `AlarmsSet`: write one severity, publishing only when it changes. */
  function Set(t: Table, id: nat, severity: Severity, lockTaken: bool): (r: Step)
    ensures SameShape(r.table, t)
    ensures r.code == 0 || r.code == -1
    ensures r.code == -1 <==> id >= |t.alarm| || !lockTaken
    ensures r.code == 0 ==> Get(r.table, id) == severity
    ensures r.published <==> r.code == 0 && Get(t, id) != severity
    ensures !r.published ==> r.table == t
    ensures forall j | 0 <= j < |t.alarm| && j != id :: r.table.alarm[j] == t.alarm[j]
    ensures r.table.status == t.status && r.table.subStatus == t.subStatus
  {
    if id >= |t.alarm| then Step(-1, t, false)
    else if !lockTaken then Step(-1, t, false)
    else if t.alarm[id] != severity then Step(0, t.(alarm := t.alarm[id := severity]), true)
    else Step(0, t, false)
  }

  /**
    `ExtendedAlarmsSet`: write severity, status and substatus of an extended
    alarm together, but only when the severity changes; a call that repeats
    the current severity drops the new diagnostic bytes.
   */
  function ExtendedSet(t: Table, id: nat, severity: Severity, status: byte, subStatus: byte, lockTaken: bool): (r: Step)
    requires t.Congruent()
    ensures SameShape(r.table, t)
    ensures r.code == 0 || r.code == -1
    ensures r.code == -1 <==> id >= |t.status| || !lockTaken
    ensures r.published <==> r.code == 0 && Get(t, id) != severity
    ensures !r.published ==> r.table == t
    ensures r.published ==>
      r.table.alarm[id] == severity && r.table.status[id] == status && r.table.subStatus[id] == subStatus
    ensures r.code == 0 ==> Get(r.table, id) == severity
    ensures forall j | 0 <= j < |t.alarm| && j != id :: r.table.alarm[j] == t.alarm[j]
    ensures forall j | 0 <= j < |t.status| && j != id ::
      r.table.status[j] == t.status[j] && r.table.subStatus[j] == t.subStatus[j]
  {
    if id >= |t.status| then Step(-1, t, false)
    else if !lockTaken then Step(-1, t, false)
    else if t.alarm[id] != severity then
      Step(0, Table(t.alarm[id := severity], t.status[id := status], t.subStatus[id := subStatus]), true)
    else Step(0, t, false)
  }

  /**
    `AlarmsClear`: an extended id is cleared through `ExtendedSet` with zero
    diagnostic bytes, any other id through `Set`. Because the extended range
    lies inside the alarm range, only an id outside the alarm range (or a
    failed lock) is refused. The diagnostic bytes are zeroed only when the
    severity was not already OK.
   */
  function Clear(t: Table, id: nat, lockTaken: bool): (r: Step)
    requires t.Congruent()
    ensures SameShape(r.table, t)
    ensures r.code == 0 || r.code == -1
    ensures r.code == -1 <==> id >= |t.alarm| || !lockTaken
    ensures id < |t.alarm| && lockTaken ==> r.code == 0 && Get(r.table, id) == OK
    ensures r.published <==> r.code == 0 && Get(t, id) != OK
    ensures !r.published ==> r.table == t
    ensures forall j | 0 <= j < |t.alarm| && j != id :: r.table.alarm[j] == t.alarm[j]
    ensures forall j | 0 <= j < |t.status| ::
      r.table.status[j] == (if r.published && j == id then 0 else t.status[j]) &&
      r.table.subStatus[j] == (if r.published && j == id then 0 else t.subStatus[j])
  {
    if id < |t.status| then ExtendedSet(t, id, OK, 0, 0, lockTaken)
    else Set(t, id, OK, lockTaken)
  }

  /** The number of entries of `s` that differ from `v`. */
  function CountOther(s: seq<Severity>, v: Severity): (c: nat)
    ensures c <= |s|
  {
    if s == [] then 0
    else CountOther(s[..|s| - 1], v) + (if s[|s| - 1] != v then 1 else 0)
  }

  /** No entry differs from `v` exactly when the count is zero: a loop over such a table publishes nothing. */
  lemma {:induction false} CountOtherZero(s: seq<Severity>, v: Severity)
    ensures CountOther(s, v) == 0 <==> forall i | 0 <= i < |s| :: s[i] == v
  {
    if s != [] {
      CountOtherZero(s[..|s| - 1], v);
    }
  }

  /** The loop of `AlarmsDefaultAll` after its first `n` rounds: `AlarmsDefault` on ids `0..n-1`, in order. */
  function DefaultUpTo(t: Table, dflt: Severity, n: nat): (r: Run)
    ensures SameShape(r.table, t)
    ensures r.publishes <= n
  {
    if n == 0 then Run(t, 0)
    else
      var before := DefaultUpTo(t, dflt, n - 1);
      var step := Set(before.table, n - 1, dflt, true);
      Run(step.table, before.publishes + if step.published then 1 else 0)
  }

  /** The loop of `AlarmsClearAll` after its first `n` rounds: `AlarmsClear` on ids `0..n-1`, in order. */
  function ClearUpTo(t: Table, n: nat): (r: Run)
    requires t.Congruent()
    ensures SameShape(r.table, t) && r.table.Congruent()
    ensures r.publishes <= n
  {
    if n == 0 then Run(t, 0)
    else
      var before := ClearUpTo(t, n - 1);
      var step := Clear(before.table, n - 1, true);
      Run(step.table, before.publishes + if step.published then 1 else 0)
  }

  /** Some alarm is at `threshold` or above. */
  predicate AnyAtLeast(t: Table, threshold: Severity) {
    exists i | 0 <= i < |t.alarm| :: t.alarm[i] >= threshold
  }

  lemma CountOtherPrefix(s: seq<Severity>, v: Severity, n: nat)
    requires 0 < n <= |s|
    ensures CountOther(s[..n], v) == CountOther(s[..n - 1], v) + if s[n - 1] != v then 1 else 0
  {
    assert s[..n][..n - 1] == s[..n - 1];
  }

  /** Slot `i` after `n` rounds of `AlarmsDefaultAll`'s loop: the default when `i < n`, untouched otherwise. */
  lemma {:induction false} DefaultUpToSeverityAt(t: Table, dflt: Severity, n: nat, i: nat)
    requires n <= |t.alarm| && i < |t.alarm|
    ensures DefaultUpTo(t, dflt, n).table.alarm[i] == if i < n then dflt else t.alarm[i]
  {
    if n > 0 {
      DefaultUpToSeverityAt(t, dflt, n - 1, i);
      var step := Set(DefaultUpTo(t, dflt, n - 1).table, n - 1, dflt, true);
      if i == n - 1 {
        assert Get(step.table, i) == dflt;
      }
    }
  }

  /** The diagnostic bytes after `n` rounds of `AlarmsDefaultAll`'s loop are the ones before it. */
  lemma {:induction false} DefaultUpToDiagnostics(t: Table, dflt: Severity, n: nat)
    ensures DefaultUpTo(t, dflt, n).table.status == t.status
    ensures DefaultUpTo(t, dflt, n).table.subStatus == t.subStatus
  {
    if n > 0 {
      DefaultUpToDiagnostics(t, dflt, n - 1);
    }
  }

  /** Round `n - 1` of `AlarmsDefaultAll`'s loop publishes exactly when id `n - 1` was not at the default to begin with. */
  lemma DefaultRoundPublishes(t: Table, dflt: Severity, n: nat)
    requires 0 < n <= |t.alarm|
    ensures DefaultUpTo(t, dflt, n).publishes == DefaultUpTo(t, dflt, n - 1).publishes + if t.alarm[n - 1] != dflt then 1 else 0
  {
    DefaultUpToSeverityAt(t, dflt, n - 1, n - 1);
    var step := Set(DefaultUpTo(t, dflt, n - 1).table, n - 1, dflt, true);
    assert step.published == (t.alarm[n - 1] != dflt);
  }

  /** The publishes of `n` rounds: one per id below `n` not already at the default. */
  lemma {:induction false} DefaultUpToPublishes(t: Table, dflt: Severity, n: nat)
    requires n <= |t.alarm|
    ensures DefaultUpTo(t, dflt, n).publishes == CountOther(t.alarm[..n], dflt)
  {
    if n > 0 {
      DefaultUpToPublishes(t, dflt, n - 1);
      DefaultRoundPublishes(t, dflt, n);
      CountOtherPrefix(t.alarm, dflt, n);
    }
  }

  /**
    After `n` rounds of `AlarmsDefaultAll`'s loop, the ids below `n` hold the
    default severity, the rest are untouched, no diagnostic byte has changed,
    and one publish happened per id whose severity was not already the default.
   */
  lemma {:induction false} DefaultUpToEffect(t: Table, dflt: Severity, n: nat)
    requires n <= |t.alarm|
    ensures var r := DefaultUpTo(t, dflt, n);
      (forall i | 0 <= i < |t.alarm| :: r.table.alarm[i] == if i < n then dflt else t.alarm[i]) &&
      r.table.status == t.status && r.table.subStatus == t.subStatus &&
      r.publishes == CountOther(t.alarm[..n], dflt)
  {
    forall i | 0 <= i < |t.alarm|
      ensures DefaultUpTo(t, dflt, n).table.alarm[i] == if i < n then dflt else t.alarm[i]
    {
      DefaultUpToSeverityAt(t, dflt, n, i);
    }
    DefaultUpToDiagnostics(t, dflt, n);
    DefaultUpToPublishes(t, dflt, n);
  }

  /** Slot `i` after `n` rounds of `AlarmsClearAll`'s loop: OK when `i < n`, untouched otherwise. */
  lemma {:induction false} ClearUpToSeverityAt(t: Table, n: nat, i: nat)
    requires t.Congruent() && n <= |t.alarm| && i < |t.alarm|
    ensures ClearUpTo(t, n).table.alarm[i] == if i < n then OK else t.alarm[i]
  {
    if n > 0 {
      ClearUpToSeverityAt(t, n - 1, i);
      var step := Clear(ClearUpTo(t, n - 1).table, n - 1, true);
      if i == n - 1 {
        assert Get(step.table, i) == OK;
      }
    }
  }

  /**
    The diagnostic bytes of extended id `i` after `n` rounds of `AlarmsClearAll`'s
    loop: zeroed when `i < n` and the alarm was not OK to begin with, untouched otherwise.
   */
  lemma {:induction false} ClearUpToDiagnosticsAt(t: Table, n: nat, i: nat)
    requires t.Congruent() && n <= |t.alarm| && i < |t.status|
    ensures var r := ClearUpTo(t, n);
      r.table.status[i] == (if i < n && t.alarm[i] != OK then 0 else t.status[i]) &&
      r.table.subStatus[i] == (if i < n && t.alarm[i] != OK then 0 else t.subStatus[i])
  {
    if n > 0 {
      ClearUpToDiagnosticsAt(t, n - 1, i);
      ClearUpToSeverityAt(t, n - 1, n - 1);
      var before := ClearUpTo(t, n - 1);
      ClearDiagnosticsAt(before.table, n - 1, i);
      assert ClearUpTo(t, n).table == Clear(before.table, n - 1, true).table;
    }
  }

  /** One clear of a valid id with the lock taken zeroes the diagnostic bytes of extended id `i` exactly when `i` is that id and it was not OK. */
  lemma ClearDiagnosticsAt(u: Table, id: nat, i: nat)
    requires u.Congruent() && id < |u.alarm| && i < |u.status|
    ensures var r := Clear(u, id, true);
      r.table.status[i] == (if i == id && u.alarm[id] != OK then 0 else u.status[i]) &&
      r.table.subStatus[i] == (if i == id && u.alarm[id] != OK then 0 else u.subStatus[i])
  {
  }

  /** Round `n - 1` of `AlarmsClearAll`'s loop publishes exactly when id `n - 1` was not OK to begin with. */
  lemma ClearRoundPublishes(t: Table, n: nat)
    requires t.Congruent() && 0 < n <= |t.alarm|
    ensures ClearUpTo(t, n).publishes == ClearUpTo(t, n - 1).publishes + if t.alarm[n - 1] != OK then 1 else 0
  {
    ClearUpToSeverityAt(t, n - 1, n - 1);
    var step := Clear(ClearUpTo(t, n - 1).table, n - 1, true);
    assert step.published == (t.alarm[n - 1] != OK);
  }

  /** The publishes of `n` rounds: one per id below `n` that was not OK. */
  lemma {:induction false} ClearUpToPublishes(t: Table, n: nat)
    requires t.Congruent() && n <= |t.alarm|
    ensures ClearUpTo(t, n).publishes == CountOther(t.alarm[..n], OK)
  {
    if n > 0 {
      ClearUpToPublishes(t, n - 1);
      ClearRoundPublishes(t, n);
      CountOtherPrefix(t.alarm, OK, n);
    }
  }

  /**
    After `n` rounds of `AlarmsClearAll`'s loop, the ids below `n` are OK and
    the rest are untouched; an extended id below `n` has its diagnostic bytes
    zeroed exactly when its severity was not OK before; one publish happened
    per id below `n` that was not OK.
   */
  lemma {:induction false} ClearUpToEffect(t: Table, n: nat)
    requires t.Congruent() && n <= |t.alarm|
    ensures var r := ClearUpTo(t, n);
      (forall i | 0 <= i < |t.alarm| :: r.table.alarm[i] == if i < n then OK else t.alarm[i]) &&
      (forall i | 0 <= i < |t.status| ::
        r.table.status[i] == (if i < n && t.alarm[i] != OK then 0 else t.status[i]) &&
        r.table.subStatus[i] == (if i < n && t.alarm[i] != OK then 0 else t.subStatus[i])) &&
      r.publishes == CountOther(t.alarm[..n], OK)
  {
    forall i | 0 <= i < |t.alarm|
      ensures ClearUpTo(t, n).table.alarm[i] == if i < n then OK else t.alarm[i]
    {
      ClearUpToSeverityAt(t, n, i);
    }
    forall i | 0 <= i < |t.status|
      ensures ClearUpTo(t, n).table.status[i] == (if i < n && t.alarm[i] != OK then 0 else t.status[i])
      ensures ClearUpTo(t, n).table.subStatus[i] == (if i < n && t.alarm[i] != OK then 0 else t.subStatus[i])
    {
      ClearUpToDiagnosticsAt(t, n, i);
    }
    ClearUpToPublishes(t, n);
  }

  /** `AlarmsDefaultAll` publishes nothing exactly when every alarm already holds the default severity. */
  lemma DefaultAllPublishesNothingIff(t: Table, dflt: Severity)
    ensures DefaultUpTo(t, dflt, |t.alarm|).publishes == 0 <==> forall i | 0 <= i < |t.alarm| :: t.alarm[i] == dflt
  {
    DefaultUpToPublishes(t, dflt, |t.alarm|);
    assert t.alarm[..|t.alarm|] == t.alarm;
    CountOtherZero(t.alarm, dflt);
  }

  /** `AlarmsClearAll` publishes nothing exactly when every alarm is already OK. */
  lemma ClearAllPublishesNothingIff(t: Table)
    requires t.Congruent()
    ensures ClearUpTo(t, |t.alarm|).publishes == 0 <==> forall i | 0 <= i < |t.alarm| :: t.alarm[i] == OK
  {
    ClearUpToPublishes(t, |t.alarm|);
    assert t.alarm[..|t.alarm|] == t.alarm;
    CountOtherZero(t.alarm, OK);
  }

  /** Asking for a higher threshold can only turn a positive answer into a negative one. */
  lemma AnyAtLeastMonotone(t: Table, lo: Severity, hi: Severity)
    requires lo <= hi
    ensures AnyAtLeast(t, hi) ==> AnyAtLeast(t, lo)
  {
  }

  /** A critical alarm is also an error, and an error is also a warning. */
  lemma CriticalImpliesErrorImpliesWarning(t: Table)
    ensures AnyAtLeast(t, CRITICAL) ==> AnyAtLeast(t, ERROR)
    ensures AnyAtLeast(t, ERROR) ==> AnyAtLeast(t, WARNING)
  {
    AnyAtLeastMonotone(t, ERROR, CRITICAL);
    AnyAtLeastMonotone(t, WARNING, ERROR);
  }

  /** Because of write elision, repeating a successful `Set` changes nothing and publishes nothing. */
  lemma SetTwice(t: Table, id: nat, severity: Severity)
    ensures var once := Set(t, id, severity, true);
      Set(once.table, id, severity, true) == Step(once.code, once.table, false)
  {
  }

  /**
    Clearing an extended alarm that is already OK keeps its diagnostic bytes:
    "clear" does not always zero them.
   */
  lemma ClearKeepsDiagnosticsWhenAlreadyOk()
    ensures var t := Table([OK, OK], [7], [3]);
      Clear(t, 0, true) == Step(0, t, false)
  {
  }

  /**
    Five alarms, two of them extended, all OK: set alarm 0 to ERROR with
    diagnostics 7/3, repeat with 9/9 (dropped), clear it, then default all.
   */
  lemma FiveAlarmScenario(dflt: Severity)
    ensures var t0 := Table([OK, OK, OK, OK, OK], [0, 0], [0, 0]);
      var s1 := ExtendedSet(t0, 0, ERROR, 7, 3, true);
      var s2 := ExtendedSet(s1.table, 0, ERROR, 9, 9, true);
      var s3 := Clear(s2.table, 0, true);
      var all := DefaultUpTo(s3.table, dflt, 5);
      && Get(s1.table, 0) == ERROR && AnyAtLeast(s1.table, ERROR)
      && s2.table.status[0] == 7 && s2.table.subStatus[0] == 3 && !s2.published
      && Get(s3.table, 0) == OK && s3.table.status[0] == 0 && s3.table.subStatus[0] == 0
      && all.table.alarm == [dflt, dflt, dflt, dflt, dflt]
  {
    var t0 := Table([OK, OK, OK, OK, OK], [0, 0], [0, 0]);
    var s3 := Clear(ExtendedSet(ExtendedSet(t0, 0, ERROR, 7, 3, true).table, 0, ERROR, 9, 9, true).table, 0, true);
    DefaultUpToEffect(s3.table, dflt, 5);
  }
}
