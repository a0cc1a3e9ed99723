/**
 * One tick of the deadline manager (`runChecks`): notify every deadline the store reports
 * as expired and deleted, then give each active deadline at most one reminder and persist
 * its new reminder count. Instants and durations are integer nanoseconds; the manager's
 * `time.Now()` is the parameter `now`, and the formatted clock each of the two store
 * queries reads for itself is `expiryNow` and `activeNow`.
 * Sending a message is appending it to `sent`.
 */
module DeadlineManager {
  import opened Results
  import opened Durations
  import opened Timestamps
  import opened Tables
  import DbStore

  /** `ReminderIntervals`: how long before the deadline each reminder is due, largest first. */
  const ReminderIntervals: seq<int> := [48 * Hour, 24 * Hour, 12 * Hour, 6 * Hour, 3 * Hour]

  /**
   * The messages a tick sends, by what they carry: an expiry notice names the task and its
   * stored due time, a reminder the task and the time left until it is due.
   */
  datatype Message =
    | ExpiryNotice(title: string, dateTime: string)
    | Alert(title: string, left: int)

  /** The text sent to the group for a message. */
  function Text(m: Message): string {
    match m
    case ExpiryNotice(title, dateTime) =>
      "*Deadline Completed/Expired!*\n\nTask: *" + title + "*\nWas due on: " + dateTime + "\n"
    case Alert(title, left) =>
      "*Deadline Alert!*\nTask: *" + title + "*\nThis is due in *" + FormatDuration(left) + "*!"
  }

  /** `d.Time()`: the instant the deadline's `datetime` text names. */
  function DueAt(d: DbStore.Deadline): int {
    MinuteTime(d.dateTime)
  }

  // ----- choosing the reminder -----

  /**
   * What the loop over `ReminderIntervals` from index `i` on selects: the first index at
   * or after `count` whose reminder instant `due - interval` is strictly before `now`.
   */
  function FirstDue(due: int, now: int, count: int, i: nat): Option<int>
    decreases |ReminderIntervals| - i
  {
    if i >= |ReminderIntervals| then None
    else if due - ReminderIntervals[i] < now && i >= count then Some(i)
    else FirstDue(due, now, count, i + 1)
  }

  /** The index the loop starts looking at: a negative count behaves as 0. */
  function Start(count: int): nat {
    if count < 0 then 0 else count
  }

  /**
   * The reminder a tick fires: the one at index `count` when its instant has passed, and
   * none otherwise, in particular none once `count` reaches the end of the schedule.
   */
  function Reminder(due: int, now: int, count: int): (r: Option<int>)
    ensures r.Some? ==> r.value == Start(count) && r.value < |ReminderIntervals|
  {
    var i := Start(count);
    if i < |ReminderIntervals| && due - ReminderIntervals[i] < now then Some(i) else None
  }

  /** The reminder instants grow with the index, since the intervals shrink. */
  lemma {:induction false} InstantsIncrease(due: int, i: nat, j: nat)
    requires i < j < |ReminderIntervals|
    ensures due - ReminderIntervals[i] < due - ReminderIntervals[j]
  {
  }

  /** Indices below `count` never fire. */
  lemma {:induction false} FirstDueSkips(due: int, now: int, count: int, i: nat)
    requires i <= Min(Start(count), |ReminderIntervals|)
    ensures FirstDue(due, now, count, i) == FirstDue(due, now, count, Min(Start(count), |ReminderIntervals|))
    decreases Start(count) - i
  {
    if i < Min(Start(count), |ReminderIntervals|) {
      FirstDueSkips(due, now, count, i + 1);
    }
  }

  /** Once the instant at index `i` has not passed, no later one has either. */
  lemma {:induction false} FirstDueMisses(due: int, now: int, count: int, i: nat)
    requires i < |ReminderIntervals| && now <= due - ReminderIntervals[i]
    ensures FirstDue(due, now, count, i) == None
    decreases |ReminderIntervals| - i
  {
    if i + 1 < |ReminderIntervals| {
      InstantsIncrease(due, i, i + 1);
      FirstDueMisses(due, now, count, i + 1);
    }
  }

  /**
   * The loop always selects index `count` itself (or nothing): the increasing reminder
   * instants mean that when the instant at `count` has not passed, no later one has.
   */
  lemma {:induction false} FirstDueIsCount(due: int, now: int, count: int)
    ensures FirstDue(due, now, count, 0) == Reminder(due, now, count)
  {
    var i := Start(count);
    if i < |ReminderIntervals| {
      FirstDueSkips(due, now, count, 0);
      if now <= due - ReminderIntervals[i] {
        FirstDueMisses(due, now, count, i);
      }
    } else {
      FirstDueSkips(due, now, count, 0);
    }
  }

  /** The inner loop of `runChecks`, with its `break` after the first reminder sent. */
  method SelectReminder(due: int, now: int, count: int) returns (fired: Option<int>)
    ensures fired == FirstDue(due, now, count, 0)
    ensures fired == Reminder(due, now, count)
  {
    fired := None;
    for i := 0 to |ReminderIntervals|
      invariant FirstDue(due, now, count, 0) == FirstDue(due, now, count, i)
    {
      if due - ReminderIntervals[i] < now && i >= count {
        fired := Some(i);
        break;
      }
    }
    FirstDueIsCount(due, now, count);
  }

  // ----- successive ticks -----

  /** How many reminder instants, from index `i` on, have passed: they form a prefix. */
  function PassedFrom(due: int, now: int, i: nat): (n: nat)
    ensures i + n <= |ReminderIntervals| || n == 0
    decreases |ReminderIntervals| - i
  {
    if i >= |ReminderIntervals| || now <= due - ReminderIntervals[i] then 0
    else 1 + PassedFrom(due, now, i + 1)
  }

  function Passed(due: int, now: int): nat {
    PassedFrom(due, now, 0)
  }

  /** The instant at index `j` has passed exactly when `j` is inside the passed prefix. */
  lemma {:induction false} PassedPrefix(due: int, now: int, i: nat, j: nat)
    requires i <= j < |ReminderIntervals|
    ensures due - ReminderIntervals[j] < now <==> j < i + PassedFrom(due, now, i)
    decreases j - i
  {
    if now <= due - ReminderIntervals[i] {
      if i < j {
        InstantsIncrease(due, i, j);
      }
    } else if i < j {
      PassedPrefix(due, now, i + 1, j);
    }
  }

  /** The count after `ticks` ticks at the same `now`. */
  function CountAfter(due: int, now: int, count: int, ticks: nat): int
    decreases ticks
  {
    if ticks == 0 then count
    else match Reminder(due, now, count)
      case Some(i) => CountAfter(due, now, i + 1, ticks - 1)
      case None => count
  }

  /**
   * Stale reminders are caught up one per tick: starting from a count inside the passed
   * prefix, each tick raises the count by exactly one until it covers that prefix; from a
   * count at or beyond it, nothing fires.
   */
  lemma {:induction false} CatchUp(due: int, now: int, count: nat, ticks: nat)
    ensures var p := Passed(due, now);
      CountAfter(due, now, count, ticks) == if count >= p then count else Min(count + ticks, p)
    decreases ticks
  {
    var p := Passed(due, now);
    if ticks > 0 {
      if count < |ReminderIntervals| {
        PassedPrefix(due, now, 0, count);
      }
      if count < p {
        CatchUp(due, now, count + 1, ticks - 1);
      }
    }
  }

  function Min(a: int, b: int): int {
    if a < b then a else b
  }

  // ----- one tick -----

  /** The expiry notices for `ds`, in order. */
  function Notices(ds: seq<DbStore.Deadline>): (r: seq<Message>)
    ensures |r| == |ds|
    ensures forall i :: 0 <= i < |ds| ==> r[i] == ExpiryNotice(ds[i].title, ds[i].dateTime)
  {
    if ds == [] then [] else Notices(ds[..|ds| - 1]) + [ExpiryNotice(ds[|ds| - 1].title, ds[|ds| - 1].dateTime)]
  }

  /** The reminder count a tick persists for a deadline due at `due`, if it fires one. */
  function NextCount(due: int, now: int, count: int): (r: Option<int>)
    ensures r.Some? ==> r.value == Start(count) + 1 && r.value <= |ReminderIntervals|
  {
    match Reminder(due, now, count)
    case Some(i) => Some(i + 1)
    case None => None
  }

  /**
   * The alert (at most one) a tick sends for `d`, where `timeOf` is `Deadline.Time`: the
   * spec functions below take it as a parameter so that the lemmas hold for any clock.
   */
  function AlertOf(d: DbStore.Deadline, timeOf: DbStore.Deadline -> int, now: int): (r: seq<Message>)
    ensures |r| <= 1
    ensures r != [] <==> NextCount(timeOf(d), now, d.reminderCount).Some?
  {
    if NextCount(timeOf(d), now, d.reminderCount).Some? then [Alert(d.title, timeOf(d) - now)] else []
  }

  /** The alerts for the active deadlines `ds`, in order. */
  function Alerts(ds: seq<DbStore.Deadline>, timeOf: DbStore.Deadline -> int, now: int): seq<Message> {
    if ds == [] then [] else Alerts(ds[..|ds| - 1], timeOf, now) + AlertOf(ds[|ds| - 1], timeOf, now)
  }

  /**
   * The `deadlines` table after the reminder updates for `ds`: each deadline that fires
   * gets its new count, except where `UpdateReminderState` failed (`faults` names those).
   */
  function Bumped(rows: map<int, DeadlineRow>, ds: seq<DbStore.Deadline>, timeOf: DbStore.Deadline -> int,
                  now: int, faults: map<int, string>): map<int, DeadlineRow>
  {
    if ds == [] then rows
    else
      var prev := Bumped(rows, ds[..|ds| - 1], timeOf, now, faults);
      var d := ds[|ds| - 1];
      match NextCount(timeOf(d), now, d.reminderCount)
      case Some(n) =>
        if d.id in prev && d.id !in faults then prev[d.id := prev[d.id].(reminderCount := n)] else prev
      case None => prev
  }

  /** One more deadline: one more step of each of `Alerts` and `Bumped`. */
  lemma Snoc(rows: map<int, DeadlineRow>, ds: seq<DbStore.Deadline>, d: DbStore.Deadline,
             timeOf: DbStore.Deadline -> int, now: int, faults: map<int, string>)
    ensures Alerts(ds + [d], timeOf, now) == Alerts(ds, timeOf, now) + AlertOf(d, timeOf, now)
    ensures var prev := Bumped(rows, ds, timeOf, now, faults);
      Bumped(rows, ds + [d], timeOf, now, faults) ==
        match NextCount(timeOf(d), now, d.reminderCount)
        case Some(n) =>
          if d.id in prev && d.id !in faults then prev[d.id := prev[d.id].(reminderCount := n)] else prev
        case None => prev
  {
    assert (ds + [d])[..|ds|] == ds;
  }

  /** Each deadline gets at most one alert, so a tick sends no more alerts than deadlines. */
  lemma {:induction false} AlertsAtMostOneEach(ds: seq<DbStore.Deadline>, timeOf: DbStore.Deadline -> int, now: int)
    ensures |Alerts(ds, timeOf, now)| <= |ds|
    decreases |ds|
  {
    if ds != [] {
      AlertsAtMostOneEach(ds[..|ds| - 1], timeOf, now);
    }
  }

  /** The updates only touch rows that were there. */
  lemma {:induction false} BumpedKeys(rows: map<int, DeadlineRow>, ds: seq<DbStore.Deadline>, timeOf: DbStore.Deadline -> int,
                                      now: int, faults: map<int, string>)
    ensures Bumped(rows, ds, timeOf, now, faults).Keys == rows.Keys
    decreases |ds|
  {
    if ds != [] {
      BumpedKeys(rows, ds[..|ds| - 1], timeOf, now, faults);
    }
  }

  /** No persisted reminder count ever exceeds the length of the schedule. */
  lemma {:induction false} CountsStayBounded(rows: map<int, DeadlineRow>, ds: seq<DbStore.Deadline>, timeOf: DbStore.Deadline -> int,
                                             now: int, faults: map<int, string>)
    requires forall id :: id in rows ==> rows[id].reminderCount <= |ReminderIntervals|
    ensures forall id :: id in Bumped(rows, ds, timeOf, now, faults) ==>
      Bumped(rows, ds, timeOf, now, faults)[id].reminderCount <= |ReminderIntervals|
    decreases |ds|
  {
    if ds != [] {
      var d := ds[|ds| - 1];
      CountsStayBounded(rows, ds[..|ds| - 1], timeOf, now, faults);
      var n := NextCount(timeOf(d), now, d.reminderCount);
      assert n.Some? ==> n.value <= |ReminderIntervals|;
    }
  }

  /** Rows no deadline of `ds` names keep their count. */
  lemma {:induction false} BumpedUntouched(rows: map<int, DeadlineRow>, ds: seq<DbStore.Deadline>, timeOf: DbStore.Deadline -> int,
                                           now: int, faults: map<int, string>, id: int)
    requires id in rows
    requires forall i :: 0 <= i < |ds| ==> ds[i].id != id
    ensures id in Bumped(rows, ds, timeOf, now, faults) && Bumped(rows, ds, timeOf, now, faults)[id] == rows[id]
    decreases |ds|
  {
    if ds != [] {
      BumpedUntouched(rows, ds[..|ds| - 1], timeOf, now, faults, id);
    }
  }

  /**
   * For a deadline `ds[k]` of a list read from `rows` (ids distinct), a tick leaves its
   * count exactly one above where it started when a reminder fired and the update did not
   * fail, and unchanged otherwise.
   */
  lemma {:induction false} TickRaisesByOne(rows: map<int, DeadlineRow>, ds: seq<DbStore.Deadline>, timeOf: DbStore.Deadline -> int,
                                           now: int, faults: map<int, string>, k: nat)
    requires forall i :: 0 <= i < |ds| ==> ds[i].id in rows && rows[ds[i].id].reminderCount == ds[i].reminderCount
    requires forall i, j :: 0 <= i < j < |ds| ==> ds[i].id != ds[j].id
    requires k < |ds|
    ensures var d := ds[k]; var after := Bumped(rows, ds, timeOf, now, faults);
      d.id in after
      && after[d.id].reminderCount ==
         if d.id !in faults && Reminder(timeOf(d), now, d.reminderCount).Some? then Start(d.reminderCount) + 1
         else d.reminderCount
    decreases |ds|
  {
    BumpedKeys(rows, ds, timeOf, now, faults);
    var init := ds[..|ds| - 1];
    BumpedKeys(rows, init, timeOf, now, faults);
    if k < |ds| - 1 {
      TickRaisesByOne(rows, init, timeOf, now, faults, k);
    } else {
      BumpedUntouched(rows, init, timeOf, now, faults, ds[k].id);
    }
  }

  /**
   * What a tick does to each active deadline it listed from `cleaned`, for any clock
   * `timeOf`: the row is still there, its count becomes `Start(count) + 1` exactly when a
   * reminder fired and its update did not fail and stays otherwise, and it never passes the
   * length of the schedule.
   */
  lemma {:induction false} ActiveCountsAfterTick(cleaned: map<int, DeadlineRow>, active: seq<DbStore.Deadline>,
                                                  activeNow: string, timeOf: DbStore.Deadline -> int, now: int,
                                                  faults: map<int, string>, k: nat)
    requires DbStore.Lists(active, Active(cleaned, activeNow, DbStore.MaxReminderCount))
    requires k < |active|
    ensures var d := active[k]; var after := Bumped(cleaned, active, timeOf, now, faults);
      d.id in cleaned && d.id in after
      && cleaned[d.id].reminderCount == d.reminderCount
      && after[d.id].reminderCount ==
         (if d.id !in faults && Reminder(timeOf(d), now, d.reminderCount).Some? then Start(d.reminderCount) + 1
          else cleaned[d.id].reminderCount)
      && after[d.id].reminderCount <= |ReminderIntervals|
  {
    var listed := Active(cleaned, activeNow, DbStore.MaxReminderCount);
    forall i | 0 <= i < |active|
      ensures active[i].id in cleaned && cleaned[active[i].id].reminderCount == active[i].reminderCount
    {
      assert active[i] == DbStore.RecordOf(active[i].id, listed[active[i].id]);
    }
    TickRaisesByOne(cleaned, active, timeOf, now, faults, k);
    assert listed[active[k].id].reminderCount < DbStore.MaxReminderCount;
  }

  /** The loop over the deleted deadlines: one expiry notice each, in order. */
  method NotifyExpired(expired: seq<DbStore.Deadline>) returns (sent: seq<Message>)
    ensures sent == Notices(expired)
  {
    sent := [];
    for k := 0 to |expired|
      invariant sent == Notices(expired[..k])
    {
      assert expired[..k + 1][..k] == expired[..k];
      sent := sent + [ExpiryNotice(expired[k].title, expired[k].dateTime)];
    }
    assert expired[..|expired|] == expired;
  }

  /**
   * The loop over the active deadlines: send each the reminder `SelectReminder` picks and
   * persist its new count with `UpdateReminderState`, whose failure is only logged.
   * `timeOf` is `Deadline.Time`; `RunChecks` passes `DueAt`.
   */
  method SendReminders(db: Database, active: seq<DbStore.Deadline>, timeOf: DbStore.Deadline -> int,
                       now: int, updateFaults: map<int, string>)
    returns (sent: seq<Message>)
    requires db.Valid()
    modifies db
    ensures db.Valid()
    ensures db.baskets == old(db.baskets) && db.pins == old(db.pins)
    ensures db.nextDeadline == old(db.nextDeadline) && db.nextBasket == old(db.nextBasket) && db.nextPin == old(db.nextPin)
    ensures sent == Alerts(active, timeOf, now)
    ensures db.deadlines == Bumped(old(db.deadlines), active, timeOf, now, updateFaults)
  {
    sent := [];
    for k := 0 to |active|
      invariant db.Valid()
      invariant db.baskets == old(db.baskets) && db.pins == old(db.pins)
      invariant db.nextDeadline == old(db.nextDeadline) && db.nextBasket == old(db.nextBasket) && db.nextPin == old(db.nextPin)
      invariant sent == Alerts(active[..k], timeOf, now)
      invariant db.deadlines == Bumped(old(db.deadlines), active[..k], timeOf, now, updateFaults)
    {
      var d := active[k];
      assert active[..k + 1] == active[..k] + [d];
      Snoc(old(db.deadlines), active[..k], d, timeOf, now, updateFaults);
      var deadlineTime := timeOf(d);
      var fired := SelectReminder(deadlineTime, now, d.reminderCount);
      if fired.Some? {
        sent := sent + [Alert(d.title, deadlineTime - now)];
        var nextReminderCount := fired.value + 1;
        var fault := if d.id in updateFaults then Some(updateFaults[d.id]) else None;
        var _ := DbStore.UpdateReminderState(db, d.id, nextReminderCount, fault);
      }
    }
    assert active[..|active|] == active;
  }

  /**
   * `runChecks`: delete and notify the expired deadlines (a failure there is logged and the
   * tick goes on with none), then, unless listing the active deadlines fails, send each one
   * its reminder and persist the new count. The expiry query formats the clock as
   * `expiryNow` and the activity query, read later, as `activeNow`.
   */
  method RunChecks(db: Database, expiryNow: string, activeNow: string, now: int,
                   expiryQueryFault: Option<string>, expiryCommitFault: Option<string>,
                   activeFault: Option<string>, updateFaults: map<int, string>)
    returns (expired: seq<DbStore.Deadline>, active: seq<DbStore.Deadline>, sent: seq<Message>)
    requires db.Valid()
    modifies db
    ensures db.Valid()
    ensures db.baskets == old(db.baskets) && db.pins == old(db.pins)
    ensures db.nextDeadline == old(db.nextDeadline) && db.nextBasket == old(db.nextBasket) && db.nextPin == old(db.nextPin)
    ensures sent == Notices(expired) + Alerts(active, DueAt, now)
    ensures var failed := expiryQueryFault.Some? || expiryCommitFault.Some?;
      var cleaned := if failed then old(db.deadlines) else Unexpired(old(db.deadlines), expiryNow);
      (failed ==> expired == [])
      && (!failed ==> DbStore.Lists(expired, Expired(old(db.deadlines), expiryNow)))
      && (activeFault.Some? ==> active == [] && db.deadlines == cleaned)
      && (activeFault.None? ==> DbStore.ListsByDateTime(active, Active(cleaned, activeNow, DbStore.MaxReminderCount))
                                && db.deadlines == Bumped(cleaned, active, DueAt, now, updateFaults))
  {
    var deleted := DbStore.DeleteExpiredDeadlines(db, expiryNow, expiryQueryFault, expiryCommitFault);
    expired := if deleted.Ok? then deleted.value else [];
    var notices := NotifyExpired(expired);
    active := [];
    var listed := DbStore.GetAllActiveDeadlines(db, activeNow, activeFault);
    if listed.Err? {
      sent := notices;
      return;
    }
    active := listed.value;
    var alerts := SendReminders(db, active, DueAt, now, updateFaults);
    sent := notices + alerts;
  }
}
