/**
 * The UTC revision of the `DBStore` deadline methods: a deadline carries its due time as a
 * UTC `time.Time`, stored in the `due_at` text column as an RFC 3339 stamp and parsed back
 * when the table is listed. Deleting a deadline and updating its reminder count issue the
 * same statements as `DbStore.DeleteDeadline` and `DbStore.UpdateReminderState`.
 */
module DbDeadlines {
  import opened Results
  import opened Text
  import opened Timestamps
  import opened Collections
  import opened Tables
  import DbStore

  datatype Deadline = Deadline(id: int, title: string, dueAt: UtcTime, reminderCount: int)

  /** The start of the error `time.Parse` returns for a stamp it rejects. */
  function ParseFailure(text: string): string {
    "parsing time \"" + text + "\""
  }

  /** The row `AddDeadline` writes: the title, the due time as RFC 3339 text, no reminders yet. */
  function RowOf(title: string, dueAt: UtcTime): (row: DeadlineRow)
    ensures row.title == title && row.reminderCount == 0
    ensures ParseRfc3339(row.due) == Some(dueAt.clock)
  {
    ParseFormatRfc3339(dueAt.clock);
    DeadlineRow(title, FormatRfc3339(dueAt.clock), 0)
  }

  /**
   * What one turn of the scan loop makes of a row: the record, whose due time formats back
   * to exactly the stored text, or nothing when the text is not an RFC 3339 UTC stamp.
   */
  function Decode(id: int, row: DeadlineRow): (r: Option<Deadline>)
    ensures r.Some? <==> ParseRfc3339(row.due).Some?
    ensures r.Some? ==> r.value.id == id && r.value.title == row.title && r.value.reminderCount == row.reminderCount
    ensures r.Some? ==> FormatRfc3339(r.value.dueAt.clock) == row.due && r.value.dueAt.nanos == 0
  {
    match ParseRfc3339(row.due)
    case Some(clock) =>
      FormatParseRfc3339(row.due);
      Some(Deadline(id, row.title, Time(clock, 0), row.reminderCount))
    case None => None
  }

  /** `ds` holds every row of `rows` exactly once, decoded, in ascending order of the `due_at` text. */
  ghost predicate ListsByDueAt(ds: seq<Deadline>, rows: map<int, DeadlineRow>) {
    (forall i :: 0 <= i < |ds| ==> ds[i].id in rows && Decode(ds[i].id, rows[ds[i].id]) == Some(ds[i]))
    && (forall i, j :: 0 <= i < j < |ds| ==> ds[i].id != ds[j].id)
    && (forall id :: id in rows ==> exists i :: 0 <= i < |ds| && ds[i].id == id)
    && (forall i, j :: 0 <= i < j < |ds| ==> !StrLess(rows[ds[j].id].due, rows[ds[i].id].due))
  }

  /** Ordering by the stamp text lists the deadlines chronologically. */
  lemma {:induction false} ListedInTimeOrder(ds: seq<Deadline>, rows: map<int, DeadlineRow>)
    requires ListsByDueAt(ds, rows)
    ensures forall i, j :: 0 <= i < j < |ds| ==> !Before(ds[j].dueAt.clock, ds[i].dueAt.clock)
  {
    forall i, j | 0 <= i < j < |ds|
      ensures !Before(ds[j].dueAt.clock, ds[i].dueAt.clock)
    {
      assert FormatRfc3339(ds[i].dueAt.clock) == rows[ds[i].id].due;
      assert FormatRfc3339(ds[j].dueAt.clock) == rows[ds[j].id].due;
      FormatRfc3339Order(ds[j].dueAt.clock, ds[i].dueAt.clock);
    }
  }

  /**
   * A deadline added and listed again comes back once, with its id, its title, no reminders
   * and its due time with the fraction of the second dropped.
   */
  lemma {:induction false} AddedIsListed(ds: seq<Deadline>, rows: map<int, DeadlineRow>, id: int, title: string, dueAt: UtcTime)
    requires ListsByDueAt(ds, rows[id := RowOf(title, dueAt)])
    ensures exists i :: 0 <= i < |ds| && ds[i] == Deadline(id, title, dueAt.Truncated(), 0)
    ensures forall i :: 0 <= i < |ds| && ds[i].id == id ==> ds[i] == Deadline(id, title, dueAt.Truncated(), 0)
  {
    var after := rows[id := RowOf(title, dueAt)];
    assert id in after;
    var i :| 0 <= i < |ds| && ds[i].id == id;
    forall j | 0 <= j < |ds| && ds[j].id == id
      ensures ds[j] == Deadline(id, title, dueAt.Truncated(), 0)
    {
      assert Decode(id, after[id]) == Some(ds[j]);
    }
  }

  /**
   * The scan loop run over the rows in the order `ids`: each row decoded in turn, the first
   * one whose stamp does not parse ending the scan with its error.
   */
  function Scan(ids: seq<int>, rows: map<int, DeadlineRow>): (r: Result<seq<Deadline>>)
    requires forall i :: 0 <= i < |ids| ==> ids[i] in rows
    decreases |ids|
  {
    if ids == [] then Ok([])
    else
      var last := ids[|ids| - 1];
      match Scan(ids[..|ids| - 1], rows)
      case Err(e) => Err(e)
      case Ok(ds) =>
        match Decode(last, rows[last])
        case None => Err(ParseFailure(rows[last].due))
        case Some(d) => Ok(ds + [d])
  }

  /** Once a prefix of the scan has failed, the whole scan fails with the same error. */
  lemma {:induction false} ScanStops(ids: seq<int>, rows: map<int, DeadlineRow>, k: nat)
    requires forall i :: 0 <= i < |ids| ==> ids[i] in rows
    requires k <= |ids| && Scan(ids[..k], rows).Err?
    ensures Scan(ids, rows) == Scan(ids[..k], rows)
    decreases |ids|
  {
    if k < |ids| {
      var front := ids[..|ids| - 1];
      assert front[..k] == ids[..k];
      ScanStops(front, rows, k);
    } else {
      assert ids[..k] == ids;
    }
  }

  /** A scan that succeeds lists, at each position of `ids`, the record that row decodes to. */
  lemma {:induction false} ScanOk(ids: seq<int>, rows: map<int, DeadlineRow>)
    requires forall i :: 0 <= i < |ids| ==> ids[i] in rows
    requires Scan(ids, rows).Ok?
    ensures |Scan(ids, rows).value| == |ids|
    ensures forall i {:trigger Decode(ids[i], rows[ids[i]])} :: 0 <= i < |ids| ==>
      Decode(ids[i], rows[ids[i]]) == Some(Scan(ids, rows).value[i])
    decreases |ids|
  {
    if ids != [] {
      var front, last := ids[..|ids| - 1], ids[|ids| - 1];
      ScanOk(front, rows);
      var ds := Scan(front, rows).value;
      var d := Decode(last, rows[last]).value;
      assert Scan(ids, rows).value == ds + [d];
      forall i | 0 <= i < |ids|
        ensures Decode(ids[i], rows[ids[i]]) == Some(Scan(ids, rows).value[i])
      {
        if i < |front| {
          assert front[i] == ids[i];
          assert Decode(front[i], rows[front[i]]) == Some(ds[i]);
        }
      }
    }
  }

  /** A scan that fails does so with the error of a row that does not decode. */
  lemma {:induction false} ScanErr(ids: seq<int>, rows: map<int, DeadlineRow>)
    requires forall i :: 0 <= i < |ids| ==> ids[i] in rows
    requires Scan(ids, rows).Err?
    ensures exists i {:trigger Decode(ids[i], rows[ids[i]])} :: 0 <= i < |ids| && Decode(ids[i], rows[ids[i]]).None?
                  && Scan(ids, rows).error == ParseFailure(rows[ids[i]].due)
    decreases |ids|
  {
    var front, last := ids[..|ids| - 1], ids[|ids| - 1];
    if Scan(front, rows).Err? {
      ScanErr(front, rows);
      var i :| 0 <= i < |front| && Decode(front[i], rows[front[i]]).None?
               && Scan(front, rows).error == ParseFailure(rows[front[i]].due);
      assert front[i] == ids[i];
    } else {
      var k := |ids| - 1;
      assert ids[k] == last;
      assert Decode(ids[k], rows[ids[k]]).None?;
    }
  }

  /** A scan of every row in ascending order of the stamp text that succeeds lists the table. */
  lemma {:induction false} ScanListsOk(ids: seq<int>, rows: map<int, DeadlineRow>)
    requires Enumerates(ids, rows.Keys) && SortedByText(ids, DueTexts(rows))
    requires Scan(ids, rows).Ok?
    ensures forall id :: id in rows ==> ParseRfc3339(rows[id].due).Some?
    ensures ListsByDueAt(Scan(ids, rows).value, rows)
  {
    ScanOk(ids, rows);
    var ds := Scan(ids, rows).value;
    forall i | 0 <= i < |ds|
      ensures ds[i].id == ids[i] && ds[i].id in rows && Decode(ds[i].id, rows[ds[i].id]) == Some(ds[i])
    {
      assert Decode(ids[i], rows[ids[i]]) == Some(ds[i]);
    }
    forall id | id in rows
      ensures ParseRfc3339(rows[id].due).Some?
      ensures exists i :: 0 <= i < |ds| && ds[i].id == id
    {
      var i :| 0 <= i < |ids| && ids[i] == id;
      assert Decode(ids[i], rows[ids[i]]) == Some(ds[i]);
    }
    forall i, j | 0 <= i < j < |ds|
      ensures !StrLess(rows[ds[j].id].due, rows[ds[i].id].due)
    {
      assert DueTexts(rows)[ids[i]] == rows[ids[i]].due && DueTexts(rows)[ids[j]] == rows[ids[j]].due;
    }
  }

  /** A scan of every row that fails names a row whose stamp does not parse. */
  lemma {:induction false} ScanListsErr(ids: seq<int>, rows: map<int, DeadlineRow>)
    requires Enumerates(ids, rows.Keys)
    requires Scan(ids, rows).Err?
    ensures exists id :: id in rows && ParseRfc3339(rows[id].due).None?
                         && Scan(ids, rows).error == ParseFailure(rows[id].due)
  {
    ScanErr(ids, rows);
    var i :| 0 <= i < |ids| && Decode(ids[i], rows[ids[i]]).None? && Scan(ids, rows).error == ParseFailure(rows[ids[i]].due);
    assert ids[i] in rows;
  }

  /**
   * `AddDeadline`: store the due time as RFC 3339 text with `reminder_count = 0` and return
   * the record with its new id and the due time as given.
   */
  method AddDeadline(db: Database, title: string, dueAt: UtcTime, fault: Option<string>) returns (r: Result<Deadline>)
    requires db.Valid()
    modifies db
    ensures db.Valid()
    ensures fault.Some? ==> r == Err(fault.value) && db.deadlines == old(db.deadlines)
    ensures fault.None? ==> r == Ok(Deadline(old(db.nextDeadline), title, dueAt, 0))
    ensures fault.None? ==> r.value.id !in old(db.deadlines)
    ensures fault.None? ==> db.deadlines == old(db.deadlines)[r.value.id := RowOf(title, dueAt)]
    ensures db.nextDeadline == old(db.nextDeadline) + (if fault.None? then 1 else 0)
    ensures db.baskets == old(db.baskets) && db.pins == old(db.pins)
    ensures db.nextBasket == old(db.nextBasket) && db.nextPin == old(db.nextPin)
  {
    if fault.Some? {
      return Err(fault.value);
    }
    var id := db.InsertDeadline(title, FormatRfc3339(dueAt.clock));
    r := Ok(Deadline(id, title, dueAt, 0));
  }

  /**
   * `ListDeadlines`: every row ascending by `due_at`, each parsed as it is read; the first
   * row whose text does not parse fails the whole call.
   */
  method ListDeadlines(db: Database, fault: Option<string>) returns (r: Result<seq<Deadline>>)
    ensures fault.Some? ==> r == Err(fault.value)
    ensures fault.None? ==>
      (r.Ok? <==> forall id :: id in db.deadlines ==> ParseRfc3339(db.deadlines[id].due).Some?)
    ensures fault.None? && r.Ok? ==> ListsByDueAt(r.value, db.deadlines)
    ensures fault.None? && r.Err? ==>
      exists id :: id in db.deadlines && ParseRfc3339(db.deadlines[id].due).None?
                   && r.error == ParseFailure(db.deadlines[id].due)
  {
    if fault.Some? {
      return Err(fault.value);
    }
    var rows := db.deadlines;
    var ids := OrderByText(DueTexts(rows));
    var deadlines := [];
    for k := 0 to |ids|
      invariant Scan(ids[..k], rows) == Ok(deadlines)
    {
      var row := rows[ids[k]];
      assert ids[..k + 1][..k] == ids[..k];
      var d := Decode(ids[k], row);
      if d.None? {
        ScanStops(ids, rows, k + 1);
        ScanListsErr(ids, rows);
        return Err(ParseFailure(row.due));
      }
      deadlines := deadlines + [d.value];
    }
    assert ids[..|ids|] == ids;
    ScanListsOk(ids, rows);
    return Ok(deadlines);
  }

  /** `DeleteDeadline`: remove exactly the row with that id; no row removed means it does not exist. */
  method DeleteDeadline(db: Database, id: int, fault: Option<string>) returns (r: Outcome)
    requires db.Valid()
    modifies db
    ensures db.Valid()
    ensures fault.Some? ==> r == Failed(fault.value) && db.deadlines == old(db.deadlines)
    ensures fault.None? ==> (r == Done <==> id in old(db.deadlines))
    ensures fault.None? && r != Done ==> r == Failed(DbStore.DeadlineMissing)
    ensures fault.None? ==> db.deadlines == old(db.deadlines) - {id}
    ensures db.baskets == old(db.baskets) && db.pins == old(db.pins)
    ensures db.nextDeadline == old(db.nextDeadline) && db.nextBasket == old(db.nextBasket) && db.nextPin == old(db.nextPin)
  {
    r := DbStore.DeleteDeadline(db, id, fault);
  }

  /** `UpdateReminderState`: set `reminder_count` of that row and change nothing else. */
  method UpdateReminderState(db: Database, id: int, newCount: int, fault: Option<string>) returns (r: Outcome)
    requires db.Valid()
    modifies db
    ensures db.Valid()
    ensures db.baskets == old(db.baskets) && db.pins == old(db.pins)
    ensures fault.Some? ==> r == Failed(fault.value) && db.deadlines == old(db.deadlines)
    ensures fault.None? ==> (r == Done <==> id in old(db.deadlines))
    ensures fault.None? && r == Done ==>
      db.deadlines == old(db.deadlines)[id := old(db.deadlines)[id].(reminderCount := newCount)]
    ensures fault.None? && r != Done ==> r == Failed(DbStore.DeadlineNotUpdated) && db.deadlines == old(db.deadlines)
    ensures db.nextDeadline == old(db.nextDeadline) && db.nextBasket == old(db.nextBasket) && db.nextPin == old(db.nextPin)
  {
    r := DbStore.UpdateReminderState(db, id, newCount, fault);
  }
}
