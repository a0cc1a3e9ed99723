/**
 * The SQLite-backed store of `internal/store/db_store.go`: deadlines whose `datetime`
 * column holds `2006-01-02 15:04` text, baskets and pins. Every backend failure (the
 * statement, `LastInsertId`, `RowsAffected`, `Scan`, `rows.Err`, the transaction calls) is a
 * `fault` parameter: when it is present the statement did not take effect and its text is
 * the error. The formatted current time the expiry and activity queries compare with is
 * the parameter `now`.
 */
module DbStore {
  import opened Results
  import opened Text
  import opened Collections
  import opened Tables

  datatype Deadline = Deadline(id: int, title: string, dateTime: string, reminderCount: int)

  datatype Pin = Pin(id: int, content: string)

  /** `maxReminderCount`: one reminder per entry of the reminder schedule. */
  const MaxReminderCount: int := 5

  const DeadlineMissing: string := "deadline does not exist"
  const DeadlineNotUpdated: string := "deadline not found for update"
  const BasketExists: string := "basket already exists"
  const BasketMissing: string := "basket does not exist"
  const PinMissing: string := "pin does not exist"
  const UniqueViolation: string := "UNIQUE constraint failed"

  /** What `rows.Scan(&d.ID, &d.Title, &d.DateTime, &d.ReminderCount)` reads from a row. */
  function RecordOf(id: int, row: DeadlineRow): (d: Deadline)
    ensures d.id == id && d.title == row.title && d.dateTime == row.due && d.reminderCount == row.reminderCount
  {
    Deadline(id, row.title, row.due, row.reminderCount)
  }

  /** Every stored basket name is lowercase: the store only ever inserts lowercased names. */
  ghost predicate LowerNames(baskets: map<int, string>) {
    forall id :: id in baskets ==> IsLower(baskets[id])
  }

  /** `ds` holds every row of `rows` exactly once, as the row reads. */
  ghost predicate Lists(ds: seq<Deadline>, rows: map<int, DeadlineRow>) {
    (forall i :: 0 <= i < |ds| ==> ds[i].id in rows && ds[i] == RecordOf(ds[i].id, rows[ds[i].id]))
    && (forall i, j :: 0 <= i < j < |ds| ==> ds[i].id != ds[j].id)
    && (forall id :: id in rows ==> exists i :: 0 <= i < |ds| && ds[i].id == id)
  }

  /** `Lists`, in ascending order of the `datetime` text. */
  ghost predicate ListsByDateTime(ds: seq<Deadline>, rows: map<int, DeadlineRow>) {
    Lists(ds, rows) && forall i, j :: 0 <= i < j < |ds| ==> !StrLess(ds[j].dateTime, ds[i].dateTime)
  }

  /** The `for rows.Next()` loop: read the rows `ids` names, in that order. */
  method ScanDeadlines(rows: map<int, DeadlineRow>, ids: seq<int>) returns (ds: seq<Deadline>)
    requires forall i :: 0 <= i < |ids| ==> ids[i] in rows
    ensures |ds| == |ids|
    ensures forall i :: 0 <= i < |ids| ==> ds[i] == RecordOf(ids[i], rows[ids[i]])
  {
    ds := [];
    for k := 0 to |ids|
      invariant |ds| == k
      invariant forall i :: 0 <= i < k ==> ds[i] == RecordOf(ids[i], rows[ids[i]])
    {
      ds := ds + [RecordOf(ids[k], rows[ids[k]])];
    }
  }

  /** Reading the rows of an enumeration of `rows` lists them. */
  lemma {:induction false} ScannedLists(rows: map<int, DeadlineRow>, ids: seq<int>, ds: seq<Deadline>)
    requires Enumerates(ids, rows.Keys)
    requires |ds| == |ids| && forall i :: 0 <= i < |ids| ==> ds[i] == RecordOf(ids[i], rows[ids[i]])
    ensures Lists(ds, rows)
  {
    forall id | id in rows ensures exists i :: 0 <= i < |ds| && ds[i].id == id {
      var i :| 0 <= i < |ids| && ids[i] == id;
      assert ds[i].id == id;
    }
  }

  /** `NewDBStore`: a freshly created database file, or the error `sql.Open` reports. */
  method NewDbStore(openFault: Option<string>) returns (r: Result<Database>)
    ensures r.Err? <==> openFault.Some?
    ensures r.Err? ==> r.error == openFault.value
    ensures r.Ok? ==> fresh(r.value) && r.value.Valid()
    ensures r.Ok? ==> r.value.deadlines == map[] && r.value.baskets == map[] && r.value.pins == map[]
    ensures r.Ok? ==> r.value.nextDeadline == 1 && r.value.nextBasket == 1 && r.value.nextPin == 1
    ensures r.Ok? ==> LowerNames(r.value.baskets)
  {
    if openFault.Some? {
      return Err(openFault.value);
    }
    var db := new Database();
    r := Ok(db);
  }

  /** `AddDeadline`: insert a row with `reminder_count = 0` and return it with its new id. */
  method AddDeadline(db: Database, title: string, dateTime: string, fault: Option<string>) returns (r: Result<Deadline>)
    requires db.Valid()
    modifies db
    ensures db.Valid()
    ensures fault.Some? ==> r == Err(fault.value) && db.deadlines == old(db.deadlines)
    ensures fault.None? ==> r == Ok(Deadline(old(db.nextDeadline), title, dateTime, 0))
    ensures fault.None? ==> r.value.id !in old(db.deadlines)
    ensures fault.None? ==> db.deadlines == old(db.deadlines)[r.value.id := DeadlineRow(title, dateTime, 0)]
    ensures db.nextDeadline == old(db.nextDeadline) + (if fault.None? then 1 else 0)
    ensures db.baskets == old(db.baskets) && db.pins == old(db.pins)
    ensures db.nextBasket == old(db.nextBasket) && db.nextPin == old(db.nextPin)
  {
    if fault.Some? {
      return Err(fault.value);
    }
    var id := db.InsertDeadline(title, dateTime);
    r := Ok(Deadline(id, title, dateTime, 0));
  }

  /** `ListDeadlines`: every deadline, ascending by `datetime`. */
  method ListDeadlines(db: Database, fault: Option<string>) returns (r: Result<seq<Deadline>>)
    ensures fault.Some? ==> r == Err(fault.value)
    ensures fault.None? ==> r.Ok? && ListsByDateTime(r.value, db.deadlines)
  {
    if fault.Some? {
      return Err(fault.value);
    }
    var key := DueTexts(db.deadlines);
    var ids := OrderByText(key);
    var ds := ScanDeadlines(db.deadlines, ids);
    ScannedLists(db.deadlines, ids, ds);
    r := Ok(ds);
  }

  /** `DeleteDeadline`: remove the row with that id; no row affected is "deadline does not exist". */
  method DeleteDeadline(db: Database, id: int, fault: Option<string>) returns (r: Outcome)
    requires db.Valid()
    modifies db
    ensures db.Valid()
    ensures fault.Some? ==> r == Failed(fault.value) && db.deadlines == old(db.deadlines)
    ensures fault.None? ==> (r == Done <==> id in old(db.deadlines))
    ensures fault.None? && r != Done ==> r == Failed(DeadlineMissing)
    ensures fault.None? ==> db.deadlines == old(db.deadlines) - {id}
    ensures db.baskets == old(db.baskets) && db.pins == old(db.pins)
    ensures db.nextDeadline == old(db.nextDeadline) && db.nextBasket == old(db.nextBasket) && db.nextPin == old(db.nextPin)
  {
    if fault.Some? {
      return Failed(fault.value);
    }
    var count := db.DeleteDeadline(id);
    r := if count == 0 then Failed(DeadlineMissing) else Done;
  }

  /** The engine's duplicate-name error carries the text `AddBasket` looks for. */
  lemma {:induction false} UniqueErrorIsViolation()
    ensures Contains(UniqueNameError, UniqueViolation)
  {
    ContainsInside("", UniqueViolation, ": baskets.name");
    assert "" + UniqueViolation + ": baskets.name" == UniqueNameError;
  }

  /** `AddBasket`: insert the lower-cased name; a UNIQUE violation is "basket already exists". */
  method AddBasket(db: Database, name: string, fault: Option<string>) returns (r: Outcome)
    requires db.Valid()
    modifies db
    ensures db.Valid()
    ensures fault.Some? ==> db.baskets == old(db.baskets)
    ensures fault.Some? ==> r == Failed(if Contains(fault.value, UniqueViolation) then BasketExists else fault.value)
    ensures fault.None? ==> (r == Done <==> Lower(name) !in old(db.baskets).Values)
    ensures fault.None? && r == Done ==> db.baskets == old(db.baskets)[old(db.nextBasket) := Lower(name)]
    ensures old(db.nextBasket) !in old(db.baskets)
    ensures fault.None? && r != Done ==> r == Failed(BasketExists) && db.baskets == old(db.baskets)
    ensures fault.None? ==> Lower(name) in db.baskets.Values
    ensures db.nextBasket == old(db.nextBasket) + (if r == Done then 1 else 0)
    ensures LowerNames(old(db.baskets)) ==> LowerNames(db.baskets)
    ensures db.deadlines == old(db.deadlines) && db.pins == old(db.pins)
    ensures db.nextDeadline == old(db.nextDeadline) && db.nextPin == old(db.nextPin)
  {
    var err: Option<string>;
    if fault.Some? {
      err := fault;
    } else {
      ghost var key := db.nextBasket;
      err := db.InsertBasket(Lower(name));
      UniqueErrorIsViolation();
      if err.None? {
        assert db.baskets[key] == Lower(name);
      }
    }
    if err.Some? {
      if Contains(err.value, UniqueViolation) {
        return Failed(BasketExists);
      }
      return Failed(err.value);
    }
    r := Done;
  }

  /** `ListBaskets`: every basket name once, ascending. */
  method ListBaskets(db: Database, fault: Option<string>) returns (r: Result<seq<string>>)
    requires db.Valid()
    ensures fault.Some? ==> r == Err(fault.value)
    ensures fault.None? ==> r.Ok?
    ensures r.Ok? ==> forall n :: n in r.value <==> n in db.baskets.Values
    ensures r.Ok? ==> forall i, j :: 0 <= i < j < |r.value| ==> r.value[i] != r.value[j]
    ensures r.Ok? ==> forall i, j :: 0 <= i < j < |r.value| ==> !StrLess(r.value[j], r.value[i])
  {
    if fault.Some? {
      return Err(fault.value);
    }
    var ids := OrderByText(db.baskets);
    var names := [];
    for k := 0 to |ids|
      invariant |names| == k
      invariant forall i :: 0 <= i < k ==> names[i] == db.baskets[ids[i]]
    {
      names := names + [db.baskets[ids[k]]];
    }
    forall n | n in db.baskets.Values ensures n in names {
      var id := IdOfName(db.baskets, n);
      var i :| 0 <= i < |ids| && ids[i] == id;
      assert names[i] == n;
    }
    r := Ok(names);
  }

  /**
   * `DeleteBasket`: delete the basket with the lower-cased name; its pins go with it
   * (ON DELETE CASCADE). No row affected is "basket does not exist".
   */
  method DeleteBasket(db: Database, name: string, fault: Option<string>) returns (r: Outcome)
    requires db.Valid()
    modifies db
    ensures db.Valid()
    ensures fault.Some? ==> r == Failed(fault.value) && db.baskets == old(db.baskets) && db.pins == old(db.pins)
    ensures fault.None? ==> (r == Done <==> Lower(name) in old(db.baskets).Values)
    ensures fault.None? && r == Done ==>
      var id := IdOfName(old(db.baskets), Lower(name));
      db.baskets == old(db.baskets) - {id} && db.pins == PinsNotOf(old(db.pins), id)
    ensures fault.None? && r != Done ==> r == Failed(BasketMissing) && db.baskets == old(db.baskets) && db.pins == old(db.pins)
    ensures fault.None? ==> Lower(name) !in db.baskets.Values
    ensures LowerNames(old(db.baskets)) ==> LowerNames(db.baskets)
    ensures db.deadlines == old(db.deadlines)
    ensures db.nextDeadline == old(db.nextDeadline) && db.nextBasket == old(db.nextBasket) && db.nextPin == old(db.nextPin)
  {
    if fault.Some? {
      return Failed(fault.value);
    }
    ghost var before := db.baskets;
    var count := db.DeleteBasket(Lower(name));
    if count == 0 {
      return Failed(BasketMissing);
    }
    ghost var id :| id in before && before[id] == Lower(name) && db.baskets == before - {id} && db.pins == PinsNotOf(old(db.pins), id);
    IdOfNameUnique(before, Lower(name), id);
    r := Done;
  }

  /**
   * `AddPin`: look the basket up by its lower-cased name ("basket does not exist" when
   * there is none), then insert the pin under it and return it with its new id.
   */
  method AddPin(db: Database, basketName: string, content: string, lookupFault: Option<string>, insertFault: Option<string>)
    returns (r: Result<Pin>)
    requires db.Valid()
    modifies db
    ensures db.Valid()
    ensures db.deadlines == old(db.deadlines) && db.baskets == old(db.baskets)
    ensures lookupFault.Some? ==> r == Err(lookupFault.value) && db.pins == old(db.pins)
    ensures lookupFault.None? && Lower(basketName) !in old(db.baskets).Values ==> r == Err(BasketMissing) && db.pins == old(db.pins)
    ensures lookupFault.None? && Lower(basketName) in old(db.baskets).Values && insertFault.Some? ==>
      r == Err(insertFault.value) && db.pins == old(db.pins)
    ensures lookupFault.None? && Lower(basketName) in old(db.baskets).Values && insertFault.None? ==>
      r == Ok(Pin(old(db.nextPin), content)) && old(db.nextPin) !in old(db.pins)
      && db.pins == old(db.pins)[old(db.nextPin) := PinRow(content, IdOfName(old(db.baskets), Lower(basketName)))]
    ensures db.nextPin == old(db.nextPin) + (if r.Ok? then 1 else 0)
    ensures db.nextDeadline == old(db.nextDeadline) && db.nextBasket == old(db.nextBasket)
  {
    if lookupFault.Some? {
      return Err(lookupFault.value);
    }
    var basketId := db.SelectBasketId(Lower(basketName));
    if basketId.None? {
      return Err(BasketMissing);
    }
    if insertFault.Some? {
      return Err(insertFault.value);
    }
    var inserted := db.InsertPin(content, basketId.value);
    r := Ok(Pin(inserted.value, content));
  }

  /** `ListPins`: the basket's pins ascending by id; the name is looked up as given. */
  method ListPins(db: Database, basketName: string, lookupFault: Option<string>, queryFault: Option<string>)
    returns (r: Result<seq<Pin>>)
    requires db.Valid()
    ensures lookupFault.Some? ==> r == Err(lookupFault.value)
    ensures lookupFault.None? && basketName !in db.baskets.Values ==> r == Err(BasketMissing)
    ensures lookupFault.None? && basketName in db.baskets.Values && queryFault.Some? ==> r == Err(queryFault.value)
    ensures lookupFault.None? && basketName in db.baskets.Values && queryFault.None? ==> r.Ok?
    ensures r.Ok? ==> basketName in db.baskets.Values
    ensures r.Ok? ==>
      var mine := PinsOf(db.pins, IdOfName(db.baskets, basketName));
      (forall p :: p in r.value <==> p.id in mine && p.content == mine[p.id].content)
      && (forall i, j :: 0 <= i < j < |r.value| ==> r.value[i].id < r.value[j].id)
  {
    if lookupFault.Some? {
      return Err(lookupFault.value);
    }
    var basketId := db.SelectBasketId(basketName);
    if basketId.None? {
      return Err(BasketMissing);
    }
    if queryFault.Some? {
      return Err(queryFault.value);
    }
    var mine := PinsOf(db.pins, basketId.value);
    var ids := OrderById(mine.Keys);
    var ps := [];
    for k := 0 to |ids|
      invariant |ps| == k
      invariant forall i :: 0 <= i < k ==> ps[i] == Pin(ids[i], mine[ids[i]].content)
    {
      ps := ps + [Pin(ids[k], mine[ids[k]].content)];
    }
    forall p: Pin | p.id in mine && p.content == mine[p.id].content ensures p in ps {
      var i :| 0 <= i < |ids| && ids[i] == p.id;
      assert ps[i] == p;
    }
    r := Ok(ps);
  }

  /**
   * `DeletePin`: look the basket up by its lower-cased name, then delete the pin only if it
   * belongs to that basket ("basket does not exist" / "pin does not exist").
   */
  method DeletePin(db: Database, basketName: string, id: int, lookupFault: Option<string>, execFault: Option<string>)
    returns (r: Outcome)
    requires db.Valid()
    modifies db
    ensures db.Valid()
    ensures db.deadlines == old(db.deadlines) && db.baskets == old(db.baskets)
    ensures lookupFault.Some? ==> r == Failed(lookupFault.value) && db.pins == old(db.pins)
    ensures lookupFault.None? && Lower(basketName) !in old(db.baskets).Values ==> r == Failed(BasketMissing) && db.pins == old(db.pins)
    ensures lookupFault.None? && Lower(basketName) in old(db.baskets).Values && execFault.Some? ==>
      r == Failed(execFault.value) && db.pins == old(db.pins)
    ensures lookupFault.None? && Lower(basketName) in old(db.baskets).Values && execFault.None? ==>
      var hit := id in old(db.pins) && old(db.pins)[id].basketId == IdOfName(old(db.baskets), Lower(basketName));
      (r == Done <==> hit) && (r != Done ==> r == Failed(PinMissing))
      && db.pins == (if hit then old(db.pins) - {id} else old(db.pins))
    ensures db.nextDeadline == old(db.nextDeadline) && db.nextBasket == old(db.nextBasket) && db.nextPin == old(db.nextPin)
  {
    if lookupFault.Some? {
      return Failed(lookupFault.value);
    }
    var basketId := db.SelectBasketId(Lower(basketName));
    if basketId.None? {
      return Failed(BasketMissing);
    }
    if execFault.Some? {
      return Failed(execFault.value);
    }
    var count := db.DeletePinOf(basketId.value, id);
    r := if count == 0 then Failed(PinMissing) else Done;
  }

  /**
   * `DeleteExpiredDeadlines`: in one transaction, read the rows `WHERE datetime < now` and
   * delete them. A failure before the delete, or of the delete or the commit, rolls the
   * transaction back, so the call deletes everything it reports or nothing at all.
   */
  method DeleteExpiredDeadlines(db: Database, now: string, queryFault: Option<string>, commitFault: Option<string>)
    returns (r: Result<seq<Deadline>>)
    requires db.Valid()
    modifies db
    ensures db.Valid()
    ensures db.baskets == old(db.baskets) && db.pins == old(db.pins)
    ensures r.Err? <==> queryFault.Some? || commitFault.Some?
    ensures r.Err? ==> db.deadlines == old(db.deadlines)
    ensures r.Ok? ==> Lists(r.value, Expired(old(db.deadlines), now))
    ensures r.Ok? ==> db.deadlines == Unexpired(old(db.deadlines), now)
    ensures db.nextDeadline == old(db.nextDeadline) && db.nextBasket == old(db.nextBasket) && db.nextPin == old(db.nextPin)
  {
    if queryFault.Some? {
      return Err(queryFault.value);
    }
    var expired := Expired(db.deadlines, now);
    var ids := Enumerate(expired.Keys);
    var ds := ScanDeadlines(expired, ids);
    ScannedLists(expired, ids, ds);
    var saved := db.deadlines;
    db.DeleteExpired(now);
    if commitFault.Some? {
      db.deadlines := saved;
      return Err(commitFault.value);
    }
    r := Ok(ds);
  }

  /**
   * `GetAllActiveDeadlines`: the rows `WHERE datetime > now AND reminder_count < 5`,
   * ascending by `datetime`.
   */
  method GetAllActiveDeadlines(db: Database, now: string, fault: Option<string>) returns (r: Result<seq<Deadline>>)
    ensures fault.Some? ==> r == Err(fault.value)
    ensures fault.None? ==> r.Ok? && ListsByDateTime(r.value, Active(db.deadlines, now, MaxReminderCount))
  {
    if fault.Some? {
      return Err(fault.value);
    }
    var active := Active(db.deadlines, now, MaxReminderCount);
    var ids := OrderByText(DueTexts(active));
    var ds := ScanDeadlines(active, ids);
    ScannedLists(active, ids, ds);
    r := Ok(ds);
  }

  /**
   * `UpdateReminderState`: set `reminder_count` of row `id`, nothing else; no row affected
   * is "deadline not found for update".
   */
  method UpdateReminderState(db: Database, id: int, newCount: int, fault: Option<string>) returns (r: Outcome)
    requires db.Valid()
    modifies db
    ensures db.Valid()
    ensures db.baskets == old(db.baskets) && db.pins == old(db.pins)
    ensures fault.Some? ==> r == Failed(fault.value) && db.deadlines == old(db.deadlines)
    ensures fault.None? ==> (r == Done <==> id in old(db.deadlines))
    ensures fault.None? && r == Done ==> db.deadlines == old(db.deadlines)[id := old(db.deadlines)[id].(reminderCount := newCount)]
    ensures fault.None? && r != Done ==> r == Failed(DeadlineNotUpdated) && db.deadlines == old(db.deadlines)
    ensures db.nextDeadline == old(db.nextDeadline) && db.nextBasket == old(db.nextBasket) && db.nextPin == old(db.nextPin)
  {
    if fault.Some? {
      return Failed(fault.value);
    }
    var count := db.UpdateReminderCount(id, newCount);
    r := if count == 0 then Failed(DeadlineNotUpdated) else Done;
  }
}
