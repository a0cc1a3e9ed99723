/**
 * The SQLite database the `DBStore` revisions talk to, modelled on values: the three
 * tables of the schema as maps from row id to row, the AUTOINCREMENT counters, the
 * UNIQUE constraint on basket names and the foreign key from pins to baskets with
 * ON DELETE CASCADE (foreign keys are switched on when the store is opened), and the
 * statements the stores issue. Text columns compare with SQLite's BINARY collation
 * (`Text.StrLess`).
 */
module Tables {
  import opened Results
  import opened Text
  import opened Collections

  /** A row of `deadlines`: `title`, the date-time text column and `reminder_count`. */
  datatype DeadlineRow = DeadlineRow(title: string, due: string, reminderCount: int)

  /** A row of `pins`: `content` and `basket_id`. */
  datatype PinRow = PinRow(content: string, basketId: int)

  const UniqueNameError: string := "UNIQUE constraint failed: baskets.name"
  const ForeignKeyError: string := "FOREIGN KEY constraint failed"

  /** No two keys of `m` hold the same value. */
  ghost predicate Injective(m: map<int, string>) {
    forall a, b :: a in m && b in m && m[a] == m[b] ==> a == b
  }

  /** The pins whose `basket_id` is `basketId`. */
  function PinsOf(pins: map<int, PinRow>, basketId: int): (r: map<int, PinRow>)
    ensures forall id :: id in r <==> id in pins && pins[id].basketId == basketId
    ensures forall id :: id in r ==> r[id] == pins[id]
  {
    map id | id in pins && pins[id].basketId == basketId :: pins[id]
  }

  /** The pins that survive deleting the basket `basketId` with ON DELETE CASCADE. */
  function PinsNotOf(pins: map<int, PinRow>, basketId: int): (r: map<int, PinRow>)
    ensures forall id :: id in r <==> id in pins && pins[id].basketId != basketId
    ensures forall id :: id in r ==> r[id] == pins[id]
  {
    map id | id in pins && pins[id].basketId != basketId :: pins[id]
  }

  /** The rows `WHERE datetime < now`. */
  function Expired(rows: map<int, DeadlineRow>, now: string): (r: map<int, DeadlineRow>)
    ensures forall id :: id in r <==> id in rows && StrLess(rows[id].due, now)
    ensures forall id :: id in r ==> r[id] == rows[id]
  {
    map id | id in rows && StrLess(rows[id].due, now) :: rows[id]
  }

  /** The rows that survive `DELETE FROM deadlines WHERE datetime < now`. */
  function Unexpired(rows: map<int, DeadlineRow>, now: string): (r: map<int, DeadlineRow>)
    ensures forall id :: id in r <==> id in rows && !StrLess(rows[id].due, now)
    ensures forall id :: id in r ==> r[id] == rows[id]
  {
    map id | id in rows && !StrLess(rows[id].due, now) :: rows[id]
  }

  /** The rows `WHERE datetime > now AND reminder_count < max`. */
  function Active(rows: map<int, DeadlineRow>, now: string, max: int): (r: map<int, DeadlineRow>)
    ensures forall id :: id in r <==> id in rows && StrLess(now, rows[id].due) && rows[id].reminderCount < max
    ensures forall id :: id in r ==> r[id] == rows[id]
  {
    map id | id in rows && StrLess(now, rows[id].due) && rows[id].reminderCount < max :: rows[id]
  }

  /** The date-time text of each row, the key `ORDER BY datetime` sorts on. */
  function DueTexts(rows: map<int, DeadlineRow>): (r: map<int, string>)
    ensures r.Keys == rows.Keys
    ensures forall id :: id in r ==> r[id] == rows[id].due
  {
    map id | id in rows :: rows[id].due
  }

  /** A row is never both expired and active, and a row due at `now` itself is neither. */
  lemma {:induction false} ExpiredActiveDisjoint(rows: map<int, DeadlineRow>, now: string, max: int, id: int)
    requires id in rows
    ensures !(id in Expired(rows, now) && id in Active(rows, now, max))
    ensures rows[id].due == now ==> id !in Expired(rows, now) && id !in Active(rows, now, max)
  {
    if StrLess(rows[id].due, now) {
      StrLessAsymmetric(rows[id].due, now);
    }
    StrLessIrreflexive(now);
  }

  /**
   * When the clock the delete reads (`expiryNow`) and the one the activity query reads
   * later (`activeNow`) differ, a row due from the first up to the second is neither
   * deleted nor active.
   */
  lemma {:induction false} MinuteTurnSkips(rows: map<int, DeadlineRow>, expiryNow: string, activeNow: string, max: int, id: int)
    requires id in rows
    requires !StrLess(rows[id].due, expiryNow) && !StrLess(activeNow, rows[id].due)
    ensures id !in Expired(rows, expiryNow)
    ensures id in Unexpired(rows, expiryNow)
    ensures id !in Active(Unexpired(rows, expiryNow), activeNow, max)
  {
    assert Unexpired(rows, expiryNow)[id] == rows[id];
  }

  /** Deleting the expired rows leaves exactly the others. */
  lemma {:induction false} ExpiredSplit(rows: map<int, DeadlineRow>, now: string)
    ensures Expired(rows, now).Keys !! Unexpired(rows, now).Keys
    ensures Expired(rows, now).Keys + Unexpired(rows, now).Keys == rows.Keys
  {
  }

  // ----- ORDER BY -----

  /** `ids` is in ascending order of the text `key` gives it (ties in any order). */
  ghost predicate SortedByText(ids: seq<int>, key: map<int, string>) {
    (forall i :: 0 <= i < |ids| ==> ids[i] in key)
    && (forall i, j :: 0 <= i < j < |ids| ==> !StrLess(key[ids[j]], key[ids[i]]))
  }

  /** The id of the basket called `name`. */
  lemma {:induction false} NameHasId(baskets: map<int, string>, name: string)
    requires name in baskets.Values
    ensures exists id :: id in baskets && baskets[id] == name
  {
    if forall id :: id in baskets ==> baskets[id] != name {
      assert false;
    }
  }

  ghost function IdOfName(baskets: map<int, string>, name: string): (id: int)
    requires name in baskets.Values
    ensures id in baskets && baskets[id] == name
  {
    NameHasId(baskets, name);
    var id :| id in baskets && baskets[id] == name; id
  }

  /** With UNIQUE names the id of a name is the only one. */
  lemma {:induction false} IdOfNameUnique(baskets: map<int, string>, name: string, id: int)
    requires Injective(baskets) && id in baskets && baskets[id] == name
    ensures IdOfName(baskets, name) == id
  {
  }

  /** A finite non-empty set of rows has one whose key no other row's key is below. */
  lemma {:induction false} LeastTextExists(rows: set<int>, key: map<int, string>)
    requires rows != {} && rows <= key.Keys
    ensures exists m :: m in rows && forall o :: o in rows ==> !StrLess(key[o], key[m])
    decreases |rows|
  {
    var x := SomeMember(rows);
    if rows == {x} {
      StrLessIrreflexive(key[x]);
    } else {
      var rest := rows - {x};
      LeastTextExists(rest, key);
      var m :| m in rest && forall o :: o in rest ==> !StrLess(key[o], key[m]);
      if StrLess(key[x], key[m]) {
        forall o | o in rows ensures !StrLess(key[o], key[x]) {
          if o == x {
            StrLessIrreflexive(key[x]);
          } else if StrLess(key[o], key[x]) {
            StrLessTransitive(key[o], key[x], key[m]);
          }
        }
      } else {
        forall o | o in rows ensures !StrLess(key[o], key[m]) {
          if o != x {
            assert o in rest;
          }
        }
      }
    }
  }

  /**
   * `ORDER BY <text column> ASC` over the rows `key` maps: emits every row once, each
   * time one of the remaining rows with the least key. SQLite leaves the order of equal
   * keys open, and so does the model.
   */
  method OrderByText(key: map<int, string>) returns (ids: seq<int>)
    ensures Enumerates(ids, key.Keys)
    ensures SortedByText(ids, key)
  {
    ids := [];
    var remaining := key.Keys;
    while remaining != {}
      invariant remaining <= key.Keys
      invariant forall i, j :: 0 <= i < j < |ids| ==> ids[i] != ids[j]
      invariant forall id :: id in ids <==> id in key && id !in remaining
      invariant SortedByText(ids, key)
      invariant forall i, o :: 0 <= i < |ids| && o in remaining ==> !StrLess(key[o], key[ids[i]])
      decreases |remaining|
    {
      LeastTextExists(remaining, key);
      var m :| m in remaining && forall o :: o in remaining ==> !StrLess(key[o], key[m]);
      ids := ids + [m];
      remaining := remaining - {m};
    }
  }

  /** A finite non-empty set of ids has a least one. */
  lemma {:induction false} LeastIdExists(ids: set<int>)
    requires ids != {}
    ensures exists m :: m in ids && forall o :: o in ids ==> m <= o
    decreases |ids|
  {
    var x := SomeMember(ids);
    if ids != {x} {
      var rest := ids - {x};
      LeastIdExists(rest);
      var m :| m in rest && forall o :: o in rest ==> m <= o;
      var least := if x < m then x else m;
      forall o | o in ids ensures least <= o {
        if o != x {
          assert o in rest;
        }
      }
      assert least in ids;
    }
  }

  /** `ORDER BY id ASC`: every id once, strictly ascending. */
  method OrderById(keys: set<int>) returns (ids: seq<int>)
    ensures forall i :: 0 <= i < |ids| ==> ids[i] in keys
    ensures forall id :: id in ids <==> id in keys
    ensures forall i, j :: 0 <= i < j < |ids| ==> ids[i] < ids[j]
  {
    ids := [];
    var remaining := keys;
    while remaining != {}
      invariant remaining <= keys
      invariant forall i :: 0 <= i < |ids| ==> ids[i] in keys
      invariant forall id :: id in ids <==> id in keys && id !in remaining
      invariant forall i, j :: 0 <= i < j < |ids| ==> ids[i] < ids[j]
      invariant forall i, o :: 0 <= i < |ids| && o in remaining ==> ids[i] < o
      decreases |remaining|
    {
      LeastIdExists(remaining);
      var m :| m in remaining && forall o :: o in remaining ==> m <= o;
      ids := ids + [m];
      remaining := remaining - {m};
    }
  }

  // ----- the database -----

  class Database {
    var deadlines: map<int, DeadlineRow>
    var baskets: map<int, string>
    var pins: map<int, PinRow>
    /** The next id AUTOINCREMENT hands out in each table. */
    var nextDeadline: int
    var nextBasket: int
    var nextPin: int

    /**
     * Ids are positive and below their table's counter, basket names are UNIQUE, and
     * every pin's `basket_id` names a basket (the foreign key).
     */
    ghost predicate Valid()
      reads this
    {
      0 < nextDeadline && 0 < nextBasket && 0 < nextPin
      && (forall id :: id in deadlines ==> 0 < id < nextDeadline)
      && (forall id :: id in baskets ==> 0 < id < nextBasket)
      && (forall id :: id in pins ==> 0 < id < nextPin)
      && Injective(baskets)
      && (forall id :: id in pins ==> pins[id].basketId in baskets)
    }

    /** A database file whose tables `CREATE TABLE IF NOT EXISTS` has just created. */
    constructor ()
      ensures Valid()
      ensures deadlines == map[] && baskets == map[] && pins == map[]
      ensures nextDeadline == 1 && nextBasket == 1 && nextPin == 1
    {
      deadlines, baskets, pins := map[], map[], map[];
      nextDeadline, nextBasket, nextPin := 1, 1, 1;
    }

    /** `INSERT INTO deadlines (title, datetime, reminder_count) VALUES (?, ?, 0)`. */
    method InsertDeadline(title: string, due: string) returns (id: int)
      requires Valid()
      modifies this
      ensures Valid()
      ensures id == old(nextDeadline) && id !in old(deadlines)
      ensures deadlines == old(deadlines)[id := DeadlineRow(title, due, 0)]
      ensures nextDeadline == old(nextDeadline) + 1
      ensures baskets == old(baskets) && pins == old(pins)
      ensures nextBasket == old(nextBasket) && nextPin == old(nextPin)
    {
      id := nextDeadline;
      deadlines := deadlines[id := DeadlineRow(title, due, 0)];
      nextDeadline := nextDeadline + 1;
    }

    /** `DELETE FROM deadlines WHERE id = ?`, returning the number of rows affected. */
    method DeleteDeadline(id: int) returns (affected: nat)
      requires Valid()
      modifies this
      ensures Valid()
      ensures affected == (if id in old(deadlines) then 1 else 0)
      ensures deadlines == old(deadlines) - {id}
      ensures baskets == old(baskets) && pins == old(pins)
      ensures nextDeadline == old(nextDeadline) && nextBasket == old(nextBasket) && nextPin == old(nextPin)
    {
      affected := if id in deadlines then 1 else 0;
      deadlines := deadlines - {id};
    }

    /** `UPDATE deadlines SET reminder_count = ? WHERE id = ?`. */
    method UpdateReminderCount(id: int, count: int) returns (affected: nat)
      requires Valid()
      modifies this
      ensures Valid()
      ensures affected == (if id in old(deadlines) then 1 else 0)
      ensures id in old(deadlines) ==> deadlines == old(deadlines)[id := old(deadlines)[id].(reminderCount := count)]
      ensures id !in old(deadlines) ==> deadlines == old(deadlines)
      ensures baskets == old(baskets) && pins == old(pins)
      ensures nextDeadline == old(nextDeadline) && nextBasket == old(nextBasket) && nextPin == old(nextPin)
    {
      if id in deadlines {
        deadlines := deadlines[id := deadlines[id].(reminderCount := count)];
        affected := 1;
      } else {
        affected := 0;
      }
    }

    /** `DELETE FROM deadlines WHERE datetime < ?`. */
    method DeleteExpired(now: string)
      requires Valid()
      modifies this
      ensures Valid()
      ensures deadlines == Unexpired(old(deadlines), now)
      ensures baskets == old(baskets) && pins == old(pins)
      ensures nextDeadline == old(nextDeadline) && nextBasket == old(nextBasket) && nextPin == old(nextPin)
    {
      deadlines := Unexpired(deadlines, now);
    }

    /** `INSERT INTO baskets (name) VALUES (?)`; a taken name violates UNIQUE. */
    method InsertBasket(name: string) returns (err: Option<string>)
      requires Valid()
      modifies this
      ensures Valid()
      ensures err.Some? <==> name in old(baskets).Values
      ensures err.Some? ==> err.value == UniqueNameError && baskets == old(baskets) && nextBasket == old(nextBasket)
      ensures err.None? ==> baskets == old(baskets)[old(nextBasket) := name] && nextBasket == old(nextBasket) + 1
      ensures old(nextBasket) !in old(baskets)
      ensures deadlines == old(deadlines) && pins == old(pins)
      ensures nextDeadline == old(nextDeadline) && nextPin == old(nextPin)
    {
      if name in baskets.Values {
        err := Some(UniqueNameError);
      } else {
        var id := nextBasket;
        baskets := baskets[id := name];
        nextBasket := nextBasket + 1;
        err := None;
      }
    }

    /** `SELECT id FROM baskets WHERE name = ?`: the id it scans, or `sql.ErrNoRows` as `None`. */
    method SelectBasketId(name: string) returns (r: Option<int>)
      requires Valid()
      ensures r.Some? ==> name in baskets.Values && r.value == IdOfName(baskets, name)
      ensures r.None? <==> name !in baskets.Values
    {
      if name in baskets.Values {
        if forall id :: id in baskets ==> baskets[id] != name {
          assert false;
        }
        var id :| id in baskets && baskets[id] == name;
        IdOfNameUnique(baskets, name, id);
        r := Some(id);
      } else {
        r := None;
      }
    }

    /** `DELETE FROM baskets WHERE name = ?`; ON DELETE CASCADE removes the basket's pins. */
    method DeleteBasket(name: string) returns (affected: nat)
      requires Valid()
      modifies this
      ensures Valid()
      ensures affected == (if name in old(baskets).Values then 1 else 0)
      ensures name in old(baskets).Values ==>
        exists id :: id in old(baskets) && old(baskets)[id] == name
                     && baskets == old(baskets) - {id} && pins == PinsNotOf(old(pins), id)
      ensures name !in old(baskets).Values ==> baskets == old(baskets) && pins == old(pins)
      ensures name !in baskets.Values
      ensures deadlines == old(deadlines)
      ensures nextDeadline == old(nextDeadline) && nextBasket == old(nextBasket) && nextPin == old(nextPin)
    {
      var found := SelectBasketId(name);
      if found.Some? {
        var id := found.value;
        baskets := baskets - {id};
        pins := PinsNotOf(pins, id);
        assert forall k :: k in baskets ==> baskets[k] != name;
        affected := 1;
      } else {
        affected := 0;
      }
    }

    /** `INSERT INTO pins (content, basket_id) VALUES (?, ?)`, checked against the foreign key. */
    method InsertPin(content: string, basketId: int) returns (r: Result<int>)
      requires Valid()
      modifies this
      ensures Valid()
      ensures r.Err? <==> basketId !in old(baskets)
      ensures r.Err? ==> r.error == ForeignKeyError && pins == old(pins) && nextPin == old(nextPin)
      ensures r.Ok? ==> r.value == old(nextPin) && r.value !in old(pins)
      ensures r.Ok? ==> pins == old(pins)[r.value := PinRow(content, basketId)] && nextPin == old(nextPin) + 1
      ensures deadlines == old(deadlines) && baskets == old(baskets)
      ensures nextDeadline == old(nextDeadline) && nextBasket == old(nextBasket)
    {
      if basketId in baskets {
        var id := nextPin;
        pins := pins[id := PinRow(content, basketId)];
        nextPin := nextPin + 1;
        r := Ok(id);
      } else {
        r := Err(ForeignKeyError);
      }
    }

    /** `DELETE FROM pins WHERE basket_id = ? AND id = ?`. */
    method DeletePinOf(basketId: int, id: int) returns (affected: nat)
      requires Valid()
      modifies this
      ensures Valid()
      ensures var hit := id in old(pins) && old(pins)[id].basketId == basketId;
        affected == (if hit then 1 else 0) && pins == (if hit then old(pins) - {id} else old(pins))
      ensures deadlines == old(deadlines) && baskets == old(baskets)
      ensures nextDeadline == old(nextDeadline) && nextBasket == old(nextBasket) && nextPin == old(nextPin)
    {
      if id in pins && pins[id].basketId == basketId {
        pins := pins - {id};
        affected := 1;
      } else {
        affected := 0;
      }
    }

    /** `DELETE FROM pins WHERE id = ?`. */
    method DeletePin(id: int) returns (affected: nat)
      requires Valid()
      modifies this
      ensures Valid()
      ensures affected == (if id in old(pins) then 1 else 0)
      ensures pins == old(pins) - {id}
      ensures deadlines == old(deadlines) && baskets == old(baskets)
      ensures nextDeadline == old(nextDeadline) && nextBasket == old(nextBasket) && nextPin == old(nextPin)
    {
      affected := if id in pins then 1 else 0;
      pins := pins - {id};
    }
  }
}
