/**
 * The pin methods of `DBStore` in their own file. Adding and listing pins issue the same
 * statements as `DbStore.AddPin` and `DbStore.ListPins`; this revision of `DeletePin`
 * deletes a pin by its id alone, whatever basket holds it.
 */
module DbPins {
  import opened Results
  import opened Text
  import opened Tables
  import DbStore

  /**
   * `AddPin`: look the basket up by the lowercased name, then insert one pin under it and
   * return it with its new id.
   */
  method AddPin(db: Database, basketName: string, content: string, lookupFault: Option<string>, insertFault: Option<string>)
    returns (r: Result<DbStore.Pin>)
    requires db.Valid()
    modifies db
    ensures db.Valid()
    ensures db.deadlines == old(db.deadlines) && db.baskets == old(db.baskets)
    ensures lookupFault.Some? ==> r == Err(lookupFault.value) && db.pins == old(db.pins)
    ensures lookupFault.None? && Lower(basketName) !in old(db.baskets).Values ==>
      r == Err(DbStore.BasketMissing) && db.pins == old(db.pins)
    ensures lookupFault.None? && Lower(basketName) in old(db.baskets).Values && insertFault.Some? ==>
      r == Err(insertFault.value) && db.pins == old(db.pins)
    ensures lookupFault.None? && Lower(basketName) in old(db.baskets).Values && insertFault.None? ==>
      r == Ok(DbStore.Pin(old(db.nextPin), content)) && old(db.nextPin) !in old(db.pins)
      && db.pins == old(db.pins)[old(db.nextPin) := PinRow(content, IdOfName(old(db.baskets), Lower(basketName)))]
    ensures db.nextPin == old(db.nextPin) + (if r.Ok? then 1 else 0)
    ensures db.nextDeadline == old(db.nextDeadline) && db.nextBasket == old(db.nextBasket)
  {
    r := DbStore.AddPin(db, basketName, content, lookupFault, insertFault);
  }

  /** `ListPins`: the pins of the basket with exactly that name, ascending by id. */
  method ListPins(db: Database, basketName: string, lookupFault: Option<string>, queryFault: Option<string>)
    returns (r: Result<seq<DbStore.Pin>>)
    requires db.Valid()
    ensures lookupFault.Some? ==> r == Err(lookupFault.value)
    ensures lookupFault.None? && basketName !in db.baskets.Values ==> r == Err(DbStore.BasketMissing)
    ensures lookupFault.None? && basketName in db.baskets.Values && queryFault.Some? ==> r == Err(queryFault.value)
    ensures lookupFault.None? && basketName in db.baskets.Values && queryFault.None? ==> r.Ok?
    ensures r.Ok? ==> basketName in db.baskets.Values
    ensures r.Ok? ==>
      var mine := PinsOf(db.pins, IdOfName(db.baskets, basketName));
      (forall p :: p in r.value <==> p.id in mine && p.content == mine[p.id].content)
      && (forall i, j :: 0 <= i < j < |r.value| ==> r.value[i].id < r.value[j].id)
  {
    r := DbStore.ListPins(db, basketName, lookupFault, queryFault);
  }

  /**
   * Baskets are only ever stored under lowercased names (`DbStore.LowerNames`, which the
   * basket methods keep), and `ListPins` looks the name up verbatim while `AddPin`
   * lowercases it: a name with an upper-case letter whose lowercase form is stored finds
   * its basket in `AddPin` and misses it in `ListPins`.
   */
  lemma {:induction false} VerbatimLookupMissesMixedCase(baskets: map<int, string>, name: string)
    requires DbStore.LowerNames(baskets)
    requires !IsLower(name)
    ensures name !in baskets.Values
    ensures Lower(name) != name
  {
    forall id | id in baskets
      ensures baskets[id] != name
    {
      assert IsLower(baskets[id]);
    }
  }

  /**
   * `DeletePin`: remove the pin with that id from any basket; no row removed means the pin
   * does not exist. A failing statement leaves the table as it was.
   */
  method DeletePin(db: Database, id: int, fault: Option<string>) returns (r: Outcome)
    requires db.Valid()
    modifies db
    ensures db.Valid()
    ensures db.deadlines == old(db.deadlines) && db.baskets == old(db.baskets)
    ensures fault.Some? ==> r == Failed(fault.value) && db.pins == old(db.pins)
    ensures fault.None? ==> (r == Done <==> id in old(db.pins))
    ensures fault.None? && r != Done ==> r == Failed(DbStore.PinMissing)
    ensures fault.None? ==> db.pins == old(db.pins) - {id}
    ensures db.nextDeadline == old(db.nextDeadline) && db.nextBasket == old(db.nextBasket) && db.nextPin == old(db.nextPin)
  {
    if fault.Some? {
      return Failed(fault.value);
    }
    var affected := db.DeletePin(id);
    if affected == 0 {
      return Failed(DbStore.PinMissing);
    }
    return Done;
  }
}
