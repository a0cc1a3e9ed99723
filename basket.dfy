/**
 * The basket methods of `DBStore` in their own file. They issue the same statements as
 * `DbStore.AddBasket`, `DbStore.ListBaskets` and `DbStore.DeleteBasket`, and so carry the
 * same contracts.
 */
module DbBaskets {
  import opened Results
  import opened Text
  import opened Tables
  import DbStore

  /**
   * `AddBasket`: insert the lowercased name; the UNIQUE constraint turns a duplicate into
   * "basket already exists", other failures pass through. Afterwards the lowercased name
   * is stored whichever way the insert went.
   */
  method AddBasket(db: Database, name: string, fault: Option<string>) returns (r: Outcome)
    requires db.Valid()
    modifies db
    ensures db.Valid()
    ensures fault.Some? ==> db.baskets == old(db.baskets)
    ensures fault.Some? ==>
      r == Failed(if Contains(fault.value, DbStore.UniqueViolation) then DbStore.BasketExists else fault.value)
    ensures fault.None? ==> (r == Done <==> Lower(name) !in old(db.baskets).Values)
    ensures fault.None? && r == Done ==> db.baskets == old(db.baskets)[old(db.nextBasket) := Lower(name)]
    ensures old(db.nextBasket) !in old(db.baskets)
    ensures fault.None? && r != Done ==> r == Failed(DbStore.BasketExists) && db.baskets == old(db.baskets)
    ensures fault.None? ==> Lower(name) in db.baskets.Values
    ensures db.nextBasket == old(db.nextBasket) + (if r == Done then 1 else 0)
    ensures DbStore.LowerNames(old(db.baskets)) ==> DbStore.LowerNames(db.baskets)
    ensures db.deadlines == old(db.deadlines) && db.pins == old(db.pins)
    ensures db.nextDeadline == old(db.nextDeadline) && db.nextPin == old(db.nextPin)
  {
    r := DbStore.AddBasket(db, name, fault);
  }

  /** `ListBaskets`: every stored name once, ascending. */
  method ListBaskets(db: Database, fault: Option<string>) returns (r: Result<seq<string>>)
    requires db.Valid()
    ensures fault.Some? ==> r == Err(fault.value)
    ensures fault.None? ==> r.Ok?
    ensures r.Ok? ==> forall n :: n in r.value <==> n in db.baskets.Values
    ensures r.Ok? ==> forall i, j :: 0 <= i < j < |r.value| ==> r.value[i] != r.value[j]
    ensures r.Ok? ==> forall i, j :: 0 <= i < j < |r.value| ==> !StrLess(r.value[j], r.value[i])
  {
    r := DbStore.ListBaskets(db, fault);
  }

  /**
   * `DeleteBasket`: delete the basket with the lowercased name, and with it (ON DELETE
   * CASCADE) its pins; no row removed means the basket does not exist. So a basket added
   * under one spelling of a name is deleted under any other spelling with the same
   * lowercase form.
   */
  method DeleteBasket(db: Database, name: string, fault: Option<string>) returns (r: Outcome)
    requires db.Valid()
    modifies db
    ensures db.Valid()
    ensures fault.Some? ==> r == Failed(fault.value) && db.baskets == old(db.baskets) && db.pins == old(db.pins)
    ensures fault.None? ==> (r == Done <==> Lower(name) in old(db.baskets).Values)
    ensures fault.None? && r == Done ==>
      var id := IdOfName(old(db.baskets), Lower(name));
      db.baskets == old(db.baskets) - {id} && db.pins == PinsNotOf(old(db.pins), id)
    ensures fault.None? && r != Done ==>
      r == Failed(DbStore.BasketMissing) && db.baskets == old(db.baskets) && db.pins == old(db.pins)
    ensures fault.None? ==> Lower(name) !in db.baskets.Values
    ensures DbStore.LowerNames(old(db.baskets)) ==> DbStore.LowerNames(db.baskets)
    ensures db.deadlines == old(db.deadlines)
    ensures db.nextDeadline == old(db.nextDeadline) && db.nextBasket == old(db.nextBasket) && db.nextPin == old(db.nextPin)
  {
    r := DbStore.DeleteBasket(db, name, fault);
  }
}
