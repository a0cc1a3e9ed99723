/**
 * `Store`, the first in-memory store: deadlines in the order they were added, the next
 * deadline id, and a map from basket name (taken as given, case and all) to a basket that
 * keeps its own pins and its own next pin id. It has no basket or pin deletion.
 */
module Store {
  import opened Results
  import opened Collections

  datatype Deadline = Deadline(id: int, title: string, date: string)

  datatype Pin = Pin(id: int, content: string)

  /** A basket: its name, its pins in the order they were added, and the id the next pin gets. */
  datatype Basket = Basket(name: string, pins: seq<Pin>, nextPinId: int)

  const DeadlineMissing: string := "deadline does not exist"
  const BasketExists: string := "basket already exists"
  const BasketMissing: string := "basket does not exist"

  function DeadlineId(d: Deadline): int {
    d.id
  }

  function PinId(p: Pin): int {
    p.id
  }

  /** A basket stored under `name`: it carries that name, its pin ids increase and stay below its next pin id. */
  ghost predicate StoredAs(name: string, b: Basket) {
    b.name == name
    && 0 < b.nextPinId
    && IdsIncrease(b.pins, PinId)
    && (forall i :: 0 <= i < |b.pins| ==> 0 < b.pins[i].id < b.nextPinId)
  }

  /** Appending a deadline with an id above every stored one and deleting it again restores the list. */
  lemma {:induction false} DeleteDeadlineUndoesAddDeadline(ds: seq<Deadline>, d: Deadline)
    requires forall i :: 0 <= i < |ds| ==> ds[i].id < d.id
    ensures Drop(ds + [d], DeadlineId, d.id) == ds
  {
    assert !HasId(ds, DeadlineId, d.id);
    DropAppended(ds, d, DeadlineId);
  }

  /** Cutting out the deadline at position `i` is dropping its id, and keeps the ids positive, below `next` and increasing. */
  lemma {:induction false} DeleteKeepsDeadlinesValid(ds: seq<Deadline>, next: int, i: nat)
    requires IdsIncrease(ds, DeadlineId)
    requires forall k :: 0 <= k < |ds| ==> 0 < ds[k].id < next
    requires i < |ds|
    ensures Drop(ds, DeadlineId, ds[i].id) == ds[..i] + ds[i + 1..]
    ensures IdsIncrease(ds[..i] + ds[i + 1..], DeadlineId)
    ensures forall d :: d in ds[..i] + ds[i + 1..] ==> 0 < d.id < next
  {
    assert DistinctIds(ds, DeadlineId);
    DropAt(ds, DeadlineId, i);
    CutIncrease(ds, DeadlineId, i);
    var cut := ds[..i] + ds[i + 1..];
    forall d | d in cut
      ensures 0 < d.id < next
    {
      var k :| 0 <= k < |cut| && cut[k] == d;
      assert cut[k] == ds[if k < i then k else k + 1];
    }
  }

  class Store {
    var deadlines: seq<Deadline>
    var nextDeadlineId: int
    var baskets: map<string, Basket>

    /**
     * Deadline ids are positive, below the next id and increase along the list (the list
     * is in insertion order); every basket is stored under its own name.
     */
    ghost predicate Valid()
      reads this
    {
      0 < nextDeadlineId
      && (forall i :: 0 <= i < |deadlines| ==> 0 < deadlines[i].id < nextDeadlineId)
      && IdsIncrease(deadlines, DeadlineId)
      && (forall name :: name in baskets ==> StoredAs(name, baskets[name]))
    }

    /** `New`. */
    constructor ()
      ensures Valid()
      ensures deadlines == [] && nextDeadlineId == 1 && baskets == map[]
    {
      deadlines := [];
      nextDeadlineId := 1;
      baskets := map[];
    }

    /** The new deadline gets the next id, which is then advanced, and goes at the end. */
    method AddDeadline(title: string, date: string) returns (d: Deadline)
      requires Valid()
      modifies this
      ensures Valid()
      ensures d == Deadline(old(nextDeadlineId), title, date)
      ensures forall i :: 0 <= i < |old(deadlines)| ==> old(deadlines)[i].id < d.id
      ensures deadlines == old(deadlines) + [d]
      ensures nextDeadlineId == old(nextDeadlineId) + 1
      ensures baskets == old(baskets)
    {
      d := Deadline(nextDeadlineId, title, date);
      AppendIncrease(deadlines, d, DeadlineId);
      ghost var before := deadlines;
      nextDeadlineId := nextDeadlineId + 1;
      deadlines := deadlines + [d];
      forall i | 0 <= i < |deadlines|
        ensures 0 < deadlines[i].id < nextDeadlineId
      {
        assert deadlines[i] == if i < |before| then before[i] else d;
      }
    }

    /** The deadlines in insertion order: ids increase along the list. */
    method ListDeadlines() returns (r: seq<Deadline>)
      requires Valid()
      ensures r == deadlines
      ensures IdsIncrease(r, DeadlineId)
    {
      return deadlines;
    }

    /** Remove the deadline with that id, keeping the others in order. */
    method DeleteDeadline(id: int) returns (r: Outcome)
      requires Valid()
      modifies this
      ensures Valid()
      ensures r == Done <==> HasId(old(deadlines), DeadlineId, id)
      ensures r == Done ==> deadlines == Drop(old(deadlines), DeadlineId, id)
      ensures r != Done ==> r == Failed(DeadlineMissing) && deadlines == old(deadlines)
      ensures nextDeadlineId == old(nextDeadlineId) && baskets == old(baskets)
    {
      var found := FindId(deadlines, DeadlineId, id);
      if found.None? {
        return Failed(DeadlineMissing);
      }
      var i := found.value;
      DeleteKeepsDeadlinesValid(deadlines, nextDeadlineId, i);
      deadlines := deadlines[..i] + deadlines[i + 1..];
      return Done;
    }

    /** Create an empty basket under exactly that name, unless one exists. */
    method CreateBasket(name: string) returns (r: Outcome)
      requires Valid()
      modifies this
      ensures Valid()
      ensures r == Done <==> name !in old(baskets)
      ensures r == Done ==> baskets == old(baskets)[name := Basket(name, [], 1)]
      ensures r != Done ==> r == Failed(BasketExists) && baskets == old(baskets)
      ensures deadlines == old(deadlines) && nextDeadlineId == old(nextDeadlineId)
    {
      if name in baskets {
        return Failed(BasketExists);
      }
      baskets := baskets[name := Basket(name, [], 1)];
      return Done;
    }

    /** Every basket name once, in the order Go's map iteration happens to give. */
    method ListBaskets() returns (r: seq<string>)
      requires Valid()
      ensures Enumerates(r, baskets.Keys)
      ensures forall i :: 0 <= i < |r| ==> baskets[r[i]].name == r[i]
    {
      var keys := Enumerate(baskets.Keys);
      r := [];
      for i := 0 to |keys|
        invariant |r| == i
        invariant forall k :: 0 <= k < i ==> r[k] == baskets[keys[k]].name
      {
        r := r + [baskets[keys[i]].name];
      }
      assert r == keys;
    }

    /** Append a pin carrying the basket's next pin id, then advance that id. */
    method AddPin(basketName: string, content: string) returns (r: Result<Pin>)
      requires Valid()
      modifies this
      ensures Valid()
      ensures r.Ok? <==> basketName in old(baskets)
      ensures r.Ok? ==>
        var b := old(baskets)[basketName];
        r.value == Pin(b.nextPinId, content)
        && baskets == old(baskets)[basketName := Basket(b.name, b.pins + [r.value], b.nextPinId + 1)]
      ensures r.Err? ==> r == Err(BasketMissing) && baskets == old(baskets)
      ensures deadlines == old(deadlines) && nextDeadlineId == old(nextDeadlineId)
    {
      if basketName !in baskets {
        return Err(BasketMissing);
      }
      var basket := baskets[basketName];
      var pin := Pin(basket.nextPinId, content);
      AppendIncrease(basket.pins, pin, PinId);
      var updated := basket.(nextPinId := basket.nextPinId + 1, pins := basket.pins + [pin]);
      forall i | 0 <= i < |updated.pins|
        ensures 0 < updated.pins[i].id < updated.nextPinId
      {
        assert updated.pins[i] == if i < |basket.pins| then basket.pins[i] else pin;
      }
      assert StoredAs(basketName, updated);
      baskets := baskets[basketName := updated];
      return Ok(pin);
    }

    /** The pins of the basket with exactly that name, in the order they were added. */
    method ListPins(basketName: string) returns (r: Result<seq<Pin>>)
      requires Valid()
      ensures r.Ok? <==> basketName in baskets
      ensures r.Ok? ==> r.value == baskets[basketName].pins && IdsIncrease(r.value, PinId)
      ensures r.Err? ==> r == Err(BasketMissing)
    {
      if basketName !in baskets {
        return Err(BasketMissing);
      }
      return Ok(baskets[basketName].pins);
    }
  }
}
