/**
 * `MemStore`, the in-memory store: a slice of deadlines kept sorted by due time, the next
 * deadline id, and a map from lowercased basket name to a basket that keeps its own pins
 * and its own next pin id. Every method but the constructor returns a Go `error`, which
 * is `Failed` / `Err` here.
 */
module MemStore {
  import opened Results
  import opened Text
  import Timestamps
  import opened Collections

  datatype Deadline = Deadline(id: int, title: string, dateTime: string)

  datatype Pin = Pin(id: int, content: string)

  /** A basket: its name, its pins in the order they were added, and the id the next pin gets. */
  datatype Basket = Basket(name: string, pins: seq<Pin>, nextPinId: int)

  const DeadlineMissing: string := "deadline does not exist"
  const BasketExists: string := "basket already exists"
  const BasketMissing: string := "basket does not exist"
  const PinMissing: string := "pin does not exist"

  /** `Deadline.Time`: the `"2006-01-02 15:04"` date-time as an instant (the zero time if it does not parse). */
  function Time(d: Deadline): int {
    Timestamps.MinuteTime(d.dateTime)
  }

  function DeadlineId(d: Deadline): int {
    d.id
  }

  function PinId(p: Pin): int {
    p.id
  }

  /** The pins of `b` have increasing ids, all below the basket's next pin id. */
  ghost predicate BasketValid(b: Basket) {
    0 < b.nextPinId
    && IdsIncrease(b.pins, PinId)
    && (forall i :: 0 <= i < |b.pins| ==> 0 < b.pins[i].id < b.nextPinId)
  }

  /** A new pin gets an id above every pin of its basket, so deleting that id removes just it. */
  lemma {:induction false} DeletePinUndoesAddPin(b: Basket, content: string)
    requires BasketValid(b)
    ensures var p := Pin(b.nextPinId, content);
      Drop(b.pins + [p], PinId, p.id) == b.pins
      && BasketValid(b.(pins := b.pins + [p], nextPinId := b.nextPinId + 1))
  {
    var p := Pin(b.nextPinId, content);
    assert !HasId(b.pins, PinId, p.id);
    DropAppended(b.pins, p, PinId);
    AppendIncrease(b.pins, p, PinId);
    var ps := b.pins + [p];
    forall i | 0 <= i < |ps|
      ensures 0 < ps[i].id < b.nextPinId + 1
    {
      assert ps[i] == if i < |b.pins| then b.pins[i] else p;
    }
  }

  /** Cutting out the pin at position `i` is dropping its id, and leaves the basket valid. */
  lemma {:induction false} DeletePinKeepsBasketValid(b: Basket, i: nat)
    requires BasketValid(b)
    requires i < |b.pins|
    ensures Drop(b.pins, PinId, b.pins[i].id) == b.pins[..i] + b.pins[i + 1..]
    ensures BasketValid(b.(pins := b.pins[..i] + b.pins[i + 1..]))
  {
    assert DistinctIds(b.pins, PinId);
    DropAt(b.pins, PinId, i);
    CutIncrease(b.pins, PinId, i);
    var pins := b.pins[..i] + b.pins[i + 1..];
    forall k | 0 <= k < |pins|
      ensures 0 < pins[k].id < b.nextPinId
    {
      assert pins[k] == b.pins[if k < i then k else k + 1];
    }
  }

  /** A new deadline gets an id above every stored one, so deleting it gives a permutation of the old list back. */
  lemma {:induction false} DeleteDeadlineUndoesAddDeadline(ds: seq<Deadline>, after: seq<Deadline>, d: Deadline)
    requires forall i :: 0 <= i < |ds| ==> ds[i].id < d.id
    requires multiset(after) == multiset(ds) + multiset{d}
    ensures multiset(Drop(after, DeadlineId, d.id)) == multiset(ds)
  {
    assert !HasId(ds, DeadlineId, d.id);
    DropInserted(ds, after, d, DeadlineId);
  }

  /** A basket stored under `name`: it carries that name, which is lowercase, and valid pins. */
  ghost predicate StoredAs(name: string, b: Basket) {
    b.name == name && IsLower(name) && BasketValid(b)
  }

  class MemStore {
    /** The key the deadlines are sorted by: always `Time`, fixed when the store is made. */
    const time: Deadline -> int
    var deadlines: seq<Deadline>
    var nextDeadlineId: int
    var baskets: map<string, Basket>

    /**
     * Deadline ids are distinct, positive and below the next id; the deadlines are sorted
     * by due time; every basket is stored under its own name, which is lowercase.
     */
    ghost predicate Valid()
      reads this
    {
      0 < nextDeadlineId
      && (forall i :: 0 <= i < |deadlines| ==> 0 < deadlines[i].id < nextDeadlineId)
      && DistinctIds(deadlines, DeadlineId)
      && SortedBy(deadlines, time)
      && (forall name :: name in baskets ==> StoredAs(name, baskets[name]))
    }

    /** `NewMemStore`. */
    constructor ()
      ensures Valid()
      ensures time == Time
      ensures deadlines == [] && nextDeadlineId == 1 && baskets == map[]
    {
      time := Time;
      deadlines := [];
      nextDeadlineId := 1;
      baskets := map[];
    }

    /**
     * The new deadline gets the next id, which is then advanced; the list is re-sorted by
     * due time, so it is a sorted permutation of the old list and the new deadline.
     */
    method AddDeadline(title: string, dateTime: string) returns (r: Result<Deadline>)
      requires Valid()
      modifies this
      ensures Valid()
      ensures r == Ok(Deadline(old(nextDeadlineId), title, dateTime))
      ensures forall i :: 0 <= i < |old(deadlines)| ==> old(deadlines)[i].id < r.value.id
      ensures nextDeadlineId == old(nextDeadlineId) + 1
      ensures multiset(deadlines) == multiset(old(deadlines)) + multiset{r.value}
      ensures SortedBy(deadlines, time)
      ensures baskets == old(baskets)
    {
      var deadline := Deadline(nextDeadlineId, title, dateTime);
      ghost var before := deadlines;
      nextDeadlineId := nextDeadlineId + 1;
      deadlines := InsertSorted(deadlines, deadline, time);
      assert multiset(before + [deadline]) == multiset(deadlines);
      forall i | 0 <= i < |deadlines|
        ensures 0 < deadlines[i].id < nextDeadlineId
      {
        assert deadlines[i] in multiset(before) + multiset{deadline};
      }
      ghost var appended := before + [deadline];
      assert DistinctIds(appended, DeadlineId) by {
        forall a, b | 0 <= a < b < |appended|
          ensures DeadlineId(appended[a]) != DeadlineId(appended[b])
        {
          if b == |before| {
            assert appended[a] == before[a];
          } else {
            assert appended[a] == before[a] && appended[b] == before[b];
          }
        }
      }
      PermutationDistinct(appended, deadlines, DeadlineId);
      r := Ok(deadline);
    }

    /** The deadlines, sorted by due time, with distinct ids. */
    method ListDeadlines() returns (r: Result<seq<Deadline>>)
      requires Valid()
      ensures r == Ok(deadlines)
      ensures SortedBy(r.value, time) && DistinctIds(r.value, DeadlineId)
    {
      return Ok(deadlines);
    }

    /** Remove the deadline with that id, keeping the others in order. */
    method DeleteDeadline(id: int) returns (r: Outcome)
      requires Valid()
      modifies this
      ensures Valid()
      ensures r == Done <==> HasId(old(deadlines), DeadlineId, id)
      ensures r == Done ==> deadlines == Drop(old(deadlines), DeadlineId, id)
      ensures r != Done ==> r == Failed(DeadlineMissing) && deadlines == old(deadlines)
      ensures nextDeadlineId == old(nextDeadlineId) && baskets == old(baskets)
    {
      var found := FindId(deadlines, DeadlineId, id);
      if found.None? {
        return Failed(DeadlineMissing);
      }
      var i := found.value;
      DropAt(deadlines, DeadlineId, i);
      CutSorted(deadlines, time, i);
      CutDistinct(deadlines, DeadlineId, i);
      ghost var before := deadlines;
      deadlines := deadlines[..i] + deadlines[i + 1..];
      forall k | 0 <= k < |deadlines|
        ensures 0 < deadlines[k].id < nextDeadlineId
      {
        assert deadlines[k] == before[if k < i then k else k + 1];
      }
      return Done;
    }

    /** Create an empty basket under the lowercased name, unless one exists. */
    method AddBasket(name: string) returns (r: Outcome)
      requires Valid()
      modifies this
      ensures Valid()
      ensures r == Done <==> Lower(name) !in old(baskets)
      ensures r == Done ==> baskets == old(baskets)[Lower(name) := Basket(Lower(name), [], 1)]
      ensures r != Done ==> r == Failed(BasketExists) && baskets == old(baskets)
      ensures deadlines == old(deadlines) && nextDeadlineId == old(nextDeadlineId)
    {
      var key := Lower(name);
      if key in baskets {
        return Failed(BasketExists);
      }
      baskets := baskets[key := Basket(key, [], 1)];
      return Done;
    }

    /** Every basket name once, in the order Go's map iteration happens to give. */
    method ListBaskets() returns (r: Result<seq<string>>)
      requires Valid()
      ensures r.Ok? && Enumerates(r.value, baskets.Keys)
      ensures forall i :: 0 <= i < |r.value| ==> baskets[r.value[i]].name == r.value[i]
    {
      var keys := Enumerate(baskets.Keys);
      var names := [];
      for i := 0 to |keys|
        invariant |names| == i
        invariant forall k :: 0 <= k < i ==> names[k] == baskets[keys[k]].name
      {
        names := names + [baskets[keys[i]].name];
      }
      assert names == keys;
      return Ok(names);
    }

    /** Remove the basket with the lowercased name, and with it its pins. */
    method DeleteBasket(name: string) returns (r: Outcome)
      requires Valid()
      modifies this
      ensures Valid()
      ensures r == Done <==> Lower(name) in old(baskets)
      ensures baskets == old(baskets) - {Lower(name)}
      ensures r != Done ==> r == Failed(BasketMissing)
      ensures deadlines == old(deadlines) && nextDeadlineId == old(nextDeadlineId)
    {
      var key := Lower(name);
      if key !in baskets {
        return Failed(BasketMissing);
      }
      baskets := baskets - {key};
      return Done;
    }

    /** Append a pin carrying the basket's next pin id, then advance that id. */
    method AddPin(basketName: string, content: string) returns (r: Result<Pin>)
      requires Valid()
      modifies this
      ensures Valid()
      ensures r.Ok? <==> Lower(basketName) in old(baskets)
      ensures r.Ok? ==>
        var b := old(baskets)[Lower(basketName)];
        r.value == Pin(b.nextPinId, content)
        && baskets == old(baskets)[Lower(basketName) := Basket(b.name, b.pins + [r.value], b.nextPinId + 1)]
      ensures r.Err? ==> r == Err(BasketMissing) && baskets == old(baskets)
      ensures deadlines == old(deadlines) && nextDeadlineId == old(nextDeadlineId)
    {
      var key := Lower(basketName);
      if key !in baskets {
        return Err(BasketMissing);
      }
      var basket := baskets[key];
      var pin := Pin(basket.nextPinId, content);
      DeletePinUndoesAddPin(basket, content);
      var updated := basket.(nextPinId := basket.nextPinId + 1, pins := basket.pins + [pin]);
      assert StoredAs(key, updated);
      baskets := baskets[key := updated];
      return Ok(pin);
    }

    /** The pins of the basket with the lowercased name, in the order they were added. */
    method ListPins(basketName: string) returns (r: Result<seq<Pin>>)
      requires Valid()
      ensures r.Ok? <==> Lower(basketName) in baskets
      ensures r.Ok? ==> r.value == baskets[Lower(basketName)].pins && IdsIncrease(r.value, PinId)
      ensures r.Err? ==> r == Err(BasketMissing)
    {
      var key := Lower(basketName);
      if key !in baskets {
        return Err(BasketMissing);
      }
      return Ok(baskets[key].pins);
    }

    /** Remove the pin with that id from the basket with the lowercased name, keeping the others in order. */
    method DeletePin(basketName: string, id: int) returns (r: Outcome)
      requires Valid()
      modifies this
      ensures Valid()
      ensures Lower(basketName) !in old(baskets) ==> r == Failed(BasketMissing) && baskets == old(baskets)
      ensures Lower(basketName) in old(baskets) ==>
        var b := old(baskets)[Lower(basketName)];
        (r == Done <==> HasId(b.pins, PinId, id))
        && (r == Done ==> baskets == old(baskets)[Lower(basketName) := b.(pins := Drop(b.pins, PinId, id))])
        && (r != Done ==> r == Failed(PinMissing) && baskets == old(baskets))
      ensures deadlines == old(deadlines) && nextDeadlineId == old(nextDeadlineId)
    {
      var key := Lower(basketName);
      if key !in baskets {
        return Failed(BasketMissing);
      }
      var basket := baskets[key];
      var found := FindId(basket.pins, PinId, id);
      if found.None? {
        return Failed(PinMissing);
      }
      var i := found.value;
      DeletePinKeepsBasketValid(basket, i);
      var pins := basket.pins[..i] + basket.pins[i + 1..];
      var updated := basket.(pins := pins);
      assert StoredAs(key, updated);
      baskets := baskets[key := updated];
      return Done;
    }
  }
}
