/**
 * The list and map handling the stores share: ranging over a Go map (every key once, in an
 * order Go leaves open), the `for i, d := range xs { if d.ID != id { continue } ... }`
 * search, removing one entry with `append(xs[:i], xs[i+1:]...)`, and keeping a slice
 * sorted by a key. Records are reached through `idOf` and `key` so that the deadlines and
 * pins of each store share these definitions.
 */
module Collections {
  import opened Results

  /** `ks` names every member of `keys` exactly once. */
  ghost predicate Enumerates<T(!new)>(ks: seq<T>, keys: set<T>) {
    (forall i, j :: 0 <= i < j < |ks| ==> ks[i] != ks[j])
    && (forall i :: 0 <= i < |ks| ==> ks[i] in keys)
    && (forall k :: k in ks <==> k in keys)
  }

  /** A non-empty set has a member. */
  lemma {:induction false} SomeMember<T>(s: set<T>) returns (x: T)
    requires s != {}
    ensures x in s
  {
    if forall y :: y !in s {
      assert false;
    }
    x :| x in s;
  }

  /** Ranging over a set of keys (a Go map, or a query without ORDER BY): each key once. */
  method Enumerate<T(==,!new)>(keys: set<T>) returns (ks: seq<T>)
    ensures Enumerates(ks, keys)
  {
    ks := [];
    var remaining := keys;
    while remaining != {}
      invariant remaining <= keys
      invariant forall i, j :: 0 <= i < j < |ks| ==> ks[i] != ks[j]
      invariant forall k :: k in ks <==> k in keys && k !in remaining
      decreases |remaining|
    {
      ghost var some := SomeMember(remaining);
      var m :| m in remaining;
      ks := ks + [m];
      remaining := remaining - {m};
    }
  }

  /** No two entries of `xs` carry the same id. */
  ghost predicate DistinctIds<T>(xs: seq<T>, idOf: T -> int) {
    forall i, j :: 0 <= i < j < |xs| ==> idOf(xs[i]) != idOf(xs[j])
  }

  /** The ids of `xs` strictly increase along the list. */
  ghost predicate IdsIncrease<T>(xs: seq<T>, idOf: T -> int) {
    forall i, j :: 0 <= i < j < |xs| ==> idOf(xs[i]) < idOf(xs[j])
  }

  /** `xs` is non-decreasing by `key` (ties in any order). */
  ghost predicate SortedBy<T>(xs: seq<T>, key: T -> int) {
    forall i, j :: 0 <= i < j < |xs| ==> key(xs[i]) <= key(xs[j])
  }

  /** Whether some entry of `xs` carries `id`. */
  predicate HasId<T>(xs: seq<T>, idOf: T -> int, id: int) {
    exists i :: 0 <= i < |xs| && idOf(xs[i]) == id
  }

  /**
   * `xs` without its entries carrying `id`, the others in their order: exactly the
   * entries whose id differs, each as often as in `xs`.
   */
  function Drop<T(==,!new)>(xs: seq<T>, idOf: T -> int, id: int): (r: seq<T>)
    ensures forall x :: x in r <==> x in xs && idOf(x) != id
    ensures |r| <= |xs|
  {
    if xs == [] then []
    else
      assert xs == [xs[0]] + xs[1..];
      (if idOf(xs[0]) == id then [] else [xs[0]]) + Drop(xs[1..], idOf, id)
  }

  /** If no entry of `xs` carries `id`, no entry of its tail does. */
  lemma {:induction false} TailLacksId<T>(xs: seq<T>, idOf: T -> int, id: int)
    requires xs != [] && !HasId(xs, idOf, id)
    ensures !HasId(xs[1..], idOf, id)
  {
    forall i | 0 <= i < |xs[1..]|
      ensures idOf(xs[1..][i]) != id
    {
      assert xs[1..][i] == xs[i + 1];
    }
  }

  /** Dropping an id no entry carries changes nothing. */
  lemma {:induction false} DropMissing<T(!new)>(xs: seq<T>, idOf: T -> int, id: int)
    requires !HasId(xs, idOf, id)
    ensures Drop(xs, idOf, id) == xs
    decreases |xs|
  {
    if xs != [] {
      assert idOf(xs[0]) != id;
      TailLacksId(xs, idOf, id);
      DropMissing(xs[1..], idOf, id);
      assert [xs[0]] + xs[1..] == xs;
    }
  }

  /** With distinct ids, dropping the id of `xs[i]` is cutting out position `i`. */
  lemma {:induction false} DropAt<T(!new)>(xs: seq<T>, idOf: T -> int, i: nat)
    requires DistinctIds(xs, idOf)
    requires i < |xs|
    ensures Drop(xs, idOf, idOf(xs[i])) == xs[..i] + xs[i + 1..]
    decreases |xs|
  {
    var id := idOf(xs[i]);
    var tail := xs[1..];
    assert DistinctIds(tail, idOf) by {
      forall a, b | 0 <= a < b < |tail|
        ensures idOf(tail[a]) != idOf(tail[b])
      {
        assert tail[a] == xs[a + 1] && tail[b] == xs[b + 1];
      }
    }
    if i == 0 {
      assert !HasId(tail, idOf, id) by {
        forall j | 0 <= j < |tail|
          ensures idOf(tail[j]) != id
        {
          assert tail[j] == xs[j + 1];
        }
      }
      DropMissing(tail, idOf, id);
    } else {
      DropAt(tail, idOf, i - 1);
      assert tail[i - 1] == xs[i];
      assert xs[..i] + xs[i + 1..] == [xs[0]] + (tail[..i - 1] + tail[i..]);
    }
  }

  /** A newly appended entry, with an id no other entry carries, is dropped again exactly. */
  lemma {:induction false} DropAppended<T(!new)>(xs: seq<T>, x: T, idOf: T -> int)
    requires !HasId(xs, idOf, idOf(x))
    ensures Drop(xs + [x], idOf, idOf(x)) == xs
    decreases |xs|
  {
    var id := idOf(x);
    if xs == [] {
      assert [x][1..] == [];
    } else {
      assert (xs + [x])[1..] == xs[1..] + [x];
      assert idOf(xs[0]) != id;
      TailLacksId(xs, idOf, id);
      DropAppended(xs[1..], x, idOf);
      assert [xs[0]] + xs[1..] == xs;
    }
  }

  /** `Drop` keeps each entry whose id differs as often as `xs` holds it, and no other. */
  lemma {:induction false} DropCount<T(!new)>(xs: seq<T>, idOf: T -> int, id: int, x: T)
    ensures multiset(Drop(xs, idOf, id))[x] == if idOf(x) == id then 0 else multiset(xs)[x]
    decreases |xs|
  {
    if xs != [] {
      DropCount(xs[1..], idOf, id, x);
      assert xs == [xs[0]] + xs[1..];
    }
  }

  /**
   * Dropping the id of `x` from any permutation of `xs` with `x` added, where no entry of
   * `xs` carries that id, gives back a permutation of `xs`.
   */
  lemma {:induction false} DropInserted<T(!new)>(xs: seq<T>, ys: seq<T>, x: T, idOf: T -> int)
    requires !HasId(xs, idOf, idOf(x))
    requires multiset(ys) == multiset(xs) + multiset{x}
    ensures multiset(Drop(ys, idOf, idOf(x))) == multiset(xs)
  {
    forall y
      ensures multiset(Drop(ys, idOf, idOf(x)))[y] == multiset(xs)[y]
    {
      DropCount(ys, idOf, idOf(x), y);
      if idOf(y) == idOf(x) {
        forall i | 0 <= i < |xs|
          ensures xs[i] != y
        {
          assert idOf(xs[i]) != idOf(x);
        }
        assert y !in xs;
      }
    }
  }

  /** Under distinct ids, each entry of `xs` occurs in it once. */
  lemma {:induction false} DistinctOnce<T(!new)>(xs: seq<T>, idOf: T -> int, p: nat)
    requires DistinctIds(xs, idOf)
    requires p < |xs|
    ensures multiset(xs)[xs[p]] == 1
  {
    var a := xs[p];
    assert xs == xs[..p] + [a] + xs[p + 1..];
    var front, back := xs[..p], xs[p + 1..];
    forall k | 0 <= k < |front|
      ensures front[k] != a
    {
      assert front[k] == xs[k];
    }
    forall k | 0 <= k < |back|
      ensures back[k] != a
    {
      assert back[k] == xs[p + 1 + k];
    }
    assert a !in front && a !in back;
  }

  /** Reordering a list with distinct ids leaves them distinct. */
  lemma {:induction false} PermutationDistinct<T(!new)>(xs: seq<T>, ys: seq<T>, idOf: T -> int)
    requires DistinctIds(xs, idOf)
    requires multiset(ys) == multiset(xs)
    ensures DistinctIds(ys, idOf)
  {
    forall i, j | 0 <= i < j < |ys|
      ensures idOf(ys[i]) != idOf(ys[j])
    {
      var a, b := ys[i], ys[j];
      assert a in multiset(xs) && b in multiset(xs);
      var p :| 0 <= p < |xs| && xs[p] == a;
      var q :| 0 <= q < |xs| && xs[q] == b;
      DistinctOnce(xs, idOf, p);
      assert ys == ys[..j] + ys[j..];
      assert ys[..j][i] == a && ys[j..][0] == b;
      assert multiset(ys)[a] == multiset(ys[..j])[a] + multiset(ys[j..])[a];
      assert multiset(ys[j..])[a] >= if a == b then 1 else 0;
      assert a != b;
    }
  }

  /** Appending an entry whose id is above every id keeps increasing ids increasing. */
  lemma {:induction false} AppendIncrease<T>(xs: seq<T>, x: T, idOf: T -> int)
    requires IdsIncrease(xs, idOf)
    requires forall i :: 0 <= i < |xs| ==> idOf(xs[i]) < idOf(x)
    ensures IdsIncrease(xs + [x], idOf)
  {
    var ys := xs + [x];
    forall a, b | 0 <= a < b < |ys|
      ensures idOf(ys[a]) < idOf(ys[b])
    {
      assert ys[a] == xs[a];
      assert ys[b] == if b < |xs| then xs[b] else x;
    }
  }

  /** Cutting out position `i` keeps a sorted list sorted. */
  lemma {:induction false} CutSorted<T>(xs: seq<T>, key: T -> int, i: nat)
    requires SortedBy(xs, key)
    requires i < |xs|
    ensures SortedBy(xs[..i] + xs[i + 1..], key)
  {
    var c := xs[..i] + xs[i + 1..];
    forall a, b | 0 <= a < b < |c|
      ensures key(c[a]) <= key(c[b])
    {
      assert c[a] == xs[if a < i then a else a + 1];
      assert c[b] == xs[if b < i then b else b + 1];
    }
  }

  /** Cutting out position `i` keeps distinct ids distinct. */
  lemma {:induction false} CutDistinct<T>(xs: seq<T>, idOf: T -> int, i: nat)
    requires DistinctIds(xs, idOf)
    requires i < |xs|
    ensures DistinctIds(xs[..i] + xs[i + 1..], idOf)
  {
    var c := xs[..i] + xs[i + 1..];
    forall a, b | 0 <= a < b < |c|
      ensures idOf(c[a]) != idOf(c[b])
    {
      assert c[a] == xs[if a < i then a else a + 1];
      assert c[b] == xs[if b < i then b else b + 1];
    }
  }

  /** Cutting out position `i` keeps increasing ids increasing. */
  lemma {:induction false} CutIncrease<T>(xs: seq<T>, idOf: T -> int, i: nat)
    requires IdsIncrease(xs, idOf)
    requires i < |xs|
    ensures IdsIncrease(xs[..i] + xs[i + 1..], idOf)
  {
    var c := xs[..i] + xs[i + 1..];
    forall a, b | 0 <= a < b < |c|
      ensures idOf(c[a]) < idOf(c[b])
    {
      assert c[a] == xs[if a < i then a else a + 1];
      assert c[b] == xs[if b < i then b else b + 1];
    }
  }

  /**
   * The search loop of the delete operations: the first position carrying `id`, or none
   * when no entry carries it.
   */
  method FindId<T>(xs: seq<T>, idOf: T -> int, id: int) returns (r: Option<nat>)
    ensures r.Some? ==> r.value < |xs| && idOf(xs[r.value]) == id
    ensures r.Some? ==> forall j :: 0 <= j < r.value ==> idOf(xs[j]) != id
    ensures r.None? <==> !HasId(xs, idOf, id)
  {
    for i := 0 to |xs|
      invariant forall j :: 0 <= j < i ==> idOf(xs[j]) != id
    {
      if idOf(xs[i]) != id {
        continue;
      }
      return Some(i);
    }
    return None;
  }

  /** Putting `x` after every entry with a key up to its own, and before the rest, keeps `xs` sorted. */
  lemma {:induction false} InsertedSorted<T>(xs: seq<T>, x: T, key: T -> int, j: nat)
    requires SortedBy(xs, key)
    requires j <= |xs|
    requires forall k :: 0 <= k < j ==> key(xs[k]) <= key(x)
    requires j < |xs| ==> key(x) < key(xs[j])
    ensures SortedBy(xs[..j] + [x] + xs[j..], key)
  {
    var r := xs[..j] + [x] + xs[j..];
    forall a, b | 0 <= a < b < |r|
      ensures key(r[a]) <= key(r[b])
    {
      if b < j {
        assert r[a] == xs[a] && r[b] == xs[b];
      } else if b == j {
        assert r[a] == xs[a] && r[b] == x;
      } else if a < j {
        assert r[a] == xs[a] && r[b] == xs[b - 1];
      } else if a == j {
        assert r[a] == x && r[b] == xs[b - 1];
        assert key(xs[j]) <= key(xs[b - 1]);
      } else {
        assert r[a] == xs[a - 1] && r[b] == xs[b - 1];
      }
    }
  }

  /**
   * Adding `x` to a list sorted by `key` and sorting again: the result is sorted and holds
   * the old entries and `x`. The entry goes before the first one with a later key.
   */
  method InsertSorted<T(==)>(xs: seq<T>, x: T, key: T -> int) returns (r: seq<T>)
    requires SortedBy(xs, key)
    ensures SortedBy(r, key)
    ensures multiset(r) == multiset(xs) + multiset{x}
  {
    var j := 0;
    while j < |xs| && key(xs[j]) <= key(x)
      invariant 0 <= j <= |xs|
      invariant forall k :: 0 <= k < j ==> key(xs[k]) <= key(x)
    {
      j := j + 1;
    }
    r := xs[..j] + [x] + xs[j..];
    InsertedSorted(xs, x, key, j);
    calc {
      multiset(r);
      multiset(xs[..j]) + multiset{x} + multiset(xs[j..]);
      { assert xs == xs[..j] + xs[j..]; }
      multiset(xs) + multiset{x};
    }
  }
}
