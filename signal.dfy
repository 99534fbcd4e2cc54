/**
 * Listener registry: `Signal<E>` keeps an ordered map from int ids to
 * callbacks and a counter that hands out the ids.
 *
 * A callback is modelled as a total function from the event to what the call
 * produces (type `R`); `Dispatch` returns what each call produced, in the
 * order the calls were made, which is how the model observes the calls.
 */
module Signals {

  /** Largest value of the `int` counter; going past it is undefined behaviour. */
  const INT_MAX: int := 0x7fff_ffff

  predicate IsLeast(m: int, ids: set<int>) {
    m in ids && forall k :: k in ids ==> m <= k
  }

  lemma HasMember(ids: set<int>)
    requires ids != {}
    ensures exists x :: x in ids
  {
    if forall x :: x !in ids {
      assert false;
    }
  }

  lemma {:induction false} LeastExists(ids: set<int>)
    requires ids != {}
    ensures exists m :: IsLeast(m, ids)
    decreases |ids|
  {
    HasMember(ids);
    var x :| x in ids;
    if ids == {x} {
      assert IsLeast(x, ids);
    } else {
      var rest := ids - {x};
      assert ids == rest + {x};
      LeastExists(rest);
      var m :| IsLeast(m, rest);
      if x < m {
        assert IsLeast(x, ids);
      } else {
        assert IsLeast(m, ids);
      }
    }
  }

  ghost function Least(ids: set<int>): (m: int)
    requires ids != {}
    ensures IsLeast(m, ids)
  {
    LeastExists(ids);
    var m :| IsLeast(m, ids); m
  }

  /** The ids of a finite set in ascending order, as an ordered map visits its keys. */
  ghost function Ascending(ids: set<int>): (r: seq<int>)
    ensures |r| == |ids|
    ensures forall k :: k in ids <==> k in r
    decreases |ids|
  {
    if ids == {} then []
    else
      var m := Least(ids);
      [m] + Ascending(ids - {m})
  }

  predicate StrictlyIncreasing(s: seq<int>) {
    forall i, j :: 0 <= i < j < |s| ==> s[i] < s[j]
  }

  /** The ids come out strictly increasing, hence each one exactly once. */
  lemma {:induction false} AscendingIsSorted(ids: set<int>)
    ensures StrictlyIncreasing(Ascending(ids))
    decreases |ids|
  {
    if ids != {} {
      var m := Least(ids);
      var rest := Ascending(ids - {m});
      AscendingIsSorted(ids - {m});
      forall k | k in rest
        ensures m < k
      {
        assert k in ids - {m};
      }
      ConsIncreasing(m, rest);
    }
  }

  /** A strictly increasing sequence stays so with a smaller element in front. */
  lemma ConsIncreasing(m: int, rest: seq<int>)
    requires StrictlyIncreasing(rest) && forall k :: k in rest ==> m < k
    ensures StrictlyIncreasing([m] + rest)
  {
    var r := [m] + rest;
    forall i, j | 0 <= i < j < |r|
      ensures r[i] < r[j]
    {
      assert r[j] == rest[j - 1];
      if i > 0 {
        assert r[i] == rest[i - 1];
      } else {
        assert r[i] == m && rest[j - 1] in rest;
      }
    }
  }

  /** Unfolding `Ascending`: whichever least element is picked comes first. */
  lemma AscendingStartsWithLeast(m: int, ids: set<int>)
    requires IsLeast(m, ids)
    ensures Ascending(ids) == [m] + Ascending(ids - {m})
  {
    assert Least(ids) == m;
  }

  /** One step of an in-order walk: the visited prefix grows by the least remaining id. */
  lemma AscendingStep(done: seq<int>, remaining: set<int>, m: int, order: seq<int>)
    requires done + Ascending(remaining) == order
    requires IsLeast(m, remaining)
    ensures (done + [m]) + Ascending(remaining - {m}) == order
  {
    AscendingStartsWithLeast(m, remaining);
    assert done + ([m] + Ascending(remaining - {m})) == (done + [m]) + Ascending(remaining - {m});
  }

  class Signal<E, R> {
    var slots: map<int, E -> R>
    var currentId: int

    /** Every registered id was handed out by the counter, so it lies in 1..currentId. */
    ghost predicate Valid()
      reads this
    {
      0 <= currentId <= INT_MAX &&
      forall id :: id in slots ==> 1 <= id <= currentId
    }

    /** Default construction: no listeners, counter at zero. */
    constructor ()
      ensures Valid() && slots == map[] && currentId == 0
    {
      slots := map[];
      currentId := 0;
    }

    /** The copy constructor builds a fresh signal: it copies neither listeners nor counter. */
    constructor Copy(other: Signal<E, R>)
      ensures Valid() && slots == map[] && currentId == 0
    {
      slots := map[];
      currentId := 0;
    }

    /** Copy assignment drops this signal's own listeners, keeps its counter and copies nothing. */
    method CopyAssign(other: Signal<E, R>)
      requires Valid()
      modifies this
      ensures Valid()
      ensures slots == if other == this then old(slots) else map[]
      ensures currentId == old(currentId)
    {
      if this != other {
        ClearListeners();
      }
    }

    /** The move constructor takes over the other signal's listeners and counter; the other map is left empty. */
    constructor Move(other: Signal<E, R>)
      requires other.Valid()
      modifies other
      ensures Valid()
      ensures slots == old(other.slots) && currentId == old(other.currentId)
      ensures other.slots == map[] && other.currentId == old(other.currentId)
    {
      slots := other.slots;
      currentId := other.currentId;
      new;
      other.slots := map[];
    }

    /** Move assignment transfers listeners and counter; moving a signal onto itself changes nothing. */
    method MoveAssign(other: Signal<E, R>)
      requires Valid() && other.Valid()
      modifies this, other
      ensures Valid()
      ensures other == this ==> slots == old(slots) && currentId == old(currentId)
      ensures other != this ==>
                slots == old(other.slots) && currentId == old(other.currentId) &&
                other.slots == map[] && other.currentId == old(other.currentId)
    {
      if this != other {
        slots := other.slots;
        currentId := other.currentId;
        other.slots := map[];
      }
    }

    /** Pre-increments the counter and registers the callback under the new id, which it returns. */
    method AddListener(slot: E -> R) returns (id: int)
      requires Valid()
      requires currentId < INT_MAX
      modifies this
      ensures Valid()
      ensures id == old(currentId) + 1 && currentId == id
      ensures id !in old(slots) && forall k :: k in old(slots) ==> k < id
      ensures slots == old(slots)[id := slot]
    {
      currentId := currentId + 1;
      slots := slots[currentId := slot];
      id := currentId;
    }

    /** Registers a call of `func` on the captured instance; ids follow the same rule as `AddListener`. */
    method AddMemberListener<T>(inst: T, func: (T, E) -> R) returns (id: int)
      requires Valid()
      requires currentId < INT_MAX
      modifies this
      ensures Valid()
      ensures id == old(currentId) + 1 && currentId == id
      ensures id !in old(slots) && slots.Keys == old(slots).Keys + {id}
      ensures forall k :: k in old(slots) ==> slots[k] == old(slots)[k]
      ensures forall e :: slots[id](e) == func(inst, e)
    {
      id := AddListener((e: E) => func(inst, e));
    }

    /** Erases the id; reports whether anything was erased. */
    method RemoveListener(id: int) returns (removed: bool)
      requires Valid()
      modifies this
      ensures Valid()
      ensures removed <==> id in old(slots)
      ensures slots == old(slots) - {id}
      ensures currentId == old(currentId)
    {
      removed := id in slots;
      slots := slots - {id};
    }

    /** Empties the registry but keeps the counter, so an id is never handed out twice. */
    method ClearListeners()
      requires Valid()
      modifies this
      ensures Valid()
      ensures slots == map[] && currentId == old(currentId)
    {
      slots := map[];
    }

    /** Calls every registered callback once with the event, in ascending id order. */
    method Dispatch(event: E) returns (results: seq<R>)
      requires Valid()
      ensures var order := Ascending(slots.Keys);
              |results| == |order| &&
              forall i :: 0 <= i < |order| ==> results[i] == slots[order[i]](event)
    {
      ghost var order := Ascending(slots.Keys);
      assert forall i :: 0 <= i < |order| ==> order[i] in slots;
      var remaining := slots.Keys;
      ghost var done: seq<int> := [];
      results := [];
      while remaining != {}
        invariant remaining <= slots.Keys
        invariant done + Ascending(remaining) == order
        invariant |results| == |done|
        invariant forall i :: 0 <= i < |done| ==> results[i] == slots[order[i]](event)
        decreases |remaining|
      {
        LeastExists(remaining);
        var id :| IsLeast(id, remaining);
        AscendingStep(done, remaining, id, order);
        ghost var k := |done|;
        assert order[k] == id;
        var r := slots[id](event);
        ghost var before := results;
        results := results + [r];
        done := done + [id];
        remaining := remaining - {id};
        forall i | 0 <= i < |done|
          ensures results[i] == slots[order[i]](event)
        {
          if i < k {
            assert results[i] == before[i];
          } else {
            assert i == k && results[i] == r && order[i] == id;
          }
        }
      }
    }
  }

  /** Ids come out 1, 2, 3, ...: two registrations in a row get consecutive, increasing ids. */
  method AddTwice<E, R>(s: Signal<E, R>, f: E -> R, g: E -> R) returns (first: int, second: int)
    requires s.Valid() && s.currentId < INT_MAX - 1
    modifies s
    ensures second == first + 1 && first == old(s.currentId) + 1
    ensures s.slots == old(s.slots)[first := f][second := g]
  {
    first := s.AddListener(f);
    second := s.AddListener(g);
  }

  /** After clearing, the next id is still fresh: never equal to one handed out before. */
  method ClearThenAdd<E, R>(s: Signal<E, R>, f: E -> R) returns (id: int)
    requires s.Valid() && s.currentId < INT_MAX
    modifies s
    ensures id > old(s.currentId)
    ensures forall k :: k in old(s.slots) ==> k < id
    ensures s.slots == map[id := f]
  {
    s.ClearListeners();
    id := s.AddListener(f);
  }
}
