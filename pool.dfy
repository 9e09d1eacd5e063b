/** `Pool<T, InitialData>`: a bounded object pool with a stack of free
    objects, a list of objects in use and a count of objects ever created
    (Walgelijk/Pool.cs). The abstract hooks become parameters: the object
    `CreateFresh` would return is `created`, the one
    `GetOverCapacityFallback` would return is `fallback`. */
module Pools {
  import opened Common

  /** The position of the first occurrence of `x`. */
  function FirstIndex<T(==)>(s: seq<T>, x: T): (i: nat)
    requires x in s
    ensures i < |s| && s[i] == x && x !in s[..i]
  {
    if s[0] == x then 0
    else
      var i := FirstIndex(s[1..], x) + 1;
      assert s[..i] == [s[0]] + s[1..][..i - 1];
      i
  }

  /** `List<T>.Remove`: the list without the first occurrence of `x`. */
  function RemoveFirst<T(==)>(s: seq<T>, x: T): (r: seq<T>)
    ensures x !in s ==> r == s
    ensures x in s ==> r == s[..FirstIndex(s, x)] + s[FirstIndex(s, x) + 1..]
  {
    if s == [] then []
    else if s[0] == x then s[1..]
    else
      var r := [s[0]] + RemoveFirst(s[1..], x);
      if x in s then
        assert x in s[1..] && FirstIndex(s, x) == FirstIndex(s[1..], x) + 1;
        ConsSplit(s, FirstIndex(s[1..], x));
        r
      else r
  }

  /** Splitting the tail around `k` and putting the head back is splitting
      the sequence around `k + 1`. */
  lemma ConsSplit<T>(s: seq<T>, k: nat)
    requires k + 1 < |s|
    ensures [s[0]] + (s[1..][..k] + s[1..][k + 1..]) == s[..k + 1] + s[k + 2..]
  {
    assert [s[0]] + s[1..][..k] == s[..k + 1];
    assert s[1..][k + 1..] == s[k + 2..];
  }

  /** Removing an element that is there takes exactly one copy of it out. */
  lemma RemoveFirstCount<T>(s: seq<T>, x: T)
    requires x in s
    ensures |RemoveFirst(s, x)| == |s| - 1
    ensures multiset(RemoveFirst(s, x)) == multiset(s) - multiset{x}
  {
    var i := FirstIndex(s, x);
    var before, after := s[..i], s[i + 1..];
    assert s == before + [x] + after;
    assert RemoveFirst(s, x) == before + after;
    assert multiset(s) == multiset(before) + multiset{x} + multiset(after);
  }

  class Pool<T(==)> {
    /** The most objects, free or in use, the pool will create by itself. */
    const MaximumCapacity: int
    /** How many objects have been created. */
    var CreatedAmount: int
    /** The free objects; the top of the stack is the last element. */
    var freeToUse: seq<T>
    var currentlyInUse: seq<T>

    /** Every object created is either free or in use. */
    ghost predicate Balanced()
      reads this
    {
      |freeToUse| + |currentlyInUse| == CreatedAmount
    }

    /** The capacity invariant: `RequestObject` and `ReturnToPool` keep it
        when it holds, and need only `Balanced` to run. */
    ghost predicate Valid()
      reads this
    {
      Balanced() && 0 <= CreatedAmount <= MaximumCapacity
    }

    /** A negative capacity makes the `Stack` and `List` constructors throw,
        so it is excluded here. */
    constructor (maxCapacity: int)
      requires maxCapacity >= 0
      ensures MaximumCapacity == maxCapacity && CreatedAmount == 0
      ensures freeToUse == [] && currentlyInUse == []
      ensures Valid()
    {
      MaximumCapacity := maxCapacity;
      CreatedAmount := 0;
      freeToUse := [];
      currentlyInUse := [];
    }

    /** `RequestObject`: reuse the most recently freed object, else create one
        while under capacity, else hand out the fallback. */
    method RequestObject(created: T, fallback: T) returns (r: T)
      requires Balanced()
      modifies this
      ensures Balanced()
      ensures old(Valid()) ==> Valid()
      ensures old(freeToUse) != [] ==>
        && r == old(freeToUse)[|old(freeToUse)| - 1]
        && freeToUse == old(freeToUse)[..|old(freeToUse)| - 1]
        && currentlyInUse == old(currentlyInUse) + [r]
        && CreatedAmount == old(CreatedAmount)
      ensures old(freeToUse) == [] && old(CreatedAmount) < MaximumCapacity ==>
        && r == created
        && freeToUse == []
        && currentlyInUse == old(currentlyInUse) + [created]
        && CreatedAmount == old(CreatedAmount) + 1
      ensures old(freeToUse) == [] && old(CreatedAmount) >= MaximumCapacity ==>
        && r == fallback
        && freeToUse == old(freeToUse) && currentlyInUse == old(currentlyInUse)
        && CreatedAmount == old(CreatedAmount)
    {
      var somethingAvailable := |freeToUse| > 0;
      if somethingAvailable {
        var o := GetExistingFromPool();
        r := o.value;
      } else if CreatedAmount < MaximumCapacity {
        Prefill(created);
        var o := GetExistingFromPool();
        r := o.value;
      } else {
        r := fallback;
      }
    }

    /** `ReturnToPool`: move `obj` from in-use to the top of the free stack;
        an object not in use changes nothing. */
    method ReturnToPool(obj: T)
      requires Balanced()
      modifies this
      ensures Balanced()
      ensures old(Valid()) ==> Valid()
      ensures obj in old(currentlyInUse) ==>
        && currentlyInUse == RemoveFirst(old(currentlyInUse), obj)
        && freeToUse == old(freeToUse) + [obj]
      ensures obj !in old(currentlyInUse) ==>
        freeToUse == old(freeToUse) && currentlyInUse == old(currentlyInUse)
      ensures CreatedAmount == old(CreatedAmount)
    {
      if obj in currentlyInUse {
        currentlyInUse := RemoveFirst(currentlyInUse, obj);
        freeToUse := freeToUse + [obj];
      }
    }

    /** `Prefill`: create one object and push it as free. It does not look at
        `MaximumCapacity`, so calling it directly can exceed the cap. */
    method Prefill(created: T)
      modifies this
      ensures CreatedAmount == old(CreatedAmount) + 1
      ensures freeToUse == old(freeToUse) + [created]
      ensures currentlyInUse == old(currentlyInUse)
      ensures old(Balanced()) ==> Balanced()
    {
      CreatedAmount := CreatedAmount + 1;
      freeToUse := freeToUse + [created];
    }

    /** `GetExistingFromPool`: pop the top free object into use, or `None`
        (the source's null) when there is none. */
    method GetExistingFromPool() returns (o: Option<T>)
      modifies this
      ensures o.Some? <==> old(freeToUse) != []
      ensures o.None? ==> freeToUse == old(freeToUse) && currentlyInUse == old(currentlyInUse)
      ensures o.Some? ==>
        && o.value == old(freeToUse)[|old(freeToUse)| - 1]
        && freeToUse == old(freeToUse)[..|old(freeToUse)| - 1]
        && currentlyInUse == old(currentlyInUse) + [o.value]
      ensures CreatedAmount == old(CreatedAmount)
    {
      if freeToUse == [] {
        return None;
      }
      var f := freeToUse[|freeToUse| - 1];
      freeToUse := freeToUse[..|freeToUse| - 1];
      currentlyInUse := currentlyInUse + [f];
      o := Some(f);
    }
  }

  /** A pool of capacity one hands out one object, then the fallback, and
      after the object comes back hands out that same object again; a direct
      `Prefill` then takes it past its capacity, and the pool still hands out
      the prefilled object. */
  method CapacityScenario(a: int, b: int, fallback: int)
    requires a != fallback
  {
    var pool := new Pool<int>(1);
    var x := pool.RequestObject(a, fallback);
    assert x == a && pool.CreatedAmount == 1;
    var y := pool.RequestObject(b, fallback);
    assert y == fallback;
    pool.ReturnToPool(x);
    var z := pool.RequestObject(b, fallback);
    assert z == a && pool.CreatedAmount == 1;
    pool.Prefill(b);
    assert pool.CreatedAmount == 2 > pool.MaximumCapacity;
    var w := pool.RequestObject(a, fallback);
    assert w == b && pool.CreatedAmount == 2;
  }
}
