/** Lazy: a one-slot memo cell in front of a supplier. The supplier is
    code the cell cannot see, so it is modelled by what it returns on its
    first, second, ... call, None standing for Java's null. */
module Lazies {
  import opened Wrappers

  class Lazy<T> {
    /** The supplier: its answer to the call with the given number. */
    const getter: nat -> Option<T>
    /** The cached value; None is an empty cache. */
    var data: Option<T>
    /** How many times the supplier has been called. */
    var calls: nat

    /** The supplier is called until it first answers something other
        than null, and never after that; the cache holds that answer, or
        is empty while every answer so far was null. */
    ghost predicate Valid()
      reads this
    {
      Memo(getter, data, calls)
    }

    /** Lazy(getter): the supplier is fixed and the cache starts empty. */
    constructor (getter: nat -> Option<T>)
      ensures this.getter == getter && data == None && calls == 0
      ensures Valid()
    {
      this.getter := getter;
      data := None;
      calls := 0;
    }

    /** get(): with an empty cache, calls the supplier once and caches
        its answer; with a value cached, returns it without a call. The
        result is always the cache after the call. */
    method Get() returns (r: Option<T>)
      requires Valid()
      modifies this`data, this`calls
      ensures Valid()
      ensures r == data
      ensures old(data).None? ==> calls == old(calls) + 1 && data == getter(old(calls))
      ensures old(data).Some? ==> calls == old(calls) && data == old(data)
    {
      if data.None? {
        data := getter(calls);
        calls := calls + 1;
      }
      r := data;
    }
  }

  /** The cache and call count a supplier leaves behind when it is called
      until its first non-null answer and never after. */
  ghost predicate Memo<T>(getter: nat -> Option<T>, data: Option<T>, calls: nat) {
    && (forall i :: 0 <= i < calls && data.None? ==> getter(i).None?)
    && (data.Some? ==> calls >= 1 && data == getter(calls - 1)
                       && forall i :: 0 <= i < calls - 1 ==> getter(i).None?)
  }

  /** The index of the first non-null answer of the supplier among its
      first n answers, if there is one. */
  function FirstAnswer<T>(getter: nat -> Option<T>, n: nat): (r: Option<nat>)
    ensures r.Some? ==> r.value < n && getter(r.value).Some? && forall i :: 0 <= i < r.value ==> getter(i).None?
    ensures r.None? ==> forall i :: 0 <= i < n ==> getter(i).None?
  {
    if n == 0 then None
    else
      var before := FirstAnswer(getter, n - 1);
      if before.Some? then before
      else if getter(n - 1).Some? then Some(n - 1)
      else None
  }

  /** In a valid cell, the number of supplier calls and the cached value
      are fixed by the supplier alone: the cache is empty while the first
      calls answers were null, and holds the first non-null answer from
      then on. */
  lemma CacheIsFirstAnswer<T>(getter: nat -> Option<T>, data: Option<T>, calls: nat)
    requires Memo(getter, data, calls)
    ensures data.None? <==> FirstAnswer(getter, calls).None?
    ensures data.Some? ==> FirstAnswer(getter, calls) == Some(calls - 1)
  {
  }
}
