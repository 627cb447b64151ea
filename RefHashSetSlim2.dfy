/** Stl.Collections.Slim.RefHashSetSlim2<T>: a set of references that keeps up to two items
    inline and moves, for good, to a heap hash set on the third distinct item. */
module Slim {
  import opened Wrappers
  import Internal
  import opened Linq

  /** The exceptions the set throws. */
  datatype SlimError = ArgumentNull(paramName: string) | IndexOutOfRange

  /** The inline items in slot order, stopping at the first empty (null) slot. */
  function InlineItems<T>(item1: Option<T>, item2: Option<T>): seq<T>
  {
    if item1.None? then [] else if item2.None? then [item1.value] else [item1.value, item2.value]
  }

  /** Left fold: `state` threaded through `aggregator` over `items` in order. */
  function Fold<S, T>(aggregator: (S, T) -> S, state: S, items: seq<T>): S
  {
    if items == [] then state
    else aggregator(Fold(aggregator, state, items[..|items| - 1]), items[|items| - 1])
  }

  lemma FoldAppend<S, T>(aggregator: (S, T) -> S, state: S, items: seq<T>, x: T)
    ensures Fold(aggregator, state, items + [x]) == aggregator(Fold(aggregator, state, items), x)
  {
    assert (items + [x])[..|items|] == items;
  }

  class RefHashSetSlim2<T(==)> {
    /** `_tuple.Item1` and `_tuple.Item2`; `None` is a null slot. */
    var item1: Option<T>
    var item2: Option<T>
    /** `_set`: the reference-equality hash set, once created. */
    var backing: Option<set<T>>
    /** The abstract value: the finite set of items held. */
    ghost var Elements: set<T>

    /** The representation invariant. Inline mode: slot 2 is used only if slot 1 is, and the two
        slots never hold the same item. Set mode: the tuple is empty. */
    ghost predicate Valid()
      reads this
    {
      match backing
      case Some(s) => item1.None? && item2.None? && Elements == s
      case None =>
        && (item2.Some? ==> item1.Some?)
        && (item1.Some? && item2.Some? ==> item1.value != item2.value)
        && Elements == Elems(InlineItems(item1, item2))
    }

    /** A new (default) struct value: both slots null, no backing set. */
    constructor ()
      ensures Valid() && Elements == {}
      ensures item1.None? && item2.None? && backing.None?
    {
      item1, item2, backing := None, None, None;
      Elements := {};
    }

    /** `HasSet`. */
    predicate HasSet()
      reads this
    {
      backing.Some?
    }

    /** `Count`. */
    function Count(): (n: nat)
      reads this
      requires Valid()
      ensures n == |Elements|
      ensures backing.None? ==> n <= 2
    {
      if backing.Some? then |backing.value|
      else if item1.None? then 0
      else if item2.None? then
        assert Elements == {item1.value};
        1
      else
        assert Elements == {item1.value, item2.value};
        2
    }

    /** `Contains(item)`: a null item throws `ArgumentNullException`. */
    function Contains(item: Option<T>): (r: Result<bool, SlimError>)
      reads this
      requires Valid()
      ensures item.None? <==> r == Err(ArgumentNull("item"))
      ensures item.Some? ==> r == Ok(item.value in Elements)
    {
      if item.None? then Err(ArgumentNull("item"))
      else if backing.Some? then Ok(item.value in backing.value)
      else if item1 == item then Ok(true)
      else if item2 == item then Ok(true)
      else Ok(false)
    }

    /** `Add(item)`: true iff the item was not already present. */
    method Add(item: Option<T>) returns (r: Result<bool, SlimError>)
      requires Valid()
      modifies this
      ensures Valid()
      ensures item.None? ==> r == Err(ArgumentNull("item")) && unchanged(this)
      ensures item.Some? ==> r == Ok(item.value !in old(Elements))
      ensures item.Some? ==> Elements == old(Elements) + {item.value}
      ensures item.Some? && item.value in old(Elements) ==> unchanged(this)
      // the mode switch is one-way
      ensures old(backing).Some? ==> backing.Some?
      // an inline insert goes to the first free slot
      ensures old(backing).None? && old(item2).None? && item.Some? && item.value !in old(Elements) ==>
                backing.None? && InlineItems(item1, item2) == InlineItems(old(item1), old(item2)) + [item.value]
      // the third distinct item moves everything to a fresh set and resets the tuple
      ensures old(backing).None? && old(item2).Some? && item.Some? && item.value !in old(Elements) ==>
                && backing == Some({old(item1).value, old(item2).value, item.value})
                && item1.None? && item2.None?
    {
      if item.None? {
        return Err(ArgumentNull("item"));
      }
      var x := item.value;
      if HasSet() {
        var s := backing.value;
        if x in s {
          return Ok(false);
        }
        backing := Some(s + {x});
        Elements := s + {x};
        return Ok(true);
      }

      // Item 1
      if item1.None? {
        item1 := item;
        Elements := {x};
        return Ok(true);
      }
      if item1 == item {
        return Ok(false);
      }

      // Item 2
      if item2.None? {
        item2 := item;
        Elements := Elements + {x};
        return Ok(true);
      }
      if item2 == item {
        return Ok(false);
      }

      backing := Some({item1.value, item2.value, x});
      Elements := {item1.value, item2.value, x};
      item1, item2 := None, None;
      return Ok(true);
    }

    /** `Remove(item)`: true iff the item was present. Removing slot 1 moves slot 2 into it. */
    method Remove(item: Option<T>) returns (r: Result<bool, SlimError>)
      requires Valid()
      modifies this
      ensures Valid()
      ensures item.None? ==> r == Err(ArgumentNull("item")) && unchanged(this)
      ensures item.Some? ==> r == Ok(item.value in old(Elements))
      ensures item.Some? ==> Elements == old(Elements) - {item.value}
      ensures item.Some? && item.value !in old(Elements) ==> unchanged(this)
      // the mode never changes, not even when the backing set becomes empty
      ensures old(backing).Some? ==> backing.Some?
      ensures old(backing).None? ==> backing.None?
      ensures old(backing).None? && item.Some? && old(item1) == item ==> item1 == old(item2) && item2.None?
      ensures old(backing).None? && item.Some? && old(item2) == item ==> item1 == old(item1) && item2.None?
    {
      if item.None? {
        return Err(ArgumentNull("item"));
      }
      var x := item.value;
      if HasSet() {
        var s := backing.value;
        if x !in s {
          return Ok(false);
        }
        backing := Some(s - {x});
        Elements := s - {x};
        return Ok(true);
      }

      // Item 1
      if item1.None? {
        return Ok(false);
      }
      if item1 == item {
        item1, item2 := item2, None;
        Elements := Elements - {x};
        return Ok(true);
      }

      // Item 2
      if item2.None? {
        return Ok(false);
      }
      if item2 == item {
        item2 := None;
        Elements := Elements - {x};
        return Ok(true);
      }

      return Ok(false);
    }

    /** `Clear()`: the only way back to inline mode. */
    method Clear()
      modifies this
      ensures Valid() && Elements == {}
      ensures item1.None? && item2.None? && backing.None?
    {
      backing := None;
      item1, item2 := None, None;
      Elements := {};
    }

    /** `Items`: every element once; in inline mode Item1 then Item2. */
    method Items() returns (items: seq<T>)
      requires Valid()
      ensures IsEnumeration(items, Elements)
      ensures |items| == Count()
      ensures backing.None? ==> items == InlineItems(item1, item2)
    {
      items := [];
      if HasSet() {
        var rest := backing.value;
        while rest != {}
          invariant rest <= Elements
          invariant NoDuplicates(items)
          invariant Elems(items) == Elements - rest
          decreases rest
        {
          var x :| x in rest;
          AppendOne(items, x);
          items := items + [x];
          rest := rest - {x};
        }
        EnumerationLength(items, Elements);
        return;
      }
      if item1.None? {
        return;
      }
      items := items + [item1.value];
      if item2.None? {
        return;
      }
      items := items + [item2.value];
    }

    /** `Apply(state, action)`: `action` is code this model cannot see, so the result is the
        list of calls made to it, in order. */
    method Apply<S>(state: S) returns (calls: seq<(S, T)>, ghost order: seq<T>)
      requires Valid()
      ensures IsEnumeration(order, Elements)
      ensures backing.None? ==> order == InlineItems(item1, item2)
      ensures |calls| == |order|
      ensures forall i :: 0 <= i < |calls| ==> calls[i] == (state, order[i])
    {
      calls, order := [], [];
      if HasSet() {
        var rest := backing.value;
        while rest != {}
          invariant rest <= Elements
          invariant NoDuplicates(order)
          invariant Elems(order) == Elements - rest
          invariant |calls| == |order|
          invariant forall i :: 0 <= i < |calls| ==> calls[i] == (state, order[i])
          decreases rest
        {
          var x :| x in rest;
          AppendOne(order, x);
          calls, order := calls + [(state, x)], order + [x];
          rest := rest - {x};
        }
        return;
      }
      if item1.None? {
        return;
      }
      calls, order := calls + [(state, item1.value)], order + [item1.value];
      if item2.None? {
        return;
      }
      calls, order := calls + [(state, item2.value)], order + [item2.value];
    }

    /** `Aggregate(state, aggregator)`: folds every element once into the state. */
    method Aggregate<S>(state: S, aggregator: (S, T) -> S) returns (result: S, ghost order: seq<T>)
      requires Valid()
      ensures IsEnumeration(order, Elements)
      ensures backing.None? ==> order == InlineItems(item1, item2)
      ensures result == Fold(aggregator, state, order)
    {
      result, order := state, [];
      if HasSet() {
        result, order := FoldSet(backing.value, state, aggregator);
        return;
      }
      if item1.None? {
        return;
      }
      FoldAppend(aggregator, state, order, item1.value);
      result := aggregator(result, item1.value);
      order := order + [item1.value];
      if item2.None? {
        return;
      }
      FoldAppend(aggregator, state, order, item2.value);
      result := aggregator(result, item2.value);
      order := order + [item2.value];
    }

    /** `Aggregate(ref state, aggregator)`: the `ref` state is the cell `state`. */
    method AggregateRef<S>(state: Internal.Box<S>, aggregator: (S, T) -> S) returns (ghost order: seq<T>)
      requires Valid()
      modifies state
      ensures IsEnumeration(order, Elements)
      ensures backing.None? ==> order == InlineItems(item1, item2)
      ensures state.value == Fold(aggregator, old(state.value), order)
    {
      order := [];
      if HasSet() {
        order := FoldSetInto(backing.value, state, aggregator);
        return;
      }
      if item1.None? {
        return;
      }
      FoldAppend(aggregator, old(state.value), order, item1.value);
      state.SetValue(aggregator(state.value, item1.value));
      order := order + [item1.value];
      if item2.None? {
        return;
      }
      FoldAppend(aggregator, old(state.value), order, item2.value);
      state.SetValue(aggregator(state.value, item2.value));
      order := order + [item2.value];
    }

    /** `CopyTo(target)`: writes the elements to `target[0..Count)`. A target shorter than
        `Count` throws once the next index is out of range, after the writes that fit. */
    method CopyTo(target: array<T>) returns (r: Result<(), SlimError>, ghost order: seq<T>)
      requires Valid()
      modifies target
      ensures IsEnumeration(order, Elements)
      ensures backing.None? ==> order == InlineItems(item1, item2)
      ensures r.Ok? <==> Count() <= target.Length
      ensures r.Err? ==> r.error == IndexOutOfRange
      ensures var written := if |order| <= target.Length then |order| else target.Length;
              && (forall k :: 0 <= k < written ==> target[k] == order[k])
              && (forall k :: written <= k < target.Length ==> target[k] == old(target[k]))
    {
      var index := 0;
      order := [];
      if HasSet() {
        r, order := CopySet(backing.value, target);
        return;
      }
      if item1.None? {
        return Ok(()), order;
      }
      if index >= target.Length {
        return Err(IndexOutOfRange), InlineItems(item1, item2);
      }
      target[index] := item1.value;
      index := index + 1;
      order := order + [item1.value];
      if item2.None? {
        return Ok(()), order;
      }
      if index >= target.Length {
        return Err(IndexOutOfRange), InlineItems(item1, item2);
      }
      target[index] := item2.value;
      order := order + [item2.value];
      return Ok(()), order;
    }
  }

  /** The `foreach` over the hash set in `CopyTo(target)`. */
  method CopySet<T>(s: set<T>, target: array<T>) returns (r: Result<(), SlimError>, ghost order: seq<T>)
    modifies target
    ensures IsEnumeration(order, s)
    ensures r.Ok? <==> |s| <= target.Length
    ensures r.Err? ==> r.error == IndexOutOfRange
    ensures var written := if |order| <= target.Length then |order| else target.Length;
            && (forall k :: 0 <= k < written ==> target[k] == order[k])
            && (forall k :: written <= k < target.Length ==> target[k] == old(target[k]))
  {
    var index := 0;
    order := [];
    var rest := s;
    while rest != {} && index < target.Length
      invariant rest <= s
      invariant NoDuplicates(order)
      invariant Elems(order) == s - rest
      invariant index == |order| <= target.Length
      invariant forall k :: 0 <= k < index ==> target[k] == order[k]
      invariant forall k :: index <= k < target.Length ==> target[k] == old(target[k])
      decreases rest
    {
      var x :| x in rest;
      AppendOne(order, x);
      target[index] := x;
      index := index + 1;
      order := order + [x];
      rest := rest - {x};
    }
    if rest != {} {
      // the next item has no slot left: the rest of the enumeration is never written
      order := ExtendEnumeration(order, rest, s);
      return Err(IndexOutOfRange), order;
    }
    EnumerationLength(order, s);
    return Ok(()), order;
  }

  /** The `foreach` over the hash set in `Aggregate(state, aggregator)`. */
  method FoldSet<S, T>(s: set<T>, state: S, aggregator: (S, T) -> S) returns (result: S, ghost order: seq<T>)
    ensures IsEnumeration(order, s)
    ensures result == Fold(aggregator, state, order)
  {
    result, order := state, [];
    var rest := s;
    while rest != {}
      invariant rest <= s
      invariant NoDuplicates(order)
      invariant Elems(order) == s - rest
      invariant result == Fold(aggregator, state, order)
      decreases rest
    {
      var x :| x in rest;
      AppendOne(order, x);
      FoldAppend(aggregator, state, order, x);
      result := aggregator(result, x);
      order := order + [x];
      rest := rest - {x};
    }
  }

  /** The `foreach` over the hash set in `Aggregate(ref state, aggregator)`. */
  method FoldSetInto<S, T>(s: set<T>, state: Internal.Box<S>, aggregator: (S, T) -> S) returns (ghost order: seq<T>)
    modifies state
    ensures IsEnumeration(order, s)
    ensures state.value == Fold(aggregator, old(state.value), order)
  {
    order := [];
    var rest := s;
    while rest != {}
      invariant rest <= s
      invariant NoDuplicates(order)
      invariant Elems(order) == s - rest
      invariant state.value == Fold(aggregator, old(state.value), order)
      decreases rest
    {
      var x :| x in rest;
      AppendOne(order, x);
      FoldAppend(aggregator, old(state.value), order, x);
      state.SetValue(aggregator(state.value, x));
      order := order + [x];
      rest := rest - {x};
    }
  }

  /** An enumeration of part of `s` extends to one of all of `s`. */
  lemma ExtendEnumeration<T>(order: seq<T>, rest: set<T>, s: set<T>) returns (full: seq<T>)
    requires rest <= s && NoDuplicates(order) && Elems(order) == s - rest
    ensures IsEnumeration(full, s) && |full| == |s|
    ensures |order| + |rest| == |s|
    ensures forall k :: 0 <= k < |order| ==> full[k] == order[k]
  {
    var more := Enumerate(rest);
    ConcatDisjoint(order, more);
    full := order + more;
    EnumerationLength(full, s);
    EnumerationLength(more, rest);
  }

  /** Some enumeration of a finite set (the order a `foreach` would go on in). */
  ghost function Enumerate<T>(s: set<T>): (order: seq<T>)
    ensures IsEnumeration(order, s)
    decreases s
  {
    if s == {} then []
    else
      var x :| x in s;
      var rest := Enumerate(s - {x});
      ConcatDisjoint([x], rest);
      [x] + rest
  }
}
