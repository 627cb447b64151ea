# Stl.Fusion core, modelled in Dafny

This project models five pieces of Stl.Fusion:

- `RefHashSetSlim2<T>` (module `Slim`). A set of references that keeps up to two items in an inline tuple. On the third distinct item it moves everything into a heap hash set, and it stays there until `Clear`.
- `CommandHandlerResolver` (module `CommandR`). Decides which registered handlers run for a command type, and in which order, and memoizes each successful resolution per command type:
  - it walks the type's base types and the handler registry;
  - it keeps the handlers that every filter accepts;
  - it orders them by priority, then by base-type index, both descending;
  - it drops repeats;
  - it rejects the type when more than one non-filter handler remains.
- `ComputingCache<TKey, TValue>` (module `Caching`). A read-through cache. It reads, takes the key's lock, reads again, then computes and stores.
- `FixedDelayer` (module `Fusion`). The update delay and retry back-off of state updates, plus its process-wide `Defaults` and its cache of delayers per clamped delay.
- `Box<T>` (module `Internal`). A mutable cell with a typed and an untyped view of its value.

`Wrappers` holds `Option` and `Result`. `Option.None` stands for a null reference, and `Result.Err` for a thrown exception. `Linq` holds `Distinct`, the sequence operator the resolver's query uses, and `IndexOf`, a proof helper that names the first occurrence of a value so that the order `Distinct` keeps can be stated. It also holds facts about duplicate-free sequences.

How things are represented:

- Mutable objects are classes. That covers the set, the resolver with its cache, the computing cache with its store, the defaults holder and the box.
- `FixedDelayer` is a `sealed record` with init-only members: immutable, and compared by value. It is modelled as a class with `const` fields so that "the same cached instance" that `Get` returns means reference identity.
- Pure logic is functions, with lemmas about them.
  - `Resolve` specifies the resolver. `GetCommandHandlers` is proved against it.
  - `GetSpec` specifies the computing cache's `Get`. The method is proved against it.
- The hash-set loops are methods with loop invariants. Their results are tied to a ghost enumeration order of the element set.
- Integers are unbounded. A `TimeSpan` is a whole number of ticks.

A failed resolution is not cached. The exception leaves the `GetOrAdd` factory, so nothing is stored, and the next call resolves and logs again. `GetCommandHandlers` states this: on failure the cache is left as it was.

## Model

| member | source | states |
|---|---|---|
| Slim.RefHashSetSlim2.constructor | src/Stl/Collections/Slim/RefHashSetSlim2.cs:3-7 | The default value: both slots null, no backing set, no elements; the invariant holds. |
| Slim.RefHashSetSlim2.HasSet | src/Stl/Collections/Slim/RefHashSetSlim2.cs:9-12 | Set mode is the presence of the backing set (a definition; the invariant `Valid` ties each mode to its representation). |
| Slim.RefHashSetSlim2.Count | src/Stl/Collections/Slim/RefHashSetSlim2.cs:14-21 | The count is the number of distinct elements held, and at most 2 while inline. |
| Slim.RefHashSetSlim2.Contains | src/Stl/Collections/Slim/RefHashSetSlim2.cs:23-32 | A null item is an ArgumentNull("item") error, in both directions; otherwise the answer is membership in the element set. |
| Slim.RefHashSetSlim2.Add | src/Stl/Collections/Slim/RefHashSetSlim2.cs:34-60 | Null is an error and changes nothing. Otherwise: Ok(true) iff the item was absent; the elements become old + {item}; nothing changes when it was present; set mode is never left; an inline insert takes the first free slot; the third distinct item moves all three into a new set and empties the tuple. |
| Slim.RefHashSetSlim2.Remove | src/Stl/Collections/Slim/RefHashSetSlim2.cs:62-84 | Null is an error and changes nothing. Otherwise: Ok(true) iff the item was present; the elements become old - {item}; nothing changes when it was absent; the mode never changes, even when the set becomes empty; removing slot 1 moves slot 2 into it; removing slot 2 empties it. |
| Slim.RefHashSetSlim2.Clear | src/Stl/Collections/Slim/RefHashSetSlim2.cs:86-90 | Back to the empty inline state, the only way out of set mode. |
| Slim.RefHashSetSlim2.Items | src/Stl/Collections/Slim/RefHashSetSlim2.cs:92-104 | Yields every element exactly once (as many items as Count); inline, Item1 then Item2. |
| Slim.RefHashSetSlim2.Apply | src/Stl/Collections/Slim/RefHashSetSlim2.cs:106-117 | The action is called once per element, each time with the same state, in enumeration order. |
| Slim.RefHashSetSlim2.AggregateRef | src/Stl/Collections/Slim/RefHashSetSlim2.cs:119-130 | The ref state ends as the left fold of the aggregator over an enumeration of the elements. |
| Slim.RefHashSetSlim2.Aggregate | src/Stl/Collections/Slim/RefHashSetSlim2.cs:132-144 | The result is the left fold of the aggregator over an enumeration of the elements; inline, in slot order. |
| Slim.RefHashSetSlim2.CopyTo | src/Stl/Collections/Slim/RefHashSetSlim2.cs:146-158 | Succeeds iff Count fits in the target. Otherwise the error is IndexOutOfRange. The first min(Count, length) cells receive the elements in enumeration order; the other cells are untouched. |
| Slim.FoldSet | src/Stl/Collections/Slim/RefHashSetSlim2.cs:134-137 | The hash-set loop of Aggregate visits each element once and returns the fold over that order. |
| Slim.FoldSetInto | src/Stl/Collections/Slim/RefHashSetSlim2.cs:121-124 | The hash-set loop of the ref Aggregate leaves the fold over its visiting order in the cell. |
| Slim.CopySet | src/Stl/Collections/Slim/RefHashSetSlim2.cs:149-152 | The hash-set loop of CopyTo writes a prefix and fails exactly when the set does not fit. |
| Linq.EnumerationLength | src/Stl/Collections/Slim/RefHashSetSlim2.cs:16 | An enumeration without repeats is as long as the set it enumerates. |
| CommandR.AllFiltersAccept | src/Stl.CommandR/Configuration/CommandHandlerResolver.cs:24-25 | True iff every filter accepts the handler for the command type; vacuously true with no filters. |
| CommandR.Matching | src/Stl.CommandR/Configuration/CommandHandlerResolver.cs:35-36 | For one base type: an entry is produced iff it pairs a registered handler targeting that type, under that type's index, with a handler all filters accept. |
| CommandR.Candidates | src/Stl.CommandR/Configuration/CommandHandlerResolver.cs:33-36 | An entry is produced iff it pairs a registered handler with a base-type index whose type is the handler's target, and all filters accept the handler. |
| CommandR.OrderByDescending | src/Stl.CommandR/Configuration/CommandHandlerResolver.cs:37 | The result is a permutation of the entries, sorted by priority descending, then by index descending. |
| CommandR.InsertKeepsSorted | src/Stl.CommandR/Configuration/CommandHandlerResolver.cs:37 | One insertion step keeps the order sorted. |
| CommandR.OrderByDescendingIsStable | src/Stl.CommandR/Configuration/CommandHandlerResolver.cs:37 | The sort is stable: entries with equal keys keep their relative order. |
| CommandR.HandlersOf | src/Stl.CommandR/Configuration/CommandHandlerResolver.cs:38 | The projection keeps length and order, and takes each entry's handler. |
| Linq.Distinct | src/Stl.CommandR/Configuration/CommandHandlerResolver.cs:39 | The result has no repeats, holds exactly the input's values, and is no longer than the input. |
| Linq.DistinctKeepsFirstOccurrenceOrder | src/Stl.CommandR/Configuration/CommandHandlerResolver.cs:39 | Values come out in the order of their first occurrence. |
| CommandR.NonFilterHandlers | src/Stl.CommandR/Configuration/CommandHandlerResolver.cs:40 | Keeps exactly the non-filter handlers, and keeps a duplicate-free list duplicate-free. |
| CommandR.Selected | src/Stl.CommandR/Configuration/CommandHandlerResolver.cs:30-39 | The query up to `.Distinct()` (a definition; SelectedAreExactlyQualifying, SelectedHasNoDuplicates and SelectedIsOrdered state what it selects and in which order). |
| CommandR.Resolve | src/Stl.CommandR/Configuration/CommandHandlerResolver.cs:30-48 | The `GetOrAdd` factory: the selection, or MultipleNonFilterHandlers(type) when more than one non-filter handler is selected (a definition; ResolveRejectsMultipleNonFilterHandlers states when it fails and what it returns). |
| CommandR.SelectedAreExactlyQualifying | src/Stl.CommandR/Configuration/CommandHandlerResolver.cs:33-39 | A handler is selected iff it is registered, targets one of the base types, and passes every filter. |
| CommandR.SelectedHasNoDuplicates | src/Stl.CommandR/Configuration/CommandHandlerResolver.cs:39 | The selected list lists each handler once. |
| CommandR.FirstEntryIndex | src/Stl.CommandR/Configuration/CommandHandlerResolver.cs:30-39 | The occurrence of a handler that Distinct keeps is the one under the last base-type index of its target type. |
| CommandR.SelectedIsOrdered | src/Stl.CommandR/Configuration/CommandHandlerResolver.cs:33-39 | Any earlier selected handler has a higher priority, or the same priority and a base-type index at least as large. |
| CommandR.TwoQualifyingByPriority | src/Stl.CommandR/Configuration/CommandHandlerResolver.cs:33-39 | With exactly two qualifying handlers of different priorities, the selection is the higher one, then the lower one. |
| CommandR.ResolveRejectsMultipleNonFilterHandlers | src/Stl.CommandR/Configuration/CommandHandlerResolver.cs:40-48 | Resolution fails iff two distinct qualifying non-filter handlers exist, in both directions. The error is MultipleNonFilterHandlers(type). On success the list is the selection and holds at most one non-filter handler. |
| CommandR.ResolveExampleOrder | src/Stl.CommandR/Configuration/CommandHandlerResolver.cs:29-49 | A base-type filter of priority 10 is ordered before the type's terminal handler of priority 5. |
| CommandR.CommandHandlerResolver.constructor | src/Stl.CommandR/Configuration/CommandHandlerResolver.cs:17-26 | Null filters become none; the cache starts empty. |
| CommandR.CommandHandlerResolver.GetCommandHandlers | src/Stl.CommandR/Configuration/CommandHandlerResolver.cs:28-49 | Returns the resolution of the type. A cached type returns the cached list and changes nothing. A new success is cached. A failure is logged at critical level and leaves the cache as it was. Every cached entry stays equal to its type's resolution. |
| Caching.Lookup | src/Stl/Caching/ComputingCache.cs:21 | The backing cache's TryGet: Some of the stored value when the key is present, None otherwise (a definition; GetSpec and its lemmas state its use). |
| Caching.GetSpec | src/Stl/Caching/ComputingCache.cs:17-34 | Compute runs iff the key is in neither read. A success leaves the value cached under the key. A failure is the computer's own failure and is not stored. No other key changes beyond the stores seen under the lock. |
| Caching.GetHitReturnsCached | src/Stl/Caching/ComputingCache.cs:21-23 | A first-read hit returns the cached value, computes nothing and stores nothing. |
| Caching.GetRecheckHitReturnsStored | src/Stl/Caching/ComputingCache.cs:25-29 | A hit on the re-read under the lock returns what another caller stored, without computing. |
| Caching.GetMissComputesAndStores | src/Stl/Caching/ComputingCache.cs:31-33 | A double miss computes once, returns the computed result and stores a success under that key only. |
| Caching.GetFailureIsNotCached | src/Stl/Caching/ComputingCache.cs:31-32 | A failed computation is returned, not stored, and the next call computes again. |
| Caching.GetThenGetHits | src/Stl/Caching/ComputingCache.cs:17-34 | After a success, the next call returns the same value without computing or changing the store. |
| Caching.ComputingCache.constructor | src/Stl/Caching/ComputingCache.cs:50-52 | Holds the given backing cache and computer; nothing computed yet. |
| Caching.ComputingCache.Compute | src/Stl/Caching/ComputingCache.cs:58-59 | Returns the computer's result for the key and records the call. |
| Caching.ComputingCache.Get | src/Stl/Caching/ComputingCache.cs:17-34 | The result and the new store are those of GetSpec; Compute is called exactly when GetSpec computes. |
| Caching.ComputingCache.TryGet | src/Stl/Caching/ComputingCache.cs:36-40 | Always Some of what Get returns; a failure propagates; Get's effects on the store. |
| Fusion.FixedDelayer.constructor | src/Stl.Fusion/State/FixedDelayer.cs:3-6 | Holds the given update delay, retry delays and clock. |
| Fusion.FixedDelayer.GetDelay | src/Stl.Fusion/State/FixedDelayer.cs:36-37 | The delay for a retry count (a definition; GetDelayChoosesBetweenUpdateAndRetryDelays states its two cases). |
| Fusion.FixedDelayer.Delay | src/Stl.Fusion/State/FixedDelayer.cs:27-34 | The wait Delay performs (a definition; DelayWaitsForTheLargerDelay, DelayWithoutRetryWaitsUpdateDelay and DelayIsMonotone state its properties). |
| Fusion.GetDelayChoosesBetweenUpdateAndRetryDelays | src/Stl.Fusion/State/FixedDelayer.cs:36-37 | A positive retry count reads the retry sequence; zero or negative gives the update delay. |
| Fusion.DelayWaitsForTheLargerDelay | src/Stl.Fusion/State/FixedDelayer.cs:27-34 | Delay returns at once iff both delays are non-positive. Otherwise it waits on the delayer's clock for a positive time: the larger of the update delay and GetDelay. |
| Fusion.DelayWithoutRetryWaitsUpdateDelay | src/Stl.Fusion/State/FixedDelayer.cs:27-37 | With no retry yet, the wait is exactly the update delay, or none when that is not positive. |
| Fusion.DelayIsMonotone | src/Stl.Fusion/State/FixedDelayer.cs:27-37 | With non-decreasing retry delays, a larger retry count never waits less. |
| Fusion.DelayerDefaults.constructor | src/Stl.Fusion/State/FixedDelayer.cs:8-11 | MinDelay starts at zero; ZeroUnsafe is a zero-delay delayer; Instant is the cached delayer for MinDelay. |
| Fusion.DelayerDefaults.Get | src/Stl.Fusion/State/FixedDelayer.cs:24-25 | Returns the delayer for max(delay, MinDelay): the same instance while it is cached, otherwise a new one built from the current defaults and cached. |
| Fusion.DelayerDefaults.SetMinDelay | src/Stl.Fusion/State/FixedDelayer.cs:47-56 | A negative value is ArgumentOutOfRange("value") and changes nothing; otherwise it sets MinDelay and clears the cache. |
| Fusion.DelayerDefaults.SetRetryDelays | src/Stl.Fusion/State/FixedDelayer.cs:58-65 | Sets the retry delays and clears the cache. |
| Fusion.DelayerDefaults.SetClock | src/Stl.Fusion/State/FixedDelayer.cs:67-74 | Sets the clock and clears the cache. |
| Internal.New | src/Stl/Internal/Box.cs:18 | A new box holding the value, seen the same through both views. |
| Internal.Box.constructor | src/Stl/Internal/Box.cs:34 | Holds the given value. |
| Internal.Box.Empty | src/Stl/Internal/Box.cs:32 | Holds the type's default value. |
| Internal.Box.SetValue | src/Stl/Internal/Box.cs:24 | The typed setter stores the value. |
| Internal.Box.UntypedValue | src/Stl/Internal/Box.cs:26-28 | The untyped getter hands out the typed value, boxed. |
| Internal.Box.SetUntypedValue | src/Stl/Internal/Box.cs:29 | The untyped setter stores the unboxed value, and reading it back gives the same box. |

## Left out

- Concurrency is not modelled:
  - the per-key `AsyncLockSet` and its reentry check;
  - `ConcurrentDictionary` races in `GetOrAdd`;
  - cancellation tokens;
  - `Thread.MemoryBarrier`.
  
  Every call runs alone. The computing cache's lock is a no-op. What other holders stored while a caller waited is an explicit parameter, `storesWhileWaiting`.
- `RefHashSetSlim2` is a struct in the source. The model is a class, so copy-on-assignment of the struct is not modelled. Neither is sharing of its `_set` between copies.
- Item equality is Dafny equality on `T`. It stands for reference equality when `T` is a class type.
- Slim.RefHashSetSlim2.Items: the hash-set enumeration order is any duplicate-free order of the elements. Two calls on an unchanged set are not tied to the same order. The same holds for Apply, Aggregate, AggregateRef and CopyTo.
- Slim.RefHashSetSlim2.Apply: the action is code the model cannot see. The model returns the list of (state, item) calls it would receive.
- Async (`ValueTask`) is not modelled. Each operation completes in one step.
- `IMomentClock.Delay` is not performed. `FixedDelayer.Delay` returns the planned wait as a `DelayAction`.
- `FixedDelayer` overloads taking seconds as a `double` (FixedDelayer.cs lines 15-18 and 22-23) are left out, because the model has no floating point.
- `FixedDelayer` record value equality (two delayers with the same update delay, retry delays and clock are equal) is not modelled: the model compares delayers only by identity.
- `TimeSpan` is a 64-bit tick count. The model's ticks are unbounded integers, so overflow is not modelled.
- `RetryDelaySeq` is an input function from retry number to delay. Its own computation is not part of this model. Nor is its default of 1 second to 2 minutes, nor `MomentClockSet.Default.UIClock`: the holder's constructor takes the retry delays and clock it starts with.
- `GetAllBaseTypes` uses reflection. It is an input function from a type to its ordered base types and interfaces.
- `Registry.Handlers` is a fixed list.
- `CommandHandlerFilter.IsCommandHandlerUsed` is a pure function.
- Logging is reduced to a ghost list of errors logged at critical level. The message text built from the handler list is not modelled.
- Internal.Box.Empty: `Box()` stores `default(T)`, which a generic Dafny type cannot name, so `Box.Empty` takes the default as a parameter.
- `Box.ToString` is left out.
- A failing cast in the untyped setter of `Box` cannot happen in the model: the untyped view carries a `T`.
- The dependency graph, invalidation, two-pass command dispatch and the publication bridge are not part of this model. Neither are the application files that use these pieces (`Startup`, `DbAuthService`, `PublicationFactory`).
