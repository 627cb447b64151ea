/** Stl.CommandR.Configuration.CommandHandlerResolver: which registered handlers run for a
    command type, in which order, memoized per type. */
module CommandR {
  import opened Wrappers
  import Linq

  /** A runtime `Type`, by identity. */
  type TypeId = nat

  /** A registered handler: the command type it targets, its priority, whether it is a filter
      (middleware) handler, and an identity distinguishing handlers that agree on the rest. */
  datatype CommandHandler = CommandHandler(commandType: TypeId, priority: int, isFilter: bool, id: nat)

  /** `CommandHandlerFilter.IsCommandHandlerUsed(handler, commandType)`. */
  type HandlerFilter = (CommandHandler, TypeId) -> bool

  /** `Errors.MultipleNonFilterHandlers(commandType)`. */
  datatype ResolverError = MultipleNonFilterHandlers(commandType: TypeId)

  /** The resolver's `Filter`: every filter accepts the handler for the command type
      (`All` over an empty collection is true). */
  function AllFiltersAccept(filters: seq<HandlerFilter>, handler: CommandHandler, commandType: TypeId): (r: bool)
    ensures r <==> forall i :: 0 <= i < |filters| ==> filters[i](handler, commandType)
    ensures filters == [] ==> r
  {
    if filters == [] then true
    else filters[0](handler, commandType) && AllFiltersAccept(filters[1..], handler, commandType)
  }

  /** A handler paired with the index of the base type it was found under. */
  datatype HandlerEntry = HandlerEntry(handler: CommandHandler, index: nat)

  /** The handlers of `handlers`, in registry order, that target `baseType` and pass the filters. */
  function Matching(handlers: seq<CommandHandler>, baseType: TypeId, index: nat,
                    filters: seq<HandlerFilter>, commandType: TypeId): (r: seq<HandlerEntry>)
    ensures forall e :: e in r <==>
              && e.index == index && e.handler in handlers && e.handler.commandType == baseType
              && AllFiltersAccept(filters, e.handler, commandType)
  {
    if handlers == [] then []
    else
      var h := handlers[0];
      var head := if h.commandType == baseType && AllFiltersAccept(filters, h, commandType)
                  then [HandlerEntry(h, index)] else [];
      head + Matching(handlers[1..], baseType, index, filters, commandType)
  }

  /** `from typeEntry in baseTypes from handler in Handlers where …`, for the base types from
      index `from` on: the outer loop runs over base types, the inner one over handlers. */
  function Candidates(baseTypes: seq<TypeId>, handlers: seq<CommandHandler>,
                      filters: seq<HandlerFilter>, commandType: TypeId, from: nat): (r: seq<HandlerEntry>)
    ensures forall e :: e in r <==>
              && from <= e.index < |baseTypes| && baseTypes[e.index] == e.handler.commandType
              && e.handler in handlers && AllFiltersAccept(filters, e.handler, commandType)
    decreases |baseTypes| - from
  {
    if from >= |baseTypes| then []
    else
      Matching(handlers, baseTypes[from], from, filters, commandType)
        + Candidates(baseTypes, handlers, filters, commandType, from + 1)
  }

  /** `a` may come before `b` under `orderby Priority descending, Index descending`. */
  predicate RanksBefore(a: HandlerEntry, b: HandlerEntry)
  {
    a.handler.priority > b.handler.priority
    || (a.handler.priority == b.handler.priority && a.index >= b.index)
  }

  predicate SameKey(a: HandlerEntry, b: HandlerEntry)
  {
    a.handler.priority == b.handler.priority && a.index == b.index
  }

  predicate IsSortedDesc(s: seq<HandlerEntry>)
  {
    forall i, j :: 0 <= i < j < |s| ==> RanksBefore(s[i], s[j])
  }

  /** Puts `e` after every entry that ranks at least as high: the step of a stable sort. */
  function Insert(sorted: seq<HandlerEntry>, e: HandlerEntry): (r: seq<HandlerEntry>)
    ensures multiset(r) == multiset(sorted) + multiset{e}
  {
    if sorted == [] then [e]
    else if RanksBefore(sorted[0], e) then
      assert sorted == [sorted[0]] + sorted[1..];
      [sorted[0]] + Insert(sorted[1..], e)
    else
      [e] + sorted
  }

  lemma {:induction false} InsertKeepsSorted(sorted: seq<HandlerEntry>, e: HandlerEntry)
    requires IsSortedDesc(sorted)
    ensures IsSortedDesc(Insert(sorted, e))
  {
    if sorted != [] && RanksBefore(sorted[0], e) {
      var rest := sorted[1..];
      InsertKeepsSorted(rest, e);
      var tail := Insert(rest, e);
      assert Insert(sorted, e) == [sorted[0]] + tail;
      forall j | 0 <= j < |tail| ensures RanksBefore(sorted[0], tail[j]) {
        assert tail[j] in multiset(tail);
        HeadRanksFirst(sorted, e, tail[j]);
      }
      ConsKeepsSorted(sorted[0], tail);
    }
  }

  lemma ConsKeepsSorted(head: HandlerEntry, tail: seq<HandlerEntry>)
    requires IsSortedDesc(tail)
    requires forall j :: 0 <= j < |tail| ==> RanksBefore(head, tail[j])
    ensures IsSortedDesc([head] + tail)
  {
    var r := [head] + tail;
    forall i, j | 0 <= i < j < |r| ensures RanksBefore(r[i], r[j]) {
      assert r[j] == tail[j - 1];
      if i > 0 {
        assert r[i] == tail[i - 1];
      }
    }
  }

  lemma HeadRanksFirst(sorted: seq<HandlerEntry>, e: HandlerEntry, x: HandlerEntry)
    requires IsSortedDesc(sorted) && sorted != [] && RanksBefore(sorted[0], e)
    requires x in multiset(sorted[1..]) + multiset{e}
    ensures RanksBefore(sorted[0], x)
  {
    if x != e {
      assert x in sorted[1..];
      var k :| 0 <= k < |sorted| - 1 && sorted[1..][k] == x;
      assert sorted[k + 1] == x;
    }
  }

  /** LINQ's `orderby … descending, … descending`: a stable sort. */
  function OrderByDescending(s: seq<HandlerEntry>): (r: seq<HandlerEntry>)
    ensures multiset(r) == multiset(s)
    ensures IsSortedDesc(r)
  {
    if s == [] then []
    else
      assert s == s[..|s| - 1] + [s[|s| - 1]];
      InsertKeepsSorted(OrderByDescending(s[..|s| - 1]), s[|s| - 1]);
      Insert(OrderByDescending(s[..|s| - 1]), s[|s| - 1])
  }

  /** The entries of `s` with the same sort key as `k`, in their order in `s`. */
  function WithKeyOf(s: seq<HandlerEntry>, k: HandlerEntry): seq<HandlerEntry>
  {
    if s == [] then []
    else WithKeyOf(s[..|s| - 1], k) + (if SameKey(s[|s| - 1], k) then [s[|s| - 1]] else [])
  }

  lemma {:induction false} WithKeyOfConcat(a: seq<HandlerEntry>, b: seq<HandlerEntry>, k: HandlerEntry)
    ensures WithKeyOf(a + b, k) == WithKeyOf(a, k) + WithKeyOf(b, k)
  {
    if b != [] {
      assert (a + b)[..|a + b| - 1] == a + b[..|b| - 1];
      WithKeyOfConcat(a, b[..|b| - 1], k);
    } else {
      assert a + b == a;
    }
  }

  lemma {:induction false} WithKeyOfNone(s: seq<HandlerEntry>, k: HandlerEntry)
    requires forall i :: 0 <= i < |s| ==> !SameKey(s[i], k)
    ensures WithKeyOf(s, k) == []
  {
    if s != [] {
      WithKeyOfNone(s[..|s| - 1], k);
    }
  }

  lemma {:induction false} InsertIsStable(sorted: seq<HandlerEntry>, e: HandlerEntry, k: HandlerEntry)
    requires IsSortedDesc(sorted)
    ensures WithKeyOf(Insert(sorted, e), k) == WithKeyOf(sorted, k) + WithKeyOf([e], k)
  {
    if sorted == [] {
    } else if RanksBefore(sorted[0], e) {
      var rest := sorted[1..];
      assert sorted == [sorted[0]] + rest;
      InsertIsStable(rest, e, k);
      WithKeyOfConcat([sorted[0]], Insert(rest, e), k);
      WithKeyOfConcat([sorted[0]], rest, k);
    } else {
      WithKeyOfConcat([e], sorted, k);
      if SameKey(e, k) {
        WithKeyOfNone(sorted, k);
      }
    }
  }

  /** The sort is stable: entries with equal keys keep their relative order. */
  lemma {:induction false} OrderByDescendingIsStable(s: seq<HandlerEntry>, k: HandlerEntry)
    ensures WithKeyOf(OrderByDescending(s), k) == WithKeyOf(s, k)
  {
    if s != [] {
      var init, last := s[..|s| - 1], s[|s| - 1];
      var sorted := OrderByDescending(init);
      assert OrderByDescending(s) == Insert(sorted, last);
      OrderByDescendingIsStable(init, k);
      InsertIsStable(sorted, last, k);
      assert WithKeyOf([last], k) == (if SameKey(last, k) then [last] else []) by {
        assert [last][..0] == [];
      }
    }
  }

  /** `select handler`. */
  function HandlersOf(entries: seq<HandlerEntry>): (r: seq<CommandHandler>)
    ensures |r| == |entries| && forall i :: 0 <= i < |r| ==> r[i] == entries[i].handler
  {
    seq(|entries|, i requires 0 <= i < |entries| => entries[i].handler)
  }

  /** `handlers.Where(h => !h.IsFilter)`. */
  function NonFilterHandlers(hs: seq<CommandHandler>): (r: seq<CommandHandler>)
    ensures forall h :: h in r <==> h in hs && !h.isFilter
    ensures Linq.NoDuplicates(hs) ==> Linq.NoDuplicates(r)
  {
    if hs == [] then []
    else
      var rest := NonFilterHandlers(hs[1..]);
      assert forall i :: 1 <= i < |hs| ==> hs[i] == hs[1..][i - 1];
      (if hs[0].isFilter then [] else [hs[0]]) + rest
  }

  /** The query of `GetCommandHandlers` up to `.Distinct()`. */
  function Selected(handlers: seq<CommandHandler>, filters: seq<HandlerFilter>,
                    commandType: TypeId, baseTypes: seq<TypeId>): seq<CommandHandler>
  {
    Linq.Distinct(HandlersOf(OrderByDescending(Candidates(baseTypes, handlers, filters, commandType, 0))))
  }

  /** The body of the `GetOrAdd` factory: the selected handlers, or the error thrown when
      more than one of them is a non-filter handler. */
  function Resolve(handlers: seq<CommandHandler>, filters: seq<HandlerFilter>,
                   commandType: TypeId, baseTypes: seq<TypeId>): Result<seq<CommandHandler>, ResolverError>
  {
    var selected := Selected(handlers, filters, commandType, baseTypes);
    if |NonFilterHandlers(selected)| > 1 then Err(MultipleNonFilterHandlers(commandType))
    else Ok(selected)
  }

  /** A handler qualifies: it is registered, targets one of the base types, and every filter
      accepts it for the (original) command type. */
  predicate Qualifies(handlers: seq<CommandHandler>, filters: seq<HandlerFilter>,
                      commandType: TypeId, baseTypes: seq<TypeId>, h: CommandHandler)
  {
    h in handlers && h.commandType in baseTypes && AllFiltersAccept(filters, h, commandType)
  }

  /** The index of the last occurrence of `t` in `s`. */
  function LastIndexOf(s: seq<TypeId>, t: TypeId): (k: nat)
    requires t in s
    ensures k < |s| && s[k] == t
    ensures forall j :: k < j < |s| ==> s[j] != t
  {
    if s[|s| - 1] == t then |s| - 1
    else
      assert t in s[..|s| - 1] by {
        var j :| 0 <= j < |s| && s[j] == t;
        assert s[..|s| - 1][j] == t;
      }
      LastIndexOf(s[..|s| - 1], t)
  }

  lemma EntryHandlerInHandlersOf(entries: seq<HandlerEntry>, e: HandlerEntry)
    requires e in entries
    ensures e.handler in HandlersOf(entries)
  {
    var i :| 0 <= i < |entries| && entries[i] == e;
    assert HandlersOf(entries)[i] == e.handler;
  }

  /** Soundness and completeness: the selected handlers are exactly the qualifying ones. */
  lemma SelectedAreExactlyQualifying(handlers: seq<CommandHandler>, filters: seq<HandlerFilter>,
                                     commandType: TypeId, baseTypes: seq<TypeId>, h: CommandHandler)
    ensures (h in Selected(handlers, filters, commandType, baseTypes))
              == Qualifies(handlers, filters, commandType, baseTypes, h)
  {
    var cands := Candidates(baseTypes, handlers, filters, commandType, 0);
    var sorted := OrderByDescending(cands);
    var hs := HandlersOf(sorted);
    var selected := Linq.Distinct(hs);
    if h in selected {
      var i :| 0 <= i < |selected| && selected[i] == h;
      assert h in hs;
      var j :| 0 <= j < |hs| && hs[j] == h;
      assert sorted[j] in multiset(cands);
      assert sorted[j] in cands;
    }
    if Qualifies(handlers, filters, commandType, baseTypes, h) {
      var e := HandlerEntry(h, LastIndexOf(baseTypes, h.commandType));
      assert e in cands;
      assert e in multiset(sorted);
      EntryHandlerInHandlersOf(sorted, e);
      var j :| 0 <= j < |hs| && hs[j] == h;
    }
  }

  /** The selected handlers contain no duplicates. */
  lemma SelectedHasNoDuplicates(handlers: seq<CommandHandler>, filters: seq<HandlerFilter>,
                                commandType: TypeId, baseTypes: seq<TypeId>)
    ensures Linq.NoDuplicates(Selected(handlers, filters, commandType, baseTypes))
  {
  }

  /** A selected handler's position in the order is decided by its priority and the last
      base-type index its target type has. */
  predicate RankedBefore(baseTypes: seq<TypeId>, a: CommandHandler, b: CommandHandler)
    requires a.commandType in baseTypes && b.commandType in baseTypes
  {
    a.priority > b.priority
    || (a.priority == b.priority
        && LastIndexOf(baseTypes, a.commandType) >= LastIndexOf(baseTypes, b.commandType))
  }

  /** In a sorted sequence, the first entry of `h` is the one with the largest index. */
  lemma FirstEntryIsHighest(sorted: seq<HandlerEntry>, h: CommandHandler, m: nat)
    requires IsSortedDesc(sorted)
    requires HandlerEntry(h, m) in sorted
    requires forall i :: 0 <= i < |sorted| && sorted[i].handler == h ==> sorted[i].index <= m
    ensures h in HandlersOf(sorted)
    ensures sorted[Linq.IndexOf(HandlersOf(sorted), h)] == HandlerEntry(h, m)
  {
    var hs := HandlersOf(sorted);
    var p :| 0 <= p < |sorted| && sorted[p] == HandlerEntry(h, m);
    assert hs[p] == h;
    var q := Linq.IndexOf(hs, h);
    if q < p {
      assert RanksBefore(sorted[q], sorted[p]);
    }
  }

  /** The first entry of a handler in the sorted candidates carries the last base-type index of
      its target type. */
  lemma FirstEntryIndex(handlers: seq<CommandHandler>, filters: seq<HandlerFilter>,
                        commandType: TypeId, baseTypes: seq<TypeId>, h: CommandHandler)
    requires h in HandlersOf(OrderByDescending(Candidates(baseTypes, handlers, filters, commandType, 0)))
    ensures h.commandType in baseTypes
    ensures var sorted := OrderByDescending(Candidates(baseTypes, handlers, filters, commandType, 0));
            var q := Linq.IndexOf(HandlersOf(sorted), h);
            sorted[q] == HandlerEntry(h, LastIndexOf(baseTypes, h.commandType))
  {
    var cands := Candidates(baseTypes, handlers, filters, commandType, 0);
    forall e | e in cands
      ensures e.index < |baseTypes| && baseTypes[e.index] == e.handler.commandType
      ensures HandlerEntry(e.handler, LastIndexOf(baseTypes, e.handler.commandType)) in cands
    {
    }
    SortedFirstEntryIndex(cands, OrderByDescending(cands), baseTypes, h);
  }

  /** FirstEntryIndex, for any sorted permutation of entries closed under moving to the last
      base-type index. */
  lemma SortedFirstEntryIndex(cands: seq<HandlerEntry>, sorted: seq<HandlerEntry>, baseTypes: seq<TypeId>,
                              h: CommandHandler)
    requires multiset(sorted) == multiset(cands) && IsSortedDesc(sorted)
    requires h in HandlersOf(sorted)
    requires forall e :: e in cands ==>
               && e.index < |baseTypes| && baseTypes[e.index] == e.handler.commandType
               && HandlerEntry(e.handler, LastIndexOf(baseTypes, e.handler.commandType)) in cands
    ensures h.commandType in baseTypes
    ensures sorted[Linq.IndexOf(HandlersOf(sorted), h)] == HandlerEntry(h, LastIndexOf(baseTypes, h.commandType))
  {
    var q := Linq.IndexOf(HandlersOf(sorted), h);
    var first := sorted[q];
    assert first in multiset(cands);
    assert first in cands;
    assert baseTypes[first.index] == h.commandType;
    var m := LastIndexOf(baseTypes, h.commandType);
    assert HandlerEntry(h, m) in multiset(sorted);
    forall i | 0 <= i < |sorted| && sorted[i].handler == h ensures sorted[i].index <= m {
      assert sorted[i] in multiset(cands);
    }
    FirstEntryIsHighest(sorted, h, m);
  }

  /** The selected handlers are ordered by priority descending, then by base-type index
      descending. */
  lemma SelectedIsOrdered(handlers: seq<CommandHandler>, filters: seq<HandlerFilter>,
                          commandType: TypeId, baseTypes: seq<TypeId>, i: nat, j: nat)
    requires i < j < |Selected(handlers, filters, commandType, baseTypes)|
    ensures var r := Selected(handlers, filters, commandType, baseTypes);
            r[i].commandType in baseTypes && r[j].commandType in baseTypes
            && RankedBefore(baseTypes, r[i], r[j])
  {
    var sorted := OrderByDescending(Candidates(baseTypes, handlers, filters, commandType, 0));
    var hs := HandlersOf(sorted);
    var r := Linq.Distinct(hs);
    assert r == Selected(handlers, filters, commandType, baseTypes);
    var a, b := r[i], r[j];
    assert a in hs && b in hs;
    Linq.DistinctOrderAt(hs, i, j);
    var qa, qb := Linq.IndexOf(hs, a), Linq.IndexOf(hs, b);
    FirstEntryIndex(handlers, filters, commandType, baseTypes, a);
    FirstEntryIndex(handlers, filters, commandType, baseTypes, b);
    assert RanksBefore(sorted[qa], sorted[qb]);
  }

  lemma TwoDistinctInSeq<X>(s: seq<X>, a: X, b: X)
    requires a in s && b in s && a != b
    ensures |s| > 1
  {
  }

  /** More than one qualifying non-filter handler is an error; otherwise the selected list is
      returned, and it holds at most one non-filter handler. */
  lemma ResolveRejectsMultipleNonFilterHandlers(handlers: seq<CommandHandler>, filters: seq<HandlerFilter>,
                                                commandType: TypeId, baseTypes: seq<TypeId>)
    ensures var r := Resolve(handlers, filters, commandType, baseTypes);
            && (r.Err? <==>
                 exists h1, h2 :: && Qualifies(handlers, filters, commandType, baseTypes, h1)
                                  && Qualifies(handlers, filters, commandType, baseTypes, h2)
                                  && !h1.isFilter && !h2.isFilter && h1 != h2)
            && (r.Err? ==> r.error == MultipleNonFilterHandlers(commandType))
            && (r.Ok? ==> r.value == Selected(handlers, filters, commandType, baseTypes)
                          && |NonFilterHandlers(r.value)| <= 1)
  {
    var selected := Selected(handlers, filters, commandType, baseTypes);
    var nf := NonFilterHandlers(selected);
    if |nf| > 1 {
      assert nf[0] != nf[1];
      SelectedAreExactlyQualifying(handlers, filters, commandType, baseTypes, nf[0]);
      SelectedAreExactlyQualifying(handlers, filters, commandType, baseTypes, nf[1]);
    }
    forall h1, h2 | && Qualifies(handlers, filters, commandType, baseTypes, h1)
                    && Qualifies(handlers, filters, commandType, baseTypes, h2)
                    && !h1.isFilter && !h2.isFilter && h1 != h2
      ensures |nf| > 1
    {
      SelectedAreExactlyQualifying(handlers, filters, commandType, baseTypes, h1);
      SelectedAreExactlyQualifying(handlers, filters, commandType, baseTypes, h2);
      TwoDistinctInSeq(nf, h1, h2);
    }
  }

  lemma AtMostTwoValues<X>(r: seq<X>, a: X, b: X)
    requires Linq.NoDuplicates(r)
    requires forall i :: 0 <= i < |r| ==> r[i] == a || r[i] == b
    ensures |r| <= 2
  {
    var e := Linq.Elems(r);
    Linq.EnumerationLength(r, e);
    assert e <= {a, b};
    assert {a, b} == e + ({a, b} - e);
  }

  /** With exactly two qualifying handlers of different priorities, the higher one comes first. */
  lemma TwoQualifyingByPriority(handlers: seq<CommandHandler>, filters: seq<HandlerFilter>,
                                commandType: TypeId, baseTypes: seq<TypeId>, a: CommandHandler, b: CommandHandler)
    requires Qualifies(handlers, filters, commandType, baseTypes, a)
    requires Qualifies(handlers, filters, commandType, baseTypes, b)
    requires forall h :: Qualifies(handlers, filters, commandType, baseTypes, h) ==> h == a || h == b
    requires a.priority > b.priority
    ensures Selected(handlers, filters, commandType, baseTypes) == [a, b]
  {
    var r := Selected(handlers, filters, commandType, baseTypes);
    forall h | h in r ensures h == a || h == b {
      SelectedAreExactlyQualifying(handlers, filters, commandType, baseTypes, h);
    }
    SelectedAreExactlyQualifying(handlers, filters, commandType, baseTypes, a);
    SelectedAreExactlyQualifying(handlers, filters, commandType, baseTypes, b);
    TwoDistinctInSeq(r, a, b);
    SelectedHasNoDuplicates(handlers, filters, commandType, baseTypes);
    AtMostTwoValues(r, a, b);
    SelectedIsOrdered(handlers, filters, commandType, baseTypes, 0, 1);
  }

  /** Type 0 has itself and its base type 1 as base types: a filter of priority 10 for the base
      type runs before the terminal handler of priority 5 for the type. */
  lemma ResolveExampleOrder()
    ensures var outer := CommandHandler(1, 10, true, 1);
            var terminal := CommandHandler(0, 5, false, 2);
            Resolve([terminal, outer], [], 0, [0, 1]) == Ok([outer, terminal])
  {
    var outer := CommandHandler(1, 10, true, 1);
    var terminal := CommandHandler(0, 5, false, 2);
    TwoQualifyingByPriority([terminal, outer], [], 0, [0, 1], outer, terminal);
    assert NonFilterHandlers([outer, terminal]) == [terminal] by {
      assert [outer, terminal][1..] == [terminal] && [terminal][1..] == [];
      assert NonFilterHandlers([terminal]) == [terminal];
    }
  }

  class CommandHandlerResolver {
    /** `Registry.Handlers`. */
    const handlers: seq<CommandHandler>
    /** The filters the constructor was given (none when given null). */
    const filters: seq<HandlerFilter>
    /** `type.GetAllBaseTypes(true, true)`: the type, its base types and interfaces, in order. */
    const allBaseTypes: TypeId -> seq<TypeId>
    /** `Cache`: the successful resolutions so far. */
    var cache: map<TypeId, seq<CommandHandler>>
    /** The errors logged at critical level, oldest first. */
    ghost var criticalLog: seq<ResolverError>

    /** Every cached list is the resolution of its type. */
    ghost predicate Valid()
      reads this
    {
      forall t :: t in cache ==> Resolve(handlers, filters, t, allBaseTypes(t)) == Ok(cache[t])
    }

    constructor (handlers: seq<CommandHandler>, filters: Option<seq<HandlerFilter>>,
                 allBaseTypes: TypeId -> seq<TypeId>)
      ensures Valid()
      ensures this.handlers == handlers && this.allBaseTypes == allBaseTypes
      ensures this.filters == (if filters.Some? then filters.value else [])
      ensures cache == map[] && criticalLog == []
    {
      this.handlers := handlers;
      this.filters := if filters.Some? then filters.value else [];
      this.allBaseTypes := allBaseTypes;
      cache := map[];
      criticalLog := [];
    }

    /** `GetCommandHandlers(commandType)`: the cached list, or a fresh resolution that is
        cached when it succeeds and logged and thrown when it fails. */
    method GetCommandHandlers(commandType: TypeId) returns (r: Result<seq<CommandHandler>, ResolverError>)
      requires Valid()
      modifies this`cache, this`criticalLog
      ensures Valid()
      ensures r == Resolve(handlers, filters, commandType, allBaseTypes(commandType))
      ensures commandType in old(cache) ==>
                r == Ok(old(cache)[commandType]) && cache == old(cache) && criticalLog == old(criticalLog)
      ensures commandType !in old(cache) && r.Ok? ==>
                cache == old(cache)[commandType := r.value] && criticalLog == old(criticalLog)
      ensures r.Err? ==> cache == old(cache) && criticalLog == old(criticalLog) + [r.error]
    {
      if commandType in cache {
        return Ok(cache[commandType]);
      }
      r := Resolve(handlers, filters, commandType, allBaseTypes(commandType));
      match r
      case Err(e) =>
        criticalLog := criticalLog + [e];
      case Ok(hs) =>
        cache := cache[commandType := hs];
    }
  }
}
