# BranchOrder: the tie-break order of branches in the list model

The list model of `anchor-logoot` lets replicas, called branches, edit one
shared list. When two positions carry the same integer, the list model breaks
the tie by the ranks of their branches. `BranchOrder` holds those ranks. It is
an ordered list of branch identifiers, and an identifier's index in the list is
its rank. Its operations:

- `i(br)` finds the rank of `br`. It appends `br` first when `br` is not yet in
  the list.
- `b(index)` reads the identifier at a rank.
- `insertOrdered(br, cf)` inserts `br` before the first identifier that the
  comparator `cf` ranks above it.
- `toJSON(mapper)` and `fromJSON(json, mapper)` serialise and restore the list
  through a caller-supplied mapper.

Everything is in `branch.dfy`, module `Branch`. The first part gives pure
specification functions over `seq<T>` and the lemmas about them:

- `IndexOf` is JavaScript's `indexOf`.
- `Registered` and `Rank` give the new list and the result of `i`.
- `InsertionPoint` and `InsertedOrdered` give the result of `insertOrdered`.
- `Mapped` is `Array.prototype.map`.

The class `BranchOrder<T>` holds the list as a mutable field `order: seq<T>`.
`I` and `InsertOrdered` are methods that change `order`. Each is proved to
leave exactly the list that its specification function gives. `B`, `Length`
and `ToJSON` are functions that read the object. `FromJSON` is a static method
that allocates a new object.

The comparator and the two JSON mappers come from the caller. They are
modelled as total function parameters: `cf: (T, T) -> int`, `mapper: T -> U`
and `mapper: J -> T`.

An identifier's rank is meant to identify it uniquely. Nothing in the code
enforces uniqueness, though. The constructor accepts any list, and
`insertOrdered` never checks membership. This model follows the code, and
proves two facts about duplicates:

- `i` keeps a duplicate-free list duplicate-free (`RegisterKeepsDistinct`).
- `insertOrdered` of an identifier already present duplicates it
  (`InsertedOrderedMayDuplicate`).

## Model

| member | source | states |
|---|---|---|
| Branch.IndexOf | src/listmodel/branch.ts:28 | the result is -1 exactly when `x` is absent; otherwise it is an index holding `x` with no earlier occurrence |
| Branch.Registered | src/listmodel/branch.ts:24-25 | after `i(br)`, `br` is in the list; a known `br` leaves the list unchanged; an unknown `br` grows it by exactly one, at the end, and leaves the old prefix unchanged |
| Branch.Rank | src/listmodel/branch.ts:24-28 | the rank `i(br)` returns is the index of the first occurrence of `br` in the new list; for an unknown `br` it is the old length |
| Branch.RankIsIndexOf | src/listmodel/branch.ts:24-28 | the returned rank is what `indexOf(br)` gives on the new list |
| Branch.RegisterIdempotent | src/listmodel/branch.ts:23-29 | a second `i(br)` leaves the list unchanged and returns the same rank |
| Branch.IndexOfPrefix | src/listmodel/branch.ts:25 | appending to a list does not change the first-occurrence index of any identifier already present |
| Branch.RegisterKeepsRanks | src/listmodel/branch.ts:24-28 | ranks are append-only: `i(br)` does not change the rank of any identifier already in the list |
| Branch.RegisterKeepsDistinct | src/listmodel/branch.ts:24-26 | `i(br)` keeps a list without duplicates free of duplicates |
| Branch.RegisteredAllGrows | src/listmodel/branch.ts:23-29 | over any sequence of `i` calls, the old list stays a prefix, the list holds exactly the identifiers seen, and it stays duplicate-free |
| Branch.FirstSeenRanks | test/listmodel.spec.ts:28-31 | three distinct branches registered in turn into an empty list get ranks 0, 1 and 2 |
| Branch.InsertionPoint | src/listmodel/branch.ts:35-42 | the insertion index is the first `k` with `cf(br, order[k]) < 0`, or the length when there is none |
| Branch.InsertedOrdered | src/listmodel/branch.ts:34-44 | after `insertOrdered`, the length has grown by one and `br` sits at the insertion point; elements before it keep their indices; elements from it onward move up by one in the same order; the multiset gains exactly `br` |
| Branch.InsertedOrderedMayDuplicate | src/listmodel/branch.ts:34-43 | inserting an identifier already present adds a second copy, so the list is no longer duplicate-free |
| Branch.InsertedOrderedKeepsDistinct | src/listmodel/branch.ts:34-43 | inserting an absent identifier into a duplicate-free list keeps it duplicate-free |
| Branch.InsertedOrderedKeepsSorted | src/listmodel/branch.ts:34-44 | when `cf` is antisymmetric and transitive on the elements involved, and the list is sorted by `cf`, the list stays sorted after insertion |
| Branch.Mapped | src/listmodel/branch.ts:52-57 | `map` yields a list of the same length holding `f(s[j])` at each index `j` |
| Branch.MappedRoundTrip | src/listmodel/branch.ts:46-58 | mapping out and back with mapper functions that undo each other on the list's elements reproduces the list |
| Branch.IdentityRoundTrip | src/listmodel/branch.ts:46-58 | with the default identity mappers, `fromJSON(toJSON())` reproduces the list exactly |
| Branch.BranchOrder.constructor | src/listmodel/branch.ts:12 | the new object holds the given list |
| Branch.BranchOrder.I | src/listmodel/branch.ts:23-29 | the new list is `Registered(old, br)` and the result is `Rank(old, br)`; an unknown `br` is appended and gets the old length, a known one leaves the list unchanged and gets `indexOf(br)`; `length` grows by one exactly when `br` was unknown; `b(result)` is `br`; no rank that existed before changes |
| Branch.BranchOrder.B | src/listmodel/branch.ts:30-32 | an identifier is returned exactly for an index in `0 <= index < length`, and it is the one at that index; any other index gives `None`, which stands for `undefined` |
| Branch.BranchOrder.InsertOrdered | src/listmodel/branch.ts:34-44 | the new list is `InsertedOrdered(old, br, cf)`, `length` grows by one, and the result is the same object |
| Branch.BranchOrder.ToJSON | src/listmodel/branch.ts:56-58 | the result has the same length as the list and holds `mapper(order[j])` at each index `j` |
| Branch.BranchOrder.FromJSON | src/listmodel/branch.ts:46-53 | a fresh object whose list has the length of `json` and holds `mapper(json[j])` at each index `j` |
| Branch.RestoreFromJSON | src/listmodel/branch.ts:46-58 | `fromJSON(toJSON(toKey), fromKey)` with mappers that undo each other gives a separate object holding an equal list |
| Branch.RegisterThree | test/listmodel.spec.ts:28-31 | the list model's test setup, `new BranchOrder()` followed by `i(u1)`, `i(u2)`, `i(u3)`, yields `[u1, u2, u3]` with ranks 0, 1 and 2, and `b(3)` is undefined |

The `length` getter (src/listmodel/branch.ts:14-16) is `BranchOrder.Length`. It
has no contract of its own. The contracts of `I` and `InsertOrdered` say how it
changes.

## Left out

- JavaScript value semantics of branch keys. The model does not cover `symbol`
  keys or JavaScript's two equalities. `includes` uses SameValueZero, under which
  NaN equals NaN. `indexOf` uses strict equality, under which NaN equals
  nothing. Both treat +0 and -0 as equal. `BranchKey` is a type parameter with
  one ordinary equality, used for both calls.
- Branch.BranchOrder.I: does not model the NaN key. In the source, when `order`
  already holds NaN, `i(NaN)` finds it with `includes` (src/listmodel/branch.ts:24).
  It then returns `indexOf(NaN)`, which is -1 (src/listmodel/branch.ts:28). It
  appends nothing, and -1 is not a rank: `b(-1)` is undefined. The model's `I`
  returns a `nat` and promises `B(k) == Some(br)`, so it has no such case.
- The `@anchor-logoot/dtst-js` library and its `DualCompareFunction` type are
  not part of this model. `cf` is a total function parameter. The model makes
  no assumption about it, except in the premises of
  `InsertedOrderedKeepsSorted`.
- Default arguments. The constructor's default `[]` and the default identity
  mappers of `toJSON` and `fromJSON` are not parameters here. Callers pass
  them explicitly, as `RegisterThree` and `IdentityRoundTrip` do.
- Aliasing. The source constructor stores the caller's array by reference, so
  the caller can change `order` from outside. The model stores a value copy,
  and only the class's own methods change it.
- Non-integer indices passed to `b`. The model's index is an `int`. A fractional
  index, which JavaScript would also read as `undefined`, cannot be
  expressed.
- The mappers' results are not forced to be JSON-serialisable values. The
  conversion to JSON text is also left out.
- The rest of the list model (`AnchorLogootNode`, `LogootPosition`,
  `LogootInt`, skip ranges, `ListDocumentModel`) is not part of this model.
  Its source files are not available, and the test file alone cannot show
  how those parts are implemented.
