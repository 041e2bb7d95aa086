# Backprop-mode stack of xchainer

This project models the backprop-mode machinery of xchainer
(`xchainer/backprop_mode.h`). It decides, for each computation graph, whether
operations run now must record what later differentiation needs.

- **Mode entry** (`BackpropMode.Entry`): an immutable value. It holds the
  owning context (an opaque `ContextId`), an optional graph id (`None` means
  every graph) and the backprop flag. `false` is `NoBackprop`; `true` is
  `ForceBackprop`. Because it is a datatype, the stack can change only by
  adding or removing whole entries.
- **Mode stack** (`BackpropModeScope.ModeStack`): the entry vector of one
  execution context. It is a class with a `seq<Entry>` field. Its invariant
  says every entry belongs to that context.
- **Scope guard** (`BackpropModeScope.Scope`): the `BackpropModeScope<kModeFlag>`
  template, with the template flag as a field.
  - `AllGraphs` is the no-argument constructor.
  - `ForGraphs` is the vector constructor and the initializer-list constructor.
    The initializer-list form only copies its elements into a vector, so both
    take the same sequence.
  - `Close` is the destructor.
  - The guard records `n` (entries pushed) and `isOutermost`.
  - The ghost fields `before` and `pushed` name the stack under the scope and
    the entries it added. Copy and move are deleted, so scopes close last-in,
    first-out. `Close` therefore requires that the stack is exactly
    `before + pushed`.
- **Queries** (module `BackpropMode`) are pure functions over a stack:
  - `IsBackpropRequired(stack, g)` scans from the newest entry to the oldest.
    The first entry that names no graph or names `g` decides. When no entry
    applies, the answer is true.
  - `ModeStack.IsBackpropRequired` is the same scan written as a loop and
    proved equal to the function.
  - `IsArrayBackpropRequired` and `IsBackpropRequiredAfterStop` are the
    `any_of` queries over an array. An array is the sequence of its nodes'
    graph ids. The stop container is a sequence searched by membership.

The header only declares the graph-level `IsBackpropRequired` and the scope's
destructor and `BackpropModeScopeImpl`. Their definitions live in
`xchainer/backprop_mode.cc`, which is not part of this model. The query
follows the documented rule: newest matching entry decides, default true. The
header does not define the "outermost" marker. This model takes it to mean
that the stack was empty when the scope opened. The outermost scope's check
on close is an `assert` in `Close`: after removal, the stack is back to its
opening depth, which is zero. The assert is proved to hold.

## Model

| member | source | states |
|---|---|---|
| `BackpropMode.IsBackpropRequired` | xchainer/backprop_mode.h:85 | with no entry applying to `g` the result is true; otherwise it is the flag of the newest entry that names no graph or names `g` |
| `BackpropModeScope.ModeStack.IsBackpropRequired` | xchainer/backprop_mode.h:85 | the reverse scan over the context's stack returns exactly the specified answer for the graph |
| `BackpropMode.EmptyStackRequiresBackprop` | xchainer/backprop_mode.h:85 | with an empty stack every graph requires backprop |
| `BackpropMode.QueryOfPush` | xchainer/backprop_mode.h:43 | a newly pushed entry decides for the graphs it applies to and leaves every other graph's answer unchanged |
| `BackpropMode.QueryOfAppend` | xchainer/backprop_mode.h:43 | over `s + t` the answer is `t`'s when some entry of `t` applies, else `s`'s: newer entries take precedence |
| `BackpropMode.GraphEntries` | xchainer/backprop_mode.h:51-57 | one entry per listed graph id, in list order, duplicates included, each naming that id with the scope's context and flag |
| `BackpropMode.ScopeEntries` | xchainer/backprop_mode.h:48-57 | no list gives exactly one entry naming no graph; a list gives one entry per id in order; every entry carries the context and the scope's flag |
| `BackpropMode.ScopeEntriesDecide` | xchainer/backprop_mode.h:45-57 | a scope's entries apply to `g` iff the scope is for all graphs or lists `g`, and then they answer the scope's flag |
| `BackpropMode.ScopeQuery` | xchainer/backprop_mode.h:45-57 | after a scope opens, targeted graphs answer the scope's flag and all other graphs keep their previous answer |
| `BackpropMode.EmptyListScopeIsNoOp` | xchainer/backprop_mode.h:51-57 | a scope with an empty graph list pushes nothing and changes no answer |
| `BackpropMode.NestingPrecedence` | xchainer/backprop_mode.h:79-85 | a force scope for `a` inside a no-backprop scope for all graphs turns `a` on while `b` stays off; without the inner scope both are off |
| `BackpropMode.IsArrayBackpropRequired` | xchainer/backprop_mode.h:87-93 | true iff some node's graph id requires backprop; false for an array without nodes |
| `BackpropMode.IsBackpropRequiredAfterStop` | xchainer/backprop_mode.h:97-107 | true iff some node whose graph id is not in the stop container requires backprop |
| `BackpropMode.NoNodesNoBackprop` | xchainer/backprop_mode.h:88-107 | an array with no nodes requires backprop under neither array-level query |
| `BackpropMode.AfterStopWithoutStops` | xchainer/backprop_mode.h:97-107 | with an empty stop container the stop-set query equals the array query |
| `BackpropMode.AllStoppedNoBackprop` | xchainer/backprop_mode.h:101-106 | when every node's graph id is stopped the stop-set query is false |
| `BackpropMode.AfterStopMonotone` | xchainer/backprop_mode.h:101-105 | enlarging the stop container can only turn the answer from true to false |
| `BackpropMode.AfterStopImpliesRequired` | xchainer/backprop_mode.h:97-107 | the stop-set query true implies the array query true |
| `BackpropMode.AfterStopIgnoresStopped` | xchainer/backprop_mode.h:97-107 | for an array in graphs `a` and `b` with `a` stopped, the answer is graph `b`'s alone |
| `BackpropModeScope.ModeStack.constructor` | xchainer/backprop_mode.h:43 | a context's stack starts empty |
| `BackpropModeScope.Scope.AllGraphs` | xchainer/backprop_mode.h:48-49 | pushes exactly one entry naming no graph with the scope's flag and context; `n` is 1; nothing under it changes |
| `BackpropModeScope.Scope.ForGraphs` | xchainer/backprop_mode.h:51-57 | appends one entry per listed id in order; `n` is the list length; nothing under it changes; `isOutermost` iff the stack was empty |
| `BackpropModeScope.Scope.Close` | xchainer/backprop_mode.h:59-71 | under last-in, first-out closing, erases exactly the `n` tail entries, restoring the stack as it was before the scope opened; every remaining entry still belongs to the stack's context |
| `BackpropModeScope.NestedScopes` | xchainer/backprop_mode.h:79-83 | nested no-backprop and force scopes answer as the precedence rule says, and closing both restores the stack |

## Left out

- The default context (`GetDefaultContext`) and the default graph id (`kDefaultGraphId`): callers pass the stack and the graph id explicitly. Their definitions are not part of this model.
- Context internals: the entry's back-reference to its context is the opaque `ContextId`.
- Array and node structure (`shared_ptr` node lists): an array is the sequence of its nodes' graph ids.
- Graph id representation: `GraphId` is an opaque type with equality.
- `BackpropModeScope.Scope.Close`: misuse is not modelled. Close requires last-in, first-out order, which the deleted copy and move operations enforce. The fatal abort that misuse would trigger is therefore a proved assertion, not an abort path.
- Sharing one context across threads: the code has no synchronisation, so the model is sequential.
- Explicit template instantiation (xchainer/backprop_mode.h:74-75) has no modelling content.
