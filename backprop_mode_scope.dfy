/**
 * The per-context mode stack and the scoped guard that pushes entries onto
 * it and removes them again (`BackpropModeScope<kModeFlag>` in
 * xchainer/backprop_mode.h).
 */
module BackpropModeScope {

  import opened Wrappers
  import BackpropMode

  type Entry = BackpropMode.Entry
  type GraphId = BackpropMode.GraphId

  /**
   * The mode stack of one execution context: a vector of entries, changed
   * only at its tail.
   */
  class ModeStack {
    const context: BackpropMode.ContextId
    var entries: seq<Entry>

    /** Every entry on the stack belongs to this stack's context. */
    ghost predicate Valid()
      reads this
    {
      forall i :: 0 <= i < |entries| ==> entries[i].context == context
    }

    constructor (context: BackpropMode.ContextId)
      ensures this.context == context && entries == [] && Valid()
    {
      this.context := context;
      entries := [];
    }

    /**
     * Whether backprop is required for `graphId` in this context: scans
     * from the newest entry to the oldest and returns the flag of the first
     * entry that applies, or true when none does.
     */
    method IsBackpropRequired(graphId: GraphId) returns (r: bool)
      ensures r == BackpropMode.IsBackpropRequired(entries, graphId)
    {
      var k := |entries|;
      while k > 0
        invariant 0 <= k <= |entries|
        invariant forall j :: k <= j < |entries| ==> !BackpropMode.Matches(entries[j], graphId)
      {
        if BackpropMode.Matches(entries[k - 1], graphId) {
          assert BackpropMode.NewestMatchAt(entries, graphId, k - 1);
          return entries[k - 1].backprop;
        }
        k := k - 1;
      }
      return true;
    }
  }

  /**
   * A scope guard with flag `flag` (`NoBackprop` or `ForceBackprop`). It
   * remembers how many entries it pushed (`n`) and whether it was opened
   * on an empty stack (`isOutermost`); the ghost fields `before` and
   * `pushed` name the stack under it and the entries it added.
   */
  class Scope {
    const stack: ModeStack
    const flag: bool
    const n: nat
    const isOutermost: bool
    ghost const before: seq<Entry>
    ghost const pushed: seq<Entry>
    var isOpen: bool

    ghost predicate Valid()
    {
      n == |pushed| && isOutermost == (|before| == 0) &&
      forall e :: e in pushed ==> e.context == stack.context && e.backprop == flag
    }

    /** A scope for all graphs: pushes one entry that names no graph. */
    constructor AllGraphs(stack: ModeStack, flag: bool)
      requires stack.Valid()
      modifies stack
      ensures this.stack == stack && this.flag == flag && isOpen && Valid()
      ensures before == old(stack.entries)
      ensures pushed == BackpropMode.ScopeEntries(stack.context, flag, None)
      ensures n == 1
      ensures stack.entries == before + pushed && stack.Valid()
    {
      this.stack := stack;
      this.flag := flag;
      isOutermost := |stack.entries| == 0;
      before := stack.entries;
      stack.entries := stack.entries + [BackpropMode.Entry(stack.context, None, flag)];
      n := 1;
      pushed := BackpropMode.ScopeEntries(stack.context, flag, None);
      isOpen := true;
    }

    /**
     * A scope for the listed graphs: pushes one entry per id, in list
     * order, duplicates included; an empty list pushes nothing.
     */
    constructor ForGraphs(stack: ModeStack, flag: bool, graphIds: seq<GraphId>)
      requires stack.Valid()
      modifies stack
      ensures this.stack == stack && this.flag == flag && isOpen && Valid()
      ensures before == old(stack.entries)
      ensures pushed == BackpropMode.ScopeEntries(stack.context, flag, Some(graphIds))
      ensures n == |graphIds|
      ensures stack.entries == before + pushed && stack.Valid()
    {
      this.stack := stack;
      this.flag := flag;
      isOutermost := |stack.entries| == 0;
      before := stack.entries;
      var i := 0;
      while i < |graphIds|
        invariant 0 <= i <= |graphIds|
        invariant stack.entries == old(stack.entries) + BackpropMode.GraphEntries(stack.context, graphIds[..i], flag)
      {
        assert graphIds[..i + 1][..i] == graphIds[..i];
        stack.entries := stack.entries + [BackpropMode.Entry(stack.context, Some(graphIds[i]), flag)];
        i := i + 1;
      }
      assert graphIds[..i] == graphIds;
      n := |graphIds|;
      pushed := BackpropMode.ScopeEntries(stack.context, flag, Some(graphIds));
      isOpen := true;
    }

    /**
     * Closing the scope (the destructor): erases the `n` tail entries. Scopes
     * close in last-in, first-out order, so the stack holds exactly what this
     * scope left there; afterwards it is as it was before the scope opened,
     * and the outermost scope's check that the stack is back to its opening
     * depth holds.
     */
    method Close()
      requires Valid() && isOpen
      requires stack.entries == before + pushed && stack.Valid()
      modifies this`isOpen, stack
      ensures !isOpen
      ensures stack.entries == before && stack.Valid()
    {
      stack.entries := stack.entries[..|stack.entries| - n];
      assert stack.entries == before;
      if isOutermost {
        assert |stack.entries| == 0;
      }
      isOpen := false;
    }
  }

  /**
   * A no-backprop scope for all graphs with a force-backprop scope for `a`
   * nested inside it: inside both, `a` needs backprop and `b` does not;
   * after the inner scope closes `a` is off again; after the outer one the
   * stack is back to where it started.
   */
  method NestedScopes(stack: ModeStack, a: GraphId, b: GraphId)
    returns (innerA: bool, innerB: bool, outerA: bool)
    requires stack.Valid() && a != b
    modifies stack
    ensures innerA && !innerB && !outerA
    ensures stack.entries == old(stack.entries) && stack.Valid()
  {
    var outer := new Scope.AllGraphs(stack, BackpropMode.NoBackprop);
    var inner := new Scope.ForGraphs(stack, BackpropMode.ForceBackprop, [a]);
    BackpropMode.NestingPrecedence(outer.before, stack.context, a, b);
    innerA := stack.IsBackpropRequired(a);
    innerB := stack.IsBackpropRequired(b);
    inner.Close();
    outerA := stack.IsBackpropRequired(a);
    outer.Close();
  }
}
