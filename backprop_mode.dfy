/**
 * The backprop-mode entries and the read-only queries over a stack of them
 * (xchainer/backprop_mode.h).
 *
 * A stack is the sequence of entries of one execution context, oldest first
 * and newest last. Graph ids are compared only for equality. An array is
 * abstracted as the sequence of the graph ids of its nodes.
 */
module BackpropMode {

  import opened Wrappers

  /** Identity of an execution context; entries refer to their context by it. */
  type ContextId = nat

  /** Opaque graph identifier; only equality is used. */
  type GraphId(==)

  /** The flag a `NoBackpropModeScope` installs. */
  const NoBackprop: bool := false

  /** The flag a `ForceBackpropModeScope` installs. */
  const ForceBackprop: bool := true

  /**
   * One immutable mode entry: its owning context, the graph it applies to
   * (`None` means every graph) and the backprop flag it asserts.
   */
  datatype Entry = Entry(context: ContextId, graphId: Option<GraphId>, backprop: bool)

  /** An entry applies to `g` when it names no graph or names `g`. */
  predicate Matches(e: Entry, g: GraphId)
  {
    e.graphId.None? || e.graphId == Some(g)
  }

  /** Some entry of `stack` applies to `g`. */
  ghost predicate HasMatch(stack: seq<Entry>, g: GraphId)
  {
    exists i :: 0 <= i < |stack| && Matches(stack[i], g)
  }

  /** `stack[i]` is the newest entry of `stack` that applies to `g`. */
  ghost predicate NewestMatchAt(stack: seq<Entry>, g: GraphId, i: int)
  {
    0 <= i < |stack| && Matches(stack[i], g) &&
    forall j :: i < j < |stack| ==> !Matches(stack[j], g)
  }

  /**
   * Whether operations on graph `g` must record backprop information: the
   * newest entry that applies to `g` decides; with no such entry the
   * answer is true.
   */
  function IsBackpropRequired(stack: seq<Entry>, g: GraphId): (r: bool)
    ensures !HasMatch(stack, g) ==> r
    ensures forall i :: NewestMatchAt(stack, g, i) ==> r == stack[i].backprop
  {
    if |stack| == 0 then true
    else if Matches(stack[|stack| - 1], g) then stack[|stack| - 1].backprop
    else
      var u := stack[..|stack| - 1];
      assert forall j :: 0 <= j < |u| ==> u[j] == stack[j];
      IsBackpropRequired(u, g)
  }

  /** The entries a scope pushes for an explicit list of graph ids. */
  function GraphEntries(context: ContextId, graphIds: seq<GraphId>, flag: bool): (es: seq<Entry>)
    ensures |es| == |graphIds|
    ensures forall i :: 0 <= i < |es| ==> es[i] == Entry(context, Some(graphIds[i]), flag)
  {
    if |graphIds| == 0 then []
    else GraphEntries(context, graphIds[..|graphIds| - 1], flag)
         + [Entry(context, Some(graphIds[|graphIds| - 1]), flag)]
  }

  /**
   * The entries a scope with flag `flag` pushes: one entry for all graphs
   * when no list is given, otherwise one entry per listed id.
   */
  function ScopeEntries(context: ContextId, flag: bool, graphIds: Option<seq<GraphId>>): (es: seq<Entry>)
    ensures graphIds.None? ==> |es| == 1 && es[0].graphId.None?
    ensures graphIds.Some? ==> (|es| == |graphIds.value| &&
              forall i :: 0 <= i < |es| ==> es[i].graphId == Some(graphIds.value[i]))
    ensures forall e :: e in es ==> e.context == context && e.backprop == flag
  {
    match graphIds
    case None => [Entry(context, None, flag)]
    case Some(ids) => GraphEntries(context, ids, flag)
  }

  /** Whether an array with nodes in graphs `nodeGraphIds` needs backprop. */
  function IsArrayBackpropRequired(stack: seq<Entry>, nodeGraphIds: seq<GraphId>): (r: bool)
    ensures r <==> exists i :: 0 <= i < |nodeGraphIds| && IsBackpropRequired(stack, nodeGraphIds[i])
  {
    if |nodeGraphIds| == 0 then false
    else IsBackpropRequired(stack, nodeGraphIds[0])
         || IsArrayBackpropRequired(stack, nodeGraphIds[1..])
  }

  /**
   * Whether an array needs backprop for at least one of its graphs that is
   * not listed in `stopGraphIds`.
   */
  function IsBackpropRequiredAfterStop(stack: seq<Entry>, nodeGraphIds: seq<GraphId>,
                                       stopGraphIds: seq<GraphId>): (r: bool)
    ensures r <==> exists i :: 0 <= i < |nodeGraphIds| && nodeGraphIds[i] !in stopGraphIds &&
                             IsBackpropRequired(stack, nodeGraphIds[i])
  {
    if |nodeGraphIds| == 0 then false
    else (nodeGraphIds[0] !in stopGraphIds && IsBackpropRequired(stack, nodeGraphIds[0]))
         || IsBackpropRequiredAfterStop(stack, nodeGraphIds[1..], stopGraphIds)
  }

  // ---------------------------------------------------------------------
  // Properties of the graph-level query
  // ---------------------------------------------------------------------

  /** With no entries at all, backprop is required for every graph. */
  lemma EmptyStackRequiresBackprop(g: GraphId)
    ensures IsBackpropRequired([], g)
  {
  }

  /** Pushing one entry: it decides for the graphs it applies to and leaves the others alone. */
  lemma QueryOfPush(s: seq<Entry>, e: Entry, g: GraphId)
    ensures IsBackpropRequired(s + [e], g) == if Matches(e, g) then e.backprop else IsBackpropRequired(s, g)
  {
    assert (s + [e])[..|s + [e]| - 1] == s;
  }

  /**
   * Entries pushed later take precedence: the query over `s + t` is the
   * query over `t` when some entry of `t` applies, else the query over `s`.
   */
  lemma {:induction false} QueryOfAppend(s: seq<Entry>, t: seq<Entry>, g: GraphId)
    ensures IsBackpropRequired(s + t, g) ==
            if HasMatch(t, g) then IsBackpropRequired(t, g) else IsBackpropRequired(s, g)
  {
    if |t| == 0 {
      assert s + t == s;
    } else {
      var u, e := t[..|t| - 1], t[|t| - 1];
      assert t == u + [e];
      assert s + t == (s + u) + [e];
      QueryOfPush(s + u, e, g);
      QueryOfPush(u, e, g);
      if Matches(e, g) {
        assert HasMatch(t, g);
      } else {
        QueryOfAppend(s, u, g);
        if HasMatch(t, g) {
          var i :| 0 <= i < |t| && Matches(t[i], g);
          assert u[i] == t[i];
        }
        if HasMatch(u, g) {
          var i :| 0 <= i < |u| && Matches(u[i], g);
          assert t[i] == u[i];
        }
      }
    }
  }

  /** The entries a scope pushes all carry the scope's flag and apply to `g` exactly when the scope targets `g`. */
  lemma ScopeEntriesDecide(context: ContextId, flag: bool, graphIds: Option<seq<GraphId>>, g: GraphId)
    ensures HasMatch(ScopeEntries(context, flag, graphIds), g) <==> graphIds.None? || g in graphIds.value
    ensures HasMatch(ScopeEntries(context, flag, graphIds), g) ==>
              IsBackpropRequired(ScopeEntries(context, flag, graphIds), g) == flag
  {
    var es := ScopeEntries(context, flag, graphIds);
    if graphIds.None? {
      assert Matches(es[0], g);
    } else if g in graphIds.value {
      var i :| 0 <= i < |graphIds.value| && graphIds.value[i] == g;
      assert Matches(es[i], g);
    }
    if HasMatch(es, g) {
      var k := NewestMatchIndex(es, g);
      assert es[k] in es;
    }
  }

  /** The index of the newest entry of `stack` that applies to `g`. */
  ghost function NewestMatchIndex(stack: seq<Entry>, g: GraphId): (i: int)
    requires HasMatch(stack, g)
    ensures NewestMatchAt(stack, g, i)
  {
    if Matches(stack[|stack| - 1], g) then |stack| - 1
    else
      var u := stack[..|stack| - 1];
      var j :| 0 <= j < |stack| && Matches(stack[j], g);
      assert u[j] == stack[j];
      NewestMatchIndex(u, g)
  }

  /**
   * Opening a scope on top of `s`: graphs the scope targets get the scope's
   * flag; every other graph keeps the answer it had before.
   */
  lemma ScopeQuery(s: seq<Entry>, context: ContextId, flag: bool,
                   graphIds: Option<seq<GraphId>>, g: GraphId)
    ensures IsBackpropRequired(s + ScopeEntries(context, flag, graphIds), g) ==
            if graphIds.None? || g in graphIds.value then flag else IsBackpropRequired(s, g)
  {
    QueryOfAppend(s, ScopeEntries(context, flag, graphIds), g);
    ScopeEntriesDecide(context, flag, graphIds, g);
  }

  /** A scope opened with an empty list of graph ids pushes nothing and changes no answer. */
  lemma EmptyListScopeIsNoOp(s: seq<Entry>, context: ContextId, flag: bool, g: GraphId)
    ensures ScopeEntries(context, flag, Some([])) == []
    ensures IsBackpropRequired(s + ScopeEntries(context, flag, Some([])), g) == IsBackpropRequired(s, g)
  {
    assert s + [] == s;
  }

  /**
   * Nesting precedence: a force scope for `a` opened inside a no-backprop
   * scope for all graphs makes `a` require backprop again while `b` stays
   * off; closing the inner scope turns `a` off again.
   */
  lemma NestingPrecedence(s: seq<Entry>, context: ContextId, a: GraphId, b: GraphId)
    requires a != b
    ensures var outer := s + ScopeEntries(context, NoBackprop, None);
            var inner := outer + ScopeEntries(context, ForceBackprop, Some([a]));
            IsBackpropRequired(inner, a) && !IsBackpropRequired(inner, b) &&
            !IsBackpropRequired(outer, a) && !IsBackpropRequired(outer, b)
  {
    var outer := s + ScopeEntries(context, NoBackprop, None);
    ScopeQuery(s, context, NoBackprop, None, a);
    ScopeQuery(s, context, NoBackprop, None, b);
    ScopeQuery(outer, context, ForceBackprop, Some([a]), a);
    ScopeQuery(outer, context, ForceBackprop, Some([a]), b);
  }

  // ---------------------------------------------------------------------
  // Properties of the array-level queries
  // ---------------------------------------------------------------------

  /** An array with no nodes never needs backprop. */
  lemma NoNodesNoBackprop(stack: seq<Entry>, stopGraphIds: seq<GraphId>)
    ensures !IsArrayBackpropRequired(stack, [])
    ensures !IsBackpropRequiredAfterStop(stack, [], stopGraphIds)
  {
  }

  /** With nothing stopped, the stop-set query is the plain array query. */
  lemma {:induction false} AfterStopWithoutStops(stack: seq<Entry>, nodeGraphIds: seq<GraphId>)
    ensures IsBackpropRequiredAfterStop(stack, nodeGraphIds, []) == IsArrayBackpropRequired(stack, nodeGraphIds)
  {
    if |nodeGraphIds| > 0 {
      AfterStopWithoutStops(stack, nodeGraphIds[1..]);
    }
  }

  /** When every node's graph is stopped, no backprop is required. */
  lemma AllStoppedNoBackprop(stack: seq<Entry>, nodeGraphIds: seq<GraphId>, stopGraphIds: seq<GraphId>)
    requires forall i :: 0 <= i < |nodeGraphIds| ==> nodeGraphIds[i] in stopGraphIds
    ensures !IsBackpropRequiredAfterStop(stack, nodeGraphIds, stopGraphIds)
  {
  }

  /** Enlarging the stop set can turn the answer from true to false, never the other way. */
  lemma AfterStopMonotone(stack: seq<Entry>, nodeGraphIds: seq<GraphId>,
                          stopGraphIds: seq<GraphId>, moreStopGraphIds: seq<GraphId>)
    requires forall g :: g in stopGraphIds ==> g in moreStopGraphIds
    ensures IsBackpropRequiredAfterStop(stack, nodeGraphIds, moreStopGraphIds) ==>
            IsBackpropRequiredAfterStop(stack, nodeGraphIds, stopGraphIds)
  {
  }

  /** The stop-set query never answers true where the plain array query answers false. */
  lemma AfterStopImpliesRequired(stack: seq<Entry>, nodeGraphIds: seq<GraphId>, stopGraphIds: seq<GraphId>)
    ensures IsBackpropRequiredAfterStop(stack, nodeGraphIds, stopGraphIds) ==>
            IsArrayBackpropRequired(stack, nodeGraphIds)
  {
  }

  /**
   * An array in graphs `a` and `b` with `a` stopped needs backprop exactly
   * when graph `b` alone does, whatever the mode of `a`.
   */
  lemma AfterStopIgnoresStopped(stack: seq<Entry>, a: GraphId, b: GraphId)
    requires a != b
    ensures IsBackpropRequiredAfterStop(stack, [a, b], [a]) == IsBackpropRequired(stack, b)
  {
    assert [a, b][1] == b;
  }
}
