/**
 * The nodes table as a mutable object, with the operations of the status
 * engine that read it and write it row by row: the progress report, the
 * upward propagation walk and the three public mutators.
 */
module StatusPropagation {
  import opened Wrappers
  import opened StatusAggregation
  import opened NodeTree

  class NodeTable {
    /** The rows of the nodes table, by id. */
    var nodes: Store
    /** A witness that the parent links have no cycle; never changed, since no operation moves a node. */
    ghost var rank: Ranking

    ghost predicate Valid()
      reads this
    {
      Ranked(nodes, rank)
    }

    constructor (rows: Store, ghost ranking: Ranking)
      requires Ranked(rows, ranking)
      ensures Valid()
      ensures nodes == rows && rank == ranking
    {
      nodes := rows;
      rank := ranking;
    }

    /** The query "rows whose parent is `x`": every child id once, in some order. */
    method ChildIdsOf(x: NodeId) returns (ids: seq<NodeId>)
      ensures Enumerates(nodes, x, ids)
    {
      ids := [];
      var pending := nodes.Keys;
      while pending != {}
        invariant pending <= nodes.Keys
        invariant Distinct(ids)
        invariant forall y :: y in ids <==> y in nodes.Keys - pending && nodes[y].parent == Some(x)
        decreases pending
      {
        var y :| y in pending;
        if nodes[y].parent == Some(x) {
          ids := ids + [y];
        }
        pending := pending - {y};
      }
    }

    /** Progress over the immediate critical children of `x`; reads only. */
    method GetNodeProgress(x: NodeId) returns (p: Progress)
      ensures p == ProgressAt(nodes, x)
      ensures p.complete + p.inProgress <= p.total && p.percentage <= 100
    {
      var ids := ChildIdsOf(x);
      p := ProgressOf(Views(nodes, ids));
      EnumeratedProgress(nodes, x, ids);
    }

    /**
     * Re-derive the status of `x` from its children and climb to its parent;
     * stop at a missing node, a pinned node or a node without children.
     */
    method PropagateStatusUp(x: NodeId)
      requires Valid()
      modifies this
      ensures Valid() && rank == old(rank)
      ensures nodes == Walk(old(nodes), rank, x)
      decreases Height(nodes, rank, x)
    {
      if x !in nodes {
        return;
      }
      var node := nodes[x];
      if !node.autoStatus {
        return;
      }
      var children := ChildIdsOf(x);
      if |children| == 0 {
        assert ChildIds(nodes, x) == {};
        return;
      }
      assert children[0] in ChildIds(nodes, x);
      var newStatus := AggregatedStatus(Views(nodes, children));
      EnumeratedAggregate(nodes, x, children);
      WriteKeepsRanked(nodes, rank, x, node.(status := newStatus));
      nodes := nodes[x := node.(status := newStatus)];
      if node.parent.Some? {
        PropagateStatusUp(node.parent.value);
      }
    }

    /** A manual status edit: pin `x` at `newStatus`, then propagate from its parent. */
    method UpdateNodeStatusWithPropagation(x: NodeId, newStatus: NodeStatus)
      requires Valid()
      modifies this
      ensures Valid() && rank == old(rank)
      ensures nodes == AfterStatusEdit(old(nodes), rank, x, newStatus)
    {
      if x !in nodes {
        return;
      }
      var node := nodes[x];
      WriteKeepsRanked(nodes, rank, x, node.(status := newStatus, autoStatus := false));
      nodes := nodes[x := node.(status := newStatus, autoStatus := false)];
      if node.parent.Some? {
        PropagateStatusUp(node.parent.value);
      }
    }

    /** Switch `x` back to a derived status and recompute it at once, then its ancestors. */
    method EnableAutoStatus(x: NodeId)
      requires Valid()
      modifies this
      ensures Valid() && rank == old(rank)
      ensures nodes == AfterEnableAuto(old(nodes), rank, x)
    {
      if x in nodes {
        WriteKeepsRanked(nodes, rank, x, nodes[x].(autoStatus := true));
        nodes := nodes[x := nodes[x].(autoStatus := true)];
      }
      PropagateStatusUp(x);
    }

    /** Flip whether `x` counts toward its parent, then propagate from the parent. */
    method ToggleNodeCritical(x: NodeId)
      requires Valid()
      modifies this
      ensures Valid() && rank == old(rank)
      ensures nodes == AfterToggleCritical(old(nodes), rank, x)
    {
      if x !in nodes {
        return;
      }
      var node := nodes[x];
      WriteKeepsRanked(nodes, rank, x, node.(isCritical := !node.isCritical));
      nodes := nodes[x := node.(isCritical := !node.isCritical)];
      if node.parent.Some? {
        PropagateStatusUp(node.parent.value);
      }
    }
  }
}
