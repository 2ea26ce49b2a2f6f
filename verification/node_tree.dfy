/**
 * The node table as a value: a map from node id to the four fields the status
 * engine reads and writes, the upward walk that re-derives statuses, and the
 * new table each public mutator produces. The class in StatusPropagation is
 * proved against these definitions.
 */
module NodeTree {
  import opened Wrappers
  import opened StatusAggregation

  /** Node ids are non-empty strings, so "has a parent" is exactly "parent id present". */
  type NodeId = s: string | s != "" witness "root"

  /** A row of the nodes table, reduced to the fields the engine touches. */
  datatype Node = Node(parent: Option<NodeId>, status: NodeStatus, autoStatus: bool, isCritical: bool)

  type Store = map<NodeId, Node>

  type Ranking = map<NodeId, nat>

  /**
   * The tree has no cycles: every node carries a rank, and the parent of a
   * node, when it is in the table, has a strictly smaller rank. (A parent id
   * that names no row ends the walk.)
   */
  ghost predicate Ranked(m: Store, rank: Ranking)
  {
    && m.Keys <= rank.Keys
    && forall id :: id in m && m[id].parent.Some? && m[id].parent.value in m ==>
         rank[m[id].parent.value] < rank[id]
  }

  /** `m2` has the same rows as `m1` and, row by row, the same parent. */
  ghost predicate SameParents(m1: Store, m2: Store)
  {
    && m1.Keys == m2.Keys
    && forall id :: id in m1 ==> m2[id].parent == m1[id].parent
  }

  /** `m2` differs from `m1` in the status fields at most. */
  ghost predicate OnlyStatusChanged(m1: Store, m2: Store)
  {
    && m1.Keys == m2.Keys
    && forall id :: id in m1 ==> m2[id] == m1[id].(status := m2[id].status)
  }

  lemma RankedSameParents(m1: Store, m2: Store, rank: Ranking)
    requires Ranked(m1, rank) && SameParents(m1, m2)
    ensures Ranked(m2, rank)
  {
    forall id | id in m2 && m2[id].parent.Some? && m2[id].parent.value in m2
      ensures rank[m2[id].parent.value] < rank[id]
    {
      assert m1[id].parent == m2[id].parent;
    }
  }

  /** The ids of the immediate children of `x`. */
  function ChildIds(m: Store, x: NodeId): (r: set<NodeId>)
  {
    set y | y in m && m[y].parent == Some(x)
  }

  /** The statuses of the immediate critical children of `x`. */
  function CriticalChildStatuses(m: Store, x: NodeId): (r: set<NodeStatus>)
  {
    set y | y in m && m[y].parent == Some(x) && m[y].isCritical :: m[y].status
  }

  /** The status the calculator derives for `x` from its current children. */
  function AggregateAt(m: Store, x: NodeId): (r: NodeStatus)
  {
    AggregateOfSet(CriticalChildStatuses(m, x))
  }

  function View(n: Node): (r: ChildView)
  {
    ChildView(n.status, n.isCritical)
  }

  /** The child rows named by `ids`, in that order, as the calculator sees them. */
  function Views(m: Store, ids: seq<NodeId>): (r: seq<ChildView>)
    requires forall y :: y in ids ==> y in m
    ensures |r| == |ids|
    ensures forall i :: 0 <= i < |ids| ==> r[i] == View(m[ids[i]])
  {
    if ids == [] then [] else [View(m[ids[0]])] + Views(m, ids[1..])
  }

  ghost predicate Distinct(ids: seq<NodeId>)
  {
    forall i, j :: 0 <= i < j < |ids| ==> ids[i] != ids[j]
  }

  /** `ids` lists every child of `x` exactly once, in some order. */
  ghost predicate Enumerates(m: Store, x: NodeId, ids: seq<NodeId>)
  {
    && Distinct(ids)
    && forall y :: y in ids <==> y in m && m[y].parent == Some(x)
  }

  /** Whatever order the children come back in, the calculator yields AggregateAt. */
  lemma EnumeratedAggregate(m: Store, x: NodeId, ids: seq<NodeId>)
    requires Enumerates(m, x, ids)
    ensures AggregatedStatus(Views(m, ids)) == AggregateAt(m, x)
  {
    var vs := Views(m, ids);
    forall t
      ensures t in CriticalStatusSet(vs) <==> t in CriticalChildStatuses(m, x)
    {
      if t in CriticalStatusSet(vs) {
        var c :| c in vs && c.isCritical && c.status == t;
        var i :| 0 <= i < |vs| && vs[i] == c;
        assert ids[i] in ids;
      }
      if t in CriticalChildStatuses(m, x) {
        var y :| y in m && m[y].parent == Some(x) && m[y].isCritical && m[y].status == t;
        var i :| 0 <= i < |ids| && ids[i] == y;
        assert vs[i] in vs;
      }
    }
    assert CriticalStatusSet(vs) == CriticalChildStatuses(m, x);
    AggregateOfCriticalSet(vs);
  }

  // ---------------------------------------------------------------------------
  // Progress of a stored node

  function CriticalChildren(m: Store, x: NodeId): (r: set<NodeId>)
  {
    set y | y in m && m[y].parent == Some(x) && m[y].isCritical
  }

  function CriticalChildrenWith(m: Store, x: NodeId, s: NodeStatus): (r: set<NodeId>)
  {
    set y | y in m && m[y].parent == Some(x) && m[y].isCritical && m[y].status == s
  }

  /** The progress of `x`: counts over its immediate critical children, and the rounded percentage complete. */
  function ProgressAt(m: Store, x: NodeId): (p: Progress)
    ensures p.complete + p.inProgress <= p.total
    ensures p.percentage <= 100
    ensures p.total == 0 ==> p == Progress(0, 0, 0, 0)
  {
    var all := CriticalChildren(m, x);
    var done := CriticalChildrenWith(m, x, Complete);
    var busy := CriticalChildrenWith(m, x, InProgress);
    assert done !! busy;
    assert done + busy <= all;
    SubsetCard(done + busy, all);
    Progress(|all|, |done|, |busy|, RoundedPercentage(|done|, |all|))
  }

  lemma SubsetCard(a: set<NodeId>, b: set<NodeId>)
    requires a <= b
    ensures |a| <= |b|
  {
    assert b == a + (b - a);
  }

  /** Splitting the first id off a list of distinct ids. */
  lemma DistinctTail(ids: seq<NodeId>)
    requires Distinct(ids) && ids != []
    ensures Distinct(ids[1..]) && ids[0] !in ids[1..]
  {
  }

  lemma ViewsCons(m: Store, ids: seq<NodeId>)
    requires forall y :: y in ids ==> y in m
    requires ids != []
    ensures Views(m, ids)[0] == View(m[ids[0]])
    ensures Views(m, ids)[1..] == Views(m, ids[1..])
  {
  }

  /** The ids among `ids` of critical rows. */
  function CriticalIds(m: Store, ids: seq<NodeId>): (r: set<NodeId>)
    requires forall y :: y in ids ==> y in m
    ensures forall y :: y in r <==> y in ids && m[y].isCritical
  {
    if ids == [] then {}
    else (if m[ids[0]].isCritical then {ids[0]} else {}) + CriticalIds(m, ids[1..])
  }

  /** The ids among `ids` of critical rows with status `st`. */
  function CriticalIdsWith(m: Store, ids: seq<NodeId>, st: NodeStatus): (r: set<NodeId>)
    requires forall y :: y in ids ==> y in m
    ensures forall y :: y in r <==> y in ids && m[y].isCritical && m[y].status == st
  {
    if ids == [] then {}
    else
      (if m[ids[0]].isCritical && m[ids[0]].status == st then {ids[0]} else {})
      + CriticalIdsWith(m, ids[1..], st)
  }

  /** Among distinct ids, the critical children are as many as the critical ids. */
  lemma {:induction false} CountCritical(m: Store, ids: seq<NodeId>)
    requires forall y :: y in ids ==> y in m
    requires Distinct(ids)
    ensures |CriticalOnly(Views(m, ids))| == |CriticalIds(m, ids)|
  {
    if ids != [] {
      DistinctTail(ids);
      CountCritical(m, ids[1..]);
      ViewsCons(m, ids);
    }
  }

  /** Among distinct ids, the critical children with status `st` are as many as such ids. */
  lemma {:induction false} CountCriticalWith(m: Store, ids: seq<NodeId>, st: NodeStatus)
    requires forall y :: y in ids ==> y in m
    requires Distinct(ids)
    ensures |WithStatus(CriticalOnly(Views(m, ids)), st)| == |CriticalIdsWith(m, ids, st)|
  {
    if ids != [] {
      var a, rest := ids[0], ids[1..];
      DistinctTail(ids);
      CountCriticalWith(m, rest, st);
      ViewsCons(m, ids);
      var v := View(m[a]);
      var cr := CriticalOnly(Views(m, rest));
      var tail := CriticalIdsWith(m, rest, st);
      assert a !in tail;
      FilterCons(v, Views(m, rest), st);
      assert Views(m, ids) == [v] + Views(m, rest);
    }
  }

  /** Both filters, applied to a list with a known first element. */
  lemma FilterCons(v: ChildView, rest: seq<ChildView>, st: NodeStatus)
    ensures |WithStatus(CriticalOnly([v] + rest), st)|
         == (if v.isCritical && v.status == st then 1 else 0) + |WithStatus(CriticalOnly(rest), st)|
  {
    var cs := [v] + rest;
    assert cs[0] == v && cs[1..] == rest;
    var cr := CriticalOnly(rest);
    if v.isCritical {
      var c := [v] + cr;
      assert c[0] == v && c[1..] == cr;
    } else {
      assert CriticalOnly(cs) == cr by {
        assert [] + cr == cr;
      }
    }
  }

  /** Whatever order the children come back in, the progress rollup yields ProgressAt. */
  lemma EnumeratedProgress(m: Store, x: NodeId, ids: seq<NodeId>)
    requires Enumerates(m, x, ids)
    ensures ProgressOf(Views(m, ids)) == ProgressAt(m, x)
  {
    CountCritical(m, ids);
    CountCriticalWith(m, ids, Complete);
    CountCriticalWith(m, ids, InProgress);
    assert CriticalIds(m, ids) == CriticalChildren(m, x);
    assert CriticalIdsWith(m, ids, Complete) == CriticalChildrenWith(m, x, Complete);
    assert CriticalIdsWith(m, ids, InProgress) == CriticalChildrenWith(m, x, InProgress);
    if ids == [] {
      assert CriticalChildren(m, x) == {};
    }
  }

  // ---------------------------------------------------------------------------
  // The upward walk

  /** The rank that bounds a walk started at `x`. */
  function Height(m: Store, rank: Ranking, x: NodeId): (r: nat)
    requires m.Keys <= rank.Keys
  {
    if x in m then rank[x] + 1 else 0
  }

  lemma WriteKeepsRanked(m: Store, rank: Ranking, x: NodeId, n: Node)
    requires Ranked(m, rank) && x in m && n.parent == m[x].parent
    ensures Ranked(m[x := n], rank)
    ensures SameParents(m, m[x := n])
  {
    RankedSameParents(m, m[x := n], rank);
  }

  /**
   * The table after re-deriving statuses upward from `x`: stop at a missing
   * node, at a pinned node (autoStatus false) or at a node without children;
   * otherwise write the aggregate of its current children into its status and
   * continue with its parent.
   */
  ghost function Walk(m: Store, rank: Ranking, x: NodeId): (r: Store)
    requires Ranked(m, rank)
    decreases Height(m, rank, x)
  {
    if x !in m || !m[x].autoStatus || ChildIds(m, x) == {} then m
    else
      var m' := m[x := m[x].(status := AggregateAt(m, x))];
      WriteKeepsRanked(m, rank, x, m'[x]);
      match m[x].parent
      case None => m'
      case Some(p) => Walk(m', rank, p)
  }

  /** `y` is `x` or one of its ancestors (following parent ids while they name rows). */
  ghost predicate AncestorOrSelf(m: Store, rank: Ranking, x: NodeId, y: NodeId)
    requires Ranked(m, rank)
    decreases Height(m, rank, x)
  {
    || y == x
    || (x in m && m[x].parent.Some? && AncestorOrSelf(m, rank, m[x].parent.value, y))
  }

  /** The nodes a walk from `x` rewrites. */
  ghost function Reach(m: Store, rank: Ranking, x: NodeId): (r: set<NodeId>)
    requires Ranked(m, rank)
    decreases Height(m, rank, x)
  {
    if x !in m || !m[x].autoStatus || ChildIds(m, x) == {} then {}
    else
      {x} + match m[x].parent
            case None => {}
            case Some(p) => Reach(m, rank, p)
  }

  lemma {:induction false} AncestorRank(m: Store, rank: Ranking, x: NodeId, y: NodeId)
    requires Ranked(m, rank) && AncestorOrSelf(m, rank, x, y)
    ensures x !in m ==> y == x
    ensures x in m && y in m ==> rank[y] <= rank[x]
    decreases Height(m, rank, x)
  {
    if y != x {
      var p := m[x].parent.value;
      AncestorRank(m, rank, p, y);
    }
  }

  /** Ancestry depends only on the parent fields. */
  lemma {:induction false} AncestorSameParents(m1: Store, m2: Store, rank: Ranking, x: NodeId, y: NodeId)
    requires Ranked(m1, rank) && SameParents(m1, m2)
    ensures Ranked(m2, rank)
    ensures AncestorOrSelf(m1, rank, x, y) == AncestorOrSelf(m2, rank, x, y)
    decreases Height(m1, rank, x)
  {
    RankedSameParents(m1, m2, rank);
    if x in m1 && m1[x].parent.Some? {
      AncestorSameParents(m1, m2, rank, m1[x].parent.value, y);
    }
  }

  /** Every rewritten node is in the table, not pinned, has children, and lies on the ancestor chain of `x`. */
  lemma {:induction false} ReachOnChain(m: Store, rank: Ranking, x: NodeId, y: NodeId)
    requires Ranked(m, rank) && y in Reach(m, rank, x)
    ensures y in m && m[y].autoStatus && ChildIds(m, y) != {}
    ensures AncestorOrSelf(m, rank, x, y)
    ensures x in m && rank[y] <= rank[x]
    decreases Height(m, rank, x)
  {
    if y != x {
      var p := m[x].parent.value;
      ReachOnChain(m, rank, p, y);
    }
  }

  /** The walk climbs parent by parent: the parent of a rewritten node is rewritten too, unless it is missing or pinned. */
  lemma {:induction false} ReachClimbs(m: Store, rank: Ranking, x: NodeId, y: NodeId, q: NodeId)
    requires Ranked(m, rank) && y in Reach(m, rank, x)
    requires y in m && m[y].parent == Some(q) && q in m && m[q].autoStatus
    ensures q in Reach(m, rank, x)
    decreases Height(m, rank, x)
  {
    if y == x {
      assert y in ChildIds(m, q);
    } else {
      ReachClimbs(m, rank, m[x].parent.value, y, q);
    }
  }

  /** A pinned node on the chain is a wall: neither it nor anything above it is rewritten. */
  lemma {:induction false} PinnedAncestorBlocks(m: Store, rank: Ranking, x: NodeId, a: NodeId, y: NodeId)
    requires Ranked(m, rank)
    requires AncestorOrSelf(m, rank, x, a) && a in m && !m[a].autoStatus
    requires AncestorOrSelf(m, rank, a, y)
    ensures y !in Reach(m, rank, x)
    decreases Height(m, rank, x)
  {
    if x != a && x in m && m[x].autoStatus && ChildIds(m, x) != {} {
      var p := m[x].parent.value;
      AncestorRank(m, rank, p, a);
      AncestorRank(m, rank, a, y);
      PinnedAncestorBlocks(m, rank, p, a, y);
      if y in Reach(m, rank, x) {
        ReachOnChain(m, rank, x, y);
      }
    }
  }

  /** The set of rewritten nodes depends only on parents and on the pins along the chain. */
  lemma {:induction false} ReachSameChain(m1: Store, m2: Store, rank: Ranking, x: NodeId)
    requires Ranked(m1, rank) && SameParents(m1, m2)
    requires forall y :: y in m1 && AncestorOrSelf(m1, rank, x, y) ==> m2[y].autoStatus == m1[y].autoStatus
    ensures Ranked(m2, rank)
    ensures Reach(m1, rank, x) == Reach(m2, rank, x)
    decreases Height(m1, rank, x)
  {
    RankedSameParents(m1, m2, rank);
    assert ChildIds(m1, x) == ChildIds(m2, x);
    if x in m1 && m1[x].parent.Some? {
      var p := m1[x].parent.value;
      forall y | y in m1 && AncestorOrSelf(m1, rank, p, y)
        ensures m2[y].autoStatus == m1[y].autoStatus
      {
        assert AncestorOrSelf(m1, rank, x, y);
      }
      ReachSameChain(m1, m2, rank, p);
    }
  }

  /** The aggregate of `x` depends only on the rows of its children. */
  lemma AggregateAtLocal(m1: Store, m2: Store, x: NodeId)
    requires SameParents(m1, m2)
    requires forall y :: y in m1 && m1[y].parent == Some(x) ==> m2[y] == m1[y]
    ensures AggregateAt(m1, x) == AggregateAt(m2, x)
  {
    assert CriticalChildStatuses(m1, x) == CriticalChildStatuses(m2, x);
  }

  /** The walk does nothing at a missing node, at a pinned node, or at a node without children. */
  lemma WalkStopsAtOnce(m: Store, rank: Ranking, x: NodeId)
    requires Ranked(m, rank)
    requires x !in m || !m[x].autoStatus || ChildIds(m, x) == {}
    ensures Walk(m, rank, x) == m
    ensures Reach(m, rank, x) == {}
  {
  }

  /**
   * The walk changes status fields only, and only on the nodes it reaches;
   * every other row, and every other field, stays as it was.
   */
  lemma {:induction false} WalkFrame(m: Store, rank: Ranking, x: NodeId)
    requires Ranked(m, rank)
    ensures OnlyStatusChanged(m, Walk(m, rank, x))
    ensures forall y :: y in m && y !in Reach(m, rank, x) ==> Walk(m, rank, x)[y] == m[y]
    decreases Height(m, rank, x)
  {
    if !(x !in m || !m[x].autoStatus || ChildIds(m, x) == {}) {
      var m' := m[x := m[x].(status := AggregateAt(m, x))];
      WriteKeepsRanked(m, rank, x, m'[x]);
      if m[x].parent.Some? {
        var p := m[x].parent.value;
        WalkFrame(m', rank, p);
        ReachSameChain(m, m', rank, p);
      }
    }
  }

  /**
   * Every node the walk rewrites ends up holding the aggregate of its children
   * as they stand after the walk: the chain it climbed is consistent.
   */
  lemma {:induction false} WalkConsistent(m: Store, rank: Ranking, x: NodeId, y: NodeId)
    requires Ranked(m, rank) && y in Reach(m, rank, x)
    ensures y in Walk(m, rank, x)
    ensures Walk(m, rank, x)[y].status == AggregateAt(Walk(m, rank, x), y)
    decreases Height(m, rank, x)
  {
    var m' := m[x := m[x].(status := AggregateAt(m, x))];
    WriteKeepsRanked(m, rank, x, m'[x]);
    var r := Walk(m, rank, x);
    match m[x].parent
    case None =>
      assert r == m';
      AggregateAtLocal(m, m', x);
    case Some(p) =>
      assert r == Walk(m', rank, p);
      ReachSameChain(m, m', rank, p);
      WalkFrame(m', rank, p);
      if y == x {
        // Everything the rest of the walk rewrites ranks at most p, below x and its children.
        assert x !in Reach(m', rank, p) by {
          if x in Reach(m', rank, p) {
            ReachOnChain(m', rank, p, x);
          }
        }
        forall z | z in m && m[z].parent == Some(x)
          ensures r[z] == m[z]
        {
          if z in Reach(m', rank, p) {
            ReachOnChain(m', rank, p, z);
          }
        }
        assert SameParents(m, r);
        AggregateAtLocal(m, r, x);
      } else {
        WalkConsistent(m', rank, p, y);
      }
  }

  // ---------------------------------------------------------------------------
  // The three public mutators

  /** A manual status edit: pin `x` at `s`, then walk up from its parent. */
  ghost function AfterStatusEdit(m: Store, rank: Ranking, x: NodeId, s: NodeStatus): (r: Store)
    requires Ranked(m, rank)
  {
    if x !in m then m
    else
      var m' := m[x := m[x].(status := s, autoStatus := false)];
      WriteKeepsRanked(m, rank, x, m'[x]);
      match m[x].parent
      case None => m'
      case Some(p) => Walk(m', rank, p)
  }

  /** Re-enable derivation on `x`, then walk up from `x` itself. */
  ghost function AfterEnableAuto(m: Store, rank: Ranking, x: NodeId): (r: Store)
    requires Ranked(m, rank)
  {
    if x !in m then m
    else
      var m' := m[x := m[x].(autoStatus := true)];
      WriteKeepsRanked(m, rank, x, m'[x]);
      Walk(m', rank, x)
  }

  /** Flip whether `x` counts toward its parent, then walk up from its parent. */
  ghost function AfterToggleCritical(m: Store, rank: Ranking, x: NodeId): (r: Store)
    requires Ranked(m, rank)
  {
    if x !in m then m
    else
      var m' := m[x := m[x].(isCritical := !m[x].isCritical)];
      WriteKeepsRanked(m, rank, x, m'[x]);
      match m[x].parent
      case None => m'
      case Some(p) => Walk(m', rank, p)
  }

  /**
   * A status edit pins the edited node at the new status, re-derives its
   * parent (unless that parent is missing or pinned), and leaves every node
   * that is neither the edited node nor an ancestor of it as it was.
   */
  lemma StatusEditPinsAndRecomputesParent(m: Store, rank: Ranking, x: NodeId, s: NodeStatus)
    requires Ranked(m, rank)
    ensures var r := AfterStatusEdit(m, rank, x, s);
      && r.Keys == m.Keys
      && (x !in m ==> r == m)
      && (x in m ==> r[x] == m[x].(status := s, autoStatus := false))
      && (x in m && m[x].parent.Some? && m[x].parent.value in m && m[m[x].parent.value].autoStatus ==>
            r[m[x].parent.value].status == AggregateAt(r, m[x].parent.value))
      && (forall y :: y in m && y != x && !AncestorOrSelf(m, rank, x, y) ==> r[y] == m[y])
      && (forall y :: y in m && y != x ==> r[y] == m[y].(status := r[y].status))
  {
    if x in m {
      var m' := m[x := m[x].(status := s, autoStatus := false)];
      WriteKeepsRanked(m, rank, x, m'[x]);
      var r := AfterStatusEdit(m, rank, x, s);
      if m[x].parent.Some? {
        var p := m[x].parent.value;
        WalkFrame(m', rank, p);
        assert x !in Reach(m', rank, p) by {
          if x in Reach(m', rank, p) {
            ReachOnChain(m', rank, p, x);
          }
        }
        if p in m && m[p].autoStatus {
          assert x in ChildIds(m', p);
          assert p in Reach(m', rank, p);
          WalkConsistent(m', rank, p, p);
        }
        forall y | y in m && y != x && !AncestorOrSelf(m, rank, x, y)
          ensures r[y] == m[y]
        {
          if y in Reach(m', rank, p) {
            ReachOnChain(m', rank, p, y);
            AncestorSameParents(m, m', rank, p, y);
          }
        }
      }
    }
  }

  /**
   * A pin above the edited node is a wall: given a pinned ancestor `a` of the
   * edited node, neither `a` nor any ancestor of `a` changes.
   */
  lemma StatusEditStopsAtPin(m: Store, rank: Ranking, x: NodeId, s: NodeStatus, a: NodeId, y: NodeId)
    requires Ranked(m, rank) && x in m
    requires a != x && AncestorOrSelf(m, rank, x, a) && a in m && !m[a].autoStatus
    requires AncestorOrSelf(m, rank, a, y) && y in m
    ensures y in AfterStatusEdit(m, rank, x, s)
    ensures AfterStatusEdit(m, rank, x, s)[y] == m[y]
  {
    var m' := m[x := m[x].(status := s, autoStatus := false)];
    WriteKeepsRanked(m, rank, x, m'[x]);
    var p := m[x].parent.value;
    assert AncestorOrSelf(m, rank, p, a);
    AncestorRank(m, rank, p, a);
    AncestorRank(m, rank, a, y);
    AncestorSameParents(m, m', rank, p, a);
    AncestorSameParents(m, m', rank, a, y);
    PinnedAncestorBlocks(m', rank, p, a, y);
    WalkFrame(m', rank, p);
  }

  /**
   * Enabling auto status keeps the node's other fields and, when the node has
   * children, leaves it holding the aggregate of its children straight away;
   * a node without children keeps its status.
   */
  lemma EnableAutoRecomputesSelf(m: Store, rank: Ranking, x: NodeId)
    requires Ranked(m, rank)
    ensures var r := AfterEnableAuto(m, rank, x);
      && r.Keys == m.Keys
      && (x !in m ==> r == m)
      && (x in m ==> r[x] == m[x].(autoStatus := true, status := r[x].status))
      && (x in m && ChildIds(m, x) != {} ==> r[x].status == AggregateAt(r, x))
      && (x in m && ChildIds(m, x) == {} ==> r == m[x := m[x].(autoStatus := true)])
      && (forall y :: y in m && !AncestorOrSelf(m, rank, x, y) ==> r[y] == m[y])
  {
    if x in m {
      var m' := m[x := m[x].(autoStatus := true)];
      WriteKeepsRanked(m, rank, x, m'[x]);
      var r := AfterEnableAuto(m, rank, x);
      WalkFrame(m', rank, x);
      assert ChildIds(m', x) == ChildIds(m, x);
      if ChildIds(m, x) != {} {
        assert x in Reach(m', rank, x);
        WalkConsistent(m', rank, x, x);
      }
      forall y | y in m && !AncestorOrSelf(m, rank, x, y)
        ensures r[y] == m[y]
      {
        if y in Reach(m', rank, x) {
          ReachOnChain(m', rank, x, y);
          AncestorSameParents(m, m', rank, x, y);
        }
      }
    }
  }

  /**
   * Toggling negates the node's criticality and nothing else of that node (its
   * status and pin stay), re-derives its parent unless that parent is missing
   * or pinned, and makes no walk at all from a root.
   */
  lemma ToggleFlipsOnlyCritical(m: Store, rank: Ranking, x: NodeId)
    requires Ranked(m, rank)
    ensures var r := AfterToggleCritical(m, rank, x);
      && r.Keys == m.Keys
      && (x !in m ==> r == m)
      && (x in m ==> r[x] == m[x].(isCritical := !m[x].isCritical))
      && (x in m && m[x].parent.None? ==> r == m[x := m[x].(isCritical := !m[x].isCritical)])
      && (x in m && m[x].parent.Some? && m[x].parent.value in m && m[m[x].parent.value].autoStatus ==>
            r[m[x].parent.value].status == AggregateAt(r, m[x].parent.value))
      && (forall y :: y in m && y != x && !AncestorOrSelf(m, rank, x, y) ==> r[y] == m[y])
  {
    if x in m {
      var m' := m[x := m[x].(isCritical := !m[x].isCritical)];
      WriteKeepsRanked(m, rank, x, m'[x]);
      var r := AfterToggleCritical(m, rank, x);
      if m[x].parent.Some? {
        var p := m[x].parent.value;
        WalkFrame(m', rank, p);
        assert x !in Reach(m', rank, p) by {
          if x in Reach(m', rank, p) {
            ReachOnChain(m', rank, p, x);
          }
        }
        if p in m && m[p].autoStatus {
          assert x in ChildIds(m', p);
          assert p in Reach(m', rank, p);
          WalkConsistent(m', rank, p, p);
        }
        forall y | y in m && y != x && !AncestorOrSelf(m, rank, x, y)
          ensures r[y] == m[y]
        {
          if y in Reach(m', rank, p) {
            ReachOnChain(m', rank, p, y);
            AncestorSameParents(m, m', rank, p, y);
          }
        }
      }
    }
  }
}
