/**
 * The pure part of the status aggregation engine: the calculator that reduces a
 * node's children to one status, and the arithmetic of the progress rollup.
 */
module StatusAggregation {

  /** The status of a node in the planning tree. */
  datatype NodeStatus = Idea | Planned | InProgress | Mvp | Testing | Complete | Archived

  /** Every status, in declaration order. */
  const AllStatuses: seq<NodeStatus> := [Idea, Planned, InProgress, Mvp, Testing, Complete, Archived]

  /** The priority table: higher means more complete; archived sits below idea. */
  function Priority(s: NodeStatus): (r: int)
  {
    match s
    case Idea => 0
    case Planned => 1
    case InProgress => 2
    case Mvp => 3
    case Testing => 4
    case Complete => 5
    case Archived => -1
  }

  /** The two fields of a child row that the calculator reads. */
  datatype ChildView = ChildView(status: NodeStatus, isCritical: bool)

  /** The critical children, in their original order. */
  function CriticalOnly(children: seq<ChildView>): (r: seq<ChildView>)
    ensures forall c :: c in r <==> c in children && c.isCritical
    ensures |r| <= |children|
  {
    if children == [] then []
    else (if children[0].isCritical then [children[0]] else []) + CriticalOnly(children[1..])
  }

  /** The children whose status is `s`, in their original order. */
  function WithStatus(children: seq<ChildView>, s: NodeStatus): (r: seq<ChildView>)
    ensures forall c :: c in r <==> c in children && c.status == s
    ensures |r| <= |children|
  {
    if children == [] then []
    else (if children[0].status == s then [children[0]] else []) + WithStatus(children[1..], s)
  }

  /** The filter keeps each critical child as often as it occurs and drops every other one. */
  lemma {:induction false} CriticalOnlyKeepsOccurrences(children: seq<ChildView>)
    ensures forall c :: multiset(CriticalOnly(children))[c]
                     == if c.isCritical then multiset(children)[c] else 0
  {
    if children != [] {
      CriticalOnlyKeepsOccurrences(children[1..]);
      assert children == [children[0]] + children[1..];
    }
  }

  /** The status filter keeps each child with status `s` as often as it occurs and drops every other one. */
  lemma {:induction false} WithStatusKeepsOccurrences(children: seq<ChildView>, s: NodeStatus)
    ensures forall c :: multiset(WithStatus(children, s))[c]
                     == if c.status == s then multiset(children)[c] else 0
  {
    if children != [] {
      WithStatusKeepsOccurrences(children[1..], s);
      assert children == [children[0]] + children[1..];
    }
  }

  function StatusesOf(children: seq<ChildView>): (r: seq<NodeStatus>)
  {
    seq(|children|, i requires 0 <= i < |children| => children[i].status)
  }

  predicate AllAre(statuses: seq<NodeStatus>, s: NodeStatus)
  {
    forall t <- statuses :: t == s
  }

  predicate AllAtLeast(statuses: seq<NodeStatus>, floor: NodeStatus)
  {
    forall t <- statuses :: Priority(t) >= Priority(floor)
  }

  /**
   * The aggregated status of a parent, computed from its children by the fixed
   * chain of checks: the first check that holds decides. The `mvp` check comes
   * before the `testing` check, so the `testing` branch is never taken.
   */
  function AggregatedStatus(children: seq<ChildView>): (r: NodeStatus)
    ensures r != Archived
  {
    var critical := CriticalOnly(children);
    if |critical| == 0 then Idea
    else
      var statuses := StatusesOf(critical);
      if AllAre(statuses, Complete) then Complete
      else if AllAtLeast(statuses, Mvp) then Mvp
      else if AllAtLeast(statuses, Testing) then Testing
      else if InProgress in statuses then InProgress
      else if AllAtLeast(statuses, Planned) then Planned
      else Idea
  }

  /** The set of statuses carried by critical children. */
  function CriticalStatusSet(children: seq<ChildView>): (r: set<NodeStatus>)
  {
    set c | c in children && c.isCritical :: c.status
  }

  /** The statuses the calculator inspects are exactly those of the critical children. */
  lemma StatusesOfCritical(children: seq<ChildView>)
    ensures forall c :: c in children && c.isCritical ==> c.status in StatusesOf(CriticalOnly(children))
    ensures forall t :: t in StatusesOf(CriticalOnly(children)) ==>
      exists c :: c in children && c.isCritical && c.status == t
    ensures forall t :: t in StatusesOf(CriticalOnly(children)) <==> t in CriticalStatusSet(children)
    ensures |CriticalOnly(children)| == 0 <==> forall c :: c in children ==> !c.isCritical
  {
    var critical := CriticalOnly(children);
    var statuses := StatusesOf(critical);
    forall c | c in children && c.isCritical
      ensures c.status in statuses
    {
      assert c in critical;
      var i :| 0 <= i < |critical| && critical[i] == c;
      assert statuses[i] == c.status;
    }
    forall t | t in statuses
      ensures exists c :: c in children && c.isCritical && c.status == t
    {
      var i :| 0 <= i < |statuses| && statuses[i] == t;
      assert critical[i] in children && critical[i].isCritical;
    }
    if |critical| != 0 {
      assert critical[0] in critical;
    }
  }

  /**
   * The aggregate depends only on WHICH statuses the critical children carry:
   * not on the order of the children, on how often a status occurs, or on the
   * non-critical children.
   */
  lemma {:induction false} AggregateDependsOnCriticalSet(a: seq<ChildView>, b: seq<ChildView>)
    requires CriticalStatusSet(a) == CriticalStatusSet(b)
    ensures AggregatedStatus(a) == AggregatedStatus(b)
  {
    StatusesOfCritical(a);
    StatusesOfCritical(b);
    var sa := StatusesOf(CriticalOnly(a));
    var sb := StatusesOf(CriticalOnly(b));
    assert forall t :: t in sa <==> t in sb;
    assert AllAre(sa, Complete) == AllAre(sb, Complete);
    assert AllAtLeast(sa, Mvp) == AllAtLeast(sb, Mvp);
    assert AllAtLeast(sa, Testing) == AllAtLeast(sb, Testing);
    assert AllAtLeast(sa, Planned) == AllAtLeast(sb, Planned);
  }

  /** With no critical child at all (the empty list included), the aggregate is idea. */
  lemma AggregateWithoutCriticalIsIdea(children: seq<ChildView>)
    requires forall c :: c in children ==> !c.isCritical
    ensures AggregatedStatus(children) == Idea
  {
    StatusesOfCritical(children);
  }

  /** Dropping the non-critical children never changes the aggregate. */
  lemma AggregateIgnoresNonCritical(children: seq<ChildView>)
    ensures AggregatedStatus(children) == AggregatedStatus(CriticalOnly(children))
  {
    assert CriticalStatusSet(children) == CriticalStatusSet(CriticalOnly(children));
    AggregateDependsOnCriticalSet(children, CriticalOnly(children));
  }

  /** The aggregate is complete exactly when there is a critical child and all critical children are complete. */
  lemma AggregateCompleteIff(children: seq<ChildView>)
    ensures AggregatedStatus(children) == Complete <==>
      (exists c :: c in children && c.isCritical) &&
      (forall c :: c in children && c.isCritical ==> c.status == Complete)
  {
    StatusesOfCritical(children);
  }

  /**
   * The aggregate is mvp exactly when there is a critical child, every critical
   * child has at least mvp's priority, and not every one is complete.
   */
  lemma AggregateMvpIff(children: seq<ChildView>)
    ensures AggregatedStatus(children) == Mvp <==>
      (forall c :: c in children && c.isCritical ==> Priority(c.status) >= Priority(Mvp)) &&
      (exists c :: c in children && c.isCritical && c.status != Complete)
  {
    StatusesOfCritical(children);
  }

  /** The aggregate is never testing (the mvp check shadows it) and never archived. */
  lemma AggregateNeverTesting(children: seq<ChildView>)
    ensures AggregatedStatus(children) != Testing
    ensures AggregatedStatus(children) != Archived
  {
    var statuses := StatusesOf(CriticalOnly(children));
    if AllAtLeast(statuses, Testing) {
      assert AllAtLeast(statuses, Mvp);
    }
  }

  /** Children that are all (critically) in testing roll up to mvp, not testing. */
  lemma AllTestingRollsUpToMvp(children: seq<ChildView>)
    requires exists c :: c in children && c.isCritical
    requires forall c :: c in children && c.isCritical ==> c.status == Testing
    ensures AggregatedStatus(children) == Mvp
  {
    AggregateMvpIff(children);
  }

  /**
   * The aggregate is in_progress exactly when some critical child is below mvp
   * and some critical child is in progress.
   */
  lemma AggregateInProgressIff(children: seq<ChildView>)
    ensures AggregatedStatus(children) == InProgress <==>
      (exists c :: c in children && c.isCritical && Priority(c.status) < Priority(Mvp)) &&
      (exists c :: c in children && c.isCritical && c.status == InProgress)
  {
    StatusesOfCritical(children);
    AggregateNeverTesting(children);
  }

  /**
   * The aggregate is planned exactly when some critical child is below mvp, no
   * critical child is in progress, and every critical child is at least planned.
   */
  lemma AggregatePlannedIff(children: seq<ChildView>)
    ensures AggregatedStatus(children) == Planned <==>
      (exists c :: c in children && c.isCritical && Priority(c.status) < Priority(Mvp)) &&
      (forall c :: c in children && c.isCritical ==> c.status != InProgress) &&
      (forall c :: c in children && c.isCritical ==> Priority(c.status) >= Priority(Planned))
  {
    StatusesOfCritical(children);
    AggregateNeverTesting(children);
  }

  /**
   * The aggregate is idea exactly when there is no critical child, or some
   * critical child is below planned and none is in progress.
   */
  lemma AggregateIdeaIff(children: seq<ChildView>)
    ensures AggregatedStatus(children) == Idea <==>
      (forall c :: c in children ==> !c.isCritical) ||
      ((exists c :: c in children && c.isCritical && Priority(c.status) < Priority(Planned)) &&
       (forall c :: c in children && c.isCritical ==> c.status != InProgress))
  {
    StatusesOfCritical(children);
    AggregateNeverTesting(children);
  }

  /** An archived critical child (priority -1) forces idea unless some critical child is in progress. */
  lemma ArchivedForcesIdea(children: seq<ChildView>)
    requires exists c :: c in children && c.isCritical && c.status == Archived
    requires forall c :: c in children && c.isCritical ==> c.status != InProgress
    ensures AggregatedStatus(children) == Idea
  {
    AggregateIdeaIff(children);
  }

  /**
   * The aggregate is not monotone in a child's status: raising the in-progress
   * child of [in_progress, idea] to mvp moves the aggregate from in_progress
   * down to idea.
   */
  lemma AggregateNotMonotone()
    ensures AggregatedStatus([ChildView(InProgress, true), ChildView(Idea, true)]) == InProgress
    ensures AggregatedStatus([ChildView(Mvp, true), ChildView(Idea, true)]) == Idea
  {
    var before := [ChildView(InProgress, true), ChildView(Idea, true)];
    var after := [ChildView(Mvp, true), ChildView(Idea, true)];
    AggregateInProgressIff(before);
    assert before[0] in before;
    AggregateIdeaIff(after);
    assert after[1] in after;
  }

  /** One child list per set of statuses: each status of `S` once, as a critical child, in declaration order. */
  function Representatives(order: seq<NodeStatus>, S: set<NodeStatus>): (r: seq<ChildView>)
    ensures CriticalStatusSet(r) == S * (set s | s in order)
  {
    if order == [] then []
    else
      var rest := Representatives(order[1..], S);
      assert (set s | s in order) == {order[0]} + (set s | s in order[1..]);
      if order[0] in S then
        assert CriticalStatusSet([ChildView(order[0], true)] + rest) == {order[0]} + CriticalStatusSet(rest);
        [ChildView(order[0], true)] + rest
      else rest
  }

  /** The aggregate of any child list whose critical children carry exactly the statuses `S`. */
  function AggregateOfSet(S: set<NodeStatus>): (r: NodeStatus)
  {
    AggregatedStatus(Representatives(AllStatuses, S))
  }

  lemma AggregateOfCriticalSet(children: seq<ChildView>)
    ensures AggregatedStatus(children) == AggregateOfSet(CriticalStatusSet(children))
  {
    var S := CriticalStatusSet(children);
    assert forall s: NodeStatus :: s in AllStatuses by {
      forall s: NodeStatus ensures s in AllStatuses {
        match s
        case Idea => assert AllStatuses[0] == s;
        case Planned => assert AllStatuses[1] == s;
        case InProgress => assert AllStatuses[2] == s;
        case Mvp => assert AllStatuses[3] == s;
        case Testing => assert AllStatuses[4] == s;
        case Complete => assert AllStatuses[5] == s;
        case Archived => assert AllStatuses[6] == s;
      }
    }
    assert S * (set s | s in AllStatuses) == S;
    AggregateDependsOnCriticalSet(children, Representatives(AllStatuses, S));
  }

  // ---------------------------------------------------------------------------
  // Progress rollup

  /** The progress counts of a node's immediate critical children. */
  datatype Progress = Progress(total: nat, complete: nat, inProgress: nat, percentage: nat)

  /**
   * Math.round(complete / total * 100) in exact integer arithmetic: the integer
   * nearest to 100 * complete / total, a half rounded up; 0 when there is
   * nothing to count.
   */
  function RoundedPercentage(complete: nat, total: nat): (p: nat)
    ensures total > 0 ==> 2 * total * p - total <= 200 * complete < 2 * total * p + total
    ensures complete <= total ==> p <= 100
    ensures total == 0 ==> p == 0
  {
    if total > 0 then
      var p := (200 * complete + total) / (2 * total);
      PercentageBound(complete, total, p);
      p
    else 0
  }

  lemma {:induction false} MulMonotone(d: nat, a: nat, b: nat)
    requires a <= b
    ensures d * a <= d * b
    decreases b - a
  {
    if a < b {
      MulMonotone(d, a, b - 1);
      assert d * b == d * (b - 1) + d;
    }
  }

  lemma PercentageBound(complete: nat, total: nat, p: nat)
    requires total > 0
    requires p == (200 * complete + total) / (2 * total)
    ensures 2 * total * p - total <= 200 * complete < 2 * total * p + total
    ensures complete <= total ==> p <= 100
  {
    var d := 2 * total;
    var n := 200 * complete + total;
    assert d * p <= n < d * p + d;
    if complete <= total {
      assert n < d * 101;
      if 101 <= p {
        MulMonotone(d, 101, p);
      }
    }
  }

  /** The number of complete and of in-progress children together never exceeds the number of children. */
  lemma {:induction false} StatusCountsBounded(children: seq<ChildView>)
    ensures |WithStatus(children, Complete)| + |WithStatus(children, InProgress)| <= |children|
  {
    if children != [] {
      StatusCountsBounded(children[1..]);
    }
  }

  /** The progress rollup over a node's children (the counting part of the progress reporter). */
  function ProgressOf(children: seq<ChildView>): (p: Progress)
    ensures p.complete + p.inProgress <= p.total <= |children|
    ensures p.percentage <= 100
    ensures p.total == 0 ==> p.percentage == 0
    ensures children == [] ==> p == Progress(0, 0, 0, 0)
  {
    if |children| == 0 then Progress(0, 0, 0, 0)
    else
      var critical := CriticalOnly(children);
      var total := |critical|;
      var complete := |WithStatus(critical, Complete)|;
      var inProgress := |WithStatus(critical, InProgress)|;
      StatusCountsBounded(critical);
      Progress(total, complete, inProgress, RoundedPercentage(complete, total))
  }

  /** Three critical children, two complete and one in progress: 2 of 3 complete, 67 percent. */
  lemma ProgressOfTwoOfThree()
    ensures ProgressOf([ChildView(Complete, true), ChildView(Complete, true), ChildView(InProgress, true)])
         == Progress(3, 2, 1, 67)
  {
    var cs := [ChildView(Complete, true), ChildView(Complete, true), ChildView(InProgress, true)];
    assert CriticalOnly(cs) == cs by {
      assert cs[1..] == [ChildView(Complete, true), ChildView(InProgress, true)];
      assert cs[1..][1..] == [ChildView(InProgress, true)];
    }
    assert WithStatus(cs, Complete) == cs[..2] by {
      assert cs[1..] == [ChildView(Complete, true), ChildView(InProgress, true)];
      assert cs[1..][1..] == [ChildView(InProgress, true)];
    }
    assert WithStatus(cs, InProgress) == [cs[2]] by {
      assert cs[1..] == [ChildView(Complete, true), ChildView(InProgress, true)];
      assert cs[1..][1..] == [ChildView(InProgress, true)];
    }
  }
}
