# Status roll-up, industry detection and role checks — a Dafny model

This project models the core of a planning workspace in which a project is a
tree of nodes (project, domain, system, feature, component). Each node has a status on the ladder
idea → planned → in_progress → mvp → testing → complete, plus `archived`
below idea (priority -1), which takes part in every check. It also has an `autoStatus` flag (derive the status from
the children, or keep a manually pinned one) and an `isCritical` flag (does
this node count toward its parent).

- **Status calculator** (`StatusAggregation`). The pure rule that turns a
  parent's children into a derived status. It keeps the original check order,
  so mvp is checked before testing. A list of children that are all in
  `testing` rolls up to `mvp`, and `testing` is never produced. The model
  proves this instead of correcting it. The module also holds the progress
  report: count the critical children, the complete ones and the in-progress
  ones, and round the percentage.
- **Node store and propagation walk** (`NodeTree`). The nodes table is a
  `map<NodeId, Node>`. Acyclicity of the parent links is witnessed by a ghost
  ranking: every parent that names a row has a smaller rank than its child.
  The upward walk (`Walk`) and the three public mutators (`AfterStatusEdit`,
  `AfterEnableAuto`, `AfterToggleCritical`) are ghost specification
  functions. The lemmas about them say which rows change and what they end up
  holding.
- **Mutable table** (`StatusPropagation.NodeTable`). A class whose `nodes`
  field is rewritten row by row, as the database is. Each mutator method is
  proved to leave exactly the state its specification function describes. The
  child query is a loop over the table's keys.
- **Industry detection** (`Templates`, `Matcher`). The keyword lists of the
  agtech, fintech and saas templates, in the table's order. The description is
  lower-cased. The first template with two or more keyword hits wins, and saas
  is the default. `HasKeyword` is the "any keyword occurs" test.
- **Role checks** (`Permissions`). `canEdit` allows owners and editors.
  `canManageMembers` allows owners only.

The roll-up is not monotone in a child's status. One might expect that raising
one critical child can only move the parent forward, apart from the mvp/testing
cap. The code does not behave that way. Two critical children
`[in_progress, idea]` roll up to `in_progress`. Raising the first one to `mvp`
gives `[mvp, idea]`, which rolls up to `idea`: the `any in_progress` rule no
longer fires, and not every child is at least planned. The model follows the
code, and `StatusAggregation.AggregateNotMonotone` states this case.

## Model

| member | source | states |
|---|---|---|
| StatusAggregation.CriticalOnly | lib/status-aggregation.ts:28 | a value is in the filtered list exactly when it is a critical child, and the list is no longer than the input |
| StatusAggregation.WithStatus | lib/status-aggregation.ts:87-88 | a value is in the result exactly when it is a child with the given status, and the result is no longer than the input; `WithStatusKeepsOccurrences` gives the multiplicities |
| StatusAggregation.CriticalOnlyKeepsOccurrences | lib/status-aggregation.ts:28 | the filter keeps every critical child as often as it occurs in the input and drops every non-critical one, so its length, counted at line 86, is the number of critical children |
| StatusAggregation.WithStatusKeepsOccurrences | lib/status-aggregation.ts:87-88 | the status filters keep every child with the given status as often as it occurs and drop every other one, so the complete and in-progress counts count occurrences |
| StatusAggregation.AggregatedStatus | lib/status-aggregation.ts:26-65 | the derived status is never `archived` |
| StatusAggregation.AggregateWithoutCriticalIsIdea | lib/status-aggregation.ts:28-32 | a parent with no critical child (including none at all) derives `idea` |
| StatusAggregation.AggregateIgnoresNonCritical | lib/status-aggregation.ts:28-35 | non-critical children have no influence: the result equals the result on the critical children alone |
| StatusAggregation.AggregateDependsOnCriticalSet | lib/status-aggregation.ts:35-61 | two child lists with the same set of critical statuses derive the same status, so neither the order the table returns rows in nor repetitions matter |
| StatusAggregation.AggregateOfCriticalSet | lib/status-aggregation.ts:26-65 | the derived status is a function of the set of critical statuses alone |
| StatusAggregation.AggregateCompleteIff | lib/status-aggregation.ts:37-39 | `complete` exactly when there is a critical child and every critical child is complete |
| StatusAggregation.AggregateMvpIff | lib/status-aggregation.ts:41-45 | `mvp` exactly when every critical child is at least mvp and not all are complete |
| StatusAggregation.AggregateNeverTesting | lib/status-aggregation.ts:41-51 | `testing` is never derived, because the mvp rule is checked first; nor is `archived` |
| StatusAggregation.AllTestingRollsUpToMvp | lib/status-aggregation.ts:41-51 | when every critical child is in testing, the parent derives `mvp` |
| StatusAggregation.AggregateInProgressIff | lib/status-aggregation.ts:53-55 | `in_progress` exactly when some critical child is in progress and some critical child is below mvp |
| StatusAggregation.AggregatePlannedIff | lib/status-aggregation.ts:57-61 | `planned` exactly when every critical child is at least planned, none is in progress and some is below mvp |
| StatusAggregation.AggregateIdeaIff | lib/status-aggregation.ts:30-64 | `idea` exactly when there is no critical child, or no critical child is in progress and some is `idea` or `archived` |
| StatusAggregation.ArchivedForcesIdea | lib/status-aggregation.ts:5-64 | an archived critical child (priority -1) with no critical child in progress pulls the parent down to `idea` |
| StatusAggregation.AggregateNotMonotone | lib/status-aggregation.ts:41-64 | raising a critical child from in_progress to mvp can lower the parent from `in_progress` to `idea` |
| StatusAggregation.RoundedPercentage | lib/status-aggregation.ts:89 | the percentage is 100·complete/total rounded to the nearest integer, halves up; it is at most 100 when complete ≤ total, and 0 when total is 0 |
| StatusAggregation.StatusCountsBounded | lib/status-aggregation.ts:86-88 | the complete and in-progress counts together never exceed the number of critical children |
| StatusAggregation.ProgressOf | lib/status-aggregation.ts:81-91 | complete + inProgress ≤ total ≤ number of children, percentage ≤ 100, percentage 0 when total is 0, and all zeros for no children |
| StatusAggregation.ProgressOfTwoOfThree | lib/status-aggregation.ts:85-91 | two complete and one in-progress critical child give total 3, complete 2, inProgress 1, percentage 67 |
| NodeTree.Views | lib/status-aggregation.ts:141-149 | the children handed to the calculator are the rows' status and criticality, one per child id, in order |
| NodeTree.ProgressAt | lib/status-aggregation.ts:76-91 | progress at a node, taken over its critical children in the table, keeps the count bounds and is all zeros when there are none |
| NodeTree.EnumeratedAggregate | lib/status-aggregation.ts:141-149 | the calculator run on any enumeration of a node's children, each once, gives the node's aggregate |
| NodeTree.EnumeratedProgress | lib/status-aggregation.ts:76-91 | the progress computed from any enumeration of a node's children, each once, is the progress at that node |
| NodeTree.Walk | lib/status-aggregation.ts:127-164 | no contract of its own: the upward walk as a function of the table; characterised by `WalkStopsAtOnce`, `WalkFrame`, `ReachOnChain`, `ReachClimbs`, `PinnedAncestorBlocks` and `WalkConsistent` |
| NodeTree.AfterStatusEdit | lib/status-aggregation.ts:97-122 | no contract of its own: the table after a status edit; characterised by `StatusEditPinsAndRecomputesParent` and `StatusEditStopsAtPin` |
| NodeTree.AfterEnableAuto | lib/status-aggregation.ts:169-176 | no contract of its own: the table after enabling auto status; characterised by `EnableAutoRecomputesSelf` |
| NodeTree.AfterToggleCritical | lib/status-aggregation.ts:181-199 | no contract of its own: the table after a criticality toggle; characterised by `ToggleFlipsOnlyCritical` |
| NodeTree.WalkStopsAtOnce | lib/status-aggregation.ts:135-146 | the walk changes nothing at a missing node, a pinned node or a node without children |
| NodeTree.WalkFrame | lib/status-aggregation.ts:149-163 | the walk writes status fields only, and only on the nodes it reaches; every other row stays as it was |
| NodeTree.ReachOnChain | lib/status-aggregation.ts:135-162 | every node the walk rewrites exists, is not pinned, has children and lies on the ancestor chain of the start |
| NodeTree.ReachClimbs | lib/status-aggregation.ts:160-163 | the parent of a rewritten node is rewritten too, unless it is missing or pinned |
| NodeTree.PinnedAncestorBlocks | lib/status-aggregation.ts:137-138 | a pinned node on the chain stops the walk: neither it nor any node above it is rewritten |
| NodeTree.AggregateAtLocal | lib/status-aggregation.ts:141-149 | with parent links unchanged, a node's aggregate depends only on its children's rows |
| NodeTree.WalkConsistent | lib/status-aggregation.ts:127-164 | after the walk, every node it rewrote holds the aggregate of its children as they stand after the walk |
| NodeTree.StatusEditPinsAndRecomputesParent | lib/status-aggregation.ts:97-122 | a status edit pins the node at the new status and keeps its other fields, re-derives its parent unless that parent is missing or pinned, and changes no row off the node's ancestor chain and no field but status on other rows |
| NodeTree.StatusEditStopsAtPin | lib/status-aggregation.ts:118-138 | after a status edit, a pinned ancestor of the edited node and every node above it are unchanged |
| NodeTree.EnableAutoRecomputesSelf | lib/status-aggregation.ts:169-176 | enabling auto status sets the flag and, when the node has children, leaves it holding its children's aggregate; a childless node keeps its status; rows off the chain are unchanged |
| NodeTree.ToggleFlipsOnlyCritical | lib/status-aggregation.ts:181-199 | toggling negates criticality and nothing else on the node, re-derives the parent unless it is missing or pinned, does no walk from a root, and changes no row off the chain |
| StatusPropagation.NodeTable.ChildIdsOf | lib/status-aggregation.ts:141-144 | the query by parent id returns every child of the node exactly once |
| StatusPropagation.NodeTable.GetNodeProgress | lib/status-aggregation.ts:70-92 | the progress report equals the progress over the node's critical children, with its count and percentage bounds; nothing is written |
| StatusPropagation.NodeTable.PropagateStatusUp | lib/status-aggregation.ts:127-164 | the table afterwards is the walk from the node over the table before; the ranking stays valid |
| StatusPropagation.NodeTable.UpdateNodeStatusWithPropagation | lib/status-aggregation.ts:97-122 | the table afterwards is the status-edit specification applied to the table before |
| StatusPropagation.NodeTable.EnableAutoStatus | lib/status-aggregation.ts:169-176 | the table afterwards is the enable-auto specification applied to the table before |
| StatusPropagation.NodeTable.ToggleNodeCritical | lib/status-aggregation.ts:181-199 | the table afterwards is the toggle specification applied to the table before |
| Matcher.DetectIndustry | lib/scaffold/matcher.ts:6-23 | no contract of its own: `detectIndustry`, the template loop over the lower-cased description; characterised by `DetectIndustryCases`, `SingleHitNeverSelects` and `DetectIndustryIgnoresCase` |
| Matcher.FirstMatch | lib/scaffold/matcher.ts:10-22 | no contract of its own: the loop over the template table; characterised by `FirstMatchIsFirstQualifying` |
| Matcher.HasKeyword | lib/scaffold/matcher.ts:28-31 | no contract of its own: `hasKeyword`; characterised by `HasKeywordIffSomeHit` and `HasKeywordIgnoresKeywordCase` |
| Matcher.MatchCount | lib/scaffold/matcher.ts:11-13 | the hit count of a template is at most its number of keywords |
| Matcher.MatchCountCountsEntries | lib/scaffold/matcher.ts:11-13 | the hit count is the number of keyword entries whose lower-cased form occurs in the description, however often each occurs |
| Matcher.FirstMatchIsFirstQualifying | lib/scaffold/matcher.ts:10-22 | the loop returns the key of the first template with two or more hits, even if a later one has more, and saas when none qualifies |
| Matcher.DetectIndustryCases | lib/scaffold/matcher.ts:6-22 | agtech exactly when agtech has two or more hits; fintech exactly when agtech has fewer than two and fintech two or more; saas otherwise |
| Matcher.SingleHitNeverSelects | lib/scaffold/matcher.ts:15-18 | a single keyword hit never selects a template |
| Matcher.DetectIndustryIgnoresCase | lib/scaffold/matcher.ts:7 | lower-casing the description beforehand changes neither the detected industry nor `hasKeyword` |
| Matcher.MatchCountIgnoresKeywordCase | lib/scaffold/matcher.ts:12 | lower-casing the keywords beforehand does not change the hit count |
| Matcher.HasKeywordIffSomeHit | lib/scaffold/matcher.ts:28-31 | `hasKeyword` holds exactly when at least one keyword is a hit, and never for an empty keyword list |
| Matcher.HasKeywordIgnoresKeywordCase | lib/scaffold/matcher.ts:28-31 | lower-casing the keywords beforehand does not change `hasKeyword` |
| Permissions.CanEdit | lib/permissions.ts:19-21 | no contract of its own: `canEdit`; characterised by `CanEditFromEditorUp`, `ManageImpliesEdit` and `ChecksMonotone` |
| Permissions.CanManageMembers | lib/permissions.ts:23-25 | no contract of its own: `canManageMembers`; characterised by `CanManageMembersOnlyOwner`, `ManageImpliesEdit` and `ChecksMonotone` |
| Permissions.CanEditFromEditorUp | lib/permissions.ts:19-21 | editing is allowed exactly for roles at or above editor in the order none < viewer < editor < owner |
| Permissions.CanManageMembersOnlyOwner | lib/permissions.ts:23-25 | managing members is allowed exactly to the owner |
| Permissions.ManageImpliesEdit | lib/permissions.ts:19-25 | whoever may manage members may edit; owners and editors may edit; viewers and callers with no role may do neither |
| Permissions.ChecksMonotone | lib/permissions.ts:19-25 | both checks are monotone in the role order |

The keyword constants `Templates.AgtechKeywords`, `Templates.FintechKeywords`
and `Templates.SaasKeywords` copy lib/scaffold/templates/agtech.ts:3,
lib/scaffold/templates/fintech.ts:3 and lib/scaffold/templates/saas.ts:3.
`Templates.AllTemplates` keeps the order of lib/scaffold/templates/index.ts:5-9,
which is the order `Object.entries` visits them in. `StatusAggregation.Priority`
is the priority table at lib/status-aggregation.ts:5-13.

## Left out

- Database access (the Supabase client), its error results and the
  `updated_at` timestamps. The table is a value held by the class. A read
  that fails is treated like a missing row, which is what the code does with
  a `null` result.
- Concurrency: each mutation runs to completion before the next one starts.
  Two mutations racing on the same ancestor chain are not modelled.
- StatusAggregation.RoundedPercentage: `Math.round` over the floating-point
  quotient is modelled as exact rounding of the rational 100·complete/total,
  halves up. Floating-point error at an exact half is not modelled.
- Matcher.ToLower: lower-casing covers ASCII letters only, not the full
  Unicode case mapping of `toLowerCase`.
- `getUserRole` in lib/permissions.ts: it is a database query, so only the two
  pure checks are modelled.
- The `path` and `depth` columns and their invariants are not part of this
  model. No modelled operation reads or writes them. Acyclicity of the parent
  links is taken as a ghost ranking that the caller supplies.
- Parent cycles: propagateStatusUp (lib/status-aggregation.ts:160-163) has no
  cycle guard. On a cycle of auto-status nodes that have children it recurses
  without end, and a cycle that contains a pinned node stops there. The
  ranking rules out every cycle, so neither behaviour is modelled.
- Parent ids are non-empty strings (`NodeId`), so the truthiness test on
  `parent_id` is the same as "has a parent". An empty-string parent id is not
  modelled.
- The templates' names, node lists and other fields: only their keys and
  keyword lists take part in detection.
- API routes, prompts, the node taxonomy, UI components, authentication glue
  and scripts are not part of this model.
