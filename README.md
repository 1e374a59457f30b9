# Activity gateway of the Renku provenance store

This project models `ActivityGateway`, the part of Renku's metadata database
that stores workflow activities and the provenance graph between them.

The store keeps:

- the set of activities;
- two path indices: `activities-by-usage` and `activities-by-generation`.
  Each maps a path to the activities that read it (or wrote it), in the order
  they were added;
- the `activity-catalog`: a set of relations saying that one activity is
  downstream of another;
- the plans registered through the plan gateway;
- the activity collections.

Adding an activity does the following, in order:

1. Record the activity.
2. Append it under each of its usage paths, and collect as *upstream* every
   activity listed under a generation path related to one of those paths.
3. Append it under each of its generation paths, and collect as *downstream*
   every activity listed under a usage path related to one of those paths.
4. Index one relation per upstream and per downstream activity.
5. Register its plan.
6. Check the activities on every upstream and downstream chain through it for
   a cycle.

Two paths are *related* when they are equal or one is an ancestor directory of
the other.

The model has five modules:

- `Provenance` (provenance.dfy): the values. A path is a sequence of
  components, and `Related` is component-prefix in either direction.
- `PathIndex` (path_index.dfy): the two indices, the scan of one index for
  paths related to a given one, and the checksum filter of
  `get_activities_by_generation`.
- `RelationCatalog` (catalog.dfy): the catalog and its queries.
  - Downstream reachability, bounded (`Within`) and unbounded (`Closure`, a
    fixpoint), both proved equal to a walk-based reference definition.
  - Chain enumeration in both directions (`ChainsFrom`), proved equal to a
    reference definition.
  - Acyclicity (`Acyclic`), proved equal to "no closed walk".
  - The cycle check of `add` (`CycleCheck`).
- `Insertion` (insertion.dfy): `Insert`, the value-level store after every
  mutation of `add`, and the facts about it.
- `Gateway` (activity_gateway.dfy): the class `ActivityGateway`. Its fields
  are updated in place. `Add` runs the loops of the Python
  `ActivityGateway.add`, and each loop is proved against `Insert`. The query
  methods are functions that read the object.

The central result is `RelationCatalog.CycleCheckExact`. It has two premises:
the catalog was acyclic before `add`, and every new relation has the new
activity as an endpoint. The second always holds, by
`Insertion.NewRelationsTouch`. The first holds only from an acyclic start:
for the empty store, and after every later `add` that returned normally.
Under those premises the check, which looks only at the activities on chains
through the new activity, passes exactly when the whole new catalog is
acyclic. So the local check of `add` is as strong as a global one, as long as
no earlier `add` was rejected (or when only `TryAdd` is used).

The Python `ActivityGateway.add` performs every mutation before the cycle
check and does not undo them when the check raises, so a rejected activity
stays in the store. The model keeps that order: a call of
`Gateway.ActivityGateway.Add` that reports `CycleDetected` still leaves
`Insert(old, a)`. `Insertion.CycleScenario` shows such a store, and proves
that its catalog is no longer acyclic. From then on `CycleCheckExact` no
longer applies to later calls. Whether a caller discards the changed database
after the exception is outside this model. `Gateway.ActivityGateway.TryAdd`
is a check-before-commit variant. It is proved to leave the store unchanged
on rejection and to keep the catalog acyclic.

Every store the gateway holds is also *well formed* (`Insertion.WellFormed`):
every key of an index holds a non-empty list of stored activities, and every
relation joins two stored activities. The constructor establishes this, and
`Add`, `TryAdd` and `AddActivityCollection` keep it. The getters' contracts
use it to say what they return.

## Model

| member | source | states |
|---|---|---|
| `PathIndex.IndexAllAt` | renku/infrastructure/gateway/activity_gateway.py:122-125 | after the indexing loop, every path keeps its old list in order, followed by `a` once per occurrence of the path among the activity's paths; other paths keep their lists |
| `PathIndex.IndexAllKeys` | renku/infrastructure/gateway/activity_gateway.py:123-124 | the loop adds exactly the activity's paths as keys, creating the missing ones |
| `PathIndex.IndexAllListed` | renku/infrastructure/gateway/activity_gateway.py:122-125 | indexing keeps every key's list non-empty and adds no activity but the new one |
| `PathIndex.CandidatesSpec` | renku/infrastructure/gateway/activity_gateway.py:127-129 | an activity is collected iff it is listed under some key related to one of the activity's paths |
| `PathIndex.ScanRelated` | renku/infrastructure/gateway/activity_gateway.py:127-129 | a scan over every key of the index collects exactly the activities under keys related to the path |
| `PathIndex.FirstWithChecksum` | renku/infrastructure/gateway/activity_gateway.py:65 | `None` iff no generation has the checksum; otherwise the first generation that has it |
| `PathIndex.FilterAppend` | renku/infrastructure/gateway/activity_gateway.py:62-70 | the checksum filter distributes over concatenation, so it keeps list order |
| `PathIndex.FilterSingleton` | renku/infrastructure/gateway/activity_gateway.py:64-68 | one activity is kept iff one of its generations has the checksum |
| `PathIndex.FilterMembers` | renku/infrastructure/gateway/activity_gateway.py:62-70 | the filter keeps exactly the listed activities that generated the checksum |
| `RelationCatalog.WithinCorrect` | renku/infrastructure/gateway/activity_gateway.py:72-81 | with `max_depth` d, an activity is returned iff a walk of 1 to d hops from the activity reaches it |
| `RelationCatalog.ClosureCorrect` | renku/infrastructure/gateway/activity_gateway.py:72-81 | without `max_depth`, an activity is returned iff some walk of one hop or more reaches it |
| `RelationCatalog.GrowClosed` | renku/infrastructure/gateway/activity_gateway.py:79 | the unbounded search result contains its start set and is closed under one more hop |
| `RelationCatalog.WithinMonotone` | renku/infrastructure/gateway/activity_gateway.py:79 | a larger depth returns a superset, and every bounded result lies within the unbounded one |
| `RelationCatalog.ChainsFromCorrect` | renku/infrastructure/gateway/activity_gateway.py:89 | chain enumeration yields exactly the non-empty walks from the start whose elements, except the last, are new and distinct |
| `RelationCatalog.DownstreamChainsCorrect` | renku/infrastructure/gateway/activity_gateway.py:83-92 | a downstream chain is a walk from the activity; only its last element may return to the activity or repeat |
| `RelationCatalog.UpstreamChainsCorrect` | renku/infrastructure/gateway/activity_gateway.py:94-103 | an upstream chain is a walk against the relations into the activity; only its last element may return or repeat |
| `RelationCatalog.TransposeWalk` | renku/infrastructure/gateway/activity_gateway.py:100-101 | a walk of the reversed catalog is exactly an upstream walk of the catalog |
| `RelationCatalog.ChainMembersAreClosure` | renku/infrastructure/gateway/activity_gateway.py:155-161 | the activities on the downstream chains of an activity are exactly those reachable from it |
| `RelationCatalog.AcyclicIff` | renku/infrastructure/gateway/activity_gateway.py:163-164 | the computable acyclicity test holds iff no walk of one hop or more is closed |
| `RelationCatalog.SubCatalogAcyclic` | renku/infrastructure/gateway/activity_gateway.py:164 | the graph of a subset of the activities of an acyclic catalog is acyclic |
| `RelationCatalog.CycleThroughIsDetected` | renku/infrastructure/gateway/activity_gateway.py:153-164 | a closed walk through the activity is always caught by the check on its chains |
| `RelationCatalog.CycleCheckExact` | renku/infrastructure/gateway/activity_gateway.py:140-164 | if the old catalog is acyclic and every new relation touches the activity, the check passes iff the new catalog is acyclic |
| `Insertion.InsertIndexes` | renku/infrastructure/gateway/activity_gateway.py:122-138 | after `add`, each index lists under every path its old list followed by the new activity, once per usage (generation) at that path |
| `Insertion.InsertKeys` | renku/infrastructure/gateway/activity_gateway.py:42-52 | after `add`, the usage (generation) paths grow by exactly the activity's usage (generation) paths |
| `Insertion.InsertWellFormed` | renku/infrastructure/gateway/activity_gateway.py:109-146 | `add` keeps every index key non-empty and every listed or related activity stored, whatever its check reports |
| `Insertion.NewRelationsSpec` | renku/infrastructure/gateway/activity_gateway.py:122-146 | a relation is created iff it makes the activity downstream of one listed under a generation path related to one of its usages (before its own generations are indexed), or upstream of one listed under a usage path related to one of its generations (its own usages included) |
| `Insertion.NewRelationsTouch` | renku/infrastructure/gateway/activity_gateway.py:140-146 | every created relation has the new activity as an endpoint |
| `Insertion.SelfRelationFromOwnUsage` | renku/infrastructure/gateway/activity_gateway.py:131-146 | an activity that writes a path related to one it reads becomes its own downstream |
| `Insertion.SelfRelationOnlyFromOwnUsage` | renku/infrastructure/gateway/activity_gateway.py:122-146 | for an activity not yet indexed, such a self relation arises only from one of its usages and one of its generations with related paths |
| `Insertion.DirectoryCoversContainedFile` | renku/infrastructure/gateway/activity_gateway.py:127-129 | an activity that reads a file below a generated directory becomes downstream of the directory's generator |
| `Insertion.InsertOutcomeExact` | renku/infrastructure/gateway/activity_gateway.py:109-164 | from an acyclic store, `add` passes its check iff the resulting catalog is acyclic |
| `Insertion.SelfRelatedActivityRejected` | renku/infrastructure/gateway/activity_gateway.py:131-164 | an activity that writes a path related to one it reads is always rejected |
| `Insertion.ListedUnderUsage` | renku/infrastructure/gateway/activity_gateway.py:122-125 | entries already under a usage path, and the new activity under each of its usage paths, are listed after `add` |
| `Insertion.ListedUnderGeneration` | renku/infrastructure/gateway/activity_gateway.py:131-134 | entries already under a generation path, and the new activity under each of its generation paths, are listed after `add` |
| `Insertion.CycleScenario` | renku/infrastructure/gateway/activity_gateway.py:109-164 | three activities that write out.csv, read it and write report.txt, then read report.txt and write out.csv: the third is rejected and still stored, related both ways to the second, and the stored catalog is left cyclic |
| `Gateway.ActivityGateway.constructor` | renku/infrastructure/gateway/activity_gateway.py:37-40 | a new gateway holds the empty store, which is well formed |
| `Gateway.ActivityGateway.GetAllUsagePaths` | renku/infrastructure/gateway/activity_gateway.py:42-46 | every path some activity is listed under by usage is returned, and in a well-formed store only those; `Add` states how the set grows |
| `Gateway.ActivityGateway.GetAllGenerationPaths` | renku/infrastructure/gateway/activity_gateway.py:48-52 | every path some activity is listed under by generation is returned, and in a well-formed store only those; `Add` states how the set grows |
| `Gateway.ActivityGateway.GetDownstreamActivityChains` | renku/infrastructure/gateway/activity_gateway.py:83-92 | a tuple is returned iff it is a walk from the activity on which only the last element may repeat or return to it; the tuples cover exactly the activities downstream of it |
| `Gateway.ActivityGateway.GetUpstreamActivityChains` | renku/infrastructure/gateway/activity_gateway.py:94-103 | a tuple is returned iff it is a walk against the relations into the activity on which only the last element may repeat or return to it |
| `Gateway.ActivityGateway.GetAllActivities` | renku/infrastructure/gateway/activity_gateway.py:105-107 | in a well-formed store, every activity listed in either index or joined by a relation is returned; `Add` adds the new activity whatever its check reports |
| `Gateway.ActivityGateway.GetActivitiesByGeneration` | renku/infrastructure/gateway/activity_gateway.py:54-70 | without a checksum (or with an empty one), the list under the path (empty when missing); otherwise that list filtered by checksum, in order |
| `Gateway.ActivityGateway.GetDownstreamActivities` | renku/infrastructure/gateway/activity_gateway.py:72-81 | an activity is returned iff it is reachable from the activity, within `max_depth` hops when one is given |
| `Gateway.ActivityGateway.Add` | renku/infrastructure/gateway/activity_gateway.py:109-164 | the new state is `Insert(old, a)`; the outcome is the chain cycle check; the path key sets grow by the activity's paths; new relations touch `a`; from an acyclic catalog the outcome is `Ok` iff the catalog is still acyclic; well-formedness is kept |
| `Gateway.ActivityGateway.IndexUsages` | renku/infrastructure/gateway/activity_gateway.py:122-129 | the usage loop leaves the indexed usage map and returns the upstream candidates |
| `Gateway.ActivityGateway.IndexGenerations` | renku/infrastructure/gateway/activity_gateway.py:131-138 | the generation loop leaves the indexed generation map and returns the downstream candidates, scanning the usage index that already holds the activity |
| `Gateway.ActivityGateway.IndexRelations` | renku/infrastructure/gateway/activity_gateway.py:140-146 | the catalog gains one relation per upstream and one per downstream activity, and nothing else |
| `Gateway.ActivityGateway.CheckForCycle` | renku/infrastructure/gateway/activity_gateway.py:153-164 | the outcome is `Ok` iff the graph of the chain activities has no closed walk |
| `Gateway.ActivityGateway.TryAdd` | renku/infrastructure/gateway/activity_gateway.py:109-164 | on `Ok` the state is `Insert(old, a)`; on `CycleDetected` nothing changes; an acyclic catalog stays acyclic; well-formedness is kept |
| `Gateway.ActivityGateway.AddActivityCollection` | renku/infrastructure/gateway/activity_gateway.py:166-174 | only the collection set, which `get_all_activity_collections` returns, changes, gaining the collection; `Add` leaves it unchanged; well-formedness is kept |
| `Gateway.CollectChainMembers` | renku/infrastructure/gateway/activity_gateway.py:157-161 | the nested loop over chains collects exactly the activities on some chain |

## Left out

- Dependency injection, the database dispatcher and persistence (`PersistentList`, the object database): the store is a set of fields of one object.
- Some list results are modelled as sets: those of `get_all_usage_paths`, `get_all_generation_paths`, `get_all_activities` and `get_all_activity_collections`, which come back in the database's key order. The lists of the chain queries are modelled as sets of chains too, so their order and duplicates are not captured. (`get_downstream_activities` already returns a set.)
- The `activities` index is keyed by activity id in the database; the model keeps a set of activities.
- Relation tokens in the catalog: indexing the same relation twice is modelled as set union. The catalog library's treatment of duplicate tokens, its `maxDepth` argument checks and its internal query machinery are not part of this model.
- Path strings: `str(path)`, separators and normalisation are not modelled. A path is its sequence of components, and `are_paths_related` is a component prefix in either direction.
- `create_activity_graph`: the graph it builds and the exception it raises are abstracted. The check is "the relations among the chain activities have no closed walk", and a self relation counts as a cycle. That graph's input/output nodes (`with_inputs_outputs=True`) are not modelled.
- `plan_gateway.add`: its internals are not part of this model; the plan is added to a set of plans. The `isinstance(..., Plan)` assertion holds by typing.
- Whatever a caller does with the database after a rejected `add` (discarding it, say) is not modelled. The Python `ActivityGateway.add` does not undo its mutations, and `Gateway.ActivityGateway.Add` keeps every one of them.
- Gateway.ActivityGateway.GetAllActivityCollections carries no contract of its own: it returns the collection set, whose changes `AddActivityCollection` and `Add` state.
- The other files of the repository (the command line, providers, plugins, dataset tags and the tests) are not part of this model.
