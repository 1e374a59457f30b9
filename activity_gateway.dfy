/**
 * `ActivityGateway`: the provenance graph store. It keeps the activity set,
 * the two path indices, the relation catalog, the plans it registered and the
 * activity collections, and updates them in place.
 */
module Gateway {
  import opened Provenance
  import opened PathIndex
  import opened RelationCatalog
  import opened Insertion

  class ActivityGateway {
    var activities: set<Activity>
    var byUsage: Index
    var byGeneration: Index
    var catalog: Catalog
    var plans: set<Plan>
    var collections: set<ActivityCollection>

    /** A store over an empty database. */
    constructor ()
      ensures Model() == EmptyStore()
      ensures WellFormed(Model())
    {
      activities, byUsage, byGeneration := {}, map[], map[];
      catalog, plans, collections := {}, {}, {};
    }

    /** The database as a value. */
    function Model(): Store
      reads this
    {
      Store(activities, byUsage, byGeneration, catalog, plans, collections)
    }

    /**
     * `get_all_usage_paths`: every path some activity is listed under; in a
     * well-formed store, only those.
     */
    function GetAllUsagePaths(): (r: set<Path>)
      reads this
      ensures forall p :: Lookup(byUsage, p) != [] ==> p in r
      ensures WellFormed(Model()) ==> forall p :: p in r ==> Lookup(byUsage, p) != []
    {
      byUsage.Keys
    }

    /**
     * `get_all_generation_paths`: every path some activity is listed under; in
     * a well-formed store, only those.
     */
    function GetAllGenerationPaths(): (r: set<Path>)
      reads this
      ensures forall p :: Lookup(byGeneration, p) != [] ==> p in r
      ensures WellFormed(Model()) ==> forall p :: p in r ==> Lookup(byGeneration, p) != []
    {
      byGeneration.Keys
    }

    /**
     * `get_activities_by_generation`: without a checksum (or with an empty one)
     * the list stored under `path`, and otherwise the activities of that list
     * that generated that checksum on any path, in list order.
     */
    method GetActivitiesByGeneration(path: Path, checksum: Option<string>) returns (result: seq<Activity>)
      ensures checksum.None? || checksum.value == "" ==> result == Lookup(byGeneration, path)
      ensures checksum.Some? && checksum.value != "" ==>
                result == FilterByChecksum(Lookup(byGeneration, path), checksum.value)
    {
      var acts := Lookup(byGeneration, path);
      if checksum.None? || checksum.value == "" {
        return acts;
      }
      var c := checksum.value;
      result := [];
      for i := 0 to |acts|
        invariant result == FilterByChecksum(acts[..i], c)
      {
        var generation := FirstWithChecksum(acts[i].generations, c);
        assert acts[..i + 1] == acts[..i] + [acts[i]];
        FilterAppend(acts[..i], [acts[i]], c);
        assert [acts[i]][1..] == [];
        if generation.Some? {
          result := result + [acts[i]];
        }
      }
      assert acts[..|acts|] == acts;
    }

    /**
     * `get_downstream_activities`: the activities reached from `a` by following
     * relations from upstream to downstream, within `maxDepth` hops when given.
     */
    function GetDownstreamActivities(a: Activity, maxDepth: Option<nat>): (r: set<Activity>)
      reads this
      ensures maxDepth.None? ==> forall b :: b in r <==> Reaches(catalog, {a}, b)
      ensures maxDepth.Some? ==> forall b :: b in r <==> ReachesWithin(catalog, {a}, b, maxDepth.value)
    {
      ClosureReaches(catalog, {a});
      if maxDepth.None? then Closure(catalog, {a})
      else
        WithinReaches(catalog, {a}, maxDepth.value);
        Within(catalog, {a}, maxDepth.value)
    }

    /**
     * `get_downstream_activity_chains`: the walks from `a` on which nothing but
     * the last activity repeats or returns to `a`; together they cover exactly
     * the activities downstream of `a`.
     */
    function GetDownstreamActivityChains(a: Activity): (r: set<seq<Activity>>)
      reads this
      ensures forall c :: c in r <==>
                          && |c| >= 1
                          && IsWalk(catalog, [a] + c)
                          && (forall i :: 0 <= i < |c| - 1 ==> c[i] != a)
                          && (forall i, j :: 0 <= i < j < |c| - 1 ==> c[i] != c[j])
      ensures ChainMembers(r) == Closure(catalog, {a})
    {
      DownstreamChainsAll(catalog, a);
      ChainMembersAreClosure(catalog, a);
      DownstreamChains(catalog, a)
    }

    /**
     * `get_upstream_activity_chains`: the walks against the relations into `a`
     * on which nothing but the last activity repeats or returns to `a`.
     */
    function GetUpstreamActivityChains(a: Activity): (r: set<seq<Activity>>)
      reads this
      ensures forall c :: c in r <==>
                          && |c| >= 1
                          && IsUpstreamWalk(catalog, [a] + c)
                          && (forall i :: 0 <= i < |c| - 1 ==> c[i] != a)
                          && (forall i, j :: 0 <= i < j < |c| - 1 ==> c[i] != c[j])
    {
      UpstreamChainsAll(catalog, a);
      UpstreamChains(catalog, a)
    }

    /**
     * `get_all_activities`: in a well-formed store, every activity listed in an
     * index or joined by a relation is among them.
     */
    function GetAllActivities(): (r: set<Activity>)
      reads this
      ensures WellFormed(Model()) ==> forall p, x :: x in Lookup(byUsage, p) ==> x in r
      ensures WellFormed(Model()) ==> forall p, x :: x in Lookup(byGeneration, p) ==> x in r
      ensures WellFormed(Model()) ==> forall rel :: rel in catalog ==> rel.downstream in r && rel.upstream in r
    {
      activities
    }

    /** `get_all_activity_collections`. */
    function GetAllActivityCollections(): set<ActivityCollection>
      reads this
    {
      collections
    }

    /** `add_activity_collection`: only the collection set changes. */
    method AddActivityCollection(c: ActivityCollection)
      modifies this
      ensures Model() == old(Model()).(collections := old(collections) + {c})
      ensures old(WellFormed(Model())) ==> WellFormed(Model())
    {
      collections := collections + {c};
    }

    /**
     * The Python `ActivityGateway.add`, step by step in its order: record the activity, index each usage and
     * scan the generation index, index each generation and scan the usage index,
     * index the relations, register the plan, and only then check the
     * activities on the chains through `a` for a cycle. Every mutation stays in
     * place when the check raises.
     */
    method Add(a: Activity) returns (outcome: Outcome)
      modifies this
      ensures Model() == Insert(old(Model()), a)
      ensures outcome == CycleCheck(catalog, a)
      ensures GetAllUsagePaths() == old(GetAllUsagePaths()) + set i | 0 <= i < |a.usages| :: a.usages[i].entity.path
      ensures GetAllGenerationPaths() == old(GetAllGenerationPaths()) + set i | 0 <= i < |a.generations| :: a.generations[i].entity.path
      ensures forall r :: r in catalog && r !in old(catalog) ==> r.downstream == a || r.upstream == a
      ensures old(Acyclic(catalog)) ==> (outcome == Ok <==> Acyclic(catalog))
      ensures old(WellFormed(Model())) ==> WellFormed(Model())
    {
      ghost var st := Model();
      activities := activities + {a};
      var upstreams := IndexUsages(a);
      assert byUsage == UsageIndexAfter(st, a) && upstreams == Upstreams(st, a);
      var downstreams := IndexGenerations(a);
      assert downstreams == Downstreams(st, a);
      IndexRelations(a, upstreams, downstreams);
      assert catalog == st.catalog + NewRelations(st, a);
      plans := plans + {a.plan};
      assert Model() == Insert(st, a);
      outcome := CheckForCycle(a);

      InsertKeys(st, a);
      NewRelationsTouch(st, a);
      InsertKeeps(st, a);
    }

    /**
     * The usage loop of `add`: append `a` under each usage path, creating the
     * key when it is missing, and collect the activities under every generation
     * key related to that path.
     */
    method IndexUsages(a: Activity) returns (upstreams: set<Activity>)
      modifies this`byUsage
      ensures byUsage == IndexAll(old(byUsage), UsagePaths(a), a)
      ensures upstreams == Candidates(byGeneration, UsagePaths(a))
    {
      ghost var paths := UsagePaths(a);
      upstreams := {};
      var i := 0;
      while i < |a.usages|
        invariant 0 <= i <= |a.usages|
        invariant byUsage == IndexAll(old(byUsage), paths[..i], a)
        invariant upstreams == Candidates(byGeneration, paths[..i])
      {
        var path := a.usages[i].entity.path;
        assert paths[..i + 1][..i] == paths[..i] && paths[i] == path;
        if path !in byUsage {
          byUsage := byUsage[path := []];
        }
        byUsage := byUsage[path := byUsage[path] + [a]];
        var found := ScanRelated(byGeneration, path);
        upstreams := upstreams + found;
        i := i + 1;
      }
      assert paths[..|a.usages|] == paths;
    }

    /**
     * The generation loop of `add`: append `a` under each generation path and
     * collect the activities under every usage key related to that path.
     */
    method IndexGenerations(a: Activity) returns (downstreams: set<Activity>)
      modifies this`byGeneration
      ensures byGeneration == IndexAll(old(byGeneration), GenerationPaths(a), a)
      ensures downstreams == Candidates(byUsage, GenerationPaths(a))
    {
      ghost var paths := GenerationPaths(a);
      downstreams := {};
      var j := 0;
      while j < |a.generations|
        invariant 0 <= j <= |a.generations|
        invariant byGeneration == IndexAll(old(byGeneration), paths[..j], a)
        invariant downstreams == Candidates(byUsage, paths[..j])
      {
        var path := a.generations[j].entity.path;
        assert paths[..j + 1][..j] == paths[..j] && paths[j] == path;
        if path !in byGeneration {
          byGeneration := byGeneration[path := []];
        }
        byGeneration := byGeneration[path := byGeneration[path] + [a]];
        var found := ScanRelated(byUsage, path);
        downstreams := downstreams + found;
        j := j + 1;
      }
      assert paths[..|a.generations|] == paths;
    }

    /** The catalog loops of `add`: `a` downstream of each upstream, upstream of each downstream. */
    method IndexRelations(a: Activity, upstreams: set<Activity>, downstreams: set<Activity>)
      modifies this`catalog
      ensures catalog == old(catalog) + (set s | s in upstreams :: Relation(a, s)) + (set s | s in downstreams :: Relation(s, a))
    {
      if upstreams != {} {
        var rest := upstreams;
        while rest != {}
          invariant rest <= upstreams
          invariant catalog == old(catalog) + set s | s in upstreams - rest :: Relation(a, s)
          decreases rest
        {
          var s :| s in rest;
          catalog := catalog + {Relation(a, s)};
          rest := rest - {s};
        }
      }
      ghost var withUpstreams := catalog;
      if downstreams != {} {
        var rest := downstreams;
        while rest != {}
          invariant rest <= downstreams
          invariant catalog == withUpstreams + set s | s in downstreams - rest :: Relation(s, a)
          decreases rest
        {
          var s :| s in rest;
          catalog := catalog + {Relation(s, a)};
          rest := rest - {s};
        }
      }
    }

    /**
     * The cycle check closing `add`: collect the activities on the upstream and
     * downstream chains of `a` and look for a cycle among them.
     */
    method CheckForCycle(a: Activity) returns (outcome: Outcome)
      ensures outcome == CycleCheck(catalog, a)
      ensures outcome == Ok <==> !HasCycle(Induced(catalog, ChainActivities(catalog, a)))
    {
      var upstreamChains := GetUpstreamActivityChains(a);
      var downstreamChains := GetDownstreamActivityChains(a);
      var allActivities := CollectChainMembers(upstreamChains + downstreamChains);
      ChainMembersUnion(upstreamChains, downstreamChains);
      outcome := if Acyclic(Induced(catalog, allActivities)) then Ok else CycleDetected;
      AcyclicIff(Induced(catalog, allActivities));
    }

    /**
     * A check-before-commit variant of `add`: it computes the store `add` would
     * leave, runs the same cycle check on it, and commits only when the check
     * passes, so a rejected insertion changes nothing and acyclicity is kept.
     */
    method TryAdd(a: Activity) returns (outcome: Outcome)
      modifies this
      ensures outcome == CycleCheck(Insert(old(Model()), a).catalog, a)
      ensures outcome == Ok ==> Model() == Insert(old(Model()), a)
      ensures outcome == CycleDetected ==> Model() == old(Model())
      ensures old(Acyclic(catalog)) ==> Acyclic(catalog)
      ensures old(WellFormed(Model())) ==> WellFormed(Model())
    {
      ghost var st := Model();
      var staged := Insert(Model(), a);
      outcome := CycleCheck(staged.catalog, a);
      if outcome == Ok {
        activities, byUsage, byGeneration := staged.activities, staged.byUsage, staged.byGeneration;
        catalog, plans, collections := staged.catalog, staged.plans, staged.collections;
      }
      InsertKeeps(st, a);
    }
  }

  /** Every activity on some chain of `chains`: the nested loop of `add` over the chains and their elements. */
  method CollectChainMembers(chains: set<seq<Activity>>) returns (all: set<Activity>)
    ensures all == ChainMembers(chains)
  {
    all := {};
    var rest := chains;
    while rest != {}
      invariant rest <= chains
      invariant all == ChainMembers(chains - rest)
      decreases rest
    {
      var c :| c in rest;
      for k := 0 to |c|
        invariant all == ChainMembers(chains - rest) + set m | 0 <= m < k :: c[m]
      {
        all := all + {c[k]};
      }
      assert (set m | 0 <= m < |c| :: c[m]) == set x | x in c;
      ChainMembersAdd(chains - rest, c);
      assert chains - (rest - {c}) == (chains - rest) + {c};
      rest := rest - {c};
    }
    assert chains - rest == chains;
  }

  lemma ChainMembersAdd(C: set<seq<Activity>>, c: seq<Activity>)
    ensures ChainMembers(C + {c}) == ChainMembers(C) + set x | x in c
  {
  }

  lemma ChainMembersUnion(C: set<seq<Activity>>, D: set<seq<Activity>>)
    ensures ChainMembers(C + D) == ChainMembers(C) + ChainMembers(D)
  {
  }
}
