/**
 * What `ActivityGateway.add` does to the store, stated on values: the state
 * after the activity set, index, catalog and plan updates, and the facts about
 * it that the insertion protocol promises.
 */
module Insertion {
  import opened Provenance
  import opened PathIndex
  import opened RelationCatalog

  /** The database the gateway works on. */
  datatype Store = Store(
    activities: set<Activity>,
    byUsage: Index,
    byGeneration: Index,
    catalog: Catalog,
    plans: set<Plan>,
    collections: set<ActivityCollection>)

  function EmptyStore(): Store {
    Store({}, map[], map[], {}, {}, {})
  }

  /** The usage index once every usage of `a` is appended (before the generation scan). */
  function UsageIndexAfter(st: Store, a: Activity): Index {
    IndexAll(st.byUsage, UsagePaths(a), a)
  }

  /** The upstream set: activities under a generation key related to a usage path of `a`, before `a`'s generations are indexed. */
  function Upstreams(st: Store, a: Activity): set<Activity> {
    Candidates(st.byGeneration, UsagePaths(a))
  }

  /** The downstream set: activities under a usage key related to a generation path of `a`, after `a`'s usages are indexed. */
  function Downstreams(st: Store, a: Activity): set<Activity> {
    Candidates(UsageIndexAfter(st, a), GenerationPaths(a))
  }

  /** The relations `add` indexes into the catalog. */
  function NewRelations(st: Store, a: Activity): Catalog {
    (set s | s in Upstreams(st, a) :: Relation(a, s)) + (set s | s in Downstreams(st, a) :: Relation(s, a))
  }

  /** The store after every mutation of `add`, all of which precede its cycle check. */
  function Insert(st: Store, a: Activity): Store {
    st.(activities := st.activities + {a},
        byUsage := UsageIndexAfter(st, a),
        byGeneration := IndexAll(st.byGeneration, GenerationPaths(a), a),
        catalog := st.catalog + NewRelations(st, a),
        plans := st.plans + {a.plan})
  }

  /**
   * The store keeps its indices and catalog over stored activities: every key
   * of an index holds a non-empty list of stored activities, and every relation
   * joins two stored activities.
   */
  predicate WellFormed(st: Store) {
    && Listed(st.byUsage, st.activities)
    && Listed(st.byGeneration, st.activities)
    && forall r :: r in st.catalog ==> r.downstream in st.activities && r.upstream in st.activities
  }

  /** `add` keeps the store well formed, whatever its cycle check reports. */
  lemma InsertWellFormed(st: Store, a: Activity)
    requires WellFormed(st)
    ensures WellFormed(Insert(st, a))
  {
    IndexAllListed(st.byUsage, UsagePaths(a), a, st.activities);
    IndexAllListed(st.byGeneration, GenerationPaths(a), a, st.activities);
    forall r | r in NewRelations(st, a)
      ensures r.downstream in st.activities + {a} && r.upstream in st.activities + {a}
    {
      NewRelationsSpec(st, a, r);
    }
  }

  /**
   * Each index gains `a` once per usage (generation) at a path, after the
   * entries already there.
   */
  lemma InsertIndexes(st: Store, a: Activity, p: Path)
    ensures Lookup(Insert(st, a).byUsage, p) == Lookup(st.byUsage, p) + Repeat(a, multiset(UsagePaths(a))[p])
    ensures Lookup(Insert(st, a).byGeneration, p) == Lookup(st.byGeneration, p) + Repeat(a, multiset(GenerationPaths(a))[p])
  {
    IndexAllAt(st.byUsage, UsagePaths(a), a, p);
    IndexAllAt(st.byGeneration, GenerationPaths(a), a, p);
  }

  /** The keys of each index grow by exactly the usage (generation) paths of `a`. */
  lemma InsertKeys(st: Store, a: Activity)
    ensures Insert(st, a).byUsage.Keys == st.byUsage.Keys + set i | 0 <= i < |a.usages| :: a.usages[i].entity.path
    ensures Insert(st, a).byGeneration.Keys == st.byGeneration.Keys + set i | 0 <= i < |a.generations| :: a.generations[i].entity.path
  {
    IndexAllKeys(st.byUsage, UsagePaths(a), a);
    IndexAllKeys(st.byGeneration, GenerationPaths(a), a);
    PathsOf(a);
  }

  /** The path sequences of an activity, element by element and as sets. */
  lemma PathsOf(a: Activity)
    ensures forall i :: 0 <= i < |a.usages| ==> UsagePaths(a)[i] == a.usages[i].entity.path
    ensures forall j :: 0 <= j < |a.generations| ==> GenerationPaths(a)[j] == a.generations[j].entity.path
    ensures (set i | 0 <= i < |a.usages| :: a.usages[i].entity.path) == set i | 0 <= i < |UsagePaths(a)| :: UsagePaths(a)[i]
    ensures (set i | 0 <= i < |a.generations| :: a.generations[i].entity.path) == set i | 0 <= i < |GenerationPaths(a)| :: GenerationPaths(a)[i]
  {
    var us := set i | 0 <= i < |a.usages| :: a.usages[i].entity.path;
    forall p | p in us ensures p in set i | 0 <= i < |UsagePaths(a)| :: UsagePaths(a)[i] {
      var i :| 0 <= i < |a.usages| && a.usages[i].entity.path == p;
      assert UsagePaths(a)[i] == p;
    }
    var gs := set i | 0 <= i < |a.generations| :: a.generations[i].entity.path;
    forall p | p in gs ensures p in set i | 0 <= i < |GenerationPaths(a)| :: GenerationPaths(a)[i] {
      var i :| 0 <= i < |a.generations| && a.generations[i].entity.path == p;
      assert GenerationPaths(a)[i] == p;
    }
  }

  /**
   * The new relations are exactly: `a` downstream of every activity listed
   * under a generation key related to one of its usage paths, and `a` upstream
   * of every activity listed under a usage key (its own usages included)
   * related to one of its generation paths.
   */
  lemma NewRelationsSpec(st: Store, a: Activity, r: Relation)
    ensures r in NewRelations(st, a) <==>
            || (&& r.downstream == a
                && exists i, k :: 0 <= i < |a.usages| && k in st.byGeneration &&
                                  Related(k, a.usages[i].entity.path) && r.upstream in st.byGeneration[k])
            || (&& r.upstream == a
                && exists j, k :: 0 <= j < |a.generations| && k in UsageIndexAfter(st, a) &&
                                  Related(k, a.generations[j].entity.path) && r.downstream in UsageIndexAfter(st, a)[k])
  {
    PathsOf(a);
    CandidatesSpec(st.byGeneration, UsagePaths(a), r.upstream);
    CandidatesSpec(UsageIndexAfter(st, a), GenerationPaths(a), r.downstream);
    if r in NewRelations(st, a) {
      if r in set s | s in Upstreams(st, a) :: Relation(a, s) {
        var s :| s in Upstreams(st, a) && r == Relation(a, s);
      } else {
        var s :| s in Downstreams(st, a) && r == Relation(s, a);
      }
    }
  }

  /** Every relation `add` creates has the new activity as one endpoint. */
  lemma NewRelationsTouch(st: Store, a: Activity)
    ensures forall r :: r in NewRelations(st, a) ==> r.upstream == a || r.downstream == a
  {
  }

  lemma RepeatMembers(a: Activity, n: nat, x: Activity)
    ensures x in Repeat(a, n) <==> n > 0 && x == a
  {
  }

  /**
   * An activity whose usage path is related to one of its generation paths is
   * related to itself: its usages are indexed before the generation scan.
   */
  lemma SelfRelationFromOwnUsage(st: Store, a: Activity, i: nat, j: nat)
    requires i < |a.usages| && j < |a.generations|
    requires Related(a.usages[i].entity.path, a.generations[j].entity.path)
    ensures Relation(a, a) in NewRelations(st, a)
  {
    var B := UsageIndexAfter(st, a);
    var u := a.usages[i].entity.path;
    InsertIndexes(st, a, u);
    InsertKeys(st, a);
    PathsOf(a);
    assert UsagePaths(a)[i] == u;
    assert multiset(UsagePaths(a))[u] > 0;
    RepeatMembers(a, multiset(UsagePaths(a))[u], a);
    assert u in Insert(st, a).byUsage.Keys;
    assert a in B[u];
    NewRelationsSpec(st, a, Relation(a, a));
  }

  /**
   * For an activity in neither index yet, it is related to itself only when one
   * of its usage paths is related to one of its generation paths: its own
   * generations are not indexed yet during the usage scan.
   */
  lemma SelfRelationOnlyFromOwnUsage(st: Store, a: Activity)
    requires forall k :: k in st.byUsage ==> a !in st.byUsage[k]
    requires forall k :: k in st.byGeneration ==> a !in st.byGeneration[k]
    requires Relation(a, a) in NewRelations(st, a)
    ensures exists i, j :: 0 <= i < |a.usages| && 0 <= j < |a.generations| &&
                           Related(a.usages[i].entity.path, a.generations[j].entity.path)
  {
    var B := UsageIndexAfter(st, a);
    NewRelationsSpec(st, a, Relation(a, a));
    var j, k :| 0 <= j < |a.generations| && k in B && Related(k, a.generations[j].entity.path) && a in B[k];
    InsertIndexes(st, a, k);
    RepeatMembers(a, multiset(UsagePaths(a))[k], a);
    assert k in multiset(UsagePaths(a));
    var i :| 0 <= i < |UsagePaths(a)| && UsagePaths(a)[i] == k;
    PathsOf(a);
    assert Related(a.usages[i].entity.path, a.generations[j].entity.path);
  }

  /**
   * A generated directory covers the files later read from inside it: an
   * activity using a path under a directory that `b` generated becomes
   * downstream of `b`.
   */
  lemma DirectoryCoversContainedFile(st: Store, a: Activity, b: Activity, dir: Path, i: nat)
    requires dir in st.byGeneration && b in st.byGeneration[dir]
    requires i < |a.usages| && dir <= a.usages[i].entity.path
    ensures Relation(a, b) in Insert(st, a).catalog
  {
    NewRelationsSpec(st, a, Relation(a, b));
  }

  /**
   * On an acyclic catalog, `add` returns normally exactly when the catalog it
   * leaves behind is acyclic.
   */
  lemma InsertOutcomeExact(st: Store, a: Activity)
    requires Acyclic(st.catalog)
    ensures CycleCheck(Insert(st, a).catalog, a) == Ok <==> Acyclic(Insert(st, a).catalog)
  {
    NewRelationsTouch(st, a);
    CycleCheckExact(st.catalog, NewRelations(st, a), a);
  }

  /** The invariants an insertion keeps: acyclicity exactly when its check passes, and well-formedness. */
  lemma InsertKeeps(st: Store, a: Activity)
    ensures Acyclic(st.catalog) ==> (CycleCheck(Insert(st, a).catalog, a) == Ok <==> Acyclic(Insert(st, a).catalog))
    ensures WellFormed(st) ==> WellFormed(Insert(st, a))
  {
    if Acyclic(st.catalog) {
      InsertOutcomeExact(st, a);
    }
    if WellFormed(st) {
      InsertWellFormed(st, a);
    }
  }

  /** An activity whose usage and generation paths are related always fails the cycle check. */
  lemma SelfRelatedActivityRejected(st: Store, a: Activity, i: nat, j: nat)
    requires i < |a.usages| && j < |a.generations|
    requires Related(a.usages[i].entity.path, a.generations[j].entity.path)
    ensures CycleCheck(Insert(st, a).catalog, a) == CycleDetected
  {
    SelfRelationFromOwnUsage(st, a, i, j);
    var R := Insert(st, a).catalog;
    var q := [a, a];
    assert IsWalk(R, q[1..]);
    CycleThroughIsDetected(R, a, q);
  }

  /** What an insertion leaves listed under a path of the usage index. */
  lemma ListedUnderUsage(st: Store, a: Activity, p: Path, x: Activity)
    requires x in Lookup(st.byUsage, p) || (x == a && p in UsagePaths(a))
    ensures p in Insert(st, a).byUsage && x in Insert(st, a).byUsage[p]
  {
    InsertIndexes(st, a, p);
    InsertKeys(st, a);
    PathsOf(a);
    RepeatMembers(a, multiset(UsagePaths(a))[p], x);
  }

  /** What an insertion leaves listed under a path of the generation index. */
  lemma ListedUnderGeneration(st: Store, a: Activity, p: Path, x: Activity)
    requires x in Lookup(st.byGeneration, p) || (x == a && p in GenerationPaths(a))
    ensures p in Insert(st, a).byGeneration && x in Insert(st, a).byGeneration[p]
  {
    InsertIndexes(st, a, p);
    InsertKeys(st, a);
    PathsOf(a);
    RepeatMembers(a, multiset(GenerationPaths(a))[p], x);
  }

  /** Two relations in opposite directions form a cycle the check of either endpoint reports. */
  lemma TwoCycleDetected(R: Catalog, x: Activity, y: Activity)
    requires Relation(x, y) in R && Relation(y, x) in R
    ensures CycleCheck(R, x) == CycleDetected && !Acyclic(R)
  {
    var q := [x, y, x];
    assert IsWalk(R, q[2..]);
    assert IsWalk(R, q[1..]);
    CycleThroughIsDetected(R, x, q);
    AcyclicIff(R);
  }

  /** A generates out.csv. */
  function ScenarioA(): Activity {
    Activity("A", Plan("p"), [], [Generation(Entity(["out.csv"], "c1"))])
  }

  /** B uses out.csv and generates report.txt. */
  function ScenarioB(): Activity {
    Activity("B", Plan("q"), [Usage(Entity(["out.csv"], "c1"))], [Generation(Entity(["report.txt"], "c2"))])
  }

  /** C uses report.txt and generates out.csv again. */
  function ScenarioC(): Activity {
    Activity("C", Plan("r"), [Usage(Entity(["report.txt"], "c2"))], [Generation(Entity(["out.csv"], "c1"))])
  }

  /** After A and B: B depends on A, and B is listed under out.csv by usage and report.txt by generation. */
  lemma ScenarioFirstTwo()
    ensures var st2 := Insert(Insert(EmptyStore(), ScenarioA()), ScenarioB());
            && Relation(ScenarioB(), ScenarioA()) in st2.catalog
            && ScenarioB() in Lookup(st2.byUsage, ["out.csv"])
            && ScenarioB() in Lookup(st2.byGeneration, ["report.txt"])
  {
    var A, B := ScenarioA(), ScenarioB();
    var st1 := Insert(EmptyStore(), A);
    assert GenerationPaths(A) == [["out.csv"]];
    assert UsagePaths(B) == [["out.csv"]] && GenerationPaths(B) == [["report.txt"]];
    ListedUnderGeneration(EmptyStore(), A, ["out.csv"], A);
    DirectoryCoversContainedFile(st1, B, A, ["out.csv"], 0);
    ListedUnderUsage(st1, B, ["out.csv"], B);
    ListedUnderGeneration(st1, B, ["report.txt"], B);
  }

  /** Adding C to a store that lists B that way relates C and B in both directions. */
  lemma ScenarioThird(st2: Store)
    requires ScenarioB() in Lookup(st2.byUsage, ["out.csv"])
    requires ScenarioB() in Lookup(st2.byGeneration, ["report.txt"])
    ensures Relation(ScenarioC(), ScenarioB()) in Insert(st2, ScenarioC()).catalog
    ensures Relation(ScenarioB(), ScenarioC()) in Insert(st2, ScenarioC()).catalog
  {
    var B, C := ScenarioB(), ScenarioC();
    assert UsagePaths(C) == [["report.txt"]] && GenerationPaths(C) == [["out.csv"]];
    DirectoryCoversContainedFile(st2, C, B, ["report.txt"], 0);
    ListedUnderUsage(st2, C, ["out.csv"], B);
    NewRelationsSpec(st2, C, Relation(B, C));
  }

  /**
   * A generates out.csv; B uses it and generates report.txt; C uses
   * report.txt and generates out.csv again. B depends on A, and adding C
   * closes the cycle B -> C -> B, so the check raises; the activity set, the
   * indices and the catalog keep what the rejected `add` wrote, so the stored
   * catalog is no longer acyclic and later checks start from a cyclic one.
   */
  lemma CycleScenario()
    ensures
      var st2 := Insert(Insert(EmptyStore(), ScenarioA()), ScenarioB());
      var st3 := Insert(st2, ScenarioC());
      && Relation(ScenarioB(), ScenarioA()) in st2.catalog
      && CycleCheck(st3.catalog, ScenarioC()) == CycleDetected
      && ScenarioC() in st3.activities
      && Relation(ScenarioC(), ScenarioB()) in st3.catalog && Relation(ScenarioB(), ScenarioC()) in st3.catalog
      && !Acyclic(st3.catalog)
  {
    ScenarioFirstTwo();
    var st2 := Insert(Insert(EmptyStore(), ScenarioA()), ScenarioB());
    ScenarioThird(st2);
    TwoCycleDetected(Insert(st2, ScenarioC()).catalog, ScenarioC(), ScenarioB());
  }
}
