/** The values the provenance graph store holds: paths, entities, plans and activities. */
module Provenance {

  /** A path written as its components: "data/file.csv" is ["data", "file.csv"]. */
  type Path = seq<string>

  /** One version of a path, identified by its checksum. */
  datatype Entity = Entity(path: Path, checksum: string)

  /** An activity read an entity. */
  datatype Usage = Usage(entity: Entity)

  /** An activity wrote an entity. */
  datatype Generation = Generation(entity: Entity)

  /** A reusable step description; only its identity matters to the store. */
  datatype Plan = Plan(id: string)

  /** One execution of a plan, with what it read and wrote, in order. */
  datatype Activity = Activity(id: string, plan: Plan, usages: seq<Usage>, generations: seq<Generation>)

  /** A group of activities of one logical run. */
  datatype ActivityCollection = ActivityCollection(id: string, activities: set<Activity>)

  datatype Option<T> = None | Some(value: T)

  /** What `add` reports: it returns normally, or the cycle check raises. */
  datatype Outcome = Ok | CycleDetected

  /**
   * `are_paths_related`: the paths are equal or one is an ancestor
   * directory of the other, i.e. one component sequence is a prefix of the other.
   */
  predicate Related(p: Path, q: Path) {
    p <= q || q <= p
  }

  /** The paths of an activity's usages, in order. */
  function UsagePaths(a: Activity): seq<Path> {
    seq(|a.usages|, i requires 0 <= i < |a.usages| => a.usages[i].entity.path)
  }

  /** The paths of an activity's generations, in order. */
  function GenerationPaths(a: Activity): seq<Path> {
    seq(|a.generations|, i requires 0 <= i < |a.generations| => a.generations[i].entity.path)
  }
}
