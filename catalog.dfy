/**
 * The relation catalog (`activity-catalog`): a set of
 * (downstream, upstream) relations between activities, with the queries the
 * store runs on it: bounded and unbounded downstream reachability, chain
 * enumeration in both directions, and acyclicity.
 */
module RelationCatalog {
  import opened Provenance

  /** `ActivityDownstreamRelation`: `downstream` depends on `upstream`. */
  datatype Relation = Relation(downstream: Activity, upstream: Activity)

  type Catalog = set<Relation>

  /** Every downstream endpoint of the catalog. */
  function Targets(R: Catalog): set<Activity> {
    set r | r in R :: r.downstream
  }

  /** The activities directly downstream of some activity of `S`. */
  function Successors(R: Catalog, S: set<Activity>): set<Activity> {
    set r | r in R && r.upstream in S :: r.downstream
  }

  // ---------------------------------------------------------------------------
  // Walks: the reference definition of reachability

  /** A walk downstream: each element is directly downstream of the one before. */
  predicate IsWalk(R: Catalog, p: seq<Activity>)
    decreases |p|
  {
    |p| <= 1 || (Relation(p[1], p[0]) in R && IsWalk(R, p[1..]))
  }

  /** `b` is reached from `S` in between 1 and `d` hops. */
  ghost predicate ReachesWithin(R: Catalog, S: set<Activity>, b: Activity, d: nat) {
    exists p :: IsWalk(R, p) && 2 <= |p| <= d + 1 && p[0] in S && p[|p| - 1] == b
  }

  /** `b` is reached from `S` in one hop or more. */
  ghost predicate Reaches(R: Catalog, S: set<Activity>, b: Activity) {
    exists p :: IsWalk(R, p) && 2 <= |p| && p[0] in S && p[|p| - 1] == b
  }

  lemma {:induction false} WalkSnoc(R: Catalog, p: seq<Activity>, x: Activity)
    requires IsWalk(R, p) && |p| >= 1 && Relation(x, p[|p| - 1]) in R
    ensures IsWalk(R, p + [x])
    decreases |p|
  {
    if |p| > 1 {
      assert (p + [x])[1..] == p[1..] + [x];
      WalkSnoc(R, p[1..], x);
    }
  }

  lemma {:induction false} WalkJoin(R: Catalog, p: seq<Activity>, q: seq<Activity>)
    requires IsWalk(R, p) && IsWalk(R, q) && |p| >= 1 && |q| >= 1 && p[|p| - 1] == q[0]
    ensures IsWalk(R, p + q[1..])
    decreases |p|
  {
    if |p| == 1 {
      assert p + q[1..] == q;
    } else {
      assert (p + q[1..])[1..] == p[1..] + q[1..];
      WalkJoin(R, p[1..], q);
    }
  }

  lemma {:induction false} WalkSlice(R: Catalog, p: seq<Activity>, i: nat, j: nat)
    requires IsWalk(R, p) && i <= j <= |p|
    ensures IsWalk(R, p[i..j])
    decreases |p|
  {
    if i > 0 {
      assert p[i..j] == p[1..][i - 1..j - 1];
      WalkSlice(R, p[1..], i - 1, j - 1);
    } else if j >= 2 {
      assert p[..j][1..] == p[1..][..j - 1];
      WalkSlice(R, p[1..], 0, j - 1);
    }
  }

  /** A walk of a smaller catalog is a walk of a larger one. */
  lemma {:induction false} WalkWiden(R: Catalog, R': Catalog, p: seq<Activity>)
    requires IsWalk(R, p) && R <= R'
    ensures IsWalk(R', p)
    decreases |p|
  {
    if |p| > 1 {
      WalkWiden(R, R', p[1..]);
    }
  }

  /** A walk stays inside a set that is closed under taking successors. */
  lemma {:induction false} WalkStaysIn(R: Catalog, p: seq<Activity>, C: set<Activity>)
    requires IsWalk(R, p) && |p| >= 1 && p[0] in C && Successors(R, C) <= C
    ensures p[|p| - 1] in C
    decreases |p|
  {
    if |p| > 1 {
      assert p[1] in Successors(R, C) by {
        var r := Relation(p[1], p[0]);
        assert r in R && r.upstream in C;
      }
      WalkStaysIn(R, p[1..], C);
    }
  }

  // ---------------------------------------------------------------------------
  // Reachability: `findValues("downstream", upstream=a, maxDepth)`

  /** The activities reached from `S` in 1 to `d` hops. */
  function Within(R: Catalog, S: set<Activity>, d: nat): set<Activity>
    decreases d
  {
    if d == 0 then {}
    else
      var next := Successors(R, S);
      next + Within(R, next, d - 1)
  }

  /** Adds successors to `T` until nothing new appears. */
  function Grow(R: Catalog, T: set<Activity>): set<Activity>
    decreases Targets(R) - T
  {
    var next := T + Successors(R, T);
    if next == T then T
    else
      assert exists y :: y in Successors(R, T) && y !in T;
      var y :| y in Successors(R, T) && y !in T;
      assert y in Targets(R);
      Grow(R, next)
  }

  /** The activities reached from `S` in one hop or more. */
  function Closure(R: Catalog, S: set<Activity>): set<Activity> {
    Grow(R, Successors(R, S))
  }

  /** An activity is within `d` hops exactly when a walk of at most `d` hops reaches it. */
  lemma {:induction false} WithinCorrect(R: Catalog, S: set<Activity>, d: nat, b: Activity)
    ensures b in Within(R, S, d) <==> ReachesWithin(R, S, b, d)
    decreases d
  {
    if d > 0 {
      var next := Successors(R, S);
      WithinCorrect(R, next, d - 1, b);
      if b in Within(R, S, d) {
        if b in next {
          var r :| r in R && r.upstream in S && r.downstream == b;
          var p := [r.upstream, b];
          assert IsWalk(R, p[1..]);
          assert IsWalk(R, p);
        } else {
          var q :| IsWalk(R, q) && 2 <= |q| <= d && q[0] in next && q[|q| - 1] == b;
          var r :| r in R && r.upstream in S && r.downstream == q[0];
          var p := [r.upstream] + q;
          assert p[1..] == q;
          assert IsWalk(R, p);
        }
      } else {
        forall p | IsWalk(R, p) && 2 <= |p| <= d + 1 && p[0] in S
          ensures p[|p| - 1] != b
        {
          var r := Relation(p[1], p[0]);
          assert p[1] in next by { assert r in R && r.upstream in S; }
          if |p| > 2 {
            assert IsWalk(R, p[1..]) && p[1..][|p[1..]| - 1] == p[|p| - 1];
          }
        }
      }
    }
  }

  /** Every activity `Grow` adds is reached from `S`. */
  lemma {:induction false} GrowSound(R: Catalog, S: set<Activity>, T: set<Activity>, b: Activity)
    requires forall t :: t in T ==> Reaches(R, S, t)
    requires b in Grow(R, T)
    ensures Reaches(R, S, b)
    decreases Targets(R) - T
  {
    var next := T + Successors(R, T);
    if next != T {
      var y :| y in Successors(R, T) && y !in T;
      assert y in Targets(R);
      forall t | t in next ensures Reaches(R, S, t) {
        if t !in T {
          ReachesStep(R, S, T, t);
        }
      }
      GrowSound(R, S, next, b);
    }
  }

  /** One more hop from activities reached from `S` is still reached from `S`. */
  lemma ReachesStep(R: Catalog, S: set<Activity>, T: set<Activity>, t: Activity)
    requires forall u :: u in T ==> Reaches(R, S, u)
    requires t in Successors(R, T)
    ensures Reaches(R, S, t)
  {
    var r :| r in R && r.upstream in T && r.downstream == t;
    assert Reaches(R, S, r.upstream);
    var p :| IsWalk(R, p) && 2 <= |p| && p[0] in S && p[|p| - 1] == r.upstream;
    WalkSnoc(R, p, t);
    assert (p + [t])[0] == p[0] && (p + [t])[|p + [t]| - 1] == t;
  }

  /** `Grow` keeps what it starts from and ends closed under successors. */
  lemma {:induction false} GrowClosed(R: Catalog, T: set<Activity>)
    ensures T <= Grow(R, T)
    ensures Successors(R, Grow(R, T)) <= Grow(R, T)
    decreases Targets(R) - T
  {
    var next := T + Successors(R, T);
    if next != T {
      var y :| y in Successors(R, T) && y !in T;
      assert y in Targets(R);
      GrowClosed(R, next);
    }
  }

  /** An activity is in the closure exactly when some walk of one hop or more reaches it. */
  lemma ClosureCorrect(R: Catalog, S: set<Activity>, b: Activity)
    ensures b in Closure(R, S) <==> Reaches(R, S, b)
  {
    var T := Successors(R, S);
    if b in Closure(R, S) {
      forall t | t in T ensures Reaches(R, S, t) {
        var r :| r in R && r.upstream in S && r.downstream == t;
        var p := [r.upstream, t];
        assert IsWalk(R, p[1..]);
        assert IsWalk(R, p);
      }
      GrowSound(R, S, T, b);
    }
    if Reaches(R, S, b) {
      var p :| IsWalk(R, p) && 2 <= |p| && p[0] in S && p[|p| - 1] == b;
      GrowClosed(R, T);
      assert p[1] in T by {
        var r := Relation(p[1], p[0]);
        assert r in R && r.upstream in S;
      }
      WalkStaysIn(R, p[1..], Closure(R, S));
    }
  }

  /** A larger depth bound never loses an activity, and every bound stays inside the closure. */
  lemma WithinMonotone(R: Catalog, S: set<Activity>, d: nat, e: nat)
    requires d <= e
    ensures Within(R, S, d) <= Within(R, S, e) <= Closure(R, S)
  {
    forall b | b in Within(R, S, d) ensures b in Within(R, S, e) {
      WithinCorrect(R, S, d, b);
      WithinCorrect(R, S, e, b);
    }
    forall b | b in Within(R, S, e) ensures b in Closure(R, S) {
      WithinCorrect(R, S, e, b);
      ClosureCorrect(R, S, b);
    }
  }

  // ---------------------------------------------------------------------------
  // Chains: `findRelationChains`

  /** The catalog with every relation reversed: upstream queries are downstream queries on it. */
  function Transpose(R: Catalog): Catalog {
    set r | r in R :: Relation(r.upstream, r.downstream)
  }

  /**
   * The chains that continue from `x`, given the activities `visited` already
   * on the chain: one step to each activity directly downstream of `x`, and a
   * further chain from it unless it was already visited (a cycle ends the chain
   * there). Every prefix of a chain is itself a chain.
   */
  function ChainsFrom(R: Catalog, visited: set<Activity>, x: Activity): set<seq<Activity>>
    decreases Targets(R) - visited
  {
    set r, c | r in R && r.upstream == x &&
               c in (if r.downstream in visited then {[]}
                     else {[]} + ChainsFrom(R, visited + {r.downstream}, r.downstream))
             :: [r.downstream] + c
  }

  /** `get_downstream_activity_chains(a)`: the downstream endpoints along each chain from `a`. */
  function DownstreamChains(R: Catalog, a: Activity): set<seq<Activity>> {
    ChainsFrom(R, {a}, a)
  }

  /** `get_upstream_activity_chains(a)`: the upstream endpoints along each chain into `a`. */
  function UpstreamChains(R: Catalog, a: Activity): set<seq<Activity>> {
    ChainsFrom(Transpose(R), {a}, a)
  }

  /**
   * A chain that continues from `x`: `[x] + c` is a walk, and no activity of it
   * except the last has been visited before or repeats.
   */
  ghost predicate IsChain(R: Catalog, visited: set<Activity>, x: Activity, c: seq<Activity>) {
    && |c| >= 1
    && IsWalk(R, [x] + c)
    && (forall i :: 0 <= i < |c| - 1 ==> c[i] !in visited)
    && (forall i, j :: 0 <= i < j < |c| - 1 ==> c[i] != c[j])
  }

  /** Every enumerated chain is a chain. */
  lemma {:induction false} ChainsFromSound(R: Catalog, visited: set<Activity>, x: Activity, c: seq<Activity>)
    requires c in ChainsFrom(R, visited, x)
    ensures IsChain(R, visited, x, c)
    decreases |c|
  {
    var r, rest :| r in R && r.upstream == x &&
                   rest in (if r.downstream in visited then {[]} else {[]} + ChainsFrom(R, visited + {r.downstream}, r.downstream)) &&
                   c == [r.downstream] + rest;
    var y, V := r.downstream, visited + {r.downstream};
    assert ([x] + c)[1..] == c;
    assert Relation(y, x) == r;
    if rest != [] {
      assert y !in visited && rest in ChainsFrom(R, V, y);
      ChainsFromSound(R, V, y, rest);
      assert c[1..] == rest;
      assert IsWalk(R, [x] + c);
      forall i | 0 <= i < |c| - 1 ensures c[i] !in visited {
        if i > 0 { assert c[i] == rest[i - 1]; }
      }
      forall i, j | 0 <= i < j < |c| - 1 ensures c[i] != c[j] {
        assert c[j] == rest[j - 1];
        if i > 0 { assert c[i] == rest[i - 1]; }
      }
    } else {
      assert c == [y];
      assert ([x] + c)[1..] == [y];
    }
  }

  /** Every chain is enumerated. */
  lemma {:induction false} ChainsFromComplete(R: Catalog, visited: set<Activity>, x: Activity, c: seq<Activity>)
    requires IsChain(R, visited, x, c)
    ensures c in ChainsFrom(R, visited, x)
    decreases |c|
  {
    var y, rest := c[0], c[1..];
    assert c == [y] + rest;
    var V := visited + {y};
    var r := Relation(y, x);
    assert r in R;
    if rest != [] {
      assert y !in visited by { assert c[0] == y; }
      assert ([x] + c)[1..] == c;
      assert IsWalk(R, [y] + rest);
      forall i | 0 <= i < |rest| - 1 ensures rest[i] !in V {
        assert rest[i] == c[i + 1];
      }
      forall i, j | 0 <= i < j < |rest| - 1 ensures rest[i] != rest[j] {
        assert rest[i] == c[i + 1] && rest[j] == c[j + 1];
      }
      ChainsFromComplete(R, V, y, rest);
    }
    var conts := if r.downstream in visited then {[]} else {[]} + ChainsFrom(R, visited + {r.downstream}, r.downstream);
    assert rest in conts;
    assert r in R && r.upstream == x && c == [r.downstream] + rest;
  }

  /** The enumeration yields exactly the chains. */
  lemma ChainsFromCorrect(R: Catalog, visited: set<Activity>, x: Activity, c: seq<Activity>)
    ensures c in ChainsFrom(R, visited, x) <==> IsChain(R, visited, x, c)
  {
    if c in ChainsFrom(R, visited, x) {
      ChainsFromSound(R, visited, x, c);
    }
    if IsChain(R, visited, x, c) {
      ChainsFromComplete(R, visited, x, c);
    }
  }

  /** An upstream walk: each element is directly upstream of the one before. */
  predicate IsUpstreamWalk(R: Catalog, p: seq<Activity>)
    decreases |p|
  {
    |p| <= 1 || (Relation(p[0], p[1]) in R && IsUpstreamWalk(R, p[1..]))
  }

  lemma {:induction false} TransposeWalk(R: Catalog, p: seq<Activity>)
    ensures IsWalk(Transpose(R), p) <==> IsUpstreamWalk(R, p)
    decreases |p|
  {
    if |p| > 1 {
      TransposeWalk(R, p[1..]);
      var r := Relation(p[0], p[1]);
      if r in R {
        assert Relation(r.upstream, r.downstream) in Transpose(R);
      }
      if Relation(p[1], p[0]) in Transpose(R) {
        var r' :| r' in R && Relation(r'.upstream, r'.downstream) == Relation(p[1], p[0]);
        assert r' == r;
      }
    }
  }

  /**
   * The upstream chains mirror the downstream ones: `[a] + c` walks upstream,
   * and no activity of it except the last is `a` or repeats.
   */
  lemma UpstreamChainsCorrect(R: Catalog, a: Activity, c: seq<Activity>)
    ensures c in UpstreamChains(R, a) <==>
            && |c| >= 1
            && IsUpstreamWalk(R, [a] + c)
            && (forall i :: 0 <= i < |c| - 1 ==> c[i] != a)
            && (forall i, j :: 0 <= i < j < |c| - 1 ==> c[i] != c[j])
  {
    ChainsFromCorrect(Transpose(R), {a}, a, c);
    TransposeWalk(R, [a] + c);
  }

  /** Each downstream chain of `a` starts directly downstream of `a` and follows relations. */
  lemma DownstreamChainsCorrect(R: Catalog, a: Activity, c: seq<Activity>)
    ensures c in DownstreamChains(R, a) <==>
            && |c| >= 1
            && IsWalk(R, [a] + c)
            && (forall i :: 0 <= i < |c| - 1 ==> c[i] != a)
            && (forall i, j :: 0 <= i < j < |c| - 1 ==> c[i] != c[j])
  {
    ChainsFromCorrect(R, {a}, a, c);
  }

  /** `DownstreamChainsCorrect` for every sequence at once. */
  lemma DownstreamChainsAll(R: Catalog, a: Activity)
    ensures forall c :: c in DownstreamChains(R, a) <==>
                        && |c| >= 1
                        && IsWalk(R, [a] + c)
                        && (forall i :: 0 <= i < |c| - 1 ==> c[i] != a)
                        && (forall i, j :: 0 <= i < j < |c| - 1 ==> c[i] != c[j])
  {
    forall c {
      DownstreamChainsCorrect(R, a, c);
    }
  }

  /** `UpstreamChainsCorrect` for every sequence at once. */
  lemma UpstreamChainsAll(R: Catalog, a: Activity)
    ensures forall c :: c in UpstreamChains(R, a) <==>
                        && |c| >= 1
                        && IsUpstreamWalk(R, [a] + c)
                        && (forall i :: 0 <= i < |c| - 1 ==> c[i] != a)
                        && (forall i, j :: 0 <= i < j < |c| - 1 ==> c[i] != c[j])
  {
    forall c {
      UpstreamChainsCorrect(R, a, c);
    }
  }

  /** Every activity on some chain. */
  function ChainMembers(C: set<seq<Activity>>): set<Activity> {
    set c, x | c in C && x in c :: x
  }

  /** Cuts the loops out of a walk until no activity but the last repeats. */
  lemma {:induction false} ShortenWalk(R: Catalog, p: seq<Activity>) returns (q: seq<Activity>)
    requires IsWalk(R, p) && |p| >= 2
    ensures IsWalk(R, q) && 2 <= |q| <= |p| && q[0] == p[0] && q[|q| - 1] == p[|p| - 1]
    ensures forall i, j :: 0 <= i < j < |q| - 1 ==> q[i] != q[j]
    decreases |p|
  {
    if exists i, j :: 0 <= i < j < |p| - 1 && p[i] == p[j] {
      var i, j :| 0 <= i < j < |p| - 1 && p[i] == p[j];
      var p' := CutLoop(R, p, i, j);
      q := ShortenWalk(R, p');
    } else {
      q := p;
    }
  }

  /** Cutting out the loop between two equal activities leaves a shorter walk with the same ends. */
  lemma CutLoop(R: Catalog, p: seq<Activity>, i: nat, j: nat) returns (p': seq<Activity>)
    requires IsWalk(R, p) && i < j < |p| - 1 && p[i] == p[j]
    ensures IsWalk(R, p') && 2 <= |p'| < |p| && p'[0] == p[0] && p'[|p'| - 1] == p[|p| - 1]
  {
    WalkSlice(R, p, 0, i + 1);
    WalkSlice(R, p, j, |p|);
    assert p[j..|p|] == p[j..];
    WalkJoin(R, p[..i + 1], p[j..]);
    p' := p[..i + 1] + p[j..][1..];
    assert p'[0] == p[0];
    assert p'[|p'| - 1] == p[|p| - 1];
  }

  /** Every activity of a walk `[a] + c` other than its start is reached from `a`. */
  lemma WalkMemberReached(R: Catalog, a: Activity, c: seq<Activity>, x: Activity)
    requires IsWalk(R, [a] + c) && x in c
    ensures Reaches(R, {a}, x)
  {
    var i :| 0 <= i < |c| && c[i] == x;
    WalkSlice(R, [a] + c, 0, i + 2);
    var w := ([a] + c)[..i + 2];
    assert IsWalk(R, w) && |w| == i + 2 && w[0] == a && w[i + 1] == x;
  }

  /** An activity reached from `a` ends some downstream chain of `a`. */
  lemma ReachedOnChain(R: Catalog, a: Activity, x: Activity)
    requires x in Closure(R, {a})
    ensures x in ChainMembers(DownstreamChains(R, a))
  {
    ClosureCorrect(R, {a}, x);
    var p :| IsWalk(R, p) && 2 <= |p| && p[0] in {a} && p[|p| - 1] == x;
    var q := ShortenWalk(R, p);
    var c := q[1..];
    assert [a] + c == q;
    forall i | 0 <= i < |c| - 1 ensures c[i] != a {
      assert c[i] == q[i + 1] && q[0] == a;
    }
    forall i, j | 0 <= i < j < |c| - 1 ensures c[i] != c[j] {
      assert c[i] == q[i + 1] && c[j] == q[j + 1];
    }
    DownstreamChainsCorrect(R, a, c);
    assert x == c[|c| - 1] && x in c;
  }

  /** The activities on the downstream chains of `a` are exactly those reached from `a`. */
  lemma ChainMembersAreClosure(R: Catalog, a: Activity)
    ensures ChainMembers(DownstreamChains(R, a)) == Closure(R, {a})
  {
    forall x | x in ChainMembers(DownstreamChains(R, a)) ensures x in Closure(R, {a}) {
      var c :| c in DownstreamChains(R, a) && x in c;
      ChainsFromSound(R, {a}, a, c);
      WalkMemberReached(R, a, c, x);
      ClosureCorrect(R, {a}, x);
    }
    forall x | x in Closure(R, {a}) ensures x in ChainMembers(DownstreamChains(R, a)) {
      ReachedOnChain(R, a, x);
    }
  }

  // ---------------------------------------------------------------------------
  // Acyclicity: the check `create_activity_graph` performs

  /** No activity is reachable from itself. */
  predicate Acyclic(R: Catalog) {
    forall r :: r in R ==> r.upstream !in Closure(R, {r.upstream})
  }

  /** Some walk of one hop or more returns to where it started. */
  ghost predicate HasCycle(R: Catalog) {
    exists p :: IsWalk(R, p) && 2 <= |p| && p[0] == p[|p| - 1]
  }

  lemma AcyclicIff(R: Catalog)
    ensures Acyclic(R) <==> !HasCycle(R)
  {
    if HasCycle(R) {
      var p :| IsWalk(R, p) && 2 <= |p| && p[0] == p[|p| - 1];
      var r := Relation(p[1], p[0]);
      assert r in R;
      ClosureCorrect(R, {r.upstream}, r.upstream);
    }
    if !Acyclic(R) {
      var r :| r in R && r.upstream in Closure(R, {r.upstream});
      ClosureCorrect(R, {r.upstream}, r.upstream);
    }
  }

  /** The relations with both endpoints in `S`: the graph built from the activities of `S`. */
  function Induced(R: Catalog, S: set<Activity>): Catalog {
    set r | r in R && r.upstream in S && r.downstream in S
  }

  /** The activities on the upstream and downstream chains of `a`: those the cycle check looks at. */
  function ChainActivities(R: Catalog, a: Activity): set<Activity> {
    ChainMembers(UpstreamChains(R, a)) + ChainMembers(DownstreamChains(R, a))
  }

  /** The cycle check of `add` on the current catalog. */
  function CycleCheck(R: Catalog, a: Activity): Outcome {
    if Acyclic(Induced(R, ChainActivities(R, a))) then Ok else CycleDetected
  }

  /** A walk whose activities all lie in `S` is a walk of the induced catalog. */
  lemma {:induction false} WalkInduced(R: Catalog, S: set<Activity>, p: seq<Activity>)
    requires IsWalk(R, p) && forall i :: 0 <= i < |p| ==> p[i] in S
    ensures IsWalk(Induced(R, S), p)
    decreases |p|
  {
    if |p| > 1 {
      WalkInduced(R, S, p[1..]);
    }
  }

  /** A walk of `R + N` either stays in `R` or meets an endpoint `a` shared by all of `N`. */
  lemma {:induction false} WalkOldOrThrough(R: Catalog, N: Catalog, a: Activity, p: seq<Activity>)
    requires IsWalk(R + N, p)
    requires forall r :: r in N ==> r.upstream == a || r.downstream == a
    ensures IsWalk(R, p) || a in p
    decreases |p|
  {
    if |p| > 1 {
      WalkOldOrThrough(R, N, a, p[1..]);
    }
  }

  /** A walk of a sub-catalog is a walk of the catalog, so a sub-catalog of an acyclic catalog is acyclic. */
  lemma SubCatalogAcyclic(R: Catalog, R': Catalog)
    requires R' <= R && Acyclic(R)
    ensures Acyclic(R')
  {
    AcyclicIff(R);
    AcyclicIff(R');
    if HasCycle(R') {
      var p :| IsWalk(R', p) && 2 <= |p| && p[0] == p[|p| - 1];
      WalkWiden(R', R, p);
    }
  }

  /** A cycle that passes through `a` can be turned to start and end at `a`. */
  lemma RotateCycle(R: Catalog, p: seq<Activity>, a: Activity) returns (q: seq<Activity>)
    requires IsWalk(R, p) && 2 <= |p| && p[0] == p[|p| - 1] && a in p
    ensures IsWalk(R, q) && 2 <= |q| && q[0] == a && q[|q| - 1] == a
  {
    var m :| 0 <= m < |p| && p[m] == a;
    if m == |p| - 1 { m := 0; }
    WalkSlice(R, p, m, |p|);
    assert p[m..|p|] == p[m..];
    WalkSlice(R, p, 0, m + 1);
    WalkJoin(R, p[m..], p[..m + 1]);
    q := p[m..] + p[..m + 1][1..];
  }

  /** Every activity on a cycle through `a` is on a downstream chain of `a`. */
  lemma CycleOnChains(R: Catalog, q: seq<Activity>, a: Activity)
    requires IsWalk(R, q) && 2 <= |q| && q[0] == a && q[|q| - 1] == a
    ensures forall i :: 0 <= i < |q| ==> q[i] in ChainMembers(DownstreamChains(R, a))
  {
    ChainMembersAreClosure(R, a);
    forall i | 0 <= i < |q| ensures q[i] in Closure(R, {a}) {
      var j := if i == 0 then |q| - 1 else i;
      WalkSlice(R, q, 0, j + 1);
      assert q[..j + 1][0] == a && q[..j + 1][j] == q[i];
      ClosureCorrect(R, {a}, q[i]);
    }
  }

  /** A cycle through `a` lies on `a`'s downstream chains, so the cycle check reports it. */
  lemma CycleThroughIsDetected(R: Catalog, a: Activity, q: seq<Activity>)
    requires IsWalk(R, q) && 2 <= |q| && q[0] == a && q[|q| - 1] == a
    ensures CycleCheck(R, a) == CycleDetected
  {
    var S := ChainActivities(R, a);
    CycleOnChains(R, q, a);
    WalkInduced(R, S, q);
    AcyclicIff(Induced(R, S));
  }

  /**
   * When the catalog was acyclic and the new relations all touch `a`, the check
   * on the activities of `a`'s chains passes exactly when the new catalog is acyclic.
   */
  lemma CycleCheckExact(R: Catalog, N: Catalog, a: Activity)
    requires Acyclic(R)
    requires forall r :: r in N ==> r.upstream == a || r.downstream == a
    ensures CycleCheck(R + N, a) == Ok <==> Acyclic(R + N)
  {
    var R' := R + N;
    if Acyclic(R') {
      SubCatalogAcyclic(R', Induced(R', ChainActivities(R', a)));
    } else {
      AcyclicIff(R);
      AcyclicIff(R');
      var p :| IsWalk(R', p) && 2 <= |p| && p[0] == p[|p| - 1];
      WalkOldOrThrough(R, N, a, p);
      var q := RotateCycle(R', p, a);
      CycleThroughIsDetected(R', a, q);
    }
  }

  /** `ClosureCorrect` for every activity at once. */
  lemma ClosureReaches(R: Catalog, S: set<Activity>)
    ensures forall b :: b in Closure(R, S) <==> Reaches(R, S, b)
  {
    forall b ensures b in Closure(R, S) <==> Reaches(R, S, b) {
      ClosureCorrect(R, S, b);
    }
  }

  /** `WithinCorrect` for every activity at once. */
  lemma WithinReaches(R: Catalog, S: set<Activity>, d: nat)
    ensures forall b :: b in Within(R, S, d) <==> ReachesWithin(R, S, b, d)
  {
    forall b ensures b in Within(R, S, d) <==> ReachesWithin(R, S, b, d) {
      WithinCorrect(R, S, d, b);
    }
  }
}
