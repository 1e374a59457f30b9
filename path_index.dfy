/**
 * The two path indices of the store (`activities-by-usage` and
 * `activities-by-generation`): a map from a path to the activities listed
 * under it, in the order they were appended.
 */
module PathIndex {
  import opened Provenance

  type Index = map<Path, seq<Activity>>

  /** `index.get(path, [])`: an unknown path has the empty list. */
  function Lookup(idx: Index, p: Path): seq<Activity> {
    if p in idx then idx[p] else []
  }

  /** `n` copies of `a`. */
  function Repeat(a: Activity, n: nat): seq<Activity> {
    if n == 0 then [] else Repeat(a, n - 1) + [a]
  }

  /**
   * The index after the loop of `add` that, for each path of `ps` in order,
   * creates the key when it is missing and appends `a` to its list.
   */
  function IndexAll(idx: Index, ps: seq<Path>, a: Activity): Index
    decreases |ps|
  {
    if ps == [] then idx
    else
      var prev := IndexAll(idx, ps[..|ps| - 1], a);
      var p := ps[|ps| - 1];
      prev[p := Lookup(prev, p) + [a]]
  }

  /**
   * Under every path the old list is kept, in its order, and `a` follows it
   * once per occurrence of that path in `ps`; a path not in `ps` keeps its list.
   */
  lemma {:induction false} IndexAllAt(idx: Index, ps: seq<Path>, a: Activity, p: Path)
    ensures Lookup(IndexAll(idx, ps, a), p) == Lookup(idx, p) + Repeat(a, multiset(ps)[p])
    decreases |ps|
  {
    if ps != [] {
      var init, q := ps[..|ps| - 1], ps[|ps| - 1];
      assert ps == init + [q];
      assert multiset(ps) == multiset(init) + multiset{q};
      IndexAllAt(idx, init, a, p);
      var prev := IndexAll(idx, init, a);
      if p == q {
        assert multiset(ps)[p] == multiset(init)[p] + 1;
        calc {
          Lookup(IndexAll(idx, ps, a), p);
          Lookup(prev, p) + [a];
          Lookup(idx, p) + Repeat(a, multiset(init)[p]) + [a];
          Lookup(idx, p) + (Repeat(a, multiset(init)[p]) + [a]);
        }
      } else {
        assert multiset(ps)[p] == multiset(init)[p];
        assert Lookup(IndexAll(idx, ps, a), p) == Lookup(prev, p);
      }
    }
  }

  /** The keys grow by exactly the paths of `ps`. */
  lemma {:induction false} IndexAllKeys(idx: Index, ps: seq<Path>, a: Activity)
    ensures IndexAll(idx, ps, a).Keys == idx.Keys + set i | 0 <= i < |ps| :: ps[i]
    decreases |ps|
  {
    if ps != [] {
      var init := ps[..|ps| - 1];
      IndexAllKeys(idx, init, a);
      var s := set i | 0 <= i < |ps| :: ps[i];
      var s' := set i | 0 <= i < |init| :: init[i];
      assert s == s' + {ps[|ps| - 1]} by {
        forall q | q in s ensures q in s' + {ps[|ps| - 1]} {
          var i :| 0 <= i < |ps| && ps[i] == q;
          if i < |init| { assert init[i] == q; }
        }
        forall q | q in s' ensures q in s {
          var i :| 0 <= i < |init| && init[i] == q;
          assert ps[i] == q;
        }
      }
    }
  }

  /** Every key of `idx` holds a non-empty list, and every activity listed is one of `S`. */
  predicate Listed(idx: Index, S: set<Activity>) {
    forall p :: p in idx ==> idx[p] != [] && forall x :: x in idx[p] ==> x in S
  }

  /** Indexing `a` keeps every list non-empty and adds no activity but `a`. */
  lemma {:induction false} IndexAllListed(idx: Index, ps: seq<Path>, a: Activity, S: set<Activity>)
    requires Listed(idx, S)
    ensures Listed(IndexAll(idx, ps, a), S + {a})
    decreases |ps|
  {
    if ps != [] {
      IndexAllListed(idx, ps[..|ps| - 1], a, S);
    }
  }

  /** The activities listed under a key of `idx` related to `p`: one scan of `index.items()`. */
  function Matching(idx: Index, p: Path): set<Activity> {
    set k, x | k in idx && Related(k, p) && x in idx[k] :: x
  }

  /** The candidates the scans for all of `ps` collect, one scan per path in order. */
  function Candidates(idx: Index, ps: seq<Path>): set<Activity>
    decreases |ps|
  {
    if ps == [] then {} else Candidates(idx, ps[..|ps| - 1]) + Matching(idx, ps[|ps| - 1])
  }

  /** An activity is a candidate exactly when it is listed under a key related to one of `ps`. */
  lemma {:induction false} CandidatesSpec(idx: Index, ps: seq<Path>, x: Activity)
    ensures x in Candidates(idx, ps) <==>
            exists i, k :: 0 <= i < |ps| && k in idx && Related(k, ps[i]) && x in idx[k]
    decreases |ps|
  {
    if ps != [] {
      var init := ps[..|ps| - 1];
      CandidatesSpec(idx, init, x);
      if x in Candidates(idx, ps) {
        if x in Candidates(idx, init) {
          var i, k :| 0 <= i < |init| && k in idx && Related(k, init[i]) && x in idx[k];
          assert ps[i] == init[i];
        } else {
          var k :| k in idx && Related(k, ps[|ps| - 1]) && x in idx[k];
        }
      } else {
        forall i, k | 0 <= i < |ps| && k in idx && Related(k, ps[i])
          ensures x !in idx[k]
        {
          if i < |init| {
            assert ps[i] == init[i];
          }
        }
      }
    }
  }

  /**
   * The scan of `index.items()` for one path: it visits every key once and
   * collects the activities under the keys related to `p`.
   */
  method ScanRelated(idx: Index, p: Path) returns (found: set<Activity>)
    ensures forall x :: x in found <==> exists k :: k in idx && Related(k, p) && x in idx[k]
    ensures found == Matching(idx, p)
  {
    found := {};
    var keys := idx.Keys;
    while keys != {}
      invariant keys <= idx.Keys
      invariant forall x :: x in found <==> exists k :: k in idx && k !in keys && Related(k, p) && x in idx[k]
      decreases keys
    {
      var k :| k in keys;
      if Related(k, p) {
        found := found + set x | x in idx[k];
      }
      keys := keys - {k};
    }
  }

  /** `next((g for g in gens if g.entity.checksum == c), None)`: the first generation with checksum `c`. */
  function FirstWithChecksum(gens: seq<Generation>, c: string): (r: Option<Generation>)
    ensures r.None? <==> forall g :: g in gens ==> g.entity.checksum != c
    ensures r.Some? ==> exists i :: 0 <= i < |gens| && gens[i] == r.value && r.value.entity.checksum == c &&
                                    forall j :: 0 <= j < i ==> gens[j].entity.checksum != c
  {
    if gens == [] then None
    else if gens[0].entity.checksum == c then Some(gens[0])
    else
      var r := FirstWithChecksum(gens[1..], c);
      assert r.Some? ==> exists i :: 0 <= i < |gens[1..]| && gens[1..][i] == r.value && r.value.entity.checksum == c &&
                                    forall j :: 0 <= j < i ==> gens[1..][j].entity.checksum != c;
      assert r.Some? ==> exists i :: 0 < i < |gens| && gens[i] == r.value && r.value.entity.checksum == c &&
                                    forall j :: 0 <= j < i ==> gens[j].entity.checksum != c by {
        if r.Some? {
          var i :| 0 <= i < |gens[1..]| && gens[1..][i] == r.value && r.value.entity.checksum == c &&
                   forall j :: 0 <= j < i ==> gens[1..][j].entity.checksum != c;
          assert gens[i + 1] == r.value;
          forall j | 0 <= j < i + 1 ensures gens[j].entity.checksum != c {
            if j > 0 { assert gens[j] == gens[1..][j - 1]; }
          }
        }
      }
      r
  }

  /** Some generation of `a`, on any path, has checksum `c`. */
  predicate GeneratesChecksum(a: Activity, c: string) {
    exists g :: g in a.generations && g.entity.checksum == c
  }

  /** The activities of `acts` that have a generation with checksum `c`, in their order. */
  function FilterByChecksum(acts: seq<Activity>, c: string): seq<Activity>
    decreases |acts|
  {
    if acts == [] then []
    else (if FirstWithChecksum(acts[0].generations, c).Some? then [acts[0]] else []) + FilterByChecksum(acts[1..], c)
  }

  /** Filtering a concatenation filters each part: the filter keeps the order of the list. */
  lemma {:induction false} FilterAppend(s: seq<Activity>, t: seq<Activity>, c: string)
    ensures FilterByChecksum(s + t, c) == FilterByChecksum(s, c) + FilterByChecksum(t, c)
    decreases |s|
  {
    if s != [] {
      assert (s + t)[1..] == s[1..] + t;
      FilterAppend(s[1..], t, c);
    } else {
      assert s + t == t;
    }
  }

  /** A one-element list is kept exactly when its activity generated checksum `c`. */
  lemma FilterSingleton(x: Activity, c: string)
    ensures FilterByChecksum([x], c) == if GeneratesChecksum(x, c) then [x] else []
  {
    assert [x][1..] == [];
  }

  /** The filter keeps exactly the listed activities that generated checksum `c`. */
  lemma {:induction false} FilterMembers(s: seq<Activity>, c: string, x: Activity)
    ensures x in FilterByChecksum(s, c) <==> x in s && GeneratesChecksum(x, c)
    decreases |s|
  {
    if s != [] {
      FilterMembers(s[1..], c, x);
      assert s == [s[0]] + s[1..];
    }
  }
}
