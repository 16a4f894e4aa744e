/** The specifications of a class and of the classes above it. The code completes the map
    stored for a class in place and gives that same map out; what it gives never depends on
    what was asked before. */
module ClassSpecifications {

  type Specs = map<string, string>

  datatype Class = Class(superClasses: seq<string>, specifications: Specs)

  type Tree = map<string, Class>

  const RESOURCE: string := "rdfs:Resource"

  /** A class that is not known counts as the top class. */
  function Target(tree: Tree, u: string): string {
    if u in tree then u else RESOURCE
  }

  /** Every class stands above its super classes in `rank`. */
  ghost predicate Acyclic(tree: Tree, rank: map<string, nat>) {
    && RESOURCE in tree && tree.Keys <= rank.Keys
    && forall u, i | u in tree && 0 <= i < |tree[u].superClasses| ::
         rank[Target(tree, tree[u].superClasses[i])] < rank[u]
  }

  /** `specs`, with what it lacks taken from `more`. */
  function Merged(specs: Specs, more: Specs): Specs {
    more + specs
  }

  /** What a class has: its own specification of a property, or else that of the first super
      class that has one. */
  ghost function Resolved(tree: Tree, rank: map<string, nat>, u: string): Specs
    requires Acyclic(tree, rank) && u in tree
    decreases rank[u], 1, 0
  {
    WithSupers(tree, rank, u, |tree[u].superClasses|)
  }

  /** The own specifications with those of the first `n` super classes. */
  ghost function WithSupers(tree: Tree, rank: map<string, nat>, u: string, n: nat): Specs
    requires Acyclic(tree, rank) && u in tree && n <= |tree[u].superClasses|
    decreases rank[u], 0, n
  {
    if n == 0 then tree[u].specifications
    else Merged(WithSupers(tree, rank, u, n - 1), Resolved(tree, rank, Target(tree, tree[u].superClasses[n - 1])))
  }

  // --------------------------------------------------------------- what inheritance is

  ghost predicate IsSuper(tree: Tree, u: string, v: string) {
    u in tree && exists k :: 0 <= k < |tree[u].superClasses| && v == Target(tree, tree[u].superClasses[k])
  }

  /** From `p[0]` upwards through super classes. */
  ghost predicate IsAscent(tree: Tree, p: seq<string>) {
    p != [] && p[0] in tree && (|p| == 1 || (IsSuper(tree, p[0], p[1]) && IsAscent(tree, p[1..])))
  }

  /** The last class of the ascent declares the specification. */
  ghost predicate Declares(tree: Tree, p: seq<string>, property: string, spec: string) {
    IsAscent(tree, p) && p[|p| - 1] in tree
    && property in tree[p[|p| - 1]].specifications && tree[p[|p| - 1]].specifications[property] == spec
  }

  lemma OwnIsDeclared(tree: Tree, rank: map<string, nat>, u: string, property: string)
    requires Acyclic(tree, rank) && u in tree && property in WithSupers(tree, rank, u, 0)
    ensures Declares(tree, [u], property, WithSupers(tree, rank, u, 0)[property])
  {
  }

  /** A specification is that of the super classes before the last one, or else that of the
      last one. */
  lemma FromOneSuper(tree: Tree, rank: map<string, nat>, u: string, n: nat, property: string)
    requires Acyclic(tree, rank) && u in tree && 0 < n <= |tree[u].superClasses| && property in WithSupers(tree, rank, u, n)
    ensures var s, before := Target(tree, tree[u].superClasses[n - 1]), WithSupers(tree, rank, u, n - 1);
            var above := WithSupers(tree, rank, s, |tree[s].superClasses|);
            if property in before then WithSupers(tree, rank, u, n)[property] == before[property]
            else property in above && WithSupers(tree, rank, u, n)[property] == above[property]
  {
    ResolvedIs(tree, rank, Target(tree, tree[u].superClasses[n - 1]));
  }

  /** Whatever a class has was declared by itself or by a class above it. */
  lemma {:induction false} ComesFromAbove(tree: Tree, rank: map<string, nat>, u: string, n: nat,
          property: string) returns (p: seq<string>)
    requires Acyclic(tree, rank) && u in tree && n <= |tree[u].superClasses| && property in WithSupers(tree, rank, u, n)
    ensures p != [] && p[0] == u && Declares(tree, p, property, WithSupers(tree, rank, u, n)[property])
    decreases rank[u], n
  {
    hide Declares, WithSupers;
    if n == 0 {
      p := [u];
      OwnIsDeclared(tree, rank, u, property);
    } else if property in WithSupers(tree, rank, u, n - 1) {
      FromOneSuper(tree, rank, u, n, property);
      p := ComesFromAbove(tree, rank, u, n - 1, property);
    } else {
      var s := Target(tree, tree[u].superClasses[n - 1]);
      FromOneSuper(tree, rank, u, n, property);
      var q := ComesFromAbove(tree, rank, s, |tree[s].superClasses|, property);
      p := [u] + q;
      OneHigher(tree, u, n - 1, q, property, WithSupers(tree, rank, u, n)[property]);
    }
  }

  lemma OneHigher(tree: Tree, u: string, k: nat, q: seq<string>, property: string, spec: string)
    requires u in tree && k < |tree[u].superClasses|
    requires Declares(tree, q, property, spec) && q[0] == Target(tree, tree[u].superClasses[k])
    ensures Declares(tree, [u] + q, property, spec)
  {
    var p := [u] + q;
    assert p[1..] == q && p[|p| - 1] == q[|q| - 1];
  }

  lemma {:induction false} MoreSupers(tree: Tree, rank: map<string, nat>, u: string, k: nat, n: nat)
    requires Acyclic(tree, rank) && u in tree && k <= n <= |tree[u].superClasses|
    ensures var less, more := WithSupers(tree, rank, u, k), WithSupers(tree, rank, u, n);
            less.Keys <= more.Keys && forall x | x in less :: more[x] == less[x]
    decreases n
  {
    if k < n {
      MoreSupers(tree, rank, u, k, n - 1);
    }
  }

  lemma ResolvedIs(tree: Tree, rank: map<string, nat>, u: string)
    requires Acyclic(tree, rank) && u in tree
    ensures Resolved(tree, rank, u) == WithSupers(tree, rank, u, |tree[u].superClasses|)
    ensures WithSupers(tree, rank, u, 0) == tree[u].specifications
  {
  }

  lemma SuperIncluded(tree: Tree, rank: map<string, nat>, u: string, k: nat, n: nat)
    requires Acyclic(tree, rank) && u in tree && k < n <= |tree[u].superClasses|
    ensures Resolved(tree, rank, Target(tree, tree[u].superClasses[k])).Keys <= WithSupers(tree, rank, u, n).Keys
  {
    MoreSupers(tree, rank, u, k + 1, n);
  }

  /** A class has a specification for every property declared by it or above it. */
  lemma {:induction false} InheritsAll(tree: Tree, rank: map<string, nat>, p: seq<string>, property: string,
          spec: string)
    requires Acyclic(tree, rank) && Declares(tree, p, property, spec)
    ensures property in Resolved(tree, rank, p[0])
    ensures |p| == 1 ==> Resolved(tree, rank, p[0])[property] == spec
    decreases |p|
  {
    hide Resolved;
    var u := p[0];
    var n := |tree[u].superClasses|;
    ResolvedIs(tree, rank, u);
    if |p| == 1 {
      MoreSupers(tree, rank, u, 0, n);
    } else {
      var q := p[1..];
      var k :| 0 <= k < n && q[0] == Target(tree, tree[u].superClasses[k]);
      InheritsAll(tree, rank, q, property, spec);
      SuperIncluded(tree, rank, u, k, n);
    }
  }

  /** A property the class does not declare itself is specified as in the first super class
      that has it. */
  lemma {:induction false} FirstSuperWins(tree: Tree, rank: map<string, nat>, u: string, k: nat, n: nat,
          property: string)
    requires Acyclic(tree, rank) && u in tree && k < n <= |tree[u].superClasses|
    requires property !in tree[u].specifications
    requires property in Resolved(tree, rank, Target(tree, tree[u].superClasses[k]))
    requires forall j | 0 <= j < k :: property !in Resolved(tree, rank, Target(tree, tree[u].superClasses[j]))
    ensures property in WithSupers(tree, rank, u, n)
    ensures WithSupers(tree, rank, u, n)[property] == Resolved(tree, rank, Target(tree, tree[u].superClasses[k]))[property]
    decreases n
  {
    if k < n - 1 {
      FirstSuperWins(tree, rank, u, k, n - 1, property);
    } else {
      NotBefore(tree, rank, u, k, property);
    }
  }

  lemma {:induction false} NotBefore(tree: Tree, rank: map<string, nat>, u: string, k: nat, property: string)
    requires Acyclic(tree, rank) && u in tree && k <= |tree[u].superClasses| && property !in tree[u].specifications
    requires forall j | 0 <= j < k :: property !in Resolved(tree, rank, Target(tree, tree[u].superClasses[j]))
    ensures property !in WithSupers(tree, rank, u, k)
  {
    if k > 0 {
      NotBefore(tree, rank, u, k - 1, property);
    }
  }

  // ------------------------------------------------------------------------ in place

  class Ontology {
    var classTree: Tree
    ghost const base: Tree
    ghost const rank: map<string, nat>

    /** Each stored map is the class's own or its complete one. */
    ghost predicate Valid()
      reads this
    {
      && Acyclic(base, rank) && classTree.Keys == base.Keys
      && forall u | u in base ::
           && classTree[u].superClasses == base[u].superClasses
           && (classTree[u].specifications == base[u].specifications || classTree[u].specifications == Resolved(base, rank, u))
    }

    constructor (tree: Tree, ghost rank: map<string, nat>)
      requires Acyclic(tree, rank)
      ensures Valid() && base == tree && this.rank == rank && classTree == tree
    {
      this.classTree := tree;
      this.base := tree;
      this.rank := rank;
    }

    /** `getClassSpecifications` gives out the map stored for the class `owner`. */
    method GetSpecs(u: string) returns (owner: string)
      requires Valid()
      modifies this
      ensures Valid() && owner == Target(base, u) && owner in classTree
      ensures classTree[owner].specifications == Resolved(base, rank, owner)
      ensures forall v | v in base :: Completed(old(classTree), v) ==> Completed(classTree, v)
      decreases rank[Target(base, u)], if u in base then 0 else 1
    {
      if u !in classTree {
        owner := GetSpecs(RESOURCE);
        return;
      }
      owner := u;
      var superSpecs: seq<string> := [];
      var supers := classTree[u].superClasses;
      for i := 0 to |supers|
        invariant Valid() && |superSpecs| == i
        invariant forall v | v in base :: Completed(old(classTree), v) ==> Completed(classTree, v)
        invariant forall j | 0 <= j < i :: superSpecs[j] == Target(base, supers[j]) && Completed(classTree, superSpecs[j])
      {
        var next := GetSpecs(supers[i]);
        superSpecs := superSpecs + [next];
      }
      MergeAll(u, superSpecs);
    }

    /** The map of `v` is complete. */
    ghost predicate Completed(tree: Tree, v: string)
      requires Acyclic(base, rank)
    {
      v in base && v in tree && tree[v].specifications == Resolved(base, rank, v)
    }

    method MergeAll(u: string, superSpecs: seq<string>)
      requires Valid() && u in base && |superSpecs| == |base[u].superClasses|
      requires forall j | 0 <= j < |superSpecs| ::
                 superSpecs[j] == Target(base, base[u].superClasses[j]) && Completed(classTree, superSpecs[j])
      modifies this
      ensures Valid() && Completed(classTree, u)
      ensures forall v | v in base && v != u :: classTree[v] == old(classTree[v])
    {
      hide Resolved, WithSupers, Merged;
      ghost var was := classTree[u].specifications;
      ghost var complete := Resolved(base, rank, u);
      ResolvedIs(base, rank, u);
      for j := 0 to |superSpecs|
        invariant classTree.Keys == base.Keys && classTree[u].superClasses == base[u].superClasses
        invariant forall v | v in base && v != u :: classTree[v] == old(classTree[v])
        invariant classTree[u].specifications == complete
               || (was == base[u].specifications && classTree[u].specifications == WithSupers(base, rank, u, j))
      {
        OneSuper(u, j);
        MergeOne(u, superSpecs[j]);
      }
    }

    lemma OneSuper(u: string, j: nat)
      requires Acyclic(base, rank) && u in base && j < |base[u].superClasses|
      ensures var s := Target(base, base[u].superClasses[j]);
              && s != u
              && Merged(Resolved(base, rank, u), Resolved(base, rank, s)) == Resolved(base, rank, u)
              && Merged(WithSupers(base, rank, u, j), Resolved(base, rank, s)) == WithSupers(base, rank, u, j + 1)
    {
      SuperIncluded(base, rank, u, j, |base[u].superClasses|);
    }

    method SetIfAbsent(u: string, p: string, spec: string)
      requires u in classTree
      modifies this
      ensures classTree == old(classTree)[u := old(classTree[u]).(specifications :=
                             Merged(old(classTree[u].specifications), map[p := spec]))]
    {
      var specs := classTree[u].specifications;
      if p !in specs {
        specs := specs[p := spec];
      }
      assert specs == Merged(classTree[u].specifications, map[p := spec]);
      classTree := classTree[u := classTree[u].(specifications := specs)];
    }

    /** The properties of one super class, in no particular order. */
    method MergeOne(u: string, s: string)
      requires u in classTree && s in classTree && u != s
      modifies this
      ensures classTree == old(classTree)[u := old(classTree[u]).(specifications :=
                             Merged(old(classTree[u].specifications), old(classTree[s].specifications)))]
    {
      hide Merged;
      ghost var own, more := classTree[u].specifications, classTree[s].specifications;
      var properties := classTree[s].specifications.Keys;
      ghost var done: set<string> := {};
      PartOfNothing(own, more);
      while properties != {}
        invariant properties + done == more.Keys && properties !! done
        invariant s in classTree && classTree[s] == old(classTree[s])
        invariant classTree == old(classTree)[u := old(classTree[u]).(specifications := Merged(own, Part(more, done)))]
        decreases properties
      {
        var p :| p in properties;
        properties := properties - {p};
        PartMore(own, more, done, p);
        SetIfAbsent(u, p, classTree[s].specifications[p]);
        done := done + {p};
      }
      assert done == more.Keys;
      assert Part(more, done) == more;
    }
  }

  ghost function Part(more: Specs, done: set<string>): Specs {
    map x | x in done && x in more :: more[x]
  }

  lemma PartOfNothing(own: Specs, more: Specs)
    ensures Merged(own, Part(more, {})) == own
  {
  }

  lemma PartMore(own: Specs, more: Specs, done: set<string>, p: string)
    requires p in more && p !in done
    ensures Merged(Merged(own, Part(more, done)), map[p := more[p]]) == Merged(own, Part(more, done + {p}))
  {
    assert Part(more, done + {p}) == map[p := more[p]] + Part(more, done);
    hide Part;
    assert map[p := more[p]] + (Part(more, done) + own) == (map[p := more[p]] + Part(more, done)) + own;
  }
}
