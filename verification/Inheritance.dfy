/** The role inheritance graph: what a chain, a cycle and the permissions granted mean, stated
    without reference to how the policy code computes them. */
module Inheritance {

  datatype Role = Role(name: string, permissions: seq<string>, inherits: seq<string>)

  type Graph = map<string, Role>

  predicate Edge(g: Graph, a: string, b: string) {
    a in g && b in g[a].inherits
  }

  /** Every parent is defined. */
  ghost predicate Closed(g: Graph) {
    forall a <- g, b <- g[a].inherits :: b in g
  }

  ghost predicate IsChain(g: Graph, p: seq<string>) {
    forall i | 0 < i < |p| :: Edge(g, p[i - 1], p[i])
  }

  ghost predicate Connects(g: Graph, p: seq<string>, a: string, b: string) {
    |p| > 0 && IsChain(g, p) && p[0] == a && p[|p| - 1] == b
  }

  ghost predicate Reaches(g: Graph, a: string, b: string) {
    exists p :: Connects(g, p, a, b)
  }

  ghost predicate IsCycle(g: Graph, p: seq<string>) {
    |p| > 1 && Connects(g, p, p[0], p[0])
  }

  ghost predicate Cyclic(g: Graph) {
    exists p :: IsCycle(g, p)
  }

  /** A chain of `inherits` edges whose last name already occurs earlier in it. */
  ghost predicate IsCycleReport(g: Graph, p: seq<string>) {
    |p| > 1 && IsChain(g, p) && p[|p| - 1] in p[..|p| - 1]
  }

  /** A role is granted the non-empty permissions of every role it reaches, itself included. */
  ghost predicate Grants(g: Graph, a: string, perm: string) {
    perm != "" && exists b :: b in g && Reaches(g, a, b) && perm in g[b].permissions
  }

  ghost predicate IsClosure(g: Graph, a: string, perms: set<string>) {
    forall perm :: perm in perms <==> Grants(g, a, perm)
  }

  /** Listed so that parents come before the roles that inherit from them. */
  ghost predicate Topological(g: Graph, order: seq<string>) {
    && (forall i | 0 <= i < |order| :: order[i] in g && order[i] !in order[..i])
    && (forall i, b | 0 <= i < |order| && Edge(g, order[i], b) :: b in order[..i])
  }

  lemma ReportHasCycle(g: Graph, p: seq<string>)
    requires IsCycleReport(g, p)
    ensures Cyclic(g)
  {
    var i :| 0 <= i < |p| - 1 && p[i] == p[|p| - 1];
    assert IsCycle(g, p[i..]);
  }

  lemma {:induction false} ChainDescends(g: Graph, order: seq<string>, p: seq<string>, k: nat)
    requires Topological(g, order) && |p| > 1 && IsChain(g, p)
    requires k < |order| && order[k] == p[0]
    ensures p[|p| - 1] in order[..k]
    decreases |p|
  {
    assert Edge(g, p[0], p[1]);
    var j :| 0 <= j < k && order[j] == p[1];
    if |p| > 2 {
      forall i | 0 < i < |p[1..]| ensures Edge(g, p[1..][i - 1], p[1..][i]) {
        assert Edge(g, p[i], p[i + 1]);
      }
      ChainDescends(g, order, p[1..], j);
    }
  }

  /** A graph that can be listed parents first has no cycle. */
  lemma TopologicalAcyclic(g: Graph, order: seq<string>)
    requires Topological(g, order) && forall a <- g :: a in order
    ensures !Cyclic(g)
  {
    forall p | IsCycle(g, p) ensures false {
      assert Edge(g, p[0], p[1]);
      var k :| 0 <= k < |order| && order[k] == p[0];
      ChainDescends(g, order, p, k);
    }
  }

  lemma ChainExtends(g: Graph, a: string, p: seq<string>, b: string)
    requires Edge(g, a, b) && |p| > 0 && IsChain(g, p) && p[0] == b
    ensures IsChain(g, [a] + p)
  {
    forall i | 0 < i < |p| + 1 ensures Edge(g, ([a] + p)[i - 1], ([a] + p)[i]) {
      if i > 1 { assert Edge(g, p[i - 2], p[i - 1]); }
    }
  }

  lemma GrantedByParent(g: Graph, a: string, b: string, perm: string)
    requires Edge(g, a, b) && Grants(g, b, perm)
    ensures Grants(g, a, perm)
  {
    var c :| c in g && Reaches(g, b, c) && perm in g[c].permissions;
    var p :| Connects(g, p, b, c);
    ChainExtends(g, a, p, b);
    assert Connects(g, [a] + p, a, c);
  }

  lemma GrantedDirectly(g: Graph, a: string, perm: string)
    requires a in g && perm in g[a].permissions && perm != ""
    ensures Grants(g, a, perm)
  {
    assert Connects(g, [a], a, a);
  }

  /** A role is granted exactly what it lists and what its parents are granted. */
  lemma GrantsUnfold(g: Graph, a: string, perm: string)
    requires a in g
    ensures Grants(g, a, perm) <==>
            || (perm != "" && perm in g[a].permissions)
            || (exists b :: b in g[a].inherits && Grants(g, b, perm))
  {
    if Grants(g, a, perm) && perm !in g[a].permissions {
      var c :| c in g && Reaches(g, a, c) && perm in g[c].permissions;
      var p :| Connects(g, p, a, c);
      assert Edge(g, p[0], p[1]);
      forall i | 0 < i < |p[1..]| ensures Edge(g, p[1..][i - 1], p[1..][i]) {
        assert Edge(g, p[i], p[i + 1]);
      }
      assert Connects(g, p[1..], p[1], c);
      assert p[1] in g[a].inherits && Grants(g, p[1], perm);
    }
    if perm != "" && perm in g[a].permissions { GrantedDirectly(g, a, perm); }
    forall b | b in g[a].inherits && Grants(g, b, perm) ensures Grants(g, a, perm) {
      GrantedByParent(g, a, b, perm);
    }
  }
}
