/** Inheritance expansion: the memoised recursion that turns a policy into effective permission
    sets. */
module Expansion {
  import opened Wrappers
  import opened Permissions
  import opened Inheritance
  import Policy

  /** The memo table. An entry is written before its parents are resolved and updated as each one
      returns, so entries of names still on the call stack are incomplete. */
  class Expander {
    const byName: Graph
    var expanded: map<string, PermissionSet>

    constructor (byName: Graph)
      ensures this.byName == byName && expanded == map[]
    {
      this.byName := byName;
      expanded := map[];
    }

    ghost predicate Valid(stack: seq<string>)
      reads this
    {
      Closed(byName) && !Cyclic(byName) && Complete(byName, expanded, stack)
    }

    method Resolve(name: string, ghost stack: seq<string>) returns (perms: PermissionSet)
      requires Valid(stack) && name in byName && IsChain(byName, stack + [name])
      modifies this
      ensures Valid(stack)
      ensures IsClosure(byName, name, perms)
      ensures name in expanded && expanded[name] == perms
      ensures forall a <- old(expanded) :: a in expanded && expanded[a] == old(expanded)[a]
      decreases byName.Keys - expanded.Keys
    {
      if name in expanded {
        NotOnStack(byName, name, stack);
        return expanded[name];
      }
      assert name in byName.Keys - expanded.Keys;
      var parents := byName[name].inherits;
      perms := Build(byName[name].permissions);
      Enters(byName, expanded, stack, name, perms);
      expanded := expanded[name := perms];
      for i := 0 to |parents|
        invariant Valid(stack + [name])
        invariant name in expanded && expanded[name] == perms
        invariant forall a <- old(expanded) :: a in expanded && expanded[a] == old(expanded)[a]
        invariant IsCollected(byName, name, i, perms)
      {
        assert Edge(byName, (stack + [name])[|stack|], parents[i]);
        var inherited := Resolve(parents[i], stack + [name]);
        ghost var own := perms;
        perms := Union(perms, [inherited]);
        CollectedGrows(byName, name, i, own, inherited, perms);
        Updates(byName, expanded, stack + [name], name, perms);
        expanded := expanded[name := perms];
      }
      CollectedAll(byName, name, perms);
      Leaves(byName, expanded, stack, name);
    }
  }

  /** Every entry is complete except those of the calls in progress, `stack`. */
  ghost predicate Complete(g: Graph, expanded: map<string, PermissionSet>, stack: seq<string>) {
    && (forall a <- stack :: a in expanded)
    && (forall a <- expanded :: a in g && (a in stack || IsClosure(g, a, expanded[a])))
  }

  lemma Enters(
      g: Graph, expanded: map<string, PermissionSet>, stack: seq<string>, name: string, perms: PermissionSet)
    requires Complete(g, expanded, stack) && name in g && name !in expanded
    ensures Complete(g, expanded[name := perms], stack + [name])
  {
    assert (stack + [name])[|stack|] == name;
    assert forall a <- stack :: a in stack + [name];
  }

  lemma Updates(
      g: Graph, expanded: map<string, PermissionSet>, stack: seq<string>, name: string, perms: PermissionSet)
    requires Complete(g, expanded, stack) && name in stack
    ensures Complete(g, expanded[name := perms], stack)
  {
  }

  lemma Leaves(g: Graph, expanded: map<string, PermissionSet>, stack: seq<string>, name: string)
    requires Complete(g, expanded, stack + [name])
    requires name in expanded && IsClosure(g, name, expanded[name])
    ensures Complete(g, expanded, stack)
  {
    assert forall a <- stack :: a in stack + [name];
  }

  /** Granted by the role itself or by one of its first `n` parents. */
  ghost predicate Collected(g: Graph, name: string, n: nat, perm: string)
    requires name in g && n <= |g[name].inherits|
  {
    || (perm != "" && perm in g[name].permissions)
    || exists i | 0 <= i < n :: Grants(g, g[name].inherits[i], perm)
  }

  ghost predicate IsCollected(g: Graph, name: string, n: nat, perms: PermissionSet)
    requires name in g && n <= |g[name].inherits|
  {
    forall p :: p in perms <==> Collected(g, name, n, p)
  }

  lemma CollectedGrows(
      g: Graph, name: string, n: nat, own: PermissionSet, inherited: PermissionSet, merged: PermissionSet)
    requires name in g && n < |g[name].inherits|
    requires IsCollected(g, name, n, own) && IsClosure(g, g[name].inherits[n], inherited)
    requires forall p :: p in merged <==> p in own || InSome(p, [inherited])
    ensures IsCollected(g, name, n + 1, merged)
  {
    assert [inherited][0] == inherited;
  }

  lemma CollectedAll(g: Graph, name: string, perms: PermissionSet)
    requires name in g && IsCollected(g, name, |g[name].inherits|, perms)
    ensures IsClosure(g, name, perms)
  {
    forall p ensures p in perms <==> Grants(g, name, p) {
      GrantsUnfold(g, name, p);
    }
  }

  /** In an acyclic graph the recursion never comes back to a name still being resolved, so a memo
      hit is always a complete entry. */
  lemma NotOnStack(g: Graph, name: string, stack: seq<string>)
    requires !Cyclic(g) && IsChain(g, stack + [name])
    ensures name !in stack
  {
    if name in stack {
      var p := stack + [name];
      assert p[..|p| - 1] == stack;
      ReportHasCycle(g, p);
    }
  }

  /** Expansion maps each role of an accepted policy to exactly the permissions of all roles it
      reaches, and rejects every other policy. */
  method ExpandInheritance(roles: seq<Role>)
      returns (result: Result<map<string, PermissionSet>, Policy.Error>)
    ensures result.Ok? <==> Policy.WellFormed(roles)
    ensures result.Ok? ==>
              && result.value.Keys == Policy.ByName(roles).Keys
              && forall a <- result.value :: IsClosure(Policy.ByName(roles), a, result.value[a])
    ensures result.Err? ==> Policy.Justified(roles, result.error)
  {
    var error := Policy.ValidateRoles(roles);
    if error.Some? {
      return Err(error.value);
    }
    Policy.ByNameHolds(roles);
    var expander := new Expander(Policy.ByName(roles));
    for i := 0 to |roles|
      invariant expander.byName == Policy.ByName(roles) && expander.Valid([])
      invariant forall j | 0 <= j < i :: roles[j].name in expander.expanded
    {
      var _ := expander.Resolve(roles[i].name, []);
    }
    return Ok(expander.expanded);
  }
}
