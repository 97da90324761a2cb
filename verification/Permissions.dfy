/** Permission sets as values, none of which holds the empty string. */
module Permissions {

  type PermissionSet = s: set<string> | "" !in s witness {}

  /** A set keeps each non-empty string it was given, once. */
  method Build(perms: seq<string>) returns (built: PermissionSet)
    ensures forall p :: p in built <==> p in perms && p != ""
  {
    built := {};
    for i := 0 to |perms|
      invariant forall p :: p in built <==> p in perms[..i] && p != ""
    {
      if perms[i] != "" {
        built := built + {perms[i]};
      }
    }
  }

  predicate InSome(p: string, sets: seq<PermissionSet>) {
    exists i | 0 <= i < |sets| :: p in sets[i]
  }

  method Union(first: PermissionSet, others: seq<PermissionSet>) returns (merged: PermissionSet)
    ensures forall p :: p in merged <==> p in first || InSome(p, others)
  {
    merged := first;
    for i := 0 to |others|
      invariant forall p :: p in merged <==> p in first || InSome(p, others[..i])
    {
      assert forall p :: InSome(p, others[..i + 1]) <==> InSome(p, others[..i]) || p in others[i] by {
        assert others[..i + 1] == others[..i] + [others[i]];
        assert forall p | p in others[i] :: p in others[..i + 1][i];
        assert forall j | 0 <= j < i :: others[..i][j] == others[..i + 1][j];
      }
      merged := merged + others[i];
    }
  }

  method IsSubsetOf(a: PermissionSet, b: PermissionSet) returns (subset: bool)
    ensures subset <==> a <= b
  {
    var pending := a;
    while pending != {}
      invariant pending <= a && a - pending <= b
    {
      var p :| p in pending;
      if p == "" || p !in b {
        return false;
      }
      pending := pending - {p};
    }
    return true;
  }

  /** Equal sizes and one inclusion are enough. */
  method Equals(a: PermissionSet, b: PermissionSet) returns (equal: bool)
    ensures equal <==> a == b
  {
    if |a| != |b| {
      return false;
    }
    equal := IsSubsetOf(a, b);
    if equal { SameSizeSubset(a, b); }
  }

  lemma SameSizeSubset<T>(a: set<T>, b: set<T>)
    requires a <= b && |a| == |b|
    ensures a == b
  {
    assert |b| == |a| + |b - a| by { assert b == a + (b - a); }
  }
}
