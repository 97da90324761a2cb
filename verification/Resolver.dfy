/** The resolver over a fixed policy, which memoises the union it computed for a list of roles. */
module Resolver {
  import opened Wrappers
  import opened Permissions
  import opened Inheritance
  import Expansion
  import Policy
  import Text

  const NUL := '\0'

  function MemoKey(roles: seq<string>): string {
    Text.Join(Text.Sort(roles), [NUL])
  }

  predicate NulFree(roles: seq<string>) {
    Text.Lacks(roles, NUL)
  }

  type Expanded = map<string, PermissionSet>

  predicate GrantedBy(expanded: Expanded, roles: seq<string>, perm: string) {
    exists r :: r in roles && r in expanded && perm in expanded[r]
  }

  /** Exactly the permissions of the known names in the list; unknown names contribute nothing. */
  ghost predicate IsUnion(expanded: Expanded, roles: seq<string>, perms: set<string>) {
    forall p :: p in perms <==> GrantedBy(expanded, roles, p)
  }

  /** For NUL-free names the memo key identifies two lists exactly when each is a permutation of
      the other. */
  lemma MemoKeyIdentifiesPermutations(a: seq<string>, b: seq<string>)
    requires a != [] && b != [] && NulFree(a) && NulFree(b)
    ensures MemoKey(a) == MemoKey(b) <==> multiset(a) == multiset(b)
  {
    Text.SortIdentifiesPermutations(a, b);
    KeySplits(a);
    KeySplits(b);
  }

  lemma KeySplits(a: seq<string>)
    requires a != [] && NulFree(a)
    ensures Text.Split(MemoKey(a), NUL) == Text.Sort(a)
  {
    Policy.SortKeeps(a);
    Text.SortCorrect(a);
    assert |Text.Sort(a)| == |multiset(Text.Sort(a))| == |a|;
    forall i | 0 <= i < |Text.Sort(a)| ensures NUL !in Text.Sort(a)[i] {
      assert Text.Sort(a)[i] in Text.Sort(a);
    }
    Text.SplitJoin(Text.Sort(a), NUL);
  }

  /** For any names, NUL or not, two lists share a key exactly when their sorted names, cut at every
      NUL, are the same pieces in the same order. */
  lemma MemoKeyExact(a: seq<string>, b: seq<string>)
    requires a != [] && b != []
    ensures MemoKey(a) == MemoKey(b) <==> Text.Pieces(Text.Sort(a), NUL) == Text.Pieces(Text.Sort(b), NUL)
  {
    SortNonEmpty(a);
    SortNonEmpty(b);
    Text.SplitJoinPieces(Text.Sort(a), NUL);
    Text.SplitJoinPieces(Text.Sort(b), NUL);
    Text.JoinSplit(MemoKey(a), NUL);
    Text.JoinSplit(MemoKey(b), NUL);
  }

  lemma SortNonEmpty(a: seq<string>)
    requires a != []
    ensures Text.Sort(a) != []
  {
    Text.SortCorrect(a);
    assert |multiset(Text.Sort(a))| == |Text.Sort(a)| && |multiset(a)| == |a|;
  }

  lemma PermutationsAgree(expanded: Expanded, a: seq<string>, b: seq<string>, perms: set<string>)
    requires multiset(a) == multiset(b) && IsUnion(expanded, a, perms)
    ensures IsUnion(expanded, b, perms)
  {
    forall r ensures r in a <==> r in b {
      assert r in multiset(a) <==> r in multiset(b);
    }
  }

  lemma KeyOfSortedPair(first: string, second: string)
    requires Text.Leq(first, second)
    ensures MemoKey([first, second]) == first + [NUL] + second
  {
    var pair := [first, second];
    assert pair[1..] == [second];
    assert Text.Sort([second]) == [second];
    assert Text.Sort(pair) == pair;
    assert Text.Join([second], [NUL]) == second;
  }

  /** A name holding the separator makes different lists share a key, though they are granted
      different permissions. */
  lemma NulMakesKeysCollide(expanded: Expanded)
    requires expanded == map["c" := {"write"}]
    ensures MemoKey(["a\0b", "c"]) == MemoKey(["a", "b\0c"])
    ensures IsUnion(expanded, ["a\0b", "c"], {"write"}) && !IsUnion(expanded, ["a", "b\0c"], {"write"})
  {
    KeyOfSortedPair("a\0b", "c");
    KeyOfSortedPair("a", "b\0c");
    assert "a\0b" + [NUL] + "c" == "a" + [NUL] + "b\0c";
    var listed := ["a\0b", "c"];
    assert listed[1] == "c";
    assert "c" in listed && "c" in expanded && "write" in expanded["c"];
    assert GrantedBy(expanded, listed, "write");
    assert "c" !in ["a", "b\0c"] by {
      assert |"b\0c"| == 3;
    }
    assert !GrantedBy(expanded, ["a", "b\0c"], "write");
  }

  /** What the policy itself grants the names: everything any of them reaches. */
  ghost predicate IsGranted(policy: Graph, roles: seq<string>, perms: set<string>) {
    forall p :: p in perms <==> exists r :: r in roles && r in policy && Grants(policy, r, p)
  }

  /** The expanded table holds every role of the policy, with exactly what the policy grants it. */
  ghost predicate Expands(policy: Graph, expanded: Expanded) {
    expanded.Keys == policy.Keys && forall a <- expanded :: IsClosure(policy, a, expanded[a])
  }

  /** Over a true expansion, the exact union is what the policy grants. */
  lemma UnionOfClosures(policy: Graph, expanded: Expanded, roles: seq<string>, perms: set<string>)
    requires Expands(policy, expanded) && IsUnion(expanded, roles, perms)
    ensures IsGranted(policy, roles, perms)
  {
    forall p ensures p in perms <==> exists r :: r in roles && r in policy && Grants(policy, r, p) {
      if p in perms {
        var r :| r in roles && r in expanded && p in expanded[r];
        assert Grants(policy, r, p);
      }
      if r :| r in roles && r in policy && Grants(policy, r, p) {
        assert p in expanded[r];
      }
    }
  }

  class StaticPolicyResolver {
    const expanded: Expanded
    var memo: map<string, PermissionSet>
    /** The policy behind the table. */
    ghost const policy: Graph
    /** Every list resolved so far. */
    ghost var asked: seq<seq<string>>

    ghost predicate Answers(roles: seq<string>, key: string, perms: PermissionSet) {
      |roles| > 1 && MemoKey(roles) == key && IsUnion(expanded, roles, perms)
    }

    ghost predicate Valid()
      reads this
    {
      && Expands(policy, expanded)
      && forall key <- memo :: exists i :: 0 <= i < |asked| && Answers(asked[i], key, memo[key])
    }

    constructor (expanded: Expanded, ghost policy: Graph)
      requires Expands(policy, expanded)
      ensures Valid() && this.expanded == expanded && this.policy == policy
      ensures asked == [] && memo == map[]
    {
      this.expanded, this.policy := expanded, policy;
      memo, asked := map[], [];
    }

    function Known(roles: seq<string>): (sets: seq<PermissionSet>)
      ensures forall p :: InSome(p, sets) <==> GrantedBy(expanded, roles, p)
    {
      if roles == [] then []
      else
        var rest := Known(roles[1..]);
        assert forall p :: GrantedBy(expanded, roles, p) <==>
            GrantedBy(expanded, roles[1..], p) || (roles[0] in expanded && p in expanded[roles[0]]);
        if roles[0] !in expanded then rest
        else
          var sets := [expanded[roles[0]]] + rest;
          assert forall p :: p in sets[0] ==> InSome(p, sets);
          assert forall i | 0 <= i < |rest| :: sets[i + 1] == rest[i];
          assert forall p :: InSome(p, sets) <==> p in expanded[roles[0]] || InSome(p, rest);
          sets
    }

    /** Memo transparency: the answer is the exact union as long as no name ever asked about holds
        the separator, and in any case the union for some list asked so far that shares the key. */
    method Resolve(roles: seq<string>) returns (perms: PermissionSet)
      requires Valid()
      modifies this
      ensures Valid() && asked == old(asked) + [roles]
      ensures |roles| <= 1 ==> IsUnion(expanded, roles, perms) && memo == old(memo)
      ensures |roles| > 1 ==>
                if MemoKey(roles) in old(memo) then perms == old(memo)[MemoKey(roles)] && memo == old(memo)
                else IsUnion(expanded, roles, perms) && memo == old(memo)[MemoKey(roles) := perms]
      ensures |roles| > 1 ==> exists i :: 0 <= i < |asked| && Answers(asked[i], MemoKey(roles), perms)
      ensures (forall i | 0 <= i < |asked| :: NulFree(asked[i])) ==> IsUnion(expanded, roles, perms)
    {
      ghost var before := asked;
      asked := asked + [roles];
      assert forall i | 0 <= i < |before| :: asked[i] == before[i];
      assert Valid();
      if |roles| == 0 {
        return {};
      }
      if |roles| == 1 {
        assert forall p :: GrantedBy(expanded, roles, p) <==> roles[0] in expanded && p in expanded[roles[0]];
        return if roles[0] in expanded then expanded[roles[0]] else {};
      }
      var key := MemoKey(roles);
      if key in memo {
        perms := memo[key];
        ghost var i :| 0 <= i < |before| && Answers(before[i], key, perms);
        assert Answers(asked[i], key, perms);
        if forall j | 0 <= j < |asked| :: NulFree(asked[j]) {
          assert asked[|asked| - 1] == roles;
          MemoKeyIdentifiesPermutations(asked[i], roles);
          PermutationsAgree(expanded, asked[i], roles, perms);
        }
        return;
      }
      perms := Union({}, Known(roles));
      memo := memo[key := perms];
      assert Answers(asked[|asked| - 1], key, perms);
    }

    /** The same for callers of the asynchronous interface: exactly what the policy grants the names,
        by reachability, whatever was asked before. */
    method PermissionsForRoles(roles: seq<string>) returns (perms: PermissionSet)
      requires Valid()
      modifies this
      ensures Valid() && asked == old(asked) + [roles]
      ensures (forall i | 0 <= i < |asked| :: NulFree(asked[i])) ==> IsGranted(policy, roles, perms)
    {
      perms := Resolve(roles);
      if forall i | 0 <= i < |asked| :: NulFree(asked[i]) {
        UnionOfClosures(policy, expanded, roles, perms);
      }
    }
  }

  /** A resolver exists exactly for well-formed policies; it serves that policy and has been asked
      nothing. */
  method Create(roles: seq<Role>) returns (resolver: Result<StaticPolicyResolver, Policy.Error>)
    ensures resolver.Ok? <==> Policy.WellFormed(roles)
    ensures resolver.Err? ==> Policy.Justified(roles, resolver.error)
    ensures resolver.Ok? ==>
              && fresh(resolver.value) && resolver.value.Valid()
              && resolver.value.policy == Policy.ByName(roles)
              && resolver.value.asked == [] && resolver.value.memo == map[]
  {
    var expansion := Expansion.ExpandInheritance(roles);
    if expansion.Err? {
      return Err(expansion.error);
    }
    var created := new StaticPolicyResolver(expansion.value, Policy.ByName(roles));
    return Ok(created);
  }

  /** End to end: a first question put to a new resolver over a well-formed policy. */
  method Ask(roles: seq<Role>, names: seq<string>) returns (perms: Option<PermissionSet>)
    ensures perms.Some? <==> Policy.WellFormed(roles)
    ensures perms.Some? && NulFree(names) ==> IsGranted(Policy.ByName(roles), names, perms.value)
  {
    var resolver := Create(roles);
    if resolver.Err? { return None; }
    var answer := resolver.value.PermissionsForRoles(names);
    return Some(answer);
  }

  /** When the memo misleads: after a first list, a second is answered rightly if and only if the two
      do not share a key, or the first one's permissions happen to be the second's too. */
  method AskTwice(resolver: StaticPolicyResolver, a: seq<string>, b: seq<string>)
    returns (first: PermissionSet, second: PermissionSet)
    requires resolver.Valid() && resolver.memo == map[] && |a| > 1 && |b| > 1
    modifies resolver
    ensures IsUnion(resolver.expanded, a, first)
    ensures MemoKey(a) == MemoKey(b) ==> second == first
    ensures IsUnion(resolver.expanded, b, second)
       <==> MemoKey(a) != MemoKey(b) || IsUnion(resolver.expanded, b, first)
  {
    first := resolver.Resolve(a);
    second := resolver.Resolve(b);
  }

  /** A policy and a question answered with permissions none of its names has. */
  method Mislead() returns (policy: Graph, names: seq<string>, answer: PermissionSet)
    ensures policy == map["c" := Role("c", ["write"], [])] && names == ["a", "b\0c"]
    ensures answer == {"write"} && !IsGranted(policy, names, answer)
  {
    var listed := ["a\0b", "c"];
    policy, names := map["c" := Role("c", ["write"], [])], ["a", "b\0c"];
    answer := AnswerAfter(policy, listed, names);
    NoneGranted(policy, names);
  }

  method AnswerAfter(policy: Graph, listed: seq<string>, names: seq<string>) returns (answer: PermissionSet)
    requires policy == map["c" := Role("c", ["write"], [])]
    requires listed == ["a\0b", "c"] && names == ["a", "b\0c"]
    ensures answer == {"write"}
  {
    var expanded: Expanded := map["c" := {"write"}];
    OneRole(policy);
    NulMakesKeysCollide(expanded);
    var resolver := new StaticPolicyResolver(expanded, policy);
    var first;
    first, answer := AskTwice(resolver, listed, names);
    SameUnion(expanded, listed, first, {"write"});
  }

  lemma SameUnion(expanded: Expanded, roles: seq<string>, a: set<string>, b: set<string>)
    requires IsUnion(expanded, roles, a) && IsUnion(expanded, roles, b)
    ensures a == b
  {
  }

  lemma OneRole(policy: Graph)
    requires policy == map["c" := Role("c", ["write"], [])]
    ensures Expands(policy, map["c" := {"write"}])
  {
    forall p ensures p in {"write"} <==> Grants(policy, "c", p) {
      GrantsUnfold(policy, "c", p);
      assert p in ["write"] <==> p == "write";
    }
  }

  lemma NoneGranted(policy: Graph, names: seq<string>)
    requires policy.Keys == {"c"} && names == ["a", "b\0c"]
    ensures !IsGranted(policy, names, {"write"})
  {
    assert "c" !in names by {
      assert |"b\0c"| == 3;
    }
    assert "write" in {"write"};
  }
}
