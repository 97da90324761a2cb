/** Policy validation, cycle detection and inheritance expansion. */
module Policy {
  import opened Wrappers
  import opened Inheritance
  import Text

  datatype Error =
    | EmptyRoleName
    | DuplicateRole(name: string)
    | SelfInheritance(name: string)
    | UnknownParent(name: string, parent: string)
    | InheritanceCycle(path: seq<string>)

  // ---- What validation means ----

  ghost predicate Named(roles: seq<Role>) {
    && (forall i | 0 <= i < |roles| :: roles[i].name != "")
    && (forall i, j | 0 <= i < j < |roles| :: roles[i].name != roles[j].name)
  }

  /** The graph of a list of roles; a later role would replace an earlier one of the same name. */
  function ByName(roles: seq<Role>): Graph {
    if roles == [] then map[] else ByName(roles[..|roles| - 1])[roles[|roles| - 1].name := roles[|roles| - 1]]
  }

  function Names(roles: seq<Role>): (names: seq<string>)
    ensures |names| == |roles| && forall i | 0 <= i < |roles| :: names[i] == roles[i].name
  {
    seq(|roles|, i requires 0 <= i < |roles| => roles[i].name)
  }

  ghost predicate WellFormed(roles: seq<Role>) {
    Named(roles) && Closed(ByName(roles)) && !Cyclic(ByName(roles))
  }

  lemma {:induction false} ByNameHolds(roles: seq<Role>)
    requires forall i, j | 0 <= i < j < |roles| :: roles[i].name != roles[j].name
    ensures forall i | 0 <= i < |roles| :: roles[i].name in ByName(roles) && ByName(roles)[roles[i].name] == roles[i]
    ensures forall a <- ByName(roles) :: exists i :: 0 <= i < |roles| && roles[i].name == a
  {
    if roles != [] {
      ByNameHolds(roles[..|roles| - 1]);
      forall a <- ByName(roles) ensures exists i :: 0 <= i < |roles| && roles[i].name == a {
        if a == roles[|roles| - 1].name {
        } else {
          assert a in ByName(roles[..|roles| - 1]);
          var i :| 0 <= i < |roles| - 1 && roles[..|roles| - 1][i].name == a;
          assert roles[i].name == a;
        }
      }
    }
  }

  // ---- The three-colour depth-first search ----

  datatype Mark = Visiting | Visited

  type Marks = map<string, Mark>

  datatype Found = Found(cycle: Option<seq<string>>, marks: Marks)

  function Search(g: Graph, marks: Marks, name: string, path: seq<string>): (v: Found)
    requires Closed(g) && name in g
    ensures marks.Keys <= v.marks.Keys
    decreases g.Keys - marks.Keys, 0
  {
    if name in marks then
      Found(if marks[name].Visiting? then Some(path + [name]) else None, marks)
    else
      assert name in g.Keys - marks.Keys;
      var v := SearchAll(g, marks[name := Visiting], g[name].inherits, path + [name]);
      if v.cycle.Some? then v else Found(None, v.marks[name := Visited])
  }

  function SearchAll(g: Graph, marks: Marks, names: seq<string>, path: seq<string>): (v: Found)
    requires Closed(g) && forall a <- names :: a in g
    ensures marks.Keys <= v.marks.Keys
    decreases g.Keys - marks.Keys, |names|
  {
    if names == [] then Found(None, marks)
    else
      var v := Search(g, marks, names[0], path);
      if v.cycle.Some? then v
      else
        assert g.Keys - v.marks.Keys <= g.Keys - marks.Keys;
        SearchAll(g, v.marks, names[1..], path)
  }

  /** The search state between two steps: the names on the current path are being visited, and the
      finished ones are listed parents first. */
  ghost predicate Consistent(g: Graph, marks: Marks, path: seq<string>, order: seq<string>) {
    && IsChain(g, path)
    && Topological(g, order)
    && (forall a <- marks :: if marks[a].Visiting? then a in path else a in order)
    && (forall a <- path :: a in g && a in marks && marks[a].Visiting?)
    && (forall a <- order :: a in marks && marks[a].Visited?)
  }

  lemma Enter(g: Graph, marks: Marks, name: string, path: seq<string>, order: seq<string>)
    requires Consistent(g, marks, path, order) && name in g && name !in marks
    requires path != [] ==> Edge(g, path[|path| - 1], name)
    ensures Consistent(g, marks[name := Visiting], path + [name], order)
  {
  }

  lemma Leave(g: Graph, marks: Marks, name: string, path: seq<string>, order: seq<string>)
    requires Consistent(g, marks, path + [name], order) && name !in path
    requires forall a | Edge(g, name, a) :: a in order
    ensures Consistent(g, marks[name := Visited], path, order + [name])
  {
    assert (path + [name])[|path|] == name;
    forall i | 0 < i < |path| ensures Edge(g, path[i - 1], path[i]) {
      assert Edge(g, (path + [name])[i - 1], (path + [name])[i]);
    }
    assert forall a <- path :: a in path + [name];
    assert forall i | 0 <= i <= |order| :: (order + [name])[..i] == order[..i];
  }

  lemma {:induction false} SearchCorrect(
      g: Graph, marks: Marks, name: string, path: seq<string>, order: seq<string>)
      returns (order': seq<string>)
    requires Closed(g) && name in g && Consistent(g, marks, path, order)
    requires path != [] ==> Edge(g, path[|path| - 1], name)
    ensures var v := Search(g, marks, name, path);
      if v.cycle.Some? then IsCycleReport(g, v.cycle.value)
      else Consistent(g, v.marks, path, order') && order <= order' && name in order'
    decreases g.Keys - marks.Keys, 0
  {
    order' := order;
    if name !in marks {
      assert name in g.Keys - marks.Keys;
      Enter(g, marks, name, path, order);
      order' := SearchAllCorrect(g, marks[name := Visiting], g[name].inherits, path + [name], order);
      var v := SearchAll(g, marks[name := Visiting], g[name].inherits, path + [name]);
      if v.cycle.None? {
        Leave(g, v.marks, name, path, order');
        order' := order' + [name];
      }
    } else if marks[name].Visiting? {
      assert (path + [name])[..|path|] == path;
    }
  }

  lemma {:induction false} SearchAllCorrect(
      g: Graph, marks: Marks, names: seq<string>, path: seq<string>, order: seq<string>)
      returns (order': seq<string>)
    requires Closed(g) && (forall a <- names :: a in g) && Consistent(g, marks, path, order)
    requires path != [] ==> forall a | a in names :: Edge(g, path[|path| - 1], a)
    ensures var v := SearchAll(g, marks, names, path);
      if v.cycle.Some? then IsCycleReport(g, v.cycle.value)
      else Consistent(g, v.marks, path, order') && order <= order' && forall a <- names :: a in order'
    decreases g.Keys - marks.Keys, |names|
  {
    order' := order;
    if names != [] {
      assert names[0] in names;
      var first := SearchCorrect(g, marks, names[0], path, order);
      var v := Search(g, marks, names[0], path);
      if v.cycle.None? {
        assert g.Keys - v.marks.Keys <= g.Keys - marks.Keys;
        assert forall a | a in names[1..] :: a in names;
        order' := SearchAllCorrect(g, v.marks, names[1..], path, first);
        assert forall a <- names :: a == names[0] || a in names[1..];
      }
    }
  }

  function FirstCycle(g: Graph, names: seq<string>): Option<seq<string>>
    requires Closed(g) && forall a <- Text.Sort(names) :: a in g
  {
    SearchAll(g, map[], Text.Sort(names), []).cycle
  }

  // ---- Which error a malformed policy gets ----

  /** The first role that is unnamed or repeats an earlier name is role `i`. */
  ghost predicate BadName(roles: seq<Role>, i: nat, e: Error) {
    && i < |roles| && Named(roles[..i])
    && if roles[i].name == "" then e == EmptyRoleName
       else e == DuplicateRole(roles[i].name) && roles[i].name in Names(roles[..i])
  }

  /** The first `k` parents of a role are defined and none of them is the role itself. */
  predicate ParentsFine(g: Graph, r: Role, k: nat)
    requires k <= |r.inherits|
  {
    forall l | 0 <= l < k :: r.inherits[l] in g && r.inherits[l] != r.name
  }

  predicate RolesFine(g: Graph, roles: seq<Role>) {
    forall i | 0 <= i < |roles| :: ParentsFine(g, roles[i], |roles[i].inherits|)
  }

  /** The first offending parent, role by role, is parent `k` of role `i`. */
  ghost predicate BadParent(g: Graph, roles: seq<Role>, i: nat, k: nat, e: Error) {
    && i < |roles| && k < |roles[i].inherits|
    && RolesFine(g, roles[..i]) && ParentsFine(g, roles[i], k)
    && var name, parent := roles[i].name, roles[i].inherits[k];
    if parent == name then e == SelfInheritance(name)
    else parent !in g && e == UnknownParent(name, parent)
  }

  /** The cycle the search meets first. */
  ghost predicate Reports(g: Graph, names: seq<string>, path: seq<string>) {
    && Closed(g) && (forall a <- Text.Sort(names) :: a in g)
    && FirstCycle(g, names) == Some(path) && IsCycleReport(g, path)
  }

  /** Names are checked before parents and parents before cycles; each check stops at the first
      offence. */
  ghost predicate Justified(roles: seq<Role>, e: Error) {
    match e
    case EmptyRoleName => exists i :: BadName(roles, i, e)
    case DuplicateRole(_) => exists i :: BadName(roles, i, e)
    case SelfInheritance(_) => Named(roles) && exists i, k :: BadParent(ByName(roles), roles, i, k, e)
    case UnknownParent(_, _) => Named(roles) && exists i, k :: BadParent(ByName(roles), roles, i, k, e)
    case InheritanceCycle(path) =>
      Named(roles) && RolesFine(ByName(roles), roles) && Reports(ByName(roles), Names(roles), path)
  }

  lemma BadNameUnique(roles: seq<Role>, i: nat, e: Error, j: nat, f: Error)
    requires BadName(roles, i, e) && BadName(roles, j, f)
    ensures !Named(roles) && e == f
  {
    BadNameBlocks(roles, i, e, roles);
    if i < j {
      assert roles[..j][..i] == roles[..i];
      BadNameBlocks(roles, i, e, roles[..j]);
    } else if j < i {
      assert roles[..i][..j] == roles[..j];
      BadNameBlocks(roles, j, f, roles[..i]);
    }
  }

  lemma BadNameBlocks(roles: seq<Role>, i: nat, e: Error, longer: seq<Role>)
    requires BadName(roles, i, e) && longer <= roles && i < |longer|
    ensures !Named(longer)
  {
    assert longer[i] == roles[i];
    if roles[i].name != "" {
      var j :| 0 <= j < i && Names(roles[..i])[j] == roles[i].name;
      assert longer[j] == roles[j];
    }
  }

  lemma BadParentUnique(g: Graph, roles: seq<Role>, i: nat, k: nat, e: Error, j: nat, l: nat, f: Error)
    requires BadParent(g, roles, i, k, e) && BadParent(g, roles, j, l, f)
    ensures !RolesFine(g, roles) && e == f
  {
  }

  /** Which check raised an error says which conditions hold. */
  lemma ErrorStage(roles: seq<Role>, e: Error)
    requires Justified(roles, e)
    ensures Named(roles) <==> !e.EmptyRoleName? && !e.DuplicateRole?
    ensures Named(roles) ==> (RolesFine(ByName(roles), roles) <==> e.InheritanceCycle?)
  {
    if e.EmptyRoleName? || e.DuplicateRole? {
      var i :| BadName(roles, i, e);
      BadNameUnique(roles, i, e, i, e);
    } else if !e.InheritanceCycle? {
      var i, k :| BadParent(ByName(roles), roles, i, k, e);
      BadParentUnique(ByName(roles), roles, i, k, e, i, k, e);
    }
  }

  /** A policy has at most one justified error: the one that comes first. */
  lemma ErrorDetermined(roles: seq<Role>, e: Error, f: Error)
    requires Justified(roles, e) && Justified(roles, f)
    ensures e == f
  {
    ErrorStage(roles, e);
    ErrorStage(roles, f);
    if !Named(roles) {
      var i :| BadName(roles, i, e);
      var j :| BadName(roles, j, f);
      BadNameUnique(roles, i, e, j, f);
    } else if !e.InheritanceCycle? {
      var i, k :| BadParent(ByName(roles), roles, i, k, e);
      var j, l :| BadParent(ByName(roles), roles, j, l, f);
      BadParentUnique(ByName(roles), roles, i, k, e, j, l, f);
    }
  }

  /** Detection is exact: it reports a cycle if and only if the graph has one, and what it reports
      is a genuine chain that runs into itself. */
  lemma FirstCycleExact(g: Graph, names: seq<string>)
    requires Closed(g) && (forall a :: a in names <==> a in g)
    ensures forall a <- Text.Sort(names) :: a in g
    ensures FirstCycle(g, names).None? <==> !Cyclic(g)
    ensures FirstCycle(g, names).Some? ==> IsCycleReport(g, FirstCycle(g, names).value)
  {
    SortKeeps(names);
    var order := SearchAllCorrect(g, map[], Text.Sort(names), [], []);
    var found := FirstCycle(g, names);
    if found.Some? {
      ReportHasCycle(g, found.value);
    } else {
      TopologicalAcyclic(g, order);
    }
  }

  lemma SortKeeps(names: seq<string>)
    ensures forall a :: a in Text.Sort(names) <==> a in names
  {
    Text.SortCorrect(names);
    forall a ensures a in Text.Sort(names) <==> a in names {
      assert a in multiset(Text.Sort(names)) <==> a in Text.Sort(names);
      assert a in multiset(names) <==> a in names;
    }
  }

  ghost predicate Distinct(xs: seq<string>) {
    forall i, j | 0 <= i < j < |xs| :: xs[i] != xs[j]
  }

  lemma {:induction false} DistinctOnce(xs: seq<string>, a: string)
    requires Distinct(xs)
    ensures multiset(xs)[a] == if a in xs then 1 else 0
  {
    if xs != [] {
      DistinctOnce(xs[1..], a);
      assert xs == [xs[0]] + xs[1..];
    }
  }

  lemma NamesAreKeys(roles: seq<Role>)
    requires Named(roles)
    ensures forall a :: a in Names(roles) <==> a in ByName(roles)
  {
    ByNameHolds(roles);
  }

  lemma HoldsOne(roles: seq<Role>, i: nat)
    requires Named(roles) && i < |roles|
    ensures roles[i].name in ByName(roles) && ByName(roles)[roles[i].name] == roles[i]
  {
    ByNameHolds(roles);
  }

  lemma Declared(roles: seq<Role>, a: string) returns (i: nat)
    requires Named(roles) && a in ByName(roles)
    ensures i < |roles| && roles[i].name == a && ByName(roles)[a] == roles[i]
  {
    ByNameHolds(roles);
    i :| i < |roles| && roles[i].name == a;
  }

  lemma PartOfGraph(roles: seq<Role>, roles': seq<Role>, a: string)
    requires Named(roles) && Named(roles') && forall r | r in roles :: r in roles'
    requires a in ByName(roles)
    ensures a in ByName(roles') && ByName(roles')[a] == ByName(roles)[a]
  {
    var i := Declared(roles, a);
    assert roles[i] in roles';
    var j :| 0 <= j < |roles'| && roles'[j] == roles[i];
    HoldsOne(roles', j);
  }

  lemma SameGraph(roles: seq<Role>, roles': seq<Role>)
    requires Named(roles) && Named(roles') && forall r :: r in roles <==> r in roles'
    ensures ByName(roles) == ByName(roles')
  {
    forall a ensures a in ByName(roles) <==> a in ByName(roles')
      ensures a in ByName(roles) && a in ByName(roles') ==> ByName(roles)[a] == ByName(roles')[a]
    {
      if a in ByName(roles) { PartOfGraph(roles, roles', a); }
      if a in ByName(roles') { PartOfGraph(roles', roles, a); }
    }
  }

  /** The report does not move between runs: it depends on the graph alone, not on the order the
      roles are declared in. */
  lemma ReportIsStable(roles: seq<Role>, roles': seq<Role>)
    requires Named(roles) && Named(roles') && Closed(ByName(roles))
    requires forall r :: r in roles <==> r in roles'
    ensures ByName(roles) == ByName(roles') && Text.Sort(Names(roles)) == Text.Sort(Names(roles'))
    ensures forall a <- Text.Sort(Names(roles)) :: a in ByName(roles)
    ensures FirstCycle(ByName(roles), Names(roles)) == FirstCycle(ByName(roles'), Names(roles'))
  {
    SameGraph(roles, roles');
    NamesAreKeys(roles);
    NamesAreKeys(roles');
    SortKeeps(Names(roles));
    forall a ensures multiset(Names(roles))[a] == multiset(Names(roles'))[a] {
      DistinctOnce(Names(roles), a);
      DistinctOnce(Names(roles'), a);
    }
    assert multiset(Names(roles)) == multiset(Names(roles'));
    Text.SortIdentifiesPermutations(Names(roles), Names(roles'));
  }

  /** Declaring the same roles in another order gives the same cycle error. */
  lemma CycleErrorIsStable(roles: seq<Role>, roles': seq<Role>, path: seq<string>)
    requires Named(roles') && forall r :: r in roles <==> r in roles'
    requires Justified(roles, InheritanceCycle(path))
    ensures Justified(roles', InheritanceCycle(path))
  {
    ReportIsStable(roles, roles');
    var g := ByName(roles);
    forall i | 0 <= i < |roles'| ensures ParentsFine(g, roles'[i], |roles'[i].inherits|) {
      assert roles'[i] in roles;
      var j :| 0 <= j < |roles| && roles[j] == roles'[i];
      assert ParentsFine(g, roles[j], |roles[j].inherits|);
    }
  }

  // ---- The code ----

  /** The depth-first search; its marks are shared by the whole search and updated in place. */
  class CycleDetector {
    const byName: Graph
    var state: Marks

    constructor (byName: Graph)
      ensures this.byName == byName && state == map[]
    {
      this.byName := byName;
      state := map[];
    }

    method Walk(name: string, path: seq<string>) returns (cycle: Option<seq<string>>)
      requires Closed(byName) && name in byName
      modifies this
      ensures Found(cycle, state) == Search(byName, old(state), name, path)
      decreases byName.Keys - state.Keys
    {
      if name in state {
        return if state[name] == Visiting then Some(path + [name]) else None;
      }
      assert name in byName.Keys - state.Keys;
      state := state[name := Visiting];
      var parents := byName[name].inherits;
      for i := 0 to |parents|
        invariant old(state).Keys + {name} <= state.Keys
        invariant SearchAll(byName, old(state)[name := Visiting], parents, path + [name])
               == SearchAll(byName, state, parents[i..], path + [name])
      {
        cycle := Walk(parents[i], path + [name]);
        if cycle.Some? {
          return;
        }
        assert parents[i..][1..] == parents[i + 1..];
      }
      state := state[name := Visited];
      cycle := None;
    }
  }

  /** Walks from every name in sorted order. */
  method DetectCycles(byName: Graph, names: seq<string>) returns (cycle: Option<seq<string>>)
    requires Closed(byName) && forall a <- Text.Sort(names) :: a in byName
    ensures cycle == FirstCycle(byName, names)
  {
    var detector := new CycleDetector(byName);
    var sorted := Text.Sort(names);
    for i := 0 to |sorted|
      invariant detector.byName == byName
      invariant SearchAll(byName, map[], sorted, []) == SearchAll(byName, detector.state, sorted[i..], [])
    {
      cycle := detector.Walk(sorted[i], []);
      if cycle.Some? {
        return;
      }
      assert sorted[i..][1..] == sorted[i + 1..];
    }
    cycle := None;
  }

  lemma {:induction false} NamesIn(roles: seq<Role>, name: string)
    ensures name in Names(roles) <==> name in ByName(roles)
  {
    if roles != [] {
      var n := |roles| - 1;
      NamesIn(roles[..n], name);
      assert Names(roles) == Names(roles[..n]) + [roles[n].name];
    }
  }

  lemma {:induction false} IndexStep(roles: seq<Role>, i: nat)
    requires i < |roles| && Named(roles[..i])
    ensures ByName(roles[..i + 1]) == ByName(roles[..i])[roles[i].name := roles[i]]
    ensures roles[i].name != "" && roles[i].name !in ByName(roles[..i]) ==> Named(roles[..i + 1])
    ensures roles[i].name == "" ==> BadName(roles, i, EmptyRoleName)
    ensures roles[i].name != "" && roles[i].name in ByName(roles[..i]) ==>
              BadName(roles, i, DuplicateRole(roles[i].name))
  {
    assert roles[..i + 1][..i] == roles[..i];
    NamesIn(roles[..i], roles[i].name);
    if roles[i].name != "" && roles[i].name !in ByName(roles[..i]) {
      forall j | 0 <= j < i ensures roles[j].name != roles[i].name && roles[j].name != "" {
        assert Names(roles[..i])[j] == roles[..i][j].name == roles[j].name;
      }
      NamedMore(roles, i);
    }
  }

  lemma NamedMore(roles: seq<Role>, i: nat)
    requires i < |roles| && Named(roles[..i]) && roles[i].name != ""
    requires forall j | 0 <= j < i :: roles[j].name != roles[i].name
    ensures Named(roles[..i + 1])
  {
    assert forall j | 0 <= j < i :: roles[..i + 1][j] == roles[..i][j] == roles[j];
  }

  /** Fails exactly when the names are faulty, and then at the first fault. */
  method IndexByName(roles: seq<Role>) returns (error: Option<Error>, byName: Graph)
    ensures error.None? <==> Named(roles)
    ensures error.None? ==> byName == ByName(roles)
    ensures error.Some? ==> Justified(roles, error.value) && !WellFormed(roles)
  {
    byName := map[];
    for i := 0 to |roles|
      invariant Named(roles[..i]) && byName == ByName(roles[..i])
    {
      IndexStep(roles, i);
      if roles[i].name == "" {
        BadNameUnique(roles, i, EmptyRoleName, i, EmptyRoleName);
        return Some(EmptyRoleName), byName;
      }
      if roles[i].name in byName {
        BadNameUnique(roles, i, DuplicateRole(roles[i].name), i, DuplicateRole(roles[i].name));
        return Some(DuplicateRole(roles[i].name)), byName;
      }
      byName := byName[roles[i].name := roles[i]];
    }
    assert roles[..|roles|] == roles;
    error := None;
  }

  lemma FineMeansClosed(roles: seq<Role>)
    requires Named(roles) && RolesFine(ByName(roles), roles)
    ensures Closed(ByName(roles))
  {
    ByNameHolds(roles);
    var g := ByName(roles);
    forall a <- g, b <- g[a].inherits ensures b in g {
      var i :| 0 <= i < |roles| && roles[i].name == a;
      assert ParentsFine(g, roles[i], |roles[i].inherits|);
    }
  }

  /** A faulty parent means the policy is not well-formed. */
  lemma BadParentMatters(roles: seq<Role>, i: nat, k: nat, e: Error)
    requires Named(roles) && BadParent(ByName(roles), roles, i, k, e)
    ensures Justified(roles, e) && !WellFormed(roles)
  {
    ByNameHolds(roles);
    var g, name := ByName(roles), roles[i].name;
    assert Edge(g, name, roles[i].inherits[k]);
    if roles[i].inherits[k] == name {
      assert IsCycle(g, [name, name]);
    }
  }

  /** Passes exactly when every parent is defined and no role names itself, and otherwise stops at
      the first offending parent. */
  method CheckParents(roles: seq<Role>, byName: Graph) returns (error: Option<Error>)
    requires Named(roles) && byName == ByName(roles)
    ensures error.None? <==> RolesFine(byName, roles)
    ensures error.Some? ==> Justified(roles, error.value) && !WellFormed(roles)
  {
    for i := 0 to |roles|
      invariant RolesFine(byName, roles[..i])
    {
      var name, parents := roles[i].name, roles[i].inherits;
      for k := 0 to |parents|
        invariant ParentsFine(byName, roles[i], k)
      {
        if parents[k] == name {
          BadParentMatters(roles, i, k, SelfInheritance(name));
          return Some(SelfInheritance(name));
        }
        if parents[k] !in byName {
          BadParentMatters(roles, i, k, UnknownParent(name, parents[k]));
          return Some(UnknownParent(name, parents[k]));
        }
      }
      assert roles[..i + 1] == roles[..i] + [roles[i]];
    }
    assert roles[..|roles|] == roles;
    error := None;
  }

  /** Validation is exact: it accepts precisely the well-formed policies, and rejects every other with
      the one error that comes first. */
  method ValidateRoles(roles: seq<Role>) returns (error: Option<Error>)
    ensures error.None? <==> WellFormed(roles)
    ensures error.Some? ==> Justified(roles, error.value)
  {
    var byName: Graph;
    error, byName := IndexByName(roles);
    if error.Some? {
      return;
    }
    error := CheckParents(roles, byName);
    if error.Some? {
      return;
    }
    FineMeansClosed(roles);
    NamesAreKeys(roles);
    FirstCycleExact(byName, Names(roles));
    var cycle := DetectCycles(byName, Names(roles));
    error := if cycle.Some? then Some(InheritanceCycle(cycle.value)) else None;
  }
}
