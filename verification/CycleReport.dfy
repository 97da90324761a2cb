/** Which cycle is reported, said without the search: start at the first name, in sorted order, from
    which a cycle can be reached; go on each time to the first parent listed from which one can; stop at
    the first name met again. */
module CycleReport {
  import opened Wrappers
  import opened Inheritance
  import opened Policy
  import Text

  /** A cycle can be reached from the name. */
  ghost predicate Doomed(g: Graph, a: string) {
    exists p :: IsCycleReport(g, p) && p[0] == a
  }

  /** The first of the names from which a cycle can be reached. */
  ghost predicate FirstDoomed(g: Graph, names: seq<string>, a: string) {
    exists k | 0 <= k < |names| :: names[k] == a && Doomed(g, a) && NoneDoomed(g, names[..k])
  }

  ghost predicate NoneDoomed(g: Graph, names: seq<string>) {
    forall a <- names :: !Doomed(g, a)
  }

  ghost predicate GoesOn(g: Graph, a: string, b: string) {
    a in g && FirstDoomed(g, g[a].inherits, b)
  }

  /** From place `n` on each name is the first doomed parent of the one before it. */
  ghost predicate Follows(g: Graph, path: seq<string>, n: nat) {
    forall i | n <= i < |path| - 1 :: GoesOn(g, path[i], path[i + 1])
  }

  /** The path ends with the first name met again. */
  ghost predicate StopsAtRepeat(path: seq<string>) {
    |path| > 1 && Distinct(path[..|path| - 1]) && path[|path| - 1] in path[..|path| - 1]
  }

  ghost predicate IsFirstReport(g: Graph, names: seq<string>, path: seq<string>) {
    StopsAtRepeat(path) && FirstDoomed(g, Text.Sort(names), path[0]) && Follows(g, path, 0)
  }

  // ---- Where cycles can be reached from ----

  lemma ListedIsSafe(g: Graph, order: seq<string>, a: string)
    requires Topological(g, order) && a in order
    ensures !Doomed(g, a)
  {
    forall p | IsCycleReport(g, p) && p[0] == a ensures false {
      var i :| 0 <= i < |p| - 1 && p[i] == p[|p| - 1];
      var k :| 0 <= k < |order| && order[k] == a;
      if i > 0 {
        assert IsChain(g, p[..i + 1]);
        ChainDescends(g, order, p[..i + 1], k);
        k :| 0 <= k < |order| && order[k] == p[i];
      }
      ChainDescends(g, order, p[i..], k);
    }
  }

  lemma ChainAround(g: Graph, p: seq<string>, n: nat, i: nat)
    requires IsChain(g, p) && i < n < |p| && p[i] == p[|p| - 1]
    ensures IsChain(g, p[n..] + p[i + 1..])
  {
    var q, m := p[n..] + p[i + 1..], |p| - n;
    forall j | 0 < j < |q| ensures Edge(g, q[j - 1], q[j]) {
      if j < m {
        assert Edge(g, p[n + j - 1], p[n + j]);
      } else {
        assert Edge(g, p[i + j - m], p[i + j - m + 1]);
      }
    }
  }

  lemma ChainFrom(g: Graph, p: seq<string>, n: nat)
    requires IsChain(g, p) && n <= |p|
    ensures IsChain(g, p[n..])
  {
    forall j | 0 < j < |p[n..]| ensures Edge(g, p[n..][j - 1], p[n..][j]) {
      assert Edge(g, p[n + j - 1], p[n + j]);
    }
  }

  /** Every name of a report is doomed. */
  lemma ReportIsDoomed(g: Graph, p: seq<string>, n: nat)
    requires IsCycleReport(g, p) && n < |p|
    ensures Doomed(g, p[n])
  {
    var last := |p| - 1;
    var i :| 0 <= i < last && p[i] == p[last];
    if n <= i || n == last {
      var m := if n <= i then n else i;
      ChainFrom(g, p, m);
      assert p[m..][i - m] == p[last];
      assert IsCycleReport(g, p[m..]);
    } else {
      var q := p[n..] + p[i + 1..];
      ChainAround(g, p, n, i);
      assert q[last - n] == p[last] == q[|q| - 1];
      assert IsCycleReport(g, q);
    }
  }

  // ---- The search reports that cycle ----

  /** What the search has found below `path`. */
  ghost predicate FoundBelow(g: Graph, path: seq<string>, cycle: seq<string>) {
    path <= cycle && |path| < |cycle| && StopsAtRepeat(cycle) && Follows(g, cycle, |path|)
  }

  lemma OneMore(path: seq<string>, name: string)
    requires Distinct(path) && name !in path
    ensures Distinct(path + [name])
  {
  }

  lemma {:induction false} SearchFirst(g: Graph, marks: Marks, name: string, path: seq<string>, order: seq<string>)
    requires Closed(g) && name in g && Consistent(g, marks, path, order) && Distinct(path)
    requires path != [] ==> Edge(g, path[|path| - 1], name)
    ensures var v := Search(g, marks, name, path);
      v.cycle.Some? ==> FoundBelow(g, path, v.cycle.value) && v.cycle.value[|path|] == name
    decreases g.Keys - marks.Keys, 0
  {
    if name !in marks {
      assert name in g.Keys - marks.Keys;
      Enter(g, marks, name, path, order);
      OneMore(path, name);
      SearchAllFirst(g, marks[name := Visiting], g[name].inherits, path + [name], order);
      var v := SearchAll(g, marks[name := Visiting], g[name].inherits, path + [name]);
      if v.cycle.Some? {
        FollowsMore(g, path, name, v.cycle.value);
      }
    } else if marks[name].Visiting? {
      RepeatFound(g, path, name);
    }
  }

  lemma RepeatFound(g: Graph, path: seq<string>, name: string)
    requires Distinct(path) && name in path
    ensures FoundBelow(g, path, path + [name])
  {
    assert (path + [name])[..|path|] == path;
  }

  lemma FollowsMore(g: Graph, path: seq<string>, name: string, cycle: seq<string>)
    requires name in g && FoundBelow(g, path + [name], cycle)
    requires FirstDoomed(g, g[name].inherits, cycle[|path| + 1])
    ensures FoundBelow(g, path, cycle) && cycle[|path|] == name
  {
    assert cycle[|path|] == (path + [name])[|path|];
    assert path <= path + [name];
    assert GoesOn(g, cycle[|path|], cycle[|path| + 1]);
  }

  lemma {:induction false} SearchAllFirst(
      g: Graph, marks: Marks, names: seq<string>, path: seq<string>, order: seq<string>)
    requires Closed(g) && (forall a <- names :: a in g) && Consistent(g, marks, path, order) && Distinct(path)
    requires path != [] ==> forall a | a in names :: Edge(g, path[|path| - 1], a)
    ensures var v := SearchAll(g, marks, names, path);
      v.cycle.Some? ==> FoundBelow(g, path, v.cycle.value) && FirstDoomed(g, names, v.cycle.value[|path|])
    decreases g.Keys - marks.Keys, |names|
  {
    if names != [] {
      assert names[0] in names;
      SearchFirst(g, marks, names[0], path, order);
      var first := SearchCorrect(g, marks, names[0], path, order);
      var v := Search(g, marks, names[0], path);
      if v.cycle.Some? {
        ReportIsDoomed(g, v.cycle.value, |path|);
        assert NoneDoomed(g, names[..0]);
      } else {
        assert g.Keys - v.marks.Keys <= g.Keys - marks.Keys;
        assert forall a | a in names[1..] :: a in names;
        SearchAllFirst(g, v.marks, names[1..], path, first);
        ListedIsSafe(g, first, names[0]);
        var rest := SearchAll(g, v.marks, names[1..], path);
        if rest.cycle.Some? {
          FirstOfRest(g, names, rest.cycle.value[|path|]);
        }
      }
    }
  }

  lemma FirstOfRest(g: Graph, names: seq<string>, a: string)
    requires names != [] && !Doomed(g, names[0]) && FirstDoomed(g, names[1..], a)
    ensures FirstDoomed(g, names, a)
  {
    var k :| 0 <= k < |names| - 1 && names[1..][k] == a && Doomed(g, a) && NoneDoomed(g, names[1..][..k]);
    assert names[..k + 1] == [names[0]] + names[1..][..k];
    assert NoneDoomed(g, names[..k + 1]);
    assert names[k + 1] == a;
  }

  // ---- There is only one ----

  lemma NoneBefore(g: Graph, names: seq<string>, k: nat, j: nat)
    requires k < |names| && j < |names| && NoneDoomed(g, names[..k])
    ensures j < k ==> !Doomed(g, names[j])
  {
    assert j < k ==> names[j] in names[..k];
  }

  lemma FirstDoomedUnique(g: Graph, names: seq<string>, a: string, b: string)
    requires FirstDoomed(g, names, a) && FirstDoomed(g, names, b)
    ensures a == b
  {
    var j :| 0 <= j < |names| && names[j] == a && Doomed(g, a) && NoneDoomed(g, names[..j]);
    var k :| 0 <= k < |names| && names[k] == b && Doomed(g, b) && NoneDoomed(g, names[..k]);
    NoneBefore(g, names, k, j);
    NoneBefore(g, names, j, k);
  }

  lemma {:induction false} SamePrefix(g: Graph, names: seq<string>, p: seq<string>, q: seq<string>, n: nat)
    requires IsFirstReport(g, names, p) && IsFirstReport(g, names, q) && n <= |p| && n <= |q|
    ensures p[..n] == q[..n]
  {
    if n == 1 {
      FirstDoomedUnique(g, Text.Sort(names), p[0], q[0]);
    } else if n > 1 {
      SamePrefix(g, names, p, q, n - 1);
      assert p[n - 2] == p[..n - 1][n - 2] == q[..n - 1][n - 2] == q[n - 2];
      assert GoesOn(g, p[n - 2], p[n - 2 + 1]) && GoesOn(g, q[n - 2], q[n - 2 + 1]);
      FirstDoomedUnique(g, g[p[n - 2]].inherits, p[n - 1], q[n - 1]);
      assert p[..n] == p[..n - 1] + [p[n - 1]] && q[..n] == q[..n - 1] + [q[n - 1]];
    }
  }

  lemma RepeatsInside(p: seq<string>, q: seq<string>)
    requires StopsAtRepeat(p) && |p| < |q| && q[..|p|] == p
    ensures !Distinct(q[..|q| - 1])
  {
    var i :| 0 <= i < |p| - 1 && p[i] == p[|p| - 1];
    var init := q[..|q| - 1];
    assert init[i] == q[..|p|][i] && init[|p| - 1] == q[..|p|][|p| - 1];
  }

  lemma NotLonger(p: seq<string>, q: seq<string>)
    requires StopsAtRepeat(p) && StopsAtRepeat(q) && |p| <= |q| && q[..|p|] == p
    ensures p == q
  {
    if |p| < |q| {
      RepeatsInside(p, q);
    }
  }

  lemma FirstReportUnique(g: Graph, names: seq<string>, p: seq<string>, q: seq<string>)
    requires IsFirstReport(g, names, p) && IsFirstReport(g, names, q)
    ensures p == q
  {
    var n := if |p| <= |q| then |p| else |q|;
    SamePrefix(g, names, p, q, n);
    if |p| <= |q| {
      NotLonger(p, q);
    } else {
      NotLonger(q, p);
    }
  }

  lemma FirstReportIsReport(g: Graph, names: seq<string>, p: seq<string>)
    requires IsFirstReport(g, names, p)
    ensures IsCycleReport(g, p)
  {
    forall i | 0 < i < |p| ensures Edge(g, p[i - 1], p[i]) {
      assert GoesOn(g, p[i - 1], p[i - 1 + 1]);
    }
  }

  /** The report of a policy's cycle is exactly the one described: no other chain fits the description, and
      there is one whenever the graph is cyclic. */
  lemma {:induction false} ReportExact(g: Graph, names: seq<string>, path: seq<string>)
    requires Closed(g) && (forall a :: a in names <==> a in g)
    ensures forall a <- Text.Sort(names) :: a in g
    ensures FirstCycle(g, names) == Some(path) <==> IsFirstReport(g, names, path)
  {
    SortKeeps(names);
    FirstCycleExact(g, names);
    SearchAllFirst(g, map[], Text.Sort(names), [], []);
    var found := FirstCycle(g, names);
    if IsFirstReport(g, names, path) {
      FirstReportIsReport(g, names, path);
      ReportHasCycle(g, path);
      FirstReportUnique(g, names, path, found.value);
    }
  }
}
