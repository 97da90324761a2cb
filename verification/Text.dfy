/** String operations the components share, as ECMAScript defines them.

    A Dafny `string` is a sequence of Unicode scalar values, so it is exactly a well-formed
    ECMAScript string: one without lone surrogates. */
module Text {

  // ---- Searching, splitting and joining ----

  function IndexOf(s: string, c: char): (i: int)
    ensures -1 <= i < |s|
    ensures if i < 0 then c !in s else s[i] == c && c !in s[..i]
  {
    if s == "" then -1
    else if s[0] == c then 0
    else
      var rest := IndexOf(s[1..], c);
      assert rest >= 0 ==> s[..rest + 1] == [s[0]] + s[1..][..rest];
      if rest < 0 then -1 else rest + 1
  }

  /** `s.split(sep)`: the maximal separator-free pieces, in order. */
  function Split(s: string, sep: char): (pieces: seq<string>)
    ensures |pieces| > 0
  {
    var i := IndexOf(s, sep);
    if i < 0 then [s] else [s[..i]] + Split(s[i + 1..], sep)
  }

  function Join(pieces: seq<string>, sep: string): string {
    if |pieces| == 0 then ""
    else if |pieces| == 1 then pieces[0]
    else pieces[0] + sep + Join(pieces[1..], sep)
  }

  predicate Lacks(pieces: seq<string>, c: char) {
    forall i | 0 <= i < |pieces| :: c !in pieces[i]
  }

  lemma CutAt(s: string, i: nat)
    requires i < |s|
    ensures s == s[..i] + [s[i]] + s[i + 1..]
  {
  }

  lemma {:induction false} JoinFirst(piece: string, pieces: seq<string>, sep: string)
    requires pieces != []
    ensures Join([piece] + pieces, sep) == piece + sep + Join(pieces, sep)
  {
    assert ([piece] + pieces)[1..] == pieces;
  }

  lemma LacksMore(piece: string, pieces: seq<string>, c: char)
    requires c !in piece && Lacks(pieces, c)
    ensures Lacks([piece] + pieces, c)
  {
  }

  /** Splitting loses nothing and leaves no separator behind. */
  lemma {:induction false} JoinSplit(s: string, sep: char)
    ensures Lacks(Split(s, sep), sep)
    ensures Join(Split(s, sep), [sep]) == s
  {
    var i := IndexOf(s, sep);
    if i >= 0 {
      var rest := s[i + 1..];
      JoinSplit(rest, sep);
      JoinFirst(s[..i], Split(rest, sep), [sep]);
      LacksMore(s[..i], Split(rest, sep), sep);
      CutAt(s, i);
    }
  }

  lemma SplitFirst(piece: string, sep: char, rest: string)
    requires sep !in piece
    ensures Split(piece + [sep] + rest, sep) == [piece] + Split(rest, sep)
  {
    var s := piece + [sep] + rest;
    var i := IndexOf(s, sep);
    assert s[|piece|] == sep;
    assert forall k | 0 <= k < |piece| :: s[k] == piece[k];
    assert forall n | |piece| < n <= |s| :: s[..n][|piece|] == sep;
    assert s[..i] == piece && s[i + 1..] == rest;
  }

  /** Splitting a joined list gives the list back, provided no piece holds the separator. */
  lemma {:induction false} SplitJoin(pieces: seq<string>, sep: char)
    requires pieces != [] && Lacks(pieces, sep)
    ensures Split(Join(pieces, [sep]), sep) == pieces
  {
    if |pieces| > 1 {
      SplitJoin(pieces[1..], sep);
      SplitFirst(pieces[0], sep, Join(pieces[1..], [sep]));
    }
  }

  lemma {:induction false} JoinConcat(a: seq<string>, b: seq<string>, sep: string)
    requires a != [] && b != []
    ensures Join(a + b, sep) == Join(a, sep) + sep + Join(b, sep)
  {
    if |a| == 1 {
      assert (a + b)[1..] == b;
    } else {
      assert (a + b)[1..] == a[1..] + b;
      JoinConcat(a[1..], b, sep);
    }
  }

  /** Every piece of every name, in order. */
  function Pieces(names: seq<string>, sep: char): seq<string> {
    if names == [] then [] else Split(names[0], sep) + Pieces(names[1..], sep)
  }

  lemma {:induction false} JoinPieces(names: seq<string>, sep: char)
    requires names != []
    ensures Pieces(names, sep) != [] && Lacks(Pieces(names, sep), sep)
    ensures Join(Pieces(names, sep), [sep]) == Join(names, [sep])
  {
    var first, rest := Split(names[0], sep), Pieces(names[1..], sep);
    JoinSplit(names[0], sep);
    if |names| == 1 {
      assert first + rest == first;
    } else {
      JoinPieces(names[1..], sep);
      JoinConcat(first, rest, [sep]);
    }
  }

  /** Joining forgets which pieces belonged together, and nothing else. */
  lemma {:induction false} SplitJoinPieces(names: seq<string>, sep: char)
    requires names != []
    ensures Split(Join(names, [sep]), sep) == Pieces(names, sep)
  {
    JoinPieces(names, sep);
    SplitJoin(Pieces(names, sep), sep);
  }

  // ---- Trimming ----

  /** The WhiteSpace and LineTerminator code points of ECMAScript, which `trim` and `\s` share. */
  predicate IsSpace(c: char) {
    var n := c as int;
    || 0x09 <= n <= 0x0D || n == 0x20 || n == 0xA0 || n == 0x1680 || 0x2000 <= n <= 0x200A
    || n == 0x2028 || n == 0x2029 || n == 0x202F || n == 0x205F || n == 0x3000 || n == 0xFEFF
  }

  function TrimStart(s: string): string {
    if s == "" || !IsSpace(s[0]) then s else TrimStart(s[1..])
  }

  function TrimEnd(s: string): string {
    if s == "" || !IsSpace(s[|s| - 1]) then s else TrimEnd(s[..|s| - 1])
  }

  predicate AllSpace(s: string) {
    forall i | 0 <= i < |s| :: IsSpace(s[i])
  }

  /** Trimming takes off the spaces at one end and stops at the first other character. */
  lemma {:induction false} TrimStartExact(spaces: string, s: string)
    requires AllSpace(spaces) && (s == "" || !IsSpace(s[0]))
    ensures TrimStart(spaces + s) == s
  {
    if spaces == "" {
      assert spaces + s == s;
    } else {
      assert (spaces + s)[1..] == spaces[1..] + s;
      TrimStartExact(spaces[1..], s);
    }
  }

  lemma {:induction false} TrimEndExact(s: string, spaces: string)
    requires AllSpace(spaces) && (s == "" || !IsSpace(s[|s| - 1]))
    ensures TrimEnd(s + spaces) == s
  {
    if spaces == "" {
      assert s + spaces == s;
    } else {
      var n := |spaces| - 1;
      assert (s + spaces)[..|s| + n] == s + spaces[..n];
      TrimEndExact(s, spaces[..n]);
    }
  }

  lemma {:induction false} TrimEndPrefix(s: string)
    ensures TrimEnd(s) <= s && AllSpace(s[|TrimEnd(s)|..])
  {
    if s != "" && IsSpace(s[|s| - 1]) {
      TrimEndPrefix(s[..|s| - 1]);
    }
  }

  /** No space at either end. */
  predicate Trimmed(s: string) {
    s != "" ==> !IsSpace(s[0]) && !IsSpace(s[|s| - 1])
  }

  lemma {:induction false} TrimStartSuffix(s: string)
    ensures |TrimStart(s)| <= |s| && AllSpace(s[..|s| - |TrimStart(s)|])
    ensures s[|s| - |TrimStart(s)|..] == TrimStart(s) && (TrimStart(s) != "" ==> !IsSpace(TrimStart(s)[0]))
  {
    if s != "" && IsSpace(s[0]) {
      TrimStartSuffix(s[1..]);
      var k := |s| - |TrimStart(s)|;
      assert s[..k] == [s[0]] + s[1..][..k - 1];
    }
  }

  lemma {:induction false} TrimEndLast(s: string)
    ensures TrimEnd(s) != "" ==> !IsSpace(TrimEnd(s)[|TrimEnd(s)| - 1])
  {
    if s != "" && IsSpace(s[|s| - 1]) {
      TrimEndLast(s[..|s| - 1]);
    }
  }

  function Trim(s: string): string {
    TrimEnd(TrimStart(s))
  }

  /** `s` is `t` between spaces, or none. */
  ghost predicate Pads(s: string, t: string) {
    Trimmed(t) && exists before, after :: AllSpace(before) && AllSpace(after) && s == before + t + after
  }

  lemma {:induction false} TrimPads(s: string)
    ensures Pads(s, Trim(s))
  {
    var rest := TrimStart(s);
    var t := TrimEnd(rest);
    TrimStartSuffix(s);
    TrimEndPrefix(rest);
    TrimEndLast(rest);
    var before, after := s[..|s| - |rest|], rest[|t|..];
    assert t != "" ==> t[0] == rest[0];
    assert s == before + t + after;
  }

  lemma {:induction false} PadsTrim(s: string, t: string)
    requires Pads(s, t)
    ensures Trim(s) == t
  {
    var before, after :| AllSpace(before) && AllSpace(after) && s == before + t + after;
    if t == "" {
      assert s == before + after + "" && AllSpace(before + after);
      TrimStartExact(before + after, "");
      assert TrimEnd("") == "";
    } else {
      assert s == before + (t + after) && (t + after)[0] == t[0];
      TrimStartExact(before, t + after);
      TrimEndExact(t, after);
    }
  }

  /** Either end may be trimmed first. */
  lemma {:induction false} TrimEitherWay(s: string)
    ensures TrimStart(TrimEnd(s)) == Trim(s)
  {
    TrimPads(s);
    var t := Trim(s);
    var before, after :| AllSpace(before) && AllSpace(after) && s == before + t + after;
    if t == "" {
      assert s == "" + (before + after) && AllSpace(before + after);
      TrimEndExact("", before + after);
      assert TrimStart("") == "";
    } else {
      TrimEndExact(before + t, after);
      TrimStartExact(before, t);
    }
  }

  lemma {:induction false} TrimEndAppend(a: string, s: string)
    requires a != "" && !IsSpace(a[|a| - 1])
    ensures TrimEnd(a + s) == a + TrimEnd(s)
  {
    if s == "" {
      assert a + s == a;
    } else {
      var n := |s| - 1;
      assert (a + s)[..|a| + n] == a + s[..n];
      TrimEndAppend(a, s[..n]);
    }
  }

  /** Trimming takes off exactly the spaces at both ends. */
  lemma {:induction false} TrimExact(s: string, t: string)
    ensures Trim(s) == t <==> Pads(s, t)
  {
    TrimPads(s);
    if Pads(s, t) {
      PadsTrim(s, t);
    }
  }

  // ---- The default order of `Array.prototype.sort` ----

  /** Position of a scalar value in UTF-16 code-unit order: the supplementary planes, whose lead
      surrogates start at D800, come before E000..FFFF. */
  function Rank(c: char): int {
    var n := c as int;
    if n < 0xD800 then n else if n >= 0x1_0000 then n - 0x1_0000 + 0xD800 else n + 0x10_0000
  }

  predicate Leq(a: string, b: string) {
    || a == ""
    || (&& b != ""
        && (Rank(a[0]) < Rank(b[0]) || (a[0] == b[0] && Leq(a[1..], b[1..]))))
  }

  lemma {:induction false} LeqTotal(a: string, b: string)
    ensures Leq(a, b) || Leq(b, a)
  {
    if a != "" && b != "" && a[0] == b[0] {
      LeqTotal(a[1..], b[1..]);
    }
  }

  lemma {:induction false} LeqAntisymmetric(a: string, b: string)
    requires Leq(a, b) && Leq(b, a)
    ensures a == b
  {
    if a != "" && b != "" {
      LeqAntisymmetric(a[1..], b[1..]);
      assert a == [a[0]] + a[1..] && b == [b[0]] + b[1..];
    }
  }

  lemma {:induction false} LeqTransitive(a: string, b: string, c: string)
    requires Leq(a, b) && Leq(b, c)
    ensures Leq(a, c)
  {
    if a != "" && a[0] == b[0] && b[0] == c[0] {
      LeqTransitive(a[1..], b[1..], c[1..]);
    }
  }

  ghost predicate Sorted(xs: seq<string>) {
    forall i, j | 0 <= i < j < |xs| :: Leq(xs[i], xs[j])
  }

  function Insert(x: string, xs: seq<string>): seq<string> {
    if xs == [] || Leq(x, xs[0]) then [x] + xs else [xs[0]] + Insert(x, xs[1..])
  }

  function Sort(xs: seq<string>): seq<string> {
    if xs == [] then [] else Insert(xs[0], Sort(xs[1..]))
  }

  lemma {:induction false} InsertCorrect(x: string, xs: seq<string>)
    requires Sorted(xs)
    ensures multiset(Insert(x, xs)) == multiset([x] + xs) && Sorted(Insert(x, xs))
  {
    if xs == [] {
    } else if Leq(x, xs[0]) {
      forall j | 0 <= j < |xs| ensures Leq(x, xs[j]) {
        if j > 0 { LeqTransitive(x, xs[0], xs[j]); }
      }
    } else {
      LeqTotal(x, xs[0]);
      var tail := Insert(x, xs[1..]);
      InsertCorrect(x, xs[1..]);
      assert xs == [xs[0]] + xs[1..];
      assert multiset(tail) == multiset{x} + multiset(xs[1..]);
      forall j | 0 <= j < |tail| ensures Leq(xs[0], tail[j]) {
        assert tail[j] in multiset(tail);
        if tail[j] != x { assert tail[j] in xs[1..]; }
      }
    }
  }

  lemma {:induction false} SortCorrect(xs: seq<string>)
    ensures multiset(Sort(xs)) == multiset(xs) && Sorted(Sort(xs))
  {
    if xs != [] {
      SortCorrect(xs[1..]);
      InsertCorrect(xs[0], Sort(xs[1..]));
      assert xs == [xs[0]] + xs[1..];
    }
  }

  /** Two insertions can be exchanged. */
  lemma {:induction false} InsertsCommute(x: string, y: string, xs: seq<string>)
    ensures Insert(x, Insert(y, xs)) == Insert(y, Insert(x, xs))
  {
    if Leq(x, y) && Leq(y, x) {
      LeqAntisymmetric(x, y);
    } else if Leq(y, x) {
      InsertsInOrder(y, x, xs);
    } else {
      LeqTotal(x, y);
      InsertsInOrder(x, y, xs);
    }
  }

  lemma {:induction false} InsertsInOrder(x: string, y: string, xs: seq<string>)
    requires Leq(x, y) && !Leq(y, x)
    ensures Insert(x, Insert(y, xs)) == Insert(y, Insert(x, xs))
  {
    if xs != [] && Leq(x, xs[0]) {
      assert ([x] + xs)[1..] == xs;
    } else if xs != [] {
      if Leq(y, xs[0]) { LeqTransitive(x, y, xs[0]); }
      InsertsInOrder(x, y, xs[1..]);
      assert Insert(y, xs)[1..] == Insert(y, xs[1..]) && Insert(x, xs)[1..] == Insert(x, xs[1..]);
    } else {
      assert [x][1..] == [];
    }
  }

  function Without(xs: seq<string>, i: nat): seq<string>
    requires i < |xs|
  {
    xs[..i] + xs[i + 1..]
  }

  /** Any one element may be put in last. */
  lemma {:induction false} SortPeels(xs: seq<string>, i: nat)
    requires i < |xs|
    ensures Sort(xs) == Insert(xs[i], Sort(Without(xs, i)))
  {
    if i == 0 {
      assert Without(xs, 0) == xs[1..];
    } else {
      SortPeels(xs[1..], i - 1);
      var rest := Without(xs, i);
      assert rest[0] == xs[0] && rest[1..] == Without(xs[1..], i - 1);
      InsertsCommute(xs[0], xs[i], Sort(rest[1..]));
    }
  }

  lemma WithoutContents(xs: seq<string>, i: nat)
    requires i < |xs|
    ensures multiset(Without(xs, i)) == multiset(xs) - multiset{xs[i]}
  {
    assert xs == xs[..i] + [xs[i]] + xs[i + 1..];
  }

  lemma {:induction false} PermutationsSortAlike(xs: seq<string>, ys: seq<string>)
    requires multiset(xs) == multiset(ys)
    ensures Sort(xs) == Sort(ys)
  {
    if xs == [] {
      assert |multiset(ys)| == |ys|;
    } else {
      var first := xs[0];
      assert first in multiset(ys);
      var i :| 0 <= i < |ys| && ys[i] == first;
      SortPeels(ys, i);
      WithoutContents(xs, 0);
      WithoutContents(ys, i);
      assert Without(xs, 0) == xs[1..];
      PermutationsSortAlike(xs[1..], Without(ys, i));
    }
  }

  /** Sorting identifies exactly the permutations of a list. */
  lemma {:induction false} SortIdentifiesPermutations(xs: seq<string>, ys: seq<string>)
    ensures Sort(xs) == Sort(ys) <==> multiset(xs) == multiset(ys)
  {
    SortCorrect(xs);
    SortCorrect(ys);
    if multiset(xs) == multiset(ys) {
      PermutationsSortAlike(xs, ys);
    }
  }
}
