/** `collectRelativeImportGraph` and `resolveCommonAncestor`. */
module ImportGraph {
  import opened Common
  import opened Graphs

  // ----- the worklist -----

  /** The worklist pops from the end. `imports` maps a file to the relative imports of
      its text that resolve to a file; resolved paths are never empty. */
  method CollectRelativeImportGraph(entry: string, imports: Graph) returns (discovered: set<string>)
    requires entry != "" && "" !in Nodes(imports)
    ensures forall x :: x in discovered <==> Reach(imports, entry, x)
    ensures LeastClosed(entry, imports, discovered)
  {
    discovered := {};
    var queue := [entry];
    ReachRefl(imports, entry);
    while |queue| > 0
      invariant forall x :: x in discovered || x in queue ==> Reach(imports, entry, x)
      invariant forall x :: x in discovered || x in queue ==> x in Nodes(imports) + {entry}
      invariant entry in discovered || entry in queue
      invariant forall x, y :: x in discovered && Edge(imports, x, y) ==> y in discovered || y in queue
      decreases Nodes(imports) + {entry} - discovered, |queue|
    {
      var current := queue[|queue| - 1];
      ghost var before := queue;
      queue := queue[..|queue| - 1];
      assert before == queue + [current];
      if current == "" || current in discovered {
        continue;
      }
      discovered := discovered + {current};
      var resolved := Succ(imports, current);
      ghost var base := queue;
      for i := 0 to |resolved|
        invariant queue == base + resolved[..i]
      {
        queue := queue + [resolved[i]];
      }
      forall y | Edge(imports, current, y)
        ensures Reach(imports, entry, y) && y in Nodes(imports) && y in queue
      {
        ReachThenEdge(imports, entry, current, y);
        EdgeInNodes(imports, current, y);
      }
    }
    forall x | Reach(imports, entry, x)
      ensures x in discovered
    {
      ReachStaysIn(imports, discovered, entry, x);
    }
    ReachedIsLeast(entry, imports, discovered);
  }

  /** Every import of a file in the set is in the set. */
  ghost predicate ImportsClosed(imports: Graph, files: set<string>) {
    forall x, y :: x in files && x in imports.succ && y in imports.succ[x] ==> y in files
  }

  /** The smallest set with the entry that is closed under imports. */
  ghost predicate LeastClosed(entry: string, imports: Graph, files: set<string>) {
    && entry in files && ImportsClosed(imports, files)
    && forall other :: entry in other && ImportsClosed(imports, other) ==> files <= other
  }

  lemma ReachedIsLeast(entry: string, imports: Graph, files: set<string>)
    requires forall x :: x in files <==> Reach(imports, entry, x)
    ensures LeastClosed(entry, imports, files)
  {
    ReachRefl(imports, entry);
    forall x, y | x in files && x in imports.succ && y in imports.succ[x] ensures y in files {
      ReachThenEdge(imports, entry, x, y);
    }
    forall other | entry in other && ImportsClosed(imports, other) ensures files <= other {
      forall x | x in files ensures x in other {
        ReachStaysIn(imports, other, entry, x);
      }
    }
  }

  // ----- the common ancestor -----

  /** A resolved POSIX path, as its segments below the root. */
  type Path = seq<string>

  ghost predicate Resolved(p: Path) {
    ".." !in p
  }

  function CommonLen(a: Path, b: Path): (n: nat)
    ensures n <= |a| && n <= |b| && a[..n] == b[..n]
    ensures n < |a| && n < |b| ==> a[n] != b[n]
  {
    if a == [] || b == [] || a[0] != b[0] then 0 else 1 + CommonLen(a[1..], b[1..])
  }

  /** No common prefix is longer. */
  lemma {:induction false} CommonLenIsLongest(a: Path, b: Path, n: nat)
    requires n <= |a| && n <= |b| && a[..n] == b[..n]
    ensures n <= CommonLen(a, b)
  {
    if n > 0 {
      assert a[..n][0] == b[..n][0];
      assert a[1..][..n - 1] == a[..n][1..] && b[1..][..n - 1] == b[..n][1..];
      CommonLenIsLongest(a[1..], b[1..], n - 1);
    }
  }

  function Ups(n: nat): seq<string> {
    seq(n, _ => "..")
  }

  /** `path.relative`, as segments: climb to the common prefix, then descend. */
  function Relative(from: Path, to: Path): seq<string> {
    var k := CommonLen(from, to);
    Ups(|from| - k) + to[k..]
  }

  /** `path.resolve(from, relative)`: a segment `..` goes up, any other goes down. */
  function ResolveFrom(from: Path, relative: seq<string>): Path
    decreases |relative|
  {
    if relative == [] then from
    else ResolveFrom(if relative[0] == ".." then (if from == [] then [] else from[..|from| - 1]) else from + [relative[0]], relative[1..])
  }

  lemma {:induction false} ResolveDown(from: Path, relative: seq<string>)
    requires ".." !in relative
    ensures ResolveFrom(from, relative) == from + relative
    decreases |relative|
  {
    if relative != [] {
      assert relative[0] in relative;
      ResolveDown(from + [relative[0]], relative[1..]);
    }
  }

  lemma {:induction false} ResolveUps(from: Path, n: nat, rest: seq<string>)
    requires n <= |from|
    ensures ResolveFrom(from, Ups(n) + rest) == ResolveFrom(from[..|from| - n], rest)
    decreases n
  {
    if n == 0 {
      assert Ups(0) + rest == rest && from[..|from|] == from;
    } else {
      assert (Ups(n) + rest)[1..] == Ups(n - 1) + rest;
      ResolveUps(from[..|from| - 1], n - 1, rest);
      assert from[..|from| - 1][..|from| - n] == from[..|from| - n];
    }
  }

  /** The relative path leads from one path to the other. */
  lemma RelativeLeads(from: Path, to: Path)
    requires Resolved(to)
    ensures ResolveFrom(from, Relative(from, to)) == to
  {
    var k := CommonLen(from, to);
    ResolveUps(from, |from| - k, to[k..]);
    ResolveDown(from[..k], to[k..]);
    assert from[..k] + to[k..] == to;
  }

  /** `.startsWith("../")`: a first segment `..` that is followed by another segment. */
  predicate StartsUpwards(relative: seq<string>) {
    |relative| >= 2 && relative[0] == ".."
  }

  function Dirname(p: Path): Path {
    if p == [] then [] else p[..|p| - 1]
  }

  datatype AncestorResult = Ancestor(path: Path) | EmptyPathSet

  ghost predicate CommonPrefix(q: Path, paths: seq<Path>) {
    forall p :: p in paths ==> q <= p
  }

  ghost predicate LongestCommonPrefix(q: Path, paths: seq<Path>) {
    CommonPrefix(q, paths) && forall r :: CommonPrefix(r, paths) ==> |r| <= |q|
  }

  /** How far up one candidate drives the ancestor: one level short of a candidate
      that is itself a prefix of the first path. */
  function Limit(first: Path, candidate: Path): nat {
    if candidate <= first then |candidate| + 1 else CommonLen(first, candidate)
  }

  /** How long the ancestor may be: up to the lowest limit. */
  function AncestorLen(first: Path, rest: seq<Path>): (n: nat)
    ensures n <= |first|
  {
    if rest == [] then |first|
    else Min(AncestorLen(first, rest[..|rest| - 1]), Limit(first, rest[|rest| - 1]))
  }

  /** Every path that is a proper prefix of the first is undercut by one that branches off
      at or above it. */
  ghost predicate PrefixesUndercut(first: Path, rest: seq<Path>) {
    forall c :: c in rest && c < first ==>
      exists d :: d in rest && !(d <= first) && CommonLen(first, d) <= |c|
  }

  lemma CommonLenOfPrefix(first: Path, n: nat, c: Path)
    requires n <= |first|
    ensures CommonLen(first[..n], c) == if n <= CommonLen(first, c) then n else CommonLen(first, c)
  {
    var k := CommonLen(first, c);
    var j := CommonLen(first[..n], c);
    assert first[..n][..j] == first[..j];
    assert j < k ==> first[..k][j] == c[..k][j];
    if k < j { assert false; }
  }

  lemma UpwardsIffAboveLimit(first: Path, n: nat, c: Path)
    requires n <= |first| && Resolved(c)
    ensures StartsUpwards(Relative(first[..n], c)) <==> n > Limit(first, c)
  {
    CommonLenOfPrefix(first, n, c);
    var k := CommonLen(first, c);
    if c <= first {
      if k < |c| { assert false; }
    } else {
      assert c[..|c|] == c;
    }
    if n <= k && |c| > n {
      assert Relative(first[..n], c)[0] == c[n];
    }
  }

  /** Total on non-empty lists. The result is the longest common prefix exactly when every
      proper prefix of the first path in the list is undercut by a branching path. */
  method ResolveCommonAncestor(paths: seq<Path>) returns (r: AncestorResult)
    requires forall p :: p in paths ==> Resolved(p)
    ensures r.EmptyPathSet? <==> paths == []
    ensures r.Ancestor? ==> r.path == paths[0][..AncestorLen(paths[0], paths[1..])]
    ensures r.Ancestor? ==> (LongestCommonPrefix(r.path, paths) <==> PrefixesUndercut(paths[0], paths[1..]))
  {
    if paths == [] {
      return EmptyPathSet;
    }
    var first := paths[0];
    var rest := paths[1..];
    var ancestor := first;
    for i := 0 to |rest|
      invariant ancestor == first[..AncestorLen(first, rest[..i])]
    {
      assert rest[..i + 1][..i] == rest[..i];
      ancestor := Climb(ancestor, rest[i], first);
    }
    assert rest[..|rest|] == rest && paths == [first] + rest;
    AncestorIsLongestIff(first, rest);
    return Ancestor(ancestor);
  }

  /** The inner loop: climb until the candidate no longer lies upwards. The exit at the
      file-system root is never taken. */
  method Climb(start: Path, candidate: Path, ghost first: Path) returns (ancestor: Path)
    requires start <= first && Resolved(candidate)
    ensures ancestor <= first && |ancestor| <= |start| && |ancestor| <= Limit(first, candidate)
    ensures ancestor == start || |ancestor| == Limit(first, candidate)
  {
    ancestor := start;
    UpwardsIffAboveLimit(first, |ancestor|, candidate);
    hide StartsUpwards, Relative, Limit;
    while StartsUpwards(Relative(ancestor, candidate))
      invariant |ancestor| <= |start| && ancestor == first[..|ancestor|]
      invariant StartsUpwards(Relative(ancestor, candidate)) <==> |ancestor| > Limit(first, candidate)
      invariant ancestor == start || |ancestor| >= Limit(first, candidate)
      decreases |ancestor|
    {
      var parent := Dirname(ancestor);
      if parent == ancestor {
        assert false;
        return;
      }
      ancestor := parent;
      assert ancestor == first[..|ancestor|];
      UpwardsIffAboveLimit(first, |ancestor|, candidate);
    }
  }

  lemma CommonPrefixLens(first: Path, rest: seq<Path>, q: Path)
    requires q <= first
    ensures CommonPrefix(q, [first] + rest) <==> forall c :: c in rest ==> |q| <= CommonLen(first, c)
  {
    forall c | c in rest
      ensures q <= c <==> |q| <= CommonLen(first, c)
    {
      var k := CommonLen(first, c);
      if |q| <= k {
        assert q == first[..k][..|q|] == c[..k][..|q|] == c[..|q|];
      } else if q <= c {
        assert false;
      }
    }
    assert forall c :: c in [first] + rest <==> c == first || c in rest;
  }

  lemma LimitsGiveLongest(first: Path, rest: seq<Path>, ancestor: Path)
    requires ancestor <= first
    requires forall k :: 0 <= k < |rest| ==> |ancestor| <= Limit(first, rest[k])
    requires ancestor == first || exists k :: 0 <= k < |rest| && |ancestor| == Limit(first, rest[k])
    ensures LongestCommonPrefix(ancestor, [first] + rest) <==> PrefixesUndercut(first, rest)
  {
    if PrefixesUndercut(first, rest) {
      UndercutIsLongest(first, rest, ancestor);
    }
    if LongestCommonPrefix(ancestor, [first] + rest) {
      LongestIsUndercut(first, rest, ancestor);
    }
  }

  lemma LimitFacts(first: Path)
    ensures forall c :: c <= first ==> CommonLen(first, c) == |c| && Limit(first, c) == |c| + 1
    ensures forall c :: !(c <= first) ==> Limit(first, c) == CommonLen(first, c)
  {
  }

  /** No common prefix is longer than the lowest limit. */
  lemma CommonPrefixWithinLimits(first: Path, rest: seq<Path>, ancestor: Path, r: Path)
    requires ancestor == first || exists k :: 0 <= k < |rest| && |ancestor| == Limit(first, rest[k])
    requires CommonPrefix(r, [first] + rest)
    ensures r <= first && |r| <= |ancestor|
  {
    LimitFacts(first);
    hide Limit, CommonLen;
    assert first in [first] + rest;
    CommonPrefixLens(first, rest, r);
    if ancestor != first {
      var k :| 0 <= k < |rest| && |ancestor| == Limit(first, rest[k]);
      assert rest[k] in rest;
    }
  }

  /** Under the condition the lowest limit is that of a branching path. */
  lemma UndercutIsCommon(first: Path, rest: seq<Path>, ancestor: Path)
    requires ancestor <= first && PrefixesUndercut(first, rest)
    requires forall k :: 0 <= k < |rest| ==> |ancestor| <= Limit(first, rest[k])
    ensures CommonPrefix(ancestor, [first] + rest)
  {
    LimitFacts(first);
    hide Limit, CommonLen;
    CommonPrefixLens(first, rest, ancestor);
    forall c | c in rest
      ensures |ancestor| <= CommonLen(first, c)
    {
      if c < first {
        var d :| d in rest && !(d <= first) && CommonLen(first, d) <= |c|;
      }
    }
  }

  lemma UndercutIsLongest(first: Path, rest: seq<Path>, ancestor: Path)
    requires ancestor <= first && PrefixesUndercut(first, rest)
    requires forall k :: 0 <= k < |rest| ==> |ancestor| <= Limit(first, rest[k])
    requires ancestor == first || exists k :: 0 <= k < |rest| && |ancestor| == Limit(first, rest[k])
    ensures LongestCommonPrefix(ancestor, [first] + rest)
  {
    UndercutIsCommon(first, rest, ancestor);
    forall r | CommonPrefix(r, [first] + rest)
      ensures |r| <= |ancestor|
    {
      CommonPrefixWithinLimits(first, rest, ancestor, r);
    }
  }

  lemma LongestIsUndercut(first: Path, rest: seq<Path>, ancestor: Path)
    requires ancestor <= first && LongestCommonPrefix(ancestor, [first] + rest)
    requires ancestor == first || exists k :: 0 <= k < |rest| && |ancestor| == Limit(first, rest[k])
    ensures PrefixesUndercut(first, rest)
  {
    LimitFacts(first);
    hide Limit, CommonLen, CommonPrefix;
    CommonPrefixLens(first, rest, ancestor);
    forall c | c in rest && c < first
      ensures exists d :: d in rest && !(d <= first) && CommonLen(first, d) <= |c|
    {
      assert c in [first] + rest;
      var k :| 0 <= k < |rest| && |ancestor| == Limit(first, rest[k]);
      assert rest[k] in rest;
    }
  }

  /** The length is the lowest of the limits. */
  lemma {:induction false} AncestorLenIsLowest(first: Path, rest: seq<Path>)
    ensures forall k :: 0 <= k < |rest| ==> AncestorLen(first, rest) <= Limit(first, rest[k])
    ensures AncestorLen(first, rest) == |first| || exists k :: 0 <= k < |rest| && AncestorLen(first, rest) == Limit(first, rest[k])
  {
    if rest != [] {
      hide Limit;
      var front := rest[..|rest| - 1];
      AncestorLenIsLowest(first, front);
      if AncestorLen(first, rest) == AncestorLen(first, front) && AncestorLen(first, front) != |first| {
        var k :| 0 <= k < |front| && AncestorLen(first, front) == Limit(first, front[k]);
        assert rest[k] == front[k];
      }
    }
  }

  lemma AncestorIsLongestIff(first: Path, rest: seq<Path>)
    ensures LongestCommonPrefix(first[..AncestorLen(first, rest)], [first] + rest) <==> PrefixesUndercut(first, rest)
  {
    AncestorLenIsLowest(first, rest);
    LimitsGiveLongest(first, rest, first[..AncestorLen(first, rest)]);
  }

  /** An instance: `/a/b` with its own parent `/a` resolves to `/a/b`, which is no common prefix. */
  lemma ParentOfFirstIsMissed(a: string, b: string)
    ensures [a, b][..AncestorLen([a, b], [[a]])] == [a, b]
    ensures !LongestCommonPrefix([a, b], [[a, b], [a]])
  {
    assert [[a]][..0] == [] && AncestorLen([a, b], []) == 2;
    assert [a] <= [a, b] && Limit([a, b], [a]) == 2;
    assert [a] in [[a, b], [a]] && !([a, b] <= [a]);
  }
}
