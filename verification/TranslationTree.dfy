/** `flattenTranslations` and `setNestedValue` over translation trees. */
module TranslationTree {
  import opened Common
  import opened DottedKeys

  /** A translation object; the enumeration order of its keys is left open. */
  datatype Tree = Leaf(text: string) | Node(children: map<string, Tree>)

  const EMPTY := Node(map[])

  type Path = seq<string>

  function Lookup(t: Tree, path: Path): Option<string>
    decreases |path|
  {
    match t
    case Leaf(text) => if path == [] then Some(text) else None
    case Node(children) =>
      if path != [] && path[0] in children then Lookup(children[path[0]], path[1..]) else None
  }

  ghost function LeafPaths(t: Tree): set<Path> {
    match t
    case Leaf(_) => {[]}
    case Node(children) => set k, p | k in children && p in LeafPaths(children[k]) :: [k] + p
  }

  lemma {:induction false} LeafPathsAreLookups(t: Tree, path: Path)
    ensures path in LeafPaths(t) <==> Lookup(t, path).Some?
    decreases |path|
  {
    if t.Node? {
      if path != [] && path[0] in t.children {
        LeafPathsAreLookups(t.children[path[0]], path[1..]);
        assert path == [path[0]] + path[1..];
        if path in LeafPaths(t) {
          var k, p :| k in t.children && p in LeafPaths(t.children[k]) && path == [k] + p;
          assert p == path[1..];
        }
      }
    }
  }

  ghost predicate GoodKeys(t: Tree) {
    t.Node? ==> forall k :: k in t.children ==> k != "" && DotFree(k) && GoodKeys(t.children[k])
  }

  ghost predicate HasLeaf(t: Tree) {
    t.Leaf? || exists k :: k in t.children && HasLeaf(t.children[k])
  }

  /** Every nested object holds a leaf. */
  ghost predicate Solid(t: Tree) {
    t.Node? ==> forall k :: k in t.children ==> HasLeaf(t.children[k]) && Solid(t.children[k])
  }

  /** The tree minus its empty subtrees. */
  ghost function Prune(t: Tree): Tree {
    match t
    case Leaf(_) => t
    case Node(children) => Node(map k | k in children && HasLeaf(children[k]) :: Prune(children[k]))
  }

  lemma {:induction false} HasLeafMeansPath(t: Tree) returns (p: Path)
    requires HasLeaf(t)
    ensures Lookup(t, p).Some?
  {
    if t.Leaf? {
      p := [];
    } else {
      var k :| k in t.children && HasLeaf(t.children[k]);
      var q := HasLeafMeansPath(t.children[k]);
      p := [k] + q;
      assert p[1..] == q;
    }
  }

  lemma {:induction false} LookupMeansHasLeaf(t: Tree, p: Path)
    requires Lookup(t, p).Some?
    ensures HasLeaf(t)
    decreases |p|
  {
    if t.Node? { LookupMeansHasLeaf(t.children[p[0]], p[1..]); }
  }

  lemma {:induction false} PruneIsSolid(t: Tree)
    ensures Solid(Prune(t)) && (HasLeaf(t) ==> HasLeaf(Prune(t)))
  {
    if t.Node? {
      forall k | k in t.children ensures Solid(Prune(t.children[k])) && (HasLeaf(t.children[k]) ==> HasLeaf(Prune(t.children[k]))) {
        PruneIsSolid(t.children[k]);
      }
      if HasLeaf(t) {
        var k :| k in t.children && HasLeaf(t.children[k]);
        assert k in Prune(t).children;
      }
    }
  }

  lemma {:induction false} PruneKeepsLookups(t: Tree, p: Path)
    ensures Lookup(Prune(t), p) == Lookup(t, p)
    decreases |p|
  {
    if t.Node? && p != [] && p[0] in t.children {
      PruneKeepsLookups(t.children[p[0]], p[1..]);
      if !HasLeaf(t.children[p[0]]) && Lookup(t, p).Some? {
        LookupMeansHasLeaf(t.children[p[0]], p[1..]);
      }
    }
  }

  /** Trees without empty subtrees are determined by what they hold at each path. */
  lemma {:induction false} SolidTreesAgree(a: Tree, b: Tree)
    requires Solid(a) && Solid(b)
    requires (a.Node? && b.Node?) || (HasLeaf(a) && HasLeaf(b))
    requires forall p :: Lookup(a, p) == Lookup(b, p)
    ensures a == b
    decreases a
  {
    assert Lookup(a, []) == Lookup(b, []);
    if a.Node? && b.Node? {
      forall k | k in a.children || k in b.children
        ensures k in a.children && k in b.children && a.children[k] == b.children[k]
      {
        SharedChild(a, b, k);
        SharedChild(b, a, k);
        forall p ensures Lookup(a.children[k], p) == Lookup(b.children[k], p) {
          assert ([k] + p)[1..] == p;
          assert Lookup(a, [k] + p) == Lookup(b, [k] + p);
        }
        SolidTreesAgree(a.children[k], b.children[k]);
      }
      assert a.children == b.children;
    }
  }

  lemma SharedChild(a: Tree, b: Tree, k: string)
    requires a.Node? && b.Node? && Solid(a) && forall p :: Lookup(a, p) == Lookup(b, p)
    ensures k in a.children ==> k in b.children
  {
    if k in a.children {
      var p := HasLeafMeansPath(a.children[k]);
      assert ([k] + p)[1..] == p;
      assert Lookup(a, [k] + p) == Lookup(b, [k] + p);
    }
  }

  // ----- setNestedValue -----

  /** `setNestedValue` along the split key: a missing or textual step becomes an object. */
  function SetPath(t: Tree, path: Path, value: string): (r: Tree)
    requires t.Node? && path != []
    ensures r.Node?
    decreases |path|
  {
    if |path| == 1 then Node(t.children[path[0] := Leaf(value)])
    else
      var next := if path[0] in t.children && t.children[path[0]].Node? then t.children[path[0]] else EMPTY;
      Node(t.children[path[0] := SetPath(next, path[1..], value)])
  }

  function SetNestedValue(root: Tree, dottedKey: string, value: string): (r: Tree)
    requires root.Node?
    ensures r.Node?
  {
    SetPath(root, Split(dottedKey), value)
  }

  /** The written path holds the value, everything on a line with it is gone, and every
      other path is as before. */
  lemma {:induction false} LookupAfterSet(t: Tree, path: Path, value: string, q: Path)
    requires t.Node? && path != []
    ensures Lookup(SetPath(t, path, value), q) ==
            if q == path then Some(value) else if q <= path || path <= q then None else Lookup(t, q)
    decreases |path|
  {
    if q != [] && q[0] == path[0] {
      assert path == [path[0]] + path[1..] && q == [q[0]] + q[1..];
      if |path| > 1 {
        var next := if path[0] in t.children && t.children[path[0]].Node? then t.children[path[0]] else EMPTY;
        LookupAfterSet(next, path[1..], value, q[1..]);
        assert q <= path <==> q[1..] <= path[1..];
        assert path <= q <==> path[1..] <= q[1..];
      } else {
        assert path <= q;
      }
    }
  }

  lemma {:induction false} SetKeepsSolid(t: Tree, path: Path, value: string)
    requires t.Node? && path != [] && Solid(t)
    ensures Solid(SetPath(t, path, value)) && HasLeaf(SetPath(t, path, value))
    decreases |path|
  {
    var r := SetPath(t, path, value);
    assert path[0] in r.children;
    if |path| > 1 {
      var next := if path[0] in t.children && t.children[path[0]].Node? then t.children[path[0]] else EMPTY;
      SetKeepsSolid(next, path[1..], value);
    }
  }

  datatype Entry = Entry(key: string, value: string)

  /** `for (const [key, value] of …) setNestedValue(nextMap, key, value)` */
  function Unflatten(entries: seq<Entry>): (r: Tree)
    ensures r.Node?
  {
    if entries == [] then EMPTY
    else
      var last := entries[|entries| - 1];
      SetNestedValue(Unflatten(entries[..|entries| - 1]), last.key, last.value)
  }

  /** No key's path is a prefix of another's, and no key comes twice. */
  ghost predicate PrefixFree(entries: seq<Entry>) {
    forall i, j :: 0 <= i < |entries| && 0 <= j < |entries| && i != j ==>
      !(Split(entries[i].key) <= Split(entries[j].key))
  }

  lemma NothingHeld(q: Path)
    ensures Lookup(EMPTY, q).None?
  {
  }

  lemma {:induction false} UnflattenHolds(entries: seq<Entry>, q: Path)
    requires PrefixFree(entries)
    ensures Lookup(Unflatten(entries), q).Some? ==>
              Entry(Join'(q), Lookup(Unflatten(entries), q).value) in entries && Split(Join'(q)) == q
    ensures forall e :: e in entries && Split(e.key) == q ==> Lookup(Unflatten(entries), q) == Some(e.value)
  {
    hide SetPath, Split, Join, Lookup;
    if entries == [] {
      NothingHeld(q);
    } else {
      var front, last := entries[..|entries| - 1], entries[|entries| - 1];
      assert entries == front + [last];
      assert PrefixFree(front);
      UnflattenHolds(front, q);
      LookupAfterSet(Unflatten(front), Split(last.key), last.value, q);
      JoinOfSplit(last.key);
      forall e | e in front && Split(e.key) == q
        ensures !(q <= Split(last.key)) && !(Split(last.key) <= q)
      {
        var i :| 0 <= i < |front| && front[i] == e;
        assert entries[i] == e && entries[|entries| - 1] == last;
      }
    }
  }

  function Join'(q: Path): string {
    if q == [] then "" else Join(q)
  }

  /** Whatever a rebuilt tree holds comes from one of the entries. */
  lemma {:induction false} UnflattenOrigin(entries: seq<Entry>, p: Path) returns (e: Entry)
    requires Lookup(Unflatten(entries), p).Some?
    ensures e in entries && Split(e.key) == p
  {
    var front, last := entries[..|entries| - 1], entries[|entries| - 1];
    LookupAfterSet(Unflatten(front), Split(last.key), last.value, p);
    e := last;
    if Split(last.key) != p {
      e := UnflattenOrigin(front, p);
      assert e in entries;
    }
  }

  lemma {:induction false} UnflattenSolid(entries: seq<Entry>)
    ensures Solid(Unflatten(entries))
  {
    if entries != [] {
      UnflattenSolid(entries[..|entries| - 1]);
      var last := entries[|entries| - 1];
      SetKeepsSolid(Unflatten(entries[..|entries| - 1]), Split(last.key), last.value);
    }
  }

  lemma UnflattenLookup(entries: seq<Entry>, q: Path, value: string)
    requires PrefixFree(entries)
    ensures Lookup(Unflatten(entries), q) == Some(value) <==>
              q != [] && Entry(Join(q), value) in entries && Split(Join(q)) == q
  {
    UnflattenHolds(entries, q);
  }

  // ----- flattenTranslations -----

  /** Flattening below `prefix` writes `value` at `key`. */
  ghost predicate Writes(t: Tree, prefix: string, key: string, value: string) {
    exists p :: Lookup(t, p) == Some(value) && FullKey(prefix, p) == key
  }

  /** What flattening the child at `k` writes. */
  ghost predicate ChildWrites(t: Tree, prefix: string, k: string, key: string, value: string)
    requires t.Node?
  {
    k in t.children && Writes(t.children[k], FullKey(prefix, [k]), key, value)
  }

  lemma NodeWrites(t: Tree, prefix: string, key: string, value: string)
    requires t.Node?
    ensures Writes(t, prefix, key, value) <==> exists k :: ChildWrites(t, prefix, k, key, value)
  {
    if Writes(t, prefix, key, value) {
      var p :| Lookup(t, p) == Some(value) && FullKey(prefix, p) == key;
      assert FullKey(FullKey(prefix, [p[0]]), p[1..]) == key;
      assert ChildWrites(t, prefix, p[0], key, value);
    }
    if k :| ChildWrites(t, prefix, k, key, value) {
      var p :| Lookup(t.children[k], p) == Some(value) && FullKey(FullKey(prefix, [k]), p) == key;
      assert ([k] + p)[1..] == p;
      FullKeyOne(prefix, k);
      assert Lookup(t, [k] + p) == Some(value) && FullKey(prefix, [k] + p) == key;
    }
  }

  /** `out` after the writes of `t`: every entry is a write or was there before, and no
      written key is missing. Which of several writes to one key wins is left open. */
  ghost predicate Flattened(t: Tree, prefix: string, before: map<string, string>, after: map<string, string>) {
    && (forall k :: k in after ==> Writes(t, prefix, k, after[k]) || (k in before && before[k] == after[k]))
    && (forall k :: k in before ==> k in after)
    && (forall k, v :: Writes(t, prefix, k, v) ==> k in after && Writes(t, prefix, k, after[k]))
  }

  /** Some child that is no longer `todo` writes `value` at `key`. */
  ghost predicate DoneWrites(t: Tree, prefix: string, todo: set<string>, key: string, value: string)
    requires t.Node?
  {
    exists c :: c !in todo && ChildWrites(t, prefix, c, key, value)
  }

  ghost predicate PartlyFlattened(t: Tree, prefix: string, todo: set<string>, before: map<string, string>,
                                  after: map<string, string>)
    requires t.Node?
  {
    && (forall k :: k in after ==> DoneWrites(t, prefix, todo, k, after[k]) || (k in before && before[k] == after[k]))
    && (forall k :: k in before ==> k in after)
    && (forall k, v :: DoneWrites(t, prefix, todo, k, v) ==> k in after && DoneWrites(t, prefix, todo, k, after[k]))
  }

  lemma ChildDone(t: Tree, prefix: string, key: string, todo: set<string>,
                  out: map<string, string>, before: map<string, string>, after: map<string, string>)
    requires t.Node? && key in todo && key in t.children
    requires PartlyFlattened(t, prefix, todo, out, before)
    requires Flattened(t.children[key], FullKey(prefix, [key]), before, after)
    ensures PartlyFlattened(t, prefix, todo - {key}, out, after)
  {
    var child, full := t.children[key], FullKey(prefix, [key]);
    forall k, v
      ensures DoneWrites(t, prefix, todo - {key}, k, v) <==> DoneWrites(t, prefix, todo, k, v) || Writes(child, full, k, v)
    {
      assert ChildWrites(t, prefix, key, k, v) <==> Writes(child, full, k, v);
      if DoneWrites(t, prefix, todo, k, v) {
        var c :| c !in todo && ChildWrites(t, prefix, c, k, v);
        assert c !in todo - {key};
      }
      if DoneWrites(t, prefix, todo - {key}, k, v) {
        var c :| c !in todo - {key} && ChildWrites(t, prefix, c, k, v);
        assert c == key || c !in todo;
      }
    }
  }

  lemma LeafFlattened(t: Tree, prefix: string, before: map<string, string>)
    requires t.Leaf?
    ensures Flattened(t, prefix, before, before[prefix := t.text])
  {
    assert Lookup(t, []) == Some(t.text) && FullKey(prefix, []) == prefix;
    assert Writes(t, prefix, prefix, t.text);
  }

  /** `flattenTranslations(value, prefix, out)`, the keys taken in any order. */
  method FlattenTranslations(t: Tree, prefix: string, out: map<string, string>) returns (flat: map<string, string>)
    requires t.Node?
    ensures Flattened(t, prefix, out, flat)
    decreases t
  {
    hide Writes, ChildWrites;
    flat := out;
    var todo := t.children.Keys;
    NothingDone(t, prefix, todo);
    while todo != {}
      invariant todo <= t.children.Keys
      invariant PartlyFlattened(t, prefix, todo, out, flat)
      decreases todo
    {
      var key :| key in todo;
      var nested := t.children[key];
      var fullKey := if prefix != "" then prefix + "." + key else key;
      FullKeyOne(prefix, key);
      ghost var before := flat;
      if nested.Leaf? {
        LeafFlattened(nested, fullKey, flat);
        flat := flat[fullKey := nested.text];
      } else {
        flat := FlattenTranslations(nested, fullKey, flat);
      }
      ChildDone(t, prefix, key, todo, out, before, flat);
      todo := todo - {key};
    }
    AllDone(t, prefix);
  }

  lemma FullKeyOne(prefix: string, key: string)
    ensures FullKey(prefix, [key]) == if prefix != "" then prefix + "." + key else key
  {
    assert [key][1..] == [];
  }

  lemma NothingDone(t: Tree, prefix: string, todo: set<string>)
    requires t.Node? && todo == t.children.Keys
    ensures forall k, v :: !DoneWrites(t, prefix, todo, k, v)
  {
  }

  lemma AllDone(t: Tree, prefix: string)
    requires t.Node?
    ensures forall k, v :: DoneWrites(t, prefix, {}, k, v) <==> Writes(t, prefix, k, v)
  {
    forall k, v ensures DoneWrites(t, prefix, {}, k, v) <==> Writes(t, prefix, k, v) {
      NodeWrites(t, prefix, k, v);
      assert DoneWrites(t, prefix, {}, k, v) <==> exists c :: ChildWrites(t, prefix, c, k, v);
    }
  }

  // ----- the round trips -----

  /** `entries` lists the map `flat`, each key once, in some order. */
  ghost predicate Lists(entries: seq<Entry>, flat: map<string, string>) {
    && (forall i, j :: 0 <= i < j < |entries| ==> entries[i].key != entries[j].key)
    && (forall e :: e in entries ==> e.key in flat && flat[e.key] == e.value)
    && (forall k :: k in flat ==> Entry(k, flat[k]) in entries)
  }

  lemma {:induction false} GoodPath(t: Tree, p: Path)
    requires GoodKeys(t) && Lookup(t, p).Some?
    ensures forall s :: s in p ==> s != "" && DotFree(s)
    decreases |p|
  {
    if p != [] {
      GoodPath(t.children[p[0]], p[1..]);
      assert p == [p[0]] + p[1..];
    }
  }

  lemma {:induction false} LeavesDoNotNest(t: Tree, p: Path, q: Path)
    requires Lookup(t, p).Some? && Lookup(t, q).Some? && p <= q
    ensures p == q
    decreases |p|
  {
    if p != [] { LeavesDoNotNest(t.children[p[0]], p[1..], q[1..]); }
  }

  /** With good keys, flattening writes each leaf at its joined path, and splitting that
      key gives the path back. */
  lemma GoodTreeWrites(t: Tree, key: string, value: string)
    requires t.Node? && GoodKeys(t)
    ensures Writes(t, "", key, value) <==> Lookup(t, Split(key)) == Some(value)
  {
    if Writes(t, "", key, value) {
      var p :| Lookup(t, p) == Some(value) && FullKey("", p) == key;
      GoodPath(t, p);
      assert p[0] in p;
      FullKeyJoins(p);
      SplitOfJoin(p);
    }
    if Lookup(t, Split(key)) == Some(value) {
      GoodPath(t, Split(key));
      assert Split(key)[0] in Split(key);
      FullKeyJoins(Split(key));
      JoinOfSplit(key);
    }
  }

  lemma GoodTreeEntries(t: Tree, flat: map<string, string>, entries: seq<Entry>)
    requires t.Node? && GoodKeys(t) && Flattened(t, "", map[], flat) && Lists(entries, flat)
    ensures forall key, value :: Entry(key, value) in entries <==> Lookup(t, Split(key)) == Some(value)
    ensures PrefixFree(entries)
  {
    forall key, value
      ensures Entry(key, value) in entries <==> Lookup(t, Split(key)) == Some(value)
    {
      GoodTreeWrites(t, key, value);
      if Entry(key, value) in entries {
        assert Entry(key, value).key in flat;
      } else if Lookup(t, Split(key)) == Some(value) {
        GoodTreeWrites(t, key, flat[key]);
      }
    }
    forall i, j | 0 <= i < |entries| && 0 <= j < |entries| && i != j
      ensures !(Split(entries[i].key) <= Split(entries[j].key))
    {
      if Split(entries[i].key) <= Split(entries[j].key) {
        assert Entry(entries[i].key, entries[i].value) in entries && Entry(entries[j].key, entries[j].value) in entries;
        LeavesDoNotNest(t, Split(entries[i].key), Split(entries[j].key));
        JoinOfSplit(entries[i].key);
        JoinOfSplit(entries[j].key);
        assert false;
      }
    }
  }

  /** Setting the flattened entries one by one, in any order, rebuilds the tree minus its
      empty subtrees. */
  lemma UnflattenUndoesFlatten(t: Tree, flat: map<string, string>, entries: seq<Entry>)
    requires t.Node? && GoodKeys(t) && Flattened(t, "", map[], flat) && Lists(entries, flat)
    ensures Unflatten(entries) == Prune(t)
  {
    GoodTreeEntries(t, flat, entries);
    UnflattenSolid(entries);
    PruneIsSolid(t);
    var r := Unflatten(entries);
    forall q ensures Lookup(r, q) == Lookup(Prune(t), q) {
      PruneKeepsLookups(t, q);
      if Lookup(r, q).Some? {
        UnflattenLookup(entries, q, Lookup(r, q).value);
      } else if Lookup(t, q).Some? {
        var v := Lookup(t, q).value;
        GoodPath(t, q);
        SplitOfJoin(q);
        UnflattenLookup(entries, q, v);
      }
    }
    SolidTreesAgree(r, Prune(t));
  }

  /** Flattening a tree rebuilt from prefix-free dotted keys gives the same map exactly
      when no key starts with a dot. */
  lemma FlattenUndoesUnflattenIff(m: map<string, string>, entries: seq<Entry>, flat: map<string, string>)
    requires Lists(entries, m) && PrefixFree(entries)
    requires Flattened(Unflatten(entries), "", map[], flat)
    ensures flat == m <==> forall k :: k in m ==> !StartsWithDot(k)
  {
    var t := Unflatten(entries);
    if forall k :: k in m ==> !StartsWithDot(k) {
      forall k, v ensures Writes(t, "", k, v) <==> k in m && m[k] == v {
        RebuiltWrites(m, entries, k, v);
      }
      assert forall k :: k in flat ==> Writes(t, "", k, flat[k]);
      assert forall k :: k in m ==> Writes(t, "", k, m[k]);
      assert flat == m;
    }
    if k :| k in m && StartsWithDot(k) {
      if k in flat {
        RebuiltKeysHaveNoLeadingDot(entries, k, flat[k]);
      }
    }
  }

  lemma RebuiltKeysHaveNoLeadingDot(entries: seq<Entry>, key: string, value: string)
    requires PrefixFree(entries) && Writes(Unflatten(entries), "", key, value)
    ensures !StartsWithDot(key)
  {
    var p :| Lookup(Unflatten(entries), p) == Some(value) && FullKey("", p) == key;
    UnflattenLookup(entries, p, value);
    FullKeyNeverStartsWithDot("", p);
  }

  lemma RebuiltWrites(m: map<string, string>, entries: seq<Entry>, key: string, value: string)
    requires Lists(entries, m) && PrefixFree(entries)
    requires forall k :: k in m ==> !StartsWithDot(k)
    ensures Writes(Unflatten(entries), "", key, value) <==> key in m && m[key] == value
  {
    var t := Unflatten(entries);
    if Writes(t, "", key, value) {
      var p :| Lookup(t, p) == Some(value) && FullKey("", p) == key;
      UnflattenLookup(entries, p, value);
      var k := Join(p);
      assert Entry(k, value).key in m;
      StartsWithDotIff(k);
      FullKeyJoins(p);
    }
    if key in m && m[key] == value {
      var p := Split(key);
      JoinOfSplit(key);
      UnflattenLookup(entries, p, value);
      StartsWithDotIff(key);
      FullKeyJoins(p);
    }
  }

  lemma OneEntry(e: Entry)
    ensures Unflatten([e]) == SetPath(EMPTY, Split(e.key), e.value)
  {
    assert [e][..0] == [] && Unflatten([]) == EMPTY;
  }

  /** An instance: the key `.a` comes back as `a`. */
  lemma LeadingDotIsLost(v: string, flat: map<string, string>)
    requires Flattened(Unflatten([Entry(".a", v)]), "", map[], flat)
    ensures flat == map["a" := v]
  {
    var t := Unflatten([Entry(".a", v)]);
    assert Split("a") == ["a"] && Split(".a") == ["", "a"] by {
      SplitOfJoin(["a"]);
      SplitOfJoin(["", "a"]);
      assert ["", "a"][1..] == ["a"] && "" + "." + "a" == ".a";
    }
    OneEntry(Entry(".a", v));
    forall q ensures Lookup(t, q) == if q == ["", "a"] then Some(v) else None {
      LookupAfterSet(EMPTY, ["", "a"], v, q);
      NothingHeld(q);
    }
    FullKeyOne("", "");
    assert ["", "a"][1..] == ["a"] && FullKey("", ["a"]) == "a" by { FullKeyOne("", "a"); }
    assert FullKey("", ["", "a"]) == "a";
    forall k, w ensures Writes(t, "", k, w) <==> k == "a" && w == v {
      if k == "a" && w == v {
        assert Lookup(t, ["", "a"]) == Some(w);
      }
    }
    assert forall k :: k in flat ==> Writes(t, "", k, flat[k]);
    assert Writes(t, "", "a", v);
  }
}
