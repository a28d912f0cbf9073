/** Dotted keys: `split(".")`, and the key prefixes that flattening builds. */
module DottedKeys {

  predicate DotFree(s: string) {
    '.' !in s
  }

  /** `key.split(".")` */
  function Split(key: string): (parts: seq<string>)
    ensures |parts| >= 1
    ensures forall p :: p in parts ==> DotFree(p)
  {
    if key == "" then [""]
    else
      var rest := Split(key[1..]);
      assert DotFree(rest[0]);
      if key[0] == '.' then [""] + rest else [[key[0]] + rest[0]] + rest[1..]
  }

  function Join(parts: seq<string>): string
    requires |parts| >= 1
  {
    if |parts| == 1 then parts[0] else parts[0] + "." + Join(parts[1..])
  }

  lemma {:induction false} JoinOfSplit(key: string)
    ensures Join(Split(key)) == key
  {
    if key != "" {
      JoinOfSplit(key[1..]);
      var rest := Split(key[1..]);
      if key[0] == '.' {
        assert Split(key)[1..] == rest;
      } else {
        assert Split(key)[1..] == rest[1..];
      }
    }
  }

  lemma {:induction false} SplitOfJoin(parts: seq<string>)
    requires |parts| >= 1 && forall p :: p in parts ==> DotFree(p)
    ensures Split(Join(parts)) == parts
    decreases |parts|, |parts[0]|
  {
    var key := Join(parts);
    if parts[0] == "" {
      if |parts| > 1 {
        assert key[0] == '.' && key[1..] == Join(parts[1..]);
        SplitOfJoin(parts[1..]);
        assert parts == [""] + parts[1..];
      }
    } else {
      var tail := [parts[0][1..]] + parts[1..];
      assert parts[0] in parts && parts[0][0] != '.';
      assert tail[1..] == parts[1..];
      assert key[0] == parts[0][0] && key[1..] == Join(tail);
      assert forall p :: p in tail ==> DotFree(p);
      SplitOfJoin(tail);
      assert parts[0] == [key[0]] + tail[0];
      assert parts == [parts[0]] + tail[1..];
    }
  }

  /** The key that flattening gives a leaf: an empty prefix adds no dot. */
  function FullKey(prefix: string, path: seq<string>): string
    decreases |path|
  {
    if path == [] then prefix
    else FullKey(if prefix != "" then prefix + "." + path[0] else path[0], path[1..])
  }

  lemma {:induction false} FullKeyAfterPrefix(prefix: string, path: seq<string>)
    requires prefix != "" && path != []
    ensures FullKey(prefix, path) == prefix + "." + Join(path)
    decreases |path|
  {
    if |path| == 1 {
      assert path[1..] == [];
    } else {
      FullKeyAfterPrefix(prefix + "." + path[0], path[1..]);
      assert prefix + "." + path[0] + "." + Join(path[1..]) == prefix + "." + (path[0] + "." + Join(path[1..]));
    }
  }

  /** Flattening joins the path with dots, unless the path starts with an empty segment. */
  lemma FullKeyJoins(path: seq<string>)
    requires path != [] && (path[0] != "" || |path| == 1)
    ensures FullKey("", path) == Join(path)
  {
    if |path| == 1 {
      assert path[1..] == [];
    } else {
      FullKeyAfterPrefix(path[0], path[1..]);
    }
  }

  predicate StartsWithDot(s: string) {
    s != "" && s[0] == '.'
  }

  lemma StartsWithDotIff(key: string)
    ensures StartsWithDot(key) <==> Split(key)[0] == "" && |Split(key)| > 1
  {
  }

  lemma {:induction false} FullKeyNeverStartsWithDot(prefix: string, path: seq<string>)
    requires !StartsWithDot(prefix) && forall p :: p in path ==> DotFree(p)
    ensures !StartsWithDot(FullKey(prefix, path))
    decreases |path|
  {
    if path != [] {
      assert DotFree(path[0]);
      FullKeyNeverStartsWithDot(if prefix != "" then prefix + "." + path[0] else path[0], path[1..]);
    }
  }
}
