/** `setNestedValue` on the objects it writes into, in place. */
module TranslationObjects {
  import opened DottedKeys
  import opened TranslationTree

  datatype Member = Text(text: string) | Object(node: TranslationMap)

  /** A translation object. `repr` holds the object and everything nested in it. */
  class TranslationMap {
    var members: map<string, Member>
    ghost var repr: set<TranslationMap>

    constructor ()
      ensures Valid() && repr == {this} && AsTree() == EMPTY
    {
      members := map[];
      repr := {this};
    }

    /** The nested objects form a tree: nothing is shared and nothing contains itself. */
    ghost predicate Valid()
      reads this, repr
      decreases repr
    {
      && this in repr
      && (forall k :: k in members && members[k].Object? ==>
            && members[k].node in repr && members[k].node.repr < repr
            && this !in members[k].node.repr && members[k].node.Valid())
      && (forall j, k :: j in members && k in members && j != k && members[j].Object? && members[k].Object? ==>
            members[j].node.repr !! members[k].node.repr)
    }

    /** What a reader of the object sees. */
    function AsTree(): (t: Tree)
      requires Valid()
      reads this, repr
      ensures t.Node?
      decreases repr
    {
      Node(map k | k in members :: if members[k].Object? then members[k].node.AsTree() else Leaf(members[k].text))
    }

    /** `cursor[key] = value` */
    method PutText(key: string, value: string)
      requires Valid()
      modifies this
      ensures Valid() && repr == old(repr)
      ensures AsTree() == Node(old(AsTree()).children[key := Leaf(value)])
    {
      members := members[key := Text(value)];
    }

    /** `cursor[key] = {}` */
    method PutEmpty(key: string)
      requires Valid()
      modifies this
      ensures Valid() && fresh(repr - old(repr))
      ensures key in members && members[key].Object?
      ensures AsTree() == Node(old(AsTree()).children[key := EMPTY])
    {
      var replacement := new TranslationMap();
      label before:
      members := members[key := Object(replacement)];
      repr := repr + {replacement};
      StillATree@before(key);
    }

    /** The walk from `cursor` along the parts of the key: a missing or textual member is
        replaced by a new object, and the last part gets the value. */
    method SetAlong(parts: seq<string>, value: string)
      requires Valid() && parts != []
      modifies repr
      ensures Valid() && fresh(repr - old(repr))
      ensures AsTree() == SetPath(old(AsTree()), parts, value)
      decreases |parts|, 0
    {
      var key := parts[0];
      if |parts| == 1 {
        PutText(key, value);
        return;
      }
      if key !in members || members[key].Text? {
        PutEmpty(key);
      }
      ghost var before := AsTree();
      assert SetPath(before, parts, value) == SetPath(old(AsTree()), parts, value);
      SetBelow(key, parts[1..], value);
    }

    /** The rest of the walk, inside the object at `key`. */
    method SetBelow(key: string, parts: seq<string>, value: string)
      requires Valid() && parts != [] && key in members && members[key].Object?
      modifies repr
      ensures Valid() && fresh(repr - old(repr))
      ensures AsTree() == Node(old(AsTree()).children[key := SetPath(old(members[key].node.AsTree()), parts, value)])
      decreases |parts|, 1
    {
      var next := members[key].node;
      label before:
      next.SetAlong(parts, value);
      OthersKept@before(key);
      repr := repr + next.repr;
      StillATree@before(key);
    }

    twostate lemma OthersKept(key: string)
      requires old(Valid()) && key in members && members[key].Object? && members == old(members)
      requires unchanged(set n | n in old(repr) && n !in old(members[key].node.repr))
      requires fresh(members[key].node.repr - old(members[key].node.repr))
      ensures forall k :: k in members && k != key && members[k].Object? ==>
                && members[k].node.repr == old(members[k].node.repr) && members[k].node.Valid()
                && members[k].node.AsTree() == old(members[k].node.AsTree())
                && members[k].node.repr !! members[key].node.repr
    {
    }

    /** One member is another object now, and shares nothing with the others, which are as before. */
    twostate lemma StillATree(key: string)
      requires old(Valid()) && key in members && members[key].Object? && members == old(members)[key := members[key]]
      requires repr == old(repr) + members[key].node.repr && this !in members[key].node.repr
      requires members[key].node.Valid()
      requires forall k :: k in members && k != key && members[k].Object? ==>
                && members[k].node.repr == old(members[k].node.repr) && members[k].node.Valid()
                && members[k].node.AsTree() == old(members[k].node.AsTree())
                && members[k].node.repr !! members[key].node.repr
      ensures Valid() && AsTree() == Node(old(AsTree()).children[key := members[key].node.AsTree()])
    {
    }

    method SetNestedValue(dottedKey: string, value: string)
      requires Valid()
      modifies repr
      ensures Valid() && fresh(repr - old(repr))
      ensures AsTree() == TranslationTree.SetNestedValue(old(AsTree()), dottedKey, value)
    {
      SetAlong(Split(dottedKey), value);
    }
  }
}
