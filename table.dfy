/** The public face of `bst_red_black<Key, Value>`: an object holding the root link,
    whose operations check their arguments, report the conditions the C++ code throws
    for, and otherwise run the tree functions of the other modules. Keys are integers;
    the default-constructed key `Key()` is `NullKey`, which no operation stores. */
module Table {
  import opened Common
  import opened Trees
  import opened Insert
  import opened Delete
  import opened Queries
  import opened Traversal

  /** After `put(key, val)` on a valid tree, `get(key)` finds `val`; putting a key
      already stored only replaces its value, so the count stays the same. */
  lemma PutThenGet<V>(t: Tree<V>, key: int, val: V)
    requires IsLLRB(t)
    ensures Queries.Get(Blacken(Insert.Put(t, key, val)), key) == Some(val)
    ensures key in Keys(t) ==> Trees.Size(Blacken(Insert.Put(t, key, val))) == Trees.Size(t)
    ensures key !in Keys(t) ==> Trees.Size(Blacken(Insert.Put(t, key, val))) == Trees.Size(t) + 1
  {
    var r := Blacken(Insert.Put(t, key, val));
    PutKeepsLLRB(t, key, val);
    GetContents(r, key);
    SizeIsKeyCount(t);
    SizeIsKeyCount(r);
    ContentsKeys(r);
    ContentsKeys(t);
    assert Keys(r) == Keys(t) + {key};
  }

  /** A tree whose map is another's with an absent key added and taken away again
      holds the same map, walk and count. */
  lemma Restored<V>(t: Tree<V>, r: Tree<V>, key: int, val: V)
    requires Ordered(t) && SizeConsistent(t) && Ordered(r) && SizeConsistent(r)
    requires key !in Keys(t) && Contents(r) == Contents(t)[key := val] - {key}
    ensures Contents(r) == Contents(t) && InOrder(r) == InOrder(t) && Trees.Size(r) == Trees.Size(t)
  {
    ContentsKeys(t);
    ContentsKeys(r);
    assert Contents(t)[key := val] - {key} == Contents(t);
    InOrderDetermined(r, t);
    SizeIsKeyCount(r);
    SizeIsKeyCount(t);
  }

  /** `put(key, val)` of an absent key followed by `delete(key)` gives back the same
      map, the same `keys()` sequence and the same `size()`. */
  lemma PutThenRemove<V>(t: Tree<V>, key: int, val: V)
    requires IsLLRB(t) && key !in Keys(t)
    ensures IsLLRB(Blacken(Insert.Put(t, key, val))) && key in Keys(Blacken(Insert.Put(t, key, val)))
    ensures Contents(Remove(Blacken(Insert.Put(t, key, val)), key)) == Contents(t)
    ensures InOrder(Remove(Blacken(Insert.Put(t, key, val)), key)) == InOrder(t)
    ensures Trees.Size(Remove(Blacken(Insert.Put(t, key, val)), key)) == Trees.Size(t)
  {
    var p := Blacken(Insert.Put(t, key, val));
    PutKeepsLLRB(t, key, val);
    ContentsKeys(p);
    Restored(t, Remove(p, key), key, val);
  }

  class RedBlackBST<V> {
    var root: Tree<V>

    /** Every invariant of a left-leaning red-black tree holds, and the null key is
        not stored. */
    ghost predicate Valid()
      reads this
    {
      IsLLRB(root) && NullKey !in Keys(root)
    }

    /** The symbol table the object stands for. */
    ghost function Map(): map<int, V>
      reads this
    {
      Contents(root)
    }

    /** The stored keys, increasing. */
    ghost function Sorted(): seq<int>
      reads this
    {
      InOrder(root)
    }

    /** `bst_red_black()`: the empty table. */
    constructor ()
      ensures Valid() && Map() == map[]
    {
      root := Nil;
    }

    /** `size()`: the number of stored keys. */
    method Count() returns (n: int)
      requires Valid()
      ensures n == |Map()| == |Sorted()|
    {
      SizeIsKeyCount(root);
      SizeIsCount(root);
      ContentsKeys(root);
      n := Trees.Size(root);
    }

    /** `empty()`. */
    method IsEmpty() returns (e: bool)
      requires Valid()
      ensures e <==> Map() == map[]
    {
      var n := Count();
      e := n == 0;
    }

    /** `get(key)`: the value stored under `key`. The null key is refused; a key the
        table does not hold is reported as not found. */
    method Get(key: int) returns (r: Result<V>)
      requires Valid()
      ensures key == NullKey ==> r == Err(InvalidArgument)
      ensures key != NullKey && key in Map() ==> r == Ok(Map()[key])
      ensures key != NullKey && key !in Map() ==> r == Err(NotFound)
    {
      if key == NullKey {
        return Err(InvalidArgument);
      }
      GetContents(root, key);
      var found := Queries.Get(root, key);
      if found.Some? {
        r := Ok(found.value);
      } else {
        r := Err(NotFound);
      }
    }

    /** `contains(key)`. */
    method Contains(key: int) returns (r: Result<bool>)
      requires Valid()
      ensures key == NullKey ==> r == Err(InvalidArgument)
      ensures key != NullKey ==> r == Ok(key in Map())
    {
      if key == NullKey {
        return Err(InvalidArgument);
      }
      ContainsKeys(root, key);
      ContentsKeys(root);
      r := Ok(Queries.Contains(root, key));
    }

    /** `put(key, val)`: a null key is ignored; otherwise `key` maps to `val`, and the
        tree stays a left-leaning red-black tree. */
    method Put(key: int, val: V)
      requires Valid()
      modifies this
      ensures Valid()
      ensures Map() == if key == NullKey then old(Map()) else old(Map())[key := val]
      ensures key == NullKey ==> root == old(root)
    {
      if key == NullKey {
        return;
      }
      PutKeepsLLRB(root, key, val);
      ContentsKeys(root);
      ContentsKeys(Blacken(Insert.Put(root, key, val)));
      root := Blacken(Insert.Put(root, key, val));
    }

    /** `delete_min()`: removes the least key. */
    method DeleteMin() returns (o: Outcome)
      requires Valid()
      modifies this
      ensures Valid()
      ensures old(Map()) == map[] ==> o == Fail(EmptyTable) && root == old(root)
      ensures old(Map()) != map[] ==>
        o == Pass && old(root).Node? &&
        (forall k | k in old(Map()) :: MinNode(old(root)).key <= k) &&
        Map() == old(Map()) - {MinNode(old(root)).key}
    {
      ContentsKeys(root);
      if root.Nil? {
        return Fail(EmptyTable);
      }
      ContentsKeys(RemoveMin(root));
      root := RemoveMin(root);
      o := Pass;
    }

    /** `delete_max()`: removes the greatest key. */
    method DeleteMax() returns (o: Outcome)
      requires Valid()
      modifies this
      ensures Valid()
      ensures old(Map()) == map[] ==> o == Fail(EmptyTable) && root == old(root)
      ensures old(Map()) != map[] ==>
        o == Pass && old(root).Node? &&
        (forall k | k in old(Map()) :: k <= MaxNode(old(root)).key) &&
        Map() == old(Map()) - {MaxNode(old(root)).key}
    {
      ContentsKeys(root);
      if root.Nil? {
        return Fail(EmptyTable);
      }
      ContentsKeys(RemoveMax(root));
      root := RemoveMax(root);
      o := Pass;
    }

    /** `delete_key(key)`: the null key is refused; a key the table does not hold
        leaves it as it is; otherwise the key and its value are gone. */
    method DeleteKey(key: int) returns (o: Outcome)
      requires Valid()
      modifies this
      ensures Valid()
      ensures key == NullKey ==> o == Fail(InvalidArgument) && root == old(root)
      ensures key != NullKey ==> o == Pass && Map() == old(Map()) - {key}
      ensures key !in old(Map()) ==> root == old(root)
    {
      if key == NullKey {
        return Fail(InvalidArgument);
      }
      ContainsKeys(root, key);
      ContentsKeys(root);
      if !Queries.Contains(root, key) {
        assert old(Map()) - {key} == old(Map());
        return Pass;
      }
      ContentsKeys(Remove(root, key));
      root := Remove(root, key);
      o := Pass;
    }

    /** `min()`: the least key; an empty table has none. */
    method Min() returns (r: Result<int>)
      requires Valid()
      ensures Map() == map[] ==> r == Err(EmptyTable)
      ensures Map() != map[] ==> r.Ok? && r.value in Map() && forall k | k in Map() :: r.value <= k
    {
      ContentsKeys(root);
      if root.Nil? {
        return Err(EmptyTable);
      }
      MinNodeLeast(root);
      r := Ok(MinNode(root).key);
    }

    /** `max()`: the greatest key; an empty table has none. */
    method Max() returns (r: Result<int>)
      requires Valid()
      ensures Map() == map[] ==> r == Err(EmptyTable)
      ensures Map() != map[] ==> r.Ok? && r.value in Map() && forall k | k in Map() :: k <= r.value
    {
      ContentsKeys(root);
      if root.Nil? {
        return Err(EmptyTable);
      }
      MaxNodeGreatest(root);
      r := Ok(MaxNode(root).key);
    }

    /** `floor2(key)`: the greatest stored key not above `key`, not found when every
        key lies above it. */
    method Floor2(key: int) returns (r: Result<int>)
      requires Valid()
      ensures r.Ok? ==> IsFloor(Map().Keys, key, Some(r.value))
      ensures r.Err? ==> r.error == NotFound && IsFloor(Map().Keys, key, None)
    {
      FloorOfTable(root, key);
      ContentsKeys(root);
      var f := Queries.Floor2(root, key, None);
      if f.None? {
        return Err(NotFound);
      }
      r := Ok(f.value);
    }

    /** `ceiling(key)` as intended: the least stored key not below `key`. */
    method Ceiling(key: int) returns (r: Result<int>)
      requires Valid()
      ensures key == NullKey ==> r == Err(InvalidArgument)
      ensures key != NullKey && Map() == map[] ==> r == Err(EmptyTable)
      ensures r.Ok? ==> IsCeiling(Map().Keys, key, Some(r.value))
      ensures key != NullKey && Map() != map[] && r.Err? ==>
        r.error == NotFound && IsCeiling(Map().Keys, key, None)
    {
      if key == NullKey {
        return Err(InvalidArgument);
      }
      ContentsKeys(root);
      if root.Nil? {
        return Err(EmptyTable);
      }
      CeilingIsCeiling(root, key);
      var c := Queries.Ceiling(root, key);
      if c.None? {
        return Err(NotFound);
      }
      r := Ok(c.value);
    }

    /** `select(rank)`: the key with `rank` smaller keys; a rank outside
        `[0, size())` is refused. */
    method Select(rank: int) returns (r: Result<int>)
      requires Valid()
      ensures rank < 0 || rank >= |Sorted()| ==> r == Err(InvalidArgument)
      ensures 0 <= rank < |Sorted()| ==> r == Ok(Sorted()[rank])
    {
      SizeIsCount(root);
      if rank < 0 || rank >= Trees.Size(root) {
        return Err(InvalidArgument);
      }
      SelectInOrder(root, rank);
      var s := Queries.Select(root, rank);
      r := Ok(s.value);
    }

    /** `rank(key)`: how many stored keys lie below `key`. */
    method Rank(key: int) returns (r: Result<int>)
      requires Valid()
      ensures key == NullKey ==> r == Err(InvalidArgument)
      ensures key != NullKey ==> r == Ok(CountLess(Sorted(), key))
    {
      if key == NullKey {
        return Err(InvalidArgument);
      }
      RankCountsLess(key, root);
      r := Ok(Queries.Rank(key, root));
    }

    /** `height()`: links on the longest path down, -1 for the empty table. */
    method Height() returns (h: int)
      requires Valid()
      ensures -1 <= h < |Map()|
      ensures h == -1 <==> Map() == map[]
      ensures h == Queries.Height(root)
    {
      SizeIsKeyCount(root);
      ContentsKeys(root);
      h := Queries.Height(root);
    }

    /** `keys(low, high)`: the stored keys within `[low, high]`, increasing. */
    method KeysBetween(low: int, high: int) returns (r: Result<seq<int>>)
      requires Valid()
      ensures low == NullKey || high == NullKey ==> r == Err(InvalidArgument)
      ensures low != NullKey && high != NullKey ==> r == Ok(Within(Sorted(), low, high))
    {
      if low == NullKey || high == NullKey {
        return Err(InvalidArgument);
      }
      KeysRangeWithin(root, low, high);
      r := Ok(KeysRange(root, low, high));
    }

    /** `keys()`: every stored key, increasing. */
    method AllKeys() returns (ks: seq<int>)
      requires Valid()
      ensures ks == Sorted()
    {
      AllKeysInOrder(root);
      ks := Queries.AllKeys(root);
    }

    /** `size(low, high)`: how many stored keys lie within `[low, high]`. */
    method SizeBetween(low: int, high: int) returns (r: Result<int>)
      requires Valid()
      ensures low == NullKey || high == NullKey ==> r == Err(InvalidArgument)
      ensures low != NullKey && high != NullKey ==> r == Ok(|Within(Sorted(), low, high)|)
    {
      if low == NullKey || high == NullKey {
        return Err(InvalidArgument);
      }
      SizeRangeCount(root, low, high);
      KeysRangeWithin(root, low, high);
      r := Ok(SizeRange(root, low, high));
    }

    /** `level_order()`: every stored key once, the root's first, then depth by
        depth. */
    method LevelOrder() returns (ks: seq<int>)
      requires Valid()
      ensures ks == Traversal.LevelOrder(root)
      ensures multiset(ks) == multiset(Sorted())
      ensures root.Node? ==> |ks| > 0 && ks[0] == root.key
    {
      ks := BreadthFirst(root);
      LevelOrderPermutation(root);
    }

    /** `is_rank_consistent()`: a valid table always passes. */
    method IsRankConsistent() returns (ok: bool)
      requires Valid()
      ensures ok
    {
      ok := CheckRanks(root);
      ValidIsRankConsistent(root);
    }
  }
}
