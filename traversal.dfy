/** The two walks that visit the whole table: the breadth-first `level_order`, which
    drives a queue of subtrees, and the self-check `is_rank_consistent`, which runs
    `select` and `rank` against each other over every rank and every key. */
module Traversal {
  import opened Common
  import opened Trees
  import opened Queries

  // ---------------------------------------------------------------- levels

  /** The subtrees of `s` read one after another in symmetric order. */
  function Flat<V>(s: seq<Tree<V>>): seq<int> {
    if s == [] then [] else InOrder(s[0]) + Flat(s[1..])
  }

  /** The keys held at the roots of `s`, in order; an empty link holds none. */
  function KeysOf<V>(s: seq<Tree<V>>): seq<int> {
    if s == [] then [] else (if s[0].Nil? then [] else [s[0].key]) + KeysOf(s[1..])
  }

  /** The next level down: the left and right child of every node of `s`, in order. */
  function Children<V>(s: seq<Tree<V>>): seq<Tree<V>> {
    if s == [] then [] else (if s[0].Nil? then [] else [s[0].left, s[0].right]) + Children(s[1..])
  }

  lemma {:induction false} FlatAppend<V>(a: seq<Tree<V>>, b: seq<Tree<V>>)
    ensures Flat(a + b) == Flat(a) + Flat(b)
  {
    if a == [] {
      assert a + b == b;
    } else {
      assert (a + b)[0] == a[0] && (a + b)[1..] == a[1..] + b;
      FlatAppend(a[1..], b);
    }
  }

  lemma {:induction false} KeysOfAppend<V>(a: seq<Tree<V>>, b: seq<Tree<V>>)
    ensures KeysOf(a + b) == KeysOf(a) + KeysOf(b)
  {
    if a == [] {
      assert a + b == b;
    } else {
      assert (a + b)[0] == a[0] && (a + b)[1..] == a[1..] + b;
      KeysOfAppend(a[1..], b);
    }
  }

  lemma {:induction false} ChildrenAppend<V>(a: seq<Tree<V>>, b: seq<Tree<V>>)
    ensures Children(a + b) == Children(a) + Children(b)
  {
    if a == [] {
      assert a + b == b;
    } else {
      assert (a + b)[0] == a[0] && (a + b)[1..] == a[1..] + b;
      ChildrenAppend(a[1..], b);
    }
  }

  /** Going one level down moves every key either to the level's own keys or into
      the subtrees of the next level; a level without keys has no next level. */
  lemma {:induction false} LevelSplit<V>(s: seq<Tree<V>>)
    ensures multiset(Flat(s)) == multiset(KeysOf(s)) + multiset(Flat(Children(s)))
    ensures KeysOf(s) == [] ==> Children(s) == []
  {
    if s != [] {
      var x, rest := s[0], s[1..];
      LevelSplit(rest);
      var c := if x.Nil? then [] else [x.left, x.right];
      var k := if x.Nil? then [] else [x.key];
      assert Children(s) == c + Children(rest);
      assert KeysOf(s) == k + KeysOf(rest);
      assert Flat(s) == InOrder(x) + Flat(rest);
      FlatAppend(c, Children(rest));
      NodeSplit(x);
      Regather(InOrder(x), Flat(rest), k, KeysOf(rest), Flat(c), Flat(Children(rest)));
    }
  }

  /** The keys below one entry of a level: its own key and its children's subtrees. */
  lemma NodeSplit<V>(x: Tree<V>)
    ensures var c := if x.Nil? then [] else [x.left, x.right];
            var k := if x.Nil? then [] else [x.key];
            multiset(Flat(c)) + multiset(k) == multiset(InOrder(x))
  {
    if x.Node? {
      var c := [x.left, x.right];
      assert c[1..] == [x.right] && [x.right][1..] == [];
      assert Flat(c) == InOrder(x.left) + (InOrder(x.right) + Flat<V>([]));
      assert InOrder(x) == InOrder(x.left) + [x.key] + InOrder(x.right);
    }
  }

  lemma Regather(fx: seq<int>, frest: seq<int>, k: seq<int>, krest: seq<int>, fc: seq<int>, fcrest: seq<int>)
    requires multiset(fc) + multiset(k) == multiset(fx)
    requires multiset(frest) == multiset(krest) + multiset(fcrest)
    ensures multiset(fx + frest) == multiset(k + krest) + multiset(fc + fcrest)
  {
  }

  lemma LevelShrinks<V>(s: seq<Tree<V>>)
    ensures |Flat(s)| == |KeysOf(s)| + |Flat(Children(s))|
  {
    LevelSplit(s);
    assert |multiset(Flat(s))| == |multiset(KeysOf(s))| + |multiset(Flat(Children(s)))|;
  }

  /** The keys of `s` level by level: its own, then those of the level below, and so
      on until a level holds nothing. */
  function LevelsFrom<V>(s: seq<Tree<V>>): seq<int>
    decreases |Flat(s)|
  {
    if KeysOf(s) == [] then []
    else
      LevelShrinks(s);
      KeysOf(s) + LevelsFrom(Children(s))
  }

  /** The keys of `t` by depth, each depth from left to right. */
  function LevelOrder<V>(t: Tree<V>): seq<int> {
    LevelsFrom([t])
  }

  lemma LevelsUnfold<V>(s: seq<Tree<V>>)
    ensures LevelsFrom(s) == KeysOf(s) + LevelsFrom(Children(s))
  {
    LevelSplit(s);
    if KeysOf(s) == [] {
      assert Children(s) == [];
    }
  }

  lemma {:induction false} LevelsFromKeys<V>(s: seq<Tree<V>>)
    ensures multiset(LevelsFrom(s)) == multiset(Flat(s))
    decreases |Flat(s)|
  {
    LevelSplit(s);
    if KeysOf(s) != [] {
      LevelShrinks(s);
      LevelsFromKeys(Children(s));
    }
  }

  /** The level order lists every key of the tree once: it is a permutation of the
      symmetric order, and it starts at the root. */
  lemma LevelOrderPermutation<V>(t: Tree<V>)
    ensures multiset(LevelOrder(t)) == multiset(InOrder(t))
    ensures t.Node? ==> |LevelOrder(t)| > 0 && LevelOrder(t)[0] == t.key
  {
    LevelsFromKeys([t]);
    assert Flat([t]) == InOrder(t) + Flat<V>([]);
    LevelsUnfold([t]);
    assert KeysOf([t]) == (if t.Nil? then [] else [t.key]) + KeysOf<V>([]);
  }

  /** The loop state of `level_order`: the queue holds the rest of the current level
      `s` from index `i`, followed by the children of the entries already taken; the
      keys produced so far, followed by the keys still due, give `goal`. */
  ghost predicate Pending<V>(goal: seq<int>, s: seq<Tree<V>>, i: int, q: seq<Tree<V>>, keys: seq<int>) {
    0 <= i <= |s| && q == s[i..] + Children(s[..i]) &&
    keys + KeysOf(s[i..]) + LevelsFrom(Children(s)) == goal
  }

  lemma PendingStart<V>(t: Tree<V>)
    ensures Pending(LevelOrder(t), [t], 0, [t], [])
  {
    var s := [t];
    LevelsUnfold(s);
    assert s[..0] == [] && s[0..] == s;
    assert Children(s[..0]) == [];
  }

  /** The current level used up, the queue is the next level. */
  lemma PendingNext<V>(goal: seq<int>, s: seq<Tree<V>>, q: seq<Tree<V>>, keys: seq<int>)
    requires Pending(goal, s, |s|, q, keys)
    ensures Pending(goal, Children(s), 0, q, keys) && |Children(s)| == |q|
  {
    var c := Children(s);
    Whole(s);
    Whole(c);
    Whole(keys);
    assert KeysOf(s[|s|..]) == [] && Children(c[..0]) == [];
    assert q == c;
    assert keys + LevelsFrom(c) == goal;
    LevelsUnfold(c);
    Assoc(keys, KeysOf(c), LevelsFrom(Children(c)));
  }

  /** One entry of a level is a node or an empty link. */
  lemma Single<V>(x: Tree<V>)
    ensures Children([x]) == if x.Nil? then [] else [x.left, x.right]
    ensures KeysOf([x]) == if x.Nil? then [] else [x.key]
  {
    assert [x][1..] == [];
  }

  /** The queue after one turn: the front entry gone, its children at the back. */
  function Dequeued<V>(q: seq<Tree<V>>): seq<Tree<V>>
    requires q != []
  {
    q[1..] + Children([q[0]])
  }

  /** Taking the entry at the front: its key joins the keys produced, its children
      join the back of the queue. */
  lemma PendingStep<V>(goal: seq<int>, s: seq<Tree<V>>, i: int, q: seq<Tree<V>>, keys: seq<int>)
    requires Pending(goal, s, i, q, keys) && i < |s|
    ensures q != [] && q[0] == s[i]
    ensures Pending(goal, s, i + 1, Dequeued(q), keys + KeysOf([q[0]]))
  {
    var x := s[i];
    var a, b, c, d := s[i..], s[i + 1..], Children(s[..i]), Children([x]);
    Split(s, i);
    DropFront(a, c);
    assert a[1..] == b;
    Assoc(b, c, d);
    ChildrenAppend(s[..i], [x]);
    KeysOfAppend([x], b);
    Regroup(keys, KeysOf([x]), KeysOf(b), LevelsFrom(Children(s)));
  }

  /** An empty queue means no keys are still due. */
  lemma PendingDone<V>(goal: seq<int>, s: seq<Tree<V>>, i: int, keys: seq<int>)
    requires Pending(goal, s, i, [], keys)
    ensures keys == goal
  {
    assert s[i..] == [] && Children(s[..i]) == [];
    assert |s[i..]| == 0;
    assert s[..i] == s;
    assert KeysOf(s[i..]) == [];
    LevelSplit(Children(s));
    LevelsUnfold(Children(s));
  }

  /** `Dequeued` spelled out as the loop body does it. */
  lemma Dequeue<V>(q: seq<Tree<V>>, keys: seq<int>)
    requires q != []
    ensures q[0].Nil? ==> Dequeued(q) == q[1..] && keys + KeysOf([q[0]]) == keys
    ensures q[0].Node? ==>
      Dequeued(q) == q[1..] + [q[0].left, q[0].right] && keys + KeysOf([q[0]]) == keys + [q[0].key]
  {
    Single(q[0]);
  }

  /** What the loop's termination rests on: every queued key counts twice, every
      queued entry once. */
  function Weight<V>(q: seq<Tree<V>>): int {
    2 * |Flat(q)| + |q|
  }

  /** Each turn of the loop lowers the weight of the queue. */
  lemma QueueShrinks<V>(q: seq<Tree<V>>)
    requires q != []
    ensures Weight(Dequeued(q)) < Weight(q)
  {
    var x := q[0];
    Single(x);
    FlatAppend(q[1..], Children([x]));
    assert q == [x] + q[1..];
    FlatAppend([x], q[1..]);
    assert Flat([x]) == InOrder(x) + Flat<V>([]);
    if x.Node? {
      assert [x.left, x.right][1..] == [x.right] && [x.right][1..] == [];
      assert Flat([x.left, x.right]) == InOrder(x.left) + (InOrder(x.right) + Flat<V>([]));
    }
  }

  /** `level_order()`: a queue seeded with the root; each subtree taken off the front
      gives its key to the result and queues its two children. */
  method BreadthFirst<V>(t: Tree<V>) returns (keys: seq<int>)
    ensures keys == LevelOrder(t)
  {
    ghost var goal := LevelOrder(t);
    keys := [];
    var q := [t];
    ghost var s := [t];
    ghost var i := 0;
    PendingStart(t);
    while q != []
      invariant Pending(goal, s, i, q, keys)
      decreases Weight(q)
    {
      if i == |s| {
        PendingNext(goal, s, q, keys);
        s, i := Children(s), 0;
      }
      PendingStep(goal, s, i, q, keys);
      QueueShrinks(q);
      Dequeue(q, keys);
      var x := q[0];
      q := q[1..];
      if x.Node? {
        keys := keys + [x.key];
        q := q + [x.left, x.right];
      }
      i := i + 1;
    }
    PendingDone(goal, s, i, keys);
  }

  // ---------------------------------------------------------------- rank consistency

  /** `rank` and `select` undo each other: every rank in range selects a key whose
      rank it is, and every key of `keys()` is the key selected at its rank. */
  predicate RankConsistent<V>(t: Tree<V>) {
    (forall i | 0 <= i < Size(t) :: SelectRanked(t, i)) &&
    (forall k | k in AllKeys(t) :: RankSelected(t, k))
  }

  /** `select(i)` finds a key whose rank is `i`. */
  predicate SelectRanked<V>(t: Tree<V>, i: int) {
    Select(t, i).Some? && Rank(Select(t, i).value, t) == i
  }

  /** `select(rank(k))` is `k`. */
  predicate RankSelected<V>(t: Tree<V>, k: int) {
    Select(t, Rank(k, t)) == Some(k)
  }

  /** `is_rank_consistent()`: the two loops of the self-check, the second run only
      when the first passed. A `select` that finds no key counts as inconsistent. */
  method CheckRanks<V>(t: Tree<V>) returns (ok: bool)
    ensures ok == RankConsistent(t)
  {
    ok := CheckSelects(t);
    if ok {
      ok := CheckKeys(t, AllKeys(t));
    }
  }

  /** The first loop: `rank(select(i)) == i` for every `i` below `size()`. */
  method CheckSelects<V>(t: Tree<V>) returns (ok: bool)
    ensures ok == forall i | 0 <= i < Size(t) :: SelectRanked(t, i)
  {
    var n := Size(t);
    var i := 0;
    while i < n
      invariant 0 <= i && (0 <= n ==> i <= n)
      invariant forall j | 0 <= j < i :: SelectRanked(t, j)
    {
      var selected := Select(t, i);
      if selected.None? || i != Rank(selected.value, t) {
        assert !SelectRanked(t, i);
        return false;
      }
      i := i + 1;
    }
    return true;
  }

  /** The second loop: `select(rank(k)) == k` for every key of `ks`. */
  method CheckKeys<V>(t: Tree<V>, ks: seq<int>) returns (ok: bool)
    ensures ok == forall k | k in ks :: RankSelected(t, k)
  {
    var j := 0;
    while j < |ks|
      invariant 0 <= j <= |ks|
      invariant forall k | k in ks[..j] :: RankSelected(t, k)
    {
      var key := ks[j];
      var atRank := Select(t, Rank(key, t));
      if atRank.None? || key < atRank.value || atRank.value < key {
        assert key in ks && !RankSelected(t, key);
        return false;
      }
      assert ks[..j + 1] == ks[..j] + [key];
      j := j + 1;
    }
    assert ks[..j] == ks;
    return true;
  }

  /** Every ordered table with consistent counts passes the rank self-check. */
  lemma ValidIsRankConsistent<V>(t: Tree<V>)
    requires Ordered(t) && SizeConsistent(t)
    ensures RankConsistent(t)
  {
    forall i | 0 <= i < Size(t)
      ensures SelectRanked(t, i)
    {
      RankOfSelect(t, i);
    }
    AllKeysInOrder(t);
    InOrderKeys(t);
    forall k | k in AllKeys(t)
      ensures RankSelected(t, k)
    {
      SelectOfRank(t, k);
    }
  }
}
