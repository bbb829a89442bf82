/** The node store of the left-leaning red-black tree, the abstract views of a subtree
    (its key set, its key-to-value map, its in-order key sequence) and the invariants
    every public mutation must keep. */
module Trees {

  datatype Color = Red | Black

  /** A subtree. `Nil` is the null link; a `Node` carries its key, its value, the colour
      of the link from its parent, and the subtree count it was last given. */
  datatype Tree<V> =
    | Nil
    | Node(color: Color, left: Tree<V>, key: int, val: V, right: Tree<V>, size: int)

  /** The default-constructed key `Key()`, which the table refuses as a "null key". */
  const NullKey: int := 0

  predicate IsRed<V>(t: Tree<V>): (b: bool)
    ensures b ==> t.Node?
  {
    t.Node? && t.color == Red
  }

  /** The stored count of a subtree (0 for a null link). */
  function Size<V>(t: Tree<V>): (n: int)
    ensures t.Nil? ==> n == 0
  {
    if t.Nil? then 0 else t.size
  }

  function Keys<V>(t: Tree<V>): set<int> {
    if t.Nil? then {} else Keys(t.left) + {t.key} + Keys(t.right)
  }

  function Contents<V>(t: Tree<V>): map<int, V> {
    if t.Nil? then map[] else (Contents(t.left) + Contents(t.right))[t.key := t.val]
  }

  function InOrder<V>(t: Tree<V>): seq<int> {
    if t.Nil? then [] else InOrder(t.left) + [t.key] + InOrder(t.right)
  }

  // ------------------------------------------------------ sequence identities

  /* Stock identities of concatenation and slicing, stated once so that a proof can
     name the step it needs instead of leaving the solver to find it. */

  lemma Assoc<T>(a: seq<T>, b: seq<T>, c: seq<T>)
    ensures a + b + c == a + (b + c)
  {
  }

  lemma Regroup(a: seq<int>, b: seq<int>, c: seq<int>, d: seq<int>)
    ensures a + (b + c) + d == (a + b) + c + d
  {
  }

  lemma DropFront<T>(a: seq<T>, b: seq<T>)
    requires a != []
    ensures (a + b)[0] == a[0] && (a + b)[1..] == a[1..] + b
  {
  }

  lemma Split<T>(s: seq<T>, i: int)
    requires 0 <= i < |s|
    ensures s[i..] == [s[i]] + s[i + 1..] && s[..i + 1] == s[..i] + [s[i]]
  {
  }

  lemma Whole<T>(s: seq<T>)
    ensures s[|s|..] == [] && s[..|s|] == s && s[0..] == s && s[..0] == []
    ensures s + [] == s && [] + s == s
  {
  }

  lemma DropLast<T>(a: seq<T>, b: seq<T>, c: seq<T>)
    requires c != []
    ensures (a + b + c)[..|a + b + c| - 1] == a + b + c[..|c| - 1]
  {
  }

  /** Taking the first key off the left subtree takes it off the whole. */
  lemma InOrderWithoutFirst<V>(h: Tree<V>, l': Tree<V>)
    requires h.Node? && InOrder(h.left) != [] && InOrder(l') == InOrder(h.left)[1..]
    ensures InOrder(h.(left := l')) == InOrder(h)[1..]
  {
    DropFront(InOrder(h.left), [h.key] + InOrder(h.right));
  }

  /** Taking the last key off the right subtree takes it off the whole. */
  lemma InOrderWithoutLast<V>(h: Tree<V>, r': Tree<V>)
    requires h.Node? && InOrder(h.right) != []
    requires InOrder(r') == InOrder(h.right)[..|InOrder(h.right)| - 1]
    ensures InOrder(h.(right := r')) == InOrder(h)[..|InOrder(h)| - 1]
  {
    DropLast(InOrder(h.left), [h.key], InOrder(h.right));
  }

  /** Symmetric order: every key on the left is smaller, every key on the right larger. */
  predicate Ordered<V>(t: Tree<V>) {
    t.Nil? ||
    ((forall k | k in Keys(t.left) :: k < t.key) &&
     (forall k | k in Keys(t.right) :: t.key < k) &&
     Ordered(t.left) && Ordered(t.right))
  }

  /** The size invariant: each node's count is one more than its children's counts. */
  predicate SizeConsistent<V>(t: Tree<V>): (b: bool)
    ensures b ==> Size(t) >= 0
    ensures b && t.Node? ==> Size(t) >= 1
  {
    t.Nil? ||
    (t.size == 1 + Size(t.left) + Size(t.right) &&
     SizeConsistent(t.left) && SizeConsistent(t.right))
  }

  /** The number of black nodes on the leftmost path, the node itself included. */
  function BlackHeight<V>(t: Tree<V>): nat {
    if t.Nil? then 0 else BlackHeight(t.left) + (if t.color == Black then 1 else 0)
  }

  /** The colour invariants at every node: no red right link, no red node with a red
      left child, and both children of equal black height (so every path from a node
      to a null link passes the same number of black nodes). */
  predicate RedBlack<V>(t: Tree<V>) {
    t.Nil? ||
    (!IsRed(t.right) &&
     (t.color == Red ==> !IsRed(t.left)) &&
     BlackHeight(t.left) == BlackHeight(t.right) &&
     RedBlack(t.left) && RedBlack(t.right))
  }

  /** Everything that holds of the whole tree between two public operations. */
  predicate IsLLRB<V>(t: Tree<V>) {
    Ordered(t) && SizeConsistent(t) && RedBlack(t) && !IsRed(t)
  }

  predicate Increasing(s: seq<int>) {
    forall i, j | 0 <= i < j < |s| :: s[i] < s[j]
  }

  /** The root coloured black, as each public mutation leaves it. */
  function Blacken<V>(t: Tree<V>): (r: Tree<V>)
    ensures !IsRed(r) && Keys(r) == Keys(t) && Contents(r) == Contents(t)
    ensures Ordered(r) == Ordered(t) && SizeConsistent(r) == SizeConsistent(t)
    ensures RedBlack(t) ==> RedBlack(r)
  {
    if t.Nil? then Nil else t.(color := Black)
  }

  lemma {:induction false} ContentsKeys<V>(t: Tree<V>)
    ensures Contents(t).Keys == Keys(t)
  {
    if t.Node? {
      ContentsKeys(t.left);
      ContentsKeys(t.right);
    }
  }

  lemma {:induction false} InOrderKeys<V>(t: Tree<V>)
    ensures forall k :: k in InOrder(t) <==> k in Keys(t)
  {
    if t.Node? {
      InOrderKeys(t.left);
      InOrderKeys(t.right);
    }
  }

  /** In a consistent tree the stored count is the number of nodes. */
  lemma {:induction false} SizeIsCount<V>(t: Tree<V>)
    requires SizeConsistent(t)
    ensures Size(t) == |InOrder(t)|
  {
    if t.Node? {
      SizeIsCount(t.left);
      SizeIsCount(t.right);
    }
  }

  /** Symmetric order means the in-order walk is strictly increasing. */
  lemma {:induction false} OrderedIncreasing<V>(t: Tree<V>)
    requires Ordered(t)
    ensures Increasing(InOrder(t))
  {
    if t.Node? {
      OrderedIncreasing(t.left);
      OrderedIncreasing(t.right);
      InOrderKeys(t.left);
      InOrderKeys(t.right);
      var s := InOrder(t);
      var a, b := InOrder(t.left), InOrder(t.right);
      forall i, j | 0 <= i < j < |s| ensures s[i] < s[j] {
        if j < |a| {
        } else if i < |a| {
          assert s[i] == a[i] && s[i] in Keys(t.left);
          if j > |a| { assert s[j] == b[j - |a| - 1] && s[j] in Keys(t.right); }
        } else if i == |a| {
          assert s[j] == b[j - |a| - 1] && s[j] in Keys(t.right);
        } else {
          assert s[i] == b[i - |a| - 1] && s[j] == b[j - |a| - 1];
        }
      }
    }
  }

  /** An increasing sequence is fixed by the set of its elements. */
  lemma {:induction false} IncreasingDetermined(s: seq<int>, u: seq<int>)
    requires Increasing(s) && Increasing(u)
    requires forall k :: k in s <==> k in u
    ensures s == u
  {
    assert s == [] <==> u == [] by {
      if s != [] { assert s[0] in s; }
      if u != [] { assert u[0] in u; }
    }
    if s != [] {
      assert s[0] in s;
      assert u != [];
      assert u[0] in u;
      assert s[0] == u[0];
      forall k ensures k in s[1..] <==> k in u[1..] {
        if k in s[1..] {
          var i :| 1 <= i < |s| && s[i] == k;
          assert s[i - 1 + 1] == k;
        }
        if k in u[1..] {
          var j :| 1 <= j < |u| && u[j] == k;
          assert u[j - 1 + 1] == k;
        }
        assert k in s[1..] <==> k in s && k != s[0] by {
          assert forall i | 1 <= i < |s| :: s[i] == s[1..][i - 1];
        }
        assert k in u[1..] <==> k in u && k != u[0] by {
          assert forall j | 1 <= j < |u| :: u[j] == u[1..][j - 1];
        }
      }
      IncreasingDetermined(s[1..], u[1..]);
      assert s == [s[0]] + s[1..] && u == [u[0]] + u[1..];
    }
  }

  /** Two ordered trees with the same keys have the same in-order walk, so the
      walk that `keys()` returns depends only on the stored keys. */
  lemma InOrderDetermined<V>(a: Tree<V>, b: Tree<V>)
    requires Ordered(a) && Ordered(b) && Keys(a) == Keys(b)
    ensures InOrder(a) == InOrder(b)
  {
    OrderedIncreasing(a);
    OrderedIncreasing(b);
    InOrderKeys(a);
    InOrderKeys(b);
    IncreasingDetermined(InOrder(a), InOrder(b));
  }

  /** Keys are distinct in an ordered tree, so the key set has one element per node. */
  lemma {:induction false} OrderedKeyCount<V>(t: Tree<V>)
    requires Ordered(t)
    ensures |Keys(t)| == |InOrder(t)|
  {
    if t.Node? {
      OrderedKeyCount(t.left);
      OrderedKeyCount(t.right);
      var a, b := Keys(t.left), Keys(t.right);
      assert a !! b by {
        forall k | k in a ensures k !in b { }
      }
      assert t.key !in a && t.key !in b;
      assert |a + {t.key}| == |a| + 1;
      assert (a + {t.key}) !! b;
    }
  }

  /** Size of a consistent ordered tree is the number of stored keys. */
  lemma SizeIsKeyCount<V>(t: Tree<V>)
    requires Ordered(t) && SizeConsistent(t)
    ensures Size(t) == |Keys(t)|
  {
    SizeIsCount(t);
    OrderedKeyCount(t);
  }

  /** In an ordered tree the node's own entry sits between its two subtrees' maps. */
  lemma OrderedContents<V>(t: Tree<V>)
    requires t.Node? && Ordered(t)
    ensures forall k :: k in Contents(t) <==> k in Keys(t)
    ensures forall k | k in Contents(t.left) :: Contents(t)[k] == Contents(t.left)[k]
    ensures forall k | k in Contents(t.right) :: Contents(t)[k] == Contents(t.right)[k]
    ensures Contents(t)[t.key] == t.val
  {
    ContentsKeys(t);
    ContentsKeys(t.left);
    ContentsKeys(t.right);
  }

  /** A red-black subtree of black height 0 holds at most a red leaf; one whose root is
      not red and whose black height is 0 is the null link. */
  lemma {:induction false} ZeroBlackHeight<V>(t: Tree<V>)
    requires RedBlack(t) && BlackHeight(t) == 0
    ensures !IsRed(t) ==> t.Nil?
    ensures t.Node? ==> t.left.Nil? && t.right.Nil?
  {
    if t.Node? && t.color == Red {
      ZeroBlackHeight(t.left);
      ZeroBlackHeight(t.right);
    }
  }

  /** The leftmost node of a subtree (`min(node*)`). */
  function MinNode<V>(t: Tree<V>): (m: Tree<V>)
    requires t.Node?
    ensures m.Node? && m.key in Keys(t) && m.key == InOrder(t)[0]
  {
    if t.left.Nil? then t else MinNode(t.left)
  }

  /** The rightmost node of a subtree (`max(node*)`). */
  function MaxNode<V>(t: Tree<V>): (m: Tree<V>)
    requires t.Node?
    ensures m.Node? && m.key in Keys(t) && m.key == InOrder(t)[|InOrder(t)| - 1]
  {
    if t.right.Nil? then t else MaxNode(t.right)
  }

  /** In an ordered tree the leftmost node holds the least key and its own value. */
  lemma {:induction false} MinNodeLeast<V>(t: Tree<V>)
    requires t.Node? && Ordered(t)
    ensures forall k | k in Keys(t) :: MinNode(t).key <= k
    ensures MinNode(t).key in Contents(t) && Contents(t)[MinNode(t).key] == MinNode(t).val
  {
    OrderedContents(t);
    if t.left.Node? {
      MinNodeLeast(t.left);
      ContentsKeys(t.left);
    }
  }

  /** In an ordered tree the rightmost node holds the greatest key and its own value. */
  lemma {:induction false} MaxNodeGreatest<V>(t: Tree<V>)
    requires t.Node? && Ordered(t)
    ensures forall k | k in Keys(t) :: k <= MaxNode(t).key
    ensures MaxNode(t).key in Contents(t) && Contents(t)[MaxNode(t).key] == MaxNode(t).val
  {
    OrderedContents(t);
    if t.right.Node? {
      MaxNodeGreatest(t.right);
      ContentsKeys(t.right);
    }
  }
}
