/** The source as written, where it departs from the left-leaning red-black algorithm,
    next to the facts that show the departure. The rest of the model uses the
    corrected definitions of `Repair`, `Insert`, `Delete` and `Queries`. */
module Findings {
  import opened Common
  import opened Trees
  import opened Repair
  import opened Insert
  import opened Delete
  import opened Queries

  /** The tree that `put(1)`, `put(2)`, `put(3)` build: three black nodes. */
  function Three<V>(v: V): (t: Tree<V>)
    ensures IsLLRB(t) && Keys(t) == {1, 2, 3}
  {
    var l := Node(Black, Nil, 1, v, Nil, 1);
    var r := Node(Black, Nil, 3, v, Nil, 1);
    var e: Tree<V> := Nil;
    assert Keys(e) == {} && RedBlack(e) && Ordered(e) && SizeConsistent(e);
    assert Keys(l) == {1};
    assert Keys(r) == {3};
    assert RedBlack(l) && RedBlack(r) && Ordered(l) && Ordered(r);
    assert SizeConsistent(l) && SizeConsistent(r);
    Node(Black, l, 2, v, r, 3)
  }

  lemma ThreeFromPuts<V>(v: V)
    ensures Blacken(Put(Blacken(Put(Blacken(Put(Nil, 1, v)), 2, v)), 3, v)) == Three(v)
  {
    var t1 := Blacken(Put(Nil, 1, v));
    assert t1 == Node(Black, Nil, 1, v, Nil, 1);
    var p2 := Node(Black, t1.left, 1, v, Put(Nil, 2, v), 1);
    assert FixUp(p2) == Node(Black, Node(Red, Nil, 1, v, Nil, 1), 2, v, Nil, 2);
    var t2 := Blacken(Put(t1, 2, v));
    assert t2 == Node(Black, Node(Red, Nil, 1, v, Nil, 1), 2, v, Nil, 2);
    var p3 := t2.(right := Put(Nil, 3, v));
    assert FlipColors(p3) == Node(Red, Node(Black, Nil, 1, v, Nil, 1), 2, v, Node(Black, Nil, 3, v, Nil, 1), 2);
  }

  // ------------------------------------------------ rotations that keep stale counts

  /** `rotateLeft` as written: the links and colours move, the counts do not. */
  function RotateLeftAsWritten<V>(h: Tree<V>): (x: Tree<V>)
    requires h.Node? && IsRed(h.right)
    ensures InOrder(x) == InOrder(h) && Keys(x) == Keys(h)
    ensures x.Node? && x.left.Node? && x.size == h.right.size && x.left.size == h.size
  {
    var p := h.right;
    Node(h.color, Node(Red, h.left, h.key, h.val, p.left, h.size), p.key, p.val, p.right, p.size)
  }

  /** `rotateRight` as written. */
  function RotateRightAsWritten<V>(h: Tree<V>): (x: Tree<V>)
    requires h.Node? && IsRed(h.left)
    ensures InOrder(x) == InOrder(h) && Keys(x) == Keys(h)
    ensures x.Node? && x.right.Node? && x.size == h.left.size && x.right.size == h.size
  {
    var p := h.left;
    Node(h.color, p.left, p.key, p.val, Node(Red, p.right, h.key, h.val, h.right, h.size), p.size)
  }

  /** `flipColors` as written: fixed colours, red above two black children. */
  function FlipColorsAsWritten<V>(h: Tree<V>): (x: Tree<V>)
    requires h.Node? && h.left.Node? && h.right.Node?
    ensures x.Node? && x.left.Node? && x.right.Node?
    ensures x.color == Red && x.left.color == Black && x.right.color == Black
    ensures InOrder(x) == InOrder(h) && Keys(x) == Keys(h)
  {
    h.(color := Red, left := h.left.(color := Black), right := h.right.(color := Black))
  }

  /** The repair step of `put` as written. */
  function FixUpAsWritten<V>(x: Tree<V>): (r: Tree<V>)
    requires x.Node?
    ensures r.Node? && InOrder(r) == InOrder(x) && Keys(r) == Keys(x)
  {
    var x2 := if IsRed(x.right) && !IsRed(x.left) then RotateLeftAsWritten(x) else x;
    var x3 := if IsRed(x2.left) && IsRed(x2.left.left) then RotateRightAsWritten(x2) else x2;
    var x4 := if IsRed(x3.left) && IsRed(x3.right) then FlipColorsAsWritten(x3) else x3;
    x4.(size := 1 + Size(x4.left) + Size(x4.right))
  }

  /** The recursive `put` as written; callers blacken the root as the public entry does. */
  function PutAsWritten<V>(x: Tree<V>, key: int, val: V): (r: Tree<V>)
    ensures r.Node? && Keys(r) == Keys(x) + {key}
  {
    if x.Nil? then Node(Red, Nil, key, val, Nil, 1)
    else
      var x1 :=
        if key < x.key then x.(left := PutAsWritten(x.left, key, val))
        else if x.key < key then x.(right := PutAsWritten(x.right, key, val))
        else x.(val := val);
      FixUpAsWritten(x1)
  }

  /** `put(1)`, `put(3)`, `put(2)` as written leave `size()` at 4 for three keys. */
  lemma StaleSizeAfterPuts<V>(v: V)
    ensures var t := Blacken(PutAsWritten(Blacken(PutAsWritten(Blacken(PutAsWritten(Nil, 1, v)), 3, v)), 2, v));
            Keys(t) == {1, 2, 3} && Size(t) == 4 && !SizeConsistent(t)
  {
    var t1 := Blacken(PutAsWritten(Nil, 1, v));
    assert t1 == Node(Black, Nil, 1, v, Nil, 1);
    assert PutAsWritten(Nil, 3, v) == Node(Red, Nil, 3, v, Nil, 1);
    var q := t1.(right := Node(Red, Nil, 3, v, Nil, 1));
    assert PutAsWritten(t1, 3, v) == FixUpAsWritten(q);
    var q2 := Node(Black, Node(Red, Nil, 1, v, Nil, 1), 3, v, Nil, 1);
    assert RotateLeftAsWritten(q) == q2;
    assert FixUpAsWritten(q) == q2.(size := 2);
    var t2 := Blacken(PutAsWritten(t1, 3, v));
    assert t2 == Node(Black, Node(Red, Nil, 1, v, Nil, 1), 3, v, Nil, 2);
    assert PutAsWritten(Nil, 2, v) == Node(Red, Nil, 2, v, Nil, 1);
    var l := Node(Red, Nil, 1, v, Node(Red, Nil, 2, v, Nil, 1), 1);
    assert PutAsWritten(t2.left, 2, v) == FixUpAsWritten(l);
    var l2 := Node(Red, Node(Red, Nil, 1, v, Nil, 1), 2, v, Nil, 1);
    assert RotateLeftAsWritten(l) == l2;
    assert FixUpAsWritten(l) == l2.(size := 2);
    var l' := PutAsWritten(t2.left, 2, v);
    assert l' == Node(Red, Node(Red, Nil, 1, v, Nil, 1), 2, v, Nil, 2);
    var y := t2.(left := l');
    assert PutAsWritten(t2, 2, v) == FixUpAsWritten(y);
    var z := RotateRightAsWritten(y);
    assert z == Node(Black, Node(Red, Nil, 1, v, Nil, 1), 2, v, Node(Red, Nil, 3, v, Nil, 2), 2);
    assert FixUpAsWritten(y) == Node(Red, Node(Black, Nil, 1, v, Nil, 1), 2, v, Node(Black, Nil, 3, v, Nil, 2), 4);
  }

  /** Under the corrected put the same three puts build the three-key tree, whose
      count is 3. */
  lemma CountAfterPuts<V>(v: V)
    ensures Blacken(Put(Blacken(Put(Blacken(Put(Nil, 1, v)), 3, v)), 2, v)) == Three(v)
    ensures Size(Three(v)) == 3
  {
    var t1 := Blacken(Put(Nil, 1, v));
    assert t1 == Node(Black, Nil, 1, v, Nil, 1);
    var q := t1.(right := Node(Red, Nil, 3, v, Nil, 1));
    assert Put(t1, 3, v) == FixUp(q);
    assert RotateLeft(q) == Node(Black, Node(Red, Nil, 1, v, Nil, 1), 3, v, Nil, 1);
    var t2 := Blacken(Put(t1, 3, v));
    assert t2 == Node(Black, Node(Red, Nil, 1, v, Nil, 1), 3, v, Nil, 2);
    var l := Node(Red, Nil, 1, v, Node(Red, Nil, 2, v, Nil, 1), 1);
    assert Put(t2.left, 2, v) == FixUp(l);
    assert RotateLeft(l) == Node(Red, Node(Red, Nil, 1, v, Nil, 1), 2, v, Nil, 1);
    var y := t2.(left := Node(Red, Node(Red, Nil, 1, v, Nil, 1), 2, v, Nil, 2));
    assert Put(t2, 2, v) == FixUp(y);
    var z := RotateRight(y);
    assert z == Node(Black, Node(Red, Nil, 1, v, Nil, 1), 2, v, Node(Red, Nil, 3, v, Nil, 1), 2);
    assert FixUp(y) == Node(Red, Node(Black, Nil, 1, v, Nil, 1), 2, v, Node(Black, Nil, 3, v, Nil, 1), 3);
  }

  // ------------------------------------------------ the colour flip

  /** The repair step of `put` with the corrected rotations and the flip as written. */
  function FixUpAssignedFlip<V>(x: Tree<V>): (r: Tree<V>)
    requires x.Node?
    ensures r.Node? && InOrder(r) == InOrder(x) && Keys(r) == Keys(x)
  {
    var x2 := if IsRed(x.right) && !IsRed(x.left) then RotateLeft(x) else x;
    var x3 := if IsRed(x2.left) && IsRed(x2.left.left) then RotateRight(x2) else x2;
    var x4 := if IsRed(x3.left) && IsRed(x3.right) then FlipColorsAsWritten(x3) else x3;
    x4.(size := 1 + Size(x4.left) + Size(x4.right))
  }

  /** The nodes `put` repairs: below a red node both subtrees are red-black and not both
      red. Only a black node can then end up with two red children. */
  predicate PutContext<V>(x: Tree<V>) {
    x.Node? && (IsRed(x) ==> RedBlack(x.left) && RedBlack(x.right) && !(IsRed(x.left) && IsRed(x.right)))
  }

  /** In `put`'s context the flip happens only at a black node with two red children,
      where assigning the colours is the same as toggling them. */
  lemma FlipAssignedInPutContext<V>(x: Tree<V>)
    requires PutContext(x)
    ensures FixUpAssignedFlip(x) == FixUp(x)
  {
    var x2 := if IsRed(x.right) && !IsRed(x.left) then RotateLeft(x) else x;
    var x3 := if IsRed(x2.left) && IsRed(x2.left.left) then RotateRight(x2) else x2;
    assert x3.color == x.color;
    if IsRed(x3.left) && IsRed(x3.right) {
      assert !IsRed(x);
      assert FlipColorsAsWritten(x3) == FlipColors(x3);
    }
  }

  /** `put` with the flip as written. */
  function PutAssignedFlip<V>(x: Tree<V>, key: int, val: V): (r: Tree<V>)
    ensures r.Node? && Keys(r) == Keys(x) + {key}
  {
    if x.Nil? then Node(Red, Nil, key, val, Nil, 1)
    else
      var x1 :=
        if key < x.key then x.(left := PutAssignedFlip(x.left, key, val))
        else if x.key < key then x.(right := PutAssignedFlip(x.right, key, val))
        else x.(val := val);
      FixUpAssignedFlip(x1)
  }

  /** On a red-black tree the flip as written builds the tree the toggle builds. */
  lemma {:induction false} PutAssignedFlipAgrees<V>(x: Tree<V>, key: int, val: V)
    requires RedBlack(x)
    ensures PutAssignedFlip(x, key, val) == Put(x, key, val)
  {
    if x.Node? {
      if key < x.key {
        PutAssignedFlipAgrees(x.left, key, val);
        PutRedBlack(x.left, key, val);
        FlipAssignedInPutContext(x.(left := Put(x.left, key, val)));
      } else if x.key < key {
        PutAssignedFlipAgrees(x.right, key, val);
        PutRedBlack(x.right, key, val);
        FlipAssignedInPutContext(x.(right := Put(x.right, key, val)));
      } else {
        FlipAssignedInPutContext(x.(val := val));
      }
    }
  }

  /** Where the move-red helpers need the flip, at a red node over two black children,
      the flip as written changes nothing, so no red link is passed down. */
  lemma FlipAssignedCannotBorrow<V>(h: Tree<V>)
    requires h.Node? && h.color == Red && h.left.Node? && h.right.Node?
    requires h.left.color == Black && h.right.color == Black
    ensures FlipColorsAsWritten(h) == h
    ensures IsRed(FlipColors(h).left) && IsRed(FlipColors(h).right)
  {
  }

  // ------------------------------------------------ the public delete_min / delete_max

  /** The public `delete_min()` as written: no reddening of the root before, no
      blackening after, so the wrapper is the bare recursive call `Delete.DeleteMin`
      under the wrapper's name. */
  function DeleteMinRootAsWritten<V>(t: Tree<V>): (r: Tree<V>)
    requires t.Node? && RedBlack(t)
    ensures InOrder(r) == InOrder(t)[1..]
  {
    DeleteMin(t)
  }

  /** The public `delete_max()` as written: likewise the bare recursive call
      `Delete.DeleteMax` under the wrapper's name. */
  function DeleteMaxRootAsWritten<V>(t: Tree<V>): (r: Tree<V>)
    requires NearRedBlack(t)
    ensures InOrder(r) == InOrder(t)[..|InOrder(t)| - 1]
  {
    DeleteMax(t)
  }

  /** On the three-key tree both leave a red node over a red left child at the root. */
  lemma RootDeletionsAsWrittenBreakColours<V>(v: V)
    ensures !IsLLRB(DeleteMinRootAsWritten(Three(v)))
    ensures !IsLLRB(DeleteMaxRootAsWritten(Three(v)))
    ensures IsLLRB(RemoveMin(Three(v))) && IsLLRB(RemoveMax(Three(v)))
  {
    var t := Three(v);
    var f := Node(Red, Node(Red, Nil, 1, v, Nil, 1), 2, v, Node(Red, Nil, 3, v, Nil, 1), 3);
    assert FlipColors(t) == f;
    assert MoveRedLeft(t) == f;
    assert PrepareLeft(t) == f;
    var h2 := f.(left := Nil);
    assert Balance(h2) == Node(Red, Node(Red, Nil, 2, v, Nil, 1), 3, v, Nil, 2);
    assert DeleteMin(t) == Balance(h2);
    assert LeanRight(t) == t;
    assert MoveRedRight(t) == f;
    assert PrepareRight(t) == f;
    var x3 := f.(right := Nil);
    assert DeleteMax(t) == Balance(x3);
    assert Balance(x3) == x3.(size := 2);
  }

  // ------------------------------------------------ delete_key as plain Hibbard deletion

  /** The recursive `delete_key` as written: plain Hibbard deletion. A node holding the
      key is bypassed when it has no right child, and otherwise replaced by the least
      node of its right subtree, which `delete_min` unlinks; there is no borrowing on
      the way down and no rebalancing on the way up. */
  function HibbardDelete<V>(p: Tree<V>, key: int): (r: Tree<V>)
    requires RedBlack(p)
    ensures SizeConsistent(p) ==> SizeConsistent(r)
  {
    if p.Nil? then Nil
    else if key < p.key then
      var l := HibbardDelete(p.left, key);
      p.(left := l, size := Size(l) + Size(p.right) + 1)
    else if p.key < key then
      var r := HibbardDelete(p.right, key);
      p.(right := r, size := Size(p.left) + Size(r) + 1)
    else if p.right.Nil? then p.left
    else
      var m := MinNode(p.right);
      var r := DeleteMin(p.right);
      Node(m.color, p.left, m.key, m.val, r, Size(p.left) + Size(r) + 1)
  }

  /** The colour and the size field of a node play no part in its views. */
  lemma Relabel<V>(t: Tree<V>, c: Color, n: int)
    requires t.Node?
    ensures Ordered(t.(color := c, size := n)) == Ordered(t)
    ensures Contents(t.(color := c, size := n)) == Contents(t)
  {
    var u := t.(color := c, size := n);
    assert u.left == t.left && u.right == t.right && u.key == t.key && u.val == t.val;
  }

  /** Replacing the node that holds the key by its successor. */
  lemma HibbardSuccessorContents<V>(p: Tree<V>)
    requires p.Node? && p.right.Node? && RedBlack(p) && Ordered(p)
    ensures Ordered(HibbardDelete(p, p.key))
    ensures Contents(HibbardDelete(p, p.key)) == Contents(p) - {p.key}
  {
    SuccessorContents(p);
    var m := MinNode(p.right);
    var r := DeleteMin(p.right);
    var x := p.(key := m.key, val := m.val, right := r);
    var n := Size(p.left) + Size(r) + 1;
    assert HibbardDelete(p, p.key) == Node(m.color, p.left, m.key, m.val, r, n);
    assert Node(m.color, p.left, m.key, m.val, r, n) == x.(color := m.color, size := n);
    Relabel(x, m.color, n);
  }

  /** Removing the node that holds the key, by bypassing or by its successor. */
  lemma HibbardFoundContents<V>(p: Tree<V>)
    requires p.Node? && RedBlack(p) && Ordered(p)
    ensures Ordered(HibbardDelete(p, p.key))
    ensures Contents(HibbardDelete(p, p.key)) == Contents(p) - {p.key}
  {
    if p.right.Nil? {
      ContentsKeys(p.left);
      assert HibbardDelete(p, p.key) == p.left;
      assert Contents(p) - {p.key} == Contents(p.left);
    } else {
      HibbardSuccessorContents(p);
    }
  }

  /** Hibbard deletion removes exactly the key and keeps the order. */
  lemma {:induction false} HibbardDeleteContents<V>(p: Tree<V>, key: int)
    requires RedBlack(p) && Ordered(p)
    ensures Ordered(HibbardDelete(p, key))
    ensures Contents(HibbardDelete(p, key)) == Contents(p) - {key}
    ensures Keys(HibbardDelete(p, key)) == Keys(p) - {key}
  {
    if p.Node? {
      if key < p.key {
        HibbardDeleteContents(p.left, key);
        HibbardLeftStep(p, key);
      } else if p.key < key {
        HibbardDeleteContents(p.right, key);
        HibbardRightStep(p, key);
      } else {
        HibbardFoundContents(p);
      }
    }
    ContentsKeys(p);
    ContentsKeys(HibbardDelete(p, key));
  }

  /** A child with the same map leaves the node's views as they were. */
  lemma SameLeft<V>(h: Tree<V>, l': Tree<V>)
    requires h.Node? && Ordered(h) && Ordered(l') && Contents(l') == Contents(h.left)
    ensures Ordered(h.(left := l')) && Contents(h.(left := l')) == Contents(h)
  {
    ContentsKeys(l');
    ContentsKeys(h.left);
  }

  lemma SameRight<V>(h: Tree<V>, r': Tree<V>)
    requires h.Node? && Ordered(h) && Ordered(r') && Contents(r') == Contents(h.right)
    ensures Ordered(h.(right := r')) && Contents(h.(right := r')) == Contents(h)
  {
    ContentsKeys(r');
    ContentsKeys(h.right);
  }

  lemma RemoveAbsent<V>(m: map<int, V>, k: int)
    requires k !in m
    ensures m - {k} == m
  {
  }

  /** A left child whose map lost at most the key `m`, which is below the node's key. */
  lemma WithoutLeft<V>(h: Tree<V>, l': Tree<V>, m: int)
    requires h.Node? && Ordered(h) && Ordered(l') && m < h.key
    requires Contents(l') == Contents(h.left) - {m}
    ensures Ordered(h.(left := l')) && Contents(h.(left := l')) == Contents(h) - {m}
  {
    if m in Keys(h.left) {
      ReplaceLeft(h, l', m);
    } else {
      assert m !in Contents(h.left) && m !in Contents(h) by {
        ContentsKeys(h.left);
        ContentsKeys(h);
      }
      RemoveAbsent(Contents(h.left), m);
      RemoveAbsent(Contents(h), m);
      SameLeft(h, l');
    }
  }

  /** A right child whose map lost at most the key `m`, which is above the node's key. */
  lemma WithoutRight<V>(h: Tree<V>, r': Tree<V>, m: int)
    requires h.Node? && Ordered(h) && Ordered(r') && h.key < m
    requires Contents(r') == Contents(h.right) - {m}
    ensures Ordered(h.(right := r')) && Contents(h.(right := r')) == Contents(h) - {m}
  {
    if m in Keys(h.right) {
      ReplaceRight(h, r', m);
    } else {
      assert m !in Contents(h.right) && m !in Contents(h) by {
        ContentsKeys(h.right);
        ContentsKeys(h);
      }
      RemoveAbsent(Contents(h.right), m);
      RemoveAbsent(Contents(h), m);
      SameRight(h, r');
    }
  }

  /** One step down the left: the views of the rebuilt node follow from its left child's. */
  lemma HibbardLeftStep<V>(p: Tree<V>, key: int)
    requires p.Node? && RedBlack(p) && Ordered(p) && key < p.key
    requires Ordered(HibbardDelete(p.left, key))
    requires Contents(HibbardDelete(p.left, key)) == Contents(p.left) - {key}
    ensures Ordered(HibbardDelete(p, key))
    ensures Contents(HibbardDelete(p, key)) == Contents(p) - {key}
  {
    var l := HibbardDelete(p.left, key);
    var n := Size(l) + Size(p.right) + 1;
    assert HibbardDelete(p, key) == p.(left := l).(color := p.color, size := n);
    Relabel(p.(left := l), p.color, n);
    WithoutLeft(p, l, key);
  }

  /** One step down the right, symmetrically. */
  lemma HibbardRightStep<V>(p: Tree<V>, key: int)
    requires p.Node? && RedBlack(p) && Ordered(p) && p.key < key
    requires Ordered(HibbardDelete(p.right, key))
    requires Contents(HibbardDelete(p.right, key)) == Contents(p.right) - {key}
    ensures Ordered(HibbardDelete(p, key))
    ensures Contents(HibbardDelete(p, key)) == Contents(p) - {key}
  {
    var r := HibbardDelete(p.right, key);
    var n := Size(p.left) + Size(r) + 1;
    assert HibbardDelete(p, key) == p.(right := r).(color := p.color, size := n);
    Relabel(p.(right := r), p.color, n);
    WithoutRight(p, r, key);
  }

  /** The public `delete_key(key)` around Hibbard deletion: redden the root, delete,
      blacken the root. */
  function DeleteKeyAsWritten<V>(t: Tree<V>, key: int): (r: Tree<V>)
    requires IsLLRB(t) && key in Keys(t)
    ensures Ordered(r) && SizeConsistent(r) && Contents(r) == Contents(t) - {key}
  {
    var h := RedRoot(t);
    HibbardDeleteContents(h, key);
    Blacken(HibbardDelete(h, key))
  }

  /** Deleting key 1 from the three-key tree leaves a null link beside a black node:
      the black heights differ, and a later `delete_min` would reach the node holding 2,
      find no left child, and drop the node holding 3 with it. */
  lemma HibbardBreaksBlackBalance<V>(v: V)
    ensures DeleteKeyAsWritten(Three(v), 1) == Node(Black, Nil, 2, v, Node(Black, Nil, 3, v, Nil, 1), 2)
    ensures !RedBlack(DeleteKeyAsWritten(Three(v), 1))
    ensures IsLLRB(Remove(Three(v), 1))
  {
    var t := Three(v);
    var h := t.(color := Red);
    assert RedRoot(t) == h;
    assert HibbardDelete(t.left, 1) == Nil;
    assert HibbardDelete(h, 1) == h.(left := Nil, size := 2);
  }

  // ------------------------------------------------ ceiling

  /** The recursive `ceiling` as written: its equality test `key_less && key_more`
      never holds, so a node holding `key` is passed by to the right. */
  function CeilingAsWritten<V>(x: Tree<V>, key: int): (r: Option<int>)
    ensures r.Some? ==> r.value in Keys(x)
  {
    if x.Nil? then None
    else
      var k, keyLess, keyMore := x.key, key < x.key, x.key < key;
      if keyLess && keyMore then Some(k)
      else if keyLess then
        var t := CeilingAsWritten(x.left, key);
        if t.Some? then t else Some(x.key)
      else CeilingAsWritten(x.right, key)
  }

  /** What the code computes is the least key strictly above `key`. */
  lemma {:induction false} CeilingAsWrittenIsStrict<V>(t: Tree<V>, key: int)
    requires Ordered(t)
    ensures IsCeiling(Keys(t), key + 1, CeilingAsWritten(t, key))
  {
    if t.Node? {
      if key < t.key {
        CeilingAsWrittenIsStrict(t.left, key);
        assert forall k | k in Keys(t.right) :: t.key < k;
      } else {
        CeilingAsWrittenIsStrict(t.right, key);
        assert forall k | k in Keys(t.left) :: k < key + 1;
      }
    }
  }

  /** A table holding just 5: `ceiling(5)` as written finds nothing. */
  lemma CeilingAsWrittenMissesStoredKey<V>(v: V)
    ensures CeilingAsWritten(Node(Black, Nil, 5, v, Nil, 1), 5) == None
    ensures Ceiling(Node(Black, Nil, 5, v, Nil, 1), 5) == Some(5)
  {
  }
}
