/** Deletion: `delete_min`, `delete_max` and the red-black `delete` of one key. Each
    descends after borrowing a red link from a sibling (move-red steps) so that it never
    removes a lone black leaf, and calls `balance` on the way back up. */
module Delete {
  import opened Trees
  import opened Repair

  /** A node a deletion may descend left from: red-black, and the node or its left
      child red, so a red link is available to be pushed down the left spine. */
  predicate LeftBorrowable<V>(h: Tree<V>) {
    h.Node? && RedBlack(h) && (IsRed(h) || IsRed(h.left))
  }

  /** What every deletion step hands back: a red-black subtree of the same black
      height, not red when the subtree it replaced was not red. */
  predicate Repaired<V>(r: Tree<V>, h: Tree<V>) {
    RedBlack(r) && BlackHeight(r) == BlackHeight(h) && (!IsRed(h) ==> !IsRed(r))
  }

  /** The step before descending left: borrow a red link when the left child and its
      left child are both black. */
  function PrepareLeft<V>(h: Tree<V>): (x: Tree<V>)
    requires h.Node? && h.left.Node? && RedBlack(h)
    ensures x.Node? && x.left.Node? && InOrder(x) == InOrder(h) && Keys(x) == Keys(h)
    ensures SizeConsistent(h) ==> SizeConsistent(x)
  {
    if !IsRed(h.left) && !IsRed(h.left.left) then MoveRedLeft(h) else h
  }

  /** After the borrowing step the left child is a node a deletion may descend from. */
  lemma PrepareLeftShape<V>(h: Tree<V>)
    requires h.Node? && h.left.Node? && RedBlack(h)
    ensures LeftBorrowable(PrepareLeft(h).left)
  {
    var l, r := h.left, h.right;
    if !IsRed(l) && !IsRed(l.left) {
      var hf := FlipColors(h);
      assert hf.left == l.(color := Red) && hf.right == r.(color := Red);
      if IsRed(r.left) {
        var rl := r.left;
        assert MoveRedLeft(h).left == Node(Black, l.(color := Red), h.key, h.val, rl.left,
                                           1 + Size(l) + Size(rl.left));
      }
    }
  }

  function DeleteMin<V>(h: Tree<V>): (r: Tree<V>)
    requires h.Node? && RedBlack(h)
    ensures InOrder(r) == InOrder(h)[1..]
    ensures SizeConsistent(h) ==> SizeConsistent(r)
    decreases |InOrder(h)|
  {
    if h.left.Nil? then
      ZeroBlackHeight(h.right);
      assert h.right.Nil? && InOrder(h) == [h.key];
      Nil
    else
      var h1 := PrepareLeft(h);
      PrepareLeftShape(h);
      var l' := DeleteMin(h1.left);
      InOrderWithoutFirst(h1, l');
      Balance(h1.(left := l'))
  }

  /** Rebalancing after a left descent: whatever repaired subtree comes back for the
      left child, `balance` restores the colour invariants at the node. */
  lemma LeftFinish<V>(h: Tree<V>, l': Tree<V>)
    requires LeftBorrowable(h) && h.left.Node?
    requires Repaired(l', PrepareLeft(h).left)
    ensures Repaired(Balance(PrepareLeft(h).(left := l')), h)
  {
    var l, r := h.left, h.right;
    if IsRed(l) || IsRed(l.left) {
      assert PrepareLeft(h) == h;
      LeftFinishKept(h, l');
    } else {
      assert h.color == Red && r.Node? && r.color == Black;
      var hf := FlipColors(h);
      assert hf.left == l.(color := Red) && hf.right == r.(color := Red);
      if IsRed(r.left) {
        var rl := r.left;
        var nl := Node(Black, l.(color := Red), h.key, h.val, rl.left, 1 + Size(l) + Size(rl.left));
        var nr := Node(Black, rl.right, r.key, r.val, r.right, 1 + Size(rl.right) + Size(r.right));
        assert PrepareLeft(h) == Node(Red, nl, rl.key, rl.val, nr, h.size);
        LeftFinishBorrowed(h, l', nl, nr);
      } else {
        assert PrepareLeft(h) == hf;
        LeftFinishFlipped(h, l', hf);
      }
    }
  }

  /** No borrowing was needed: the repaired child slots back in unchanged. */
  lemma LeftFinishKept<V>(h: Tree<V>, l': Tree<V>)
    requires LeftBorrowable(h) && h.left.Node? && Repaired(l', h.left)
    ensures Repaired(Balance(h.(left := l')), h)
  {
    var h2 := h.(left := l');
    assert !IsRed(h.right);
    assert !(IsRed(l') && IsRed(l'.left));
    assert Balance(h2) == h2.(size := Size(l') + Size(h.right) + 1);
  }

  /** The left child borrowed a node from its sibling's left child (`move_red_left`
      with its two rotations): `balance` changes nothing but the count. */
  lemma LeftFinishBorrowed<V>(h: Tree<V>, l': Tree<V>, nl: Tree<V>, nr: Tree<V>)
    requires h.Node? && h.color == Red && h.right.Node? && h.right.left.Node?
    requires RedBlack(h.right)
    requires var r := h.right;
             var rl := r.left;
             r.color == Black && rl.color == Red &&
             nr == Node(Black, rl.right, r.key, r.val, r.right, 1 + Size(rl.right) + Size(r.right)) &&
             BlackHeight(h.left) == BlackHeight(r) && nl.Node? && nl.color == Black &&
             BlackHeight(nl) == BlackHeight(h.left)
    requires Repaired(l', nl)
    ensures Repaired(Balance(Node(Red, l', h.right.left.key, h.right.left.val, nr, h.size)), h)
  {
    var r := h.right;
    var rl := r.left;
    assert RedBlack(rl) && !IsRed(rl.right) && !IsRed(r.right);
    assert BlackHeight(rl.right) == BlackHeight(rl) == BlackHeight(r.left);
    assert RedBlack(nr) && BlackHeight(nr) == BlackHeight(r);
    var h2 := Node(Red, l', rl.key, rl.val, nr, h.size);
    assert !IsRed(l') && !IsRed(nr);
    assert Balance(h2) == h2.(size := Size(l') + Size(nr) + 1);
  }

  /** The left child borrowed by a colour flip alone: the red right link it leaves
      is rotated back, and a red pair coming up from below is split again. */
  lemma LeftFinishFlipped<V>(h: Tree<V>, l': Tree<V>, hf: Tree<V>)
    requires h.Node? && h.color == Red && h.left.Node? && h.left.color == Black
    requires h.right.Node? && h.right.color == Black && !IsRed(h.right.left)
    requires RedBlack(h.left) && RedBlack(h.right) && BlackHeight(h.left) == BlackHeight(h.right)
    requires hf == Node(Black, h.left.(color := Red), h.key, h.val, h.right.(color := Red), h.size)
    requires Repaired(l', hf.left)
    ensures Repaired(Balance(hf.(left := l')), h)
  {
    var l, r := h.left, h.right;
    assert BlackHeight(l') == BlackHeight(l.left) == BlackHeight(r.left) == BlackHeight(r.right);
    assert !IsRed(r.right) && RedBlack(r.left) && RedBlack(r.right);
    var h2 := hf.(left := l');
    if IsRed(l') {
      var y := Node(Black, r.left, r.key, r.val, r.right, 1 + Size(r.left) + Size(r.right));
      assert RedBlack(y) && BlackHeight(y) == BlackHeight(r);
      assert RedBlack(l'.(color := Black));
    } else {
      var y := Node(Red, l', h.key, h.val, r.left, 1 + Size(l') + Size(r.left));
      assert RedBlack(y);
      var x := Node(Black, y, r.key, r.val, r.right, h.size);
      assert RotateLeft(h2) == x;
      assert Balance(h2) == x.(size := Size(y) + Size(r.right) + 1);
    }
  }

  /** `delete_min` below a borrowable node keeps the colour invariants and the
      black height. */
  lemma {:induction false} DeleteMinRedBlack<V>(h: Tree<V>)
    requires LeftBorrowable(h)
    ensures Repaired(DeleteMin(h), h)
    decreases |InOrder(h)|
  {
    if h.left.Node? {
      var h1 := PrepareLeft(h);
      PrepareLeftShape(h);
      DeleteMinRedBlack(h1.left);
      LeftFinish(h, DeleteMin(h1.left));
    } else {
      ZeroBlackHeight(h.right);
    }
  }

  lemma MapRemoveUnder<V>(a: map<int, V>, b: map<int, V>, k: int, v: V, m: int)
    requires m != k && m !in b
    ensures ((a - {m}) + b)[k := v] == (a + b)[k := v] - {m}
  {
    var m1, m2 := ((a - {m}) + b)[k := v], (a + b)[k := v] - {m};
    assert m1.Keys == m2.Keys;
    forall x | x in m1 ensures m1[x] == m2[x] { }
  }

  lemma MapRemoveOver<V>(a: map<int, V>, b: map<int, V>, k: int, v: V, m: int)
    requires m != k && m !in a
    ensures (a + (b - {m}))[k := v] == (a + b)[k := v] - {m}
  {
    var m1, m2 := (a + (b - {m}))[k := v], (a + b)[k := v] - {m};
    assert m1.Keys == m2.Keys;
    forall x | x in m1 ensures m1[x] == m2[x] { }
  }

  /** Re-linking a left child from which one key `m` was removed removes exactly `m`
      from the ordered subtree. */
  lemma ReplaceLeft<V>(h: Tree<V>, l': Tree<V>, m: int)
    requires h.Node? && Ordered(h) && Ordered(l') && m in Keys(h.left)
    requires Contents(l') == Contents(h.left) - {m}
    ensures Ordered(h.(left := l')) && Contents(h.(left := l')) == Contents(h) - {m}
  {
    ContentsKeys(h.left);
    ContentsKeys(h.right);
    ContentsKeys(l');
    MapRemoveUnder(Contents(h.left), Contents(h.right), h.key, h.val, m);
  }

  /** The mirror image of `ReplaceLeft`. */
  lemma ReplaceRight<V>(h: Tree<V>, r': Tree<V>, m: int)
    requires h.Node? && Ordered(h) && Ordered(r') && m in Keys(h.right)
    requires Contents(r') == Contents(h.right) - {m}
    ensures Ordered(h.(right := r')) && Contents(h.(right := r')) == Contents(h) - {m}
  {
    ContentsKeys(h.left);
    ContentsKeys(h.right);
    ContentsKeys(r');
    MapRemoveOver(Contents(h.left), Contents(h.right), h.key, h.val, m);
  }

  lemma PrepareLeftContents<V>(h: Tree<V>)
    requires h.Node? && h.left.Node? && RedBlack(h) && Ordered(h)
    ensures Ordered(PrepareLeft(h)) && Contents(PrepareLeft(h)) == Contents(h)
  {
    if !IsRed(h.left) && !IsRed(h.left.left) {
      MoveRedLeftContents(h);
    }
  }

  /** `delete_min` on an ordered subtree removes exactly its least key and keeps the
      order. */
  lemma {:induction false} DeleteMinContents<V>(h: Tree<V>)
    requires h.Node? && RedBlack(h) && Ordered(h)
    ensures Ordered(DeleteMin(h))
    ensures Contents(DeleteMin(h)) == Contents(h) - {MinNode(h).key}
    ensures Keys(DeleteMin(h)) == Keys(h) - {MinNode(h).key}
    decreases |InOrder(h)|
  {
    if h.left.Nil? {
      ZeroBlackHeight(h.right);
      assert Contents(h) == map[h.key := h.val];
    } else {
      var h1 := PrepareLeft(h);
      PrepareLeftShape(h);
      PrepareLeftContents(h);
      var l' := DeleteMin(h1.left);
      DeleteMinContents(h1.left);
      assert MinNode(h1.left).key == InOrder(h1)[0] == MinNode(h).key;
      ReplaceLeft(h1, l', MinNode(h).key);
      BalanceContents(h1.(left := l'));
    }
    ContentsKeys(h);
    ContentsKeys(DeleteMin(h));
  }

  /** `balance` at a node whose left link is black and whose children are red-black
      and of equal black height yields a red-black node of the same colour and black
      height. */
  lemma BalanceLeftBlack<V>(x: Tree<V>)
    requires x.Node? && !IsRed(x.left) && RedBlack(x.left) && RedBlack(x.right)
    requires BlackHeight(x.left) == BlackHeight(x.right) && (IsRed(x) ==> !IsRed(x.right))
    ensures RedBlack(Balance(x)) && BlackHeight(Balance(x)) == BlackHeight(x)
    ensures IsRed(Balance(x)) == IsRed(x)
  {
    var a, b := x.left, x.right;
    if IsRed(b) {
      assert x.color == Black && !IsRed(b.right) && !IsRed(b.left) && RedBlack(b.left);
      var y := Node(Red, a, x.key, x.val, b.left, 1 + Size(a) + Size(b.left));
      assert RedBlack(y);
      BalanceLeaning(x);
    } else {
      assert Balance(x) == x.(size := Size(a) + Size(b) + 1);
    }
  }

  /** `balance` at a node leaning right over a black left link only rotates left. */
  lemma BalanceLeaning<V>(x: Tree<V>)
    requires x.Node? && !IsRed(x.left) && IsRed(x.right) && !IsRed(x.right.right)
    ensures var b := x.right;
            var y := Node(Red, x.left, x.key, x.val, b.left, 1 + Size(x.left) + Size(b.left));
            Balance(x) == Node(x.color, y, b.key, b.val, b.right, Size(y) + Size(b.right) + 1)
  {
    var b := x.right;
    var y := Node(Red, x.left, x.key, x.val, b.left, 1 + Size(x.left) + Size(b.left));
    assert RotateLeft(x) == Node(x.color, y, b.key, b.val, b.right, x.size);
  }

  /** `balance` at a black node with a red left link and red-black children of equal
      black height yields a red-black node of the same black height. */
  lemma BalanceLeftRed<V>(x: Tree<V>)
    requires x.Node? && x.color == Black && IsRed(x.left)
    requires RedBlack(x.left) && RedBlack(x.right) && BlackHeight(x.left) == BlackHeight(x.right)
    ensures RedBlack(Balance(x)) && BlackHeight(Balance(x)) == BlackHeight(x)
  {
    var a, b := x.left, x.right;
    if IsRed(b) {
      var y := Node(Red, a, x.key, x.val, b.left, 1 + Size(a) + Size(b.left));
      var x1 := Node(Black, y, b.key, b.val, b.right, x.size);
      assert RotateLeft(x) == x1;
      var z := Node(Red, b.left, b.key, b.val, b.right, 1 + Size(b.left) + Size(b.right));
      var x2 := Node(Black, a, x.key, x.val, z, x.size);
      assert RotateRight(x1) == x2;
      var x3 := Node(Red, a.(color := Black), x.key, x.val, z.(color := Black), x.size);
      assert FlipColors(x2) == x3;
      assert RedBlack(a.(color := Black)) && RedBlack(z.(color := Black));
      assert Balance(x) == x3.(size := Size(a) + Size(z) + 1);
    } else {
      assert Balance(x) == x.(size := Size(a) + Size(b) + 1);
    }
  }

  /** A node a right descent may enter: red-black children of equal black height, not
      both red, and none red below a red node. Besides red-black nodes this admits a
      black node leaning right, which the right move-red step leaves behind. */
  predicate NearRedBlack<V>(h: Tree<V>) {
    h.Node? && RedBlack(h.left) && RedBlack(h.right) &&
    BlackHeight(h.left) == BlackHeight(h.right) &&
    !(IsRed(h.left) && IsRed(h.right)) &&
    (IsRed(h) ==> !IsRed(h.left) && !IsRed(h.right))
  }

  /** A node a deletion may descend right from: a red link is at hand at the node or
      one of its children. */
  predicate RightBorrowable<V>(h: Tree<V>) {
    NearRedBlack(h) && (IsRed(h) || IsRed(h.left) || IsRed(h.right))
  }

  /** A near-red-black node without a red right link is red-black. */
  lemma NearRedBlackIsRedBlack<V>(h: Tree<V>)
    requires NearRedBlack(h) && !IsRed(h.right)
    ensures RedBlack(h)
  { }

  /** The first step of a right descent: turn a red left link to the right. */
  function LeanRight<V>(h: Tree<V>): (x: Tree<V>)
    requires h.Node?
    ensures x.Node? && InOrder(x) == InOrder(h) && Keys(x) == Keys(h)
    ensures SizeConsistent(h) ==> SizeConsistent(x)
    ensures NearRedBlack(h) ==> NearRedBlack(x) && !IsRed(x.left)
  {
    if IsRed(h.left) then
      var l := h.left;
      var z := Node(Red, l.right, h.key, h.val, h.right, 1 + Size(l.right) + Size(h.right));
      assert RotateRight(h) == Node(h.color, l.left, l.key, l.val, z, h.size);
      assert NearRedBlack(h) ==> RedBlack(z);
      RotateRight(h)
    else h
  }

  lemma LeanRightShape<V>(h: Tree<V>)
    requires NearRedBlack(h)
    ensures LeanRight(h).right.Nil? ==>
      LeanRight(h).left.Nil? && InOrder(h) == [LeanRight(h).key] && InOrder(h)[..|InOrder(h)| - 1] == []
    ensures RightBorrowable(h) ==> RightBorrowable(LeanRight(h))
    ensures Ordered(h) ==> LeanRight(h).key <= h.key
  {
    var x := LeanRight(h);
    if IsRed(h.left) {
      var l := h.left;
      var z := Node(Red, l.right, h.key, h.val, h.right, 1 + Size(l.right) + Size(h.right));
      assert x == Node(h.color, l.left, l.key, l.val, z, h.size);
      assert l.key in Keys(h.left);
    }
    if x.right.Nil? {
      ZeroBlackHeight(x.left);
    }
  }

  /** The step before descending right: borrow a red link when the right child and
      its left child are both black. */
  function PrepareRight<V>(x: Tree<V>): (y: Tree<V>)
    requires NearRedBlack(x) && x.right.Node? && !IsRed(x.left)
    ensures y.Node? && y.right.Node? && InOrder(y) == InOrder(x) && Keys(y) == Keys(x)
    ensures SizeConsistent(x) ==> SizeConsistent(y)
  {
    if !IsRed(x.right) && !IsRed(x.right.left) then
      assert x.left.Node?;
      MoveRedRight(x)
    else x
  }

  function DeleteMax<V>(h: Tree<V>): (r: Tree<V>)
    requires NearRedBlack(h)
    ensures InOrder(r) == InOrder(h)[..|InOrder(h)| - 1]
    ensures SizeConsistent(h) ==> SizeConsistent(r)
    decreases |InOrder(h)|
  {
    var x1 := LeanRight(h);
    LeanRightShape(h);
    if x1.right.Nil? then
      Nil
    else
      DescendMax(h);
      var x2 := PrepareRight(x1);
      var r' := DeleteMax(x2.right);
      MaxRemoved(h, r');
      Balance(x2.(right := r'))
  }

  lemma MaxRemoved<V>(h: Tree<V>, r': Tree<V>)
    requires NearRedBlack(h) && LeanRight(h).right.Node?
    requires var b := InOrder(PrepareRight(LeanRight(h)).right);
             InOrder(r') == b[..|b| - 1]
    ensures var x2 := PrepareRight(LeanRight(h));
            InOrder(x2.(right := r')) == InOrder(h)[..|InOrder(h)| - 1]
  {
    var x2 := PrepareRight(LeanRight(h));
    InOrderWithoutLast(x2, r');
  }

  /** Unless the node is the last one, `delete_max` goes on into the right subtree,
      which after leaning right and borrowing is a node it may enter again. */
  lemma DescendMax<V>(h: Tree<V>)
    requires NearRedBlack(h) && LeanRight(h).right.Node?
    ensures var x2 := PrepareRight(LeanRight(h));
            x2.right.Node? && NearRedBlack(x2.right) &&
            (RightBorrowable(h) ==> RightBorrowable(x2.right)) &&
            InOrder(x2) == InOrder(h) && |InOrder(x2.right)| < |InOrder(h)| &&
            (SizeConsistent(h) ==> SizeConsistent(x2)) &&
            (Ordered(h) ==> Ordered(x2) && Contents(x2) == Contents(h) &&
                            MaxNode(x2.right).key == MaxNode(h).key)
  {
    var x1 := LeanRight(h);
    LeanRightShape(h);
    var x2 := PrepareRight(x1);
    PrepareRightShape(x1);
    var a, b := InOrder(x2.left) + [x2.key], InOrder(x2.right);
    assert InOrder(x2) == a + b == InOrder(h);
    if Ordered(h) {
      LeanRightContents(h);
      PrepareRightContents(x1);
    }
  }

  lemma PrepareRightShape<V>(x: Tree<V>)
    requires NearRedBlack(x) && x.right.Node? && !IsRed(x.left)
    ensures NearRedBlack(PrepareRight(x).right)
    ensures RightBorrowable(x) ==> RightBorrowable(PrepareRight(x).right)
    ensures IsRed(PrepareRight(x).right.right) ==> PrepareRight(x).right.key == x.key
    ensures Ordered(x) ==> PrepareRight(x).key <= x.key
  {
    var l, r := x.left, x.right;
    if !IsRed(r) && !IsRed(r.left) {
      var xf := FlipColors(x);
      assert xf.left == l.(color := Red) && xf.right == r.(color := Red);
      if IsRed(l.left) {
        var z := Node(Black, l.right, x.key, x.val, r.(color := Red), 1 + Size(l.right) + Size(r));
        assert MoveRedRight(x).right == z && MoveRedRight(x).key == l.key;
        assert l.key in Keys(x.left);
        assert RedBlack(l) && !IsRed(l.right) && RedBlack(r.(color := Red));
      } else {
        assert MoveRedRight(x).right == r.(color := Red);
        assert RedBlack(r.(color := Red));
      }
    }
  }

  lemma PrepareRightContents<V>(x: Tree<V>)
    requires NearRedBlack(x) && x.right.Node? && !IsRed(x.left) && Ordered(x)
    ensures Ordered(PrepareRight(x)) && Contents(PrepareRight(x)) == Contents(x)
  {
    if !IsRed(x.right) && !IsRed(x.right.left) {
      MoveRedRightContents(x);
    }
  }

  lemma LeanRightContents<V>(h: Tree<V>)
    requires h.Node? && Ordered(h)
    ensures Ordered(LeanRight(h)) && Contents(LeanRight(h)) == Contents(h)
  {
    if IsRed(h.left) {
      RotateRightContents(h);
    }
  }

  /** `delete_max` on an ordered subtree removes exactly its greatest key and keeps
      the order. */
  lemma {:induction false} DeleteMaxContents<V>(h: Tree<V>)
    requires NearRedBlack(h) && Ordered(h)
    ensures Ordered(DeleteMax(h))
    ensures Contents(DeleteMax(h)) == Contents(h) - {MaxNode(h).key}
    ensures Keys(DeleteMax(h)) == Keys(h) - {MaxNode(h).key}
    decreases |InOrder(h)|
  {
    var x1 := LeanRight(h);
    var m := MaxNode(h).key;
    if x1.right.Nil? {
      LeanRightShape(h);
      LeanRightContents(h);
      assert Contents(x1) == map[x1.key := x1.val];
    } else {
      DescendMax(h);
      var x2 := PrepareRight(x1);
      var r' := DeleteMax(x2.right);
      DeleteMaxContents(x2.right);
      ReplaceRight(x2, r', m);
      BalanceContents(x2.(right := r'));
    }
    ContentsKeys(h);
    ContentsKeys(DeleteMax(h));
  }

  /** Rebalancing after a right descent: whatever repaired subtree comes back for the
      right child, and whatever entry the node ends up holding (its own, or its
      successor's when `delete` removes the node's key), `balance` restores the colour
      invariants at the node. */
  lemma RightFinish<V>(h: Tree<V>, k': int, v': V, r': Tree<V>)
    requires RightBorrowable(h) && LeanRight(h).right.Node?
    requires Repaired(r', PrepareRight(LeanRight(h)).right)
    ensures Repaired(Balance(PrepareRight(LeanRight(h)).(key := k', val := v', right := r')), h)
  {
    var l, r := h.left, h.right;
    var x1 := LeanRight(h);
    var x2 := PrepareRight(x1);
    var x3 := x2.(key := k', val := v', right := r');
    if IsRed(l) {
      var z := Node(Red, l.right, h.key, h.val, r, 1 + Size(l.right) + Size(r));
      assert x1 == Node(Black, l.left, l.key, l.val, z, h.size);
      assert x2 == x1 && RedBlack(l);
      assert BlackHeight(z) == BlackHeight(l.right) == BlackHeight(l.left);
      BalanceLeftBlack(x3);
    } else if IsRed(r) {
      assert x2 == x1 == h;
      BalanceLeftBlack(x3);
    } else if IsRed(r.left) {
      assert x2 == x1 == h;
      BalanceLeftBlack(x3);
    } else {
      assert x1 == h && l.Node? && RedBlack(l) && RedBlack(r);
      var lr, rr := l.(color := Red), r.(color := Red);
      assert FlipColors(h) == Node(Black, lr, h.key, h.val, rr, h.size);
      if IsRed(l.left) {
        var z := Node(Black, l.right, h.key, h.val, rr, 1 + Size(l.right) + Size(r));
        assert RotateRight(FlipColors(h)) == Node(Black, l.left, l.key, l.val, z.(color := Red), h.size);
        assert x2 == Node(Red, l.left.(color := Black), l.key, l.val, z, h.size);
        assert RedBlack(l.left);
        assert RedBlack(l.left.(color := Black));
        BalanceLeftBlack(x3);
      } else {
        assert x2 == Node(Black, lr, h.key, h.val, rr, h.size);
        assert RedBlack(lr);
        BalanceLeftRed(x3);
      }
    }
  }

  /** `delete_max` below a node with a red link at hand keeps the colour invariants
      and the black height. */
  lemma {:induction false} DeleteMaxRedBlack<V>(h: Tree<V>)
    requires RightBorrowable(h)
    ensures Repaired(DeleteMax(h), h)
    decreases |InOrder(h)|
  {
    var x1 := LeanRight(h);
    LeanRightShape(h);
    if x1.right.Nil? {
      assert x1 == h && h.left.Nil? && h.right.Nil? && IsRed(h);
    } else {
      DescendMax(h);
      var x2 := PrepareRight(x1);
      DeleteMaxRedBlack(x2.right);
      RightFinish(h, x2.key, x2.val, DeleteMax(x2.right));
      assert x2.(key := x2.key, val := x2.val, right := DeleteMax(x2.right)) == x2.(right := DeleteMax(x2.right));
    }
  }

  /** Red-black deletion of a key the subtree holds. On the way down it keeps a red
      link at hand exactly as `delete_min` (left) and `delete_max` (right) do; a node
      holding the key takes over its successor's entry, which is then removed from
      the right subtree by `delete_min`. */
  function Delete<V>(h: Tree<V>, key: int): (r: Tree<V>)
    requires NearRedBlack(h) && Ordered(h) && key in Keys(h)
    requires IsRed(h.right) ==> h.key <= key
    ensures SizeConsistent(h) ==> SizeConsistent(r)
    decreases |InOrder(h)|
  {
    if key < h.key then
      DescendLeft(h, key);
      var h1 := PrepareLeft(h);
      ChildSizes(h1);
      Balance(h1.(left := Delete(h1.left, key)))
    else
      var x1 := LeanRight(h);
      if key == x1.key && x1.right.Nil? then
        Nil
      else
        DescendRight(h, key);
        var x2 := PrepareRight(x1);
        ChildSizes(x2);
        if key == x2.key then
          var m := MinNode(x2.right);
          Balance(x2.(key := m.key, val := m.val, right := DeleteMin(x2.right)))
        else
          Balance(x2.(right := Delete(x2.right, key)))
  }

  lemma ChildSizes<V>(t: Tree<V>)
    requires t.Node?
    ensures SizeConsistent(t) ==> SizeConsistent(t.left) && SizeConsistent(t.right)
  {
  }

  /** A key below the node's lies in the left subtree, which after the borrowing
      step is a node `delete` may enter again. */
  lemma DescendLeft<V>(h: Tree<V>, key: int)
    requires NearRedBlack(h) && Ordered(h) && key in Keys(h) && key < h.key
    requires IsRed(h.right) ==> h.key <= key
    ensures h.left.Node? && RedBlack(h)
    ensures RightBorrowable(h) ==> LeftBorrowable(h)
    ensures var h1 := PrepareLeft(h);
            LeftBorrowable(h1.left) && NearRedBlack(h1.left) && !IsRed(h1.left.right) &&
            Ordered(h1) && Contents(h1) == Contents(h) &&
            Ordered(h1.left) && key in Keys(h1.left) && |InOrder(h1.left)| < |InOrder(h)|
  {
    assert key !in Keys(h.right);
    assert key in Keys(h.left) && RedBlack(h);
    var h1 := PrepareLeft(h);
    PrepareLeftShape(h);
    PrepareLeftContents(h);
    assert InOrder(h1) == InOrder(h1.left) + [h1.key] + InOrder(h1.right);
    assert key in Keys(h1.left);
  }

  /** The node stands at the bottom holding the key: removing it leaves nothing. */
  lemma DeleteLeaf<V>(h: Tree<V>, key: int)
    requires NearRedBlack(h) && Ordered(h) && key in Keys(h)
    requires key == LeanRight(h).key && LeanRight(h).right.Nil?
    ensures Contents(h) - {key} == map[] && Keys(h) - {key} == {}
    ensures RightBorrowable(h) ==> Repaired(Nil, h)
  {
    LeanRightShape(h);
    LeanRightContents(h);
    var x1 := LeanRight(h);
    assert Contents(x1) == map[key := x1.val];
    ContentsKeys(h);
    if IsRed(h.left) {
      assert false;
    }
    assert x1 == h && h.left.Nil?;
  }

  /** A key not below the node's: after leaning right and borrowing, either the node
      holds the key and its right subtree is red-black, or the key lies in the right
      subtree, a node `delete` may enter again. */
  lemma DescendRight<V>(h: Tree<V>, key: int)
    requires NearRedBlack(h) && Ordered(h) && key in Keys(h) && h.key <= key
    requires !(key == LeanRight(h).key && LeanRight(h).right.Nil?)
    ensures LeanRight(h).right.Node?
    ensures var x2 := PrepareRight(LeanRight(h));
            Ordered(x2) && Contents(x2) == Contents(h) && x2.right.Node? &&
            NearRedBlack(x2.right) && (RightBorrowable(h) ==> RightBorrowable(x2.right)) &&
            (key == x2.key ==> RedBlack(x2.right)) &&
            (key != x2.key ==>
               x2.key < key && key !in Keys(x2.left) && key in Keys(x2.right) &&
               Ordered(x2.right) && (IsRed(x2.right.right) ==> x2.right.key <= key)) &&
            |InOrder(x2.right)| < |InOrder(h)|
  {
    var x1 := LeanRight(h);
    LeanRightShape(h);
    LeanRightContents(h);
    assert x1.right.Node?;
    var x2 := PrepareRight(x1);
    PrepareRightShape(x1);
    PrepareRightContents(x1);
    assert InOrder(x2) == InOrder(x2.left) + [x2.key] + InOrder(x2.right);
    if key == x2.key {
      NearRedBlackIsRedBlack(x2.right);
    } else {
      assert x2.key < key && key in Keys(x2);
      assert key !in Keys(x2.left);
      assert key in Keys(x2.right);
    }
  }

  /** `delete` on its path into the left subtree. */
  lemma DeleteLeftPath<V>(h: Tree<V>, key: int)
    requires NearRedBlack(h) && Ordered(h) && key in Keys(h) && key < h.key
    requires IsRed(h.right) ==> h.key <= key
    requires h.left.Node? && RedBlack(h)
    requires var l := PrepareLeft(h).left;
             NearRedBlack(l) && Ordered(l) && key in Keys(l) && !IsRed(l.right)
    ensures Delete(h, key) == Balance(PrepareLeft(h).(left := Delete(PrepareLeft(h).left, key)))
  {
  }

  /** `delete` at the node holding the key, which takes over its successor's entry. */
  lemma DeleteFoundPath<V>(h: Tree<V>, key: int)
    requires NearRedBlack(h) && Ordered(h) && key in Keys(h) && h.key <= key
    requires !(key == LeanRight(h).key && LeanRight(h).right.Nil?) && LeanRight(h).right.Node?
    requires var x2 := PrepareRight(LeanRight(h));
             x2.right.Node? && key == x2.key && RedBlack(x2.right)
    ensures var x2 := PrepareRight(LeanRight(h));
            var m := MinNode(x2.right);
            Delete(h, key) == Balance(x2.(key := m.key, val := m.val, right := DeleteMin(x2.right)))
  {
  }

  /** `delete` on its path into the right subtree. */
  lemma DeleteRightPath<V>(h: Tree<V>, key: int)
    requires NearRedBlack(h) && Ordered(h) && key in Keys(h) && h.key <= key
    requires !(key == LeanRight(h).key && LeanRight(h).right.Nil?) && LeanRight(h).right.Node?
    requires var x2 := PrepareRight(LeanRight(h));
             x2.right.Node? && key != x2.key && NearRedBlack(x2.right) && Ordered(x2.right) &&
             key in Keys(x2.right) && (IsRed(x2.right.right) ==> x2.right.key <= key)
    ensures var x2 := PrepareRight(LeanRight(h));
            Delete(h, key) == Balance(x2.(right := Delete(x2.right, key)))
  {
  }

  /** The map identity behind taking over the successor's entry: the node's own entry
      `k` goes, the successor `m` moves from the right map to the node. */
  lemma MapSuccessor<V>(a: map<int, V>, b: map<int, V>, k: int, v: V, m: int)
    requires k !in a && k !in b && m in b && m !in a
    ensures (a + (b - {m}))[m := b[m]] == (a + b)[k := v] - {k}
  {
    var m1, m2 := (a + (b - {m}))[m := b[m]], (a + b)[k := v] - {k};
    assert m1.Keys == m2.Keys;
    forall x | x in m1 ensures m1[x] == m2[x] { }
  }

  /** Replacing a node's entry by its successor's and deleting the successor from the
      right subtree removes exactly the node's key. */
  lemma SuccessorContents<V>(x: Tree<V>)
    requires x.Node? && x.right.Node? && RedBlack(x.right) && Ordered(x)
    ensures var m := MinNode(x.right);
            var x' := x.(key := m.key, val := m.val, right := DeleteMin(x.right));
            Ordered(x') && Contents(x') == Contents(x) - {x.key}
  {
    SuccessorOrdered(x);
    SuccessorMap(x);
  }

  lemma SuccessorOrdered<V>(x: Tree<V>)
    requires x.Node? && x.right.Node? && RedBlack(x.right) && Ordered(x)
    ensures var m := MinNode(x.right);
            Ordered(x.(key := m.key, val := m.val, right := DeleteMin(x.right)))
  {
    var m := MinNode(x.right);
    var r' := DeleteMin(x.right);
    DeleteMinContents(x.right);
    MinNodeLeast(x.right);
    var x' := x.(key := m.key, val := m.val, right := r');
    assert x'.left == x.left && x'.key == m.key && x'.right == r';
    ContentsKeys(x.right);
    ContentsKeys(r');
    assert m.key in Keys(x.right) && x.key < m.key;
    assert forall k | k in Keys(x.left) :: k < m.key;
    assert Keys(r') == Keys(x.right) - {m.key};
    forall k | k in Keys(r') ensures m.key < k {
      assert k in Keys(x.right) && k != m.key;
    }
  }

  lemma SuccessorMap<V>(x: Tree<V>)
    requires x.Node? && x.right.Node? && RedBlack(x.right) && Ordered(x)
    ensures var m := MinNode(x.right);
            Contents(x.(key := m.key, val := m.val, right := DeleteMin(x.right))) == Contents(x) - {x.key}
  {
    var m := MinNode(x.right);
    var r' := DeleteMin(x.right);
    var a, b := Contents(x.left), Contents(x.right);
    assert x.key !in a && x.key !in b && m.key in b && m.key !in a &&
           b[m.key] == m.val && Contents(r') == b - {m.key} by {
      DeleteMinContents(x.right);
      MinNodeLeast(x.right);
      ContentsKeys(x.left);
      ContentsKeys(x.right);
      assert m.key in Keys(x.right) && x.key < m.key;
    }
    var x' := x.(key := m.key, val := m.val, right := r');
    assert Contents(x') == (a + (b - {m.key}))[m.key := b[m.key]];
    MapSuccessor(a, b, x.key, x.val, m.key);
  }

  /** Red-black deletion removes exactly the given key and keeps the order. */
  lemma {:induction false} DeleteContents<V>(h: Tree<V>, key: int)
    requires NearRedBlack(h) && Ordered(h) && key in Keys(h)
    requires IsRed(h.right) ==> h.key <= key
    ensures Ordered(Delete(h, key))
    ensures Contents(Delete(h, key)) == Contents(h) - {key}
    ensures Keys(Delete(h, key)) == Keys(h) - {key}
    decreases |InOrder(h)|
  {
    if key < h.key {
      DescendLeft(h, key);
      var h1 := PrepareLeft(h);
      var l' := Delete(h1.left, key);
      DeleteLeftPath(h, key);
      DeleteContents(h1.left, key);
      ReplaceLeft(h1, l', key);
      BalanceContents(h1.(left := l'));
    } else if key == LeanRight(h).key && LeanRight(h).right.Nil? {
      DeleteLeaf(h, key);
      assert Delete(h, key) == Nil;
    } else {
      DescendRight(h, key);
      var x2 := PrepareRight(LeanRight(h));
      if key == x2.key {
        SuccessorContents(x2);
        var m := MinNode(x2.right);
        DeleteFoundPath(h, key);
        BalanceContents(x2.(key := m.key, val := m.val, right := DeleteMin(x2.right)));
      } else {
        var r' := Delete(x2.right, key);
        DeleteRightPath(h, key);
        DeleteContents(x2.right, key);
        ReplaceRight(x2, r', key);
        BalanceContents(x2.(right := r'));
      }
    }
    ContentsKeys(h);
    ContentsKeys(Delete(h, key));
  }

  /** Red-black deletion below a node with a red link at hand keeps the colour
      invariants and the black height. */
  lemma {:induction false} DeleteRedBlack<V>(h: Tree<V>, key: int)
    requires RightBorrowable(h) && Ordered(h) && key in Keys(h)
    requires IsRed(h.right) ==> h.key <= key
    ensures Repaired(Delete(h, key), h)
    decreases |InOrder(h)|
  {
    if key < h.key {
      DescendLeft(h, key);
      var h1 := PrepareLeft(h);
      DeleteLeftPath(h, key);
      DeleteRedBlack(h1.left, key);
      LeftFinish(h, Delete(h1.left, key));
    } else if key == LeanRight(h).key && LeanRight(h).right.Nil? {
      DeleteLeaf(h, key);
    } else {
      DescendRight(h, key);
      var x2 := PrepareRight(LeanRight(h));
      if key == x2.key {
        var m := MinNode(x2.right);
        DeleteFoundPath(h, key);
        DeleteMinRedBlack(x2.right);
        RightFinish(h, m.key, m.val, DeleteMin(x2.right));
      } else {
        DeleteRightPath(h, key);
        DeleteRedBlack(x2.right, key);
        RightFinish(h, x2.key, x2.val, Delete(x2.right, key));
        assert x2.(key := x2.key, val := x2.val, right := Delete(x2.right, key))
            == x2.(right := Delete(x2.right, key));
      }
    }
  }

  /** The step every public deletion takes first: a root with two black children is
      coloured red, so the descent starts with a red link at hand. */
  function RedRoot<V>(t: Tree<V>): (h: Tree<V>)
    requires IsLLRB(t) && t.Node?
    ensures LeftBorrowable(h) && RightBorrowable(h)
    ensures Ordered(h) && SizeConsistent(h) && Keys(h) == Keys(t) && Contents(h) == Contents(t)
  {
    if !IsRed(t.left) && !IsRed(t.right) then
      Recolor(t, Red);
      t.(color := Red)
    else t
  }

  /** The public `delete_min()`: redden the root if need be, delete, blacken the root. */
  function RemoveMin<V>(t: Tree<V>): (r: Tree<V>)
    requires IsLLRB(t) && t.Node?
    ensures IsLLRB(r) && Contents(r) == Contents(t) - {MinNode(t).key}
    ensures forall k | k in Keys(t) :: MinNode(t).key <= k
  {
    var h := RedRoot(t);
    DeleteMinRedBlack(h);
    DeleteMinContents(h);
    MinNodeLeast(t);
    assert InOrder(h) == InOrder(t);
    var r := DeleteMin(h);
    Blacken(r)
  }

  /** The public `delete_max()`. */
  function RemoveMax<V>(t: Tree<V>): (r: Tree<V>)
    requires IsLLRB(t) && t.Node?
    ensures IsLLRB(r) && Contents(r) == Contents(t) - {MaxNode(t).key}
    ensures forall k | k in Keys(t) :: k <= MaxNode(t).key
  {
    var h := RedRoot(t);
    DeleteMaxRedBlack(h);
    DeleteMaxContents(h);
    MaxNodeGreatest(t);
    assert InOrder(h) == InOrder(t);
    var r := DeleteMax(h);
    Blacken(r)
  }

  /** The public `delete_key(key)` for a key the table holds. */
  function Remove<V>(t: Tree<V>, key: int): (r: Tree<V>)
    requires IsLLRB(t) && key in Keys(t)
    ensures IsLLRB(r) && Contents(r) == Contents(t) - {key}
  {
    var h := RedRoot(t);
    DeleteRedBlack(h, key);
    DeleteContents(h, key);
    var r := Delete(h, key);
    Blacken(r)
  }
}
