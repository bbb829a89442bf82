/** Insertion: the recursive `put` that descends to a null link, adds a red leaf or
    overwrites a value, and repairs the colours on the way back up. */
module Insert {
  import opened Trees
  import opened Repair

  function Put<V>(x: Tree<V>, key: int, val: V): (r: Tree<V>)
    ensures r.Node? && Keys(r) == Keys(x) + {key}
    ensures SizeConsistent(x) ==> SizeConsistent(r)
  {
    if x.Nil? then Node(Red, Nil, key, val, Nil, 1)
    else
      var x1 :=
        if key < x.key then x.(left := Put(x.left, key, val))
        else if x.key < key then x.(right := Put(x.right, key, val))
        else x.(val := val);
      FixUp(x1)
  }

  /** The repair `put` applies on the way back up: rotate a right-leaning red link left,
      rotate two reds in a row right, flip a node with two red children, then recount. */
  function FixUp<V>(x: Tree<V>): (r: Tree<V>)
    requires x.Node?
    ensures r.Node? && InOrder(r) == InOrder(x) && Keys(r) == Keys(x)
    ensures ChildrenConsistent(x) ==> SizeConsistent(r)
  {
    var x2 := if IsRed(x.right) && !IsRed(x.left) then RotateLeft(x) else x;
    var x3 := if IsRed(x2.left) && IsRed(x2.left.left) then RotateRight(x2) else x2;
    var x4 := if IsRed(x3.left) && IsRed(x3.right) then FlipColors(x3) else x3;
    x4.(size := 1 + Size(x4.left) + Size(x4.right))
  }

  /** `put` keeps symmetric order and stores `val` under `key`, leaving every other
      entry as it was. */
  lemma {:induction false} PutContents<V>(x: Tree<V>, key: int, val: V)
    requires Ordered(x)
    ensures Ordered(Put(x, key, val)) && Contents(Put(x, key, val)) == Contents(x)[key := val]
  {
    if x.Nil? {
    } else if key < x.key {
      PutContents(x.left, key, val);
      InsertLeft(x, Put(x.left, key, val), key, val);
      FixUpContents(x.(left := Put(x.left, key, val)));
    } else if x.key < key {
      PutContents(x.right, key, val);
      InsertRight(x, Put(x.right, key, val), key, val);
      FixUpContents(x.(right := Put(x.right, key, val)));
    } else {
      ContentsKeys(x.left);
      ContentsKeys(x.right);
      assert Ordered(x.(val := val));
      FixUpContents(x.(val := val));
    }
  }

  /** A left child that gained `key`, which lies below the node's key. */
  lemma InsertLeft<V>(x: Tree<V>, l': Tree<V>, key: int, val: V)
    requires x.Node? && Ordered(x) && Ordered(l') && key < x.key
    requires Contents(l') == Contents(x.left)[key := val]
    ensures Ordered(x.(left := l')) && Contents(x.(left := l')) == Contents(x)[key := val]
  {
    ContentsKeys(l');
    ContentsKeys(x.left);
    ContentsKeys(x.right);
    MapInsertLeft(Contents(x.left), Contents(x.right), x.key, x.val, key, val);
  }

  /** A right child that gained `key`, which lies above the node's key. */
  lemma InsertRight<V>(x: Tree<V>, r': Tree<V>, key: int, val: V)
    requires x.Node? && Ordered(x) && Ordered(r') && x.key < key
    requires Contents(r') == Contents(x.right)[key := val]
    ensures Ordered(x.(right := r')) && Contents(x.(right := r')) == Contents(x)[key := val]
  {
    ContentsKeys(r');
    ContentsKeys(x.left);
    ContentsKeys(x.right);
    MapInsertRight(Contents(x.left), Contents(x.right), x.key, x.val, key, val);
  }

  lemma FixUpContents<V>(x: Tree<V>)
    requires x.Node? && Ordered(x)
    ensures Ordered(FixUp(x)) && Contents(FixUp(x)) == Contents(x)
  {
    var x2 := if IsRed(x.right) && !IsRed(x.left) then RotateLeft(x) else x;
    if IsRed(x.right) && !IsRed(x.left) { RotateLeftContents(x); }
    var x3 := if IsRed(x2.left) && IsRed(x2.left.left) then RotateRight(x2) else x2;
    if IsRed(x2.left) && IsRed(x2.left.left) { RotateRightContents(x2); }
    if IsRed(x3.left) && IsRed(x3.right) { FlipColorsContents(x3); }
  }

  lemma MapInsertLeft<V>(a: map<int, V>, b: map<int, V>, k: int, v: V, key: int, val: V)
    requires key != k && key !in b
    ensures (a[key := val] + b)[k := v] == (a + b)[k := v][key := val]
  {
    var m1, m2 := (a[key := val] + b)[k := v], (a + b)[k := v][key := val];
    assert m1.Keys == m2.Keys;
    forall j | j in m1 ensures m1[j] == m2[j] { }
  }

  lemma MapInsertRight<V>(a: map<int, V>, b: map<int, V>, k: int, v: V, key: int, val: V)
    requires key != k
    ensures (a + b[key := val])[k := v] == (a + b)[k := v][key := val]
  {
    var m1, m2 := (a + b[key := val])[k := v], (a + b)[k := v][key := val];
    assert m1.Keys == m2.Keys;
    forall j | j in m1 ensures m1[j] == m2[j] { }
  }

  /** Red-black at every node except that a red root may have a red left child: what
      `put` hands back to its caller when it descended into a red node. */
  predicate RedBlackBelow<V>(t: Tree<V>) {
    t.Node? && !IsRed(t.right) && BlackHeight(t.left) == BlackHeight(t.right) &&
    RedBlack(t.left) && RedBlack(t.right)
  }

  /** A node that already satisfies the colour invariants is only recounted. */
  lemma FixUpRedBlack<V>(x: Tree<V>)
    requires x.Node? && RedBlack(x)
    ensures FixUp(x) == x.(size := 1 + Size(x.left) + Size(x.right))
  {
  }

  /** A red-black subtree recoloured black stays red-black, one black node higher. */
  lemma Blackened<V>(t: Tree<V>)
    requires t.Node? && RedBlack(t)
    ensures RedBlack(t.(color := Black))
    ensures BlackHeight(t.(color := Black)) == BlackHeight(t.left) + 1
  {
  }

  /** What `put` promises about the subtree `r` it hands back for the subtree `x`. */
  predicate PutRepaired<V>(r: Tree<V>, x: Tree<V>) {
    BlackHeight(r) == BlackHeight(x) &&
    (!IsRed(x) ==> RedBlack(r)) &&
    (IsRed(x) ==> IsRed(r) && RedBlackBelow(r))
  }

  /** `put` keeps the black height, and keeps every colour invariant under a node that
      is not red; below a red node it may leave two reds in a row at the top, which
      the caller's rotation repairs. */
  lemma {:induction false} PutRedBlack<V>(x: Tree<V>, key: int, val: V)
    requires RedBlack(x)
    ensures BlackHeight(Put(x, key, val)) == BlackHeight(x)
    ensures !IsRed(x) ==> RedBlack(Put(x, key, val))
    ensures IsRed(x) ==> IsRed(Put(x, key, val)) && RedBlackBelow(Put(x, key, val))
  {
    if x.Nil? {
    } else if key < x.key {
      PutRedBlack(x.left, key, val);
      FixLeft(x, Put(x.left, key, val));
    } else if x.key < key {
      PutRedBlack(x.right, key, val);
      FixRight(x, Put(x.right, key, val));
    } else {
      FixUpRedBlack(x.(val := val));
    }
  }

  /** The repair after an insertion into the left subtree. */
  lemma FixLeft<V>(x: Tree<V>, l': Tree<V>)
    requires x.Node? && RedBlack(x) && l'.Node? && PutRepaired(l', x.left)
    ensures PutRepaired(FixUp(x.(left := l')), x)
  {
    var l, r := x.left, x.right;
    var x1 := x.(left := l');
    if x.color == Black && IsRed(l) && IsRed(l'.left) {
      Blackened(l'.left);
      var y := Node(Black, l'.right, x.key, x.val, r, 0);
      assert RedBlack(y);
    } else if x.color == Black || !IsRed(l') {
      FixUpRedBlack(x1);
    }
  }

  /** The repair after an insertion into the right subtree. */
  lemma FixRight<V>(x: Tree<V>, r': Tree<V>)
    requires x.Node? && RedBlack(x) && r'.Node? && PutRepaired(r', x.right)
    ensures PutRepaired(FixUp(x.(right := r')), x)
  {
    if !IsRed(r') {
      FixUpRedBlack(x.(right := r'));
    } else if x.color == Black && IsRed(x.left) {
      FixRightSplit(x, r');
    } else {
      FixRightLeaning(x, r');
    }
  }

  /** A red link came up on the right beside a red left link: the flip splits them. */
  lemma FixRightSplit<V>(x: Tree<V>, r': Tree<V>)
    requires x.Node? && RedBlack(x) && r'.Node? && PutRepaired(r', x.right)
    requires IsRed(r') && x.color == Black && IsRed(x.left)
    ensures PutRepaired(FixUp(x.(right := r')), x)
  {
    Blackened(x.left);
    Blackened(r');
    FixUpSplit(x.(right := r'));
  }

  /** A red link came up on the right beside a black left link: the rotation turns
      it to the left. */
  lemma FixRightLeaning<V>(x: Tree<V>, r': Tree<V>)
    requires x.Node? && RedBlack(x) && r'.Node? && PutRepaired(r', x.right)
    requires IsRed(r') && !(x.color == Black && IsRed(x.left))
    ensures PutRepaired(FixUp(x.(right := r')), x)
  {
    var l := x.left;
    assert RedBlack(r') && !IsRed(l);
    var y := Node(Red, l, x.key, x.val, r'.left, 1 + Size(l) + Size(r'.left));
    assert RedBlack(y);
    FixUpLeaning(x.(right := r'));
  }

  /** `fixup` at a node leaning right over a black left link only rotates left. */
  lemma FixUpLeaning<V>(x: Tree<V>)
    requires x.Node? && !IsRed(x.left) && IsRed(x.right) && !IsRed(x.right.right)
    ensures var b := x.right;
            var y := Node(Red, x.left, x.key, x.val, b.left, 1 + Size(x.left) + Size(b.left));
            FixUp(x) == Node(x.color, y, b.key, b.val, b.right, 1 + Size(y) + Size(b.right))
  {
    var b := x.right;
    var y := Node(Red, x.left, x.key, x.val, b.left, 1 + Size(x.left) + Size(b.left));
    assert RotateLeft(x) == Node(x.color, y, b.key, b.val, b.right, x.size);
  }

  /** `fixup` at a black node with two red children, the left one without a red left
      child, only flips the colours. */
  lemma FixUpSplit<V>(x: Tree<V>)
    requires x.Node? && x.color == Black && IsRed(x.left) && !IsRed(x.left.left) && IsRed(x.right)
    ensures FixUp(x) == Node(Red, x.left.(color := Black), x.key, x.val, x.right.(color := Black),
                             1 + Size(x.left) + Size(x.right))
  {
  }

  /** The public `put`: insert below the root, then colour the root black. On a table
      that satisfies every invariant the result does too, and maps `key` to `val`. */
  lemma PutKeepsLLRB<V>(t: Tree<V>, key: int, val: V)
    requires IsLLRB(t)
    ensures IsLLRB(Blacken(Put(t, key, val)))
    ensures Contents(Blacken(Put(t, key, val))) == Contents(t)[key := val]
  {
    PutContents(t, key, val);
    PutRedBlack(t, key, val);
    Blackened(Put(t, key, val));
  }
}
