/** The local repair steps of the left-leaning red-black tree: rotations, the colour
    flip, the two move-red helpers and `balance`. Each returns the new subtree root, as
    the C++ functions return the node their caller re-links. */
module Repair {
  import opened Trees

  function Flip(c: Color): (r: Color)
    ensures r != c
  {
    if c == Red then Black else Red
  }

  /** Both children of a node are size-consistent (the node's own count may be stale). */
  predicate ChildrenConsistent<V>(t: Tree<V>) {
    t.Node? && SizeConsistent(t.left) && SizeConsistent(t.right)
  }

  /** Turns a right-leaning red link to the left. The promoted node takes over the old
      root's colour and count; the demoted node becomes red and gets its count anew. */
  function RotateLeft<V>(h: Tree<V>): (x: Tree<V>)
    requires h.Node? && IsRed(h.right)
    ensures x.Node? && x.left.Node?
    ensures InOrder(x) == InOrder(h) && Keys(x) == Keys(h)
    ensures x.color == h.color && x.left.color == Red
    ensures x.left.left == h.left && x.left.right == h.right.left && x.right == h.right.right
    ensures x.size == h.size
    ensures ChildrenConsistent(h) ==> ChildrenConsistent(x)
    ensures SizeConsistent(h) ==> SizeConsistent(x)
  {
    var p := h.right;
    Node(h.color,
         Node(Red, h.left, h.key, h.val, p.left, 1 + Size(h.left) + Size(p.left)),
         p.key, p.val, p.right, h.size)
  }

  /** Turns a left-leaning red link to the right; the mirror image of RotateLeft. */
  function RotateRight<V>(h: Tree<V>): (x: Tree<V>)
    requires h.Node? && IsRed(h.left)
    ensures x.Node? && x.right.Node?
    ensures InOrder(x) == InOrder(h) && Keys(x) == Keys(h)
    ensures x.color == h.color && x.right.color == Red
    ensures x.left == h.left.left && x.right.left == h.left.right && x.right.right == h.right
    ensures x.size == h.size
    ensures ChildrenConsistent(h) ==> ChildrenConsistent(x)
    ensures SizeConsistent(h) ==> SizeConsistent(x)
  {
    var p := h.left;
    Node(h.color, p.left, p.key, p.val,
         Node(Red, p.right, h.key, h.val, h.right, 1 + Size(p.right) + Size(h.right)),
         h.size)
  }

  /** Toggles the colour of a node and of both its children. */
  function FlipColors<V>(h: Tree<V>): (x: Tree<V>)
    requires h.Node? && h.left.Node? && h.right.Node?
    ensures x.Node? && x.left.Node? && x.right.Node?
    ensures x.color != h.color && x.left.color != h.left.color && x.right.color != h.right.color
    ensures x.key == h.key && x.val == h.val && x.size == h.size
    ensures x.left.(color := h.left.color) == h.left && x.right.(color := h.right.color) == h.right
    ensures InOrder(x) == InOrder(h) && Keys(x) == Keys(h)
    ensures ChildrenConsistent(h) ==> ChildrenConsistent(x)
    ensures SizeConsistent(h) ==> SizeConsistent(x)
  {
    h.(color := Flip(h.color),
       left := h.left.(color := Flip(h.left.color)),
       right := h.right.(color := Flip(h.right.color)))
  }

  /** Makes the left child or one of its children red by borrowing from the right
      sibling, before a deletion descends to the left. */
  function MoveRedLeft<V>(h: Tree<V>): (x: Tree<V>)
    requires h.Node? && h.left.Node? && h.right.Node? && h.right.color == Black
    ensures x.Node? && x.left.Node?
    ensures InOrder(x) == InOrder(h) && Keys(x) == Keys(h)
    ensures SizeConsistent(h) ==> SizeConsistent(x)
  {
    var h1 := FlipColors(h);
    if IsRed(h1.right.left) then
      FlipColors(RotateLeft(h1.(right := RotateRight(h1.right))))
    else
      h1
  }

  /** Makes the right child or one of its children red by borrowing from the left
      sibling, before a deletion descends to the right. */
  function MoveRedRight<V>(h: Tree<V>): (x: Tree<V>)
    requires h.Node? && h.left.Node? && h.right.Node? && h.left.color == Black
    ensures x.Node? && x.right.Node?
    ensures InOrder(x) == InOrder(h) && Keys(x) == Keys(h)
    ensures SizeConsistent(h) ==> SizeConsistent(x)
  {
    var h1 := FlipColors(h);
    if IsRed(h1.left.left) then
      FlipColors(RotateRight(h1))
    else
      h1
  }

  /** The clean-up applied on the way back up a deletion: straighten a right-leaning red
      link, split two reds in a row, flip a node with two red children, then recount. */
  function Balance<V>(h: Tree<V>): (x: Tree<V>)
    requires h.Node?
    ensures x.Node? && InOrder(x) == InOrder(h) && Keys(x) == Keys(h)
    ensures ChildrenConsistent(h) ==> SizeConsistent(x)
  {
    var h1 := if IsRed(h.right) then RotateLeft(h) else h;
    var h2 := if IsRed(h1.left) && IsRed(h1.left.left) then RotateRight(h1) else h1;
    var h3 := if IsRed(h2.left) && IsRed(h2.right) then FlipColors(h2) else h2;
    h3.(size := Size(h3.left) + Size(h3.right) + 1)
  }

  /** The map identity behind both rotations: re-associating two node entries around
      three subtrees' maps, when the entries' keys do not clash with the far side. */
  lemma MapRotate<V>(a: map<int, V>, b: map<int, V>, c: map<int, V>,
                     hk: int, hv: V, pk: int, pv: V)
    requires hk != pk && hk !in c && pk !in a && pk !in b
    ensures ((a + b)[hk := hv] + c)[pk := pv] == (a + (b + c)[pk := pv])[hk := hv]
  {
    var m1 := ((a + b)[hk := hv] + c)[pk := pv];
    var m2 := (a + (b + c)[pk := pv])[hk := hv];
    assert m1.Keys == m2.Keys;
    forall k | k in m1 ensures m1[k] == m2[k] { }
  }

  /** Recolouring a node changes none of its views. */
  lemma Recolor<V>(t: Tree<V>, c: Color)
    requires t.Node?
    ensures Ordered(t.(color := c)) == Ordered(t)
    ensures Keys(t.(color := c)) == Keys(t)
    ensures Contents(t.(color := c)) == Contents(t)
  {
    var u := t.(color := c);
    assert u.left == t.left && u.right == t.right && u.key == t.key;
  }

  /** Rotations keep symmetric order and the key-to-value map. */
  lemma RotateLeftContents<V>(h: Tree<V>)
    requires h.Node? && IsRed(h.right) && Ordered(h)
    ensures Ordered(RotateLeft(h)) && Contents(RotateLeft(h)) == Contents(h)
  {
    var p := h.right;
    var a, b, c := h.left, p.left, p.right;
    var y := Node(Red, a, h.key, h.val, b, 1 + Size(a) + Size(b));
    assert RotateLeft(h) == Node(h.color, y, p.key, p.val, c, h.size);
    assert Ordered(y) && forall k | k in Keys(y) :: k < p.key by {
      assert p.key in Keys(h.right);
      assert forall k | k in Keys(b) :: k in Keys(p);
    }
    assert forall k | k in Keys(c) :: p.key < k;
    assert Contents(RotateLeft(h)) == Contents(h) by {
      ContentsKeys(a);
      ContentsKeys(b);
      ContentsKeys(c);
      assert p.key in Keys(h.right);
      MapRotate(Contents(a), Contents(b), Contents(c), h.key, h.val, p.key, p.val);
    }
  }

  lemma RotateRightContents<V>(h: Tree<V>)
    requires h.Node? && IsRed(h.left) && Ordered(h)
    ensures Ordered(RotateRight(h)) && Contents(RotateRight(h)) == Contents(h)
  {
    var p := h.left;
    var a, b, c := p.left, p.right, h.right;
    var y := Node(Red, b, h.key, h.val, c, 1 + Size(b) + Size(c));
    assert RotateRight(h) == Node(h.color, a, p.key, p.val, y, h.size);
    assert Ordered(y) && forall k | k in Keys(y) :: p.key < k by {
      assert p.key in Keys(h.left);
      assert forall k | k in Keys(b) :: k in Keys(p);
    }
    assert forall k | k in Keys(a) :: k < p.key;
    assert Contents(RotateRight(h)) == Contents(h) by {
      ContentsKeys(a);
      ContentsKeys(b);
      ContentsKeys(c);
      assert p.key in Keys(h.left);
      MapRotate(Contents(a), Contents(b), Contents(c), p.key, p.val, h.key, h.val);
    }
  }

  lemma FlipColorsContents<V>(h: Tree<V>)
    requires h.Node? && h.left.Node? && h.right.Node?
    ensures Contents(FlipColors(h)) == Contents(h)
    ensures Ordered(FlipColors(h)) == Ordered(h)
  {
    var x := FlipColors(h);
    Recolor(h.left, x.left.color);
    Recolor(h.right, x.right.color);
    assert x.left == h.left.(color := x.left.color);
    assert x.right == h.right.(color := x.right.color);
  }

  lemma MoveRedLeftContents<V>(h: Tree<V>)
    requires h.Node? && h.left.Node? && h.right.Node? && h.right.color == Black
    requires Ordered(h)
    ensures Ordered(MoveRedLeft(h)) && Contents(MoveRedLeft(h)) == Contents(h)
  {
    var h1 := FlipColors(h);
    FlipColorsContents(h);
    if IsRed(h1.right.left) {
      RotateRightContents(h1.right);
      var h2 := h1.(right := RotateRight(h1.right));
      assert Keys(h2.right) == Keys(h1.right);
      assert Ordered(h2) && Contents(h2) == Contents(h1);
      RotateLeftContents(h2);
      FlipColorsContents(RotateLeft(h2));
    }
  }

  lemma MoveRedRightContents<V>(h: Tree<V>)
    requires h.Node? && h.left.Node? && h.right.Node? && h.left.color == Black
    requires Ordered(h)
    ensures Ordered(MoveRedRight(h)) && Contents(MoveRedRight(h)) == Contents(h)
  {
    var h1 := FlipColors(h);
    FlipColorsContents(h);
    if IsRed(h1.left.left) {
      RotateRightContents(h1);
      FlipColorsContents(RotateRight(h1));
    }
  }

  lemma BalanceContents<V>(h: Tree<V>)
    requires h.Node? && Ordered(h)
    ensures Ordered(Balance(h)) && Contents(Balance(h)) == Contents(h)
  {
    var h1 := if IsRed(h.right) then RotateLeft(h) else h;
    if IsRed(h.right) { RotateLeftContents(h); }
    var h2 := if IsRed(h1.left) && IsRed(h1.left.left) then RotateRight(h1) else h1;
    if IsRed(h1.left) && IsRed(h1.left.left) { RotateRightContents(h1); }
    if IsRed(h2.left) && IsRed(h2.right) { FlipColorsContents(h2); }
  }
}
