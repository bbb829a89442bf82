/** The read-only queries of the symbol table: lookup, the order statistics `rank` and
    `select`, `floor2`, `ceiling`, `height`, and the range queries `keys(low, high)`,
    `keys()` and `size(low, high)`. Each is the recursive walk the C++ performs, stated
    on a subtree and proved against the abstract views of `Trees`. */
module Queries {
  import opened Common
  import opened Trees

  // ---------------------------------------------------------------- lookup

  /** `get`: the value stored under `key`, if any. */
  function Get<V>(t: Tree<V>, key: int): (r: Option<V>)
    ensures r.Some? ==> key in Keys(t)
  {
    if t.Nil? then None
    else if key < t.key then Get(t.left, key)
    else if t.key < key then Get(t.right, key)
    else Some(t.val)
  }

  /** In an ordered tree `get` finds exactly what the key-to-value map holds. */
  lemma {:induction false} GetContents<V>(t: Tree<V>, key: int)
    requires Ordered(t)
    ensures Get(t, key) == if key in Contents(t) then Some(Contents(t)[key]) else None
  {
    if t.Node? {
      OrderedContents(t);
      ContentsKeys(t.left);
      ContentsKeys(t.right);
      if key < t.key {
        GetContents(t.left, key);
        assert key !in Keys(t.right);
      } else if t.key < key {
        GetContents(t.right, key);
        assert key !in Keys(t.left);
      }
    }
  }

  /** `contains`: whether `get` finds the key. */
  function Contains<V>(t: Tree<V>, key: int): (b: bool)
    ensures b ==> key in Keys(t)
  {
    Get(t, key).Some?
  }

  lemma ContainsKeys<V>(t: Tree<V>, key: int)
    requires Ordered(t)
    ensures Contains(t, key) <==> key in Keys(t)
  {
    GetContents(t, key);
    ContentsKeys(t);
  }

  // ---------------------------------------------------------------- floor and ceiling

  function OptionSet(o: Option<int>): set<int> {
    if o.Some? then {o.value} else {}
  }

  /** `r` is the greatest element of `s` not above `key`, or none when there is none. */
  predicate IsFloor(s: set<int>, key: int, r: Option<int>) {
    if r.Some? then r.value in s && r.value <= key && (forall k | k in s && k <= key :: k <= r.value)
    else forall k | k in s :: key < k
  }

  /** `r` is the least element of `s` not below `key`, or none when there is none. */
  predicate IsCeiling(s: set<int>, key: int, r: Option<int>) {
    if r.Some? then r.value in s && key <= r.value && (forall k | k in s && key <= k :: r.value <= k)
    else forall k | k in s :: k < key
  }

  /** `floor2`: the descent carrying the best candidate found so far, the last key
      passed on the way right. */
  function Floor2<V>(t: Tree<V>, key: int, best: Option<int>): (r: Option<int>)
    ensures r == best || (r.Some? && r.value in Keys(t))
  {
    if t.Nil? then best
    else if key < t.key then Floor2(t.left, key, best)
    else if t.key < key then Floor2(t.right, key, Some(t.key))
    else Some(t.key)
  }

  /** With a candidate below every key of the subtree, `floor2` yields the floor of the
      subtree's keys together with the candidate. */
  lemma {:induction false} Floor2IsFloor<V>(t: Tree<V>, key: int, best: Option<int>)
    requires Ordered(t)
    requires best.Some? ==> best.value <= key && forall k | k in Keys(t) :: best.value < k
    ensures IsFloor(Keys(t) + OptionSet(best), key, Floor2(t, key, best))
  {
    if t.Node? {
      if key < t.key {
        assert forall k | k in Keys(t.left) :: k in Keys(t);
        Floor2IsFloor(t.left, key, best);
        assert forall k | k in Keys(t.right) :: key < k;
      } else if t.key < key {
        assert forall k | k in Keys(t.right) :: t.key < k;
        Floor2IsFloor(t.right, key, Some(t.key));
        assert forall k | k in Keys(t.left) :: k < t.key;
      }
    }
  }

  /** The greatest stored key not above `key`, as the public `floor2` computes it. */
  lemma FloorOfTable<V>(t: Tree<V>, key: int)
    requires Ordered(t)
    ensures IsFloor(Keys(t), key, Floor2(t, key, None))
    ensures key in Keys(t) ==> Floor2(t, key, None) == Some(key)
  {
    Floor2IsFloor(t, key, None);
    assert Keys(t) + OptionSet(None) == Keys(t);
  }

  /** `ceiling` with its equality test as intended: the node holding `key` answers
      itself; otherwise a left turn keeps the node as the fallback candidate. */
  function Ceiling<V>(t: Tree<V>, key: int): (r: Option<int>)
    ensures r.Some? ==> r.value in Keys(t)
  {
    if t.Nil? then None
    else if !(key < t.key) && !(t.key < key) then Some(t.key)
    else if key < t.key then
      var c := Ceiling(t.left, key);
      if c.Some? then c else Some(t.key)
    else Ceiling(t.right, key)
  }

  lemma {:induction false} CeilingIsCeiling<V>(t: Tree<V>, key: int)
    requires Ordered(t)
    ensures IsCeiling(Keys(t), key, Ceiling(t, key))
    ensures key in Keys(t) ==> Ceiling(t, key) == Some(key)
  {
    if t.Node? {
      if key < t.key {
        CeilingIsCeiling(t.left, key);
        assert forall k | k in Keys(t.right) :: t.key < k;
      } else if t.key < key {
        CeilingIsCeiling(t.right, key);
        assert forall k | k in Keys(t.left) :: k < key;
      }
    }
  }

  // ---------------------------------------------------------------- order statistics

  /** How many elements of `s` lie strictly below `key`. */
  function CountLess(s: seq<int>, key: int): (n: nat)
    ensures n <= |s|
  {
    if s == [] then 0 else (if s[0] < key then 1 else 0) + CountLess(s[1..], key)
  }

  /** How many elements of `s` equal `key`. */
  function CountEqual(s: seq<int>, key: int): (n: nat)
    ensures n <= |s|
  {
    if s == [] then 0 else (if s[0] == key then 1 else 0) + CountEqual(s[1..], key)
  }

  lemma {:induction false} CountLessAppend(a: seq<int>, b: seq<int>, key: int)
    ensures CountLess(a + b, key) == CountLess(a, key) + CountLess(b, key)
  {
    if a != [] {
      var c := a + b;
      assert c != [] && c[0] == a[0] && c[1..] == a[1..] + b;
      assert CountLess(c, key) == (if a[0] < key then 1 else 0) + CountLess(a[1..] + b, key);
      CountLessAppend(a[1..], b, key);
    } else {
      assert a + b == b;
    }
  }

  lemma {:induction false} CountLessAll(s: seq<int>, key: int)
    ensures (forall i | 0 <= i < |s| :: s[i] < key) ==> CountLess(s, key) == |s|
    ensures (forall i | 0 <= i < |s| :: key <= s[i]) ==> CountLess(s, key) == 0
  {
    if s != [] {
      CountLessAll(s[1..], key);
    }
  }

  /** In an increasing sequence the element at index `i` has exactly `i` elements
      below it. */
  lemma {:induction false} CountLessAtIndex(s: seq<int>, i: int)
    requires Increasing(s) && 0 <= i < |s|
    ensures CountLess(s, s[i]) == i
  {
    if i == 0 {
      CountLessAll(s[1..], s[0]);
    } else {
      CountLessAtIndex(s[1..], i - 1);
    }
  }

  /** `rank`: the number of keys of the subtree below `key`, read off the counts. */
  function Rank<V>(key: int, t: Tree<V>): (r: int)
    ensures SizeConsistent(t) ==> 0 <= r <= Size(t)
  {
    if t.Nil? then 0
    else if key < t.key then Rank(key, t.left)
    else if t.key < key then 1 + Size(t.left) + Rank(key, t.right)
    else Size(t.left)
  }

  /** `rank(key)` counts the stored keys strictly below `key`. */
  lemma {:induction false} RankCountsLess<V>(key: int, t: Tree<V>)
    requires Ordered(t) && SizeConsistent(t)
    ensures Rank(key, t) == CountLess(InOrder(t), key)
  {
    if t.Node? {
      var a, b := InOrder(t.left), InOrder(t.right);
      CountLessAppend(a + [t.key], b, key);
      CountLessAppend(a, [t.key], key);
      InOrderKeys(t.left);
      InOrderKeys(t.right);
      SizeIsCount(t.left);
      forall i | 0 <= i < |a| ensures a[i] < t.key { assert a[i] in a; }
      forall i | 0 <= i < |b| ensures t.key < b[i] { assert b[i] in b; }
      CountLessAll(a, key);
      CountLessAll(b, key);
      if key < t.key {
        RankCountsLess(key, t.left);
      } else if t.key < key {
        RankCountsLess(key, t.right);
      }
    }
  }

  /** `select`: the key with `rank` smaller keys, found by the counts; none when the
      rank is out of range. */
  function Select<V>(t: Tree<V>, rank: int): (r: Option<int>)
    ensures r.Some? ==> r.value in Keys(t)
  {
    if t.Nil? then None
    else
      var leftSize := Size(t.left);
      if leftSize > rank then Select(t.left, rank)
      else if leftSize < rank then Select(t.right, rank - leftSize - 1)
      else Some(t.key)
  }

  /** In a size-consistent tree `select(i)` is the `i`-th key of the in-order walk. */
  lemma {:induction false} SelectInOrder<V>(t: Tree<V>, i: int)
    requires SizeConsistent(t)
    ensures Select(t, i) == if 0 <= i < |InOrder(t)| then Some(InOrder(t)[i]) else None
  {
    if t.Node? {
      SizeIsCount(t.left);
      var a := InOrder(t.left);
      if |a| > i {
        SelectInOrder(t.left, i);
      } else if |a| < i {
        SelectInOrder(t.right, i - |a| - 1);
      }
    }
  }

  /** Order-statistic duality, first half: `rank(select(i)) == i` for every rank in
      range. */
  lemma RankOfSelect<V>(t: Tree<V>, i: int)
    requires Ordered(t) && SizeConsistent(t) && 0 <= i < Size(t)
    ensures Select(t, i).Some? && Rank(Select(t, i).value, t) == i
  {
    SizeIsCount(t);
    SelectInOrder(t, i);
    OrderedIncreasing(t);
    RankCountsLess(InOrder(t)[i], t);
    CountLessAtIndex(InOrder(t), i);
  }

  /** Order-statistic duality, second half: `select(rank(k)) == k` for every stored
      key. */
  lemma SelectOfRank<V>(t: Tree<V>, key: int)
    requires Ordered(t) && SizeConsistent(t) && key in Keys(t)
    ensures Select(t, Rank(key, t)) == Some(key)
  {
    InOrderKeys(t);
    var s := InOrder(t);
    var j :| 0 <= j < |s| && s[j] == key;
    SizeIsCount(t);
    RankOfSelect(t, j);
    SelectInOrder(t, j);
  }

  // ---------------------------------------------------------------- height

  /** `height`: the number of links on the longest path down, -1 for the empty tree. */
  function Height<V>(t: Tree<V>): (h: int)
    ensures -1 <= h && (h == -1 <==> t.Nil?)
    ensures SizeConsistent(t) ==> h < Size(t)
  {
    if t.Nil? then -1
    else
      var a, b := Height(t.left), Height(t.right);
      1 + (if a < b then b else a)
  }

  // ---------------------------------------------------------------- ranges

  /** The elements of `s` within `[lo, hi]`, in their order. */
  function Within(s: seq<int>, lo: int, hi: int): seq<int> {
    if s == [] then []
    else (if lo <= s[0] <= hi then [s[0]] else []) + Within(s[1..], lo, hi)
  }

  lemma {:induction false} WithinAppend(a: seq<int>, b: seq<int>, lo: int, hi: int)
    ensures Within(a + b, lo, hi) == Within(a, lo, hi) + Within(b, lo, hi)
  {
    if a != [] {
      var c := a + b;
      assert c != [] && c[0] == a[0] && c[1..] == a[1..] + b;
      assert Within(c, lo, hi) == (if lo <= a[0] <= hi then [a[0]] else []) + Within(a[1..] + b, lo, hi);
      WithinAppend(a[1..], b, lo, hi);
    } else {
      assert a + b == b;
    }
  }

  lemma {:induction false} WithinMembers(s: seq<int>, lo: int, hi: int)
    ensures forall x :: x in Within(s, lo, hi) <==> x in s && lo <= x <= hi
  {
    if s != [] {
      WithinMembers(s[1..], lo, hi);
      forall x ensures x in Within(s, lo, hi) <==> x in s && lo <= x <= hi {
        assert x in s <==> x == s[0] || x in s[1..];
      }
    }
  }

  lemma {:induction false} WithinIncreasing(s: seq<int>, lo: int, hi: int)
    requires Increasing(s)
    ensures Increasing(Within(s, lo, hi))
  {
    if s != [] {
      WithinIncreasing(s[1..], lo, hi);
      WithinMembers(s[1..], lo, hi);
      var w := Within(s[1..], lo, hi);
      forall x | x in w ensures s[0] < x {
        var j :| 0 <= j < |s[1..]| && s[1..][j] == x;
        assert x == s[j + 1];
      }
      var r := Within(s, lo, hi);
      if lo <= s[0] <= hi {
        assert r == [s[0]] + w;
        forall i, j | 0 <= i < j < |r| ensures r[i] < r[j] {
          assert r[j] == w[j - 1] && w[j - 1] in w;
          if i > 0 {
            assert r[i] == w[i - 1];
          }
        }
      } else {
        assert r == w;
      }
    }
  }

  lemma {:induction false} WithinNone(s: seq<int>, lo: int, hi: int)
    requires forall i | 0 <= i < |s| :: s[i] < lo || hi < s[i]
    ensures Within(s, lo, hi) == []
  {
    if s != [] {
      WithinNone(s[1..], lo, hi);
    }
  }

  lemma {:induction false} WithinAll(s: seq<int>, lo: int, hi: int)
    requires forall i | 0 <= i < |s| :: lo <= s[i] <= hi
    ensures Within(s, lo, hi) == s
  {
    if s != [] {
      WithinAll(s[1..], lo, hi);
      assert s == [s[0]] + s[1..];
    }
  }

  /** The number of elements in `[lo, hi]`, told apart by counting below each bound. */
  lemma {:induction false} WithinCount(s: seq<int>, lo: int, hi: int)
    requires lo <= hi
    ensures |Within(s, lo, hi)| == CountLess(s, hi) + CountEqual(s, hi) - CountLess(s, lo)
  {
    if s != [] {
      WithinCount(s[1..], lo, hi);
    }
  }

  lemma {:induction false} CountEqualIncreasing(s: seq<int>, key: int)
    requires Increasing(s)
    ensures CountEqual(s, key) == if key in s then 1 else 0
  {
    if s != [] {
      CountEqualIncreasing(s[1..], key);
      if s[0] == key {
        assert key !in s[1..] by {
          forall j | 0 <= j < |s[1..]| ensures s[1..][j] != key {
            assert s[1..][j] == s[j + 1];
          }
        }
      }
      assert s == [s[0]] + s[1..];
    }
  }

  /** `keys(x, q, low, high)`: the in-order walk, pruned where a subtree lies wholly
      outside the range, producing the keys within `[lo, hi]`. */
  function KeysRange<V>(t: Tree<V>, lo: int, hi: int): (s: seq<int>)
    ensures forall x | x in s :: x in Keys(t) && lo <= x <= hi
  {
    if t.Nil? then []
    else
      var lowLe := lo < t.key || lo == t.key;
      var highGe := t.key < hi || hi == t.key;
      (if lowLe then KeysRange(t.left, lo, hi) else []) +
      (if lowLe && highGe then [t.key] else []) +
      (if highGe then KeysRange(t.right, lo, hi) else [])
  }

  /** The pruning loses nothing: in an ordered tree the pruned walk is the in-order
      walk filtered to the range. */
  lemma {:induction false} KeysRangeWithin<V>(t: Tree<V>, lo: int, hi: int)
    requires Ordered(t)
    ensures KeysRange(t, lo, hi) == Within(InOrder(t), lo, hi)
  {
    if t.Node? {
      var a, b, k := InOrder(t.left), InOrder(t.right), t.key;
      KeysRangeWithin(t.left, lo, hi);
      KeysRangeWithin(t.right, lo, hi);
      WithinAppend(a + [k], b, lo, hi);
      WithinAppend(a, [k], lo, hi);
      assert [k][1..] == [];
      assert Within([k], lo, hi) == if lo <= k <= hi then [k] else [];
      var wa := if lo <= k then Within(a, lo, hi) else [];
      var wb := if k <= hi then Within(b, lo, hi) else [];
      if !(lo <= k) {
        InOrderKeys(t.left);
        forall i | 0 <= i < |a| ensures a[i] < lo { assert a[i] in a; }
        WithinNone(a, lo, hi);
      }
      if !(k <= hi) {
        InOrderKeys(t.right);
        forall i | 0 <= i < |b| ensures hi < b[i] { assert b[i] in b; }
        WithinNone(b, lo, hi);
      }
      assert wa == Within(a, lo, hi) && wb == Within(b, lo, hi);
      assert KeysRange(t, lo, hi) == wa + Within([k], lo, hi) + wb;
    }
  }

  /** `keys(low, high)` yields exactly the stored keys within the range, increasing. */
  lemma KeysRangeSpec<V>(t: Tree<V>, lo: int, hi: int)
    requires Ordered(t)
    ensures Increasing(KeysRange(t, lo, hi))
    ensures forall k :: k in KeysRange(t, lo, hi) <==> k in Keys(t) && lo <= k <= hi
  {
    KeysRangeWithin(t, lo, hi);
    OrderedIncreasing(t);
    WithinIncreasing(InOrder(t), lo, hi);
    WithinMembers(InOrder(t), lo, hi);
    InOrderKeys(t);
  }

  /** `keys()`: every key, as the range from the least to the greatest. */
  function AllKeys<V>(t: Tree<V>): (s: seq<int>)
    ensures t.Nil? ==> s == []
  {
    if t.Nil? then [] else KeysRange(t, MinNode(t).key, MaxNode(t).key)
  }

  lemma AllKeysInOrder<V>(t: Tree<V>)
    requires Ordered(t)
    ensures AllKeys(t) == InOrder(t)
  {
    if t.Node? {
      KeysRangeWithin(t, MinNode(t).key, MaxNode(t).key);
      MinNodeLeast(t);
      MaxNodeGreatest(t);
      InOrderKeys(t);
      var s := InOrder(t);
      assert forall i | 0 <= i < |s| :: s[i] in Keys(t);
      WithinAll(s, MinNode(t).key, MaxNode(t).key);
    }
  }

  /** `size(low, high)`: the count of keys in the range, from two ranks. */
  function SizeRange<V>(t: Tree<V>, lo: int, hi: int): (n: int)
    ensures hi < lo ==> n == 0
    ensures SizeConsistent(t) && !Contains(t, hi) ==> n <= Size(t)
  {
    if lo > hi then 0
    else if Contains(t, hi) then Rank(hi, t) - Rank(lo, t) + 1
    else Rank(hi, t) - Rank(lo, t)
  }

  /** `size(low, high)` is the length of what `keys(low, high)` yields. */
  lemma SizeRangeCount<V>(t: Tree<V>, lo: int, hi: int)
    requires Ordered(t) && SizeConsistent(t)
    ensures SizeRange(t, lo, hi) == |KeysRange(t, lo, hi)|
  {
    if lo <= hi {
      var s := InOrder(t);
      KeysRangeWithin(t, lo, hi);
      WithinCount(s, lo, hi);
      RankCountsLess(lo, t);
      RankCountsLess(hi, t);
      OrderedIncreasing(t);
      CountEqualIncreasing(s, hi);
      ContainsKeys(t, hi);
      InOrderKeys(t);
    } else {
      KeysRangeSpec(t, lo, hi);
      if KeysRange(t, lo, hi) != [] {
        assert KeysRange(t, lo, hi)[0] in KeysRange(t, lo, hi);
      }
    }
  }
}
