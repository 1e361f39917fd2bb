/**
 The node arena of a string trie: four parallel tables indexed by node number.
 Node 0 is the root; a child pointer of 0 means "no child", since the root is
 never anybody's child.
 */
module TrieArena {
  import opened Wrappers

  /** Number of child slots per node: one per byte value. */
  const Fanout: nat := 256

  type Byte = b: nat | b < 256

  /** The tables of `StringTree` in string_tree.rs, as one value. */
  datatype Arena<T> = Arena(
    pointers: seq<seq<nat>>,      // per node, 256 child indices (0 = none)
    fillCounts: seq<nat>,         // per node, the number of non-zero child indices
    values: seq<Option<T>>,       // per node, the value stored at that key, if any
    parents: seq<(nat, Byte)>)    // per node, (parent index, edge byte from the parent)
  {
    function Size(): nat { |pointers| }
  }

  /** A row of 256 empty child slots, as a freshly allocated node has. */
  function EmptyRow(): (row: seq<nat>)
    ensures |row| == Fanout
    ensures forall b | 0 <= b < |row| :: row[b] == 0
  {
    seq(Fanout, _ => 0)
  }

  /** Number of occupied (non-zero) slots of a child row. */
  function Occupied(row: seq<nat>): nat
  {
    if row == [] then 0 else (if row[0] != 0 then 1 else 0) + Occupied(row[1..])
  }

  /** Tables of equal, non-zero length; 256-slot rows; every pointer 0 or a node index. */
  ghost predicate Shaped<T>(a: Arena<T>)
  {
    && |a.pointers| >= 1
    && |a.fillCounts| == |a.pointers|
    && |a.values| == |a.pointers|
    && |a.parents| == |a.pointers|
    && (forall p | 0 <= p < |a.pointers| :: |a.pointers[p]| == Fanout)
    && (forall p, b | 0 <= p < |a.pointers| && 0 <= b < |a.pointers[p]| :: a.pointers[p][b] < |a.pointers|)
  }

  /** Every non-root node's parent was allocated before it (allocation only appends). */
  ghost predicate ParentsOrdered<T>(a: Arena<T>)
  {
    forall c | 0 < c < |a.parents| :: a.parents[c].0 < c
  }

  /**
   The arena invariant: shape, parent links and child pointers agree in both
   directions, and every fill count is the number of occupied slots of its row.
   */
  ghost predicate Valid<T>(a: Arena<T>)
  {
    && Shaped(a)
    && ParentsOrdered(a)
    && a.parents[0] == (0, 0)
    && (forall c | 0 < c < |a.pointers| :: LinkedToParent(a, c))
    && (forall p, b | 0 <= p < |a.pointers| && 0 <= b < Fanout :: LinkedToChild(a, p, b))
    && (forall p | 0 <= p < |a.pointers| :: Counted(a, p))
  }

  /** Non-root node `c` is the child its parent link names: `pointers[p][b] == c` for `parents[c] == (p, b)`. */
  ghost predicate LinkedToParent<T>(a: Arena<T>, c: nat)
    requires Shaped(a) && ParentsOrdered(a) && 0 < c < a.Size()
  {
    a.pointers[a.parents[c].0][a.parents[c].1] == c
  }

  /** A non-zero slot `pointers[p][b]` names a child whose parent link is `(p, b)`. */
  ghost predicate LinkedToChild<T>(a: Arena<T>, p: nat, b: Byte)
    requires Shaped(a) && p < a.Size()
  {
    a.pointers[p][b] != 0 ==> a.parents[a.pointers[p][b]] == (p, b)
  }

  /** Node `p`'s fill count is the number of occupied slots in its row. */
  ghost predicate Counted<T>(a: Arena<T>, p: nat)
    requires Shaped(a) && p < a.Size()
  {
    a.fillCounts[p] == Occupied(a.pointers[p])
  }

  /** The empty tree of `StringTree::new` (string_tree.rs): one root, no children, no value. */
  function NewArena<T>(): (a: Arena<T>)
    ensures Valid(a) && a.Size() == 1
    ensures forall b | 0 <= b < Fanout :: a.pointers[0][b] == 0
    ensures a.values[0] == None && a.fillCounts[0] == 0 && a.parents[0] == (0, 0)
  {
    EmptyRowUnoccupied();
    Arena([EmptyRow()], [0], [None], [(0, 0)])
  }

  /**
   Key descent (`get_index_of_key`): follow one child pointer per key byte from
   `start`; absent as soon as a pointer is 0.
   */
  function Descend<T>(a: Arena<T>, start: nat, key: seq<Byte>): (r: Option<nat>)
    requires Shaped(a) && start < a.Size()
    ensures r.Some? ==> r.value < a.Size()
    ensures r.Some? && key != [] ==> r.value != 0
    decreases |key|
  {
    if key == [] then Some(start)
    else
      var next := a.pointers[start][key[0]];
      if next == 0 then None else Descend(a, next, key[1..])
  }

  /** The value stored at `key` below node `start`, if the path exists and holds one. */
  function GetAt<T>(a: Arena<T>, start: nat, key: seq<Byte>): (r: Option<T>)
    requires Shaped(a) && start < a.Size()
    ensures Descend(a, start, key).None? ==> r.None?
    ensures Descend(a, start, key).Some? ==> r == a.values[Descend(a, start, key).value]
    ensures key == [] ==> r == a.values[start]
  {
    match Descend(a, start, key)
    case None => None
    case Some(n) => a.values[n]
  }

  /** The bytes on the parent chain from the root down to `n` (`path()`). */
  function Path<T>(a: Arena<T>, n: nat): (r: seq<Byte>)
    requires ParentsOrdered(a) && n < |a.parents|
    ensures |r| <= n
    ensures n != 0 ==> |r| > 0 && r[|r| - 1] == a.parents[n].1
    decreases n
  {
    if n == 0 then [] else Path(a, a.parents[n].0) + [a.parents[n].1]
  }

  // ---------------------------------------------------------------------------
  // Occupied slots

  lemma {:induction false} OccupiedBound(row: seq<nat>)
    ensures Occupied(row) <= |row|
  {
    if row != [] { OccupiedBound(row[1..]); }
  }

  lemma {:induction false} EmptyRowUnoccupied()
    ensures Occupied(EmptyRow()) == 0
  {
    ZerosUnoccupied(EmptyRow());
  }

  lemma {:induction false} ZerosUnoccupied(row: seq<nat>)
    requires forall b | 0 <= b < |row| :: row[b] == 0
    ensures Occupied(row) == 0
  {
    if row != [] { ZerosUnoccupied(row[1..]); }
  }

  /** Filling one empty slot raises the count of occupied slots by exactly one. */
  lemma {:induction false} OccupiedFill(row: seq<nat>, b: nat, c: nat)
    requires b < |row| && row[b] == 0 && c != 0
    ensures Occupied(row[b := c]) == Occupied(row) + 1
  {
    if b == 0 {
      assert row[b := c][1..] == row[1..];
    } else {
      OccupiedFill(row[1..], b - 1, c);
      assert row[b := c][1..] == row[1..][b - 1 := c];
    }
  }

  /** A fill count never exceeds the 256 slots of its row. */
  lemma FillCountBound<T>(a: Arena<T>, p: nat)
    requires Valid(a) && p < a.Size()
    ensures a.fillCounts[p] <= Fanout
  {
    assert Counted(a, p);
    OccupiedBound(a.pointers[p]);
  }

  // ---------------------------------------------------------------------------
  // Descent

  /** Descending `k1 + k2` is descending `k1`, then `k2` from where that ends. */
  lemma {:induction false} DescendAppend<T>(a: Arena<T>, s: nat, k1: seq<Byte>, k2: seq<Byte>)
    requires Shaped(a) && s < a.Size()
    ensures Descend(a, s, k1 + k2) ==
              match Descend(a, s, k1)
              case None => None
              case Some(m) => Descend(a, m, k2)
    decreases |k1|
  {
    if k1 == [] {
      assert k1 + k2 == k2;
    } else {
      assert (k1 + k2)[0] == k1[0] && (k1 + k2)[1..] == k1[1..] + k2;
      var next := a.pointers[s][k1[0]];
      if next != 0 { DescendAppend(a, next, k1[1..], k2); }
    }
  }

  /** Descent reads only the pointer table. */
  lemma {:induction false} DescendSamePointers<T>(a: Arena<T>, r: Arena<T>, s: nat, key: seq<Byte>)
    requires Shaped(a) && Shaped(r) && s < a.Size() && r.pointers == a.pointers
    ensures Descend(r, s, key) == Descend(a, s, key)
    decreases |key|
  {
    if key != [] && a.pointers[s][key[0]] != 0 {
      DescendSamePointers(a, r, a.pointers[s][key[0]], key[1..]);
    }
  }

  /** One more byte after a descent is one more pointer hop. */
  lemma DescendSnoc<T>(a: Arena<T>, s: nat, k: seq<Byte>, b: Byte)
    requires Shaped(a) && s < a.Size()
    ensures Descend(a, s, k + [b]) ==
              match Descend(a, s, k)
              case None => None
              case Some(m) => if a.pointers[m][b] == 0 then None else Some(a.pointers[m][b])
  {
    DescendAppend(a, s, k, [b]);
  }

  /** A descent that succeeds ends at the node whose root path is the start's path plus the key. */
  lemma {:induction false} DescendPath<T>(a: Arena<T>, s: nat, key: seq<Byte>)
    requires Valid(a) && s < a.Size() && Descend(a, s, key).Some?
    ensures Path(a, Descend(a, s, key).value) == Path(a, s) + key
    decreases |key|
  {
    if key != [] {
      var next := a.pointers[s][key[0]];
      assert LinkedToChild(a, s, key[0]);
      DescendPath(a, next, key[1..]);
      assert Path(a, s) + key == Path(a, s) + [key[0]] + key[1..];
    }
  }

  /** Every node is reached from the root by descending its own path. */
  lemma {:induction false} PathDescend<T>(a: Arena<T>, n: nat)
    requires Valid(a) && n < a.Size()
    ensures Descend(a, 0, Path(a, n)) == Some(n)
    decreases n
  {
    if n != 0 {
      var (p, b) := a.parents[n];
      assert LinkedToParent(a, n);
      PathDescend(a, p);
      DescendSnoc(a, 0, Path(a, p), b);
    }
  }

  /** Distinct nodes have distinct paths. */
  lemma PathInjective<T>(a: Arena<T>, n: nat, m: nat)
    requires Valid(a) && n < a.Size() && m < a.Size()
    requires Path(a, n) == Path(a, m)
    ensures n == m
  {
    PathDescend(a, n);
    PathDescend(a, m);
  }

  /** Descent from the root succeeds exactly at the node whose path is the key. */
  lemma DescendRootIff<T>(a: Arena<T>, key: seq<Byte>, n: nat)
    requires Valid(a) && n < a.Size()
    ensures Descend(a, 0, key) == Some(n) <==> Path(a, n) == key
  {
    if Descend(a, 0, key) == Some(n) {
      DescendPath(a, 0, key);
    }
    if Path(a, n) == key {
      PathDescend(a, n);
    }
  }

  /** Descent below node `s` is descent from the root along `s`'s path followed by the key. */
  lemma DescendFromPath<T>(a: Arena<T>, s: nat, key: seq<Byte>)
    requires Valid(a) && s < a.Size()
    ensures Descend(a, s, key) == Descend(a, 0, Path(a, s) + key)
  {
    PathDescend(a, s);
    DescendAppend(a, 0, Path(a, s), key);
  }

  /** In a valid arena, two byte sequences that descend from one node to the same node are equal. */
  lemma DescendInjective<T>(a: Arena<T>, n: nat, w1: seq<Byte>, w2: seq<Byte>)
    requires Valid(a) && n < a.Size() && Descend(a, n, w1).Some?
    ensures Descend(a, n, w2) == Descend(a, n, w1) ==> w1 == w2
  {
    if Descend(a, n, w2) == Descend(a, n, w1) {
      DescendPath(a, n, w1);
      DescendPath(a, n, w2);
      var p := Path(a, n);
      assert w1 == (p + w1)[|p|..] && w2 == (p + w2)[|p|..];
    }
  }

  /** Paths depend only on the parent table: extending it leaves old nodes' paths alone. */
  lemma {:induction false} PathExtend<T>(a: Arena<T>, a': Arena<T>, n: nat)
    requires ParentsOrdered(a) && ParentsOrdered(a')
    requires |a.parents| <= |a'.parents| && a'.parents[..|a.parents|] == a.parents
    requires n < |a.parents|
    ensures Path(a', n) == Path(a, n)
    decreases n
  {
    if n != 0 {
      assert a'.parents[n] == a'.parents[..|a.parents|][n];
      PathExtend(a, a', a.parents[n].0);
    }
  }
}
