/**
 Insertion into the arena (`StringTree::insert` in lib.rs): descend along the
 key while child pointers exist; from the first missing byte on, allocate one
 node per remaining byte, each linked below the previous one, and store the
 value on the last node reached.
 */
module Insertion {
  import opened Wrappers
  import opened TrieArena

  /** Puts `Some(value)` into node `n`'s value slot; nothing else changes. */
  function Store<T>(a: Arena<T>, n: nat, value: T): (r: Arena<T>)
    requires Valid(a) && n < a.Size()
    ensures Valid(r)
    ensures r.pointers == a.pointers && r.fillCounts == a.fillCounts && r.parents == a.parents
    ensures r.values == a.values[n := Some(value)]
  {
    var r := a.(values := a.values[n := Some(value)]);
    ValidIgnoresValues(a, r);
    r
  }

  /** The arena invariant does not look at the value table beyond its length. */
  lemma ValidIgnoresValues<T>(a: Arena<T>, r: Arena<T>)
    requires Valid(a) && |r.values| == |a.values|
    requires r.pointers == a.pointers && r.fillCounts == a.fillCounts && r.parents == a.parents
    ensures Valid(r)
  {
    forall c | 0 < c < r.Size() ensures LinkedToParent(r, c) { assert LinkedToParent(a, c); }
    forall p, b | 0 <= p < r.Size() && 0 <= b < Fanout ensures LinkedToChild(r, p, b) { assert LinkedToChild(a, p, b); }
    forall p | 0 <= p < r.Size() ensures Counted(r, p) { assert Counted(a, p); }
  }

  /**
   Allocates node `a.Size()` as the child of `at` along byte `b`: writes the
   pointer, pushes one entry onto every table, and counts the new slot in
   `at`'s fill count.
   */
  function Attach<T>(a: Arena<T>, at: nat, b: Byte): (r: Arena<T>)
    requires Shaped(a) && at < a.Size()
    ensures Shaped(r) && r.Size() == a.Size() + 1
    ensures r.pointers[a.Size()] == EmptyRow()
    ensures r.pointers[at] == a.pointers[at][b := a.Size()]
    ensures forall p | 0 <= p < a.Size() && p != at :: r.pointers[p] == a.pointers[p]
    ensures r.fillCounts == a.fillCounts[at := a.fillCounts[at] + 1] + [0]
    ensures r.values == a.values + [None]
    ensures r.parents == a.parents + [(at, b)]
  {
    var n: nat := a.Size();
    var row: seq<nat> := a.pointers[at][b := n];
    var r := Arena(a.pointers[at := row] + [EmptyRow()],
                   a.fillCounts[at := a.fillCounts[at] + 1] + [0],
                   a.values + [None],
                   a.parents + [(at, b)]);
    assert forall p | 0 <= p < n :: r.pointers[p] == if p == at then row else a.pointers[p];
    r
  }

  /** Allocating below an empty slot keeps the arena invariant. */
  lemma AttachValid<T>(a: Arena<T>, at: nat, b: Byte)
    requires Valid(a) && at < a.Size() && a.pointers[at][b] == 0
    ensures Valid(Attach(a, at, b))
  {
    var r := Attach(a, at, b);
    var n := a.Size();
    forall c | 0 < c < r.Size()
      ensures LinkedToParent(r, c)
    {
      if c < n {
        assert LinkedToParent(a, c);
        var (p, e) := a.parents[c];
        assert r.parents[c] == (p, e);
        assert (p, e) != (at, b);
      }
    }
    forall p, e | 0 <= p < r.Size() && 0 <= e < Fanout
      ensures LinkedToChild(r, p, e)
    {
      if p < n && !(p == at && e == b) {
        assert LinkedToChild(a, p, e);
        assert r.pointers[p][e] == a.pointers[p][e];
      }
    }
    forall p | 0 <= p < r.Size()
      ensures Counted(r, p)
    {
      if p == n {
        EmptyRowUnoccupied();
      } else if p == at {
        assert Counted(a, p);
        OccupiedFill(a.pointers[at], b, n);
      } else {
        assert Counted(a, p);
      }
    }
  }

  /** Allocation extends the arena; the new node's path is its parent's path plus the edge byte. */
  lemma AttachExtends<T>(a: Arena<T>, at: nat, b: Byte)
    requires Valid(a) && at < a.Size() && a.pointers[at][b] == 0
    ensures Extends(a, Attach(a, at, b))
    ensures Path(Attach(a, at, b), a.Size()) == Path(a, at) + [b]
  {
    var r := Attach(a, at, b);
    AttachValid(a, at, b);
    assert r.parents[..a.Size()] == a.parents;
    PathExtend(a, r, at);
  }

  /**
   Allocates a chain of fresh nodes below `at`, one per byte of `suffix`, and
   stores the value on the last (on `at` itself when `suffix` is empty).
   */
  function Grow<T>(a: Arena<T>, at: nat, suffix: seq<Byte>, value: T): (r: Arena<T>)
    requires Valid(a) && at < a.Size()
    requires suffix != [] ==> a.pointers[at][suffix[0]] == 0
    ensures Valid(r) && r.Size() == a.Size() + |suffix|
    decreases |suffix|
  {
    if suffix == [] then Store(a, at, value)
    else
      AttachValid(a, at, suffix[0]);
      var a1 := Attach(a, at, suffix[0]);
      Grow(a1, a.Size(), suffix[1..], value)
  }

  /**
   Insertion of `key` below node `start` (lib.rs:53-85, with the new nodes
   chained as the comment at lib.rs:63 intends).
   */
  function InsertAt<T>(a: Arena<T>, start: nat, key: seq<Byte>, value: T): (r: Arena<T>)
    requires Valid(a) && start < a.Size()
    ensures Valid(r) && r.Size() >= a.Size()
    decreases |key|
  {
    if key == [] then Store(a, start, value)
    else
      var next := a.pointers[start][key[0]];
      if next != 0 then InsertAt(a, next, key[1..], value)
      else Grow(a, start, key, value)
  }

  /** Number of leading key bytes whose child pointers already exist below `start`. */
  function Matched<T>(a: Arena<T>, start: nat, key: seq<Byte>): nat
    requires Shaped(a) && start < a.Size()
    decreases |key|
  {
    if key == [] then 0
    else
      var next := a.pointers[start][key[0]];
      if next == 0 then 0 else 1 + Matched(a, next, key[1..])
  }

  // ---------------------------------------------------------------------------
  // What Matched measures

  /** `key[..Matched]` is the longest prefix of the key present below `start`. */
  lemma {:induction false} MatchedIsLongestPrefix<T>(a: Arena<T>, start: nat, key: seq<Byte>)
    requires Shaped(a) && start < a.Size()
    ensures Matched(a, start, key) <= |key|
    ensures Descend(a, start, key[..Matched(a, start, key)]).Some?
    ensures Matched(a, start, key) < |key| ==> Descend(a, start, key[..Matched(a, start, key) + 1]) == None
    ensures Matched(a, start, key) == |key| <==> Descend(a, start, key).Some?
    decreases |key|
  {
    if key != [] {
      var next := a.pointers[start][key[0]];
      if next == 0 {
        assert key[..1] == [key[0]];
      } else {
        MatchedIsLongestPrefix(a, next, key[1..]);
        var m := Matched(a, next, key[1..]);
        assert key[..m + 1][0] == key[0] && key[..m + 1][1..] == key[1..][..m];
        if m < |key| - 1 {
          assert key[..m + 2][0] == key[0] && key[..m + 2][1..] == key[1..][..m + 1];
        }
      }
    }
  }

  // ---------------------------------------------------------------------------
  // The effect of allocation

  /** `r` grew out of `a`: both valid, `r` has at least `a`'s nodes, and old nodes keep their parent links. */
  ghost predicate Extends<T>(a: Arena<T>, r: Arena<T>)
  {
    && Valid(a) && Valid(r)
    && r.Size() >= a.Size()
    && r.parents[..a.Size()] == a.parents
  }

  /**
   The value table of `r` is that of `a` with `Some(value)` on the node whose
   path is `target`, and nothing on the nodes `r` added otherwise.
   */
  ghost predicate StoredOnlyAt<T>(a: Arena<T>, r: Arena<T>, target: seq<Byte>, value: T)
    requires Extends(a, r)
  {
    forall n | 0 <= n < r.Size() :: ValueAfter(a, r, target, value, n)
  }

  /** Node `n` of `r` holds the value iff its path is `target`, else what it held in `a` (nothing if new). */
  ghost predicate ValueAfter<T>(a: Arena<T>, r: Arena<T>, target: seq<Byte>, value: T, n: nat)
    requires Extends(a, r) && n < r.Size()
  {
    r.values[n] == if Path(r, n) == target then Some(value)
                   else if n < a.Size() then a.values[n] else None
  }

  /** Old nodes keep their paths in an extended arena. */
  lemma ExtendsPath<T>(a: Arena<T>, r: Arena<T>, n: nat)
    requires Extends(a, r) && n < a.Size()
    ensures Path(r, n) == Path(a, n)
  {
    PathExtend(a, r, n);
  }

  lemma ExtendsTransitive<T>(a: Arena<T>, a1: Arena<T>, r: Arena<T>)
    requires Extends(a, a1) && Extends(a1, r)
    ensures Extends(a, r)
  {
    assert r.parents[..a.Size()] == r.parents[..a1.Size()][..a.Size()];
  }

  /** Storing a value on node `n` puts it exactly on the node whose path is `n`'s. */
  lemma StoreEffect<T>(a: Arena<T>, n: nat, value: T)
    requires Valid(a) && n < a.Size()
    ensures Extends(a, Store(a, n, value))
    ensures StoredOnlyAt(a, Store(a, n, value), Path(a, n), value)
  {
    var r := Store(a, n, value);
    assert r.parents[..a.Size()] == a.parents;
    forall m | 0 <= m < r.Size()
      ensures ValueAfter(a, r, Path(a, n), value, m)
    {
      ExtendsPath(a, r, m);
      if Path(r, m) == Path(a, n) { PathInjective(a, m, n); }
    }
  }

  /**
   Growing a chain below `at` extends the arena, and the last node of the chain
   is reached by descending `suffix` from `at`.
   */
  lemma {:induction false} GrowReaches<T>(a: Arena<T>, at: nat, suffix: seq<Byte>, value: T)
    requires Valid(a) && at < a.Size()
    requires suffix != [] ==> a.pointers[at][suffix[0]] == 0
    ensures Extends(a, Grow(a, at, suffix, value))
    ensures Descend(Grow(a, at, suffix, value), at, suffix).Some?
    decreases |suffix|
  {
    var r := Grow(a, at, suffix, value);
    if suffix == [] {
      StoreEffect(a, at, value);
    } else {
      var b := suffix[0];
      var n0 := a.Size();
      AttachValid(a, at, b);
      var a1 := Attach(a, at, b);
      GrowReaches(a1, n0, suffix[1..], value);
      assert r == Grow(a1, n0, suffix[1..], value);
      AttachExtends(a, at, b);
      ExtendsTransitive(a, a1, r);
      GrowFrame(a1, n0, suffix[1..], value);
      assert r.pointers[at][b] == a1.pointers[at][b] == n0;
      assert Descend(r, at, suffix) == Descend(r, n0, suffix[1..]);
    }
  }

  /**
   Growing a chain below `at` puts the value exactly on the node whose path is
   `at`'s path plus `suffix`; old nodes keep their values, and the other new
   nodes hold none.
   */
  lemma {:induction false} GrowStores<T>(a: Arena<T>, at: nat, suffix: seq<Byte>, value: T)
    requires Valid(a) && at < a.Size()
    requires suffix != [] ==> a.pointers[at][suffix[0]] == 0
    ensures Extends(a, Grow(a, at, suffix, value))
    ensures StoredOnlyAt(a, Grow(a, at, suffix, value), Path(a, at) + suffix, value)
    decreases |suffix|
  {
    var r := Grow(a, at, suffix, value);
    if suffix == [] {
      StoreEffect(a, at, value);
      assert Path(a, at) + suffix == Path(a, at);
    } else {
      var b := suffix[0];
      var n0 := a.Size();
      AttachValid(a, at, b);
      var a1 := Attach(a, at, b);
      GrowStores(a1, n0, suffix[1..], value);
      assert r == Grow(a1, n0, suffix[1..], value);
      AttachExtends(a, at, b);
      var pa := Path(a, at);
      assert suffix == [b] + suffix[1..];
      assert pa + suffix == (pa + [b]) + suffix[1..];
      StoredThroughFreshNode(a, a1, r, Path(a, at) + suffix, value);
    }
  }

  /** Storing through one freshly pushed empty node keeps the "stored only at" description. */
  lemma StoredThroughFreshNode<T>(a: Arena<T>, a1: Arena<T>, r: Arena<T>, target: seq<Byte>, value: T)
    requires Extends(a, a1) && Extends(a1, r)
    requires a1.Size() == a.Size() + 1 && a1.values == a.values + [None]
    requires StoredOnlyAt(a1, r, target, value)
    ensures Extends(a, r)
    ensures StoredOnlyAt(a, r, target, value)
  {
    ExtendsTransitive(a, a1, r);
    forall n | 0 <= n < r.Size()
      ensures ValueAfter(a, r, target, value, n)
    {
      assert ValueAfter(a1, r, target, value, n);
    }
  }

  /**
   Growing a chain below `at` adds `|suffix|` nodes and, among the old nodes,
   changes only the slot `pointers[at][suffix[0]]` (to the first new node) and
   `at`'s fill count (by one).
   */
  lemma {:induction false} GrowFrame<T>(a: Arena<T>, at: nat, suffix: seq<Byte>, value: T)
    requires Valid(a) && at < a.Size()
    requires suffix != [] ==> a.pointers[at][suffix[0]] == 0
    ensures var r := Grow(a, at, suffix, value);
      && (forall p, b | 0 <= p < a.Size() && 0 <= b < Fanout ::
            r.pointers[p][b] == if suffix != [] && p == at && b == suffix[0] then a.Size() else a.pointers[p][b])
      && (forall p | 0 <= p < a.Size() ::
            r.fillCounts[p] == if suffix != [] && p == at then a.fillCounts[p] + 1 else a.fillCounts[p])
    decreases |suffix|
  {
    if suffix != [] {
      var b := suffix[0];
      var n0 := a.Size();
      AttachValid(a, at, b);
      var a1 := Attach(a, at, b);
      GrowFrame(a1, n0, suffix[1..], value);
      forall p, e | 0 <= p < n0 && 0 <= e < Fanout
        ensures a1.pointers[p][e] == if p == at && e == b then n0 else a.pointers[p][e]
      {
        assert a1.pointers[p] == if p == at then a.pointers[at][b := n0] else a.pointers[p];
      }
    }
  }

  /**
   Insertion below `start` extends the arena, puts the value exactly on the
   node whose path is `start`'s path plus `key` (every other old node keeps its
   value, every new node other than that one has none), and descending `key`
   from `start` now reaches that node.
   */
  lemma {:induction false} InsertReaches<T>(a: Arena<T>, start: nat, key: seq<Byte>, value: T)
    requires Valid(a) && start < a.Size()
    ensures Extends(a, InsertAt(a, start, key, value))
    ensures StoredOnlyAt(a, InsertAt(a, start, key, value), Path(a, start) + key, value)
    ensures Descend(InsertAt(a, start, key, value), start, key).Some?
    decreases |key|
  {
    var r := InsertAt(a, start, key, value);
    if key == [] {
      GrowReaches(a, start, key, value);
      GrowStores(a, start, key, value);
    } else {
      var next := a.pointers[start][key[0]];
      if next == 0 {
        GrowReaches(a, start, key, value);
        GrowStores(a, start, key, value);
      } else {
        InsertReaches(a, next, key[1..], value);
        assert LinkedToChild(a, start, key[0]);
        assert Path(a, start) + key == Path(a, next) + key[1..];
        InsertKeepsEdges(a, next, key[1..], value);
      }
    }
  }

  /**
   Insertion adds `|key| - Matched` nodes and, among the old nodes, changes
   only the first missing slot on the key's path, at the branch point where
   descent of `key[..Matched]` ends, and that node's fill count (by one).
   */
  lemma {:induction false} InsertFrame<T>(a: Arena<T>, start: nat, key: seq<Byte>, value: T)
    requires Valid(a) && start < a.Size()
    ensures var r := InsertAt(a, start, key, value);
      var m := Matched(a, start, key);
      && m <= |key|
      && Descend(a, start, key[..m]).Some?
      && r.Size() == a.Size() + |key| - m
      && (forall p, b | 0 <= p < a.Size() && 0 <= b < Fanout ::
            r.pointers[p][b] ==
              if m < |key| && Descend(a, start, key[..m]) == Some(p) && b == key[m] then a.Size()
              else a.pointers[p][b])
      && (forall p | 0 <= p < a.Size() ::
            r.fillCounts[p] ==
              if m < |key| && Descend(a, start, key[..m]) == Some(p) then a.fillCounts[p] + 1
              else a.fillCounts[p])
    decreases |key|
  {
    var m := Matched(a, start, key);
    MatchedIsLongestPrefix(a, start, key);
    if key == [] {
      assert key[..m] == [];
    } else {
      var next := a.pointers[start][key[0]];
      if next == 0 {
        GrowFrame(a, start, key, value);
        assert key[..m] == [];
      } else {
        InsertFrame(a, next, key[1..], value);
        assert key[..m][0] == key[0] && key[..m][1..] == key[1..][..m - 1];
        assert Descend(a, start, key[..m]) == Descend(a, next, key[1..][..m - 1]);
        if m < |key| {
          assert key[m] == key[1..][m - 1];
        }
      }
    }
  }

  /** Insertion never redirects an existing edge: every non-zero slot of an old node keeps its child. */
  lemma InsertKeepsEdges<T>(a: Arena<T>, start: nat, key: seq<Byte>, value: T)
    requires Valid(a) && start < a.Size()
    ensures var r := InsertAt(a, start, key, value);
      forall p, b | 0 <= p < a.Size() && 0 <= b < Fanout && a.pointers[p][b] != 0 ::
        r.pointers[p][b] == a.pointers[p][b]
  {
    InsertFrame(a, start, key, value);
    MatchedIsLongestPrefix(a, start, key);
    var m := Matched(a, start, key);
    if m < |key| {
      assert key[..m + 1] == key[..m] + [key[m]];
      DescendSnoc(a, start, key[..m], key[m]);
    }
  }

  // ---------------------------------------------------------------------------
  // Lookup after insertion

  /**
   After inserting `key` below `start`, the tree maps the absolute key
   `path(start) ++ key` to the new value and every other absolute key to what
   it mapped to before.
   */
  lemma InsertSemantics<T>(a: Arena<T>, start: nat, key: seq<Byte>, value: T, k: seq<Byte>)
    requires Valid(a) && start < a.Size()
    ensures GetAt(InsertAt(a, start, key, value), 0, k) ==
              if k == Path(a, start) + key then Some(value) else GetAt(a, 0, k)
  {
    var r := InsertAt(a, start, key, value);
    InsertReaches(a, start, key, value);
    ExtendsPath(a, r, start);
    if k == Path(a, start) + key {
      var t := Descend(r, start, key).value;
      DescendPath(r, start, key);
      DescendRootIff(r, k, t);
      assert ValueAfter(a, r, k, value, t);
    } else {
      GetOtherKey(a, r, Path(a, start) + key, value, k);
    }
  }

  /** In an extended arena that stored a value only at `target`, every other key reads as before. */
  lemma GetOtherKey<T>(a: Arena<T>, r: Arena<T>, target: seq<Byte>, value: T, k: seq<Byte>)
    requires Extends(a, r) && StoredOnlyAt(a, r, target, value) && k != target
    ensures GetAt(r, 0, k) == GetAt(a, 0, k)
  {
    match Descend(r, 0, k)
    case Some(n') =>
      DescendRootIff(r, k, n');
      assert ValueAfter(a, r, target, value, n');
      if n' < a.Size() {
        ExtendsPath(a, r, n');
        DescendRootIff(a, k, n');
      } else if Descend(a, 0, k).Some? {
        var m := Descend(a, 0, k).value;
        DescendRootIff(a, k, m);
        ExtendsPath(a, r, m);
        PathInjective(r, m, n');
      }
    case None =>
      if Descend(a, 0, k).Some? {
        var m := Descend(a, 0, k).value;
        DescendRootIff(a, k, m);
        ExtendsPath(a, r, m);
        DescendRootIff(r, k, m);
      }
  }

  /** Last write wins: the inserted key now holds the inserted value. */
  lemma InsertThenGet<T>(a: Arena<T>, start: nat, key: seq<Byte>, value: T)
    requires Valid(a) && start < a.Size()
    ensures GetAt(InsertAt(a, start, key, value), start, key) == Some(value)
  {
    var r := InsertAt(a, start, key, value);
    InsertReaches(a, start, key, value);
    ExtendsPath(a, r, start);
    DescendFromPath(r, start, key);
    InsertSemantics(a, start, key, value, Path(a, start) + key);
  }

  /** Inserting one key leaves every other key below `start` as it was. */
  lemma InsertKeepsOthers<T>(a: Arena<T>, start: nat, key: seq<Byte>, value: T, k: seq<Byte>)
    requires Valid(a) && start < a.Size() && k != key
    ensures GetAt(InsertAt(a, start, key, value), start, k) == GetAt(a, start, k)
  {
    var r := InsertAt(a, start, key, value);
    InsertReaches(a, start, key, value);
    ExtendsPath(a, r, start);
    DescendFromPath(r, start, k);
    DescendFromPath(a, start, k);
    AppendCancel(Path(a, start), k, key);
    InsertSemantics(a, start, key, value, Path(a, start) + k);
  }

  lemma AppendCancel(p: seq<Byte>, k: seq<Byte>, key: seq<Byte>)
    requires k != key
    ensures p + k != p + key
  {
    assert (p + k)[|p|..] == k;
    assert (p + key)[|p|..] == key;
  }

  /** On a key whose path already exists, insertion only swaps that node's value slot. */
  lemma {:induction false} InsertExisting<T>(a: Arena<T>, start: nat, key: seq<Byte>, value: T)
    requires Valid(a) && start < a.Size() && Descend(a, start, key).Some?
    ensures InsertAt(a, start, key, value) == Store(a, Descend(a, start, key).value, value)
    decreases |key|
  {
    if key != [] {
      InsertExisting(a, a.pointers[start][key[0]], key[1..], value);
    }
  }

  // ---------------------------------------------------------------------------
  // The inner loop of lib.rs:66-74 as written

  /**
   Allocation as lib.rs:66-74 writes it: `index` never advances, so every new
   node is hung off the branch node `at`, and the value goes on the node pushed
   last.
   */
  function GrowAsWritten<T>(a: Arena<T>, at: nat, suffix: seq<Byte>, value: T): (r: Arena<T>)
    requires Shaped(a) && at < a.Size() && suffix != []
    ensures Shaped(r) && r.Size() == a.Size() + |suffix|
    ensures forall p | 0 <= p < a.Size() && p != at :: r.pointers[p] == a.pointers[p]
    ensures forall c | a.Size() <= c < r.Size() :: r.pointers[c] == EmptyRow() && r.parents[c].0 == at
    ensures forall i | 0 <= i < |suffix| :: a.Size() <= r.pointers[at][suffix[i]] < r.Size()
    ensures forall b: Byte | b !in suffix :: r.pointers[at][b] == a.pointers[at][b]
    ensures r.parents[..a.Size()] == a.parents
    decreases |suffix|
  {
    var a1 := Attach(a, at, suffix[0]);
    if |suffix| == 1 then a1.(values := a1.values[a.Size() := Some(value)])
    else
      var r := GrowAsWritten(a1, at, suffix[1..], value);
      assert r.parents[a.Size()] == r.parents[..a1.Size()][a.Size()] == (at, suffix[0]);
      assert r.parents[..a.Size()] == r.parents[..a1.Size()][..a.Size()];
      r
  }

  /**
   As written, every key of two or more bytes whose allocation starts at `at`
   is lost: its first byte leads to a fresh node with no children, so the rest
   of the key cannot be descended.
   */
  lemma AsWrittenMissesSuffix<T>(a: Arena<T>, at: nat, suffix: seq<Byte>, value: T)
    requires Shaped(a) && at < a.Size() && |suffix| >= 2
    ensures Descend(GrowAsWritten(a, at, suffix, value), at, suffix) == None
  {
    var r := GrowAsWritten(a, at, suffix, value);
    var m := r.pointers[at][suffix[0]];
    assert m != 0 && r.pointers[m] == EmptyRow();
    assert r.pointers[m][suffix[1..][0]] == 0;
  }

  /**
   `StringTree::insert` as lib.rs:53-85 writes it, on the string_tree.rs layout
   (with parent entries and fill counts) and from any node `start`.
   */
  function InsertAsWritten<T>(a: Arena<T>, start: nat, key: seq<Byte>, value: T): (r: Arena<T>)
    requires Shaped(a) && start < a.Size()
    ensures Shaped(r)
    decreases |key|
  {
    if key == [] then a.(values := a.values[start := Some(value)])
    else
      var next := a.pointers[start][key[0]];
      if next != 0 then InsertAsWritten(a, next, key[1..], value)
      else GrowAsWritten(a, start, key, value)
  }

  /**
   Inserting "ab" into an empty tree as written sets `pointers[0]['a'] = 1` and
   `pointers[0]['b'] = 2`, so looking "ab" up afterwards finds nothing, whereas
   the chained insertion finds the value.
   */
  lemma AsWrittenLosesSuffix()
    ensures var r := InsertAsWritten(NewArena<int>(), 0, [0x61, 0x62], 7);
      && r.pointers[0][0x61] == 1
      && r.pointers[0][0x62] == 2
      && GetAt(r, 0, [0x61, 0x62]) == None
    ensures GetAt(InsertAt(NewArena<int>(), 0, [0x61, 0x62], 7), 0, [0x61, 0x62]) == Some(7)
  {
    var a := NewArena<int>();
    var a1 := Attach(a, 0, 0x61);
    var a2 := Attach(a1, 0, 0x62);
    var r := InsertAsWritten(a, 0, [0x61, 0x62], 7);
    assert [0x61, 0x62][1..] == [0x62];
    assert r == a2.(values := a2.values[2 := Some(7)]);
    assert a2.pointers[1] == EmptyRow();
    assert Descend(r, 1, [0x62]) == None;
    InsertThenGet(a, 0, [0x61, 0x62], 7);
  }
}
