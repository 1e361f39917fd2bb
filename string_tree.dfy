/**
 `StringTree` (string_tree.rs, with the insertion of lib.rs): the four node
 tables held in fields that its methods update in place.
 */
module StringTrees {
  import opened Wrappers
  import opened TrieArena
  import opened Insertion
  import opened Removal
  import Nodes

  /** The tree `from` builds: the pairs inserted in order, starting from the empty tree. */
  function FromPairs<T>(pairs: seq<(seq<Byte>, T)>): (r: Arena<T>)
    ensures Valid(r)
    decreases |pairs|
  {
    if pairs == [] then NewArena()
    else
      var last := pairs[|pairs| - 1];
      InsertAt(FromPairs(pairs[..|pairs| - 1]), 0, last.0, last.1)
  }

  /** The value of the last pair whose key is `key`, if any. */
  function LastValue<T>(pairs: seq<(seq<Byte>, T)>, key: seq<Byte>): Option<T>
    decreases |pairs|
  {
    if pairs == [] then None
    else if pairs[|pairs| - 1].0 == key then Some(pairs[|pairs| - 1].1)
    else LastValue(pairs[..|pairs| - 1], key)
  }

  /** A tree built by `from` maps each key to the value of its last occurrence: later duplicates win. */
  lemma {:induction false} FromPairsGet<T>(pairs: seq<(seq<Byte>, T)>, key: seq<Byte>)
    ensures GetAt(FromPairs(pairs), 0, key) == LastValue(pairs, key)
    decreases |pairs|
  {
    if pairs != [] {
      var init := pairs[..|pairs| - 1];
      var last := pairs[|pairs| - 1];
      FromPairsGet(init, key);
      InsertSemantics(FromPairs(init), 0, last.0, last.1, key);
    }
  }

  /** `from`: a new tree into which the pairs are inserted one after another. */
  method From<T>(pairs: seq<(seq<Byte>, T)>) returns (tree: StringTree<T>)
    ensures fresh(tree) && tree.Valid() && tree.Tables() == FromPairs(pairs)
  {
    tree := new StringTree();
    var i := 0;
    while i < |pairs|
      invariant 0 <= i <= |pairs|
      invariant fresh(tree) && tree.Valid() && tree.Tables() == FromPairs(pairs[..i])
    {
      assert pairs[..i + 1][..i] == pairs[..i];
      var previous := tree.Insert(pairs[i].0, pairs[i].1);
      i := i + 1;
    }
    assert pairs[..|pairs|] == pairs;
  }

  /**
   Inserting "cat", "car" and "card" and then removing "car" keeps "cat" and
   "card", empties "car", and leaves the bare prefix "ca" without a value.
   */
  lemma CatCarCard(cat: seq<Byte>, car: seq<Byte>, card: seq<Byte>, ca: seq<Byte>, pairs: seq<(seq<Byte>, int)>)
    requires cat == [0x63, 0x61, 0x74] && car == [0x63, 0x61, 0x72] && card == car + [0x64] && ca == [0x63, 0x61]
    requires pairs == [(cat, 1), (car, 2), (card, 3)]
    ensures var built := FromPairs(pairs);
      && GetAt(built, 0, cat) == Some(1) && GetAt(built, 0, car) == Some(2)
      && GetAt(built, 0, card) == Some(3) && GetAt(built, 0, ca) == None
    ensures var removed := ClearAt(FromPairs(pairs), 0, car);
      && GetAt(removed, 0, car) == None
      && GetAt(removed, 0, cat) == Some(1) && GetAt(removed, 0, card) == Some(3)
  {
    var built := FromPairs(pairs);
    assert cat != car by { assert cat[2] != car[2]; }
    assert |ca| < |cat| == |car| < |card|;
    assert pairs[..2] == [(cat, 1), (car, 2)] && pairs[..2][..1] == [(cat, 1)] && pairs[..2][..1][..0] == [];
    var two, one := pairs[..2], pairs[..2][..1];
    assert LastValue(pairs, cat) == LastValue(two, cat) == LastValue(one, cat) == Some(1);
    assert LastValue(pairs, car) == LastValue(two, car) == Some(2);
    assert LastValue(pairs, ca) == LastValue(two, ca) == LastValue(one, ca) == LastValue(one[..0], ca) == None;
    FromPairsGet(pairs, cat);
    FromPairsGet(pairs, car);
    FromPairsGet(pairs, card);
    FromPairsGet(pairs, ca);
    RemoveThenGet(built, 0, car);
    RemoveKeepsOthers(built, 0, car, cat);
    RemoveKeepsOthers(built, 0, car, card);
  }

  class StringTree<T> {
    var pointers: seq<seq<nat>>
    var fillCounts: seq<nat>
    var values: seq<Option<T>>
    var parents: seq<(nat, Byte)>

    /** The four tables as one value. */
    function Tables(): Arena<T>
      reads this
    {
      Arena(pointers, fillCounts, values, parents)
    }

    ghost predicate Valid()
      reads this
    {
      TrieArena.Valid(Tables())
    }

    /** `new`: only the root, with no children and no value. */
    constructor ()
      ensures Valid() && Tables() == NewArena()
    {
      pointers := [EmptyRow()];
      fillCounts := [0];
      values := [None];
      parents := [(0, 0)];
      EmptyRowUnoccupied();
    }

    /** `root_node`: the read cursor at node 0. */
    function RootNode(): (r: Nodes.NodeRef<T>)
      requires Valid()
      reads this
      ensures r.Valid() && r.tree == Tables() && r.Path() == []
    {
      Nodes.Root(Tables())
    }

    /** `get`: the root cursor's `get`. */
    function Get(key: seq<Byte>): Option<T>
      requires Valid()
      reads this
    {
      RootNode().Get(key)
    }

    /**
     `mem::swap` of `Some(value)` into node `n`'s value slot (the found branch of
     `set` in string_tree_node_mut.rs): returns the old slot contents.
     */
    method Swap(n: nat, value: T) returns (previous: Option<T>)
      requires Valid() && n < |pointers|
      modifies this
      ensures Valid() && Tables() == Store(old(Tables()), n, value)
      ensures previous == old(values[n])
    {
      previous := values[n];
      values := values[n := Some(value)];
      ValidIgnoresValues(old(Tables()), Tables());
    }

    /** The value-clearing counterpart of `Swap`: takes node `n`'s value out. */
    method Take(n: nat) returns (previous: Option<T>)
      requires Valid() && n < |pointers|
      modifies this
      ensures Valid() && Tables() == old(Tables()).(values := old(values)[n := None])
      ensures previous == old(values[n])
    {
      previous := values[n];
      values := values[n := None];
      ValidIgnoresValues(old(Tables()), Tables());
    }

    /**
     Insertion below node `start` (lib.rs:53-85 with `start` for the root): the
     outer loop follows existing pointers; at the first missing one the inner
     loop allocates a node per remaining byte, each below the one before, and
     the value goes on the last node. Returns the value the key held before.
     */
    method InsertAt(start: nat, key: seq<Byte>, value: T) returns (previous: Option<T>)
      requires Valid() && start < |pointers|
      modifies this
      ensures Valid() && Tables() == Insertion.InsertAt(old(Tables()), start, key, value)
      ensures previous == GetAt(old(Tables()), start, key)
    {
      ghost var target := Insertion.InsertAt(Tables(), start, key, value);
      var index: nat := start;
      var i := 0;
      while i < |key|
        invariant 0 <= i <= |key| && index < |pointers|
        invariant Tables() == old(Tables())
        invariant Descend(Tables(), start, key[..i]) == Some(index)
        invariant Insertion.InsertAt(Tables(), index, key[i..], value) == target
        decreases |key| - i
      {
        assert key[i..][0] == key[i] && key[i..][1..] == key[i + 1..];
        var next := pointers[index][key[i]];
        if next == 0 {
          DescendAppend(Tables(), start, key[..i], key[i..]);
          assert key[..i] + key[i..] == key;
          previous := None;
          AllocateChain(index, key[i..], value);
          return;
        }
        assert key[..i + 1] == key[..i] + [key[i]];
        DescendSnoc(Tables(), start, key[..i], key[i]);
        index := next;
        i := i + 1;
      }
      assert key[..|key|] == key && key[|key|..] == [];
      previous := Swap(index, value);
    }

    /**
     The inner loop of insertion: hangs a fresh node below `index` for each byte
     of `suffix`, advancing to the node just made, then stores the value there.
     */
    method AllocateChain(index: nat, suffix: seq<Byte>, value: T)
      requires Valid() && index < |pointers| && suffix != [] && pointers[index][suffix[0]] == 0
      modifies this
      ensures Valid() && Tables() == Grow(old(Tables()), index, suffix, value)
    {
      ghost var target := Grow(Tables(), index, suffix, value);
      var at: nat := index;
      var i := 0;
      while i < |suffix|
        invariant 0 <= i <= |suffix| && at < |pointers|
        invariant Valid()
        invariant i < |suffix| ==> pointers[at][suffix[i]] == 0
        invariant Grow(Tables(), at, suffix[i..], value) == target
        decreases |suffix| - i
      {
        assert suffix[i..][0] == suffix[i] && suffix[i..][1..] == suffix[i + 1..];
        AttachValid(Tables(), at, suffix[i]);
        var node: nat := |pointers|;
        var row: seq<nat> := pointers[at][suffix[i] := node];
        pointers := pointers[at := row] + [EmptyRow()];
        fillCounts := fillCounts[at := fillCounts[at] + 1] + [0];
        values := values + [None];
        parents := parents + [(at, suffix[i])];
        at := node;
        i := i + 1;
      }
      assert suffix[|suffix|..] == [];
      var previous := Swap(at, value);
    }

    /** `insert`: insertion from the root; returns the key's previous value. */
    method Insert(key: seq<Byte>, value: T) returns (previous: Option<T>)
      requires Valid()
      modifies this
      ensures Valid() && Tables() == Insertion.InsertAt(old(Tables()), 0, key, value)
      ensures previous == GetAt(old(Tables()), 0, key)
    {
      previous := InsertAt(0, key, value);
    }

    /** Removal below node `start`: takes the value out of the key's node, if the node exists. */
    method RemoveAt(start: nat, key: seq<Byte>) returns (previous: Option<T>)
      requires Valid() && start < |pointers|
      modifies this
      ensures Valid() && Tables() == ClearAt(old(Tables()), start, key)
      ensures previous == GetAt(old(Tables()), start, key)
    {
      var found := Nodes.NodeRef(Tables(), start).IndexOfKey(key);
      match found {
        case None =>
          previous := None;
        case Some(n) =>
          previous := Take(n);
      }
    }

    /** `remove`: removal from the root; returns the key's previous value. */
    method Remove(key: seq<Byte>) returns (previous: Option<T>)
      requires Valid()
      modifies this
      ensures Valid() && Tables() == ClearAt(old(Tables()), 0, key)
      ensures previous == GetAt(old(Tables()), 0, key)
    {
      previous := RemoveAt(0, key);
    }
  }
}
