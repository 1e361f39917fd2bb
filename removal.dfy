/**
 Value removal as the doc comment of `remove` (string_tree_node_mut.rs) states
 it: the value at the key is taken out and returned, and a missing key leaves
 the tree alone. Nodes are never reclaimed here.
 */
module Removal {
  import opened Wrappers
  import opened TrieArena
  import opened Insertion

  /** Clears the value slot of the node at `key` below `start`, if that node exists. */
  function ClearAt<T>(a: Arena<T>, start: nat, key: seq<Byte>): (r: Arena<T>)
    requires Valid(a) && start < a.Size()
    ensures Valid(r)
    ensures r.pointers == a.pointers && r.fillCounts == a.fillCounts && r.parents == a.parents
  {
    match Descend(a, start, key)
    case None => a
    case Some(n) =>
      var r := a.(values := a.values[n := None]);
      ValidIgnoresValues(a, r);
      r
  }

  /** After removal the key holds no value. */
  lemma RemoveThenGet<T>(a: Arena<T>, start: nat, key: seq<Byte>)
    requires Valid(a) && start < a.Size()
    ensures GetAt(ClearAt(a, start, key), start, key) == None
  {
    DescendSamePointers(a, ClearAt(a, start, key), start, key);
  }

  /** Removal leaves every other key's value alone: distinct keys reach distinct nodes. */
  lemma RemoveKeepsOthers<T>(a: Arena<T>, start: nat, key: seq<Byte>, k: seq<Byte>)
    requires Valid(a) && start < a.Size() && k != key
    ensures GetAt(ClearAt(a, start, key), start, k) == GetAt(a, start, k)
  {
    DescendSamePointers(a, ClearAt(a, start, key), start, k);
    if Descend(a, start, k).Some? {
      DescendInjective(a, start, k, key);
    }
  }

  /**
   Removal through a cursor at `start` seen from the root: the absolute key
   `path(start) ++ key` reads as empty, and every other absolute key as before.
   */
  lemma RemoveSemantics<T>(a: Arena<T>, start: nat, key: seq<Byte>, k: seq<Byte>)
    requires Valid(a) && start < a.Size()
    ensures GetAt(ClearAt(a, start, key), 0, k) ==
              if k == Path(a, start) + key then None else GetAt(a, 0, k)
  {
    DescendSamePointers(a, ClearAt(a, start, key), 0, k);
    DescendFromPath(a, start, key);
    if k != Path(a, start) + key && Descend(a, 0, k).Some? {
      DescendInjective(a, 0, k, Path(a, start) + key);
    }
  }

  /** A second removal of the same key changes nothing and finds nothing. */
  lemma RemoveTwice<T>(a: Arena<T>, start: nat, key: seq<Byte>)
    requires Valid(a) && start < a.Size()
    ensures ClearAt(ClearAt(a, start, key), start, key) == ClearAt(a, start, key)
    ensures GetAt(ClearAt(a, start, key), start, key) == None
  {
    DescendSamePointers(a, ClearAt(a, start, key), start, key);
  }

  /** Inserting and then removing a key restores every lookup but that key's, which is empty. */
  lemma InsertThenRemove<T>(a: Arena<T>, start: nat, key: seq<Byte>, value: T, k: seq<Byte>)
    requires Valid(a) && start < a.Size()
    ensures GetAt(ClearAt(InsertAt(a, start, key, value), start, key), start, k) ==
              if k == key then None else GetAt(a, start, k)
  {
    var r := InsertAt(a, start, key, value);
    InsertReaches(a, start, key, value);
    if k == key {
      RemoveThenGet(r, start, key);
    } else {
      RemoveKeepsOthers(r, start, key, k);
      InsertKeepsOthers(a, start, key, value, k);
    }
  }
}
