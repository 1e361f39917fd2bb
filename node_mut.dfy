/**
 The write cursor `StringTreeNodeMut` (string_tree_node_mut.rs): a tree that
 its methods update in place, and a node index into it.
 */
module NodesMut {
  import opened Wrappers
  import opened TrieArena
  import opened Insertion
  import opened Removal
  import opened StringTrees
  import Nodes
  import Utf8Children

  class NodeMut<T> {
    const tree: StringTree<T>
    const index: nat

    constructor (tree: StringTree<T>, index: nat)
      ensures this.tree == tree && this.index == index
    {
      this.tree := tree;
      this.index := index;
    }

    /** The tree keeps its invariant and the index names one of its nodes. */
    ghost predicate Valid()
      reads tree
    {
      tree.Valid() && index < |tree.pointers|
    }

    /** `as_ref`: the read cursor at the same node of the same tables. */
    function AsRef(): (r: Nodes.NodeRef<T>)
      requires Valid()
      reads tree
      ensures r.Valid() && r.tree == tree.Tables() && r.index == index
    {
      Nodes.NodeRef(tree.Tables(), index)
    }

    /** `get`: the value at `key` below this node. */
    function Get(key: seq<Byte>): Option<T>
      requires Valid()
      reads tree
    {
      AsRef().Get(key)
    }

    /**
     `try_get`: the value, or an error: `path() ++ key` when the node is missing,
     but only `path()` when the node exists and holds no value.
     */
    function TryGet(key: seq<Byte>): (r: Result<T, seq<Byte>>)
      requires Valid()
      reads tree
      ensures r.Ok? <==> Get(key).Some?
      ensures r.Ok? ==> r.value == Get(key).value
      ensures r.Err? && Descend(tree.Tables(), index, key).None? ==> r.error == Path() + key
      ensures r.Err? && Descend(tree.Tables(), index, key).Some? ==> r.error == Path()
    {
      match Descend(tree.Tables(), index, key)
      case None => Err(Path() + key)
      case Some(n) =>
        match tree.values[n]
        case None => Err(Path())
        case Some(v) => Ok(v)
    }

    /** `value_non_mut`: the value at this node. */
    function ValueNonMut(): (r: Option<T>)
      requires Valid()
      reads tree
      ensures r == Get([])
    {
      AsRef().Value()
    }

    /** `value_result_non_mut`: the value at this node, or the error `path()`. */
    function ValueResultNonMut(): (r: Result<T, seq<Byte>>)
      requires Valid()
      reads tree
      ensures r.Ok? <==> ValueNonMut().Some?
      ensures r.Ok? ==> r.value == ValueNonMut().value
      ensures r.Err? ==> r.error == Path()
    {
      AsRef().ValueResult()
    }

    /** `path`: the key bytes from the root down to this node. */
    function Path(): (r: seq<Byte>)
      requires Valid()
      reads tree
      ensures Descend(tree.Tables(), 0, r) == Some(index)
    {
      PathDescend(tree.Tables(), index);
      AsRef().Path()
    }

    /** `children`: the indices of the logical children, as the read cursor yields them. */
    function Children(): (r: seq<nat>)
      requires Valid()
      reads tree
      ensures |r| == |AsRef().Children()|
      ensures forall i | 0 <= i < |r| :: r[i] == AsRef().Children()[i].index
    {
      Utf8Children.Children(tree.Tables(), index)
    }

    /** `step`: a cursor on the same tree at the node `key` leads to, if it exists. */
    method Step(key: seq<Byte>) returns (r: Option<NodeMut<T>>)
      requires Valid()
      ensures r.Some? <==> AsRef().Step(key).Some?
      ensures r.Some? ==> r.value.tree == tree && r.value.index == AsRef().Step(key).value.index
    {
      var found := AsRef().IndexOfKey(key);
      match found {
        case None =>
          r := None;
        case Some(n) =>
          var node := new NodeMut(tree, n);
          r := Some(node);
      }
    }

    /** `try_step`: like `step`, with the error `path() ++ key` on a miss. */
    method TryStep(key: seq<Byte>) returns (r: Result<NodeMut<T>, seq<Byte>>)
      requires Valid()
      ensures r.Ok? <==> AsRef().Step(key).Some?
      ensures r.Ok? ==> r.value.tree == tree && r.value.index == AsRef().Step(key).value.index
      ensures r.Err? ==> r.error == Path() + key
    {
      var found := AsRef().IndexOfKey(key);
      match found {
        case None =>
          r := Err(Path() + key);
        case Some(n) =>
          var node := new NodeMut(tree, n);
          r := Ok(node);
      }
    }

    /**
     `set`: when the key's node exists, swaps the value into its slot and returns
     the old contents; when it does not, inserts the key below this node.
     */
    method Set(key: seq<Byte>, value: T) returns (previous: Option<T>)
      requires Valid()
      modifies tree
      ensures Valid()
      ensures tree.Tables() == Insertion.InsertAt(old(tree.Tables()), index, key, value)
      ensures previous == GetAt(old(tree.Tables()), index, key)
    {
      var found := AsRef().IndexOfKey(key);
      match found {
        case Some(n) =>
          InsertExisting(tree.Tables(), index, key, value);
          previous := tree.Swap(n, value);
        case None =>
          previous := tree.InsertAt(index, key, value);
      }
    }

    /** `remove`: takes the value at the key out and returns it; a missing key changes nothing. */
    method Remove(key: seq<Byte>) returns (previous: Option<T>)
      requires Valid()
      modifies tree
      ensures Valid()
      ensures tree.Tables() == ClearAt(old(tree.Tables()), index, key)
      ensures previous == GetAt(old(tree.Tables()), index, key)
    {
      previous := tree.RemoveAt(index, key);
    }
  }

  /** `root_node_mut`: the write cursor at node 0. */
  method RootNodeMut<T>(tree: StringTree<T>) returns (r: NodeMut<T>)
    requires tree.Valid()
    ensures r.tree == tree && r.index == 0 && r.Valid()
  {
    r := new NodeMut(tree, 0);
  }

  /** `to_mut`: a write cursor on the given tree at the read cursor's index. */
  method ToMut<T>(node: Nodes.NodeRef<T>, tree: StringTree<T>) returns (r: NodeMut<T>)
    ensures r.tree == tree && r.index == node.index
    ensures tree.Tables() == node.tree && node.Valid() ==> r.Valid() && r.AsRef() == node
  {
    r := new NodeMut(tree, node.index);
  }
}
