/**
 The read cursor `StringTreeNode` (string_tree_node.rs): a tree and a node
 index into it. Keys and paths are byte sequences; a `String` error value is
 the byte sequence it would hold.
 */
module Nodes {
  import opened Wrappers
  import opened TrieArena
  import Utf8Children

  /** Bytes of `s` in reverse order (`Vec::reverse`). */
  function Reverse<X>(s: seq<X>): (r: seq<X>)
    ensures |r| == |s|
  {
    if s == [] then [] else Reverse(s[1..]) + [s[0]]
  }

  lemma {:induction false} ReverseSnoc<X>(s: seq<X>, x: X)
    ensures Reverse(s + [x]) == [x] + Reverse(s)
  {
    if s == [] {
      assert [x][1..] == [];
    } else {
      assert (s + [x])[0] == s[0] && (s + [x])[1..] == s[1..] + [x];
      ReverseSnoc(s[1..], x);
    }
  }

  datatype NodeRef<T> = NodeRef(tree: Arena<T>, index: nat)
  {
    /** The tree keeps its invariant and the index names one of its nodes. */
    ghost predicate Valid()
    {
      TrieArena.Valid(tree) && index < tree.Size()
    }

    /**
     `get_index_of_key`: one pointer hop per key byte from this node, absent as
     soon as a pointer is 0; the empty key gives this node's own index.
     */
    method IndexOfKey(key: seq<Byte>) returns (r: Option<nat>)
      requires Valid()
      ensures r == Descend(tree, index, key)
      ensures r.Some? ==> r.value < tree.Size() && TrieArena.Path(tree, r.value) == Path() + key
      ensures key == [] ==> r == Some(index)
    {
      var current: nat := index;
      for j := 0 to |key|
        invariant current < tree.Size()
        invariant Descend(tree, index, key) == Descend(tree, current, key[j..])
      {
        assert key[j..][0] == key[j] && key[j..][1..] == key[j + 1..];
        current := tree.pointers[current][key[j]];
        if current == 0 {
          return None;
        }
      }
      assert key[|key|..] == [];
      r := Some(current);
      DescendPath(tree, index, key);
    }

    /** `get`: the value at `key` below this node, if the node exists and holds one. */
    function Get(key: seq<Byte>): Option<T>
      requires Valid()
    {
      GetAt(tree, index, key)
    }

    /** `try_get`: the value, or the error `path() ++ key` whether the node is missing or empty. */
    function TryGet(key: seq<Byte>): (r: Result<T, seq<Byte>>)
      requires Valid()
      ensures r.Ok? <==> Get(key).Some?
      ensures r.Ok? ==> r.value == Get(key).value
      ensures r.Err? ==> r.error == Path() + key
    {
      match Descend(tree, index, key)
      case None => Err(Path() + key)
      case Some(n) =>
        match tree.values[n]
        case None => Err(Path() + key)
        case Some(v) => Ok(v)
    }

    /** `step`: a cursor on the same tree at the node `key` leads to, if it exists. */
    function Step(key: seq<Byte>): (r: Option<NodeRef<T>>)
      requires Valid()
      ensures r.Some? <==> Descend(tree, index, key).Some?
      ensures r.Some? ==> r.value.Valid() && r.value.tree == tree
      ensures r.Some? ==> r.value.Path() == Path() + key
      ensures key == [] ==> r == Some(this)
    {
      match Descend(tree, index, key)
      case None => None
      case Some(n) =>
        DescendPath(tree, index, key);
        Some(NodeRef(tree, n))
    }

    /** `try_step`: like `step`, with the error `path() ++ key` on a miss. */
    function TryStep(key: seq<Byte>): (r: Result<NodeRef<T>, seq<Byte>>)
      requires Valid()
      ensures r.Ok? <==> Step(key).Some?
      ensures r.Ok? ==> r.value == Step(key).value
      ensures r.Err? ==> r.error == Path() + key
    {
      match Descend(tree, index, key)
      case None => Err(Path() + key)
      case Some(n) => Ok(NodeRef(tree, n))
    }

    /** `value`: the value at this node. */
    function Value(): (r: Option<T>)
      requires Valid()
      ensures r == Get([])
    {
      tree.values[index]
    }

    /** `value_result`: the value at this node, or the error `path()` when it holds none. */
    function ValueResult(): (r: Result<T, seq<Byte>>)
      requires Valid()
      ensures r.Ok? <==> Value().Some?
      ensures r.Ok? ==> r.value == Value().value
      ensures r.Err? ==> r.error == Path()
    {
      match tree.values[index]
      case None => Err(Path())
      case Some(v) => Ok(v)
    }

    /** `path`: the key bytes from the root down to this node. */
    function Path(): (r: seq<Byte>)
      requires Valid()
      ensures Descend(tree, 0, r) == Some(index)
      ensures forall m | 0 <= m < tree.Size() && m != index :: TrieArena.Path(tree, m) != r
    {
      PathDescend(tree, index);
      forall m | 0 <= m < tree.Size() && m != index ensures TrieArena.Path(tree, m) != TrieArena.Path(tree, index) {
        DescendRootIff(tree, TrieArena.Path(tree, index), m);
      }
      TrieArena.Path(tree, index)
    }

    /**
     `path` as the code computes it: climb parent links to the root collecting
     edge bytes, then reverse them.
     */
    method PathBytes() returns (r: seq<Byte>)
      requires Valid()
      ensures r == Path()
      ensures Descend(tree, 0, r) == Some(index)
    {
      var collected: seq<Byte> := [];
      var i: nat := index;
      while i != 0
        invariant i < tree.Size()
        invariant Path() == TrieArena.Path(tree, i) + Reverse(collected)
        decreases i
      {
        var (parent, byte) := tree.parents[i];
        ReverseSnoc(collected, byte);
        collected := collected + [byte];
        i := parent;
      }
      r := Reverse(collected);
      PathDescend(tree, index);
    }

    /** `children`: a cursor on the same tree for each logical child, in enumeration order. */
    function Children(): (r: seq<NodeRef<T>>)
      requires Valid()
      ensures |r| == |Utf8Children.Children(tree, index)|
      ensures forall i | 0 <= i < |r| :: r[i].Valid() && r[i].tree == tree
      ensures forall i | 0 <= i < |r| :: r[i].index == Utf8Children.Children(tree, index)[i]
    {
      var cs := Utf8Children.Children(tree, index);
      seq(|cs|, i requires 0 <= i < |cs| => NodeRef(tree, cs[i]))
    }
  }

  /** The cursor at the root (`root_node`). */
  function Root<T>(tree: Arena<T>): (r: NodeRef<T>)
    requires Valid(tree)
    ensures r.Valid() && r.Path() == []
  {
    NodeRef(tree, 0)
  }

  /** Stepping by `k1` and then by `k2` is stepping by `k1 ++ k2`. */
  lemma StepCompose<T>(node: NodeRef<T>, k1: seq<Byte>, k2: seq<Byte>)
    requires node.Valid()
    ensures node.Step(k1 + k2) ==
              match node.Step(k1)
              case None => None
              case Some(m) => m.Step(k2)
  {
    DescendAppend(node.tree, node.index, k1, k2);
  }

  /** Lookups below a node are lookups from the root under that node's path. */
  lemma GetFromRoot<T>(node: NodeRef<T>, key: seq<Byte>)
    requires node.Valid()
    ensures node.Get(key) == Root(node.tree).Get(node.Path() + key)
  {
    DescendFromPath(node.tree, node.index, key);
  }

  /** Every node is reached from the root by stepping along its own path. */
  lemma StepToPath<T>(node: NodeRef<T>)
    requires node.Valid()
    ensures Root(node.tree).Step(node.Path()) == Some(node)
  {
    PathDescend(node.tree, node.index);
  }
}
