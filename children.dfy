/**
 UTF-8-aware child enumeration (`children()` in string_tree_node.rs and
 string_tree_node_mut.rs). A logical child is the node reached by one whole
 encoded character: a single byte 0x00-0x7F, or a lead byte in 0xC0-0xDF,
 0xE0-0xEF or 0xF0-0xF7 followed by one, two or three continuation bytes in
 0x80-0xBF. These are the lead ranges the code uses; they are wider than those
 of RFC 3629 (they admit 0xC0, 0xC1 and 0xF5-0xF7), and the code does not
 apply RFC 3629's second-byte restrictions.
 */
module Utf8Children {
  import opened Wrappers
  import opened TrieArena

  /** A half-open byte range `lo..hi`. */
  type ByteRange = r: (nat, nat) | r.0 <= r.1 <= Fanout witness (0, 0)

  /** The byte ranges of one character class, lead byte first. */
  const SingleByte: seq<ByteRange> := [(0x00, 0x80)]
  const TwoByte: seq<ByteRange> := [(0xC0, 0xE0), (0x80, 0xC0)]
  const ThreeByte: seq<ByteRange> := [(0xE0, 0xF0), (0x80, 0xC0), (0x80, 0xC0)]
  const FourByte: seq<ByteRange> := [(0xF0, 0xF8), (0x80, 0xC0), (0x80, 0xC0), (0x80, 0xC0)]

  // ---------------------------------------------------------------------------
  // The enumeration as the code performs it

  /** The children of node `m` along the bytes `lo..hi`, in ascending byte order. */
  function Row<T>(a: Arena<T>, m: nat, lo: nat, hi: nat): (r: seq<nat>)
    requires Shaped(a) && m < a.Size() && lo <= hi <= Fanout
    ensures forall i | 0 <= i < |r| :: 0 < r[i] < a.Size()
    decreases hi - lo
  {
    if lo == hi then []
    else
      var c := a.pointers[m][lo];
      (if c != 0 then [c] else []) + Row(a, m, lo + 1, hi)
  }

  /** One loop level: for each node in turn, its children along the bytes `lo..hi`. */
  function Edges<T>(a: Arena<T>, nodes: seq<nat>, lo: nat, hi: nat): (r: seq<nat>)
    requires Shaped(a) && lo <= hi <= Fanout
    requires forall i | 0 <= i < |nodes| :: nodes[i] < a.Size()
    ensures forall i | 0 <= i < |r| :: 0 < r[i] < a.Size()
  {
    if nodes == [] then [] else Row(a, nodes[0], lo, hi) + Edges(a, nodes[1..], lo, hi)
  }

  /** The nested loops of one character class: one level per range, outermost first. */
  function Expand<T>(a: Arena<T>, n: nat, ranges: seq<ByteRange>): (r: seq<nat>)
    requires Shaped(a) && n < a.Size()
    ensures forall i | 0 <= i < |r| :: r[i] < a.Size()
    ensures ranges == [] ==> r == [n]
    ensures ranges != [] ==> forall i | 0 <= i < |r| :: r[i] != 0
    decreases |ranges|
  {
    if ranges == [] then [n]
    else
      var last := ranges[|ranges| - 1];
      Edges(a, Expand(a, n, ranges[..|ranges| - 1]), last.0, last.1)
  }

  /** `children()`: the single-byte class, then the two-, three- and four-byte classes. */
  function Children<T>(a: Arena<T>, n: nat): (r: seq<nat>)
    requires Shaped(a) && n < a.Size()
    ensures Below(r, a.Size())
  {
    var s1, s2, s3, s4 := Expand(a, n, SingleByte), Expand(a, n, TwoByte), Expand(a, n, ThreeByte), Expand(a, n, FourByte);
    BelowAppend(s1, s2, a.Size());
    BelowAppend(s1 + s2, s3, a.Size());
    BelowAppend(s1 + s2 + s3, s4, a.Size());
    s1 + s2 + s3 + s4
  }

  /** Every index in `s` is below `n`. */
  ghost predicate Below(s: seq<nat>, n: nat)
  {
    forall i | 0 <= i < |s| :: s[i] < n
  }

  lemma BelowAppend(x: seq<nat>, y: seq<nat>, n: nat)
    requires Below(x, n) && Below(y, n)
    ensures Below(x + y, n)
  {
  }

  // ---------------------------------------------------------------------------
  // The reference: byte sequences of whole characters, in enumeration order

  /** Every byte of `w` lies in the range at its position. */
  ghost predicate InRanges(w: seq<Byte>, ranges: seq<ByteRange>)
  {
    |w| == |ranges| && forall i | 0 <= i < |w| :: ranges[i].0 <= w[i] < ranges[i].1
  }

  /** `w` is one whole character under the code's lead and continuation ranges. */
  ghost predicate IsCodeChar(w: seq<Byte>)
  {
    InRanges(w, SingleByte) || InRanges(w, TwoByte) || InRanges(w, ThreeByte) || InRanges(w, FourByte)
  }

  /** `w` followed by each byte of `lo..hi`, ascending. */
  function Appends(w: seq<Byte>, lo: nat, hi: nat): seq<seq<Byte>>
    requires lo <= hi <= Fanout
    decreases hi - lo
  {
    if lo == hi then [] else [w + [lo]] + Appends(w, lo + 1, hi)
  }

  /** Each word of `ws` in turn, followed by each byte of `lo..hi`. */
  function Extend(ws: seq<seq<Byte>>, lo: nat, hi: nat): seq<seq<Byte>>
    requires lo <= hi <= Fanout
  {
    if ws == [] then [] else Appends(ws[0], lo, hi) + Extend(ws[1..], lo, hi)
  }

  /** All byte sequences within `ranges`, in lexicographic order. */
  function Sequences(ranges: seq<ByteRange>): seq<seq<Byte>>
    decreases |ranges|
  {
    if ranges == [] then [[]]
    else
      var last := ranges[|ranges| - 1];
      Extend(Sequences(ranges[..|ranges| - 1]), last.0, last.1)
  }

  /** All whole characters, class by class, each class in lexicographic order. */
  function CodeChars(): seq<seq<Byte>>
  {
    Sequences(SingleByte) + Sequences(TwoByte) + Sequences(ThreeByte) + Sequences(FourByte)
  }

  /** The nodes that descending each of `ws` from `n` reaches, in the order of `ws`, skipping misses. */
  function Reached<T>(a: Arena<T>, n: nat, ws: seq<seq<Byte>>): (r: seq<nat>)
    requires Shaped(a) && n < a.Size()
    ensures forall i | 0 <= i < |r| :: r[i] < a.Size()
  {
    if ws == [] then []
    else
      (match Descend(a, n, ws[0]) case Some(c) => [c] case None => [])
      + Reached(a, n, ws[1..])
  }

  ghost predicate Distinct<X>(s: seq<X>)
  {
    forall i, j | 0 <= i < j < |s| :: s[i] != s[j]
  }

  // ---------------------------------------------------------------------------
  // The enumeration equals the reference

  lemma {:induction false} ReachedAppend<T>(a: Arena<T>, n: nat, ws1: seq<seq<Byte>>, ws2: seq<seq<Byte>>)
    requires Shaped(a) && n < a.Size()
    ensures Reached(a, n, ws1 + ws2) == Reached(a, n, ws1) + Reached(a, n, ws2)
  {
    if ws1 == [] {
      assert ws1 + ws2 == ws2;
    } else {
      assert (ws1 + ws2)[0] == ws1[0] && (ws1 + ws2)[1..] == ws1[1..] + ws2;
      ReachedAppend(a, n, ws1[1..], ws2);
    }
  }

  lemma {:induction false} EdgesAppend<T>(a: Arena<T>, x: seq<nat>, y: seq<nat>, lo: nat, hi: nat)
    requires Shaped(a) && lo <= hi <= Fanout
    requires forall i | 0 <= i < |x| :: x[i] < a.Size()
    requires forall i | 0 <= i < |y| :: y[i] < a.Size()
    ensures Edges(a, x + y, lo, hi) == Edges(a, x, lo, hi) + Edges(a, y, lo, hi)
  {
    if x == [] {
      assert x + y == y;
    } else {
      assert (x + y)[0] == x[0] && (x + y)[1..] == x[1..] + y;
      EdgesAppend(a, x[1..], y, lo, hi);
    }
  }

  /** Below a node reached by `w`, one row of slots is the reference's extensions of `w`. */
  lemma {:induction false} RowReached<T>(a: Arena<T>, n: nat, w: seq<Byte>, lo: nat, hi: nat)
    requires Shaped(a) && n < a.Size() && lo <= hi <= Fanout
    ensures Reached(a, n, Appends(w, lo, hi)) ==
              match Descend(a, n, w)
              case None => []
              case Some(m) => Row(a, m, lo, hi)
    decreases hi - lo
  {
    if lo < hi {
      RowReached(a, n, w, lo + 1, hi);
      DescendSnoc(a, n, w, lo);
    }
  }

  /** One loop level over the reached nodes is the reference extended by one range. */
  lemma {:induction false} EdgesReached<T>(a: Arena<T>, n: nat, ws: seq<seq<Byte>>, lo: nat, hi: nat)
    requires Shaped(a) && n < a.Size() && lo <= hi <= Fanout
    ensures Edges(a, Reached(a, n, ws), lo, hi) == Reached(a, n, Extend(ws, lo, hi))
  {
    if ws != [] {
      var first: seq<nat> := match Descend(a, n, ws[0]) case Some(c) => [c] case None => [];
      EdgesAppend(a, first, Reached(a, n, ws[1..]), lo, hi);
      RowReached(a, n, ws[0], lo, hi);
      if first != [] {
        assert Edges(a, first, lo, hi) == Row(a, first[0], lo, hi) + Edges(a, [], lo, hi);
      }
      ReachedAppend(a, n, Appends(ws[0], lo, hi), Extend(ws[1..], lo, hi));
      EdgesReached(a, n, ws[1..], lo, hi);
    }
  }

  /** The nested loops of a class reach exactly the reference sequences of that class, in order. */
  lemma {:induction false} ExpandReached<T>(a: Arena<T>, n: nat, ranges: seq<ByteRange>)
    requires Shaped(a) && n < a.Size()
    ensures Expand(a, n, ranges) == Reached(a, n, Sequences(ranges))
    decreases |ranges|
  {
    if ranges != [] {
      var last := ranges[|ranges| - 1];
      ExpandReached(a, n, ranges[..|ranges| - 1]);
      EdgesReached(a, n, Sequences(ranges[..|ranges| - 1]), last.0, last.1);
    }
  }

  /**
   `children()` yields, in order, the node reached by each whole character of
   the single-byte, two-, three- and four-byte classes whose every hop exists,
   each class in ascending byte order.
   */
  lemma ChildrenAreReachedChars<T>(a: Arena<T>, n: nat)
    requires Shaped(a) && n < a.Size()
    ensures Children(a, n) == Reached(a, n, CodeChars())
  {
    ExpandReached(a, n, SingleByte);
    ExpandReached(a, n, TwoByte);
    ExpandReached(a, n, ThreeByte);
    ExpandReached(a, n, FourByte);
    var s1, s2, s3, s4 := Sequences(SingleByte), Sequences(TwoByte), Sequences(ThreeByte), Sequences(FourByte);
    ReachedAppend(a, n, s1, s2);
    ReachedAppend(a, n, s1 + s2, s3);
    ReachedAppend(a, n, s1 + s2 + s3, s4);
  }

  // ---------------------------------------------------------------------------
  // Membership

  lemma {:induction false} ReachedMember<T>(a: Arena<T>, n: nat, ws: seq<seq<Byte>>, c: nat)
    requires Shaped(a) && n < a.Size()
    ensures c in Reached(a, n, ws) <==> exists w :: w in ws && Descend(a, n, w) == Some(c)
  {
    if ws != [] {
      ReachedMember(a, n, ws[1..], c);
      if c in Reached(a, n, ws[1..]) {
        var w :| w in ws[1..] && Descend(a, n, w) == Some(c);
        assert w in ws;
      }
      if exists w :: w in ws && Descend(a, n, w) == Some(c) {
        var w :| w in ws && Descend(a, n, w) == Some(c);
        if w != ws[0] {
          assert w in ws[1..];
        }
      }
    }
  }

  lemma {:induction false} AppendsMember(w: seq<Byte>, lo: nat, hi: nat, x: seq<Byte>)
    requires lo <= hi <= Fanout
    ensures x in Appends(w, lo, hi) <==> |x| == |w| + 1 && x[..|w|] == w && lo <= x[|w|] < hi
    decreases hi - lo
  {
    if lo < hi {
      AppendsMember(w, lo + 1, hi, x);
      if |x| == |w| + 1 && x[..|w|] == w && x[|w|] == lo {
        assert x == w + [lo];
      }
    }
  }

  lemma {:induction false} ExtendMember(ws: seq<seq<Byte>>, lo: nat, hi: nat, x: seq<Byte>)
    requires lo <= hi <= Fanout
    ensures x in Extend(ws, lo, hi) <==> |x| > 0 && x[..|x| - 1] in ws && lo <= x[|x| - 1] < hi
  {
    if ws != [] {
      AppendsMember(ws[0], lo, hi, x);
      ExtendMember(ws[1..], lo, hi, x);
      if |x| > 0 && x[..|x| - 1] in ws && x[..|x| - 1] != ws[0] {
        assert x[..|x| - 1] in ws[1..];
      }
    }
  }

  /** The reference sequences of a class are exactly the byte sequences within its ranges. */
  lemma {:induction false} SequencesMember(ranges: seq<ByteRange>, x: seq<Byte>)
    ensures x in Sequences(ranges) <==> InRanges(x, ranges)
    decreases |ranges|
  {
    if ranges == [] {
      assert x in [[]] <==> x == [];
    } else {
      var k := |ranges| - 1;
      var init := ranges[..k];
      ExtendMember(Sequences(init), ranges[k].0, ranges[k].1, x);
      if |x| > 0 {
        SequencesMember(init, x[..|x| - 1]);
        if InRanges(x, ranges) {
          assert InRanges(x[..|x| - 1], init) by {
            forall i | 0 <= i < |x| - 1 ensures init[i].0 <= x[..|x| - 1][i] < init[i].1 {
              assert x[..|x| - 1][i] == x[i];
            }
          }
        }
        if InRanges(x[..|x| - 1], init) && |x| == |ranges| && ranges[k].0 <= x[k] < ranges[k].1 {
          forall i | 0 <= i < |x| ensures ranges[i].0 <= x[i] < ranges[i].1 {
            if i < k { assert x[..|x| - 1][i] == x[i]; }
          }
        }
      }
    }
  }

  lemma CodeCharsMember(w: seq<Byte>)
    ensures w in CodeChars() <==> IsCodeChar(w)
  {
    SequencesMember(SingleByte, w);
    SequencesMember(TwoByte, w);
    SequencesMember(ThreeByte, w);
    SequencesMember(FourByte, w);
  }

  /**
   A node is a logical child of `n` exactly when some whole character (under
   the code's ranges) descends from `n` to it.
   */
  lemma ChildrenMember<T>(a: Arena<T>, n: nat, c: nat)
    requires Shaped(a) && n < a.Size()
    ensures c in Children(a, n) <==> exists w :: IsCodeChar(w) && Descend(a, n, w) == Some(c)
  {
    ChildrenAreReachedChars(a, n);
    ReachedMember(a, n, CodeChars(), c);
    if exists w :: IsCodeChar(w) && Descend(a, n, w) == Some(c) {
      var w :| IsCodeChar(w) && Descend(a, n, w) == Some(c);
      CodeCharsMember(w);
    }
    if exists w :: w in CodeChars() && Descend(a, n, w) == Some(c) {
      var w :| w in CodeChars() && Descend(a, n, w) == Some(c);
      CodeCharsMember(w);
    }
  }

  /**
   In a valid arena, a node reached by anything other than one whole character
   (a continuation node halfway through a character, or a child along a stray
   byte 0x80-0xBF or 0xF8-0xFF) is never yielded.
   */
  lemma ChildrenSkipPartialChars<T>(a: Arena<T>, n: nat, w: seq<Byte>)
    requires Valid(a) && n < a.Size() && Descend(a, n, w).Some? && !IsCodeChar(w)
    ensures Descend(a, n, w).value !in Children(a, n)
  {
    var c := Descend(a, n, w).value;
    ChildrenMember(a, n, c);
    forall w' | IsCodeChar(w') ensures Descend(a, n, w') != Some(c) {
      DescendInjective(a, n, w, w');
    }
  }

  // ---------------------------------------------------------------------------
  // Distinctness

  lemma DistinctAppend<X>(x: seq<X>, y: seq<X>)
    requires Distinct(x) && Distinct(y)
    requires forall e | e in x :: e !in y
    ensures Distinct(x + y)
  {
    forall i, j | 0 <= i < j < |x + y| ensures (x + y)[i] != (x + y)[j] {
      if i < |x| && j >= |x| {
        assert (x + y)[i] in x && (x + y)[j] in y;
      }
    }
  }

  lemma {:induction false} AppendsDistinct(w: seq<Byte>, lo: nat, hi: nat)
    requires lo <= hi <= Fanout
    ensures Distinct(Appends(w, lo, hi))
    decreases hi - lo
  {
    if lo < hi {
      AppendsDistinct(w, lo + 1, hi);
      AppendsMember(w, lo + 1, hi, w + [lo]);
      DistinctAppend([w + [lo]], Appends(w, lo + 1, hi));
    }
  }

  lemma {:induction false} ExtendDistinct(ws: seq<seq<Byte>>, lo: nat, hi: nat)
    requires lo <= hi <= Fanout && Distinct(ws)
    ensures Distinct(Extend(ws, lo, hi))
  {
    if ws != [] {
      assert Distinct(ws[1..]) by {
        forall i, j | 0 <= i < j < |ws[1..]| ensures ws[1..][i] != ws[1..][j] {
          assert ws[1..][i] == ws[i + 1] && ws[1..][j] == ws[j + 1];
        }
      }
      ExtendDistinct(ws[1..], lo, hi);
      AppendsDistinct(ws[0], lo, hi);
      assert ws[0] !in ws[1..] by {
        forall j | 0 <= j < |ws[1..]| ensures ws[1..][j] != ws[0] {
          assert ws[1..][j] == ws[j + 1];
        }
      }
      forall x | x in Appends(ws[0], lo, hi) ensures x !in Extend(ws[1..], lo, hi) {
        AppendsMember(ws[0], lo, hi, x);
        ExtendMember(ws[1..], lo, hi, x);
      }
      DistinctAppend(Appends(ws[0], lo, hi), Extend(ws[1..], lo, hi));
    }
  }

  lemma {:induction false} SequencesDistinct(ranges: seq<ByteRange>)
    ensures Distinct(Sequences(ranges))
    decreases |ranges|
  {
    if ranges != [] {
      var k := |ranges| - 1;
      SequencesDistinct(ranges[..k]);
      ExtendDistinct(Sequences(ranges[..k]), ranges[k].0, ranges[k].1);
    }
  }

  /** Characters of different classes have different lengths, so no character is listed twice. */
  lemma CodeCharsDistinct()
    ensures Distinct(CodeChars())
  {
    var s1, s2, s3, s4 := Sequences(SingleByte), Sequences(TwoByte), Sequences(ThreeByte), Sequences(FourByte);
    SequencesDistinct(SingleByte);
    SequencesDistinct(TwoByte);
    SequencesDistinct(ThreeByte);
    SequencesDistinct(FourByte);
    forall x | x in s1 ensures x !in s2 { SequencesMember(SingleByte, x); SequencesMember(TwoByte, x); }
    DistinctAppend(s1, s2);
    forall x | x in s1 + s2 ensures x !in s3 {
      SequencesMember(SingleByte, x); SequencesMember(TwoByte, x); SequencesMember(ThreeByte, x);
    }
    DistinctAppend(s1 + s2, s3);
    forall x | x in s1 + s2 + s3 ensures x !in s4 {
      SequencesMember(SingleByte, x); SequencesMember(TwoByte, x);
      SequencesMember(ThreeByte, x); SequencesMember(FourByte, x);
    }
    DistinctAppend(s1 + s2 + s3, s4);
  }

  /** In a valid arena, distinct byte sequences from one node reach distinct nodes. */
  lemma {:induction false} ReachedDistinct<T>(a: Arena<T>, n: nat, ws: seq<seq<Byte>>)
    requires Valid(a) && n < a.Size() && Distinct(ws)
    ensures Distinct(Reached(a, n, ws))
  {
    if ws != [] {
      assert Distinct(ws[1..]) by {
        forall i, j | 0 <= i < j < |ws[1..]| ensures ws[1..][i] != ws[1..][j] {
          assert ws[1..][i] == ws[i + 1] && ws[1..][j] == ws[j + 1];
        }
      }
      ReachedDistinct(a, n, ws[1..]);
      var first: seq<nat> := match Descend(a, n, ws[0]) case Some(c) => [c] case None => [];
      forall c | c in first ensures c !in Reached(a, n, ws[1..]) {
        ReachedMember(a, n, ws[1..], c);
        forall w | w in ws[1..] ensures Descend(a, n, w) != Some(c) {
          var j :| 0 <= j < |ws[1..]| && ws[1..][j] == w;
          assert ws[j + 1] == w;
          DescendInjective(a, n, ws[0], w);
        }
      }
      DistinctAppend(first, Reached(a, n, ws[1..]));
    }
  }

  /** The yielded children are pairwise distinct nodes: their subtrees are disjoint. */
  lemma ChildrenDistinct<T>(a: Arena<T>, n: nat)
    requires Valid(a) && n < a.Size()
    ensures Distinct(Children(a, n))
  {
    ChildrenAreReachedChars(a, n);
    CodeCharsDistinct();
    ReachedDistinct(a, n, CodeChars());
  }

  // ---------------------------------------------------------------------------
  // Disjoint subtrees

  /** The lead byte of a whole character fixes its length: the lead ranges do not overlap. */
  lemma CodeCharLength(w: seq<Byte>)
    requires IsCodeChar(w)
    ensures |w| >= 1
    ensures |w| == if w[0] < 0x80 then 1 else if w[0] < 0xE0 then 2 else if w[0] < 0xF0 then 3 else 4
  {
  }

  /** Whole characters are prefix-free: two distinct ones stay distinct whatever follows them. */
  lemma CodeCharsPrefixFree(w1: seq<Byte>, w2: seq<Byte>, u: seq<Byte>, v: seq<Byte>)
    requires IsCodeChar(w1) && IsCodeChar(w2) && w1 != w2
    ensures w1 + u != w2 + v
  {
    CodeCharLength(w1);
    CodeCharLength(w2);
    if |w1| == |w2| {
      assert (w1 + u)[..|w1|] == w1 && (w2 + v)[..|w1|] == w2;
    } else {
      assert (w1 + u)[0] == w1[0] != w2[0] == (w2 + v)[0];
    }
  }

  /**
   Each yield covers a different section of the tree: no node lies below two
   of the yielded children, since whole characters are prefix-free.
   */
  lemma ChildrenDisjoint<T>(a: Arena<T>, n: nat, i: nat, j: nat, u: seq<Byte>, v: seq<Byte>)
    requires Valid(a) && n < a.Size() && i < j < |Children(a, n)|
    requires Descend(a, Children(a, n)[i], u).Some?
    ensures Descend(a, Children(a, n)[j], v) != Descend(a, Children(a, n)[i], u)
  {
    var cs := Children(a, n);
    ChildrenDistinct(a, n);
    ChildrenMember(a, n, cs[i]);
    ChildrenMember(a, n, cs[j]);
    var w1 :| IsCodeChar(w1) && Descend(a, n, w1) == Some(cs[i]);
    var w2 :| IsCodeChar(w2) && Descend(a, n, w2) == Some(cs[j]);
    assert cs[i] != cs[j];
    CodeCharsPrefixFree(w1, w2, u, v);
    DescendAppend(a, n, w1, u);
    DescendAppend(a, n, w2, v);
    DescendInjective(a, n, w1 + u, w2 + v);
  }
}
