/** The Python exceptions that the modelled code can raise, as values. */
module Outcomes {
  datatype PyError = KeyError | IndexError | AttributeError | OverflowError | UnicodeDecodeError

  datatype Result<+T> = Ok(value: T) | Err(error: PyError)
}

/**
 * The `Node` record of the Huffman challenge and the facts about trees that
 * the builder, the code generator, the serialiser and the decoder share.
 */
module HuffmanTree {

  /** A binary digit of a code or of a packed stream: `true` is '1', `false` is '0'. */
  type Bit = bool

  function BitValue(b: Bit): nat
  {
    if b then 1 else 0
  }

  type Byte = b: int | 0 <= b < 256

  /**
   * A node reference as the Python code sees it: `None`, a node whose `char`
   * is one character and which has no children, or a node whose `char` is ''
   * and whose children may each be a node or `None`.  (The `code` field is
   * carried next to the node by the code generator instead.)
   */
  datatype Tree =
    | Nil
    | Leaf(ch: char, freq: nat)
    | Internal(freq: nat, left: Tree, right: Tree)

  /** The `char` field as a Python string: one character for a leaf, '' otherwise. */
  function Label(t: Tree): string
  {
    if t.Leaf? then [t.ch] else []
  }

  /** Python's `<` on strings: lexicographic by code point, a proper prefix first. */
  predicate StrLess(x: string, y: string)
    ensures x <= y ==> (StrLess(x, y) <==> |x| < |y|)
    ensures y <= x ==> !StrLess(x, y)
  {
    if y == [] then false
    else if x == [] then true
    else if x[0] != y[0] then x[0] < y[0]
    else StrLess(x[1..], y[1..])
  }

  /**
   * `Node.__gt__`: frequencies first; at equal frequencies `self.char > other.char`,
   * so the leaf with the larger character wins, and a leaf wins over an internal node ('').
   */
  predicate Gt(a: Tree, b: Tree)
    requires a != Nil && b != Nil
    ensures a.freq != b.freq ==> (Gt(a, b) <==> a.freq > b.freq)
    ensures a.freq == b.freq && a.Leaf? && b.Leaf? ==> (Gt(a, b) <==> a.ch > b.ch)
    ensures a.freq == b.freq && a.Leaf? && b.Internal? ==> Gt(a, b)
    ensures a.Internal? ==> (Gt(a, b) <==> a.freq > b.freq)
  {
    if a.freq == b.freq then SingleLess(Label(b), Label(a)); StrLess(Label(b), Label(a)) else a.freq > b.freq
  }

  /** Strings of at most one character compare by that character, the empty one first. */
  lemma SingleLess(x: string, y: string)
    requires |x| <= 1 && |y| <= 1
    ensures StrLess(x, y) <==> |x| < |y| || (|x| == |y| == 1 && x[0] < y[0])
  {
    if |x| == |y| == 1 {
      assert x[1..] == [] == y[1..];
    }
  }

  /**
   * heapq's `a < b`: `Node` defines no `__lt__`, so Python falls back to the
   * reflected `b.__gt__(a)`.
   */
  predicate Less(a: Tree, b: Tree)
    requires a != Nil && b != Nil
    ensures a.Leaf? && b.Leaf? ==> (Less(a, b) <==> a.freq < b.freq || (a.freq == b.freq && a.ch < b.ch))
    ensures a.Internal? && b.Internal? ==> (Less(a, b) <==> a.freq < b.freq)
    ensures a.Internal? && b.Leaf? ==> (Less(a, b) <==> a.freq <= b.freq)
    ensures a.Leaf? && b.Internal? ==> (Less(a, b) <==> a.freq < b.freq)
  {
    Gt(b, a)
  }

  lemma {:induction false} StrLessIrreflexive(x: string)
    ensures !StrLess(x, x)
  {
    if x != [] {
      StrLessIrreflexive(x[1..]);
    }
  }

  lemma {:induction false} StrLessTransitive(x: string, y: string, z: string)
    requires StrLess(x, y) && StrLess(y, z)
    ensures StrLess(x, z)
  {
    if x != [] && x[0] == y[0] && y[0] == z[0] {
      StrLessTransitive(x[1..], y[1..], z[1..]);
    }
  }

  /** Two strings that are not ordered either way are equal. */
  lemma {:induction false} StrLessTotal(x: string, y: string)
    requires !StrLess(x, y) && !StrLess(y, x)
    ensures x == y
  {
    if x != [] && y != [] {
      StrLessTotal(x[1..], y[1..]);
      assert x == [x[0]] + x[1..] && y == [y[0]] + y[1..];
    }
  }

  /** No node is below itself. */
  lemma LessIrreflexive(a: Tree)
    requires a != Nil
    ensures !Less(a, a)
  {
    StrLessIrreflexive(Label(a));
  }

  /** heapq's `<` is transitive on nodes. */
  lemma LessTransitive(a: Tree, b: Tree, c: Tree)
    requires a != Nil && b != Nil && c != Nil
    requires Less(a, b) && Less(b, c)
    ensures Less(a, c)
  {
    if a.freq == b.freq == c.freq {
      StrLessTransitive(Label(a), Label(b), Label(c));
    }
  }

  /**
   * Being not below is transitive too, so `<` is a strict weak order: the
   * minimum a heap hands out is a minimum of the `(freq, char)` key.
   */
  lemma NotLessTransitive(a: Tree, b: Tree, c: Tree)
    requires a != Nil && b != Nil && c != Nil
    requires !Less(a, b) && !Less(b, c)
    ensures !Less(a, c)
  {
  }

  /**
   * The first position where two strings differ decides `<` between them;
   * with `StrLess`'s own contract (prefixes) this is the whole of Python's order.
   */
  lemma {:induction false} StrLessFirstDifference(x: string, y: string, k: nat)
    requires k < |x| && k < |y| && x[..k] == y[..k] && x[k] != y[k]
    ensures StrLess(x, y) <==> x[k] < y[k]
  {
    if k > 0 {
      assert x[0] == x[..k][0] == y[..k][0] == y[0];
      assert x[1..][..k - 1] == x[..k][1..] == y[..k][1..] == y[1..][..k - 1];
      StrLessFirstDifference(x[1..], y[1..], k - 1);
    }
  }

  /** Every node reference in the tree is a real node (no `None` anywhere). */
  predicate Full(t: Tree)
  {
    match t
    case Nil => false
    case Leaf(_, _) => true
    case Internal(_, l, r) => Full(l) && Full(r)
  }

  /** Each internal node's frequency is the sum of its children's. */
  predicate WeightsAdd(t: Tree)
  {
    match t
    case Nil => true
    case Leaf(_, _) => true
    case Internal(f, l, r) =>
      l != Nil && r != Nil && f == l.freq + r.freq && WeightsAdd(l) && WeightsAdd(r)
  }

  /** The leaf characters from left to right (pre-, in- and post-order agree on leaves). */
  function LeafSeq(t: Tree): seq<char>
  {
    match t
    case Nil => []
    case Leaf(c, _) => [c]
    case Internal(_, l, r) => LeafSeq(l) + LeafSeq(r)
  }

  function Internals(t: Tree): nat
  {
    match t
    case Nil => 0
    case Leaf(_, _) => 0
    case Internal(_, l, r) => 1 + Internals(l) + Internals(r)
  }

  /** The number of nodes in the tree. */
  function Size(t: Tree): nat
  {
    match t
    case Nil => 0
    case Leaf(_, _) => 1
    case Internal(_, l, r) => 1 + Size(l) + Size(r)
  }

  /** Every leaf's character repeated `freq` times: the text the leaf weights account for. */
  function Expand(t: Tree): multiset<char>
  {
    match t
    case Nil => multiset{}
    case Leaf(c, f) => multiset{}[c := f]
    case Internal(_, l, r) => Expand(l) + Expand(r)
  }

  /** A binary tree without `None` has one more leaf than internal nodes. */
  lemma {:induction false} LeafCount(t: Tree)
    requires Full(t)
    ensures |LeafSeq(t)| == Internals(t) + 1
  {
    if t.Internal? {
      LeafCount(t.left);
      LeafCount(t.right);
    }
  }

  /** When the weights add up, a node's frequency is the weight of all text under it. */
  lemma {:induction false} FreqIsExpandedSize(t: Tree)
    requires Full(t) && WeightsAdd(t)
    ensures t.freq == |Expand(t)|
  {
    if t.Internal? {
      FreqIsExpandedSize(t.left);
      FreqIsExpandedSize(t.right);
    }
  }

  /** The same tree with every frequency reset to 0, as `bytes_to_tree` rebuilds it. */
  function Strip(t: Tree): (r: Tree)
  {
    match t
    case Nil => Nil
    case Leaf(c, _) => Leaf(c, 0)
    case Internal(_, l, r) => Internal(0, Strip(l), Strip(r))
  }

  lemma {:induction false} StripKeepsShape(t: Tree)
    ensures Full(Strip(t)) == Full(t)
    ensures LeafSeq(Strip(t)) == LeafSeq(t)
    ensures Internals(Strip(t)) == Internals(t)
  {
    if t.Internal? {
      StripKeepsShape(t.left);
      StripKeepsShape(t.right);
    }
  }

  /**
   * The node reached from `t` by stepping left on 0 and right on 1; a leaf's
   * children are `None`, and nothing is below `None`.
   */
  function Follow(t: Tree, path: seq<Bit>): Tree
  {
    if path == [] then t
    else match t
      case Internal(_, l, r) => Follow(if path[0] then r else l, path[1..])
      case _ => Nil
  }

  lemma {:induction false} FollowAppend(t: Tree, p: seq<Bit>, q: seq<Bit>)
    ensures Follow(t, p + q) == Follow(Follow(t, p), q)
  {
    if p != [] {
      assert (p + q)[0] == p[0] && (p + q)[1..] == p[1..] + q;
      if t.Internal? {
        var child := if p[0] then t.right else t.left;
        FollowAppend(child, p[1..], q);
        assert Follow(t, p) == Follow(child, p[1..]);
        assert Follow(t, p + q) == Follow(child, p[1..] + q);
      } else {
        FollowNil(p[1..] + q);
        FollowNil(q);
      }
    } else {
      assert p + q == q;
    }
  }

  lemma FollowNil(p: seq<Bit>)
    ensures Follow(Nil, p) == Nil
  {
  }

  function Reverse<T>(s: seq<T>): (r: seq<T>)
    ensures |r| == |s| && forall i | 0 <= i < |s| :: r[i] == s[|s| - 1 - i]
  {
    seq(|s|, i requires 0 <= i < |s| => s[|s| - 1 - i])
  }

  lemma ReverseAppend<T>(a: seq<T>, b: seq<T>)
    ensures Reverse(a + b) == Reverse(b) + Reverse(a)
  {
  }
}
