/**
 * `tree_to_bytes` and `bytes_to_tree`: the tree as one bit per node in
 * post-order plus the leaf characters, and the tree rebuilt from them.
 */
module TreeSerial {
  import opened Outcomes
  import opened HuffmanTree
  import opened BitPacking

  /**
   * The post-order bits: 1 for a node that has no child, 0 for a node that has
   * one.  (An internal node whose children are both `None` also gets 1.)
   */
  function PostBits(t: Tree): seq<Bit>
  {
    match t
    case Nil => []
    case Leaf(_, _) => [true]
    case Internal(_, l, r) => PostBits(l) + PostBits(r) + [l == Nil && r == Nil]
  }

  /** A node's children as the Python code reads them: a leaf's are `None`. */
  function Left(t: Tree): Tree
  {
    if t.Internal? then t.left else Nil
  }

  function Right(t: Tree): Tree
  {
    if t.Internal? then t.right else Nil
  }

  /** The state `to_postorder` shares with `tree_to_bytes` through its closure. */
  class PostorderWriter {
    var bytesArray: seq<nat>
    var bitsRequired: nat
    var chars: seq<char>
    /** The bits shifted in so far. */
    ghost var written: seq<Bit>

    ghost predicate Valid()
      reads this
    {
      bytesArray == Accumulate(written) && bitsRequired == |written|
    }

    constructor ()
      ensures Valid() && written == [] && chars == []
    {
      bytesArray, bitsRequired, chars := [], 0, [];
      written := [];
    }

    /**
     * One step of `to_postorder`'s bookkeeping: a new entry when the bits so
     * far fill whole bytes, otherwise `bytes_array[-1] << 1 | bit`.
     */
    method ShiftIn(bit: Bit)
      requires Valid()
      modifies this
      ensures Valid() && written == old(written) + [bit] && chars == old(chars)
    {
      var acc := ShiftBit(bytesArray, written, bitsRequired, bit);
      bytesArray, bitsRequired, written := acc, bitsRequired + 1, written + [bit];
    }

    /**
     * `to_postorder`: visit the left subtree, then the right one, then shift
     * the node's bit in and record its character.
     */
    method ToPostorder(root: Tree)
      requires Valid()
      modifies this
      ensures Valid()
      ensures written == old(written) + PostBits(root)
      ensures chars == old(chars) + LeafSeq(root)
      decreases Size(root)
    {
      if root != Nil {
        ghost var before, charsBefore := written, chars;
        ToPostorder(Left(root));
        ToPostorder(Right(root));
        var bit: Bit := Left(root) == Nil && Right(root) == Nil;
        if root.Leaf? {
          chars := chars + [root.ch];
        }
        ShiftIn(bit);
        NodeStep(root, before, charsBefore);
      }
    }
  }

  /** A node's bit and character come after those of its subtrees. */
  lemma NodeStep(root: Tree, bits: seq<Bit>, chars: seq<char>)
    requires root != Nil
    ensures var bit := Left(root) == Nil && Right(root) == Nil;
      bits + PostBits(Left(root)) + PostBits(Right(root)) + [bit] == bits + PostBits(root)
    ensures chars + LeafSeq(Left(root)) + LeafSeq(Right(root)) + (if root.Leaf? then [root.ch] else [])
      == chars + LeafSeq(root)
  {
    var bit := Left(root) == Nil && Right(root) == Nil;
    Regroup(bits, PostBits(Left(root)), PostBits(Right(root)), [bit]);
    Regroup(chars, LeafSeq(Left(root)), LeafSeq(Right(root)), if root.Leaf? then [root.ch] else []);
  }

  lemma Regroup<T>(a: seq<T>, b: seq<T>, c: seq<T>, d: seq<T>)
    ensures a + b + c + d == a + (b + c + d)
  {
  }

  /**
   * `tree_to_bytes`: the packed post-order bits, their number, and the leaf
   * characters in reverse post-order.
   */
  method TreeToBytes(root: Tree) returns (bytes: seq<Byte>, bitsRequired: nat, chars: seq<char>)
    ensures bytes == Pack(PostBits(root))
    ensures bitsRequired == |PostBits(root)|
    ensures chars == Reverse(LeafSeq(root))
  {
    var writer := new PostorderWriter();
    writer.ToPostorder(root);
    assert writer.written == PostBits(root);
    bitsRequired := writer.bitsRequired;
    bytes := FinishBytes(writer.bytesArray, writer.written, bitsRequired);
    chars := Reverse(writer.chars);
  }

  /** A tree without `None` has N leaves and is written with 2N-1 bits, N of them 1. */
  lemma {:induction false} PostBitsCounts(t: Tree)
    requires Full(t)
    ensures |PostBits(t)| == 2 * |LeafSeq(t)| - 1
    ensures multiset(PostBits(t))[true] == |LeafSeq(t)|
  {
    if t.Internal? {
      PostBitsCounts(t.left);
      PostBitsCounts(t.right);
    }
  }

  /** What `from_postorder` returns: the node, how many bits are left in the list, the next character index. */
  datatype Parsed = Parsed(tree: Tree, rest: nat, next: nat)

  /**
   * `from_postorder` on the list `bits[..n]`: pop the last bit; a 0 builds a
   * node whose right subtree is read first, a 1 a leaf taking the next
   * character.  An empty list gives `None`; running out of characters raises.
   */
  function Parse(bits: seq<Bit>, n: nat, chars: string, ci: nat): (r: Result<Parsed>)
    requires n <= |bits|
    ensures r.Ok? ==> r.value.rest <= n && r.value.next == ci + |LeafSeq(r.value.tree)|
    ensures r.Ok? && n > 0 ==> r.value.rest < n && r.value.tree != Nil
    ensures r.Err? ==> r.error == IndexError
    decreases n
  {
    if n == 0 then Ok(Parsed(Nil, 0, ci))
    else if !bits[n - 1] then
      match Parse(bits, n - 1, chars, ci)
      case Err(e) => Err(e)
      case Ok(right) =>
        match Parse(bits, right.rest, chars, right.next)
        case Err(e) => Err(e)
        case Ok(left) => Ok(Parsed(Internal(0, left.tree, right.tree), left.rest, left.next))
    else if ci < |chars| then Ok(Parsed(Leaf(chars[ci], 0), n - 1, ci + 1))
    else Err(IndexError)
  }

  /** Only the first `n` bits matter to the parse: cutting the list after them changes nothing. */
  lemma {:induction false} ParsePrefix(bits: seq<Bit>, k: nat, n: nat, chars: string, ci: nat)
    requires n <= k <= |bits|
    ensures Parse(bits[..k], n, chars, ci) == Parse(bits, n, chars, ci)
    decreases n
  {
    if n > 0 {
      ParsePrefix(bits, k, n - 1, chars, ci);
      var r := Parse(bits, n - 1, chars, ci);
      if !bits[n - 1] && r.Ok? {
        ParsePrefix(bits, k, r.value.rest, chars, r.value.next);
      }
    }
  }

  /** The state `from_postorder` shares with `bytes_to_tree` through its closure. */
  class PostorderReader {
    var bits: seq<Bit>
    var charIndex: nat
    const chars: string

    constructor (bits: seq<Bit>, chars: string)
      ensures this.bits == bits && this.chars == chars && charIndex == 0
    {
      this.bits, this.chars, charIndex := bits, chars, 0;
    }

    method FromPostorder() returns (r: Result<Tree>)
      modifies this
      ensures var spec := Parse(old(bits), |old(bits)|, chars, old(charIndex));
        match spec
        case Err(e) => r == Err(e)
        case Ok(p) => r == Ok(p.tree) && bits == old(bits)[..p.rest] && charIndex == p.next
      decreases |bits|
    {
      ghost var start, startIndex := bits, charIndex;
      if bits == [] {
        return Ok(Nil);
      }
      var bit := bits[|bits| - 1];
      bits := bits[..|bits| - 1];
      if !bit {
        ParseNode(start, chars, startIndex);
        ParsePrefix(start, |bits|, |bits|, chars, startIndex);
        var right := FromPostorder();
        if right.Err? {
          return Err(right.error);
        }
        ghost var rp := Parse(start, |start| - 1, chars, startIndex).value;
        assert bits == start[..rp.rest] && charIndex == rp.next;
        ParsePrefix(start, rp.rest, rp.rest, chars, rp.next);
        var left := FromPostorder();
        if left.Err? {
          return Err(left.error);
        }
        ghost var lp := Parse(start, rp.rest, chars, rp.next).value;
        assert bits == start[..lp.rest] by {
          assert start[..rp.rest][..lp.rest] == start[..lp.rest];
        }
        return Ok(Internal(0, left.value, right.value));
      } else {
        if charIndex >= |chars| {
          return Err(IndexError);
        }
        var node := Leaf(chars[charIndex], 0);
        charIndex := charIndex + 1;
        return Ok(node);
      }
    }
  }

  /** One step of the parse at a '0' bit: the right subtree, then the left, then the node. */
  lemma ParseNode(bits: seq<Bit>, chars: string, ci: nat)
    requires bits != [] && !bits[|bits| - 1]
    ensures var right := Parse(bits, |bits| - 1, chars, ci);
      Parse(bits, |bits|, chars, ci) ==
        if right.Err? then Err(right.error)
        else
          var left := Parse(bits, right.value.rest, chars, right.value.next);
          if left.Err? then Err(left.error)
          else Ok(Parsed(Internal(0, left.value.tree, right.value.tree), left.value.rest, left.value.next))
  {
  }

  /** The tree `bytes_to_tree` returns for a bit list and an alphabet. */
  function TreeOf(bits: seq<Bit>, chars: string): Result<Tree>
  {
    match Parse(bits, |bits|, chars, 0)
    case Ok(p) => Ok(p.tree)
    case Err(e) => Err(e)
  }

  /** `bytes_to_tree`: unpack the bytes, cut them to `size` bits, parse from the end. */
  method BytesToTree(bytes: seq<Byte>, size: nat, chars: string) returns (r: Result<Tree>)
    ensures r == TreeOf(Prefix(Unpack(bytes), size), chars)
  {
    var bits := Prefix(Unpack(bytes), size);
    var reader := new PostorderReader(bits, chars);
    r := reader.FromPostorder();
  }

  /**
   * Parsing the post-order bits of a tree without `None`, with its leaf
   * characters in reverse post-order, rebuilds the tree with its frequencies
   * reset and consumes exactly its bits and characters.
   */
  lemma {:induction false} ParsePostBits(t: Tree, bits: seq<Bit>, lo: nat, hi: nat, chars: string, ci: nat, cj: nat)
    requires Full(t)
    requires lo <= hi <= |bits| && bits[lo..hi] == PostBits(t)
    requires ci <= cj <= |chars| && chars[ci..cj] == Reverse(LeafSeq(t))
    ensures Parse(bits, hi, chars, ci) == Ok(Parsed(Strip(t), lo, cj))
    decreases t, 1
  {
    if t.Leaf? {
      ParsePostLeaf(t, bits, lo, hi, chars, ci, cj);
    } else {
      ParsePostInternal(t, bits, lo, hi, chars, ci, cj);
    }
  }

  /** An internal node: the right subtree's bits come last but are parsed first. */
  lemma {:induction false} ParsePostInternal(t: Tree, bits: seq<Bit>, lo: nat, hi: nat, chars: string, ci: nat, cj: nat)
    requires t.Internal? && Full(t)
    requires lo <= hi <= |bits| && bits[lo..hi] == PostBits(t)
    requires ci <= cj <= |chars| && chars[ci..cj] == Reverse(LeafSeq(t))
    ensures Parse(bits, hi, chars, ci) == Ok(Parsed(Strip(t), lo, cj))
    decreases t, 0
  {
    var l, r := t.left, t.right;
    var mid, cm := lo + |PostBits(l)|, ci + |LeafSeq(r)|;
    SplitInternal(t, bits, lo, hi, chars, ci, cj);
    ParsePostBits(r, bits, mid, hi - 1, chars, ci, cm);
    ParsePostBits(l, bits, lo, mid, chars, cm, cj);
    ParseInternal(bits, hi, chars, ci, Parsed(Strip(r), mid, cm), Parsed(Strip(l), lo, cj));
  }

  /** Where the two subtrees' bits and characters sit within their parent's. */
  lemma SplitInternal(t: Tree, bits: seq<Bit>, lo: nat, hi: nat, chars: string, ci: nat, cj: nat)
    requires t.Internal? && Full(t)
    requires lo <= hi <= |bits| && bits[lo..hi] == PostBits(t)
    requires ci <= cj <= |chars| && chars[ci..cj] == Reverse(LeafSeq(t))
    ensures var mid, cm := lo + |PostBits(t.left)|, ci + |LeafSeq(t.right)|;
      lo <= mid <= hi - 1 && ci <= cm <= cj && !bits[hi - 1] &&
      bits[lo..mid] == PostBits(t.left) && bits[mid..hi - 1] == PostBits(t.right) &&
      chars[ci..cm] == Reverse(LeafSeq(t.right)) && chars[cm..cj] == Reverse(LeafSeq(t.left))
  {
    SplitBits(t, bits, lo, hi);
    SplitChars(t, chars, ci, cj);
  }

  lemma SplitBits(t: Tree, bits: seq<Bit>, lo: nat, hi: nat)
    requires t.Internal? && Full(t)
    requires lo <= hi <= |bits| && bits[lo..hi] == PostBits(t)
    ensures var mid := lo + |PostBits(t.left)|;
      lo <= mid <= hi - 1 && !bits[hi - 1] &&
      bits[lo..mid] == PostBits(t.left) && bits[mid..hi - 1] == PostBits(t.right)
  {
    var pl, pr := PostBits(t.left), PostBits(t.right);
    assert PostBits(t) == pl + pr + [false];
    SliceParts(bits, lo, hi, pl, pr, [false]);
  }

  lemma SplitChars(t: Tree, chars: string, ci: nat, cj: nat)
    requires t.Internal?
    requires ci <= cj <= |chars| && chars[ci..cj] == Reverse(LeafSeq(t))
    ensures var cm := ci + |LeafSeq(t.right)|;
      ci <= cm <= cj && chars[ci..cm] == Reverse(LeafSeq(t.right)) && chars[cm..cj] == Reverse(LeafSeq(t.left))
  {
    var rl, rr := Reverse(LeafSeq(t.left)), Reverse(LeafSeq(t.right));
    ReverseAppend(LeafSeq(t.left), LeafSeq(t.right));
    assert Reverse(LeafSeq(t)) == rr + rl + [];
    SliceParts(chars, ci, cj, rr, rl, []);
  }

  /** A slice holding `x + y + z` holds `x` and then `y`. */
  lemma SliceParts<T>(s: seq<T>, lo: nat, hi: nat, x: seq<T>, y: seq<T>, z: seq<T>)
    requires hi == lo + |x| + |y| + |z| <= |s| && s[lo..hi] == x + y + z
    ensures s[lo..lo + |x|] == x && s[lo + |x|..hi - |z|] == y
    ensures |z| == 1 ==> hi - 1 == lo + |x| + |y| && s[hi - 1] == z[0]
  {
    var w := s[lo..hi];
    assert s[lo..lo + |x|] == w[..|x|];
    assert w[|x|..|x| + |y|] == y;
    forall i | 0 <= i < |y| ensures s[lo + |x| + i] == y[i] {
      assert s[lo + |x| + i] == w[|x| + i];
    }
  }

  /** A leaf's single 1 bit takes its character. */
  lemma ParsePostLeaf(t: Tree, bits: seq<Bit>, lo: nat, hi: nat, chars: string, ci: nat, cj: nat)
    requires t.Leaf?
    requires lo <= hi <= |bits| && bits[lo..hi] == PostBits(t)
    requires ci <= cj <= |chars| && chars[ci..cj] == Reverse(LeafSeq(t))
    ensures Parse(bits, hi, chars, ci) == Ok(Parsed(Strip(t), lo, cj))
  {
    assert bits[hi - 1] == PostBits(t)[0];
    assert chars[ci] == Reverse(LeafSeq(t))[0];
    ParseLeaf(bits, hi, chars, ci);
  }

  /** A 1 bit takes the next character. */
  lemma ParseLeaf(bits: seq<Bit>, n: nat, chars: string, ci: nat)
    requires 0 < n <= |bits| && bits[n - 1] && ci < |chars|
    ensures Parse(bits, n, chars, ci) == Ok(Parsed(Leaf(chars[ci], 0), n - 1, ci + 1))
  {
  }

  /** A 0 bit parses the right subtree, then the left one, from what is left. */
  lemma ParseInternal(bits: seq<Bit>, n: nat, chars: string, ci: nat, right: Parsed, left: Parsed)
    requires 0 < n <= |bits| && !bits[n - 1]
    requires Parse(bits, n - 1, chars, ci) == Ok(right) && right.rest <= n - 1
    requires Parse(bits, right.rest, chars, right.next) == Ok(left)
    ensures Parse(bits, n, chars, ci) == Ok(Parsed(Internal(0, left.tree, right.tree), left.rest, left.next))
  {
  }

  /** `bytes_to_tree(*tree_to_bytes(t))` rebuilds `t` up to its frequencies. */
  lemma TreeRoundTrip(t: Tree)
    requires Full(t)
    ensures TreeOf(Prefix(Unpack(Pack(PostBits(t))), |PostBits(t)|), Reverse(LeafSeq(t))) == Ok(Strip(t))
  {
    var bits := PostBits(t);
    PackRoundTrip(bits);
    assert bits[0..|bits|] == bits;
    var chars := Reverse(LeafSeq(t));
    assert chars[0..|chars|] == chars;
    ParsePostBits(t, bits, 0, |bits|, chars, 0, |chars|);
  }

  /** With no bits at all the result is `None`. */
  lemma NoBitsNoTree(bytes: seq<Byte>, chars: string)
    ensures TreeOf(Prefix(Unpack(bytes), 0), chars) == Ok(Nil)
  {
  }
}
