/**
 * `compress` and `decompress`: the text as the concatenation of its
 * characters' codes, packed into bytes, and the walk down the tree that
 * turns the bits back into characters.
 */
module Payload {
  import opened Outcomes
  import opened HuffmanTree
  import opened BitPacking
  import opened PrefixCodes

  /**
   * The code bits of `s[..n]`, one code after another; a character that has
   * no code raises `KeyError`.
   */
  function EncodeTo(s: string, codes: map<char, seq<Bit>>, n: nat): (r: Result<seq<Bit>>)
    requires n <= |s|
    ensures r.Err? <==> exists i | 0 <= i < n :: s[i] !in codes
    ensures r.Err? ==> r.error == KeyError
  {
    if n == 0 then Ok([])
    else
      match EncodeTo(s, codes, n - 1)
      case Err(e) => Err(e)
      case Ok(bits) => if s[n - 1] in codes then Ok(bits + codes[s[n - 1]]) else Err(KeyError)
  }

  function Encode(s: string, codes: map<char, seq<Bit>>): Result<seq<Bit>>
  {
    EncodeTo(s, codes, |s|)
  }

  /**
   * `compress`: shift every bit of every character's code into the byte
   * list, then pad the last byte; the result is the packed code bits and
   * their number.
   */
  method Compress(s: string, codes: map<char, seq<Bit>>) returns (r: Result<(seq<Byte>, nat)>)
    ensures Encode(s, codes).Err? ==> r == Err(KeyError)
    ensures Encode(s, codes).Ok? ==> r == Ok((Pack(Encode(s, codes).value), |Encode(s, codes).value|))
  {
    var bytesArray: seq<nat> := [];
    var bitsRequired: nat := 0;
    ghost var written: seq<Bit> := [];
    for i := 0 to |s|
      invariant EncodeTo(s, codes, i) == Ok(written)
      invariant bytesArray == Accumulate(written) && bitsRequired == |written|
    {
      if s[i] !in codes {
        return Err(KeyError);
      }
      var code := codes[s[i]];
      ghost var start := written;
      for j := 0 to |code|
        invariant written == start + code[..j]
        invariant bytesArray == Accumulate(written) && bitsRequired == |written|
      {
        bytesArray := ShiftBit(bytesArray, written, bitsRequired, code[j]);
        bitsRequired := bitsRequired + 1;
        written := written + [code[j]];
        TakeOneMore(start, code, j);
      }
      assert code[..|code|] == code;
    }
    var bytes := FinishBytes(bytesArray, written, bitsRequired);
    return Ok((bytes, bitsRequired));
  }

  lemma TakeOneMore<T>(start: seq<T>, s: seq<T>, j: nat)
    requires j < |s|
    ensures start + s[..j] + [s[j]] == start + s[..j + 1]
  {
    assert s[..j + 1] == s[..j] + [s[j]];
  }

  /** `s` in front of a decoded text; an error stays an error. */
  function Prepend(s: string, r: Result<string>): Result<string>
  {
    match r
    case Ok(rest) => Ok(s + rest)
    case Err(e) => Err(e)
  }

  /**
   * What `decompress` produces from position `i` of the bits when it stands
   * at `node`: a leaf emits its character and restarts at the root, an
   * internal node steps left on 0 and right on 1, and running out of bits at
   * an internal node ends the text.  Reaching `None` raises `AttributeError`
   * (`None.char`).  A leaf root would emit its character forever, which is
   * why it is excluded.
   */
  function Walk(root: Tree, node: Tree, bits: seq<Bit>, i: nat): (r: Result<string>)
    requires !root.Leaf? && i <= |bits|
    ensures r.Err? ==> r.error == AttributeError
    decreases |bits| - i, if node.Leaf? then 1 else 0
  {
    match node
    case Nil => Err(AttributeError)
    case Leaf(c, _) => Prepend([c], Walk(root, root, bits, i))
    case Internal(_, l, r) =>
      if i < |bits| then Walk(root, if bits[i] then r else l, bits, i + 1) else Ok([])
  }

  lemma PrependTwice(s: string, c: char, r: Result<string>)
    ensures Prepend(s + [c], r) == Prepend(s, Prepend([c], r))
  {
    if r.Ok? {
      assert s + [c] + r.value == s + ([c] + r.value);
    }
  }

  /**
   * `decompress`: unpack the bytes, cut them to `size` bits and walk the tree
   * with a one-element stack, as the loop does.
   */
  method Decompress(bytes: seq<Byte>, size: nat, tree: Tree) returns (r: Result<string>)
    requires !tree.Leaf?
    ensures r == Walk(tree, tree, Prefix(Unpack(bytes), size), 0)
  {
    var str: string := [];
    var bits := Prefix(Unpack(bytes), size);
    var i := 0;
    var stack := [tree];
    assert Prepend(str, Walk(tree, tree, bits, 0)) == Walk(tree, tree, bits, 0) by {
      if Walk(tree, tree, bits, 0).Ok? {
        assert [] + Walk(tree, tree, bits, 0).value == Walk(tree, tree, bits, 0).value;
      }
    }
    while stack != []
      invariant i <= |bits| && |stack| <= 1
      invariant stack == [] ==> Ok(str) == Walk(tree, tree, bits, 0)
      invariant stack != [] ==> Prepend(str, Walk(tree, stack[0], bits, i)) == Walk(tree, tree, bits, 0)
      decreases 2 * (|bits| - i) + (if stack == [] then 0 else if stack[0].Leaf? then 2 else 1)
    {
      var node := stack[|stack| - 1];
      stack := stack[..|stack| - 1];
      if node == Nil {
        return Err(AttributeError);
      }
      if node.Leaf? {
        PrependTwice(str, node.ch, Walk(tree, tree, bits, i));
        str := str + [node.ch];
        stack := [tree];
      } else if i < |bits| {
        if !bits[i] {
          stack := stack + [node.left];
        } else {
          stack := stack + [node.right];
        }
        i := i + 1;
      } else {
        assert str + [] == str;
      }
    }
    return Ok(str);
  }

  /**
   * Walking a path that ends at a leaf emits that leaf's character and
   * continues at the root right after the path.
   */
  lemma {:induction false} WalkPath(root: Tree, node: Tree, bits: seq<Bit>, i: nat, p: seq<Bit>)
    requires !root.Leaf? && i + |p| <= |bits| && bits[i..i + |p|] == p
    requires Follow(node, p).Leaf?
    ensures Walk(root, node, bits, i) == Prepend([Follow(node, p).ch], Walk(root, root, bits, i + |p|))
    decreases p
  {
    if p != [] {
      assert node.Internal?;
      assert bits[i] == bits[i..i + |p|][0];
      var child := if p[0] then node.right else node.left;
      assert bits[i + 1..i + 1 + |p[1..]|] == p[1..] by {
        assert bits[i + 1..i + |p|] == bits[i..i + |p|][1..];
      }
      WalkPath(root, child, bits, i + 1, p[1..]);
    }
  }

  /** The codes of `s[..k]` are the start of the codes of `s[..n]`. */
  lemma {:induction false} EncodePrefix(s: string, codes: map<char, seq<Bit>>, k: nat, n: nat)
    requires k <= n <= |s| && EncodeTo(s, codes, n).Ok?
    ensures EncodeTo(s, codes, k).Ok? && EncodeTo(s, codes, k).value <= EncodeTo(s, codes, n).value
    decreases n - k
  {
    if k < n {
      EncodePrefix(s, codes, k, n - 1);
    }
  }

  /** The `k`-th character's code sits in the encoded bits right after those of the characters before it. */
  lemma CodeAt(s: string, codes: map<char, seq<Bit>>, k: nat)
    requires k < |s| && Encode(s, codes).Ok?
    ensures EncodeTo(s, codes, k).Ok? && EncodeTo(s, codes, k + 1).Ok? && s[k] in codes
    ensures var bits, pos, code := Encode(s, codes).value, |EncodeTo(s, codes, k).value|, codes[s[k]];
      |EncodeTo(s, codes, k + 1).value| == pos + |code| <= |bits| && bits[pos..pos + |code|] == code
  {
    EncodePrefix(s, codes, k + 1, |s|);
    EncodePrefix(s, codes, k, |s|);
    var bits := Encode(s, codes).value;
    var before := EncodeTo(s, codes, k).value;
    var code := codes[s[k]];
    var pos := |before|;
    assert EncodeTo(s, codes, k + 1).value == before + code;
    assert bits[..pos + |code|] == before + code;
    assert bits[pos..pos + |code|] == (before + code)[pos..];
  }

  /**
   * Decoding from the start of the `k`-th character's code yields the rest
   * of the text, when every character has the code of the path to its leaf.
   */
  lemma {:induction false} WalkEncoded(t: Tree, s: string, k: nat)
    requires t.Internal? && k <= |s|
    requires forall i | 0 <= i < |s| :: s[i] in CodesFrom(t, [])
    ensures EncodeTo(s, CodesFrom(t, []), k).Ok? && Encode(s, CodesFrom(t, [])).Ok?
    ensures var bits := Encode(s, CodesFrom(t, [])).value;
      var pos := |EncodeTo(s, CodesFrom(t, []), k).value|;
      pos <= |bits| && Walk(t, t, bits, pos) == Ok(s[k..])
    decreases |s| - k, 1
  {
    EncodePrefix(s, CodesFrom(t, []), k, |s|);
    if k == |s| {
      assert s[k..] == [];
    } else {
      WalkOneCode(t, s, k);
    }
  }

  /** The k-th code decodes the k-th character, and the rest follows by induction. */
  lemma {:induction false} WalkOneCode(t: Tree, s: string, k: nat)
    requires t.Internal? && k < |s|
    requires forall i | 0 <= i < |s| :: s[i] in CodesFrom(t, [])
    ensures EncodeTo(s, CodesFrom(t, []), k).Ok? && Encode(s, CodesFrom(t, [])).Ok?
    ensures var bits := Encode(s, CodesFrom(t, [])).value;
      var pos := |EncodeTo(s, CodesFrom(t, []), k).value|;
      pos <= |bits| && Walk(t, t, bits, pos) == Ok(s[k..])
    decreases |s| - k, 0
  {
    var codes := CodesFrom(t, []);
    EncodePrefix(s, codes, k, |s|);
    var bits := Encode(s, codes).value;
    var pos := |EncodeTo(s, codes, k).value|;
    CodeAt(s, codes, k);
    var code := codes[s[k]];
    CodeIsPath(t, s[k]);
    WalkEncoded(t, s, k + 1);
    WalkStep(t, bits, pos, code, s[k], s[k + 1..]);
    assert [s[k]] + s[k + 1..] == s[k..];
  }

  /** A code leading to the leaf of `c`, followed by bits that decode to `rest`, decodes to `c` and `rest`. */
  lemma WalkStep(t: Tree, bits: seq<Bit>, pos: nat, code: seq<Bit>, c: char, rest: string)
    requires t.Internal? && pos + |code| <= |bits| && bits[pos..pos + |code|] == code
    requires Follow(t, code).Leaf? && Follow(t, code).ch == c
    requires Walk(t, t, bits, pos + |code|) == Ok(rest)
    ensures Walk(t, t, bits, pos) == Ok([c] + rest)
  {
    WalkPath(t, t, bits, pos, code);
  }

  /**
   * `decompress(*compress(s, codes), t)` gives back `s` when `t` has at
   * least two leaves and every character of `s` has a code; bytes after the
   * payload's last one make no difference.
   */
  lemma PayloadRoundTrip(t: Tree, s: string, extra: seq<Byte>)
    requires t.Internal?
    requires forall i | 0 <= i < |s| :: s[i] in CodesFrom(t, [])
    ensures Encode(s, CodesFrom(t, [])).Ok?
    ensures var bits := Encode(s, CodesFrom(t, [])).value;
      Walk(t, t, Prefix(Unpack(Pack(bits) + extra), |bits|), 0) == Ok(s)
  {
    WalkEncoded(t, s, 0);
    var bits := Encode(s, CodesFrom(t, [])).value;
    PackRoundTripExtra(bits, extra);
    assert s[0..] == s;
  }
}
