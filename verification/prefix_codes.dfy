/**
 * `generate_prefix_codes`: a depth-first walk with an explicit stack that
 * labels every node with its path from the root ('0' for a left step, '1'
 * for a right step) and records the path of every node that has a character.
 */
module PrefixCodes {
  import opened Outcomes
  import opened HuffmanTree

  /**
   * The table the walk produces from the subtree `t` whose path is `code`.
   * The stack pops the right child before the left one, so the right subtree
   * is recorded first and the left subtree's entries overwrite it.
   */
  function CodesFrom(t: Tree, code: seq<Bit>): map<char, seq<Bit>>
  {
    match t
    case Nil => map[]
    case Leaf(c, _) => map[c := code]
    case Internal(_, l, r) => CodesFrom(r, code + [true]) + CodesFrom(l, code + [false])
  }

  /** The number of nodes in the subtrees of the bottom `n` stack entries. */
  function SizeTo(stack: seq<(Tree, seq<Bit>)>, n: nat): nat
    requires n <= |stack|
  {
    if n == 0 then 0 else SizeTo(stack, n - 1) + Size(stack[n - 1].0)
  }

  function StackSize(stack: seq<(Tree, seq<Bit>)>): nat
  {
    SizeTo(stack, |stack|)
  }

  /**
   * The table left once the bottom `n` entries of the stack have been walked,
   * top first, starting from the table `acc`.
   */
  function DrainTo(stack: seq<(Tree, seq<Bit>)>, n: nat, acc: map<char, seq<Bit>>): map<char, seq<Bit>>
    requires n <= |stack|
  {
    if n == 0 then acc
    else DrainTo(stack, n - 1, acc + CodesFrom(stack[n - 1].0, stack[n - 1].1))
  }

  function Drain(stack: seq<(Tree, seq<Bit>)>, acc: map<char, seq<Bit>>): map<char, seq<Bit>>
  {
    DrainTo(stack, |stack|, acc)
  }

  /** Entries pushed above the bottom `n` do not change how those are walked. */
  lemma {:induction false} DrainFrame(a: seq<(Tree, seq<Bit>)>, b: seq<(Tree, seq<Bit>)>, n: nat, acc: map<char, seq<Bit>>)
    requires n <= |a|
    ensures DrainTo(a + b, n, acc) == DrainTo(a, n, acc)
    ensures SizeTo(a + b, n) == SizeTo(a, n)
  {
    if n > 0 {
      assert (a + b)[n - 1] == a[n - 1];
      DrainFrame(a, b, n - 1, acc + CodesFrom(a[n - 1].0, a[n - 1].1));
    }
  }

  /**
   * The walk: pop a node, record its path when it has a character, push its
   * children that are not `None`, left first.  A `None` root fails on its
   * `char` attribute.
   */
  method GeneratePrefixCodes(root: Tree) returns (r: Result<map<char, seq<Bit>>>)
    ensures root == Nil ==> r == Err(AttributeError)
    ensures root != Nil ==> r == Ok(CodesFrom(root, []))
    ensures root.Leaf? ==> r == Ok(map[root.ch := []])
  {
    if root == Nil {
      return Err(AttributeError);
    }
    var prefixCodes: map<char, seq<Bit>> := map[];
    var stack: seq<(Tree, seq<Bit>)> := [(root, [])];
    assert Drain(stack, prefixCodes) == DrainTo(stack, 0, map[] + CodesFrom(root, []));
    assert map[] + CodesFrom(root, []) == CodesFrom(root, []);
    while stack != []
      invariant forall i | 0 <= i < |stack| :: stack[i].0 != Nil
      invariant Drain(stack, prefixCodes) == CodesFrom(root, [])
      decreases StackSize(stack)
    {
      var (node, code) := stack[|stack| - 1];
      ghost var popped := stack;
      stack := stack[..|stack| - 1];
      ghost var rest, before := stack, prefixCodes;
      assert popped == rest + [(node, code)];
      if node.Leaf? {
        prefixCodes := prefixCodes[node.ch := code];
      }
      if node.Internal? && node.left != Nil {
        stack := stack + [(node.left, code + [false])];
      }
      if node.Internal? && node.right != Nil {
        stack := stack + [(node.right, code + [true])];
      }
      assert stack == rest + Pushed(node, code);
      DrainStep(rest, before, node, code);
      StackShrinks(rest, node, code);
    }
    return Ok(prefixCodes);
  }

  /** The stack entry for a child, or nothing when the child is `None`. */
  function Entry(child: Tree, code: seq<Bit>): seq<(Tree, seq<Bit>)>
  {
    if child != Nil then [(child, code)] else []
  }

  /** The entries a popped node pushes: its children that are not `None`, left below right. */
  function Pushed(t: Tree, code: seq<Bit>): seq<(Tree, seq<Bit>)>
  {
    if t.Internal? then Entry(t.left, code + [false]) + Entry(t.right, code + [true]) else []
  }

  /** Draining a pushed child first is walking its subtree first. */
  lemma DrainEntry(s: seq<(Tree, seq<Bit>)>, child: Tree, code: seq<Bit>, acc: map<char, seq<Bit>>)
    ensures Drain(s + Entry(child, code), acc) == Drain(s, acc + CodesFrom(child, code))
  {
    if child != Nil {
      DrainFrame(s, [(child, code)], |s|, acc + CodesFrom(child, code));
    } else {
      assert s + Entry(child, code) == s;
      assert acc + CodesFrom(child, code) == acc;
    }
  }

  /** One iteration of the walk keeps the drained table. */
  lemma DrainStep(rest: seq<(Tree, seq<Bit>)>, acc: map<char, seq<Bit>>, t: Tree, code: seq<Bit>)
    requires t != Nil
    ensures var own := if t.Leaf? then acc[t.ch := code] else acc;
      Drain(rest + Pushed(t, code), own) == Drain(rest + [(t, code)], acc)
  {
    DrainFrame(rest, [(t, code)], |rest|, acc + CodesFrom(t, code));
    if t.Leaf? {
      assert rest + Pushed(t, code) == rest;
      assert acc[t.ch := code] == acc + CodesFrom(t, code);
    } else {
      DrainInternal(rest, acc, t, code);
    }
  }

  lemma DrainInternal(rest: seq<(Tree, seq<Bit>)>, acc: map<char, seq<Bit>>, t: Tree, code: seq<Bit>)
    requires t.Internal?
    ensures Drain(rest + Pushed(t, code), acc) == Drain(rest, acc + CodesFrom(t, code))
  {
    var l, r := t.left, t.right;
    var withL := rest + Entry(l, code + [false]);
    assert rest + Pushed(t, code) == withL + Entry(r, code + [true]);
    DrainEntry(withL, r, code + [true], acc);
    var afterR := acc + CodesFrom(r, code + [true]);
    DrainEntry(rest, l, code + [false], afterR);
    UnionAssoc(acc, CodesFrom(r, code + [true]), CodesFrom(l, code + [false]));
  }

  lemma UnionAssoc<K, V>(a: map<K, V>, b: map<K, V>, c: map<K, V>)
    ensures a + b + c == a + (b + c)
  {
  }

  /** One iteration of the walk removes one node from the stack. */
  lemma StackShrinks(rest: seq<(Tree, seq<Bit>)>, t: Tree, code: seq<Bit>)
    requires t != Nil
    ensures StackSize(rest + Pushed(t, code)) < StackSize(rest + [(t, code)])
  {
    StackSizeAppend(rest, [(t, code)]);
    StackSizeAppend(rest, Pushed(t, code));
    EntrySize(t, code);
    if t.Internal? {
      var l, r := Entry(t.left, code + [false]), Entry(t.right, code + [true]);
      StackSizeAppend(l, r);
      EntrySize(t.left, code + [false]);
      EntrySize(t.right, code + [true]);
    }
  }

  lemma EntrySize(t: Tree, code: seq<Bit>)
    ensures StackSize(Entry(t, code)) == Size(t)
    ensures t != Nil ==> StackSize([(t, code)]) == Size(t)
  {
    assert SizeTo([(t, code)], 0) == 0;
  }

  lemma StackSizeAppend(a: seq<(Tree, seq<Bit>)>, b: seq<(Tree, seq<Bit>)>)
    ensures StackSize(a + b) == StackSize(a) + StackSize(b)
  {
    SizeAppend(a, b, |b|);
  }

  lemma {:induction false} SizeAppend(a: seq<(Tree, seq<Bit>)>, b: seq<(Tree, seq<Bit>)>, n: nat)
    requires n <= |b|
    ensures SizeTo(a + b, |a| + n) == StackSize(a) + SizeTo(b, n)
  {
    if n > 0 {
      SizeAppend(a, b, n - 1);
      assert (a + b)[|a| + n - 1] == b[n - 1];
    } else {
      DrainFrame(a, b, |a|, map[]);
    }
  }

  /** Following `path` from `t` ends at a leaf carrying `c`. */
  predicate ReachesLeaf(t: Tree, path: seq<Bit>, c: char)
  {
    Follow(t, path).Leaf? && Follow(t, path).ch == c
  }

  /**
   * Every character in the table reaches, along its code, a leaf carrying that
   * character; the code extends the path of the subtree it was found in.
   */
  lemma {:induction false} CodesReachLeaves(t: Tree, code: seq<Bit>)
    ensures forall c | c in CodesFrom(t, code) ::
      code <= CodesFrom(t, code)[c] && ReachesLeaf(t, CodesFrom(t, code)[c][|code|..], c)
  {
    if t.Internal? {
      CodesReachLeaves(t.left, code + [false]);
      CodesReachLeaves(t.right, code + [true]);
      forall c | c in CodesFrom(t, code)
        ensures code <= CodesFrom(t, code)[c] && ReachesLeaf(t, CodesFrom(t, code)[c][|code|..], c)
      {
        var b: Bit := c !in CodesFrom(t.left, code + [false]);
        StepDown(t, code, b, CodesFrom(t, code)[c], c);
      }
    }
  }

  /** A path found in a child's table, seen from the parent. */
  lemma StepDown(t: Tree, code: seq<Bit>, b: Bit, p: seq<Bit>, c: char)
    requires t.Internal?
    requires code + [b] <= p && ReachesLeaf(if b then t.right else t.left, p[|code| + 1..], c)
    ensures code <= p && ReachesLeaf(t, p[|code|..], c)
  {
    assert p[|code|..] == [b] + p[|code| + 1..];
  }

  /** The table has an entry for exactly the leaf characters. */
  lemma {:induction false} CodeKeys(t: Tree, code: seq<Bit>)
    ensures CodesFrom(t, code).Keys == set c | c in LeafSeq(t)
  {
    if t.Internal? {
      CodeKeys(t.left, code + [false]);
      CodeKeys(t.right, code + [true]);
    }
  }

  /**
   * The table of the whole tree: each character's code is a root-to-leaf path
   * ending at that character's leaf, so its length is the leaf's depth.
   */
  lemma CodeIsPath(root: Tree, c: char)
    requires c in CodesFrom(root, [])
    ensures Follow(root, CodesFrom(root, [])[c]).Leaf?
    ensures Follow(root, CodesFrom(root, [])[c]).ch == c
  {
    CodesReachLeaves(root, []);
    assert CodesFrom(root, [])[c][0..] == CodesFrom(root, [])[c];
    assert ReachesLeaf(root, CodesFrom(root, [])[c], c);
  }

  /** No code is a prefix of another character's code. */
  lemma PrefixFree(root: Tree, c: char, d: char)
    requires c in CodesFrom(root, []) && d in CodesFrom(root, []) && c != d
    ensures !(CodesFrom(root, [])[c] <= CodesFrom(root, [])[d])
  {
    var codes := CodesFrom(root, []);
    CodeIsPath(root, c);
    CodeIsPath(root, d);
    if codes[c] <= codes[d] {
      var q := codes[d][|codes[c]|..];
      assert codes[d] == codes[c] + q;
      FollowAppend(root, codes[c], q);
    }
  }

  /** When the root is internal and has no `None` below it, every code is non-empty. */
  lemma CodesNonEmpty(root: Tree, c: char)
    requires root.Internal? && c in CodesFrom(root, [])
    ensures |CodesFrom(root, [])[c]| > 0
  {
    CodeIsPath(root, c);
  }

  /** Frequencies play no part in the codes, so a rebuilt tree yields the same table. */
  lemma {:induction false} StripKeepsCodes(t: Tree, code: seq<Bit>)
    ensures CodesFrom(Strip(t), code) == CodesFrom(t, code)
  {
    if t.Internal? {
      StripKeepsCodes(t.left, code + [false]);
      StripKeepsCodes(t.right, code + [true]);
    }
  }
}
