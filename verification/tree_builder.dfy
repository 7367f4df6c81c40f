/**
 * `generate_tree`: the Huffman loop over a `heapq` min-heap of nodes.
 *
 * The heap is a sequence; `heappush` appends and `heappop` takes out some
 * node that no other node is below under `Node`'s ordering.  Which of two
 * equal-keyed internal nodes comes out first depends on heap positions,
 * so the model leaves that choice open and proves what holds for any of them.
 */
module TreeBuilder {
  import opened Outcomes
  import opened HuffmanTree
  import opened Frequencies

  /** Every entry is a real node whose weights add up. */
  predicate AllBuilt(heap: seq<Tree>)
  {
    forall i | 0 <= i < |heap| :: heap[i] != Nil && Full(heap[i]) && WeightsAdd(heap[i])
  }

  predicate NoNil(heap: seq<Tree>)
  {
    forall i | 0 <= i < |heap| :: heap[i] != Nil
  }

  /** `heap[k]` is a minimum: nothing in the heap is below it. */
  predicate IsMinAt(heap: seq<Tree>, k: int)
    requires NoNil(heap)
  {
    0 <= k < |heap| && forall j | 0 <= j < |heap| :: !Less(heap[j], heap[k])
  }

  /** A minimum exists in every non-empty heap; this one is the first of them. */
  function ArgMin(heap: seq<Tree>): (k: nat)
    requires |heap| > 0 && NoNil(heap)
    ensures IsMinAt(heap, k)
  {
    if |heap| == 1 then LessIrreflexive(heap[0]); 0
    else
      var k := ArgMin(heap[..|heap| - 1]);
      ArgMinStep(heap, k);
      if Less(heap[|heap| - 1], heap[k]) then |heap| - 1 else k
  }

  lemma ArgMinStep(heap: seq<Tree>, k: nat)
    requires |heap| > 1 && NoNil(heap)
    requires IsMinAt(heap[..|heap| - 1], k)
    ensures IsMinAt(heap, if Less(heap[|heap| - 1], heap[k]) then |heap| - 1 else k)
  {
    var last := |heap| - 1;
    assert forall j | 0 <= j < last :: heap[..last][j] == heap[j];
    if Less(heap[last], heap[k]) {
      forall j | 0 <= j < |heap|
        ensures !Less(heap[j], heap[last])
      {
        if j == last {
          LessIrreflexive(heap[j]);
        } else if Less(heap[j], heap[last]) {
          LessTransitive(heap[j], heap[last], heap[k]);
        }
      }
    }
  }

  /**
   * `heappop`: `IndexError` on an empty heap, otherwise some minimum comes
   * out and every other entry stays.
   */
  method HeapPop(heap: seq<Tree>) returns (r: Result<(Tree, seq<Tree>)>)
    requires NoNil(heap)
    ensures r.Err? <==> heap == []
    ensures r.Err? ==> r.error == IndexError
    ensures r.Ok? ==> exists k | 0 <= k < |heap| :: r.value == (heap[k], heap[..k] + heap[k + 1..]) && IsMinAt(heap, k)
  {
    if heap == [] {
      return Err(IndexError);
    }
    ghost var least := ArgMin(heap);
    var k :| 0 <= k < |heap| && IsMinAt(heap, k);
    return Ok((heap[k], heap[..k] + heap[k + 1..]));
  }

  /** The leaf characters of all the trees in the heap. */
  function HeapLeaves(heap: seq<Tree>): multiset<char>
  {
    if heap == [] then multiset{} else multiset(LeafSeq(heap[0])) + HeapLeaves(heap[1..])
  }

  /** The text all the leaf weights in the heap account for. */
  function HeapExpand(heap: seq<Tree>): multiset<char>
  {
    if heap == [] then multiset{} else Expand(heap[0]) + HeapExpand(heap[1..])
  }

  function HeapInternals(heap: seq<Tree>): nat
  {
    if heap == [] then 0 else Internals(heap[0]) + HeapInternals(heap[1..])
  }

  lemma {:induction false} HeapSumsAppend(a: seq<Tree>, b: seq<Tree>)
    ensures HeapLeaves(a + b) == HeapLeaves(a) + HeapLeaves(b)
    ensures HeapExpand(a + b) == HeapExpand(a) + HeapExpand(b)
    ensures HeapInternals(a + b) == HeapInternals(a) + HeapInternals(b)
  {
    if a == [] {
      assert a + b == b;
    } else {
      assert (a + b)[0] == a[0] && (a + b)[1..] == a[1..] + b;
      HeapSumsAppend(a[1..], b);
    }
  }

  lemma HeapSumsSingle(x: Tree)
    ensures HeapLeaves([x]) == multiset(LeafSeq(x))
    ensures HeapExpand([x]) == Expand(x)
    ensures HeapInternals([x]) == Internals(x)
  {
    assert [x][1..] == [];
  }

  /** Taking `x` out of the heap takes exactly its share out of each sum. */
  lemma HeapSumsRemove(a: seq<Tree>, x: Tree, b: seq<Tree>)
    ensures HeapLeaves(a + [x] + b) == HeapLeaves(a + b) + multiset(LeafSeq(x))
    ensures HeapExpand(a + [x] + b) == HeapExpand(a + b) + Expand(x)
    ensures HeapInternals(a + [x] + b) == HeapInternals(a + b) + Internals(x)
  {
    HeapSumsAppend(a + [x], b);
    HeapSumsAppend(a, [x]);
    HeapSumsAppend(a, b);
    HeapSumsSingle(x);
    MultisetSwap(HeapLeaves(a), multiset(LeafSeq(x)), HeapLeaves(b));
    MultisetSwap(HeapExpand(a), Expand(x), HeapExpand(b));
  }

  lemma MultisetSwap<T>(p: multiset<T>, q: multiset<T>, r: multiset<T>)
    ensures p + q + r == p + r + q
  {
  }

  /**
   * What `generate_tree` promises about its result for a `Counter` of N
   * distinct characters: no `None` inside, every internal node weighs what
   * its children weigh together, one leaf per counted character and no
   * other, leaf weights that account for exactly the counts, and N - 1
   * internal nodes.
   */
  ghost predicate BuiltFrom(t: Tree, frequencies: map<char, nat>)
  {
    && Full(t)
    && WeightsAdd(t)
    && multiset(LeafSeq(t)) == multiset(frequencies.Keys)
    && (forall c :: Expand(t)[c] == if c in frequencies then frequencies[c] else 0)
    && Internals(t) + 1 == |frequencies|
  }

  /**
   * `[Node(char, freq) for char, freq in frequencies.items()]`: one leaf per
   * counted character, in the dictionary's order, which the model leaves open.
   */
  method InitialHeap(frequencies: map<char, nat>) returns (heap: seq<Tree>)
    ensures AllBuilt(heap)
    ensures HeapLeaves(heap) == multiset(frequencies.Keys)
    ensures forall c :: HeapExpand(heap)[c] == if c in frequencies then frequencies[c] else 0
    ensures HeapInternals(heap) == 0 && |heap| == |frequencies|
  {
    heap := [];
    var pending := frequencies.Keys;
    while pending != {}
      invariant pending <= frequencies.Keys
      invariant LeavesSoFar(heap, frequencies, pending)
      decreases pending
    {
      var c :| c in pending;
      AddLeafStep(heap, frequencies, pending, c);
      heap := heap + [Leaf(c, frequencies[c])];
      pending := pending - {c};
    }
    assert frequencies.Keys - pending == frequencies.Keys;
  }

  /** The heap holds one leaf for each counted character no longer pending. */
  ghost predicate LeavesSoFar(heap: seq<Tree>, frequencies: map<char, nat>, pending: set<char>)
  {
    && AllBuilt(heap)
    && HeapLeaves(heap) == multiset(frequencies.Keys - pending)
    && (forall c :: HeapExpand(heap)[c] == if c in frequencies && c !in pending then frequencies[c] else 0)
    && HeapInternals(heap) == 0
    && |heap| == |frequencies.Keys - pending|
  }

  lemma AddLeafStep(heap: seq<Tree>, frequencies: map<char, nat>, pending: set<char>, c: char)
    requires pending <= frequencies.Keys && c in pending
    requires LeavesSoFar(heap, frequencies, pending)
    ensures LeavesSoFar(heap + [Leaf(c, frequencies[c])], frequencies, pending - {c})
  {
    var leaf := Leaf(c, frequencies[c]);
    var done := frequencies.Keys - pending;
    HeapSumsAppend(heap, [leaf]);
    HeapSumsSingle(leaf);
    AppendBuilt(heap, leaf);
    assert frequencies.Keys - (pending - {c}) == done + {c};
    assert multiset(LeafSeq(leaf)) == multiset{c};
    AddKey(done, c);
    AddWeight(HeapExpand(heap), frequencies, pending, c);
  }

  /** One more key: one more element, and the multiset gains it once. */
  lemma AddKey(done: set<char>, c: char)
    requires c !in done
    ensures multiset(done + {c}) == multiset(done) + multiset{c} && |done + {c}| == |done| + 1
  {
  }

  /** Adding the leaf's weight moves `c` from pending to counted in the expanded text. */
  lemma AddWeight(weights: multiset<char>, frequencies: map<char, nat>, pending: set<char>, c: char)
    requires c in pending && c in frequencies
    requires forall d :: weights[d] == if d in frequencies && d !in pending then frequencies[d] else 0
    ensures forall d ::
      (weights + multiset{}[c := frequencies[c]])[d] == if d in frequencies && d !in pending - {c} then frequencies[d] else 0
  {
  }

  method GenerateTree(frequencies: map<char, nat>) returns (r: Result<Tree>)
    ensures r.Err? <==> frequencies == map[]
    ensures r.Err? ==> r.error == IndexError
    ensures r.Ok? ==> BuiltFrom(r.value, frequencies)
  {
    var heap := InitialHeap(frequencies);
    // heapify(heap) orders the entries; HeapPop stands for the ordered pops
    while |heap| > 1
      invariant Merging(heap, frequencies)
      decreases |heap|
    {
      heap := MergeTwo(heap, frequencies);
    }
    MergingDone(heap, frequencies);
    var root := HeapPop(heap);
    if root.Err? {
      return Err(root.error);
    }
    return Ok(root.value.0);
  }

  /**
   * One round of the loop: pop the two lightest nodes and push their parent.
   * The heap shrinks by one and the invariant holds again.
   */
  method MergeTwo(heap: seq<Tree>, ghost frequencies: map<char, nat>) returns (next: seq<Tree>)
    requires Merging(heap, frequencies) && |heap| > 1
    ensures Merging(next, frequencies) && |next| == |heap| - 1
    ensures GreedyMerge(heap, next)
  {
    BuiltNoNil(heap);
    var popped := HeapPop(heap);
    ghost var i :| 0 <= i < |heap| && popped.value == (heap[i], heap[..i] + heap[i + 1..]) && IsMinAt(heap, i);
    PopKeepsSums(heap, i);
    var first, mid := popped.value.0, popped.value.1;
    BuiltNoNil(mid);
    popped := HeapPop(mid);
    ghost var j :| 0 <= j < |mid| && popped.value == (mid[j], mid[..j] + mid[j + 1..]) && IsMinAt(mid, j);
    var second := popped.value.0;
    PopTwice(heap, i, j, frequencies);
    next := popped.value.1 + [Merge(first, second)];
    GreedyWitness(heap, i, j, next);
  }

  /**
   * The greedy step of `generate_tree`: a minimum `heap[i]` comes out, then a
   * minimum of what is left, and their parent is pushed, the first popped on
   * its left.
   */
  predicate GreedyMerge(heap: seq<Tree>, next: seq<Tree>)
    requires NoNil(heap)
  {
    exists i, j | 0 <= i < |heap| && 0 <= j < |heap| - 1 ::
      var mid := Without(heap, i);
      IsMinAt(heap, i) && IsMinAt(mid, j) && next == Without(mid, j) + [Merge(heap[i], mid[j])]
  }

  lemma GreedyWitness(heap: seq<Tree>, i: nat, j: nat, next: seq<Tree>)
    requires NoNil(heap) && i < |heap| && j < |heap| - 1
    requires IsMinAt(heap, i) && IsMinAt(heap[..i] + heap[i + 1..], j)
    requires var mid := heap[..i] + heap[i + 1..];
             next == mid[..j] + mid[j + 1..] + [Merge(heap[i], mid[j])]
    ensures GreedyMerge(heap, next)
  {
    var mid := Without(heap, i);
    assert IsMinAt(mid, j) && next == Without(mid, j) + [Merge(heap[i], mid[j])];
  }

  /** The heap after `heap[k]` is popped. */
  function Without(heap: seq<Tree>, k: nat): (rest: seq<Tree>)
    requires k < |heap|
    ensures |rest| == |heap| - 1
    ensures forall m | 0 <= m < |rest| :: rest[m] == if m < k then heap[m] else heap[m + 1]
  {
    heap[..k] + heap[k + 1..]
  }

  /**
   * A greedy round joins the two lightest nodes: the new parent's left child
   * weighs no more than its right one, and the right one no more than any
   * node left in the heap.
   */
  lemma GreedyMergeLightest(heap: seq<Tree>, next: seq<Tree>)
    requires NoNil(heap) && GreedyMerge(heap, next)
    ensures |next| == |heap| - 1 && next[|next| - 1].Internal?
    ensures var parent := next[|next| - 1];
            && parent.freq == parent.left.freq + parent.right.freq
            && parent.left.freq <= parent.right.freq
            && forall k | 0 <= k < |next| - 1 :: parent.right.freq <= next[k].freq
  {
    var i, j :| 0 <= i < |heap| && 0 <= j < |heap| - 1 && IsMinAt(heap, i) && IsMinAt(Without(heap, i), j)
      && next == Without(Without(heap, i), j) + [Merge(heap[i], Without(heap, i)[j])];
    MergedLightest(heap, i, j, next);
  }

  lemma MergedLightest(heap: seq<Tree>, i: nat, j: nat, next: seq<Tree>)
    requires NoNil(heap) && i < |heap| && j < |heap| - 1
    requires IsMinAt(heap, i) && IsMinAt(Without(heap, i), j)
    requires next == Without(Without(heap, i), j) + [Merge(heap[i], Without(heap, i)[j])]
    ensures |next| == |heap| - 1 && next[|next| - 1].Internal?
    ensures var parent := next[|next| - 1];
            && parent.freq == parent.left.freq + parent.right.freq
            && parent.left.freq <= parent.right.freq
            && forall k | 0 <= k < |next| - 1 :: parent.right.freq <= next[k].freq
  {
    var mid := Without(heap, i);
    var rest := Without(mid, j);
    assert !Less(mid[j], heap[i]);
    forall k | 0 <= k < |next| - 1
      ensures mid[j].freq <= next[k].freq
    {
      assert next[k] == rest[k];
      assert !Less(rest[k], mid[j]) by {
        assert rest[k] == mid[if k < j then k else k + 1];
      }
    }
  }

  lemma BuiltNoNil(heap: seq<Tree>)
    requires AllBuilt(heap)
    ensures NoNil(heap)
  {
  }

  /** When at most one entry is left, it is the finished tree, or there were no counts. */
  lemma MergingDone(heap: seq<Tree>, frequencies: map<char, nat>)
    requires Merging(heap, frequencies) && |heap| <= 1
    ensures heap == [] <==> frequencies == map[]
    ensures |heap| == 1 ==> BuiltFrom(heap[0], frequencies)
  {
    if |heap| == 1 {
      HeapSumsSingle(heap[0]);
      assert heap == [heap[0]];
    } else {
      assert |frequencies| == 0;
    }
  }

  /**
   * The loop invariant of `generate_tree`: the heap's trees are built, their
   * leaves are the counted characters, each once, with their counts, and
   * every merge so far traded two entries for one internal node.
   */
  ghost predicate Merging(heap: seq<Tree>, frequencies: map<char, nat>)
  {
    && AllBuilt(heap)
    && HeapLeaves(heap) == multiset(frequencies.Keys)
    && (forall c :: HeapExpand(heap)[c] == if c in frequencies then frequencies[c] else 0)
    && HeapInternals(heap) + |heap| == |frequencies|
  }

  /** Popping entries `i` and then `j` and pushing their parent keeps the invariant. */
  lemma PopTwice(heap: seq<Tree>, i: nat, j: nat, frequencies: map<char, nat>)
    requires Merging(heap, frequencies) && i < |heap| && j < |heap| - 1
    ensures heap[i] != Nil && (heap[..i] + heap[i + 1..])[j] != Nil
    ensures var mid := heap[..i] + heap[i + 1..];
            Merging(mid[..j] + mid[j + 1..] + [Merge(heap[i], mid[j])], frequencies)
  {
    var mid := heap[..i] + heap[i + 1..];
    PopKeepsSums(heap, i);
    PopKeepsSums(mid, j);
    MergeStep(heap, mid, mid[..j] + mid[j + 1..], heap[i], mid[j], frequencies);
  }

  /** Trading two popped entries for their parent keeps the invariant. */
  lemma MergeStep(heap: seq<Tree>, mid: seq<Tree>, rest: seq<Tree>, first: Tree, second: Tree, frequencies: map<char, nat>)
    requires first != Nil && second != Nil
    requires Merging(heap, frequencies)
    requires AllBuilt(rest) && Full(first) && WeightsAdd(first) && Full(second) && WeightsAdd(second)
    requires HeapLeaves(heap) == HeapLeaves(mid) + multiset(LeafSeq(first))
    requires HeapLeaves(mid) == HeapLeaves(rest) + multiset(LeafSeq(second))
    requires HeapExpand(heap) == HeapExpand(mid) + Expand(first)
    requires HeapExpand(mid) == HeapExpand(rest) + Expand(second)
    requires HeapInternals(heap) == HeapInternals(mid) + Internals(first)
    requires HeapInternals(mid) == HeapInternals(rest) + Internals(second)
    requires |heap| == |mid| + 1 && |mid| == |rest| + 1
    ensures Merging(rest + [Merge(first, second)], frequencies)
  {
    var merged := Merge(first, second);
    var after := rest + [merged];
    MergeSums(rest, first, second);
    MultisetChain(HeapLeaves(heap), HeapLeaves(mid), HeapLeaves(rest), multiset(LeafSeq(first)), multiset(LeafSeq(second)));
    MultisetChain(HeapExpand(heap), HeapExpand(mid), HeapExpand(rest), Expand(first), Expand(second));
    assert HeapLeaves(after) == HeapLeaves(heap);
    assert HeapExpand(after) == HeapExpand(heap);
    AppendBuilt(rest, merged);
  }

  lemma MultisetChain<T>(h: multiset<T>, m: multiset<T>, r: multiset<T>, a: multiset<T>, b: multiset<T>)
    requires h == m + a && m == r + b
    ensures h == r + a + b
  {
  }

  lemma AppendBuilt(heap: seq<Tree>, t: Tree)
    requires AllBuilt(heap) && t != Nil && Full(t) && WeightsAdd(t)
    ensures AllBuilt(heap + [t])
  {
    forall i | 0 <= i < |heap| + 1
      ensures (heap + [t])[i] != Nil && Full((heap + [t])[i]) && WeightsAdd((heap + [t])[i])
    {
      if i < |heap| {
        assert (heap + [t])[i] == heap[i];
      }
    }
  }

  lemma MergeSums(rest: seq<Tree>, first: Tree, second: Tree)
    requires first != Nil && second != Nil
    ensures HeapLeaves(rest + [Merge(first, second)]) == HeapLeaves(rest) + multiset(LeafSeq(first)) + multiset(LeafSeq(second))
    ensures HeapExpand(rest + [Merge(first, second)]) == HeapExpand(rest) + Expand(first) + Expand(second)
    ensures HeapInternals(rest + [Merge(first, second)]) == HeapInternals(rest) + Internals(first) + Internals(second) + 1
  {
    var merged := Merge(first, second);
    HeapSumsAppend(rest, [merged]);
    HeapSumsSingle(merged);
    assert multiset(LeafSeq(merged)) == multiset(LeafSeq(first)) + multiset(LeafSeq(second));
    MultisetAssoc(HeapLeaves(rest), multiset(LeafSeq(first)), multiset(LeafSeq(second)));
    MultisetAssoc(HeapExpand(rest), Expand(first), Expand(second));
  }

  lemma MultisetAssoc<T>(p: multiset<T>, q: multiset<T>, r: multiset<T>)
    ensures p + (q + r) == p + q + r
  {
  }

  /** The parent node `generate_tree` pushes for two popped nodes. */
  function Merge(first: Tree, second: Tree): (parent: Tree)
    requires first != Nil && second != Nil
    ensures Full(parent) == (Full(first) && Full(second))
    ensures WeightsAdd(parent) == (WeightsAdd(first) && WeightsAdd(second))
  {
    Internal(first.freq + second.freq, first, second)
  }

  /** Popping entry `k` keeps the other entries built and takes out exactly its share. */
  lemma PopKeepsSums(heap: seq<Tree>, k: nat)
    requires k < |heap| && AllBuilt(heap)
    ensures AllBuilt(heap[..k] + heap[k + 1..]) && Full(heap[k]) && WeightsAdd(heap[k])
    ensures HeapLeaves(heap) == HeapLeaves(heap[..k] + heap[k + 1..]) + multiset(LeafSeq(heap[k]))
    ensures HeapExpand(heap) == HeapExpand(heap[..k] + heap[k + 1..]) + Expand(heap[k])
    ensures HeapInternals(heap) == HeapInternals(heap[..k] + heap[k + 1..]) + Internals(heap[k])
  {
    assert heap == heap[..k] + [heap[k]] + heap[k + 1..];
    HeapSumsRemove(heap[..k], heap[k], heap[k + 1..]);
    RemoveBuilt(heap, k);
  }

  lemma RemoveBuilt(heap: seq<Tree>, k: nat)
    requires k < |heap| && AllBuilt(heap)
    ensures AllBuilt(heap[..k] + heap[k + 1..])
  {
    var rest := heap[..k] + heap[k + 1..];
    forall i | 0 <= i < |rest|
      ensures rest[i] != Nil && Full(rest[i]) && WeightsAdd(rest[i])
    {
      assert rest[i] == if i < k then heap[i] else heap[i + 1];
    }
  }

  /** The root weighs as much as the whole text the counts came from. */
  lemma RootFreqIsTextLength(s: string, t: Tree)
    requires BuiltFrom(t, CountFrequencies(s))
    ensures t.freq == |s|
  {
    FreqIsExpandedSize(t);
    assert Expand(t) == multiset(s);
  }

  /** Each counted character labels exactly one leaf, so there are N leaves. */
  lemma BuiltLeaves(t: Tree, frequencies: map<char, nat>)
    requires BuiltFrom(t, frequencies)
    ensures |LeafSeq(t)| == |frequencies|
    ensures forall c :: c in LeafSeq(t) <==> c in frequencies
    ensures forall i, j | 0 <= i < j < |LeafSeq(t)| :: LeafSeq(t)[i] != LeafSeq(t)[j]
  {
    SeqOfSet(LeafSeq(t), frequencies.Keys);
  }

  /** A sequence with the same multiset as a set lists that set, each element once. */
  lemma SeqOfSet<T>(s: seq<T>, k: set<T>)
    requires multiset(s) == multiset(k)
    ensures |s| == |k|
    ensures forall c :: c in s <==> c in k
    ensures forall i, j | 0 <= i < j < |s| :: s[i] != s[j]
  {
    assert |multiset(k)| == |k|;
    assert forall c :: c in s <==> c in multiset(s);
    forall i, j | 0 <= i < j < |s|
      ensures s[i] != s[j]
    {
      if s[i] == s[j] {
        MultisetTwice(s, i, j);
      }
    }
  }

  lemma MultisetTwice<T>(s: seq<T>, i: nat, j: nat)
    requires i < j < |s| && s[i] == s[j]
    ensures multiset(s)[s[i]] >= 2
  {
    assert s == s[..i] + [s[i]] + s[i + 1..j] + [s[j]] + s[j + 1..];
  }
}
