/**
 * The two branches of the Huffman challenge's `main`, from the decoded file
 * content to the `.huff` bytes and back.
 */
module HuffmanMain {
  import opened Outcomes
  import opened HuffmanTree
  import opened Frequencies
  import opened TreeBuilder
  import opened PrefixCodes
  import opened TreeSerial
  import opened BitPacking
  import opened Payload
  import opened Container

  /** The tree a `.huff` file stores: its alphabet decoded, then `bytes_to_tree`. */
  function StoredTree(file: seq<Byte>): Result<Tree>
  {
    var sections := Split(file);
    match AsciiDecode(sections.alphabet)
    case Err(e) => Err(e)
    case Ok(chars) => TreeOf(Prefix(Unpack(sections.treeBytes), sections.treeBits), chars)
  }

  /**
   * The decompress loop ends unless the stored tree is a lone leaf, whose
   * character it would emit forever.
   */
  predicate Terminates(file: seq<Byte>)
  {
    !(StoredTree(file).Ok? && StoredTree(file).value.Leaf?)
  }

  /** The text the decompress branch recovers from a file. */
  function Restore(file: seq<Byte>): Result<string>
    requires Terminates(file)
  {
    match StoredTree(file)
    case Err(e) => Err(e)
    case Ok(tree) => Walk(tree, tree, Prefix(Unpack(Split(file).payload), Split(file).payloadBits), 0)
  }

  /**
   * The compress branch: count, build the tree, serialise it, code the text
   * and assemble the file.  An empty text fails in `generate_tree`; a length
   * that does not fit in four bytes fails in `to_bytes`.  With at least two
   * distinct characters the file restores the text; with exactly one it
   * cannot be decompressed at all.
   */
  method CompressFile(text: string) returns (r: Result<seq<Byte>>)
    requires IsAscii(text)
    ensures text == [] <==> r == Err(IndexError)
    ensures r.Err? ==> r.error == IndexError || r.error == OverflowError
    ensures r.Ok? && |CountFrequencies(text)| >= 2 ==> Terminates(r.value) && Restore(r.value) == Ok(text)
    ensures r.Ok? && |CountFrequencies(text)| == 1 ==> !Terminates(r.value)
  {
    var frequencies := CountFrequencies(text);
    EmptyText(text);
    var tree := GenerateTree(frequencies);
    if tree.Err? {
      return Err(tree.error);
    }
    r := WriteHuff(text, tree.value);
  }

  /**
   * The rest of the compress branch once the tree is built: serialise the
   * tree, code the text, and assemble header, alphabet, tree and payload.
   */
  method WriteHuff(text: string, root: Tree) returns (r: Result<seq<Byte>>)
    requires IsAscii(text) && BuiltFrom(root, CountFrequencies(text))
    ensures r.Err? ==> r.error == OverflowError
    ensures r.Ok? && |CountFrequencies(text)| >= 2 ==> Terminates(r.value) && Restore(r.value) == Ok(text)
    ensures r.Ok? && |CountFrequencies(text)| == 1 ==> !Terminates(r.value)
  {
    var treeAsBytes, size, chars := TreeToBytes(root);
    var codes := GeneratePrefixCodes(root);
    TextCovered(root, text);
    var payload := Compress(text, codes.value);
    ghost var bits := Encode(text, CodesFrom(root, [])).value;
    assert payload == Ok((Pack(bits), |bits|));
    AlphabetIsAscii(root, text);
    r := Assemble(AsciiEncode(chars), size, treeAsBytes, payload.value.1, payload.value.0);
    if r.Ok? {
      RestoreAssembled(root, text, r.value);
    }
  }

  /** Only the empty text has no counts. */
  lemma EmptyText(text: string)
    ensures text == [] <==> CountFrequencies(text) == map[]
  {
    if text != [] {
      assert text[0] in CountFrequencies(text);
    }
  }

  /** Every character of the text has a leaf, and so a code. */
  lemma TextCovered(root: Tree, text: string)
    requires BuiltFrom(root, CountFrequencies(text))
    ensures forall i | 0 <= i < |text| :: text[i] in LeafSeq(root) && text[i] in CodesFrom(root, [])
  {
    CodeKeys(root, []);
    forall i | 0 <= i < |text|
      ensures text[i] in LeafSeq(root)
    {
      assert text[i] in CountFrequencies(text);
      assert text[i] in multiset(LeafSeq(root));
    }
  }

  /** The leaf characters are characters of the text, so the alphabet is ASCII when the text is. */
  lemma AlphabetIsAscii(root: Tree, text: string)
    requires BuiltFrom(root, CountFrequencies(text)) && IsAscii(text)
    ensures IsAscii(Reverse(LeafSeq(root)))
  {
    var leaves := LeafSeq(root);
    forall i | 0 <= i < |leaves|
      ensures leaves[i] < 128 as char
    {
      assert leaves[i] in multiset(CountFrequencies(text).Keys);
      var j :| 0 <= j < |text| && text[j] == leaves[i];
    }
  }

  /**
   * The end-to-end round trip: the file assembled from a tree built for the
   * text decompresses to the text, when the tree has at least two leaves.
   */
  lemma RestoreAssembled(root: Tree, text: string, file: seq<Byte>)
    requires IsAscii(text) && BuiltFrom(root, CountFrequencies(text))
    requires IsAscii(Reverse(LeafSeq(root)))
    requires var bits := PostBits(root);
      var payload := Encode(text, CodesFrom(root, []));
      && payload.Ok?
      && Assemble(AsciiEncode(Reverse(LeafSeq(root))), |bits|, Pack(bits), |payload.value|, Pack(payload.value)) == Ok(file)
    ensures |CountFrequencies(text)| >= 2 ==> Terminates(file) && Restore(file) == Ok(text)
    ensures |CountFrequencies(text)| == 1 ==> !Terminates(file)
  {
    var payload := Encode(text, CodesFrom(root, [])).value;
    StoredAssembled(root, payload);
    LeafCount(root);
    StripKeepsShape(root);
    if root.Internal? {
      DecodesText(root, text);
    }
  }

  /** The assembled file stores the stripped tree and the payload with its bit count. */
  lemma StoredAssembled(root: Tree, payload: seq<Bit>)
    requires Full(root) && IsAscii(Reverse(LeafSeq(root)))
    requires Assemble(AsciiEncode(Reverse(LeafSeq(root))), |PostBits(root)|, Pack(PostBits(root)), |payload|, Pack(payload)).Ok?
    ensures var bits := PostBits(root);
      var file := Assemble(AsciiEncode(Reverse(LeafSeq(root))), |bits|, Pack(bits), |payload|, Pack(payload)).value;
      Split(file).payload == Pack(payload) && Split(file).payloadBits == |payload| && StoredTree(file) == Ok(Strip(root))
  {
    var bits := PostBits(root);
    var chars := Reverse(LeafSeq(root));
    var alphabet := AsciiEncode(chars);
    SplitAssemble(alphabet, |bits|, Pack(bits), |payload|, Pack(payload));
    AsciiRoundTrip(chars);
    TreeRoundTrip(root);
  }

  /** The payload coded with the tree's codes decodes with the stripped tree. */
  lemma DecodesText(root: Tree, text: string)
    requires root.Internal? && BuiltFrom(root, CountFrequencies(text))
    ensures Encode(text, CodesFrom(root, [])).Ok?
    ensures var payload := Encode(text, CodesFrom(root, [])).value;
      Walk(Strip(root), Strip(root), Prefix(Unpack(Pack(payload)), |payload|), 0) == Ok(text)
  {
    StripKeepsCodes(root, []);
    TextCovered(root, text);
    PayloadRoundTrip(Strip(root), text, []);
    var payload := Encode(text, CodesFrom(root, [])).value;
    assert Pack(payload) + [] == Pack(payload);
  }

  /**
   * The first half of the decompress branch: read the three lengths, decode
   * the alphabet and rebuild the tree from its bytes.
   */
  method ReadTree(file: seq<Byte>) returns (r: Result<Tree>)
    ensures r == StoredTree(file)
  {
    var charsSize := FromBytes(Slice(file, 0, 4));
    var treeSizeInBits := FromBytes(Slice(file, 4, 8));
    ghost var sections := Split(file);
    assert sections.alphabet == Slice(file, 12, 12 + charsSize);
    var chars := AsciiDecode(Slice(file, 12, 12 + charsSize));
    if chars.Err? {
      return Err(chars.error);
    }
    var treeStart := 12 + charsSize;
    var treeAsBytes := Slice(file, treeStart, treeStart + CeilDiv8(treeSizeInBits));
    assert sections.treeBytes == treeAsBytes && sections.treeBits == treeSizeInBits;
    r := BytesToTree(treeAsBytes, treeSizeInBits, chars.value);
  }

  /**
   * The decompress branch: the stored tree, then the payload from where the
   * tree bytes end, decoded with it.
   */
  method DecompressFile(file: seq<Byte>) returns (r: Result<string>)
    requires Terminates(file)
    ensures r == Restore(file)
  {
    var tree := ReadTree(file);
    if tree.Err? {
      return Err(tree.error);
    }
    var charsSize := FromBytes(Slice(file, 0, 4));
    var treeSizeInBits := FromBytes(Slice(file, 4, 8));
    var contentSizeInBits := FromBytes(Slice(file, 8, 12));
    var compressedContent := SliceFrom(file, 12 + charsSize + CeilDiv8(treeSizeInBits));
    ghost var sections := Split(file);
    assert sections.payload == compressedContent && sections.payloadBits == contentSizeInBits;
    assert StoredTree(file) == Ok(tree.value);
    r := Decompress(compressedContent, contentSizeInBits, tree.value);
  }
}
