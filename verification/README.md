# Huffman codec and word count, modelled in Dafny

This project models two programs from the `coding-challenges` repository.

**The Huffman compressor** (`challenges/challenge-huffman/main.py`):
- `Node` and its `__gt__` ordering;
- `count_frequencies`;
- `generate_tree`, the heap-driven merge loop;
- `generate_prefix_codes`, the explicit-stack walk;
- `tree_to_bytes` and `bytes_to_tree`, the post-order tree serialisation;
- `compress` and `decompress`, bit packing and the decoding walk;
- the `.huff` container that `main` assembles and parses.

**The word counter** (`challenges/challenge-wc/main.py`): the counting loop, the selection of the printed counts, and their right-justified formatting.

## How the code is modelled

Recursive and expression-level code becomes functions and lemmas. Code that works step by step becomes methods with loops:
- the heap loop;
- the stack walk;
- the bit-shifting accumulators;
- the decompress loop;
- the wc loop.

`tree_to_bytes` and `bytes_to_tree` keep their shared mutable state as classes:
- `PostorderWriter` holds `bytes_array`, `bits_required` and `chars`.
- `PostorderReader` holds `bits` and `char_index`.

Each method is proved against a specification function or, for a loop body, the loop invariant: `TreeBuilder.MergeTwo` keeps `Merging` and takes the greedy step `TreeBuilder.GreedyMerge`. The properties that matter are lemmas about those functions:
- the tree round-trip;
- the payload round-trip;
- the container round-trip;
- prefix-freeness of the codes;
- the shape of the Huffman tree;
- the word and width facts of wc.

Python exceptions are values of `Outcomes.PyError`, returned in a `Result`:
- `KeyError`, `IndexError` and `AttributeError`;
- `OverflowError` from `int.to_bytes(4)`;
- `UnicodeDecodeError`.

Modules, one per file:

| file | module |
|---|---|
| `huffman_tree.dfy` | `Outcomes`, `HuffmanTree` |
| `frequencies.dfy` | `Frequencies` |
| `tree_builder.dfy` | `TreeBuilder` |
| `prefix_codes.dfy` | `PrefixCodes` |
| `bit_packing.dfy` | `BitPacking` |
| `tree_serial.dfy` | `TreeSerial` |
| `payload.dfy` | `Payload` |
| `container.dfy` | `Container` |
| `huffman_main.dfy` | `HuffmanMain` |
| `wc.dfy` | `WordCount` |

## Model

| member | source | states |
|---|---|---|
| HuffmanTree.StrLess | challenges/challenge-huffman/main.py:21 | Python's string `<`: a proper prefix comes first, and no string is below one of its prefixes |
| HuffmanTree.StrLessFirstDifference | challenges/challenge-huffman/main.py:21 | the first position where two strings differ decides `<`, by code point |
| HuffmanTree.StrLessTransitive | challenges/challenge-huffman/main.py:21 | Python's string `<`, used for equal frequencies, is transitive |
| HuffmanTree.StrLessTotal | challenges/challenge-huffman/main.py:21 | two strings unordered either way are equal |
| HuffmanTree.LessIrreflexive | challenges/challenge-huffman/main.py:19-22 | under heapq's `<` (the reflected `__gt__`), no node is below itself |
| HuffmanTree.LessTransitive | challenges/challenge-huffman/main.py:19-22 | heapq's `<` on nodes is transitive |
| HuffmanTree.NotLessTransitive | challenges/challenge-huffman/main.py:19-22 | "not below" is transitive too, so `<` is a strict weak order and a heap minimum is well defined |
| HuffmanTree.Gt | challenges/challenge-huffman/main.py:19-22 | different frequencies decide by frequency; at equal frequency the leaf with the larger character is greater, a leaf is greater than an internal node, and an internal node is never greater than a node of equal frequency |
| HuffmanTree.Less | challenges/challenge-huffman/main.py:19-22 | heapq's `<` (the reflected `__gt__`) by kind of node: on leaves exactly when (freq, char) is lexicographically smaller; on internal nodes exactly when the frequency is smaller, so equal-weight internal nodes are unordered; an internal node is below a leaf of equal or greater weight |
| HuffmanTree.LeafCount | challenges/challenge-huffman/main.py:35-44 | a tree without `None` has one more leaf than it has internal nodes |
| HuffmanTree.FreqIsExpandedSize | challenges/challenge-huffman/main.py:35-44 | when weights add up, a node's frequency is the total weight of the leaves under it |
| HuffmanTree.StripKeepsShape | challenges/challenge-huffman/main.py:102-118 | resetting every frequency to 0 keeps fullness, the leaf order and the number of internal nodes |
| Frequencies.CountFrequencies | challenges/challenge-huffman/main.py:32-33 | the keys are exactly the text's characters, and each maps to its positive number of occurrences |
| TreeBuilder.ArgMin | challenges/challenge-huffman/main.py:41 | every non-empty heap has an entry that no entry is below |
| TreeBuilder.HeapPop | challenges/challenge-huffman/main.py:41 | `IndexError` exactly on an empty heap; otherwise a minimal entry comes out and all others stay |
| TreeBuilder.InitialHeap | challenges/challenge-huffman/main.py:37-38 | one leaf per counted character, carrying its count, and no internal node |
| TreeBuilder.MergeTwo | challenges/challenge-huffman/main.py:40-42 | one round of the loop keeps the loop invariant, shrinks the heap by one, and is a greedy step: a minimum is popped, then a minimum of the rest, and their parent is pushed with the first on its left |
| TreeBuilder.GreedyMergeLightest | challenges/challenge-huffman/main.py:40-42 | after a greedy step the new parent weighs its two children together, its left child weighs no more than its right one, and the right one no more than any node still in the heap |
| TreeBuilder.PopTwice | challenges/challenge-huffman/main.py:41-42 | popping any two entries and pushing their parent keeps leaves, weights and the internal-node count |
| TreeBuilder.Merge | challenges/challenge-huffman/main.py:42 | the parent is `None`-free exactly when both children are |
| TreeBuilder.MergingDone | challenges/challenge-huffman/main.py:40-44 | when the loop stops, the heap is empty exactly for an empty counter, and otherwise holds the finished tree |
| TreeBuilder.GenerateTree | challenges/challenge-huffman/main.py:35-44 | `IndexError` exactly for an empty counter; otherwise the tree is `None`-free, its weights add up, its leaves are the counted characters with their counts, and it has N-1 internal nodes |
| TreeBuilder.RootFreqIsTextLength | challenges/challenge-huffman/main.py:32-44 | the root's frequency is the length of the text |
| TreeBuilder.BuiltLeaves | challenges/challenge-huffman/main.py:35-44 | the tree has N leaves, exactly the counted characters, pairwise distinct |
| PrefixCodes.GeneratePrefixCodes | challenges/challenge-huffman/main.py:46-66 | `None` raises `AttributeError`; otherwise the table is the code table of the tree's paths; a lone leaf gets the empty code |
| PrefixCodes.DrainInternal | challenges/challenge-huffman/main.py:51-64 | popping an internal node and pushing its children adds exactly that subtree's codes |
| PrefixCodes.CodeKeys | challenges/challenge-huffman/main.py:46-66 | exactly the leaf characters get a code |
| PrefixCodes.CodeIsPath | challenges/challenge-huffman/main.py:46-66 | following a character's code from the root ends at the leaf of that character |
| PrefixCodes.CodesReachLeaves | challenges/challenge-huffman/main.py:46-66 | every code extends its subtree's path and leads to the character's leaf |
| PrefixCodes.PrefixFree | challenges/challenge-huffman/main.py:46-66 | no character's code is a prefix of another character's code |
| PrefixCodes.CodesNonEmpty | challenges/challenge-huffman/main.py:46-66 | below an internal root every code is non-empty |
| PrefixCodes.StripKeepsCodes | challenges/challenge-huffman/main.py:46-66 | the codes depend only on the tree's shape and characters, not on its frequencies |
| BitPacking.ShiftBit | challenges/challenge-huffman/main.py:88-92 | shifting one bit into the byte list gives the accumulator of the bits with that bit appended |
| BitPacking.FinishBytes | challenges/challenge-huffman/main.py:97-98 | the final left shift of the last partial byte gives the packed bytes of all the bits |
| BitPacking.FinishPack | challenges/challenge-huffman/main.py:97-98 | the packed bytes are the accumulator with its last, partial entry shifted to the top |
| BitPacking.GroupFits | challenges/challenge-huffman/main.py:89-91 | every packed entry is below 256, so `bytes(...)` accepts it |
| BitPacking.Unpack | challenges/challenge-huffman/main.py:104 | every byte contributes exactly eight bits |
| BitPacking.Prefix | challenges/challenge-huffman/main.py:104 | `[:size]` keeps at most `size` bits and is a prefix |
| BitPacking.BitsOfValue | challenges/challenge-huffman/main.py:104 | the zero-padded binary digits of a group's value are the bits of that group |
| BitPacking.UnpackPack | challenges/challenge-huffman/main.py:88-104 | unpacking the packed bytes gives the bits followed by zero padding |
| BitPacking.PackRoundTrip | challenges/challenge-huffman/main.py:88-104 | cutting the unpacked bytes to the bit count gives back exactly the packed bits |
| BitPacking.PackRoundTripExtra | challenges/challenge-huffman/main.py:141 | bytes after the packed ones make no difference once the bits are cut to the count |
| BitPacking.PaddingIsZero | challenges/challenge-huffman/main.py:97-98 | every padding bit is 0 |
| TreeSerial.PostorderWriter.ShiftIn | challenges/challenge-huffman/main.py:87-92 | one bit is appended to the written bits, and the accumulator and counter stay in step with it |
| TreeSerial.PostorderWriter.ToPostorder | challenges/challenge-huffman/main.py:80-92 | the tree's post-order bits are appended, and its leaf characters are appended in post-order |
| TreeSerial.TreeToBytes | challenges/challenge-huffman/main.py:68-100 | the result is the packed post-order bits, their number, and the leaf characters reversed |
| TreeSerial.PostBitsCounts | challenges/challenge-huffman/main.py:80-92 | a tree with N leaves and no `None` takes 2N-1 bits, N of them 1 |
| TreeSerial.Parse | challenges/challenge-huffman/main.py:106-116 | a parse consumes bits only from below its end and one character per leaf; apart from the `RecursionError` left out below, only `IndexError` can occur |
| TreeSerial.ParsePrefix | challenges/challenge-huffman/main.py:106-116 | bits beyond the parsed ones do not affect the parse |
| TreeSerial.PostorderReader.FromPostorder | challenges/challenge-huffman/main.py:106-116 | the recursive reader returns the parse's tree or error, leaving the unparsed bits and the next character index |
| TreeSerial.BytesToTree | challenges/challenge-huffman/main.py:102-118 | the tree is the parse of the first `size` unpacked bits against the alphabet |
| TreeSerial.ParsePostBits | challenges/challenge-huffman/main.py:68-118 | parsing a tree's post-order bits with its reversed leaf characters rebuilds it and consumes exactly its bits and characters |
| TreeSerial.TreeRoundTrip | challenges/challenge-huffman/main.py:68-118 | `bytes_to_tree(*tree_to_bytes(t))` rebuilds `t` up to its frequencies |
| TreeSerial.NoBitsNoTree | challenges/challenge-huffman/main.py:106-118 | with a size of 0 the result is `None` |
| Payload.EncodeTo | challenges/challenge-huffman/main.py:125-126 | `KeyError` exactly when some character has no code |
| Payload.Compress | challenges/challenge-huffman/main.py:120-136 | `KeyError` exactly when the concatenated codes are undefined; otherwise their packed bytes and bit count |
| Payload.Walk | challenges/challenge-huffman/main.py:145-155 | the only error the walk can raise is `AttributeError` on a `None` child |
| Payload.Decompress | challenges/challenge-huffman/main.py:138-157 | the stack loop produces exactly the walk over the first `size` unpacked bits |
| Payload.WalkPath | challenges/challenge-huffman/main.py:145-155 | reading a path to a leaf emits that leaf's character and restarts at the root after the path |
| Payload.EncodePrefix | challenges/challenge-huffman/main.py:125-126 | the encoding of a prefix of the text is a prefix of the encoding |
| Payload.CodeAt | challenges/challenge-huffman/main.py:125-126 | the k-th character's code sits in the encoding right after the codes of the characters before it |
| Payload.WalkEncoded | challenges/challenge-huffman/main.py:120-157 | walking the encoding from the k-th code's position decodes the rest of the text |
| Payload.PayloadRoundTrip | challenges/challenge-huffman/main.py:120-157 | decompressing the compressed text gives it back, whatever bytes follow |
| Container.ToBytes4 | challenges/challenge-huffman/main.py:177-183 | `OverflowError` exactly for values of 2^32 or more; otherwise four bytes |
| Container.FromBytes | challenges/challenge-huffman/main.py:195-197 | `int.from_bytes`, big-endian and unsigned: k bytes read as a number below 256^k, four bytes below 2^32 |
| Container.FromToBytes4 | challenges/challenge-huffman/main.py:195-197 | `int.from_bytes` reads back what `to_bytes(4)` wrote |
| Container.Slice | challenges/challenge-huffman/main.py:195-200 | a slice within bounds is the plain subsequence, and no slice is longer than the file |
| Container.SliceFrom | challenges/challenge-huffman/main.py:203 | a suffix slice past the end is empty |
| Container.AsciiEncode | challenges/challenge-huffman/main.py:184 | one byte per character |
| Container.AsciiDecode | challenges/challenge-huffman/main.py:199 | `UnicodeDecodeError` exactly when some byte is 128 or more; otherwise one character per byte |
| Container.AsciiRoundTrip | challenges/challenge-huffman/main.py:184-199 | decoding the encoded alphabet gives it back |
| Container.Assemble | challenges/challenge-huffman/main.py:176-188 | `OverflowError` exactly when a header field does not fit four bytes; otherwise a 12-byte header plus the three sections |
| Container.Split | challenges/challenge-huffman/main.py:195-203 | no section is longer than the file |
| Container.SplitAssemble | challenges/challenge-huffman/main.py:176-203 | parsing an assembled file gives back its header fields and sections |
| HuffmanMain.CompressFile | challenges/challenge-huffman/main.py:170-188 | an empty text raises `IndexError` and nothing else does; otherwise only `OverflowError`; two or more distinct characters restore to the text; one distinct character gives a file whose decompression never ends |
| HuffmanMain.WriteHuff | challenges/challenge-huffman/main.py:176-188 | once the tree is built, only `OverflowError` can occur; two or more distinct characters restore to the text; one distinct character gives a file whose decompression never ends |
| HuffmanMain.StoredAssembled | challenges/challenge-huffman/main.py:176-201 | the assembled file stores the tree with its frequencies reset, and the payload with its bit count |
| HuffmanMain.DecodesText | challenges/challenge-huffman/main.py:120-157 | the payload coded with the tree's codes decodes to the text with the rebuilt tree |
| HuffmanMain.TextCovered | challenges/challenge-huffman/main.py:173-181 | every character of the text is a leaf and has a code |
| HuffmanMain.AlphabetIsAscii | challenges/challenge-huffman/main.py:176-184 | the stored alphabet of an ASCII text is ASCII |
| HuffmanMain.RestoreAssembled | challenges/challenge-huffman/main.py:176-205 | the assembled file restores to the text when there are two or more distinct characters |
| HuffmanMain.ReadTree | challenges/challenge-huffman/main.py:195-201 | reading the header, alphabet and tree bytes gives the stored tree |
| HuffmanMain.DecompressFile | challenges/challenge-huffman/main.py:193-205 | the decompress branch returns exactly the text the file restores to |
| WordCount.IsSpace | challenges/challenge-wc/main.py:34 | `char.strip()` is empty exactly for Python's whitespace; on ASCII that is space, `\t` to `\r` and `\x1c` to `\x1f`, and no letter, digit or `_` is whitespace |
| WordCount.Count | challenges/challenge-wc/main.py:24-43 | newlines counted, words as the loop counts them, characters and bytes |
| WordCount.WordsAtMostNonSpaces | challenges/challenge-wc/main.py:29-43 | there are never more words than non-whitespace characters |
| WordCount.NewlineDropsWord | challenges/challenge-wc/main.py:31-33 | a trailing newline uncounts the word just before it |
| WordCount.NewlineLosesWord | challenges/challenge-wc/main.py:29-43 | `"a\nb"` counts one word where it has two |
| WordCount.CountSplitWords | challenges/challenge-wc/main.py:29-43 | the corrected loop counts the maximal runs of non-whitespace |
| WordCount.SplitWordsSeparated | challenges/challenge-wc/main.py:29-43 | under the corrected count, any whitespace, a newline too, separates the words on its two sides |
| WordCount.SelectOutput | challenges/challenge-wc/main.py:45-56 | no flag prints lines, words and bytes; otherwise the flagged counts in the fixed order; never empty |
| WordCount.SelectedCount | challenges/challenge-wc/main.py:49-56 | each flag contributes exactly one field |
| WordCount.Decimal | challenges/challenge-wc/main.py:58-59 | `str(n)` is non-empty, all digits, with no leading zero |
| WordCount.DecimalValue | challenges/challenge-wc/main.py:58-59 | the digits of `str(n)` spell `n` |
| WordCount.Width | challenges/challenge-wc/main.py:58 | the width is at least every field's length and equal to one of them |
| WordCount.Format | challenges/challenge-wc/main.py:59 | every field has exactly the common width: the number's digits behind nothing but spaces |

## Left out

- Command-line parsing, reading and writing files, `print`, and the `.txt`/`.huff` renaming are left out. The methods take the file content as a parameter and return the bytes to write.
- `main`'s UTF-8 decoding and encoding are not modelled in general: the model handles ASCII text only.
  - `HuffmanMain.CompressFile` requires an ASCII text.
  - `Container.AsciiDecode` reports any byte of 128 or more as `UnicodeDecodeError`, where UTF-8 would accept valid multi-byte sequences.
  - The final `.encode()` of the decompressed string is not modelled: `Payload.Decompress` returns the string.
- heapq's exact array layout is not modelled:
  - `heapify` is not modelled; `heappush` appends.
  - `TreeBuilder.HeapPop` returns some minimal entry.
  - When two internal nodes tie, the model does not fix which one is popped first. Every result is proved for all such choices.
- Dictionary and `Counter` iteration order are left open: `TreeBuilder.InitialHeap` adds the leaves in any order.
- HuffmanMain.DecompressFile requires that the stored tree is not a lone leaf, because the source's loop never ends for such a tree. `Payload.Decompress` has the same precondition. `HuffmanMain.CompressFile` proves this case is exactly the case of a text with one distinct character.
- TreeSerial.Parse, TreeSerial.BytesToTree and HuffmanMain.DecompressFile do not model Python's recursion limit. `from_postorder` recurses once per pending `0` bit, so a tree section deeper than the limit (about 1000) raises `RecursionError` in the source, where the model returns the parsed tree. Such a tree comes only from a malformed file, or from a text with more distinct characters than ASCII has.
- TreeBuilder.GenerateTree states the shape, leaves and weights of the tree (`BuiltFrom`), not that it is an optimal code tree; the greedy choice is stated round by round by `TreeBuilder.MergeTwo` and `TreeBuilder.GreedyMergeLightest`.
- Container.Assemble models `len(chars.encode())` as the alphabet's length, which agrees only for ASCII.
- WordCount.Count takes the raw bytes and the decoded text as two inputs: decoding is not modelled, and `UnicodeDecodeError` on invalid UTF-8 is not raised.
- WordCount.Format requires a non-empty list. The output list is never empty, so the source's `max` of an empty list, which raises `ValueError`, cannot happen.
- Python's `str.isspace` is modelled by the fixed set of whitespace code points in `WordCount.IsSpace`.
- The load-balancer programs of the same repository are not part of this model.

## Findings

| source | as written | input that shows it | evidently intended | confidence | as-written member | corrected member |
|---|---|---|---|---|---|---|
| challenges/challenge-wc/main.py:31-33 | a newline resets `prev_char` without counting the word it ends | `"a\nb"`: 1 word | every whitespace, a newline too, ends a word, so `"a\nb"` has 2 words | high, proved; not executed | WordCount.NewlineLosesWord | WordCount.SplitWordsSeparated |
