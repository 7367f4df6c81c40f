/**
 * The `.huff` file that the compress branch of `main` writes and the
 * decompress branch reads: three 4-byte big-endian lengths (alphabet bytes,
 * tree bits, payload bits), then the alphabet, the tree bytes and the
 * payload.
 */
module Container {
  import opened Outcomes
  import opened HuffmanTree

  const Limit: nat := 0x1_0000_0000

  /** `n.to_bytes(4)`: big-endian; a value that needs more than four bytes raises `OverflowError`. */
  function ToBytes4(n: nat): (r: Result<seq<Byte>>)
    ensures r.Err? <==> n >= Limit
    ensures r.Err? ==> r.error == OverflowError
    ensures r.Ok? ==> |r.value| == 4
  {
    if n >= Limit then Err(OverflowError)
    else
      var x := n / 0x100;
      var y := x / 0x100;
      Ok([y / 0x100, y % 0x100, x % 0x100, n % 0x100])
  }

  /** `int.from_bytes(b)`: big-endian, unsigned, of any length; `k` bytes hold less than 256^k. */
  function FromBytes(b: seq<Byte>): (n: nat)
    ensures n < Pow256(|b|)
    ensures |b| == 4 ==> n < Limit
  {
    if b == [] then 0 else FromBytes(b[..|b| - 1]) * 256 + b[|b| - 1]
  }

  function Pow256(k: nat): (p: nat)
    ensures p > 0
  {
    if k == 0 then 1 else 256 * Pow256(k - 1)
  }

  /** Reading four bytes back gives the number written. */
  lemma FromToBytes4(n: nat)
    requires n < Limit
    ensures FromBytes(ToBytes4(n).value) == n
  {
    var x := n / 0x100;
    var y := x / 0x100;
    var b := ToBytes4(n).value;
    assert b == [y / 0x100, y % 0x100, x % 0x100, n % 0x100];
    assert b[..3][..2][..1][..0] == [];
    assert FromBytes(b[..1]) == y / 0x100;
    assert FromBytes(b[..2]) == y by {
      assert b[..2][..1] == b[..1];
    }
    assert FromBytes(b[..3]) == x by {
      assert b[..3][..2] == b[..2];
    }
    assert b[..4][..3] == b[..3];
  }

  /** Python's `s[lo:hi]` for non-negative bounds: both are clamped to the length. */
  function Slice<T>(s: seq<T>, lo: nat, hi: nat): (r: seq<T>)
    ensures lo <= hi <= |s| ==> r == s[lo..hi]
    ensures |r| <= |s|
  {
    var l := if lo < |s| then lo else |s|;
    var h := if hi < |s| then hi else |s|;
    if l <= h then s[l..h] else []
  }

  /** Python's `s[lo:]`. */
  function SliceFrom<T>(s: seq<T>, lo: nat): (r: seq<T>)
    ensures lo <= |s| ==> r == s[lo..]
    ensures lo >= |s| ==> r == []
  {
    if lo < |s| then s[lo..] else []
  }

  predicate IsAscii(s: string)
  {
    forall i | 0 <= i < |s| :: s[i] < 128 as char
  }

  /** `str.encode()` on ASCII text: one byte per character, its code. */
  function AsciiEncode(s: string): (b: seq<Byte>)
    requires IsAscii(s)
    ensures |b| == |s|
  {
    seq(|s|, i requires 0 <= i < |s| => s[i] as int)
  }

  /**
   * `bytes.decode()` as far as ASCII goes: one character per byte below 128;
   * a byte of 128 or more is reported as `UnicodeDecodeError`.
   */
  function AsciiDecode(b: seq<Byte>): (r: Result<string>)
    ensures r.Err? <==> exists i | 0 <= i < |b| :: b[i] >= 128
    ensures r.Err? ==> r.error == UnicodeDecodeError
    ensures r.Ok? ==> |r.value| == |b|
  {
    if exists i | 0 <= i < |b| :: b[i] >= 128 then Err(UnicodeDecodeError)
    else Ok(seq(|b|, i requires 0 <= i < |b| => b[i] as char))
  }

  lemma AsciiRoundTrip(s: string)
    requires IsAscii(s)
    ensures AsciiDecode(AsciiEncode(s)) == Ok(s)
  {
    var b := AsciiEncode(s);
    assert forall i | 0 <= i < |b| :: b[i] < 128;
    assert AsciiDecode(b).value == s;
  }

  /**
   * The file the compress branch writes: the three lengths, then the
   * alphabet, the tree bytes and the payload.  The lengths are converted in
   * the order the code converts them, and the first that does not fit in
   * four bytes raises `OverflowError`.
   */
  function Assemble(alphabet: seq<Byte>, treeBits: nat, treeBytes: seq<Byte>, payloadBits: nat, payload: seq<Byte>): (r: Result<seq<Byte>>)
    ensures r.Err? <==> |alphabet| >= Limit || treeBits >= Limit || payloadBits >= Limit
    ensures r.Ok? ==> |r.value| == 12 + |alphabet| + |treeBytes| + |payload|
  {
    match ToBytes4(|alphabet|)
    case Err(e) => Err(e)
    case Ok(a) =>
      match ToBytes4(treeBits)
      case Err(e) => Err(e)
      case Ok(t) =>
        match ToBytes4(payloadBits)
        case Err(e) => Err(e)
        case Ok(c) => Ok(a + t + c + alphabet + treeBytes + payload)
  }

  /** The fields the decompress branch cuts out of a file. */
  datatype Sections = Sections(alphabet: seq<Byte>, treeBits: nat, treeBytes: seq<Byte>, payloadBits: nat, payload: seq<Byte>)

  /** `ceil(n / 8.0)`: exact for every `n` that four bytes can hold. */
  function CeilDiv8(n: nat): nat
  {
    (n + 7) / 8
  }

  /**
   * The decompress branch's slicing: the lengths at offsets 0, 4 and 8, the
   * alphabet from 12, the tree bytes from `12 + A`, the payload from
   * `12 + A + ceil(T / 8)` to the end.  Slices past the end come out short.
   */
  function Split(file: seq<Byte>): (r: Sections)
    ensures |r.alphabet| <= |file| && |r.treeBytes| <= |file| && |r.payload| <= |file|
  {
    var a := FromBytes(Slice(file, 0, 4));
    var t := FromBytes(Slice(file, 4, 8));
    var c := FromBytes(Slice(file, 8, 12));
    var treeStart := 12 + a;
    var payloadStart := treeStart + CeilDiv8(t);
    Sections(Slice(file, 12, treeStart), t, Slice(file, treeStart, payloadStart), c, SliceFrom(file, payloadStart))
  }

  /**
   * Cutting up an assembled file gives back every field and every region
   * exactly, provided the tree bytes are `ceil(treeBits / 8)` long, as
   * `tree_to_bytes` makes them.
   */
  lemma SplitAssemble(alphabet: seq<Byte>, treeBits: nat, treeBytes: seq<Byte>, payloadBits: nat, payload: seq<Byte>)
    requires Assemble(alphabet, treeBits, treeBytes, payloadBits, payload).Ok?
    requires |treeBytes| == CeilDiv8(treeBits)
    ensures Split(Assemble(alphabet, treeBits, treeBytes, payloadBits, payload).value)
      == Sections(alphabet, treeBits, treeBytes, payloadBits, payload)
  {
    var file := Assemble(alphabet, treeBits, treeBytes, payloadBits, payload).value;
    var a, t, c := ToBytes4(|alphabet|).value, ToBytes4(treeBits).value, ToBytes4(payloadBits).value;
    assert file == a + t + c + alphabet + treeBytes + payload;
    assert file[0..4] == a && file[4..8] == t && file[8..12] == c;
    FromToBytes4(|alphabet|);
    FromToBytes4(treeBits);
    FromToBytes4(payloadBits);
    var treeStart := 12 + |alphabet|;
    var payloadStart := treeStart + |treeBytes|;
    assert file[12..treeStart] == alphabet;
    assert file[treeStart..payloadStart] == treeBytes;
    assert file[payloadStart..] == payload;
  }
}
