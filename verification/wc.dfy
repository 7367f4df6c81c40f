/**
 * The counting loop and the output formatting of the `wc` challenge: lines,
 * words, characters and bytes of one file, each right-justified to the
 * width of the widest.
 */
module WordCount {

  type Byte = b: int | 0 <= b < 256

  /**
   * `not char.strip()` for one character: Python's whitespace, the
   * characters `str.isspace` accepts.
   */
  predicate IsSpace(c: char)
    ensures c < '\U{80}' ==> (IsSpace(c) <==> c == ' ' || '\t' <= c <= '\r' || '\U{1C}' <= c <= '\U{1F}')
    ensures '0' <= c <= '9' || 'A' <= c <= 'Z' || 'a' <= c <= 'z' || c == '_' ==> !IsSpace(c)
  {
    || c == ' ' || '\t' <= c <= '\r'
    || '\U{1C}' <= c <= '\U{1F}'
    || c == '\U{85}' || c == '\U{A0}' || c == '\U{1680}'
    || '\U{2000}' <= c <= '\U{200A}'
    || c == '\U{2028}' || c == '\U{2029}' || c == '\U{202F}' || c == '\U{205F}' || c == '\U{3000}'
  }

  /**
   * Position `i` ends a counted word: it is not whitespace, and either it is
   * the last character or the next one is whitespace other than a newline.
   * A word directly followed by `'\n'` ends nowhere.
   */
  predicate WordEnd(t: string, i: nat)
    requires i < |t|
  {
    !IsSpace(t[i]) && (i == |t| - 1 || (IsSpace(t[i + 1]) && t[i + 1] != '\n'))
  }

  /** The number of word ends among the first `n` positions. */
  function EndsBefore(t: string, n: nat): nat
    requires n <= |t|
  {
    if n == 0 then 0 else EndsBefore(t, n - 1) + (if WordEnd(t, n - 1) then 1 else 0)
  }

  function Words(t: string): nat
  {
    EndsBefore(t, |t|)
  }

  /** The number of non-whitespace characters among the first `n`. */
  function NonSpaces(t: string, n: nat): nat
    requires n <= |t|
  {
    if n == 0 then 0 else NonSpaces(t, n - 1) + (if IsSpace(t[n - 1]) then 0 else 1)
  }

  /** Every counted word ends at a distinct non-whitespace character. */
  lemma {:induction false} WordsAtMostNonSpaces(t: string, n: nat)
    requires n <= |t|
    ensures EndsBefore(t, n) <= NonSpaces(t, n)
  {
    if n > 0 {
      WordsAtMostNonSpaces(t, n - 1);
    }
  }

  /**
   * The counting loop over the decoded text, with the byte count of the raw
   * buffer alongside.  `prev_char` holds the last character while it is not
   * whitespace and is empty otherwise; a whitespace character other than a
   * newline closes the pending word, a newline drops it.
   */
  method Count(raw: seq<Byte>, text: string) returns (newlines: nat, words: nat, chars: nat, bytesCount: nat)
    ensures newlines == multiset(text)['\n']
    ensures words == Words(text)
    ensures chars == |text|
    ensures bytesCount == |raw|
  {
    chars, words, newlines := 0, 0, 0;
    bytesCount := |raw|;
    var prevChar: string := [];
    for i := 0 to |text|
      invariant chars == i
      invariant newlines == multiset(text[..i])['\n']
      invariant prevChar == if i > 0 && !IsSpace(text[i - 1]) then [text[i - 1]] else []
      invariant words == if i == 0 then 0 else EndsBefore(text, i - 1)
    {
      var c := text[i];
      assert text[..i + 1] == text[..i] + [c];
      if c == '\n' {
        newlines := newlines + 1;
        prevChar := [];
      } else if !IsSpace(c) {
        prevChar := [c];
      } else {
        if prevChar != [] {
          words := words + 1;
        }
        prevChar := [];
      }
      chars := chars + 1;
    }
    if prevChar != [] {
      words := words + 1;
    }
    assert text[..|text|] == text;
  }

  /** A word run into a trailing newline is lost: appending `'\n'` uncounts the last word. */
  lemma NewlineDropsWord(t: string)
    ensures Words(t + ['\n']) == Words(t) - (if t != [] && !IsSpace(t[|t| - 1]) then 1 else 0)
  {
    var u := t + ['\n'];
    EndsPrefix(t, u, |t| - 1);
    assert !WordEnd(u, |t|);
    assert Words(u) == EndsBefore(u, |t|);
    if t != [] {
      assert !WordEnd(u, |t| - 1);
      assert EndsBefore(u, |t|) == EndsBefore(u, |t| - 1);
      assert Words(t) == EndsBefore(t, |t| - 1) + (if WordEnd(t, |t| - 1) then 1 else 0);
    }
  }

  /** Word ends before the last position of `t` do not depend on what follows `t`. */
  lemma {:induction false} EndsPrefix(t: string, u: string, n: int)
    requires t <= u && n < |t|
    ensures n >= 0 ==> EndsBefore(u, n) == EndsBefore(t, n)
    decreases n
  {
    if n > 0 {
      EndsPrefix(t, u, n - 1);
      assert u[n - 1] == t[n - 1] && u[n] == t[n];
    }
  }

  /** The counted words of `"a\nb"`: the first word is lost to the newline. */
  lemma NewlineLosesWord()
    ensures Words("a\nb") == 1 && SplitWords("a\nb") == 2
  {
    var t := "a\nb";
    assert |t| == 3 && t[0] == 'a' && t[1] == '\n' && t[2] == 'b';
    assert !WordEnd(t, 0) && !WordEnd(t, 1) && WordEnd(t, 2);
    assert EndsBefore(t, 2) == 0;
    assert RunEnd(t, 0) && !RunEnd(t, 1) && RunEnd(t, 2);
    assert RunsBefore(t, 2) == 1;
  }

  /**
   * What a word count evidently means (`len(text.split())`): position `i`
   * ends a word when it is not whitespace and the next position, if any, is
   * whitespace of any kind, a newline included.
   */
  predicate RunEnd(t: string, i: nat)
    requires i < |t|
  {
    !IsSpace(t[i]) && (i == |t| - 1 || IsSpace(t[i + 1]))
  }

  function RunsBefore(t: string, n: nat): nat
    requires n <= |t|
  {
    if n == 0 then 0 else RunsBefore(t, n - 1) + (if RunEnd(t, n - 1) then 1 else 0)
  }

  function SplitWords(t: string): nat
  {
    RunsBefore(t, |t|)
  }

  /**
   * The word loop with a newline closing the pending word like every other
   * whitespace character.
   */
  method CountSplitWords(text: string) returns (words: nat)
    ensures words == SplitWords(text)
  {
    words := 0;
    var inWord := false;
    for i := 0 to |text|
      invariant inWord == (i > 0 && !IsSpace(text[i - 1]))
      invariant words == if i == 0 then 0 else RunsBefore(text, i - 1)
    {
      if !IsSpace(text[i]) {
        inWord := true;
      } else {
        if inWord {
          words := words + 1;
        }
        inWord := false;
      }
    }
    if inWord {
      words := words + 1;
    }
  }

  /** Any whitespace character, a newline too, separates the words on its two sides. */
  lemma SplitWordsSeparated(a: string, c: char, b: string)
    requires IsSpace(c)
    ensures SplitWords(a + [c] + b) == SplitWords(a) + SplitWords(b)
  {
    var u := a + [c] + b;
    RunsFront(a, u, |a|);
    RunsBack(a, c, b, |b|);
  }

  /** Ends within `a` are the same in `u`, which continues `a` with whitespace. */
  lemma {:induction false} RunsFront(a: string, u: string, n: nat)
    requires a <= u && |a| < |u| && IsSpace(u[|a|]) && n <= |a|
    ensures RunsBefore(u, n) == RunsBefore(a, n)
  {
    if n > 0 {
      RunsFront(a, u, n - 1);
      assert u[n - 1] == a[n - 1];
      if n < |a| {
        assert u[n] == a[n];
      }
    }
  }

  /** Ends after the separator are those of `b`, shifted past `a` and the separator. */
  lemma {:induction false} RunsBack(a: string, c: char, b: string, k: nat)
    requires IsSpace(c) && k <= |b|
    ensures RunsBefore(a + [c] + b, |a| + 1 + k) == RunsBefore(a + [c] + b, |a| + 1) + RunsBefore(b, k)
  {
    var u := a + [c] + b;
    if k > 0 {
      RunsBack(a, c, b, k - 1);
      var i := |a| + k;
      assert u[i] == b[k - 1];
      if k < |b| {
        assert u[i + 1] == b[k];
      }
      assert RunEnd(u, i) == RunEnd(b, k - 1);
    } else {
      assert u[|a|] == c;
    }
  }

  /** The `-c`, `-m`, `-l` and `-w` flags. */
  datatype Flags = Flags(bytes: bool, chars: bool, lines: bool, words: bool)

  /** The values printed: those asked for in the fixed order lines, words, chars, bytes. */
  function Selected(flags: Flags, newlines: nat, words: nat, chars: nat, bytesCount: nat): seq<nat>
  {
    (if flags.lines then [newlines] else [])
    + (if flags.words then [words] else [])
    + (if flags.chars then [chars] else [])
    + (if flags.bytes then [bytesCount] else [])
  }

  /**
   * The output list: lines, words and bytes when no flag is given, otherwise
   * the flagged counts in the fixed order, however many flags there are.
   */
  method SelectOutput(flags: Flags, newlines: nat, words: nat, chars: nat, bytesCount: nat) returns (output: seq<nat>)
    ensures output != []
    ensures !(flags.bytes || flags.chars || flags.lines || flags.words) ==> output == [newlines, words, bytesCount]
    ensures flags.bytes || flags.chars || flags.lines || flags.words ==> output == Selected(flags, newlines, words, chars, bytesCount)
  {
    output := [];
    if !(flags.bytes || flags.chars || flags.lines || flags.words) {
      output := output + [newlines, words, bytesCount];
    } else {
      if flags.lines {
        output := output + [newlines];
      }
      if flags.words {
        output := output + [words];
      }
      if flags.chars {
        output := output + [chars];
      }
      if flags.bytes {
        output := output + [bytesCount];
      }
    }
  }

  /** Each flag contributes exactly one field. */
  lemma SelectedCount(flags: Flags, newlines: nat, words: nat, chars: nat, bytesCount: nat)
    ensures |Selected(flags, newlines, words, chars, bytesCount)|
      == (if flags.lines then 1 else 0) + (if flags.words then 1 else 0)
       + (if flags.chars then 1 else 0) + (if flags.bytes then 1 else 0)
  {
  }

  function Digit(d: nat): char
    requires d < 10
  {
    ('0' as int + d) as char
  }

  /** `str(n)`: decimal digits, most significant first, no leading zero. */
  function Decimal(n: nat): (s: string)
    ensures 1 <= |s|
    ensures forall i | 0 <= i < |s| :: '0' <= s[i] <= '9'
    ensures |s| > 1 ==> s[0] != '0'
  {
    if n < 10 then [Digit(n)] else Decimal(n / 10) + [Digit(n % 10)]
  }

  /** The number a string of decimal digits spells. */
  function DigitsValue(s: string): nat
    requires forall i | 0 <= i < |s| :: '0' <= s[i] <= '9'
  {
    if s == [] then 0 else 10 * DigitsValue(s[..|s| - 1]) + (s[|s| - 1] - '0') as nat
  }

  /** `str` loses nothing: its digits spell the number back. */
  lemma {:induction false} DecimalValue(n: nat)
    ensures DigitsValue(Decimal(n)) == n
  {
    if n >= 10 {
      DecimalValue(n / 10);
      var s := Decimal(n);
      assert s == Decimal(n / 10) + [Digit(n % 10)];
      assert s[..|s| - 1] == Decimal(n / 10);
      assert (s[|s| - 1] - '0') as nat == n % 10;
      assert DigitsValue(s) == 10 * (n / 10) + n % 10;
    }
  }

  /** `max(len(str(i)) for i in output)`: the width of the widest field. */
  function Width(output: seq<nat>): (w: nat)
    requires output != []
    ensures forall i | 0 <= i < |output| :: |Decimal(output[i])| <= w
    ensures exists i | 0 <= i < |output| :: |Decimal(output[i])| == w
  {
    var last := |Decimal(output[|output| - 1])|;
    if |output| == 1 then last
    else
      var w := Width(output[..|output| - 1]);
      assert forall i | 0 <= i < |output| - 1 :: output[..|output| - 1][i] == output[i];
      if w < last then last else w
  }

  function Spaces(n: nat): (s: string)
    ensures |s| == n && forall i | 0 <= i < n :: s[i] == ' '
  {
    if n == 0 then [] else Spaces(n - 1) + [' ']
  }

  /** `s.rjust(width)`: spaces on the left up to `width` characters. */
  function RJust(s: string, width: nat): string
  {
    if |s| < width then Spaces(width - |s|) + s else s
  }

  /**
   * `[str(i).rjust(width) for i in output]`: every field is exactly the
   * common width, and is its number's digits behind nothing but spaces.
   */
  function Format(output: seq<nat>): (fields: seq<string>)
    requires output != []
    ensures |fields| == |output|
    ensures forall i | 0 <= i < |output| ::
      var d := Decimal(output[i]);
      && |fields[i]| == Width(output)
      && |d| <= |fields[i]|
      && fields[i][|fields[i]| - |d|..] == d
      && forall k | 0 <= k < |fields[i]| - |d| :: fields[i][k] == ' '
  {
    var width := Width(output);
    seq(|output|, i requires 0 <= i < |output| => RJust(Decimal(output[i]), width))
  }
}
