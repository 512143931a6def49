/** The pieces of Python's `str` handling the command parser relies on: the whitespace
    class of `str.isspace` (which is also what `\s` and `str.split()` use), `strip`,
    `split`, and `int` on a string of ASCII digits. */
module Text {

  /** `str.isspace`: the ASCII whitespace and separator characters and the Unicode
      characters of category Zs, Zl and Zp or bidirectional class WS, B or S. No
      character the command pattern spells out is one of them. */
  predicate IsSpace(c: char): (r: bool)
    ensures r ==> !('0' <= c <= '9') && c !in "\"@-.hmr"
  {
    || c == ' '
    || ('\t' <= c <= '\r')            // \t \n \x0b \x0c \r
    || ('\U{1c}' <= c <= '\U{1f}')    // file, group, record and unit separators
    || c == '\U{85}' || c == '\U{a0}' || c == '\U{1680}'
    || ('\U{2000}' <= c <= '\U{200a}')
    || c == '\U{2028}' || c == '\U{2029}' || c == '\U{202f}' || c == '\U{205f}' || c == '\U{3000}'
  }

  /** `\d`, restricted to the ASCII digits. */
  predicate IsDigit(c: char) {
    '0' <= c <= '9'
  }

  /** The character classes the recogniser scans runs of. */
  datatype CharClass = Space | NonSpace | Digit | NotQuote

  predicate InClass(c: char, cls: CharClass) {
    match cls
    case Space => IsSpace(c)
    case NonSpace => !IsSpace(c)
    case Digit => IsDigit(c)
    case NotQuote => c != '"'
  }

  /** The length of the longest prefix of `s` made of characters of class `cls`. */
  function Span(s: string, cls: CharClass): (n: nat)
    ensures n <= |s|
    ensures forall k :: 0 <= k < n ==> InClass(s[k], cls)
    ensures n == |s| || !InClass(s[n], cls)
  {
    if s == [] || !InClass(s[0], cls) then 0 else 1 + Span(s[1..], cls)
  }

  /** The length of the longest suffix of `s` made of whitespace. */
  function TrailingSpaces(s: string): (n: nat)
    ensures n <= |s|
    ensures forall k :: |s| - n <= k < |s| ==> IsSpace(s[k])
    ensures n == |s| || !IsSpace(s[|s| - n - 1])
  {
    if s == [] || !IsSpace(s[|s| - 1]) then 0 else 1 + TrailingSpaces(s[..|s| - 1])
  }

  predicate AllSpace(s: string) {
    forall k :: 0 <= k < |s| ==> IsSpace(s[k])
  }

  /** `s.strip()`: `s` without its leading and trailing whitespace. */
  function Strip(s: string): (r: string)
    ensures r == [] || (!IsSpace(r[0]) && !IsSpace(r[|r| - 1]))
    ensures var i := Span(s, Space);
      i + |r| <= |s| && r == s[i..i + |r|] && AllSpace(s[i + |r|..])
  {
    var i := Span(s, Space);
    var rest := s[i..];
    var r := rest[..|rest| - TrailingSpaces(rest)];
    assert r == s[i..i + |r|];
    r
  }

  /** Text with no whitespace at either end is its own `strip()`. */
  lemma StripUnchanged(s: string)
    requires s == [] || (!IsSpace(s[0]) && !IsSpace(s[|s| - 1]))
    ensures Strip(s) == s
  {
    assert Span(s, Space) == 0;
    assert s[0..] == s;
    assert TrailingSpaces(s) == 0;
  }

  /** `s.split()`: the maximal runs of non-whitespace characters, in order. */
  function Split(s: string): (r: seq<string>)
    ensures forall t :: t in r ==> IsWord(t)
    decreases |s|
  {
    var i := Span(s, Space);
    if i == |s| then []
    else
      var rest := s[i..];
      var j := Span(rest, NonSpace);
      [rest[..j]] + Split(rest[j..])
  }

  /** Predicate of a token of `split()`: non-empty and free of whitespace. */
  predicate IsWord(t: string) {
    t != [] && forall k :: 0 <= k < |t| ==> !IsSpace(t[k])
  }

  /** Every character of a token of `s.split()` is a character of `s`. */
  lemma {:induction false} SplitChars(s: string, t: string, c: char)
    requires t in Split(s) && c in t
    ensures c in s
    decreases |s|
  {
    var i := Span(s, Space);
    var rest := s[i..];
    var j := Span(rest, NonSpace);
    assert i < |s| && Split(s) == [rest[..j]] + Split(rest[j..]);
    if t == rest[..j] {
      InPrefix(rest, j, c);
    } else {
      assert t in Split(rest[j..]);
      SplitChars(rest[j..], t, c);
      InSuffix(rest, j, c);
    }
    InSuffix(s, i, c);
  }

  lemma InPrefix(s: string, b: nat, c: char)
    requires b <= |s| && c in s[..b]
    ensures c in s
  {
    var k :| 0 <= k < b && s[..b][k] == c;
    assert s[k] == c;
  }

  lemma InSuffix(s: string, a: nat, c: char)
    requires a <= |s| && c in s[a..]
    ensures c in s
  {
    var k :| 0 <= k < |s| - a && s[a..][k] == c;
    assert s[a + k] == c;
  }

  /** Leading whitespace does not change `split()`. */
  lemma {:induction false} SplitAfterSpaces(w: string, s: string)
    requires AllSpace(w)
    ensures Split(w + s) == Split(s)
    decreases |w|
  {
    if w != [] {
      var tail := w[1..] + s;
      assert w + s == [w[0]] + tail;
      SplitAfterSpaces(w[1..], s);
      SplitAfterSpace(w[0], tail);
      assert Split(w + s) == Split(tail);
    } else {
      assert w + s == s;
    }
  }

  lemma SplitAfterSpace(c: char, s: string)
    requires IsSpace(c)
    ensures Split([c] + s) == Split(s)
  {
    var x := [c] + s;
    assert x[1..] == s;
    var i := Span(x, Space);
    assert i == 1 + Span(s, Space);
    assert x[i..] == s[i - 1..];
  }

  /** A token followed by whitespace is the first token of `split()`. */
  lemma SplitToken(t: string, w: string, s: string)
    requires t != [] && forall k :: 0 <= k < |t| ==> !IsSpace(t[k])
    requires w != [] && AllSpace(w)
    ensures Split(t + w + s) == [t] + Split(s)
  {
    var x := t + w + s;
    SpanPrefix(t, w + s);
    assert x == t + (w + s);
    assert x[..|t|] == t && x[|t|..] == w + s;
    SplitAfterSpaces(w, s);
  }

  /** A token at the very end is the last token. */
  lemma SplitLast(t: string)
    requires t != [] && forall k :: 0 <= k < |t| ==> !IsSpace(t[k])
    ensures Split(t) == [t]
  {
    SpanPrefix(t, []);
    assert t + [] == t;
    assert t[|t|..] == [];
  }

  /** A non-space run followed by whitespace (or nothing) spans exactly the run. */
  lemma SpanPrefix(t: string, rest: string)
    requires t != [] && forall k :: 0 <= k < |t| ==> !IsSpace(t[k])
    requires rest == [] || IsSpace(rest[0])
    ensures Span(t + rest, Space) == 0
    ensures Span(t + rest, NonSpace) == |t|
  {
    SpanExact(t, rest, NonSpace);
    assert (t + rest)[0] == t[0];
  }

  /** A run of class `cls` followed by anything outside it spans exactly the run. */
  lemma {:induction false} SpanExact(x: string, y: string, cls: CharClass)
    requires forall k :: 0 <= k < |x| ==> InClass(x[k], cls)
    requires y == [] || !InClass(y[0], cls)
    ensures Span(x + y, cls) == |x|
    decreases |x|
  {
    if x == [] {
      assert x + y == y;
    } else {
      assert (x + y)[1..] == x[1..] + y;
      SpanExact(x[1..], y, cls);
    }
  }

  /** The words separated by single spaces: the inverse of `split()` on tokens. */
  function Join(words: seq<string>): string {
    if words == [] then ""
    else if |words| == 1 then words[0]
    else words[0] + " " + Join(words[1..])
  }

  /** `split()` recovers the words a single-space join was made of. */
  lemma {:induction false} SplitJoin(words: seq<string>)
    requires forall k :: 0 <= k < |words| ==> IsWord(words[k])
    ensures Split(Join(words)) == words
  {
    if |words| == 1 {
      assert IsWord(words[0]);
      SplitLast(words[0]);
    } else if |words| > 1 {
      var w, rest := words[0], words[1..];
      assert forall k :: 0 <= k < |rest| ==> rest[k] == words[k + 1];
      SplitJoin(rest);
      assert IsWord(w);
      JoinStep(w, rest);
      assert words == [w] + rest;
    }
  }

  /** One more word in front of a join is one more token in front of its split. */
  lemma JoinStep(w: string, rest: seq<string>)
    requires IsWord(w) && rest != [] && Split(Join(rest)) == rest
    ensures Split(Join([w] + rest)) == [w] + rest
  {
    assert ([w] + rest)[1..] == rest;
    assert AllSpace(" ");
    SplitToken(w, " ", Join(rest));
  }

  /** `s.lstrip(c)`: `s` without the copies of `c` it starts with. */
  function LstripChar(s: string, c: char): (r: string)
    ensures r == [] || r[0] != c
    ensures |r| <= |s| && r == s[|s| - |r|..]
    ensures forall k :: 0 <= k < |s| - |r| ==> s[k] == c
  {
    if s == [] || s[0] != c then s else LstripChar(s[1..], c)
  }

  // ---------------------------------------------------------------------------
  // Decimal digits

  function DigitValue(c: char): nat
    requires IsDigit(c)
  {
    c as int - '0' as int
  }

  predicate AllDigits(s: string) {
    forall k :: 0 <= k < |s| ==> IsDigit(s[k])
  }

  /** `int(s)` for a string of ASCII digits (leading zeros allowed). */
  function DigitsValue(s: string): (n: nat)
    requires AllDigits(s)
    ensures n < Pow10(|s|)
    decreases |s|
  {
    if s == [] then 0 else 10 * DigitsValue(s[..|s| - 1]) + DigitValue(s[|s| - 1])
  }

  function DigitChar(d: nat): (c: char)
    requires d < 10
    ensures IsDigit(c) && DigitValue(c) == d
  {
    ('0' as int + d) as char
  }

  /** `str(n)`: the decimal digits of `n`, without leading zeros. */
  function Decimal(n: nat): (s: string)
    ensures s != [] && AllDigits(s)
  {
    if n < 10 then [DigitChar(n)] else Decimal(n / 10) + [DigitChar(n % 10)]
  }

  /** `int(str(n)) == n`. */
  lemma {:induction false} DecimalValue(n: nat)
    ensures DigitsValue(Decimal(n)) == n
  {
    var s := Decimal(n);
    if n >= 10 {
      DecimalValue(n / 10);
      assert s[..|s| - 1] == Decimal(n / 10);
    }
  }

  /** `n` written with exactly `width` digits, padded with leading zeros. */
  function Padded(n: nat, width: nat): (s: string)
    ensures |s| == width && AllDigits(s)
  {
    if width == 0 then [] else Padded(n / 10, width - 1) + [DigitChar(n % 10)]
  }

  function Pow10(k: nat): (p: nat)
    ensures p >= 1
  {
    if k == 0 then 1 else 10 * Pow10(k - 1)
  }

  /** Reading back a padded number gives it back, when it fits. */
  lemma {:induction false} PaddedValue(n: nat, width: nat)
    requires n < Pow10(width)
    ensures DigitsValue(Padded(n, width)) == n
  {
    if width > 0 {
      var s := Padded(n, width);
      assert n / 10 < Pow10(width - 1);
      PaddedValue(n / 10, width - 1);
      assert s[..|s| - 1] == Padded(n / 10, width - 1);
    }
  }

  /** The last character of a join is the last character of its last word. */
  lemma {:induction false} JoinLast(words: seq<string>)
    requires words != [] && words[|words| - 1] != []
    ensures var j, w := Join(words), words[|words| - 1];
      j != [] && j[|j| - 1] == w[|w| - 1]
  {
    if |words| > 1 {
      JoinLast(words[1..]);
    }
  }

  /** A join holds no character other than the space that none of its words holds. */
  lemma {:induction false} JoinAvoids(words: seq<string>, c: char)
    requires c != ' ' && forall k :: 0 <= k < |words| ==> c !in words[k]
    ensures c !in Join(words)
  {
    if |words| > 1 {
      JoinAvoids(words[1..], c);
      assert Join(words) == words[0] + (" " + Join(words[1..]));
    }
  }

  /** The first character of a join is the first character of its first word. */
  lemma JoinFirst(words: seq<string>)
    requires words != [] && words[0] != []
    ensures Join(words) != [] && Join(words)[0] == words[0][0]
  {
  }
}
