/**
 * The handful of Python string operations the program relies on, over
 * `string` (a sequence of Unicode scalar values): `str.isspace`, `str.strip`,
 * `str.split('\n')`, `str.startswith`, the regex classes `\d`, `[0-9a-f]` and
 * `[\w-]`, and `int()` on a run of decimal digits.
 */
module Text {

  /** Python's `str.isspace()`: the characters `str.strip()` removes. */
  predicate IsSpace(c: char)
  {
    || c == ' ' || ('\t' <= c <= '\r') || ('\U{1c}' <= c <= '\U{1f}')
    || c == '\U{85}' || c == '\U{a0}' || c == '\U{1680}' || ('\U{2000}' <= c <= '\U{200a}')
    || c == '\U{2028}' || c == '\U{2029}' || c == '\U{202f}' || c == '\U{205f}' || c == '\U{3000}'
  }

  /** Index of the first character of s that is not white space (|s| if none). */
  function StripStart(s: string, i: nat := 0): (j: nat)
    requires i <= |s|
    ensures i <= j <= |s|
    ensures forall k :: i <= k < j ==> IsSpace(s[k])
    ensures j < |s| ==> !IsSpace(s[j])
    decreases |s| - i
  {
    if i < |s| && IsSpace(s[i]) then StripStart(s, i + 1) else i
  }

  /** One past the last character of s[lo..hi] that is not white space (lo if none). */
  function StripEnd(s: string, lo: nat, hi: nat): (j: nat)
    requires lo <= hi <= |s|
    ensures lo <= j <= hi
    ensures forall k :: j <= k < hi ==> IsSpace(s[k])
    ensures lo < j ==> !IsSpace(s[j - 1])
    decreases hi
  {
    if lo < hi && IsSpace(s[hi - 1]) then StripEnd(s, lo, hi - 1) else hi
  }

  /** Python's `s.strip()`: s without its leading and trailing white space. */
  function Strip(s: string): string
  {
    var i := StripStart(s);
    var j := StripEnd(s, i, |s|);
    s[i..j]
  }

  /**
   * Strip removes white space from both ends and nothing else: what is left
   * neither starts nor ends with white space, is empty only for an all-blank
   * string, and is s itself when s has no white space at its ends.
   */
  lemma StripSpec(s: string)
    ensures |Strip(s)| <= |s|
    ensures Strip(s) != [] ==> !IsSpace(Strip(s)[0]) && !IsSpace(Strip(s)[|Strip(s)| - 1])
    ensures Strip(s) == [] <==> forall k :: 0 <= k < |s| ==> IsSpace(s[k])
    ensures (s == [] || (!IsSpace(s[0]) && !IsSpace(s[|s| - 1]))) ==> Strip(s) == s
    ensures exists i, j :: 0 <= i <= j <= |s| && Strip(s) == s[i..j]
                           && (forall k :: 0 <= k < i ==> IsSpace(s[k]))
                           && (forall k :: j <= k < |s| ==> IsSpace(s[k]))
  {
    var i := StripStart(s);
    var j := StripEnd(s, i, |s|);
    assert Strip(s) == s[i..j];
  }

  /** Python's `line.startswith("\t") or line.startswith(" ")`. */
  predicate IsIndented(line: string)
  {
    |line| > 0 && (line[0] == '\t' || line[0] == ' ')
  }

  /** Index of the first sep in s at or after i (|s| if none). */
  function IndexOf(s: string, sep: char, i: nat): (j: nat)
    requires i <= |s|
    ensures i <= j <= |s|
    ensures forall k :: i <= k < j ==> s[k] != sep
    ensures j < |s| ==> s[j] == sep
    decreases |s| - i
  {
    if i == |s| || s[i] == sep then i else IndexOf(s, sep, i + 1)
  }

  /** Python's `s.split(sep)` for a one-character separator. */
  function Split(s: string, sep: char): (parts: seq<string>)
    ensures |parts| >= 1
    ensures forall k :: 0 <= k < |parts| ==> sep !in parts[k]
    decreases |s|
  {
    var i := IndexOf(s, sep, 0);
    if i == |s| then [s] else [s[..i]] + Split(s[i + 1..], sep)
  }

  /** Python's `sep.join(parts)`. */
  function Join(parts: seq<string>, sep: char): string
    requires |parts| >= 1
  {
    if |parts| == 1 then parts[0] else parts[0] + [sep] + Join(parts[1..], sep)
  }

  /** Joining the pieces of a split gives back the text. */
  lemma {:induction false} JoinSplit(s: string, sep: char)
    ensures Join(Split(s, sep), sep) == s
    decreases |s|
  {
    var i := IndexOf(s, sep, 0);
    if i < |s| {
      JoinSplit(s[i + 1..], sep);
      assert s == s[..i] + [sep] + s[i + 1..];
    }
  }

  /** Splitting a join of separator-free pieces gives back the pieces. */
  lemma {:induction false} SplitJoin(parts: seq<string>, sep: char)
    requires |parts| >= 1
    requires forall k :: 0 <= k < |parts| ==> sep !in parts[k]
    ensures Split(Join(parts, sep), sep) == parts
    decreases |parts|
  {
    var s := Join(parts, sep);
    var p := parts[0];
    assert s[..|p|] == p;
    assert forall k :: 0 <= k < |p| ==> s[k] == p[k] && s[k] != sep;
    if |parts| == 1 {
      assert IndexOf(s, sep, 0) == |s|;
    } else {
      assert s[|p|] == sep;
      assert IndexOf(s, sep, 0) == |p|;
      assert s[|p| + 1..] == Join(parts[1..], sep);
      SplitJoin(parts[1..], sep);
    }
  }

  /** The regex class `\d`, restricted to ASCII. */
  predicate IsDigit(c: char)
  {
    '0' <= c <= '9'
  }

  predicate AllDigits(s: string)
  {
    forall k :: 0 <= k < |s| ==> IsDigit(s[k])
  }

  /** End of the longest run of digits in s starting at i: what a greedy `\d*` consumes. */
  function DigitsEnd(s: string, i: nat): (j: nat)
    requires i <= |s|
    ensures i <= j <= |s|
    ensures AllDigits(s[i..j])
    ensures j < |s| ==> !IsDigit(s[j])
    decreases |s| - i
  {
    if i < |s| && IsDigit(s[i]) then DigitsEnd(s, i + 1) else i
  }

  /** Python's `int(ds)` on a string of ASCII digits (leading zeros allowed). */
  function DecimalValue(ds: string): nat
    requires AllDigits(ds)
  {
    if ds == [] then 0
    else DecimalValue(ds[..|ds| - 1]) * 10 + (ds[|ds| - 1] as int - '0' as int)
  }

  /** The decimal numeral of n, without leading zeros; the reference for DecimalValue. */
  function DecimalString(n: nat): (ds: string)
    ensures |ds| >= 1 && AllDigits(ds)
  {
    var d := ['0' + ((n % 10) as char)];
    if n < 10 then d else DecimalString(n / 10) + d
  }

  /** `int(str(n)) == n`. */
  lemma {:induction false} DecimalRoundTrip(n: nat)
    ensures DecimalValue(DecimalString(n)) == n
  {
    var ds := DecimalString(n);
    if n >= 10 {
      DecimalRoundTrip(n / 10);
      assert ds[..|ds| - 1] == DecimalString(n / 10);
    }
  }

  /** Python's `str(v)` for an int: an optional minus sign and the numeral of the magnitude. */
  function SignedString(v: int): (s: string)
    ensures s != []
  {
    if v < 0 then "-" + DecimalString(-v) else DecimalString(v)
  }

  /** The shape of an optionally signed decimal numeral, as `int()` accepts it here. */
  predicate IsSignedNumeral(s: string)
  {
    s != [] && if s[0] == '-' then |s| > 1 && AllDigits(s[1..]) else AllDigits(s)
  }

  /** Python's `int(s)` on a signed numeral. */
  function SignedValue(s: string): int
    requires IsSignedNumeral(s)
  {
    if s[0] == '-' then -(DecimalValue(s[1..]) as int) else DecimalValue(s)
  }

  /** `int(str(v)) == v` for every int, negative ones included. */
  lemma SignedRoundTrip(v: int)
    ensures IsSignedNumeral(SignedString(v))
    ensures SignedValue(SignedString(v)) == v
  {
    if v < 0 {
      DecimalRoundTrip(-v);
      assert SignedString(v)[1..] == DecimalString(-v);
    } else {
      DecimalRoundTrip(v);
      assert IsDigit(DecimalString(v)[0]);
    }
  }

  /** The regex class `[0-9a-f]`. */
  predicate IsLowerHex(c: char)
  {
    IsDigit(c) || ('a' <= c <= 'f')
  }

  /** `re.match(r"[0-9a-f]{32}", s)`: s begins with 32 lower-case hex digits (anything may follow). */
  predicate StartsWithHex32(s: string)
  {
    |s| >= 32 && forall k :: 0 <= k < 32 ==> IsLowerHex(s[k])
  }

  /** The regex class `[\w-]`, restricted to ASCII: a letter, a digit, `_` or `-`. */
  predicate IsNameChar(c: char)
  {
    ('a' <= c <= 'z') || ('A' <= c <= 'Z') || IsDigit(c) || c == '_' || c == '-'
  }

  /** End of the longest run of name characters in s starting at i: what a greedy `[\w-]*` consumes. */
  function NameEnd(s: string, i: nat): (j: nat)
    requires i <= |s|
    ensures i <= j <= |s|
    ensures forall k :: i <= k < j ==> IsNameChar(s[k])
    ensures j < |s| ==> !IsNameChar(s[j])
    decreases |s| - i
  {
    if i < |s| && IsNameChar(s[i]) then NameEnd(s, i + 1) else i
  }

  /** A run of digits ended by a non-digit is exactly what DigitsEnd measures. */
  lemma DigitsEndOfRun(s: string, i: nat, j: nat)
    requires i <= j < |s|
    requires AllDigits(s[i..j]) && !IsDigit(s[j])
    ensures DigitsEnd(s, i) == j
    decreases j - i
  {
    if i < j {
      assert s[i] == s[i..j][0];
      assert s[i + 1..j] == s[i..j][1..];
      DigitsEndOfRun(s, i + 1, j);
    }
  }

  /** A run of name characters ended by another character is exactly what NameEnd measures. */
  lemma NameEndOfRun(s: string, i: nat, j: nat)
    requires i <= j < |s|
    requires (forall k :: i <= k < j ==> IsNameChar(s[k])) && !IsNameChar(s[j])
    ensures NameEnd(s, i) == j
    decreases j - i
  {
    if i < j {
      NameEndOfRun(s, i + 1, j);
    }
  }

  /** A record written as prefix, numeral, suffix (the suffix not starting with a digit) splits back into its parts. */
  lemma RecordAt(s: string, p: nat, prefix: string, ds: string, suffix: string)
    requires AllDigits(ds) && suffix != [] && !IsDigit(suffix[0])
    requires HasAt(s, p, prefix + ds + suffix)
    ensures HasAt(s, p, prefix)
    ensures p + |prefix| + |ds| <= |s|
    ensures s[p + |prefix|..p + |prefix| + |ds|] == ds
    ensures DigitsEnd(s, p + |prefix|) == p + |prefix| + |ds|
    ensures HasAt(s, p + |prefix| + |ds|, suffix)
  {
    var w := prefix + ds + suffix;
    var a := p + |prefix|;
    var e := a + |ds|;
    assert forall k :: 0 <= k < |w| ==> s[p + k] == w[k];
    assert forall k :: 0 <= k < |prefix| ==> w[k] == prefix[k];
    assert forall k :: 0 <= k < |ds| ==> w[|prefix| + k] == ds[k];
    assert forall k :: 0 <= k < |suffix| ==> w[|prefix| + |ds| + k] == suffix[k];
    assert s[p..a] == prefix;
    assert s[a..e] == ds;
    assert s[e..e + |suffix|] == suffix;
    assert s[e] == suffix[0];
    DigitsEndOfRun(s, a, e);
  }

  /** A word found at p ends before any later character the word does not hold. */
  lemma WordEndsBefore(s: string, p: nat, w: string, k: nat)
    requires HasAt(s, p, w) && p <= k < |s| && s[k] !in w
    ensures p + |w| <= k
  {
    assert forall i :: p <= i < p + |w| ==> s[i] == w[i - p];
  }

  /** A run of digits from i ends at or before any later non-digit. */
  lemma DigitsEndBefore(s: string, i: nat, k: nat)
    requires i <= k < |s| && !IsDigit(s[k])
    ensures DigitsEnd(s, i) <= k
  {
    var e := DigitsEnd(s, i);
    assert forall j :: i <= j < e ==> s[j] == s[i..e][j - i];
  }

  /** What follows a word found at p starts right after it. */
  lemma HasAtSkip(s: string, p: nat, w: string, rest: string)
    requires HasAt(s, p, w + rest)
    ensures HasAt(s, p + |w|, rest)
  {
    assert s[p + |w|..p + |w| + |rest|] == s[p..p + |w| + |rest|][|w|..];
  }

  /** A word found at p starts with its first character there; the rest of it follows. */
  lemma HasAtCons(s: string, p: nat, c: char, rest: string)
    requires HasAt(s, p, [c] + rest)
    ensures p < |s| && s[p] == c && HasAt(s, p + 1, rest)
  {
    assert s[p] == s[p..p + 1 + |rest|][0];
    assert s[p + 1..p + 1 + |rest|] == s[p..p + 1 + |rest|][1..];
  }

  /** Python's `s.startswith(prefix)` at offset p. */
  predicate HasAt(s: string, p: nat, prefix: string)
  {
    p + |prefix| <= |s| && s[p..p + |prefix|] == prefix
  }
}
