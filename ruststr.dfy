/**
 * The pieces of Rust's `str` library that the program relies on: `split` on a
 * character, `join`, `trim`, `find`, `contains` and `parse::<i32>`, written as
 * functions over `seq<char>` together with the facts the rest of the model
 * needs about them.
 */
module RustStr {
  import opened Wrappers

  // ---------------------------------------------------------------------------
  // Whitespace and trim
  // ---------------------------------------------------------------------------

  /** Rust's `char::is_whitespace`: the characters with the Unicode White_Space property. */
  predicate IsWhitespace(c: char) {
    ('\t' <= c <= '\r') || c == ' ' || c == '\U{85}' || c == '\U{A0}' || c == '\U{1680}'
    || ('\U{2000}' <= c <= '\U{200A}') || c == '\U{2028}' || c == '\U{2029}'
    || c == '\U{202F}' || c == '\U{205F}' || c == '\U{3000}'
  }

  predicate AllWhitespace(s: string) {
    forall i :: 0 <= i < |s| ==> IsWhitespace(s[i])
  }

  /** True when `s` neither starts nor ends with whitespace. */
  predicate Trimmed(s: string) {
    s == [] || (!IsWhitespace(s[0]) && !IsWhitespace(s[|s| - 1]))
  }

  /** The index of the first character at or after `i` that is not whitespace, or `|s|`. */
  function SkipWhitespace(s: string, i: nat): (n: nat)
    requires i <= |s|
    ensures i <= n <= |s|
    ensures forall k :: i <= k < n ==> IsWhitespace(s[k])
    ensures n < |s| ==> !IsWhitespace(s[n])
    decreases |s| - i
  {
    if i < |s| && IsWhitespace(s[i]) then SkipWhitespace(s, i + 1) else i
  }

  /** One past the last character before `j` that is not whitespace, or 0. */
  function SkipWhitespaceBack(s: string, j: nat): (n: nat)
    requires j <= |s|
    ensures n <= j
    ensures forall k :: n <= k < j ==> IsWhitespace(s[k])
    ensures n > 0 ==> !IsWhitespace(s[n - 1])
  {
    if j > 0 && IsWhitespace(s[j - 1]) then SkipWhitespaceBack(s, j - 1) else j
  }

  /** Where the text `trim` keeps starts. */
  function TrimIndex(s: string): nat
    ensures TrimIndex(s) <= |s|
  {
    SkipWhitespace(s, 0)
  }

  /** `str::trim`: the middle part of `s` left after whitespace is stripped from both ends. */
  function Trim(s: string): (r: string)
    ensures Trimmed(r)
  {
    var i := TrimIndex(s);
    if i == |s| then ""
    else
      var j := SkipWhitespaceBack(s, |s|);
      assert i < j by {
        if j <= i {
          assert false;
        }
      }
      s[i..j]
  }

  /** What `trim` drops is whitespace, and what it keeps is one slice of `s`. */
  lemma TrimSlice(s: string)
    ensures var i := TrimIndex(s); var r := Trim(s);
      && i + |r| <= |s| && s[i..i + |r|] == r
      && (forall k :: 0 <= k < i ==> IsWhitespace(s[k]))
      && (forall k :: i + |r| <= k < |s| ==> IsWhitespace(s[k]))
  {
    if TrimIndex(s) < |s| {
      var j := SkipWhitespaceBack(s, |s|);
      assert forall k :: j <= k < |s| ==> IsWhitespace(s[k]);
    }
  }

  /**
   * `trim` is characterised by its result: surrounding a trimmed text with
   * whitespace on either side and trimming gives that text back.
   */
  lemma TrimExact(w1: string, t: string, w2: string)
    requires AllWhitespace(w1) && AllWhitespace(w2) && Trimmed(t)
    ensures Trim(w1 + t + w2) == t
  {
    var s := w1 + t + w2;
    var i := TrimIndex(s);
    if t == [] {
      if i < |s| {
        assert false;
      }
    } else {
      assert s[|w1|] == t[0];
      if i < |w1| {
        assert false;
      }
      assert i == |w1|;
      var j := SkipWhitespaceBack(s, |s|);
      assert s[|w1| + |t| - 1] == t[|t| - 1];
      if j > |w1| + |t| {
        assert false;
      }
      assert j == |w1| + |t|;
      assert s[i..j] == t;
    }
  }

  /** `trim` keeps everything from the first to the last non-whitespace character. */
  lemma TrimKeeps(s: string, a: nat, b: nat)
    requires a <= b < |s| && !IsWhitespace(s[a]) && !IsWhitespace(s[b])
    ensures var i := TrimIndex(s); var r := Trim(s);
      && i <= a && b < i + |r|
      && forall k :: a <= k <= b ==> r[k - i] == s[k]
  {
    TrimSlice(s);
    var i := TrimIndex(s);
    var r := Trim(s);
    if a < i || i + |r| <= b {
      assert false;
    }
    forall k | a <= k <= b
      ensures r[k - i] == s[k]
    {
      assert s[i..i + |r|][k - i] == s[k];
    }
  }

  // ---------------------------------------------------------------------------
  // split and join on a separator character
  // ---------------------------------------------------------------------------

  /**
   * `str::split(sep)`: the pieces between occurrences of `sep`. There is always
   * one more piece than there are separators, so the empty string gives [""].
   */
  function Split(s: string, sep: char): (parts: seq<string>)
    ensures |parts| >= 1
    ensures forall i :: 0 <= i < |parts| ==> sep !in parts[i]
  {
    if s == [] then [""]
    else
      assert s == [s[0]] + s[1..];
      var rest := Split(s[1..], sep);
      if s[0] == sep then [""] + rest
      else [[s[0]] + rest[0]] + rest[1..]
  }

  /** `[String]::join(sep)`: the parts with `sep` between neighbours. */
  function Join(parts: seq<string>, sep: char): string {
    if |parts| == 0 then ""
    else if |parts| == 1 then parts[0]
    else parts[0] + [sep] + Join(parts[1..], sep)
  }

  /** Joining the pieces of a split gives the original text back. */
  lemma {:induction false} SplitJoin(s: string, sep: char)
    ensures Join(Split(s, sep), sep) == s
  {
    if s != [] {
      SplitJoin(s[1..], sep);
    }
  }

  lemma {:induction false} SplitNoSeparator(p: string, sep: char)
    requires sep !in p
    ensures Split(p, sep) == [p]
  {
    if p != [] {
      assert p[0] in p && [p[0]] + p[1..] == p;
      SplitNoSeparator(p[1..], sep);
    }
  }

  lemma {:induction false} SplitAtFirstSeparator(p: string, t: string, sep: char)
    requires sep !in p
    ensures Split(p + [sep] + t, sep) == [p] + Split(t, sep)
  {
    if p == [] {
      assert p + [sep] + t == [sep] + t;
      assert ([sep] + t)[1..] == t;
    } else {
      assert p[0] in p && [p[0]] + p[1..] == p;
      assert (p + [sep] + t)[1..] == p[1..] + [sep] + t;
      SplitAtFirstSeparator(p[1..], t, sep);
    }
  }

  /** Splitting a join of separator-free parts gives exactly those parts back. */
  lemma {:induction false} JoinSplit(parts: seq<string>, sep: char)
    requires |parts| >= 1
    requires forall i :: 0 <= i < |parts| ==> sep !in parts[i]
    ensures Split(Join(parts, sep), sep) == parts
  {
    if |parts| == 1 {
      SplitNoSeparator(parts[0], sep);
    } else {
      JoinSplit(parts[1..], sep);
      SplitAtFirstSeparator(parts[0], Join(parts[1..], sep), sep);
    }
  }

  /** `[String]::join("")` (also `concat`): the parts one after another. */
  function Concat(parts: seq<string>): string {
    if parts == [] then "" else Concat(parts[..|parts| - 1]) + parts[|parts| - 1]
  }

  lemma {:induction false} ConcatAppend(a: seq<string>, b: seq<string>)
    ensures Concat(a + b) == Concat(a) + Concat(b)
  {
    if b != [] {
      assert (a + b)[..|a + b| - 1] == a + b[..|b| - 1];
      ConcatAppend(a, b[..|b| - 1]);
    } else {
      assert a + b == a;
    }
  }

  // ---------------------------------------------------------------------------
  // find
  // ---------------------------------------------------------------------------

  /** `pat` occurs in `s` starting at index `i`. */
  predicate MatchAt(s: string, pat: string, i: nat) {
    i + |pat| <= |s| && s[i..i + |pat|] == pat
  }

  /** `str::find`: the index of the first occurrence of `pat` in `s`, if any. */
  function Find(s: string, pat: string): (r: Option<nat>)
    ensures r.Some? ==> MatchAt(s, pat, r.value)
    ensures r.Some? ==> forall j: nat :: j < r.value ==> !MatchAt(s, pat, j)
    ensures r.None? ==> forall j: nat :: !MatchAt(s, pat, j)
  {
    FindFrom(s, pat, 0)
  }

  function FindFrom(s: string, pat: string, k: nat): (r: Option<nat>)
    requires forall j: nat :: j < k ==> !MatchAt(s, pat, j)
    ensures r.Some? ==> k <= r.value && MatchAt(s, pat, r.value)
    ensures r.Some? ==> forall j: nat :: j < r.value ==> !MatchAt(s, pat, j)
    ensures r.None? ==> forall j: nat :: !MatchAt(s, pat, j)
    decreases |s| - k
  {
    if k + |pat| > |s| then None
    else if s[k..k + |pat|] == pat then Some(k)
    else FindFrom(s, pat, k + 1)
  }

  // ---------------------------------------------------------------------------
  // parse::<i32> and its inverse, decimal rendering
  // ---------------------------------------------------------------------------

  const I32Min: int := -0x8000_0000
  const I32Max: int := 0x7FFF_FFFF

  predicate IsI32(n: int) {
    I32Min <= n <= I32Max
  }

  predicate IsDigit(c: char) {
    '0' <= c <= '9'
  }

  predicate AllDigits(s: string) {
    forall i :: 0 <= i < |s| ==> IsDigit(s[i])
  }

  function DigitValue(c: char): nat
    requires IsDigit(c)
  {
    c as int - '0' as int
  }

  /** The value of a run of decimal digits, most significant first. */
  function DigitsValue(s: string): nat
    requires AllDigits(s)
  {
    if s == [] then 0 else 10 * DigitsValue(s[..|s| - 1]) + DigitValue(s[|s| - 1])
  }

  /** The text after an optional leading '+' or '-'. */
  function Magnitude(s: string): string {
    if |s| > 0 && (s[0] == '+' || s[0] == '-') then s[1..] else s
  }

  /** The syntax `i32::from_str` accepts: an optional sign and at least one digit. */
  predicate IsIntegerText(s: string) {
    |Magnitude(s)| > 0 && AllDigits(Magnitude(s))
  }

  function IntegerTextValue(s: string): int
    requires IsIntegerText(s)
  {
    if s[0] == '-' then -(DigitsValue(Magnitude(s)) as int) else DigitsValue(Magnitude(s))
  }

  /**
   * `str::parse::<i32>`: succeeds exactly on integer syntax whose value lies in
   * the 32-bit signed range; no whitespace is accepted anywhere.
   */
  function ParseI32(s: string): Option<int> {
    if IsIntegerText(s) && IsI32(IntegerTextValue(s)) then Some(IntegerTextValue(s)) else None
  }

  function DigitChar(d: nat): (c: char)
    requires d < 10
    ensures IsDigit(c) && DigitValue(c) == d
  {
    ('0' as int + d) as char
  }

  /** Decimal rendering of a natural number, without leading zeros. */
  function ShowNat(n: nat): (s: string)
    ensures |s| > 0 && AllDigits(s)
  {
    if n < 10 then [DigitChar(n)] else ShowNat(n / 10) + [DigitChar(n % 10)]
  }

  /** Rust's `Display` for an integer: a '-' for negatives, then the digits. */
  function ShowInt(n: int): string {
    if n < 0 then "-" + ShowNat(-n) else ShowNat(n)
  }

  lemma {:induction false} ShowNatValue(n: nat)
    ensures DigitsValue(ShowNat(n)) == n
  {
    if n >= 10 {
      var s := ShowNat(n);
      assert s[..|s| - 1] == ShowNat(n / 10);
      ShowNatValue(n / 10);
    }
  }

  /** Parsing the rendering of an integer gives it back exactly when it fits in an i32. */
  lemma ParseShowInt(n: int)
    ensures ParseI32(ShowInt(n)) == if IsI32(n) then Some(n) else None
  {
    var s := ShowInt(n);
    if n < 0 {
      assert s[1..] == ShowNat(-n);
      ShowNatValue(-n);
    } else {
      assert IsDigit(s[0]);
      ShowNatValue(n);
    }
    assert IsIntegerText(s) && IntegerTextValue(s) == n;
  }

  /** A rendering never contains a comma, so it survives a split on ','. */
  lemma ShowIntHasNoComma(n: int)
    ensures ',' !in ShowInt(n)
  {
    var s := ShowInt(n);
    var d := ShowNat(if n < 0 then -n else n);
    assert n < 0 ==> s == "-" + d;
    assert forall i :: 0 <= i < |s| ==> s[i] == '-' || IsDigit(s[i]);
  }
}
