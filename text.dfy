/**
 * The pieces of Rust's `str` and formatting machinery the two line formats are
 * built from: whitespace trimming, pattern search and splitting, decimal
 * printing and `u64` parsing, width padding and UTF-16 encoding.
 */
module Text {
  import opened Wrappers

  /** One more than `u64::MAX`. */
  const U64_LIMIT: nat := 0x1_0000_0000_0000_0000

  /** A Rust `u64`. */
  type U64 = n: nat | n < U64_LIMIT

  /** A UTF-16 code unit, as produced by `encode_wide`. */
  type CodeUnit = n: int | 0 <= n < 0x1_0000

  // ---------------------------------------------------------------------------
  // Trimming
  // ---------------------------------------------------------------------------

  /** The Unicode White_Space property, which Rust's `char::is_whitespace` tests. */
  predicate IsWhitespace(c: char) {
    var n := c as int;
    (0x09 <= n <= 0x0D) || n == 0x20 || n == 0x85 || n == 0xA0 || n == 0x1680
    || (0x2000 <= n <= 0x200A) || n == 0x2028 || n == 0x2029 || n == 0x202F
    || n == 0x205F || n == 0x3000
  }

  predicate AllWhitespace(s: string) {
    forall i :: 0 <= i < |s| ==> IsWhitespace(s[i])
  }

  /** `str::trim_start`: the suffix left after dropping leading whitespace. */
  function TrimStart(s: string): (r: string)
    ensures |r| <= |s| && r == s[|s| - |r|..]
    ensures AllWhitespace(s[..|s| - |r|])
    ensures r == [] || !IsWhitespace(r[0])
  {
    if s != [] && IsWhitespace(s[0]) then
      var r := TrimStart(s[1..]);
      TrimStartStep(s, r);
      r
    else s
  }

  /** Dropping one leading whitespace character keeps what `TrimStart` promises of the rest. */
  lemma TrimStartStep(s: string, r: string)
    requires s != [] && IsWhitespace(s[0])
    requires |r| <= |s| - 1 && r == s[1..][|s| - 1 - |r|..]
    requires AllWhitespace(s[1..][..|s| - 1 - |r|])
    ensures r == s[|s| - |r|..]
    ensures AllWhitespace(s[..|s| - |r|])
  {
    var w := s[..|s| - |r|];
    assert s[1..][..|s| - 1 - |r|] == w[1..];
    forall i | 0 <= i < |w| ensures IsWhitespace(w[i]) {
      if i > 0 {
        assert w[i] == w[1..][i - 1];
      }
    }
  }

  /** `str::trim_end`: the prefix left after dropping trailing whitespace. */
  function TrimEnd(s: string): (r: string)
    ensures |r| <= |s| && r == s[..|r|]
    ensures AllWhitespace(s[|r|..])
    ensures r == [] || !IsWhitespace(r[|r| - 1])
  {
    if s != [] && IsWhitespace(s[|s| - 1]) then
      var r := TrimEnd(s[..|s| - 1]);
      assert s[|r|..] == s[..|s| - 1][|r|..] + [s[|s| - 1]];
      assert s[..|s| - 1][..|r|] == s[..|r|];
      r
    else s
  }

  /** `str::trim`. */
  function Trim(s: string): string {
    TrimEnd(TrimStart(s))
  }

  // ---------------------------------------------------------------------------
  // Pattern search and splitting
  // ---------------------------------------------------------------------------

  predicate OccursAt(s: string, pat: string, i: nat) {
    i + |pat| <= |s| && s[i..i + |pat|] == pat
  }

  /** The leftmost occurrence of `pat` in `s` at or after position `i`. */
  function FindFrom(s: string, pat: string, i: nat): (r: Option<nat>)
    requires i <= |s|
    ensures r.Some? ==> i <= r.value && OccursAt(s, pat, r.value)
    ensures r.Some? ==> forall j :: i <= j < r.value ==> !OccursAt(s, pat, j)
    ensures r.None? ==> forall j :: i <= j ==> !OccursAt(s, pat, j)
    decreases |s| - i
  {
    if i + |pat| > |s| then None
    else if s[i..i + |pat|] == pat then Some(i)
    else FindFrom(s, pat, i + 1)
  }

  /** The leftmost occurrence of `pat` in `s`, as Rust's `StrSearcher` finds it. */
  function Find(s: string, pat: string): Option<nat> {
    FindFrom(s, pat, 0)
  }

  predicate Contains(s: string, pat: string) {
    Find(s, pat).Some?
  }

  /**
   * The text before and after the leftmost occurrence of `pat`: the first
   * piece and the remainder of `split`/`splitn` (Rust resumes the search
   * after a match, so later pieces come from splitting the remainder).
   */
  function SplitOnce(s: string, pat: string): (r: Option<(string, string)>)
    requires pat != []
    ensures r.Some? <==> Contains(s, pat)
    ensures r.Some? ==> s == r.value.0 + pat + r.value.1 && !Contains(r.value.0, pat)
    ensures r.Some? ==> Find(s, pat) == Some(|r.value.0|)
  {
    match Find(s, pat)
    case None => None
    case Some(p) =>
      var a, b := s[..p], s[p + |pat|..];
      assert s == a + pat + b;
      NoOccurrenceBefore(s, pat, p);
      Some((a, b))
  }

  /** The first piece that `split(pat)` yields: everything before the first match. */
  function FirstPiece(s: string, pat: string): (r: string)
    requires pat != []
    ensures |r| <= |s| && r == s[..|r|] && !Contains(r, pat)
    ensures !Contains(s, pat) ==> r == s
    ensures Contains(s, pat) ==> OccursAt(s, pat, |r|) && Find(s, pat) == Some(|r|)
  {
    match SplitOnce(s, pat)
    case Some((a, _)) => a
    case None => s
  }

  /** A match that ends inside a prefix is a match in the prefix, and the converse. */
  lemma OccursInPrefix(s: string, pat: string, p: nat, q: nat)
    requires q + |pat| <= p <= |s|
    ensures OccursAt(s[..p], pat, q) == OccursAt(s, pat, q)
  {
    assert s[..p][q..q + |pat|] == s[q..q + |pat|];
  }

  /** A match in `b` is a match in `a + b`, shifted by `|a|`, and the converse. */
  lemma OccursInSuffix(a: string, b: string, pat: string, j: nat)
    ensures OccursAt(a + b, pat, |a| + j) == OccursAt(b, pat, j)
  {
    if j + |pat| <= |b| {
      assert (a + b)[|a| + j..|a| + j + |pat|] == b[j..j + |pat|];
    }
  }

  /** A match starts with the first character of the pattern. */
  lemma FirstCharOfMatch(s: string, pat: string, j: nat)
    requires pat != [] && OccursAt(s, pat, j)
    ensures s[j] == pat[0]
  {
    assert s[j..j + |pat|][0] == pat[0];
  }

  /** Nothing before the leftmost occurrence contains the pattern. */
  lemma NoOccurrenceBefore(s: string, pat: string, p: nat)
    requires pat != [] && Find(s, pat) == Some(p)
    ensures !Contains(s[..p], pat)
  {
    if Contains(s[..p], pat) {
      OccursInPrefix(s, pat, p, Find(s[..p], pat).value);
    }
  }

  lemma FindIs(s: string, pat: string, p: nat)
    requires OccursAt(s, pat, p)
    requires forall j :: 0 <= j < p ==> !OccursAt(s, pat, j)
    ensures Find(s, pat) == Some(p)
  {
  }

  lemma FindNone(s: string, pat: string)
    requires forall j :: 0 <= j ==> !OccursAt(s, pat, j)
    ensures Find(s, pat) == None
  {
  }

  /** A one-character pattern occurs exactly where that character does. */
  lemma ContainsChar(s: string, c: char)
    ensures Contains(s, [c]) <==> c in s
  {
    if c in s {
      var i :| 0 <= i < |s| && s[i] == c;
      assert OccursAt(s, [c], i);
    }
    if Contains(s, [c]) {
      var i := Find(s, [c]).value;
      assert s[i..i + 1][0] == s[i];
    }
  }

  /** Splitting at a character cuts at its first occurrence. */
  lemma SplitAtChar(h: string, c: char, rest: string)
    requires c !in h
    ensures SplitOnce(h + [c] + rest, [c]) == Some((h, rest))
  {
    var s := h + [c] + rest;
    assert s[|h|..|h| + 1] == [c];
    forall j | 0 <= j < |h| ensures !OccursAt(s, [c], j) {
      assert s[j] == h[j];
    }
    FindIs(s, [c], |h|);
    assert s[..|h|] == h && s[|h| + 1..] == rest;
  }

  /** A match of a pattern starting with `first`, `second` needs `second` right after `first`. */
  lemma SecondCharOfMatch(s: string, pat: string, j: nat)
    requires |pat| >= 2 && OccursAt(s, pat, j)
    ensures s[j] == pat[0] && s[j + 1] == pat[1]
  {
    assert s[j..j + |pat|][0] == pat[0];
    assert s[j..j + |pat|][1] == pat[1];
  }

  /** The first two characters of any match, for a position where a match may or may not start. */
  lemma MatchStart(s: string, pat: string, j: nat)
    requires |pat| >= 2 && j + 2 <= |s|
    ensures OccursAt(s, pat, j) ==> s[j] == pat[0] && s[j + 1] == pat[1]
  {
    if OccursAt(s, pat, j) {
      SecondCharOfMatch(s, pat, j);
    }
  }

  /** A pattern that occurs nowhere in `b` and whose first character is absent from `a`
      occurs in `a + b` only inside `b`. */
  lemma NotInConcat(a: string, b: string, pat: string)
    requires pat != [] && pat[0] !in a && !Contains(b, pat)
    ensures !Contains(a + b, pat)
  {
    var s := a + b;
    if Contains(s, pat) {
      var j := Find(s, pat).value;
      FirstCharOfMatch(s, pat, j);
      if j >= |a| {
        OccursInSuffix(a, b, pat, j - |a|);
      }
    }
  }

  /** A match inside a suffix is a match in the whole string. */
  lemma NotInSuffix(a: string, b: string, pat: string)
    requires !Contains(a + b, pat)
    ensures !Contains(b, pat)
  {
    if Contains(b, pat) {
      OccursInSuffix(a, b, pat, Find(b, pat).value);
    }
  }

  // ---------------------------------------------------------------------------
  // Decimal numbers
  // ---------------------------------------------------------------------------

  predicate IsDigit(c: char) {
    '0' <= c <= '9'
  }

  predicate AllDigits(s: string) {
    forall i :: 0 <= i < |s| ==> IsDigit(s[i])
  }

  function DigitChar(d: nat): (c: char)
    requires d < 10
    ensures IsDigit(c) && c as int - '0' as int == d
  {
    ('0' as int + d) as char
  }

  /** The number a string of decimal digits denotes. */
  function DigitsValue(s: string): nat
    requires AllDigits(s)
  {
    if s == [] then 0
    else DigitsValue(s[..|s| - 1]) * 10 + (s[|s| - 1] as int - '0' as int)
  }

  /** Rust's `Display` for an unsigned integer: decimal digits, no leading zero. */
  function Dec(n: nat): (r: string)
    ensures r != [] && AllDigits(r) && DigitsValue(r) == n
    ensures r[0] == '0' ==> r == "0"
    decreases n
  {
    if n < 10 then [DigitChar(n)]
    else
      var r := Dec(n / 10) + [DigitChar(n % 10)];
      assert r[..|r| - 1] == Dec(n / 10);
      r
  }

  /**
   * `str::parse::<u64>`: an optional `+`, then one or more ASCII digits whose
   * value fits in 64 bits; anything else (the empty string, a lone `+`, a `-`,
   * a space, an overflowing value) is an error.
   */
  function ParseU64(s: string): Option<U64> {
    var digits := if s != [] && s[0] == '+' then s[1..] else s;
    if digits != [] && AllDigits(digits) && DigitsValue(digits) < U64_LIMIT then
      Some(DigitsValue(digits))
    else None
  }

  /** The digits `Dec` prints are read back by `ParseU64`, for every `u64`. */
  lemma ParseDec(n: U64)
    ensures ParseU64(Dec(n)) == Some(n)
  {
  }

  /** A leading `+` is accepted by Rust's unsigned parser. */
  lemma ParsePlusDec(n: U64)
    ensures ParseU64("+" + Dec(n)) == Some(n)
  {
    assert ("+" + Dec(n))[1..] == Dec(n);
  }

  /** Leading spaces before a number vanish under `Trim`. */
  lemma TrimPaddedDigits(pad: string, d: string)
    requires forall i :: 0 <= i < |pad| ==> pad[i] == ' '
    requires d != [] && AllDigits(d)
    ensures Trim(pad + d) == d
  {
    TrimStartPadded(pad, d);
    assert !IsWhitespace(d[|d| - 1]);
  }

  lemma {:induction false} TrimStartPadded(pad: string, d: string)
    requires forall i :: 0 <= i < |pad| ==> pad[i] == ' '
    requires d != [] && !IsWhitespace(d[0])
    ensures TrimStart(pad + d) == d
  {
    if pad == [] {
      assert pad + d == d;
    } else {
      assert (pad + d)[1..] == pad[1..] + d;
      TrimStartPadded(pad[1..], d);
    }
  }

  /** `format!("{:width$}", s)` for a number: right-aligned, padded with spaces. */
  function PadLeft(s: string, width: nat): string {
    if |s| < width then Spaces(width - |s|) + s else s
  }

  /** `n` spaces. */
  function Spaces(n: nat): string {
    if n == 0 then [] else Spaces(n - 1) + " "
  }

  lemma {:induction false} SpacesShape(n: nat)
    ensures |Spaces(n)| == n && forall i :: 0 <= i < n ==> Spaces(n)[i] == ' '
  {
    if n > 0 {
      SpacesShape(n - 1);
    }
  }

  /** The padded text is `s` after as many spaces as it takes to reach `width`, if it is shorter. */
  lemma PadLeftShape(s: string, width: nat)
    ensures PadLeft(s, width) == Spaces(if |s| < width then width - |s| else 0) + s
    ensures |PadLeft(s, width)| == if |s| < width then width else |s|
  {
    if |s| < width {
      SpacesShape(width - |s|);
    } else {
      assert Spaces(0) + s == s;
    }
  }

  // ---------------------------------------------------------------------------
  // UTF-16
  // ---------------------------------------------------------------------------

  /** The UTF-16 code units of one character (`char::encode_utf16`). */
  function CharUnits(c: char): (r: seq<CodeUnit>)
    ensures c as int < 0x1_0000 ==> r == [c as int]
    ensures c as int >= 0x1_0000 ==>
      |r| == 2 && 0xD800 <= r[0] < 0xDC00 && 0xDC00 <= r[1] < 0xE000
      && (r[0] as int - 0xD800) * 0x400 + (r[1] as int - 0xDC00) + 0x1_0000 == c as int
  {
    var n := c as int;
    if n < 0x1_0000 then [n]
    else [0xD800 + (n - 0x1_0000) / 0x400, 0xDC00 + (n - 0x1_0000) % 0x400]
  }

  /** The UTF-16 code units of a string, as `OsStr::encode_wide` yields them. */
  function Utf16(s: string): seq<CodeUnit> {
    if s == [] then [] else CharUnits(s[0]) + Utf16(s[1..])
  }

  /** Every character gives at least one unit; a string without supplementary characters gives exactly its own code points. */
  lemma {:induction false} Utf16Shape(s: string)
    ensures |Utf16(s)| >= |s|
    ensures (forall i :: 0 <= i < |s| ==> s[i] as int < 0x1_0000) ==>
      |Utf16(s)| == |s| && forall i :: 0 <= i < |s| ==> Utf16(s)[i] == s[i] as int
    decreases |s|
  {
    if s != [] {
      Utf16Shape(s[1..]);
      if forall i :: 0 <= i < |s| ==> s[i] as int < 0x1_0000 {
        assert forall i :: 0 <= i < |s| - 1 ==> s[1..][i] == s[i + 1];
        forall i | 0 <= i < |s| ensures Utf16(s)[i] == s[i] as int {
          if i > 0 {
            assert Utf16(s)[i] == Utf16(s[1..])[i - 1];
          }
        }
      }
    }
  }
}
