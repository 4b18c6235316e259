/** The string operations the deleter applies to operator answers, error
    messages and post URIs: Python's `str.strip()`, `str.lower()`, the `in`
    substring test, `uri.split('/')[-1]` and `int(str)`. */
module Text {
  import opened Common

  // ---------------------------------------------------------------------
  // Whitespace and str.strip()
  // ---------------------------------------------------------------------

  /** Python's `str.isspace()` for a single character: the ASCII controls
      TAB..CR and FS..US, the space, NEL, NBSP and the Unicode space
      separators and line/paragraph separators. */
  predicate IsSpace(c: char) {
    || c == ' '
    || ('\t' <= c <= '\r')
    || ('\U{1c}' <= c <= '\U{1f}')
    || c == '\U{85}'
    || c == '\U{a0}'
    || c == '\U{1680}'
    || ('\U{2000}' <= c <= '\U{200a}')
    || c == '\U{2028}'
    || c == '\U{2029}'
    || c == '\U{202f}'
    || c == '\U{205f}'
    || c == '\U{3000}'
  }

  /** A string made of whitespace only, the empty string included. */
  predicate Blank(s: string) {
    forall i :: 0 <= i < |s| ==> IsSpace(s[i])
  }

  /** A string that `strip()` leaves as it is. */
  predicate Trimmed(s: string) {
    |s| == 0 || (!IsSpace(s[0]) && !IsSpace(s[|s| - 1]))
  }

  /** `r` sits at offset `k` of `s` with nothing but whitespace around it. */
  predicate CoreAt(s: string, r: string, k: int) {
    && 0 <= k <= k + |r| <= |s|
    && r == s[k..k + |r|]
    && (forall i :: 0 <= i < k ==> IsSpace(s[i]))
    && (forall i :: k + |r| <= i < |s| ==> IsSpace(s[i]))
  }

  /** Index of the first non-whitespace character at or after `i`. */
  function SkipSpace(s: string, i: nat): (j: nat)
    requires i <= |s|
    ensures i <= j <= |s|
    ensures forall k :: i <= k < j ==> IsSpace(s[k])
    ensures j < |s| ==> !IsSpace(s[j])
    decreases |s| - i
  {
    if i < |s| && IsSpace(s[i]) then SkipSpace(s, i + 1) else i
  }

  /** End of the text before the trailing whitespace that precedes `j`,
      not going below `lo`. */
  function SkipSpaceBack(s: string, lo: nat, j: nat): (h: nat)
    requires lo <= j <= |s|
    ensures lo <= h <= j
    ensures forall k :: h <= k < j ==> IsSpace(s[k])
    ensures h > lo ==> !IsSpace(s[h - 1])
    decreases j
  {
    if j > lo && IsSpace(s[j - 1]) then SkipSpaceBack(s, lo, j - 1) else j
  }

  /** `s.strip()`: the input with its leading and trailing whitespace cut
      off, and nothing else changed. */
  function Strip(s: string): (r: string)
    ensures Trimmed(r)
    ensures exists k :: CoreAt(s, r, k)
  {
    var lo := SkipSpace(s, 0);
    var hi := SkipSpaceBack(s, lo, |s|);
    assert CoreAt(s, s[lo..hi], lo);
    s[lo..hi]
  }

  /** Whatever trimmed text sits between two runs of whitespace is what
      `strip()` returns. */
  lemma StripOfCore(s: string, r: string, k: int)
    requires CoreAt(s, r, k) && Trimmed(r)
    ensures Strip(s) == r
  {
    var lo := SkipSpace(s, 0);
    var hi := SkipSpaceBack(s, lo, |s|);
    if |r| > 0 {
      assert s[k] == r[0];
      assert lo == k;
      assert s[k + |r| - 1] == r[|r| - 1];
      assert hi == k + |r|;
    } else {
      assert lo == |s|;
    }
  }

  lemma CoreAfterPrefix(a: string, s: string, r: string, k: int)
    requires Blank(a)
    requires CoreAt(s, r, k)
    ensures CoreAt(a + s, r, |a| + k)
  {
    var x := a + s;
    forall i | 0 <= i < |r|
      ensures x[|a| + k + i] == r[i]
    {
      assert s[k + i] == r[i];
    }
    assert x[|a| + k..|a| + k + |r|] == r;
    forall i | 0 <= i < |a| + k
      ensures IsSpace(x[i])
    {
      if i < |a| { assert x[i] == a[i]; } else { assert x[i] == s[i - |a|]; }
    }
    forall i | |a| + k + |r| <= i < |x|
      ensures IsSpace(x[i])
    {
      assert x[i] == s[i - |a|];
    }
  }

  lemma CoreBeforeSuffix(s: string, b: string, r: string, k: int)
    requires Blank(b)
    requires CoreAt(s, r, k)
    ensures CoreAt(s + b, r, k)
  {
    var x := s + b;
    assert x[k..k + |r|] == s[k..k + |r|];
    forall i | 0 <= i < k
      ensures IsSpace(x[i])
    {
      assert x[i] == s[i];
    }
    forall i | k + |r| <= i < |x|
      ensures IsSpace(x[i])
    {
      if i < |s| { assert x[i] == s[i]; } else { assert x[i] == b[i - |s|]; }
    }
  }

  /** Padding an answer with extra whitespace does not change what
      `strip()` returns. */
  lemma StripIgnoresPadding(a: string, s: string, b: string)
    requires Blank(a) && Blank(b)
    ensures Strip(a + s + b) == Strip(s)
  {
    var r := Strip(s);
    var k :| CoreAt(s, r, k);
    CoreAfterPrefix(a, s, r, k);
    CoreBeforeSuffix(a + s, b, r, |a| + k);
    StripOfCore(a + s + b, r, |a| + k);
  }

  lemma StripIdempotent(s: string)
    ensures Strip(Strip(s)) == Strip(s)
  {
    var r := Strip(s);
    assert CoreAt(r, r, 0);
    StripOfCore(r, r, 0);
  }

  // ---------------------------------------------------------------------
  // Case folding: str.lower()
  // ---------------------------------------------------------------------

  predicate IsUpper(c: char) {
    'A' <= c <= 'Z'
  }

  function LowerChar(c: char): (d: char)
    ensures !IsUpper(d)
    ensures IsUpper(c) ==> d as int == c as int + 32
    ensures !IsUpper(c) ==> d == c
  {
    if IsUpper(c) then (c as int + 32) as char else c
  }

  /** `s.lower()` on the ASCII letters: every upper-case letter is replaced
      by its lower-case partner and every other character kept. */
  function Lower(s: string): (r: string)
    ensures |r| == |s|
    ensures forall i :: 0 <= i < |s| ==> r[i] == LowerChar(s[i])
  {
    seq(|s|, i requires 0 <= i < |s| => LowerChar(s[i]))
  }

  lemma LowerIdempotent(s: string)
    ensures Lower(Lower(s)) == Lower(s)
  {
  }

  lemma LowerCharOfSpace(c: char)
    ensures IsSpace(c) ==> LowerChar(c) == c
    ensures !IsSpace(c) ==> !IsSpace(LowerChar(c))
  {
  }

  lemma LowerPreservesCore(s: string, r: string, k: int)
    requires CoreAt(s, r, k)
    ensures CoreAt(Lower(s), Lower(r), k)
  {
    var ls, lr := Lower(s), Lower(r);
    forall i | 0 <= i < |r|
      ensures ls[k + i] == lr[i]
    {
      assert s[k + i] == r[i];
    }
    assert ls[k..k + |r|] == lr;
    forall i | 0 <= i < |s| && (i < k || k + |r| <= i)
      ensures IsSpace(ls[i])
    {
      LowerCharOfSpace(s[i]);
    }
  }

  lemma LowerPreservesTrimmed(r: string)
    requires Trimmed(r)
    ensures Trimmed(Lower(r))
  {
    if |r| > 0 {
      LowerCharOfSpace(r[0]);
      LowerCharOfSpace(r[|r| - 1]);
    }
  }

  /** Lower-casing keeps whitespace where it is, so stripping and
      lower-casing can be done in either order. */
  lemma LowerStripCommute(s: string)
    ensures Lower(Strip(s)) == Strip(Lower(s))
  {
    var r := Strip(s);
    var k :| CoreAt(s, r, k);
    LowerPreservesCore(s, r, k);
    LowerPreservesTrimmed(r);
    StripOfCore(Lower(s), Lower(r), k);
  }

  // ---------------------------------------------------------------------
  // Substring test: `pat in s`
  // ---------------------------------------------------------------------

  /** `pat` occurs in `s` starting at position `i`. */
  predicate MatchAt(s: string, pat: string, i: int) {
    0 <= i <= |s| - |pat| && s[i..i + |pat|] == pat
  }

  /** Python's `pat in s` for strings: some window of `s` equals `pat`. */
  function Contains(s: string, pat: string): (b: bool)
    ensures b <==> exists i :: MatchAt(s, pat, i)
    decreases |s|
  {
    if |pat| > |s| then false
    else if s[..|pat|] == pat then assert MatchAt(s, pat, 0); true
    else
      var b := Contains(s[1..], pat);
      assert b ==> exists i :: MatchAt(s, pat, i) by {
        if b {
          var i :| MatchAt(s[1..], pat, i);
          assert s[1..][i..i + |pat|] == s[i + 1..i + 1 + |pat|];
          assert MatchAt(s, pat, i + 1);
        }
      }
      assert (exists i :: MatchAt(s, pat, i)) ==> b by {
        if exists i :: MatchAt(s, pat, i) {
          var i :| MatchAt(s, pat, i);
          assert i != 0;
          assert s[1..][i - 1..i - 1 + |pat|] == s[i..i + |pat|];
          assert MatchAt(s[1..], pat, i - 1);
        }
      }
      b
  }

  // ---------------------------------------------------------------------
  // Record key: uri.split('/')[-1]
  // ---------------------------------------------------------------------

  /** Start of the '/'-free run of characters that ends at `j`. */
  function SegmentStart(uri: string, j: nat): (i: nat)
    requires j <= |uri|
    ensures i <= j
    ensures forall k :: i <= k < j ==> uri[k] != '/'
    ensures i > 0 ==> uri[i - 1] == '/'
    decreases j
  {
    if j > 0 && uri[j - 1] != '/' then SegmentStart(uri, j - 1) else j
  }

  /** The last '/'-separated segment of a URI, the record key that the
      delete request names. */
  function RecordKey(uri: string): string {
    uri[SegmentStart(uri, |uri|)..]
  }

  /** The record key is the longest suffix of the URI without a '/'. */
  lemma RecordKeyIsLastSegment(uri: string)
    ensures var key := RecordKey(uri);
      && '/' !in key
      && |key| <= |uri| && key == uri[|uri| - |key|..]
      && (|key| == |uri| || uri[|uri| - |key| - 1] == '/')
  {
    var start := SegmentStart(uri, |uri|);
    var key := uri[start..];
    assert forall k :: 0 <= k < |key| ==> key[k] == uri[start + k];
  }

  /** A URI assembled from a path and a final segment yields that segment
      back as its record key. */
  lemma RecordKeyOfPath(path: string, key: string)
    requires '/' !in key
    ensures RecordKey(path + "/" + key) == key
  {
    var uri := path + "/" + key;
    var start := SegmentStart(uri, |uri|);
    assert uri[|path|] == '/';
    forall k | |path| + 1 <= k < |uri|
      ensures uri[k] != '/'
    {
      assert uri[k] == key[k - |path| - 1];
    }
    assert start == |path| + 1;
    assert uri[start..] == key;
  }

  // ---------------------------------------------------------------------
  // Integer parsing: int(str)
  // ---------------------------------------------------------------------

  predicate IsDigit(c: char) {
    '0' <= c <= '9'
  }

  function DigitValue(c: char): (d: nat)
    requires IsDigit(c)
    ensures d < 10
  {
    c as int - '0' as int
  }

  function DigitChar(d: nat): (c: char)
    requires d < 10
    ensures IsDigit(c) && DigitValue(c) == d
  {
    ('0' as int + d) as char
  }

  /** The digit part `int()` accepts: ASCII digits, starting and ending with
      a digit, with single underscores allowed between digits. */
  predicate WellFormedNumeral(s: string) {
    && |s| > 0
    && IsDigit(s[0])
    && IsDigit(s[|s| - 1])
    && (forall i :: 0 <= i < |s| ==> IsDigit(s[i]) || s[i] == '_')
    && (forall i :: 0 <= i < |s| - 1 && s[i] == '_' ==> s[i + 1] != '_')
  }

  /** The value of a numeral, reading its digits from the left and skipping
      the underscores. */
  function NumeralValue(s: string): nat
    requires forall i :: 0 <= i < |s| ==> IsDigit(s[i]) || s[i] == '_'
  {
    if |s| == 0 then 0
    else if s[|s| - 1] == '_' then NumeralValue(s[..|s| - 1])
    else NumeralValue(s[..|s| - 1]) * 10 + DigitValue(s[|s| - 1])
  }

  /** `int(s)` on an already stripped string: an optional sign followed by a
      well-formed numeral; anything else is a ValueError (`None`). */
  function ParseInt(s: string): (r: Option<int>)
    ensures r.Some? ==> |s| > 0
    ensures r.Some? && r.value < 0 ==> s[0] == '-'
  {
    if |s| > 0 && (s[0] == '-' || s[0] == '+') then
      if WellFormedNumeral(s[1..]) then
        var v: int := NumeralValue(s[1..]);
        Some(if s[0] == '-' then -v else v)
      else None
    else if WellFormedNumeral(s) then Some(NumeralValue(s))
    else None
  }

  /** What `int()` accepts and what it reads: a line is accepted exactly
      when it is a well-formed numeral with an optional sign, and such a
      numeral is read as its value with that sign. */
  lemma ParseIntCharacterised(s: string)
    ensures ParseInt(s).Some? ==> IsDigit(s[0]) || s[0] == '-' || s[0] == '+'
    ensures ParseInt(s).Some? ==> forall i :: 0 < i < |s| ==> IsDigit(s[i]) || s[i] == '_'
    ensures WellFormedNumeral(s) ==> ParseInt(s) == Some(NumeralValue(s))
    ensures |s| > 0 && s[0] == '-' && WellFormedNumeral(s[1..]) ==>
      var v: int := NumeralValue(s[1..]); ParseInt(s) == Some(-v)
    ensures |s| > 0 && s[0] == '+' && WellFormedNumeral(s[1..]) ==> ParseInt(s) == Some(NumeralValue(s[1..]))
    ensures ParseInt(s).Some? <==>
      WellFormedNumeral(s) || (|s| > 0 && (s[0] == '-' || s[0] == '+') && WellFormedNumeral(s[1..]))
  {
    if ParseInt(s).Some? && |s| > 0 && (s[0] == '-' || s[0] == '+') {
      forall i | 0 < i < |s|
        ensures IsDigit(s[i]) || s[i] == '_'
      {
        assert s[i] == s[1..][i - 1];
      }
    }
  }

  /** A decimal point or a trailing letter makes the line unreadable. */
  lemma ParseIntRejectsNonNumerals()
    ensures ParseInt("3.5") == None
    ensures ParseInt("12a") == None
  {
    ParseIntCharacterised("3.5");
    ParseIntCharacterised("12a");
    assert "3.5"[1] == '.';
    assert "12a"[2] == 'a';
  }

  /** Decimal rendering of a natural number, most significant digit first. */
  function ShowNat(n: nat): (s: string)
    ensures |s| > 0
    ensures forall i :: 0 <= i < |s| ==> IsDigit(s[i])
  {
    if n < 10 then [DigitChar(n)] else ShowNat(n / 10) + [DigitChar(n % 10)]
  }

  /** Decimal rendering of an integer, as `str(n)` writes it. */
  function ShowInt(n: int): string {
    if n < 0 then "-" + ShowNat(-n) else ShowNat(n)
  }

  lemma {:induction false} NumeralValueOfShowNat(n: nat)
    ensures NumeralValue(ShowNat(n)) == n
  {
    if n >= 10 {
      var s := ShowNat(n);
      assert s[..|s| - 1] == ShowNat(n / 10);
      NumeralValueOfShowNat(n / 10);
    }
  }

  lemma ShowNatWellFormed(n: nat)
    ensures WellFormedNumeral(ShowNat(n))
  {
    var s := ShowNat(n);
    assert forall i :: 0 <= i < |s| ==> s[i] != '_';
  }

  /** `int(str(n)) == n`: parsing is the inverse of decimal rendering. */
  lemma ParseShowRoundTrip(n: int)
    ensures ParseInt(ShowInt(n)) == Some(n)
  {
    var digits := ShowNat(if n < 0 then -n else n);
    ShowNatWellFormed(if n < 0 then -n else n);
    NumeralValueOfShowNat(if n < 0 then -n else n);
    var s := ShowInt(n);
    if n < 0 {
      assert s == "-" + digits;
      assert s[0] == '-' && s[1..] == digits;
    } else {
      assert s == digits;
      assert IsDigit(s[0]);
      assert s[0] != '-' && s[0] != '+';
    }
  }
}
