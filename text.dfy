/** Python string operations the extractor relies on: `str.strip()` with no
    argument and `sep.join(parts)`. Strings are sequences of Unicode code points. */
module Text {

  /** Python's `str.isspace()` on one character: exactly the characters that
      `str.strip()` removes when called without an argument. */
  predicate IsSpace(c: char)
  {
    var n := c as int;
    || 0x09 <= n <= 0x0D
    || 0x1C <= n <= 0x20
    || n == 0x85 || n == 0xA0 || n == 0x1680
    || 0x2000 <= n <= 0x200A
    || n == 0x2028 || n == 0x2029 || n == 0x202F || n == 0x205F || n == 0x3000
  }

  predicate AllSpace(s: string)
  {
    forall k :: 0 <= k < |s| ==> IsSpace(s[k])
  }

  /** The number of whitespace characters `s.lstrip()` removes: the length of
      the longest all-whitespace prefix. */
  function LeadingSpace(s: string): (n: nat)
    ensures n <= |s| && AllSpace(s[..n])
    ensures n == |s| || !IsSpace(s[n])
  {
    if s == [] || !IsSpace(s[0]) then 0
    else
      var n := LeadingSpace(s[1..]);
      assert s[..n + 1] == [s[0]] + s[1..][..n];
      AllSpaceConcat([s[0]], s[1..][..n]);
      n + 1
  }

  /** The number of whitespace characters `s.rstrip()` removes: the length of
      the longest all-whitespace suffix. */
  function TrailingSpace(s: string): (n: nat)
    ensures n <= |s| && AllSpace(s[|s| - n..])
    ensures n == |s| || !IsSpace(s[|s| - n - 1])
  {
    if s == [] || !IsSpace(s[|s| - 1]) then 0
    else
      var n := TrailingSpace(s[..|s| - 1]);
      TrailingStep(s, n);
      n + 1
  }

  /** One more whitespace character at the end extends the whitespace suffix. */
  lemma TrailingStep(s: string, n: nat)
    requires s != [] && IsSpace(s[|s| - 1])
    requires n <= |s| - 1 && AllSpace(s[..|s| - 1][|s| - 1 - n..])
    requires n == |s| - 1 || !IsSpace(s[..|s| - 1][|s| - 2 - n])
    ensures AllSpace(s[|s| - (n + 1)..])
    ensures n + 1 == |s| || !IsSpace(s[|s| - n - 2])
  {
    var init := s[..|s| - 1];
    assert s[|s| - (n + 1)..] == init[|s| - 1 - n..] + [s[|s| - 1]];
    AllSpaceConcat(init[|s| - 1 - n..], [s[|s| - 1]]);
    if n + 1 < |s| {
      assert init[|s| - 2 - n] == s[|s| - n - 2];
    }
  }

  /** `s.strip()`: `s` without its leading and trailing whitespace. The result
      is the piece of `s` starting after its leading whitespace, only
      whitespace was cut on either side, and it neither starts nor ends with
      whitespace; it is empty exactly when `s` is all whitespace. */
  function Strip(s: string): (r: string)
    ensures LeadingSpace(s) + |r| <= |s| && r == s[LeadingSpace(s)..LeadingSpace(s) + |r|]
    ensures AllSpace(s[..LeadingSpace(s)]) && AllSpace(s[LeadingSpace(s) + |r|..])
    ensures r == [] || (!IsSpace(r[0]) && !IsSpace(r[|r| - 1]))
    ensures r == [] <==> AllSpace(s)
  {
    var i := LeadingSpace(s);
    var j := |s[i..]| - TrailingSpace(s[i..]);
    StripResult(s, j);
    s[i..i + j]
  }

  /** Strip's contract for the piece of length `j` after the leading whitespace. */
  lemma StripResult(s: string, j: nat)
    requires j == |s[LeadingSpace(s)..]| - TrailingSpace(s[LeadingSpace(s)..])
    ensures LeadingSpace(s) + j <= |s|
    ensures var r := s[LeadingSpace(s)..LeadingSpace(s) + j];
      && |r| == j
      && AllSpace(s[..LeadingSpace(s)]) && AllSpace(s[LeadingSpace(s) + j..])
      && (r == [] || (!IsSpace(r[0]) && !IsSpace(r[|r| - 1])))
      && (r == [] <==> AllSpace(s))
  {
    var t := s[LeadingSpace(s)..];
    StripEnds(s, t, j);
    StripEmpty(s, t, j);
    StripPiece(s, LeadingSpace(s), j);
  }

  /** Cutting the leading whitespace and then `|t| - j` trailing whitespace
      characters leaves only whitespace after the piece. */
  lemma StripEnds(s: string, t: string, j: nat)
    requires t == s[LeadingSpace(s)..] && j == |t| - TrailingSpace(t)
    ensures LeadingSpace(s) + j <= |s|
    ensures AllSpace(s[LeadingSpace(s) + j..])
    ensures j == 0 || (!IsSpace(s[LeadingSpace(s)]) && !IsSpace(s[LeadingSpace(s) + j - 1]))
  {
    AllSpaceDrop(s, LeadingSpace(s), j);
    if j > 0 {
      StripLast(s, t, j);
    }
  }

  /** The piece `s[i..i + j]` starts with `s[i]` and ends with `s[i + j - 1]`. */
  lemma StripPiece(s: string, i: nat, j: nat)
    requires i + j <= |s| && (j == 0 || (!IsSpace(s[i]) && !IsSpace(s[i + j - 1])))
    ensures |s[i..i + j]| == j
    ensures s[i..i + j] == [] || (!IsSpace(s[i..i + j][0]) && !IsSpace(s[i..i + j][j - 1]))
  {
  }

  lemma AllSpaceDrop(s: string, i: nat, j: nat)
    requires i + j <= |s| && AllSpace(s[i..][j..])
    ensures AllSpace(s[i + j..])
  {
    assert s[i..][j..] == s[i + j..];
  }

  /** The piece neither starts nor ends with whitespace. */
  lemma StripLast(s: string, t: string, j: nat)
    requires t == s[LeadingSpace(s)..] && j == |t| - TrailingSpace(t) && j > 0
    ensures !IsSpace(s[LeadingSpace(s) + j - 1])
  {
    assert s[LeadingSpace(s) + j - 1] == t[|t| - TrailingSpace(t) - 1];
  }

  /** The stripped piece is empty exactly when `s` is all whitespace. */
  lemma StripEmpty(s: string, t: string, j: nat)
    requires t == s[LeadingSpace(s)..] && j == |t| - TrailingSpace(t)
    ensures j == 0 <==> AllSpace(s)
  {
    var i := LeadingSpace(s);
    if j == 0 {
      assert s == s[..i] + t[j..];
      AllSpaceConcat(s[..i], t[j..]);
    }
    if j > 0 {
      assert !IsSpace(s[i]);
    }
  }

  lemma AllSpaceConcat(a: string, b: string)
    requires AllSpace(a) && AllSpace(b)
    ensures AllSpace(a + b)
  {
    forall k | 0 <= k < |a + b| ensures IsSpace((a + b)[k]) {
      if k >= |a| {
        assert (a + b)[k] == b[k - |a|];
      }
    }
  }

  /** `sep.join(parts)`. */
  function Join(sep: string, parts: seq<string>): (r: string)
    ensures |parts| > 0 ==> |r| == TotalLength(parts) + (|parts| - 1) * |sep|
    ensures |parts| == 0 ==> r == []
  {
    if |parts| == 0 then []
    else if |parts| == 1 then parts[0]
    else Join(sep, parts[..|parts| - 1]) + sep + parts[|parts| - 1]
  }

  /** The sum of the lengths of `parts`. */
  function TotalLength(parts: seq<string>): nat
  {
    if |parts| == 0 then 0 else TotalLength(parts[..|parts| - 1]) + |parts[|parts| - 1]|
  }

  /** Joining two non-empty lists puts exactly one separator between them. */
  lemma {:induction false} JoinAppend(sep: string, a: seq<string>, b: seq<string>)
    requires |a| > 0 && |b| > 0
    ensures Join(sep, a + b) == Join(sep, a) + sep + Join(sep, b)
    decreases |b|
  {
    if |b| == 1 {
      assert (a + b)[..|a + b| - 1] == a;
    } else {
      var b' := b[..|b| - 1];
      assert (a + b)[..|a + b| - 1] == a + b';
      JoinAppend(sep, a, b');
    }
  }
}
