/** `truncateText` (app/scripts/utils/helpers.js, lines 19-23). */
module Helpers {
  import opened Wrappers
  import opened JsText

  /**
   * The suffix the source appends: the three characters U+00E2, U+20AC, U+00A6, which is
   * what the UTF-8 bytes of '…' read as Windows-1252 look like.
   */
  const Ellipsis: string := "\U{E2}\U{20AC}\U{A6}"

  /**
   * `truncateText(str, max)`. The text is trimmed first; `max` is `None` when it is not a
   * finite number. A longer text is cut to its first `max` characters (a fractional `max`
   * is truncated, as `slice` does), the white space at the cut is removed and the suffix
   * is appended.
   */
  function TruncateText(str: string, max: Option<real>): (r: string)
    ensures var s := Trim(str);
      max.None? || max.value <= 0.0 || |s| as real <= max.value ==> r == s
  {
    var s := Trim(str);
    if max.None? || max.value <= 0.0 then s
    else if |s| as real > max.value then
      var k := FloorBelow(max.value, |s|);
      TrimEnd(s[..k]) + Ellipsis
    else s
  }

  /** The whole part of a positive `m` that is below the length `n`. */
  function FloorBelow(m: real, n: nat): (k: nat)
    requires 0.0 < m < n as real
    ensures k as real <= m < k as real + 1.0 && k < n
  {
    m.Floor
  }

  /** `p` is the first `k` characters of `s` with the white space at their end removed. */
  predicate Cut(s: string, p: string, k: int)
  {
    && 0 <= |p| <= k < |s| && p == s[..|p|]
    && (p == [] || !IsSpace(p[|p| - 1]))
    && (forall i :: |p| <= i < k ==> IsSpace(s[i]))
  }

  /**
   * A text longer than `m` is cut: the result is the suffix after a prefix of the trimmed
   * text no longer than `m`, which does not end with white space, and only white space
   * was dropped between that prefix and the cut.
   */
  lemma TruncateTextCuts(str: string, m: real)
    requires m > 0.0 && |Trim(str)| as real > m
    ensures var r := TruncateText(str, Some(m));
      |r| >= |Ellipsis| && r[|r| - |Ellipsis|..] == Ellipsis
      && Cut(Trim(str), r[..|r| - |Ellipsis|], FloorBelow(m, |Trim(str)|))
  {
    var s := Trim(str);
    var k := FloorBelow(m, |s|);
    var p := TrimEnd(s[..k]);
    assert TruncateText(str, Some(m)) == p + Ellipsis;
    SuffixAfter(p, Ellipsis);
    CutAtEnd(s, k);
  }

  lemma SuffixAfter(p: string, e: string)
    ensures (p + e)[..|p|] == p && (p + e)[|p|..] == e
  {
  }

  lemma CutAtEnd(s: string, k: nat)
    requires k < |s|
    ensures Cut(s, TrimEnd(s[..k]), k)
  {
    var p := TrimEnd(s[..k]);
    assert p == s[..k][..|p|] == s[..|p|];
    forall i | |p| <= i < k
      ensures IsSpace(s[i])
    {
      assert s[..k][i] == s[i];
    }
  }

  /** A truncated text is at most three characters longer than `max`. */
  lemma TruncateTextBound(str: string, m: real)
    requires m > 0.0
    ensures |TruncateText(str, Some(m))| as real <= m + 3.0
  {
    var s := Trim(str);
    if |s| as real > m {
      TruncateTextCuts(str, m);
    }
  }

  /** Truncating a text that already fits changes nothing; in particular truncating twice is truncating once when nothing was cut. */
  lemma TruncateTextFits(str: string, m: real)
    requires m > 0.0 && |Trim(str)| as real <= m
    ensures TruncateText(str, Some(m)) == Trim(str)
    ensures TruncateText(TruncateText(str, Some(m)), Some(m)) == TruncateText(str, Some(m))
  {
    TrimIdempotent(str);
  }

  /** When the character before the cut is not white space, the cut keeps exactly `k` characters. */
  lemma TruncateTextAtWord(str: string, m: real)
    requires m > 0.0 && |Trim(str)| as real > m
    requires var k := FloorBelow(m, |Trim(str)|); k > 0 && !IsSpace(Trim(str)[k - 1])
    ensures TruncateText(str, Some(m)) == Trim(str)[..FloorBelow(m, |Trim(str)|)] + Ellipsis
  {
    var s := Trim(str);
    var k := FloorBelow(m, |s|);
    assert s[..k][k - 1] == s[k - 1];
  }
}
