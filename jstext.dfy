/**
 * The JavaScript string built-ins the modelled code relies on: the white space
 * class `\s` (also what `String.prototype.trim` removes), `trim`, the removal of
 * every white-space character, `toLowerCase`/`toUpperCase` on ASCII letters,
 * `startsWith`/`endsWith` and `Array.prototype.join`.
 */
module JsText {

  /** A character matched by JavaScript's `\s` (white space and line terminators). */
  predicate IsSpace(c: char)
  {
    c == '\t' || c == '\n' || c == '\U{B}' || c == '\U{C}' || c == '\r' || c == ' '
    || c == '\U{A0}' || c == '\U{1680}' || ('\U{2000}' <= c <= '\U{200A}')
    || c == '\U{2028}' || c == '\U{2029}' || c == '\U{202F}' || c == '\U{205F}'
    || c == '\U{3000}' || c == '\U{FEFF}'
  }

  predicate NoSpaces(s: string)
  {
    forall i :: 0 <= i < |s| ==> !IsSpace(s[i])
  }

  /** The leading white space removed. */
  function TrimStart(s: string): (r: string)
    ensures |r| <= |s| && r == s[|s| - |r|..]
    ensures r == [] || !IsSpace(r[0])
    ensures forall i :: 0 <= i < |s| - |r| ==> IsSpace(s[i])
  {
    if s != [] && IsSpace(s[0]) then TrimStart(s[1..]) else s
  }

  /** The trailing white space removed (also the regular expression replace `/\s+$/`). */
  function TrimEnd(s: string): (r: string)
    ensures |r| <= |s| && r == s[..|r|]
    ensures r == [] || !IsSpace(r[|r| - 1])
    ensures forall i :: |r| <= i < |s| ==> IsSpace(s[i])
  {
    if s != [] && IsSpace(s[|s| - 1]) then TrimEnd(s[..|s| - 1]) else s
  }

  /** Every character of `s` before index `a` and from index `b` on is white space. */
  ghost predicate SpaceOutside(s: string, a: int, b: int)
  {
    0 <= a <= b <= |s|
    && (forall i :: 0 <= i < a ==> IsSpace(s[i]))
    && (forall i :: b <= i < |s| ==> IsSpace(s[i]))
  }

  /** `String.prototype.trim`: neither end of the result is white space (see `TrimIsMiddle`). */
  function Trim(s: string): (r: string)
    ensures r == [] || (!IsSpace(r[0]) && !IsSpace(r[|r| - 1]))
  {
    TrimEnd(TrimStart(s))
  }

  /**
   * What `trim` leaves is a middle `s[a..b]` of `s` with only white space outside it;
   * with the ends of `Trim`'s own contract this pins the result down.
   */
  lemma TrimIsMiddle(s: string)
    ensures exists a, b :: SpaceOutside(s, a, b) && Trim(s) == s[a..b]
  {
    var t := TrimStart(s);
    var r := TrimEnd(t);
    assert SpaceOutside(s, |s| - |t|, |s| - |t| + |r|) && r == s[|s| - |t|..|s| - |t| + |r|];
  }

  /** Conversely, a middle with only white space outside it and none at its ends is the trim. */
  lemma TrimOfMiddle(s: string, a: int, b: int)
    requires SpaceOutside(s, a, b)
    requires a == b || (!IsSpace(s[a]) && !IsSpace(s[b - 1]))
    ensures Trim(s) == s[a..b]
  {
    var t := TrimStart(s);
    if a == b {
      assert forall i :: 0 <= i < |s| ==> IsSpace(s[i]) by {
        forall i | 0 <= i < |s|
          ensures IsSpace(s[i])
        {
          if i < a {
          }
        }
      }
    } else {
      assert t == s[a..];
    }
  }

  /** A text that neither starts nor ends with white space is its own trim. */
  lemma TrimmedAlready(s: string)
    requires s == [] || (!IsSpace(s[0]) && !IsSpace(s[|s| - 1]))
    ensures Trim(s) == s
  {
  }

  lemma TrimStartNoSpaces(s: string)
    requires NoSpaces(s)
    ensures TrimStart(s) == s
  {
  }

  lemma TrimEndNoSpaces(s: string)
    requires NoSpaces(s)
    ensures TrimEnd(s) == s
  {
  }

  /** A string without white space is its own trim. */
  lemma TrimNoSpaces(s: string)
    requires NoSpaces(s)
    ensures Trim(s) == s
  {
    TrimStartNoSpaces(s);
    TrimEndNoSpaces(s);
  }

  /** Trimming twice is trimming once. */
  lemma TrimIdempotent(s: string)
    ensures Trim(Trim(s)) == Trim(s)
  {
    var t := Trim(s);
    if t != [] {
      assert TrimStart(t) == t;
      assert TrimEnd(t) == t;
    }
  }

  /** `s.replace(/\s+/g, '')`: every white-space character removed. */
  function RemoveSpaces(s: string): (r: string)
    ensures |r| <= |s| && NoSpaces(r)
  {
    if s == [] then []
    else RemoveSpaces(s[..|s| - 1]) + (if IsSpace(s[|s| - 1]) then [] else [s[|s| - 1]])
  }

  lemma RemoveSpacesNoSpaces(s: string)
    requires NoSpaces(s)
    ensures RemoveSpaces(s) == s
  {
    if s != [] {
      RemoveSpacesNoSpaces(s[..|s| - 1]);
    }
  }

  lemma RemoveSpacesAppend(s: string, t: string)
    ensures RemoveSpaces(s + t) == RemoveSpaces(s) + RemoveSpaces(t)
    decreases |t|
  {
    if t == [] {
      assert s + t == s;
    } else {
      assert (s + t)[..|s + t| - 1] == s + t[..|t| - 1];
      RemoveSpacesAppend(s, t[..|t| - 1]);
    }
  }

  function LowerChar(c: char): char
  {
    if 'A' <= c <= 'Z' then (c as int + 32) as char else c
  }

  function UpperChar(c: char): char
  {
    if 'a' <= c <= 'z' then (c as int - 32) as char else c
  }

  /** `toLowerCase`, on ASCII letters. */
  function Lower(s: string): (r: string)
    ensures |r| == |s| && forall i :: 0 <= i < |s| ==> r[i] == LowerChar(s[i])
  {
    seq(|s|, i requires 0 <= i < |s| => LowerChar(s[i]))
  }

  /** `toUpperCase`, on ASCII letters. */
  function Upper(s: string): (r: string)
    ensures |r| == |s| && forall i :: 0 <= i < |s| ==> r[i] == UpperChar(s[i])
  {
    seq(|s|, i requires 0 <= i < |s| => UpperChar(s[i]))
  }

  predicate IsLower(s: string)
  {
    forall i :: 0 <= i < |s| ==> !('A' <= s[i] <= 'Z')
  }

  /** Lower-casing a text without upper-case letters changes nothing. */
  lemma LowerOfIsLower(s: string)
    requires IsLower(s)
    ensures Lower(s) == s
  {
  }

  /** Case is forgotten: upper-casing first does not change the lower-cased text. */
  lemma LowerOfUpper(s: string)
    ensures Lower(Upper(s)) == Lower(s)
  {
  }

  predicate StartsWith(s: string, prefix: string)
  {
    |prefix| <= |s| && s[..|prefix|] == prefix
  }

  predicate EndsWith(s: string, suffix: string)
  {
    |suffix| <= |s| && s[|s| - |suffix|..] == suffix
  }

  /** `parts.join(sep)`. */
  function Join(parts: seq<string>, sep: string): string
  {
    if parts == [] then ""
    else if |parts| == 1 then parts[0]
    else Join(parts[..|parts| - 1], sep) + sep + parts[|parts| - 1]
  }
}
