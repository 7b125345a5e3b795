/**
 * The calculator's text utilities (app/scripts/ui/calculatorUI.js, lines 351-448):
 * operator glyphs and their aliases, the one-pass sanitizer that keeps the display
 * in a canonical shape while the user types, and the removal of trailing operators
 * before evaluation.
 */
module CalcText {
  import opened Wrappers
  import opened JsText

  const Times: char := '\U{D7}'     // ×
  const Divide: char := '\U{F7}'    // ÷
  const MinusSign: char := '\U{2212}'  // − (typographic minus)

  predicate IsOperator(c: char)
  {
    c == '+' || c == '-' || c == Times || c == Divide
  }

  /** `/\d/` without the unicode flag: an ASCII digit. */
  predicate IsDigit(c: char)
  {
    '0' <= c <= '9'
  }

  /** The characters the sanitizer keeps: `[0-9.+\-×÷]`. */
  predicate IsAllowed(c: char)
  {
    IsDigit(c) || c == '.' || IsOperator(c)
  }

  /** A character that `unifyOps` rewrites: `x`, `X`, `*`, `/` and the typographic minus. */
  predicate IsAlias(c: char)
  {
    c == 'x' || c == 'X' || c == '*' || c == '/' || c == MinusSign
  }

  function UnifyChar(c: char): char
  {
    if c == 'x' || c == 'X' || c == '*' then Times
    else if c == '/' then Divide
    else if c == MinusSign then '-'
    else c
  }

  /**
   * `unifyOps`: `x`, `X` and `*` become ×, `/` becomes ÷ and the typographic minus
   * becomes `-`; nothing else changes.
   */
  function UnifyOps(s: string): (r: string)
    ensures |r| == |s|
    ensures forall i :: 0 <= i < |s| ==> !IsAlias(r[i])
    ensures forall i :: 0 <= i < |s| ==> IsAlias(s[i]) || r[i] == s[i]
    ensures forall i :: 0 <= i < |s| ==> (IsOperator(r[i]) <==> IsOperator(s[i]) || IsAlias(s[i]))
    ensures forall i :: 0 <= i < |s| ==> r[i] == UnifyChar(s[i])
  {
    seq(|s|, i requires 0 <= i < |s| => UnifyChar(s[i]))
  }

  /** Which glyph each alias becomes: ×, ÷ or `-`; every other character is kept. */
  lemma UnifyOpsGlyphs(s: string)
    ensures forall i :: 0 <= i < |s| && (s[i] == 'x' || s[i] == 'X' || s[i] == '*') ==> UnifyOps(s)[i] == Times
    ensures forall i :: 0 <= i < |s| && s[i] == '/' ==> UnifyOps(s)[i] == Divide
    ensures forall i :: 0 <= i < |s| && s[i] == MinusSign ==> UnifyOps(s)[i] == '-'
    ensures forall i :: 0 <= i < |s| && !IsAlias(s[i]) ==> UnifyOps(s)[i] == s[i]
  {
  }

  /** A string without aliases is its own `unifyOps`. */
  lemma UnifyOpsPlain(s: string)
    requires forall i :: 0 <= i < |s| ==> !IsAlias(s[i])
    ensures UnifyOps(s) == s
  {
  }

  /** The filter `s.replace(/[^0-9.+\-×÷]/g, '')`. */
  function KeepAllowed(s: string): (r: string)
    ensures |r| <= |s|
  {
    if s == [] then []
    else KeepAllowed(s[..|s| - 1]) + (if IsAllowed(s[|s| - 1]) then [s[|s| - 1]] else [])
  }

  /** The string the sanitizer's loop walks: aliases unified, white space and other characters removed. */
  function Prepared(input: string): string
  {
    KeepAllowed(RemoveSpaces(UnifyOps(input)))
  }

  // ---------------------------------------------------------------------------
  // The sanitizer: a left fold of one step over the prepared string
  // ---------------------------------------------------------------------------

  /** The loop's three accumulators: `out`, `last` (None for the empty string) and `inDecimal`. */
  datatype Scan = Scan(out: string, last: Option<char>, inDecimal: bool)

  const Start: Scan := Scan("", None, false)

  /** The source's `push(ch)`. */
  function Push(st: Scan, ch: char): Scan
  {
    st.(out := st.out + [ch], last := Some(ch))
  }

  predicate LastIsOperator(st: Scan)
  {
    st.last.Some? && IsOperator(st.last.value)
  }

  /** One iteration of the loop of `sanitizeForDisplay`, for the character `ch`. */
  function Step(st: Scan, ch: char): Scan
  {
    if IsDigit(ch) then Push(st, ch)
    else if ch == '.' then
      if st.inDecimal then st
      else if st.out == [] || LastIsOperator(st) then Scan(st.out + "0.", Some('.'), true)
      else if st.last == Some('.') then st.(inDecimal := true)
      else Push(st, '.').(inDecimal := true)
    else if IsOperator(ch) then
      if st.out == [] then (if ch == '-' then Push(st, '-') else st)
      else if LastIsOperator(st) then
        if ch == '-' && st.last != Some('-') then Push(st, '-').(inDecimal := false)
        else Scan(st.out[..|st.out| - 1] + [ch], Some(ch), false)
      else if st.last == Some('.') then Scan(st.out + ['0', ch], Some(ch), false)
      else Push(st, ch).(inDecimal := false)
    else st
  }

  /** The accumulators after the loop has walked all of `s`. */
  function Scanned(s: string): Scan
  {
    if s == [] then Start else Step(Scanned(s[..|s| - 1]), s[|s| - 1])
  }

  /** What `sanitizeForDisplay(input)` returns. */
  function Sanitize(input: string): string
  {
    Scanned(Prepared(input)).out
  }

  /** `sanitizeForDisplay`, with its loop. */
  method SanitizeForDisplay(input: string) returns (out: string)
    ensures out == Sanitize(input)
  {
    var s := RemoveSpaces(UnifyOps(input));
    s := KeepAllowed(s);
    out := "";
    var last: Option<char> := None;
    var inDecimal := false;
    var i := 0;
    while i < |s|
      invariant 0 <= i <= |s|
      invariant Scan(out, last, inDecimal) == Scanned(s[..i])
    {
      var ch := s[i];
      assert s[..i + 1][..i] == s[..i];
      if IsDigit(ch) {
        out, last := out + [ch], Some(ch);
      } else if ch == '.' {
        if !inDecimal {
          if out == [] || (last.Some? && IsOperator(last.value)) {
            out := out + "0.";
            last := Some('.');
          } else if last == Some('.') {
            // the source leaves `out` alone here
          } else {
            out, last := out + [ch], Some(ch);
          }
          inDecimal := true;
        }
      } else if IsOperator(ch) {
        if out == [] {
          if ch == '-' {
            out, last := out + [ch], Some(ch);
          }
        } else {
          if last.Some? && IsOperator(last.value) {
            if ch == '-' && last != Some('-') {
              out, last := out + [ch], Some(ch);
            } else {
              out := out[..|out| - 1] + [ch];
              last := Some(ch);
            }
          } else if last == Some('.') {
            out := out + ['0', ch];
            last := Some(ch);
          } else {
            out, last := out + [ch], Some(ch);
          }
          inDecimal := false;
        }
      }
      i := i + 1;
    }
    assert s[..|s|] == s;
  }

  // ---------------------------------------------------------------------------
  // The canonical shape of the display
  // ---------------------------------------------------------------------------

  /** Whether the current number segment (the text after the last operator) holds a '.'. */
  predicate SegmentHasDot(s: string)
  {
    if s == [] then false
    else if s[|s| - 1] == '.' then true
    else if IsOperator(s[|s| - 1]) then false
    else SegmentHasDot(s[..|s| - 1])
  }

  /** No '.' is written while the current segment already holds one. */
  predicate OneDotPerSegment(s: string)
  {
    if s == [] then true
    else OneDotPerSegment(s[..|s| - 1]) && (s[|s| - 1] == '.' ==> !SegmentHasDot(s[..|s| - 1]))
  }

  /**
   * What a canonical text requires of its last character `c`, given the text `p` before
   * it: `c` is one of `0-9 . + - × ÷`; a '.' comes right after a digit and only when
   * the current segment holds no '.' yet; an operator never comes right after a '.'.
   */
  predicate CharFits(p: string, c: char)
  {
    && IsAllowed(c)
    && (c == '.' ==> p != [] && IsDigit(p[|p| - 1]) && !SegmentHasDot(p))
    && (IsOperator(c) && p != [] ==> p[|p| - 1] != '.')
  }

  /** The shape every sanitized string has: each character fits after the text before it. */
  predicate Canonical(s: string)
  {
    s == [] || (Canonical(s[..|s| - 1]) && CharFits(s[..|s| - 1], s[|s| - 1]))
  }

  /**
   * The same shape stated with indices: only `0-9 . + - × ÷`, every '.' right after a
   * digit (a '.' at the start or after an operator is written "0."), no operator right
   * after a '.', and at most one '.' per segment.
   */
  predicate CanonicalByIndex(s: string)
  {
    && (forall i :: 0 <= i < |s| ==> IsAllowed(s[i]))
    && (forall i :: 0 <= i < |s| && s[i] == '.' ==> 0 < i && IsDigit(s[i - 1]))
    && (forall i :: 0 < i < |s| && IsOperator(s[i]) ==> s[i - 1] != '.')
    && OneDotPerSegment(s)
  }

  lemma CanonicalByIndexSnoc(p: string, c: char)
    requires CanonicalByIndex(p) && CharFits(p, c)
    ensures CanonicalByIndex(p + [c])
  {
    var t := p + [c];
    assert t[..|p|] == p;
    forall i | 0 <= i < |t|
      ensures IsAllowed(t[i])
    {
      if i < |p| {
        assert t[i] == p[i];
      }
    }
    forall i | 0 <= i < |t| && t[i] == '.'
      ensures 0 < i && IsDigit(t[i - 1])
    {
      if i < |p| {
        assert t[i] == p[i] && t[i - 1] == p[i - 1];
      } else {
        assert t[i - 1] == p[|p| - 1];
      }
    }
    forall i | 0 < i < |t| && IsOperator(t[i])
      ensures t[i - 1] != '.'
    {
      if i < |p| {
        assert t[i] == p[i] && t[i - 1] == p[i - 1];
      } else {
        assert t[i - 1] == p[|p| - 1];
      }
    }
  }

  lemma CanonicalByIndexSplit(s: string)
    requires s != [] && CanonicalByIndex(s)
    ensures CanonicalByIndex(s[..|s| - 1]) && CharFits(s[..|s| - 1], s[|s| - 1])
  {
    var p := s[..|s| - 1];
    forall i | 0 <= i < |p|
      ensures IsAllowed(p[i])
    {
      assert p[i] == s[i];
    }
    forall i | 0 <= i < |p| && p[i] == '.'
      ensures 0 < i && IsDigit(p[i - 1])
    {
      assert p[i] == s[i] && p[i - 1] == s[i - 1];
    }
    forall i | 0 < i < |p| && IsOperator(p[i])
      ensures p[i - 1] != '.'
    {
      assert p[i] == s[i] && p[i - 1] == s[i - 1];
    }
  }

  /** The two statements of the canonical shape agree. */
  lemma {:induction false} CanonicalIndexed(s: string)
    ensures Canonical(s) <==> CanonicalByIndex(s)
    decreases |s|
  {
    if s != [] {
      var p := s[..|s| - 1];
      CanonicalIndexed(p);
      assert p + [s[|s| - 1]] == s;
      if Canonical(s) {
        CanonicalByIndexSnoc(p, s[|s| - 1]);
      }
      if CanonicalByIndex(s) {
        CanonicalByIndexSplit(s);
      }
    }
  }

  function LastOf(s: string): Option<char>
  {
    if s == [] then None else Some(s[|s| - 1])
  }

  /** The invariant of the sanitizer's loop: `out` is canonical and the two other accumulators are functions of it. */
  predicate ScanInv(st: Scan)
  {
    Canonical(st.out) && st.last == LastOf(st.out) && st.inDecimal == SegmentHasDot(st.out)
  }

  lemma AppendDigitCanonical(s: string, c: char)
    requires Canonical(s) && IsDigit(c)
    ensures Canonical(s + [c]) && SegmentHasDot(s + [c]) == SegmentHasDot(s)
  {
    assert (s + [c])[..|s|] == s;
  }

  lemma AppendDotCanonical(s: string)
    requires Canonical(s) && s != [] && IsDigit(s[|s| - 1]) && !SegmentHasDot(s)
    ensures Canonical(s + ['.']) && SegmentHasDot(s + ['.'])
  {
    assert (s + ['.'])[..|s|] == s;
  }

  lemma AppendOperatorCanonical(s: string, c: char)
    requires Canonical(s) && IsOperator(c) && (s == [] || s[|s| - 1] != '.')
    ensures Canonical(s + [c]) && !SegmentHasDot(s + [c])
  {
    assert (s + [c])[..|s|] == s;
  }

  /** Each step keeps the loop invariant. */
  lemma StepKeepsInv(st: Scan, ch: char)
    requires ScanInv(st)
    ensures ScanInv(Step(st, ch))
  {
    if IsDigit(ch) {
      AppendDigitCanonical(st.out, ch);
    } else if ch == '.' {
      StepDotKeepsInv(st);
    } else if IsOperator(ch) {
      StepOperatorKeepsInv(st, ch);
    }
  }

  /** "0." written at the start or after an operator. */
  lemma AppendZeroDot(o: string)
    requires Canonical(o) && (o == [] || IsOperator(o[|o| - 1]))
    ensures Canonical(o + "0.") && SegmentHasDot(o + "0.") && LastOf(o + "0.") == Some('.')
  {
    var z := o + ['0'];
    AppendDigitCanonical(o, '0');
    AppendDotCanonical(z);
    assert z + ['.'] == o + "0.";
  }

  lemma StepDotKeepsInv(st: Scan)
    requires ScanInv(st)
    ensures ScanInv(Step(st, '.'))
  {
    var o := st.out;
    if !st.inDecimal {
      if o == [] || LastIsOperator(st) {
        AppendZeroDot(o);
      } else {
        AppendDotCanonical(o);
      }
    }
  }

  lemma StepOperatorKeepsInv(st: Scan, ch: char)
    requires ScanInv(st) && IsOperator(ch)
    ensures ScanInv(Step(st, ch))
  {
    var o := st.out;
    var n := |o|;
    if o != [] {
      if LastIsOperator(st) {
        if ch == '-' && st.last != Some('-') {
          AppendOperatorCanonical(o, ch);
        } else {
          AppendOperatorCanonical(o[..n - 1], ch);
        }
      } else if st.last == Some('.') {
        AppendDigitCanonical(o, '0');
        AppendOperatorCanonical(o + ['0'], ch);
        assert o + ['0'] + [ch] == o + ['0', ch];
      } else {
        AppendOperatorCanonical(o, ch);
      }
    } else if ch == '-' {
      AppendOperatorCanonical(o, ch);
    }
  }

  lemma {:induction false} ScannedInv(s: string)
    ensures ScanInv(Scanned(s))
    decreases |s|
  {
    if s != [] {
      ScannedInv(s[..|s| - 1]);
      StepKeepsInv(Scanned(s[..|s| - 1]), s[|s| - 1]);
    }
  }

  /** Whatever the input, the sanitized text is canonical. */
  lemma {:induction false} SanitizeIsCanonical(input: string)
    ensures Canonical(Sanitize(input))
  {
    ScannedInv(Prepared(input));
  }

  // ---------------------------------------------------------------------------
  // Typing one more character: the sanitized text as a function of the old one
  // ---------------------------------------------------------------------------

  lemma {:induction false} KeepAllowedAllowed(s: string)
    requires forall i :: 0 <= i < |s| ==> IsAllowed(s[i])
    ensures KeepAllowed(s) == s
    decreases |s|
  {
    if s != [] {
      KeepAllowedAllowed(s[..|s| - 1]);
    }
  }

  lemma KeepAllowedAppend(s: string, c: char)
    ensures KeepAllowed(s + [c]) == KeepAllowed(s) + (if IsAllowed(c) then [c] else [])
  {
    assert (s + [c])[..|s|] == s;
  }

  /** Preparing a string of allowed characters changes nothing. */
  lemma PreparedAllowed(s: string)
    requires forall i :: 0 <= i < |s| ==> IsAllowed(s[i])
    ensures Prepared(s) == s
  {
    assert UnifyOps(s) == s;
    RemoveSpacesNoSpaces(s);
    KeepAllowedAllowed(s);
  }

  lemma PreparedAppend(t: string, c: char)
    requires IsAllowed(c)
    ensures Prepared(t + [c]) == Prepared(t) + [c]
  {
    assert UnifyOps(t + [c]) == UnifyOps(t) + [c];
    RemoveSpacesAppend(UnifyOps(t), [c]);
    assert RemoveSpaces([c]) == [] + [c];
    KeepAllowedAppend(RemoveSpaces(UnifyOps(t)), c);
  }

  lemma SanitizeAppendStep(t: string, c: char)
    requires IsAllowed(c)
    ensures Sanitize(t + [c]) == Step(Scanned(Prepared(t)), c).out
    ensures Scanned(Prepared(t)).out == Sanitize(t)
    ensures Scanned(Prepared(t)).last == LastOf(Sanitize(t))
    ensures Scanned(Prepared(t)).inDecimal == SegmentHasDot(Sanitize(t))
  {
    PreparedAppend(t, c);
    var p := Prepared(t) + [c];
    assert p[..|p| - 1] == Prepared(t);
    ScannedInv(Prepared(t));
  }

  /** A digit typed at the end is kept as it is. */
  lemma SanitizeAppendDigit(t: string, d: char)
    requires IsDigit(d)
    ensures Sanitize(t + [d]) == Sanitize(t) + [d]
  {
    SanitizeAppendStep(t, d);
  }

  /** The effect of a '.' on the text, for accumulators that agree with the text. */
  lemma StepDotOut(st: Scan)
    requires st.last == LastOf(st.out) && st.inDecimal == SegmentHasDot(st.out)
    ensures var o := st.out;
      Step(st, '.').out ==
        if SegmentHasDot(o) then o
        else if o == [] || IsOperator(o[|o| - 1]) then o + "0."
        else o + "."
  {
  }

  /** The effect of an operator on the text, for accumulators that agree with the text. */
  lemma StepOperatorOut(st: Scan, c: char)
    requires IsOperator(c) && st.last == LastOf(st.out)
    ensures var o := st.out;
      Step(st, c).out ==
        if o == [] then (if c == '-' then "-" else "")
        else if IsOperator(o[|o| - 1]) then
          (if c == '-' && o[|o| - 1] != '-' then o + "-" else o[..|o| - 1] + [c])
        else if o[|o| - 1] == '.' then o + ['0', c]
        else o + [c]
  {
  }

  /**
   * A '.' typed at the end is dropped when the current segment already holds one, is
   * written "0." at the start or right after an operator, and is kept otherwise.
   */
  lemma SanitizeAppendDot(t: string)
    ensures var o := Sanitize(t);
      Sanitize(t + ".") ==
        if SegmentHasDot(o) then o
        else if o == [] || IsOperator(o[|o| - 1]) then o + "0."
        else o + "."
  {
    SanitizeAppendStep(t, '.');
    StepDotOut(Scanned(Prepared(t)));
  }

  /**
   * An operator typed at the end: on an empty text only '-' is kept; after an operator
   * a '-' that follows anything but '-' is appended and any other operator replaces the
   * previous one (the text does not grow); after a bare '.' a '0' is inserted first.
   */
  lemma SanitizeAppendOperator(t: string, c: char)
    requires IsOperator(c)
    ensures var o := Sanitize(t);
      Sanitize(t + [c]) ==
        if o == [] then (if c == '-' then "-" else "")
        else if IsOperator(o[|o| - 1]) then
          (if c == '-' && o[|o| - 1] != '-' then o + "-" else o[..|o| - 1] + [c])
        else if o[|o| - 1] == '.' then o + ['0', c]
        else o + [c]
  {
    SanitizeAppendStep(t, c);
    StepOperatorOut(Scanned(Prepared(t)), c);
  }

  // ---------------------------------------------------------------------------
  // Nothing but zeros is ever inserted, and no digit is ever lost
  // ---------------------------------------------------------------------------

  /** `dst` can be obtained from `src` by deleting characters and inserting '0's. */
  predicate Embeds(src: string, dst: string)
    decreases |src| + |dst|
  {
    || dst == []
    || (src != [] && dst[|dst| - 1] == src[|src| - 1] && Embeds(src[..|src| - 1], dst[..|dst| - 1]))
    || (src != [] && Embeds(src[..|src| - 1], dst))
    || (dst[|dst| - 1] == '0' && Embeds(src, dst[..|dst| - 1]))
  }

  lemma {:induction false} EmbedsDropLast(src: string, dst: string)
    requires dst != [] && Embeds(src, dst)
    ensures Embeds(src, dst[..|dst| - 1])
    decreases |src| + |dst|
  {
    var d := dst[..|dst| - 1];
    if src != [] && dst[|dst| - 1] == src[|src| - 1] && Embeds(src[..|src| - 1], d) {
    } else if src != [] && Embeds(src[..|src| - 1], dst) {
      EmbedsDropLast(src[..|src| - 1], dst);
    } else {
    }
  }

  lemma StepEmbeds(s: string, c: char)
    requires Embeds(s, Scanned(s).out) && ScanInv(Scanned(s))
    ensures Embeds(s + [c], Step(Scanned(s), c).out)
  {
    var st := Scanned(s);
    var o := st.out;
    var sc := s + [c];
    assert sc[..|sc| - 1] == s;
    var r := Step(st, c).out;
    if r == o {
    } else if r == o + [c] {
      assert r[..|r| - 1] == o;
    } else if c == '.' {
      assert r == o + "0.";
      assert r[..|r| - 1] == o + ['0'];
      assert (o + ['0'])[..|o|] == o;
    } else if IsOperator(c) && o != [] && LastIsOperator(st) {
      var p := o[..|o| - 1];
      assert r == p + [c];
      assert r[..|r| - 1] == p;
      EmbedsDropLast(s, o);
    } else {
      assert r == o + ['0', c];
      assert r[..|r| - 1] == o + ['0'];
      assert (o + ['0'])[..|o|] == o;
    }
  }

  lemma {:induction false} ScannedEmbeds(s: string)
    ensures Embeds(s, Scanned(s).out)
    decreases |s|
  {
    if s != [] {
      var p := s[..|s| - 1];
      ScannedEmbeds(p);
      ScannedInv(p);
      StepEmbeds(p, s[|s| - 1]);
      assert p + [s[|s| - 1]] == s;
    }
  }

  /** The sanitized text is the prepared input with characters deleted and '0's inserted: it inserts nothing else. */
  lemma SanitizeOnlyInsertsZeros(input: string)
    ensures Embeds(Prepared(input), Sanitize(input))
  {
    ScannedEmbeds(Prepared(input));
  }

  /** The digits of `s`, in order. */
  function Digits(s: string): (r: string)
    ensures forall i :: 0 <= i < |r| ==> IsDigit(r[i])
  {
    if s == [] then []
    else Digits(s[..|s| - 1]) + (if IsDigit(s[|s| - 1]) then [s[|s| - 1]] else [])
  }

  /** `b` is `a` with '0's inserted. */
  predicate ZerosInserted(a: string, b: string)
    decreases |b|
  {
    || (b == [] && a == [])
    || (b != [] && a != [] && a[|a| - 1] == b[|b| - 1] && ZerosInserted(a[..|a| - 1], b[..|b| - 1]))
    || (b != [] && b[|b| - 1] == '0' && ZerosInserted(a, b[..|b| - 1]))
  }

  lemma {:induction false} DigitsAppend(s: string, t: string)
    ensures Digits(s + t) == Digits(s) + Digits(t)
    decreases |t|
  {
    if t == [] {
      assert s + t == s;
    } else {
      assert (s + t)[..|s + t| - 1] == s + t[..|t| - 1];
      DigitsAppend(s, t[..|t| - 1]);
    }
  }

  lemma ZerosInsertedDigit(a: string, b: string, d: char)
    requires ZerosInserted(a, b)
    ensures ZerosInserted(a + [d], b + [d])
  {
    assert (a + [d])[..|a|] == a;
    assert (b + [d])[..|b|] == b;
  }

  lemma ZerosInsertedZero(a: string, b: string)
    requires ZerosInserted(a, b)
    ensures ZerosInserted(a, b + ['0'])
  {
    assert (b + ['0'])[..|b|] == b;
  }

  lemma DigitsSnoc(s: string, c: char)
    ensures Digits(s + [c]) == Digits(s) + (if IsDigit(c) then [c] else [])
  {
    assert (s + [c])[..|s|] == s;
  }

  lemma DigitsZeroThen(o: string, c: char)
    requires !IsDigit(c)
    ensures Digits(o + ['0', c]) == Digits(o) + ['0']
  {
    assert o + ['0', c] == (o + ['0']) + [c];
    DigitsSnoc(o, '0');
    DigitsSnoc(o + ['0'], c);
  }

  lemma DigitsReplaceLast(o: string, c: char)
    requires o != [] && !IsDigit(c) && !IsDigit(o[|o| - 1])
    ensures Digits(o[..|o| - 1] + [c]) == Digits(o)
  {
    var p := o[..|o| - 1];
    assert o == p + [o[|o| - 1]];
    DigitsSnoc(p, o[|o| - 1]);
    DigitsSnoc(p, c);
  }

  /** The digits of a step's text: a digit is appended, or only a '0' is. */
  lemma StepDigitsOut(st: Scan, c: char)
    requires st.last == LastOf(st.out)
    ensures var o := st.out;
      || Digits(Step(st, c).out) == Digits(o) + (if IsDigit(c) then [c] else [])
      || (!IsDigit(c) && Digits(Step(st, c).out) == Digits(o) + ['0'])
  {
    var o := st.out;
    var r := Step(st, c).out;
    if IsDigit(c) {
      DigitsSnoc(o, c);
    } else if r == o {
      assert Digits(o) + [] == Digits(o);
    } else if r == o + [c] {
      DigitsSnoc(o, c);
    } else if r == o + ['0', c] {
      DigitsZeroThen(o, c);
    } else {
      assert IsOperator(c) && o != [] && LastIsOperator(st);
      assert r == o[..|o| - 1] + [c];
      DigitsReplaceLast(o, c);
      assert Digits(o) + [] == Digits(o);
    }
  }

  lemma StepDigits(a: string, st: Scan, c: char)
    requires ZerosInserted(a, Digits(st.out)) && st.last == LastOf(st.out)
    ensures ZerosInserted(a + (if IsDigit(c) then [c] else []), Digits(Step(st, c).out))
  {
    var o := st.out;
    StepDigitsOut(st, c);
    if IsDigit(c) {
      ZerosInsertedDigit(a, Digits(o), c);
    } else {
      assert a + [] == a;
      if Digits(Step(st, c).out) == Digits(o) + ['0'] {
        ZerosInsertedZero(a, Digits(o));
      } else {
        assert Digits(o) + [] == Digits(o);
      }
    }
  }

  lemma {:induction false} ScannedDigits(s: string)
    ensures ZerosInserted(Digits(s), Digits(Scanned(s).out))
    decreases |s|
  {
    if s != [] {
      var p := s[..|s| - 1];
      var c := s[|s| - 1];
      ScannedDigits(p);
      ScannedInv(p);
      StepDigits(Digits(p), Scanned(p), c);
      assert p + [c] == s;
      DigitsSnoc(p, c);
    }
  }

  lemma {:induction false} DigitsUnifyOps(s: string)
    ensures Digits(UnifyOps(s)) == Digits(s)
    decreases |s|
  {
    if s != [] {
      var p := s[..|s| - 1];
      assert UnifyOps(s)[..|s| - 1] == UnifyOps(p);
      DigitsUnifyOps(p);
    }
  }

  lemma {:induction false} DigitsRemoveSpaces(s: string)
    ensures Digits(RemoveSpaces(s)) == Digits(s)
    decreases |s|
  {
    if s != [] {
      var p := s[..|s| - 1];
      var c := s[|s| - 1];
      DigitsRemoveSpaces(p);
      DigitsAppend(RemoveSpaces(p), if IsSpace(c) then [] else [c]);
      assert [c][..0] == [];
      assert Digits([c]) == Digits([]) + (if IsDigit(c) then [c] else []);
    }
  }

  lemma {:induction false} DigitsKeepAllowed(s: string)
    ensures Digits(KeepAllowed(s)) == Digits(s)
    decreases |s|
  {
    if s != [] {
      var p := s[..|s| - 1];
      var c := s[|s| - 1];
      DigitsKeepAllowed(p);
      DigitsAppend(KeepAllowed(p), if IsAllowed(c) then [c] else []);
      assert [c][..0] == [];
      assert Digits([c]) == Digits([]) + (if IsDigit(c) then [c] else []);
    }
  }

  /** Every digit of the input survives, in order; the only digits added are '0's. */
  lemma SanitizeKeepsDigits(input: string)
    ensures ZerosInserted(Digits(input), Digits(Sanitize(input)))
  {
    DigitsUnifyOps(input);
    DigitsRemoveSpaces(UnifyOps(input));
    DigitsKeepAllowed(RemoveSpaces(UnifyOps(input)));
    ScannedDigits(Prepared(input));
  }

  // ---------------------------------------------------------------------------
  // One '.' per segment, stated with indices
  // ---------------------------------------------------------------------------

  lemma {:induction false} NoDotAfter(s: string, i: nat)
    requires i < |s| && s[i] == '.' && !SegmentHasDot(s)
    ensures exists k :: i < k < |s| && IsOperator(s[k])
    decreases |s|
  {
    var n := |s|;
    if !IsOperator(s[n - 1]) {
      assert s[n - 1] != '.';
      var p := s[..n - 1];
      assert p[i] == '.';
      NoDotAfter(p, i);
      var k :| i < k < |p| && IsOperator(p[k]);
      assert s[k] == p[k];
    }
  }

  /** Between any two '.' of a canonical text there is an operator. */
  lemma {:induction false} DotsSeparated(s: string, i: nat, j: nat)
    requires OneDotPerSegment(s)
    requires i < j < |s| && s[i] == '.' && s[j] == '.'
    ensures exists k :: i < k < j && IsOperator(s[k])
    decreases |s|
  {
    var p := s[..|s| - 1];
    if j == |s| - 1 {
      assert p[i] == '.';
      NoDotAfter(p, i);
      var k :| i < k < |p| && IsOperator(p[k]);
      assert s[k] == p[k];
    } else {
      assert p[i] == '.' && p[j] == '.';
      DotsSeparated(p, i, j);
      var k :| i < k < j && IsOperator(p[k]);
      assert s[k] == p[k];
    }
  }

  // ---------------------------------------------------------------------------
  // Fixed points, and why the sanitizer is not idempotent
  // ---------------------------------------------------------------------------

  /** What a strictly canonical text says about its last character `c` and the text `p` before it. */
  predicate LastCharFits(p: string, c: char)
  {
    && IsAllowed(c)
    && (c == '.' ==> p != [] && IsDigit(p[|p| - 1]) && !SegmentHasDot(p))
    && (IsOperator(c) && p == [] ==> c == '-')
    && (IsOperator(c) && p != [] && IsOperator(p[|p| - 1]) ==> p[|p| - 1] != '-' && c == '-')
    && (IsOperator(c) && p != [] ==> p[|p| - 1] != '.')
  }

  /**
   * A canonical text that also starts with no operator but '-', and whose only adjacent
   * operators are a binary operator other than '-' followed by '-' (a negative operand):
   * every character fits after the text before it in this stricter sense.
   */
  predicate StrictCanonical(s: string)
  {
    s == [] || (StrictCanonical(s[..|s| - 1]) && LastCharFits(s[..|s| - 1], s[|s| - 1]))
  }

  lemma {:induction false} StrictIsCanonical(s: string)
    requires StrictCanonical(s)
    ensures Canonical(s)
    decreases |s|
  {
    if s != [] {
      StrictIsCanonical(s[..|s| - 1]);
    }
  }

  /** On a text whose characters fit, the loop's accumulators are the text, its last character and its segment's '.'. */
  lemma StepFits(p: string, c: char)
    requires LastCharFits(p, c)
    ensures Step(Scan(p, LastOf(p), SegmentHasDot(p)), c) == Scan(p + [c], LastOf(p + [c]), SegmentHasDot(p + [c]))
  {
    assert (p + [c])[..|p|] == p;
  }

  lemma {:induction false} ScannedStrict(s: string)
    requires StrictCanonical(s)
    ensures Scanned(s) == Scan(s, LastOf(s), SegmentHasDot(s))
    decreases |s|
  {
    if s != [] {
      var p := s[..|s| - 1];
      var c := s[|s| - 1];
      assert p + [c] == s;
      ScannedStrict(p);
      StepFits(p, c);
    }
  }

  /** Sanitizing a strictly canonical text gives it back unchanged. */
  lemma SanitizeFixesStrict(s: string)
    requires StrictCanonical(s)
    ensures Sanitize(s) == s
  {
    StrictIsCanonical(s);
    CanonicalIndexed(s);
    PreparedAllowed(s);
    ScannedStrict(s);
  }

  lemma SanitizeEmpty()
    ensures Sanitize("") == ""
  {
    PreparedAllowed("");
  }

  /** A single digit is kept. */
  lemma SanitizeOneDigit(d: char)
    requires IsDigit(d)
    ensures Sanitize([d]) == [d]
  {
    var e: string := [];
    SanitizeEmpty();
    SanitizeAppendDigit(e, d);
    assert e + [d] == [d];
  }

  lemma SanitizeOperatorAfterDigit(t: string, op: char)
    requires IsOperator(op)
    requires var o := Sanitize(t); o != [] && IsDigit(o[|o| - 1])
    ensures Sanitize(t + [op]) == Sanitize(t) + [op]
  {
    SanitizeAppendOperator(t, op);
  }

  /** Sequence displays written as concatenations, kept apart from the proofs about `Sanitize`. */
  lemma Displays(a: char, b: char, c: char, d: char)
    ensures [a] + [b] == [a, b]
    ensures [a, b] + [c] == [a, b, c]
    ensures [a, b] + [c, d] == [a, b, c, d]
  {
  }

  /** A digit then an operator are kept. */
  lemma SanitizeDigitOperator(d: char, op: char)
    requires IsDigit(d) && IsOperator(op)
    ensures Sanitize([d, op]) == [d, op]
  {
    SanitizeDigitOperatorSteps(d, op);
    Displays(d, op, op, op);
  }

  lemma SanitizeDigitOperatorSteps(d: char, op: char)
    requires IsDigit(d) && IsOperator(op)
    ensures Sanitize([d] + [op]) == [d] + [op]
  {
    SanitizeOneDigit(d);
    SanitizeOperatorAfterDigit([d], op);
  }

  /**
   * After an operator other than '-', typing '-' and then an operator `op` other than
   * '-' leaves one more operator: the '-' is appended, then replaced by `op`.
   */
  lemma SanitizeMinusThenOperator(t: string, op: char)
    requires IsOperator(op) && op != '-'
    requires var o := Sanitize(t); o != [] && IsOperator(o[|o| - 1]) && o[|o| - 1] != '-'
    ensures Sanitize(t + ['-', op]) == Sanitize(t) + [op]
  {
    var o := Sanitize(t);
    SanitizeAppendOperator(t, '-');
    assert t + ['-', op] == (t + ['-']) + [op];
    SanitizeAppendOperator(t + ['-'], op);
    assert (o + "-")[..|o|] == o;
  }

  /** `n` copies of the pair '-', `op`. */
  function MinusPairs(op: char, n: nat): (r: string)
    ensures |r| == 2 * n
  {
    if n == 0 then [] else MinusPairs(op, n - 1) + ['-', op]
  }

  /** `n` copies of `op`. */
  function Repeat(op: char, n: nat): (r: string)
    ensures |r| == n
  {
    if n == 0 then [] else Repeat(op, n - 1) + [op]
  }

  lemma ScannedAgrees(p: string)
    ensures Scanned(p).last == LastOf(Scanned(p).out)
  {
    ScannedInv(p);
  }

  lemma {:induction false} PreparedAppendAllowed(t: string, w: string)
    requires forall i :: 0 <= i < |w| ==> IsAllowed(w[i])
    ensures Prepared(t + w) == Prepared(t) + w
    decreases |w|
  {
    if w == [] {
      assert t + w == t && Prepared(t) + w == Prepared(t);
    } else {
      var v := w[..|w| - 1];
      var c := w[|w| - 1];
      assert w == v + [c];
      assert IsAllowed(c);
      assert forall i :: 0 <= i < |v| ==> v[i] == w[i];
      PreparedAppendAllowed(t, v);
      SnocRegroup(t, v, c);
      SnocRegroup(Prepared(t), v, c);
      PreparedAppend(t + v, c);
    }
  }

  lemma SnocRegroup(a: string, v: string, c: char)
    ensures (a + v) + [c] == a + (v + [c])
    ensures v + [c] == (v + [c])[..|v|] + [c] && (v + [c])[..|v|] == v
  {
  }

  lemma ScannedMinusThenOperator(q: string, op: char)
    requires IsOperator(op) && op != '-'
    requires var o := Scanned(q).out; o != [] && o[|o| - 1] == op
    ensures Scanned(q + ['-', op]).out == Scanned(q).out + [op]
  {
    var o := Scanned(q).out;
    ScannedAgrees(q);
    var q1 := q + ['-'];
    var q2 := q1 + [op];
    assert q1[..|q|] == q;
    assert q2[..|q1|] == q1;
    assert Scanned(q1).out == o + ['-'] && Scanned(q1).last == Some('-');
    assert (o + ['-'])[..|o|] == o;
    assert q + ['-', op] == q2;
  }

  lemma {:induction false} ScannedOperatorRun(p: string, op: char, n: nat)
    requires IsOperator(op) && op != '-'
    requires var o := Scanned(p).out; o != [] && o[|o| - 1] == op
    ensures Scanned(p + MinusPairs(op, n)).out == Scanned(p).out + Repeat(op, n)
    decreases n
  {
    var o := Scanned(p).out;
    if n > 0 {
      ScannedOperatorRun(p, op, n - 1);
      var q := p + MinusPairs(op, n - 1);
      var oq := Scanned(q).out;
      assert oq == o + Repeat(op, n - 1);
      assert oq[|oq| - 1] == op;
      ScannedMinusThenOperator(q, op);
      assert p + MinusPairs(op, n) == q + ['-', op];
      assert o + Repeat(op, n) == o + Repeat(op, n - 1) + [op];
    } else {
      assert p + MinusPairs(op, 0) == p;
      assert o + Repeat(op, 0) == o;
    }
  }

  /**
   * Runs of operators are not bounded: after a text whose sanitized form ends with `op`,
   * each further "-" `op` typed adds one more `op`.
   */
  lemma SanitizeOperatorRun(t: string, op: char, n: nat)
    requires IsOperator(op) && op != '-'
    requires var o := Sanitize(t); o != [] && o[|o| - 1] == op
    ensures Sanitize(t + MinusPairs(op, n)) == Sanitize(t) + Repeat(op, n)
  {
    var w := MinusPairs(op, n);
    assert forall i :: 0 <= i < |w| ==> w[i] == '-' || w[i] == op by {
      MinusPairsChars(op, n);
    }
    PreparedAppendAllowed(t, w);
    ScannedOperatorRun(Prepared(t), op, n);
  }

  lemma {:induction false} MinusPairsChars(op: char, n: nat)
    ensures forall i :: 0 <= i < |MinusPairs(op, n)| ==> MinusPairs(op, n)[i] == '-' || MinusPairs(op, n)[i] == op
    decreases n
  {
    if n > 0 {
      MinusPairsChars(op, n - 1);
    }
  }

  /** Sanitizing is not idempotent: "5×-×" becomes "5××", which becomes "5×". */
  lemma SanitizeNotIdempotent(d: char, op: char)
    requires IsDigit(d) && IsOperator(op) && op != '-'
    ensures Sanitize([d, op, '-', op]) == [d, op, op]
    ensures Sanitize([d, op, op]) == [d, op]
  {
    NotIdempotentSteps(d, op, [d, op]);
    Displays(d, op, '-', op);
    Displays(d, op, op, op);
  }

  lemma NotIdempotentSteps(d: char, op: char, t: string)
    requires IsDigit(d) && IsOperator(op) && op != '-' && t == [d, op]
    ensures Sanitize(t + ['-', op]) == t + [op]
    ensures Sanitize(t + [op]) == t
  {
    SanitizeDigitOperator(d, op);
    SanitizeMinusThenOperator(t, op);
    SanitizeAppendOperator(t, op);
    assert t[..1] + [op] == t;
  }

  /** An operator typed after a lone leading '-' replaces it, so a sanitized text can start with '+'. */
  lemma SanitizeLeadingOperatorReplaced(op: char)
    requires IsOperator(op) && op != '-'
    ensures Sanitize(['-', op]) == [op]
  {
    LeadingOperatorSteps(op);
    Displays('-', op, op, op);
  }

  lemma LeadingOperatorSteps(op: char)
    requires IsOperator(op) && op != '-'
    ensures Sanitize(['-'] + [op]) == [op]
  {
    var e: string := [];
    SanitizeEmpty();
    SanitizeAppendOperator(e, '-');
    assert e + ['-'] == ['-'];
    SanitizeAppendOperator(e + ['-'], op);
  }

  // ---------------------------------------------------------------------------
  // dropTrailingOperators
  // ---------------------------------------------------------------------------

  /** `dropTrailingOperators`: the longest prefix that does not end with an operator. */
  function DropTrailing(s: string): (r: string)
    ensures |r| <= |s| && r == s[..|r|]
    ensures r == [] || !IsOperator(r[|r| - 1])
    ensures forall i :: |r| <= i < |s| ==> IsOperator(s[i])
  {
    if s != [] && IsOperator(s[|s| - 1]) then DropTrailing(s[..|s| - 1]) else s
  }

  /** `dropTrailingOperators`, with its loop. */
  method DropTrailingOperators(s: string) returns (out: string)
    ensures out == DropTrailing(s)
  {
    out := s;
    while out != [] && IsOperator(out[|out| - 1])
      invariant DropTrailing(out) == DropTrailing(s)
    {
      out := out[..|out| - 1];
    }
  }
}
