/**
 * The calculator's display (app/scripts/ui/calculatorUI.js, lines 215-348): the text of
 * the display field and its `calc-invalid` mark, driven by the keypad, the Enter and
 * Escape keys, and edits of the field.
 */
module CalcDisplay {
  import opened Wrappers
  import opened JsText
  import opened CalcText
  import opened CalcEval
  import opened CalcFormat

  const BackspaceKey: char := '\U{232B}'  // ⌫

  // ---------------------------------------------------------------------------
  // How the handlers read the display
  // ---------------------------------------------------------------------------

  /** `unifyOps(getDisplay()).replace(/\s+/g, '')`: the trimmed text, aliases unified, white space removed. */
  function Normalized(raw: string): string
  {
    RemoveSpaces(UnifyOps(Trim(raw)))
  }

  /** `s.lastIndexOf(c)`: the last index holding `c`, or -1. */
  function LastIndexOf(s: string, c: char): (r: int)
    ensures -1 <= r < |s|
    ensures 0 <= r ==> s[r] == c
    ensures forall j :: r < j < |s| ==> s[j] != c
  {
    if s == [] then -1
    else if s[|s| - 1] == c then |s| - 1
    else
      var r := LastIndexOf(s[..|s| - 1], c);
      assert forall j :: r < j < |s| - 1 ==> s[j] == s[..|s| - 1][j];
      r
  }

  function Max(a: int, b: int): int
  {
    if a < b then b else a
  }

  /** `Math.max` of the `lastIndexOf` of the four operators: the index of the last operator, or -1. */
  function LastOperatorIndex(s: string): (r: int)
    ensures -1 <= r < |s|
    ensures 0 <= r ==> IsOperator(s[r])
    ensures forall j :: r < j < |s| ==> !IsOperator(s[j])
  {
    Max(Max(LastIndexOf(s, '+'), LastIndexOf(s, '-')), Max(LastIndexOf(s, Times), LastIndexOf(s, Divide)))
  }

  /** The current number segment, the text after the last operator. */
  function Segment(s: string): (r: string)
    ensures |r| <= |s| && r == s[|s| - |r|..]
    ensures forall i :: 0 <= i < |r| ==> !IsOperator(r[i])
    ensures |r| < |s| ==> IsOperator(s[|s| - |r| - 1])
  {
    s[LastOperatorIndex(s) + 1..]
  }

  /** When `s` does not end with an operator, its segment is the previous one and its last character. */
  lemma SegmentSnoc(s: string)
    requires s != [] && !IsOperator(s[|s| - 1])
    ensures Segment(s) == Segment(s[..|s| - 1]) + [s[|s| - 1]]
  {
    var p := s[..|s| - 1];
    var k := LastOperatorIndex(s);
    assert s[k + 1..] == p[k + 1..] + [s[|s| - 1]];
  }

  /**
   * The segment found with `lastIndexOf` is the one the sanitizer tracks: it holds a '.'
   * exactly when `SegmentHasDot`, and it is empty exactly at the start of the text or
   * right after an operator.
   */
  lemma {:induction false} SegmentDot(s: string)
    ensures ('.' in Segment(s)) == SegmentHasDot(s)
    ensures Segment(s) == [] <==> s == [] || IsOperator(s[|s| - 1])
    decreases |s|
  {
    if s != [] && !IsOperator(s[|s| - 1]) {
      SegmentSnoc(s);
      SegmentDot(s[..|s| - 1]);
    }
  }

  // ---------------------------------------------------------------------------
  // The keys, as functions of the display text
  // ---------------------------------------------------------------------------

  /** `appendNumber(d)`: the digit typed after the trimmed text, then sanitized. */
  function DigitKey(raw: string, d: char): string
  {
    Sanitize(Trim(raw) + [d])
  }

  /**
   * `appendDot`: nothing changes when the current segment already holds a '.'; an empty
   * segment (or one that is just "-", which the segment never is) gets "0.", any other
   * segment '.'; the result is sanitized.
   */
  function DotKey(raw: string): string
  {
    var s := Normalized(raw);
    var segment := Segment(s);
    if '.' in segment then raw
    else if segment == [] || segment == "-" then Sanitize(s + "0.")
    else Sanitize(s + ".")
  }

  /**
   * `appendOperator(op)`: on an empty text only '-' is written; after an operator a '-'
   * that follows anything but '-' is appended and any other operator replaces it; after
   * a '.' a '0' comes first; the result is sanitized.
   */
  function OperatorKey(raw: string, op: char): string
  {
    var s := Normalized(raw);
    if s == [] then (if op == '-' then "-" else raw)
    else Sanitize(OperatorEdit(s, op))
  }

  /** The text `appendOperator(op)` writes, before sanitizing, when the normalized text `s` is not empty. */
  function OperatorEdit(s: string, op: char): string
    requires s != []
  {
    var last := s[|s| - 1];
    if IsOperator(last) then
      (if op == '-' && last != '-' then s + "-" else s[..|s| - 1] + [op])
    else if last == '.' then s + ['0', op]
    else s + [op]
  }

  /** What the handlers read and write: the display's text and whether it carries the `calc-invalid` mark. */
  datatype Screen = Screen(text: string, invalid: bool)

  /** `backspace`: on a text that trims to nothing, nothing changes. */
  function Backspaced(sc: Screen): Screen
  {
    var v := Trim(sc.text);
    if v == [] then sc else Screen(Sanitize(v[..|v| - 1]), false)
  }

  /** The expression `compute` evaluates: the normalized text without trailing operators. */
  function Expression(raw: string): string
  {
    DropTrailing(Normalized(raw))
  }

  /** What `compute` finds: nothing to evaluate, a text it rejects, or a finite result. */
  datatype Outcome = NothingToDo | Rejected | Shown(x: real)

  function ComputeOutcome(raw: string): Outcome
  {
    var expr := Expression(raw);
    if expr == [] then NothingToDo
    else
      match Tokens(expr)
      case None => Rejected
      case Some(ts) =>
        TokensWellFormed(expr);
        match Evaluate(ts)
        case NonFinite => Rejected
        case Finite(x) => Shown(x)
  }

  /** The outcome, branch by branch as `compute` takes them. */
  lemma ComputeOutcomeCases(raw: string)
    ensures var e := Expression(raw);
      && (e == [] ==> ComputeOutcome(raw) == NothingToDo)
      && (e != [] && Tokens(e).None? ==> ComputeOutcome(raw) == Rejected)
      && (e != [] && Tokens(e).Some? ==>
            WellFormed(Tokens(e).value)
            && ComputeOutcome(raw) ==
                 match Evaluate(Tokens(e).value)
                 case NonFinite => Rejected
                 case Finite(x) => Shown(x))
  {
    var e := Expression(raw);
    if e != [] && Tokens(e).Some? {
      TokensWellFormed(e);
    }
  }

  /** The screen `compute` leaves, branch by branch as it takes them. */
  lemma ComputedCases(sc: Screen)
    ensures var e := Expression(sc.text);
      && (e == [] ==> Computed(sc) == Screen(sc.text, false))
      && (e != [] && Tokens(e).None? ==> Computed(sc) == Screen(sc.text, true))
      && (e != [] && Tokens(e).Some? ==>
            var ts := Tokens(e).value;
            && ts != [] && WellFormed(ts)
            && (Evaluate(ts).NonFinite? ==> Computed(sc) == Screen(sc.text, true))
            && (Evaluate(ts).Finite? ==> Computed(sc) == Screen(FormatResult(Evaluate(ts)), false)))
  {
    ComputeOutcomeCases(sc.text);
  }

  /** `compute`: the mark is removed, then set again when the text is rejected; a result replaces the text. */
  function Computed(sc: Screen): Screen
  {
    match ComputeOutcome(sc.text)
    case NothingToDo => Screen(sc.text, false)
    case Rejected => Screen(sc.text, true)
    case Shown(x) => Screen(FormatResult(Finite(x)), false)
  }

  /** `handleKey(key)`, for the value of a keypad button's `data-key`. */
  function Press(sc: Screen, key: string): Screen
  {
    if key == "C" then Screen("", false)
    else if key == [BackspaceKey] then Backspaced(sc)
    else if key == "=" then Computed(sc)
    else if key == "." then sc.(text := DotKey(sc.text))
    else if key == "+" || key == "-" || key == [Times] || key == [Divide] then sc.(text := OperatorKey(sc.text, key[0]))
    else if |key| == 1 && IsDigit(key[0]) then sc.(text := DigitKey(sc.text, key[0]))
    else sc
  }

  // ---------------------------------------------------------------------------
  // The keys on a strictly canonical display: the same as typing the character
  // ---------------------------------------------------------------------------

  /** A canonical text holds neither white space nor an operator alias. */
  lemma CanonicalPlain(t: string)
    requires Canonical(t)
    ensures NoSpaces(t)
    ensures forall i :: 0 <= i < |t| ==> !IsAlias(t[i])
  {
    CanonicalIndexed(t);
    forall i | 0 <= i < |t|
      ensures !IsSpace(t[i]) && !IsAlias(t[i])
    {
      assert IsAllowed(t[i]);
    }
  }

  /** A canonical text is read back unchanged. */
  lemma NormalizedCanonical(t: string)
    requires Canonical(t)
    ensures Trim(t) == t && Normalized(t) == t
  {
    CanonicalPlain(t);
    TrimNoSpaces(t);
    UnifyOpsPlain(t);
    RemoveSpacesNoSpaces(t);
  }

  lemma NormalizedStrict(t: string)
    requires StrictCanonical(t)
    ensures Canonical(t) && Trim(t) == t && Normalized(t) == t && Sanitize(t) == t
  {
    StrictIsCanonical(t);
    NormalizedCanonical(t);
    SanitizeFixesStrict(t);
  }

  lemma TrimStrict(t: string)
    requires StrictCanonical(t)
    ensures Trim(t) == t
  {
    NormalizedStrict(t);
  }

  lemma StrictSnoc(p: string, c: char)
    requires StrictCanonical(p) && LastCharFits(p, c)
    ensures StrictCanonical(p + [c])
  {
    assert (p + [c])[..|p|] == p;
  }

  /** One more character that fits: the text stays strictly canonical, so sanitizing keeps it. */
  lemma SanitizeStrictSnoc(t: string, c: char)
    requires StrictCanonical(t) && LastCharFits(t, c)
    ensures StrictCanonical(t + [c]) && Sanitize(t + [c]) == t + [c]
  {
    StrictSnoc(t, c);
    NormalizedStrict(t + [c]);
  }

  lemma DigitFits(p: string, d: char)
    requires IsDigit(d)
    ensures LastCharFits(p, d)
  {
  }

  lemma OperatorFitsAfterDigit(p: string, op: char)
    requires p != [] && IsDigit(p[|p| - 1]) && IsOperator(op)
    ensures LastCharFits(p, op)
  {
  }

  lemma MinusFitsAfterOperator(p: string)
    requires p != [] && IsOperator(p[|p| - 1]) && p[|p| - 1] != '-'
    ensures LastCharFits(p, '-')
  {
  }

  lemma DotFits(p: string)
    requires p != [] && IsDigit(p[|p| - 1]) && !SegmentHasDot(p)
    ensures LastCharFits(p, '.')
  {
  }

  /** The last character of a strictly canonical text, seen through the text before it. */
  lemma StrictLast(t: string)
    requires StrictCanonical(t) && t != []
    ensures StrictCanonical(t[..|t| - 1]) && LastCharFits(t[..|t| - 1], t[|t| - 1])
    ensures IsAllowed(t[|t| - 1])
    ensures t[|t| - 1] == '.' ==> SegmentHasDot(t)
  {
    var p := t[..|t| - 1];
    assert p + [t[|t| - 1]] == t;
  }

  /** A zero after the text leaves its segment's '.' as it was. */
  lemma SegmentHasDotZero(t: string)
    ensures SegmentHasDot(t + ['0']) == SegmentHasDot(t)
  {
    assert (t + ['0'])[..|t|] == t;
  }

  /** A digit key appends the digit, as typing it would. */
  lemma DigitKeyAppends(t: string, d: char)
    requires StrictCanonical(t) && IsDigit(d)
    ensures DigitKey(t, d) == t + [d] == Sanitize(t + [d])
    ensures StrictCanonical(t + [d])
  {
    TrimStrict(t);
    DigitFits(t, d);
    SanitizeStrictSnoc(t, d);
  }

  /** What the sanitizer makes of a '.' typed after a strictly canonical text. */
  function WithDot(t: string): string
  {
    if SegmentHasDot(t) then t
    else if t == [] || IsOperator(t[|t| - 1]) then t + "0."
    else t + "."
  }

  lemma SanitizeDotOnStrict(t: string)
    requires StrictCanonical(t)
    ensures Sanitize(t + ".") == WithDot(t)
  {
    NormalizedStrict(t);
    SanitizeAppendDot(t);
  }

  /** The segment never is "-": it holds no operator. */
  lemma SegmentNotMinus(s: string)
    ensures Segment(s) != "-"
  {
    var g := Segment(s);
    if g == "-" {
      assert IsOperator(g[0]);
    }
  }

  lemma DotKeyOnNormalized(t: string)
    requires Normalized(t) == t
    ensures DotKey(t) ==
      if '.' in Segment(t) then t
      else if Segment(t) == [] || Segment(t) == "-" then Sanitize(t + "0.")
      else Sanitize(t + ".")
  {
  }

  lemma DotKeyOnStrict(t: string)
    requires Normalized(t) == t
    ensures DotKey(t) == if SegmentHasDot(t) then t else Sanitize(WithDot(t))
  {
    DotKeyOnNormalized(t);
    SegmentNotMinus(t);
    SegmentDot(t);
  }

  lemma WithDotStrict(t: string)
    requires StrictCanonical(t)
    ensures StrictCanonical(WithDot(t))
  {
    if SegmentHasDot(t) {
    } else if t == [] || IsOperator(t[|t| - 1]) {
      DigitFits(t, '0');
      StrictSnoc(t, '0');
      SegmentHasDotZero(t);
      DotFits(t + ['0']);
      StrictSnoc(t + ['0'], '.');
      assert t + ['0'] + ['.'] == t + "0.";
    } else {
      StrictLast(t);
      DotFits(t);
      StrictSnoc(t, '.');
    }
  }

  /**
   * The '.' key does what typing '.' does: nothing when the segment already holds a '.',
   * "0." on an empty segment, '.' otherwise.
   */
  lemma DotKeyIsTypedDot(t: string)
    requires StrictCanonical(t)
    ensures DotKey(t) == WithDot(t) == Sanitize(t + ".")
    ensures StrictCanonical(WithDot(t))
  {
    NormalizedStrict(t);
    SanitizeDotOnStrict(t);
    DotKeyOnStrict(t);
    WithDotStrict(t);
    NormalizedStrict(WithDot(t));
  }

  /** What the sanitizer makes of an operator typed after a strictly canonical text. */
  function WithOperator(t: string, op: char): string
  {
    if t == [] then (if op == '-' then "-" else "") else OperatorEdit(t, op)
  }

  /**
   * The operator key differs from typing the operator when it replaces an operator that
   * is preceded by nothing or by another operator: the text before the replaced operator
   * is then sanitized with the new operator once more.
   */
  predicate ReplacesAfterOperator(t: string, op: char)
  {
    op != '-' && t != [] && IsOperator(t[|t| - 1]) && (|t| == 1 || IsOperator(t[|t| - 2]))
  }

  lemma SanitizeOperatorOnStrict(t: string, op: char)
    requires StrictCanonical(t) && IsOperator(op)
    ensures Sanitize(t + [op]) == WithOperator(t, op)
  {
    NormalizedStrict(t);
    SanitizeAppendOperator(t, op);
  }

  /** The two ways `appendOperator` ends: without writing, or with the sanitized edit. */
  lemma OperatorKeyReads(raw: string, op: char)
    ensures var s := Normalized(raw); s == [] ==> OperatorKey(raw, op) == if op == '-' then "-" else raw
    ensures var s := Normalized(raw); s != [] ==> OperatorKey(raw, op) == Sanitize(OperatorEdit(s, op))
  {
  }

  lemma OperatorKeyOnNormalized(t: string, op: char)
    requires Normalized(t) == t && t != []
    ensures OperatorKey(t, op) == Sanitize(WithOperator(t, op))
  {
    OperatorKeyReads(t, op);
  }

  lemma OperatorKeyOnEmpty(op: char)
    ensures OperatorKey([], op) == WithOperator([], op)
  {
    OperatorKeyReads([], op);
  }

  /** Outside the two replacements, typing the operator keeps the text strictly canonical. */
  lemma WithOperatorStrict(t: string, op: char)
    requires StrictCanonical(t) && IsOperator(op) && !ReplacesAfterOperator(t, op)
    ensures StrictCanonical(WithOperator(t, op))
  {
    if t == [] {
      if op == '-' {
        StrictSnoc([], '-');
        assert [] + ['-'] == "-";
      }
    } else {
      StrictLast(t);
      var p := t[..|t| - 1];
      var x := t[|t| - 1];
      if IsOperator(x) {
        if op == '-' && x != '-' {
          MinusFitsAfterOperator(t);
          StrictSnoc(t, '-');
        } else if op == '-' {
          assert p + [op] == t;
        } else {
          StrictLast(p);
          OperatorFitsAfterDigit(p, op);
          StrictSnoc(p, op);
        }
      } else if x == '.' {
        DigitFits(t, '0');
        StrictSnoc(t, '0');
        OperatorFitsAfterDigit(t + ['0'], op);
        StrictSnoc(t + ['0'], op);
        assert t + ['0'] + [op] == t + ['0', op];
      } else {
        OperatorFitsAfterDigit(t, op);
        StrictSnoc(t, op);
      }
    }
  }

  /** In a replacement, the text before the replaced operator is empty or ends with a digit. */
  lemma ReplacedPrefix(t: string, op: char)
    requires StrictCanonical(t) && ReplacesAfterOperator(t, op)
    ensures var p := t[..|t| - 1];
      StrictCanonical(p) && !ReplacesAfterOperator(p, op)
      && (p == [] || IsOperator(p[|p| - 1]))
  {
    StrictLast(t);
    var p := t[..|t| - 1];
    if p != [] {
      StrictLast(p);
      var q := p[..|p| - 1];
      if q != [] {
        assert !IsOperator(q[|q| - 1]);
      }
    }
  }

  /**
   * An operator key does what typing the operator does, except in the two replacements
   * `ReplacesAfterOperator` names, where it types the operator after the text before the
   * replaced one; either way the display stays strictly canonical.
   */
  lemma OperatorKeyIsTypedOperator(t: string, op: char)
    requires StrictCanonical(t) && IsOperator(op)
    ensures Sanitize(t + [op]) == WithOperator(t, op)
    ensures OperatorKey(t, op) ==
      if ReplacesAfterOperator(t, op) then WithOperator(t[..|t| - 1], op) else WithOperator(t, op)
    ensures StrictCanonical(OperatorKey(t, op))
  {
    NormalizedStrict(t);
    SanitizeOperatorOnStrict(t, op);
    if t == [] {
      OperatorKeyOnEmpty(op);
    } else {
      OperatorKeyOnNormalized(t, op);
    }
    if ReplacesAfterOperator(t, op) {
      var p := t[..|t| - 1];
      ReplacedPrefix(t, op);
      assert WithOperator(t, op) == p + [op];
      SanitizeOperatorOnStrict(p, op);
      WithOperatorStrict(p, op);
    } else {
      WithOperatorStrict(t, op);
      if t != [] {
        NormalizedStrict(WithOperator(t, op));
      }
    }
  }

  /** "5×-" then ×: the key gives "5×", typing gives "5××". */
  lemma OperatorKeyAfterNegativeSign(d: char, op: char)
    requires IsDigit(d) && IsOperator(op) && op != '-'
    ensures OperatorKey([d, op, '-'], op) == [d, op]
    ensures Sanitize([d, op, '-'] + [op]) == [d, op, op]
  {
    var t := [d, op, '-'];
    NegativeOperandStrict(d, op);
    OperatorKeyIsTypedOperator(t, op);
    Displays(d, op, '-', op);
    WithOperatorReplaces([d], op, op);
    WithOperatorReplaces([d, op], '-', op);
  }

  /** Typing an operator after an operator it replaces. */
  lemma WithOperatorReplaces(p: string, x: char, op: char)
    requires IsOperator(x) && !(op == '-' && x != '-')
    ensures (p + [x])[..|p|] == p && WithOperator(p + [x], op) == p + [op]
  {
    assert (p + [x])[..|p|] == p;
  }

  lemma NegativeOperandStrict(d: char, op: char)
    requires IsDigit(d) && IsOperator(op) && op != '-'
    ensures StrictCanonical([d, op, '-'])
  {
    var t := [d, op, '-'];
    assert StrictCanonical(t) by {
      DigitFits([], d);
      StrictSnoc([], d);
      assert [] + [d] == [d];
      OperatorFitsAfterDigit([d], op);
      StrictSnoc([d], op);
      assert [d] + [op] == [d, op];
      MinusFitsAfterOperator([d, op]);
      StrictSnoc([d, op], '-');
      assert [d, op] + ['-'] == t;
    }
  }

  /** Backspace removes the last character. */
  lemma BackspaceRemovesLast(t: string, invalid: bool)
    requires StrictCanonical(t)
    ensures Backspaced(Screen(t, invalid)) ==
      if t == [] then Screen(t, invalid) else Screen(t[..|t| - 1], false)
    ensures t != [] ==> StrictCanonical(t[..|t| - 1])
  {
    TrimStrict(t);
    if t != [] {
      StrictLast(t);
      NormalizedStrict(t[..|t| - 1]);
    }
  }

  // ---------------------------------------------------------------------------
  // compute
  // ---------------------------------------------------------------------------

  lemma {:induction false} StrictDigits(p: string, ds: string)
    requires StrictCanonical(p) && AllDigits(ds)
    ensures StrictCanonical(p + ds)
    ensures SegmentHasDot(p + ds) == SegmentHasDot(p)
    ensures ds != [] ==> IsDigit((p + ds)[|p + ds| - 1])
    decreases |ds|
  {
    if ds == [] {
      assert p + ds == p;
    } else {
      var e := ds[..|ds| - 1];
      var d := ds[|ds| - 1];
      StrictDigits(p, e);
      assert p + ds == (p + e) + [d];
      StrictSnoc(p + e, d);
      assert ((p + e) + [d])[..|p + e|] == p + e;
    }
  }

  /** A literal with an integer part is strictly canonical and ends with a digit. */
  lemma LiteralStrict(negative: bool, a: string, f: string)
    requires a != [] && AllDigits(a) && AllDigits(f)
    ensures var u := Literal(negative, a, f);
      StrictCanonical(u) && u != [] && IsDigit(u[|u| - 1])
  {
    var sign := if negative then "-" else "";
    assert StrictCanonical(sign) && !SegmentHasDot(sign) by {
      if negative {
        StrictSnoc([], '-');
        assert [] + ['-'] == sign;
      }
    }
    StrictDigits(sign, a);
    var p := sign + a;
    if f != [] {
      DotFits(p);
      StrictSnoc(p, '.');
      StrictDigits(p + ".", f);
    }
  }

  lemma DropZerosDigits(t: string)
    requires AllDigits(t)
    ensures AllDigits(DropZeros(t))
  {
    var r := DropZeros(t);
    forall i | 0 <= i < |r|
      ensures IsDigit(r[i])
    {
      assert r[i] == t[i];
    }
  }

  /** The text `formatResult` shows for a finite result is strictly canonical and ends with a digit. */
  lemma FormatResultStrict(x: real)
    ensures var u := FormatResult(Finite(x));
      StrictCanonical(u) && u != [] && IsDigit(u[|u| - 1])
  {
    FormatText(x);
    ScaleIsPow10();
    var m := FixedUnits(x);
    var full := FixedDigits(m % Scale, 12);
    DropZerosDigits(full);
    LiteralStrict(x < 0.0, NatText(m / Scale), DropZeros(full));
  }

  /** `evaluateTokens` of a single number is that number. */
  lemma EvaluateOneNumber(v: real)
    ensures WellFormed([Num(v)]) && Evaluate([Num(v)]) == Finite(v)
  {
    assert NumbersOf([Num(v)]) == [v];
    assert OperatorsOf([Num(v)]) == [];
  }

  /**
   * Pressing '=' on a shown result: the text reads back as the number `toFixed(12)`
   * wrote, so the outcome is that number.
   */
  lemma ComputeOnResult(x: real)
    ensures ComputeOutcome(FormatResult(Finite(x))) == Shown(FixedValue(x))
  {
    var u := FormatResult(Finite(x));
    FormatResultStrict(x);
    ExpressionOfStrict(u);
    FormatResultRoundTrip(x);
    EvaluateOneNumber(FixedValue(x));
    OutcomeOfOneNumber(u, FixedValue(x));
  }

  /** A strictly canonical text that ends with a digit is evaluated as it stands. */
  lemma ExpressionOfStrict(u: string)
    requires StrictCanonical(u) && u != [] && IsDigit(u[|u| - 1])
    ensures Expression(u) == u
  {
    StrictIsCanonical(u);
    NormalizedCanonical(u);
    assert DropTrailing(u) == u;
  }

  lemma OutcomeOfOneNumber(u: string, v: real)
    requires u != [] && Expression(u) == u && Tokens(u) == Some([Num(v)])
    ensures ComputeOutcome(u) == Shown(v)
  {
    EvaluateOneNumber(v);
  }

  /** A finite result of `safeOp` is rounded, so `toFixed(12)` writes it exactly. */
  lemma SafeOpExact(a: Value, b: Value, op: char)
    requires IsOperator(op) && (op == Divide ==> b.Finite?)
    ensures var r := SafeOp(a, b, op); r.Finite? ==> FixedValue(r.x) == r.x
  {
    if SafeOp(a, b, op).Finite? {
      FixedValueRounded(Apply(a.x, b.x, op));
    }
  }

  /** With at least one operator, a finite value of `evaluateTokens` comes from `safeOp`. */
  lemma EvaluateExact(ts: seq<Token>)
    requires WellFormed(ts) && |ts| > 1
    ensures var r := Evaluate(ts); r.Finite? ==> FixedValue(r.x) == r.x
  {
    var n := NumbersOf(ts);
    var o := OperatorsOf(ts);
    var r := Reduce(ts);
    if r.ops != [] {
      var k := |r.ops|;
      SafeOpExact(FoldAddSub(r.nums[..k], r.ops[..k - 1]), r.nums[k], r.ops[k - 1]);
    } else {
      var prev := FoldMulDiv(n[..|n| - 1], o[..|o| - 1]);
      var b := Finite(n[|n| - 1]);
      SafeOpExact(prev.nums[|prev.nums| - 1], b, o[|o| - 1]);
    }
  }

  /**
   * Pressing '=' twice: when the expression held an operator, the second press shows the
   * same result again.
   */
  lemma RepeatedEquals(t: string, x: real)
    requires ComputeOutcome(t) == Shown(x)
    requires var r := Tokens(Expression(t)); r.Some? && |r.value| > 1
    ensures ComputeOutcome(FormatResult(Finite(x))) == Shown(x)
    ensures Computed(Computed(Screen(t, false))) == Computed(Screen(t, false))
  {
    var ts := Tokens(Expression(t)).value;
    TokensWellFormed(Expression(t));
    EvaluateExact(ts);
    ComputeOnResult(x);
  }

  /** Every key keeps a strictly canonical display strictly canonical. */
  lemma PressKeepsStrict(sc: Screen, key: string)
    requires StrictCanonical(sc.text)
    ensures StrictCanonical(Press(sc, key).text)
  {
    var t := sc.text;
    if key == "C" {
      assert StrictCanonical("");
    } else if key == [BackspaceKey] {
      BackspaceRemovesLast(t, sc.invalid);
    } else if key == "=" {
      match ComputeOutcome(t)
      case Shown(x) => FormatResultStrict(x);
      case _ =>
    } else if key == "." {
      DotKeyIsTypedDot(t);
    } else if key == "+" || key == "-" || key == [Times] || key == [Divide] {
      OperatorKeyIsTypedOperator(t, key[0]);
    } else if |key| == 1 && IsDigit(key[0]) {
      DigitKeyAppends(t, key[0]);
    }
  }

  // ---------------------------------------------------------------------------
  // Every handler leaves a canonical display canonical
  // ---------------------------------------------------------------------------

  lemma MinusCanonical()
    ensures Canonical("-")
  {
    assert "-"[..0] == [];
  }

  lemma DotKeyCanonical(raw: string)
    requires Canonical(raw)
    ensures Canonical(DotKey(raw))
  {
    var s := Normalized(raw);
    SanitizeIsCanonical(s + "0.");
    SanitizeIsCanonical(s + ".");
  }

  lemma OperatorKeyCanonical(raw: string, op: char)
    requires Canonical(raw)
    ensures Canonical(OperatorKey(raw, op))
  {
    NormalizedCanonical(raw);
    if raw == [] {
      OperatorKeyOnEmpty(op);
      MinusCanonical();
    } else {
      OperatorKeyOnNormalized(raw, op);
      SanitizeIsCanonical(WithOperator(raw, op));
    }
  }

  lemma ResultCanonical(v: Value)
    requires v.Finite?
    ensures Canonical(FormatResult(v))
  {
    FormatResultStrict(v.x);
    StrictIsCanonical(FormatResult(v));
  }

  lemma ComputedCanonical(sc: Screen)
    requires Canonical(sc.text)
    ensures Canonical(Computed(sc).text)
  {
    match ComputeOutcome(sc.text)
    case Shown(x) =>
      FormatResultStrict(x);
      StrictIsCanonical(FormatResult(Finite(x)));
    case _ =>
  }

  /** Every key keeps a canonical display canonical. */
  lemma PressKeepsCanonical(sc: Screen, key: string)
    requires Canonical(sc.text)
    ensures Canonical(Press(sc, key).text)
  {
    var t := sc.text;
    if key == "C" {
    } else if key == [BackspaceKey] {
      var v := Trim(t);
      if v != [] {
        SanitizeIsCanonical(v[..|v| - 1]);
      }
    } else if key == "=" {
      ComputedCanonical(sc);
    } else if key == "." {
      DotKeyCanonical(t);
    } else if key == "+" || key == "-" || key == [Times] || key == [Divide] {
      OperatorKeyCanonical(t, key[0]);
    } else if |key| == 1 && IsDigit(key[0]) {
      SanitizeIsCanonical(Trim(t) + [key[0]]);
    }
  }

  // ---------------------------------------------------------------------------
  // The display field and its handlers
  // ---------------------------------------------------------------------------

  /** `keydown` on the display: Enter and '=' compute, Escape clears, every other key is left to the field. */
  function KeyDown(sc: Screen, key: string): Screen
  {
    if key == "Enter" || key == "=" then Computed(sc)
    else if key == "Escape" then Screen("", false)
    else sc
  }

  /** `input` (and `paste`): the edited text is sanitized; the mark stays. */
  function Edited(sc: Screen, value: string): Screen
  {
    Screen(Sanitize(value), sc.invalid)
  }

  /** The display field: its value and its `calc-invalid` mark. */
  class Calculator {
    var text: string
    var invalid: bool

    function State(): Screen
      reads this
    {
      Screen(text, invalid)
    }

    /** Every handler leaves the display canonical. */
    ghost predicate Valid()
      reads this
    {
      Canonical(text)
    }

    /** `initCalculatorUI`: the field's initial value is sanitized. */
    constructor(initial: string)
      ensures State() == Screen(Sanitize(initial), false)
      ensures Valid()
    {
      text := initial;
      invalid := false;
      new;
      SanitizeInPlace();
    }

    /** `sanitizeDisplayInPlace`. */
    method SanitizeInPlace()
      modifies this
      ensures State() == Screen(Sanitize(old(text)), old(invalid))
      ensures Valid()
    {
      var cleaned := SanitizeForDisplay(text);
      if cleaned != text {
        text := cleaned;
      }
      SanitizeIsCanonical(old(text));
    }

    method MarkInvalid()
      modifies this
      ensures State() == Screen(old(text), true)
    {
      invalid := true;
    }

    method RemoveInvalidState()
      modifies this
      ensures State() == Screen(old(text), false)
    {
      invalid := false;
    }

    method ClearAll()
      modifies this
      ensures State() == Screen("", false)
      ensures Valid()
    {
      text := "";
      RemoveInvalidState();
    }

    method Backspace()
      requires Valid()
      modifies this
      ensures State() == Backspaced(old(State()))
      ensures Valid()
    {
      var v := Trim(text);
      if v == [] {
        return;
      }
      text := v[..|v| - 1];
      SanitizeInPlace();
      RemoveInvalidState();
    }

    method AppendNumber(d: char)
      requires Valid() && IsDigit(d)
      modifies this
      ensures State() == old(State()).(text := DigitKey(old(text), d))
      ensures Valid()
    {
      var cur := Trim(text);
      text := SanitizeForDisplay(cur + [d]);
      SanitizeIsCanonical(cur + [d]);
    }

    method AppendDot()
      requires Valid()
      modifies this
      ensures State() == old(State()).(text := DotKey(old(text)))
      ensures Valid()
    {
      DotKeyCanonical(text);
      var s := Normalized(text);
      var segment := Segment(s);
      if '.' in segment {
        return;
      }
      if segment == [] || segment == "-" {
        s := s + "0.";
      } else {
        s := s + ".";
      }
      text := s;
      SanitizeInPlace();
    }

    method AppendOperator(op: char)
      requires Valid() && IsOperator(op)
      modifies this
      ensures State() == old(State()).(text := OperatorKey(old(text), op))
      ensures Valid()
    {
      OperatorKeyCanonical(text, op);
      var s := Normalized(text);
      if s == [] {
        if op == '-' {
          text := "-";
        }
        return;
      }
      var last := s[|s| - 1];
      if IsOperator(last) {
        if op == '-' && last != '-' {
          text := s + "-";
        } else {
          text := s[..|s| - 1] + [op];
        }
      } else if last == '.' {
        text := s + ['0', op];
      } else {
        text := s + [op];
      }
      assert text == OperatorEdit(s, op);
      SanitizeInPlace();
    }

    method Compute()
      requires Valid()
      modifies this
      ensures State() == Computed(old(State()))
      ensures Valid()
    {
      ComputedCases(State());
      RemoveInvalidState();
      var expr := Normalized(text);
      expr := DropTrailingOperators(expr);
      if expr == [] {
        return;
      }
      var tokens := Tokenize(expr);
      if tokens.None? {
        MarkInvalid();
        return;
      }
      var result := EvaluateTokens(tokens.value);
      if result.value.NonFinite? {
        MarkInvalid();
        return;
      }
      ResultCanonical(result.value);
      text := FormatResult(result.value);
    }

    /** `handleKey(key)`. */
    method HandleKey(key: string)
      requires Valid()
      modifies this
      ensures State() == Press(old(State()), key)
      ensures Valid()
    {
      if key == "C" {
        ClearAll();
      } else if key == [BackspaceKey] {
        Backspace();
      } else if key == "=" {
        Compute();
      } else if key == "." {
        AppendDot();
      } else if key == "+" || key == "-" || key == [Times] || key == [Divide] {
        AppendOperator(key[0]);
      } else if |key| == 1 && IsDigit(key[0]) {
        AppendNumber(key[0]);
      }
    }

    /** The display's `keydown` listener. */
    method OnKeyDown(key: string)
      requires Valid()
      modifies this
      ensures State() == KeyDown(old(State()), key)
      ensures Valid()
    {
      if key == "Enter" || key == "=" {
        Compute();
      } else if key == "Escape" {
        ClearAll();
      }
    }

    /** The display's `input` listener, after the field's value became `value`. */
    method OnInput(value: string)
      requires Valid()
      modifies this
      ensures State() == Edited(old(State()), value)
      ensures Valid()
    {
      text := value;
      SanitizeInPlace();
    }
  }
}
