/**
 * The calculator's tokenizer and evaluator (app/scripts/ui/calculatorUI.js, lines 450-555):
 * `tokenize` reads "number operator number ... number", `evaluateTokens` folds every
 * × and ÷ into the operand on its left, then applies + and − left to right, and
 * `safeOp` rounds every intermediate result to 12 decimal places and turns a zero
 * divisor into Infinity.
 *
 * Numbers are reals. A JavaScript number that is Infinity or NaN is `NonFinite`: once
 * one appears the result stays non-finite, which is all the caller looks at.
 */
module CalcEval {
  import opened Wrappers
  import opened CalcText

  datatype Token = Num(value: real) | Op(op: char)

  datatype Value = Finite(x: real) | NonFinite

  // ---------------------------------------------------------------------------
  // Numbers as written
  // ---------------------------------------------------------------------------

  function Pow10(k: nat): (r: nat)
    ensures r >= 1
  {
    if k == 0 then 1 else 10 * Pow10(k - 1)
  }

  predicate AllDigits(s: string)
  {
    forall i :: 0 <= i < |s| ==> IsDigit(s[i])
  }

  function DigitValue(c: char): nat
    requires IsDigit(c)
  {
    c as int - '0' as int
  }

  /** The value of a string of decimal digits. */
  function NatValue(s: string): nat
    requires AllDigits(s)
  {
    if s == [] then 0 else 10 * NatValue(s[..|s| - 1]) + DigitValue(s[|s| - 1])
  }

  /** The end of the run of digits that starts at `i`. */
  function DigitsEnd(s: string, i: nat): (j: nat)
    requires i <= |s|
    ensures i <= j <= |s|
    ensures forall k :: i <= k < j ==> IsDigit(s[k])
    ensures j == |s| || !IsDigit(s[j])
    decreases |s| - i
  {
    if i < |s| && IsDigit(s[i]) then DigitsEnd(s, i + 1) else i
  }

  lemma DigitRun(s: string, i: nat)
    requires i <= |s|
    ensures AllDigits(s[i..DigitsEnd(s, i)])
  {
  }

  /**
   * `parseFloat` of a string of the form digits [ "." digits ], given as its two digit
   * runs; None stands for NaN, which is what a string without any digit gives.
   */
  function DecimalValue(intDigits: string, fracDigits: string): (r: Option<real>)
    requires AllDigits(intDigits) && AllDigits(fracDigits)
    ensures r.None? <==> intDigits == [] && fracDigits == []
    ensures r.Some? ==> r.value >= 0.0
  {
    if intDigits == [] && fracDigits == [] then None
    else Some(NatValue(intDigits) as real + NatValue(fracDigits) as real / Pow10(|fracDigits|) as real)
  }

  /** A number read by `readNumber`: its value and the index after it. */
  datatype Lexeme = Lexeme(value: real, next: nat)

  /**
   * `readNumber` at index `i`: an optional sign, digits, then an optional '.' and more
   * digits. It fails when neither a digit nor a '.' follows the sign, and when the text
   * read holds no digit at all (a lone '.', which parses to NaN).
   */
  function ReadNumber(s: string, i: nat): (r: Option<Lexeme>)
    requires i < |s|
    ensures r.Some? ==> i < r.value.next <= |s|
    ensures r.Some? ==> IsDigit(s[r.value.next - 1]) || s[r.value.next - 1] == '.'
  {
    var negative := s[i] == '-';
    var start := if s[i] == '+' || s[i] == '-' then i + 1 else i;
    var intEnd := DigitsEnd(s, start);
    var hasInt := intEnd > start;
    var hasDot := intEnd < |s| && s[intEnd] == '.';
    var end := if hasDot then DigitsEnd(s, intEnd + 1) else intEnd;
    if !hasInt && !hasDot then None
    else
      match DecimalValue(s[start..intEnd], if hasDot then s[intEnd + 1..end] else "")
      case None => None
      case Some(v) => Some(Lexeme(if negative then -v else v, end))
  }

  lemma ReadNumberNoDot(s: string, i0: nat, start: nat, intEnd: nat)
    requires i0 < |s| && start == (if s[i0] == '+' || s[i0] == '-' then i0 + 1 else i0)
    requires intEnd == DigitsEnd(s, start) && !(intEnd < |s| && s[intEnd] == '.')
    ensures AllDigits(s[start..intEnd])
    ensures ReadNumber(s, i0) ==
      if intEnd == start then None
      else
        var v := DecimalValue(s[start..intEnd], "").value;
        Some(Lexeme(if s[i0] == '-' then -v else v, intEnd))
  {
    DigitRun(s, start);
  }

  lemma ReadNumberDot(s: string, i0: nat, start: nat, intEnd: nat, end: nat)
    requires i0 < |s| && start == (if s[i0] == '+' || s[i0] == '-' then i0 + 1 else i0)
    requires intEnd == DigitsEnd(s, start) && intEnd < |s| && s[intEnd] == '.'
    requires end == DigitsEnd(s, intEnd + 1)
    ensures AllDigits(s[start..intEnd]) && AllDigits(s[intEnd + 1..end])
    ensures var v := DecimalValue(s[start..intEnd], s[intEnd + 1..end]);
      ReadNumber(s, i0) == if v.None? then None else Some(Lexeme(if s[i0] == '-' then -v.value else v.value, end))
  {
    DigitRun(s, start);
    DigitRun(s, intEnd + 1);
  }

  /** `ReadNumber` in terms of the indices its loops stop at. */
  lemma ReadNumberParts(s: string, i0: nat, start: nat, intEnd: nat, end: nat, hasDot: bool)
    requires i0 < |s| && start == (if s[i0] == '+' || s[i0] == '-' then i0 + 1 else i0)
    requires intEnd == DigitsEnd(s, start)
    requires hasDot == (intEnd < |s| && s[intEnd] == '.')
    requires end == (if hasDot then DigitsEnd(s, intEnd + 1) else intEnd)
    ensures start <= intEnd <= end <= |s|
    ensures AllDigits(s[start..intEnd]) && (hasDot ==> intEnd < end && AllDigits(s[intEnd + 1..end]))
    ensures intEnd == start && !hasDot ==> ReadNumber(s, i0).None?
    ensures !(intEnd == start && !hasDot) ==>
      var v := DecimalValue(s[start..intEnd], if hasDot then s[intEnd + 1..end] else "");
      ReadNumber(s, i0) == if v.None? then None else Some(Lexeme(if s[i0] == '-' then -v.value else v.value, end))
  {
    if hasDot {
      ReadNumberDot(s, i0, start, intEnd, end);
    } else {
      ReadNumberNoDot(s, i0, start, intEnd);
    }
  }

  /** `readNumber`, with its loops. */
  method ReadNumberAt(s: string, i0: nat) returns (r: Option<Lexeme>)
    requires i0 < |s|
    ensures r == ReadNumber(s, i0)
  {
    var i := i0;
    var negative := false;
    if s[i] == '+' {
      i := i + 1;
    } else if s[i] == '-' {
      negative := true;
      i := i + 1;
    }
    var start := i;
    var hasInt := false;
    while i < |s| && IsDigit(s[i])
      invariant start <= i <= |s|
      invariant DigitsEnd(s, start) == DigitsEnd(s, i)
      invariant hasInt == (i > start)
    {
      i := i + 1;
      hasInt := true;
    }
    var intEnd := i;
    var hasDot := false;
    if i < |s| && s[i] == '.' {
      hasDot := true;
      i := i + 1;
      while i < |s| && IsDigit(s[i])
        invariant intEnd + 1 <= i <= |s|
        invariant DigitsEnd(s, intEnd + 1) == DigitsEnd(s, i)
      {
        i := i + 1;
      }
    }
    ReadNumberParts(s, i0, start, intEnd, i, hasDot);
    if !hasInt && !hasDot {
      return None;
    }
    var value := DecimalValue(s[start..intEnd], if hasDot then s[intEnd + 1..i] else "");
    if value.None? {
      return None;
    }
    return Some(Lexeme(if negative then -value.value else value.value, i));
  }

  // ---------------------------------------------------------------------------
  // tokenize
  // ---------------------------------------------------------------------------

  function Prepend(t: Token, r: Option<seq<Token>>): Option<seq<Token>>
  {
    match r
    case None => None
    case Some(ts) => Some([t] + ts)
  }

  function Extend(prefix: seq<Token>, r: Option<seq<Token>>): Option<seq<Token>>
  {
    match r
    case None => None
    case Some(ts) => Some(prefix + ts)
  }

  /** The tokens of `s[i..]`, starting in the state `expectNumber`. */
  function TokensFrom(s: string, i: nat, expectNumber: bool): Option<seq<Token>>
    requires i <= |s|
    decreases |s| - i
  {
    if i == |s| then (if expectNumber then None else Some([]))
    else if expectNumber then
      match ReadNumber(s, i)
      case None => None
      case Some(lx) => Prepend(Num(lx.value), TokensFrom(s, lx.next, false))
    else if IsOperator(s[i]) then Prepend(Op(s[i]), TokensFrom(s, i + 1, true))
    else None
  }

  /** What `tokenize(s)` returns; None stands for null. */
  function Tokens(s: string): Option<seq<Token>>
  {
    TokensFrom(s, 0, true)
  }

  lemma ExtendPrepend(prefix: seq<Token>, t: Token, r: Option<seq<Token>>)
    ensures Extend(prefix, Prepend(t, r)) == Extend(prefix + [t], r)
  {
    if r.Some? {
      assert prefix + ([t] + r.value) == prefix + [t] + r.value;
    }
  }

  lemma TokensFromStep(s: string, i: nat, expectNumber: bool)
    requires i < |s|
    ensures expectNumber && ReadNumber(s, i).Some? ==>
      TokensFrom(s, i, true) == Prepend(Num(ReadNumber(s, i).value.value), TokensFrom(s, ReadNumber(s, i).value.next, false))
    ensures expectNumber && ReadNumber(s, i).None? ==> TokensFrom(s, i, true).None?
    ensures !expectNumber && IsOperator(s[i]) ==> TokensFrom(s, i, false) == Prepend(Op(s[i]), TokensFrom(s, i + 1, true))
    ensures !expectNumber && !IsOperator(s[i]) ==> TokensFrom(s, i, false).None?
  {
  }

  /** `tokenize`, with its loop. */
  method Tokenize(s: string) returns (r: Option<seq<Token>>)
    ensures r == Tokens(s)
  {
    var tokens: seq<Token> := [];
    var i := 0;
    var expectNumber := true;
    assert TokensFrom(s, 0, true).Some? ==> [] + TokensFrom(s, 0, true).value == TokensFrom(s, 0, true).value;
    while i < |s|
      invariant 0 <= i <= |s|
      invariant Tokens(s) == Extend(tokens, TokensFrom(s, i, expectNumber))
      decreases |s| - i
    {
      TokensFromStep(s, i, expectNumber);
      if expectNumber {
        var num := ReadNumberAt(s, i);
        if num.None? {
          return None;
        }
        ExtendPrepend(tokens, Num(num.value.value), TokensFrom(s, num.value.next, false));
        tokens := tokens + [Num(num.value.value)];
        i := num.value.next;
        expectNumber := false;
      } else {
        var ch := s[i];
        if !IsOperator(ch) {
          return None;
        }
        ExtendPrepend(tokens, Op(ch), TokensFrom(s, i + 1, true));
        tokens := tokens + [Op(ch)];
        i := i + 1;
        expectNumber := true;
      }
    }
    if expectNumber {
      return None;
    }
    assert tokens + [] == tokens;
    return Some(tokens);
  }

  /** Tokens alternate number, operator, ..., starting with a number exactly when `numFirst`. */
  predicate Alternating(ts: seq<Token>, numFirst: bool)
  {
    forall k :: 0 <= k < |ts| ==>
      if (k % 2 == 0) == numFirst then ts[k].Num? else ts[k].Op? && IsOperator(ts[k].op)
  }

  /** An odd-length list number, operator, number, ..., number. */
  predicate WellFormed(ts: seq<Token>)
  {
    |ts| % 2 == 1 && Alternating(ts, true)
  }

  lemma AlternatingPrepend(t: Token, ts: seq<Token>, numFirst: bool)
    requires Alternating(ts, !numFirst)
    requires if numFirst then t.Num? else t.Op? && IsOperator(t.op)
    ensures Alternating([t] + ts, numFirst)
  {
    var u := [t] + ts;
    forall k | 0 <= k < |u|
      ensures if (k % 2 == 0) == numFirst then u[k].Num? else u[k].Op? && IsOperator(u[k].op)
    {
      if k > 0 {
        assert u[k] == ts[k - 1];
      }
    }
  }

  lemma {:induction false} TokensFromAlternating(s: string, i: nat, expectNumber: bool, ts: seq<Token>)
    requires i <= |s| && TokensFrom(s, i, expectNumber) == Some(ts)
    ensures Alternating(ts, expectNumber)
    decreases |s| - i
  {
    if i < |s| {
      if expectNumber {
        var lx := ReadNumber(s, i).value;
        var rest := TokensFrom(s, lx.next, false).value;
        TokensFromAlternating(s, lx.next, false, rest);
        AlternatingPrepend(Num(lx.value), rest, true);
      } else {
        var rest := TokensFrom(s, i + 1, true).value;
        TokensFromAlternating(s, i + 1, true, rest);
        AlternatingPrepend(Op(s[i]), rest, false);
      }
    }
  }

  lemma {:induction false} TokensFromParity(s: string, i: nat, expectNumber: bool, ts: seq<Token>)
    requires i <= |s| && TokensFrom(s, i, expectNumber) == Some(ts)
    ensures |ts| % 2 == (if expectNumber then 1 else 0)
    decreases |s| - i
  {
    if i < |s| {
      TokensFromStep(s, i, expectNumber);
      var next := if expectNumber then ReadNumber(s, i).value.next else i + 1;
      var rest := TokensFrom(s, next, !expectNumber).value;
      TokensFromParity(s, next, !expectNumber, rest);
      assert |ts| == |rest| + 1;
      ParityStep(|rest|);
    }
  }

  lemma ParityStep(n: nat)
    ensures (n + 1) % 2 == 1 - n % 2
  {
  }

  /** Whatever `tokenize` returns that is not null is number, operator, ..., number. */
  lemma TokensWellFormed(s: string)
    requires Tokens(s).Some?
    ensures WellFormed(Tokens(s).value)
  {
    TokensFromAlternating(s, 0, true, Tokens(s).value);
    TokensFromParity(s, 0, true, Tokens(s).value);
  }

  lemma {:induction false} TokensFromLastChar(s: string, i: nat, expectNumber: bool)
    requires i < |s| && TokensFrom(s, i, expectNumber).Some?
    ensures !IsOperator(s[|s| - 1])
    decreases |s| - i
  {
    if expectNumber {
      var lx := ReadNumber(s, i).value;
      if lx.next < |s| {
        TokensFromLastChar(s, lx.next, false);
      }
    } else {
      TokensFromLastChar(s, i + 1, true);
    }
  }

  /**
   * `tokenize` returns null for the empty text, for a text ending with an operator, for
   * a text starting with × or ÷ (a number position with neither digit nor '.'), and for
   * a lone '.'.
   */
  lemma TokensRejects(s: string)
    ensures s == [] ==> Tokens(s).None?
    ensures s != [] && IsOperator(s[|s| - 1]) ==> Tokens(s).None?
    ensures s != [] && (s[0] == Times || s[0] == Divide) ==> Tokens(s).None?
    ensures s == "." ==> Tokens(s).None?
  {
    if s != [] && IsOperator(s[|s| - 1]) && Tokens(s).Some? {
      TokensFromLastChar(s, 0, true);
    }
    if s == "." {
      assert DigitsEnd(s, 1) == 1;
      assert s[0..0] == [] && s[1..1] == [];
    }
  }

  // ---------------------------------------------------------------------------
  // safeOp and round
  // ---------------------------------------------------------------------------

  /** `Math.pow(10, 12)`. */
  const Scale: nat := 1_000_000_000_000

  /** `Number.EPSILON`, 2^-52. */
  const Epsilon: real := 1.0 / 4503599627370496.0

  /**
   * `round(n, 12)`: `Math.round((n + Number.EPSILON) * 10^12) / 10^12`, where
   * `Math.round` rounds half-way cases up.
   */
  function Round(x: real): real
  {
    ((x + Epsilon) * Scale as real + 0.5).Floor as real / Scale as real
  }

  /** The exact result of a binary operator on two reals. */
  function Apply(a: real, b: real, op: char): real
    requires IsOperator(op) && (op == Divide ==> b != 0.0)
  {
    if op == '+' then a + b
    else if op == '-' then a - b
    else if op == Times then a * b
    else a / b
  }

  /**
   * `safeOp(a, b, op)`. A divisor is always a number read from the text, so it is finite.
   * A zero divisor gives Infinity; a non-finite operand makes the result non-finite
   * (Infinity, −Infinity and NaN propagate through + − × ÷ by a finite divisor).
   */
  function SafeOp(a: Value, b: Value, op: char): (r: Value)
    requires IsOperator(op) && (op == Divide ==> b.Finite?)
    ensures op == Divide && b == Finite(0.0) ==> r == NonFinite
    ensures r.Finite? <==> a.Finite? && b.Finite? && !(op == Divide && b.x == 0.0)
  {
    if op == Divide && b.x == 0.0 then NonFinite
    else if a.NonFinite? || b.NonFinite? then NonFinite
    else Finite(Round(Apply(a.x, b.x, op)))
  }

  /** An integer is its own rounding. */
  lemma RoundInteger(k: int)
    ensures Round(k as real) == k as real
  {
    var y := (k as real + Epsilon) * Scale as real + 0.5;
    assert y == k as real * Scale as real + Epsilon * Scale as real + 0.5;
    assert 0.0 < Epsilon * Scale as real < 0.5;
    assert y.Floor == k * Scale;
  }

  // ---------------------------------------------------------------------------
  // evaluateTokens
  // ---------------------------------------------------------------------------

  /** The numbers of a token list: `tokens[0], tokens[2], ...`. */
  function NumbersOf(ts: seq<Token>): (r: seq<real>)
    requires WellFormed(ts)
    ensures |r| == (|ts| + 1) / 2
  {
    seq((|ts| + 1) / 2, k requires 0 <= k < (|ts| + 1) / 2 => ts[2 * k].value)
  }

  /** The operators of a token list: `tokens[1], tokens[3], ...`. */
  function OperatorsOf(ts: seq<Token>): (r: seq<char>)
    requires WellFormed(ts)
    ensures |r| == |ts| / 2
    ensures forall k :: 0 <= k < |r| ==> IsOperator(r[k])
  {
    seq(|ts| / 2, k requires 0 <= k < |ts| / 2 => ts[2 * k + 1].op)
  }

  predicate AllOperators(ops: seq<char>)
  {
    forall k :: 0 <= k < |ops| ==> IsOperator(ops[k])
  }

  predicate AllAddSub(ops: seq<char>)
  {
    forall k :: 0 <= k < |ops| ==> ops[k] == '+' || ops[k] == '-'
  }

  /** The arrays `nums1` and `ops1` after the first pass. */
  datatype Reduced = Reduced(nums: seq<Value>, ops: seq<char>)

  /** The first pass over `numbers` and `ops`: every × and ÷ folded into the operand on its left. */
  function FoldMulDiv(numbers: seq<real>, ops: seq<char>): (r: Reduced)
    requires |numbers| == |ops| + 1 && AllOperators(ops)
    ensures |r.nums| == |r.ops| + 1 && AllAddSub(r.ops)
    decreases |ops|
  {
    if ops == [] then Reduced([Finite(numbers[0])], [])
    else
      var prev := FoldMulDiv(numbers[..|numbers| - 1], ops[..|ops| - 1]);
      var op := ops[|ops| - 1];
      var b := Finite(numbers[|numbers| - 1]);
      if op == Times || op == Divide then
        Reduced(prev.nums[..|prev.nums| - 1] + [SafeOp(prev.nums[|prev.nums| - 1], b, op)], prev.ops)
      else
        Reduced(prev.nums + [b], prev.ops + [op])
  }

  /** The second pass: + and − applied left to right. */
  function FoldAddSub(nums: seq<Value>, ops: seq<char>): Value
    requires |nums| == |ops| + 1 && AllAddSub(ops)
    decreases |ops|
  {
    if ops == [] then nums[0]
    else SafeOp(FoldAddSub(nums[..|nums| - 1], ops[..|ops| - 1]), nums[|nums| - 1], ops[|ops| - 1])
  }

  /** The two arrays after the first pass of `evaluateTokens` over `ts`. */
  function Reduce(ts: seq<Token>): Reduced
    requires WellFormed(ts)
  {
    FoldMulDiv(NumbersOf(ts), OperatorsOf(ts))
  }

  /** The value `evaluateTokens` returns for a well-formed token list. */
  function Evaluate(ts: seq<Token>): Value
    requires WellFormed(ts)
  {
    var r := Reduce(ts);
    FoldAddSub(r.nums, r.ops)
  }

  /** The first loop of `evaluateTokens`: split the tokens into numbers and operators. */
  method SplitOperands(tokens: seq<Token>) returns (numbers: seq<real>, ops: seq<char>)
    requires WellFormed(tokens)
    ensures numbers == NumbersOf(tokens) && ops == OperatorsOf(tokens)
  {
    numbers := [tokens[0].value];
    ops := [];
    var i := 1;
    while i < |tokens|
      invariant 1 <= i <= |tokens| && i % 2 == 1
      invariant |numbers| == (i + 1) / 2 && |ops| == (i - 1) / 2
      invariant forall k :: 0 <= k < |numbers| ==> numbers[k] == tokens[2 * k].value
      invariant forall k :: 0 <= k < |ops| ==> ops[k] == tokens[2 * k + 1].op
    {
      ops := ops + [tokens[i].op];
      numbers := numbers + [tokens[i + 1].value];
      i := i + 2;
    }
  }

  /** The second loop of `evaluateTokens`: × and ÷ folded into `nums1`, + and − kept in `ops1`. */
  method MulDivPass(numbers: seq<real>, ops: seq<char>) returns (nums1: seq<Value>, ops1: seq<char>)
    requires |numbers| == |ops| + 1 && AllOperators(ops)
    ensures Reduced(nums1, ops1) == FoldMulDiv(numbers, ops)
  {
    nums1 := [Finite(numbers[0])];
    ops1 := [];
    for j := 0 to |ops|
      invariant Reduced(nums1, ops1) == FoldMulDiv(numbers[..j + 1], ops[..j])
    {
      assert numbers[..j + 2][..j + 1] == numbers[..j + 1];
      assert ops[..j + 1][..j] == ops[..j];
      var op := ops[j];
      var b := numbers[j + 1];
      if op == Times || op == Divide {
        var a := nums1[|nums1| - 1];
        nums1 := nums1[..|nums1| - 1];
        nums1 := nums1 + [SafeOp(a, Finite(b), op)];
      } else {
        nums1 := nums1 + [Finite(b)];
        ops1 := ops1 + [op];
      }
    }
    assert numbers[..|ops| + 1] == numbers && ops[..|ops|] == ops;
  }

  /** The last loop of `evaluateTokens`: + and − left to right. */
  method AddSubPass(nums1: seq<Value>, ops1: seq<char>) returns (result: Value)
    requires |nums1| == |ops1| + 1 && AllAddSub(ops1)
    ensures result == FoldAddSub(nums1, ops1)
  {
    result := nums1[0];
    for j := 0 to |ops1|
      invariant result == FoldAddSub(nums1[..j + 1], ops1[..j])
    {
      assert nums1[..j + 2][..j + 1] == nums1[..j + 1];
      assert ops1[..j + 1][..j] == ops1[..j];
      result := SafeOp(result, nums1[j + 1], ops1[j]);
    }
    assert nums1[..|ops1| + 1] == nums1 && ops1[..|ops1|] == ops1;
  }

  /**
   * `evaluateTokens`. The empty list is the one input the source rejects by throwing
   * (None); every list `tokenize` returns is well-formed.
   */
  method EvaluateTokens(tokens: seq<Token>) returns (r: Option<Value>)
    requires tokens == [] || WellFormed(tokens)
    ensures tokens == [] <==> r.None?
    ensures tokens != [] ==> r == Some(Evaluate(tokens))
  {
    if tokens == [] {
      return None;
    }
    var numbers, ops := SplitOperands(tokens);
    var nums1, ops1 := MulDivPass(numbers, ops);
    var result := AddSubPass(nums1, ops1);
    return Some(result);
  }

  // ---------------------------------------------------------------------------
  // What evaluateTokens computes
  // ---------------------------------------------------------------------------

  /** No + or − among the operators. */
  predicate NoAddSub(ts: seq<Token>)
  {
    forall k :: 0 <= k < |ts| && ts[k].Op? ==> ts[k].op != '+' && ts[k].op != '-'
  }

  /** No × or ÷ among the operators. */
  predicate NoMulDiv(ts: seq<Token>)
  {
    forall k :: 0 <= k < |ts| && ts[k].Op? ==> ts[k].op != Times && ts[k].op != Divide
  }

  /** The reference reading without precedence: the tokens folded strictly left to right. */
  function LeftFold(ts: seq<Token>): Value
    requires WellFormed(ts)
    decreases |ts|
  {
    if |ts| == 1 then Finite(ts[0].value)
    else SafeOp(LeftFold(ts[..|ts| - 2]), Finite(ts[|ts| - 1].value), ts[|ts| - 2].op)
  }

  lemma SplitLast(ts: seq<Token>)
    requires WellFormed(ts) && |ts| >= 3
    ensures WellFormed(ts[..|ts| - 2])
    ensures NumbersOf(ts) == NumbersOf(ts[..|ts| - 2]) + [ts[|ts| - 1].value]
    ensures OperatorsOf(ts) == OperatorsOf(ts[..|ts| - 2]) + [ts[|ts| - 2].op]
  {
    var p := ts[..|ts| - 2];
    assert WellFormed(p);
    assert NumbersOf(ts) == NumbersOf(p) + [ts[|ts| - 1].value];
    assert OperatorsOf(ts) == OperatorsOf(p) + [ts[|ts| - 2].op];
  }

  /** One more operator and number, seen from the first pass. */
  lemma ReduceStep(ts: seq<Token>)
    requires WellFormed(ts) && |ts| >= 3
    ensures WellFormed(ts[..|ts| - 2])
    ensures var p := Reduce(ts[..|ts| - 2]);
      var o := ts[|ts| - 2].op;
      var b := Finite(ts[|ts| - 1].value);
      Reduce(ts) ==
        if o == Times || o == Divide then
          Reduced(p.nums[..|p.nums| - 1] + [SafeOp(p.nums[|p.nums| - 1], b, o)], p.ops)
        else
          Reduced(p.nums + [b], p.ops + [o])
  {
    SplitLast(ts);
    var n := NumbersOf(ts);
    var os := OperatorsOf(ts);
    assert n[..|n| - 1] == NumbersOf(ts[..|ts| - 2]);
    assert os[..|os| - 1] == OperatorsOf(ts[..|ts| - 2]);
  }

  lemma FoldAddSubSnoc(nums: seq<Value>, ops: seq<char>, x: Value, o: char)
    requires |nums| == |ops| + 1 && AllAddSub(ops) && (o == '+' || o == '-')
    ensures AllAddSub(ops + [o])
    ensures FoldAddSub(nums + [x], ops + [o]) == SafeOp(FoldAddSub(nums, ops), x, o)
  {
    assert (nums + [x])[..|nums|] == nums;
    assert (ops + [o])[..|ops|] == ops;
  }

  /** With only + and −, `evaluateTokens` folds left to right. */
  lemma {:induction false} EvaluateNoMulDiv(ts: seq<Token>)
    requires WellFormed(ts) && NoMulDiv(ts)
    ensures Evaluate(ts) == LeftFold(ts)
    decreases |ts|
  {
    if |ts| >= 3 {
      var p := ts[..|ts| - 2];
      ReduceStep(ts);
      assert ts[|ts| - 2] == Op(ts[|ts| - 2].op);
      EvaluateNoMulDiv(p);
      FoldAddSubSnoc(Reduce(p).nums, Reduce(p).ops, Finite(ts[|ts| - 1].value), ts[|ts| - 2].op);
    }
  }

  lemma {:induction false} ReduceNoAddSub(ts: seq<Token>)
    requires WellFormed(ts) && NoAddSub(ts)
    ensures Reduce(ts) == Reduced([LeftFold(ts)], [])
    decreases |ts|
  {
    if |ts| >= 3 {
      var p := ts[..|ts| - 2];
      ReduceStep(ts);
      assert ts[|ts| - 2] == Op(ts[|ts| - 2].op);
      ReduceNoAddSub(p);
    }
  }

  /** With only × and ÷, `evaluateTokens` also folds left to right. */
  lemma EvaluateNoAddSub(ts: seq<Token>)
    requires WellFormed(ts) && NoAddSub(ts)
    ensures Evaluate(ts) == LeftFold(ts)
  {
    ReduceNoAddSub(ts);
  }

  lemma WellFormedJoin(a: seq<Token>, o: char, b: seq<Token>)
    requires WellFormed(a) && WellFormed(b) && IsOperator(o)
    ensures WellFormed(a + [Op(o)] + b)
  {
    var ts := a + [Op(o)] + b;
    forall k | 0 <= k < |ts|
      ensures if k % 2 == 0 then ts[k].Num? else ts[k].Op? && IsOperator(ts[k].op)
    {
      if k > |a| {
        assert ts[k] == b[k - |a| - 1];
      }
    }
  }

  lemma {:induction false} ReduceLastTerm(a: seq<Token>, o: char, b: seq<Token>)
    requires WellFormed(a) && WellFormed(b) && NoAddSub(b) && (o == '+' || o == '-')
    ensures WellFormed(a + [Op(o)] + b)
    ensures Reduce(a + [Op(o)] + b) == Reduced(Reduce(a).nums + [LeftFold(b)], Reduce(a).ops + [o])
    decreases |b|
  {
    var ts := a + [Op(o)] + b;
    WellFormedJoin(a, o, b);
    ReduceStep(ts);
    if |b| == 1 {
      assert ts[..|ts| - 2] == a;
    } else {
      var b' := b[..|b| - 2];
      assert WellFormed(b');
      assert ts[..|ts| - 2] == a + [Op(o)] + b';
      assert b[|b| - 2] == Op(b[|b| - 2].op);
      ReduceLastTerm(a, o, b');
      var q := Reduce(a).nums + [LeftFold(b')];
      assert q[..|q| - 1] == Reduce(a).nums;
    }
  }

  /**
   * Precedence: when the last term `b` holds only × and ÷, an expression `a o b` with
   * `o` one of + and − evaluates `a` and `b` separately, `b` left to right, and then
   * applies `o`.
   */
  lemma EvaluateLastTerm(a: seq<Token>, o: char, b: seq<Token>)
    requires WellFormed(a) && WellFormed(b) && NoAddSub(b) && (o == '+' || o == '-')
    ensures WellFormed(a + [Op(o)] + b)
    ensures Evaluate(a + [Op(o)] + b) == SafeOp(Evaluate(a), LeftFold(b), o)
  {
    ReduceLastTerm(a, o, b);
    FoldAddSubSnoc(Reduce(a).nums, Reduce(a).ops, LeftFold(b), o);
  }

  /** `2 + 3 × 4` is 14, not 20. */
  lemma EvaluatePrecedenceExample()
    ensures WellFormed([Num(2.0), Op('+'), Num(3.0), Op(Times), Num(4.0)])
    ensures Evaluate([Num(2.0), Op('+'), Num(3.0), Op(Times), Num(4.0)]) == Finite(14.0)
  {
    var a := [Num(2.0)];
    var b := [Num(3.0), Op(Times), Num(4.0)];
    assert a + [Op('+')] + b == [Num(2.0), Op('+'), Num(3.0), Op(Times), Num(4.0)];
    EvaluateLastTerm(a, '+', b);
    assert NumbersOf(a) == [2.0];
    assert b[..|b| - 2] == [Num(3.0)];
    RoundInteger(12);
    RoundInteger(14);
  }

  lemma {:induction false} FoldAddSubNonFinite(nums: seq<Value>, ops: seq<char>, j: nat)
    requires |nums| == |ops| + 1 && AllAddSub(ops) && j < |nums| && nums[j] == NonFinite
    ensures FoldAddSub(nums, ops) == NonFinite
    decreases |ops|
  {
    if ops != [] && j < |nums| - 1 {
      FoldAddSubNonFinite(nums[..|nums| - 1], ops[..|ops| - 1], j);
    }
  }

  lemma {:induction false} ReduceDivisionByZero(ts: seq<Token>, k: nat)
    requires WellFormed(ts) && k + 1 < |ts| && ts[k] == Op(Divide) && ts[k + 1] == Num(0.0)
    ensures exists j :: 0 <= j < |Reduce(ts).nums| && Reduce(ts).nums[j] == NonFinite
    decreases |ts|
  {
    var p := ts[..|ts| - 2];
    ReduceStep(ts);
    var pr := Reduce(p);
    var o := ts[|ts| - 2].op;
    if k == |ts| - 2 {
      var r := Reduce(ts);
      assert r.nums[|r.nums| - 1] == NonFinite;
    } else {
      assert k + 1 < |p| && p[k] == Op(Divide) && p[k + 1] == Num(0.0);
      ReduceDivisionByZero(p, k);
      var j :| 0 <= j < |pr.nums| && pr.nums[j] == NonFinite;
      var r := Reduce(ts);
      if o == Times || o == Divide {
        if j == |pr.nums| - 1 {
          assert r.nums[j] == NonFinite;
        } else {
          assert r.nums[j] == pr.nums[j];
        }
      } else {
        assert r.nums[j] == pr.nums[j];
      }
    }
  }

  /** A division by a literal zero anywhere makes the whole result non-finite ("Error"). */
  lemma EvaluateDivisionByZero(ts: seq<Token>, k: nat)
    requires WellFormed(ts) && k + 1 < |ts| && ts[k] == Op(Divide) && ts[k + 1] == Num(0.0)
    ensures Evaluate(ts) == NonFinite
  {
    ReduceDivisionByZero(ts, k);
    var r := Reduce(ts);
    var j :| 0 <= j < |r.nums| && r.nums[j] == NonFinite;
    FoldAddSubNonFinite(r.nums, r.ops, j);
  }
}
