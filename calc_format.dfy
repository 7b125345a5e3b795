/**
 * How the calculator shows a result (app/scripts/ui/calculatorUI.js, lines 557-565):
 * `formatResult` writes the number with 12 decimals (`toFixed(12)`), then removes a
 * trailing run of zeros together with a '.' right before it (`/\.?0+$/`).
 */
module CalcFormat {
  import opened Wrappers
  import opened CalcText
  import opened CalcEval

  function DigitChar(d: nat): (c: char)
    requires d < 10
    ensures IsDigit(c) && DigitValue(c) == d
  {
    ('0' as int + d) as char
  }

  /** The decimal digits of `n`, without leading zeros. */
  function NatText(n: nat): (t: string)
    ensures t != [] && AllDigits(t) && NatValue(t) == n
    decreases n
  {
    if n < 10 then [DigitChar(n)]
    else
      var p := NatText(n / 10);
      var t := p + [DigitChar(n % 10)];
      assert t[..|t| - 1] == p;
      t
  }

  /** The `k` decimal digits of `r`, padded on the left with zeros. */
  function FixedDigits(r: nat, k: nat): (t: string)
    requires r < Pow10(k)
    ensures |t| == k && AllDigits(t) && NatValue(t) == r
    decreases k
  {
    if k == 0 then []
    else
      var p := FixedDigits(r / 10, k - 1);
      var t := p + [DigitChar(r % 10)];
      assert t[..|t| - 1] == p;
      t
  }

  lemma ScaleIsPow10()
    ensures Pow10(12) == Scale
  {
    assert Pow10(3) == 1000;
    assert Pow10(6) == 1000 * Pow10(3) by {
      assert Pow10(6) == 10 * Pow10(5) == 100 * Pow10(4) == 1000 * Pow10(3);
    }
    assert Pow10(9) == 1000 * Pow10(6) by {
      assert Pow10(9) == 10 * Pow10(8) == 100 * Pow10(7) == 1000 * Pow10(6);
    }
    assert Pow10(12) == 1000 * Pow10(9) by {
      assert Pow10(12) == 10 * Pow10(11) == 100 * Pow10(10) == 1000 * Pow10(9);
    }
  }

  /**
   * The integer `toFixed(12)` writes for `x`: the multiple of 10^-12 nearest to |x|,
   * counted in units of 10^-12, the larger one on a tie.
   */
  function FixedUnits(x: real): nat
  {
    var a := if x < 0.0 then -x else x;
    (a * Scale as real + 0.5).Floor
  }

  /** `x.toFixed(12)`: a '-' when x is negative, the integer part, '.', then 12 digits. */
  function Fixed12(x: real): string
  {
    var m := FixedUnits(x);
    ScaleIsPow10();
    SignText(x) + NatText(m / Scale) + "." + FixedDigits(m % Scale, 12)
  }

  /** The number that `toFixed(12)` writes. */
  function FixedValue(x: real): real
  {
    var v := FixedUnits(x) as real / Scale as real;
    if x < 0.0 then -v else v
  }

  predicate AllZeros(t: string)
  {
    forall i :: 0 <= i < |t| ==> t[i] == '0'
  }

  /** Whether `/\.?0+$/` matches starting at index `p`. */
  predicate TrailingZerosAt(s: string, p: nat)
    requires p <= |s|
  {
    || (p < |s| && AllZeros(s[p..]))
    || (p + 1 < |s| && s[p] == '.' && AllZeros(s[p + 1..]))
  }

  /** The leftmost index from `p` on where `/\.?0+$/` matches. */
  function FirstTrailingZeros(s: string, p: nat): (r: Option<nat>)
    requires p <= |s|
    ensures r.Some? ==> p <= r.value < |s| && TrailingZerosAt(s, r.value)
    ensures r.Some? ==> forall q :: p <= q < r.value ==> !TrailingZerosAt(s, q)
    ensures r.None? ==> forall q :: p <= q <= |s| ==> !TrailingZerosAt(s, q)
    decreases |s| - p
  {
    if p == |s| then None
    else if TrailingZerosAt(s, p) then Some(p)
    else FirstTrailingZeros(s, p + 1)
  }

  /** `s.replace(/\.?0+$/, '')`: the leftmost match, which always runs to the end, is removed. */
  function StripTrailingZeros(s: string): string
  {
    match FirstTrailingZeros(s, 0)
    case None => s
    case Some(p) => s[..p]
  }

  /** `formatResult`. */
  function FormatResult(v: Value): string
  {
    if v.NonFinite? then "Error"
    else
      var s := StripTrailingZeros(Fixed12(v.x));
      if s == "" then "0" else s
  }

  // ---------------------------------------------------------------------------
  // The trailing zeros of the fraction
  // ---------------------------------------------------------------------------

  /** `t` without its trailing zeros. */
  function DropZeros(t: string): (r: string)
    ensures |r| <= |t| && r == t[..|r|] && AllZeros(t[|r|..])
    ensures r == [] || r[|r| - 1] != '0'
  {
    if t != [] && t[|t| - 1] == '0' then
      var r := DropZeros(t[..|t| - 1]);
      assert t[|r|..] == t[..|t| - 1][|r|..] + ['0'];
      r
    else t
  }

  lemma {:induction false} NatValueZeros(t: string, k: nat)
    requires AllDigits(t) && k <= |t| && AllZeros(t[k..])
    ensures AllDigits(t[..k])
    ensures NatValue(t) == NatValue(t[..k]) * Pow10(|t| - k)
    decreases |t| - k
  {
    if k < |t| {
      var p := t[..|t| - 1];
      assert p[..k] == t[..k];
      assert p[k..] == t[k..|t| - 1];
      NatValueZeros(p, k);
      assert t[|t| - 1] == t[k..][|t| - 1 - k] == '0';
      assert NatValue(t) == 10 * NatValue(p);
      var a := NatValue(t[..k]);
      var z := Pow10(|p| - k);
      assert NatValue(p) == a * z;
      assert Pow10(|t| - k) == 10 * z;
      assert 10 * (a * z) == a * (10 * z);
      assert NatValue(t) == a * Pow10(|t| - k);
    } else {
      assert t[..k] == t;
    }
  }

  lemma {:induction false} NatValueZero(t: string)
    requires AllDigits(t) && NatValue(t) == 0
    ensures AllZeros(t)
    decreases |t|
  {
    if t != [] {
      NatValueZero(t[..|t| - 1]);
    }
  }

  lemma Pow10Add(a: nat, b: nat)
    ensures Pow10(a + b) == Pow10(a) * Pow10(b)
    decreases b
  {
    if b > 0 {
      Pow10Add(a, b - 1);
    }
  }

  /** A text `p` + "." + `f` with `p` free of '.' and ending with a digit loses exactly the zeros of `f`. */
  lemma StripFixed(p: string, f: string)
    requires p != [] && IsDigit(p[|p| - 1]) && (forall i :: 0 <= i < |p| ==> p[i] != '.')
    requires AllDigits(f) && f != []
    ensures StripTrailingZeros(p + "." + f) ==
      if DropZeros(f) == [] then p else p + "." + DropZeros(f)
  {
    var s := p + "." + f;
    var g := DropZeros(f);
    forall q | 0 <= q < |p|
      ensures !TrailingZerosAt(s, q)
    {
      assert s[q..][|p| - q] == '.';
      assert s[q] == p[q];
    }
    if g == [] {
      assert s[|p| + 1..] == f;
      assert TrailingZerosAt(s, |p|);
      assert FirstTrailingZeros(s, 0) == Some(|p|);
      assert s[..|p|] == p;
    } else {
      var e := |p| + 1 + |g|;
      assert !TrailingZerosAt(s, |p|) by {
        assert s[|p| + 1..][|g| - 1] == g[|g| - 1];
        assert s[|p|..][|g|] == g[|g| - 1];
      }
      forall q | |p| < q < e
        ensures !TrailingZerosAt(s, q)
      {
        assert s[q..][e - 1 - q] == g[|g| - 1];
        assert s[q] == f[q - |p| - 1];
      }
      if e < |s| {
        assert s[e..] == f[|g|..];
        assert TrailingZerosAt(s, e);
        assert FirstTrailingZeros(s, 0) == Some(e);
        assert s[..e] == p + "." + g;
      } else {
        assert FirstTrailingZeros(s, 0) == None;
        assert g == f;
      }
    }
  }

  // ---------------------------------------------------------------------------
  // Reading a result back
  // ---------------------------------------------------------------------------

  lemma DigitsEndAt(s: string, i: nat, j: nat)
    requires i <= j <= |s| && (forall k :: i <= k < j ==> IsDigit(s[k])) && (j == |s| || !IsDigit(s[j]))
    ensures DigitsEnd(s, i) == j
    decreases j - i
  {
    if i < j {
      DigitsEndAt(s, i + 1, j);
    }
  }

  /** The value of the literal `a` or `a.f`, with a '-' in front when `negative`. */
  function LiteralValue(negative: bool, a: string, f: string): real
    requires AllDigits(a) && AllDigits(f)
  {
    var v := NatValue(a) as real + NatValue(f) as real / Pow10(|f|) as real;
    if negative then -v else v
  }

  /** The literal `a` or `a.f`, with a '-' in front when `negative`. */
  function Literal(negative: bool, a: string, f: string): string
  {
    var p := (if negative then "-" else "") + a;
    if f == [] then p else p + "." + f
  }

  lemma ReadIntegerAt(s: string, negative: bool, a: string)
    requires a != [] && AllDigits(a)
    requires var start := if negative then 1 else 0;
      |s| == start + |a| && s[start..] == a && s[0] == (if negative then '-' else a[0])
    ensures ReadNumber(s, 0) == Some(Lexeme(LiteralValue(negative, a, []), |s|))
  {
    var start := if negative then 1 else 0;
    DigitsEndAt(s, start, |s|);
    ReadNumberParts(s, 0, start, |s|, |s|, false);
    assert s[start..|s|] == a;
  }

  lemma ReadDecimalAt(s: string, negative: bool, a: string, f: string)
    requires a != [] && AllDigits(a) && f != [] && AllDigits(f)
    requires var start := if negative then 1 else 0;
      |s| == start + |a| + 1 + |f| && s[start..start + |a|] == a && s[start + |a|] == '.'
      && s[start + |a| + 1..] == f && s[0] == (if negative then '-' else a[0])
    ensures ReadNumber(s, 0) == Some(Lexeme(LiteralValue(negative, a, f), |s|))
  {
    DecimalRuns(s, negative, a, f);
    DecimalRead(s, negative, a, f);
  }

  /** The two digit runs of a decimal literal end at the '.' and at the end of the text. */
  lemma DecimalRuns(s: string, negative: bool, a: string, f: string)
    requires a != [] && AllDigits(a) && f != [] && AllDigits(f)
    requires var start := if negative then 1 else 0;
      |s| == start + |a| + 1 + |f| && s[start..start + |a|] == a && s[start + |a|] == '.'
      && s[start + |a| + 1..] == f && s[0] == (if negative then '-' else a[0])
    ensures var start := if negative then 1 else 0;
      DigitsEnd(s, start) == start + |a| && DigitsEnd(s, start + |a| + 1) == |s|
  {
    var start := if negative then 1 else 0;
    var intEnd := start + |a|;
    forall k | start <= k < intEnd
      ensures IsDigit(s[k])
    {
      assert s[k] == a[k - start];
    }
    forall k | intEnd + 1 <= k < |s|
      ensures IsDigit(s[k])
    {
      assert s[k] == f[k - intEnd - 1];
    }
    DigitsEndAt(s, start, intEnd);
    DigitsEndAt(s, intEnd + 1, |s|);
  }

  lemma DecimalRead(s: string, negative: bool, a: string, f: string)
    requires a != [] && AllDigits(a) && f != [] && AllDigits(f)
    requires var start := if negative then 1 else 0;
      |s| == start + |a| + 1 + |f| && s[start..start + |a|] == a && s[start + |a|] == '.'
      && s[start + |a| + 1..] == f && s[0] == (if negative then '-' else a[0])
    requires var start := if negative then 1 else 0;
      DigitsEnd(s, start) == start + |a| && DigitsEnd(s, start + |a| + 1) == |s|
    ensures ReadNumber(s, 0) == Some(Lexeme(LiteralValue(negative, a, f), |s|))
  {
    var start := if negative then 1 else 0;
    var intEnd := start + |a|;
    if !negative {
      assert IsDigit(a[0]);
    }
    assert start == (if s[0] == '+' || s[0] == '-' then 1 else 0);
    ReadNumberParts(s, 0, start, intEnd, |s|, true);
    assert s[intEnd + 1..|s|] == f;
  }

  /** `readNumber` reads a whole literal. */
  lemma ReadLiteral(negative: bool, a: string, f: string)
    requires a != [] && AllDigits(a) && AllDigits(f)
    ensures var s := Literal(negative, a, f);
      ReadNumber(s, 0) == Some(Lexeme(LiteralValue(negative, a, f), |s|))
  {
    var s := Literal(negative, a, f);
    var sign := if negative then "-" else "";
    if f == [] {
      assert s == sign + a;
      assert s[|sign|..] == a;
      ReadIntegerAt(s, negative, a);
    } else {
      assert s == sign + a + "." + f;
      assert s[|sign|..|sign| + |a|] == a;
      assert s[|sign| + |a| + 1..] == f;
      ReadDecimalAt(s, negative, a, f);
    }
  }

  lemma TokensOneNumber(s: string, v: real)
    requires s != [] && ReadNumber(s, 0) == Some(Lexeme(v, |s|))
    ensures Tokens(s) == Some([Num(v)])
  {
    TokensFromStep(s, 0, true);
    assert TokensFrom(s, |s|, false) == Some([]);
    assert [Num(v)] + [] == [Num(v)];
  }

  /** `tokenize` reads a literal as one number with its value. */
  lemma TokensLiteral(negative: bool, a: string, f: string)
    requires a != [] && AllDigits(a) && AllDigits(f)
    ensures Tokens(Literal(negative, a, f)) == Some([Num(LiteralValue(negative, a, f))])
  {
    ReadLiteral(negative, a, f);
    TokensOneNumber(Literal(negative, a, f), LiteralValue(negative, a, f));
  }

  lemma FormatFromFixed(x: real, p: string, full: string)
    requires Fixed12(x) == p + "." + full
    requires p != [] && IsDigit(p[|p| - 1]) && (forall i :: 0 <= i < |p| ==> p[i] != '.')
    requires AllDigits(full) && full != []
    ensures FormatResult(Finite(x)) == if DropZeros(full) == [] then p else p + "." + DropZeros(full)
  {
    StripFixed(p, full);
  }

  function SignText(x: real): string
  {
    if x < 0.0 then "-" else ""
  }

  lemma FixedText(x: real)
    ensures Pow10(12) == Scale
    ensures Fixed12(x) == SignText(x) + NatText(FixedUnits(x) / Scale) + "." + FixedDigits(FixedUnits(x) % Scale, 12)
  {
    ScaleIsPow10();
  }

  lemma SignedDigits(sign: string, a: string)
    requires sign == "" || sign == "-"
    requires a != [] && AllDigits(a)
    ensures var p := sign + a;
      p != [] && IsDigit(p[|p| - 1]) && (forall i :: 0 <= i < |p| ==> p[i] != '.')
  {
    var p := sign + a;
    assert p[|p| - 1] == a[|a| - 1];
    forall i | 0 <= i < |p|
      ensures p[i] != '.'
    {
      if i >= |sign| {
        assert p[i] == a[i - |sign|];
      }
    }
  }

  /** The text `formatResult` shows for a finite result, as a literal. */
  lemma FormatText(x: real)
    ensures var m := FixedUnits(x);
      var f := (ScaleIsPow10(); DropZeros(FixedDigits(m % Scale, 12)));
      FormatResult(Finite(x)) == Literal(x < 0.0, NatText(m / Scale), f)
  {
    FixedText(x);
    var m := FixedUnits(x);
    var a := NatText(m / Scale);
    var full := FixedDigits(m % Scale, 12);
    var p := SignText(x) + a;
    SignedDigits(SignText(x), a);
    FormatFromFixed(x, p, full);
  }

  /** Multiplying by a non-zero factor is one-to-one. */
  lemma MulCancel(w: real, q: real, c: real)
    requires c != 0.0 && w * c == q * c
    ensures w == q
  {
    assert (w - q) * c == 0.0;
  }

  lemma CancelFactor(n: real, p: real, z: real)
    requires p > 0.0 && z > 0.0
    ensures (n * z) / (p * z) == n / p
  {
    var q := n / p;
    var w := (n * z) / (p * z);
    var c := p * z;
    assert c > 0.0;
    assert w * c == n * z;
    assert q * p == n;
    assert q * c == (q * p) * z;
    MulCancel(w, q, c);
  }

  lemma {:induction false} ProductAsReal(a: nat, b: nat)
    ensures (a * b) as real == a as real * b as real
    decreases b
  {
    if b > 0 {
      ProductAsReal(a, b - 1);
      assert a * b == a * (b - 1) + a;
      assert a as real * b as real == a as real * (b - 1) as real + a as real;
    }
  }

  /** n / p == (n * z) / (p * z), over the integers read as reals. */
  lemma RatioCancel(n: nat, pf: nat, z: nat, big: nat, bigP: nat)
    requires pf > 0 && z > 0 && big == n * z && bigP == pf * z
    ensures n as real / pf as real == big as real / bigP as real
  {
    ProductAsReal(n, z);
    ProductAsReal(pf, z);
    CancelFactor(n as real, pf as real, z as real);
  }

  /** Dropping the trailing zeros of a fraction's digits keeps its value. */
  lemma DropZerosValue(t: string)
    requires AllDigits(t)
    ensures AllDigits(DropZeros(t))
    ensures var f := DropZeros(t);
      NatValue(f) as real / Pow10(|f|) as real == NatValue(t) as real / Pow10(|t|) as real
  {
    var f := DropZeros(t);
    NatValueZeros(t, |f|);
    assert t[..|f|] == f;
    Pow10Add(|f|, |t| - |f|);
    RatioCancel(NatValue(f), Pow10(|f|), Pow10(|t| - |f|), NatValue(t), Pow10(|t|));
  }

  /** The value of the shown literal is the number `toFixed(12)` wrote. */
  lemma FormatValue(x: real)
    ensures var m := FixedUnits(x);
      var f := (ScaleIsPow10(); DropZeros(FixedDigits(m % Scale, 12)));
      LiteralValue(x < 0.0, NatText(m / Scale), f) == FixedValue(x)
  {
    ScaleIsPow10();
    var m := FixedUnits(x);
    DropZerosValue(FixedDigits(m % Scale, 12));
    var q := m / Scale;
    var r := m % Scale;
    assert m == q * Scale + r;
    assert m as real == q as real * Scale as real + r as real;
    assert m as real / Scale as real == q as real + r as real / Scale as real;
  }

  /**
   * Round trip: the text `formatResult` shows for a finite result reads back, through
   * `tokenize`, as the single number `toFixed(12)` wrote.
   */
  lemma FormatResultRoundTrip(x: real)
    ensures Tokens(FormatResult(Finite(x))) == Some([Num(FixedValue(x))])
  {
    FormatText(x);
    FormatValue(x);
    ScaleIsPow10();
    TokensLiteral(x < 0.0, NatText(FixedUnits(x) / Scale), DropZeros(FixedDigits(FixedUnits(x) % Scale, 12)));
  }

  lemma FixedUnitsOfMultiple(k: int)
    ensures FixedUnits(k as real / Scale as real) == if k < 0 then -k else k
  {
    var x := k as real / Scale as real;
    var n := if k < 0 then -k else k;
    var a := if x < 0.0 then -x else x;
    assert a == n as real / Scale as real;
    assert a * Scale as real == n as real;
    assert (a * Scale as real + 0.5).Floor == n;
  }

  /** A result rounded by `round` is written exactly. */
  lemma FixedValueRounded(y: real)
    ensures FixedValue(Round(y)) == Round(y)
  {
    var k := ((y + Epsilon) * Scale as real + 0.5).Floor;
    FixedUnitsOfMultiple(k);
  }
}
