/**
 * The salary-string cleaner of hr_app/utils.py: `sanitize_salary_input`
 * deletes six grouping and currency characters, trims surrounding
 * whitespace, and parses what is left as a number or raises ValueError.
 */
module SalaryInput {
  import opened Wrappers

  // ---------------------------------------------------------------------
  // Character classes
  // ---------------------------------------------------------------------

  /** The six characters the cleaner deletes: `,` `_` `₹` `$` `€` `£`. */
  predicate IsRemovedSymbol(c: char) {
    c == ',' || c == '_' || c == '\U{20B9}' || c == '$' || c == '\U{20AC}' || c == '\U{00A3}'
  }

  /** Python's `str.isspace`: the characters `str.strip()` removes. */
  predicate IsSpace(c: char) {
    ('\U{0009}' <= c <= '\U{000D}') || ('\U{001C}' <= c <= '\U{0020}')
    || c == '\U{0085}' || c == '\U{00A0}' || c == '\U{1680}'
    || ('\U{2000}' <= c <= '\U{200A}') || c == '\U{2028}' || c == '\U{2029}'
    || c == '\U{202F}' || c == '\U{205F}' || c == '\U{3000}'
  }

  predicate IsDigit(c: char) { '0' <= c <= '9' }

  predicate AllSpace(s: string) { forall i :: 0 <= i < |s| ==> IsSpace(s[i]) }

  predicate AllDigits(s: string) { forall i :: 0 <= i < |s| ==> IsDigit(s[i]) }

  predicate SymbolFree(s: string) { forall c :: c in s ==> !IsRemovedSymbol(c) }

  // ---------------------------------------------------------------------
  // Deletion: the chain of `replace(c, "")` calls
  // ---------------------------------------------------------------------

  /** `s.replace(c, "")`: every occurrence of `c` is deleted. */
  function DeleteChar(s: string, c: char): (r: string)
    ensures c !in r
    ensures |r| <= |s|
  {
    if s == [] then [] else (if s[0] == c then [] else [s[0]]) + DeleteChar(s[1..], c)
  }

  /** The six `replace` calls, in the order the source applies them. */
  function DeleteSymbols(s: string): string {
    DeleteChar(DeleteChar(DeleteChar(DeleteChar(DeleteChar(DeleteChar(
      s, ','), '_'), '\U{20B9}'), '$'), '\U{20AC}'), '\U{00A3}')
  }

  /** Reference definition: keep exactly the characters that are not one of the six. */
  function KeepNonSymbols(s: string): (r: string)
    ensures SymbolFree(r)
    ensures |r| <= |s|
  {
    if s == [] then []
    else (if IsRemovedSymbol(s[0]) then [] else [s[0]]) + KeepNonSymbols(s[1..])
  }

  lemma {:induction false} DeleteCharAppend(a: string, b: string, c: char)
    ensures DeleteChar(a + b, c) == DeleteChar(a, c) + DeleteChar(b, c)
  {
    if a != [] {
      assert (a + b)[0] == a[0];
      assert (a + b)[1..] == a[1..] + b;
      DeleteCharAppend(a[1..], b, c);
    } else {
      assert a + b == b;
    }
  }

  lemma {:induction false} KeepNonSymbolsAppend(a: string, b: string)
    ensures KeepNonSymbols(a + b) == KeepNonSymbols(a) + KeepNonSymbols(b)
  {
    if a != [] {
      assert (a + b)[0] == a[0];
      assert (a + b)[1..] == a[1..] + b;
      KeepNonSymbolsAppend(a[1..], b);
    } else {
      assert a + b == b;
    }
  }

  /** Deleting the six characters one after another is the same as filtering them out at once. */
  lemma {:induction false} DeleteSymbolsKeepsTheRest(s: string)
    ensures DeleteSymbols(s) == KeepNonSymbols(s)
  {
    if s != [] {
      var head, tail := [s[0]], s[1..];
      assert s == head + tail;
      DeleteSymbolsKeepsTheRest(tail);
      DeleteSymbolsAppend(head, tail);
      DeleteSymbolsOfOne(s[0]);
    }
  }

  /** The deletions act on each part of a concatenation separately. */
  lemma DeleteSymbolsAppend(a: string, b: string)
    ensures DeleteSymbols(a + b) == DeleteSymbols(a) + DeleteSymbols(b)
  {
    var a1, b1 := DeleteChar(a, ','), DeleteChar(b, ',');
    DeleteCharAppend(a, b, ',');
    var a2, b2 := DeleteChar(a1, '_'), DeleteChar(b1, '_');
    DeleteCharAppend(a1, b1, '_');
    var a3, b3 := DeleteChar(a2, '\U{20B9}'), DeleteChar(b2, '\U{20B9}');
    DeleteCharAppend(a2, b2, '\U{20B9}');
    var a4, b4 := DeleteChar(a3, '$'), DeleteChar(b3, '$');
    DeleteCharAppend(a3, b3, '$');
    var a5, b5 := DeleteChar(a4, '\U{20AC}'), DeleteChar(b4, '\U{20AC}');
    DeleteCharAppend(a4, b4, '\U{20AC}');
    DeleteCharAppend(a5, b5, '\U{00A3}');
  }

  lemma DeleteSymbolsOfOne(c: char)
    ensures DeleteSymbols([c]) == if IsRemovedSymbol(c) then [] else [c]
  {
  }

  /** Filtering a string that holds none of the six characters changes nothing. */
  lemma {:induction false} KeepNonSymbolsOfSymbolFree(s: string)
    requires SymbolFree(s)
    ensures KeepNonSymbols(s) == s
  {
    if s != [] {
      KeepNonSymbolsOfSymbolFree(s[1..]);
    }
  }

  // ---------------------------------------------------------------------
  // Trimming: `str.strip()`
  // ---------------------------------------------------------------------

  function StripLeading(s: string): (r: string)
    ensures |r| <= |s| && r == s[|s| - |r|..]
    ensures AllSpace(s[..|s| - |r|])
    ensures r == [] || !IsSpace(r[0])
  {
    if s != [] && IsSpace(s[0]) then
      var r := StripLeading(s[1..]);
      LeadingStep(s, r);
      r
    else s
  }

  /** One more leading space in front keeps the cut a suffix with only whitespace before it. */
  lemma LeadingStep(s: string, r: string)
    requires s != [] && IsSpace(s[0])
    requires |r| <= |s[1..]| && r == s[1..][|s[1..]| - |r|..] && AllSpace(s[1..][..|s[1..]| - |r|])
    ensures |r| <= |s| && r == s[|s| - |r|..] && AllSpace(s[..|s| - |r|])
  {
    assert s[..|s| - |r|] == [s[0]] + s[1..][..|s| - 1 - |r|];
  }

  function StripTrailing(s: string): (r: string)
    ensures |r| <= |s| && r == s[..|r|]
    ensures AllSpace(s[|r|..])
    ensures r == [] || !IsSpace(r[|r| - 1])
  {
    if s != [] && IsSpace(s[|s| - 1]) then
      var r := StripTrailing(s[..|s| - 1]);
      TrailingStep(s, r);
      r
    else s
  }

  /** One more trailing space behind keeps the cut a prefix with only whitespace after it. */
  lemma TrailingStep(s: string, r: string)
    requires s != [] && IsSpace(s[|s| - 1])
    requires |r| <= |s[..|s| - 1]| && r == s[..|s| - 1][..|r|] && AllSpace(s[..|s| - 1][|r|..])
    ensures |r| <= |s| && r == s[..|r|] && AllSpace(s[|r|..])
  {
    assert s[|r|..] == s[..|s| - 1][|r|..] + [s[|s| - 1]];
  }

  /** `s.strip()`: leading, then trailing whitespace removed. */
  function Strip(s: string): (r: string)
    ensures r == [] || (!IsSpace(r[0]) && !IsSpace(r[|r| - 1]))
    ensures forall c :: c in r ==> c in s
  {
    var l := StripLeading(s);
    var r := StripTrailing(l);
    SliceMembers(s, r, |s| - |l|);
    r
  }

  /** Every character of a slice occurs in the string it was cut from. */
  lemma SliceMembers(s: string, r: string, i: nat)
    requires i + |r| <= |s| && r == s[i..i + |r|]
    ensures forall c :: c in r ==> c in s
  {
    assert s == s[..i] + r + s[i + |r|..];
  }

  /**
   * Stripping cuts off whitespace only: the result is a slice of `s` with
   * nothing but whitespace on either side of it.
   */
  lemma StripCutsOnlyWhitespace(s: string)
    ensures var r := Strip(s);
      exists i :: 0 <= i <= |s| - |r| && r == s[i..i + |r|] && AllSpace(s[..i]) && AllSpace(s[i + |r|..])
  {
    WhitespaceOnBothSides(s, StripLeading(s), Strip(s));
  }

  /** Cutting whitespace off the front and then off the back leaves a slice with whitespace around it. */
  lemma WhitespaceOnBothSides(s: string, l: string, r: string)
    requires |l| <= |s| && l == s[|s| - |l|..] && AllSpace(s[..|s| - |l|])
    requires |r| <= |l| && r == l[..|r|] && AllSpace(l[|r|..])
    ensures exists i :: 0 <= i <= |s| - |r| && r == s[i..i + |r|] && AllSpace(s[..i]) && AllSpace(s[i + |r|..])
  {
    var i := |s| - |l|;
    assert r == s[i..i + |r|];
    assert s[i + |r|..] == l[|r|..];
  }

  /** Stripping a string that has no outer whitespace changes nothing. */
  lemma StripOfTrimmed(s: string)
    requires s == [] || (!IsSpace(s[0]) && !IsSpace(s[|s| - 1]))
    ensures Strip(s) == s
  {
  }

  lemma {:induction false} StripLeadingSpaces(p: string, t: string)
    requires AllSpace(p) && (t == [] || !IsSpace(t[0]))
    ensures StripLeading(p + t) == t
  {
    if p == [] {
      assert p + t == t;
    } else {
      assert (p + t)[0] == p[0];
      assert (p + t)[1..] == p[1..] + t;
      StripLeadingSpaces(p[1..], t);
    }
  }

  lemma {:induction false} StripTrailingSpaces(t: string, q: string)
    requires AllSpace(q) && (t == [] || !IsSpace(t[|t| - 1]))
    ensures StripTrailing(t + q) == t
  {
    if q == [] {
      assert t + q == t;
    } else {
      var s := t + q;
      assert s[|s| - 1] == q[|q| - 1];
      assert s[..|s| - 1] == t + q[..|q| - 1];
      StripTrailingSpaces(t, q[..|q| - 1]);
    }
  }

  /** Whitespace around a string without outer whitespace is exactly what stripping removes. */
  lemma StripPadded(p: string, t: string, q: string)
    requires AllSpace(p) && AllSpace(q)
    requires t != [] && !IsSpace(t[0]) && !IsSpace(t[|t| - 1])
    ensures Strip(p + t + q) == t
  {
    assert p + t + q == p + (t + q);
    assert (t + q)[0] == t[0];
    StripLeadingSpaces(p, t + q);
    StripTrailingSpaces(t, q);
  }

  // ---------------------------------------------------------------------
  // Cleaning
  // ---------------------------------------------------------------------

  /** The `cleaned` string of the source: the six deletions, then `strip()`. */
  function Clean(s: string): (r: string)
    ensures SymbolFree(r)
    ensures r == [] || (!IsSpace(r[0]) && !IsSpace(r[|r| - 1]))
  {
    DeleteSymbolsKeepsTheRest(s);
    Strip(DeleteSymbols(s))
  }

  /** Cleaning only deletes the six characters and trims whitespace: other characters keep their order. */
  lemma CleanIsStripOfFiltered(s: string)
    ensures Clean(s) == Strip(KeepNonSymbols(s))
  {
    DeleteSymbolsKeepsTheRest(s);
  }

  /** Cleaning an already-cleaned string returns it unchanged. */
  lemma CleanIdempotent(s: string)
    ensures Clean(Clean(s)) == Clean(s)
  {
    CleanOfTrimmedSymbolFree(Clean(s));
  }

  /** A symbol-free string with no outer whitespace is already clean. */
  lemma CleanOfTrimmedSymbolFree(s: string)
    requires SymbolFree(s)
    requires s == [] || (!IsSpace(s[0]) && !IsSpace(s[|s| - 1]))
    ensures Clean(s) == s
  {
    CleanIsStripOfFiltered(s);
    KeepNonSymbolsOfSymbolFree(s);
    StripOfTrimmed(s);
  }


  /** One of the six characters is ignored wherever it stands in the input. */
  lemma SymbolIgnoredAnywhere(a: string, x: char, b: string)
    requires IsRemovedSymbol(x)
    ensures Clean(a + [x] + b) == Clean(a + b)
  {
    FilterIgnoresSymbol(a, x, b);
    CleanIsStripOfFiltered(a + [x] + b);
    CleanIsStripOfFiltered(a + b);
  }

  lemma FilterIgnoresSymbol(a: string, x: char, b: string)
    requires IsRemovedSymbol(x)
    ensures KeepNonSymbols(a + [x] + b) == KeepNonSymbols(a + b)
  {
    var xs := [x];
    assert KeepNonSymbols(xs) == [] by { assert xs[1..] == []; }
    KeepNonSymbolsAppend(a, xs);
    assert KeepNonSymbols(a + xs) == KeepNonSymbols(a);
    KeepNonSymbolsAppend(a + xs, b);
    KeepNonSymbolsAppend(a, b);
  }

  // ---------------------------------------------------------------------
  // Parsing: `float(cleaned)` over decimal literals
  // ---------------------------------------------------------------------

  function DigitValue(c: char): (v: nat)
    requires IsDigit(c)
    ensures v <= 9
  {
    c as int - '0' as int
  }

  /** The value of a run of decimal digits, most significant first. */
  function DigitsValue(ds: string): nat
    requires AllDigits(ds)
  {
    if ds == [] then 0 else DigitsValue(ds[..|ds| - 1]) * 10 + DigitValue(ds[|ds| - 1])
  }

  /** The value of the digits after a decimal point: always a proper fraction. */
  function FractionValue(ds: string): (v: real)
    requires AllDigits(ds)
    ensures 0.0 <= v < 1.0
  {
    if ds == [] then 0.0 else (DigitValue(ds[0]) as real + FractionValue(ds[1..])) / 10.0
  }

  function Pow10(n: nat): (p: nat)
    ensures p >= 1
  {
    if n == 0 then 1 else 10 * Pow10(n - 1)
  }

  /** A leading digit contributes its value times ten to the power of the digits after it. */
  lemma {:induction false} DigitsValueCons(c: char, s: string)
    requires IsDigit(c) && AllDigits(s)
    ensures AllDigits([c] + s)
    ensures DigitsValue([c] + s) == DigitValue(c) * Pow10(|s|) + DigitsValue(s)
  {
    var u := [c] + s;
    assert forall i :: 0 < i < |u| ==> u[i] == s[i - 1];
    if s == [] {
      assert u[..0] == [];
    } else {
      var front, x := s[..|s| - 1], s[|s| - 1];
      assert u[..|u| - 1] == [c] + front;
      DigitsValueCons(c, front);
      ShiftLeft(DigitValue(c), Pow10(|front|), DigitsValue(front), DigitValue(x), DigitsValue([c] + front));
    }
  }

  /** Integer arithmetic behind DigitsValueCons: one more digit at the end shifts everything left. */
  lemma ShiftLeft(c: nat, p: nat, v: nat, x: nat, prev: nat)
    requires prev == c * p + v
    ensures prev * 10 + x == c * (10 * p) + (v * 10 + x)
  {
  }

  /** The digits after the point denote their integer value over ten to the power of their count: "05" is 5/100. */
  lemma {:induction false} FractionDigits(f: string)
    requires AllDigits(f)
    ensures FractionValue(f) == DigitsValue(f) as real / Pow10(|f|) as real
  {
    if f == [] {
      assert f[..0] == [];
    } else {
      var rest := f[1..];
      assert [f[0]] + rest == f;
      DigitsValueCons(f[0], rest);
      FractionDigits(rest);
      ShiftDigit(DigitValue(f[0]), DigitsValue(rest), Pow10(|rest|), DigitsValue(f), Pow10(|f|));
    }
  }

  /** Real arithmetic behind FractionDigits: putting a digit in front of a fraction with denominator `p`. */
  lemma ShiftDigit(c: nat, v: nat, p: nat, total: nat, q: nat)
    requires p >= 1 && total == c * p + v && q == 10 * p
    ensures (c as real + v as real / p as real) / 10.0 == total as real / q as real
  {
    var r, pr := c as real, p as real;
    assert total as real == r * pr + v as real;
    assert q as real == 10.0 * pr;
    assert r + v as real / pr == (r * pr + v as real) / pr;
  }

  /** Index of the first `.` in `u`, or `|u|` when there is none. */
  function FirstDot(u: string): (k: nat)
    ensures k <= |u|
    ensures forall i :: 0 <= i < k ==> u[i] != '.'
    ensures k < |u| ==> u[k] == '.'
  {
    if u == [] || u[0] == '.' then 0 else 1 + FirstDot(u[1..])
  }

  /** `u` is digits, a `.` at index `k`, digits, with at least one digit in all. */
  predicate PointAt(u: string, k: int) {
    0 <= k < |u| && u[k] == '.' && AllDigits(u[..k]) && AllDigits(u[k + 1..]) && |u| >= 2
  }

  /** Unsigned decimal literals: `d+`, `d+.`, `d+.d+`, `.d+`. */
  ghost predicate IsUnsignedNumeral(u: string) {
    (u != [] && AllDigits(u)) || exists k :: PointAt(u, k)
  }

  /** Decimal literals with an optional sign. */
  ghost predicate IsNumeral(t: string) {
    IsUnsignedNumeral(t) || (t != [] && (t[0] == '+' || t[0] == '-') && IsUnsignedNumeral(t[1..]))
  }

  /** The point of a decimal literal is its first `.`. */
  lemma PointIsFirstDot(u: string, j: int)
    requires PointAt(u, j)
    ensures j == FirstDot(u)
  {
  }

  function ParseUnsigned(u: string): (r: Option<real>)
    ensures r.Some? ==> r.value >= 0.0
  {
    var k := FirstDot(u);
    var whole := u[..k];
    var frac := if k < |u| then u[k + 1..] else [];
    if AllDigits(whole) && AllDigits(frac) && |whole| + |frac| > 0 then
      Some(DigitsValue(whole) as real + FractionValue(frac))
    else
      None
  }

  /** The unsigned parser accepts exactly the unsigned decimal literals. */
  lemma ParseUnsignedAccepts(u: string)
    ensures ParseUnsigned(u).Some? <==> IsUnsignedNumeral(u)
  {
    var k := FirstDot(u);
    var whole := u[..k];
    var frac := if k < |u| then u[k + 1..] else [];
    if AllDigits(whole) && AllDigits(frac) && |whole| + |frac| > 0 {
      assert k == |u| ==> u == whole;
      assert k < |u| ==> PointAt(u, k);
    } else {
      forall j | PointAt(u, j) ensures j == k { PointIsFirstDot(u, j); }
    }
  }

  /** `float(t)` restricted to decimal literals; `None` stands for ValueError. */
  function ParseDecimal(t: string): Option<real> {
    if t != [] && (t[0] == '+' || t[0] == '-') then
      match ParseUnsigned(t[1..])
      case None => None
      case Some(v) => Some(if t[0] == '-' then -v else v)
    else
      ParseUnsigned(t)
  }

  /** The parser accepts exactly the decimal literals, signed or not. */
  lemma ParseDecimalAccepts(t: string)
    ensures ParseDecimal(t).Some? <==> IsNumeral(t)
  {
    if t != [] && (t[0] == '+' || t[0] == '-') {
      ParseUnsignedAccepts(t[1..]);
      SignedIsNotUnsigned(t);
    } else {
      ParseUnsignedAccepts(t);
    }
  }

  /** A string that starts with a sign is not an unsigned literal. */
  lemma SignedIsNotUnsigned(t: string)
    requires t != [] && (t[0] == '+' || t[0] == '-')
    ensures !IsUnsignedNumeral(t)
  {
    assert !IsDigit(t[0]);
    forall k | 0 <= k < |t| && t[k] == '.' ensures !AllDigits(t[..k]) {
      assert t[..k][0] == t[0];
    }
  }

  // ---------------------------------------------------------------------
  // sanitize_salary_input
  // ---------------------------------------------------------------------

  /** The ValueError the source raises, carrying the original input. */
  datatype SalaryError = InvalidSalaryFormat(input: string)

  function SanitizeSalaryInput(s: string): (r: Result<real, SalaryError>)
    ensures r.Ok? <==> IsNumeral(Clean(s))
    ensures r.Err? ==> r.error == InvalidSalaryFormat(s)
  {
    ParseDecimalAccepts(Clean(s));
    match ParseDecimal(Clean(s))
    case Some(v) => Ok(v)
    case None => Err(InvalidSalaryFormat(s))
  }
}
