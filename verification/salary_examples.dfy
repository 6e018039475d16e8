/**
 * What the salary-string cleaner promises beyond its contract: every whole
 * number written in plain decimal sanitizes back to itself, and the
 * examples the cleaner documents give the values it documents.
 */
module SalaryExamples {
  import opened Wrappers
  import opened SalaryInput

  // ---------------------------------------------------------------------
  // Round trip with a decimal formatter
  // ---------------------------------------------------------------------

  function DigitChar(d: nat): (c: char)
    requires d <= 9
    ensures IsDigit(c) && DigitValue(c) == d
  {
    ('0' as int + d) as char
  }

  /** The plain decimal spelling of a whole number, e.g. 75000 as "75000". */
  function NatToDecimal(n: nat): (s: string)
    ensures s != [] && AllDigits(s)
  {
    if n < 10 then [DigitChar(n)] else NatToDecimal(n / 10) + [DigitChar(n % 10)]
  }

  lemma {:induction false} NatToDecimalValue(n: nat)
    ensures DigitsValue(NatToDecimal(n)) == n
  {
    var s := NatToDecimal(n);
    if n >= 10 {
      NatToDecimalValue(n / 10);
      assert s[..|s| - 1] == NatToDecimal(n / 10);
    } else {
      assert s[..0] == [];
    }
  }

  /** A run of digits has no point: the whole string is the integer part. */
  lemma ParseUnsignedDigits(u: string)
    requires u != [] && AllDigits(u)
    ensures ParseUnsigned(u) == Some(DigitsValue(u) as real)
  {
    var k := FirstDot(u);
    assert k == |u|;
    assert u[..k] == u;
  }

  /** A run of digits parses to its value. */
  lemma ParseDigits(s: string)
    requires s != [] && AllDigits(s)
    ensures ParseDecimal(s) == Some(DigitsValue(s) as real)
  {
    assert IsDigit(s[0]);
    ParseUnsignedDigits(s);
  }

  /** A minus sign followed by a run of digits parses to the negated value. */
  lemma ParseNegatedDigits(d: string)
    requires d != [] && AllDigits(d)
    ensures ParseDecimal("-" + d) == Some(-(DigitsValue(d) as real))
  {
    ParseMinusDigits(['-'] + d, d);
  }

  lemma ParseMinusDigits(s: string, d: string)
    requires d != [] && AllDigits(d) && s == ['-'] + d
    ensures ParseDecimal(s) == Some(-(DigitsValue(d) as real))
  {
    assert s[0] == '-' && s[1..] == d;
    ParseUnsignedDigits(d);
  }

  lemma DigitsSymbolFree(d: string)
    requires AllDigits(d)
    ensures SymbolFree(d)
  {
    forall c | c in d ensures !IsRemovedSymbol(c) {
      var i :| 0 <= i < |d| && d[i] == c;
      assert IsDigit(d[i]);
    }
  }

  /** A run of digits sanitizes to its value. */
  lemma SanitizeDigits(d: string)
    requires d != [] && AllDigits(d)
    ensures Clean(d) == d
    ensures SanitizeSalaryInput(d) == Ok(DigitsValue(d) as real)
  {
    DigitsSymbolFree(d);
    assert IsDigit(d[0]) && IsDigit(d[|d| - 1]);
    CleanOfTrimmedSymbolFree(d);
    ParseDigits(d);
  }

  /** A minus sign before a run of digits is kept: no sign check is made. */
  lemma {:induction false} SanitizeNegatedDigits(d: string)
    requires d != [] && AllDigits(d)
    ensures SanitizeSalaryInput("-" + d) == Ok(-(DigitsValue(d) as real))
  {
    var s := "-" + d;
    DigitsSymbolFree(d);
    assert SymbolFree(s);
    assert s[|s| - 1] == d[|d| - 1] && IsDigit(d[|d| - 1]);
    CleanOfTrimmedSymbolFree(s);
    ParseNegatedDigits(d);
  }

  /** Every whole number written in plain decimal sanitizes back to itself. */
  lemma SanitizeWholeNumber(n: nat)
    ensures SanitizeSalaryInput(NatToDecimal(n)) == Ok(n as real)
  {
    NatToDecimalValue(n);
    SanitizeDigits(NatToDecimal(n));
  }

  /** The same with a leading minus sign: the result is the negative number. */
  lemma {:induction false} SanitizeNegativeWholeNumber(n: nat)
    ensures SanitizeSalaryInput("-" + NatToDecimal(n)) == Ok(-(n as real))
  {
    var d := NatToDecimal(n);
    calc {
      SanitizeSalaryInput("-" + d);
    == { SanitizeNegatedDigits(d); }
      Ok(-(DigitsValue(d) as real));
    == { NatToDecimalValue(n); }
      Ok(-(n as real));
    }
  }

  /** Digits, a point and digits: the point found is the one after the whole part. */
  lemma PointAfterDigits(w: string, f: string, s: string)
    requires w != [] && AllDigits(w) && AllDigits(f) && s == w + ['.'] + f
    ensures FirstDot(s) == |w| && s[..|w|] == w && s[|w| + 1..] == f
  {
    assert s[..|w|] == w && s[|w|] == '.' && s[|w| + 1..] == f;
    assert PointAt(s, |w|);
    PointIsFirstDot(s, |w|);
  }

  /** A decimal literal with a point parses to its whole part plus its fraction. */
  lemma ParsePointed(w: string, f: string, s: string, x: nat)
    requires w != [] && AllDigits(w) && AllDigits(f) && s == w + ['.'] + f && DigitsValue(w) == x
    ensures ParseDecimal(s) == Some(x as real + FractionValue(f))
  {
    PointAfterDigits(w, f, s);
    assert IsDigit(s[0]);
  }

  /** Digits, a point and digits hold none of the six characters and no outer whitespace. */
  lemma PointedIsClean(w: string, f: string, s: string)
    requires w != [] && AllDigits(w) && AllDigits(f) && s == w + ['.'] + f
    ensures Clean(s) == s
  {
    DigitsSymbolFree(w);
    DigitsSymbolFree(f);
    SymbolFreeConcat(w, ['.']);
    SymbolFreeConcat(w + ['.'], f);
    assert s[0] == w[0] && IsDigit(w[0]);
    assert s[|s| - 1] == '.' || IsDigit(s[|s| - 1]) by {
      if f != [] { assert s[|s| - 1] == f[|f| - 1]; }
    }
    CleanOfTrimmedSymbolFree(s);
  }

  /** Whole digits, a point and fraction digits sanitize to the whole value plus the fraction. */
  lemma SanitizePointed(w: string, f: string, x: nat)
    requires w != [] && AllDigits(w) && AllDigits(f) && DigitsValue(w) == x
    ensures SanitizeSalaryInput(w + "." + f) == Ok(x as real + FractionValue(f))
  {
    var s := w + ['.'] + f;
    PointedIsClean(w, f, s);
    ParsePointed(w, f, s, x);
  }

  /**
   * Every amount written as a whole number, a point and fraction digits
   * sanitizes to that whole number plus the fraction's value (FractionDigits:
   * the digits' value over ten to the power of their count).
   */
  lemma SanitizeDecimal(n: nat, f: string)
    requires AllDigits(f)
    ensures SanitizeSalaryInput(NatToDecimal(n) + "." + f) == Ok(n as real + FractionValue(f))
  {
    NatToDecimalValue(n);
    SanitizePointed(NatToDecimal(n), f, n);
  }

  /** A point and digits hold none of the six characters and no outer whitespace. */
  lemma FractionIsClean(f: string, s: string)
    requires f != [] && AllDigits(f) && s == ['.'] + f
    ensures Clean(s) == s
  {
    DigitsSymbolFree(f);
    SymbolFreeConcat(['.'], f);
    assert s[|s| - 1] == f[|f| - 1] && IsDigit(f[|f| - 1]);
    CleanOfTrimmedSymbolFree(s);
  }

  /** A point and digits parse to the digits' fraction. */
  lemma ParseFraction(f: string, s: string)
    requires f != [] && AllDigits(f) && s == ['.'] + f
    ensures ParseDecimal(s) == Some(FractionValue(f))
  {
    assert FirstDot(s) == 0 && s[..0] == [] && s[1..] == f;
  }

  /** With no whole part, `.f` sanitizes to the fraction's value. */
  lemma SanitizeFraction(f: string)
    requires f != [] && AllDigits(f)
    ensures SanitizeSalaryInput("." + f) == Ok(FractionValue(f))
  {
    var s := ['.'] + f;
    FractionIsClean(f, s);
    ParseFraction(f, s);
  }

  // ---------------------------------------------------------------------
  // The documented examples
  // ---------------------------------------------------------------------

  lemma DigitsValueSnoc(a: string, c: char)
    requires AllDigits(a) && IsDigit(c)
    ensures AllDigits(a + [c]) && DigitsValue(a + [c]) == DigitsValue(a) * 10 + DigitValue(c)
  {
    assert (a + [c])[..|a|] == a;
  }

  lemma Value75000()
    ensures AllDigits("75000") && DigitsValue("75000") == 75000
  {
    assert DigitsValue("7") == 7 by { assert "7"[..0] == []; }
    DigitsValueSnoc("7", '5');
    assert "7" + ['5'] == "75";
    DigitsValueSnoc("75", '0');
    assert "75" + ['0'] == "750";
    DigitsValueSnoc("750", '0');
    assert "750" + ['0'] == "7500";
    DigitsValueSnoc("7500", '0');
    assert "7500" + ['0'] == "75000";
  }

  lemma Value500()
    ensures AllDigits("500") && DigitsValue("500") == 500
  {
    assert DigitsValue("5") == 5 by { assert "5"[..0] == []; }
    DigitsValueSnoc("5", '0');
    assert "5" + ['0'] == "50";
    DigitsValueSnoc("50", '0');
    assert "50" + ['0'] == "500";
  }

  /** Inputs that clean to the same text sanitize to the same value. */
  lemma SameCleanSameValue(a: string, b: string)
    requires Clean(a) == Clean(b)
    ensures SanitizeSalaryInput(a).Ok? == SanitizeSalaryInput(b).Ok?
    ensures SanitizeSalaryInput(a).Ok? ==> SanitizeSalaryInput(a).value == SanitizeSalaryInput(b).value
  {
  }

  lemma Sanitize75000()
    ensures Clean("75000") == "75000"
    ensures SanitizeSalaryInput("75000") == Ok(75000.0)
  {
    var plain := "75000";
    Value75000();
    SanitizeDigits(plain);
  }

  /** The five examples of the docstring all yield 75000. */
  lemma DocumentedExamples()
    ensures SanitizeSalaryInput("75000") == Ok(75000.0)
    ensures SanitizeSalaryInput("75,000") == Ok(75000.0)
    ensures SanitizeSalaryInput("$75,000") == Ok(75000.0)
    ensures SanitizeSalaryInput("\U{20B9}75,000") == Ok(75000.0)
    ensures SanitizeSalaryInput("75_000") == Ok(75000.0)
  {
    var plain, high, low, empty := "75000", "75", "000", "";
    var grouped, underscored, dollars, rupees := "75,000", "75_000", "$75,000", "\U{20B9}75,000";
    assert high + [','] + low == grouped && high + low == plain;
    assert high + ['_'] + low == underscored;
    assert empty + ['$'] + grouped == dollars && empty + grouped == grouped;
    assert empty + ['\U{20B9}'] + grouped == rupees;
    Sanitize75000();
    SymbolIgnoredAnywhere(high, ',', low);
    SameCleanSameValue(grouped, plain);
    SymbolIgnoredAnywhere(high, '_', low);
    SameCleanSameValue(underscored, plain);
    SymbolIgnoredAnywhere(empty, '$', grouped);
    SameCleanSameValue(dollars, plain);
    SymbolIgnoredAnywhere(empty, '\U{20B9}', grouped);
    SameCleanSameValue(rupees, plain);
  }

  lemma CleanSpacedAmount()
    ensures Clean(" $ 75,000 ") == Clean("  75000 ")
  {
    var a, b, c, d := " ", " 75,000 ", "  75", "000 ";
    var s, u, t := " $ 75,000 ", "  75,000 ", "  75000 ";
    assert a + ['$'] + b == s && a + b == u;
    assert c + [','] + d == u && c + d == t;
    SymbolIgnoredAnywhere(a, '$', b);
    SymbolIgnoredAnywhere(c, ',', d);
  }

  /** Whitespace is not among the six deleted characters. */
  lemma SpacesSymbolFree(p: string)
    requires AllSpace(p)
    ensures SymbolFree(p)
  {
    forall c | c in p ensures !IsRemovedSymbol(c) {
      var i :| 0 <= i < |p| && p[i] == c;
      assert IsSpace(p[i]);
    }
  }

  lemma SymbolFreeConcat(a: string, b: string)
    requires SymbolFree(a) && SymbolFree(b)
    ensures SymbolFree(a + b)
  {
    forall c | c in a + b ensures !IsRemovedSymbol(c) {
      assert c in a || c in b;
    }
  }

  /** On a string free of the six characters, cleaning is stripping. */
  lemma CleanOfSymbolFree(s: string)
    requires SymbolFree(s)
    ensures Clean(s) == Strip(s)
  {
    KeepNonSymbolsOfSymbolFree(s);
    CleanIsStripOfFiltered(s);
  }

  lemma PaddedSymbolFree(p: string, d: string, q: string)
    requires AllSpace(p) && AllSpace(q) && AllDigits(d)
    ensures SymbolFree(p + d + q)
  {
    SpacesSymbolFree(p);
    SpacesSymbolFree(q);
    DigitsSymbolFree(d);
    SymbolFreeConcat(p, d);
    SymbolFreeConcat(p + d, q);
  }

  lemma StripPaddedDigits(p: string, d: string, q: string)
    requires AllSpace(p) && AllSpace(q) && d != [] && AllDigits(d)
    ensures Strip(p + d + q) == d
  {
    assert IsDigit(d[0]) && IsDigit(d[|d| - 1]);
    StripPadded(p, d, q);
  }

  /** Whitespace around a run of digits is ignored. */
  lemma CleanPadded(p: string, d: string, q: string)
    requires AllSpace(p) && AllSpace(q) && d != [] && AllDigits(d)
    ensures Clean(p + d + q) == d
  {
    PaddedSymbolFree(p, d, q);
    CleanOfSymbolFree(p + d + q);
    StripPaddedDigits(p, d, q);
  }

  lemma CleanPaddedDigits()
    ensures Clean("  75000 ") == "75000"
  {
    var pad, plain, end := "  ", "75000", " ";
    assert "  75000 " == pad + plain + end;
    assert AllSpace(pad) && AllSpace(end);
    Value75000();
    CleanPadded(pad, plain, end);
  }

  /** Trimming comes after deletion, so spaces left around a deleted symbol are trimmed too. */
  lemma SpacesAroundSymbols()
    ensures SanitizeSalaryInput(" $ 75,000 ") == Ok(75000.0)
  {
    var s, plain := " $ 75,000 ", "75000";
    CleanSpacedAmount();
    CleanPaddedDigits();
    Sanitize75000();
    SameCleanSameValue(s, plain);
  }

  /** "75000.50" sanitizes to 75000.5. */
  lemma SanitizeWithCents()
    ensures SanitizeSalaryInput("75000.50") == Ok(75000.5)
  {
    var plain, cents := "75000", "50";
    assert plain + "." + cents == "75000.50";
    Value75000();
    FiftyCents(cents);
    SanitizePointed(plain, cents, 75000);
  }

  lemma FiftyCents(cents: string)
    requires cents == "50"
    ensures AllDigits(cents) && FractionValue(cents) == 0.5
  {
    assert cents[1..] == "0" && "0"[1..] == [];
  }

  /** Grouping and cents together: "75,000.50" sanitizes to 75000.5. */
  lemma GroupedWithCents()
    ensures SanitizeSalaryInput("75,000.50") == Ok(75000.5)
  {
    var high, low := "75", "000.50";
    var s, t := "75,000.50", "75000.50";
    assert high + [','] + low == s && high + low == t;
    SymbolIgnoredAnywhere(high, ',', low);
    SameCleanSameValue(s, t);
    SanitizeWithCents();
  }

  /** Text that is not a number raises the error, never a value. */
  lemma NotANumber()
    ensures SanitizeSalaryInput("abc") == Err(InvalidSalaryFormat("abc"))
  {
    var s := "abc";
    assert SymbolFree(s);
    assert !IsDigit(s[0]);
    assert s[0] != '.' && s[1] != '.' && s[2] != '.';
    assert !IsNumeral(s);
    CleanOfTrimmedSymbolFree(s);
  }

  /** A negative amount passes through: rejecting it is left to the store. */
  lemma NegativeAmount()
    ensures SanitizeSalaryInput("-500") == Ok(-500.0)
  {
    var d, s := "500", "-500";
    Value500();
    assert s == "-" + d;
    SanitizeNegatedDigits(d);
  }
}
