/** The string handling the rewrite rules do before a value becomes a number:
    Python's `float(...)` on a plain decimal literal, `str.rstrip(ch)`, and
    removing every character of a class, as `re.sub('[\$,]', '', s)` does. */
module Parsing {
  import opened Frames

  predicate IsDigit(ch: char) {
    '0' <= ch <= '9'
  }

  predicate AllDigits(s: string) {
    forall i :: 0 <= i < |s| ==> IsDigit(s[i])
  }

  /** The value of a string of decimal digits, most significant first. */
  function DigitsValue(s: string): nat
    requires AllDigits(s)
    decreases |s|
  {
    if s == [] then 0 else 10 * DigitsValue(s[..|s| - 1]) + (s[|s| - 1] as int - '0' as int)
  }

  function Pow10(k: nat): (p: nat)
    ensures p >= 1
  {
    if k == 0 then 1 else 10 * Pow10(k - 1)
  }

  /** The position of the first '.', or |s| when there is none. */
  function DotIndex(s: string): (k: nat)
    ensures k <= |s|
    ensures k < |s| ==> s[k] == '.'
    ensures forall i :: 0 <= i < k ==> s[i] != '.'
    decreases |s|
  {
    if s == [] || s[0] == '.' then 0 else 1 + DotIndex(s[1..])
  }

  /** A decimal literal as written: sign, whole part, and the value of the
      fraction digits with their count. */
  datatype Literal = Literal(negative: bool, whole: nat, frac: nat, scale: nat) {
    function Value(): real {
      var x := whole as real + frac as real / Pow10(scale) as real;
      if negative then -x else x
    }
  }

  /** An unsigned decimal literal: digits, optionally a '.', then digits, with
      at least one digit in all ("7", "7.", ".5" and "12.34" are accepted). */
  function ParseUnsigned(s: string, negative: bool): Option<Literal> {
    var k := DotIndex(s);
    var whole := s[..k];
    var frac := if k < |s| then s[k + 1..] else [];
    if AllDigits(whole) && AllDigits(frac) && |whole| + |frac| > 0 then
      Some(Literal(negative, DigitsValue(whole), DigitsValue(frac), |frac|))
    else
      None
  }

  /** The literal s spells, with an optional leading sign. */
  function ParseLiteral(s: string): Option<Literal> {
    if |s| > 0 && (s[0] == '+' || s[0] == '-') then
      ParseUnsigned(s[1..], s[0] == '-')
    else
      ParseUnsigned(s, false)
  }

  /** `float(s)` for a decimal literal; None where Python raises ValueError.
      Only a leading sign, digits and a '.' are accepted, with at least one
      digit, and only a leading '-' gives a negative number. */
  function ParseFloat(s: string): (r: Option<real>)
    ensures r.Some? ==>
              forall i :: 0 <= i < |s| ==> IsDigit(s[i]) || s[i] == '.' || (i == 0 && (s[i] == '+' || s[i] == '-'))
    ensures r.Some? ==> exists i :: 0 <= i < |s| && IsDigit(s[i])
    ensures r.Some? && r.value < 0.0 ==> s[0] == '-'
  {
    match ParseLiteral(s)
    case None => None
    case Some(lit) =>
      if |s| > 0 && (s[0] == '+' || s[0] == '-') then
        UnsignedShape(s[1..], s[0] == '-');
        assert forall i :: 1 <= i < |s| ==> s[i] == s[1..][i - 1];
        Some(lit.Value())
      else
        UnsignedShape(s, false);
        Some(lit.Value())
  }

  /** What an accepted unsigned literal is made of, and the sign of its
      value. */
  lemma UnsignedShape(s: string, negative: bool)
    ensures ParseUnsigned(s, negative).Some? ==>
              && (forall i :: 0 <= i < |s| ==> IsDigit(s[i]) || s[i] == '.')
              && (exists i :: 0 <= i < |s| && IsDigit(s[i]))
              && (ParseUnsigned(s, negative).value.Value() < 0.0 ==> negative)
  {
    if ParseUnsigned(s, negative).Some? {
      var k := DotIndex(s);
      var whole := s[..k];
      var frac := if k < |s| then s[k + 1..] else [];
      forall i | 0 <= i < |s| ensures IsDigit(s[i]) || s[i] == '.' {
        if i < k {
          assert s[i] == whole[i];
        } else if i > k {
          assert s[i] == frac[i - k - 1];
        }
      }
      if |whole| > 0 {
        assert IsDigit(s[0]) by { assert s[0] == whole[0]; }
      } else {
        assert IsDigit(s[k + 1]) by { assert s[k + 1] == frac[0]; }
      }
      var lit := ParseUnsigned(s, negative).value;
      assert lit.frac as real / Pow10(lit.scale) as real >= 0.0;
    }
  }

  // ---------------------------------------------------------------------
  // Rendering, the inverse of parsing: n / 10^k written with k decimals.

  function DigitChar(d: nat): (ch: char)
    requires d < 10
    ensures IsDigit(ch) && ch as int - '0' as int == d
  {
    (d + '0' as int) as char
  }

  /** The decimal digits of n, without leading zeros. */
  function NatDigits(n: nat): (s: string)
    ensures |s| > 0 && AllDigits(s) && DigitsValue(s) == n
    decreases n
  {
    if n < 10 then
      [DigitChar(n)]
    else
      var s := NatDigits(n / 10) + [DigitChar(n % 10)];
      assert s[..|s| - 1] == NatDigits(n / 10);
      s
  }

  /** Exactly k digits for n, padded with leading zeros. */
  function PadDigits(n: nat, k: nat): (s: string)
    requires n < Pow10(k)
    ensures |s| == k && AllDigits(s) && DigitsValue(s) == n
    decreases k
  {
    if k == 0 then
      []
    else
      var s := PadDigits(n / 10, k - 1) + [DigitChar(n % 10)];
      assert s[..|s| - 1] == PadDigits(n / 10, k - 1);
      s
  }

  /** Quotient and remainder, kept apart so the two do not meet in one
      nonlinear goal. */
  function DivMod(m: nat, p: nat): (qr: (nat, nat))
    requires p >= 1
    ensures qr.1 < p && qr.0 * p + qr.1 == m
  {
    (m / p, m % p)
  }

  /** Whole part q and k fraction digits for r, unsigned. */
  function FixedDigits(q: nat, r: nat, k: nat): string
    requires r < Pow10(k)
  {
    NatDigits(q) + (if k == 0 then "" else "." + PadDigits(r, k))
  }

  /** n / 10^k as Python prints it with k decimals ("-12.34" for -1234, 2). */
  function ShowFixed(n: int, k: nat): string {
    var m: nat := if n < 0 then -n else n;
    var (q, r) := DivMod(m, Pow10(k));
    if n < 0 then "-" + FixedDigits(q, r, k) else FixedDigits(q, r, k)
  }

  lemma DigitsThenRest(w: string, rest: string)
    requires AllDigits(w)
    requires rest == [] || rest[0] == '.'
    ensures DotIndex(w + rest) == |w|
  {
    var s := w + rest;
    assert forall i :: 0 <= i < |w| ==> s[i] == w[i] && IsDigit(s[i]);
    assert |w| < |s| ==> s[|w|] == '.';
  }

  /** Digits, a '.', digits. */
  lemma ParseWholeAndFraction(w: string, f: string, negative: bool)
    requires |w| > 0 && AllDigits(w) && AllDigits(f)
    ensures ParseUnsigned(w + "." + f, negative)
         == Some(Literal(negative, DigitsValue(w), DigitsValue(f), |f|))
  {
    var u := w + "." + f;
    assert u == w + ("." + f);
    DigitsThenRest(w, "." + f);
    assert u[..|w|] == w;
    assert u[|w| + 1..] == f;
  }

  /** Digits alone. */
  lemma ParseWhole(d: string, negative: bool)
    requires |d| > 0 && AllDigits(d)
    ensures ParseUnsigned(d, negative) == Some(Literal(negative, DigitsValue(d), 0, 0))
  {
    DigitsThenRest(d, []);
    assert d + [] == d;
    assert d[..|d|] == d;
  }

  lemma ParseFixedDigits(q: nat, r: nat, k: nat, negative: bool)
    requires r < Pow10(k)
    ensures ParseUnsigned(FixedDigits(q, r, k), negative) == Some(Literal(negative, q, r, k))
  {
    if k == 0 {
      ParseFixedWhole(q, r, negative);
    } else {
      ParseFixedFraction(q, r, k, negative);
    }
  }

  lemma ParseFixedWhole(q: nat, r: nat, negative: bool)
    requires r < Pow10(0)
    ensures ParseUnsigned(FixedDigits(q, r, 0), negative) == Some(Literal(negative, q, r, 0))
  {
    var w := NatDigits(q);
    ParseWhole(w, negative);
    assert FixedDigits(q, r, 0) == w;
  }

  lemma ParseFixedFraction(q: nat, r: nat, k: nat, negative: bool)
    requires k > 0 && r < Pow10(k)
    ensures ParseUnsigned(FixedDigits(q, r, k), negative) == Some(Literal(negative, q, r, k))
  {
    var w := NatDigits(q);
    var f := PadDigits(r, k);
    assert FixedDigits(q, r, k) == w + "." + f;
    ParseWholeAndFraction(w, f, negative);
  }

  /** The digits ShowFixed writes start with a digit. */
  lemma FixedDigitsStart(q: nat, r: nat, k: nat)
    requires r < Pow10(k)
    ensures |FixedDigits(q, r, k)| > 0 && IsDigit(FixedDigits(q, r, k)[0])
  {
    var w := NatDigits(q);
    assert FixedDigits(q, r, k)[0] == w[0];
  }

  /** A leading '-' is the sign. */
  lemma ParseNegative(u: string)
    ensures ParseLiteral("-" + u) == ParseUnsigned(u, true)
  {
    assert ("-" + u)[0] == '-';
    assert ("-" + u)[1..] == u;
  }

  /** Without a sign, the literal is unsigned. */
  lemma ParseUnsignedStart(u: string)
    requires |u| > 0 && IsDigit(u[0])
    ensures ParseLiteral(u) == ParseUnsigned(u, false)
  {
  }

  /** ShowFixed writes a literal whose parts are the quotient and remainder. */
  lemma ParseLiteralShowFixed(n: int, k: nat)
    ensures var m: nat := if n < 0 then -n else n;
            var qr := DivMod(m, Pow10(k));
            ParseLiteral(ShowFixed(n, k)) == Some(Literal(n < 0, qr.0, qr.1, k))
  {
    var m: nat := if n < 0 then -n else n;
    var qr := DivMod(m, Pow10(k));
    var u := FixedDigits(qr.0, qr.1, k);
    ParseFixedDigits(qr.0, qr.1, k, n < 0);
    if n < 0 {
      assert ShowFixed(n, k) == "-" + u;
      ParseNegative(u);
    } else {
      assert ShowFixed(n, k) == u;
      FixedDigitsStart(qr.0, qr.1, k);
      ParseUnsignedStart(u);
    }
  }

  lemma DivideOut(q: nat, r: nat, p: nat, m: nat)
    requires p >= 1 && q * p + r == m
    ensures q as real + r as real / p as real == m as real / p as real
  {
    var pr := p as real;
    assert (q * p) as real == q as real * pr;
    assert m as real == q as real * pr + r as real;
    calc {
      m as real / pr;
      (q as real * pr + r as real) / pr;
      q as real * pr / pr + r as real / pr;
    }
  }

  lemma NegatedQuotient(m: nat, p: nat)
    requires p >= 1
    ensures -(m as real / p as real) == (-(m as int)) as real / p as real
  {
  }

  /** The value of a literal with whole part q and remainder r is the
      unsplit quotient. */
  lemma LiteralValue(negative: bool, q: nat, r: nat, k: nat, m: nat)
    requires q * Pow10(k) + r == m
    ensures Literal(negative, q, r, k).Value()
         == (if negative then -(m as int) else m) as real / Pow10(k) as real
  {
    DivideOut(q, r, Pow10(k), m);
    NegatedQuotient(m, Pow10(k));
  }

  /** Reading back what ShowFixed writes gives the exact value. */
  lemma ParseShowFixed(n: int, k: nat)
    ensures ParseFloat(ShowFixed(n, k)) == Some(n as real / Pow10(k) as real)
  {
    var m: nat := if n < 0 then -n else n;
    var (q, r) := DivMod(m, Pow10(k));
    ParseLiteralShowFixed(n, k);
    LiteralValue(n < 0, q, r, k, m);
  }

  lemma WholeValue(v: nat)
    ensures Literal(false, v, 0, 0).Value() == v as real
  {
  }

  /** A plain digit string parses to its value. */
  lemma ParseDigits(d: string)
    requires |d| > 0 && AllDigits(d)
    ensures ParseFloat(d) == Some(DigitsValue(d) as real)
  {
    ParseWhole(d, false);
    assert IsDigit(d[0]);
    WholeValue(DigitsValue(d));
  }

  lemma OneDigit(ch: char)
    requires IsDigit(ch)
    ensures DigitsValue([ch]) == ch as int - '0' as int
  {
    assert [ch][..0] == [];
  }

  lemma TwoDigits(s: string)
    requires |s| == 2 && AllDigits(s)
    ensures DigitsValue(s) == 10 * (s[0] as int - '0' as int) + (s[1] as int - '0' as int)
  {
    assert s[..1] == [s[0]];
    OneDigit(s[0]);
  }

  /** "12.34" reads as 12.34. */
  lemma ParsePercentExample()
    ensures ParseFloat("12.34") == Some(12.34)
  {
    assert "12.34" == "12" + "." + "34";
    TwoDigits("12");
    TwoDigits("34");
    ParseWholeAndFraction("12", "34", false);
  }

  /** "1234.56" reads as 1234.56. */
  lemma ParseCurrencyExample()
    ensures ParseFloat("1234.56") == Some(1234.56)
  {
    assert "1234.56" == "1234" + "." + "56";
    FourDigits();
    TwoDigits("56");
    ParseWholeAndFraction("1234", "56", false);
  }

  lemma FourDigits()
    ensures DigitsValue("1234") == 1234
  {
    TwoDigits("12");
    assert "123"[..2] == "12";
    assert "1234"[..3] == "123";
  }

  // ---------------------------------------------------------------------
  // str.rstrip(ch)

  /** `s.rstrip(ch)`: s without its whole run of trailing ch. */
  function RStrip(s: string, ch: char): (r: string)
    ensures |r| <= |s| && r == s[..|r|]
    ensures forall i :: |r| <= i < |s| ==> s[i] == ch
    ensures r == [] || r[|r| - 1] != ch
    decreases |s|
  {
    if s != [] && s[|s| - 1] == ch then RStrip(s[..|s| - 1], ch) else s
  }

  function Repeat(ch: char, n: nat): (s: seq<char>)
    ensures |s| == n && forall i :: 0 <= i < n ==> s[i] == ch
  {
    seq(n, _ => ch)
  }

  /** Every trailing ch goes, however many there are: "5%%%" strips like "5%". */
  lemma {:induction false} RStripAllTrailing(s: string, ch: char, n: nat)
    ensures RStrip(s + Repeat(ch, n), ch) == RStrip(s, ch)
  {
    if n > 0 {
      var t := s + Repeat(ch, n);
      assert t[|t| - 1] == ch;
      assert t[..|t| - 1] == s + Repeat(ch, n - 1);
      RStripAllTrailing(s, ch, n - 1);
    } else {
      assert s + Repeat(ch, 0) == s;
    }
  }

  /** The three properties in RStrip's contract pin the result down: the
      shortest prefix after which only ch follows. */
  lemma RStripUnique(s: string, ch: char, p: nat)
    requires p <= |s|
    requires forall i :: p <= i < |s| ==> s[i] == ch
    requires p == 0 || s[p - 1] != ch
    ensures RStrip(s, ch) == s[..p]
  {
    var r := RStrip(s, ch);
    assert |r| >= p;
    assert |r| > p ==> r[|r| - 1] == s[|r| - 1];
  }

  // ---------------------------------------------------------------------
  // re.sub('[...]', '', s)

  /** s with every character of drop removed, wherever it stands. */
  function RemoveAll(s: string, drop: set<char>): (r: string)
    ensures |r| <= |s|
    ensures forall i :: 0 <= i < |r| ==> r[i] !in drop
    decreases |s|
  {
    if s == [] then [] else (if s[0] in drop then [] else [s[0]]) + RemoveAll(s[1..], drop)
  }

  /** Every character that is not dropped is kept, as often as it occurs. */
  lemma {:induction false} RemoveAllKeeps(s: string, drop: set<char>, ch: char)
    requires ch !in drop
    ensures multiset(RemoveAll(s, drop))[ch] == multiset(s)[ch]
  {
    if s != [] {
      assert s == [s[0]] + s[1..];
      RemoveAllKeeps(s[1..], drop, ch);
    }
  }

  /** Removal works piece by piece, so the kept characters stay in order. */
  lemma {:induction false} RemoveAllConcat(a: string, b: string, drop: set<char>)
    ensures RemoveAll(a + b, drop) == RemoveAll(a, drop) + RemoveAll(b, drop)
  {
    if a == [] {
      assert a + b == b;
    } else {
      assert (a + b)[0] == a[0];
      assert (a + b)[1..] == a[1..] + b;
      RemoveAllConcat(a[1..], b, drop);
    }
  }

  /** A string with nothing to remove is left as it is. */
  lemma {:induction false} RemoveAllClean(s: string, drop: set<char>)
    requires forall i :: 0 <= i < |s| ==> s[i] !in drop
    ensures RemoveAll(s, drop) == s
  {
    if s != [] {
      RemoveAllClean(s[1..], drop);
    }
  }
}
