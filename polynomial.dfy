/** The polynomial screen: two polynomials in x are read from text such as
    "2x^2 + 3x + 1", multiplied term by term while like exponents are
    combined, and shown again as text. Coefficients are JavaScript numbers;
    here they are exact reals. */
module Polynomial {
  import opened Common

  datatype Term = Term(coefficient: real, exponent: nat)

  // ------------------------------------------------------ numbers in text

  /** parseInt(s) on text without a sign: the value of its leading digits,
      or None where JavaScript gives NaN. */
  function ParseInt(s: string): (r: Option<nat>)
    ensures r.None? <==> |s| == 0 || !IsDigit(s[0])
  {
    var d := DigitPrefix(s);
    if |d| == 0 then None else Some(DigitsValue(d))
  }

  function Signed(negative: bool, v: real): real {
    if negative then -v else v
  }

  /** parseFloat(s): an optional sign, digits and an optional fraction after
      '.', or None (NaN) when there is no digit before or after the point. */
  function ParseFloat(s: string): Option<real> {
    var negative := |s| > 0 && s[0] == '-';
    var rest := if |s| > 0 && (s[0] == '-' || s[0] == '+') then s[1..] else s;
    var whole := DigitPrefix(rest);
    var after := rest[|whole|..];
    var fraction := if |after| > 0 && after[0] == '.' then DigitPrefix(after[1..]) else [];
    if |whole| + |fraction| == 0 then None
    else Some(Signed(negative, Decimal(whole, fraction)))
  }

  /** The value of whole.fraction. */
  function Decimal(whole: string, fraction: string): real
    requires AllDigits(whole) && AllDigits(fraction)
  {
    DigitsValue(whole) as real + DigitsValue(fraction) as real / Pow10(|fraction|) as real
  }

  lemma DecimalWhole(whole: string)
    requires AllDigits(whole)
    ensures Decimal(whole, "") == DigitsValue(whole) as real
  {
    assert DigitsValue("") == 0 && Pow10(0) == 1;
  }

  /** Reading back the digits of a number gives the number. */
  lemma ParseNatText(n: nat, rest: string)
    requires |rest| == 0 || (!IsDigit(rest[0]) && rest[0] != '.')
    ensures ParseInt(NatText(n) + rest) == Some(n)
    ensures ParseFloat(NatText(n) + rest) == Some(n as real)
  {
    var d := NatText(n);
    DigitPrefixOfDigits(d, rest);
    NatTextValue(n);
    assert (d + rest)[|d|..] == rest;
    assert !IsSign((d + rest)[0]);
    DecimalWhole(d);
  }

  // ------------------------------------------------------ splitting into terms

  predicate IsSign(c: char) {
    c == '+' || c == '-'
  }

  /** toLowerCase on the letters A to Z; no other character can change how a
      polynomial is read. */
  function ToLower(s: string): (r: string)
    ensures |r| == |s|
    ensures forall k :: 0 <= k < |s| ==> r[k] == (if 'A' <= s[k] <= 'Z' then (s[k] as int + 32) as char else s[k])
  {
    if |s| == 0 then [] else
      [if 'A' <= s[0] <= 'Z' then (s[0] as int + 32) as char else s[0]] + ToLower(s[1..])
  }

  /** The terms the splitting loop of page lines 53-65 makes of s: every sign
      after the first character starts a new term. */
  function Pieces(s: string): seq<string> {
    if |s| == 0 then []
    else
      var ps, c := Pieces(s[..|s| - 1]), s[|s| - 1];
      if |s| > 1 && IsSign(c) then ps + [[c]]
      else if |ps| == 0 then [[c]]
      else ps[..|ps| - 1] + [ps[|ps| - 1] + [c]]
  }

  function Concat(ps: seq<string>): string {
    if |ps| == 0 then [] else Concat(ps[..|ps| - 1]) + ps[|ps| - 1]
  }

  /** A term carries a sign at most in its first position. */
  predicate SignOnlyFirst(t: string) {
    forall k :: 1 <= k < |t| ==> !IsSign(t[k])
  }

  /** Every term is non-empty with a sign at most first, and every term but
      the first starts with a sign. */
  ghost predicate Shaped(ps: seq<string>) {
    (forall k :: 0 <= k < |ps| ==> |ps[k]| > 0 && SignOnlyFirst(ps[k]))
    && (forall k :: 1 <= k < |ps| ==> IsSign(ps[k][0]))
  }

  ghost predicate WellSplit(s: string, ps: seq<string>) {
    Concat(ps) == s && Shaped(ps)
  }

  lemma ConcatAppend(ps: seq<string>, p: string)
    ensures Concat(ps + [p]) == Concat(ps) + p
  {
    assert (ps + [p])[..|ps|] == ps;
  }

  lemma PiecesEmpty(s: string)
    ensures |Pieces(s)| == 0 <==> |s| == 0
  {
  }

  lemma {:induction false} PiecesConcat(s: string)
    ensures Concat(Pieces(s)) == s
  {
    if |s| > 0 {
      var t, c := s[..|s| - 1], s[|s| - 1];
      PiecesConcat(t);
      var ps := Pieces(t);
      LastSplit(s);
      if (|s| > 1 && IsSign(c)) || |ps| == 0 {
        ConcatAppend(ps, [c]);
      } else {
        var init, last := ps[..|ps| - 1], ps[|ps| - 1];
        LastSplit(ps);
        ConcatAppend(init, last);
        ConcatAppend(init, last + [c]);
        AppendAssociates(Concat(init), last, [c]);
      }
    }
  }

  /** One more character: a sign after the first character opens a new
      term, anything else extends the last one. */
  lemma PiecesStep(s: string, c: char)
    ensures Pieces(s + [c]) ==
      if |s| > 0 && IsSign(c) then Pieces(s) + [[c]]
      else if |Pieces(s)| == 0 then [[c]]
      else Pieces(s)[..|Pieces(s)| - 1] + [Pieces(s)[|Pieces(s)| - 1] + [c]]
  {
    assert (s + [c])[..|s|] == s;
  }

  lemma ShapedNewTerm(ps: seq<string>, c: char)
    requires Shaped(ps) && IsSign(c)
    ensures Shaped(ps + [[c]])
  {
    var r := ps + [[c]];
    forall k | 0 <= k < |r|
      ensures |r[k]| > 0 && SignOnlyFirst(r[k]) && (k >= 1 ==> IsSign(r[k][0]))
    {
      if k < |ps| {
        assert r[k] == ps[k];
      }
    }
  }

  lemma ShapedExtend(ps: seq<string>, c: char)
    requires Shaped(ps) && |ps| > 0 && !IsSign(c)
    ensures Shaped(ps[..|ps| - 1] + [ps[|ps| - 1] + [c]])
  {
    var last := ps[|ps| - 1];
    var r := ps[..|ps| - 1] + [last + [c]];
    forall k | 0 <= k < |r|
      ensures |r[k]| > 0 && SignOnlyFirst(r[k]) && (k >= 1 ==> IsSign(r[k][0]))
    {
      if k < |r| - 1 {
        assert r[k] == ps[k];
      } else {
        assert SignOnlyFirst(last);
        assert r[k] == last + [c];
      }
    }
  }

  lemma {:induction false} PiecesShape(s: string)
    ensures Shaped(Pieces(s))
  {
    if |s| > 0 {
      var t, c := s[..|s| - 1], s[|s| - 1];
      assert s == t + [c];
      PiecesShape(t);
      PiecesEmpty(t);
      PiecesStep(t, c);
      var ps := Pieces(t);
      if |t| > 0 && IsSign(c) {
        ShapedNewTerm(ps, c);
      } else if |ps| > 0 {
        ShapedExtend(ps, c);
      } else {
        assert Pieces(s) == [[c]];
      }
    }
  }

  /** The terms put back together give the text, each term is non-empty and
      has a sign at most at its start, every term but the first starts with
      one, and only empty text has no terms. */
  lemma PiecesSplit(s: string)
    ensures WellSplit(s, Pieces(s))
    ensures |Pieces(s)| == 0 <==> |s| == 0
  {
    PiecesConcat(s);
    PiecesShape(s);
    PiecesEmpty(s);
  }

  /** The term-splitting loop (page lines 53-65). */
  method SplitTerms(cleanStr: string) returns (terms: seq<string>)
    ensures terms == Pieces(cleanStr)
  {
    terms := [];
    var currentTerm: string := [];
    for i := 0 to |cleanStr|
      invariant i == 0 ==> terms == [] && currentTerm == []
      invariant i > 0 ==> |currentTerm| > 0 && terms + [currentTerm] == Pieces(cleanStr[..i])
    {
      var c := cleanStr[i];
      assert cleanStr[..i + 1] == cleanStr[..i] + [c];
      PiecesStep(cleanStr[..i], c);
      assert (terms + [currentTerm])[..|terms|] == terms;
      if IsSign(c) && i > 0 {
        if |currentTerm| > 0 {
          terms := terms + [currentTerm];
        }
        currentTerm := [c];
      } else {
        currentTerm := currentTerm + [c];
      }
    }
    assert cleanStr[..|cleanStr|] == cleanStr;
    if |currentTerm| > 0 {
      terms := terms + [currentTerm];
    }
  }

  // ------------------------------------------------------ reading one term

  /** The text before the first c (split(c)[0]). */
  function Before(s: string, c: char): (r: string)
    ensures r <= s && c !in r
    ensures |r| < |s| ==> s[|r|] == c
  {
    if |s| == 0 || s[0] == c then [] else [s[0]] + Before(s[1..], c)
  }

  /** The text after the first c. */
  function After(s: string, c: char): string
    requires c in s
  {
    s[|Before(s, c)| + 1..]
  }

  /** JavaScript's `v || d` on a number: d when v is NaN or zero. */
  function OrElse(v: Option<real>, d: real): real {
    if v.None? || v.value == 0.0 then d else v.value
  }

  function Scale(negative: bool, v: Option<real>): Option<real> {
    if v.None? then None else Some(Signed(negative, v.value))
  }

  /** The exponent after the first x: none or no '^' means 1, and the digits
      after '^' otherwise, 0 when there are none. */
  function Exponent(part: string): nat {
    if part == [] then 1
    else if part[0] == '^' then (match ParseInt(part[1..]) case None => 0 case Some(e) => e)
    else 1
  }

  /** Whether the term starts with '-', which makes coeff -1 (page lines
      72-78); multiplying by it is written as negation. */
  function Negative(term: string): bool {
    |term| > 0 && term[0] == '-'
  }

  /** The term without its leading sign. */
  function TermBody(term: string): string {
    if |term| > 0 && IsSign(term[0]) then term[1..] else term
  }

  /** The term as page lines 67-107 read it. */
  function ParseTermAsWritten(term: string): Term {
    var negative, body := Negative(term), TermBody(term);
    if 'x' in body then Term(CoefficientAsWritten(negative, Before(body, 'x')), PowerOf(body))
    else Term(Signed(negative, OrElse(ParseFloat(body), 0.0)), 0)
  }

  /** The coefficient written before the x (page lines 84-90): none or a
      lone sign means one, and a number that reads as zero or NaN also
      becomes one. */
  function CoefficientAsWritten(negative: bool, before: string): real {
    if before == "" || before == "+" then Signed(negative, 1.0)
    else if before == "-" then Signed(!negative, 1.0)
    else OrElse(Scale(negative, ParseFloat(before)), 1.0)
  }

  /** The exponent of a term that holds an x, read from the text between
      the first x and the next one. */
  function PowerOf(body: string): nat
    requires 'x' in body
  {
    Exponent(Before(After(body, 'x'), 'x'))
  }

  lemma ParseZero()
    ensures ParseFloat("0") == Some(0.0)
  {
    ParseNatText(0, "");
    assert NatText(0) + "" == "0";
  }

  /** A written coefficient of zero is read as one: "0x" is the term x. */
  lemma ZeroCoefficientReadAsOne()
    ensures ParseTermAsWritten("0x") == Term(1.0, 1)
  {
    assert !Negative("0x") && TermBody("0x") == "0x";
    ZeroX();
    ZeroAsWritten(false);
  }

  lemma ZeroX()
    ensures 'x' in "0x" && Before("0x", 'x') == "0" && PowerOf("0x") == 1
  {
    assert "0x"[1] == 'x';
    assert Before("0x", 'x') == "0";
    assert After("0x", 'x') == "";
  }

  lemma ZeroAsWritten(negative: bool)
    ensures CoefficientAsWritten(negative, "0") == 1.0
  {
    ParseZero();
  }

  lemma ExponentTwo()
    ensures Exponent("^2") == 2
  {
    ParseNatText(2, "");
    assert NatText(2) + "" == "2" == "^2"[1..];
  }

  lemma ZeroSquared()
    ensures 'x' in "0x^2" && Before("0x^2", 'x') == "0" && PowerOf("0x^2") == 2
  {
    var body := "0x^2";
    assert body[1] == 'x';
    assert Before(body, 'x') == "0";
    assert After(body, 'x') == "^2";
    assert Before("^2", 'x') == "^2";
    ExponentTwo();
  }

  /** The sign is lost with the zero: "-0x^2" is the term +x^2. */
  lemma NegativeZeroReadAsOne()
    ensures ParseTermAsWritten("-0x^2") == Term(1.0, 2)
  {
    var term, body := "-0x^2", "0x^2";
    assert Negative(term) && TermBody(term) == body;
    ZeroSquared();
    ZeroAsWritten(true);
  }

  /** The term with the sign applied to the written coefficient and the
      default of one used only where no number is written, so that a written
      zero stays zero. */
  function ParseTerm(term: string): Term {
    ReadBody(Negative(term), TermBody(term))
  }

  function ReadBody(negative: bool, body: string): Term {
    if 'x' in body then Term(Coefficient(negative, Before(body, 'x')), PowerOf(body))
    else Term(Signed(negative, OrElse(ParseFloat(body), 0.0)), 0)
  }

  /** The coefficient before the x, one only where no number is written. */
  function Coefficient(negative: bool, before: string): real {
    if before == "" || before == "+" then Signed(negative, 1.0)
    else if before == "-" then Signed(!negative, 1.0)
    else Signed(negative, match ParseFloat(before) case None => 1.0 case Some(v) => v)
  }

  /** Read as intended, "0x" is a zero term, which parsePoly then drops. */
  lemma ZeroCoefficientKept()
    ensures ParseTerm("0x") == Term(0.0, 1)
    ensures ParseTerm("-0x^2").coefficient == 0.0
  {
    assert !Negative("0x") && TermBody("0x") == "0x";
    assert Negative("-0x^2") && TermBody("-0x^2") == "0x^2";
    ZeroX();
    ZeroSquared();
    ParseZero();
  }

  lemma {:induction false} BeforeDigits(d: string, c: char, rest: string)
    requires AllDigits(d) && !IsDigit(c) && |rest| > 0 && rest[0] == c
    ensures Before(d + rest, c) == d
    decreases |d|
  {
    if |d| > 0 {
      assert (d + rest)[1..] == d[1..] + rest;
      BeforeDigits(d[1..], c, rest);
    } else {
      assert d + rest == rest;
    }
  }

  // ------------------------------------------------------ reading a polynomial

  function ParseAll(terms: seq<string>): seq<Term> {
    if |terms| == 0 then [] else ParseAll(terms[..|terms| - 1]) + [ParseTerm(terms[|terms| - 1])]
  }

  /** `.filter(term => term.coefficient !== 0)`. */
  function NonZero(ts: seq<Term>): (r: seq<Term>)
    ensures forall t :: t in r <==> t in ts && t.coefficient != 0.0
  {
    if |ts| == 0 then [] else NonZero(ts[..|ts| - 1]) + (if ts[|ts| - 1].coefficient != 0.0 then [ts[|ts| - 1]] else [])
  }

  /** The terms of a whitespace-free, lower-case text, zero terms dropped,
      each read with the corrected reader. */
  function ReadTerms(s: string): seq<Term> {
    NonZero(ParseAll(Pieces(s)))
  }

  function ParseAllAsWritten(terms: seq<string>): seq<Term> {
    if |terms| == 0 then [] else ParseAllAsWritten(terms[..|terms| - 1]) + [ParseTermAsWritten(terms[|terms| - 1])]
  }

  /** The terms of a whitespace-free, lower-case text, zero terms dropped,
      each read as page lines 67-107 read it. */
  function ReadTermsAsWritten(s: string): seq<Term> {
    NonZero(ParseAllAsWritten(Pieces(s)))
  }

  /** parsePoly (page lines 46-109): blank text gives no terms, and no term
      of the result has a zero coefficient. */
  method ParsePoly(polyStr: string) returns (r: seq<Term>)
    ensures (forall k :: 0 <= k < |polyStr| ==> IsWhitespace(polyStr[k])) ==> r == []
    ensures forall t :: t in r ==> t.coefficient != 0.0
    ensures r == ReadTermsAsWritten(ToLower(RemoveWhitespace(polyStr)))
  {
    RemoveWhitespaceKeeps(polyStr);
    var cleanStr := ToLower(RemoveWhitespace(polyStr));
    PiecesSplit(cleanStr);
    if |RemoveWhitespace(polyStr)| == 0 {
      return [];
    }
    var terms := SplitTerms(cleanStr);
    r := NonZero(ParseAllAsWritten(terms));
  }

  /** parsePoly with a written zero coefficient kept as zero (see
      ZeroCoefficientKept); the round trip FormatThenRead is proved for
      this reader, and FormatThenReadAsWritten shows that on formatted text
      parsePoly as written reads the same. */
  method ParsePolyCorrected(polyStr: string) returns (r: seq<Term>)
    ensures (forall k :: 0 <= k < |polyStr| ==> IsWhitespace(polyStr[k])) ==> r == []
    ensures forall t :: t in r ==> t.coefficient != 0.0
    ensures r == ReadTerms(ToLower(RemoveWhitespace(polyStr)))
  {
    RemoveWhitespaceKeeps(polyStr);
    var cleanStr := ToLower(RemoveWhitespace(polyStr));
    PiecesSplit(cleanStr);
    if |RemoveWhitespace(polyStr)| == 0 {
      return [];
    }
    var terms := SplitTerms(cleanStr);
    r := NonZero(ParseAll(terms));
  }

  /** The two readers differ only on a coefficient text that reads as zero
      or as no number. */
  lemma CoefficientsAgree(negative: bool, before: string)
    requires before == "" || before == "+" || before == "-" || (ParseFloat(before).Some? && ParseFloat(before).value != 0.0)
    ensures CoefficientAsWritten(negative, before) == Coefficient(negative, before)
  {
  }

  lemma {:induction false} ParseAllAgree(terms: seq<string>)
    requires forall k :: 0 <= k < |terms| ==> ParseTermAsWritten(terms[k]) == ParseTerm(terms[k])
    ensures ParseAllAsWritten(terms) == ParseAll(terms)
  {
    if |terms| > 0 {
      ParseAllAgree(terms[..|terms| - 1]);
    }
  }

  // ------------------------------------------------------ multiplying

  /** The product of two terms (page lines 160-162). */
  function Times(a: Term, b: Term): Term {
    Term(a.coefficient * b.coefficient, a.exponent + b.exponent)
  }

  function Row(a: Term, p2: seq<Term>): (r: seq<(Term, Term)>)
    ensures |r| == |p2| && forall j :: 0 <= j < |p2| ==> r[j] == (a, p2[j])
  {
    seq(|p2|, j requires 0 <= j < |p2| => (a, p2[j]))
  }

  /** The term pairs in the order the nested loops of page lines 155-156
      visit them. */
  function Pairs(p1: seq<Term>, p2: seq<Term>): seq<(Term, Term)> {
    if |p1| == 0 then [] else Pairs(p1[..|p1| - 1], p2) + Row(p1[|p1| - 1], p2)
  }

  lemma {:induction false} PairsLength(p1: seq<Term>, p2: seq<Term>)
    ensures |Pairs(p1, p2)| == |p1| * |p2|
  {
    if |p1| > 0 {
      PairsLength(p1[..|p1| - 1], p2);
      assert (|p1| - 1) * |p2| + |p2| == |p1| * |p2|;
    }
  }

  /** Every pair of a term of p1 and a term of p2 is visited once, row by
      row. */
  lemma {:induction false} PairsAt(p1: seq<Term>, p2: seq<Term>, i: int, j: int)
    requires 0 <= i < |p1| && 0 <= j < |p2|
    ensures 0 <= i * |p2| + j < |Pairs(p1, p2)| && Pairs(p1, p2)[i * |p2| + j] == (p1[i], p2[j])
  {
    var init := p1[..|p1| - 1];
    var k := i * |p2| + j;
    PairsLength(p1, p2);
    PairsLength(init, p2);
    RowIndex(i, j, |p1|, |p2|);
    assert Pairs(p1, p2) == Pairs(init, p2) + Row(p1[|p1| - 1], p2);
    if i == |p1| - 1 {
      assert Pairs(p1, p2)[k] == Row(p1[i], p2)[j];
    } else {
      PairsAt(init, p2, i, j);
      assert Pairs(p1, p2)[k] == Pairs(init, p2)[k];
    }
  }

  /** Where index i * m + j falls among n rows of m. */
  lemma RowIndex(i: int, j: int, n: int, m: int)
    requires 0 <= i < n && 0 <= j < m
    ensures 0 <= i * m + j < n * m && (n - 1) * m + m == n * m
    ensures i < n - 1 ==> i * m + j < (n - 1) * m
  {
    RowsBelow(i + 1, n, m);
    RowsBelow(i + 1, n - 1, m);
    assert i * m + m == (i + 1) * m;
    assert (n - 1) * m + m == n * m;
  }

  lemma {:induction false} RowsBelow(a: int, b: int, m: int)
    requires 0 <= m
    ensures a <= b ==> a * m <= b * m
    decreases b - a
  {
    if a < b {
      RowsBelow(a, b - 1, m);
      assert (b - 1) * m + m == b * m;
    }
  }

  /** One product added to resultTerms (page lines 165-169). The test is
      JavaScript's truth test on the stored sum, so a stored zero is
      overwritten, which gives the same value as adding to it. */
  function AddTerm(m: map<nat, real>, t: Term): map<nat, real> {
    if t.exponent in m && m[t.exponent] != 0.0 then m[t.exponent := m[t.exponent] + t.coefficient]
    else m[t.exponent := t.coefficient]
  }

  function Accumulate(ps: seq<(Term, Term)>): map<nat, real> {
    if |ps| == 0 then map[] else AddTerm(Accumulate(ps[..|ps| - 1]), Times(ps[|ps| - 1].0, ps[|ps| - 1].1))
  }

  /** The sum of the products of the pairs in ps whose exponents add up to e. */
  function SumAt(ps: seq<(Term, Term)>, e: nat): real {
    if |ps| == 0 then 0.0
    else
      var t := Times(ps[|ps| - 1].0, ps[|ps| - 1].1);
      SumAt(ps[..|ps| - 1], e) + (if t.exponent == e then t.coefficient else 0.0)
  }

  /** resultTerms holds, for every exponent some pair reaches, the sum of the
      products with that exponent. */
  lemma {:induction false} AccumulateSums(ps: seq<(Term, Term)>, e: nat)
    ensures e in Accumulate(ps) <==> exists k :: 0 <= k < |ps| && ps[k].0.exponent + ps[k].1.exponent == e
    ensures e in Accumulate(ps) ==> Accumulate(ps)[e] == SumAt(ps, e)
    ensures e !in Accumulate(ps) ==> SumAt(ps, e) == 0.0
  {
    if |ps| > 0 {
      var init := ps[..|ps| - 1];
      AccumulateSums(init, e);
      if e in Accumulate(init) {
        var k :| 0 <= k < |init| && init[k].0.exponent + init[k].1.exponent == e;
        assert ps[k] == init[k];
      }
      if exists k :: 0 <= k < |ps| && ps[k].0.exponent + ps[k].1.exponent == e {
        var k :| 0 <= k < |ps| && ps[k].0.exponent + ps[k].1.exponent == e;
        if k < |init| {
          assert init[k] == ps[k];
        }
      }
    }
  }

  // ------------------------------------------------------ the result polynomial

  ghost predicate StrictlyDescending(r: seq<Term>) {
    forall a, b :: 0 <= a < b < |r| ==> r[a].exponent > r[b].exponent
  }

  /** r lists the non-zero entries of m, highest exponent first: what
      Object.entries, the filter and the sort of page lines 171-174 make of
      resultTerms. */
  ghost predicate Describes(r: seq<Term>, m: map<nat, real>) {
    StrictlyDescending(r)
    && (forall t :: t in r ==> t.exponent in m && m[t.exponent] == t.coefficient && t.coefficient != 0.0)
    && (forall e :: e in m && m[e] != 0.0 ==> Term(m[e], e) in r)
  }

  function Insert(r: seq<Term>, t: Term): (s: seq<Term>)
    ensures |s| == |r| + 1 && (s[0] == t || (|r| > 0 && s[0] == r[0]))
  {
    if |r| == 0 || r[0].exponent < t.exponent then [t] + r else [r[0]] + Insert(r[1..], t)
  }

  /** Inserting keeps exactly the old terms and the new one. */
  lemma {:induction false} InsertPermutes(r: seq<Term>, t: Term)
    ensures multiset(Insert(r, t)) == multiset(r) + multiset{t}
  {
    if |r| > 0 && r[0].exponent >= t.exponent {
      InsertPermutes(r[1..], t);
      assert r == [r[0]] + r[1..];
    }
  }

  lemma ConsStrict(h: Term, xs: seq<Term>)
    requires StrictlyDescending(xs) && (|xs| > 0 ==> h.exponent > xs[0].exponent)
    ensures StrictlyDescending([h] + xs)
  {
    var s := [h] + xs;
    forall a, b | 0 <= a < b < |s|
      ensures s[a].exponent > s[b].exponent
    {
      if a == 0 && b > 1 {
        assert s[b] == xs[b - 1];
      }
    }
  }

  lemma InsertMembers(r: seq<Term>, t: Term)
    ensures forall u :: u in Insert(r, t) <==> u in r || u == t
  {
    InsertPermutes(r, t);
    var s := Insert(r, t);
    forall u
      ensures u in s <==> u in r || u == t
    {
      assert (u in s) == (u in multiset(s));
      assert (u in r) == (u in multiset(r));
    }
  }

  lemma {:induction false} InsertStrict(r: seq<Term>, t: Term)
    requires StrictlyDescending(r) && forall u :: u in r ==> u.exponent != t.exponent
    ensures StrictlyDescending(Insert(r, t))
  {
    if |r| > 0 && r[0].exponent >= t.exponent {
      var rest := r[1..];
      assert r[0] in r;
      assert forall u :: u in rest ==> u in r;
      InsertStrict(rest, t);
      assert Insert(r, t) == [r[0]] + Insert(rest, t);
      ConsStrict(r[0], Insert(rest, t));
    } else {
      ConsStrict(t, r);
    }
  }

  lemma InsertSorted(r: seq<Term>, t: Term)
    requires StrictlyDescending(r) && forall u :: u in r ==> u.exponent != t.exponent
    ensures StrictlyDescending(Insert(r, t))
    ensures forall u :: u in Insert(r, t) <==> u in r || u == t
    ensures |Insert(r, t)| == |r| + 1 && (|r| > 0 ==> Insert(r, t)[0].exponent >= r[0].exponent)
  {
    InsertStrict(r, t);
    InsertMembers(r, t);
  }

  /** In a strictly descending list every term is the head or lies after it with a
      lower exponent. */
  lemma HeadIsTop(r: seq<Term>, t: Term)
    requires StrictlyDescending(r) && t in r
    ensures t == r[0] || (t in r[1..] && t.exponent < r[0].exponent)
  {
    var k :| 0 <= k < |r| && r[k] == t;
    if k > 0 {
      assert r[1..][k - 1] == t;
    }
  }

  lemma TailMember(r: seq<Term>, t: Term)
    requires StrictlyDescending(r) && |r| > 0 && t in r[1..]
    ensures t in r && t.exponent < r[0].exponent
  {
    var k :| 0 <= k < |r[1..]| && r[1..][k] == t;
    assert r[k + 1] == t;
  }

  lemma TailIncluded(r1: seq<Term>, r2: seq<Term>)
    requires StrictlyDescending(r1) && StrictlyDescending(r2) && |r1| > 0 && |r2| > 0
    requires r1[0] == r2[0] && forall t :: t in r1 ==> t in r2
    ensures forall t :: t in r1[1..] ==> t in r2[1..]
  {
    forall t | t in r1[1..]
      ensures t in r2[1..]
    {
      TailMember(r1, t);
      HeadIsTop(r2, t);
    }
  }

  /** Sorted, non-zero terms are determined by the entries they show. */
  lemma {:induction false} SameTerms(r1: seq<Term>, r2: seq<Term>)
    requires StrictlyDescending(r1) && StrictlyDescending(r2)
    requires forall t :: t in r1 <==> t in r2
    ensures r1 == r2
  {
    if |r1| > 0 {
      assert r1[0] in r2;
    }
    if |r2| > 0 {
      assert r2[0] in r1;
    }
    if |r1| > 0 && |r2| > 0 {
      HeadIsTop(r2, r1[0]);
      HeadIsTop(r1, r2[0]);
      assert r1[0] == r2[0];
      TailIncluded(r1, r2);
      TailIncluded(r2, r1);
      SameTerms(r1[1..], r2[1..]);
      assert r1 == [r1[0]] + r1[1..] && r2 == [r2[0]] + r2[1..];
    }
  }

  lemma DescribesUnique(r1: seq<Term>, r2: seq<Term>, m: map<nat, real>)
    requires Describes(r1, m) && Describes(r2, m)
    ensures r1 == r2
  {
    forall t
      ensures t in r1 <==> t in r2
    {
      if t in r1 {
        assert Term(m[t.exponent], t.exponent) in r2;
      }
      if t in r2 {
        assert Term(m[t.exponent], t.exponent) in r1;
      }
    }
    SameTerms(r1, r2);
  }

  /** The current result polynomial (page lines 171-174). */
  method ResultPolynomial(m: map<nat, real>) returns (r: seq<Term>)
    ensures Describes(r, m)
  {
    var keys := m.Keys;
    r := [];
    while keys != {}
      invariant keys <= m.Keys && StrictlyDescending(r)
      invariant forall t :: t in r ==> t.exponent in m && t.exponent !in keys && m[t.exponent] == t.coefficient && t.coefficient != 0.0
      invariant forall e :: e in m && e !in keys && m[e] != 0.0 ==> Term(m[e], e) in r
      decreases |keys|
    {
      var e :| e in keys;
      if m[e] != 0.0 {
        InsertSorted(r, Term(m[e], e));
        r := Insert(r, Term(m[e], e));
      }
      keys := keys - {e};
    }
  }

  /** What the source records for one pair: the two terms, their product and
      the result polynomial so far. */
  datatype Step = Step(term1: Term, term2: Term, result: Term, resultPoly: seq<Term>)

  /** The record of one pair of terms, k pairs into the loops. */
  ghost predicate RecordedPair(step: Step, ps: seq<(Term, Term)>)
    requires |ps| > 0
  {
    var pair := ps[|ps| - 1];
    step.term1 == pair.0 && step.term2 == pair.1 && step.result == Times(pair.0, pair.1)
    && Describes(step.resultPoly, Accumulate(ps))
  }

  ghost predicate Recorded(steps: seq<Step>, ps: seq<(Term, Term)>) {
    |steps| == |ps|
    && (|steps| > 0 ==> Recorded(steps[..|steps| - 1], ps[..|ps| - 1]) && RecordedPair(steps[|steps| - 1], ps))
  }

  /** What the k-th step of a record holds. */
  lemma {:induction false} RecordedAt(steps: seq<Step>, ps: seq<(Term, Term)>, k: int)
    requires Recorded(steps, ps) && 0 <= k < |steps|
    ensures steps[k].term1 == ps[k].0 && steps[k].term2 == ps[k].1
    ensures steps[k].result == Times(ps[k].0, ps[k].1)
    ensures Describes(steps[k].resultPoly, Accumulate(ps[..k + 1]))
  {
    if k < |steps| - 1 {
      RecordedAt(steps[..|steps| - 1], ps[..|ps| - 1], k);
      assert ps[..|ps| - 1][..k + 1] == ps[..k + 1];
    } else {
      assert ps[..k + 1] == ps;
    }
  }

  lemma RecordedStep(steps: seq<Step>, ps: seq<(Term, Term)>, pair: (Term, Term), step: Step)
    requires Recorded(steps, ps)
    requires step.term1 == pair.0 && step.term2 == pair.1 && step.result == Times(pair.0, pair.1)
    requires Describes(step.resultPoly, Accumulate(ps + [pair]))
    ensures Recorded(steps + [step], ps + [pair])
  {
    assert (steps + [step])[..|steps|] == steps;
    assert (ps + [pair])[..|ps|] == ps;
  }

  /** One pass of the inner loop's body extends the record by one pair. */
  lemma RecordNext(steps: seq<Step>, ps: seq<(Term, Term)>, m: map<nat, real>, pair: (Term, Term), step: Step)
    requires Recorded(steps, ps)
    requires m == AddTerm(Accumulate(ps), Times(pair.0, pair.1))
    requires step.term1 == pair.0 && step.term2 == pair.1 && step.result == Times(pair.0, pair.1)
    requires Describes(step.resultPoly, m)
    ensures m == Accumulate(ps + [pair]) && Recorded(steps + [step], ps + [pair])
  {
    assert (ps + [pair])[..|ps|] == ps;
    RecordedStep(steps, ps, pair, step);
  }

  lemma AppendNext<T>(a: seq<T>, b: seq<T>, j: int)
    requires 0 <= j < |b|
    ensures a + b[..j + 1] == (a + b[..j]) + [b[j]]
  {
    assert b[..j + 1] == b[..j] + [b[j]];
  }

  lemma PairsRow(p1: seq<Term>, p2: seq<Term>, i: int)
    requires 0 <= i < |p1|
    ensures Pairs(p1[..i + 1], p2) == Pairs(p1[..i], p2) + Row(p1[i], p2)[..|p2|]
  {
    assert p1[..i + 1][..i] == p1[..i];
    assert Row(p1[i], p2)[..|p2|] == Row(p1[i], p2);
  }

  /** The body of the inner loop (page lines 157-186): the product of two
      terms is added into resultTerms and recorded as a step. */
  method AddProduct(steps: seq<Step>, resultTerms: map<nat, real>, ghost done: seq<(Term, Term)>, term1: Term, term2: Term)
    returns (steps': seq<Step>, resultTerms': map<nat, real>)
    requires resultTerms == Accumulate(done) && Recorded(steps, done)
    ensures resultTerms' == Accumulate(done + [(term1, term2)]) && Recorded(steps', done + [(term1, term2)])
  {
    var result := Times(term1, term2);
    var resultCoeff, resultExp := result.coefficient, result.exponent;
    resultTerms' := resultTerms;
    if resultExp in resultTerms' && resultTerms'[resultExp] != 0.0 {
      resultTerms' := resultTerms'[resultExp := resultTerms'[resultExp] + resultCoeff];
    } else {
      resultTerms' := resultTerms'[resultExp := resultCoeff];
    }
    var currentResult := ResultPolynomial(resultTerms');
    RecordNext(steps, done, resultTerms', (term1, term2), Step(term1, term2, result, currentResult));
    steps' := steps + [Step(term1, term2, result, currentResult)];
  }

  /** multiplyPolynomials (page lines 150-191): one step per pair of terms,
      row by row, each with the product of its two terms and the result so
      far, which holds the sums of the products for each exponent. */
  method MultiplyPolynomials(p1: seq<Term>, p2: seq<Term>) returns (steps: seq<Step>)
    ensures |steps| == |p1| * |p2|
    ensures Recorded(steps, Pairs(p1, p2))
  {
    steps := [];
    var resultTerms: map<nat, real> := map[];
    ghost var done: seq<(Term, Term)> := [];
    for i := 0 to |p1|
      invariant done == Pairs(p1[..i], p2)
      invariant resultTerms == Accumulate(done) && Recorded(steps, done)
    {
      for j := 0 to |p2|
        invariant done == Pairs(p1[..i], p2) + Row(p1[i], p2)[..j]
        invariant resultTerms == Accumulate(done) && Recorded(steps, done)
      {
        steps, resultTerms := AddProduct(steps, resultTerms, done, p1[i], p2[j]);
        AppendNext(Pairs(p1[..i], p2), Row(p1[i], p2), j);
        done := done + [(p1[i], p2[j])];
      }
      PairsRow(p1, p2, i);
    }
    assert p1[..|p1|] == p1;
    PairsLength(p1, p2);
  }

  /** The step for term i of the first polynomial and term j of the second
      is number i * |p2| + j, and holds those terms and their product. */
  lemma MultipliedPair(steps: seq<Step>, p1: seq<Term>, p2: seq<Term>, i: int, j: int)
    requires Recorded(steps, Pairs(p1, p2))
    requires 0 <= i < |p1| && 0 <= j < |p2|
    ensures 0 <= i * |p2| + j < |steps|
      && steps[i * |p2| + j].term1 == p1[i] && steps[i * |p2| + j].term2 == p2[j]
      && steps[i * |p2| + j].result == Times(p1[i], p2[j])
  {
    var ps, k := Pairs(p1, p2), i * |p2| + j;
    PairsAt(p1, p2, i, j);
    assert ps[k] == (p1[i], p2[j]);
    RecordedAt(steps, ps, k);
  }

  // ------------------------------------------------------ coefficients of the result

  /** The coefficient r shows for exponent e, zero when it has no such term. */
  function CoefficientOf(r: seq<Term>, e: nat): real {
    if |r| == 0 then 0.0 else if r[0].exponent == e then r[0].coefficient else CoefficientOf(r[1..], e)
  }

  lemma {:induction false} CoefficientAbsent(r: seq<Term>, e: nat)
    requires forall u :: u in r ==> u.exponent != e
    ensures CoefficientOf(r, e) == 0.0
  {
    if |r| > 0 {
      assert r[0] in r;
      assert forall u :: u in r[1..] ==> u in r;
      CoefficientAbsent(r[1..], e);
    }
  }

  lemma {:induction false} CoefficientPresent(r: seq<Term>, u: Term)
    requires u in r && forall v :: v in r && v.exponent == u.exponent ==> v == u
    ensures CoefficientOf(r, u.exponent) == u.coefficient
  {
    if r[0].exponent != u.exponent {
      assert u in r[1..];
      assert forall v :: v in r[1..] ==> v in r;
      CoefficientPresent(r[1..], u);
    }
  }

  /** What a sorted listing of m shows for exponent e is m's entry. */
  lemma DescribedCoefficient(r: seq<Term>, m: map<nat, real>, e: nat)
    requires Describes(r, m)
    ensures CoefficientOf(r, e) == if e in m then m[e] else 0.0
  {
    if e in m && m[e] != 0.0 {
      CoefficientPresent(r, Term(m[e], e));
    } else {
      CoefficientAbsent(r, e);
    }
  }

  /** After k + 1 pairs, the result polynomial shows for each exponent the
      sum of the products of the pairs so far whose exponents add up to it. */
  lemma RecordedCoefficients(steps: seq<Step>, ps: seq<(Term, Term)>, k: int, e: nat)
    requires Recorded(steps, ps) && 0 <= k < |steps|
    ensures CoefficientOf(steps[k].resultPoly, e) == SumAt(ps[..k + 1], e)
  {
    RecordedAt(steps, ps, k);
    DescribedCoefficient(steps[k].resultPoly, Accumulate(ps[..k + 1]), e);
    AccumulateSums(ps[..k + 1], e);
  }

  /** The last step shows the product polynomial: for every exponent e, the
      sum over all pairs of terms whose exponents add up to e of the
      products of their coefficients. */
  lemma ResultIsProduct(steps: seq<Step>, p1: seq<Term>, p2: seq<Term>, e: nat)
    requires Recorded(steps, Pairs(p1, p2)) && |p1| > 0 && |p2| > 0
    ensures |steps| == |p1| * |p2|
    ensures CoefficientOf(steps[|steps| - 1].resultPoly, e) == SumAt(Pairs(p1, p2), e)
  {
    PairsLength(p1, p2);
    assert |steps| > 0;
    RecordedCoefficients(steps, Pairs(p1, p2), |steps| - 1, e);
    assert Pairs(p1, p2)[..|steps|] == Pairs(p1, p2);
  }

  // ------------------------------------------------------ showing a polynomial

  function Abs(r: real): real {
    if r < 0.0 then -r else r
  }

  /** The terms by exponent, highest first, terms of equal exponent in their
      original order: the stable sort of page line 115. */
  function SortByExponent(p: seq<Term>): seq<Term> {
    if |p| == 0 then [] else Insert(SortByExponent(p[..|p| - 1]), p[|p| - 1])
  }

  ghost predicate Descending(r: seq<Term>) {
    forall a, b :: 0 <= a < b < |r| ==> r[a].exponent >= r[b].exponent
  }

  lemma ConsDescending(h: Term, xs: seq<Term>)
    requires Descending(xs) && (|xs| > 0 ==> h.exponent >= xs[0].exponent)
    ensures Descending([h] + xs)
  {
    var s := [h] + xs;
    forall a, b | 0 <= a < b < |s|
      ensures s[a].exponent >= s[b].exponent
    {
      if a == 0 && b > 1 {
        assert s[b] == xs[b - 1];
      }
    }
  }

  lemma {:induction false} InsertDescending(r: seq<Term>, t: Term)
    requires Descending(r)
    ensures Descending(Insert(r, t)) && multiset(Insert(r, t)) == multiset(r) + multiset{t}
  {
    InsertPermutes(r, t);
    if |r| > 0 && r[0].exponent >= t.exponent {
      var rest := r[1..];
      assert Descending(rest) by {
        forall a, b | 0 <= a < b < |rest|
          ensures rest[a].exponent >= rest[b].exponent
        {
          assert rest[a] == r[a + 1] && rest[b] == r[b + 1];
        }
      }
      InsertDescending(rest, t);
      assert Insert(r, t) == [r[0]] + Insert(rest, t);
      ConsDescending(r[0], Insert(rest, t));
    } else {
      ConsDescending(t, r);
    }
  }

  /** The sort orders by exponent and keeps every term. */
  lemma {:induction false} SortByExponentSorts(p: seq<Term>)
    ensures Descending(SortByExponent(p)) && multiset(SortByExponent(p)) == multiset(p)
  {
    if |p| > 0 {
      SortByExponentSorts(p[..|p| - 1]);
      InsertDescending(SortByExponent(p[..|p| - 1]), p[|p| - 1]);
      assert p == p[..|p| - 1] + [p[|p| - 1]];
    }
  }

  /** `^${exponent}` after an x, or nothing for exponent one. */
  function PowerText(e: nat): string {
    if e > 1 then "^" + NatText(e) else ""
  }

  /** One term as the callback of page lines 117-144 writes it, first
      telling whether it is the term at index 0; show stands for
      Number.prototype.toString. */
  function ShowTerm(t: Term, first: bool, show: real -> string): string {
    var abs := Abs(t.coefficient);
    var coefficient := if t.exponent == 0 || abs != 1.0 then show(abs) else "";
    SignText(t, first, " ") + coefficient + (if t.exponent > 0 then "x" + PowerText(t.exponent) else "")
  }

  /** The sign in front of a term: '-' or nothing at index 0, and '+' or
      '-' between two gaps after it. */
  function SignText(t: Term, first: bool, gap: string): string {
    if first then (if t.coefficient < 0.0 then "-" else "")
    else gap + (if t.coefficient >= 0.0 then "+" else "-") + gap
  }

  /** The terms written one after the other (the join of page line 145). */
  function ShowTerms(ts: seq<Term>, show: real -> string): string {
    if |ts| == 0 then "" else ShowTerms(ts[..|ts| - 1], show) + ShowTerm(ts[|ts| - 1], |ts| == 1, show)
  }

  /** formatPoly (page lines 111-148). */
  function FormatPoly(poly: seq<Term>, show: real -> string): string {
    if |poly| == 0 then "0" else ShowTerms(SortByExponent(poly), show)
  }

  /** formatTerm (page lines 193-209). */
  function FormatTerm(t: Term, show: real -> string): string {
    if t.exponent == 0 then show(t.coefficient)
    else
      (if Abs(t.coefficient) == 1.0 then (if t.coefficient == -1.0 then "-" else "") else show(t.coefficient))
      + "x" + PowerText(t.exponent)
  }

  /** Number.prototype.toString on a whole number. */
  function IntegerText(r: real): string {
    (if r < 0.0 then "-" else "") + NatText(Abs(r).Floor)
  }

  predicate Integral(r: real) {
    r == r.Floor as real
  }

  // ------------------------------------------------------ reading back what was shown

  /** A term as it reads once the spaces are removed. */
  function Piece(t: Term, first: bool): string {
    SignText(t, first, "") + Body(t)
  }

  function Body(t: Term): string {
    var n := Abs(t.coefficient).Floor;
    var coefficient := if t.exponent == 0 || Abs(t.coefficient) != 1.0 then NatText(n) else "";
    coefficient + (if t.exponent > 0 then "x" + PowerText(t.exponent) else "")
  }

  function PiecesOf(ts: seq<Term>): seq<string> {
    if |ts| == 0 then [] else PiecesOf(ts[..|ts| - 1]) + [Piece(ts[|ts| - 1], |ts| == 1)]
  }

  predicate Plain(c: char) {
    IsDigit(c) || IsSign(c) || c == 'x' || c == '^'
  }

  predicate AllPlain(s: string) {
    forall k :: 0 <= k < |s| ==> Plain(s[k])
  }

  lemma {:induction false} ToLowerPlain(s: string)
    requires AllPlain(s)
    ensures ToLower(s) == s
  {
    if |s| > 0 {
      ToLowerPlain(s[1..]);
      assert s == [s[0]] + s[1..];
    }
  }

  lemma BodyShape(t: Term)
    requires t.coefficient != 0.0
    ensures |Body(t)| > 0 && AllPlain(Body(t)) && !IsSign(Body(t)[0])
    ensures forall k :: 0 <= k < |Body(t)| ==> !IsSign(Body(t)[k])
  {
    var n := Abs(t.coefficient).Floor;
    var d := if t.exponent == 0 || Abs(t.coefficient) != 1.0 then NatText(n) else "";
    var v := if t.exponent > 0 then "x" + PowerText(t.exponent) else "";
    assert Body(t) == d + v;
    assert AllDigits(d);
    assert forall k :: 0 <= k < |v| ==> v[k] == 'x' || v[k] == '^' || IsDigit(v[k]);
  }

  lemma ShowTermParts(t: Term, first: bool)
    ensures ShowTerm(t, first, IntegerText) == SignText(t, first, " ") + Body(t)
  {
    var abs := Abs(t.coefficient);
    assert IntegerText(abs) == NatText(abs.Floor);
  }

  lemma SignWithoutSpaces(t: Term, first: bool)
    ensures RemoveWhitespace(SignText(t, first, " ")) == SignText(t, first, "")
  {
    assert RemoveWhitespace("") == "";
    assert RemoveWhitespace("-") == "-";
    assert RemoveWhitespace(" + ") == "+";
    assert RemoveWhitespace(" - ") == "-";
  }

  /** With the spaces removed, a shown term is its piece. */
  lemma ShowTermPiece(t: Term, first: bool)
    requires t.coefficient != 0.0
    ensures RemoveWhitespace(ShowTerm(t, first, IntegerText)) == Piece(t, first)
  {
    ShowTermParts(t, first);
    RemoveWhitespaceAppend(SignText(t, first, " "), Body(t));
    SignWithoutSpaces(t, first);
    BodyShape(t);
    RemoveWhitespaceNone(Body(t));
  }

  lemma AllPlainAppend(a: string, b: string)
    requires AllPlain(a) && AllPlain(b)
    ensures AllPlain(a + b)
  {
    assert forall k :: 0 <= k < |a + b| ==> (a + b)[k] == (if k < |a| then a[k] else b[k - |a|]);
  }

  lemma PiecePlain(t: Term, first: bool)
    requires t.coefficient != 0.0
    ensures AllPlain(Piece(t, first))
  {
    BodyShape(t);
    AllPlainAppend(SignText(t, first, ""), Body(t));
  }

  lemma {:induction false} ShowTermsPieces(ts: seq<Term>)
    requires forall k :: 0 <= k < |ts| ==> ts[k].coefficient != 0.0
    ensures RemoveWhitespace(ShowTerms(ts, IntegerText)) == Concat(PiecesOf(ts))
    ensures AllPlain(Concat(PiecesOf(ts)))
  {
    if |ts| > 0 {
      var init, last := ts[..|ts| - 1], ts[|ts| - 1];
      ShowTermsPieces(init);
      RemoveWhitespaceAppend(ShowTerms(init, IntegerText), ShowTerm(last, |ts| == 1, IntegerText));
      ShowTermPiece(last, |ts| == 1);
      ConcatAppend(PiecesOf(init), Piece(last, |ts| == 1));
      PiecePlain(last, |ts| == 1);
      AllPlainAppend(Concat(PiecesOf(init)), Piece(last, |ts| == 1));
    }
  }

  /** A character that is not a sign extends the last term. */
  /** b is a with q added to its last term. */
  ghost predicate Grown(a: seq<string>, b: seq<string>, q: string) {
    |a| > 0 && |b| == |a| && b[..|a| - 1] == a[..|a| - 1] && b[|a| - 1] == a[|a| - 1] + q
  }

  lemma PiecesExtend(s: string, c: char)
    requires |s| > 0 && !IsSign(c)
    ensures Grown(Pieces(s), Pieces(s + [c]), [c])
  {
    PiecesEmpty(s);
    PiecesStep(s, c);
  }

  /** Characters that are not signs extend the last term. */
  lemma {:induction false} PiecesGrow(s: string, q: string)
    requires |s| > 0 && forall k :: 0 <= k < |q| ==> !IsSign(q[k])
    ensures Grown(Pieces(s), Pieces(s + q), q)
    decreases |q|
  {
    PiecesEmpty(s);
    if |q| == 0 {
      assert s + q == s;
      GrownByNothing(Pieces(s));
    } else {
      var q', c := q[..|q| - 1], q[|q| - 1];
      forall k | 0 <= k < |q'|
        ensures !IsSign(q'[k])
      {
        assert q'[k] == q[k];
      }
      PiecesGrow(s, q');
      LastSplit(q);
      AppendAssociates(s, q', [c]);
      PiecesExtend(s + q', c);
      LastGrows(Pieces(s), Pieces(s + q'), Pieces(s + q), q', c);
    }
  }

  lemma GrownByNothing(a: seq<string>)
    requires |a| > 0
    ensures Grown(a, a, [])
  {
    assert a[|a| - 1] + [] == a[|a| - 1];
  }

  lemma LastGrows(a: seq<string>, b: seq<string>, c: seq<string>, q: string, ch: char)
    requires Grown(a, b, q) && Grown(b, c, [ch])
    ensures Grown(a, c, q + [ch])
  {
    AppendAssociates(a[|a| - 1], q, [ch]);
  }

  lemma PiecesSingle(p: string)
    requires |p| > 0 && forall k :: 1 <= k < |p| ==> !IsSign(p[k])
    ensures Pieces(p) == [p]
  {
    var head := [p[0]];
    assert Pieces(head) == [head] by {
      assert head[..0] == [];
    }
    PiecesGrow(head, p[1..]);
    assert head + p[1..] == p;
  }

  /** A sign followed by characters that are not signs, written after some
      text, is split off as a term of its own. */
  lemma PiecesAddTerm(s: string, p: string)
    requires |s| > 0 && |p| > 0 && IsSign(p[0]) && forall k :: 1 <= k < |p| ==> !IsSign(p[k])
    ensures Pieces(s + p) == Pieces(s) + [p]
  {
    var sign, q := [p[0]], p[1..];
    var a := Pieces(s) + [sign];
    assert Pieces(s + sign) == a by {
      PiecesStep(s, p[0]);
    }
    forall k | 0 <= k < |q|
      ensures !IsSign(q[k])
    {
      assert q[k] == p[k + 1];
    }
    PiecesGrow(s + sign, q);
    assert sign + q == p;
    AppendAssociates(s, sign, q);
    assert a[..|a| - 1] == Pieces(s) && a[|a| - 1] == sign;
    LastExtended(Pieces(s), sign, q, Pieces(s + p));
  }

  /** A list that agrees with ps + [x] except that its last entry is x + q. */
  lemma LastExtended(ps: seq<string>, x: string, q: string, r: seq<string>)
    requires |r| == |ps| + 1 && r[..|ps|] == ps && r[|ps|] == x + q
    ensures r == ps + [x + q]
  {
    assert r == r[..|ps|] + [r[|ps|]];
  }

  lemma PieceShape(t: Term, first: bool)
    requires t.coefficient != 0.0
    ensures |Piece(t, first)| > 0 && forall k :: 1 <= k < |Piece(t, first)| ==> !IsSign(Piece(t, first)[k])
    ensures !first ==> IsSign(Piece(t, first)[0])
  {
    BodyShape(t);
    var sign, body := SignText(t, first, ""), Body(t);
    assert |sign| <= 1;
    assert forall k :: |sign| <= k < |sign + body| ==> (sign + body)[k] == body[k - |sign|];
  }

  /** Splitting the shown text, spaces removed, gives back the pieces. */
  lemma {:induction false} SplitPieces(ts: seq<Term>)
    requires forall k :: 0 <= k < |ts| ==> ts[k].coefficient != 0.0
    ensures Pieces(Concat(PiecesOf(ts))) == PiecesOf(ts)
    ensures |ts| > 0 ==> |Concat(PiecesOf(ts))| > 0
  {
    if |ts| > 0 {
      var init, last := ts[..|ts| - 1], ts[|ts| - 1];
      var piece := Piece(last, |ts| == 1);
      PieceShape(last, |ts| == 1);
      ConcatAppend(PiecesOf(init), piece);
      if |ts| == 1 {
        assert PiecesOf(init) == [];
        assert Concat(PiecesOf(ts)) == piece;
        PiecesSingle(piece);
      } else {
        SplitPieces(init);
        PiecesAddTerm(Concat(PiecesOf(init)), piece);
      }
    }
  }

  lemma WholeAbs(r: real)
    requires Integral(r)
    ensures Abs(r).Floor >= 0 && Abs(r).Floor as real == Abs(r)
  {
    var k := r.Floor;
    assert r == k as real;
    if r < 0.0 {
      assert -r == (-k) as real;
      assert (-r).Floor == -k;
    }
  }

  lemma ReadConstant(t: Term)
    requires t.exponent == 0 && Integral(t.coefficient) && t.coefficient != 0.0
    ensures 'x' !in Body(t) && OrElse(ParseFloat(Body(t)), 0.0) == Abs(t.coefficient)
  {
    WholeAbs(t.coefficient);
    var n := Abs(t.coefficient).Floor;
    assert Body(t) == NatText(n) + "";
    ParseNatText(n, "");
  }

  lemma ReadExponent(e: nat)
    requires e > 0
    ensures 'x' !in PowerText(e) && Exponent(PowerText(e)) == e
  {
    if e > 1 {
      assert PowerText(e)[1..] == NatText(e) + "";
      ParseNatText(e, "");
    }
  }

  /** Digits, an x and a power read back as those digits and that power. */
  lemma ReadVariableText(d: string, e: nat)
    requires AllDigits(d) && e > 0
    ensures var body := d + ("x" + PowerText(e));
      'x' in body && Before(body, 'x') == d && PowerOf(body) == e
  {
    var p := PowerText(e);
    var v := "x" + p;
    var body := d + v;
    BeforeDigits(d, 'x', v);
    assert body[|d|] == 'x';
    assert body[|d| + 1..] == p;
    ReadExponent(e);
    assert Before(p, 'x') == p;
  }

  lemma ReadVariable(t: Term)
    requires t.exponent > 0 && Integral(t.coefficient) && t.coefficient != 0.0
    ensures 'x' in Body(t)
    ensures Before(Body(t), 'x') == if Abs(t.coefficient) != 1.0 then NatText(Abs(t.coefficient).Floor) else ""
    ensures PowerOf(Body(t)) == t.exponent
  {
    WholeAbs(t.coefficient);
    var d := if Abs(t.coefficient) != 1.0 then NatText(Abs(t.coefficient).Floor) else "";
    assert Body(t) == d + ("x" + PowerText(t.exponent));
    ReadVariableText(d, t.exponent);
  }

  lemma PieceParts(t: Term, first: bool)
    requires t.coefficient != 0.0
    ensures Signed(Negative(Piece(t, first)), Abs(t.coefficient)) == t.coefficient
    ensures TermBody(Piece(t, first)) == Body(t)
  {
    BodyShape(t);
    var sign := SignText(t, first, "");
    assert Piece(t, first) == sign + Body(t);
    if |sign| == 1 {
      assert Piece(t, first)[1..] == Body(t);
    }
  }

  lemma ReadWholeBody(t: Term, negative: bool)
    requires Integral(t.coefficient) && t.coefficient != 0.0
    requires Signed(negative, Abs(t.coefficient)) == t.coefficient
    ensures ReadBody(negative, Body(t)) == t
  {
    if t.exponent == 0 {
      ReadConstant(t);
    } else {
      ReadVariable(t);
      if Abs(t.coefficient) != 1.0 {
        ReadCoefficient(t);
      }
    }
  }

  lemma ReadCoefficient(t: Term)
    requires t.exponent > 0 && Integral(t.coefficient) && t.coefficient != 0.0 && Abs(t.coefficient) != 1.0
    ensures var d := NatText(Abs(t.coefficient).Floor);
      d != "" && d != "+" && d != "-" && ParseFloat(d) == Some(Abs(t.coefficient))
  {
    WholeAbs(t.coefficient);
    var n := Abs(t.coefficient).Floor;
    assert NatText(n) == NatText(n) + "";
    ParseNatText(n, "");
    assert IsDigit(NatText(n)[0]);
  }

  /** A whole, non-zero term reads back from its piece. */
  lemma ParsePiece(t: Term, first: bool)
    requires Integral(t.coefficient) && t.coefficient != 0.0
    ensures ParseTerm(Piece(t, first)) == t
  {
    PieceParts(t, first);
    ReadWholeBody(t, Negative(Piece(t, first)));
  }

  lemma {:induction false} ParseAllPieces(ts: seq<Term>)
    requires forall k :: 0 <= k < |ts| ==> Integral(ts[k].coefficient) && ts[k].coefficient != 0.0
    ensures ParseAll(PiecesOf(ts)) == ts
  {
    if |ts| > 0 {
      ParseAllPieces(ts[..|ts| - 1]);
      ParseNextPiece(ts);
    }
  }

  lemma ParseNextPiece(ts: seq<Term>)
    requires |ts| > 0 && ParseAll(PiecesOf(ts[..|ts| - 1])) == ts[..|ts| - 1]
    requires Integral(ts[|ts| - 1].coefficient) && ts[|ts| - 1].coefficient != 0.0
    ensures ParseAll(PiecesOf(ts)) == ts
  {
    var init, last := ts[..|ts| - 1], ts[|ts| - 1];
    var ps, p := PiecesOf(init), Piece(last, |ts| == 1);
    ParsePiece(last, |ts| == 1);
    assert PiecesOf(ts) == ps + [p];
    assert (ps + [p])[..|ps|] == ps;
    LastSplit(ts);
  }

  lemma {:induction false} NonZeroKeepsAll(ts: seq<Term>)
    requires forall k :: 0 <= k < |ts| ==> ts[k].coefficient != 0.0
    ensures NonZero(ts) == ts
  {
    if |ts| > 0 {
      var init, last := ts[..|ts| - 1], ts[|ts| - 1];
      forall k | 0 <= k < |init|
        ensures init[k].coefficient != 0.0
      {
        assert init[k] == ts[k];
      }
      NonZeroKeepsAll(init);
      assert NonZero(ts) == init + [last];
      LastSplit(ts);
    }
  }

  /** The "0" shown for no terms reads back as no terms. */
  lemma ZeroReadsEmpty()
    ensures ReadTerms(ToLower(RemoveWhitespace("0"))) == []
  {
    assert RemoveWhitespace("0") == "0" && ToLower("0") == "0";
    ZeroPieces();
    ZeroTerm();
    assert ReadTerms("0") == NonZero(ParseAll(["0"]));
  }

  lemma ZeroPieces()
    ensures Pieces("0") == ["0"]
  {
    assert "0"[..0] == [];
  }

  lemma ZeroTerm()
    ensures NonZero(ParseAll(["0"])) == []
  {
    ParseZero();
    assert ParseAll(["0"]) == [ParseTerm("0")] by {
      assert ["0"][..0] == [];
    }
    assert !Negative("0") && TermBody("0") == "0" && 'x' !in "0";
    assert ParseTerm("0") == Term(0.0, 0);
    assert NonZero([Term(0.0, 0)]) == [] by {
      assert [Term(0.0, 0)][..0] == [];
    }
  }

  lemma {:induction false} ReadShownTerms(ts: seq<Term>)
    requires forall k :: 0 <= k < |ts| ==> Integral(ts[k].coefficient) && ts[k].coefficient != 0.0
    ensures ReadTerms(ToLower(RemoveWhitespace(ShowTerms(ts, IntegerText)))) == ts
  {
    ShowTermsPieces(ts);
    ToLowerPlain(Concat(PiecesOf(ts)));
    SplitPieces(ts);
    ParseAllPieces(ts);
    NonZeroKeepsAll(ts);
  }

  /** Reading back what formatPoly shows, as parsePoly does after removing
      whitespace and lower-casing, gives the terms sorted by exponent, when
      the coefficients are whole and non-zero; an empty polynomial is shown
      as "0" and read back as no terms. */
  lemma FormatThenRead(p: seq<Term>)
    requires forall t :: t in p ==> Integral(t.coefficient) && t.coefficient != 0.0
    ensures ReadTerms(ToLower(RemoveWhitespace(FormatPoly(p, IntegerText)))) == SortByExponent(p)
  {
    if |p| == 0 {
      ZeroReadsEmpty();
    } else {
      var sorted := SortByExponent(p);
      SortByExponentSorts(p);
      forall k | 0 <= k < |sorted|
        ensures Integral(sorted[k].coefficient) && sorted[k].coefficient != 0.0
      {
        assert sorted[k] in multiset(p);
      }
      ReadShownTerms(sorted);
    }
  }

  /** On the piece of a whole, non-zero term, parsePoly as written reads
      what the corrected reader reads: the term itself. */
  lemma PieceReadsAsWritten(t: Term, first: bool)
    requires Integral(t.coefficient) && t.coefficient != 0.0
    ensures ParseTermAsWritten(Piece(t, first)) == ParseTerm(Piece(t, first)) == t
  {
    PieceParts(t, first);
    ParsePiece(t, first);
    if t.exponent == 0 {
      ReadConstant(t);
    } else {
      ReadVariable(t);
      if Abs(t.coefficient) != 1.0 {
        ReadCoefficient(t);
      }
      CoefficientsAgree(Negative(Piece(t, first)), Before(Body(t), 'x'));
    }
  }

  lemma {:induction false} PiecesAgree(ts: seq<Term>)
    requires forall k :: 0 <= k < |ts| ==> Integral(ts[k].coefficient) && ts[k].coefficient != 0.0
    ensures forall k :: 0 <= k < |PiecesOf(ts)| ==> ParseTermAsWritten(PiecesOf(ts)[k]) == ParseTerm(PiecesOf(ts)[k])
  {
    if |ts| > 0 {
      PiecesAgree(ts[..|ts| - 1]);
      PieceReadsAsWritten(ts[|ts| - 1], |ts| == 1);
    }
  }

  /** On formatted terms the two readers read the same. */
  lemma ShownAgree(ts: seq<Term>)
    requires forall k :: 0 <= k < |ts| ==> Integral(ts[k].coefficient) && ts[k].coefficient != 0.0
    ensures var s := ToLower(RemoveWhitespace(ShowTerms(ts, IntegerText)));
      ReadTermsAsWritten(s) == ReadTerms(s)
  {
    ShowTermsPieces(ts);
    ToLowerPlain(Concat(PiecesOf(ts)));
    SplitPieces(ts);
    PiecesAgree(ts);
    ParseAllAgree(PiecesOf(ts));
  }

  lemma ZeroAgrees()
    ensures ReadTermsAsWritten(ToLower(RemoveWhitespace("0"))) == ReadTerms(ToLower(RemoveWhitespace("0")))
  {
    assert RemoveWhitespace("0") == "0" && ToLower("0") == "0";
    ZeroPieces();
    ParseAllAgree(["0"]);
  }

  /** The round trip for parsePoly as written: on what formatPoly shows
      for whole, non-zero coefficients, its reader agrees with the
      corrected one, so it too gives the terms back sorted by exponent. */
  lemma FormatThenReadAsWritten(p: seq<Term>)
    requires forall t :: t in p ==> Integral(t.coefficient) && t.coefficient != 0.0
    ensures ReadTermsAsWritten(ToLower(RemoveWhitespace(FormatPoly(p, IntegerText)))) == SortByExponent(p)
  {
    FormatThenRead(p);
    if |p| == 0 {
      ZeroAgrees();
    } else {
      var sorted := SortByExponent(p);
      SortByExponentSorts(p);
      forall k | 0 <= k < |sorted|
        ensures Integral(sorted[k].coefficient) && sorted[k].coefficient != 0.0
      {
        assert sorted[k] in multiset(p);
      }
      ShownAgree(sorted);
    }
  }

  lemma RegroupPiece(sign: string, c: string, p: string)
    ensures sign + (c + ("x" + p)) == ((sign + c) + "x") + p
  {
    AppendAssociates(sign, c, "x" + p);
    AppendAssociates(sign + c, "x", p);
  }

  /** formatTerm writes a whole, non-zero term as its piece at index 0. */
  lemma FormatTermPiece(t: Term)
    requires Integral(t.coefficient) && t.coefficient != 0.0
    ensures FormatTerm(t, IntegerText) == Piece(t, true)
  {
    WholeAbs(t.coefficient);
    var sign := SignText(t, true, "");
    var d := NatText(Abs(t.coefficient).Floor);
    assert IntegerText(t.coefficient) == sign + d;
    if t.exponent == 0 {
      assert Body(t) == d + "";
    } else {
      var c := if Abs(t.coefficient) == 1.0 then "" else d;
      if Abs(t.coefficient) == 1.0 {
        assert (t.coefficient == -1.0) == (t.coefficient < 0.0);
        assert sign + c == sign;
      }
      assert Body(t) == c + ("x" + PowerText(t.exponent));
      RegroupPiece(sign, c, PowerText(t.exponent));
    }
  }

  /** formatTerm shows a whole, non-zero term as text that reads back as
      the term. */
  lemma FormatTermReads(t: Term)
    requires Integral(t.coefficient) && t.coefficient != 0.0
    ensures ParseTerm(FormatTerm(t, IntegerText)) == t
  {
    FormatTermPiece(t);
    ParsePiece(t, true);
  }

  /** No terms are shown as "0", and a constant term as its coefficient
      alone. */
  lemma FormatEmptyAndConstant(show: real -> string, c: real)
    ensures FormatPoly([], show) == "0"
    ensures FormatTerm(Term(c, 0), show) == show(c)
  {
  }
}
