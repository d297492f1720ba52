/** Field extraction: `getInt` and `getPct`.
    The regular-expression search itself is not modelled: what `text.match`
    returns for a labelled pattern is an input, and everything after it
    (comma stripping, the base-10 parse, the decimal parse and the
    "not found" failure) is modelled here. */
module Extraction {

  /** The outcome of `text.match(regex)`: the first capture group, or no match. */
  datatype Match<T> = Matched(group: T) | NoMatch

  /** What an extractor yields: the parsed value, or the message it throws. */
  datatype Extracted<T> = Value(value: T) | NotFound(message: string)

  predicate IsDigit(c: char) { '0' <= c <= '9' }

  predicate AllDigits(s: string) { forall i | 0 <= i < |s| :: IsDigit(s[i]) }

  function DigitValue(c: char): nat
    requires IsDigit(c)
  {
    c as int - '0' as int
  }

  function DigitChar(d: nat): (c: char)
    requires d < 10
    ensures IsDigit(c) && DigitValue(c) == d
  {
    ('0' as int + d) as char
  }

  function Pow10(k: nat): (r: nat)
    ensures r >= 1
  {
    if k == 0 then 1 else 10 * Pow10(k - 1)
  }

  /** The base-10 value of a string of digits, read left to right. */
  function DigitsValue(s: string): nat
    requires AllDigits(s)
  {
    if s == [] then 0 else DigitsValue(s[..|s| - 1]) * 10 + DigitValue(s[|s| - 1])
  }

  /** A string of k digits stands for a number below 10^k. */
  lemma {:induction false} DigitsValueBound(s: string)
    requires AllDigits(s)
    ensures DigitsValue(s) < Pow10(|s|)
  {
    if s != [] {
      DigitsValueBound(s[..|s| - 1]);
    }
  }

  /** `s.replace(/,/g, '')`: every comma removed, every other character kept in order. */
  function StripCommas(s: string): (r: string)
    ensures |r| <= |s|
  {
    if s == [] then []
    else if s[0] == ',' then StripCommas(s[1..])
    else [s[0]] + StripCommas(s[1..])
  }

  /** No comma survives, digits and commas leave only digits, and a string
      without commas is left as it is. */
  lemma {:induction false} StripCommasSpec(s: string)
    ensures forall i | 0 <= i < |StripCommas(s)| :: StripCommas(s)[i] != ','
    ensures (forall i | 0 <= i < |s| :: IsDigit(s[i]) || s[i] == ',') ==> AllDigits(StripCommas(s))
    ensures ',' !in s ==> StripCommas(s) == s
  {
    if s != [] {
      var t := s[1..];
      StripCommasSpec(t);
      if (forall i | 0 <= i < |s| :: IsDigit(s[i]) || s[i] == ',') {
        assert forall i | 0 <= i < |t| :: t[i] == s[i + 1];
      }
      if s[0] != ',' && ',' !in s {
        assert ',' !in t;
        assert [s[0]] + t == s;
      }
    }
  }

  /** A capture of `[\d,]+` that holds at least one digit (so parseInt does not give NaN). */
  predicate IsIntCapture(s: string) {
    (forall i | 0 <= i < |s| :: IsDigit(s[i]) || s[i] == ',') && StripCommas(s) != []
  }

  /** What the group `([\d,]+)` of a count pattern can capture. */
  type IntCapture = s: string | IsIntCapture(s) witness "0"

  /** `parseInt(s.replace(/,/g, ''), 10)` on a capture of `[\d,]+`. */
  function ParseInt(s: string): (n: nat)
    requires IsIntCapture(s)
    ensures ',' !in s ==> AllDigits(s) && n == DigitsValue(s)
  {
    StripCommasSpec(s);
    DigitsValue(StripCommas(s))
  }

  /** The longest prefix of `s` made of digits. */
  function LeadingDigits(s: string): string
  {
    if s != [] && IsDigit(s[0]) then [s[0]] + LeadingDigits(s[1..]) else []
  }

  /** The leading digits are a prefix of `s`, all digits, and the character
      after them, if any, is not a digit. */
  lemma {:induction false} LeadingDigitsSpec(s: string)
    ensures var r := LeadingDigits(s);
      |r| <= |s| && r == s[..|r|] && AllDigits(r) && (|r| < |s| ==> !IsDigit(s[|r|]))
  {
    if s != [] && IsDigit(s[0]) {
      var t := s[1..];
      LeadingDigitsSpec(t);
      var r' := LeadingDigits(t);
      assert s[..|r'| + 1] == [s[0]] + t[..|r'|];
      if |r'| < |t| {
        assert s[|r'| + 1] == t[|r'|];
      }
    }
  }

  /** A capture of `[\d.]+` whose leading numeral has a digit (so parseFloat does not give NaN). */
  predicate IsPctCapture(s: string) {
    |s| > 0
    && (forall i | 0 <= i < |s| :: IsDigit(s[i]) || s[i] == '.')
    && (IsDigit(s[0]) || (|s| > 1 && IsDigit(s[1])))
  }

  /** The value of the digits after a decimal point: "25" stands for 25/100. */
  function FractionValue(f: string): (r: real)
    requires AllDigits(f)
    ensures 0.0 <= r < 1.0
  {
    DigitsValueBound(f);
    var d, p := DigitsValue(f) as real, Pow10(|f|) as real;
    QuotientBelowOne(d, p);
    d / p
  }

  lemma QuotientBelowOne(d: real, p: real)
    requires 0.0 <= d < p
    ensures 0.0 <= d / p < 1.0
  {
    assert d / p * p == d;
  }

  /** What the group `([\d.]+)` of a percentage pattern can capture. */
  type PctCapture = s: string | IsPctCapture(s) witness "0"

  /** `parseFloat(s)` on a capture of `[\d.]+`: the integer digits, then, after
      one dot, the fraction digits; parsing stops at the first character that
      does not continue the numeral (a second dot, in particular). */
  function ParseFloat(s: string): (r: real)
    requires IsPctCapture(s)
    ensures r >= 0.0
    ensures var w := LeadingDigits(s); AllDigits(w) && DigitsValue(w) as real <= r < DigitsValue(w) as real + 1.0
  {
    LeadingDigitsSpec(s);
    var whole := LeadingDigits(s);
    var rest := s[|whole|..];
    if |rest| > 0 && rest[0] == '.' then
      LeadingDigitsSpec(rest[1..]);
      DigitsValue(whole) as real + FractionValue(LeadingDigits(rest[1..]))
    else
      DigitsValue(whole) as real
  }

  /** `getInt`: the parsed integer, or the failure "<name> not found". */
  function GetInt(m: Match<IntCapture>, name: string): (r: Extracted<nat>)
    ensures r.NotFound? <==> m.NoMatch?
    ensures r.NotFound? ==> r.message == name + " not found"
    ensures r.Value? ==> r.value == ParseInt(m.group)
  {
    match m
    case NoMatch => NotFound(name + " not found")
    case Matched(group) => Value(ParseInt(group))
  }

  /** `getPct`: the parsed percentage, or the failure "<name> % not found". */
  function GetPct(m: Match<PctCapture>, name: string): (r: Extracted<real>)
    ensures r.NotFound? <==> m.NoMatch?
    ensures r.NotFound? ==> r.message == name + " % not found"
    ensures r.Value? ==> r.value == ParseFloat(m.group) && r.value >= 0.0
  {
    match m
    case NoMatch => NotFound(name + " % not found")
    case Matched(group) => Value(ParseFloat(group))
  }

  // ---------------------------------------------------------------------
  // Decimal and thousands-grouped renderings of a number, the partners of
  // the parse: ParseInt reads back what they write.

  /** The shortest base-10 rendering of `n`. */
  function Decimal(n: nat): (s: string)
    ensures |s| > 0 && AllDigits(s)
  {
    if n < 10 then [DigitChar(n)] else Decimal(n / 10) + [DigitChar(n % 10)]
  }

  /** Three digits, zero-padded. */
  function Pad3(k: nat): (s: string)
    requires k < 1000
    ensures |s| == 3 && AllDigits(s)
  {
    [DigitChar(k / 100), DigitChar(k / 10 % 10), DigitChar(k % 10)]
  }

  /** The padded group reads back as the number it renders. */
  lemma Pad3Value(k: nat)
    requires k < 1000
    ensures DigitsValue(Pad3(k)) == k
  {
    var a, b, c := k / 100, k / 10 % 10, k % 10;
    assert k / 10 == a * 10 + b && k == k / 10 * 10 + c;
    var s := Pad3(k);
    assert s[..1] == [s[0]] && s[..1][..0] == [] && s[..2][..1] == s[..1] && s[..3] == s;
    assert DigitsValue(s[..1]) == a;
    assert DigitsValue(s[..2]) == a * 10 + b;
  }

  /** The base-10 rendering of `n` with a comma before every group of three digits. */
  function Grouped(n: nat): (s: string)
    ensures |s| > 0 && forall i | 0 <= i < |s| :: IsDigit(s[i]) || s[i] == ','
  {
    if n < 1000 then Decimal(n) else Grouped(n / 1000) + "," + Pad3(n % 1000)
  }

  /** Stripping works character by character: it distributes over
      concatenation, so every character other than a comma stays, in order. */
  lemma {:induction false} StripCommasAppend(a: string, b: string)
    ensures StripCommas(a + b) == StripCommas(a) + StripCommas(b)
  {
    if a == [] {
      assert a + b == b;
    } else {
      assert (a + b)[1..] == a[1..] + b;
      StripCommasAppend(a[1..], b);
    }
  }

  lemma {:induction false} DigitsValueAppend(a: string, b: string)
    requires AllDigits(a) && AllDigits(b)
    ensures AllDigits(a + b)
    ensures DigitsValue(a + b) == DigitsValue(a) * Pow10(|b|) + DigitsValue(b)
  {
    if b == [] {
      assert a + b == a;
    } else {
      var b' := b[..|b| - 1];
      assert (a + b)[..|a + b| - 1] == a + b';
      DigitsValueAppend(a, b');
      var x: int, p: int, y: int := DigitsValue(a), Pow10(|b'|), DigitsValue(b');
      var d: int := DigitValue(b[|b| - 1]);
      assert DigitsValue(a + b) == DigitsValue(a + b') * 10 + d;
      ShiftByOneDigit(x, p, y);
      assert Pow10(|b|) == p * 10;
      assert DigitsValue(b) == y * 10 + d;
    }
  }

  /** Stated apart so that the nonlinear step stays out of the inductive proof. */
  lemma ShiftByOneDigit(x: int, p: int, y: int)
    ensures (x * p + y) * 10 == x * (p * 10) + y * 10
  {
  }

  /** Removing commas is all the preprocessing there is: a comma anywhere in a
      capture does not change the parsed value ("1,000" reads as "1000"). */
  lemma ParseIntIgnoresCommas(a: string, b: string)
    requires IsIntCapture(a + b)
    ensures IsIntCapture(a + "," + b)
    ensures ParseInt(a + "," + b) == ParseInt(a + b)
  {
    StripCommasAppend(a + ",", b);
    StripCommasAppend(a, ",");
    StripCommasAppend(a, b);
    assert StripCommas(",") == [];
    assert StripCommas(a + ",") == StripCommas(a);
    assert StripCommas(a + "," + b) == StripCommas(a + b);
    var s, t := a + b, a + "," + b;
    forall i | 0 <= i < |t|
      ensures IsDigit(t[i]) || t[i] == ','
    {
      if i < |a| {
        assert t[i] == s[i];
      } else if i > |a| {
        assert t[i] == s[i - 1];
      }
    }
  }

  lemma {:induction false} DecimalRoundTrip(n: nat)
    ensures DigitsValue(Decimal(n)) == n
  {
    if n >= 10 {
      var s := Decimal(n / 10) + [DigitChar(n % 10)];
      assert s[..|s| - 1] == Decimal(n / 10);
      DecimalRoundTrip(n / 10);
    }
  }

  /** The plain rendering of a count parses back to the count. */
  lemma ParseIntOfDecimal(n: nat)
    ensures IsIntCapture(Decimal(n))
    ensures ParseInt(Decimal(n)) == n
  {
    var s := Decimal(n);
    assert ',' !in s;
    StripCommasSpec(s);
    DecimalRoundTrip(n);
  }

  /** The thousands-grouped rendering of a count parses back to the count,
      so parsing undoes digit grouping. */
  lemma {:induction false} ParseIntOfGrouped(n: nat)
    ensures IsIntCapture(Grouped(n))
    ensures ParseInt(Grouped(n)) == n
  {
    if n < 1000 {
      ParseIntOfDecimal(n);
    } else {
      var head, tail := Grouped(n / 1000), Pad3(n % 1000);
      ParseIntOfGrouped(n / 1000);
      StripGrouped(head, tail);
      var h := StripCommas(head);
      StripCommasSpec(head);
      Pad3Value(n % 1000);
      DigitsValueAppend(h, tail);
      assert Pow10(3) == 1000;
      assert DigitsValue(h + tail) == n / 1000 * 1000 + n % 1000;
    }
  }

  lemma StripGrouped(head: string, tail: string)
    requires AllDigits(tail)
    ensures StripCommas(head + "," + tail) == StripCommas(head) + tail
  {
    assert ',' !in tail;
    StripCommasSpec(tail);
    StripCommasAppend(head + ",", tail);
    StripCommasAppend(head, ",");
    assert StripCommas(",") == [];
    assert StripCommas(head + ",") == StripCommas(head);
  }

  lemma {:induction false} LeadingDigitsOfAppend(a: string, t: string)
    requires AllDigits(a)
    requires t == [] || !IsDigit(t[0])
    ensures LeadingDigits(a + t) == a
  {
    if a == [] {
      assert a + t == t;
    } else {
      assert (a + t)[1..] == a[1..] + t;
      LeadingDigitsOfAppend(a[1..], t);
    }
  }

  /** A numeral without a dot, "40", is read as its base-10 value. */
  lemma ParseFloatOfWhole(whole: string)
    requires |whole| > 0 && AllDigits(whole)
    ensures IsPctCapture(whole)
    ensures ParseFloat(whole) == DigitsValue(whole) as real
  {
    LeadingDigitsOfAppend(whole, []);
    assert whole + [] == whole;
  }

  /** A whole number with a fraction, "40.25", is read as 40 + 25/100; the
      whole part may be empty, ".5" is read as 5/10. */
  lemma ParseFloatOfDecimal(whole: string, fraction: string)
    requires AllDigits(whole) && AllDigits(fraction) && (|whole| > 0 || |fraction| > 0)
    ensures IsPctCapture(whole + "." + fraction)
    ensures ParseFloat(whole + "." + fraction)
         == DigitsValue(whole) as real + FractionValue(fraction)
  {
    DecimalIsPctCapture(whole, fraction);
    var s := whole + "." + fraction;
    AppendAssoc(whole, ".", fraction);
    LeadingDigitsOfAppend(whole, "." + fraction);
    assert LeadingDigits(s) == whole;
    assert s[|whole|..] == "." + fraction;
    assert ("." + fraction)[1..] == fraction;
    LeadingDigitsOfAppend(fraction, []);
    assert fraction + [] == fraction;
    assert LeadingDigits(fraction) == fraction;
    var rest := s[|whole|..];
    assert |rest| > 0 && rest[0] == '.' && LeadingDigits(rest[1..]) == fraction;
  }

  /** Regrouping stated apart: asserted inline, it makes the caller's proof
      run out of resources. */
  lemma AppendAssoc(a: string, b: string, c: string)
    ensures a + b + c == a + (b + c)
  {
  }

  lemma DecimalIsPctCapture(whole: string, fraction: string)
    requires AllDigits(whole) && AllDigits(fraction) && (|whole| > 0 || |fraction| > 0)
    ensures IsPctCapture(whole + "." + fraction)
  {
    var s := whole + "." + fraction;
    forall i | 0 <= i < |s| ensures IsDigit(s[i]) || s[i] == '.' {
      if i < |whole| { assert s[i] == whole[i]; }
      else if i > |whole| { assert s[i] == fraction[i - |whole| - 1]; }
    }
    if |whole| == 0 {
      assert s[1] == fraction[0];
    } else {
      assert s[0] == whole[0];
    }
  }

  /** parseFloat stops at a second dot: "1.5.7" reads as "1.5", ".5.7" as ".5". */
  lemma ParseFloatStopsAtSecondDot(whole: string, fraction: string, tail: string)
    requires AllDigits(whole) && AllDigits(fraction) && (|whole| > 0 || |fraction| > 0)
    requires forall i | 0 <= i < |tail| :: IsDigit(tail[i]) || tail[i] == '.'
    ensures IsPctCapture(whole + "." + fraction + "." + tail)
    ensures ParseFloat(whole + "." + fraction + "." + tail) == ParseFloat(whole + "." + fraction)
  {
    ParseFloatOfDecimal(whole, fraction);
    var s := whole + "." + fraction + "." + tail;
    assert s == whole + ("." + fraction + "." + tail);
    LeadingDigitsOfAppend(whole, "." + fraction + "." + tail);
    assert s[|whole|..] == "." + fraction + "." + tail;
    assert ("." + fraction + "." + tail)[1..] == fraction + ("." + tail);
    LeadingDigitsOfAppend(fraction, "." + tail);
    if |whole| == 0 {
      assert s[1] == fraction[0];
    }
  }
}
