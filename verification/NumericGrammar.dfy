/**
 What texts are numbers (libpqtypes, numerics.c): spaces, a sign, digits with a point, an exponent
 and spaces again, and which number each of them is.
 */
module NumericGrammar {
  import opened Basics
  import opened Decimals
  import opened NumericText

  /** Space, tab, line feed, vertical tab, form feed and carriage return. */
  predicate IsBlank(c: char) { c == ' ' || 9 <= c as int <= 13 }

  predicate AreSpaces(s: string) { forall i :: 0 <= i < |s| ==> IsBlank(s[i]) }

  predicate IsFigure(c: char) { c in "0123456789" }

  predicate AreDigits(s: string) { forall i :: 0 <= i < |s| ==> IsFigure(s[i]) }

  predicate IsSign(s: string) { s == "" || s == "+" || s == "-" }

  /** The number a list of decimal digits is, most significant first. */
  function NumberOf(s: string): nat { Number(DigitsOf(s), 10) }

  function SignedNumber(sign: string, digits: string): int {
    var n: int := NumberOf(digits);
    if sign == "-" then -n else n
  }

  /** An exponent: a mark, maybe spaces and a sign, and digits; or nothing. */
  datatype Exponent = NoExponent | Exponent(mark: char, gap: string, sign: string, digits: string)
  {
    predicate Valid() {
      Exponent? ==> (mark == 'e' || mark == 'E') && AreSpaces(gap) && IsSign(sign) && AreDigits(digits) && digits != ""
    }

    function Text(): string { if NoExponent? then "" else [mark] + gap + sign + digits }

    function Power(): int { if NoExponent? then 0 else SignedNumber(sign, digits) }
  }

  /** A number without its exponent. */
  datatype Mantissa = Mantissa(sign: string, ip: string, point: bool, fp: string)
  {
    predicate Valid() { IsSign(sign) && AreDigits(ip) && AreDigits(fp) && (point || fp == "") && ip + fp != "" }

    function Text(): string { sign + Body(this) }
  }

  function Body(m: Mantissa): string { if m.point then m.ip + "." + m.fp else m.ip }

  // ----- spaces and digits at the front of a text -----

  lemma CharactersAre(c: char)
    ensures (IsSpace(c) <==> IsBlank(c)) && (IsDigit(c) <==> IsFigure(c))
    ensures !(IsBlank(c) && IsFigure(c))
    ensures c in ".+-eE" ==> !IsBlank(c) && !IsFigure(c)
  {}

  lemma SpacesOf(a: string, b: string)
    requires AreSpaces(a) && (b != "" ==> !IsBlank(b[0]))
    ensures Spaces(a + b) == |a| && (a + b)[|a|..] == b
  {
    var t := a + b;
    var n := Spaces(t);
    hide Spaces;
    hide IsSpace;
    hide IsBlank;
    forall k | 0 <= k < |a| ensures IsSpace(t[k]) {
      assert t[k] == a[k];
      CharactersAre(a[k]);
    }
    if b != "" {
      assert t[|a|] == b[0];
      CharactersAre(b[0]);
    }
  }

  lemma SpacesAtFront(text: string)
    ensures AreSpaces(text[..Spaces(text)]) && (Spaces(text) < |text| ==> !IsBlank(text[Spaces(text)]))
  {
    var n := Spaces(text);
    hide Spaces;
    hide IsSpace;
    hide IsBlank;
    forall i | 0 <= i < n ensures IsBlank(text[i]) { CharactersAre(text[i]); }
    if n < |text| { CharactersAre(text[n]); }
  }

  lemma DigitsAre(s: string)
    ensures AllDigits(s) <==> AreDigits(s)
  {
    hide IsDigit;
    hide IsFigure;
    forall i | 0 <= i < |s| ensures IsDigit(s[i]) <==> IsFigure(s[i]) { CharactersAre(s[i]); }
  }

  lemma RunOf(a: string, b: string)
    requires AreDigits(a) && (b != "" ==> !IsFigure(b[0]))
    ensures Run(a + b) == |a| && (a + b)[..|a|] == a && (a + b)[|a|..] == b
  {
    hide IsDigit;
    hide IsFigure;
    assert (a + b)[..|a|] == a;
    DigitsAre(a);
    if b != "" { CharactersAre(b[0]); }
    RunIs(a + b, |a|);
  }

  lemma RunAtFront(text: string)
    ensures AreDigits(text[..Run(text)]) && (Run(text) < |text| ==> !IsFigure(text[Run(text)]))
  {
    var n := Run(text);
    hide Run;
    hide IsDigit;
    hide IsFigure;
    DigitsAre(text[..n]);
    if n < |text| { CharactersAre(text[n]); }
  }

  // ----- the exponent -----

  lemma SignedStarts(sign: string, digits: string, rest: string)
    requires IsSign(sign) && AreDigits(digits) && digits != ""
    ensures var t := sign + digits + rest;
            && t != "" && !IsBlank(t[0]) && ((t[0] == '-' || t[0] == '+') <==> sign != "") && (t[0] == '-' <==> sign == "-")
            && t[|sign|..] == digits + rest
  {
    CharactersAre(digits[0]);
    CharactersAre('-');
    CharactersAre('+');
    hide IsFigure;
    hide IsBlank;
    assert IsFigure(digits[0]);
    var t := sign + digits + rest;
    assert t[0] == if sign == "" then digits[0] else sign[0];
  }

  /** `strtol` passes over spaces, takes a sign and reads digits in base ten. */
  lemma StrtolReads(gap: string, sign: string, digits: string, rest: string)
    requires AreSpaces(gap) && IsSign(sign) && AreDigits(digits) && digits != "" && (rest != "" ==> !IsFigure(rest[0]))
    ensures Strtol(gap + sign + digits + rest) == Some((SignedNumber(sign, digits), |gap| + |sign| + |digits|))
  {
    hide *;
    var text, t, s := gap + sign + digits + rest, sign + digits + rest, |gap|;
    var from := s + |sign|;
    assert text == gap + t;
    SignedStarts(sign, digits, rest);
    SpacesOf(gap, t);
    RunOf(digits, rest);
    assert text[s] == t[0];
    assert text[from..] == t[|sign|..] == digits + rest;
    assert text[from..from + |digits|] == digits;
    LengthOfSign(sign);
    StrtolIs(text, s, sign, from, digits);
  }

  lemma LengthOfSign(sign: string)
    requires IsSign(sign)
    ensures |sign| == if sign == "" then 0 else 1
  {}

  lemma StrtolIs(text: string, s: nat, sign: string, from: nat, digits: string)
    requires s == Spaces(text) && s < |text|
    requires ((text[s] == '-' || text[s] == '+') <==> sign != "") && (text[s] == '-' <==> sign == "-")
    requires from == (if sign == "" then s else s + 1) && digits != ""
    requires Run(text[from..]) == |digits| && from + |digits| <= |text| && text[from..from + |digits|] == digits
    ensures Strtol(text) == Some((SignedNumber(sign, digits), from + |digits|))
  {
    hide Spaces;
    hide Run;
    hide Number;
    hide DigitsOf;
  }

  /** How an exponent and the spaces behind it are read. */
  lemma ExponentReads(negative: bool, ip: string, fp: string, x: Exponent, trail: string)
    requires x.Valid() && AreSpaces(trail)
    ensures ReadExponent(negative, ip, fp, x.Text() + trail)
         == if -1000 <= x.Power() <= 1000 then Some(Decimal(negative, ip, fp, x.Power())) else None
    ensures Ends(x.Text() + trail)
  {
    hide IsFigure;
    hide IsBlank;
    hide Spaces;
    hide Strtol;
    hide SignedNumber;
    assert trail + "" == trail;
    SpacesOf(trail, "");
    if trail != "" { CharactersAre(trail[0]); }
    CharactersAre('.');
    CharactersAre('e');
    CharactersAre('E');
    var rest := x.Text() + trail;
    if x.Exponent? {
      assert rest[0] == x.mark && rest[1..] == x.gap + x.sign + x.digits + trail;
      StrtolReads(x.gap, x.sign, x.digits, trail);
      assert rest[1..][|x.gap| + |x.sign| + |x.digits|..] == trail;
    } else {
      assert rest == trail;
    }
  }

  /** What may follow the digits of a mantissa. */
  predicate Ends(rest: string) { rest != "" ==> !IsFigure(rest[0]) && rest[0] != '.' }

  lemma PointIsRead(negative: bool, t: string, ip: string, fp: string, rest: string)
    requires Run(t) == |ip| && |ip| < |t| && t[|ip|] == '.' && t[..|ip|] == ip && ip + fp != ""
    requires t[|ip| + 1..] == fp + rest && Run(fp + rest) == |fp|
    ensures ReadMantissa(negative, t) == ReadExponent(negative, ip, fp, rest)
  {
    hide ReadExponent;
    hide Run;
    assert (fp + rest)[..|fp|] == fp && (fp + rest)[|fp|..] == rest;
  }

  lemma IntegerIsRead(negative: bool, ip: string, rest: string)
    requires Run(ip + rest) == |ip| && ip != "" && (rest != "" ==> rest[0] != '.')
    ensures ReadMantissa(negative, ip + rest) == ReadExponent(negative, ip, "", rest)
  {
    hide ReadExponent;
    hide Run;
    assert (ip + rest)[..|ip|] == ip && (ip + rest)[|ip|..] == rest;
  }

  lemma MantissaReads(negative: bool, m: Mantissa, rest: string)
    requires m.Valid() && Ends(rest)
    ensures ReadMantissa(negative, Body(m) + rest) == ReadExponent(negative, m.ip, m.fp, rest)
  {
    hide ReadExponent;
    hide ReadMantissa;
    hide Run;
    hide IsFigure;
    if m.point {
      var behind := m.fp + rest;
      var t := m.ip + ("." + behind);
      assert Body(m) + rest == t;
      CharactersAre('.');
      RunOf(m.ip, "." + behind);
      RunOf(m.fp, rest);
      assert t[|m.ip| + 1..] == behind;
      PointIsRead(negative, t, m.ip, m.fp, rest);
    } else {
      RunOf(m.ip, rest);
      assert m.ip + m.fp == m.ip;
      IntegerIsRead(negative, m.ip, rest);
    }
  }

  lemma MantissaStarts(m: Mantissa, rest: string)
    requires m.Valid()
    ensures var body := Body(m) + rest;
            body != "" && !IsBlank(body[0]) && body[0] != '+' && body[0] != '-' && IsSign(m.sign)
  {
    var body := Body(m) + rest;
    hide IsFigure;
    hide IsBlank;
    CharactersAre('+');
    CharactersAre('-');
    CharactersAre('.');
    if m.ip == "" {
      assert m.point && body[0] == '.';
    } else {
      assert body[0] == m.ip[0];
      CharactersAre(m.ip[0]);
      assert IsFigure(m.ip[0]);
    }
  }

  lemma SignReads(sign: string, body: string)
    requires IsSign(sign) && body != "" && !IsBlank(body[0]) && body[0] != '+' && body[0] != '-'
    ensures var t := sign + body;
            && !IsBlank(t[0]) && (t[0] == '-' <==> sign == "-") && (t[0] == '+' <==> sign == "+")
            && (if sign == "" then t else t[1..]) == body
  {
    CharactersAre('+');
    CharactersAre('-');
    hide IsBlank;
    var t := sign + body;
    assert t[0] == if sign == "" then body[0] else sign[0];
    if sign == "" { assert t == body; } else { assert t[1..] == body; }
  }

  /** A text made of these parts is read as the number they say, unless the exponent is beyond a thousand. */
  lemma NumeralReads(lead: string, m: Mantissa, x: Exponent, trail: string)
    requires AreSpaces(lead) && m.Valid() && x.Valid() && AreSpaces(trail)
    ensures ReadNumeric(lead + m.Text() + x.Text() + trail)
         == if -1000 <= x.Power() <= 1000 then Some(Decimal(m.sign == "-", m.ip, m.fp, x.Power())) else None
  {
    hide *;
    var body := Body(m);
    var after := x.Text() + trail;
    ExponentReads(m.sign == "-", m.ip, m.fp, x, trail);
    MantissaReads(m.sign == "-", m, after);
    MantissaStarts(m, after);
    SignReads(m.sign, body + after);
    SpacesOf(lead, m.sign + (body + after));
    TextOfNumeral(lead, m, x, trail);
    ReadsSigned(lead + (m.sign + (body + after)), m.sign, body + after);
  }

  lemma TextOfNumeral(lead: string, m: Mantissa, x: Exponent, trail: string)
    ensures lead + m.Text() + x.Text() + trail == lead + (m.sign + (Body(m) + (x.Text() + trail)))
  {}

  lemma ReadsSigned(text: string, sign: string, body: string)
    requires IsSign(sign) && text[Spaces(text)..] == sign + body && body != "" && body[0] != '+' && body[0] != '-'
    ensures ReadNumeric(text) == ReadMantissa(sign == "-", body)
  {
    hide Spaces;
    hide ReadMantissa;
    var t := sign + body;
    if sign == "" { assert t == body; } else { assert t[0] == sign[0] && t[1..] == body; }
  }

  // ----- the parts of a text that is a number -----

  lemma StrtolParts(text: string) returns (gap: string, sign: string, digits: string)
    requires Strtol(text).Some?
    ensures AreSpaces(gap) && IsSign(sign) && AreDigits(digits) && digits != ""
    ensures text[..Strtol(text).value.1] == gap + sign + digits
  {
    hide Number;
    hide DigitsOf;
    hide IsFigure;
    hide IsBlank;
    hide Run;
    hide Spaces;
    SpacesAtFront(text);
    var s := Spaces(text);
    var signed := s < |text| && (text[s] == '-' || text[s] == '+');
    var from := if signed then s + 1 else s;
    RunAtFront(text[from..]);
    var n := Run(text[from..]);
    gap, sign, digits := text[..s], text[s..from], text[from..][..n];
    if signed { assert text[s..s + 1] == [text[s]]; }
    assert text[from..][..n] == text[from..from + n];
    assert text[..from + n] == text[..s] + text[s..from] + text[from..from + n];
  }

  lemma ExponentParts(negative: bool, ip: string, fp: string, rest: string) returns (x: Exponent, trail: string)
    requires ReadExponent(negative, ip, fp, rest).Some?
    ensures x.Valid() && AreSpaces(trail) && rest == x.Text() + trail
  {
    hide Strtol;
    hide Spaces;
    hide IsBlank;
    hide IsFigure;
    if rest != "" && (rest[0] == 'e' || rest[0] == 'E') {
      var behind := rest[1..];
      var gap, sign, digits := StrtolParts(behind);
      x, trail := Exponent(rest[0], gap, sign, digits), behind[Strtol(behind).value.1..];
      assert behind == behind[..Strtol(behind).value.1] + trail;
      assert rest == [rest[0]] + behind;
      assert x.Text() + trail == [rest[0]] + (gap + sign + digits + trail);
    } else {
      x, trail := NoExponent, rest;
      assert "" + rest == rest;
    }
    SpacesAtFront(trail);
    assert trail[..|trail|] == trail;
  }

  lemma MantissaParts(negative: bool, t: string) returns (m: Mantissa, rest: string)
    requires ReadMantissa(negative, t).Some?
    ensures m.Valid() && m.sign == "" && t == Body(m) + rest
    ensures ReadMantissa(negative, t) == ReadExponent(negative, m.ip, m.fp, rest)
  {
    hide ReadExponent;
    hide Run;
    hide IsFigure;
    RunAtFront(t);
    var n := Run(t);
    if n < |t| && t[n] == '.' {
      var behind := t[n + 1..];
      RunAtFront(behind);
      var f := Run(behind);
      m, rest := Mantissa("", t[..n], true, behind[..f]), behind[f..];
      assert t == t[..n] + "." + behind && behind == m.fp + rest;
      assert t == Body(m) + rest;
    } else {
      m, rest := Mantissa("", t[..n], false, ""), t[n..];
      assert t == Body(m) + rest;
    }
  }

  /** Every text that is read as a number is made of these parts. */
  lemma NumeralParts(text: string) returns (lead: string, m: Mantissa, x: Exponent, trail: string)
    requires ReadNumeric(text).Some?
    ensures AreSpaces(lead) && m.Valid() && x.Valid() && AreSpaces(trail)
    ensures text == lead + m.Text() + x.Text() + trail
  {
    hide ReadMantissa;
    hide Spaces;
    hide IsBlank;
    hide IsFigure;
    SpacesAtFront(text);
    var t := text[Spaces(text)..];
    lead := text[..Spaces(text)];
    var sign := if t != "" && (t[0] == '-' || t[0] == '+') then t[..1] else "";
    var body := t[|sign|..];
    var after;
    m, after := MantissaParts(sign == "-", body);
    x, trail := ExponentParts(sign == "-", m.ip, m.fp, after);
    m := m.(sign := sign);
    assert text == lead + t && t == sign + body;
    TextOfNumeral(lead, m, x, trail);
  }

  /**
   The texts that are numbers, and what they are: spaces, a sign, digits with a point, an exponent of
   at most a thousand, and spaces.
   */
  lemma NumeralExactlyWhen(text: string, d: Decimal)
    ensures ReadNumeric(text) == Some(d) <==>
            exists lead: string, m: Mantissa, x: Exponent, trail: string ::
              && AreSpaces(lead) && m.Valid() && x.Valid() && AreSpaces(trail) && text == lead + m.Text() + x.Text() + trail
              && -1000 <= x.Power() <= 1000 && d == Decimal(m.sign == "-", m.ip, m.fp, x.Power())
  {
    hide *;
    if ReadNumeric(text) == Some(d) {
      var lead, m, x, trail := NumeralParts(text);
      NumeralReads(lead, m, x, trail);
    }
    forall lead: string, m: Mantissa, x: Exponent, trail: string
      | && AreSpaces(lead) && m.Valid() && x.Valid() && AreSpaces(trail) && text == lead + m.Text() + x.Text() + trail
        && -1000 <= x.Power() <= 1000 && d == Decimal(m.sign == "-", m.ip, m.fp, x.Power())
      ensures ReadNumeric(text) == Some(d)
    {
      NumeralReads(lead, m, x, trail);
    }
  }

  // ----- what an exponent does -----

  /** A text without an exponent or spaces behind it, that is a number. */
  predicate Plain(text: string) {
    ReadNumeric(text).Some? && 'e' !in text && 'E' !in text && text != "" && !IsBlank(text[|text| - 1])
  }

  lemma PlainParts(text: string) returns (lead: string, m: Mantissa)
    requires Plain(text)
    ensures AreSpaces(lead) && m.Valid() && text == lead + m.Text()
    ensures ReadNumeric(text) == Some(Decimal(m.sign == "-", m.ip, m.fp, 0))
  {
    hide *;
    var x, trail;
    PlainIs(text);
    lead, m, x, trail := NumeralParts(text);
    if trail != "" { LastIsBlank(lead + m.Text() + x.Text(), trail); }
    if x.Exponent? { MarkIsThere(lead + m.Text(), x, trail); }
    NumeralReads(lead, m, x, trail);
    NoExponentIs();
    assert lead + m.Text() + "" + "" == lead + m.Text();
  }

  lemma PlainIs(text: string)
    requires Plain(text)
    ensures ReadNumeric(text).Some? && 'e' !in text && 'E' !in text && text != "" && !IsBlank(text[|text| - 1])
  {}

  lemma NoExponentIs()
    ensures NoExponent.Text() == "" && NoExponent.Power() == 0
  {}

  lemma LastIsBlank(a: string, trail: string)
    requires trail != "" && AreSpaces(trail)
    ensures IsBlank((a + trail)[|a + trail| - 1])
  {
    hide IsBlank;
    assert (a + trail)[|a + trail| - 1] == trail[|trail| - 1];
  }

  lemma MarkIsThere(a: string, x: Exponent, trail: string)
    requires x.Exponent? && x.Valid()
    ensures var text := a + x.Text() + trail; 'e' in text || 'E' in text
  {
    assert (a + x.Text() + trail)[|a|] == x.mark;
  }

  /** The point is moved `places` places; there are as many digits fewer behind it, but not fewer than none. */
  ghost predicate IsMoved(d: Decimal, moved: Decimal, places: int) {
    && moved.negative == d.negative && moved.Value() == d.Value() * Tens(places)
    && moved.Scale() == if d.Scale() > places then d.Scale() - places else 0
  }

  /** An exponent behind a number moves its point: to the right, and to the left if it is negative. */
  lemma ExponentMovesPoint(text: string, mark: char, sign: string, e: string)
    requires Plain(text) && (mark == 'e' || mark == 'E') && IsSign(sign) && AreDigits(e) && e != ""
    requires Number(DigitsOf(e), 10) <= 1000
    ensures ReadNumeric(text).Some? && ReadNumeric(text + [mark] + sign + e).Some?
    ensures var k: int := Number(DigitsOf(e), 10);
            IsMoved(ReadNumeric(text).value, ReadNumeric(text + [mark] + sign + e).value, if sign == "-" then -k else k)
  {
    hide *;
    var lead, m := PlainParts(text);
    var x := Exponent(mark, "", sign, e);
    SimpleExponent(x);
    assert text + [mark] + sign + e == lead + m.Text() + ([mark] + sign + e) + "";
    NumeralReads(lead, m, x, "");
    PointMoved(Decimal(m.sign == "-", m.ip, m.fp, 0), x.Power());
  }

  lemma SimpleExponent(x: Exponent)
    requires x.Exponent? && (x.mark == 'e' || x.mark == 'E') && x.gap == ""
    requires IsSign(x.sign) && AreDigits(x.digits) && x.digits != ""
    ensures x.Valid() && AreSpaces("") && x.Text() == [x.mark] + x.sign + x.digits
    ensures var k: int := Number(DigitsOf(x.digits), 10); x.Power() == if x.sign == "-" then -k else k
  {
    assert [x.mark] + "" == [x.mark];
  }

  lemma PointMoved(d: Decimal, k: int)
    requires d.exponent == 0
    ensures IsMoved(d, d.(exponent := k), k)
  {
    hide Scaled;
    hide Tens;
    ScaledMoved(d.ip + d.fp, -|d.fp|, k);
    NegatedProduct(d.Size(), Tens(k));
  }

  lemma ScaledMoved(digits: string, e: int, k: int)
    ensures Scaled(digits, e + k) == Scaled(digits, e) * Tens(k)
  {
    hide Tens;
    hide Number;
    TensAdds(e, k);
    ProductsRegrouped(Number(DigitsOf(digits), 10) as real, Tens(e), Tens(k));
  }

  lemma ProductsRegrouped(x: real, y: real, z: real)
    ensures x * (y * z) == x * y * z
  {}

  lemma NegatedProduct(x: real, y: real)
    ensures -x * y == -(x * y)
  {}

  /** An exponent beyond a thousand is an error. */
  lemma ExponentTooLarge(text: string, mark: char, sign: string, e: string)
    requires Plain(text) && (mark == 'e' || mark == 'E') && IsSign(sign) && AreDigits(e)
    requires Number(DigitsOf(e), 10) > 1000
    ensures ReadNumeric(text + [mark] + sign + e) == None
  {
    hide *;
    NoDigitsNothing();
    var lead, m := PlainParts(text);
    var x := Exponent(mark, "", sign, e);
    SimpleExponent(x);
    assert text + [mark] + sign + e == lead + m.Text() + ([mark] + sign + e) + "";
    NumeralReads(lead, m, x, "");
  }

  lemma NoDigitsNothing()
    ensures Number(DigitsOf(""), 10) == 0
  {}
}
