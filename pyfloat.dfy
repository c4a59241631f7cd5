/**
 * The decimal subset of Python's `float(str)`: surrounding whitespace (its own
 * set, see `FloatSpace`) is ignored, then an optional sign, digits, and an optional '.' with more
 * digits, at least one digit in all ("5.", ".5", "-0" are accepted). The
 * value is the exact rational the literal denotes.
 */
module PyFloat {
  import opened Wrappers
  import opened PyStrings

  predicate IsDigit(c: char)
  {
    '0' <= c <= '9'
  }

  predicate AllDigits(s: string)
  {
    forall i :: 0 <= i < |s| ==> IsDigit(s[i])
  }

  /** The number a string of decimal digits denotes. */
  function DigitsValue(s: string): nat
    requires AllDigits(s)
    decreases |s|
  {
    if s == [] then 0 else DigitsValue(s[..|s| - 1]) * 10 + (s[|s| - 1] as int - '0' as int)
  }

  datatype Sign = NoSign | Plus | Minus

  /** The value of the digits after a decimal point. */
  function FractionValue(f: string): real
    requires AllDigits(f)
    decreases |f|
  {
    if f == [] then 0.0 else ((f[0] as int - '0' as int) as real + FractionValue(f[1..])) / 10.0
  }

  function SignText(sign: Sign): string
  {
    match sign
    case NoSign => ""
    case Plus => "+"
    case Minus => "-"
  }

  function PointText(fraction: Option<string>): string
  {
    if fraction.Some? then "." + fraction.value else ""
  }

  /** A decimal literal: sign, the digits before the point, and the digits after it when there is a point. */
  datatype Literal = Literal(sign: Sign, whole: string, fraction: Option<string>)
  {
    predicate Valid()
    {
      AllDigits(whole) && (fraction.Some? ==> AllDigits(fraction.value))
      && |whole| + |fraction.GetOr([])| >= 1
    }

    function Text(): string
    {
      SignText(sign) + whole + PointText(fraction)
    }

    function Value(): real
      requires Valid()
    {
      var magnitude := DigitsValue(whole) as real + if fraction.Some? then FractionValue(fraction.value) else 0.0;
      if sign == Minus then -magnitude else magnitude
    }
  }

  /** Takes a leading sign off. */
  function SplitSign(t: string): (r: (Sign, string))
    ensures SignText(r.0) + r.1 == t
    ensures r.0 == NoSign ==> r.1 == [] || (r.1[0] != '-' && r.1[0] != '+')
  {
    if |t| > 0 && t[0] == '-' then (Minus, t[1..])
    else if |t| > 0 && t[0] == '+' then (Plus, t[1..])
    else (NoSign, t)
  }

  /** Cuts at the first '.'. */
  function SplitPoint(body: string): (r: (string, Option<string>))
    ensures r.0 + PointText(r.1) == body
    ensures '.' !in r.0
  {
    var k := IndexOf(body, '.');
    if k < |body| then
      var (whole, rest) := (body[..k], body[k + 1..]);
      assert PointText(Some(rest)) == ['.'] + rest;
      assert body == whole + (['.'] + rest);
      assert '.' !in whole by {
        assert forall i :: 0 <= i < |whole| ==> whole[i] == body[i];
      }
      (whole, Some(rest))
    else (body, None)
  }

  /**
   * The whitespace `float()` ignores around a literal. It maps each non-ASCII
   * character `str.isspace()` accepts to a space and then strips only the ASCII
   * space, `\t`, `\n`, `\v`, `\f` and `\r`. So unlike `str.strip()` it keeps
   * U+001C..U+001F.
   */
  predicate FloatSpace(c: char)
  {
    if c < '\U{80}' then c == ' ' || '\t' <= c <= '\r' else IsSpace(c)
  }

  function FloatLStrip(s: string): (r: string)
    ensures r == [] || !FloatSpace(r[0])
    decreases |s|
  {
    if s == [] then []
    else if FloatSpace(s[0]) then FloatLStrip(s[1..])
    else s
  }

  function FloatRStrip(s: string): (r: string)
    ensures r == [] || (!FloatSpace(r[|r| - 1]) && |s| > 0 && r[0] == s[0])
    decreases |s|
  {
    if s == [] then []
    else if FloatSpace(s[|s| - 1]) then FloatRStrip(s[..|s| - 1])
    else s
  }

  /** The text `float()` reads: `s` without the `FloatSpace` around it. */
  function FloatStrip(s: string): (r: string)
    ensures r == [] || (!FloatSpace(r[0]) && !FloatSpace(r[|r| - 1]))
  {
    FloatRStrip(FloatLStrip(s))
  }

  /** Everything `float()` ignores, `str.strip()` strips too. */
  lemma FloatSpaceIsSpace(c: char)
    requires FloatSpace(c)
    ensures IsSpace(c)
  {
  }

  lemma FloatStripOfStripped(s: string)
    requires s == [] || (!FloatSpace(s[0]) && !FloatSpace(s[|s| - 1]))
    ensures FloatStrip(s) == s
  {
  }

  lemma {:induction false} FloatLStripChars(s: string, c: char)
    requires c !in s
    ensures c !in FloatLStrip(s)
    decreases |s|
  {
    if s != [] && FloatSpace(s[0]) {
      assert forall i :: 0 <= i < |s| - 1 ==> s[1..][i] == s[i + 1];
      FloatLStripChars(s[1..], c);
    }
  }

  lemma {:induction false} FloatRStripChars(s: string, c: char)
    requires c !in s
    ensures c !in FloatRStrip(s)
    decreases |s|
  {
    if s != [] && FloatSpace(s[|s| - 1]) {
      assert forall i :: 0 <= i < |s| - 1 ==> s[..|s| - 1][i] == s[i];
      FloatRStripChars(s[..|s| - 1], c);
    }
  }

  /** Stripping adds no character. */
  lemma FloatStripChars(s: string, c: char)
    requires c !in s
    ensures c !in FloatStrip(s)
  {
    FloatLStripChars(s, c);
    FloatRStripChars(FloatLStrip(s), c);
  }

  /** Reads a literal that makes up the whole of `t`. */
  function Parse(t: string): Option<Literal>
  {
    var (sign, body) := SplitSign(t);
    var (whole, fraction) := SplitPoint(body);
    var d := Literal(sign, whole, fraction);
    if d.Valid() then Some(d) else None
  }

  /** `float(s)` on the decimal subset; `None` where Python raises `ValueError`. */
  function ParseFloat(s: string): Option<real>
  {
    match Parse(FloatStrip(s))
    case Some(d) => Some(d.Value())
    case None => None
  }

  /**
   * `float("\x1c5")` raises `ValueError`: the information separator U+001C is
   * not stripped by `float()`, although `str.strip()` strips it.
   */
  lemma ParseFloatKeepsSeparator(s: string)
    requires s == "\U{1c}5"
    ensures ParseFloat(s) == None
    ensures Strip(s) == "5"
  {
    assert !FloatSpace(s[0]) && !FloatSpace(s[|s| - 1]);
    FloatStripOfStripped(s);
    ParseRejectsLead(s);
    SeparatorStrip(s[0], s[1..]);
    assert [s[0]] + s[1..] == s;
  }

  lemma SeparatorStrip(c: char, rest: string)
    requires c == '\U{1c}' && rest == "5"
    ensures Strip([c] + rest) == "5"
  {
    StripSpaceCons(c, rest);
    StripOfStripped(rest);
  }

  /** Text that starts with neither a digit, a sign nor a point is no literal. */
  lemma ParseRejectsLead(t: string)
    requires |t| > 0 && !IsDigit(t[0]) && t[0] != '.' && t[0] != '+' && t[0] != '-'
    ensures Parse(t) == None
  {
    ParseLead(t);
  }

  /** An accepted literal starts with a sign, a digit or a point. */
  lemma ParseLead(t: string)
    ensures Parse(t).Some? ==> |t| > 0 && (IsDigit(t[0]) || t[0] == '.' || t[0] == '+' || t[0] == '-')
  {
    ParseSound(t);
    if Parse(t).Some? {
      var d := Parse(t).value;
      LiteralLead(d);
    }
  }

  lemma LiteralLead(d: Literal)
    requires d.Valid()
    ensures |d.Text()| > 0
    ensures var c := d.Text()[0]; IsDigit(c) || c == '.' || c == '+' || c == '-'
  {
    var t := d.Text();
    var k := LiteralHasDigit(d);
    if d.sign == NoSign {
      if d.whole != [] {
        assert t[0] == d.whole[0];
      } else {
        assert t[0] == '.';
      }
    }
  }

  /** Whatever `Parse` accepts is a valid literal whose text is exactly the input. */
  lemma ParseSound(t: string)
    ensures Parse(t).Some? ==> Parse(t).value.Valid() && Parse(t).value.Text() == t
  {
    var (sign, body) := SplitSign(t);
    var (whole, fraction) := SplitPoint(body);
    assert SignText(sign) + whole + PointText(fraction) == t;
  }

  /** Every valid literal is read back from its text. */
  lemma ParseText(d: Literal)
    requires d.Valid()
    ensures Parse(d.Text()) == Some(d)
  {
    var rest := d.whole + PointText(d.fraction);
    assert d.Text() == SignText(d.sign) + rest;
    assert |rest| > 0 && (IsDigit(rest[0]) || rest[0] == '.');
    SignAt(d.sign, rest);
    assert '.' !in d.whole by {
      assert forall i :: 0 <= i < |d.whole| ==> IsDigit(d.whole[i]);
    }
    PointAt(d.whole, d.fraction);
  }

  lemma PointAt(whole: string, fraction: Option<string>)
    requires '.' !in whole
    ensures SplitPoint(whole + PointText(fraction)) == (whole, fraction)
  {
    var body := whole + PointText(fraction);
    IndexOfAt(whole, PointText(fraction), '.');
    if fraction.Some? {
      assert body[|whole| + 1..] == fraction.value;
    }
    assert body[..|whole|] == whole;
  }

  /** A valid literal has at least one digit. */
  lemma LiteralHasDigit(d: Literal) returns (k: nat)
    requires d.Valid()
    ensures k < |d.Text()| && IsDigit(d.Text()[k])
  {
    var t := d.Text();
    if |d.whole| > 0 {
      k := |SignText(d.sign)|;
      assert t[k] == d.whole[0];
    } else {
      k := |SignText(d.sign)| + 1;
      assert t[k] == d.fraction.value[0];
    }
  }

  /** `float()` accepts no text without a digit. */
  lemma ParseNeedsDigit(t: string)
    ensures Parse(t).Some? ==> exists k :: 0 <= k < |t| && IsDigit(t[k])
  {
    ParseSound(t);
    if Parse(t).Some? {
      var k := LiteralHasDigit(Parse(t).value);
    }
  }

  /** `float()` reads the text of a valid literal as its value. */
  lemma ParseFloatText(d: Literal)
    requires d.Valid()
    ensures ParseFloat(d.Text()) == Some(d.Value())
  {
    var t := d.Text();
    var k := LiteralHasDigit(d);
    assert !FloatSpace(t[0]) by {
      if d.sign == NoSign {
        if d.whole != [] {
          assert t[0] == d.whole[0];
        } else {
          assert t[0] == '.';
        }
      }
    }
    assert !FloatSpace(t[|t| - 1]) by {
      if d.fraction.Some? && d.fraction.value != [] {
        assert t[|t| - 1] == d.fraction.value[|d.fraction.value| - 1];
      } else if d.fraction.None? {
        assert t[|t| - 1] == d.whole[|d.whole| - 1];
      }
    }
    FloatStripOfStripped(t);
    ParseText(d);
  }

  /** A second decimal point makes `float()` refuse the text. */
  lemma ParseFloatTwoPoints(a: string, b: string, c: string)
    requires AllDigits(a) && AllDigits(b) && AllDigits(c)
    ensures ParseFloat(a + "." + b + "." + c) == None
  {
    var t := a + "." + b + "." + c;
    assert !FloatSpace(t[0]) by {
      if a != [] { assert t[0] == a[0]; }
    }
    assert !FloatSpace(t[|t| - 1]) by {
      if c != [] { assert t[|t| - 1] == c[|c| - 1]; }
    }
    FloatStripOfStripped(t);
    ParseTwoPoints(a, b, c);
  }

  lemma ParseTwoPoints(a: string, b: string, c: string)
    requires AllDigits(a) && AllDigits(b) && AllDigits(c)
    ensures Parse(a + "." + b + "." + c) == None
  {
    var t := a + "." + b + "." + c;
    var rest := b + "." + c;
    assert SplitSign(t) == (NoSign, t) by {
      if a != [] { assert t[0] == a[0]; } else { assert t[0] == '.'; }
    }
    assert SplitPoint(t) == (a, Some(rest)) by {
      assert t == a + PointText(Some(rest));
      assert '.' !in a by {
        assert forall i :: 0 <= i < |a| ==> IsDigit(a[i]);
      }
      PointAt(a, Some(rest));
    }
    assert !AllDigits(rest) by {
      assert rest[|b|] == '.';
    }
  }

  lemma SignAt(sign: Sign, rest: string)
    requires |rest| > 0 && rest[0] != '-' && rest[0] != '+'
    ensures SplitSign(SignText(sign) + rest) == (sign, rest)
  {
    var t := SignText(sign) + rest;
    match sign
    case NoSign =>
      assert t == rest;
    case Plus =>
      assert t[0] == '+' && t[1..] == rest;
    case Minus =>
      assert t[0] == '-' && t[1..] == rest;
  }

  /** `float(s)` succeeds with `v` exactly when, once stripped, `s` spells a valid literal of value `v`. */
  lemma ParseFloatIff(s: string, v: real)
    ensures ParseFloat(s) == Some(v) <==>
      exists d: Literal :: d.Valid() && d.Text() == FloatStrip(s) && d.Value() == v
  {
    ParseSound(FloatStrip(s));
    if d: Literal :| d.Valid() && d.Text() == FloatStrip(s) && d.Value() == v {
      ParseText(d);
    }
  }

  lemma {:induction false} NatToStringValue(n: nat)
    ensures AllDigits(NatToString(n)) && DigitsValue(NatToString(n)) == n
    decreases n
  {
    var s := NatToString(n);
    if n >= 10 {
      NatToStringValue(n / 10);
      assert s[..|s| - 1] == NatToString(n / 10);
    }
  }

  /** The literal `str(n)` spells. */
  function IntLiteral(n: int): (d: Literal)
    ensures d.Valid() && d.Text() == IntToString(n)
    ensures d.fraction.None? && d.whole == NatToString(if n < 0 then -n else n) && (d.sign == Minus <==> n < 0)
  {
    var m: nat := if n < 0 then -n else n;
    NatToStringValue(m);
    var d := Literal(if n < 0 then Minus else NoSign, NatToString(m), None);
    assert PointText(None) == "";
    assert d.Text() == SignText(d.sign) + NatToString(m);
    d
  }

  lemma IntLiteralValue(n: int)
    ensures IntLiteral(n).Value() == n as real
  {
    var d := IntLiteral(n);
    NatToStringValue(if n < 0 then -n else n);
    var v := DigitsValue(d.whole);
    if n < 0 {
      assert v == -n;
      assert d.Value() == -(v as real);
    } else {
      assert v == n;
      assert d.Value() == v as real;
    }
  }

  lemma StripIntToString(n: int)
    ensures FloatStrip(IntToString(n)) == IntToString(n)
  {
    var t := IntToString(n);
    assert t[0] == '-' || IsDigit(t[0]);
    assert IsDigit(t[|t| - 1]);
    FloatStripOfStripped(t);
  }

  /** `float(str(n)) == n` for every integer `n`. */
  lemma IntToStringParses(n: int)
    ensures ParseFloat(IntToString(n)) == Some(n as real)
  {
    var t := IntToString(n);
    var d := IntLiteral(n);
    assert Parse(FloatStrip(t)) == Some(d) by {
      StripIntToString(n);
      ParseText(d);
    }
    assert d.Value() == n as real by {
      IntLiteralValue(n);
    }
  }

  /** Different integers print differently. */
  lemma IntToStringInjective(a: int, b: int)
    requires IntToString(a) == IntToString(b)
    ensures a == b
  {
    IntToStringParses(a);
    IntToStringParses(b);
  }
}
