/** The decimal part of `strconv.ParseFloat(s, 64)`, on exact decimals.

    A decimal floating-point literal is an optional sign, a mantissa of
    digits with at most one decimal point and at least one digit, and an
    optional exponent: `e` or `E`, an optional sign and at least one digit.
    `ParseLiteral` reads such a literal back from its text, `Spell` writes it
    out, and the two are proved inverse. `ParseFloat` gives the literal's
    exact value as a normalised `Decimal`. */
module FloatSyntax {
  import opened Wrappers
  import opened Chars
  import opened Decimals

  datatype Sign = NoSign | Plus | Minus

  datatype Exponent = NoExponent | Exponent(marker: char, sign: Sign, digits: string)

  /** A decimal literal `[sign] intDigits [.] fracDigits [exponent]`. */
  datatype Literal = Literal(sign: Sign, intDigits: string, point: bool, fracDigits: string, exponent: Exponent)

  function SignText(s: Sign): string {
    match s
    case NoSign => ""
    case Plus => "+"
    case Minus => "-"
  }

  function ExponentText(x: Exponent): string {
    match x
    case NoExponent => ""
    case Exponent(m, sg, ds) => [m] + SignText(sg) + ds
  }

  /** The text of a literal. */
  function Spell(l: Literal): string {
    SignText(l.sign) + l.intDigits + (if l.point then "." else "") + l.fracDigits + ExponentText(l.exponent)
  }

  predicate WellFormedExponent(x: Exponent) {
    x.Exponent? ==> (x.marker == 'e' || x.marker == 'E') && |x.digits| >= 1 && AllDigits(x.digits)
  }

  /** The literals `ParseFloat` accepts: digits only in the digit parts, at
      least one mantissa digit, fraction digits only after a point. */
  predicate WellFormed(l: Literal) {
    && AllDigits(l.intDigits)
    && AllDigits(l.fracDigits)
    && |l.intDigits| + |l.fracDigits| >= 1
    && (!l.point ==> l.fracDigits == "")
    && WellFormedExponent(l.exponent)
  }

  /** The index of the first character of `s` in `cs`, or `|s|`. */
  function FirstIndexIn(s: string, cs: set<char>): (r: nat)
    ensures r <= |s|
    ensures forall k :: 0 <= k < r ==> s[k] !in cs
    ensures r < |s| ==> s[r] in cs
  {
    if s == [] || s[0] in cs then 0 else 1 + FirstIndexIn(s[1..], cs)
  }

  /** An optional leading sign. */
  function SplitSign(s: string): (Sign, string) {
    if |s| > 0 && s[0] == '+' then (Plus, s[1..])
    else if |s| > 0 && s[0] == '-' then (Minus, s[1..])
    else (NoSign, s)
  }

  /** The exponent part: empty, or a marker, a sign and digits. */
  function ParseExponent(x: string): Option<Exponent> {
    if x == [] then Some(NoExponent)
    else
      var (sg, ds) := SplitSign(x[1..]);
      if |ds| >= 1 && AllDigits(ds) then Some(Exponent(x[0], sg, ds)) else None
  }

  /** Reads a decimal literal: the sign, then the mantissa up to the first
      `e` or `E`, then the exponent. */
  function ParseLiteral(s: string): Option<Literal> {
    var (sign, body) := SplitSign(s);
    var e := FirstIndexIn(body, {'e', 'E'});
    ParseParts(sign, body[..e], body[e..])
  }

  /** Splits the mantissa at its first point and reads the exponent. */
  function ParseParts(sign: Sign, mant: string, exp: string): Option<Literal> {
    var d := FirstIndexIn(mant, {'.'});
    var point := d < |mant|;
    var ip := mant[..d];
    var fp := if point then mant[d + 1..] else "";
    match ParseExponent(exp)
    case None => None
    case Some(x) =>
      if AllDigits(ip) && AllDigits(fp) && |ip| + |fp| >= 1 then Some(Literal(sign, ip, point, fp, x))
      else None
  }

  /** What `ParseLiteral` reads is a well-formed literal whose text is the
      text it was read from. */
  lemma ParseLiteralSpells(s: string)
    ensures ParseLiteral(s).Some? ==> WellFormed(ParseLiteral(s).value) && Spell(ParseLiteral(s).value) == s
  {
    var (sign, body) := SplitSign(s);
    var e := FirstIndexIn(body, {'e', 'E'});
    var mant := body[..e];
    var d := FirstIndexIn(mant, {'.'});
    var xo := ParseExponent(body[e..]);
    if xo.Some? {
      SpellParts(s, sign, body, e, mant, d, xo.value);
    }
  }

  lemma SpellParts(s: string, sign: Sign, body: string, e: nat, mant: string, d: nat, x: Exponent)
    requires (sign, body) == SplitSign(s)
    requires e <= |body| && (e < |body| ==> body[e] == 'e' || body[e] == 'E') && mant == body[..e]
    requires d <= |mant| && (d < |mant| ==> mant[d] == '.')
    requires ParseExponent(body[e..]) == Some(x)
    ensures WellFormedExponent(x)
    ensures ExponentText(x) == body[e..]
    ensures s == SignText(sign) + mant[..d] + (if d < |mant| then "." else "")
                 + (if d < |mant| then mant[d + 1..] else "") + ExponentText(x)
  {
    ExponentReadBack(body[e..], x);
    MantissaSplit(mant, d);
    SignReadBack(s);
    assert body == mant + body[e..];
    Regroup(s, SignText(sign), body, mant, mant[..d], if d < |mant| then "." else "",
            if d < |mant| then mant[d + 1..] else "", body[e..]);
  }

  lemma Regroup(s: string, a: string, body: string, mant: string, b: string, c: string, d: string, t: string)
    requires s == a + body && body == mant + t && mant == b + c + d
    ensures s == a + b + c + d + t
  {
  }

  lemma SignReadBack(s: string)
    ensures s == SignText(SplitSign(s).0) + SplitSign(s).1
  {
    if |s| > 0 && (s[0] == '+' || s[0] == '-') {
      assert s == [s[0]] + s[1..];
    }
  }

  lemma MantissaSplit(mant: string, d: nat)
    requires d <= |mant| && (d < |mant| ==> mant[d] == '.')
    ensures mant == mant[..d] + (if d < |mant| then "." else "") + (if d < |mant| then mant[d + 1..] else "")
  {
    if d < |mant| {
      assert mant == mant[..d] + [mant[d]] + mant[d + 1..];
    } else {
      assert mant == mant[..d];
    }
  }

  /** The exponent's text is what it was read from. */
  lemma ExponentReadBack(t: string, x: Exponent)
    requires t == [] || t[0] == 'e' || t[0] == 'E'
    requires ParseExponent(t) == Some(x)
    ensures WellFormedExponent(x) && ExponentText(x) == t
  {
    if t != [] {
      var r := t[1..];
      var sd := SplitSign(r);
      assert x == Exponent(t[0], sd.0, sd.1);
      SignReadBack(r);
      assert ExponentText(x) == [t[0]] + (SignText(sd.0) + sd.1);
      assert t == [t[0]] + r;
    }
  }

  /** A well-formed exponent is read back from its text. */
  lemma ExponentParses(x: Exponent)
    requires WellFormedExponent(x)
    ensures ParseExponent(ExponentText(x)) == Some(x)
  {
    if x.Exponent? {
      var t := ExponentText(x);
      assert t[1..] == SignText(x.sign) + x.digits;
      SplitSignOf(x.sign, x.digits);
    }
  }

  /** Every well-formed literal is read back from its own text. */
  lemma SpellParses(l: Literal)
    requires WellFormed(l)
    ensures ParseLiteral(Spell(l)) == Some(l)
  {
    var dot: string := if l.point then "." else "";
    var mant := l.intDigits + dot + l.fracDigits;
    var tail := ExponentText(l.exponent);
    var body := mant + tail;
    assert Spell(l) == SignText(l.sign) + body;
    BodySplits(l.intDigits, dot, l.fracDigits, tail);
    SplitSignOf(l.sign, body);
    // The first point of the mantissa is the literal's point.
    FirstPointAt(l.intDigits, dot, l.fracDigits);
    MantissaParts(l.intDigits, dot, l.fracDigits);
    ExponentParses(l.exponent);
  }

  /** The first `e` or `E` of a literal's body is where its exponent starts. */
  lemma BodySplits(ip: string, dot: string, fp: string, tail: string)
    requires AllDigits(ip) && AllDigits(fp) && (dot == "" || dot == ".") && |ip| + |fp| >= 1
    requires tail == [] || tail[0] == 'e' || tail[0] == 'E'
    ensures var mant, body := ip + dot + fp, ip + dot + fp + tail;
      && body[0] != '+' && body[0] != '-'
      && FirstIndexIn(body, {'e', 'E'}) == |mant|
      && body[..|mant|] == mant && body[|mant|..] == tail
  {
    var mant := ip + dot + fp;
    var body := mant + tail;
    MantissaStart(ip, dot, fp);
    assert body[0] == mant[0];
    MantissaChars(ip, dot, fp);
    assert forall k :: 0 <= k < |mant| ==> body[k] == mant[k];
    NoMarkerBefore(body, |mant|);
    assert body[..|mant|] == mant && body[|mant|..] == tail;
  }

  lemma MantissaStart(ip: string, dot: string, fp: string)
    requires AllDigits(ip) && AllDigits(fp) && (dot == "" || dot == ".") && |ip| + |fp| >= 1
    ensures var m := ip + dot + fp; |m| > 0 && (IsDigit(m[0]) || m[0] == '.')
  {
    var m := ip + dot + fp;
    if |ip| > 0 {
      assert m[0] == ip[0];
    } else if dot == "." {
      assert m[0] == '.';
    } else {
      assert m[0] == fp[0];
    }
  }

  lemma MantissaChars(ip: string, dot: string, fp: string)
    requires AllDigits(ip) && AllDigits(fp) && (dot == "" || dot == ".")
    ensures var m := ip + dot + fp; forall k :: 0 <= k < |m| ==> IsDigit(m[k]) || m[k] == '.'
  {
    var m := ip + dot + fp;
    forall k | 0 <= k < |m| ensures IsDigit(m[k]) || m[k] == '.' {
      if k < |ip| {
        assert m[k] == ip[k];
      } else if k < |ip| + |dot| {
        assert m[k] == dot[k - |ip|];
      } else {
        assert m[k] == fp[k - |ip| - |dot|];
      }
    }
  }

  lemma MantissaParts(ip: string, dot: string, fp: string)
    requires dot == "" || dot == "."
    ensures var m := ip + dot + fp; m[..|ip|] == ip && (dot == "." ==> m[|ip| + 1..] == fp)
  {
  }

  lemma SplitSignOf(sign: Sign, body: string)
    requires |body| > 0 && body[0] != '+' && body[0] != '-'
    ensures SplitSign(SignText(sign) + body) == (sign, body)
  {
    var s := SignText(sign) + body;
    if sign != NoSign {
      assert s[0] == SignText(sign)[0];
      assert s[1..] == body;
    } else {
      assert s == body;
    }
  }

  lemma NoMarkerBefore(body: string, n: nat)
    requires n <= |body|
    requires forall k :: 0 <= k < n ==> IsDigit(body[k]) || body[k] == '.'
    requires n < |body| ==> body[n] == 'e' || body[n] == 'E'
    ensures FirstIndexIn(body, {'e', 'E'}) == n
  {
  }

  lemma FirstPointAt(ip: string, dot: string, fp: string)
    requires AllDigits(ip) && AllDigits(fp) && (dot == "" || dot == ".")
    ensures FirstIndexIn(ip + dot + fp, {'.'}) == |ip| + (if dot == "" then |fp| else 0)
  {
    var m := ip + dot + fp;
    var r := FirstIndexIn(m, {'.'});
    var n := |ip| + (if dot == "" then |fp| else 0);
    assert forall k :: 0 <= k < n ==> IsDigit(m[k]) by {
      forall k | 0 <= k < n ensures IsDigit(m[k]) {
        if k < |ip| {
          assert m[k] == ip[k];
        } else {
          assert m[k] == fp[k - |ip|];
        }
      }
    }
    if dot == "." {
      assert m[|ip|] == '.';
    }
  }

  /** The value of a digit string. */
  function DigitsValue(ds: string): nat
  {
    if ds == [] then 0 else 10 * DigitsValue(ds[..|ds| - 1]) + DigitValue(ds[|ds| - 1])
  }

  /** Appending digits shifts the value of the digits before them. */
  lemma {:induction false} DigitsValueAppend(a: string, b: string)
    ensures DigitsValue(a + b) == DigitsValue(a) * Pow10(|b|) + DigitsValue(b)
    decreases |b|
  {
    if b != [] {
      var b' := b[..|b| - 1];
      var last := DigitValue(b[|b| - 1]);
      assert (a + b)[..|a + b| - 1] == a + b';
      assert (a + b)[|a + b| - 1] == b[|b| - 1];
      DigitsValueAppend(a, b');
      var va, p := DigitsValue(a), Pow10(|b'|);
      calc {
        DigitsValue(a + b);
        10 * DigitsValue(a + b') + last;
        10 * (va * p + DigitsValue(b')) + last;
        { MulTenInt(va, p); }
        va * (10 * p) + (10 * DigitsValue(b') + last);
        va * Pow10(|b|) + DigitsValue(b);
      }
    } else {
      assert a + b == a;
    }
  }

  /** One more digit at the end. */
  lemma DigitsValueSnoc(ds: string, c: char)
    ensures DigitsValue(ds + [c]) == 10 * DigitsValue(ds) + DigitValue(c)
  {
    assert (ds + [c])[..|ds|] == ds;
  }

  lemma MulTenInt(x: int, y: int)
    ensures 10 * (x * y) == x * (10 * y)
  {
  }

  /** Leading zeros do not change the value. */
  lemma LeadingZero(ds: string)
    ensures DigitsValue("0" + ds) == DigitsValue(ds)
  {
    DigitsValueAppend("0", ds);
    assert DigitsValue("0") == 10 * DigitsValue("") + 0;
  }

  /** `n` with the literal's sign applied. */
  function Signed(s: Sign, n: int): int {
    if s == Minus then -n else n
  }

  function ExponentValue(x: Exponent): int
  {
    if x.NoExponent? then 0 else Signed(x.sign, DigitsValue(x.digits))
  }

  /** The exact decimal a well-formed literal denotes, normalised: all its
      mantissa digits as one integer, scaled by the exponent less the number
      of fraction digits. */
  function ToDecimal(l: Literal): Decimal
  {
    Normalize(Signed(l.sign, DigitsValue(l.intDigits + l.fracDigits)), ExponentValue(l.exponent) - |l.fracDigits|)
  }

  /** Normalising keeps the value of the literal's digits, scaled by ten to
      the exponent less the number of fraction digits. */
  lemma ToDecimalValue(l: Literal)
    ensures Value(ToDecimal(l)) == Value(Decimal(Signed(l.sign, DigitsValue(l.intDigits + l.fracDigits)),
                                                 ExponentValue(l.exponent) - |l.fracDigits|))
  {
    NormalizeKeepsValue(Signed(l.sign, DigitsValue(l.intDigits + l.fracDigits)), ExponentValue(l.exponent) - |l.fracDigits|);
  }

  /** The digit character for `v`. */
  function DigitChar(v: nat): (c: char)
    requires v < 10
    ensures IsDigit(c) && DigitValue(c) == v
  {
    ('0' as int + v) as char
  }

  /** The decimal digits of `n`, most significant first. */
  function NatDigits(n: nat): (r: string)
    ensures |r| >= 1 && AllDigits(r)
    decreases n
  {
    if n < 10 then [DigitChar(n)] else NatDigits(n / 10) + [DigitChar(n % 10)]
  }

  /** The digits of `n` have the value `n`. */
  lemma {:induction false} NatDigitsValue(n: nat)
    ensures DigitsValue(NatDigits(n)) == n
    decreases n
  {
    var r := NatDigits(n);
    if n < 10 {
      assert r[..0] == [];
    } else {
      assert r[..|r| - 1] == NatDigits(n / 10);
      NatDigitsValue(n / 10);
    }
  }

  function Abs(n: int): nat {
    if n < 0 then -n else n
  }

  function SignOf(n: int): Sign {
    if n < 0 then Minus else NoSign
  }

  /** A literal for a decimal: its mantissa's digits, then its exponent
      when that is not zero. */
  function Format(d: Decimal): (l: Literal)
    ensures WellFormed(l) && !l.point
  {
    Literal(SignOf(d.mantissa), NatDigits(Abs(d.mantissa)), false, "",
            if d.exponent == 0 then NoExponent else Exponent('e', SignOf(d.exponent), NatDigits(Abs(d.exponent))))
  }

  /** A normalised decimal is what its own literal denotes. */
  lemma FormatToDecimal(d: Decimal)
    requires Normalized(d)
    ensures ToDecimal(Format(d)) == d
  {
    var l := Format(d);
    NatDigitsValue(Abs(d.mantissa));
    if d.exponent != 0 {
      NatDigitsValue(Abs(d.exponent));
    }
    assert l.intDigits + l.fracDigits == l.intDigits;
    assert Signed(l.sign, DigitsValue(l.intDigits)) == d.mantissa;
    assert ExponentValue(l.exponent) == d.exponent;
    NormalizeNormalized(d);
  }

  /** `strconv.ParseFloat(s, 64)` on exact decimals: the normalised value of
      the literal `s` spells, or `None` when `s` is not a decimal literal. */
  function ParseFloat(s: string): (r: Option<Decimal>)
    ensures r.Some? <==> ParseLiteral(s).Some?
    ensures r.Some? ==> Normalized(r.value)
  {
    match ParseLiteral(s)
    case None => None
    case Some(l) => Some(ToDecimal(l))
  }

  /** Every normalised decimal is parsed back, exactly, from the text of its
      literal: the parse loses nothing and reaches every normalised value. */
  lemma FormatParses(d: Decimal)
    requires Normalized(d)
    ensures ParseFloat(Spell(Format(d))) == Some(d)
  {
    SpellParses(Format(d));
    FormatToDecimal(d);
  }

  lemma FirstIndexAfter(c: char, t: string, cs: set<char>)
    requires c !in cs
    ensures FirstIndexIn([c] + t, cs) == 1 + FirstIndexIn(t, cs)
  {
    assert ([c] + t)[1..] == t;
  }

  /** A `0` written before a leading point: when the text parses, so does the
      prefixed text, with `0` as its integer digits; when only the prefixed
      text parses, its digits are the `0` alone. */
  lemma ZeroBeforePoint(t: string)
    requires |t| > 0 && t[0] == '.'
    ensures ParseLiteral(t).Some? ==> ParseLiteral(t).value.intDigits == ""
                                      && ParseLiteral("0" + t) == Some(ParseLiteral(t).value.(intDigits := "0"))
    ensures ParseLiteral(t).None? && ParseLiteral("0" + t).Some? ==>
              ParseLiteral("0" + t).value.intDigits + ParseLiteral("0" + t).value.fracDigits == "0"
  {
    var u := "0" + t;
    assert u == ['0'] + t;
    assert SplitSign(u) == (NoSign, u);
    assert SplitSign(t) == (NoSign, t);
    var e := FirstIndexIn(t, {'e', 'E'});
    FirstIndexAfter('0', t, {'e', 'E'});
    assert u[..e + 1] == "0" + t[..e];
    assert u[e + 1..] == t[e..];
    ZeroBeforePointParts(t[..e], t[e..]);
  }

  lemma ZeroBeforePointParts(mant: string, exp: string)
    requires |mant| > 0 && mant[0] == '.'
    ensures ParseParts(NoSign, mant, exp).Some? ==>
              ParseParts(NoSign, mant, exp).value.intDigits == ""
              && ParseParts(NoSign, "0" + mant, exp) == Some(ParseParts(NoSign, mant, exp).value.(intDigits := "0"))
    ensures ParseParts(NoSign, mant, exp).None? && ParseParts(NoSign, "0" + mant, exp).Some? ==>
              ParseParts(NoSign, "0" + mant, exp).value.intDigits + ParseParts(NoSign, "0" + mant, exp).value.fracDigits == "0"
  {
    var m' := "0" + mant;
    assert m' == ['0'] + mant;
    assert FirstIndexIn(mant, {'.'}) == 0;
    FirstIndexAfter('0', mant, {'.'});
    assert mant[..0] == "" && m'[..1] == "0";
    assert m'[2..] == mant[1..];
  }

  /** Writing `0` before a leading point does not change the parsed value,
      except that `.` with no digits after it, which does not parse, becomes
      zero. */
  lemma ZeroBeforePointValue(t: string)
    requires |t| > 0 && t[0] == '.'
    ensures ParseFloat(t).Some? ==> ParseFloat("0" + t) == ParseFloat(t)
    ensures ParseFloat(t).None? && ParseFloat("0" + t).Some? ==> ParseFloat("0" + t).value == Zero
  {
    ZeroBeforePoint(t);
    if ParseLiteral(t).Some? {
      ZeroIntDigits(ParseLiteral(t).value);
    } else if ParseLiteral("0" + t).Some? {
      ZeroDigits(ParseLiteral("0" + t).value);
    }
  }

  lemma ZeroIntDigits(l: Literal)
    requires l.intDigits == ""
    ensures ToDecimal(l.(intDigits := "0")) == ToDecimal(l)
  {
    var l' := l.(intDigits := "0");
    LeadingZero(l.fracDigits);
    assert l.intDigits + l.fracDigits == l.fracDigits;
    assert l'.intDigits + l'.fracDigits == "0" + l.fracDigits;
    var n := Signed(l.sign, DigitsValue(l.fracDigits));
    assert Signed(l'.sign, DigitsValue(l'.intDigits + l'.fracDigits)) == n;
    assert Signed(l.sign, DigitsValue(l.intDigits + l.fracDigits)) == n;
  }

  lemma ZeroDigits(l: Literal)
    requires l.intDigits + l.fracDigits == "0"
    ensures ToDecimal(l) == Zero
  {
    assert DigitsValue("0") == 0 by {
      assert "0"[..0] == [];
    }
  }

  predicate DigitsAndPoints(t: string) {
    forall i :: 0 <= i < |t| ==> IsDigit(t[i]) || t[i] == '.'
  }

  /** A text of digits and points that ends in a digit parses exactly when it
      has at most one point. */
  lemma DigitsAndPointsParse(t: string)
    requires DigitsAndPoints(t) && |t| > 0 && IsDigit(t[|t| - 1])
    ensures ParseFloat(t).Some? <==> multiset(t)['.'] <= 1
  {
    PlainParse(t);
    var d := FirstIndexIn(t, {'.'});
    PointCount(t, d);
    if d < |t| {
      PointsAfter(t, d + 1);
      FractionPoints(t[d + 1..]);
    }
  }

  /** What `ParseLiteral` reads from such a text, split at its first point. */
  lemma PlainParse(t: string)
    requires DigitsAndPoints(t) && |t| > 0 && IsDigit(t[|t| - 1])
    ensures var d := FirstIndexIn(t, {'.'});
      ParseLiteral(t) == if d == |t| then Some(Literal(NoSign, t, false, "", NoExponent))
                         else if AllDigits(t[d + 1..]) then Some(Literal(NoSign, t[..d], true, t[d + 1..], NoExponent))
                         else None
  {
    PlainBody(t);
    PlainIntDigits(t);
    PlainLiteral(t, FirstIndexIn(t, {'.'}));
  }

  lemma PlainBody(t: string)
    requires DigitsAndPoints(t) && |t| > 0
    ensures SplitSign(t) == (NoSign, t) && FirstIndexIn(t, {'e', 'E'}) == |t|
  {
    NoMarkerBefore(t, |t|);
  }

  lemma PlainIntDigits(t: string)
    requires DigitsAndPoints(t) && |t| > 0 && IsDigit(t[|t| - 1])
    ensures var d := FirstIndexIn(t, {'.'}); AllDigits(t[..d]) && (d < |t| ==> d < |t| - 1)
  {
  }

  lemma PlainLiteral(t: string, d: nat)
    requires |t| > 0 && SplitSign(t) == (NoSign, t) && FirstIndexIn(t, {'e', 'E'}) == |t|
    requires d == FirstIndexIn(t, {'.'})
    requires AllDigits(t[..d]) && (d < |t| ==> d < |t| - 1)
    ensures ParseLiteral(t) == if d == |t| then Some(Literal(NoSign, t, false, "", NoExponent))
                               else if AllDigits(t[d + 1..]) then Some(Literal(NoSign, t[..d], true, t[d + 1..], NoExponent))
                               else None
  {
    assert t[..|t|] == t;
    assert FirstIndexIn(t[..|t|], {'.'}) == d;
    assert ParseExponent(t[|t|..]) == Some(NoExponent);
    if d < |t| {
      assert |t[..d]| + |t[d + 1..]| >= 1;
    }
  }

  /** The points of a text are its first one and those after it. */
  lemma PointCount(t: string, d: nat)
    requires d == FirstIndexIn(t, {'.'})
    ensures d == |t| ==> multiset(t)['.'] == 0
    ensures d < |t| ==> multiset(t)['.'] == 1 + multiset(t[d + 1..])['.']
  {
    if d < |t| {
      assert t == t[..d] + [t[d]] + t[d + 1..];
      assert '.' !in t[..d];
    } else {
      assert '.' !in t;
    }
  }

  lemma PointsAfter(t: string, k: nat)
    requires DigitsAndPoints(t) && k <= |t|
    ensures DigitsAndPoints(t[k..])
  {
  }

  /** Digits and points are all digits exactly when there is no point. */
  lemma FractionPoints(fp: string)
    requires DigitsAndPoints(fp)
    ensures AllDigits(fp) <==> multiset(fp)['.'] == 0
  {
    if !AllDigits(fp) {
      var k :| 0 <= k < |fp| && !IsDigit(fp[k]);
      assert '.' in fp;
    }
  }
}
