/** The rate extractor of `GetCurrencies` in currency.go: the payload is
    scanned for matches of `(\w+):(\d*\.*\d+)`, each number token becomes a
    rate through `parseCurrencyRate`, rates equal to zero are dropped, and
    the rest are written into a map keyed by the code, a later entry
    overwriting an earlier one. */
module Currency {
  import opened Wrappers
  import opened Chars
  import opened Decimals
  import opened FloatSyntax
  import opened Pattern

  /** The error `GetCurrencies` returns when the payload has no match. */
  const NoCurrenciesFound := "no currencies found"

  /** `strings.HasPrefix(rate, ".")`. */
  predicate StartsWithPoint(rate: string) {
    |rate| > 0 && rate[0] == '.'
  }

  /** The parsed value, or zero when the text does not parse. */
  function ValueOrZero(o: Option<Decimal>): Decimal {
    match o
    case None => Zero
    case Some(v) => v
  }

  /** `parseCurrencyRate`: a token with a leading point gets a `0` in front,
      then it is parsed, and a failed parse gives zero. The `0` never changes
      the outcome: the rate is the value of the token itself, or zero when
      the token does not parse. */
  function ParseCurrencyRate(rate: string): (r: Decimal)
    ensures Normalized(r)
    ensures r == ValueOrZero(ParseFloat(rate))
  {
    var rate' := if StartsWithPoint(rate) then "0" + rate else rate;
    if StartsWithPoint(rate) then ZeroBeforePointValue(rate); ValueOrZero(ParseFloat(rate'))
    else ValueOrZero(ParseFloat(rate'))
  }

  /** A number token the pattern admits: digits and points, ending in a
      digit. */
  predicate IsToken(t: string) {
    DigitsAndPoints(t) && |t| > 0 && IsDigit(t[|t| - 1])
  }

  /** A token's rate is never negative, and it is zero whenever the token
      has two points or more. */
  lemma TokenRate(t: string)
    requires IsToken(t)
    ensures ParseCurrencyRate(t).mantissa >= 0
    ensures multiset(t)['.'] >= 2 ==> ParseCurrencyRate(t) == Zero
  {
    PlainParse(t);
    DigitsAndPointsParse(t);
  }

  /** What the loop reads from one match: its code and its rate. */
  datatype Entry = Entry(code: string, rate: Decimal)

  /** The entries of the matches, in order. */
  function Entries(ms: seq<Submatch>): (es: seq<Entry>)
    ensures |es| == |ms|
    ensures forall i :: 0 <= i < |ms| ==> es[i] == Entry(ms[i].code, ParseCurrencyRate(ms[i].number))
  {
    seq(|ms|, i requires 0 <= i < |ms| => Entry(ms[i].code, ParseCurrencyRate(ms[i].number)))
  }

  /** An entry is kept when its rate is not zero: `currRate == 0` is false. */
  predicate Live(e: Entry) {
    e.rate != Zero
  }

  /** Since rates are normalised, an entry is kept exactly when the value of
      its rate is not zero. */
  lemma LiveIffValueNonZero(e: Entry)
    requires Normalized(e.rate)
    ensures Live(e) <==> Value(e.rate) != 0.0
  {
    ZeroIffValueZero(e.rate);
  }

  /** The map the loop has built after the entries `es`: each kept entry
      writes its rate under its code. */
  function Table(es: seq<Entry>): (table: map<string, Decimal>)
    ensures forall k :: k in table ==> table[k] != Zero
    decreases |es|
  {
    if es == [] then map[]
    else
      var e := es[|es| - 1];
      if Live(e) then Table(es[..|es| - 1])[e.code := e.rate] else Table(es[..|es| - 1])
  }

  /** Entry `i` is the last entry with code `k` that is kept. */
  ghost predicate LastLive(es: seq<Entry>, k: string, i: int) {
    && 0 <= i < |es| && es[i].code == k && Live(es[i])
    && forall j :: i < j < |es| && es[j].code == k ==> !Live(es[j])
  }

  /** A code is in the map exactly when some entry with that code is kept,
      and its value is the rate of the last such entry. */
  lemma {:induction false} TableIsLastLive(es: seq<Entry>, k: string)
    ensures k in Table(es) <==> exists i :: 0 <= i < |es| && es[i].code == k && Live(es[i])
    ensures k in Table(es) ==> exists i :: LastLive(es, k, i) && Table(es)[k] == es[i].rate
    decreases |es|
  {
    if es != [] {
      var n := |es| - 1;
      var init, e := es[..n], es[n];
      TableIsLastLive(init, k);
      assert forall i :: 0 <= i < n ==> init[i] == es[i];
      if e.code == k && Live(e) {
        assert LastLive(es, k, n);
      } else {
        assert (k in Table(es)) == (k in Table(init));
        assert k in Table(es) ==> Table(es)[k] == Table(init)[k];
        if k in Table(es) {
          var i :| LastLive(init, k, i) && Table(init)[k] == init[i].rate;
          assert LastLive(es, k, i);
        }
      }
    }
  }

  /** The extraction of `GetCurrencies` on the fetched payload `data`. */
  method ExtractCurrencies(data: string) returns (r: Result<map<string, Decimal>, string>)
    ensures r.Failure? <==> FindAllStringSubmatch(data) == []
    ensures r.Failure? <==> NoMatchIn(data, 0, |data|)
    ensures r.Failure? ==> r.error == NoCurrenciesFound
    ensures r.Success? ==> r.value == Table(Entries(FindAllStringSubmatch(data)))
  {
    NoMatchesIffNoneMatchable(data);
    var matchedCurr := FindAllStringSubmatch(data);
    if |matchedCurr| < 1 {
      return Failure(NoCurrenciesFound);
    }
    ghost var es := Entries(matchedCurr);
    var currencies: map<string, Decimal> := map[];
    for i := 0 to |matchedCurr|
      invariant currencies == Table(es[..i])
    {
      var match_ := matchedCurr[i];
      assert es[..i + 1][..i] == es[..i];
      var currRate := ParseCurrencyRate(match_.number);
      assert es[i] == Entry(match_.code, currRate);
      if currRate == Zero {
        continue;
      }
      currencies := currencies[match_.code := currRate];
    }
    assert es[..|es|] == es;
    return Success(currencies);
  }

  /** The map is empty exactly when no entry is kept. */
  lemma TableEmptyIffNoneLive(es: seq<Entry>)
    ensures Table(es) == map[] <==> forall i :: 0 <= i < |es| ==> !Live(es[i])
  {
    if i :| 0 <= i < |es| && Live(es[i]) {
      TableIsLastLive(es, es[i].code);
    } else if Table(es) != map[] {
      var k :| k in Table(es);
      TableIsLastLive(es, k);
    }
  }

  /** Every rate in the extracted map is strictly positive, and it is the
      rate of the last match with that code whose rate is not zero. */
  lemma ExtractedRates(data: string, k: string)
    requires k in Table(Entries(FindAllStringSubmatch(data)))
    ensures var ms := FindAllStringSubmatch(data);
      exists i :: && LastLive(Entries(ms), k, i)
                  && Table(Entries(ms))[k] == ParseCurrencyRate(ms[i].number)
                  && Value(Table(Entries(ms))[k]) > 0.0
  {
    var ms := FindAllStringSubmatch(data);
    var es := Entries(ms);
    TableIsLastLive(es, k);
    var i :| LastLive(es, k, i) && Table(es)[k] == es[i].rate;
    FoundIsMatch(data, i);
    KeptRateIsPositive(data, ms[i]);
  }

  lemma FoundIsMatch(data: string, i: nat)
    requires i < |FindAllStringSubmatch(data)|
    ensures IsMatch(data, FindAllStringSubmatch(data)[i])
  {
    FindAllIsLeftmostFirst(data);
    LeftmostFirstElements(data, 0, FindAllStringSubmatch(data), i);
  }

  /** The rate of a match is zero or strictly positive: its token has no
      sign. */
  lemma KeptRateIsPositive(data: string, m: Submatch)
    requires IsMatch(data, m) && ParseCurrencyRate(m.number) != Zero
    ensures Value(ParseCurrencyRate(m.number)) > 0.0
  {
    MatchNumberShape(data, m);
    TokenRate(m.number);
    PositiveValue(ParseCurrencyRate(m.number));
  }

  /** The rate of `ip.fp`: all its digits as one integer, over ten to the
      number of fraction digits, normalised. */
  lemma RateOfFixed(ip: string, fp: string)
    requires AllDigits(ip) && AllDigits(fp) && |ip| + |fp| >= 1
    ensures ParseCurrencyRate(ip + "." + fp) == Normalize(DigitsValue(ip + fp), -|fp|)
  {
    var l := Literal(NoSign, ip, true, fp, NoExponent);
    assert Spell(l) == ip + "." + fp;
    SpellParses(l);
  }

  /** The token `1.15998`, given character by character, gives 1.15998. */
  lemma RateOfDecimal(t: string)
    requires |t| == 7 && t[0] == '1' && t[1] == '.' && t[2] == '1' && t[3] == '5'
    requires t[4] == '9' && t[5] == '9' && t[6] == '8'
    ensures ParseCurrencyRate(t) == Decimal(115998, -5)
  {
    var ip, fp := t[..1], t[2..];
    assert t == ip + "." + fp;
    RateOfFixed(ip, fp);
    var s := ip + fp;
    SixDigits(s);
    assert s[0] == '1' && s[1] == '1' && s[2] == '5' && s[3] == '9' && s[4] == '9' && s[5] == '8';
    assert DigitsValue(s) == 115998;
  }

  /** The token `.808357`, given character by character, gives 0.808357:
      the leading point is read as `0.`. */
  lemma RateUnderOne(t: string)
    requires |t| == 7 && t[0] == '.' && t[1] == '8' && t[2] == '0' && t[3] == '8'
    requires t[4] == '3' && t[5] == '5' && t[6] == '7'
    ensures ParseCurrencyRate(t) == Decimal(808357, -6)
  {
    var ip, fp := t[..0], t[1..];
    assert t == ip + "." + fp;
    RateOfFixed(ip, fp);
    var s := ip + fp;
    assert s == fp;
    SixDigits(s);
    assert DigitsValue(s) == 808357;
  }

  /** `"F"` gives zero. */
  lemma RateOfInvalidInput()
    ensures ParseCurrencyRate("F") == Zero
  {
    assert FirstIndexIn("F", {'e', 'E'}) == 1;
    assert !AllDigits("F");
  }

  /** `"1..5"`, which the pattern admits, gives zero. */
  lemma RateOfTwoPoints()
    ensures ParseCurrencyRate("1..5") == Zero
  {
    var t := "1..5";
    assert multiset(t)['.'] == 2 by {
      assert t == ['1'] + ['.'] + ['.'] + ['5'];
    }
    TokenRate(t);
  }

  /** The value of six digits, written out place by place. */
  lemma SixDigits(s: string)
    requires |s| == 6
    ensures DigitsValue(s) == ((((DigitValue(s[0]) * 10 + DigitValue(s[1])) * 10 + DigitValue(s[2])) * 10
                                + DigitValue(s[3])) * 10 + DigitValue(s[4])) * 10 + DigitValue(s[5])
  {
    DigitsValueSnoc(s[..0], s[0]);
    assert s[..0] + [s[0]] == s[..1];
    DigitsValueSnoc(s[..1], s[1]);
    assert s[..1] + [s[1]] == s[..2];
    DigitsValueSnoc(s[..2], s[2]);
    assert s[..2] + [s[2]] == s[..3];
    DigitsValueSnoc(s[..3], s[3]);
    assert s[..3] + [s[3]] == s[..4];
    DigitsValueSnoc(s[..4], s[4]);
    assert s[..4] + [s[4]] == s[..5];
    DigitsValueSnoc(s[..5], s[5]);
    assert s[..5] + [s[5]] == s;
  }
}
