/** The rate pattern `(\w+):(\d*\.*\d+)` of currency.go and the search for all
    its non-overlapping matches (`FindAllStringSubmatch(text, -1)`).

    Go's `regexp` reports, from a given position, the match that starts
    leftmost, and among the matches starting there the first one a
    backtracking engine finds. For a concatenation of greedy quantifiers over
    single characters, backtracking tries the quantifier lengths in
    lexicographically decreasing order, so the reported match is the
    lexicographically greatest choice of lengths. `IsParse` and `Preferred`
    below state that reference semantics; `ChoiceAt` is a hand-written scanner
    proved to compute exactly the preferred choice. */
module Pattern {
  import opened Wrappers
  import opened Chars

  /** The three character classes the pattern uses. */
  datatype Class = Word | Digit | Dot

  predicate InClass(c: char, k: Class) {
    match k
    case Word => IsWordChar(c)
    case Digit => IsDigit(c)
    case Dot => c == '.'
  }

  /** Every character of `t[lo..hi]` is in class `k`. */
  ghost predicate AllIn(t: string, lo: int, hi: int, k: Class) {
    0 <= lo <= hi <= |t| && forall i :: lo <= i < hi ==> InClass(t[i], k)
  }

  /** The length of the maximal run of class-`k` characters starting at `i`. */
  function RunLength(t: string, i: nat, k: Class): (n: nat)
    requires i <= |t|
    ensures AllIn(t, i, i + n, k)
    ensures i + n == |t| || !InClass(t[i + n], k)
    decreases |t| - i
  {
    if i < |t| && InClass(t[i], k) then 1 + RunLength(t, i + 1, k) else 0
  }

  /** No run of class `k` at `i` is longer than the maximal one. */
  lemma RunIsMaximal(t: string, i: nat, m: nat, k: Class)
    requires i <= |t| && AllIn(t, i, i + m, k)
    ensures m <= RunLength(t, i, k)
  {
  }

  /** The lengths chosen for the four quantifiers of the pattern: `\w+`, `\d*`,
      `\.*` and `\d+`. */
  datatype Choice = Choice(code: nat, intDigits: nat, dots: nat, fracDigits: nat)
  {
    /** Length of the number group. */
    function NumberLength(): nat {
      intDigits + dots + fracDigits
    }
  }

  /** Reference semantics of the number group `\d*\.*\d+` at `p` with
      quantifier lengths `b`, `c` and `d`. */
  ghost predicate NumberParse(t: string, p: nat, b: nat, c: nat, d: nat) {
    && d >= 1
    && AllIn(t, p, p + b, Digit)
    && AllIn(t, p + b, p + b + c, Dot)
    && AllIn(t, p + b + c, p + b + c + d, Digit)
  }

  /** Reference semantics: the pattern matches `t` from `s` with the
      quantifier lengths `q`. */
  ghost predicate IsParse(t: string, s: nat, q: Choice) {
    && q.code >= 1
    && AllIn(t, s, s + q.code, Word)
    && s + q.code < |t|
    && t[s + q.code] == ':'
    && NumberParse(t, s + q.code + 1, q.intDigits, q.dots, q.fracDigits)
  }

  /** The order in which a backtracking engine tries choices for the number
      group: a choice tried earlier is greater. */
  predicate NumberLe(b: nat, c: nat, d: nat, b': nat, c': nat, d': nat) {
    || b < b'
    || (b == b' && c < c')
    || (b == b' && c == c' && d <= d')
  }

  /** The order in which a backtracking engine tries choices: a choice tried
      earlier is greater. Longer runs for earlier quantifiers come first. */
  predicate LexLe(a: Choice, b: Choice) {
    || a.code < b.code
    || (a.code == b.code && NumberLe(a.intDigits, a.dots, a.fracDigits, b.intDigits, b.dots, b.fracDigits))
  }

  /** The choice leftmost-first semantics reports at `s`: the first parse a
      backtracking engine finds. */
  ghost predicate Preferred(t: string, s: nat, q: Choice) {
    IsParse(t, s, q) && forall q' :: IsParse(t, s, q') ==> LexLe(q', q)
  }

  /** Some match of the pattern starts at `s`. */
  ghost predicate Matchable(t: string, s: nat) {
    exists q :: IsParse(t, s, q)
  }

  /** The scanner for the number group at `p`: the maximal digit run D1,
      then the maximal dot run K, then the maximal digit run D2. The token is
      D1 K D2 when K and D2 are non-empty; otherwise it is D1, whose last
      digit then serves as `\d+`. */
  function NumberAt(t: string, p: nat): (r: Option<(nat, nat, nat)>)
    requires p <= |t|
    ensures r.Some? ==> p + r.value.0 + r.value.1 + r.value.2 <= |t|
  {
    var d1 := RunLength(t, p, Digit);
    var k := RunLength(t, p + d1, Dot);
    var d2 := RunLength(t, p + d1 + k, Digit);
    if k > 0 && d2 > 0 then Some((d1, k, d2))
    else if d1 > 0 then Some((d1 - 1, 0, 1))
    else None
  }

  /** What the number scanner reports is a parse of the number group. */
  lemma NumberAtIsParse(t: string, p: nat)
    requires p <= |t| && NumberAt(t, p).Some?
    ensures NumberParse(t, p, NumberAt(t, p).value.0, NumberAt(t, p).value.1, NumberAt(t, p).value.2)
  {
  }

  /** The characters a parse of the number group pins down: the first digit
      of `\d+`, the first dot, and the second digit of `\d+`. */
  lemma NumberParseFacts(t: string, p: nat, b: nat, c: nat, d: nat)
    requires NumberParse(t, p, b, c, d)
    ensures p + b + c < |t| && IsDigit(t[p + b + c])
    ensures c > 0 ==> t[p + b] == '.'
    ensures d > 1 ==> IsDigit(t[p + b + c + 1])
  {
    assert InClass(t[p + b + c], Digit);
    if c > 0 {
      assert InClass(t[p + b], Dot);
    }
    if d > 1 {
      assert InClass(t[p + b + c + 1], Digit);
    }
  }

  /** Every parse of the number group at `p` is found by the number scanner,
      and none is preferred to the scanner's. */
  lemma NumberAtIsGreatest(t: string, p: nat, b: nat, c: nat, d: nat)
    requires p <= |t| && NumberParse(t, p, b, c, d)
    ensures NumberAt(t, p).Some?
    ensures var (b', c', d') := NumberAt(t, p).value; NumberLe(b, c, d, b', c', d')
  {
    var d1 := RunLength(t, p, Digit);
    var k := RunLength(t, p + d1, Dot);
    NumberParseFacts(t, p, b, c, d);
    RunIsMaximal(t, p, b, Digit);
    if b == d1 {
      // `\d+` needs a digit, so `\.*` takes the whole dot run, which is then
      // followed by a digit.
      RunIsMaximal(t, p + d1, c, Dot);
      if c == k {
        RunIsMaximal(t, p + d1 + k, d, Digit);
      }
    }
  }

  /** The scanner for a whole match at `s`: the maximal word run, a colon,
      then a number. */
  function ChoiceAt(t: string, s: nat): (r: Option<Choice>)
    requires s <= |t|
    ensures r.Some? ==> s + r.value.code + 1 + r.value.NumberLength() <= |t|
  {
    var w := RunLength(t, s, Word);
    if w == 0 || s + w == |t| || t[s + w] != ':' then None
    else
      match NumberAt(t, s + w + 1)
      case None => None
      case Some((b, c, d)) => Some(Choice(w, b, c, d))
  }

  /** A parse's code group is the maximal word run at its start: a shorter
      run would be followed by a word character, not by the colon. */
  lemma CodeIsMaximalRun(t: string, s: nat, q: Choice)
    requires s <= |t| && IsParse(t, s, q)
    ensures q.code == RunLength(t, s, Word)
  {
    RunIsMaximal(t, s, q.code, Word);
  }

  /** What the scanner reports is a parse. */
  lemma ChoiceAtIsParse(t: string, s: nat)
    requires s <= |t| && ChoiceAt(t, s).Some?
    ensures IsParse(t, s, ChoiceAt(t, s).value)
  {
    NumberAtIsParse(t, s + RunLength(t, s, Word) + 1);
  }

  /** Every parse at `s` is found by the scanner, and none is preferred to
      the scanner's. */
  lemma ChoiceAtIsGreatest(t: string, s: nat, q: Choice)
    requires s <= |t| && IsParse(t, s, q)
    ensures ChoiceAt(t, s).Some? && LexLe(q, ChoiceAt(t, s).value)
  {
    CodeIsMaximalRun(t, s, q);
    var w := q.code;
    assert w != 0 && s + w < |t| && t[s + w] == ':';
    var p := s + w + 1;
    NumberAtIsGreatest(t, p, q.intDigits, q.dots, q.fracDigits);
    var n := NumberAt(t, p).value;
    ChoiceAtOf(t, s, w, n);
  }

  /** The scanner's choice from its three parts. */
  lemma ChoiceAtOf(t: string, s: nat, w: nat, n: (nat, nat, nat))
    requires s <= |t| && RunLength(t, s, Word) == w && w != 0 && s + w < |t| && t[s + w] == ':'
    requires NumberAt(t, s + w + 1) == Some(n)
    ensures ChoiceAt(t, s) == Some(Choice(w, n.0, n.1, n.2))
  {
  }

  /** The scanner computes exactly the leftmost-first choice at `s`, and it
      reports nothing exactly when the pattern cannot match at `s`. */
  lemma ChoiceAtIsPreferred(t: string, s: nat)
    requires s <= |t|
    ensures ChoiceAt(t, s).Some? ==> Preferred(t, s, ChoiceAt(t, s).value)
    ensures ChoiceAt(t, s).Some? <==> Matchable(t, s)
  {
    if ChoiceAt(t, s).Some? {
      ChoiceAtIsParse(t, s);
      forall q' | IsParse(t, s, q') ensures LexLe(q', ChoiceAt(t, s).value) {
        ChoiceAtIsGreatest(t, s, q');
      }
    } else if Matchable(t, s) {
      var q :| IsParse(t, s, q);
      ChoiceAtIsGreatest(t, s, q);
    }
  }

  /** A preferred choice is unique. */
  lemma PreferredIsUnique(t: string, s: nat, q1: Choice, q2: Choice)
    requires Preferred(t, s, q1) && Preferred(t, s, q2)
    ensures q1 == q2
  {
  }

  /** One element of `FindAllStringSubmatch`'s result: the whole match
      `t[start..end]` and its two groups, the code and the number. */
  datatype Submatch = Submatch(start: nat, end: nat, code: string, number: string)

  /** The submatch for choice `q` at `s`. */
  function Groups(t: string, s: nat, q: Choice): (m: Submatch)
    requires s + q.code + 1 + q.NumberLength() <= |t|
  {
    var p := s + q.code + 1;
    Submatch(s, p + q.NumberLength(), t[s..s + q.code], t[p..p + q.NumberLength()])
  }

  /** `m` is what the scanner reports at `m.start`. */
  ghost predicate IsScanned(t: string, m: Submatch) {
    && m.start <= |t|
    && ChoiceAt(t, m.start).Some?
    && m == Groups(t, m.start, ChoiceAt(t, m.start).value)
  }

  /** The scanner reports nothing at any position of `[lo, hi)`. */
  ghost predicate NoneScanned(t: string, lo: nat, hi: nat) {
    hi <= |t| && forall s: nat :: lo <= s < hi ==> ChoiceAt(t, s).None?
  }

  /** `ms` is the list of successive non-overlapping matches the scanner
      finds in `t` from `pos`: the first is reported at the first position
      from `pos` where the scanner reports anything, and the rest are found
      from its end; the list is empty when nothing is reported from `pos`
      on. */
  ghost predicate ScanFrom(t: string, pos: nat, ms: seq<Submatch>)
    decreases |ms|
  {
    if ms == [] then pos <= |t| && NoneScanned(t, pos, |t|)
    else
      && IsScanned(t, ms[0])
      && pos <= ms[0].start
      && NoneScanned(t, pos, ms[0].start)
      && ScanFrom(t, ms[0].end, ms[1..])
  }

  /** All matches from `pos`, scanning left to right and resuming at the end
      of each match. */
  function FindAllFrom(t: string, pos: nat): seq<Submatch>
    requires pos <= |t|
    decreases |t| - pos
  {
    if pos == |t| then []
    else
      match ChoiceAt(t, pos)
      case Some(q) =>
        var m := Groups(t, pos, q);
        [m] + FindAllFrom(t, m.end)
      case None =>
        FindAllFrom(t, pos + 1)
  }

  /** `FindAllFrom` lists what the scanner reports, match after match. */
  lemma {:induction false} FindAllFromScans(t: string, pos: nat)
    requires pos <= |t|
    ensures ScanFrom(t, pos, FindAllFrom(t, pos))
    decreases |t| - pos
  {
    if pos < |t| {
      var r := ChoiceAt(t, pos);
      if r.Some? {
        var m := Groups(t, pos, r.value);
        var rest := FindAllFrom(t, m.end);
        assert FindAllFrom(t, pos) == [m] + rest;
        FindAllFromScans(t, m.end);
        ScanFromCons(t, m, rest);
      } else {
        var rest := FindAllFrom(t, pos + 1);
        assert FindAllFrom(t, pos) == rest;
        FindAllFromScans(t, pos + 1);
        ScanFromSkip(t, pos, rest);
      }
    }
  }

  lemma ScanFromCons(t: string, m: Submatch, rest: seq<Submatch>)
    requires IsScanned(t, m) && ScanFrom(t, m.end, rest)
    ensures ScanFrom(t, m.start, [m] + rest)
  {
    var ms := [m] + rest;
    assert ms[0] == m && ms[1..] == rest;
  }

  lemma ScanFromSkip(t: string, pos: nat, ms: seq<Submatch>)
    requires pos < |t| && ChoiceAt(t, pos).None? && ScanFrom(t, pos + 1, ms)
    ensures ScanFrom(t, pos, ms)
  {
    if ms == [] {
      NoneScannedBefore(t, pos, |t|);
    } else {
      NoneScannedBefore(t, pos, ms[0].start);
    }
  }

  lemma NoneScannedBefore(t: string, pos: nat, hi: nat)
    requires pos < |t| && ChoiceAt(t, pos).None? && NoneScanned(t, pos + 1, hi)
    ensures NoneScanned(t, pos, hi)
  {
    forall s: nat | pos <= s < hi ensures ChoiceAt(t, s).None? {
      if s != pos {
        assert pos + 1 <= s < hi;
      }
    }
  }

  /** `reCurr.FindAllStringSubmatch(text, -1)`. */
  function FindAllStringSubmatch(text: string): seq<Submatch>
  {
    FindAllFrom(text, 0)
  }

  /** `m` is the match leftmost-first semantics reports at `m.start`. */
  ghost predicate IsMatch(t: string, m: Submatch) {
    exists q :: Preferred(t, m.start, q) && m == Groups(t, m.start, q)
  }

  /** No match of the pattern starts in `[lo, hi)`. */
  ghost predicate NoMatchIn(t: string, lo: nat, hi: nat) {
    forall s: nat :: lo <= s < hi ==> !Matchable(t, s)
  }

  /** `ms` is the list of successive non-overlapping leftmost-first matches in
      `t` from `pos`, as the reference semantics defines them: the first
      match starts at the first position from `pos` where the pattern
      matches and is the match preferred there, and the rest are the matches
      from its end; the list is empty when the pattern matches nowhere from
      `pos` on. */
  ghost predicate LeftmostFirst(t: string, pos: nat, ms: seq<Submatch>)
    decreases |ms|
  {
    if ms == [] then pos <= |t| && NoMatchIn(t, pos, |t|)
    else
      && IsMatch(t, ms[0])
      && pos <= ms[0].start
      && NoMatchIn(t, pos, ms[0].start)
      && LeftmostFirst(t, ms[0].end, ms[1..])
  }

  lemma ScannedIsMatch(t: string, m: Submatch)
    requires IsScanned(t, m)
    ensures IsMatch(t, m)
  {
    ChoiceAtIsPreferred(t, m.start);
  }

  lemma NoneScannedIsNoMatch(t: string, lo: nat, hi: nat)
    requires NoneScanned(t, lo, hi)
    ensures NoMatchIn(t, lo, hi)
  {
    forall s: nat | lo <= s < hi ensures !Matchable(t, s) {
      ChoiceAtIsPreferred(t, s);
    }
  }

  lemma {:induction false} ScanFromIsLeftmostFirst(t: string, pos: nat, ms: seq<Submatch>)
    requires ScanFrom(t, pos, ms)
    ensures LeftmostFirst(t, pos, ms)
    decreases |ms|
  {
    if ms == [] {
      NoneScannedIsNoMatch(t, pos, |t|);
    } else {
      ScannedIsMatch(t, ms[0]);
      NoneScannedIsNoMatch(t, pos, ms[0].start);
      ScanFromIsLeftmostFirst(t, ms[0].end, ms[1..]);
    }
  }

  /** The scanner follows leftmost-first semantics: the matches it finds are
      those of the reference semantics. */
  lemma FindAllIsLeftmostFirst(text: string)
    ensures LeftmostFirst(text, 0, FindAllStringSubmatch(text))
  {
    FindAllFromScans(text, 0);
    ScanFromIsLeftmostFirst(text, 0, FindAllStringSubmatch(text));
  }

  /** The quantifier lengths behind a match. */
  lemma MatchChoice(t: string, m: Submatch) returns (q: Choice)
    requires IsMatch(t, m)
    ensures IsParse(t, m.start, q) && m == Groups(t, m.start, q)
  {
    q :| Preferred(t, m.start, q) && m == Groups(t, m.start, q);
  }

  /** A match lies within the text and is non-empty; its code group is a
      non-empty run of word characters directly followed by the colon. */
  lemma MatchCodeShape(t: string, m: Submatch)
    requires IsMatch(t, m)
    ensures m.start < m.end <= |t|
    ensures |m.code| >= 1 && m.code == t[m.start..m.start + |m.code|]
    ensures t[m.start + |m.code|] == ':'
    ensures forall i :: 0 <= i < |m.code| ==> IsWordChar(m.code[i])
  {
    var q := MatchChoice(t, m);
    NumberParseFacts(t, m.start + q.code + 1, q.intDigits, q.dots, q.fracDigits);
    forall i | 0 <= i < |m.code| ensures IsWordChar(m.code[i]) {
      assert InClass(t[m.start + i], Word);
    }
  }

  /** A match's number group directly follows the colon, consists of digits
      and dots, and ends in a digit. */
  lemma MatchNumberShape(t: string, m: Submatch)
    requires IsMatch(t, m)
    ensures m.start + |m.code| + 1 <= m.end <= |t|
    ensures m.number == t[m.start + |m.code| + 1..m.end]
    ensures |m.number| >= 1 && IsDigit(m.number[|m.number| - 1])
    ensures forall i :: 0 <= i < |m.number| ==> IsDigit(m.number[i]) || m.number[i] == '.'
  {
    var q := MatchChoice(t, m);
    var p := m.start + q.code + 1;
    var n := q.NumberLength();
    assert InClass(t[p + n - 1], Digit);
    forall i | 0 <= i < n ensures IsDigit(m.number[i]) || m.number[i] == '.' {
      assert m.number[i] == t[p + i];
      if i < q.intDigits {
        assert InClass(t[p + i], Digit);
      } else if i < q.intDigits + q.dots {
        assert InClass(t[p + i], Dot);
      } else {
        assert InClass(t[p + i], Digit);
      }
    }
  }

  /** A code group starts where its search began or right after a non-word
      character: if a word character preceded it, the pattern would already
      have matched one position earlier. */
  lemma CodeStartsAtBoundary(t: string, pos: nat, ms: seq<Submatch>)
    requires LeftmostFirst(t, pos, ms) && ms != []
    ensures ms[0].start == pos || !IsWordChar(t[ms[0].start - 1])
  {
    var m := ms[0];
    if m.start > pos && IsWordChar(t[m.start - 1]) {
      var q := MatchChoice(t, m);
      WordBefore(t, m.start - 1, q);
      assert Matchable(t, m.start - 1);
    }
  }

  /** A parse at `s + 1` preceded by a word character extends to a parse
      at `s` with a longer code group. */
  lemma WordBefore(t: string, s: nat, q: Choice)
    requires s < |t| && IsWordChar(t[s]) && IsParse(t, s + 1, q)
    ensures IsParse(t, s, q.(code := q.code + 1))
  {
    forall i | s <= i < s + 1 + q.code ensures InClass(t[i], Word) {
      if i > s {
        assert InClass(t[i], Word);
      }
    }
  }

  /** The leftmost-first match list from a position is unique, so the scanner
      computes the only list the reference semantics admits. */
  lemma {:induction false} LeftmostFirstIsUnique(t: string, pos: nat, ms1: seq<Submatch>, ms2: seq<Submatch>)
    requires LeftmostFirst(t, pos, ms1) && LeftmostFirst(t, pos, ms2)
    ensures ms1 == ms2
    decreases |ms1|
  {
    if ms1 == [] && ms2 == [] {
    } else if ms1 == [] {
      var q := MatchChoice(t, ms2[0]);
      assert Matchable(t, ms2[0].start);
    } else if ms2 == [] {
      var q := MatchChoice(t, ms1[0]);
      assert Matchable(t, ms1[0].start);
    } else {
      FirstMatchesAgree(t, pos, ms1, ms2);
      LeftmostFirstIsUnique(t, ms1[0].end, ms1[1..], ms2[1..]);
      assert ms1 == [ms1[0]] + ms1[1..];
      assert ms2 == [ms2[0]] + ms2[1..];
    }
  }

  /** Two leftmost-first lists from the same position begin with the same
      match: the first match starts at the first matchable position, and the
      match reported there is unique. */
  lemma FirstMatchesAgree(t: string, pos: nat, ms1: seq<Submatch>, ms2: seq<Submatch>)
    requires LeftmostFirst(t, pos, ms1) && LeftmostFirst(t, pos, ms2)
    requires ms1 != [] && ms2 != []
    ensures ms1[0] == ms2[0]
  {
    var m1, m2 := ms1[0], ms2[0];
    var q1 :| Preferred(t, m1.start, q1) && m1 == Groups(t, m1.start, q1);
    var q2 :| Preferred(t, m2.start, q2) && m2 == Groups(t, m2.start, q2);
    assert Matchable(t, m1.start) && Matchable(t, m2.start);
    assert m1.start == m2.start;
    PreferredIsUnique(t, m1.start, q1, q2);
  }

  /** Every element of a leftmost-first list is a match, the matches lie at
      or after the search start, and each ends at or before the next one
      starts: they are taken left to right and do not overlap. */
  lemma {:induction false} LeftmostFirstElements(t: string, pos: nat, ms: seq<Submatch>, i: nat)
    requires LeftmostFirst(t, pos, ms) && i < |ms|
    ensures IsMatch(t, ms[i]) && pos <= ms[i].start
    ensures i + 1 < |ms| ==> ms[i].end <= ms[i + 1].start
    decreases i
  {
    var rest := ms[1..];
    if i > 0 {
      MatchCodeShape(t, ms[0]);
      LeftmostFirstElements(t, ms[0].end, rest, i - 1);
      assert rest[i - 1] == ms[i];
      if i + 1 < |ms| {
        assert rest[i] == ms[i + 1];
      }
    } else if 1 < |ms| {
      assert LeftmostFirst(t, ms[0].end, rest);
      assert rest[0] == ms[1];
    }
  }

  /** The scanner finds no match exactly when the pattern matches nowhere in
      the text. */
  lemma NoMatchesIffNoneMatchable(text: string)
    ensures FindAllStringSubmatch(text) == [] <==> NoMatchIn(text, 0, |text|)
  {
    FindAllIsLeftmostFirst(text);
    var ms := FindAllStringSubmatch(text);
    if ms != [] {
      var q := MatchChoice(text, ms[0]);
      assert Matchable(text, ms[0].start);
    }
  }
}
