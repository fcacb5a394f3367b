/**
 * The backend's `convert_to_grams` (Backend/app.py): find every
 * `<number><spaces><unit>` occurrence in the lower-cased ingredient text,
 * convert each to grams with a fixed density table, and total them.
 */
module GramConversion {
  import opened Wrappers
  import opened Seqs
  import opened Decimal
  import opened PyText

  /** The units the pattern names. */
  datatype Unit = Cup | Cups | Tbsp | Tablespoon | Tablespoons | Tsp | Teaspoon | Teaspoons

  /** How each unit is written, in the pattern and in the emitted entry. */
  function Spelling(u: Unit): (w: string)
    ensures |w| >= 1 && 'a' <= w[0] <= 'z'
  {
    match u
    case Cup => "cup"
    case Cups => "cups"
    case Tbsp => "tbsp"
    case Tablespoon => "tablespoon"
    case Tablespoons => "tablespoons"
    case Tsp => "tsp"
    case Teaspoon => "teaspoon"
    case Teaspoons => "teaspoons"
  }

  /** Grams per unit (`density_conversion`). */
  const DensityConversion: map<string, nat> := map[
    "cup" := 240, "cups" := 240,
    "tbsp" := 15, "tablespoon" := 15, "tablespoons" := 15,
    "tsp" := 5, "teaspoon" := 5, "teaspoons" := 5]

  /**
   * `density_conversion[unit]` for a captured unit: every unit the pattern
   * can capture is a key of the table, so the lookup never fails.
   */
  function Density(u: Unit): (d: nat)
    ensures u in {Cup, Cups} ==> d == 240
    ensures u in {Tbsp, Tablespoon, Tablespoons} ==> d == 15
    ensures u in {Tsp, Teaspoon, Teaspoons} ==> d == 5
  {
    DensityConversion[Spelling(u)]
  }

  /** The position of each unit in the alternation `cup|cups|tbsp|...`, the order the matcher tries them. */
  function Rank(u: Unit): (r: nat)
    ensures r < 8
  {
    match u
    case Cup => 0
    case Cups => 1
    case Tbsp => 2
    case Tablespoon => 3
    case Tablespoons => 4
    case Tsp => 5
    case Teaspoon => 6
    case Teaspoons => 7
  }

  /** The text at `q` begins with `w`. */
  predicate StartsWithAt(s: string, q: nat, w: string)
    decreases |w|
  {
    w == [] || (q < |s| && s[q] == w[0] && StartsWithAt(s, q + 1, w[1..]))
  }

  /** A word that begins at `q` ends within the text. */
  lemma {:induction false} StartsWithAtBound(s: string, q: nat, w: string)
    requires q <= |s|
    ensures StartsWithAt(s, q, w) ==> q + |w| <= |s|
    decreases |w|
  {
    if w != [] && q < |s| {
      StartsWithAtBound(s, q + 1, w[1..]);
    }
  }

  /** Where a word begins at `q`, so does each of its prefixes. */
  lemma {:induction false} StartsWithAtPrefix(s: string, q: nat, w: string, v: string)
    requires |v| <= |w| && w[..|v|] == v
    ensures StartsWithAt(s, q, w) ==> StartsWithAt(s, q, v)
    decreases |v|
  {
    if v != [] {
      assert w[1..][..|v| - 1] == v[1..];
      StartsWithAtPrefix(s, q + 1, w[1..], v[1..]);
    }
  }

  /** Whether alternative `u` of the unit group fits the text at `q`. */
  predicate Fits(s: string, q: nat, u: Unit) {
    StartsWithAt(s, q, Spelling(u))
  }

  /** Alternative `u` fits at `q` and no alternative tried before it does. */
  predicate FirstFit(s: string, q: nat, u: Unit) {
    Fits(s, q, u) && forall v :: Rank(v) < Rank(u) ==> !Fits(s, q, v)
  }

  /** The unit group at `q`: the alternatives tried in order, the first that fits wins. */
  function UnitAt(s: string, q: nat): Option<Unit> {
    if Fits(s, q, Cup) then Some(Cup)
    else if Fits(s, q, Cups) then Some(Cups)
    else if Fits(s, q, Tbsp) then Some(Tbsp)
    else if Fits(s, q, Tablespoon) then Some(Tablespoon)
    else if Fits(s, q, Tablespoons) then Some(Tablespoons)
    else if Fits(s, q, Tsp) then Some(Tsp)
    else if Fits(s, q, Teaspoon) then Some(Teaspoon)
    else if Fits(s, q, Teaspoons) then Some(Teaspoons)
    else None
  }

  /** The unit group picks the first alternative that fits, and fails only where none does. */
  lemma UnitAtSpec(s: string, q: nat)
    ensures UnitAt(s, q).Some? ==> FirstFit(s, q, UnitAt(s, q).value)
    ensures UnitAt(s, q).None? ==> forall u :: !Fits(s, q, u)
  {
  }

  /** Where `u` is the first alternative that fits, the unit group picks `u`. */
  lemma UnitAtComplete(s: string, q: nat, u: Unit)
    requires FirstFit(s, q, u)
    ensures UnitAt(s, q) == Some(u)
  {
    UnitAtSpec(s, q);
    var v := UnitAt(s, q).value;
    assert Rank(v) < Rank(u) || Rank(u) < Rank(v) || u == v;
  }

  /** Every character of `s` from `i` up to `j` is whitespace. */
  predicate SpacesIn(s: string, i: nat, j: nat)
    requires i <= j <= |s|
  {
    forall k :: i <= k < j ==> IsPySpace(s[k])
  }

  /** The end of the longest run of whitespace starting at `i` (`\s*`). */
  function SpaceRunEnd(s: string, i: nat): (j: nat)
    requires i <= |s|
    ensures i <= j <= |s| && SpacesIn(s, i, j)
    ensures j < |s| ==> !IsPySpace(s[j])
    decreases |s| - i
  {
    if i < |s| && IsPySpace(s[i]) then SpaceRunEnd(s, i + 1) else i
  }

  lemma {:induction false} SpaceRunEndAt(s: string, i: nat, j: nat)
    requires i <= j <= |s| && SpacesIn(s, i, j)
    requires j < |s| ==> !IsPySpace(s[j])
    ensures SpaceRunEnd(s, i) == j
    decreases j - i
  {
    if i < j {
      SpaceRunEndAt(s, i + 1, j);
    }
  }

  /** One occurrence found by `re.findall`: where it starts, the captured amount and unit, where it ends. */
  datatype Match = Match(start: nat, amount: Numeral, unit: Unit, end: nat)

  /**
   * The pattern `(\d+(?:\.\d+)?)\s*(cup|cups|...)` at position `p`, as a
   * backtracking matcher finds it: the greedy numeral, the greedy
   * whitespace, then the first alternative that fits.
   */
  function MatchAt(s: string, p: nat): Option<Match>
    requires p <= |s|
  {
    var e := NumeralEnd(s, p);
    if e == p then None
    else
      var q := SpaceRunEnd(s, e);
      match UnitAt(s, q)
      case None => None
      case Some(u) => Some(Match(p, NumeralAt(s, p), u, q + |Spelling(u)|))
  }

  /**
   * The declarative reading of the pattern at `p`: a numeral spans `p..e`
   * (its whole part ending at `d`), whitespace fills `e..q`, and `u` is the
   * first alternative of the unit group that fits at `q`.
   */
  predicate PatternAt(s: string, p: nat, d: nat, e: nat, q: nat, u: Unit) {
    NumeralSpan(s, p, d, e) && e <= q <= |s| && SpacesIn(s, e, q) && FirstFit(s, q, u)
  }

  /** The match an instance of the pattern describes. */
  function PatternMatch(s: string, p: nat, d: nat, e: nat, q: nat, u: Unit): Match
    requires PatternAt(s, p, d, e, q, u)
  {
    Match(p, NumeralOf(s, p, d, e), u, q + |Spelling(u)|)
  }

  /** A match at `p` starts there, ends after it within the text, and holds a well-formed amount. */
  lemma MatchAtBounds(s: string, p: nat)
    requires p <= |s|
    ensures MatchAt(s, p).Some? ==>
              var m := MatchAt(s, p).value;
              m.start == p < m.end <= |s| && ValidNumeral(m.amount)
  {
    NumeralEndSound(s, p);
    var e := NumeralEnd(s, p);
    if e > p {
      NumeralOfText(s, p, DigitRunEnd(s, p), e);
      var q := SpaceRunEnd(s, e);
      UnitAtSpec(s, q);
      if UnitAt(s, q).Some? {
        StartsWithAtBound(s, q, Spelling(UnitAt(s, q).value));
      }
    }
  }

  /** What the matcher finds is an instance of the pattern. */
  lemma MatchAtSound(s: string, p: nat)
    requires p <= |s|
    ensures MatchAt(s, p).Some? ==>
              exists d: nat, e: nat, q: nat, u: Unit ::
                PatternAt(s, p, d, e, q, u) && MatchAt(s, p) == Some(PatternMatch(s, p, d, e, q, u))
  {
    NumeralEndSound(s, p);
    var d, e := DigitRunEnd(s, p), NumeralEnd(s, p);
    if e > p {
      var q := SpaceRunEnd(s, e);
      UnitAtSpec(s, q);
      if UnitAt(s, q).Some? {
        var u := UnitAt(s, q).value;
        assert PatternAt(s, p, d, e, q, u);
        assert MatchAt(s, p) == Some(PatternMatch(s, p, d, e, q, u));
      }
    }
  }

  /** Where alternative `u` fits, the text at `q` begins with a lower-case letter. */
  lemma FitsLetter(s: string, q: nat, u: Unit)
    requires Fits(s, q, u)
    ensures q < |s| && 'a' <= s[q] <= 'z'
  {
  }

  /** In an instance of the pattern the numeral is followed by whitespace or a letter. */
  lemma PatternNumeralFollower(s: string, p: nat, d: nat, e: nat, q: nat, u: Unit)
    requires PatternAt(s, p, d, e, q, u)
    ensures e < |s| && !IsDigit(s[e]) && s[e] != '.'
  {
    FitsLetter(s, q, u);
    if e < q {
      assert IsPySpace(s[e]);
    }
  }

  /** The greedy steps of the matcher stop exactly where an instance of the pattern puts its parts. */
  lemma PatternLandmarks(s: string, p: nat, d: nat, e: nat, q: nat, u: Unit)
    requires PatternAt(s, p, d, e, q, u)
    ensures DigitRunEnd(s, p) == d && NumeralEnd(s, p) == e
    ensures SpaceRunEnd(s, e) == q && UnitAt(s, q) == Some(u)
  {
    PatternNumeralFollower(s, p, d, e, q, u);
    NumeralEndComplete(s, p, d, e);
    SpaceRunEndAt(s, e, q);
    UnitAtComplete(s, q, u);
  }

  /** Every instance of the pattern at `p` is what the matcher finds there: the match is unique. */
  lemma MatchAtComplete(s: string, p: nat, d: nat, e: nat, q: nat, u: Unit)
    requires PatternAt(s, p, d, e, q, u)
    ensures MatchAt(s, p) == Some(PatternMatch(s, p, d, e, q, u))
  {
    PatternLandmarks(s, p, d, e, q, u);
    MatchAtSteps(s, p, e, q, u);
    assert NumeralAt(s, p) == NumeralOf(s, p, d, e);
  }

  /** The matcher's result once its greedy steps are known. */
  lemma MatchAtSteps(s: string, p: nat, e: nat, q: nat, u: Unit)
    requires p < e <= |s| && NumeralEnd(s, p) == e && SpaceRunEnd(s, e) == q && UnitAt(s, q) == Some(u)
    ensures MatchAt(s, p) == Some(Match(p, NumeralAt(s, p), u, q + |Spelling(u)|))
  {
  }

  /** A text where a plural fits also fits the singular, which the alternation tries first. */
  lemma PluralFitsSingular(s: string, q: nat)
    ensures Fits(s, q, Cups) ==> Fits(s, q, Cup)
    ensures Fits(s, q, Tablespoons) ==> Fits(s, q, Tablespoon)
    ensures Fits(s, q, Teaspoons) ==> Fits(s, q, Teaspoon)
  {
    StartsWithAtPrefix(s, q, "cups", "cup");
    StartsWithAtPrefix(s, q, "tablespoons", "tablespoon");
    StartsWithAtPrefix(s, q, "teaspoons", "teaspoon");
  }

  /** Alternation order: "cups" is captured as `cup`, "tablespoons" as `tablespoon`, "teaspoons" as `teaspoon`. */
  lemma PluralCapturedAsSingular(s: string, p: nat)
    requires p <= |s|
    ensures MatchAt(s, p).Some? ==> MatchAt(s, p).value.unit !in {Cups, Tablespoons, Teaspoons}
  {
    var e := NumeralEnd(s, p);
    if e > p {
      var q := SpaceRunEnd(s, e);
      PluralFitsSingular(s, q);
      UnitAtSpec(s, q);
    }
  }

  /**
   * A table of what the matcher finds at each position of a text: a match
   * listed at `q` starts at `q` and ends after it, within the text.
   */
  predicate WellFormedTable(t: seq<Option<Match>>) {
    forall q :: 0 <= q < |t| && t[q].Some? ==> t[q].value.start == q < t[q].value.end <= |t| && ValidNumeral(t[q].value.amount)
  }

  /** What the matcher finds at each position of `s`. */
  function MatchTable(s: string): (t: seq<Option<Match>>)
    ensures |t| == |s|
  {
    seq(|s|, q requires 0 <= q < |s| => MatchAt(s, q))
  }

  /** The table of a text is well formed. */
  lemma MatchTableWellFormed(s: string)
    ensures WellFormedTable(MatchTable(s))
  {
    forall q | 0 <= q < |s| {
      MatchAtBounds(s, q);
    }
  }

  /** Some match in `ms` spans position `q`. */
  predicate Covered(ms: seq<Match>, q: int) {
    exists i :: 0 <= i < |ms| && ms[i].start <= q < ms[i].end
  }

  /** The scan of `re.findall` from position `p`: the leftmost match, then the search resumes where it ended. */
  function Scan(t: seq<Option<Match>>, p: nat): (r: seq<Match>)
    requires WellFormedTable(t) && p <= |t|
    ensures forall i :: 0 <= i < |r| ==> ValidNumeral(r[i].amount)
    decreases |t| - p
  {
    if p == |t| then []
    else
      match t[p]
      case None => Scan(t, p + 1)
      case Some(m) => [m] + Scan(t, m.end)
  }

  /** `re.findall(pattern, s)`. */
  function FindAll(s: string): (r: seq<Match>)
    ensures forall i :: 0 <= i < |r| ==> ValidNumeral(r[i].amount)
  {
    MatchTableWellFormed(s);
    Scan(MatchTable(s), 0)
  }

  /** One step of the scan, where a match stands at `p`. */
  lemma ScanHit(t: seq<Option<Match>>, p: nat)
    requires WellFormedTable(t) && p < |t| && t[p].Some?
    ensures var m := t[p].value;
            var r, rest := Scan(t, p), Scan(t, m.end);
            |r| == |rest| + 1 && r[0] == m && forall i :: 1 <= i < |r| ==> r[i] == rest[i - 1]
  {
  }

  /** The scan lists genuine matches, each starting where the table has it. */
  lemma {:induction false} ScanGenuine(t: seq<Option<Match>>, p: nat)
    requires WellFormedTable(t) && p <= |t|
    ensures var r := Scan(t, p);
            forall i :: 0 <= i < |r| ==> p <= r[i].start < r[i].end <= |t| && t[r[i].start] == Some(r[i])
    decreases |t| - p
  {
    if p < |t| {
      if t[p].None? {
        ScanGenuine(t, p + 1);
        var r := Scan(t, p);
        assert r == Scan(t, p + 1);
        assert forall i :: 0 <= i < |r| ==> p + 1 <= r[i].start;
      } else {
        ScanGenuine(t, t[p].value.end);
        ScanHit(t, p);
      }
    }
  }

  /** The scan's matches come left to right without overlapping. */
  lemma {:induction false} ScanOrdered(t: seq<Option<Match>>, p: nat)
    requires WellFormedTable(t) && p <= |t|
    ensures var r := Scan(t, p);
            forall i :: 0 <= i < |r| - 1 ==> r[i].end <= r[i + 1].start
    decreases |t| - p
  {
    if p < |t| {
      if t[p].None? {
        ScanOrdered(t, p + 1);
        assert Scan(t, p) == Scan(t, p + 1);
      } else {
        var m := t[p].value;
        ScanOrdered(t, m.end);
        ScanGenuine(t, m.end);
        ScanHit(t, p);
        var r, rest := Scan(t, p), Scan(t, m.end);
        forall i | 0 <= i < |r| - 1 ensures r[i].end <= r[i + 1].start {
          if i == 0 {
            assert r[1] == rest[0];
          } else {
            assert r[i] == rest[i - 1] && r[i + 1] == rest[i];
          }
        }
      }
    }
  }

  /** Every position from `p` on where the pattern matches lies inside a match the scan lists. */
  lemma {:induction false} ScanCovers(t: seq<Option<Match>>, p: nat)
    requires WellFormedTable(t) && p <= |t|
    ensures forall q :: p <= q < |t| && t[q].Some? ==> Covered(Scan(t, p), q)
    decreases |t| - p
  {
    if p < |t| {
      if t[p].None? {
        ScanCovers(t, p + 1);
        assert Scan(t, p) == Scan(t, p + 1);
      } else {
        var m := t[p].value;
        ScanCovers(t, m.end);
        ScanHit(t, p);
        var r, rest := Scan(t, p), Scan(t, m.end);
        forall q | p <= q < |t| && t[q].Some? ensures Covered(r, q) {
          if q < m.end {
            assert r[0].start <= q < r[0].end;
          } else {
            var i :| 0 <= i < |rest| && rest[i].start <= q < rest[i].end;
            assert r[i + 1].start <= q < r[i + 1].end;
          }
        }
      }
    }
  }

  /**
   * `re.findall` reports exactly the non-overlapping occurrences, in order
   * of appearance: each entry is the match at its start, entries do not
   * overlap, and no position where the pattern matches is skipped.
   */
  lemma FindAllSpec(s: string)
    ensures var r := FindAll(s);
            forall i :: 0 <= i < |r| ==> r[i].start < r[i].end <= |s| && MatchAt(s, r[i].start) == Some(r[i])
    ensures var r := FindAll(s);
            forall i :: 0 <= i < |r| - 1 ==> r[i].end <= r[i + 1].start
    ensures forall q :: 0 <= q < |s| && MatchAt(s, q).Some? ==> Covered(FindAll(s), q)
  {
    var t, r := MatchTable(s), FindAll(s);
    MatchTableWellFormed(s);
    assert r == Scan(t, 0);
    ScanGenuine(t, 0);
    ScanOrdered(t, 0);
    ScanCovers(t, 0);
  }

  /** `round(x / d)` to the nearest integer, ties to even (Python's `round`). */
  function RoundHalfEven(x: nat, d: nat): nat
    requires d >= 1
  {
    var q, m := x / d, x % d;
    if 2 * m < d then q else if 2 * m > d then q + 1 else if q % 2 == 0 then q else q + 1
  }

  /** The rounded quotient is within half a unit of `x / d`, ties go to even. */
  lemma RoundHalfEvenNearest(x: nat, d: nat)
    requires d >= 1
    ensures var r := RoundHalfEven(x, d);
            2 * x <= 2 * r * d + d && 2 * r * d <= 2 * x + d
    ensures var r := RoundHalfEven(x, d);
            (2 * x + d == 2 * r * d || 2 * r * d + d == 2 * x) ==> r % 2 == 0
  {
    var q, m := x / d, x % d;
    assert x == q * d + m;
    assert (q + 1) * d == q * d + d;
  }

  /** An exact quotient is kept as it is. */
  lemma RoundHalfEvenExact(x: nat, d: nat, r: nat)
    requires d >= 1 && x == r * d
    ensures RoundHalfEven(x, d) == r
  {
    var q, m := x / d, x % d;
    assert q * d + m == r * d + 0;
    QuotientUnique(q, m, r, 0, d);
  }

  /** Division with remainder has one answer. */
  lemma QuotientUnique(q: int, m: int, q': int, m': int, d: int)
    requires d >= 1 && 0 <= m < d && 0 <= m' < d && q * d + m == q' * d + m'
    ensures q == q' && m == m'
  {
    var k := q - q';
    assert k * d == m' - m;
    MultipleOfAtLeastOne(k, d);
  }

  lemma MultipleOfAtLeastOne(k: int, d: int)
    requires d >= 1
    ensures k >= 1 ==> k * d >= d
    ensures k <= -1 ==> k * d <= -d
  {
  }

  /** `round(float(amount) * density_conversion[unit], 2)`, in hundredths of a gram. */
  function GramsHundredths(m: Match): nat
    requires ValidNumeral(m.amount)
  {
    var v := NumeralValue(m.amount);
    RoundHalfEven(v.mant * Density(m.unit) * 100, Pow10(v.scale))
  }

  /** With at most two decimals in the amount the rounding is exact: grams = amount * density. */
  lemma GramsExact(m: Match)
    requires ValidNumeral(m.amount) && |m.amount.frac| <= 2
    ensures GramsHundredths(m) * Pow10(|m.amount.frac|) == NumeralValue(m.amount).mant * Density(m.unit) * 100
  {
    var v := NumeralValue(m.amount);
    var y := v.mant * Density(m.unit);
    if v.scale == 0 {
      RoundHalfEvenExact(y * 100, 1, y * 100);
    } else if v.scale == 1 {
      assert Pow10(1) == 10;
      RoundHalfEvenExact(y * 100, 10, y * 10);
    } else {
      assert Pow10(2) == 100;
      RoundHalfEvenExact(y * 100, 100, y);
    }
  }

  /** The fraction digits of `str(float)` for a value with at most two decimals. */
  function FracText(c: nat): (t: string)
    requires c < 100
    ensures 1 <= |t| <= 2 && AllDigits(t)
  {
    if c == 0 then "0"
    else if c % 10 == 0 then [Digit(c / 10)]
    else [Digit(c / 10), Digit(c % 10)]
  }

  /** The numeral `str(grams)` writes for `h` hundredths of a gram, e.g. 48000 as `480.0`. */
  function GramsNumeral(h: nat): (n: Numeral)
    ensures ValidNumeral(n) && n.frac != []
  {
    Numeral(NatToDigits(h / 100), FracText(h % 100))
  }

  /** The fraction digits stand for `c` hundredths. */
  lemma FracTextValue(c: nat)
    requires c < 100
    ensures DigitsValue(FracText(c)) * 100 == c * Pow10(|FracText(c)|)
  {
    var t := FracText(c);
    if c == 0 {
      assert DigitsValue(t) == 10 * DigitsValue(t[..0]) + 0;
    } else if c % 10 == 0 {
      assert DigitsValue(t) == 10 * DigitsValue(t[..0]) + c / 10;
    } else {
      assert t[..1] == [Digit(c / 10)];
      assert DigitsValue(t[..1]) == 10 * DigitsValue(t[..0]) + c / 10;
      assert DigitsValue(t) == 10 * (c / 10) + c % 10;
      assert Pow10(2) == 100;
    }
  }

  lemma ScaledQuotient(w: int, f: int, p: int, c: int, h: int)
    requires p >= 1 && f * 100 == c * p && h == 100 * w + c
    ensures (w * p + f) as real / p as real == h as real / 100.0
  {
    assert (w * p + f) * 100 == h * p;
  }

  /** The rendered gram figure denotes exactly `h / 100`. */
  lemma GramsNumeralValue(h: nat)
    ensures Value(NumeralValue(GramsNumeral(h))) == h as real / 100.0
  {
    var n := GramsNumeral(h);
    var c := h % 100;
    DigitsValueAppend(n.whole, n.frac);
    NatToDigitsValue(h / 100);
    FracTextValue(c);
    ScaledQuotient(h / 100, DigitsValue(n.frac), Pow10(|n.frac|), c, h);
  }

  /** `f"{amount} {unit} = {grams}g"`. */
  function FormatEntry(amount: Numeral, unit: Unit, grams: nat): string {
    Text(amount) + " " + Spelling(unit) + " = " + Text(GramsNumeral(grams)) + "g"
  }

  /** The occurrences `re.findall` reports on `str(value).lower()`. */
  function Occurrences(value: string): (ms: seq<Match>)
    ensures forall i :: 0 <= i < |ms| ==> ValidNumeral(ms[i].amount)
  {
    FindAll(Lower(value))
  }

  /** Matching ignores case: a text and its lower-cased form have the same occurrences. */
  lemma OccurrencesIgnoreCase(value: string)
    ensures Occurrences(Lower(value)) == Occurrences(value)
  {
    LowerIdempotent(value);
  }

  /** The entry one occurrence contributes to `converted_values`. */
  function EntryOf(m: Match): string
    requires ValidNumeral(m.amount)
  {
    FormatEntry(m.amount, m.unit, GramsHundredths(m))
  }

  /** `total_grams`: a number of hundredths, or "N/A". */
  datatype GramTotal = NotAvailable | Grams(hundredths: nat)

  /** `converted_values`: one entry per occurrence, in order. */
  function ConvertedValues(value: string): seq<string> {
    MapSeq(EntryOf, Occurrences(value))
  }

  /** `total_grams`: the sum when it is positive, otherwise "N/A". */
  function TotalGrams(value: string): (g: GramTotal)
    ensures g.Grams? ==> g.hundredths > 0
  {
    var t := Sum(MapSeq(GramsHundredths, Occurrences(value)));
    if t > 0 then Grams(t) else NotAvailable
  }

  /** "N/A" exactly when no occurrence contributes a positive number of grams. */
  lemma TotalGramsNotAvailable(value: string)
    ensures var ms := Occurrences(value);
            TotalGrams(value) == NotAvailable <==> forall i :: 0 <= i < |ms| ==> GramsHundredths(ms[i]) == 0
  {
    SumZero(MapSeq(GramsHundredths, Occurrences(value)));
  }

  /** What one more occurrence adds to the entries and to the sum. */
  lemma ConvertStep(ms: seq<Match>, i: nat)
    requires forall k :: 0 <= k < |ms| ==> ValidNumeral(ms[k].amount)
    requires i < |ms|
    ensures MapSeq(EntryOf, ms[..i + 1])
            == MapSeq(EntryOf, ms[..i]) + [FormatEntry(ms[i].amount, ms[i].unit, GramsHundredths(ms[i]))]
    ensures Sum(MapSeq(GramsHundredths, ms[..i + 1])) == Sum(MapSeq(GramsHundredths, ms[..i])) + GramsHundredths(ms[i])
  {
    assert ms[..i + 1] == ms[..i] + [ms[i]];
    MapSeqSnoc(EntryOf, ms[..i], ms[i]);
    MapSeqSnoc(GramsHundredths, ms[..i], ms[i]);
    SumSnoc(MapSeq(GramsHundredths, ms[..i]), GramsHundredths(ms[i]));
  }

  /** The loop of `convert_to_grams`. */
  method ConvertToGrams(value: string) returns (convertedValues: seq<string>, totalGrams: GramTotal)
    ensures convertedValues == ConvertedValues(value)
    ensures totalGrams == TotalGrams(value)
  {
    var matches := Occurrences(value);
    convertedValues := [];
    var total: nat := 0;
    for i := 0 to |matches|
      invariant convertedValues == MapSeq(EntryOf, matches[..i])
      invariant total == Sum(MapSeq(GramsHundredths, matches[..i]))
    {
      var grams := GramsHundredths(matches[i]);
      ConvertStep(matches, i);
      total := total + grams;
      convertedValues := convertedValues + [FormatEntry(matches[i].amount, matches[i].unit, grams)];
    }
    assert matches[..|matches|] == matches;
    totalGrams := if total > 0 then Grams(total) else NotAvailable;
  }
}
