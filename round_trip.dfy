/**
 * The entries the backend writes as `"<amount> <unit> = <grams>g"` are read
 * back by the recipe page's `=\s?(\d+(\.\d+)?)g`: each entry yields its own
 * gram value, so the page's total is the backend's total.
 */
module RoundTrip {
  import opened Wrappers
  import opened Seqs
  import opened Decimal
  import opened GramConversion
  import opened ClientGrams
  import opened Catalogue

  lemma SpellingLetters(u: Unit)
    ensures forall k :: 0 <= k < |Spelling(u)| ==> 'a' <= Spelling(u)[k] <= 'z'
  {
  }

  /** `s` reads `"<a> <b> = <c>g"`, character by character. */
  predicate Layout(s: string, a: string, b: string, c: string) {
    && |s| == |a| + |b| + |c| + 5
    && (forall k :: 0 <= k < |a| ==> s[k] == a[k])
    && s[|a|] == ' '
    && (forall k :: 0 <= k < |b| ==> s[|a| + 1 + k] == b[k])
    && s[|a| + 1 + |b|] == ' ' && s[|a| + |b| + 2] == '=' && s[|a| + |b| + 3] == ' '
    && (forall k :: 0 <= k < |c| ==> s[|a| + |b| + 4 + k] == c[k])
    && s[|a| + |b| + 4 + |c|] == 'g'
  }

  lemma ConcatLayout(a: string, b: string, c: string)
    ensures Layout(a + " " + b + " = " + c + "g", a, b, c)
  {
  }

  /** `c` reads `"<w>.<f>"`, character by character. */
  predicate FigureLayout(c: string, w: string, f: string) {
    && |c| == |w| + |f| + 1
    && (forall k :: 0 <= k < |w| ==> c[k] == w[k])
    && c[|w|] == '.'
    && (forall k :: 0 <= k < |f| ==> c[|w| + 1 + k] == f[k])
  }

  lemma ConcatFigure(w: string, f: string)
    ensures FigureLayout(w + "." + f, w, f)
  {
  }

  /**
   * `s` reads `"<a> <b> = <w>.<f>g"`, character by character: the layout of
   * an entry whose amount reads `a`, whose unit is spelt `b` and whose gram
   * figure has the whole part `w` and the fraction `f`.
   */
  predicate EntryShape(s: string, a: string, b: string, w: string, f: string) {
    var p := |a| + |b| + 2;
    var n := p + 2;
    var d := n + |w|;
    |s| == d + |f| + 2
    && (forall k :: 0 <= k < |a| ==> s[k] == a[k])
    && s[|a|] == ' '
    && (forall k :: 0 <= k < |b| ==> s[|a| + 1 + k] == b[k])
    && s[p - 1] == ' ' && s[p] == '=' && s[p + 1] == ' '
    && (forall k :: 0 <= k < |w| ==> s[n + k] == w[k])
    && s[d] == '.'
    && (forall k :: 0 <= k < |f| ==> s[d + 1 + k] == f[k])
    && s[d + 1 + |f|] == 'g'
  }

  lemma ShapeOfLayouts(s: string, a: string, b: string, c: string, w: string, f: string)
    requires Layout(s, a, b, c) && FigureLayout(c, w, f)
    ensures EntryShape(s, a, b, w, f)
  {
    var n := |a| + |b| + 4;
    assert forall k :: 0 <= k < |w| ==> s[n + k] == w[k] by {
      forall k | 0 <= k < |w| ensures s[n + k] == w[k] {
        assert s[n + k] == c[k];
      }
    }
    assert s[n + |w|] == c[|w|];
    assert forall k :: 0 <= k < |f| ==> s[n + |w| + 1 + k] == f[k] by {
      forall k | 0 <= k < |f| ensures s[n + |w| + 1 + k] == f[k] {
        assert s[n + (|w| + 1 + k)] == c[|w| + 1 + k];
      }
    }
  }

  /** An entry written out from its parts has the layout of its parts. */
  lemma EntryLayout(a: string, b: string, w: string, f: string)
    ensures EntryShape(a + " " + b + " = " + (w + "." + f) + "g", a, b, w, f)
  {
    ConcatLayout(a, b, w + "." + f);
    ConcatFigure(w, f);
    ShapeOfLayouts(a + " " + b + " = " + (w + "." + f) + "g", a, b, w + "." + f, w, f);
  }

  /** The text of a numeral is digits and points. */
  predicate NumeralLike(a: string) {
    forall k :: 0 <= k < |a| ==> IsDigit(a[k]) || a[k] == '.'
  }

  predicate Letters(b: string) {
    forall k :: 0 <= k < |b| ==> 'a' <= b[k] <= 'z'
  }

  /** No `=` stands in an entry before the one between the unit and the grams. */
  lemma NoEqualsBefore(s: string, a: string, b: string, w: string, f: string)
    requires EntryShape(s, a, b, w, f) && NumeralLike(a) && Letters(b)
    ensures forall q :: 0 <= q < |a| + |b| + 2 ==> s[q] != '='
  {
    forall q | 0 <= q < |a| + |b| + 2 ensures s[q] != '=' {
      if q < |a| {
        assert s[q] == a[q];
      } else if |a| < q < |a| + 1 + |b| {
        assert s[q] == b[q - |a| - 1];
      }
    }
  }

  /** The grams figure `w.f` after the `=` is an instance of the client pattern. */
  lemma GramsFigureMatches(s: string, a: string, b: string, w: string, f: string)
    requires EntryShape(s, a, b, w, f)
    requires |w| >= 1 && AllDigits(w) && |f| >= 1 && AllDigits(f)
    ensures var p := |a| + |b| + 2;
            var n := p + 2;
            GramsPatternAt(s, p, n, n + |w|, n + |w| + 1 + |f|)
            && NumeralOf(s, n, n + |w|, n + |w| + 1 + |f|) == Numeral(w, f)
  {
    var n := |a| + |b| + 4;
    var d, e := n + |w|, n + |w| + 1 + |f|;
    assert DigitsIn(s, n, d) by {
      forall k | n <= k < d ensures IsDigit(s[k]) {
        assert s[k] == w[k - n];
      }
    }
    assert DigitsIn(s, d + 1, e) by {
      forall k | d + 1 <= k < e ensures IsDigit(s[k]) {
        assert s[k] == f[k - d - 1];
      }
    }
    assert s[n..d] == w;
    assert s[d + 1..e] == f;
  }

  /** The matcher captures `w.f` at the `=` of such an entry. */
  lemma GramsFigureCaptured(s: string, a: string, b: string, w: string, f: string)
    requires EntryShape(s, a, b, w, f)
    requires |w| >= 1 && AllDigits(w) && |f| >= 1 && AllDigits(f)
    ensures |a| + |b| + 2 < |s| && GramsAt(s, |a| + |b| + 2) == Some(Numeral(w, f))
  {
    var n := |a| + |b| + 4;
    GramsFigureMatches(s, a, b, w, f);
    GramsAtComplete(s, n - 2, n, n + |w|, n + |w| + 1 + |f|);
  }

  /** A capture at `p` with no `=` before it is the first match. */
  lemma FirstGramsAt(s: string, p: nat, g: Numeral)
    requires p < |s| && GramsAt(s, p) == Some(g)
    requires forall q :: 0 <= q < p ==> s[q] != '='
    ensures FirstGrams(s) == Some(g)
  {
    var t := GramsTable(s);
    assert forall k :: 0 <= k < p ==> t[k].None? by {
      forall k | 0 <= k < p ensures t[k].None? {
        assert s[k] != '=';
      }
    }
    FirstSomeAt(t, 0, p);
  }

  /** The first present entry from `i` on is the one at `p` when none before it is present. */
  lemma {:induction false} FirstSomeAt<T>(t: seq<Option<T>>, i: nat, p: nat)
    requires i <= p < |t| && t[p].Some?
    requires forall k :: i <= k < p ==> t[k].None?
    ensures FirstSome(t, i) == t[p]
    decreases p - i
  {
    if i < p {
      FirstSomeAt(t, i + 1, p);
    }
  }

  /** The first match of the client pattern in such an entry captures `w.f`. */
  lemma ShapeReadBack(s: string, a: string, b: string, w: string, f: string)
    requires EntryShape(s, a, b, w, f) && NumeralLike(a) && Letters(b)
    requires |w| >= 1 && AllDigits(w) && |f| >= 1 && AllDigits(f)
    ensures FirstGrams(s) == Some(Numeral(w, f))
  {
    NoEqualsBefore(s, a, b, w, f);
    GramsFigureCaptured(s, a, b, w, f);
    FirstGramsAt(s, |a| + |b| + 2, Numeral(w, f));
  }

  /**
   * Every entry the backend writes is matched by the client pattern, and
   * the number captured is the entry's gram figure.
   */
  lemma EntryReadBack(amount: Numeral, unit: Unit, h: nat)
    requires ValidNumeral(amount)
    ensures FirstGrams(FormatEntry(amount, unit, h)) == Some(GramsNumeral(h))
  {
    var a, b, g := Text(amount), Spelling(unit), GramsNumeral(h);
    NumeralChars(amount);
    assert NumeralLike(a) by {
      forall k | 0 <= k < |a| ensures IsDigit(a[k]) || a[k] == '.' {
        assert a[k] in a;
      }
    }
    SpellingLetters(unit);
    EntryLayout(a, b, g.whole, g.frac);
    ShapeReadBack(FormatEntry(amount, unit, h), a, b, g.whole, g.frac);
  }

  /** The client reads back from an entry its gram value, in grams. */
  lemma EntryOfReadBack(m: Match)
    requires ValidNumeral(m.amount)
    ensures ItemGrams(EntryOf(m)) == GramsHundredths(m) as real / 100.0
  {
    EntryReadBack(m.amount, m.unit, GramsHundredths(m));
    GramsNumeralValue(GramsHundredths(m));
  }

  /** The client's sum over the entries is the backend's sum of gram values, in grams. */
  lemma {:induction false} SumEntries(ms: seq<Match>)
    requires forall i :: 0 <= i < |ms| ==> ValidNumeral(ms[i].amount)
    ensures SumItems(MapSeq(EntryOf, ms)) == Sum(MapSeq(GramsHundredths, ms)) as real / 100.0
  {
    if ms != [] {
      var init, last := ms[..|ms| - 1], ms[|ms| - 1];
      assert ms == init + [last];
      SumEntries(init);
      MapSeqSnoc(EntryOf, init, last);
      MapSeqSnoc(GramsHundredths, init, last);
      SumItemsSnoc(MapSeq(EntryOf, init), EntryOf(last));
      SumSnoc(MapSeq(GramsHundredths, init), GramsHundredths(last));
      EntryOfReadBack(last);
    }
  }

  /** The page's total of the entries of some occurrences is their sum of gram values, in grams. */
  lemma EntriesTotal(ms: seq<Match>)
    requires forall i :: 0 <= i < |ms| ==> ValidNumeral(ms[i].amount)
    ensures CalculateTotalGrams(List(MapSeq(EntryOf, ms))) == Total(Sum(MapSeq(GramsHundredths, ms)) as real / 100.0)
  {
    SumEntries(ms);
  }

  /** A `total_grams` in grams, with "N/A" as 0. */
  function InGrams(g: GramTotal): real {
    match g
    case Grams(h) => h as real / 100.0
    case NotAvailable => 0.0
  }

  /** `total_grams` in grams is the sum of the gram values, "N/A" standing for a zero sum. */
  lemma TotalInGrams(value: string)
    ensures InGrams(TotalGrams(value)) == Sum(MapSeq(GramsHundredths, Occurrences(value))) as real / 100.0
  {
  }

  /**
   * `calculateTotalGrams` of the `converted_values` of an ingredients text
   * is its `total_grams`, or 0 where the backend reports "N/A".
   */
  lemma ConvertedTotalReadBack(value: string)
    ensures CalculateTotalGrams(List(ConvertedValues(value))) == Total(InGrams(TotalGrams(value)))
  {
    ConvertedValuesTotal(value);
    TotalInGrams(value);
  }

  /** The page's total of `converted_values` is the sum of the gram values, in grams. */
  lemma ConvertedValuesTotal(value: string)
    ensures CalculateTotalGrams(List(ConvertedValues(value)))
            == Total(Sum(MapSeq(GramsHundredths, Occurrences(value))) as real / 100.0)
  {
    EntriesTotal(Occurrences(value));
  }

  /** The same for the fields of a loaded recipe, as the page receives them. */
  lemma RecipeTotalReadBack(r: Row)
    ensures var recipe := Load(r);
            CalculateTotalGrams(List(recipe.convertedIngredients)) == Total(InGrams(recipe.totalGrams))
  {
    ConvertedTotalReadBack(IngredientsText(r));
  }
}
