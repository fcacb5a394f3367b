/**
 * `calculateTotalGrams` of the recipe page: the first match of
 * `=\s?(\d+(\.\d+)?)g` in every converted-ingredient entry, its number read
 * back, and the sum of those numbers.
 */
module ClientGrams {
  import opened Wrappers
  import opened Decimal

  /** JavaScript's `\s`: the white space and line terminator characters. */
  predicate IsJsSpace(c: char) {
    ('\U{9}' <= c <= '\U{D}') || c == '\U{20}' || c == '\U{A0}' || c == '\U{1680}'
    || ('\U{2000}' <= c <= '\U{200A}') || c == '\U{2028}' || c == '\U{2029}' || c == '\U{202F}'
    || c == '\U{205F}' || c == '\U{3000}' || c == '\U{FEFF}'
  }

  /**
   * Where the number of a match starting with `=` at `p` begins: after the
   * optional white space character, which `\s?` takes when it is there.
   */
  function NumberStart(s: string, p: nat): (n: nat)
    requires p < |s|
    ensures p + 1 <= n <= |s|
    ensures n == p + 2 <==> p + 1 < |s| && IsJsSpace(s[p + 1])
  {
    if p + 1 < |s| && IsJsSpace(s[p + 1]) then p + 2 else p + 1
  }

  /**
   * The capture of `=\s?(\d+(\.\d+)?)g` at `p`, as a backtracking matcher
   * finds it: the greedy numeral after `=` and the optional space, which must
   * be followed by `g`. Giving back digits or the fraction never helps,
   * since what is given back is a digit or a point and not a `g`.
   */
  function GramsAt(s: string, p: nat): (r: Option<Numeral>)
    requires p <= |s|
  {
    if p == |s| || s[p] != '=' then None
    else
      var n := NumberStart(s, p);
      var e := NumeralEnd(s, n);
      if e > n && e < |s| && s[e] == 'g' then Some(NumeralAt(s, n)) else None
  }

  /**
   * The declarative reading of the pattern at `p`: `=`, then at most one
   * white space character, then a numeral spanning `n..e` (whole part ending
   * at `d`), then `g`.
   */
  predicate GramsPatternAt(s: string, p: nat, n: nat, d: nat, e: nat) {
    p < |s| && s[p] == '='
    && (n == p + 1 || (n == p + 2 && p + 1 < |s| && IsJsSpace(s[p + 1])))
    && NumeralSpan(s, n, d, e) && e < |s| && s[e] == 'g'
  }

  /** What the matcher captures is a numeral of an instance of the pattern. */
  lemma GramsAtSound(s: string, p: nat)
    requires p <= |s|
    ensures GramsAt(s, p).Some? ==>
              var n, d, e := NumberStart(s, p), DigitRunEnd(s, NumberStart(s, p)), NumeralEnd(s, NumberStart(s, p));
              GramsPatternAt(s, p, n, d, e) && GramsAt(s, p) == Some(NumeralOf(s, n, d, e))
              && ValidNumeral(GramsAt(s, p).value)
  {
    if p < |s| && s[p] == '=' {
      var n := NumberStart(s, p);
      NumeralEndSound(s, n);
      var d, e := DigitRunEnd(s, n), NumeralEnd(s, n);
      if e > n {
        NumeralOfText(s, n, d, e);
      }
    }
  }

  /** Every instance of the pattern at `p` is what the matcher captures there. */
  lemma GramsAtComplete(s: string, p: nat, n: nat, d: nat, e: nat)
    requires GramsPatternAt(s, p, n, d, e)
    ensures NumberStart(s, p) == n
    ensures GramsAt(s, p) == Some(NumeralOf(s, n, d, e))
  {
    assert IsDigit(s[n]);
    NumeralEndComplete(s, n, d, e);
  }

  /** The first present entry of a table from `p` on. */
  function FirstSome<T>(t: seq<Option<T>>, p: nat): Option<T>
    requires p <= |t|
    decreases |t| - p
  {
    if p == |t| then None else if t[p].Some? then t[p] else FirstSome(t, p + 1)
  }

  /** The first present entry: none when all are absent, else the leftmost one. */
  lemma {:induction false} FirstSomeSpec<T>(t: seq<Option<T>>, p: nat)
    requires p <= |t|
    ensures FirstSome(t, p).None? <==> forall q :: p <= q < |t| ==> t[q].None?
    ensures FirstSome(t, p).Some? ==>
              exists q :: p <= q < |t| && t[q] == FirstSome(t, p) && forall k :: p <= k < q ==> t[k].None?
    decreases |t| - p
  {
    if p < |t| && t[p].None? {
      FirstSomeSpec(t, p + 1);
      if FirstSome(t, p).Some? {
        var q :| p + 1 <= q < |t| && t[q] == FirstSome(t, p + 1) && forall k :: p + 1 <= k < q ==> t[k].None?;
        assert forall k :: p <= k < q ==> t[k].None?;
      }
    }
  }

  /** What the matcher captures at each position of a text. */
  function GramsTable(s: string): (t: seq<Option<Numeral>>)
    ensures |t| == |s|
  {
    seq(|s|, p requires 0 <= p < |s| => GramsAt(s, p))
  }

  /** `item.match(...)`: the capture at the leftmost position where the pattern matches. */
  function FirstGrams(s: string): Option<Numeral> {
    FirstSome(GramsTable(s), 0)
  }

  /**
   * No match exactly when the pattern matches nowhere; otherwise the capture
   * is a numeral, the capture at a position where the pattern matches and it
   * matches nowhere before.
   */
  lemma FirstGramsSpec(s: string)
    ensures FirstGrams(s).None? <==> forall q :: 0 <= q < |s| ==> GramsAt(s, q).None?
    ensures FirstGrams(s).Some? ==>
              ValidNumeral(FirstGrams(s).value)
              && exists q :: 0 <= q < |s| && GramsAt(s, q) == FirstGrams(s)
                             && forall k :: 0 <= k < q ==> GramsAt(s, k).None?
  {
    var t := GramsTable(s);
    FirstSomeSpec(t, 0);
    assert forall q :: 0 <= q < |s| ==> t[q] == GramsAt(s, q);
    if FirstGrams(s).Some? {
      var q :| 0 <= q < |t| && t[q] == FirstSome(t, 0) && forall k :: 0 <= k < q ==> t[k].None?;
      GramsAtSound(s, q);
    }
  }

  /** The number an entry contributes: `parseFloat(match[1])` when it matches, nothing otherwise. */
  function ItemGrams(item: string): (v: real)
    ensures v >= 0.0
  {
    FirstGramsSpec(item);
    match FirstGrams(item)
    case None => 0.0
    case Some(n) => Value(NumeralValue(n))
  }

  /** The `reduce` of `calculateTotalGrams`, from the left. */
  function SumItems(items: seq<string>): (t: real)
    ensures t >= 0.0
  {
    if items == [] then 0.0 else SumItems(items[..|items| - 1]) + ItemGrams(items[|items| - 1])
  }

  /** What the view receives as `Converted Ingredients`: an array of strings, or anything else. */
  datatype ConvertedField = List(items: seq<string>) | NotList

  /** What `calculateTotalGrams` returns: "N/A" or a number. */
  datatype ClientTotal = NotAvailable | Total(grams: real)

  /**
   * "N/A" exactly for a value that is not an array; for an array a number
   * that is never negative, zero for the empty array.
   */
  function CalculateTotalGrams(ingredients: ConvertedField): (r: ClientTotal)
    ensures r == NotAvailable <==> ingredients.NotList?
    ensures ingredients.List? ==> r.grams == SumItems(ingredients.items) && r.grams >= 0.0
    ensures ingredients == List([]) ==> r == Total(0.0)
  {
    if !ingredients.List? then NotAvailable else Total(SumItems(ingredients.items))
  }

  /** An entry without a match adds nothing; appending an entry adds its number. */
  lemma SumItemsSnoc(items: seq<string>, item: string)
    ensures SumItems(items + [item]) == SumItems(items) + ItemGrams(item)
  {
    assert (items + [item])[..|items|] == items;
  }

  /** Each entry adds the number of its first match, or nothing, whatever the order of the other entries. */
  lemma {:induction false} SumItemsAppend(a: seq<string>, b: seq<string>)
    ensures SumItems(a + b) == SumItems(a) + SumItems(b)
    decreases |b|
  {
    if b == [] {
      assert a + b == a;
    } else {
      var b', x := b[..|b| - 1], b[|b| - 1];
      assert b == b' + [x];
      assert a + b == (a + b') + [x];
      SumItemsAppend(a, b');
      SumItemsSnoc(a + b', x);
      SumItemsSnoc(b', x);
    }
  }
}
