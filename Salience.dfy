/**
 * Local salience: how over- or under-represented a petition's signatures are
 * in one constituency compared with an even spread over 650 constituencies,
 * the three categories it is labelled with, and the bands of the salience
 * filter. Numbers are exact rationals here, where the pages use doubles.
 */
module Salience {
  import opened Petitions

  /** The number of constituencies the expected share is based on. */
  const Constituencies: real := 650.0

  /**
   * The salience expression of `populateTable`: the actual share `count / ukTotal`
   * divided by the expected share `1 / 650`, or 0 when the total is missing or not positive.
   */
  function Ratio(count: int, ukTotal: Option<int>): (s: real)
    ensures ukTotal.Some? && ukTotal.value > 0 ==>
      s * (ukTotal.value as real) == (count as real) * Constituencies
    ensures !(ukTotal.Some? && ukTotal.value > 0) ==> s == 0.0
  {
    if ukTotal.Some? && ukTotal.value > 0 then
      var actualProportion := count as real / ukTotal.value as real;
      var expectedProportion := 1.0 / Constituencies;
      actualProportion / expectedProportion
    else
      0.0
  }

  lemma RatioNonNegative(count: int, ukTotal: Option<int>)
    requires count >= 0
    ensures Ratio(count, ukTotal) >= 0.0
  {
    if ukTotal.Some? && ukTotal.value > 0 {
      var t := ukTotal.value as real;
      var s := Ratio(count, ukTotal);
      assert s * t >= 0.0;
    }
  }

  /** Scaling the local count and the UK total by the same positive factor leaves the ratio unchanged. */
  lemma RatioScaleInvariant(count: int, ukTotal: int, k: int)
    requires k > 0
    ensures Ratio(k * count, Some(k * ukTotal)) == Ratio(count, Some(ukTotal))
  {
    if ukTotal > 0 {
      var s1 := Ratio(k * count, Some(k * ukTotal));
      var s2 := Ratio(count, Some(ukTotal));
      var t, kr := ukTotal as real, k as real;
      assert (k * ukTotal) as real == kr * t && (k * count) as real == kr * (count as real);
      assert s1 * (kr * t) == kr * (count as real) * Constituencies;
      assert s2 * t == (count as real) * Constituencies;
      assert kr * (s1 * t) == kr * (s2 * t);
      assert s1 * t == s2 * t;
    } else {
      assert k * ukTotal <= 0;
    }
  }

  /** The three labels of `getSalienceCategory`, with their text and CSS class. */
  datatype Category = MoreSalient | AboutAsSalient | LessSalient {
    function Text(): string
    {
      match this
      case MoreSalient => "more salient"
      case AboutAsSalient => "about as salient"
      case LessSalient => "less salient"
    }

    function CssClass(): string
    {
      match this
      case MoreSalient => "more-salient"
      case AboutAsSalient => "about-salient"
      case LessSalient => "less-salient"
    }
  }

  function Abs(x: real): real
  {
    if x < 0.0 then -x else x
  }

  /** `getSalienceCategory`: above 1.01 is more salient, within 0.01 of 1 is about as salient, the rest less. */
  function CategoryOf(salience: real): (c: Category)
    ensures c == MoreSalient <==> salience > 1.01
    ensures c == AboutAsSalient <==> 0.99 < salience < 1.01
    ensures c == LessSalient <==> salience <= 0.99 || salience == 1.01
  {
    if salience > 1.01 then MoreSalient
    else if Abs(salience - 1.0) < 0.01 then AboutAsSalient
    else LessSalient
  }

  /** The values of the salience-category filter: 'all' (and anything else), 'more', 'about', 'less'. */
  datatype BandFilter = AnyBand | MoreBand | AboutBand | LessBand

  /** The salience test of `applyFilters`: true when the row is not hidden by it. */
  predicate BandKeeps(f: BandFilter, salience: real)
  {
    match f
    case MoreBand => !(salience <= 1.01)
    case LessBand => !(salience >= 0.99)
    case AboutBand => !(salience > 1.01 || salience < 0.99)
    case AnyBand => true
  }

  /** The filter bands: 'more' keeps above 1.01, 'less' keeps below 0.99, 'about' keeps [0.99, 1.01]. */
  lemma BandKeepsBounds(salience: real)
    ensures BandKeeps(MoreBand, salience) <==> salience > 1.01
    ensures BandKeeps(LessBand, salience) <==> salience < 0.99
    ensures BandKeeps(AboutBand, salience) <==> 0.99 <= salience <= 1.01
  {
  }

  /**
   * Away from the two edges the filter keeps a row exactly when the label
   * matches; at exactly 0.99 and 1.01 the row is labelled less salient but only
   * the 'about' filter shows it.
   */
  lemma BandsAgreeWithCategory(salience: real)
    ensures salience != 0.99 && salience != 1.01 ==>
      && (BandKeeps(MoreBand, salience) <==> CategoryOf(salience) == MoreSalient)
      && (BandKeeps(AboutBand, salience) <==> CategoryOf(salience) == AboutAsSalient)
      && (BandKeeps(LessBand, salience) <==> CategoryOf(salience) == LessSalient)
    ensures salience == 0.99 || salience == 1.01 ==>
      && CategoryOf(salience) == LessSalient
      && !BandKeeps(LessBand, salience) && BandKeeps(AboutBand, salience) && !BandKeeps(MoreBand, salience)
  {
  }

  /** Worked values: 1.015 more; 1.0 and 0.995 about; 0.98, 0 and both edges less. */
  lemma CategoryExamples()
    ensures CategoryOf(1.015) == MoreSalient
    ensures CategoryOf(1.0) == AboutAsSalient && CategoryOf(0.995) == AboutAsSalient
    ensures CategoryOf(0.98) == LessSalient && CategoryOf(0.0) == LessSalient
    ensures CategoryOf(0.99) == LessSalient && CategoryOf(1.01) == LessSalient
  {
  }

  /** 10 of 1000 signatures locally is 6.5 times the even share; 1 of 500000 is 0.0013 of it. */
  lemma HolbornExample()
    ensures Ratio(10, Some(1000)) == 6.5 && CategoryOf(Ratio(10, Some(1000))) == MoreSalient
    ensures Ratio(1, Some(500000)) == 0.0013 && CategoryOf(Ratio(1, Some(500000))) == LessSalient
    ensures Ratio(10, None) == 0.0 && Ratio(10, Some(0)) == 0.0
  {
  }
}
