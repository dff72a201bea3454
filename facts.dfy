/**
 * The fact loader as a function: for every staging row, in order, nine `result_lottery` rows,
 * one per prize tier, carrying the ids the resolver finds at that time.
 */
module Facts {
  import opened JavaText
  import opened Schema
  import opened Resolver

  /** `"prize " + (i + 1)`: the label of the i-th insert of a row. */
  function PrizeLabel(i: nat): string {
    "prize " + IntToString(i + 1)
  }

  /** The first `n` inserts of one staging row, given the ids resolved for it. */
  function TierFacts(row: LotteryRow, provinceId: int, dateId: int, n: nat): seq<FactRow>
    requires n <= 9
    decreases n
  {
    if n == 0 then []
    else TierFacts(row, provinceId, dateId, n - 1) + [FactRow(PrizeLabel(n - 1), Tiers(row)[n - 1], provinceId, dateId)]
  }

  /** The nine inserts of one staging row. */
  function RowFacts(row: LotteryRow, provinceId: int, dateId: int): seq<FactRow> {
    TierFacts(row, provinceId, dateId, 9)
  }

  /** Insert `i` of a row is "prize (i+1)" with the row's i-th tier and the resolved ids. */
  lemma {:induction false} TierFactsAt(row: LotteryRow, provinceId: int, dateId: int, n: nat)
    requires n <= 9
    ensures |TierFacts(row, provinceId, dateId, n)| == n
    ensures forall i | 0 <= i < n ::
              TierFacts(row, provinceId, dateId, n)[i] == FactRow(PrizeLabel(i), Tiers(row)[i], provinceId, dateId)
    decreases n
  {
    if n > 0 {
      TierFactsAt(row, provinceId, dateId, n - 1);
    }
  }

  /** Everything the loop over `src` appends, resolving against the given dimensions. */
  function FactsOf(src: seq<LotteryRow>, provinces: seq<ProvinceRow>, dates: seq<DateRow>): seq<FactRow>
    decreases |src|
  {
    if src == [] then []
    else
      var last := src[|src| - 1];
      FactsOf(src[..|src| - 1], provinces, dates)
        + RowFacts(last, ProvinceId(provinces, last.province), DateId(dates, last.date))
  }

  /** Loading one more staging row appends its nine facts. */
  lemma FactsOfSnoc(src: seq<LotteryRow>, k: nat, provinces: seq<ProvinceRow>, dates: seq<DateRow>)
    requires k < |src|
    ensures FactsOf(src[..k + 1], provinces, dates) ==
              FactsOf(src[..k], provinces, dates)
                + RowFacts(src[k], ProvinceId(provinces, src[k].province), DateId(dates, src[k].date))
  {
    assert src[..k + 1][..k] == src[..k];
  }

  /** The whole of `src` as its own prefix, with the fan-out. */
  lemma FactsOfAll(src: seq<LotteryRow>, provinces: seq<ProvinceRow>, dates: seq<DateRow>)
    ensures FactsOf(src[..|src|], provinces, dates) == FactsOf(src, provinces, dates)
    ensures |FactsOf(src, provinces, dates)| == 9 * |src|
  {
    assert src[..|src|] == src;
    FactFanOut(src, provinces, dates);
  }

  /** Each staging row causes exactly nine fact rows. */
  lemma {:induction false} FactFanOut(src: seq<LotteryRow>, provinces: seq<ProvinceRow>, dates: seq<DateRow>)
    ensures |FactsOf(src, provinces, dates)| == 9 * |src|
    decreases |src|
  {
    if src != [] {
      var last := src[|src| - 1];
      FactFanOut(src[..|src| - 1], provinces, dates);
      TierFactsAt(last, ProvinceId(provinces, last.province), DateId(dates, last.date), 9);
    }
  }

  /**
   * Fact 9k + i comes from staging row k and its i-th tier, labelled "prize (i+1)", with the
   * province and date ids resolved for that row.
   */
  lemma {:induction false} FactAt(src: seq<LotteryRow>, provinces: seq<ProvinceRow>, dates: seq<DateRow>, k: nat, i: nat)
    requires k < |src| && i < 9
    ensures 9 * k + i < |FactsOf(src, provinces, dates)|
    ensures FactsOf(src, provinces, dates)[9 * k + i] ==
              FactRow(PrizeLabel(i), Tiers(src[k])[i],
                      ProvinceId(provinces, src[k].province), DateId(dates, src[k].date))
    decreases |src|
  {
    var init := src[..|src| - 1];
    FactFanOut(src, provinces, dates);
    FactFanOut(init, provinces, dates);
    if k < |src| - 1 {
      FactAt(init, provinces, dates, k, i);
      assert init[k] == src[k];
    } else {
      var last := src[|src| - 1];
      TierFactsAt(last, ProvinceId(provinces, last.province), DateId(dates, last.date), 9);
    }
  }

  /** The labels are "prize 1" to "prize 9", all different. */
  lemma PrizeLabels(i: nat, j: nat)
    requires i < 9 && j < 9
    ensures PrizeLabel(i) == "prize " + [DigitChar(i + 1)]
    ensures PrizeLabel(i) == PrizeLabel(j) <==> i == j
  {
    assert PrizeLabel(i)[6] == DigitChar(i + 1);
    assert PrizeLabel(j)[6] == DigitChar(j + 1);
  }

  /** The first tier is labelled "prize 1" and the last "prize 9". */
  lemma FirstAndLastLabels()
    ensures PrizeLabel(0) == "prize 1" && PrizeLabel(8) == "prize 9"
  {
    PrizeLabels(0, 0);
    PrizeLabels(8, 8);
    assert DigitChar(1) == '1' && DigitChar(9) == '9';
  }

  /** "prize 1" carries `prize_eight` and "prize 9" carries `prize_special`. */
  lemma TierOrder(src: seq<LotteryRow>, provinces: seq<ProvinceRow>, dates: seq<DateRow>, k: nat)
    requires k < |src|
    ensures 9 * k + 8 < |FactsOf(src, provinces, dates)|
    ensures FactsOf(src, provinces, dates)[9 * k].prizeName == "prize 1"
    ensures FactsOf(src, provinces, dates)[9 * k].result == src[k].prizeEight
    ensures FactsOf(src, provinces, dates)[9 * k + 8].prizeName == "prize 9"
    ensures FactsOf(src, provinces, dates)[9 * k + 8].result == src[k].prizeSpecial
  {
    FactAt(src, provinces, dates, k, 0);
    FactAt(src, provinces, dates, k, 8);
    FirstAndLastLabels();
  }

  /** The nine facts of one staging row share its province id and its date id. */
  lemma SameIdsPerRow(src: seq<LotteryRow>, provinces: seq<ProvinceRow>, dates: seq<DateRow>, k: nat, i: nat, j: nat)
    requires k < |src| && i < 9 && j < 9
    ensures 9 * k + i < |FactsOf(src, provinces, dates)| && 9 * k + j < |FactsOf(src, provinces, dates)|
    ensures FactsOf(src, provinces, dates)[9 * k + i].provinceId == FactsOf(src, provinces, dates)[9 * k + j].provinceId
    ensures FactsOf(src, provinces, dates)[9 * k + i].dateId == FactsOf(src, provinces, dates)[9 * k + j].dateId
  {
    FactAt(src, provinces, dates, k, i);
    FactAt(src, provinces, dates, k, j);
  }

  /** A staging row whose province (date) is not in the dimension gets the sentinel -1. */
  lemma {:induction false} UnresolvedIsSentinel(src: seq<LotteryRow>, provinces: seq<ProvinceRow>, dates: seq<DateRow>, n: nat)
    requires n < |FactsOf(src, provinces, dates)|
    ensures var k := n / 9;
            k < |src|
            && (!ProvinceExists(provinces, src[k].province) ==> FactsOf(src, provinces, dates)[n].provinceId == -1)
            && (!DateExists(dates, src[k].date) ==> FactsOf(src, provinces, dates)[n].dateId == -1)
  {
    FactFanOut(src, provinces, dates);
    FactAt(src, provinces, dates, n / 9, n % 9);
  }

  /** Every fact carries -1 for its province (date) exactly when that value is absent from the dimension. */
  predicate SentinelsMarkAbsent(src: seq<LotteryRow>, provinces: seq<ProvinceRow>, dates: seq<DateRow>) {
    var facts := FactsOf(src, provinces, dates);
    forall n | 0 <= n < |facts| && n / 9 < |src| ::
      && (facts[n].provinceId == -1 <==> !ProvinceExists(provinces, src[n / 9].province))
      && (facts[n].dateId == -1 <==> !DateExists(dates, src[n / 9].date))
  }

  /** With positive surrogate ids, fact `n` carries -1 exactly for the values its staging row misses. */
  lemma SentinelIffAbsentAt(src: seq<LotteryRow>, provinces: seq<ProvinceRow>, dates: seq<DateRow>, n: nat)
    requires PositiveProvinceIds(provinces) && PositiveDateIds(dates)
    requires n / 9 < |src|
    ensures n < |FactsOf(src, provinces, dates)|
    ensures FactsOf(src, provinces, dates)[n].provinceId == -1 <==> !ProvinceExists(provinces, src[n / 9].province)
    ensures FactsOf(src, provinces, dates)[n].dateId == -1 <==> !DateExists(dates, src[n / 9].date)
  {
    FactAt(src, provinces, dates, n / 9, n % 9);
    ProvinceExistsIffResolved(provinces, src[n / 9].province);
    DateExistsIffResolved(dates, src[n / 9].date);
  }

  /**
   * With positive surrogate ids in both dimensions, -1 marks exactly the unresolved values:
   * a fact whose id is -1 names a province (date) that is absent, and every absent one gets -1.
   */
  lemma SentinelIffAbsent(src: seq<LotteryRow>, provinces: seq<ProvinceRow>, dates: seq<DateRow>)
    requires PositiveProvinceIds(provinces) && PositiveDateIds(dates)
    ensures SentinelsMarkAbsent(src, provinces, dates)
  {
    forall n | 0 <= n < |FactsOf(src, provinces, dates)| && n / 9 < |src|
      ensures FactsOf(src, provinces, dates)[n].provinceId == -1 <==> !ProvinceExists(provinces, src[n / 9].province)
      ensures FactsOf(src, provinces, dates)[n].dateId == -1 <==> !DateExists(dates, src[n / 9].date)
    {
      SentinelIffAbsentAt(src, provinces, dates, n);
    }
  }

  /** Loaded before any dimension row exists, every fact refers to province -1 and date -1. */
  lemma FactsAgainstEmptyDimensions(src: seq<LotteryRow>)
    ensures forall n | 0 <= n < |FactsOf(src, [], [])| ::
              FactsOf(src, [], [])[n].provinceId == -1 && FactsOf(src, [], [])[n].dateId == -1
  {
    forall n | 0 <= n < |FactsOf(src, [], [])|
      ensures FactsOf(src, [], [])[n].provinceId == -1 && FactsOf(src, [], [])[n].dateId == -1
    {
      UnresolvedIsSentinel(src, [], [], n);
    }
  }
}
