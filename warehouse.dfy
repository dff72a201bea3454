/**
 * The warehouse database as the transfer updates it in place, and the transfer methods:
 * `transferResultLotteryData`, `transferProvinceData`, `transferDateData` and `transferData`.
 */
module Warehouse {
  import opened Schema
  import opened Resolver
  import opened Dimensions
  import opened Facts

  /** Appending in two steps is appending once. */
  lemma AppendAssociative<T>(a: seq<T>, b: seq<T>, c: seq<T>)
    ensures (a + b) + c == a + (b + c)
  {
  }

  class Warehouse {
    var dimProvince: ProvinceTable
    var dimDate: seq<DateRow>
    var resultLottery: seq<FactRow>

    /** Surrogate ids are fresh and positive (the database's AUTO_INCREMENT keys). */
    ghost predicate Valid()
      reads this
    {
      WellFormed(dimProvince) && PositiveDateIds(dimDate)
    }

    constructor (provinces: ProvinceTable, dates: seq<DateRow>, facts: seq<FactRow>)
      requires WellFormed(provinces) && PositiveDateIds(dates)
      ensures dimProvince == provinces && dimDate == dates && resultLottery == facts
      ensures Valid()
    {
      dimProvince := provinces;
      dimDate := dates;
      resultLottery := facts;
    }

    /**
     * For every staging row: resolve both ids, then append the nine tier rows. The
     * dimensions are read, not written, so every row resolves against the same tables.
     */
    method TransferResultLotteryData(src: seq<LotteryRow>)
      modifies this`resultLottery
      ensures resultLottery == old(resultLottery) + FactsOf(src, dimProvince.rows, dimDate)
      ensures |resultLottery| == |old(resultLottery)| + 9 * |src|
    {
      ghost var before := resultLottery;
      var provinces := dimProvince.rows;
      var dates := dimDate;
      var k := 0;
      while k < |src|
        invariant 0 <= k <= |src|
        invariant resultLottery == before + FactsOf(src[..k], provinces, dates)
      {
        ghost var loaded := FactsOf(src[..k], provinces, dates);
        LoadRow(src[k], provinces, dates);
        ghost var added := RowFacts(src[k], ProvinceId(provinces, src[k].province), DateId(dates, src[k].date));
        AppendAssociative(before, loaded, added);
        FactsOfSnoc(src, k, provinces, dates);
        k := k + 1;
      }
      FactsOfAll(src, provinces, dates);
    }

    /**
     * The body of the fact loop for one staging row: resolve its province and date ids, then
     * insert one fact per prize tier, in tier order.
     */
    method LoadRow(row: LotteryRow, provinces: seq<ProvinceRow>, dates: seq<DateRow>)
      modifies this`resultLottery
      ensures resultLottery == old(resultLottery) + RowFacts(row, ProvinceId(provinces, row.province), DateId(dates, row.date))
    {
      var provinceId := ProvinceId(provinces, row.province);
      var dateId := DateId(dates, row.date);
      var prizes := Tiers(row);
      for i := 0 to |prizes|
        invariant resultLottery == old(resultLottery) + TierFacts(row, provinceId, dateId, i)
      {
        resultLottery := resultLottery + [FactRow(PrizeLabel(i), prizes[i], provinceId, dateId)];
      }
    }

    /** For every distinct province: insert it when `provinceExists` finds no row. */
    method TransferProvinceData(order: seq<string>)
      modifies this`dimProvince
      ensures dimProvince == LoadProvinces(old(dimProvince), order)
      ensures old(dimProvince.rows) <= dimProvince.rows
      ensures forall x | x in order :: ProvinceExists(dimProvince.rows, x)
      ensures old(WellFormed(dimProvince)) ==> WellFormed(dimProvince)
      ensures old(UniqueNames(dimProvince.rows)) ==> UniqueNames(dimProvince.rows)
    {
      for k := 0 to |order|
        invariant LoadProvinces(old(dimProvince), order) == LoadProvinces(dimProvince, order[k..])
      {
        var nameProvince := order[k];
        assert order[k..][1..] == order[k + 1..];
        if !ProvinceExists(dimProvince.rows, nameProvince) {
          dimProvince := InsertProvince(dimProvince, nameProvince);
        }
      }
      assert order[|order|..] == [];
      LoadProvincesKeepsRows(old(dimProvince), order);
      LoadProvincesCovers(old(dimProvince), order);
      if old(WellFormed(dimProvince)) {
        LoadProvincesWellFormed(old(dimProvince), order);
      }
      if old(UniqueNames(dimProvince.rows)) {
        LoadProvincesUniqueNames(old(dimProvince), order);
      }
    }

    /**
     * For every distinct date: split and parse it, then, when `dateExists` finds no row, run
     * the insert, whose fifth placeholder is unbound. The method therefore never changes
     * `dim_date`: it either finds every date present or stops with an exception.
     */
    method TransferDateData(order: seq<string>) returns (status: Completion)
      ensures status == LoadDates(dimDate, order)
    {
      ghost var steps := DateSteps(dimDate, order);
      for k := 0 to |order|
        invariant forall j | 0 <= j < k :: steps[j] == Normal
      {
        var dateStr := order[k];
        var parsed := ParseDate(dateStr);
        if parsed.Failure? {
          FirstStopAt(steps, k);
          return Unchecked(parsed.error);
        }
        if !DateExists(dimDate, dateStr) {
          var params := BindDateInsert(dateStr, parsed.value);
          DateInsertShifted(dateStr, parsed.value);
          var missing := FirstUnbound(params);
          FirstStopAt(steps, k);
          return Checked(NoValueSpecified(missing.value));
        }
      }
      FirstStopNormal(steps);
      return Normal;
    }

    /** Facts first, then provinces, then dates; an exception ends the sequence at once. */
    method TransferData(src: seq<LotteryRow>, provinceOrder: seq<string>, dateOrder: seq<string>)
      returns (status: Completion)
      requires DistinctEnumeration(provinceOrder, SourceProvinces(src))
      requires DistinctEnumeration(dateOrder, SourceDates(src))
      modifies this
      ensures resultLottery == old(resultLottery) + FactsOf(src, old(dimProvince.rows), old(dimDate))
      ensures dimProvince == LoadProvinces(old(dimProvince), provinceOrder)
      ensures dimDate == old(dimDate)
      ensures status == LoadDates(old(dimDate), dateOrder)
      ensures forall r | r in src :: ProvinceExists(dimProvince.rows, r.province)
      ensures old(Valid()) ==> Valid()
      ensures old(Valid()) ==> SentinelsMarkAbsent(src, old(dimProvince.rows), old(dimDate))
    {
      if Valid() {
        SentinelIffAbsent(src, dimProvince.rows, dimDate);
      }
      TransferResultLotteryData(src);
      TransferProvinceData(provinceOrder);
      status := TransferDateData(dateOrder);
    }
  }
}
