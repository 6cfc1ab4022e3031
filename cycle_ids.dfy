/**
 * Submission cycles are named by month: "YYYY-MM". The schedulers and the admin dashboard
 * write the id of a month as `${year}-${String(month).padStart(2, '0')}`; the lock job and
 * the missed-month email read it back with split('-') and parseInt.
 */
module CycleIds {
  import opened Wrappers
  import opened Text
  import Calendar

  /** The cycle id of (year, month), month counted from 1. */
  function Format(year: int, month: nat): string
  {
    IntToString(year) + "-" + PadStart2(NatToString(month))
  }

  /** The cycle id of the UTC month that contains timestamp t. */
  function CycleIdAt(t: int): string
  {
    var d := Calendar.UtcDate(t);
    Format(d.year, d.month)
  }

  /**
   * `const [yearStr, monthStr] = cycleId.split('-')` followed by parseInt of each part; a
   * missing part or one without leading digits reads as NaN, here None.
   */
  function ParseParts(cycleId: string): (Option<int>, Option<int>)
  {
    var parts := Split(cycleId, '-');
    (ParseInt(parts[0]), if |parts| >= 2 then ParseInt(parts[1]) else None)
  }

  /** The id of a month splits at its one '-' into the year digits and the padded month digits. */
  lemma SplitFormat(year: nat, month: nat)
    requires 1 <= month <= 12
    ensures Split(Format(year, month), '-') == [NatToString(year), PadStart2(NatToString(month))]
  {
    var ys := NatToString(year);
    var ms := PadStart2(NatToString(month));
    assert '-' !in ys by {
      assert forall i :: 0 <= i < |ys| ==> IsDigit(ys[i]);
    }
    PaddedMonthValue(month);
    assert '-' !in ms by {
      assert forall i :: 0 <= i < |ms| ==> IsDigit(ms[i]);
    }
    assert Format(year, month) == ys + ['-'] + ms;
    SplitAt(ys, '-', ms);
  }

  /** Reading back the id of a month gives the month. */
  lemma ParseFormat(year: nat, month: nat)
    requires 1 <= month <= 12
    ensures ParseParts(Format(year, month)) == (Some(year as int), Some(month as int))
  {
    SplitFormat(year, month);
    DigitsValueOfNatToString(year);
    PaddedMonthValue(month);
  }

  lemma PaddedMonthValue(month: nat)
    requires 1 <= month <= 12
    ensures AllDigits(PadStart2(NatToString(month)))
    ensures DigitsValue(PadStart2(NatToString(month))) == month
    ensures |PadStart2(NatToString(month))| == 2
  {
    var ms := NatToString(month);
    DigitsValueOfNatToString(month);
    if month < 10 {
      var p := PadStart2(ms);
      assert p == ['0', DigitChar(month)];
      assert p[..1] == ['0'];
      assert p[..1][..0] == [];
    }
  }
}
