/** `month_full_name`: month numerals and their Portuguese names. */
module Months {
  import opened Wrappers
  import opened Text

  /** The entry stored under `k` in an association list, like `dict.get(k)`. */
  function Get<V>(table: seq<(string, V)>, k: string): (r: Option<V>)
    ensures r.None? <==> forall i :: 0 <= i < |table| ==> table[i].0 != k
    ensures r.Some? ==> exists i :: 0 <= i < |table| && table[i] == (k, r.value)
  {
    if |table| == 0 then None
    else if table[0].0 == k then Some(table[0].1)
    else
      var r := Get(table[1..], k);
      assert forall i :: 0 < i < |table| ==> table[i] == table[1..][i - 1];
      r
  }

  /** The month table of `month_full_name`. */
  const MonthTable: seq<(string, string)> := [
    ("01", "Janeiro"), ("02", "Fevereiro"), ("03", "Março"),
    ("04", "Abril"), ("05", "Maio"), ("06", "Junho"),
    ("07", "Julho"), ("08", "Agosto"), ("09", "Setembro"),
    ("10", "Outubro"), ("11", "Novembro"), ("12", "Dezembro")
  ]

  /** A two-digit month numeral from `01` to `12`. */
  predicate IsMonthNumeral(m: string) {
    |m| == 2 && AllDigits(m) && 1 <= DecimalValue(m) <= 12
  }

  /** `month_full_name`: the Portuguese name of a month numeral; any other text comes back unchanged. */
  function MonthFullName(m: string): (r: string)
    ensures IsMonthNumeral(m) <==> r != m
  {
    KeysAreNumerals();
    NumeralsAreKeys(m);
    Get(MonthTable, m).GetOr(m)
  }

  /** Every key of the month table is a month numeral, in calendar order, and no name equals its key. */
  lemma {:induction false} KeysAreNumerals()
    ensures forall i :: 0 <= i < |MonthTable| ==>
              IsMonthNumeral(MonthTable[i].0) && DecimalValue(MonthTable[i].0) == i + 1 && MonthTable[i].1 != MonthTable[i].0
  {
    forall i | 0 <= i < |MonthTable|
      ensures IsMonthNumeral(MonthTable[i].0) && DecimalValue(MonthTable[i].0) == i + 1 && MonthTable[i].1 != MonthTable[i].0
    {
      var k := MonthTable[i].0;
      assert |k| == 2 && k[..1] == [k[0]] && k[..1][..0] == [];
      assert DecimalValue(k) == i + 1;
    }
  }

  /** The value of a two-digit numeral, digit by digit. */
  lemma {:induction false} TwoDigitValue(m: string)
    requires |m| == 2 && AllDigits(m)
    ensures DecimalValue(m) == ((m[0] as int) - ('0' as int)) * 10 + ((m[1] as int) - ('0' as int))
  {
    var d0, d1 := (m[0] as int) - ('0' as int), (m[1] as int) - ('0' as int);
    assert m[..1][..0] == [];
    assert DecimalValue(m[..1]) == DecimalValue(m[..1][..0]) * 10 + d0;
    assert DecimalValue(m) == DecimalValue(m[..1]) * 10 + d1;
  }

  /** Two two-digit numerals of the same value are the same text. */
  lemma {:induction false} TwoDigitUnique(a: string, b: string)
    requires |a| == 2 && AllDigits(a) && |b| == 2 && AllDigits(b)
    requires DecimalValue(a) == DecimalValue(b)
    ensures a == b
  {
    TwoDigitValue(a);
    TwoDigitValue(b);
    assert a[0] == b[0] && a[1] == b[1];
    assert a == [a[0], a[1]] && b == [b[0], b[1]];
  }

  /** Every month numeral is a key of the month table. */
  lemma {:induction false} NumeralsAreKeys(m: string)
    ensures IsMonthNumeral(m) ==> MonthTable[DecimalValue(m) - 1].0 == m
  {
    if IsMonthNumeral(m) {
      KeysAreNumerals();
      TwoDigitUnique(m, MonthTable[DecimalValue(m) - 1].0);
    }
  }

  /** Each numeral of the table gets the name the table gives it. */
  lemma {:induction false} MonthFullNameFollowsTable(i: nat)
    requires i < |MonthTable|
    ensures MonthFullName(MonthTable[i].0) == MonthTable[i].1
  {
    var k := MonthTable[i].0;
    KeysAreNumerals();
    var j :| 0 <= j < |MonthTable| && MonthTable[j] == (k, Get(MonthTable, k).value);
    assert DecimalValue(MonthTable[j].0) == j + 1;
  }
}
