/**
 * The ordinal spelling of a rank ("1st", "2nd", "3rd", "4th", "11th", "21st"),
 * as the `ordinalize` helper of the challenge view script computes it.
 */
module Ordinal {
  import opened Decimal

  /** The two-letter English ordinal suffix of n. */
  function Suffix(n: nat): (r: string)
    ensures |r| == 2 && !IsDigit(r[0]) && !IsDigit(r[1])
    ensures r == "st" <==> n % 10 == 1 && n % 100 != 11
    ensures r == "nd" <==> n % 10 == 2 && n % 100 != 12
    ensures r == "rd" <==> n % 10 == 3 && n % 100 != 13
    ensures r == "th" <==> !(n % 10 == 1 && n % 100 != 11) && !(n % 10 == 2 && n % 100 != 12)
                           && !(n % 10 == 3 && n % 100 != 13)
  {
    var j, k := n % 10, n % 100;
    if j == 1 && k != 11 then "st"
    else if j == 2 && k != 12 then "nd"
    else if j == 3 && k != 13 then "rd"
    else "th"
  }

  /** n's decimal digits followed by its ordinal suffix. */
  function Ordinalize(n: nat): string
  {
    NatToString(n) + Suffix(n)
  }

  /** The spelling of n reads back as n's digits, then n's suffix. */
  lemma OrdinalizeSpelling(n: nat)
    ensures var r := Ordinalize(n);
      && |r| >= 3
      && IsDigits(r[..|r| - 2]) && DigitsValue(r[..|r| - 2]) == n
      && r[|r| - 2..] == Suffix(n)
  {
    var r := Ordinalize(n);
    assert r[..|r| - 2] == NatToString(n);
    DigitsRoundTrip(n);
  }

  /** Distinct ranks are spelled differently. */
  lemma OrdinalizeInjective(m: nat, n: nat)
    ensures Ordinalize(m) == Ordinalize(n) <==> m == n
  {
    OrdinalizeSpelling(m);
    OrdinalizeSpelling(n);
  }

  /** The first ranks, as the award names and the solves list show them. */
  lemma OrdinalizeFirstRanks()
    ensures Ordinalize(1) == "1st" && Ordinalize(2) == "2nd"
    ensures Ordinalize(3) == "3rd" && Ordinalize(4) == "4th"
  {
    assert NatToString(1) == "1" && NatToString(2) == "2";
    assert NatToString(3) == "3" && NatToString(4) == "4";
  }

  /** The teens take "th"; larger numbers follow their last two digits. */
  lemma OrdinalizeTeens()
    ensures Ordinalize(11) == "11th" && Ordinalize(12) == "12th" && Ordinalize(13) == "13th"
  {
    assert NatToString(11) == "11";
    assert NatToString(12) == "12";
    assert NatToString(13) == "13";
  }

  lemma OrdinalizeLarger()
    ensures Ordinalize(21) == "21st" && Ordinalize(112) == "112th"
  {
    assert NatToString(21) == "21";
    assert NatToString(11) == "11";
    assert NatToString(112) == "112";
  }
}
