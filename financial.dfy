/** The four line items every extractor of the code base reports, and the
    value it reports for one it cannot find. */
module Figures {

  const CapitalTotal := "자본총계"
  const LiabilitiesTotal := "부채총계"
  const Revenue := "매출액"
  const OperatingIncome := "영업이익"

  /** The line items, in the order the code lists them. */
  const Keys: seq<string> := [CapitalTotal, LiabilitiesTotal, Revenue, OperatingIncome]

  /** "없음" ("none"): the value of a line item that was not found. */
  const Missing := "없음"

  lemma KeysDistinct()
    ensures forall i, j :: 0 <= i < j < |Keys| ==> Keys[i] != Keys[j]
  {
  }
}
