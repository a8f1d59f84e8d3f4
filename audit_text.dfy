/** external_audit_parser.py: reading the four line items out of the text of
    an audit report by label patterns. Each label is two words that may be
    separated by whitespace (`자본 총계`), followed by whitespace, at most one
    colon (ASCII or full-width) and whitespace, then the amount. The text is
    searched with its line breaks removed. The `re.IGNORECASE` flag the code
    passes changes nothing here: no pattern holds a cased letter. */
module AuditText {
  import opened Wrappers
  import opened Text
  import opened Regex
  import Figures

  /** The pattern of each line item, in the order of the code's `patterns`
      dictionary: `자본\s*총계`, `부채\s*총계`, `매출\s*액` and `영업\s*이익`, each
      followed by `\s*[:：]?\s*([0-9,]+)`. */
  const Labels: seq<(string, Pattern)> := [
    (Figures.CapitalTotal, Labelled("자본", "총계")),
    (Figures.LiabilitiesTotal, Labelled("부채", "총계")),
    (Figures.Revenue, Labelled("매출", "액")),
    (Figures.OperatingIncome, Labelled("영업", "이익"))
  ]

  /** The labels cover exactly the four line items, in their usual order. */
  lemma LabelsCoverKeys()
    ensures |Labels| == |Figures.Keys|
    ensures forall n :: 0 <= n < |Labels| ==> Labels[n].0 == Figures.Keys[n] && Labels[n].1.Labelled?
  {
  }

  /** Each line item has one label. */
  lemma LabelsDistinct()
    ensures forall m, n :: 0 <= m < n < |Labels| ==> Labels[m].0 != Labels[n].0
  {
    Figures.KeysDistinct();
    LabelsCoverKeys();
  }

  /** The value recorded for a label pattern: the group of the leftmost match
      in the text without its line breaks, or `"없음"`. */
  function LabelValue(p: Pattern, text: string): (v: string)
    requires p.Labelled?
    ensures v == Figures.Missing || (v != [] && AllIn(v, Amount))
  {
    var cleaned := Delete(text, Newline);
    match Search(p, cleaned)
    case None => Figures.Missing
    case Some(g) => SearchAmount(p, cleaned); g
  }

  /** The dictionary the code starts from: every line item is `"없음"`. */
  const Initial: map<string, string> := map[
    Figures.CapitalTotal := Figures.Missing,
    Figures.LiabilitiesTotal := Figures.Missing,
    Figures.Revenue := Figures.Missing,
    Figures.OperatingIncome := Figures.Missing
  ]

  lemma InitialCoversKeys()
    ensures Initial.Keys == set k | k in Figures.Keys
    ensures forall k :: k in Initial ==> Initial[k] == Figures.Missing
  {
  }

  /** `extract_financial_values_from_text`: every line item starts as `"없음"`
      and is overwritten only when its own pattern matches. */
  method ExtractFinancialValuesFromText(text: string) returns (result: map<string, string>)
    ensures result.Keys == set k | k in Figures.Keys
    ensures forall n :: 0 <= n < |Labels| ==> result[Labels[n].0] == LabelValue(Labels[n].1, text)
  {
    LabelsDistinct();
    LabelsCoverKeys();
    InitialCoversKeys();
    result := FillIn(Initial, Labels, text);
  }

  /** The loop of `extract_financial_values_from_text` over `labels`, each
      with its own key, starting from a dictionary where each of those keys
      holds `"없음"`. */
  method FillIn(start: map<string, string>, labels: seq<(string, Pattern)>, text: string)
    returns (result: map<string, string>)
    requires forall n :: 0 <= n < |labels| ==> labels[n].1.Labelled? && labels[n].0 in start
    requires forall n :: 0 <= n < |labels| ==> start[labels[n].0] == Figures.Missing
    requires forall m, n :: 0 <= m < n < |labels| ==> labels[m].0 != labels[n].0
    ensures result.Keys == start.Keys
    ensures forall n :: 0 <= n < |labels| ==> result[labels[n].0] == LabelValue(labels[n].1, text)
  {
    result := start;
    for n := 0 to |labels|
      invariant result.Keys == start.Keys
      invariant forall m :: 0 <= m < n ==> result[labels[m].0] == LabelValue(labels[m].1, text)
      invariant forall m :: n <= m < |labels| ==> result[labels[m].0] == Figures.Missing
    {
      var (key, pattern) := labels[n];
      var before := result;
      var found := Search(pattern, Delete(text, Newline));
      if found.Some? {
        result := result[key := found.value];
      }
      assert result[key] == LabelValue(pattern, text);
      forall m | 0 <= m < |labels| && m != n
        ensures result[labels[m].0] == before[labels[m].0]
      {
        assert labels[m].0 != key;
      }
    }
  }

  /** A value is `"없음"` exactly when the pattern matches nowhere in the text
      without its line breaks. */
  lemma LabelValueMissing(p: Pattern, text: string)
    requires p.Labelled?
    ensures LabelValue(p, text) == Figures.Missing <==>
            forall i :: 0 <= i <= |Delete(text, Newline)| ==> MatchAt(p, Delete(text, Newline), i).None?
  {
    MissingWhenUnmatched(p, text);
    SearchNone(p, Delete(text, Newline));
  }

  lemma MissingWhenUnmatched(p: Pattern, text: string)
    requires p.Labelled?
    ensures LabelValue(p, text) == Figures.Missing <==> Search(p, Delete(text, Newline)).None?
  {
    SearchAmount(p, Delete(text, Newline));
    assert !Amount.Has(Figures.Missing[0]);
  }

  /** A found value is the whole run of digits and commas of the leftmost
      match, and that match has only whitespace between the two words of the
      label and only whitespace and at most one colon between the label and
      the amount. */
  lemma LabelValueShape(head: string, tail: string, text: string)
    requires LabelValue(Labelled(head, tail), text) != Figures.Missing
    ensures exists i: nat, a: nat, g: nat, e: nat :: LabelledMatch(head, tail, Delete(text, Newline), i, a, g, e)
                                 && LabelValue(Labelled(head, tail), text) == Delete(text, Newline)[g..e]
  {
    var cleaned := Delete(text, Newline);
    var p := Labelled(head, tail);
    assert Search(p, cleaned).Some?;
    var i := FindFrom(p, cleaned, 0).value;
    var a, g, e := LeftmostLabelled(head, tail, cleaned, i);
  }

  /** The leftmost match of `Labelled(head, tail)` in `s` starts at `i`, has
      its label's second word at `a` and its amount at `s[g..e]`. */
  predicate LabelledMatch(head: string, tail: string, s: string, i: nat, a: nat, g: nat, e: nat) {
    && i + |head| <= a && a + |tail| <= g < e <= |s|
    && (forall j :: 0 <= j < i ==> MatchAt(Labelled(head, tail), s, j).None?)
    && StartsAt(s, i, head) && AllInRange(s, i + |head|, a, Space)
    && StartsAt(s, a, tail) && SeparatorAt(s, a + |tail|, g)
    && AllInRange(s, g, e, Amount) && (e == |s| || !Amount.Has(s[e]))
  }

  lemma LeftmostLabelled(head: string, tail: string, s: string, i: nat) returns (a: nat, g: nat, e: nat)
    requires i <= |s| && MatchAt(Labelled(head, tail), s, i).Some?
    requires forall j :: 0 <= j < i ==> MatchAt(Labelled(head, tail), s, j).None?
    ensures LabelledMatch(head, tail, s, i, a, g, e)
    ensures GroupText(Labelled(head, tail), s, i) == s[g..e]
  {
    var m := MatchAt(Labelled(head, tail), s, i).value;
    LabelledShape(head, tail, s, i);
    a :| i + |head| <= a && a + |tail| <= m.group
         && AllInRange(s, i + |head|, a, Space) && StartsAt(s, a, tail)
         && SeparatorAt(s, a + |tail|, m.group);
    g, e := m.group, m.end;
  }

  /** Removing line breaks joins a number split across lines. */
  lemma NewlineJoinsDigits()
    ensures Delete("1,2\n34", Newline) == "1,234"
  {
  }

  /** The sample line `자본총계 : 1,234,500 원`. */
  const SampleLine := "자본총계 : 1,234,500 원"

  /** Where the parts of the sample line sit: the label at 0 and 2, the
      colon at 5, the amount at 7 up to 16. */
  lemma SampleLineLayout()
    ensures StartsAt(SampleLine, 0, "자본") && StartsAt(SampleLine, 2, "총계") && !IsSpace("총계"[0])
    ensures SeparatorAt(SampleLine, 4, 7) && Amount.Has(SampleLine[7])
  {
    assert SampleLine[5] == ':' && AllInRange(SampleLine, 4, 5, Space) && AllInRange(SampleLine, 6, 7, Space);
  }

  /** The amount of the sample line and what follows it. */
  lemma SampleLineAmount()
    ensures AllInRange(SampleLine, 7, 16, Amount) && !Amount.Has(SampleLine[16])
    ensures SampleLine[7..16] == "1,234,500"
  {
  }

  lemma SampleLineOneLine()
    ensures NoneIn(SampleLine, Newline)
  {
  }

  /** The label pattern of `자본총계` matches the sample line at its start,
      with the amount at 7 up to 16. */
  lemma SampleLineMatch()
    ensures MatchAt(Labelled("자본", "총계"), SampleLine, 0) == Some(Match(7, 16))
  {
    SampleLineLayout();
    SampleLineAmount();
    LabelledComplete("자본", "총계", SampleLine, 0, 2, 7);
    LabelledEnd("자본", "총계", SampleLine, 0, 7, 16);
  }

  /** `"자본총계 : 1,234,500 원"` yields `"1,234,500"` for `자본총계`. */
  lemma CapitalTotalExample()
    ensures LabelValue(Labels[0].1, SampleLine) == "1,234,500"
  {
    SampleLineMatch();
    SampleLineAmount();
    SampleLineOneLine();
    DeleteNothing(SampleLine, Newline);
    assert FindFrom(Labelled("자본", "총계"), SampleLine, 0) == Some(0);
  }
}
