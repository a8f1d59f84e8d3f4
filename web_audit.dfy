/** external_web_audit_parser.py: finding an external audit report through
    the registry's public search page, turning its receipt number into the
    report's PDF address, and reading four line items out of the report's
    text by keyword proximity. The HTTP requests, the HTML parsing and the PDF
    text extraction are outside the model: the search page is given as its
    list of anchors, the viewer page as the `src` of its PDF frame, and the
    report as the texts of its pages. */
module WebAudit {
  import opened Wrappers
  import opened Text
  import opened Regex
  import Figures

  // ---------------------------------------------------------------- names

  /** `clean_corp_name`: delete every corporate designator (`(주)`, `주식회사`,
      `㈜`, `유한회사`, `(유)`, and any other `주` or `유` with the whitespace
      after it), then strip whitespace from both ends. */
  function CleanCorpName(name: string): (r: string)
    ensures forall k :: 0 <= k < |r| ==> r[k] !in CorpMarks
    ensures r == [] || (!IsSpace(r[0]) && !IsSpace(r[|r| - 1]))
    ensures |r| <= |name|
  {
    var removed := Sub(CorpDesignator, name);
    SubFromAvoids(CorpDesignator, name, 0, CorpMarks);
    StripKeepsOut(removed, CorpMarks);
    Strip(removed)
  }

  /** A name is left unchanged exactly when it holds no `주`, `유` or `㈜` and
      neither starts nor ends with whitespace. */
  lemma CleanCorpNameFixedPoint(name: string)
    ensures CleanCorpName(name) == name <==>
            (forall k :: 0 <= k < |name| ==> name[k] !in CorpMarks)
            && (name == [] || (!IsSpace(name[0]) && !IsSpace(name[|name| - 1])))
  {
    if (forall k :: 0 <= k < |name| ==> name[k] !in CorpMarks)
       && (name == [] || (!IsSpace(name[0]) && !IsSpace(name[|name| - 1])))
    {
      forall j | 0 <= j <= |name| ensures MatchAt(CorpDesignator, name, j).None? {
        CorpDesignatorNeedsMarkFrom(name, 0, j);
      }
      SubFromUnmatched(CorpDesignator, name, 0);
      StripStripped(name);
    }
  }

  /** Cleaning a cleaned name changes nothing. */
  lemma CleanCorpNameIdempotent(name: string)
    ensures CleanCorpName(CleanCorpName(name)) == CleanCorpName(name)
  {
    CleanCorpNameFixedPoint(CleanCorpName(name));
  }

  /** None of the designator words survives cleaning. */
  lemma CleanCorpNameDropsDesignators(name: string)
    ensures var r := CleanCorpName(name);
            !Contains(r, "(주)") && !Contains(r, "주식회사") && !Contains(r, "㈜")
            && !Contains(r, "유한회사") && !Contains(r, "(유)")
  {
    var r := CleanCorpName(name);
    forall w, i | w in ["(주)", "주식회사", "㈜", "유한회사", "(유)"] && 0 <= i <= |r| - |w|
      ensures !StartsAt(r, i, w)
    {
      var k := if w == "(주)" || w == "(유)" then 1 else 0;
      assert w[k] in CorpMarks;
    }
  }

  /** A name made of a mark-free head, one designator match right after it and
      a mark-free tail loses exactly that match before stripping. The head
      must not end in `(`, which could open a `(주)` or `(유)` across the seam. */
  lemma CleanCorpNameAround(pre: string, w: string, post: string)
    requires forall k :: 0 <= k < |pre| ==> pre[k] !in CorpMarks
    requires pre == [] || pre[|pre| - 1] != '('
    requires forall k :: 0 <= k < |post| ==> post[k] !in CorpMarks
    requires MatchAt(CorpDesignator, pre + w + post, |pre|) == Some(Match(|pre|, |pre| + |w|))
    ensures CleanCorpName(pre + w + post) == Strip(pre + post)
  {
    assert pre + w + post == pre + (w + post);
    CorpHeadUnmatched(pre, w + post);
    CorpTailUnmatched(pre + w, post);
    SubAround(CorpDesignator, pre, w, post);
  }

  /** A name with one designator match between a mark-free head and a mark-free
      tail cleans to the head and tail joined and stripped. */
  lemma CleanCorpNameFrom(name: string, pre: string, w: string, post: string, cleaned: string)
    requires name == pre + w + post && Strip(pre + post) == cleaned
    requires forall k :: 0 <= k < |pre| ==> pre[k] !in CorpMarks
    requires pre == [] || pre[|pre| - 1] != '('
    requires forall k :: 0 <= k < |post| ==> post[k] !in CorpMarks
    requires MatchAt(CorpDesignator, name, |pre|) == Some(Match(|pre|, |pre| + |w|))
    ensures CleanCorpName(name) == cleaned
  {
    CleanCorpNameAround(pre, w, post);
  }

  const ShortPrefixName := "(주)한국전자"

  /** `(주)한국전자` cleans to `한국전자`. */
  lemma CleanCorpNameShortPrefixExample()
    ensures CleanCorpName(ShortPrefixName) == "한국전자"
  {
    ShortPrefixFacts();
    CleanCorpNameFrom(ShortPrefixName, "", "(주)", "한국전자", "한국전자");
  }

  lemma ShortPrefixFacts()
    ensures ShortPrefixName == "" + "(주)" + "한국전자"
    ensures Strip("" + "한국전자") == "한국전자"
    ensures MatchAt(CorpDesignator, ShortPrefixName, 0) == Some(Match(0, 3))
  {
    assert StartsAt(ShortPrefixName, 0, "(주)");
    assert "" + "한국전자" == "한국전자";
    assert "한국전자"[0] == '한' && "한국전자"[3] == '자';
    StripStripped("한국전자");
  }

  const LongSuffixName := "한국전자 주식회사"

  /** `한국전자 주식회사` cleans to `한국전자`: the space left before the removed
      word is stripped. */
  lemma CleanCorpNameLongSuffixExample()
    ensures CleanCorpName(LongSuffixName) == "한국전자"
  {
    LongSuffixFacts();
    CleanCorpNameFrom(LongSuffixName, "한국전자 ", "주식회사", "", "한국전자");
  }

  lemma LongSuffixFacts()
    ensures LongSuffixName == "한국전자 " + "주식회사" + ""
    ensures Strip("한국전자 " + "") == "한국전자"
    ensures MatchAt(CorpDesignator, LongSuffixName, 5) == Some(Match(5, 9))
  {
    var s := LongSuffixName;
    assert s[5] == '주';
    assert StartsAt(s, 5, "주식회사");
    assert "한국전자 " + "" == "한국전자" + " ";
    assert "한국전자"[0] == '한' && "한국전자"[3] == '자';
    StripTrailing("한국전자", " ");
  }

  const StrayMarkName := "제주항공"

  /** `제주항공` cleans to `제항공`: every `주` is a designator to `re.sub`. */
  lemma CleanCorpNameStrayMarkExample()
    ensures CleanCorpName(StrayMarkName) == "제항공"
  {
    StrayMarkFacts();
    CleanCorpNameFrom(StrayMarkName, "제", "주", "항공", "제항공");
  }

  lemma StrayMarkFacts()
    ensures StrayMarkName == "제" + "주" + "항공"
    ensures Strip("제" + "항공") == "제항공"
    ensures MatchAt(CorpDesignator, StrayMarkName, 1) == Some(Match(1, 2))
  {
    var s := StrayMarkName;
    assert s[1] == '주' && s[2] == '항';
    assert !StartsAt(s, 1, "주식회사") by { assert s[2] != "주식회사"[1]; }
    RunEndAt(s, 2, 2, Space);
    assert "제" + "항공" == "제항공";
    assert "제항공"[0] == '제' && "제항공"[2] == '공';
    StripStripped("제항공");
  }

  const StrayMarkSpaceName := "A주 B"

  /** `A주 B` cleans to `AB`: the `주\s*` alternative also takes the space after
      the stray `주`. */
  lemma CleanCorpNameStrayMarkSpaceExample()
    ensures CleanCorpName(StrayMarkSpaceName) == "AB"
  {
    StrayMarkSpaceFacts();
    CleanCorpNameFrom(StrayMarkSpaceName, "A", "주 ", "B", "AB");
  }

  lemma StrayMarkSpaceFacts()
    ensures StrayMarkSpaceName == "A" + "주 " + "B"
    ensures Strip("A" + "B") == "AB"
    ensures MatchAt(CorpDesignator, StrayMarkSpaceName, 1) == Some(Match(1, 3))
  {
    var s := StrayMarkSpaceName;
    assert s[1] == '주' && s[2] == ' ' && s[3] == 'B';
    assert !StartsAt(s, 1, "주식회사") by { assert s[2] != "주식회사"[1]; }
    RunEndAt(s, 2, 3, Space);
    assert "A" + "B" == "AB";
    assert "AB"[0] == 'A' && "AB"[1] == 'B';
    StripStripped("AB");
  }

  // ------------------------------------------------------- search results

  /** One anchor of the search-result page, in document order: its text, its
      `href`, and the text of the `td` cell just before the `td` that holds
      the anchor (`None` when the anchor is not inside a `td`, or that `td`
      has no earlier sibling `td`). */
  datatype Anchor = Anchor(text: string, href: string, listedName: Option<string>)

  const NotFoundMessage := "웹에서 외부감사보고서를 찾을 수 없습니다."

  /** The receipt number `rcpNo=(\d+)` finds in an `href`. */
  function ReceiptNumberOf(href: string): Option<string> {
    Search(ReceiptNumber, href)
  }

  /** `rcpNo=` followed by a digit starts at position `k` of `href`. */
  predicate ReceiptAt(href: string, k: nat) {
    StartsAt(href, k, "rcpNo=") && k + 6 < |href| && Digit.Has(href[k + 6])
  }

  /** A receipt number is the whole, non-empty digit run after the leftmost
      `rcpNo=` that is followed by a digit. */
  lemma ReceiptNumberShape(href: string)
    requires ReceiptNumberOf(href).Some?
    ensures var d := ReceiptNumberOf(href).value;
            d != [] && AllIn(d, Digit) &&
            exists k :: 0 <= k && ReceiptAt(href, k) && (forall j :: 0 <= j < k ==> !ReceiptAt(href, j))
                        && d == href[k + 6..RunEnd(href, k + 6, Digit)]
  {
    var k := FindFrom(ReceiptNumber, href, 0).value;
    var m := MatchAt(ReceiptNumber, href, k).value;
    assert ReceiptNumberOf(href).value == href[m.group..m.end];
    assert m.group == k + 6 && m.end == RunEnd(href, k + 6, Digit);
    assert ReceiptAt(href, k);
    forall j | 0 <= j < k ensures !ReceiptAt(href, j) {
      assert MatchAt(ReceiptNumber, href, j).None?;
    }
  }

  /** The tests `get_latest_web_rcp_no` makes of one anchor, given the
      cleaned input name: the `a[href*='rcpNo']` selector, `"감사"` in the
      link text, a listed-name cell, the cleaned input contained in the
      cleaned listed name, and a receipt number in the `href`. */
  predicate Qualifies(cleanedInput: string, a: Anchor)
    ensures Qualifies(cleanedInput, a) ==>
              a.listedName.Some? && |cleanedInput| <= |CleanCorpName(a.listedName.value)| <= |a.listedName.value|
  {
    && Contains(a.href, "rcpNo")
    && Contains(a.text, "감사")
    && a.listedName.Some?
    && Contains(CleanCorpName(a.listedName.value), cleanedInput)
    && ReceiptNumberOf(a.href).Some?
  }

  /** The body of the loop of `get_latest_web_rcp_no` for one anchor, with
      its tests in the order the code makes them: the anchor's receipt number
      when it passes all of them, `None` when the loop moves on. */
  function AnchorReceipt(cleanedInput: string, link: Anchor): (r: Option<string>)
    ensures r.Some? <==> Qualifies(cleanedInput, link)
    ensures r.Some? ==> ReceiptNumberOf(link.href) == r
  {
    if Contains(link.href, "rcpNo") && Contains(link.text, "감사") then
      match link.listedName
      case Some(listedName) =>
        if Contains(CleanCorpName(listedName), cleanedInput) then ReceiptNumberOf(link.href)
        else None
      case None => None
    else None
  }

  /** `get_latest_web_rcp_no`, from the anchors of the search page: the
      receipt number of the first qualifying anchor; an exception when there
      is none. */
  method GetLatestWebRcpNo(corpName: string, anchors: seq<Anchor>) returns (r: Result<string, string>)
    ensures r.Failure? <==> forall k :: 0 <= k < |anchors| ==> !Qualifies(CleanCorpName(corpName), anchors[k])
    ensures r.Failure? ==> r.error == NotFoundMessage
    ensures r.Success? ==> exists k :: 0 <= k < |anchors| && Qualifies(CleanCorpName(corpName), anchors[k])
                                       && (forall j :: 0 <= j < k ==> !Qualifies(CleanCorpName(corpName), anchors[j]))
                                       && ReceiptNumberOf(anchors[k].href) == Some(r.value)
  {
    r := FirstReceipt(CleanCorpName(corpName), anchors);
  }

  /** The loop of `get_latest_web_rcp_no`, over the anchors in document
      order, once the input name is cleaned. */
  method FirstReceipt(cleanedInput: string, anchors: seq<Anchor>) returns (r: Result<string, string>)
    ensures r.Failure? <==> forall k :: 0 <= k < |anchors| ==> !Qualifies(cleanedInput, anchors[k])
    ensures r.Failure? ==> r.error == NotFoundMessage
    ensures r.Success? ==> exists k :: 0 <= k < |anchors| && Qualifies(cleanedInput, anchors[k])
                                       && (forall j :: 0 <= j < k ==> !Qualifies(cleanedInput, anchors[j]))
                                       && ReceiptNumberOf(anchors[k].href) == Some(r.value)
  {
    var i := 0;
    while i < |anchors|
      invariant 0 <= i <= |anchors|
      invariant forall j :: 0 <= j < i ==> AnchorReceipt(cleanedInput, anchors[j]).None?
    {
      var found := AnchorReceipt(cleanedInput, anchors[i]);
      if found.Some? {
        FirstQualifying(cleanedInput, anchors, i);
        return Success(found.value);
      }
      i := i + 1;
    }
    NoneQualifies(cleanedInput, anchors);
    return Failure(NotFoundMessage);
  }

  /** When no anchor passes the loop's tests, none qualifies. */
  lemma NoneQualifies(cleanedInput: string, anchors: seq<Anchor>)
    requires forall j :: 0 <= j < |anchors| ==> AnchorReceipt(cleanedInput, anchors[j]).None?
    ensures forall j :: 0 <= j < |anchors| ==> !Qualifies(cleanedInput, anchors[j])
  {
  }

  /** When anchor `i` is the first to pass the loop's tests, it is the first
      that qualifies, and its receipt number is the one returned. */
  lemma FirstQualifying(cleanedInput: string, anchors: seq<Anchor>, i: nat)
    requires i < |anchors| && AnchorReceipt(cleanedInput, anchors[i]).Some?
    requires forall j :: 0 <= j < i ==> AnchorReceipt(cleanedInput, anchors[j]).None?
    ensures !(forall k :: 0 <= k < |anchors| ==> !Qualifies(cleanedInput, anchors[k]))
    ensures exists k :: 0 <= k < |anchors| && Qualifies(cleanedInput, anchors[k])
                        && (forall j :: 0 <= j < k ==> !Qualifies(cleanedInput, anchors[j]))
                        && ReceiptNumberOf(anchors[k].href) == AnchorReceipt(cleanedInput, anchors[i])
  {
    assert Qualifies(cleanedInput, anchors[i]);
  }

  /** The name test is containment: an input that cleans to the empty string
      accepts every listed name. */
  lemma EmptyNameMatchesEveryListing(a: Anchor)
    ensures Qualifies("", a) <==>
            Contains(a.href, "rcpNo") && Contains(a.text, "감사") && a.listedName.Some?
            && ReceiptNumberOf(a.href).Some?
  {
    if a.listedName.Some? {
      assert StartsAt(CleanCorpName(a.listedName.value), 0, "");
    }
  }

  // ------------------------------------------------------------ the PDF URL

  const DartHost := "https://dart.fss.or.kr"
  const PdfLinkMissing := "PDF 링크를 찾을 수 없습니다."

  /** `get_pdf_download_url`, given the `src` attribute of the viewer page's
      `<iframe id="pdf">` (`None` when there is no such frame or it has no
      `src`): the host followed by the `src`, or an exception. */
  function PdfDownloadUrl(iframeSrc: Option<string>): (r: Result<string, string>)
    ensures r.Success? <==> iframeSrc.Some?
    ensures r.Success? ==> StartsAt(r.value, 0, DartHost) && r.value[|DartHost|..] == iframeSrc.value
    ensures r.Failure? ==> r.error == PdfLinkMissing
  {
    match iframeSrc
    case Some(src) => Success(DartHost + src)
    case None => Failure(PdfLinkMissing)
  }

  // -------------------------------------------------- keyword extraction

  /** `text += page.get_text()` over the pages: their texts joined in page
      order with no separator, so every page's text occurs in it. */
  function Concat(pages: seq<string>): (r: string)
    ensures forall k :: 0 <= k < |pages| ==> Contains(r, pages[k])
  {
    if pages == [] then []
    else
      var init, last := Concat(pages[..|pages| - 1]), pages[|pages| - 1];
      ConcatExtends(init, last, pages);
      init + last
  }

  /** The step of `Concat`: appending the last page keeps the earlier pages
      and adds the last. */
  lemma ConcatExtends(init: string, last: string, pages: seq<string>)
    requires pages != [] && last == pages[|pages| - 1]
    requires forall k :: 0 <= k < |pages| - 1 ==> Contains(init, pages[k])
    ensures forall k :: 0 <= k < |pages| ==> Contains(init + last, pages[k])
  {
    forall k | 0 <= k < |pages|
      ensures Contains(init + last, pages[k])
    {
      if k < |pages| - 1 {
        ContainsInAppend(init, last, pages[k]);
      } else {
        assert StartsAt(last, 0, last);
        ContainsInAppend(init, last, last);
      }
    }
  }

  /** What `parse_external_audit_pdf` records for `key`: the group of the
      leftmost match of `key.{0,20}?([\d,]+)`, or `"없음"`. */
  function KeywordValue(key: string, text: string): (v: string)
    ensures v == Figures.Missing || (v != [] && AllIn(v, Amount))
  {
    match Search(Proximity(key), text)
    case None => Figures.Missing
    case Some(g) => SearchAmount(Proximity(key), text); g
  }

  /** `parse_external_audit_pdf`, from the texts of the report's pages: the
      pages are joined in order, and each of the four keywords gets its value. */
  method ParseExternalAuditPdf(pages: seq<string>) returns (result: map<string, string>)
    ensures result.Keys == set k | k in Figures.Keys
    ensures forall key :: key in Figures.Keys ==> result[key] == KeywordValue(key, Concat(pages))
  {
    var text := "";
    for i := 0 to |pages|
      invariant text == Concat(pages[..i])
    {
      assert pages[..i + 1][..i] == pages[..i];
      text := text + pages[i];
    }
    assert pages[..|pages|] == pages;
    result := map[];
    var keywords := Figures.Keys;
    for i := 0 to |keywords|
      invariant result.Keys == set k | k in keywords[..i]
      invariant forall key :: key in keywords[..i] ==> result[key] == KeywordValue(key, text)
    {
      var key := keywords[i];
      assert keywords[..i + 1] == keywords[..i] + [key];
      result := result[key := KeywordValue(key, text)];
    }
    assert keywords[..|keywords|] == keywords;
  }

  /** The value is taken at the leftmost occurrence of the keyword that
      admits one: a gap of at most 20 characters, none of them a newline,
      before the first digit or comma. */
  lemma KeywordValueLeftmost(key: string, text: string)
    requires KeywordValue(key, text) != Figures.Missing
    ensures exists i :: 0 <= i <= |text| && StartsAt(text, i, key) && MatchAt(Proximity(key), text, i).Some?
                        && (forall j :: 0 <= j < i ==> MatchAt(Proximity(key), text, j).None?)
                        && KeywordValue(key, text) == GroupText(Proximity(key), text, i)
  {
  }

  /** A value is `"없음"` exactly when no occurrence of the keyword has a digit
      or comma within 20 characters of it on the same line. */
  lemma KeywordValueMissing(key: string, text: string)
    ensures KeywordValue(key, text) == Figures.Missing <==>
            forall i, g :: (0 <= i <= |text| && StartsAt(text, i, key) && i + |key| <= g <= i + |key| + Window
                            && g < |text| && Dots(text, i + |key|, g)) ==> !Amount.Has(text[g])
  {
    var p := Proximity(key);
    if Search(p, text).None? {
      forall i, g | 0 <= i <= |text| && StartsAt(text, i, key) && i + |key| <= g <= i + |key| + Window
                    && g < |text| && Dots(text, i + |key|, g)
        ensures !Amount.Has(text[g])
      {
        assert MatchAt(p, text, i).None?;
      }
    } else {
      SearchAmount(p, text);
      assert KeywordValue(key, text) != Figures.Missing by {
        assert !Amount.Has(Figures.Missing[0]);
      }
      var i := FindFrom(p, text, 0).value;
      var g := MatchAt(p, text, i).value.group;
      assert StartsAt(text, i, key) && i + |key| <= g <= i + |key| + Window
             && g < |text| && Dots(text, i + |key|, g) && Amount.Has(text[g]);
    }
  }

  /** A lone comma counts: `"자본총계, 5"` yields `","`. */
  lemma LoneCommaExample()
    ensures KeywordValue(Figures.CapitalTotal, "자본총계, 5") == ","
  {
    var s := "자본총계, 5";
    var p := Proximity(Figures.CapitalTotal);
    assert StartsAt(s, 0, Figures.CapitalTotal);
    assert LazyGap(s, 4, Window) == Some(4);
    assert RunEnd(s, 5, Amount) == 5;
    assert MatchAt(p, s, 0) == Some(Match(4, 5));
    assert FindFrom(p, s, 0) == Some(0);
  }
}
