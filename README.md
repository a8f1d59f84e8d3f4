# dart-financial-fetcher, modelled in Dafny

dart-financial-fetcher looks up four line items of Korean companies:
자본총계 (total equity), 부채총계 (total liabilities), 매출액 (revenue) and
영업이익 (operating income). It has two ways of doing so:

- **OpenDART.** `open_dart_reader.py` cleans the company names of an uploaded
  table. It is meant to collect the legal-form tokens `(주)` and `주식회사`
  found in them (as written, that call raises; see "## Findings").
  It then asks OpenDART (through OpenDartReader) for the statements of the
  first five names, producing one record per name.
- **The DART web site.** `external_web_audit_parser.py` searches the public
  search page for the company's external audit report. It turns the report's
  receipt number (`rcpNo`) into the address of its PDF, and reads the four
  line items out of the PDF's text by keyword proximity.
  `external_audit_parser.py` reads the same items out of a report's text with
  label patterns.

The model has seven modules, one file each:

- `Wrappers`: `Option` and `Result`.
- `Text`: Python's whitespace, `strip()`, character classes, and deleting a
  class of characters.
- `Regex`: the nine regular expression literals of the code base as a
  six-constructor `Pattern` datatype with a match function per position.
  `Labelled(head, tail)` stands for the four label patterns of
  `external_audit_parser.py`, and `Proximity(key)` for the keyword template
  `{key}.{0,20}?([\d,]+)` instantiated with each line item. `re.sub(p, "", s)` is a
  left-to-right scan that deletes each match. `re.search` and `str.extract`
  take the leftmost match.
- `Figures`: the four line items and the `"없음"` ("none") placeholder.
- `WebAudit`: `external_web_audit_parser.py`.
- `AuditText`: `external_audit_parser.py`.
- `DartReader`: `open_dart_reader.py`.

Loops in the source are methods with loop invariants. Each is proved against
a function that states the result. The searches carry their branch order
and their error messages. HTTP, HTML and PDF parsing, and the OpenDART calls
are inputs to the model:

- the search page is its list of anchors;
- the viewer page is the `src` of its PDF frame;
- the report is the texts of its pages;
- `find_corp_code` and `finstate` are function parameters that return a value
  or an exception message.

Some code behaviour differs from its comments or from what a reader might
expect. The model follows the code in each case:

- `get_latest_web_rcp_no` is commented as finding the most recent report. The
  code returns the first qualifying anchor in document order, and so does
  the model.
- The company-name test is `cleaned_input in clean_corp_name(listed_name)`.
  This is containment, so an input that cleans to the empty string accepts
  every listing (`WebAudit.EmptyNameMatchesEveryListing`).
- `clean_corp_name` deletes every `주` and `유` in a name, with the whitespace
  after it, not only the designator words. After cleaning, no `주`, `유` or
  `㈜` remains.
- In `process_corp_info`, the character class `[\(주\)\s]` is tried before
  `주식회사`, so that alternative never applies. `주식회사한국전자` cleans to
  `식회사한국전자` (`DartReader.CleanNameLongToken`).
- The keyword pattern `{key}.{0,20}?([\d,]+)` accepts a lone comma as a value
  (`WebAudit.LoneCommaExample`).

## Model

| member | source | states |
|---|---|---|
| `Text.IsSpace` | external_web_audit_parser.py:9 | Python whitespace (`\s`, `strip()`) includes space, tab and newline, and is never a digit, a comma, `주`, `유` or `㈜` |
| `Text.Strip` | external_web_audit_parser.py:9 | `strip()`: the result neither starts nor ends with whitespace and is the middle of the input between two whitespace-only ends |
| `Text.StripStripped` | external_web_audit_parser.py:9 | a string without surrounding whitespace is left unchanged by `strip()` |
| `Text.StripIdempotent` | external_web_audit_parser.py:9 | stripping twice is stripping once |
| `Text.StripKeepsOut` | external_web_audit_parser.py:9 | `strip()` introduces no character that was not in the input |
| `Text.StripTrailing` | external_web_audit_parser.py:9 | `strip()` removes the trailing whitespace of an otherwise stripped string and nothing else |
| `Text.Contains` | external_web_audit_parser.py:27 | `w in s`: only a string no longer than `s` can occur in it, and the empty string occurs in every string |
| `Text.ContainsInAppend` | external_web_audit_parser.py:61-62 | what occurs in a part occurs in the concatenation |
| `Text.Delete` | external_audit_parser.py:24 | `replace("\n", "")`: the result has no character of the class and is no longer than the input |
| `Text.DeleteAppend` | external_audit_parser.py:24 | deleting a class from a concatenation deletes it from each part, in order |
| `Text.DeleteNothing` | external_audit_parser.py:24 | a text without the class is unchanged |
| `Text.DeleteIdempotent` | external_audit_parser.py:24 | deleting twice is deleting once |
| `Regex.MatchAt` | external_web_audit_parser.py:9 | a match found at a position starts there or later and is a non-empty stretch of the text |
| `Regex.CorpDesignatorAt` | external_web_audit_parser.py:9 | the designator pattern matches at a position exactly when a `주`, `유` or `㈜` or a `(주)`/`(유)` starts there, and every match holds one of `주`, `유`, `㈜` |
| `Regex.DartDesignatorAt` | open_dart_reader.py:7 | a match of the cleaning pattern (one of `(`, `)`, `주`, whitespace, or `주식회사`) starts at the position and is non-empty |
| `Regex.DesignatorTokenAt` | open_dart_reader.py:8 | the token pattern matches exactly where `(주)` or `주식회사` starts, and the group is that token |
| `Regex.ReceiptNumberAt` | external_web_audit_parser.py:36 | `rcpNo=(\d+)` matches exactly where `rcpNo=` is followed by a digit, and the group is the whole digit run |
| `Regex.LazyGap` | external_web_audit_parser.py:68 | `.{0,20}?` stops at the first amount character within 20 characters with no newline before it; none exists in the window when it fails |
| `Regex.ProximityAt` | external_web_audit_parser.py:68 | the keyword pattern matches exactly where the keyword is followed, within 20 non-newline characters, by a digit or comma; the group is the maximal run from the first such character |
| `Regex.LabelledAt` | external_audit_parser.py:17-20 | a label match's group is a maximal run of digits and commas |
| `Regex.AmountAfter` | external_audit_parser.py:17-20 | `\s*[:：]?\s*([0-9,]+)`: the group is a maximal run of digits and commas |
| `Regex.FindFrom` | external_web_audit_parser.py:36 | the leftmost position with a match, with no match before it; or no position has one |
| `Regex.Search` | external_web_audit_parser.py:36 | `re.search(...).group(1)`: when found, the group of a match at a position before which nothing matches; not found only when no position matches |
| `Regex.SearchNone` | external_web_audit_parser.py:36-37 | `re.search` returns `None` exactly when no position matches |
| `Regex.SearchAmount` | external_audit_parser.py:24-26 | an amount pattern's found group is a non-empty run of digits and commas |
| `Regex.SubFrom` | external_web_audit_parser.py:9 | the scan of `re.sub` from a position yields no more characters than remain |
| `Regex.Sub` | external_web_audit_parser.py:9 | `re.sub(p, "", s)` is no longer than `s` |
| `Regex.SubFromPrefix` | external_web_audit_parser.py:9 | a stretch where nothing matches is copied unchanged and the scan goes on after it |
| `Regex.SubFromSkips` | external_web_audit_parser.py:9 | a match is deleted and the scan resumes where it ends |
| `Regex.SubAround` | external_web_audit_parser.py:9 | an unmatched head, one match and an unmatched tail lose exactly the match |
| `Regex.CorpDesignatorUnmatchedAt` | external_web_audit_parser.py:9 | the designator pattern does not match at a character other than `주`, `유`, `㈜`, unless it is a `(` before one of them |
| `Regex.SubFromUnmatched` | external_web_audit_parser.py:9 | `re.sub` changes nothing where the pattern matches nowhere |
| `Regex.SubFromAvoids` | external_web_audit_parser.py:9 | a character at which a match always starts never survives `re.sub` |
| `Regex.CorpDesignatorNeedsMarkFrom` | external_web_audit_parser.py:9 | the designator pattern finds nothing in a stretch of text, up to its end, without `주`, `유`, `㈜` |
| `Regex.DartDesignatorIsCharClass` | open_dart_reader.py:7 | the cleaning pattern matches exactly one `(`, `)`, `주` or whitespace character, never `주식회사` as a whole |
| `Regex.DartSubIsDelete` | open_dart_reader.py:7 | that `re.sub` deletes exactly the characters `(`, `)`, `주` and whitespace |
| `Regex.LabelledShape` | external_audit_parser.py:17-20 | a label match has only whitespace between the two words and only whitespace with at most one colon between label and amount |
| `Regex.AmountAfterShape` | external_audit_parser.py:17-20 | what `\s*[:：]?\s*` consumes is whitespace with at most one colon |
| `Regex.LabelLocated` | external_audit_parser.py:17 | after the first word and its whitespace run, the match goes on right after the second word |
| `Regex.LabelledComplete` | external_audit_parser.py:17-20 | conversely, every text of that shape is matched, with the group starting at the first digit or comma |
| `Regex.AmountAfterComplete` | external_audit_parser.py:17-20 | a separator followed by an amount character is walked to that character |
| `Regex.LabelledEnd` | external_audit_parser.py:17-20 | a label match ends where the digit-and-comma run ends |
| `Figures.KeysDistinct` | external_web_audit_parser.py:66 | the four line items are distinct |
| `WebAudit.CleanCorpName` | external_web_audit_parser.py:5-9 | no `주`, `유` or `㈜` remains, the result has no surrounding whitespace, and it is no longer than the input |
| `WebAudit.CleanCorpNameFixedPoint` | external_web_audit_parser.py:9 | a name is unchanged exactly when it has no `주`/`유`/`㈜` and no surrounding whitespace |
| `WebAudit.CleanCorpNameIdempotent` | external_web_audit_parser.py:9 | cleaning twice is cleaning once |
| `WebAudit.CleanCorpNameDropsDesignators` | external_web_audit_parser.py:7-9 | none of `(주)`, `주식회사`, `㈜`, `유한회사`, `(유)` occurs in a cleaned name |
| `WebAudit.CleanCorpNameAround` | external_web_audit_parser.py:9 | a name with one designator match between a mark-free head (not ending in `(`) and a mark-free tail cleans to head and tail joined and stripped |
| `WebAudit.CleanCorpNameShortPrefixExample` | external_web_audit_parser.py:9 | `(주)한국전자` cleans to `한국전자` |
| `WebAudit.CleanCorpNameLongSuffixExample` | external_web_audit_parser.py:9 | `한국전자 주식회사` cleans to `한국전자`, the space before the designator going with `strip()` |
| `WebAudit.CleanCorpNameStrayMarkExample` | external_web_audit_parser.py:9 | `제주항공` cleans to `제항공`: a `주` inside a name is deleted too |
| `WebAudit.CleanCorpNameStrayMarkSpaceExample` | external_web_audit_parser.py:9 | `A주 B` cleans to `AB`: `주\s*` also takes the whitespace after a stray `주` |
| `WebAudit.ReceiptNumberShape` | external_web_audit_parser.py:36-38 | a receipt number is the non-empty whole digit run after the leftmost `rcpNo=` followed by a digit |
| `WebAudit.Qualifies` | external_web_audit_parser.py:24-37 | an anchor qualifies only with a listed name, and then the cleaned input is no longer than the cleaned listed name, which is no longer than the listed name |
| `WebAudit.AnchorReceipt` | external_web_audit_parser.py:25-40 | one pass of the loop yields a number exactly when the anchor qualifies, and then it is the anchor's receipt number |
| `WebAudit.FirstReceipt` | external_web_audit_parser.py:24-42 | the loop returns the receipt number of the first qualifying anchor, or raises the not-found message exactly when none qualifies |
| `WebAudit.NoneQualifies` | external_web_audit_parser.py:42 | the loop falls through only when no anchor qualifies |
| `WebAudit.FirstQualifying` | external_web_audit_parser.py:34-40 | the anchor the loop returns at is the first that qualifies |
| `WebAudit.GetLatestWebRcpNo` | external_web_audit_parser.py:11-42 | the same, with the input name cleaned first |
| `WebAudit.EmptyNameMatchesEveryListing` | external_web_audit_parser.py:34 | an empty cleaned input passes the name test for every listed name |
| `WebAudit.PdfDownloadUrl` | external_web_audit_parser.py:44-51 | succeeds exactly when the frame has a `src`, and then is the host followed by it; otherwise raises the PDF-link message |
| `WebAudit.Concat` | external_web_audit_parser.py:60-62 | `text += page.get_text()`: every page's text occurs in the joined text |
| `WebAudit.KeywordValue` | external_web_audit_parser.py:68-69 | a keyword's value is `"없음"` or a non-empty run of digits and commas |
| `WebAudit.ParseExternalAuditPdf` | external_web_audit_parser.py:59-71 | the pages are joined in order; the result has exactly the four keys, each with its keyword's value in the joined text |
| `WebAudit.KeywordValueLeftmost` | external_web_audit_parser.py:68 | a found value comes from the leftmost occurrence of the keyword that admits one |
| `WebAudit.KeywordValueMissing` | external_web_audit_parser.py:68-69 | `"없음"` exactly when no occurrence of the keyword has a digit or comma within 20 characters on the same line |
| `WebAudit.LoneCommaExample` | external_web_audit_parser.py:68 | `"자본총계, 5"` yields `","` |
| `AuditText.LabelsCoverKeys` | external_audit_parser.py:9-21 | the patterns cover exactly the four line items, in order |
| `AuditText.LabelsDistinct` | external_audit_parser.py:16-21 | each line item has one pattern |
| `AuditText.InitialCoversKeys` | external_audit_parser.py:9-14 | the initial dictionary has the four keys, all `"없음"` |
| `AuditText.LabelValue` | external_audit_parser.py:24-26 | a line item's value is `"없음"` or a non-empty run of digits and commas |
| `AuditText.FillIn` | external_audit_parser.py:23-26 | the loop keeps the keys and leaves each pattern's key holding that pattern's value |
| `AuditText.ExtractFinancialValuesFromText` | external_audit_parser.py:8-28 | the result has exactly the four keys, each with its label's value in the text without line breaks |
| `AuditText.MissingWhenUnmatched` | external_audit_parser.py:24-26 | `"없음"` exactly when the search finds nothing |
| `AuditText.LabelValueMissing` | external_audit_parser.py:24-26 | `"없음"` exactly when the pattern matches at no position of the text without line breaks |
| `AuditText.LeftmostLabelled` | external_audit_parser.py:17-24 | the leftmost label match has the label's shape and its group is the amount run |
| `AuditText.LabelValueShape` | external_audit_parser.py:17-26 | a found value is the whole amount run of the leftmost match, whose label and separator have the pattern's shape |
| `AuditText.NewlineJoinsDigits` | external_audit_parser.py:24 | removing line breaks joins `1,2` and `34` into `1,234` |
| `AuditText.SampleLineMatch` | external_audit_parser.py:17 | the `자본총계` pattern matches `자본총계 : 1,234,500 원` at its start with the group `1,234,500` |
| `AuditText.CapitalTotalExample` | external_audit_parser.py:17-26 | that line yields `"1,234,500"` for `자본총계` |
| `DartReader.CleanName` | open_dart_reader.py:7 | the cleaned name is the name with every `(`, `)`, `주` and whitespace deleted, so none remains, and it is no longer |
| `DartReader.CleanNames` | open_dart_reader.py:7 | one cleaned name per row, in row order, none holding a deleted character |
| `DartReader.CleanNameIdempotent` | open_dart_reader.py:7 | cleaning twice is cleaning once |
| `DartReader.CleanNameKeepsPlainNames` | open_dart_reader.py:7 | a name without those characters is unchanged |
| `DartReader.CleanNameAppend` | open_dart_reader.py:7 | cleaning a concatenation cleans each part |
| `DartReader.CleanNameDropsPrefix` | open_dart_reader.py:7 | a prefix of deleted characters goes entirely |
| `DartReader.CleanNameShortToken` | open_dart_reader.py:7 | `(주)한국전자` cleans to `한국전자` |
| `DartReader.CleanNameLongToken` | open_dart_reader.py:7 | `주식회사한국전자` cleans to `식회사한국전자` |
| `DartReader.ExtractToken` | open_dart_reader.py:8 | an extracted token is `(주)` or `주식회사`, occurs in the name, and neither token starts earlier in it |
| `DartReader.ExtractTokenLeftmostExample` | open_dart_reader.py:8 | `주식회사(주)` yields `주식회사`, the leftmost token |
| `DartReader.ExtractTokenNone` | open_dart_reader.py:8 | a name yields no token exactly when neither token occurs in it |
| `DartReader.Present` | open_dart_reader.py:8 | `dropna()`: the values kept are exactly the non-missing ones |
| `DartReader.PresentAppend` | open_dart_reader.py:8 | `dropna()` of two parts is the two parts' `dropna()` joined |
| `DartReader.PresentMissing` | open_dart_reader.py:8 | a missing cell is dropped |
| `DartReader.PresentValue` | open_dart_reader.py:8 | a present cell is kept |
| `DartReader.Tokens` | open_dart_reader.py:8 | one extracted token per row, in row order |
| `DartReader.Unique` | open_dart_reader.py:8 | `unique()`: exactly the values of the input, without repeats |
| `DartReader.UniqueFirstSeen` | open_dart_reader.py:8 | `unique()` lists values in the order of their first occurrence |
| `DartReader.StrExtract` | open_dart_reader.py:8 | `str.extract` returns a DataFrame exactly when `expand` is true |
| `DartReader.DropNA` | open_dart_reader.py:8 | `dropna()` keeps a DataFrame a DataFrame and a Series a Series |
| `DartReader.UniqueOf` | open_dart_reader.py:8 | `.unique()` raises exactly on a DataFrame, and on a Series gives the unique present values |
| `DartReader.ProcessCorpInfoAsWritten` | open_dart_reader.py:5-9 | as written, the call raises the AttributeError for every table |
| `DartReader.ExcludedNames` | open_dart_reader.py:8 | the excluded tokens are exactly those extracted from some row, each `(주)` or `주식회사`, without repeats |
| `DartReader.FirstRow` | open_dart_reader.py:8 | the first row whose extracted token is a given one: that row has it and no earlier row does |
| `DartReader.ExcludedNamesFirstSeen` | open_dart_reader.py:8 | the excluded tokens are listed in the order of the first row each is extracted from |
| `DartReader.PresentOrder` | open_dart_reader.py:8 | `dropna()` keeps the order of first occurrences |
| `DartReader.ExcludedNamesAtMostTwo` | open_dart_reader.py:8 | at most two tokens are excluded |
| `DartReader.SeriesExtractSucceeds` | open_dart_reader.py:8 | with the tokens taken as a Series, the same steps succeed with the excluded tokens |
| `DartReader.ProcessCorpInfo` | open_dart_reader.py:5-9 | one cleaned name per row in order, and the excluded tokens |
| `DartReader.ExcludedNamesOneRow` | open_dart_reader.py:8 | a one-row table excludes exactly its row's token |
| `DartReader.ProcessCorpInfoOneRow` | open_dart_reader.py:5-9 | the corrected call on a one-row table |
| `DartReader.ExtractTokenShort` | open_dart_reader.py:8 | `(주)한국전자` yields the token `(주)` |
| `DartReader.UniqueOnFrameExample` | open_dart_reader.py:8 | on `(주)한국전자` the call as written raises, the corrected one returns `한국전자` and `(주)` |
| `DartReader.FigureOf` | open_dart_reader.py:21-24 | `fs.get(key, '없음')` |
| `DartReader.Record` | open_dart_reader.py:16-27 | the record always names the company; it is an error record exactly when a lookup raised, holding that message; otherwise it has the name and the four line items, each the reported value or `"없음"` |
| `DartReader.GetDartReportData` | open_dart_reader.py:11-29 | one record per name among the first `min(5, n)`, in input order |

## Left out

- HTTP requests, the search-page and viewer URLs, and `print` calls are not modelled (I/O); pages are given as their parsed content.
- HTML parsing with BeautifulSoup is not modelled. For each anchor, the model takes as given its text, its `href`, and the `get_text(strip=True)` of the `td` just before its own `td`. `None` stands for a missing `td` or sibling. The `a[href*='rcpNo']` selector is folded into `WebAudit.Qualifies`.
- The PDF download, the `temp.pdf` file and PyMuPDF's text extraction are not modelled; a report is its list of page texts.
- `parse_pdf_from_url` (external_audit_parser.py:31-42) is not modelled. It downloads the PDF and joins its page texts (I/O, as for the other PDF reader). It then passes the text to `extract_financial_values_from_text`, which is modelled as `AuditText.ExtractFinancialValuesFromText`. Its catch-all `except Exception`, which turns any failure into `{"error": str(e)}`, is left out with it.
- The `OpenDartReader(api_key)` construction is outside the `try` in the source. The model takes the two lookups as already bound to a key, so a failure there is not modelled.
- `finstate` returns a pandas DataFrame, on which `fs.get` looks up a column. The model takes its result as a dictionary from line item to a single value. Two consequences are not modelled. Where such a column exists, the record would hold a whole column, not one string. OpenDartReader's library documentation describes the `finstate` frame with columns such as `account_nm` and `thstrm_amount`, not the line-item names. If that holds, `fs.get` finds none of `자본총계`, `부채총계`, `매출액`, `영업이익`, so every successful record would hold `"없음"` for all four. The library is not part of this model, so this is not claimed as a finding.
- The `.flatten()` after `.unique()` in `process_corp_info` (open_dart_reader.py:8) is not modelled. `unique()` on a Series already returns a one-dimensional array, which `flatten()` leaves unchanged.
- `DartReader.GetDartReportData` returns the list of records; the final `pd.DataFrame(results)` conversion is not modelled.
- Non-string cells in the uploaded table, such as NaN, are not modelled; names are strings.
- `\d` is taken as the ASCII digits; Python's `\d` also accepts other Unicode decimal digits.
- The `re.IGNORECASE` flag of `external_audit_parser.py` has no effect here, because no pattern holds a cased letter.
- app.py (the Streamlit page: upload, table reading, download button) is outside the model.
- Regex.Sub: its own contract bounds only the length; what it deletes is stated by `Regex.SubFromUnmatched`, `Regex.SubFromPrefix`, `Regex.SubFromSkips`, `Regex.SubAround`, `Regex.SubFromAvoids` and `Regex.DartSubIsDelete`.
- Python dictionaries keep insertion order, and so `pd.DataFrame(results)` orders its columns by first appearance of each key. The model's records are `map`s, which have no order, so that column order is not modelled.
- WebAudit.CleanCorpName: its own contract states what cannot survive and the shape of the ends. The exact result is stated through the `Regex.CorpDesignatorAt` scan it is defined by, through `WebAudit.CleanCorpNameAround` for a name with one designator, and by the four examples, not by an independent formula.

## Findings

| source | as written | input that shows it | evidently intended | confidence | as-written member | corrected member |
|---|---|---|---|---|---|---|
| open_dart_reader.py:8 | `str.extract(...)` keeps its default `expand=True` and returns a DataFrame; `.dropna().unique()` then calls a method DataFrames do not have, so every call raises `AttributeError` | a one-row table `(주)한국전자` | the distinct tokens `["(주)"]`, as with `expand=False` or `[0]` | not executed | `DartReader.ProcessCorpInfoAsWritten` (shown by `DartReader.UniqueOnFrameExample`) | `DartReader.ProcessCorpInfo` |
