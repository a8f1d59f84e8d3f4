/** open_dart_reader.py: cleaning the company names of an uploaded table,
    collecting the legal-form tokens that occur in them, and looking up the
    financial statements of the first few names through OpenDART. The two
    OpenDART calls are parameters of the model (oracles): `find_corp_code`
    maps a name to a company code or raises, `finstate` maps a code, a year
    and a report code to the reported line items or raises. */
module DartReader {
  import opened Wrappers
  import opened Text
  import opened Regex
  import Figures

  /** The column of a record that holds the company name ("business name"). */
  const NameKey := "사업자명"

  /** The column of an error record ("no lookup result"). */
  const ErrorKey := "조회결과 없음"

  /** `cleaned_names[:5]`: at most this many names are looked up. */
  const SampleSize: nat := 5

  const ShortToken := "(주)"
  const LongToken := "주식회사"

  /* ---------- process_corp_info: the cleaned names ---------- */

  /** `str.replace(r"[\(주\)\s]|주식회사", "", regex=True)` on one name: every
      `(`, `)`, `주` and whitespace character is deleted, wherever it is. */
  function CleanName(name: string): (r: string)
    ensures r == Delete(name, NameJunk)
    ensures NoneIn(r, NameJunk) && |r| <= |name|
  {
    DartSubIsDelete(name, 0);
    assert name[0..] == name;
    Sub(DartDesignator, name)
  }

  /** The first column, cleaned: one name per row, in row order. */
  function CleanNames(names: seq<string>): (r: seq<string>)
    ensures |r| == |names|
    ensures forall i :: 0 <= i < |names| ==> r[i] == CleanName(names[i])
    ensures forall i :: 0 <= i < |names| ==> NoneIn(r[i], NameJunk) && |r[i]| <= |names[i]|
  {
    seq(|names|, i requires 0 <= i < |names| => CleanName(names[i]))
  }

  lemma CleanNameIdempotent(name: string)
    ensures CleanName(CleanName(name)) == CleanName(name)
  {
    DeleteIdempotent(name, NameJunk);
  }

  /** A name without any of the deleted characters is kept as it is. */
  lemma CleanNameKeepsPlainNames(name: string)
    requires NoneIn(name, NameJunk)
    ensures CleanName(name) == name
  {
    DeleteNothing(name, NameJunk);
  }

  /** Cleaning a name cleans each part: `CleanName(a + b)` is the cleaned `a`
      followed by the cleaned `b`. */
  lemma CleanNameAppend(a: string, b: string)
    ensures CleanName(a + b) == CleanName(a) + CleanName(b)
  {
    DeleteAppend(a, b, NameJunk);
  }

  /** A run of deleted characters in front of a plain name goes entirely. */
  lemma CleanNameDropsPrefix(junk: string, rest: string)
    requires AllIn(junk, NameJunk) && NoneIn(rest, NameJunk)
    ensures CleanName(junk + rest) == rest
  {
    CleanNameAppend(junk, rest);
    CleanNameKeepsPlainNames(rest);
    DeleteClass(junk);
  }

  /** A string made only of deleted characters is deleted entirely. */
  lemma {:induction false} DeleteClass(junk: string)
    requires AllIn(junk, NameJunk)
    ensures Delete(junk, NameJunk) == []
  {
    if junk != [] {
      assert NameJunk.Has(junk[0]);
      DeleteClass(junk[1..]);
    }
  }

  /** `(주)한국전자` loses its `(주)`. */
  lemma CleanNameShortToken()
    ensures CleanName("(주)한국전자") == "한국전자"
  {
    assert "(주)한국전자" == "(주)" + "한국전자";
    assert AllIn("(주)", NameJunk);
    assert NoneIn("한국전자", NameJunk);
    CleanNameDropsPrefix("(주)", "한국전자");
  }

  /** The character class is tried before `주식회사`, so only the `주` of
      `주식회사한국전자` goes and the `주식회사` alternative never applies. */
  lemma CleanNameLongToken()
    ensures CleanName("주식회사한국전자") == "식회사한국전자"
  {
    assert "주식회사한국전자" == "주" + "식회사한국전자";
    assert AllIn("주", NameJunk);
    assert NoneIn("식회사한국전자", NameJunk);
    CleanNameDropsPrefix("주", "식회사한국전자");
  }

  /* ---------- process_corp_info: the excluded tokens ---------- */

  /** `str.extract(r"(\(주\)|주식회사)")` on one name: the token that starts
      leftmost, or a missing value. */
  function ExtractToken(name: string): (t: Option<string>)
    ensures t.Some? ==> (t.value == ShortToken || t.value == LongToken)
                        && exists k :: 0 <= k <= |name| && StartsAt(name, k, t.value)
                                       && forall j :: 0 <= j < k ==> !StartsAt(name, j, ShortToken) && !StartsAt(name, j, LongToken)
  {
    TokenLeftmost(name);
    Search(DesignatorToken, name)
  }

  lemma TokenLeftmost(name: string)
    ensures var t := Search(DesignatorToken, name);
            t.Some? ==> (t.value == ShortToken || t.value == LongToken)
                        && exists k :: 0 <= k <= |name| && StartsAt(name, k, t.value)
                                       && forall j :: 0 <= j < k ==> !StartsAt(name, j, ShortToken) && !StartsAt(name, j, LongToken)
  {
    var t := Search(DesignatorToken, name);
    if t.Some? {
      var k := FindFrom(DesignatorToken, name, 0).value;
      var m := MatchAt(DesignatorToken, name, k).value;
      assert t.value == name[k..m.end];
      assert StartsAt(name, k, t.value);
      forall j | 0 <= j < k
        ensures !StartsAt(name, j, ShortToken) && !StartsAt(name, j, LongToken)
      {
        assert MatchAt(DesignatorToken, name, j).None?;
      }
    }
  }

  /** The leftmost token wins: `주식회사(주)` yields `주식회사`. */
  lemma ExtractTokenLeftmostExample()
    ensures ExtractToken("주식회사(주)") == Some(LongToken)
  {
    var name := "주식회사(주)";
    assert StartsAt(name, 0, LongToken);
    ExtractTokenNone(name);
    assert name[0] != ShortToken[0];
  }

  /** A name yields no token exactly when neither `(주)` nor `주식회사`
      occurs in it. */
  lemma ExtractTokenNone(name: string)
    ensures ExtractToken(name).None? <==>
            forall i :: 0 <= i <= |name| ==> !StartsAt(name, i, ShortToken) && !StartsAt(name, i, LongToken)
  {
    SearchNone(DesignatorToken, name);
    if ExtractToken(name).None? {
      forall i | 0 <= i <= |name|
        ensures !StartsAt(name, i, ShortToken) && !StartsAt(name, i, LongToken)
      {
        assert MatchAt(DesignatorToken, name, i).None?;
      }
    }
  }

  /** The non-missing cells of a column, in order (`dropna`). */
  function Present(cells: seq<Option<string>>): (r: seq<string>)
    ensures forall x :: x in r <==> Some(x) in cells
  {
    if cells == [] then []
    else
      var rest := Present(cells[1..]);
      assert forall c :: c in cells <==> c == cells[0] || c in cells[1..];
      match cells[0]
      case None => rest
      case Some(x) => [x] + rest
  }

  /** `dropna()` keeps the order and the repeats of the values it keeps:
      together with the two one-cell cases below, this pins `Present` down. */
  lemma {:induction false} PresentAppend(a: seq<Option<string>>, b: seq<Option<string>>)
    ensures Present(a + b) == Present(a) + Present(b)
  {
    if a == [] {
      assert a + b == b;
    } else {
      assert (a + b)[0] == a[0] && (a + b)[1..] == a[1..] + b;
      PresentAppend(a[1..], b);
    }
  }

  lemma PresentMissing()
    ensures Present([None]) == []
  {
  }

  lemma PresentValue(x: string)
    ensures Present([Some(x)]) == [x]
  {
    assert [Some(x)][1..] == [];
  }

  /** The extracted token of each row, in row order. */
  function Tokens(names: seq<string>): (r: seq<Option<string>>)
    ensures |r| == |names| && forall i :: 0 <= i < |names| ==> r[i] == ExtractToken(names[i])
  {
    seq(|names|, i requires 0 <= i < |names| => ExtractToken(names[i]))
  }

  /** `unique()`: the distinct values in the order they first occur. */
  function Unique(xs: seq<string>): (r: seq<string>)
    ensures forall x :: x in r <==> x in xs
    ensures forall i, j :: 0 <= i < j < |r| ==> r[i] != r[j]
    decreases |xs|
  {
    if xs == [] then []
    else
      var front := Unique(xs[..|xs| - 1]);
      assert forall x :: x in xs <==> x in xs[..|xs| - 1] || x == xs[|xs| - 1];
      if xs[|xs| - 1] in front then front else front + [xs[|xs| - 1]]
  }

  /** The index of the first occurrence of `x` in `xs`. */
  function FirstIndex<T(==)>(xs: seq<T>, x: T): (k: nat)
    requires x in xs
    ensures k < |xs| && xs[k] == x && x !in xs[..k]
  {
    if xs[0] == x then 0
    else
      var k := FirstIndex(xs[1..], x);
      assert xs[..k + 1] == [xs[0]] + xs[1..][..k];
      k + 1
  }

  /** A value first occurs in a prefix where it first occurs in the whole. */
  lemma FirstIndexPrefix(xs: seq<string>, n: nat, x: string)
    requires n <= |xs| && x in xs[..n]
    ensures FirstIndex(xs, x) == FirstIndex(xs[..n], x)
  {
    var k := FirstIndex(xs[..n], x);
    var f := FirstIndex(xs, x);
    assert xs[..n][..k] == xs[..k];
  }

  /** `Unique` keeps the order of first occurrence. */
  lemma {:induction false} UniqueFirstSeen(xs: seq<string>)
    ensures forall i, j :: 0 <= i < j < |Unique(xs)| ==>
              FirstIndex(xs, Unique(xs)[i]) < FirstIndex(xs, Unique(xs)[j])
    decreases |xs|
  {
    if xs != [] {
      var init := xs[..|xs| - 1];
      var last := xs[|xs| - 1];
      UniqueFirstSeen(init);
      var front := Unique(init);
      assert xs[..|xs| - 1] == init;
      forall x | x in front
        ensures FirstIndex(xs, x) == FirstIndex(init, x) < |init|
      {
        FirstIndexPrefix(xs, |xs| - 1, x);
      }
      if last !in front {
        assert last !in init;
        assert FirstIndex(xs, last) == |init|;
      }
    }
  }

  /** The value `str.extract` returns: with `expand=True` (the default) a
      one-column DataFrame, with `expand=False` a Series. */
  datatype Extracted = Frame(column: seq<Option<string>>) | Series(cells: seq<Option<string>>)

  function StrExtract(names: seq<string>, expand: bool): (v: Extracted)
    ensures v.Frame? <==> expand
  {
    if expand then Frame(Tokens(names)) else Series(Tokens(names))
  }

  /** `dropna()`: a DataFrame drops the rows, a Series the cells, that are
      missing; the kind of value is kept. */
  function DropNA(v: Extracted): (r: Extracted)
    ensures r.Frame? <==> v.Frame?
  {
    match v
    case Frame(c) => Frame(seq(|Present(c)|, i requires 0 <= i < |Present(c)| => Some(Present(c)[i])))
    case Series(c) => Series(seq(|Present(c)|, i requires 0 <= i < |Present(c)| => Some(Present(c)[i])))
  }

  /** The message Python raises on `.unique()` of a DataFrame. */
  const NoUniqueMessage := "AttributeError: 'DataFrame' object has no attribute 'unique'"

  /** `.unique()`: defined on a Series, missing on a DataFrame. */
  function UniqueOf(v: Extracted): (r: Result<seq<string>, string>)
    ensures r.Failure? <==> v.Frame?
    ensures r.Success? ==> r.value == Unique(Present(v.cells))
  {
    match v
    case Frame(_) => Failure(NoUniqueMessage)
    case Series(c) => Success(Unique(Present(c)))
  }

  /** `process_corp_info` as written: `str.extract` keeps its default
      `expand=True`, so `.unique()` is asked of a DataFrame and raises. */
  function ProcessCorpInfoAsWritten(names: seq<string>): (r: Result<(seq<string>, seq<string>), string>)
    ensures r == Failure(NoUniqueMessage)
  {
    match UniqueOf(DropNA(StrExtract(names, true)))
    case Failure(e) => Failure(e)
    case Success(excluded) => Success((CleanNames(names), excluded))
  }

  /** The tokens the code evidently means to collect: the extracted token of
      every row that has one, each kept once, in first-seen order. */
  function ExcludedNames(names: seq<string>): (r: seq<string>)
    ensures forall x :: x in r <==> exists i :: 0 <= i < |names| && ExtractToken(names[i]) == Some(x)
    ensures forall x :: x in r ==> x == ShortToken || x == LongToken
    ensures forall i, j :: 0 <= i < j < |r| ==> r[i] != r[j]
  {
    var tokens := Tokens(names);
    assert forall x :: Some(x) in tokens <==> exists i :: 0 <= i < |names| && ExtractToken(names[i]) == Some(x);
    Unique(Present(tokens))
  }

  /** The first row whose extracted token is `x`. */
  function FirstRow(names: seq<string>, x: string): (i: nat)
    requires Some(x) in Tokens(names)
    ensures i < |names| && ExtractToken(names[i]) == Some(x)
    ensures forall j :: 0 <= j < i ==> ExtractToken(names[j]) != Some(x)
  {
    var i := FirstIndex(Tokens(names), Some(x));
    assert forall j :: 0 <= j < i ==> Tokens(names)[j] == Tokens(names)[..i][j];
    i
  }

  /** The excluded tokens come in the order of the rows they first occur in. */
  lemma ExcludedNamesFirstSeen(names: seq<string>)
    ensures var r := ExcludedNames(names);
            forall p, q :: 0 <= p < q < |r| ==> FirstRow(names, r[p]) < FirstRow(names, r[q])
  {
    var cells := Tokens(names);
    var r := ExcludedNames(names);
    assert r == Unique(Present(cells));
    UniqueFirstSeen(Present(cells));
    forall p, q | 0 <= p < q < |r|
      ensures FirstRow(names, r[p]) < FirstRow(names, r[q])
    {
      PresentOrder(cells, r[p], r[q]);
    }
  }

  /** `dropna()` keeps the order in which values first occur. */
  lemma {:induction false} PresentOrder(cells: seq<Option<string>>, x: string, y: string)
    requires Some(x) in cells && Some(y) in cells
    ensures FirstIndex(Present(cells), x) < FirstIndex(Present(cells), y) ==>
            FirstIndex(cells, Some(x)) < FirstIndex(cells, Some(y))
  {
    var rest := cells[1..];
    if cells[0] != Some(x) && cells[0] != Some(y) {
      assert Some(x) in rest && Some(y) in rest;
      PresentOrder(rest, x, y);
      match cells[0]
      case None =>
      case Some(z) =>
        assert Present(cells) == [z] + Present(rest);
        assert Present(cells)[1..] == Present(rest);
    }
  }

  /** At most the two tokens are ever excluded. */
  lemma ExcludedNamesAtMostTwo(names: seq<string>)
    ensures |ExcludedNames(names)| <= 2
  {
    DistinctWithin(ExcludedNames(names), {ShortToken, LongToken});
  }

  /** A sequence without repeats whose values lie in `s` is no longer than `s`. */
  lemma {:induction false} DistinctWithin(r: seq<string>, s: set<string>)
    requires forall x :: x in r ==> x in s
    requires forall i, j :: 0 <= i < j < |r| ==> r[i] != r[j]
    ensures |r| <= |s|
  {
    if r != [] {
      forall x | x in r[1..]
        ensures x in s - {r[0]}
      {
        var k :| 0 <= k < |r[1..]| && r[1..][k] == x;
        assert r[k + 1] == x;
      }
      DistinctWithin(r[1..], s - {r[0]});
    }
  }

  /** With `expand=False` the same steps succeed and give `ExcludedNames`. */
  lemma SeriesExtractSucceeds(names: seq<string>)
    ensures UniqueOf(DropNA(StrExtract(names, false))) == Success(ExcludedNames(names))
  {
    var c := Tokens(names);
    var dropped := seq(|Present(c)|, i requires 0 <= i < |Present(c)| => Some(Present(c)[i]));
    PresentOfSomes(Present(c), dropped);
  }

  /** Dropping missing values twice is dropping them once. */
  lemma {:induction false} PresentOfSomes(xs: seq<string>, cells: seq<Option<string>>)
    requires |cells| == |xs| && forall i :: 0 <= i < |xs| ==> cells[i] == Some(xs[i])
    ensures Present(cells) == xs
  {
    if xs != [] {
      PresentOfSomes(xs[1..], cells[1..]);
      assert xs == [xs[0]] + xs[1..];
    }
  }

  /** `process_corp_info` with the token column taken as a Series: the
      cleaned names and the excluded tokens. */
  function ProcessCorpInfo(names: seq<string>): (r: (seq<string>, seq<string>))
    ensures |r.0| == |names| && forall i :: 0 <= i < |names| ==> r.0[i] == CleanName(names[i])
    ensures r.1 == ExcludedNames(names)
  {
    SeriesExtractSucceeds(names);
    (CleanNames(names), UniqueOf(DropNA(StrExtract(names, false))).value)
  }

  /** A one-row table excludes the token of its row, if it has one. */
  lemma ExcludedNamesOneRow(name: string, token: string)
    requires ExtractToken(name) == Some(token)
    ensures ExcludedNames([name]) == [token]
  {
    var r := ExcludedNames([name]);
    assert token in r;
    DistinctWithin(r, {token});
    assert r[0] == token;
  }

  /** The corrected call on a one-row table. */
  lemma ProcessCorpInfoOneRow(name: string, cleaned: string, token: string)
    requires CleanName(name) == cleaned && ExtractToken(name) == Some(token)
    ensures ProcessCorpInfo([name]) == ([cleaned], [token])
  {
    var r := ProcessCorpInfo([name]);
    assert |r.0| == 1 && r.0[0] == CleanName(name);
    assert r.0 == [cleaned];
    assert r.1 == ExcludedNames([name]);
    ExcludedNamesOneRow(name, token);
  }

  lemma ExtractTokenShort()
    ensures ExtractToken("(주)한국전자") == Some(ShortToken)
  {
    assert StartsAt("(주)한국전자", 0, ShortToken);
    assert MatchAt(DesignatorToken, "(주)한국전자", 0) == Some(Match(0, 3));
  }

  /** The one-row table `(주)한국전자` shows the difference: as written the
      call raises, the corrected call returns `["한국전자"]` and `["(주)"]`. */
  lemma UniqueOnFrameExample()
    ensures ProcessCorpInfoAsWritten(["(주)한국전자"]).Failure?
    ensures ProcessCorpInfo(["(주)한국전자"]) == (["한국전자"], ["(주)"])
  {
    CleanNameShortToken();
    ExtractTokenShort();
    ProcessCorpInfoOneRow("(주)한국전자", "한국전자", ShortToken);
  }

  /* ---------- get_dart_report_data ---------- */

  /** `dict.get(key, '없음')` on the reported line items. */
  function FigureOf(fs: map<string, string>, key: string): (v: string)
    ensures key in fs ==> v == fs[key]
    ensures key !in fs ==> v == Figures.Missing
  {
    if key in fs then fs[key] else Figures.Missing
  }

  /** The record of one name: the four line items, or the message of the
      first lookup that raised. */
  function Record(name: string, year: string, reportType: string,
                  findCorpCode: string -> Result<string, string>,
                  finstate: (string, string, string) -> Result<map<string, string>, string>): (r: map<string, string>)
    ensures NameKey in r && r[NameKey] == name
    ensures ErrorKey in r <==>
            findCorpCode(name).Failure? || finstate(findCorpCode(name).value, year, reportType).Failure?
    ensures ErrorKey in r ==> r.Keys == {NameKey, ErrorKey}
                              && r[ErrorKey] == if findCorpCode(name).Failure? then findCorpCode(name).error
                                                else finstate(findCorpCode(name).value, year, reportType).error
    ensures ErrorKey !in r ==> r.Keys == {NameKey} + (set k | k in Figures.Keys)
                               && forall k :: k in Figures.Keys ==>
                                    r[k] == FigureOf(finstate(findCorpCode(name).value, year, reportType).value, k)
  {
    match findCorpCode(name)
    case Failure(e) => map[NameKey := name, ErrorKey := e]
    case Success(code) =>
      match finstate(code, year, reportType)
      case Failure(e) => map[NameKey := name, ErrorKey := e]
      case Success(fs) =>
        map[NameKey := name,
            Figures.CapitalTotal := FigureOf(fs, Figures.CapitalTotal),
            Figures.LiabilitiesTotal := FigureOf(fs, Figures.LiabilitiesTotal),
            Figures.Revenue := FigureOf(fs, Figures.Revenue),
            Figures.OperatingIncome := FigureOf(fs, Figures.OperatingIncome)]
  }

  /** `get_dart_report_data`: one record per name among the first five, in
      order; a failing lookup gives an error record and the loop goes on. */
  method GetDartReportData(cleanedNames: seq<string>, year: string, reportType: string,
                           findCorpCode: string -> Result<string, string>,
                           finstate: (string, string, string) -> Result<map<string, string>, string>)
    returns (results: seq<map<string, string>>)
    ensures |results| == if |cleanedNames| < SampleSize then |cleanedNames| else SampleSize
    ensures forall i :: 0 <= i < |results| ==>
              results[i] == Record(cleanedNames[i], year, reportType, findCorpCode, finstate)
  {
    var sample := if |cleanedNames| < SampleSize then cleanedNames else cleanedNames[..SampleSize];
    results := [];
    for n := 0 to |sample|
      invariant |results| == n
      invariant forall i :: 0 <= i < n ==> results[i] == Record(sample[i], year, reportType, findCorpCode, finstate)
    {
      var name := sample[n];
      // The nested match is the `try`/`except` of one iteration: either lookup
      // raising goes to the error record. `Record` states the same outcome as a
      // function, and the invariant ties the two together.
      var record;
      match findCorpCode(name) {
        case Failure(e) =>
          record := map[NameKey := name, ErrorKey := e];
        case Success(corpCode) =>
          match finstate(corpCode, year, reportType) {
            case Failure(e) =>
              record := map[NameKey := name, ErrorKey := e];
            case Success(fs) =>
              record := map[NameKey := name,
                            Figures.CapitalTotal := FigureOf(fs, Figures.CapitalTotal),
                            Figures.LiabilitiesTotal := FigureOf(fs, Figures.LiabilitiesTotal),
                            Figures.Revenue := FigureOf(fs, Figures.Revenue),
                            Figures.OperatingIncome := FigureOf(fs, Figures.OperatingIncome)];
          }
      }
      results := results + [record];
    }
  }
}
