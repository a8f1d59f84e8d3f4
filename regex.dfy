/** The regular expressions of the code base and the three ways it applies
    them: `re.sub(p, "", s)` (delete every match, left to right), `re.search`
    (the leftmost match) and pandas' `str.extract` (the first group of the
    leftmost match). Every pattern here either has no group or ends with its
    group, so a match is described by where it ends and where its group starts. */
module Regex {
  import opened Wrappers
  import opened Text

  datatype Pattern =
    | CorpDesignator                         // \(주\)|주식회사|㈜|주\s*|유한회사|유\s*|\(유\)
    | DartDesignator                         // [\(주\)\s]|주식회사
    | DesignatorToken                        // (\(주\)|주식회사)
    | ReceiptNumber                          // rcpNo=(\d+)
    | Proximity(key: string)                 // {key}.{0,20}?([\d,]+)
    | Labelled(head: string, tail: string)   // {head}\s*{tail}\s*[:：]?\s*([0-9,]+)

  /** A match that ends at `end` and whose capture group is `s[group..end]`;
      for a pattern without a group, `group` is where the match starts. */
  datatype Match = Match(group: nat, end: nat)

  /** The characters that `CorpDesignator` never leaves in place. */
  const CorpMarks: set<char> := {'주', '유', '㈜'}

  /** The bound of the lazy `.{0,20}?` in `Proximity`. */
  const Window: nat := 20

  /** `s[j..k]` is matched by `.*`: it holds no newline. */
  predicate Dots(s: string, j: nat, k: nat)
    requires j <= k <= |s|
  {
    forall n :: j <= n < k ==> s[n] != '\n'
  }

  /** `s[j..k]` is matched by `\s*[:：]?\s*`: whitespace, with at most one
      colon (ASCII or full-width) among it. */
  predicate SeparatorAt(s: string, j: nat, k: nat)
    requires j <= k <= |s|
  {
    AllInRange(s, j, k, Space) ||
    exists c :: j <= c < k && (s[c] == ':' || s[c] == '：')
                && AllInRange(s, j, c, Space) && AllInRange(s, c + 1, k, Space)
  }

  /** The match of `pattern` that starts at position `i` of `s`, if any. */
  function MatchAt(p: Pattern, s: string, i: nat): (m: Option<Match>)
    requires i <= |s|
    ensures m.Some? ==> i <= m.value.group < m.value.end <= |s|
  {
    match p
    case CorpDesignator => CorpDesignatorAt(s, i)
    case DartDesignator => DartDesignatorAt(s, i)
    case DesignatorToken => DesignatorTokenAt(s, i)
    case ReceiptNumber => ReceiptNumberAt(s, i)
    case Proximity(key) => ProximityAt(key, s, i)
    case Labelled(head, tail) => LabelledAt(head, tail, s, i)
  }

  /** `\(주\)|주식회사|㈜|주\s*|유한회사|유\s*|\(유\)`, alternatives tried in order.
      It matches exactly where a `CorpMarks` character or `(주)`/`(유)` starts,
      and every match contains a `CorpMarks` character. */
  function CorpDesignatorAt(s: string, i: nat): (m: Option<Match>)
    requires i <= |s|
    ensures m.Some? ==> m.value.group == i < m.value.end <= |s|
    ensures m.Some? <==> (i < |s| && s[i] in CorpMarks) || StartsAt(s, i, "(주)") || StartsAt(s, i, "(유)")
    ensures m.Some? ==> exists k :: i <= k < m.value.end && s[k] in CorpMarks
  {
    if StartsAt(s, i, "(주)") then
      assert s[i + 1] == "(주)"[1];
      Some(Match(i, i + 3))
    else if StartsAt(s, i, "주식회사") then
      assert s[i] == "주식회사"[0];
      Some(Match(i, i + 4))
    else if StartsAt(s, i, "㈜") then
      assert s[i] == "㈜"[0];
      Some(Match(i, i + 1))
    else if StartsAt(s, i, "주") then
      assert s[i] == "주"[0];
      Some(Match(i, RunEnd(s, i + 1, Space)))
    else if StartsAt(s, i, "유한회사") then
      assert s[i] == "유한회사"[0];
      Some(Match(i, i + 4))
    else if StartsAt(s, i, "유") then
      assert s[i] == "유"[0];
      Some(Match(i, RunEnd(s, i + 1, Space)))
    else if StartsAt(s, i, "(유)") then
      assert s[i + 1] == "(유)"[1];
      Some(Match(i, i + 3))
    else
      None
  }

  /** `[\(주\)\s]|주식회사`, alternatives tried in order. */
  function DartDesignatorAt(s: string, i: nat): (m: Option<Match>)
    requires i <= |s|
    ensures m.Some? ==> m.value.group == i < m.value.end <= |s|
  {
    if i < |s| && NameJunk.Has(s[i]) then Some(Match(i, i + 1))
    else if StartsAt(s, i, "주식회사") then Some(Match(i, i + 4))
    else None
  }

  /** `(\(주\)|주식회사)`: the group is the whole match, one of the two tokens. */
  function DesignatorTokenAt(s: string, i: nat): (m: Option<Match>)
    requires i <= |s|
    ensures m.Some? <==> StartsAt(s, i, "(주)") || StartsAt(s, i, "주식회사")
    ensures m.Some? ==> m.value.group == i < m.value.end <= |s|
                        && (s[i..m.value.end] == "(주)" || s[i..m.value.end] == "주식회사")
  {
    if StartsAt(s, i, "(주)") then Some(Match(i, i + 3))
    else if StartsAt(s, i, "주식회사") then Some(Match(i, i + 4))
    else None
  }

  /** `rcpNo=(\d+)`: the literal `rcpNo=` followed by at least one digit; the
      group is the longest digit run after it. */
  function ReceiptNumberAt(s: string, i: nat): (m: Option<Match>)
    requires i <= |s|
    ensures m.Some? <==> StartsAt(s, i, "rcpNo=") && i + 6 < |s| && Digit.Has(s[i + 6])
    ensures m.Some? ==> m.value.group == i + 6 < m.value.end <= |s|
                        && AllInRange(s, m.value.group, m.value.end, Digit)
                        && (m.value.end == |s| || !Digit.Has(s[m.value.end]))
  {
    if StartsAt(s, i, "rcpNo=") && i + 6 < |s| && Digit.Has(s[i + 6]) then
      Some(Match(i + 6, RunEnd(s, i + 6, Digit)))
    else None
  }

  /** The lazy `.{0,budget}?` followed by `[\d,]`: the first position from `j`
      on, at most `budget` further, that holds an amount character with no
      newline before it. */
  function LazyGap(s: string, j: nat, budget: nat): (g: Option<nat>)
    requires j <= |s|
    ensures g.Some? ==> j <= g.value <= j + budget && g.value < |s| && Amount.Has(s[g.value])
                        && Dots(s, j, g.value) && NoneInRange(s, j, g.value, Amount)
    ensures g.None? ==> forall k :: j <= k <= j + budget && k < |s| && Dots(s, j, k) ==> !Amount.Has(s[k])
    decreases budget
  {
    if j < |s| && Amount.Has(s[j]) then Some(j)
    else if j == |s| || s[j] == '\n' || budget == 0 then None
    else
      var g := LazyGap(s, j + 1, budget - 1);
      assert forall k :: j + 1 <= k <= |s| && Dots(s, j, k) ==> Dots(s, j + 1, k);
      g
  }

  /** `{key}.{0,20}?([\d,]+)`: `key`, then the fewest (at most 20) characters
      other than a newline, then the longest run of digits and commas, which
      is the group. */
  function ProximityAt(key: string, s: string, i: nat): (m: Option<Match>)
    requires i <= |s|
    ensures m.Some? <==> StartsAt(s, i, key) &&
                         exists g :: i + |key| <= g <= i + |key| + Window && g < |s|
                                     && Dots(s, i + |key|, g) && Amount.Has(s[g])
    ensures m.Some? ==> var g := m.value.group;
                        i + |key| <= g <= i + |key| + Window && g < m.value.end <= |s|
                        && Dots(s, i + |key|, g) && NoneInRange(s, i + |key|, g, Amount)
                        && AllInRange(s, g, m.value.end, Amount)
                        && (m.value.end == |s| || !Amount.Has(s[m.value.end]))
  {
    if StartsAt(s, i, key) then
      match LazyGap(s, i + |key|, Window)
      case Some(g) => Some(Match(g, RunEnd(s, g, Amount)))
      case None => None
    else None
  }

  /** `{head}\s*{tail}\s*[:：]?\s*([0-9,]+)`. Because `\s*` is greedy and the
      literal after it does not start with whitespace, each `\s*` takes the
      whole whitespace run; the optional colon is taken when it is there, and
      the group is the longest run of digits and commas after it. */
  function LabelledAt(head: string, tail: string, s: string, i: nat): (m: Option<Match>)
    requires i <= |s|
    ensures m.Some? ==> i <= m.value.group < m.value.end <= |s|
                        && AllInRange(s, m.value.group, m.value.end, Amount)
                        && (m.value.end == |s| || !Amount.Has(s[m.value.end]))
  {
    if !StartsAt(s, i, head) then None
    else
      var a := RunEnd(s, i + |head|, Space);
      if !StartsAt(s, a, tail) then None
      else AmountAfter(s, a + |tail|)
  }

  /** `\s*[:：]?\s*([0-9,]+)` at position `j`. */
  function AmountAfter(s: string, j: nat): (m: Option<Match>)
    requires j <= |s|
    ensures m.Some? ==> j <= m.value.group < m.value.end <= |s|
                        && AllInRange(s, m.value.group, m.value.end, Amount)
                        && (m.value.end == |s| || !Amount.Has(s[m.value.end]))
  {
    var b := RunEnd(s, j, Space);
    if b < |s| && Amount.Has(s[b]) then Some(Match(b, RunEnd(s, b, Amount)))
    else if b < |s| && (s[b] == ':' || s[b] == '：') then
      var c := RunEnd(s, b + 1, Space);
      if c < |s| && Amount.Has(s[c]) then Some(Match(c, RunEnd(s, c, Amount)))
      else None
    else None
  }

  /** The text of the group of the match at `i`. */
  function GroupText(p: Pattern, s: string, i: nat): string
    requires i <= |s| && MatchAt(p, s, i).Some?
  {
    var m := MatchAt(p, s, i).value;
    s[m.group..m.end]
  }

  /** The leftmost position at or after `i` where `p` matches; `re.search`
      tries the positions `0..|s|` in this order. */
  function FindFrom(p: Pattern, s: string, i: nat): (k: Option<nat>)
    requires i <= |s|
    ensures k.Some? ==> i <= k.value <= |s| && MatchAt(p, s, k.value).Some?
                        && forall j :: i <= j < k.value ==> MatchAt(p, s, j).None?
    ensures k.None? ==> forall j :: i <= j <= |s| ==> MatchAt(p, s, j).None?
    decreases |s| - i
  {
    if MatchAt(p, s, i).Some? then Some(i)
    else if i == |s| then None
    else FindFrom(p, s, i + 1)
  }

  /** `re.search(p, s).group(1)`, or `None` when nothing matches. */
  function Search(p: Pattern, s: string): (r: Option<string>)
    ensures r.None? ==> forall j :: 0 <= j <= |s| ==> MatchAt(p, s, j).None?
    ensures r.Some? ==> exists k :: 0 <= k <= |s| && MatchAt(p, s, k).Some?
                                    && (forall j :: 0 <= j < k ==> MatchAt(p, s, j).None?)
                                    && r.value == GroupText(p, s, k)
  {
    match FindFrom(p, s, 0)
    case None => None
    case Some(k) => Some(GroupText(p, s, k))
  }

  /** `re.search` finds nothing exactly when no position has a match. */
  lemma SearchNone(p: Pattern, s: string)
    ensures Search(p, s).None? <==> forall j :: 0 <= j <= |s| ==> MatchAt(p, s, j).None?
  {
    if Search(p, s).Some? {
      var k := FindFrom(p, s, 0).value;
      assert MatchAt(p, s, k).Some?;
    }
  }

  /** The amount patterns capture a non-empty run of digits and commas. */
  lemma SearchAmount(p: Pattern, s: string)
    requires p.Proximity? || p.Labelled?
    ensures Search(p, s).Some? ==> Search(p, s).value != [] && AllIn(Search(p, s).value, Amount)
  {
    if Search(p, s).Some? {
      var k := FindFrom(p, s, 0).value;
      var m := MatchAt(p, s, k).value;
      assert AllInRange(s, m.group, m.end, Amount);
    }
  }

  /** `re.sub(p, "", s[i..])`: scanning left to right, every match is deleted
      and scanning resumes at its end; a position where nothing matches keeps
      its character. */
  function SubFrom(p: Pattern, s: string, i: nat): (r: string)
    requires i <= |s|
    ensures |r| <= |s| - i
    decreases |s| - i
  {
    if i == |s| then []
    else
      match MatchAt(p, s, i)
      case None => [s[i]] + SubFrom(p, s, i + 1)
      case Some(m) => SubFrom(p, s, m.end)
  }

  /** `re.sub(p, "", s)`. */
  function Sub(p: Pattern, s: string): (r: string)
    ensures |r| <= |s|
  {
    SubFrom(p, s, 0)
  }

  /** Where nothing matches, `re.sub` changes nothing. */
  lemma {:induction false} SubFromUnmatched(p: Pattern, s: string, i: nat)
    requires i <= |s|
    requires forall j :: i <= j < |s| ==> MatchAt(p, s, j).None?
    ensures SubFrom(p, s, i) == s[i..]
    decreases |s| - i
  {
    if i < |s| {
      SubFromUnmatched(p, s, i + 1);
      assert s[i..] == [s[i]] + s[i + 1..];
    }
  }

  /** A character at which a match always starts never survives `re.sub`:
      either a match starting at it deletes it, or an earlier match covers it. */
  lemma {:induction false} SubFromAvoids(p: Pattern, s: string, i: nat, bad: set<char>)
    requires i <= |s|
    requires forall j :: i <= j < |s| && s[j] in bad ==> MatchAt(p, s, j).Some?
    ensures forall k :: 0 <= k < |SubFrom(p, s, i)| ==> SubFrom(p, s, i)[k] !in bad
    decreases |s| - i
  {
    if i < |s| {
      match MatchAt(p, s, i)
      case None =>
        SubFromAvoids(p, s, i + 1, bad);
      case Some(m) =>
        SubFromAvoids(p, s, m.end, bad);
    }
  }

  /** Over a stretch of positions where nothing matches, `re.sub` keeps the
      characters as they are. */
  lemma {:induction false} SubFromPrefix(p: Pattern, s: string, i: nat, n: nat)
    requires i <= n <= |s|
    requires forall j :: i <= j < n ==> MatchAt(p, s, j).None?
    ensures SubFrom(p, s, i) == s[i..n] + SubFrom(p, s, n)
    decreases n - i
  {
    if i == n {
      assert s[i..n] == [];
    } else {
      var rest := SubFrom(p, s, n);
      calc {
        SubFrom(p, s, i);
      == { SubFromKeeps(p, s, i); }
        [s[i]] + SubFrom(p, s, i + 1);
      == { SubFromPrefix(p, s, i + 1, n); }
        [s[i]] + (s[i + 1..n] + rest);
      == { SeqShift(s[i], s[i..n], s[i + 1..n], rest); }
        s[i..n] + rest;
      }
    }
  }

  lemma SeqShift(c: char, a: string, b: string, rest: string)
    requires a == [c] + b
    ensures a + rest == [c] + (b + rest)
  {
  }

  /** A match deletes everything it covers. */
  lemma SubFromSkips(p: Pattern, s: string, i: nat, m: Match)
    requires i < |s| && MatchAt(p, s, i) == Some(m)
    ensures SubFrom(p, s, i) == SubFrom(p, s, m.end)
  {
  }

  /** A position where nothing matches keeps its character. */
  lemma SubFromKeeps(p: Pattern, s: string, i: nat)
    requires i < |s| && MatchAt(p, s, i).None?
    ensures SubFrom(p, s, i) == [s[i]] + SubFrom(p, s, i + 1)
  {
  }

  /** `CorpDesignator` finds nothing at a position holding no mark, unless a
      `(` there is followed by one. */
  lemma CorpDesignatorUnmatchedAt(s: string, j: nat)
    requires j < |s| && s[j] !in CorpMarks
    requires j + 1 < |s| ==> s[j] != '(' || s[j + 1] !in CorpMarks
    ensures MatchAt(CorpDesignator, s, j).None?
  {
  }

  /** A string made of an unmatched head, one match right after it and an
      unmatched tail loses exactly that match to `re.sub`. */
  lemma SubAround(p: Pattern, pre: string, w: string, post: string)
    requires forall j :: 0 <= j < |pre| ==> MatchAt(p, pre + w + post, j).None?
    requires MatchAt(p, pre + w + post, |pre|) == Some(Match(|pre|, |pre| + |w|))
    requires forall j :: |pre| + |w| <= j < |pre + w + post| ==> MatchAt(p, pre + w + post, j).None?
    ensures Sub(p, pre + w + post) == pre + post
  {
    var s := pre + w + post;
    var e := |pre| + |w|;
    calc {
      Sub(p, s);
    == { SubFromPrefix(p, s, 0, |pre|); }
      s[0..|pre|] + SubFrom(p, s, |pre|);
    == { SubFromSkips(p, s, |pre|, Match(|pre|, e)); }
      s[0..|pre|] + SubFrom(p, s, e);
    == { SubFromUnmatched(p, s, e); }
      s[0..|pre|] + s[e..];
    == { assert s[0..|pre|] == pre && s[e..] == post; }
      pre + post;
    }
  }

  /** `CorpDesignator` finds nothing inside a mark-free head that does not end
      in `(`, whatever follows it. */
  lemma CorpHeadUnmatched(pre: string, rest: string)
    requires forall k :: 0 <= k < |pre| ==> pre[k] !in CorpMarks
    requires pre == [] || pre[|pre| - 1] != '('
    ensures forall j :: 0 <= j < |pre| ==> MatchAt(CorpDesignator, pre + rest, j).None?
  {
    var s := pre + rest;
    forall j | 0 <= j < |pre|
      ensures MatchAt(CorpDesignator, s, j).None?
    {
      assert s[j] == pre[j];
      if j + 1 < |pre| {
        assert s[j + 1] == pre[j + 1];
      }
      CorpDesignatorUnmatchedAt(s, j);
    }
  }

  /** `CorpDesignator` finds nothing inside a mark-free tail. */
  lemma CorpTailUnmatched(head: string, post: string)
    requires forall k :: 0 <= k < |post| ==> post[k] !in CorpMarks
    ensures forall j :: |head| <= j < |head + post| ==> MatchAt(CorpDesignator, head + post, j).None?
  {
    var s := head + post;
    forall k | |head| <= k < |s|
      ensures s[k] !in CorpMarks
    {
      assert s[k] == post[k - |head|];
    }
    forall j | |head| <= j < |s|
      ensures MatchAt(CorpDesignator, s, j).None?
    {
      CorpDesignatorNeedsMarkFrom(s, |head|, j);
    }
  }

  /** `CorpDesignator` finds nothing in a suffix free of `CorpMarks`. */
  lemma CorpDesignatorNeedsMarkFrom(s: string, lo: nat, j: nat)
    requires lo <= j <= |s|
    requires forall k :: lo <= k < |s| ==> s[k] !in CorpMarks
    ensures MatchAt(CorpDesignator, s, j).None?
  {
  }

  /** The `주식회사` alternative of `DartDesignator` never fires: its first
      character is already matched by the character class, so the pattern
      deletes exactly one `[\(주\)\s]` character at a time. */
  lemma DartDesignatorIsCharClass(s: string, i: nat)
    requires i <= |s|
    ensures MatchAt(DartDesignator, s, i)
            == if i < |s| && NameJunk.Has(s[i]) then Some(Match(i, i + 1)) else None
  {
    if StartsAt(s, i, "주식회사") {
      assert s[i] == "주식회사"[0];
    }
  }

  /** Hence `re.sub("[\(주\)\s]|주식회사", "", s)` deletes exactly the
      characters of that class. */
  lemma {:induction false} DartSubIsDelete(s: string, i: nat)
    requires i <= |s|
    ensures SubFrom(DartDesignator, s, i) == Delete(s[i..], NameJunk)
    decreases |s| - i
  {
    if i < |s| {
      DartDesignatorIsCharClass(s, i);
      DartSubIsDelete(s, i + 1);
      assert s[i..][1..] == s[i + 1..];
    }
  }

  /** A `Labelled` match leaves between the two halves of the label only
      whitespace, and between the label and the amount only whitespace and at
      most one colon. */
  lemma LabelledShape(head: string, tail: string, s: string, i: nat)
    requires i <= |s| && MatchAt(Labelled(head, tail), s, i).Some?
    ensures var m := MatchAt(Labelled(head, tail), s, i).value;
            StartsAt(s, i, head) &&
            exists a :: i + |head| <= a && a + |tail| <= m.group
                        && AllInRange(s, i + |head|, a, Space) && StartsAt(s, a, tail)
                        && SeparatorAt(s, a + |tail|, m.group)
  {
    var a := RunEnd(s, i + |head|, Space);
    AmountAfterShape(s, a + |tail|);
  }

  lemma AmountAfterShape(s: string, j: nat)
    requires j <= |s| && AmountAfter(s, j).Some?
    ensures SeparatorAt(s, j, AmountAfter(s, j).value.group)
  {
    var m := AmountAfter(s, j).value;
    var b := RunEnd(s, j, Space);
    if !(b < |s| && Amount.Has(s[b])) {
      assert s[b] == ':' || s[b] == '：';
      assert AllInRange(s, j, b, Space) && AllInRange(s, b + 1, m.group, Space);
    }
  }

  /** Conversely, when the label's second half does not start with
      whitespace, any text of that shape is matched, with the group starting
      at the first amount character (and ending, as every match does, where
      the run of amount characters ends). */
  lemma LabelledComplete(head: string, tail: string, s: string, i: nat, a: nat, c: nat)
    requires i + |head| <= a && a + |tail| <= c < |s|
    requires StartsAt(s, i, head) && AllInRange(s, i + |head|, a, Space) && StartsAt(s, a, tail)
    requires tail != [] && !IsSpace(tail[0])
    requires SeparatorAt(s, a + |tail|, c) && Amount.Has(s[c])
    ensures MatchAt(Labelled(head, tail), s, i).Some? && MatchAt(Labelled(head, tail), s, i).value.group == c
  {
    LabelLocated(head, tail, s, i, a);
    AmountAfterComplete(s, a + |tail|, c);
  }

  /** A match of `Labelled` whose group starts at `c` ends where the run of
      amount characters from `c` ends. */
  lemma LabelledEnd(head: string, tail: string, s: string, i: nat, c: nat, e: nat)
    requires i <= |s| && MatchAt(Labelled(head, tail), s, i).Some? && MatchAt(Labelled(head, tail), s, i).value.group == c
    requires c <= e <= |s| && AllInRange(s, c, e, Amount) && (e == |s| || !Amount.Has(s[e]))
    ensures MatchAt(Labelled(head, tail), s, i) == Some(Match(c, e))
  {
    var m := LabelledAt(head, tail, s, i).value;
    assert MatchAt(Labelled(head, tail), s, i) == LabelledAt(head, tail, s, i);
    if m.end < e {
      assert Amount.Has(s[m.end]);
    }
  }

  /** Where the label starts at `i`, `Labelled` goes on with `AmountAfter` right
      after its second half. */
  lemma LabelLocated(head: string, tail: string, s: string, i: nat, a: nat)
    requires i + |head| <= a && a + |tail| <= |s|
    requires StartsAt(s, i, head) && AllInRange(s, i + |head|, a, Space) && StartsAt(s, a, tail)
    requires tail != [] && !IsSpace(tail[0])
    ensures LabelledAt(head, tail, s, i) == AmountAfter(s, a + |tail|)
  {
    assert !Space.Has(s[a]) by {
      assert s[a..a + |tail|][0] == s[a];
    }
    RunEndAt(s, i + |head|, a, Space);
    assert RunEnd(s, i + |head|, Space) == a;
  }

  /** How the greedy `\s*[:：]?\s*` walks a separator that is followed by an
      amount character. */
  lemma AmountAfterComplete(s: string, j: nat, c: nat)
    requires j <= c < |s| && SeparatorAt(s, j, c) && Amount.Has(s[c])
    ensures AmountAfter(s, j).Some? && AmountAfter(s, j).value.group == c
  {
    SeparatorRuns(s, j, c);
    var b := RunEnd(s, j, Space);
    if b != c {
      assert !Amount.Has(s[b]);
    }
  }

  lemma SeparatorRuns(s: string, j: nat, c: nat)
    requires j <= c < |s| && SeparatorAt(s, j, c) && Amount.Has(s[c])
    ensures var b := RunEnd(s, j, Space);
            b == c || (b < c && (s[b] == ':' || s[b] == '：') && RunEnd(s, b + 1, Space) == c)
  {
    if AllInRange(s, j, c, Space) {
      RunEndAt(s, j, c, Space);
    } else {
      var k :| j <= k < c && (s[k] == ':' || s[k] == '：')
               && AllInRange(s, j, k, Space) && AllInRange(s, k + 1, c, Space);
      RunEndAt(s, j, k, Space);
      RunEndAt(s, k + 1, c, Space);
    }
  }
}
