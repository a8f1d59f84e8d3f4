/** Characters and strings as Python's `str` methods and the `re` character
    classes of the code base see them. */
module Text {

  /** The characters for which Python's `str.isspace()` holds. Both `\s` in a
      `str` pattern and `str.strip()` without arguments use exactly this set:
      U+0009..U+000D, U+001C..U+001F, U+0020, U+0085, U+00A0, U+1680,
      U+2000..U+200A, U+2028, U+2029, U+202F, U+205F and U+3000. */
  predicate IsSpace(c: char)
    ensures c == ' ' || c == '\t' || c == '\n' ==> IsSpace(c)
    ensures IsSpace(c) ==> !('0' <= c <= '9') && c != ',' && c != '주' && c != '유' && c != '㈜'
  {
    || '\t' <= c <= '\r'
    || '\U{001C}' <= c <= ' '
    || c == '\U{0085}' || c == '\U{00A0}' || c == '\U{1680}'
    || '\U{2000}' <= c <= '\U{200A}'
    || c == '\U{2028}' || c == '\U{2029}' || c == '\U{202F}' || c == '\U{205F}' || c == '\U{3000}'
  }

  /** The character classes the regular expressions of the code base use. */
  datatype CharClass =
    | Space     // \s
    | Digit     // \d, taken as the ASCII digits
    | Amount    // [0-9,] and [\d,]
    | Newline   // the single character "\n"
    | NameJunk  // [\(주\)\s]
  {
    predicate Has(c: char) {
      match this
      case Space => IsSpace(c)
      case Digit => '0' <= c <= '9'
      case Amount => '0' <= c <= '9' || c == ','
      case Newline => c == '\n'
      case NameJunk => c == '(' || c == '주' || c == ')' || IsSpace(c)
    }
  }

  /** Every character of `s` belongs to `cls`. */
  predicate AllIn(s: string, cls: CharClass) {
    forall k {:trigger cls.Has(s[k])} :: 0 <= k < |s| ==> cls.Has(s[k])
  }

  /** Every character of `s[j..k]` belongs to `cls`. */
  predicate AllInRange(s: string, j: nat, k: nat, cls: CharClass)
    requires j <= k <= |s|
  {
    forall n {:trigger cls.Has(s[n])} :: j <= n < k ==> cls.Has(s[n])
  }

  /** No character of `s[j..k]` belongs to `cls`. */
  predicate NoneInRange(s: string, j: nat, k: nat, cls: CharClass)
    requires j <= k <= |s|
  {
    forall n {:trigger cls.Has(s[n])} :: j <= n < k ==> !cls.Has(s[n])
  }

  /** No character of `s` belongs to `cls`. */
  predicate NoneIn(s: string, cls: CharClass) {
    forall k {:trigger cls.Has(s[k])} :: 0 <= k < |s| ==> !cls.Has(s[k])
  }

  /** `w` occurs in `s` at position `i`. */
  predicate StartsAt(s: string, i: nat, w: string) {
    i + |w| <= |s| && s[i..i + |w|] == w
  }

  /** Python's `w in s`. */
  predicate Contains(s: string, w: string)
    ensures Contains(s, w) ==> |w| <= |s|
    ensures w == [] ==> Contains(s, w)
  {
    assert w == [] ==> StartsAt(s, 0, w);
    exists i | 0 <= i <= |s| - |w| :: StartsAt(s, i, w)
  }

  /** What occurs in a part occurs in the concatenation. */
  lemma ContainsInAppend(a: string, b: string, w: string)
    ensures Contains(a, w) || Contains(b, w) ==> Contains(a + b, w)
  {
    var s := a + b;
    if Contains(a, w) {
      var i :| 0 <= i <= |a| - |w| && StartsAt(a, i, w);
      assert s[i..i + |w|] == a[i..i + |w|];
      assert StartsAt(s, i, w);
    } else if Contains(b, w) {
      var i :| 0 <= i <= |b| - |w| && StartsAt(b, i, w);
      assert s[|a| + i..|a| + i + |w|] == b[i..i + |w|];
      assert StartsAt(s, |a| + i, w);
    }
  }

  /** The end of the longest run of `cls` characters that starts at `i`
      (a greedy `[...]*` from position `i`). */
  function RunEnd(s: string, i: nat, cls: CharClass): (e: nat)
    requires i <= |s|
    ensures i <= e <= |s|
    ensures AllInRange(s, i, e, cls)
    ensures e == |s| || !cls.Has(s[e])
    decreases |s| - i
  {
    if i < |s| && cls.Has(s[i]) then RunEnd(s, i + 1, cls) else i
  }

  /** The start of the whitespace run that ends at `hi`, not going below `lo`. */
  function TrailStart(s: string, lo: nat, hi: nat): (b: nat)
    requires lo <= hi <= |s|
    ensures lo <= b <= hi
    ensures AllInRange(s, b, hi, Space)
    ensures b == lo || !Space.Has(s[b - 1])
    decreases hi
  {
    if hi > lo && IsSpace(s[hi - 1]) then TrailStart(s, lo, hi - 1) else hi
  }

  /** Python's `s.strip()`: `s` without its leading and trailing whitespace. */
  function Strip(s: string): (r: string)
    ensures |r| <= |s|
    ensures r == [] || (!IsSpace(r[0]) && !IsSpace(r[|r| - 1]))
    ensures exists a: nat :: a + |r| <= |s| && s[a..a + |r|] == r
                        && AllInRange(s, 0, a, Space) && AllInRange(s, a + |r|, |s|, Space)
  {
    var a := RunEnd(s, 0, Space);
    var b := TrailStart(s, a, |s|);
    s[a..b]
  }

  /** A string that neither starts nor ends with whitespace is left alone by
      `strip()`; in particular `strip()` is idempotent. */
  lemma StripStripped(s: string)
    requires s == [] || (!IsSpace(s[0]) && !IsSpace(s[|s| - 1]))
    ensures Strip(s) == s
  {
    assert RunEnd(s, 0, Space) == 0;
  }

  /** `strip()` removes trailing whitespace from a string that is otherwise
      stripped. */
  lemma StripTrailing(x: string, ws: string)
    requires x == [] || (!IsSpace(x[0]) && !IsSpace(x[|x| - 1]))
    requires AllIn(ws, Space)
    ensures Strip(x + ws) == x
  {
    var s := x + ws;
    assert AllInRange(s, |x|, |s|, Space) by {
      assert forall n :: |x| <= n < |s| ==> s[n] == ws[n - |x|];
    }
    if x == [] {
      RunEndAt(s, 0, |s|, Space);
    } else {
      assert s[0] == x[0] && s[|x| - 1] == x[|x| - 1];
      RunEndAt(s, 0, 0, Space);
      TrailStartAt(s, 0, |x|, |s|);
      assert s[0..|x|] == x;
    }
  }

  /** A run of class characters followed by a character outside the class
      (or by the end) is exactly what `RunEnd` finds. */
  lemma {:induction false} RunEndAt(s: string, i: nat, e: nat, cls: CharClass)
    requires i <= e <= |s| && AllInRange(s, i, e, cls) && (e == |s| || !cls.Has(s[e]))
    ensures RunEnd(s, i, cls) == e
    decreases e - i
  {
    if i < e {
      RunEndAt(s, i + 1, e, cls);
    }
  }

  /** A whitespace run ending at `hi` and preceded by a non-space character
      (or by `lo`) is exactly what `TrailStart` finds. */
  lemma {:induction false} TrailStartAt(s: string, lo: nat, b: nat, hi: nat)
    requires lo <= b <= hi <= |s| && AllInRange(s, b, hi, Space)
    requires b == lo || !Space.Has(s[b - 1])
    ensures TrailStart(s, lo, hi) == b
    decreases hi
  {
    if b < hi {
      assert Space.Has(s[hi - 1]);
      TrailStartAt(s, lo, b, hi - 1);
    }
  }

  lemma StripIdempotent(s: string)
    ensures Strip(Strip(s)) == Strip(s)
  {
    StripStripped(Strip(s));
  }

  /** `strip()` introduces no character: one absent from `s` is absent from
      `Strip(s)`. */
  lemma StripKeepsOut(s: string, bad: set<char>)
    requires forall k :: 0 <= k < |s| ==> s[k] !in bad
    ensures forall k :: 0 <= k < |Strip(s)| ==> Strip(s)[k] !in bad
  {
    var r := Strip(s);
    var a: nat :| a + |r| <= |s| && s[a..a + |r|] == r
                  && AllInRange(s, 0, a, Space) && AllInRange(s, a + |r|, |s|, Space);
    forall k | 0 <= k < |r| ensures r[k] !in bad {
      assert r[k] == s[a + k];
    }
  }

  /** `s` with every character of `cls` deleted and the others kept in order;
      for `Newline` this is Python's `s.replace("\n", "")`. */
  function Delete(s: string, cls: CharClass): (r: string)
    ensures |r| <= |s|
    ensures NoneIn(r, cls)
  {
    if s == [] then []
    else (if cls.Has(s[0]) then [] else [s[0]]) + Delete(s[1..], cls)
  }

  /** Deleting distributes over concatenation: characters of the two parts are
      kept or dropped independently and stay in order. */
  lemma {:induction false} DeleteAppend(a: string, b: string, cls: CharClass)
    ensures Delete(a + b, cls) == Delete(a, cls) + Delete(b, cls)
  {
    if a == [] {
      assert a + b == b;
    } else {
      assert (a + b)[1..] == a[1..] + b;
      DeleteAppend(a[1..], b, cls);
    }
  }

  /** A string with no character of `cls` is left unchanged. */
  lemma {:induction false} DeleteNothing(s: string, cls: CharClass)
    requires NoneIn(s, cls)
    ensures Delete(s, cls) == s
  {
    if s != [] {
      DeleteNothing(s[1..], cls);
    }
  }

  /** Deleting is idempotent. */
  lemma DeleteIdempotent(s: string, cls: CharClass)
    ensures Delete(Delete(s, cls), cls) == Delete(s, cls)
  {
    DeleteNothing(Delete(s, cls), cls);
  }
}
