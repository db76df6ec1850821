/**
 * Character classes, literal matching and the leftmost-match driver that the
 * regular-expression patterns of the SMS parser are built from. Python's
 * `re` module is modelled over ASCII: `\d` is 0-9, `\s` is the ASCII
 * characters that `str` patterns treat as white space, and IGNORECASE folds
 * A-Z onto a-z.
 */
module Scan {
  import opened Wrappers

  predicate IsDigit(c: char) { '0' <= c <= '9' }

  /**
   * The ASCII characters that `\s` matches in a `str` pattern and that
   * `str.strip()` removes: space, \t, \n, \r, vertical tab, form feed and the
   * separators U+001C to U+001F.
   */
  predicate IsSpace(c: char) {
    || c == ' ' || c == '\t' || c == '\n' || c == '\r' || c == '\U{000B}' || c == '\U{000C}'
    || '\U{001C}' <= c <= '\U{001F}'
  }

  predicate IsLetter(c: char) { 'A' <= c <= 'Z' || 'a' <= c <= 'z' }

  /** The class `[\d,]`. */
  predicate IsDigitOrComma(c: char) { IsDigit(c) || c == ',' }

  /** The class `[:\s]`. */
  predicate IsColonOrSpace(c: char) { c == ':' || IsSpace(c) }

  /** The class `[A-Za-z ]`. */
  predicate IsNameChar(c: char) { IsLetter(c) || c == ' ' }

  /** The class `[\s(]`. */
  predicate IsSpaceOrParen(c: char) { IsSpace(c) || c == '(' }

  /** The class `[^to]`. */
  predicate IsNotTOrO(c: char) { c != 't' && c != 'o' }

  /** The class `.` without DOTALL: anything but a newline. */
  predicate IsNotNewline(c: char) { c != '\n' }

  /** ASCII case folding, as IGNORECASE applies it to letters. */
  function Lower(c: char): (d: char)
    ensures IsLetter(c) ==> 'a' <= d <= 'z'
    ensures !IsLetter(c) ==> d == c
  {
    if 'A' <= c <= 'Z' then (c as int + 32) as char else c
  }

  function Fold(t: string): (r: string)
    ensures |r| == |t|
  {
    seq(|t|, k requires 0 <= k < |t| => Lower(t[k]))
  }

  lemma FoldEqual(a: string, b: string)
    requires |a| == |b| && forall k | 0 <= k < |a| :: Lower(a[k]) == Lower(b[k])
    ensures Fold(a) == Fold(b)
  {
  }

  /** The literal `p` occurs in `s` starting at index `i`. */
  predicate MatchesAt(s: string, i: nat, p: string) {
    i + |p| <= |s| && s[i..i + |p|] == p
  }

  /** A piece of a literal that occurs at `i` occurs at its own offset. */
  lemma MatchesAtPiece(s: string, i: nat, p: string, a: nat, b: nat)
    requires MatchesAt(s, i, p) && a <= b <= |p|
    ensures MatchesAt(s, i + a, p[a..b])
  {
    forall k | 0 <= k < b - a
      ensures s[i + a..i + b][k] == p[a..b][k]
    {
      assert s[i..i + |p|][a + k] == s[i + a + k];
    }
  }

  /** The literal `p` occurs at index `i`, ignoring ASCII case. */
  predicate MatchesAtFold(s: string, i: nat, p: string) {
    i + |p| <= |s| && Fold(s[i..i + |p|]) == Fold(p)
  }

  /** `re.search(p, s)` succeeds for a pattern `p` without metacharacters. */
  predicate Contains(s: string, p: string) {
    exists i | 0 <= i <= |s| :: MatchesAt(s, i, p)
  }

  /** `re.search(p, s, re.IGNORECASE)` succeeds for a literal pattern `p`. */
  predicate ContainsFold(s: string, p: string) {
    exists i | 0 <= i <= |s| :: MatchesAtFold(s, i, p)
  }

  /** Every character of `s[i..e]` is in the class `p`. */
  predicate AllIn(s: string, i: nat, e: nat, p: char -> bool)
    requires i <= e <= |s|
  {
    forall k | i <= k < e :: p(s[k])
  }

  /**
   * Where a greedy `[class]*` that starts at `i` stops: the end of the
   * longest run of characters of the class.
   */
  function RunEnd(s: string, i: nat, p: char -> bool): (e: nat)
    requires i <= |s|
    ensures i <= e <= |s|
    ensures AllIn(s, i, e, p)
    ensures e == |s| || !p(s[e])
    decreases |s| - i
  {
    if i < |s| && p(s[i]) then RunEnd(s, i + 1, p) else i
  }

  /** A run of the class that starts at `i` cannot extend past the maximal one. */
  lemma RunWithinRunEnd(s: string, i: nat, e: nat, p: char -> bool)
    requires i <= e <= |s| && AllIn(s, i, e, p)
    ensures e <= RunEnd(s, i, p)
  {
  }

  /**
   * The driver behind `re.search`: try the pattern at positions `i`, `i + 1`,
   * ..., `|s|` and report the first position where it matches, with what the
   * match captured.
   */
  function Search<T>(s: string, at: (string, nat) -> Option<T>, i: nat): (r: Option<(nat, T)>)
    ensures r.Some? ==> i <= r.value.0 <= |s| && at(s, r.value.0) == Some(r.value.1)
    ensures r.Some? ==> forall k | i <= k < r.value.0 :: at(s, k).None?
    ensures r.None? ==> forall k | i <= k <= |s| :: at(s, k).None?
    decreases |s| + 1 - i
  {
    if i > |s| then None
    else match at(s, i)
      case Some(v) => Some((i, v))
      case None => Search(s, at, i + 1)
  }

  /**
   * `at` matches at `i` and at no earlier index: the position `re.search`
   * reports.
   */
  predicate FirstAt<T>(s: string, at: (string, nat) -> Option<T>, i: nat) {
    i <= |s| && at(s, i).Some? && forall k: nat | k < i :: at(s, k).None?
  }

  /** `at` matches nowhere in `s`. */
  predicate NoMatch<T>(s: string, at: (string, nat) -> Option<T>) {
    forall i | 0 <= i <= |s| :: at(s, i).None?
  }

  /**
   * The search from 0 reports exactly the first index where `at` matches,
   * and fails exactly when `at` matches nowhere.
   */
  lemma FirstAtIsSearch<T>(s: string, at: (string, nat) -> Option<T>)
    ensures forall i: nat | FirstAt(s, at, i) :: Search(s, at, 0) == Some((i, at(s, i).value))
    ensures Search(s, at, 0).None? <==> NoMatch(s, at)
  {
    var m := Search(s, at, 0);
    forall i: nat | FirstAt(s, at, i)
      ensures m == Some((i, at(s, i).value))
    {
      assert m.Some?;
      assert at(s, m.value.0).Some?;
      assert m.value.0 <= i;
      assert m.value.0 >= i;
    }
  }

  /** `t.replace(",", "")`. */
  function RemoveCommas(t: string): (r: string)
    ensures |r| <= |t|
    ensures forall c :: c in r <==> c in t && c != ','
    ensures (forall c | c in t :: IsDigitOrComma(c)) ==> forall c | c in r :: IsDigit(c)
    ensures (forall c | c in t :: c != ',') ==> r == t
  {
    if t == [] then []
    else
      assert forall c | c in t[1..] :: c in t;
      assert t == [t[0]] + t[1..] && t[0] in t;
      (if t[0] == ',' then [] else [t[0]]) + RemoveCommas(t[1..])
  }

  /**
   * Removing commas keeps the order of the other characters: it works piece
   * by piece.
   */
  lemma {:induction false} RemoveCommasAppend(a: string, b: string)
    ensures RemoveCommas(a + b) == RemoveCommas(a) + RemoveCommas(b)
    decreases |a|
  {
    if a != [] {
      var head := if a[0] == ',' then [] else [a[0]];
      assert (a + b)[1..] == a[1..] + b && (a + b)[0] == a[0];
      assert RemoveCommas(a + b) == head + RemoveCommas(a[1..] + b);
      RemoveCommasAppend(a[1..], b);
      assert head + (RemoveCommas(a[1..]) + RemoveCommas(b)) == (head + RemoveCommas(a[1..])) + RemoveCommas(b);
    } else {
      assert a + b == b;
    }
  }

  /** The value of a string of decimal digits, as `int()` reads it. */
  function DecimalValue(d: string): nat
    requires forall c | c in d :: IsDigit(c)
  {
    if d == [] then 0
    else
      assert d[|d| - 1] in d && IsDigit(d[|d| - 1]);
      DecimalValue(d[..|d| - 1]) * 10 + (d[|d| - 1] as int - '0' as int)
  }

  /** `int()` raised ValueError: its argument held no digit. */
  datatype IntError = InvalidLiteral

  /**
   * `int(group.replace(",", ""))` for a group captured by `[\d,]+`. A group of
   * commas alone leaves the empty string, which `int()` rejects.
   */
  function GroupValue(group: string): (r: Result<nat, IntError>)
    requires forall c | c in group :: IsDigitOrComma(c)
    ensures r.Err? <==> forall c | c in group :: c == ','
    ensures r.Ok? ==> r.value == DecimalValue(RemoveCommas(group))
  {
    var digits := RemoveCommas(group);
    if digits == [] then
      Err(InvalidLiteral)
    else
      assert digits[0] in group;
      Ok(DecimalValue(digits))
  }

  /** `r` occurs in `t` starting at index `a`. */
  predicate SliceAt(t: string, a: nat, r: string) {
    a + |r| <= |t| && t[a..a + |r|] == r
  }

  /**
   * `r` is `t[a..a + |r|]` and everything before and after it in `t` is
   * white space.
   */
  predicate TrimmedAt(t: string, a: nat, r: string) {
    && SliceAt(t, a, r)
    && (forall k | 0 <= k < a :: IsSpace(t[k]))
    && (forall k | a + |r| <= k < |t| :: IsSpace(t[k]))
  }

  /**
   * Where a run of the class `p` that ends at `e` starts, going no lower
   * than `lo`: the class scanned from the right.
   */
  function RunStart(s: string, lo: nat, e: nat, p: char -> bool): (b: nat)
    requires lo <= e <= |s|
    ensures lo <= b <= e
    ensures AllIn(s, b, e, p)
    ensures b == lo || !p(s[b - 1])
    decreases e - lo
  {
    if lo < e && p(s[e - 1]) then RunStart(s, lo, e - 1, p) else e
  }

  /** Neither the first nor the last character of `t` is white space. */
  predicate IsStripped(t: string) {
    t == [] || (!IsSpace(t[0]) && !IsSpace(t[|t| - 1]))
  }

  /**
   * `str.strip()`: the longest slice of `t` that neither starts nor ends with
   * white space, obtained by dropping white space from both ends.
   */
  function Strip(t: string): (r: string)
    ensures exists a: nat :: TrimmedAt(t, a, r)
    ensures IsStripped(r)
  {
    var a := RunEnd(t, 0, IsSpace);
    var b := RunStart(t, a, |t|, IsSpace);
    assert TrimmedAt(t, a, t[a..b]);
    t[a..b]
  }

  /** A string with no white space at either end is its own strip. */
  lemma StripUnchanged(t: string)
    requires IsStripped(t)
    ensures Strip(t) == t
  {
    assert RunEnd(t, 0, IsSpace) == 0;
    assert RunStart(t, 0, |t|, IsSpace) == |t|;
    assert t[0..|t|] == t;
  }

  /** Stripping twice is stripping once. */
  lemma StripIdempotent(t: string)
    ensures Strip(Strip(t)) == Strip(t)
  {
    StripUnchanged(Strip(t));
  }
}
