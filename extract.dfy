/**
 * The field extractors of the SMS parser: amount, fee, balance, provider
 * transaction id and counterpart. Each regular expression is a recogniser
 * `XAt(s, i)` that says whether the pattern matches at index `i` and what its
 * group captures; `Search` runs it from index 0 as `re.search` does, so the
 * leftmost match wins and, at one index, the alternatives are tried in the
 * order written.
 *
 * Where a greedy quantifier is followed by something its class cannot begin,
 * giving characters back can never help, so the recogniser takes the
 * longest run directly (`RwfGroupAt` below proves this for the
 * `([\d,]+)\s*RWF` tail). Where backtracking can matter (the lazy name group
 * of the counterpart pattern, `[^to]+` before " to", `.*?`), the recogniser
 * tries the candidates one by one in the engine's order.
 */
module Extract {
  import opened Wrappers
  import opened Scan
  import opened Classify

  // ---------------------------------------------------------------------
  // The shared tail `([\d,]+)\s*RWF`

  predicate RwfAt(s: string, w: nat, fold: bool) {
    if fold then MatchesAtFold(s, w, "RWF") else MatchesAt(s, w, "RWF")
  }

  /**
   * The regular expression `([\d,]+)\s*RWF` matches at `g` with its group
   * ending at `e`: any split the engine could choose, stated without search.
   */
  ghost predicate RwfGroupAt(s: string, g: nat, e: nat, fold: bool) {
    && g < e <= |s|
    && AllIn(s, g, e, IsDigitOrComma)
    && exists w | e <= w <= |s| :: AllIn(s, e, w, IsSpace) && RwfAt(s, w, fold)
  }

  /** All characters are digits or commas, and there is at least one. */
  predicate IsGroup(t: string) {
    |t| > 0 && forall c | c in t :: IsDigitOrComma(c)
  }

  /**
   * `([\d,]+)\s*RWF` tried at `g`: the longest run of digits and commas,
   * then white space, then "RWF" (ignoring case when `fold`). It matches
   * exactly when the regular expression does, and the group is the only one
   * the regular expression allows.
   */
  function GroupThenRwf(s: string, g: nat, fold: bool): (r: Option<string>)
    requires g <= |s|
    ensures r.Some? <==> exists e: nat :: RwfGroupAt(s, g, e, fold)
    ensures forall e: nat | RwfGroupAt(s, g, e, fold) :: r == Some(s[g..e])
    ensures r.Some? ==> IsGroup(r.value)
  {
    var e := RunEnd(s, g, IsDigitOrComma);
    var w := RunEnd(s, e, IsSpace);
    RwfGroupUnique(s, g, fold);
    if g < e && RwfAt(s, w, fold) then
      assert RwfGroupAt(s, g, e, fold);
      assert forall c | c in s[g..e] :: IsDigitOrComma(c);
      Some(s[g..e])
    else
      None
  }

  /** "RWF" starts with neither a digit, a comma nor white space. */
  lemma RwfAtStart(s: string, w: nat, fold: bool)
    requires RwfAt(s, w, fold)
    ensures w < |s| && !IsDigitOrComma(s[w]) && !IsSpace(s[w])
  {
    if fold {
      assert Fold(s[w..w + 3])[0] == Lower(s[w]) && Fold("RWF")[0] == 'r';
    } else {
      assert s[w..w + 3][0] == s[w];
    }
  }

  /** Any split allowed by the regular expression is the greedy one. */
  lemma RwfGroupUnique(s: string, g: nat, fold: bool)
    requires g <= |s|
    ensures forall e: nat | RwfGroupAt(s, g, e, fold) ::
      && e == RunEnd(s, g, IsDigitOrComma)
      && RwfAt(s, RunEnd(s, e, IsSpace), fold)
  {
    forall e: nat | RwfGroupAt(s, g, e, fold)
      ensures e == RunEnd(s, g, IsDigitOrComma) && RwfAt(s, RunEnd(s, e, IsSpace), fold)
    {
      var w :| e <= w <= |s| && AllIn(s, e, w, IsSpace) && RwfAt(s, w, fold);
      GreedySplit(s, g, e, w, fold);
    }
  }

  /** One split `s[g..e]`, `s[e..w]`, "RWF" at `w` is the greedy one. */
  lemma GreedySplit(s: string, g: nat, e: nat, w: nat, fold: bool)
    requires g < e <= w <= |s| && AllIn(s, g, e, IsDigitOrComma)
    requires AllIn(s, e, w, IsSpace) && RwfAt(s, w, fold)
    ensures e == RunEnd(s, g, IsDigitOrComma) && RwfAt(s, RunEnd(s, e, IsSpace), fold)
  {
    var m := RunEnd(s, g, IsDigitOrComma);
    RunWithinRunEnd(s, g, e, IsDigitOrComma);
    RwfAtStart(s, w, fold);
    assert e < w ==> IsSpace(s[e]);
    assert e < m ==> IsDigitOrComma(s[e]);
    RunWithinRunEnd(s, e, w, IsSpace);
  }

  /**
   * `[:\s]*([\d,]+)\s*RWF` matches at `j` with the group `s[g..e]`: the tail
   * that follows the fee and balance labels, stated without search.
   */
  ghost predicate SepGroupAt(s: string, j: nat, g: nat, e: nat, fold: bool) {
    && j <= g
    && RwfGroupAt(s, g, e, fold)
    && AllIn(s, j, g, IsColonOrSpace)
  }

  /**
   * `[:\s]*([\d,]+)\s*RWF` tried at `j`, the colons and white space taken
   * greedily. `SepGroupSpec` states that this is the regular expression's
   * match.
   */
  function SepGroup(s: string, j: nat, fold: bool): (r: Option<string>)
    requires j <= |s|
    ensures r.Some? ==> IsGroup(r.value)
  {
    GroupThenRwf(s, RunEnd(s, j, IsColonOrSpace), fold)
  }

  /**
   * `SepGroup` matches exactly when the regular expression does, with the
   * only group the regular expression allows.
   */
  lemma SepGroupSpec(s: string, j: nat, fold: bool)
    requires j <= |s|
    ensures SepGroup(s, j, fold).Some? <==> exists g: nat, e: nat :: SepGroupAt(s, j, g, e, fold)
    ensures forall g: nat, e: nat | SepGroupAt(s, j, g, e, fold) :: SepGroup(s, j, fold) == Some(s[g..e])
  {
    var g := RunEnd(s, j, IsColonOrSpace);
    SepGroupStart(s, j, fold);
    assert forall e: nat | RwfGroupAt(s, g, e, fold) :: SepGroupAt(s, j, g, e, fold);
  }

  /** The group can only start where the colons and white space end. */
  lemma SepGroupStart(s: string, j: nat, fold: bool)
    requires j <= |s|
    ensures forall g: nat, e: nat | SepGroupAt(s, j, g, e, fold) :: g == RunEnd(s, j, IsColonOrSpace)
  {
    forall g: nat, e: nat | SepGroupAt(s, j, g, e, fold)
      ensures g == RunEnd(s, j, IsColonOrSpace)
    {
      RunWithinRunEnd(s, j, g, IsColonOrSpace);
      assert !IsColonOrSpace(s[g]);
    }
  }

  // ---------------------------------------------------------------------
  // extract_amount: ([\d,]+)\s*RWF

  function AmountAt(s: string, i: nat): (r: Option<string>)
    ensures r.Some? <==> exists e: nat :: RwfGroupAt(s, i, e, false)
    ensures forall e: nat | RwfGroupAt(s, i, e, false) :: r == Some(s[i..e])
    ensures r.Some? ==> IsGroup(r.value)
  {
    if i <= |s| then GroupThenRwf(s, i, false) else None
  }

  /** The group of the leftmost match as an int, None without a match. */
  function ExtractAmount(body: string): (r: Result<Option<nat>, IntError>)
    ensures r == Ok(None) <==> forall i | 0 <= i <= |body| :: AmountAt(body, i).None?
  {
    match Search(body, AmountAt, 0)
    case None => Ok(None)
    case Some((_, group)) =>
      match GroupValue(group)
      case Ok(n) => Ok(Some(n))
      case Err(x) => Err(x)
  }

  /** A match at `i` with nothing earlier is the one `re.search` reports. */
  lemma LeftmostAmount(body: string, i: nat, e: nat)
    requires RwfGroupAt(body, i, e, false)
    requires forall k: nat | k < i :: AmountAt(body, k).None?
    ensures Search(body, AmountAt, 0) == Some((i, body[i..e]))
  {
    var m := Search(body, AmountAt, 0);
    assert AmountAt(body, i) == Some(body[i..e]);
    assert m.Some?;
    assert m.value.0 <= i;
    assert AmountAt(body, m.value.0).Some?;
  }

  /**
   * An amount comes from the first maximal run of digits and commas that is
   * followed by optional white space and "RWF": the run starts and ends at
   * non-digit, non-comma characters, no earlier index starts a match, and
   * the value is that of the run with its commas removed.
   */
  lemma AmountIsFirstRun(body: string, n: nat)
    requires ExtractAmount(body) == Ok(Some(n))
    ensures exists i: nat, e: nat ::
      && LeftmostAmountMatch(body, i, e)
      && IsMaximalRun(body, i, e)
      && IsGroup(body[i..e])
      && n == DecimalValue(RemoveCommas(body[i..e]))
  {
    var i, e := AmountMatch(body, n);
    MaximalRun(body, i, e);
    assert AmountAt(body, i) == Some(body[i..e]);
  }

  /** `s[i..e]` is a run of digits and commas that no such character extends. */
  predicate IsMaximalRun(s: string, i: nat, e: nat) {
    && i <= e <= |s|
    && AllIn(s, i, e, IsDigitOrComma)
    && (i == 0 || !IsDigitOrComma(s[i - 1]))
    && (e == |s| || !IsDigitOrComma(s[e]))
  }

  /** The leftmost match's group is a maximal run of digits and commas. */
  lemma MaximalRun(body: string, i: nat, e: nat)
    requires LeftmostAmountMatch(body, i, e)
    ensures IsMaximalRun(body, i, e)
  {
    RwfGroupUnique(body, i, false);
    if i > 0 && IsDigitOrComma(body[i - 1]) {
      ExtendLeft(body, i, e);
    }
  }

  /** The leftmost match behind an amount that was found. */
  lemma AmountMatch(body: string, n: nat) returns (i: nat, e: nat)
    requires ExtractAmount(body) == Ok(Some(n))
    ensures LeftmostAmountMatch(body, i, e)
    ensures i <= e <= |body| && GroupValue(body[i..e]) == Ok(n)
  {
    var m := Search(body, AmountAt, 0);
    i := m.value.0;
    assert AmountAt(body, i).Some?;
    e :| RwfGroupAt(body, i, e, false);
    assert m.value.1 == body[i..e];
  }

  /** A run preceded by a digit or a comma is not where a match starts first. */
  lemma ExtendLeft(body: string, i: nat, e: nat)
    requires RwfGroupAt(body, i, e, false) && 0 < i && IsDigitOrComma(body[i - 1])
    ensures RwfGroupAt(body, i - 1, e, false) && AmountAt(body, i - 1).Some?
  {
    assert RwfGroupAt(body, i - 1, e, false);
  }

  /** The match `re.search` reports for the amount pattern: no earlier index matches. */
  ghost predicate LeftmostAmountMatch(body: string, i: nat, e: nat) {
    && RwfGroupAt(body, i, e, false)
    && forall k: nat | k < i :: AmountAt(body, k).None?
  }

  /** There is at most one leftmost amount match. */
  lemma LeftmostAmountUnique(body: string, i: nat, e: nat, i': nat, e': nat)
    requires LeftmostAmountMatch(body, i, e) && LeftmostAmountMatch(body, i', e')
    ensures i == i' && e == e'
  {
    LeftmostAmount(body, i, e);
    LeftmostAmount(body, i', e');
    assert |body[i..e]| == |body[i'..e']|;
  }

  /**
   * `int()` fails, and the whole batch with it, exactly when the leftmost
   * match captured commas alone, as in ", RWF".
   */
  lemma AmountFailsOnCommasOnly(body: string)
    ensures ExtractAmount(body).Err? <==>
      exists i: nat, e: nat ::
        LeftmostAmountMatch(body, i, e) && forall c | c in body[i..e] :: c == ','
  {
    var m := Search(body, AmountAt, 0);
    if m.Some? {
      var i := m.value.0;
      assert AmountAt(body, i).Some?;
      var e: nat :| RwfGroupAt(body, i, e, false);
      assert LeftmostAmountMatch(body, i, e);
      assert m.value.1 == body[i..e];
      assert ExtractAmount(body).Err? <==> GroupValue(body[i..e]).Err?;
      forall i': nat, e': nat | LeftmostAmountMatch(body, i', e')
        ensures i' == i && e' == e
      {
        LeftmostAmountUnique(body, i, e, i', e');
      }
    } else {
      forall i: nat, e: nat | RwfGroupAt(body, i, e, false)
        ensures AmountAt(body, i).Some? && i <= |body|
      {
      }
    }
  }

  /** Example: "0 RWF" is an amount of 0, which the parser keeps. */
  lemma ZeroAmount()
    ensures ExtractAmount("0 RWF") == Ok(Some(0))
  {
    var s := "0 RWF";
    assert RwfGroupAt(s, 0, 1, false) by {
      assert AllIn(s, 1, 2, IsSpace) && MatchesAt(s, 2, "RWF");
    }
    assert s[0..1] == "0";
    LeftmostAmount(s, 0, 1);
    assert RemoveCommas("0") == "0";
    assert DecimalValue("0") == 0 by { assert "0"[..0] == []; }
  }

  // ---------------------------------------------------------------------
  // extract_fee: Fee (?:was|paid)[:\s]*([\d,]+)\s*RWF, ignoring case

  /** The fee pattern matches at `i` with the group `s[g..e]`. */
  ghost predicate FeeMatch(s: string, i: nat, g: nat, e: nat) {
    || (MatchesAtFold(s, i, "Fee was") && SepGroupAt(s, i + 7, g, e, true))
    || (MatchesAtFold(s, i, "Fee paid") && SepGroupAt(s, i + 8, g, e, true))
  }

  /**
   * The fee pattern tried at `i`: "Fee was" or "Fee paid" in any case, then
   * the tail. `FeeAtSpec` states that this is the pattern's match.
   */
  function FeeAt(s: string, i: nat): (r: Option<string>)
    ensures r.Some? ==> IsGroup(r.value)
  {
    if MatchesAtFold(s, i, "Fee was") then SepGroup(s, i + 7, true)
    else if MatchesAtFold(s, i, "Fee paid") then SepGroup(s, i + 8, true)
    else None
  }

  /**
   * `FeeAt` matches exactly when the fee pattern does at `i`, with its only
   * group. When "Fee was" matches, "Fee paid" cannot, so the alternation
   * never falls through to its second branch.
   */
  lemma FeeAtSpec(s: string, i: nat)
    ensures FeeAt(s, i).Some? <==> exists g: nat, e: nat :: FeeMatch(s, i, g, e)
    ensures forall g: nat, e: nat | FeeMatch(s, i, g, e) :: FeeAt(s, i) == Some(s[g..e])
  {
    FeeLabelsExclusive(s, i);
    if MatchesAtFold(s, i, "Fee was") {
      SepGroupSpec(s, i + 7, true);
      if FeeAt(s, i).Some? {
        var g: nat, e: nat :| SepGroupAt(s, i + 7, g, e, true);
        assert FeeMatch(s, i, g, e);
      }
    } else if MatchesAtFold(s, i, "Fee paid") {
      SepGroupSpec(s, i + 8, true);
      if FeeAt(s, i).Some? {
        var g: nat, e: nat :| SepGroupAt(s, i + 8, g, e, true);
        assert FeeMatch(s, i, g, e);
      }
    }
  }

  /** "Fee was" and "Fee paid" differ in their fifth letter: at most one matches. */
  lemma FeeLabelsExclusive(s: string, i: nat)
    ensures MatchesAtFold(s, i, "Fee was") ==> !MatchesAtFold(s, i, "Fee paid")
  {
    if MatchesAtFold(s, i, "Fee was") {
      assert Lower(s[i + 4]) == 'w' by {
        assert Fold(s[i..i + 7])[4] == Lower(s[i + 4]) && Fold("Fee was")[4] == 'w';
      }
      assert i + 8 <= |s| ==> Fold(s[i..i + 8])[4] == Lower(s[i + 4]);
      assert Fold("Fee paid")[4] == 'p';
    }
  }

  /**
   * The fee: the group of the leftmost fee phrase read as a number, an error
   * when that group holds only commas, and 0 when no fee phrase matches.
   */
  function ExtractFee(body: string): (r: Result<nat, IntError>)
    ensures NoMatch(body, FeeAt) ==> r == Ok(0)
    ensures forall i: nat | FirstAt(body, FeeAt, i) :: r == GroupValue(FeeAt(body, i).value)
  {
    FirstAtIsSearch(body, FeeAt);
    match Search(body, FeeAt, 0)
    case None => Ok(0)
    case Some((_, group)) => GroupValue(group)
  }

  /**
   * A fee other than the default 0 comes from a fee phrase in the body, and
   * an error from one whose group holds only commas.
   */
  lemma FeeComesFromAMatch(body: string)
    ensures ExtractFee(body).Err? ==>
      exists i | 0 <= i <= |body| :: FeeAt(body, i).Some? && forall c | c in FeeAt(body, i).value :: c == ','
    ensures ExtractFee(body).Ok? && ExtractFee(body).value != 0 ==> exists i | 0 <= i <= |body| :: FeeAt(body, i).Some?
  {
  }

  /** Example: the fee phrase is found whatever the case of its letters. */
  lemma FeeIgnoresCase()
    ensures ExtractFee("FEE PAID:100 rwf") == Ok(100)
  {
    var s := "FEE PAID:100 rwf";
    FeeAtStart(s);
    var m := Search(s, FeeAt, 0);
    assert m.Some? && m.value.0 == 0;
    HundredValue();
  }

  lemma FeeAtStart(s: string)
    requires s == "FEE PAID:100 rwf"
    ensures FeeAt(s, 0) == Some("100")
  {
    FeePhraseFolded(s);
    FeeGroupFolded(s);
  }

  lemma HundredValue()
    ensures GroupValue("100") == Ok(100)
  {
    assert RemoveCommas("100") == "100";
    assert DecimalValue("100") == 100 by {
      assert "100"[..2] == "10" && "10"[..1] == "1" && "1"[..0] == [];
    }
  }

  lemma FeePhraseFolded(s: string)
    requires s == "FEE PAID:100 rwf"
    ensures !MatchesAtFold(s, 0, "Fee was") && MatchesAtFold(s, 0, "Fee paid")
  {
    assert Fold(s[0..7])[4] == 'p' && Fold("Fee was")[4] == 'w';
    FoldEqual(s[0..8], "Fee paid");
  }

  lemma FeeGroupFolded(s: string)
    requires s == "FEE PAID:100 rwf"
    ensures SepGroup(s, 8, true) == Some("100")
  {
    FoldEqual(s[13..16], "RWF");
    assert RwfAt(s, 13, true);
    assert AllIn(s, 9, 12, IsDigitOrComma);
    assert AllIn(s, 12, 13, IsSpace);
    assert RwfGroupAt(s, 9, 12, true);
    assert RunEnd(s, 8, IsColonOrSpace) == 9 by {
      assert IsColonOrSpace(s[8]) && !IsColonOrSpace(s[9]);
    }
    assert s[9..12] == "100";
  }

  // ---------------------------------------------------------------------
  // extract_balance: three patterns, tried in order over the whole body

  /** The label of pattern 1, "New balance" or "new balance", at `i`. */
  predicate NewBalanceLabel(s: string, i: nat) {
    i < |s| && (s[i] == 'N' || s[i] == 'n') && MatchesAt(s, i + 1, "ew balance")
  }

  /** Pattern 1 matches at `i` with the group `s[g..e]`. */
  ghost predicate Balance1Match(s: string, i: nat, g: nat, e: nat) {
    NewBalanceLabel(s, i) && SepGroupAt(s, i + 11, g, e, false)
  }

  /** Pattern 1: `[Nn]ew balance[:\s]*([\d,]+)\s*RWF`. */
  function Balance1At(s: string, i: nat): (r: Option<string>)
    ensures r.Some? ==> IsGroup(r.value)
  {
    if NewBalanceLabel(s, i) then SepGroup(s, i + 11, false) else None
  }

  /** `Balance1At` matches exactly when pattern 1 does at `i`, with its only group. */
  lemma Balance1Spec(s: string, i: nat)
    ensures Balance1At(s, i).Some? <==> exists g: nat, e: nat :: Balance1Match(s, i, g, e)
    ensures forall g: nat, e: nat | Balance1Match(s, i, g, e) :: Balance1At(s, i) == Some(s[g..e])
  {
    if NewBalanceLabel(s, i) {
      SepGroupSpec(s, i + 11, false);
      if Balance1At(s, i).Some? {
        var g: nat, e: nat :| SepGroupAt(s, i + 11, g, e, false);
        assert Balance1Match(s, i, g, e);
      }
    }
  }

  /**
   * `\s*:?([\d,]+)\s*RWF` matches at `j` with the group `s[g..e]`: white
   * space, then at most one colon right before the group.
   */
  ghost predicate ColonGroupAt(s: string, j: nat, g: nat, e: nat) {
    && j <= g
    && RwfGroupAt(s, g, e, false)
    && (|| AllIn(s, j, g, IsSpace)
        || (j < g && s[g - 1] == ':' && AllIn(s, j, g - 1, IsSpace)))
  }

  /** Where the group starts after `\s*:?`, both taken greedily. */
  function AfterSpacesColon(s: string, j: nat): (g: nat)
    requires j <= |s|
    ensures j <= g <= |s|
  {
    var w := RunEnd(s, j, IsSpace);
    if w < |s| && s[w] == ':' then w + 1 else w
  }

  /**
   * `\s*:?([\d,]+)\s*RWF` tried at `j`, both prefixes taken greedily.
   * `ColonGroupSpec` states that this is the regular expression's match.
   */
  function ColonGroup(s: string, j: nat): (r: Option<string>)
    requires j <= |s|
    ensures r.Some? ==> IsGroup(r.value)
  {
    GroupThenRwf(s, AfterSpacesColon(s, j), false)
  }

  /**
   * `ColonGroup` matches exactly when the regular expression does, with the
   * only group the regular expression allows.
   */
  lemma ColonGroupSpec(s: string, j: nat)
    requires j <= |s|
    ensures ColonGroup(s, j).Some? <==> exists g: nat, e: nat :: ColonGroupAt(s, j, g, e)
    ensures forall g: nat, e: nat | ColonGroupAt(s, j, g, e) :: ColonGroup(s, j) == Some(s[g..e])
  {
    var g := AfterSpacesColon(s, j);
    ColonGroupStart(s, j);
    assert forall e: nat | RwfGroupAt(s, g, e, false) :: ColonGroupAt(s, j, g, e);
  }

  /** Backtracking into `\s*:?` never finds another start for the group. */
  lemma ColonGroupStart(s: string, j: nat)
    requires j <= |s|
    ensures forall g: nat, e: nat | ColonGroupAt(s, j, g, e) :: g == AfterSpacesColon(s, j)
  {
    var w := RunEnd(s, j, IsSpace);
    forall g: nat, e: nat | ColonGroupAt(s, j, g, e)
      ensures g == AfterSpacesColon(s, j)
    {
      assert !IsSpace(s[g]);
      if AllIn(s, j, g, IsSpace) {
        RunWithinRunEnd(s, j, g, IsSpace);
      } else {
        RunWithinRunEnd(s, j, g - 1, IsSpace);
        assert !IsSpace(s[g - 1]);
      }
    }
  }

  /** Pattern 2 matches at `i` with the group `s[g..e]`. */
  ghost predicate Balance2Match(s: string, i: nat, g: nat, e: nat) {
    MatchesAt(s, i, "NEW BALANCE") && ColonGroupAt(s, i + 11, g, e)
  }

  /** Pattern 2: `NEW BALANCE\s*:?([\d,]+)\s*RWF`. */
  function Balance2At(s: string, i: nat): (r: Option<string>)
    ensures r.Some? ==> IsGroup(r.value)
  {
    if MatchesAt(s, i, "NEW BALANCE") then ColonGroup(s, i + 11) else None
  }

  /** `Balance2At` matches exactly when pattern 2 does at `i`, with its only group. */
  lemma Balance2Spec(s: string, i: nat)
    ensures Balance2At(s, i).Some? <==> exists g: nat, e: nat :: Balance2Match(s, i, g, e)
    ensures forall g: nat, e: nat | Balance2Match(s, i, g, e) :: Balance2At(s, i) == Some(s[g..e])
  {
    if MatchesAt(s, i, "NEW BALANCE") {
      ColonGroupSpec(s, i + 11);
      if Balance2At(s, i).Some? {
        var g: nat, e: nat :| ColonGroupAt(s, i + 11, g, e);
        assert Balance2Match(s, i, g, e);
      }
    }
  }

  /** Pattern 3 matches at `i` with its group ending at `e`. */
  ghost predicate Balance3Match(s: string, i: nat, e: nat) {
    MatchesAt(s, i, "new balance:") && RwfGroupAt(s, i + 12, e, false)
  }

  /** Pattern 3: `new balance:([\d,]+)\s*RWF`. */
  function Balance3At(s: string, i: nat): (r: Option<string>)
    ensures r.Some? ==> IsGroup(r.value)
  {
    if MatchesAt(s, i, "new balance:") then GroupThenRwf(s, i + 12, false) else None
  }

  /** `Balance3At` matches exactly when pattern 3 does at `i`, with its only group. */
  lemma Balance3Spec(s: string, i: nat)
    ensures Balance3At(s, i).Some? <==> exists e: nat :: Balance3Match(s, i, e)
    ensures forall e: nat | Balance3Match(s, i, e) :: Balance3At(s, i) == Some(s[i + 12..e])
  {
    if MatchesAt(s, i, "new balance:") && Balance3At(s, i).Some? {
      var e: nat :| RwfGroupAt(s, i + 12, e, false);
      assert Balance3Match(s, i, e);
    }
  }

  /** A group's value as a balance that was found. */
  function AsBalance(v: Result<nat, IntError>): Result<Option<nat>, IntError> {
    match v
    case Ok(n) => Ok(Some(n))
    case Err(x) => Err(x)
  }

  /**
   * The balance: the patterns are tried in order, each over the whole body;
   * the first one that matches anywhere gives its leftmost group, read as a
   * number. None exactly when no pattern matches anywhere.
   */
  function ExtractBalance(body: string): (r: Result<Option<nat>, IntError>)
    ensures r == Ok(None) <==> NoMatch(body, Balance1At) && NoMatch(body, Balance2At) && NoMatch(body, Balance3At)
    ensures forall i: nat | FirstAt(body, Balance1At, i) :: r == AsBalance(GroupValue(Balance1At(body, i).value))
    ensures NoMatch(body, Balance1At) ==>
      forall i: nat | FirstAt(body, Balance2At, i) :: r == AsBalance(GroupValue(Balance2At(body, i).value))
    ensures NoMatch(body, Balance1At) && NoMatch(body, Balance2At) ==>
      forall i: nat | FirstAt(body, Balance3At, i) :: r == AsBalance(GroupValue(Balance3At(body, i).value))
  {
    FirstAtIsSearch(body, Balance1At);
    match Search(body, Balance1At, 0)
    case Some((_, group)) => AsBalance(GroupValue(group))
    case None => LaterBalance(body)
  }

  /** The rest of the loop over the patterns, once pattern 1 matched nowhere. */
  function LaterBalance(body: string): (r: Result<Option<nat>, IntError>)
    ensures r == Ok(None) <==> NoMatch(body, Balance2At) && NoMatch(body, Balance3At)
    ensures forall i: nat | FirstAt(body, Balance2At, i) :: r == AsBalance(GroupValue(Balance2At(body, i).value))
    ensures NoMatch(body, Balance2At) ==>
      forall i: nat | FirstAt(body, Balance3At, i) :: r == AsBalance(GroupValue(Balance3At(body, i).value))
  {
    FirstAtIsSearch(body, Balance2At);
    FirstAtIsSearch(body, Balance3At);
    match Search(body, Balance2At, 0)
    case Some((_, group)) => AsBalance(GroupValue(group))
    case None =>
      match Search(body, Balance3At, 0)
      case Some((_, group)) => AsBalance(GroupValue(group))
      case None => Ok(None)
  }

  /** Wherever pattern 3 matches, pattern 1 matches too, with the same group. */
  lemma Balance3Within1(s: string, i: nat)
    requires Balance3At(s, i).Some?
    ensures Balance1At(s, i) == Balance3At(s, i)
  {
    MatchesAtPiece(s, i, "new balance:", 1, 11);
    assert "new balance:"[1..11] == "ew balance";
    assert s[i] == 'n' && s[i + 11] == ':' by {
      assert s[i..i + 12][0] == s[i] && s[i..i + 12][11] == s[i + 11];
    }
    assert IsDigitOrComma(s[i + 12]) by {
      assert i + 12 < RunEnd(s, i + 12, IsDigitOrComma);
    }
    assert RunEnd(s, i + 11, IsColonOrSpace) == i + 12;
  }

  /**
   * Pattern 3 never decides the balance: it is only consulted when pattern 1
   * found nothing, and then it finds nothing either.
   */
  lemma Balance3NeverDecides(body: string)
    ensures Search(body, Balance1At, 0).None? ==> Search(body, Balance3At, 0).None?
  {
    var m3 := Search(body, Balance3At, 0);
    if m3.Some? {
      Balance3Within1(body, m3.value.0);
    }
  }

  /** An all-caps "NEW BALANCE" is invisible to patterns 1 and 3. */
  lemma UpperCaseBalanceOnlyPattern2(s: string, i: nat)
    requires MatchesAt(s, i, "NEW BALANCE")
    ensures Balance1At(s, i).None? && Balance3At(s, i).None?
  {
    assert s[i + 1] == 'E' && s[i] == 'N' by { assert s[i..i + 11][1] == s[i + 1] && s[i..i + 11][0] == s[i]; }
    assert !MatchesAt(s, i + 1, "ew balance") by { assert s[i + 1..i + 11][0] == s[i + 1]; }
    assert !MatchesAt(s, i, "new balance:") by {
      if i + 12 <= |s| { assert s[i..i + 12][0] == s[i]; }
    }
  }

  /**
   * Example: pattern 2 allows white space before its optional colon but not
   * after it, so "NEW BALANCE: 5 RWF" gives no match where the label starts.
   */
  lemma UpperCaseBalanceColonThenSpace()
    ensures Balance2At("NEW BALANCE: 5 RWF", 0).None?
  {
    var s := "NEW BALANCE: 5 RWF";
    assert MatchesAt(s, 0, "NEW BALANCE");
    assert RunEnd(s, 11, IsSpace) == 11 by { assert !IsSpace(s[11]); }
    assert RunEnd(s, 12, IsDigitOrComma) == 12 by { assert !IsDigitOrComma(s[12]); }
  }

  // ---------------------------------------------------------------------
  // extract_tx_id: (?:TxId[:\s]*|Financial Transaction Id[:\s]*)([\d]+)

  /** A nonempty run of digits that cannot be extended. */
  predicate MaximalDigitsAt(s: string, g: nat, d: string) {
    && |d| > 0
    && SliceAt(s, g, d)
    && (forall c | c in d :: IsDigit(c))
    && (g + |d| == |s| || !IsDigit(s[g + |d|]))
  }

  /**
   * `[:\s]*([\d]+)` matches at `j` with the group `s[g..e]`: colons and
   * white space, then digits, stated without search.
   */
  ghost predicate DigitGroupAt(s: string, j: nat, g: nat, e: nat) {
    && j <= g < e <= |s|
    && AllIn(s, j, g, IsColonOrSpace)
    && AllIn(s, g, e, IsDigit)
  }

  /**
   * `[:\s]*([\d]+)` tried at `j`, both runs taken greedily.
   * `DigitsAfterLabelSpec` states that this is the regular expression's match.
   */
  function DigitsAfterLabel(s: string, j: nat): (r: Option<string>)
    requires j <= |s|
    ensures r.Some? ==> exists g | j <= g :: MaximalDigitsAt(s, g, r.value)
  {
    var g := RunEnd(s, j, IsColonOrSpace);
    var e := RunEnd(s, g, IsDigit);
    if g < e then
      assert MaximalDigitsAt(s, g, s[g..e]);
      Some(s[g..e])
    else None
  }

  /**
   * `DigitsAfterLabel` matches exactly when the regular expression does, and
   * its group is the one the greedy `[\d]+` takes: the digits that start right
   * after the colons and white space, up to the first non-digit.
   */
  lemma DigitsAfterLabelSpec(s: string, j: nat)
    requires j <= |s|
    ensures DigitsAfterLabel(s, j).Some? <==> exists g: nat, e: nat :: DigitGroupAt(s, j, g, e)
    ensures forall g: nat, e: nat | DigitGroupAt(s, j, g, e) && (e == |s| || !IsDigit(s[e])) ::
      DigitsAfterLabel(s, j) == Some(s[g..e])
  {
    var g0 := RunEnd(s, j, IsColonOrSpace);
    var e0 := RunEnd(s, g0, IsDigit);
    forall g: nat, e: nat | DigitGroupAt(s, j, g, e)
      ensures g == g0 && e <= e0
    {
      RunWithinRunEnd(s, j, g, IsColonOrSpace);
      assert !IsColonOrSpace(s[g]);
      RunWithinRunEnd(s, g, e, IsDigit);
    }
    if g0 < e0 {
      assert DigitGroupAt(s, j, g0, e0);
    }
  }

  /** The tx-id pattern matches at `i` with the group `s[g..e]`. */
  ghost predicate TxIdMatch(s: string, i: nat, g: nat, e: nat) {
    || (MatchesAt(s, i, "TxId") && DigitGroupAt(s, i + 4, g, e))
    || (MatchesAt(s, i, "Financial Transaction Id") && DigitGroupAt(s, i + 24, g, e))
  }

  /**
   * The tx-id pattern tried at `i`: "TxId", then, if that label or its digits
   * fail, "Financial Transaction Id"; each followed by `[:\s]*([\d]+)`.
   * `TxIdAtSpec` states that this is the pattern's match.
   */
  function TxIdAt(s: string, i: nat): (r: Option<string>)
    ensures r.Some? ==> exists g :: MaximalDigitsAt(s, g, r.value)
  {
    var a := if MatchesAt(s, i, "TxId") then DigitsAfterLabel(s, i + 4) else None;
    if a.Some? then a
    else if MatchesAt(s, i, "Financial Transaction Id") then DigitsAfterLabel(s, i + 24)
    else None
  }

  /** The two labels start with different letters: at most one matches at `i`. */
  lemma TxIdLabelsExclusive(s: string, i: nat)
    ensures MatchesAt(s, i, "TxId") ==> !MatchesAt(s, i, "Financial Transaction Id")
  {
    if MatchesAt(s, i, "TxId") && i + 24 <= |s| {
      assert s[i..i + 4][0] == s[i] == s[i..i + 24][0];
    }
  }

  /**
   * `TxIdAt` matches exactly when the tx-id pattern does at `i`, and its group
   * is the whole digit run that follows the label and its `[:\s]*`.
   */
  lemma TxIdAtSpec(s: string, i: nat)
    ensures TxIdAt(s, i).Some? <==> exists g: nat, e: nat :: TxIdMatch(s, i, g, e)
    ensures forall g: nat, e: nat | TxIdMatch(s, i, g, e) && (e == |s| || !IsDigit(s[e])) ::
      TxIdAt(s, i) == Some(s[g..e])
  {
    TxIdLabelsExclusive(s, i);
    if MatchesAt(s, i, "TxId") {
      DigitsAfterLabelSpec(s, i + 4);
      if TxIdAt(s, i).Some? {
        var g: nat, e: nat :| DigitGroupAt(s, i + 4, g, e);
        assert TxIdMatch(s, i, g, e);
      }
    } else if MatchesAt(s, i, "Financial Transaction Id") {
      DigitsAfterLabelSpec(s, i + 24);
      if TxIdAt(s, i).Some? {
        var g: nat, e: nat :| DigitGroupAt(s, i + 24, g, e);
        assert TxIdMatch(s, i, g, e);
      }
    }
  }

  /**
   * The provider's transaction id: the group of the leftmost tx-id match, a
   * string of digits, not a number; None exactly when the pattern matches
   * nowhere.
   */
  function ExtractTxId(body: string): (r: Option<string>)
    ensures r.None? <==> NoMatch(body, TxIdAt)
    ensures forall i: nat | FirstAt(body, TxIdAt, i) :: r == TxIdAt(body, i)
    ensures r.Some? ==> exists g :: MaximalDigitsAt(body, g, r.value)
  {
    FirstAtIsSearch(body, TxIdAt);
    match Search(body, TxIdAt, 0)
    case None => None
    case Some((_, digits)) => Some(digits)
  }

  /** Example: the digits must follow the label and its `[:\s]*` directly. */
  lemma TxIdNeedsDigitsNext()
    ensures TxIdAt("TxId: abc 123", 0).None?
  {
    var s := "TxId: abc 123";
    assert MatchesAt(s, 0, "TxId");
    assert RunEnd(s, 4, IsColonOrSpace) == 6 by {
      assert IsColonOrSpace(s[4]) && IsColonOrSpace(s[5]) && !IsColonOrSpace(s[6]);
      assert RunEnd(s, 4, IsColonOrSpace) == RunEnd(s, 5, IsColonOrSpace) == RunEnd(s, 6, IsColonOrSpace);
    }
    assert RunEnd(s, 6, IsDigit) == 6 by { assert !IsDigit(s[6]); }
  }

  // ---------------------------------------------------------------------
  // extract_counterpart

  /** A candidate of the lazy `[A-Za-z ]+?`: no space after its first character. */
  predicate IsLazyName(t: string) {
    && |t| > 0
    && (forall c | c in t :: IsNameChar(c))
    && forall k | 0 < k < |t| :: t[k] != ' '
  }

  /**
   * Lazy `([A-Za-z ]+?)[\s(]` with the group starting at `g`: the group
   * `s[g..e]` is tried for e = g + 1, g + 2, ... and the first one followed
   * by white space or "(" is taken.
   */
  function LazyNameFrom(s: string, g: nat, e: nat): (r: Option<string>)
    requires g < e <= |s|
    requires AllIn(s, g, e - 1, IsNameChar)
    requires forall k | g < k < e :: !IsSpaceOrParen(s[k])
    ensures r.Some? ==> IsLazyName(r.value)
    decreases |s| - e
  {
    if !IsNameChar(s[e - 1]) then None
    else if e < |s| && IsSpaceOrParen(s[e]) then
      assert forall c | c in s[g..e] :: IsNameChar(c);
      forall k | 0 < k < e - g ensures s[g..e][k] != ' ' {
        assert s[g..e][k] == s[g + k] && !IsSpaceOrParen(s[g + k]);
      }
      Some(s[g..e])
    else if e < |s| then LazyNameFrom(s, g, e + 1)
    else None
  }

  /**
   * `\s*([A-Za-z ]+?)[\s(]` from `p`: the greedy `\s*` first takes all the
   * white space, then gives it back one character at a time.
   */
  function NameTailFrom(s: string, p: nat, q: nat): (r: Option<string>)
    requires p <= q <= |s|
    ensures r.Some? ==> IsLazyName(r.value)
    decreases q
  {
    var r := if q < |s| then LazyNameFrom(s, q, q + 1) else None;
    if r.Some? then r
    else if p < q then NameTailFrom(s, p, q - 1)
    else None
  }

  function NameTail(s: string, p: nat): (r: Option<string>)
    requires p <= |s|
    ensures r.Some? ==> IsLazyName(r.value)
  {
    NameTailFrom(s, p, RunEnd(s, p, IsSpace))
  }

  /** `payment of [^to]+ to`: the greedy run tried from its longest form down. */
  function PaymentTo(s: string, g: nat, k: nat): (r: Option<string>)
    requires g <= k <= |s|
    ensures r.Some? ==> IsLazyName(r.value)
    decreases k
  {
    if k <= g then None
    else
      var r := if MatchesAt(s, k, " to") then NameTail(s, k + 3) else None;
      if r.Some? then r else PaymentTo(s, g, k - 1)
  }

  /**
   * `[^to]+` is a character class, not the word "to": the " to" that ends
   * the phrase must sit on the first "t" or "o" after "payment of ", so a
   * payment whose text there holds either letter ("for food to") finds no
   * payee this way.
   */
  lemma PaymentToAtFirstTOrO(s: string, g: nat)
    requires g <= |s|
    ensures var e := RunEnd(s, g, IsNotTOrO);
      PaymentTo(s, g, e) ==
        if g + 1 < e && MatchesAt(s, e - 1, " to") then NameTail(s, e + 2) else None
  {
    var e := RunEnd(s, g, IsNotTOrO);
    if e > g {
      assert !MatchesAt(s, e, " to") by {
        if e + 3 <= |s| { assert s[e..e + 3][0] == s[e] && IsNotTOrO(s[e]) == false; }
      }
      if e - 1 > g {
        NoToInsideRun(s, g, e, e - 2);
      }
    }
  }

  lemma {:induction false} NoToInsideRun(s: string, g: nat, e: nat, k: nat)
    requires g <= k && k + 1 < e <= |s| && AllIn(s, g, e, IsNotTOrO)
    ensures PaymentTo(s, g, k).None?
    decreases k
  {
    assert !MatchesAt(s, k, " to") by {
      if k + 3 <= |s| { assert s[k..k + 3][1] == s[k + 1] && IsNotTOrO(s[k + 1]); }
    }
    if k > g {
      NoToInsideRun(s, g, e, k - 1);
    }
  }

  /** `withdrawn.*?agent: Agent `: the lazy `.*?` grows one non-newline at a time. */
  function AgentLazy(s: string, k: nat): (r: Option<string>)
    requires k <= |s|
    ensures r.Some? ==> IsLazyName(r.value)
    decreases |s| - k
  {
    var r := if MatchesAt(s, k, "agent: Agent ") then NameTail(s, k + 13) else None;
    if r.Some? then r
    else if k < |s| && s[k] != '\n' then AgentLazy(s, k + 1)
    else None
  }

  /**
   * `(?:transferred to|payment of [^to]+ to|withdrawn.*?agent: Agent )\s*([A-Za-z ]+?)[\s(]`
   * at index `i`, the three alternatives in order.
   */
  function OutgoingAt(s: string, i: nat): (r: Option<string>)
    ensures r.Some? ==> IsLazyName(r.value)
  {
    var a := if MatchesAt(s, i, "transferred to") then NameTail(s, i + 14) else None;
    if a.Some? then a
    else
      var b := if MatchesAt(s, i, "payment of ") then PaymentTo(s, i + 11, RunEnd(s, i + 11, IsNotTOrO)) else None;
      if b.Some? then b
      else if MatchesAt(s, i, "withdrawn") then AgentLazy(s, i + 9)
      else None
  }

  /** Greedy `([A-Za-z ]+) \(`: the group `s[g..k]` for k from its longest form down. */
  function NameBeforeParen(s: string, g: nat, k: nat): (r: Option<string>)
    requires g <= k <= |s| && AllIn(s, g, k, IsNameChar)
    ensures r.Some? ==> |r.value| > 0 && forall c | c in r.value :: IsNameChar(c)
    decreases k
  {
    if k <= g then None
    else if MatchesAt(s, k, " (") then
      assert forall c | c in s[g..k] :: IsNameChar(c);
      Some(s[g..k])
    else NameBeforeParen(s, g, k - 1)
  }

  /**
   * `received \d+ RWF from ([A-Za-z ]+) \(` at index `i`. The digits are the
   * longest run: " RWF" cannot start with a digit.
   */
  function IncomingAt(s: string, i: nat): (r: Option<string>)
    ensures r.Some? ==> |r.value| > 0 && forall c | c in r.value :: IsNameChar(c)
  {
    if MatchesAt(s, i, "received ") then
      var d := RunEnd(s, i + 9, IsDigit);
      if d > i + 9 && MatchesAt(s, d, " RWF from ") then
        NameBeforeParen(s, d + 10, RunEnd(s, d + 10, IsNameChar))
      else None
    else None
  }

  /**
   * The `\d+` of the incoming pattern has one choice: any digit run after
   * "received " that " RWF from " follows is the longest one, so taking the
   * longest run loses no match, and the name search starts after it.
   */
  lemma IncomingDigitsOnlyChoice(s: string, i: nat, d: nat)
    requires MatchesAt(s, i, "received ") && i + 9 < d
    requires d <= |s| && AllIn(s, i + 9, d, IsDigit) && MatchesAt(s, d, " RWF from ")
    ensures d == RunEnd(s, i + 9, IsDigit)
    ensures IncomingAt(s, i) == NameBeforeParen(s, d + 10, RunEnd(s, d + 10, IsNameChar))
  {
    RunWithinRunEnd(s, i + 9, d, IsDigit);
    assert s[d] == s[d..d + 10][0] == ' ';
  }

  // The counterpart patterns stated without search. Each `...Spec` lemma
  // says that a recogniser above matches exactly when its part of the
  // pattern does, and captures the group that the regular expression's
  // backtracking order picks.

  /**
   * The lazy `([A-Za-z ]+?)[\s(]` with the group starting at `g` ends at `e`:
   * name characters up to the first white space or "(" after `g`.
   */
  ghost predicate LazyGroup(s: string, g: nat, e: nat) {
    && g < e < |s|
    && AllIn(s, g, e, IsNameChar)
    && IsSpaceOrParen(s[e])
    && forall k: nat | g < k < e :: !IsSpaceOrParen(s[k])
  }

  /**
   * From any stage `e` of its growth, the lazy group matches exactly when a
   * `LazyGroup` end lies at or after `e`, and captures up to that end.
   */
  lemma {:induction false} LazyNameFromSpec(s: string, g: nat, e: nat)
    requires g < e <= |s|
    requires AllIn(s, g, e - 1, IsNameChar)
    requires forall k: nat | g < k < e :: !IsSpaceOrParen(s[k])
    ensures LazyNameFrom(s, g, e).Some? <==> exists j: nat :: e <= j && LazyGroup(s, g, j)
    ensures forall j: nat | e <= j && LazyGroup(s, g, j) :: LazyNameFrom(s, g, e) == Some(s[g..j])
    decreases |s| - e
  {
    if !IsNameChar(s[e - 1]) {
    } else if e < |s| && IsSpaceOrParen(s[e]) {
      assert LazyGroup(s, g, e);
    } else if e < |s| {
      LazyNameFromSpec(s, g, e + 1);
    }
  }

  /** `\s*([A-Za-z ]+?)[\s(]` from `p` with the group `s[q..e]`. */
  ghost predicate NameTailMatch(s: string, p: nat, q: nat, e: nat) {
    && p <= q <= |s|
    && AllIn(s, p, q, IsSpace)
    && LazyGroup(s, q, e)
  }

  /**
   * With the `\s*` given back down to `q`, the tail matches exactly when it
   * matches with the group starting at or before `q`, and the group is the
   * one starting latest.
   */
  lemma NameTailFromSpec(s: string, p: nat, q: nat)
    requires p <= |s| && p <= q <= RunEnd(s, p, IsSpace)
    ensures NameTailFrom(s, p, q).Some? <==> exists q': nat, e: nat :: q' <= q && NameTailMatch(s, p, q', e)
    ensures forall q': nat, e: nat | q' <= q && NameTailMatch(s, p, q', e)
        && (forall q2: nat, e2: nat | q' < q2 <= q :: !NameTailMatch(s, p, q2, e2)) ::
      NameTailFrom(s, p, q) == Some(s[q'..e])
  {
    NameTailFromMatches(s, p, q);
    NameTailFromCaptures(s, p, q);
  }

  /** The first half of `NameTailFromSpec`: when the tail matches. */
  lemma {:induction false} NameTailFromMatches(s: string, p: nat, q: nat)
    requires p <= |s| && p <= q <= RunEnd(s, p, IsSpace)
    ensures NameTailFrom(s, p, q).Some? <==> exists q': nat, e: nat :: q' <= q && NameTailMatch(s, p, q', e)
    decreases q
  {
    if q < |s| {
      LazyNameFromSpec(s, q, q + 1);
    }
    if q < |s| && LazyNameFrom(s, q, q + 1).Some? {
      var e0: nat :| q + 1 <= e0 && LazyGroup(s, q, e0);
      assert NameTailMatch(s, p, q, e0);
    } else if p < q {
      NameTailFromMatches(s, p, q - 1);
    }
  }

  /** The second half of `NameTailFromSpec`: the group that the tail captures. */
  lemma NameTailFromCaptures(s: string, p: nat, q: nat)
    requires p <= |s| && p <= q <= RunEnd(s, p, IsSpace)
    ensures forall q': nat, e: nat | q' <= q && NameTailMatch(s, p, q', e)
        && (forall q2: nat, e2: nat | q' < q2 <= q :: !NameTailMatch(s, p, q2, e2)) ::
      NameTailFrom(s, p, q) == Some(s[q'..e])
  {
    forall q': nat, e: nat | q' <= q && NameTailMatch(s, p, q', e)
        && (forall q2: nat, e2: nat | q' < q2 <= q :: !NameTailMatch(s, p, q2, e2))
      ensures NameTailFrom(s, p, q) == Some(s[q'..e])
    {
      NameTailFromCapturesAt(s, p, q, q', e);
    }
  }

  /** `NameTailFromCaptures` for one group `s[q'..e]`, by induction on `q`. */
  lemma {:induction false} NameTailFromCapturesAt(s: string, p: nat, q: nat, q': nat, e: nat)
    requires p <= |s| && p <= q <= RunEnd(s, p, IsSpace)
    requires q' <= q && NameTailMatch(s, p, q', e)
    requires forall q2: nat, e2: nat | q' < q2 <= q :: !NameTailMatch(s, p, q2, e2)
    ensures NameTailFrom(s, p, q) == Some(s[q'..e])
    decreases q
  {
    if q < |s| {
      LazyNameFromSpec(s, q, q + 1);
    }
    if q' < q {
      assert AllIn(s, p, q, IsSpace);
      forall j: nat ensures !LazyGroup(s, q, j) {
        assert !NameTailMatch(s, p, q, j);
      }
      NameTailFromCapturesAt(s, p, q - 1, q', e);
    } else {
      assert LazyGroup(s, q, e);
    }
  }

  /**
   * `\s*([A-Za-z ]+?)[\s(]` from `p`: `NameTail` matches exactly when the
   * pattern does, and its group is the one whose start the greedy `\s*`
   * leaves latest.
   */
  lemma NameTailSpec(s: string, p: nat)
    requires p <= |s|
    ensures NameTail(s, p).Some? <==> exists q: nat, e: nat :: NameTailMatch(s, p, q, e)
    ensures forall q: nat, e: nat | NameTailMatch(s, p, q, e) && (forall q2: nat, e2: nat | q < q2 :: !NameTailMatch(s, p, q2, e2)) ::
      NameTail(s, p) == Some(s[q..e])
  {
    var q0 := RunEnd(s, p, IsSpace);
    NameTailFromSpec(s, p, q0);
    forall q: nat, e: nat | NameTailMatch(s, p, q, e) ensures q <= q0 {
      RunWithinRunEnd(s, p, q, IsSpace);
    }
  }

  /** `\s*([A-Za-z ]+?)[\s(]` matches from `p`. */
  ghost predicate TailMatches(s: string, p: nat) {
    exists q: nat, e: nat :: NameTailMatch(s, p, q, e)
  }

  /** The first half of `NameTailSpec`, on its own. */
  lemma TailMatchesIff(s: string, p: nat)
    requires p <= |s|
    ensures NameTail(s, p).Some? <==> TailMatches(s, p)
  {
    NameTailSpec(s, p);
  }

  /**
   * `[^to]+ to` from `g` with the " to" at `k`, followed by a match of the
   * name tail.
   */
  ghost predicate PaymentAt(s: string, g: nat, k: nat) {
    && g < k <= |s|
    && AllIn(s, g, k, IsNotTOrO)
    && MatchesAt(s, k, " to")
    && TailMatches(s, k + 3)
  }

  /**
   * The payment alternative matches exactly when some `[^to]+ to` is followed
   * by a name tail, and the name is that tail's; only one `k` can fit.
   */
  lemma PaymentToSpec(s: string, g: nat)
    requires g <= |s|
    ensures PaymentTo(s, g, RunEnd(s, g, IsNotTOrO)).Some? <==> exists k: nat :: PaymentAt(s, g, k)
    ensures forall k: nat | PaymentAt(s, g, k) :: PaymentTo(s, g, RunEnd(s, g, IsNotTOrO)) == NameTail(s, k + 3)
  {
    PaymentToMatches(s, g);
    PaymentToCaptures(s, g);
  }

  lemma PaymentToMatches(s: string, g: nat)
    requires g <= |s|
    ensures PaymentTo(s, g, RunEnd(s, g, IsNotTOrO)).Some? <==> exists k: nat :: PaymentAt(s, g, k)
  {
    var e := RunEnd(s, g, IsNotTOrO);
    PaymentToAtFirstTOrO(s, g);
    forall k: nat | PaymentAt(s, g, k) ensures k + 1 == e {
      PaymentAtEnd(s, g, k);
    }
    if g + 1 < e && MatchesAt(s, e - 1, " to") {
      TailMatchesIff(s, e + 2);
      if TailMatches(s, e + 2) {
        assert PaymentAt(s, g, e - 1);
      }
    }
  }

  lemma PaymentToCaptures(s: string, g: nat)
    requires g <= |s|
    ensures forall k: nat | PaymentAt(s, g, k) :: PaymentTo(s, g, RunEnd(s, g, IsNotTOrO)) == NameTail(s, k + 3)
  {
    var e := RunEnd(s, g, IsNotTOrO);
    PaymentToAtFirstTOrO(s, g);
    forall k: nat | PaymentAt(s, g, k) ensures k + 1 == e {
      PaymentAtEnd(s, g, k);
    }
  }

  /** The " to" of a payment match sits just before the first "t" or "o". */
  lemma PaymentAtEnd(s: string, g: nat, k: nat)
    requires g <= |s| && PaymentAt(s, g, k)
    ensures k + 1 == RunEnd(s, g, IsNotTOrO)
  {
    assert s[k] == s[k..k + 3][0] && s[k + 1] == s[k..k + 3][1] == 't';
    RunWithinRunEnd(s, g, k + 1, IsNotTOrO);
  }

  /**
   * `.*?agent: Agent ` from `k0` with "agent: Agent " at `k`, followed by a
   * match of the name tail.
   */
  ghost predicate AgentAt(s: string, k0: nat, k: nat) {
    && k0 <= k <= |s|
    && AllIn(s, k0, k, IsNotNewline)
    && MatchesAt(s, k, "agent: Agent ")
    && TailMatches(s, k + 13)
  }

  /**
   * The withdrawal alternative matches exactly when some `k` fits, and the
   * lazy `.*?` takes the least one.
   */
  lemma AgentLazySpec(s: string, k0: nat)
    requires k0 <= |s|
    ensures AgentLazy(s, k0).Some? <==> exists k: nat :: AgentAt(s, k0, k)
    ensures forall k: nat | AgentAt(s, k0, k) && (forall k2: nat | k0 <= k2 < k :: !AgentAt(s, k0, k2)) ::
      AgentLazy(s, k0) == NameTail(s, k + 13)
  {
    AgentLazyMatches(s, k0);
    AgentLazyCaptures(s, k0);
  }

  /** Where the lazy `.*?` may stop after `k0`, it may stop after `k0 + 1`, and back. */
  lemma AgentAtStep(s: string, k0: nat)
    requires k0 < |s| && s[k0] != '\n'
    ensures forall k: nat | AgentAt(s, k0, k) && k0 < k :: AgentAt(s, k0 + 1, k)
    ensures forall k: nat | AgentAt(s, k0 + 1, k) :: AgentAt(s, k0, k)
  {
  }

  lemma AgentAtBack(s: string, k0: nat, k: nat)
    requires k0 < |s| && s[k0] != '\n'
    ensures AgentAt(s, k0 + 1, k) ==> AgentAt(s, k0, k)
  {
  }

  /** One step of `AgentLazy`: stop here, move on, or give up at a newline. */
  lemma AgentLazyUnfold(s: string, k0: nat)
    requires k0 <= |s|
    ensures AgentAt(s, k0, k0) ==> AgentLazy(s, k0) == NameTail(s, k0 + 13) && AgentLazy(s, k0).Some?
    ensures !AgentAt(s, k0, k0) && k0 < |s| && s[k0] != '\n' ==> AgentLazy(s, k0) == AgentLazy(s, k0 + 1)
    ensures !AgentAt(s, k0, k0) && !(k0 < |s| && s[k0] != '\n') ==> AgentLazy(s, k0).None?
  {
    if MatchesAt(s, k0, "agent: Agent ") {
      TailMatchesIff(s, k0 + 13);
    }
  }

  /** At a newline or the end, neither `.*?` nor "agent: Agent " can go on. */
  lemma NoAgentPastLineEnd(s: string, k0: nat, k: nat)
    requires k0 == |s| || (k0 < |s| && s[k0] == '\n')
    ensures !AgentAt(s, k0, k)
  {
  }

  lemma {:induction false} AgentLazyMatches(s: string, k0: nat)
    requires k0 <= |s|
    ensures AgentLazy(s, k0).Some? <==> exists k: nat :: AgentAt(s, k0, k)
    decreases |s| - k0
  {
    AgentLazyUnfold(s, k0);
    if AgentAt(s, k0, k0) {
    } else if k0 < |s| && s[k0] != '\n' {
      AgentLazyMatches(s, k0 + 1);
      AgentAtStep(s, k0);
      if exists k: nat :: AgentAt(s, k0, k) {
        var k: nat :| AgentAt(s, k0, k);
        assert k != k0;
        assert AgentAt(s, k0 + 1, k);
      }
      if AgentLazy(s, k0 + 1).Some? {
        var k: nat :| AgentAt(s, k0 + 1, k);
        assert AgentAt(s, k0, k);
      }
    } else {
      forall k: nat ensures !AgentAt(s, k0, k) {
        NoAgentPastLineEnd(s, k0, k);
      }
    }
  }

  lemma {:induction false} AgentLazyCaptures(s: string, k0: nat)
    requires k0 <= |s|
    ensures forall k: nat | AgentAt(s, k0, k) && (forall k2: nat | k0 <= k2 < k :: !AgentAt(s, k0, k2)) ::
      AgentLazy(s, k0) == NameTail(s, k + 13)
    decreases |s| - k0
  {
    AgentLazyUnfold(s, k0);
    if AgentAt(s, k0, k0) {
    } else if k0 < |s| && s[k0] != '\n' {
      var k1 := k0 + 1;
      AgentLazyCaptures(s, k1);
      AgentAtStep(s, k0);
      forall k: nat | AgentAt(s, k0, k) && (forall k2: nat | k0 <= k2 < k :: !AgentAt(s, k0, k2))
        ensures AgentLazy(s, k0) == NameTail(s, k + 13)
      {
        assert k != k0;
        assert AgentAt(s, k1, k);
        forall k2: nat | k1 <= k2 < k ensures !AgentAt(s, k1, k2) {
          AgentAtBack(s, k0, k2);
        }
      }
    } else {
      forall k: nat ensures !AgentAt(s, k0, k) {
        NoAgentPastLineEnd(s, k0, k);
      }
    }
  }

  /** "transferred to" at `i`, followed by a name tail. */
  ghost predicate TransferFrom(s: string, i: nat) {
    MatchesAt(s, i, "transferred to") && TailMatches(s, i + 14)
  }

  /** "payment of " at `i`, then `[^to]+ to` with the " to" at `k`, then a name tail. */
  ghost predicate PaymentVia(s: string, i: nat, k: nat) {
    MatchesAt(s, i, "payment of ") && PaymentAt(s, i + 11, k)
  }

  ghost predicate PaymentFrom(s: string, i: nat) {
    exists k: nat :: PaymentVia(s, i, k)
  }

  /** "withdrawn" at `i`, then `.*?agent: Agent ` with "agent: Agent " at `k`, then a name tail. */
  ghost predicate WithdrawalVia(s: string, i: nat, k: nat) {
    MatchesAt(s, i, "withdrawn") && AgentAt(s, i + 9, k)
  }

  ghost predicate WithdrawalFrom(s: string, i: nat) {
    exists k: nat :: WithdrawalVia(s, i, k)
  }

  /**
   * The outgoing pattern at `i`: it matches exactly when one of its three
   * alternatives does, and the first alternative in source order that
   * matches supplies the name.
   */
  lemma OutgoingAtSpec(s: string, i: nat)
    ensures OutgoingAt(s, i).Some? <==> TransferFrom(s, i) || PaymentFrom(s, i) || WithdrawalFrom(s, i)
    ensures TransferFrom(s, i) ==> OutgoingAt(s, i) == NameTail(s, i + 14)
    ensures !TransferFrom(s, i) ==>
      forall k: nat | PaymentVia(s, i, k) :: OutgoingAt(s, i) == NameTail(s, k + 3)
    ensures !TransferFrom(s, i) && !PaymentFrom(s, i) ==>
      forall k: nat | WithdrawalVia(s, i, k) && (forall k2: nat | k2 < k :: !WithdrawalVia(s, i, k2)) ::
        OutgoingAt(s, i) == NameTail(s, k + 13)
  {
    OutgoingAlternatives(s, i);
    forall k: nat | PaymentVia(s, i, k)
      ensures PaymentTo(s, i + 11, RunEnd(s, i + 11, IsNotTOrO)) == NameTail(s, k + 3)
    {
      PaymentToCaptures(s, i + 11);
    }
    forall k: nat | WithdrawalVia(s, i, k) && (forall k2: nat | k2 < k :: !WithdrawalVia(s, i, k2))
      ensures AgentLazy(s, i + 9) == NameTail(s, k + 13)
    {
      WithdrawalName(s, i, k);
    }
  }

  /** Each alternative's predicate holds exactly when its recogniser matches. */
  lemma OutgoingAlternatives(s: string, i: nat)
    ensures TransferFrom(s, i) <==> MatchesAt(s, i, "transferred to") && NameTail(s, i + 14).Some?
    ensures PaymentFrom(s, i) <==>
      MatchesAt(s, i, "payment of ") && PaymentTo(s, i + 11, RunEnd(s, i + 11, IsNotTOrO)).Some?
    ensures WithdrawalFrom(s, i) <==> MatchesAt(s, i, "withdrawn") && AgentLazy(s, i + 9).Some?
  {
    if MatchesAt(s, i, "transferred to") {
      TailMatchesIff(s, i + 14);
    }
    if MatchesAt(s, i, "payment of ") {
      PaymentToMatches(s, i + 11);
      if PaymentTo(s, i + 11, RunEnd(s, i + 11, IsNotTOrO)).Some? {
        var k: nat :| PaymentAt(s, i + 11, k);
        assert PaymentVia(s, i, k);
      }
    }
    if MatchesAt(s, i, "withdrawn") {
      AgentLazyMatches(s, i + 9);
      if AgentLazy(s, i + 9).Some? {
        var k: nat :| AgentAt(s, i + 9, k);
        assert WithdrawalVia(s, i, k);
      }
    }
  }

  /** The least withdrawal stop gives the lazy search's name. */
  lemma WithdrawalName(s: string, i: nat, k: nat)
    requires WithdrawalVia(s, i, k) && forall k2: nat | k2 < k :: !WithdrawalVia(s, i, k2)
    ensures AgentLazy(s, i + 9) == NameTail(s, k + 13)
  {
    var g := i + 9;
    forall k2: nat | g <= k2 < k ensures !AgentAt(s, g, k2) {
      assert !WithdrawalVia(s, i, k2);
    }
    AgentLazyCaptures(s, g);
  }

  /**
   * The greedy name ending before " (": searching down from `k`, the group
   * ends at the last " (" in `(g, k]`.
   */
  lemma {:induction false} NameBeforeParenSpec(s: string, g: nat, k: nat)
    requires g <= k <= |s| && AllIn(s, g, k, IsNameChar)
    ensures NameBeforeParen(s, g, k).Some? <==> exists e: nat :: g < e <= k && MatchesAt(s, e, " (")
    ensures forall e: nat | g < e <= k && MatchesAt(s, e, " (") && (forall e2: nat | e < e2 <= k :: !MatchesAt(s, e2, " (")) ::
      NameBeforeParen(s, g, k) == Some(s[g..e])
    decreases k
  {
    if g < k && !MatchesAt(s, k, " (") {
      assert AllIn(s, g, k - 1, IsNameChar);
      NameBeforeParenSpec(s, g, k - 1);
    }
  }

  /** The greedy `([A-Za-z ]+) \(` from `g` with the group `s[g..e]`. */
  ghost predicate ParenNameAt(s: string, g: nat, e: nat) {
    && g < e <= |s|
    && AllIn(s, g, e, IsNameChar)
    && MatchesAt(s, e, " (")
  }

  /**
   * `NameBeforeParen` from the end of the name-character run matches
   * exactly when `([A-Za-z ]+) \(` does, and takes the longest group.
   */
  lemma ParenNameSpec(s: string, g: nat)
    requires g <= |s|
    ensures NameBeforeParen(s, g, RunEnd(s, g, IsNameChar)).Some? <==> exists e: nat :: ParenNameAt(s, g, e)
    ensures forall e: nat | ParenNameAt(s, g, e) && (forall e2: nat | e < e2 :: !ParenNameAt(s, g, e2)) ::
      NameBeforeParen(s, g, RunEnd(s, g, IsNameChar)) == Some(s[g..e])
  {
    var k := RunEnd(s, g, IsNameChar);
    NameBeforeParenSpec(s, g, k);
    forall e: nat | ParenNameAt(s, g, e) ensures e <= k {
      RunWithinRunEnd(s, g, e, IsNameChar);
    }
    forall e: nat | g < e <= k && MatchesAt(s, e, " (") ensures ParenNameAt(s, g, e) {
    }
  }

  /** `received \d+ RWF from ` at `i`, with the digits ending at `d`. */
  ghost predicate IncomingPrefix(s: string, i: nat, d: nat) {
    && MatchesAt(s, i, "received ")
    && i + 9 < d <= |s|
    && AllIn(s, i + 9, d, IsDigit)
    && MatchesAt(s, d, " RWF from ")
  }

  /**
   * `received \d+ RWF from ([A-Za-z ]+) \(` matches at `i` with the digits
   * ending at `d` and the group `s[d + 10..e]`.
   */
  ghost predicate IncomingMatch(s: string, i: nat, d: nat, e: nat) {
    IncomingPrefix(s, i, d) && ParenNameAt(s, d + 10, e)
  }

  /**
   * `IncomingAt` matches exactly when the incoming pattern does at `i`, and
   * its group is the longest one the greedy `[A-Za-z ]+` can end before " (".
   */
  lemma IncomingAtSpec(s: string, i: nat)
    ensures IncomingAt(s, i).Some? <==> exists d: nat, e: nat :: IncomingMatch(s, i, d, e)
    ensures forall d: nat, e: nat | IncomingMatch(s, i, d, e) && (forall e2: nat | e < e2 :: !IncomingMatch(s, i, d, e2)) ::
      IncomingAt(s, i) == Some(s[d + 10..e])
  {
    IncomingAtMatches(s, i);
    IncomingAtCaptures(s, i);
  }

  /** The first half of `IncomingAtSpec`: when the incoming pattern matches. */
  lemma IncomingAtMatches(s: string, i: nat)
    ensures IncomingAt(s, i).Some? <==> exists d: nat, e: nat :: IncomingMatch(s, i, d, e)
  {
    if exists d: nat, e: nat :: IncomingMatch(s, i, d, e) {
      var d: nat, e: nat :| IncomingMatch(s, i, d, e);
      IncomingAfterPrefixMatches(s, i, d, d + 10);
    } else if MatchesAt(s, i, "received ") {
      var d0 := RunEnd(s, i + 9, IsDigit);
      if d0 > i + 9 && MatchesAt(s, d0, " RWF from ") {
        var g := d0 + 10;
        IncomingAfterPrefixMatches(s, i, d0, g);
        forall e: nat ensures !ParenNameAt(s, g, e) {
          assert !IncomingMatch(s, i, d0, e);
        }
      }
    }
  }

  /** The second half of `IncomingAtSpec`: the group it captures. */
  lemma IncomingAtCaptures(s: string, i: nat)
    ensures forall d: nat, e: nat | IncomingMatch(s, i, d, e) && (forall e2: nat | e < e2 :: !IncomingMatch(s, i, d, e2)) ::
      IncomingAt(s, i) == Some(s[d + 10..e])
  {
    forall d: nat, e: nat | IncomingMatch(s, i, d, e) && (forall e2: nat | e < e2 :: !IncomingMatch(s, i, d, e2))
      ensures IncomingAt(s, i) == Some(s[d + 10..e])
    {
      var g := d + 10;
      forall e2: nat | e < e2 ensures !ParenNameAt(s, g, e2) {
        assert !IncomingMatch(s, i, d, e2);
      }
      IncomingAfterPrefixCaptures(s, i, d, g);
    }
  }

  /** Once the prefix has matched, the name part decides the match. */
  lemma IncomingAfterPrefixMatches(s: string, i: nat, d: nat, g: nat)
    requires IncomingPrefix(s, i, d) && g == d + 10
    ensures IncomingAt(s, i).Some? <==> exists e: nat :: ParenNameAt(s, g, e)
  {
    IncomingDigitsOnlyChoice(s, i, d);
    assert IncomingAt(s, i) == NameBeforeParen(s, g, RunEnd(s, g, IsNameChar));
    ParenNameSpec(s, g);
  }

  /** Once the prefix has matched, the name part decides the group. */
  lemma IncomingAfterPrefixCaptures(s: string, i: nat, d: nat, g: nat)
    requires IncomingPrefix(s, i, d) && g == d + 10
    ensures forall e: nat | ParenNameAt(s, g, e) && (forall e2: nat | e < e2 :: !ParenNameAt(s, g, e2)) ::
      IncomingAt(s, i) == Some(s[g..e])
  {
    IncomingDigitsOnlyChoice(s, i, d);
    assert IncomingAt(s, i) == NameBeforeParen(s, g, RunEnd(s, g, IsNameChar));
    ParenNameSpec(s, g);
  }

  /** Example: the incoming name must be followed by " (". */
  lemma IncomingNeedsParen()
    ensures IncomingAt("received 5 RWF from John", 0).None?
  {
    var s := "received 5 RWF from John";
    assert MatchesAt(s, 0, "received ");
    assert MatchesAt(s, 10, " RWF from ");
    IncomingDigitsOnlyChoice(s, 0, 10);
    assert AllIn(s, 20, |s|, IsNameChar);
    RunWithinRunEnd(s, 20, |s|, IsNameChar);
    NameRunToEndNoParen(s, 20);
    NameBeforeParenSpec(s, 20, |s|);
  }

  /** A name run that reaches the end of the text holds no " (": "(" is not a name character. */
  lemma NameRunToEndNoParen(s: string, g: nat)
    requires g <= |s| && AllIn(s, g, |s|, IsNameChar)
    ensures forall e: nat | g < e :: !MatchesAt(s, e, " (")
  {
    forall e: nat | g < e && e + 2 <= |s| ensures !MatchesAt(s, e, " (") {
      assert IsNameChar(s[e + 1]);
      assert s[e..e + 2][1] == s[e + 1] != " ("[1];
    }
  }

  /** Example: the lazy outgoing name must be followed by white space or "(". */
  lemma OutgoingNeedsTerminator()
    ensures OutgoingAt("transferred to John.", 0).None?
  {
    var s := "transferred to John.";
    NoTailInJohn(s);
    TailMatchesIff(s, 14);
    assert !MatchesAt(s, 0, "payment of ") by { assert s[0..11][0] == 't'; }
    assert !MatchesAt(s, 0, "withdrawn") by { assert s[0..9][0] == 't'; }
  }

  lemma NoTailInJohn(s: string)
    requires s == "transferred to John."
    ensures !TailMatches(s, 14)
  {
    assert forall k: nat | 15 <= k < |s| :: !IsSpaceOrParen(s[k]);
  }

  /** After `strip()`, a group of `[A-Za-z ]` keeps only those characters. */
  lemma StripKeepsNameChars(t: string)
    requires forall c | c in t :: IsNameChar(c)
    ensures forall c | c in Strip(t) :: IsNameChar(c)
  {
    var r := Strip(t);
    var a: nat :| TrimmedAt(t, a, r);
    forall k | 0 <= k < |r| ensures IsNameChar(r[k]) {
      SliceIndex(t, a, r, k);
      assert t[a + k] in t;
    }
  }

  /** After `strip()`, a lazy name group is letters only: one word. */
  lemma StripLazyNameIsWord(t: string)
    requires IsLazyName(t)
    ensures forall c | c in Strip(t) :: IsLetter(c)
  {
    var r := Strip(t);
    var a: nat :| TrimmedAt(t, a, r);
    forall k | 0 <= k < |r| ensures IsLetter(r[k]) {
      SliceIndex(t, a, r, k);
      assert t[a + k] in t;
      assert a + k == 0 ==> k == 0 && !IsSpace(r[0]);
    }
  }

  lemma SliceIndex(t: string, a: nat, r: string, k: nat)
    requires SliceAt(t, a, r) && k < |r|
    ensures a + k < |t| && r[k] == t[a + k]
  {
    assert t[a..a + |r|][k] == t[a + k];
  }

  /**
   * The counterpart of a message of type `t`: a name after "received ... from"
   * for incoming messages, the first word after "transferred to", "payment of
   * ... to" or a withdrawal agent for outgoing, bank-deposit and withdrawal
   * messages, None otherwise.
   */
  function ExtractCounterpart(body: string, t: TxType): (r: Option<string>)
    ensures t !in {Incoming, Outgoing, BankDeposit, Withdrawal} ==> r.None?
    ensures r.None? <==>
      || t !in {Incoming, Outgoing, BankDeposit, Withdrawal}
      || (t == Incoming && NoMatch(body, IncomingAt))
      || (t != Incoming && NoMatch(body, OutgoingAt))
    ensures t == Incoming ==>
      forall i: nat | FirstAt(body, IncomingAt, i) :: r == Some(Strip(IncomingAt(body, i).value))
    ensures t in {Outgoing, BankDeposit, Withdrawal} ==>
      forall i: nat | FirstAt(body, OutgoingAt, i) :: r == Some(Strip(OutgoingAt(body, i).value))
    ensures r.Some? ==> IsStripped(r.value) && forall c | c in r.value :: IsNameChar(c)
    ensures r.Some? && t != Incoming ==> forall c | c in r.value :: IsLetter(c)
  {
    if t == Incoming then IncomingName(body)
    else if t in {Outgoing, BankDeposit, Withdrawal} then OutgoingName(body)
    else None
  }

  /**
   * The stripped group of the leftmost incoming match, which keeps only
   * name characters; None when nothing matches.
   */
  function IncomingName(body: string): (r: Option<string>)
    ensures r.None? <==> NoMatch(body, IncomingAt)
    ensures forall i: nat | FirstAt(body, IncomingAt, i) :: r == Some(Strip(IncomingAt(body, i).value))
    ensures r.Some? ==> IsStripped(r.value) && forall c | c in r.value :: IsNameChar(c)
  {
    FirstAtIsSearch(body, IncomingAt);
    var m := Search(body, IncomingAt, 0);
    if m.None? then None
    else
      var name := m.value.1;
      assert IncomingAt(body, m.value.0) == Some(name);
      StripKeepsNameChars(name);
      Some(Strip(name))
  }

  /**
   * The stripped group of the leftmost outgoing match, a single word;
   * None when nothing matches.
   */
  function OutgoingName(body: string): (r: Option<string>)
    ensures r.None? <==> NoMatch(body, OutgoingAt)
    ensures forall i: nat | FirstAt(body, OutgoingAt, i) :: r == Some(Strip(OutgoingAt(body, i).value))
    ensures r.Some? ==> IsStripped(r.value) && forall c | c in r.value :: IsLetter(c)
  {
    FirstAtIsSearch(body, OutgoingAt);
    var m := Search(body, OutgoingAt, 0);
    if m.None? then None
    else
      var name := m.value.1;
      assert OutgoingAt(body, m.value.0) == Some(name);
      StripLazyNameIsWord(name);
      Some(Strip(name))
  }

  /** Example: only the first word of the payee survives the lazy group. */
  lemma OutgoingFirstWordOnly()
    ensures ExtractCounterpart("payment of 2,000 RWF to Jane Smith has", Outgoing) == Some("Jane")
  {
    var s := "payment of 2,000 RWF to Jane Smith has";
    PayeeAtStart(s);
    assert Search(s, OutgoingAt, 0) == Some((0, "Jane"));
    StripUnchanged("Jane");
  }

  lemma PayeeAtStart(s: string)
    requires s == "payment of 2,000 RWF to Jane Smith has"
    ensures OutgoingAt(s, 0) == Some("Jane")
  {
    assert !MatchesAt(s, 0, "transferred to") by {
      assert s[0] == 'p' && "transferred to"[0] == 't';
      assert s[0..14][0] == s[0];
    }
    assert MatchesAt(s, 0, "payment of ");
    PayeeRun(s);
  }

  lemma PayeeRun(s: string)
    requires s == "payment of 2,000 RWF to Jane Smith has"
    ensures PaymentTo(s, 11, RunEnd(s, 11, IsNotTOrO)) == Some("Jane")
  {
    assert AllIn(s, 11, 21, IsNotTOrO);
    RunWithinRunEnd(s, 11, 21, IsNotTOrO);
    assert RunEnd(s, 11, IsNotTOrO) == 21 by { assert !IsNotTOrO(s[21]); }
    assert !MatchesAt(s, 21, " to") by { assert s[21..24][0] == 't'; }
    assert MatchesAt(s, 20, " to") by { assert s[20..23] == " to"; }
    PayeeName(s);
  }

  lemma PayeeName(s: string)
    requires s == "payment of 2,000 RWF to Jane Smith has"
    ensures NameTail(s, 23) == Some("Jane")
  {
    assert RunEnd(s, 23, IsSpace) == 24 by {
      assert IsSpace(s[23]) && !IsSpace(s[24]);
      assert RunEnd(s, 23, IsSpace) == RunEnd(s, 24, IsSpace);
    }
    assert AllIn(s, 24, 28, IsLetter) && IsSpaceOrParen(s[28]);
    NameTailIsWord(s, 23, 28);
    assert s[24..28] == "Jane";
  }

  /**
   * The lazy group grows over letters and stops at the first white space
   * or "(": when a word follows the skipped white space, the name is that
   * word.
   */
  lemma {:induction false} LazyNameIsWord(s: string, g: nat, e: nat, j: nat)
    requires g < e <= j < |s|
    requires AllIn(s, g, j, IsLetter) && IsSpaceOrParen(s[j])
    ensures AllIn(s, g, e - 1, IsNameChar) && (forall k | g < k < e :: !IsSpaceOrParen(s[k]))
    ensures LazyNameFrom(s, g, e) == Some(s[g..j])
    decreases j - e
  {
    if e < j {
      LazyNameIsWord(s, g, e + 1, j);
    }
  }

  lemma NameTailIsWord(s: string, p: nat, j: nat)
    requires p <= |s| && RunEnd(s, p, IsSpace) < j < |s|
    requires AllIn(s, RunEnd(s, p, IsSpace), j, IsLetter) && IsSpaceOrParen(s[j])
    ensures NameTail(s, p) == Some(s[RunEnd(s, p, IsSpace)..j])
  {
    LazyNameIsWord(s, RunEnd(s, p, IsSpace), RunEnd(s, p, IsSpace) + 1, j);
  }

  /**
   * Example: the incoming pattern wants `\d+`, so an amount written with a
   * thousands separator does not match where "received" starts.
   */
  lemma IncomingNeedsPlainDigits()
    ensures IncomingAt("received 5,000 RWF from John Doe (", 0).None?
  {
    var s := "received 5,000 RWF from John Doe (";
    assert MatchesAt(s, 0, "received ");
    assert RunEnd(s, 9, IsDigit) == 10 by {
      assert IsDigit(s[9]) && !IsDigit(s[10]);
      assert RunEnd(s, 9, IsDigit) == RunEnd(s, 10, IsDigit);
    }
    assert s[10] == ',';
    assert !MatchesAt(s, 10, " RWF from ");
  }
}
