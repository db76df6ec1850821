/**
 * `classify_sms`: the transaction type of an SMS body, decided by six
 * substring tests tried in a fixed order, the first that succeeds winning.
 */
module Classify {
  import opened Scan

  datatype TxType = Incoming | BankDeposit | Withdrawal | Outgoing | Otp | Debit | Other

  /** The tag string the parser writes into a record's "type" field. */
  function TagName(t: TxType): string {
    match t
    case Incoming => "incoming"
    case BankDeposit => "bank_deposit"
    case Withdrawal => "withdrawal"
    case Outgoing => "outgoing"
    case Otp => "otp"
    case Debit => "debit"
    case Other => "other"
  }

  /** Different types carry different tags, so a tag names its type. */
  lemma TagNamesDistinct(t: TxType, u: TxType)
    requires TagName(t) == TagName(u)
    ensures t == u
  {
    var a, b := TagName(t), TagName(u);
    assert |a| == |b| && a[0] == b[0];
    if |a| == 5 { assert a[4] == b[4]; }
  }

  /**
   * One classification rule: the phrases any of which selects `tag`, and
   * whether they are searched ignoring case.
   */
  datatype Rule = Rule(phrases: seq<string>, ignoreCase: bool, tag: TxType)

  /** The rules in priority order: the declarative form of the if-chain. */
  const Rules: seq<Rule> := [
    Rule(["You have received"], false, Incoming),
    Rule(["bank deposit"], true, BankDeposit),
    Rule(["withdrawn"], true, Withdrawal),
    Rule(["transferred to", "Your payment of"], false, Outgoing),
    Rule(["one-time password"], true, Otp),
    Rule(["debit"], true, Debit)
  ]

  predicate PhraseFound(body: string, phrase: string, ignoreCase: bool) {
    if ignoreCase then ContainsFold(body, phrase) else Contains(body, phrase)
  }

  predicate RuleMatches(r: Rule, body: string) {
    exists p | p in r.phrases :: PhraseFound(body, p, r.ignoreCase)
  }

  /** The tag of the first rule of `rules` that matches, "other" if none does. */
  function FirstMatch(rules: seq<Rule>, body: string): TxType {
    if rules == [] then Other
    else if RuleMatches(rules[0], body) then rules[0].tag
    else FirstMatch(rules[1..], body)
  }

  /**
   * `classify_sms`: the tests in the order the source writes them.
   * `ClassifyFollowsRules` proves the result is the tag of the first rule of
   * the table whose test succeeds.
   */
  function ClassifySms(body: string): TxType
  {
    if Contains(body, "You have received") then Incoming
    else if ContainsFold(body, "bank deposit") then BankDeposit
    else if ContainsFold(body, "withdrawn") then Withdrawal
    else if Contains(body, "transferred to") || Contains(body, "Your payment of") then Outgoing
    else if ContainsFold(body, "one-time password") then Otp
    else if ContainsFold(body, "debit") then Debit
    else Other
  }

  lemma RuleMatchesSingle(r: Rule, body: string)
    requires |r.phrases| == 1
    ensures RuleMatches(r, body) <==> PhraseFound(body, r.phrases[0], r.ignoreCase)
  {
    if PhraseFound(body, r.phrases[0], r.ignoreCase) { assert r.phrases[0] in r.phrases; }
  }

  /** What each rule of the table tests. */
  lemma RulesTest(body: string)
    ensures RuleMatches(Rules[0], body) <==> Contains(body, "You have received")
    ensures RuleMatches(Rules[1], body) <==> ContainsFold(body, "bank deposit")
    ensures RuleMatches(Rules[2], body) <==> ContainsFold(body, "withdrawn")
    ensures RuleMatches(Rules[3], body) <==> Contains(body, "transferred to") || Contains(body, "Your payment of")
    ensures RuleMatches(Rules[4], body) <==> ContainsFold(body, "one-time password")
    ensures RuleMatches(Rules[5], body) <==> ContainsFold(body, "debit")
  {
    var r := Rules;
    forall j | 0 <= j < |r| && j != 3 ensures RuleMatches(r[j], body) <==> PhraseFound(body, r[j].phrases[0], r[j].ignoreCase) {
      RuleMatchesSingle(r[j], body);
    }
    var out := r[3];
    if Contains(body, "transferred to") { assert PhraseFound(body, out.phrases[0], false); }
    if Contains(body, "Your payment of") { assert PhraseFound(body, out.phrases[1], false); }
  }

  /** The if-chain of `classify_sms` is the rule table read top to bottom. */
  lemma ClassifyFollowsRules(body: string)
    ensures ClassifySms(body) == FirstMatch(Rules, body)
  {
    RulesTest(body);
    var r := Rules;
    var t1 := r[1..];
    var t2 := t1[1..];
    var t3 := t2[1..];
    var t4 := t3[1..];
    var t5 := t4[1..];
    assert t5 == [r[5]] && t4[0] == r[4] && t3[0] == r[3] && t2[0] == r[2] && t1[0] == r[1];
    assert t5[1..] == [];
    assert FirstMatch(t5, body) == if RuleMatches(r[5], body) then Debit else Other;
    assert FirstMatch(t4, body) == if RuleMatches(r[4], body) then Otp else FirstMatch(t5, body);
    assert FirstMatch(t3, body) == if RuleMatches(r[3], body) then Outgoing else FirstMatch(t4, body);
    assert FirstMatch(t2, body) == if RuleMatches(r[2], body) then Withdrawal else FirstMatch(t3, body);
    assert FirstMatch(t1, body) == if RuleMatches(r[1], body) then BankDeposit else FirstMatch(t2, body);
    assert FirstMatch(r, body) == if RuleMatches(r[0], body) then Incoming else FirstMatch(t1, body);
  }

  /**
   * First match wins: the result is the tag of rule `j`, rule `j` matches and
   * no earlier rule does; "other" exactly when no rule matches.
   */
  lemma {:induction false} FirstMatchIsEarliest(rules: seq<Rule>, body: string)
    requires forall j | 0 <= j < |rules| :: rules[j].tag != Other
    ensures FirstMatch(rules, body) == Other <==> forall j | 0 <= j < |rules| :: !RuleMatches(rules[j], body)
    ensures FirstMatch(rules, body) != Other ==>
      exists j | 0 <= j < |rules| ::
        && rules[j].tag == FirstMatch(rules, body)
        && RuleMatches(rules[j], body)
        && forall k | 0 <= k < j :: !RuleMatches(rules[k], body)
    decreases |rules|
  {
    if rules != [] && !RuleMatches(rules[0], body) {
      var rest := rules[1..];
      FirstMatchIsEarliest(rest, body);
      forall j | 0 <= j < |rest| ensures rules[j + 1] == rest[j] { }
      if FirstMatch(rest, body) != Other {
        var j :| 0 <= j < |rest| && rest[j].tag == FirstMatch(rest, body) && RuleMatches(rest[j], body)
          && forall k | 0 <= k < j :: !RuleMatches(rest[k], body);
        assert rules[j + 1].tag == FirstMatch(rules, body);
        assert forall k | 0 <= k < j + 1 :: !RuleMatches(rules[k], body) by {
          forall k | 0 <= k < j + 1 ensures !RuleMatches(rules[k], body) {
            if k > 0 { assert rules[k] == rest[k - 1]; }
          }
        }
      } else {
        forall j | 0 <= j < |rules| ensures !RuleMatches(rules[j], body) {
          if j > 0 { assert rules[j] == rest[j - 1]; }
        }
      }
    } else if rules != [] {
      assert RuleMatches(rules[0], body);
    }
  }

  /** `classify_sms` answers "other" exactly when none of the six tests succeeds. */
  lemma ClassifyOtherIff(body: string)
    ensures ClassifySms(body) == Other <==> forall j | 0 <= j < |Rules| :: !RuleMatches(Rules[j], body)
  {
    ClassifyFollowsRules(body);
    FirstMatchIsEarliest(Rules, body);
  }

  /**
   * The tag returned is that of a rule whose test succeeds, and every
   * earlier rule's test fails.
   */
  lemma ClassifyPicksFirstRule(body: string)
    requires ClassifySms(body) != Other
    ensures exists j | 0 <= j < |Rules| ::
      && Rules[j].tag == ClassifySms(body)
      && RuleMatches(Rules[j], body)
      && forall k | 0 <= k < j :: !RuleMatches(Rules[k], body)
  {
    ClassifyFollowsRules(body);
    FirstMatchIsEarliest(Rules, body);
  }

  /** A body mentioning both a bank deposit and a withdrawal is a bank deposit. */
  lemma BankDepositBeforeWithdrawal(body: string)
    requires ContainsFold(body, "bank deposit") && ContainsFold(body, "withdrawn")
    requires !Contains(body, "You have received")
    ensures ClassifySms(body) == BankDeposit
  {
  }

  /** Letter case is ignored by the bank-deposit test: "BANK DEPOSIT" counts. */
  lemma UpperCaseBankDeposit()
    ensures ClassifySms("BANK DEPOSIT") == BankDeposit
  {
    var s := "BANK DEPOSIT";
    assert MatchesAtFold(s, 0, "bank deposit");
    assert !Contains(s, "You have received") by {
      forall i | 0 <= i <= |s| ensures !MatchesAt(s, i, "You have received") { }
    }
  }
}
