/**
 * The record-building loop of `parse_xml`: classify each SMS entry, drop
 * OTP messages, drop messages without an amount, and number the survivors
 * 1, 2, 3, ... in input order.
 */
module Batch {
  import opened Wrappers
  import opened Scan
  import opened Classify
  import opened Extract

  /**
   * One `<sms>` element: its body, date (epoch milliseconds as text) and
   * readable_date attributes, each possibly missing.
   */
  datatype Entry = Entry(body: Option<string>, date: Option<string>, readableDate: Option<string>) {
    function Body(): string { body.GetOr("") }
    function Date(): string { date.GetOr("0") }
    function Readable(): string { readableDate.GetOr("") }
  }

  datatype TxRecord = TxRecord(
    id: nat,
    txId: Option<string>,
    txType: TxType,
    amount: nat,
    fee: nat,
    balanceAfter: Option<nat>,
    counterpart: Option<string>,
    timestamp: Option<string>,
    readableDate: string,
    rawBody: string)

  /** Passes both gates: not an OTP message, and an amount was found. */
  predicate Retained(e: Entry) {
    ClassifySms(e.Body()) != Otp && ExtractAmount(e.Body()).Ok? && ExtractAmount(e.Body()).value.Some?
  }

  /** Raises ValueError: `int()` received an empty string for amount, fee or balance. */
  predicate Crashes(e: Entry) {
    var body := e.Body();
    && ClassifySms(body) != Otp
    && (|| ExtractAmount(body).Err?
        || (Retained(e) && (ExtractFee(body).Err? || ExtractBalance(body).Err?)))
  }

  /**
   * What the loop does with one entry given the next id: Ok(None) when the
   * entry is skipped, Ok(Some(record)) when it yields a record, Err when an
   * extractor raises and the run aborts. `parseTimestamp` stands for
   * `parse_timestamp`, which depends on the local time zone.
   * `AssembleOutcome` states what it yields.
   */
  function Assemble(e: Entry, id: nat, parseTimestamp: string -> Option<string>): Result<Option<TxRecord>, IntError>
  {
    var body := e.Body();
    var txType := ClassifySms(body);
    if txType == Otp then Ok(None)
    else
      match ExtractAmount(body)
      case Err(x) => Err(x)
      case Ok(None) => Ok(None)
      case Ok(Some(amount)) =>
        match ExtractFee(body)
        case Err(x) => Err(x)
        case Ok(fee) =>
          match ExtractBalance(body)
          case Err(x) => Err(x)
          case Ok(balance) =>
            Ok(Some(TxRecord(
              id, ExtractTxId(body), txType, amount, fee, balance,
              ExtractCounterpart(body, txType), parseTimestamp(e.Date()),
              e.Readable(), body)))
  }

  /**
   * An entry aborts the run exactly when it crashes an extractor, is skipped
   * exactly when it fails a gate, and otherwise yields the record built from
   * it under the given id.
   */
  lemma AssembleOutcome(e: Entry, id: nat, parseTimestamp: string -> Option<string>)
    ensures Assemble(e, id, parseTimestamp).Err? <==> Crashes(e)
    ensures Assemble(e, id, parseTimestamp) == Ok(None) <==> !Retained(e) && !Crashes(e)
    ensures Assemble(e, id, parseTimestamp).Ok? && Assemble(e, id, parseTimestamp).value.Some? ==>
      Retained(e) && RecordFor(Assemble(e, id, parseTimestamp).value.value, id, e, parseTimestamp)
  {
    var body := e.Body();
    if ClassifySms(body) != Otp && ExtractAmount(body).Ok? && ExtractAmount(body).value.Some? {
      if ExtractFee(body).Ok? && ExtractBalance(body).Ok? {
        AssembleRecord(e, id, parseTimestamp);
      } else {
        AssembleAborts(e, id, parseTimestamp);
      }
    } else if ClassifySms(body) != Otp && ExtractAmount(body).Err? {
      AssembleAborts(e, id, parseTimestamp);
    } else {
      AssembleSkips(e, id, parseTimestamp);
    }
  }

  /** When every extractor succeeds, the record built is the one `RecordFor` describes. */
  lemma AssembleRecord(e: Entry, id: nat, parseTimestamp: string -> Option<string>)
    requires ClassifySms(e.Body()) != Otp
    requires ExtractAmount(e.Body()).Ok? && ExtractAmount(e.Body()).value.Some?
    requires ExtractFee(e.Body()).Ok? && ExtractBalance(e.Body()).Ok?
    ensures Assemble(e, id, parseTimestamp).Ok? && Assemble(e, id, parseTimestamp).value.Some?
    ensures Retained(e) && !Crashes(e)
    ensures RecordFor(Assemble(e, id, parseTimestamp).value.value, id, e, parseTimestamp)
  {
    AssembleBuilds(e, id, parseTimestamp);
  }

  /** What one entry gives the loop, given the next id. */
  type Outcome = Result<Option<TxRecord>, IntError>

  /**
   * The loop over `entries` for a per-entry `step`, defined entry by entry
   * from the end: the next id is always one more than the number of records
   * so far, the first error aborts the run, and there are never more
   * records than entries.
   */
  function Run(entries: seq<Entry>, step: (Entry, nat) -> Outcome): (r: Result<seq<TxRecord>, IntError>)
    ensures r.Ok? ==> |r.value| <= |entries|
  {
    if entries == [] then Ok([])
    else
      match Run(entries[..|entries| - 1], step)
      case Err(x) => Err(x)
      case Ok(records) =>
        match step(entries[|entries| - 1], |records| + 1)
        case Err(x) => Err(x)
        case Ok(None) => Ok(records)
        case Ok(Some(rec)) => Ok(records + [rec])
  }

  /** The step of `parse_xml`'s loop: `Assemble` with the time-zone reading fixed. */
  function AssembleWith(parseTimestamp: string -> Option<string>): (Entry, nat) -> Outcome {
    (e: Entry, id: nat) => Assemble(e, id, parseTimestamp)
  }

  /** The output of `parse_xml`'s loop over `entries`: never more records than entries. */
  function Parsed(entries: seq<Entry>, parseTimestamp: string -> Option<string>): (r: Result<seq<TxRecord>, IntError>)
    ensures r.Ok? ==> |r.value| <= |entries|
  {
    Run(entries, AssembleWith(parseTimestamp))
  }

  /** The entries that `keep` accepts, in input order, and only those. */
  function Kept(entries: seq<Entry>, keep: Entry -> bool): (r: seq<Entry>)
    ensures |r| <= |entries|
    ensures forall e | e in r :: keep(e) && e in entries
  {
    if entries == [] then []
    else
      var last := entries[|entries| - 1];
      Kept(entries[..|entries| - 1], keep) + (if keep(last) then [last] else [])
  }

  /** No accepted entry is lost. */
  lemma {:induction false} KeptComplete(entries: seq<Entry>, keep: Entry -> bool)
    ensures forall e | e in entries && keep(e) :: e in Kept(entries, keep)
    decreases |entries|
  {
    if entries != [] {
      var init := entries[..|entries| - 1];
      var last := entries[|entries| - 1];
      KeptComplete(init, keep);
      assert forall e | e in entries :: e in init || e == last;
    }
  }

  /**
   * Keeping the entries of a concatenation keeps those of each part, in
   * order: no entry is moved past another.
   */
  lemma {:induction false} KeptAppend(a: seq<Entry>, b: seq<Entry>, keep: Entry -> bool)
    ensures Kept(a + b, keep) == Kept(a, keep) + Kept(b, keep)
    decreases |b|
  {
    if b != [] {
      var init := b[..|b| - 1];
      var last := b[|b| - 1];
      assert (a + b)[..|a + b| - 1] == a + init;
      assert (a + b)[|a + b| - 1] == last;
      KeptAppend(a, init, keep);
    } else {
      assert a + b == a;
    }
  }

  /** The entries that pass both gates, in input order. */
  function Survivors(entries: seq<Entry>): (r: seq<Entry>)
    ensures forall e | e in r :: e in entries && Retained(e)
    ensures forall e | e in entries && Retained(e) :: e in r
  {
    KeptComplete(entries, Retained);
    Kept(entries, Retained)
  }

  /**
   * The loop of `parse_xml` (lines 80-111), I/O stripped: the records in
   * order, or the ValueError that aborts the run.
   */
  method ParseEntries(entries: seq<Entry>, parseTimestamp: string -> Option<string>)
    returns (result: Result<seq<TxRecord>, IntError>)
    ensures result == Parsed(entries, parseTimestamp)
  {
    ghost var step := AssembleWith(parseTimestamp);
    assert Parsed(entries, parseTimestamp) == Run(entries, step);
    var records: seq<TxRecord> := [];
    var recordId: nat := 1;
    var i := 0;
    while i < |entries|
      invariant 0 <= i <= |entries|
      invariant Run(entries[..i], step) == Ok(records)
      invariant recordId == |records| + 1
    {
      var outcome := BuildRecord(entries[i], recordId, parseTimestamp);
      RunStep(entries, step, i, records, outcome);
      if outcome.Err? {
        PrefixErrStaysErr(entries, step, i + 1);
        return Err(outcome.error);
      }
      if outcome.value.Some? {
        records := records + [outcome.value.value];
        recordId := recordId + 1;
      }
      assert Run(entries[..i + 1], step) == Ok(records);
      i := i + 1;
    }
    assert entries[..i] == entries;
    return Ok(records);
  }

  /**
   * The body of that loop for one entry: Ok(None) where the loop continues,
   * Err where a ValueError escapes, Ok(Some(record)) where it appends.
   */
  method BuildRecord(sms: Entry, recordId: nat, parseTimestamp: string -> Option<string>)
    returns (outcome: Result<Option<TxRecord>, IntError>)
    ensures outcome == AssembleWith(parseTimestamp)(sms, recordId)
  {
    var body := sms.Body();
    var txType := ClassifySms(body);
    if txType == Otp {
      AssembleSkips(sms, recordId, parseTimestamp);
      return Ok(None);
    }
    var amount := ExtractAmount(body);
    if amount.Err? {
      AssembleAborts(sms, recordId, parseTimestamp);
      return Err(amount.error);
    }
    if amount.value.None? {
      AssembleSkips(sms, recordId, parseTimestamp);
      return Ok(None);
    }
    var fee := ExtractFee(body);
    if fee.Err? {
      AssembleAborts(sms, recordId, parseTimestamp);
      return Err(fee.error);
    }
    var balance := ExtractBalance(body);
    if balance.Err? {
      AssembleAborts(sms, recordId, parseTimestamp);
      return Err(balance.error);
    }
    AssembleBuilds(sms, recordId, parseTimestamp);
    var record := TxRecord(
      recordId, ExtractTxId(body), txType, amount.value.value, fee.value, balance.value,
      ExtractCounterpart(body, txType), parseTimestamp(sms.Date()), sms.Readable(), body);
    return Ok(Some(record));
  }

  /** The entry is skipped: an OTP message, or no amount. */
  lemma AssembleSkips(e: Entry, id: nat, parseTimestamp: string -> Option<string>)
    requires ClassifySms(e.Body()) == Otp || ExtractAmount(e.Body()) == Ok(None)
    ensures Assemble(e, id, parseTimestamp) == Ok(None) && !Retained(e) && !Crashes(e)
  {
  }

  /** The first extractor that raises decides the error. */
  lemma AssembleAborts(e: Entry, id: nat, parseTimestamp: string -> Option<string>)
    requires ClassifySms(e.Body()) != Otp
    requires || ExtractAmount(e.Body()).Err?
             || (ExtractAmount(e.Body()).Ok? && ExtractAmount(e.Body()).value.Some? && ExtractFee(e.Body()).Err?)
             || (ExtractAmount(e.Body()).Ok? && ExtractAmount(e.Body()).value.Some? && ExtractFee(e.Body()).Ok? && ExtractBalance(e.Body()).Err?)
    ensures Assemble(e, id, parseTimestamp) ==
      if ExtractAmount(e.Body()).Err? then Err(ExtractAmount(e.Body()).error)
      else if ExtractFee(e.Body()).Err? then Err(ExtractFee(e.Body()).error)
      else Err(ExtractBalance(e.Body()).error)
    ensures Crashes(e)
  {
  }

  /** Every extractor succeeds: the record holds their results. */
  lemma AssembleBuilds(e: Entry, id: nat, parseTimestamp: string -> Option<string>)
    requires ClassifySms(e.Body()) != Otp
    requires ExtractAmount(e.Body()).Ok? && ExtractAmount(e.Body()).value.Some?
    requires ExtractFee(e.Body()).Ok? && ExtractBalance(e.Body()).Ok?
    ensures Assemble(e, id, parseTimestamp) == Ok(Some(TxRecord(
      id, ExtractTxId(e.Body()), ClassifySms(e.Body()), ExtractAmount(e.Body()).value.value,
      ExtractFee(e.Body()).value, ExtractBalance(e.Body()).value,
      ExtractCounterpart(e.Body(), ClassifySms(e.Body())), parseTimestamp(e.Date()),
      e.Readable(), e.Body())))
  {
  }

  /** One more entry: the run over `entries[..i + 1]` in terms of the run over `entries[..i]`. */
  lemma RunStep(entries: seq<Entry>, step: (Entry, nat) -> Outcome, i: nat, records: seq<TxRecord>, outcome: Outcome)
    requires i < |entries| && Run(entries[..i], step) == Ok(records)
    requires step(entries[i], |records| + 1) == outcome
    ensures Run(entries[..i + 1], step) ==
      match outcome
      case Err(x) => Err(x)
      case Ok(None) => Ok(records)
      case Ok(Some(rec)) => Ok(records + [rec])
  {
    assert entries[..i + 1][..i] == entries[..i];
  }

  /** Once a prefix aborts, the whole run aborts with the same error. */
  lemma {:induction false} PrefixErrStaysErr(entries: seq<Entry>, step: (Entry, nat) -> Outcome, n: nat)
    requires n <= |entries| && Run(entries[..n], step).Err?
    ensures Run(entries, step) == Run(entries[..n], step)
    decreases |entries| - n
  {
    if n < |entries| {
      assert entries[..n + 1][..n] == entries[..n];
      PrefixErrStaysErr(entries, step, n + 1);
    } else {
      assert entries[..n] == entries;
    }
  }

  /**
   * `rec` is the record built from entry `e` under id `id`: it carries the
   * entry's type, which is never OTP, and what each extractor finds in the
   * body (a missing body reads as ""): the amount, the tx id, the fee, the
   * balance after and the counterpart for that type. Its timestamp is
   * `parseTimestamp` of the date attribute, "0" when that is missing, and it
   * keeps the readable date ("" when missing) and the raw body.
   */
  predicate RecordFor(rec: TxRecord, id: nat, e: Entry, parseTimestamp: string -> Option<string>) {
    var body := e.Body();
    && rec.id == id
    && rec.txType == ClassifySms(body) != Otp
    && Ok(Some(rec.amount)) == ExtractAmount(body)
    && rec.txId == ExtractTxId(body)
    && Ok(rec.fee) == ExtractFee(body)
    && Ok(rec.balanceAfter) == ExtractBalance(body)
    && rec.counterpart == ExtractCounterpart(body, rec.txType)
    && rec.timestamp == parseTimestamp(e.Date())
    && rec.rawBody == body
    && rec.readableDate == e.Readable()
  }

  /** An attribute missing from the entry reads as its default in the record. */
  lemma RecordDefaults(rec: TxRecord, id: nat, e: Entry, parseTimestamp: string -> Option<string>)
    requires RecordFor(rec, id, e, parseTimestamp)
    ensures e.body.None? ==> rec.rawBody == ""
    ensures e.date.None? ==> rec.timestamp == parseTimestamp("0")
    ensures e.readableDate.None? ==> rec.readableDate == ""
  {
  }

  /** A run aborts exactly when some entry's step fails, whatever ids it is given. */
  lemma {:induction false} RunOkIff(entries: seq<Entry>, step: (Entry, nat) -> Outcome, fails: Entry -> bool)
    requires forall e: Entry, id: nat :: step(e, id).Err? <==> fails(e)
    ensures Run(entries, step).Ok? <==> forall e | e in entries :: !fails(e)
    decreases |entries|
  {
    if entries != [] {
      var init := entries[..|entries| - 1];
      var last := entries[|entries| - 1];
      RunOkIff(init, step, fails);
      assert forall e | e in entries :: e in init || e == last;
      assert forall e | e in init :: e in entries;
    }
  }

  /** A run of `parse_xml`'s loop aborts exactly when some entry crashes an extractor. */
  lemma ParsedOkIff(entries: seq<Entry>, parseTimestamp: string -> Option<string>)
    ensures Parsed(entries, parseTimestamp).Ok? <==> forall e | e in entries :: !Crashes(e)
  {
    forall e: Entry, id: nat
      ensures AssembleWith(parseTimestamp)(e, id).Err? <==> Crashes(e)
    {
      AssembleOutcome(e, id, parseTimestamp);
    }
    RunOkIff(entries, AssembleWith(parseTimestamp), Crashes);
  }

  /**
   * A run that does not abort yields exactly one record per surviving entry:
   * record k (from 0) is built from survivor k under id k + 1.
   */
  lemma {:induction false} ParsedRecords(entries: seq<Entry>, parseTimestamp: string -> Option<string>)
    ensures Parsed(entries, parseTimestamp).Ok? ==>
      var records := Parsed(entries, parseTimestamp).value;
      var kept := Survivors(entries);
      && |records| == |kept|
      && forall k | 0 <= k < |records| :: RecordFor(records[k], k + 1, kept[k], parseTimestamp)
    decreases |entries|
  {
    if entries != [] && Parsed(entries, parseTimestamp).Ok? {
      var init := entries[..|entries| - 1];
      var last := entries[|entries| - 1];
      ParsedRecords(init, parseTimestamp);
      var before := Parsed(init, parseTimestamp).value;
      var kept := Survivors(init);
      var records := Parsed(entries, parseTimestamp).value;
      var a := Assemble(last, |before| + 1, parseTimestamp);
      AssembleOutcome(last, |before| + 1, parseTimestamp);
      if a == Ok(None) {
        assert records == before;
        assert Survivors(entries) == kept + [];
      } else {
        var rec := a.value.value;
        assert records == before + [rec];
        assert Survivors(entries) == kept + [last];
        RecordsExtend(before, kept, rec, last, parseTimestamp);
      }
    }
  }

  /** Appending a record built from the next survivor keeps records and survivors aligned. */
  lemma RecordsExtend(before: seq<TxRecord>, kept: seq<Entry>, rec: TxRecord, last: Entry, pt: string -> Option<string>)
    requires |before| == |kept| && forall k | 0 <= k < |before| :: RecordFor(before[k], k + 1, kept[k], pt)
    requires RecordFor(rec, |before| + 1, last, pt)
    ensures forall k | 0 <= k < |before| + 1 :: RecordFor((before + [rec])[k], k + 1, (kept + [last])[k], pt)
  {
    forall k | 0 <= k < |before| + 1
      ensures RecordFor((before + [rec])[k], k + 1, (kept + [last])[k], pt)
    {
      if k < |before| {
        assert (before + [rec])[k] == before[k] && (kept + [last])[k] == kept[k];
      }
    }
  }

  /** The number of records is the number of entries minus those dropped at each gate. */
  lemma {:induction false} SurvivorCount(entries: seq<Entry>)
    ensures |Survivors(entries)| + |OtpEntries(entries)| + |AmountGateEntries(entries)| == |entries|
    decreases |entries|
  {
    if entries != [] {
      SurvivorCount(entries[..|entries| - 1]);
    }
  }

  /** Entries dropped at the first gate. */
  function OtpEntries(entries: seq<Entry>): seq<Entry> {
    if entries == [] then []
    else
      var last := entries[|entries| - 1];
      OtpEntries(entries[..|entries| - 1]) + (if ClassifySms(last.Body()) == Otp then [last] else [])
  }

  /**
   * Entries that pass the first gate but not the second: no amount was
   * found, or reading the amount raised (such an entry aborts the run).
   */
  function AmountGateEntries(entries: seq<Entry>): seq<Entry> {
    if entries == [] then []
    else
      var last := entries[|entries| - 1];
      AmountGateEntries(entries[..|entries| - 1])
        + (if ClassifySms(last.Body()) != Otp && !Retained(last) then [last] else [])
  }
}
