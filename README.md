# MoMo SMS analyzer: parser and record store, modelled in Dafny

This project models the two sequential parts of the MoMo SMS analyzer.

**The SMS parser** (`data/raw/parse_xml.py`) works on one message body at a time:
- `classify_sms` tags the body as incoming, bank_deposit, withdrawal, outgoing, otp, debit or other.
- Five extractors pull out the amount, fee, balance, provider transaction id and counterpart name.
- The loop of `parse_xml` drops OTP messages, then drops messages without an amount, and numbers the remaining records 1, 2, 3, … in input order.

**The REST server's record table** (`api/api_server.py`) holds the `records` list and the `next_record_id` counter. It supports load, list, get, create, update and delete.

Files:
- `wrappers.dfy`: `Option` and `Result`.
- `scan.dfy`: character classes, literal matching with and without ASCII case folding, maximal runs, the leftmost-match driver `Search`, comma removal, decimal value and `strip()`.
- `classify.dfy`: the classifier and its rule table, listed in priority order.
- `extract.dfy`: one recogniser per regular expression, plus the extractors built on them.
- `batch.dfy`: the record-building loop, as a method proved against a recursive specification.
- `store.dfy`: the record table, as a class with `records: seq<Rec>` and `nextId: int`.

How the regular expressions are modelled:
- Python's `re.search` is modelled by `Scan.Search`: it tries the pattern at indices 0, 1, …, `|s|`, and the first index that matches wins.
- At one index, alternatives are tried in the order written.
- A greedy quantifier followed by something its class cannot begin (`[\d,]+` before `\s*RWF`, `[:\s]*` before `[\d,]+`) can never gain from backtracking, so it is modelled as the longest run. `Extract.RwfGroupUnique` proves this for the `([\d,]+)\s*RWF` tail.
- The lazy name group, `[^to]+` before " to", the greedy name group before " (", and `.*?` are modelled as explicit searches. Each search tries candidates in the order the regex engine does.

Behaviour of the code that the model keeps:
- `extract_fee` returns 0 itself when no fee phrase matches (data/raw/parse_xml.py:66). A record's fee is therefore never absent.
- An amount of 0 is kept, because the gate at data/raw/parse_xml.py:94 tests `is None` (`Extract.ZeroAmount`).
- Incoming counterparts need an amount written without commas, because the pattern at data/raw/parse_xml.py:39 uses `\d+`. So the incoming pattern does not match where "received" starts in "You have received 5,000 RWF from John Doe (" (`Extract.IncomingNeedsPlainDigits`); such a body gets an incoming counterpart only from another "received" with a plain-digit amount.
- Outgoing counterparts are only the first word, because the group at data/raw/parse_xml.py:43 is lazy: "Jane", not "Jane Smith" (`Extract.OutgoingFirstWordOnly`).
- `int("")` raises a ValueError when a match captured only commas (data/raw/parse_xml.py:33, :58 and :65). Nothing catches it, so the whole run aborts. The model returns this as `Err(InvalidLiteral)`.
- The server's store is a Python list scanned in order (api/api_server.py:110, :137, :161 and :163), not a map keyed by id. `get` and `update` act on the first record with the id; `delete` removes every record with it.

## Model

| member | source | states |
|---|---|---|
| Classify.RulesTest | data/raw/parse_xml.py:15-26 | each rule of the table matches exactly when its substring test in `classify_sms` succeeds, with case folded for the IGNORECASE tests |
| Classify.ClassifyFollowsRules | data/raw/parse_xml.py:14-27 | the if-chain of `classify_sms` gives the tag of the first matching rule in the ordered rule table, and "other" when no rule matches |
| Classify.FirstMatchIsEarliest | data/raw/parse_xml.py:14-27 | first match wins: the result is the tag of a matching rule with no earlier matching rule, and it is "other" exactly when no rule matches |
| Classify.ClassifyOtherIff | data/raw/parse_xml.py:27 | "other" is returned exactly when none of the six substring tests succeeds |
| Classify.ClassifyPicksFirstRule | data/raw/parse_xml.py:14-26 | a tag other than "other" comes from a rule whose test succeeds, and every earlier rule's test fails |
| Classify.BankDepositBeforeWithdrawal | data/raw/parse_xml.py:17-20 | a body containing both "bank deposit" and "withdrawn" (in any case), without "You have received", is bank_deposit |
| Classify.UpperCaseBankDeposit | data/raw/parse_xml.py:17-18 | the bank-deposit test ignores case: "BANK DEPOSIT" is bank_deposit |
| Classify.TagNamesDistinct | data/raw/parse_xml.py:14-27 | the seven tag strings are pairwise distinct |
| Scan.Search | data/raw/parse_xml.py:31 | `re.search` reports the leftmost index where the pattern matches, with its capture; no earlier index matches; None means no index matches |
| Scan.FirstAtIsSearch | data/raw/parse_xml.py:31 | `re.search` from the start reports exactly the first index where the pattern matches, with its capture, and fails exactly when the pattern matches at no index |
| Scan.RunEnd | data/raw/parse_xml.py:31 | a greedy `[class]*` stops at the end of the longest run of that class |
| Scan.GroupValue | data/raw/parse_xml.py:33 | `int(group.replace(",", ""))` fails exactly when the group is all commas; otherwise it is the decimal value of the digits |
| Scan.RemoveCommas | data/raw/parse_xml.py:33 | `replace(",", "")` keeps exactly the characters that are not commas, turns digits-and-commas into digits, and leaves a comma-free string unchanged |
| Scan.RemoveCommasAppend | data/raw/parse_xml.py:33 | comma removal keeps the other characters in their order: it distributes over concatenation |
| Scan.Strip | data/raw/parse_xml.py:41 | `strip()` returns the slice of its argument left after dropping white space at both ends: everything outside the slice is white space, and the slice neither starts nor ends with white space |
| Scan.RunStart | data/raw/parse_xml.py:41 | scanning white space from the right stops at the start of the longest run that ends at the given index |
| Scan.StripUnchanged | data/raw/parse_xml.py:41 | a string with no white space at either end is its own strip |
| Scan.StripIdempotent | data/raw/parse_xml.py:41 | stripping twice is stripping once |
| Extract.GroupThenRwf | data/raw/parse_xml.py:31 | the longest-run recogniser matches at an index exactly when `([\d,]+)\s*RWF` does there, and captures the only group the regex allows |
| Extract.RwfGroupUnique | data/raw/parse_xml.py:31 | any way of matching `([\d,]+)\s*RWF` at an index uses the longest run of digits and commas and the longest run of white space |
| Extract.SepGroup | data/raw/parse_xml.py:63 | the `[:\s]*([\d,]+)\s*RWF` tail captures a nonempty run of digits and commas |
| Extract.SepGroupSpec | data/raw/parse_xml.py:63 | with `[:\s]*` taken greedily, the tail matches exactly when the regular expression does, and captures the only group it allows |
| Extract.SepGroupStart | data/raw/parse_xml.py:63 | backtracking into `[:\s]*` never gives another start for the group |
| Extract.AmountAt | data/raw/parse_xml.py:31 | the amount pattern matches at an index exactly when some split of the regex fits there, and its group is that split |
| Extract.ExtractAmount | data/raw/parse_xml.py:30-34 | None exactly when the amount pattern matches at no index |
| Extract.LeftmostAmount | data/raw/parse_xml.py:31 | a match with no match at an earlier index is the one `re.search` reports |
| Extract.AmountIsFirstRun | data/raw/parse_xml.py:30-34 | a found amount is the value, commas removed, of the first maximal digit-and-comma run followed by optional white space and "RWF" |
| Extract.AmountFailsOnCommasOnly | data/raw/parse_xml.py:33 | `int()` raises exactly when the leftmost match captured only commas |
| Extract.LeftmostAmountUnique | data/raw/parse_xml.py:31 | `re.search` has one answer: two leftmost amount matches start and end at the same indices |
| Extract.MaximalRun | data/raw/parse_xml.py:31 | the group of the leftmost match is a maximal run of digits and commas |
| Extract.ZeroAmount | data/raw/parse_xml.py:30-34 | "0 RWF" gives amount 0 |
| Extract.FeeAt | data/raw/parse_xml.py:63 | a fee match captures a nonempty run of digits and commas |
| Extract.FeeAtSpec | data/raw/parse_xml.py:63 | the recogniser matches at an index exactly when "Fee was" or "Fee paid" (any case) followed by the tail does there, and captures the only group allowed |
| Extract.FeeLabelsExclusive | data/raw/parse_xml.py:63 | at most one of the two fee labels matches at an index, so the alternation's order cannot change the match |
| Extract.ExtractFee | data/raw/parse_xml.py:62-66 | 0 when the fee pattern matches nowhere; otherwise the group of the leftmost match read by `int()`, which fails exactly when that group is all commas |
| Extract.FeeComesFromAMatch | data/raw/parse_xml.py:62-66 | a fee other than 0 comes from a fee phrase in the body, and an error from one whose group is all commas |
| Extract.FeeIgnoresCase | data/raw/parse_xml.py:63 | "FEE PAID:100 rwf" gives fee 100: both the label and "RWF" ignore case |
| Extract.Balance1At | data/raw/parse_xml.py:51 | a pattern-1 match captures a nonempty run of digits and commas |
| Extract.Balance1Spec | data/raw/parse_xml.py:51 | the recogniser matches at an index exactly when `[Nn]ew balance[:\s]*([\d,]+)\s*RWF` does there, and captures the only group allowed |
| Extract.ColonGroup | data/raw/parse_xml.py:52 | the `\s*:?([\d,]+)\s*RWF` tail captures a nonempty run of digits and commas |
| Extract.ColonGroupSpec | data/raw/parse_xml.py:52 | with `\s*` and `:?` taken greedily, the tail matches exactly when the regular expression does, and captures the only group it allows |
| Extract.ColonGroupStart | data/raw/parse_xml.py:52 | backtracking into `\s*:?` never gives another start for the group |
| Extract.Balance2At | data/raw/parse_xml.py:52 | a pattern-2 match captures a nonempty run of digits and commas |
| Extract.Balance2Spec | data/raw/parse_xml.py:52 | the recogniser matches at an index exactly when `NEW BALANCE\s*:?([\d,]+)\s*RWF` does there, and captures the only group allowed |
| Extract.Balance3At | data/raw/parse_xml.py:53 | a pattern-3 match captures a nonempty run of digits and commas |
| Extract.Balance3Spec | data/raw/parse_xml.py:53 | the recogniser matches at an index exactly when `new balance:([\d,]+)\s*RWF` does there, and captures the only group allowed |
| Extract.ExtractBalance | data/raw/parse_xml.py:49-59 | None exactly when no pattern matches anywhere; otherwise the first pattern in list order that matches somewhere decides, and the result is the group of its leftmost match read by `int()` |
| Extract.LaterBalance | data/raw/parse_xml.py:55-59 | once pattern 1 matched nowhere: pattern 2's leftmost match decides if there is one, else pattern 3's, else None |
| Extract.Balance3Within1 | data/raw/parse_xml.py:51-53 | wherever pattern 3 matches, pattern 1 matches at the same index with the same group |
| Extract.Balance3NeverDecides | data/raw/parse_xml.py:50-58 | pattern 3 is consulted only when pattern 1 found nothing, and then it finds nothing either |
| Extract.UpperCaseBalanceOnlyPattern2 | data/raw/parse_xml.py:51-53 | an all-caps "NEW BALANCE" is invisible to patterns 1 and 3 |
| Extract.UpperCaseBalanceColonThenSpace | data/raw/parse_xml.py:52 | pattern 2 allows no white space after its colon: "NEW BALANCE: 5 RWF" does not match at the label |
| Extract.DigitsAfterLabel | data/raw/parse_xml.py:70 | after a label and `[:\s]*`, `[\d]+` captures a nonempty maximal digit run; `Extract.DigitsAfterLabelSpec` ties it to the regular expression |
| Extract.DigitsAfterLabelSpec | data/raw/parse_xml.py:70 | `[:\s]*([\d]+)` matches at j exactly when colons and white space are followed by a digit, and the group is the whole digit run that starts straight after them |
| Extract.TxIdAt | data/raw/parse_xml.py:70 | a tx-id match captures a nonempty run of digits that no digit extends; `Extract.TxIdAtSpec` ties it to the pattern |
| Extract.TxIdAtSpec | data/raw/parse_xml.py:70 | the pattern matches at i exactly when "TxId" or "Financial Transaction Id" starts there and is followed by `[:\s]*` and a digit; the group is the digit run straight after that label |
| Extract.TxIdLabelsExclusive | data/raw/parse_xml.py:70 | the two labels of the alternation never match at the same index |
| Extract.TxIdNeedsDigitsNext | data/raw/parse_xml.py:70 | "TxId: abc 123" has no tx-id match at its start: the digits must follow the label and its colons and white space |
| Extract.ExtractTxId | data/raw/parse_xml.py:69-73 | a digit string, not a number: the group of the leftmost tx-id match; None exactly when the pattern matches nowhere |
| Extract.LazyNameFrom | data/raw/parse_xml.py:43 | the lazy `([A-Za-z ]+?)[\s(]` captures letters and spaces, with no space after its first character (when it matches and where it stops: `Extract.LazyNameFromSpec`) |
| Extract.LazyNameFromSpec | data/raw/parse_xml.py:43 | the lazy group matches exactly when some later character is white space or "(" with only name characters before it, and it stops at the first such character |
| Extract.NameTailFrom | data/raw/parse_xml.py:43 | with `\s*` giving back white space one character at a time, the captured name is still a lazy-name group (when it matches and which group: `Extract.NameTailFromSpec`) |
| Extract.NameTailFromSpec | data/raw/parse_xml.py:43 | with `\s*` given back down to `q`, the tail matches exactly when a lazy group starts at or before `q` after white space only, and it captures the group starting latest |
| Extract.NameTail | data/raw/parse_xml.py:43 | `\s*([A-Za-z ]+?)[\s(]` captures a lazy-name group (when it matches and which group: `Extract.NameTailSpec`) |
| Extract.NameTailSpec | data/raw/parse_xml.py:43 | `\s*([A-Za-z ]+?)[\s(]` matches exactly when white space then a lazy group ending before white space or "(" follows; the group is the one the greedy `\s*` leaves latest |
| Extract.PaymentTo | data/raw/parse_xml.py:43 | the `payment of [^to]+ to` alternative captures a lazy-name group (when it matches and which group: `Extract.PaymentToSpec`) |
| Extract.PaymentToSpec | data/raw/parse_xml.py:43 | `[^to]+ to` followed by a name tail matches exactly when some split point fits, and the name is that tail's |
| Extract.AgentLazy | data/raw/parse_xml.py:43 | the `withdrawn.*?agent: Agent ` alternative captures a lazy-name group (when it matches and which group: `Extract.AgentLazySpec`) |
| Extract.AgentLazySpec | data/raw/parse_xml.py:43 | `.*?agent: Agent ` then a name tail matches exactly when some newline-free stretch leads to "agent: Agent " and a tail; the lazy `.*?` takes the nearest such stretch |
| Extract.OutgoingAt | data/raw/parse_xml.py:43 | all three alternatives of the outgoing pattern capture a lazy-name group (when it matches and which group: `Extract.OutgoingAtSpec`) |
| Extract.OutgoingAtSpec | data/raw/parse_xml.py:43 | the outgoing pattern matches at `i` exactly when one of its three alternatives does, and the first matching alternative in source order supplies the name |
| Extract.OutgoingAlternatives | data/raw/parse_xml.py:43 | each alternative of the outgoing pattern, stated without search, holds exactly when its label matches and the rest of that alternative does |
| Extract.OutgoingNeedsTerminator | data/raw/parse_xml.py:43 | "transferred to John." has no outgoing match: the lazy name must be followed by white space or "(" |
| Extract.NameBeforeParen | data/raw/parse_xml.py:39 | the greedy `([A-Za-z ]+) \(` captures a nonempty run of letters and spaces (when it matches and which group: `Extract.NameBeforeParenSpec`) |
| Extract.NameBeforeParenSpec | data/raw/parse_xml.py:39 | backtracking from `k`, the name matches exactly when " (" follows some end inside the run, and the group ends at the last such end |
| Extract.ParenNameSpec | data/raw/parse_xml.py:39 | `([A-Za-z ]+) \(` from `g` matches exactly when a run of letters and spaces is followed by " (", and the greedy group is the longest such run |
| Extract.IncomingAt | data/raw/parse_xml.py:39 | the incoming pattern captures a nonempty run of letters and spaces (when it matches and which group: `Extract.IncomingAtSpec`) |
| Extract.IncomingAtSpec | data/raw/parse_xml.py:39 | `received \d+ RWF from ([A-Za-z ]+) \(` matches at `i` exactly when its digits, label and a name followed by " (" are there, and the group is the longest such name |
| Extract.IncomingNeedsParen | data/raw/parse_xml.py:39 | "received 5 RWF from John" has no incoming match: the name must be followed by " (" |
| Extract.StripKeepsNameChars | data/raw/parse_xml.py:41 | stripping a letters-and-spaces group leaves only letters and spaces |
| Extract.StripLazyNameIsWord | data/raw/parse_xml.py:45 | stripping a lazy-name group leaves letters only: a single word |
| Extract.ExtractCounterpart | data/raw/parse_xml.py:37-46 | None for any type outside incoming/outgoing/bank_deposit/withdrawal, and exactly when the type's pattern matches nowhere; otherwise the stripped group of the type's leftmost match, made of letters and spaces, and of letters only for the three outgoing-side types (what each pattern matches at an index: `Extract.IncomingAtSpec` and `Extract.OutgoingAtSpec`) |
| Extract.IncomingName | data/raw/parse_xml.py:39-41 | None exactly when the incoming pattern matches nowhere; otherwise the stripped group of the leftmost match, made of letters and spaces (what the pattern matches at an index: `Extract.IncomingAtSpec`) |
| Extract.OutgoingName | data/raw/parse_xml.py:43-45 | None exactly when the outgoing pattern matches nowhere; otherwise the stripped group of the leftmost match, made of letters only (what the pattern matches at an index: `Extract.OutgoingAtSpec`) |
| Extract.OutgoingFirstWordOnly | data/raw/parse_xml.py:43-45 | "payment of 2,000 RWF to Jane Smith has" gives counterpart "Jane" |
| Extract.PaymentToAtFirstTOrO | data/raw/parse_xml.py:43 | `[^to]+` is a character class: the " to" must sit on the first "t" or "o" after "payment of " |
| Extract.LazyNameIsWord | data/raw/parse_xml.py:43 | when letters end at white space or "(", the lazy group captures exactly those letters |
| Extract.NameTailIsWord | data/raw/parse_xml.py:43 | a word after the skipped white space is the captured name |
| Extract.IncomingDigitsOnlyChoice | data/raw/parse_xml.py:39 | any digit run after "received " that " RWF from " follows is the longest run, so taking the longest loses no match of `\d+` |
| Extract.IncomingNeedsPlainDigits | data/raw/parse_xml.py:39 | "received 5,000 RWF from John Doe (" does not match where "received" starts, because `\d+` stops at the comma |
| Batch.AssembleOutcome | data/raw/parse_xml.py:88-108 | an entry aborts the run exactly when an extractor raises on it, is skipped exactly when it is OTP or has no amount, and otherwise yields the record `Batch.RecordFor` describes: the given id, the entry's type (never OTP), amount, tx id, fee, balance after, counterpart for that type, timestamp of its date, readable date and raw body |
| Batch.AssembleRecord | data/raw/parse_xml.py:97-108 | when no gate drops the entry and no extractor raises, the record holds every field as `Batch.RecordFor` states it |
| Batch.RecordDefaults | data/raw/parse_xml.py:84-86 | a missing body gives the raw body "", a missing date gives the timestamp of "0", a missing readable date gives "" |
| Batch.BuildRecord | data/raw/parse_xml.py:88-108 | the loop body for one entry, with its `continue`s and the points where a ValueError escapes, has exactly that outcome |
| Batch.Run | data/raw/parse_xml.py:80-111 | the loop yields at most one record per entry (the abort on the first error and the per-entry step are stated by `Batch.PrefixErrStaysErr` and `Batch.RunStep`) |
| Batch.Parsed | data/raw/parse_xml.py:80-111 | the output of `parse_xml`'s loop never holds more records than there are entries |
| Batch.RunStep | data/raw/parse_xml.py:88-111 | one more entry extends the run by that entry's outcome under the next id: abort, skip or append |
| Batch.RunOkIff | data/raw/parse_xml.py:83-111 | a loop whose step fails exactly on some entries succeeds exactly when no entry is one of them |
| Batch.Kept | data/raw/parse_xml.py:83-95 | filtering keeps only accepted entries of the input, and never more entries than the input has |
| Batch.KeptComplete | data/raw/parse_xml.py:83-95 | filtering loses no accepted entry |
| Batch.KeptAppend | data/raw/parse_xml.py:83-95 | filtering keeps the input order: it distributes over concatenation |
| Batch.Survivors | data/raw/parse_xml.py:88-95 | an entry of the input is a survivor exactly when it passes both gates, and every survivor is an entry of the input |
| Batch.ParseEntries | data/raw/parse_xml.py:80-111 | the loop returns exactly the specified output, keeping `record_id == len(records) + 1` |
| Batch.PrefixErrStaysErr | data/raw/parse_xml.py:93-103 | once a prefix of the loop aborts, the whole run aborts with that error |
| Batch.ParsedOkIff | data/raw/parse_xml.py:83-111 | the run of `parse_xml`'s loop succeeds exactly when no entry makes an extractor raise |
| Batch.ParsedRecords | data/raw/parse_xml.py:83-111 | a successful run yields one record per surviving entry, in order: record k has id k + 1 and every field `Batch.RecordFor` states for survivor k (type, amount, tx id, fee, balance after, counterpart, timestamp, readable date, raw body) |
| Batch.SurvivorCount | data/raw/parse_xml.py:88-95 | survivors + OTP-dropped entries + entries dropped or aborted at the amount gate = all entries |
| Store.MaxId | api/api_server.py:18 | the largest id: no id exceeds it, and some record carries it |
| Store.WithoutId | api/api_server.py:163 | the filtered list holds exactly the records whose id differs |
| Store.WithoutIdAppend | api/api_server.py:163 | filtering keeps the original order: it distributes over concatenation |
| Store.WithoutAbsentId | api/api_server.py:161-167 | filtering by an id that no record carries changes nothing |
| Store.Override | api/api_server.py:144-146 | after the update, every supplied key except "id" has its new value and every other key keeps its old one |
| Store.ApplyUpdates | api/api_server.py:144-146 | the key-by-key update loop produces that override |
| Store.FirstIndex | api/api_server.py:110 | the first index whose record has the id, or None when no record has it |
| Store.RecordStore.Find | api/api_server.py:110 | the scan returns the first index with the id, or None when no record has it |
| Store.RecordStore.constructor | api/api_server.py:7-8 | the table starts empty with the counter at 1 |
| Store.RecordStore.Load | api/api_server.py:13-22 | with a file: its records, and counter = max id + 1 (1 when empty); without a file: no records and the counter untouched; the invariant is established |
| Store.RecordStore.List | api/api_server.py:101-102 | the count is the current number of records |
| Store.RecordStore.Get | api/api_server.py:104-114 | a non-integer id is rejected; otherwise the first record with the id, or not-found when no record has it |
| Store.RecordStore.Create | api/api_server.py:116-129 | the new record gets the old counter as id (the client's id is discarded), is appended, and the counter goes up by exactly 1; the id was never issued before; a bad body changes nothing |
| Store.RecordStore.Update | api/api_server.py:131-152 | only the first record with the id changes: its supplied keys except "id" are overwritten; bad id, unknown id or bad body change nothing |
| Store.RecordStore.Delete | api/api_server.py:154-167 | every record with the id is removed and the rest keep their order; unknown or bad ids change nothing; the counter is untouched, so ids are not reused |

## Left out

- `parse_timestamp` depends on the local time zone and on float division. It is a function parameter of `Batch.ParseEntries`, `Batch.Parsed` and `Batch.Assemble`.
- Reading the XML file and writing the JSON output (`ET.parse`, `findall`, `json.dump`, `print`) are I/O. Entries arrive as a sequence of `Batch.Entry` values, with a missing attribute as `None`.
- Python's Unicode regex semantics are not modelled. `\d` is ASCII digits only. `\s` and `strip()` cover the white space characters below U+0080: space, tab, line feed, vertical tab, form feed, carriage return, and U+001C to U+001F. White space and digits above U+007F are left out, and IGNORECASE folds A-Z only.
- Scan.GroupValue: does not model the limit of 4300 digits that CPython 3.11 and later put on `int()` of a string. A longer digit group raises ValueError there and is read as a number here.
- HTTP routing, path splitting, response writing, header and body reading, `json.loads`, logging and server start-up are left out. Replies are `Store.Reply` values; the comment on each kind gives its HTTP status code.
- `int(raw_id)` on a path segment is abstracted: the store methods take an `Option<int>`, where None means the segment is not an integer.
- The request body is abstracted as `Store.Payload`: a decoded JSON object, a JSON decode error (400), or any other failure (500). Examples of other failures are a missing Content-Length or a body that is not an object.
- `persist_records` is file I/O, and its failure is not modelled. Every mutation happens in memory before that write. For create and update the write sits inside the `try` (api/api_server.py:124, :147), so a failed write answers 500 after the change. For delete it does not (api/api_server.py:163-164): the exception escapes the handler after the record is removed, and no reply is sent.
- Basic-auth checking is access control over the `base64` library with fixed credentials.
- JSON floating-point numbers, the key order of JSON objects, and records whose "id" is missing or not an integer (in Python these crash `load_records`) are left out. So is a transactions.json that is not valid JSON or whose top level is not a list of objects: `load_records` catches only a missing file (api/api_server.py:20), so these raise at start-up.
- Store.RecordStore.Load: requires that loaded records keep their "id" only in `Rec.id`. A decoded JSON object always splits that way.
- Store.RecordStore.Update: changes the record in the list by value. The Python code mutates the dict object in place, which is the same because each record in the list is a distinct object.
