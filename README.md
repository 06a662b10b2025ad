# Gmail rule automation, modelled in Dafny

The system copies the messages of a Gmail inbox into a local SQLite table
(`fetch_emails.py`) and then runs a list of rule sets over the stored rows
(`process_emails.py`). The actions of the first rule set a row matches go back
to Gmail: label changes, a move to the trash, or a move to a user label that is
created when missing. The model covers that core:

- `wrappers.dfy` (module `Wrappers`): `Option`, the error channel of every operation that raises.
- `text.dfy` (module `Text`): `str.lower`, `str.strip`, `in`, `split`, `int()` and `str(n)` on ASCII text; `bytes`.
- `calendar.dfy` (module `Calendar`): `datetime` values as instants in microseconds; adding 5 hours 30 minutes with every carry.
- `date_format.dfy` (module `DateFormat`): `strptime`/`strftime` for `'%a, %d %b %Y %H:%M:%S'` and `'%d/%m/%Y %H:%M:%S'`.
- `base64url.dfy` (module `Base64Url`): `base64.urlsafe_b64decode` (CPython's non-strict decoder) and its encoder.
- `utf8.dfy` (module `Utf8`): `bytes.decode('utf-8', errors='ignore')`.
- `fetch_emails.dfy` (module `FetchEmails`): `format_email_date`, `extract_message_body`, the header loop, the upsert loop, the table.
- `process_emails.dfy` (module `ProcessEmails`): `match_condition`, `evaluate_rules`, `get_or_create_label`, `apply_actions`, the rule-set loop.

The Gmail service in `process_emails.py` is a class `Provider` whose fields
hold the account's labels, the calls received so far and the calls it refuses.
Its methods are `labels().list`, `labels().create`, `messages().modify` and
`messages().trash`. A refused call plays the part of an exception raised by
the API. At ingestion, Gmail is the list of responses it gave. The SQLite
table is a class `Store` holding a map from `gmail_id` to row. Each loop of
the source is a method with loop invariants, proved equal to a recursive
specification function (`Refresh`, `ApplySpec`, `ProcessSpec`,
`RuleSetMatches`, `GetOrCreateSpec`). The lemmas state the source's promises
about those functions.

Where the specification of the system and the code disagree, the model
follows the code:
- Label changes are sent as one `modify` per action (`process_emails.py`
  lines 234-242 sit inside the action loop), not as one combined call per
  message.
- Any aggregator other than `all` (after lower-casing) means "any", not only
  `any`.
- A header without a `name` key, or one of the four wanted names without a
  `value` key, raises `KeyError`. The whole message is then skipped and
  nothing is stored for it; the raw date is not kept.

## Model

| member | source | states |
|---|---|---|
| ProcessEmails.MatchCondition | src/process_emails.py:89-143 | `match_condition`: six predicates compared exactly, a NULL value read as '', any other predicate false; what each branch means is stated by ContainsIff, EqualsIff, DateConditionAt, DateConditionFailures and UnknownPredicateFalse |
| ProcessEmails.ContainsIff | src/process_emails.py:101-109 | `contains` holds exactly when some slice of the value equals the expected text up to case; `does_not_contain` is its negation; a NULL value behaves as '' |
| ProcessEmails.EqualsIff | src/process_emails.py:110-113 | `equals` compares the stripped texts up to case; `does_not_equal` is its negation; NULL is '' |
| ProcessEmails.UnknownPredicateFalse | src/process_emails.py:140 | any predicate outside the six known ones is false |
| ProcessEmails.WindowDays | src/process_emails.py:120-129 | a window that is read at all lies within `timedelta`'s ±999999999 days |
| ProcessEmails.WindowOfDecimal | src/process_emails.py:120-127 | '<n>_days' gives n days and '<n>_months' 30·n days, the unit in any case |
| ProcessEmails.WindowOfPieces | src/process_emails.py:120-129 | an expected value that splits into an amount `int()` reads and the unit days or months gives that many days, or 30 per month |
| ProcessEmails.WindowFailures | src/process_emails.py:120-129 | no window when the text does not split into two pieces on '_', the amount is not an integer, or the unit is neither days nor months |
| ProcessEmails.Cutoff | src/process_emails.py:132 | the cutoff is `now` minus the window and lies inside the years 1 to 9999 |
| ProcessEmails.DateRelations | src/process_emails.py:114-134 | `less_than` and `greater_than` are the two directions of one date comparison |
| ProcessEmails.DateConditionAt | src/process_emails.py:114-134 | with a readable date, window and cutoff, `less_than` holds exactly when the date is after the cutoff and `greater_than` exactly when it is before |
| ProcessEmails.DateConditionsExclusive | src/process_emails.py:134 | the two date predicates never hold together |
| ProcessEmails.DateConditionFailures | src/process_emails.py:115-138 | an unreadable date, a malformed window or an unknown unit makes both date predicates false without raising |
| ProcessEmails.IngestedDateCompared | src/process_emails.py:117-134 | a date stored at ingestion is compared as the header's time plus 5 hours 30 minutes |
| ProcessEmails.ContainsIgnoresCase | src/process_emails.py:106-107 | 'Hello World' contains 'WORLD' |
| ProcessEmails.RuleSetMatches | src/process_emails.py:148-177 | `all(rule_results)` under 'all' and `any(rule_results)` otherwise; stated condition by condition in RuleSetMatchesIff and reached by the loop of EvaluateRules |
| ProcessEmails.ResultAt | src/process_emails.py:163-171 | the i-th collected result is the i-th condition's, with field and predicate lower-cased |
| ProcessEmails.RuleSetMatchesIff | src/process_emails.py:158-174 | under 'all' a rule set matches exactly when every condition holds; otherwise exactly when some condition holds |
| ProcessEmails.EvaluateRules | src/process_emails.py:148-177 | the loop's result is exactly `RuleSetMatches` |
| ProcessEmails.EmptyAndDefaultRuleSets | src/process_emails.py:158-174 | no conditions: 'all' matches and 'any' does not; a missing predicate means 'all'; 'All' is 'all' |
| ProcessEmails.Provider.ListLabels | src/process_emails.py:260 | the list call is recorded; it returns the labels, or fails when refused |
| ProcessEmails.Provider.constructor | src/process_emails.py:249-272 | a Gmail account with the given labels and refused calls and no calls yet, whose labels hold none of the ids it will generate |
| ProcessEmails.Provider.CreateLabel | src/process_emails.py:266-272 | the create call is recorded; unless refused, a new label is appended; when no label held an id the account generates later, the new id differs from every existing label's id and that stays true |
| ProcessEmails.CreateOnFresh | src/process_emails.py:266-272 | a created label's id differs from the id of every label the account already had, and no label holds an id still to be generated |
| ProcessEmails.Provider.ModifyMessage | src/process_emails.py:242 | the modify call is recorded; success exactly when it is not refused |
| ProcessEmails.Provider.TrashMessage | src/process_emails.py:217 | the trash call is recorded; success exactly when it is not refused |
| ProcessEmails.FirstNamed | src/process_emails.py:261-263 | the position of the first label whose name equals the wanted one up to case, or none exactly when no label does |
| ProcessEmails.GetOrCreateSpec | src/process_emails.py:249-275 | `get_or_create_label`: list, then the id of the first label named alike up to case, or a created label's id, or an error when a call raises; stated by GetOrCreateLabel, GetOrCreateTwice, GetOrCreateCalls, MoveCreatesLabel and MoveFindsLabel |
| ProcessEmails.GetOrCreateLabel | src/process_emails.py:249-275 | the provider's new state and the id are those of `GetOrCreateSpec`: list, then the first match or a created label, or nothing when a call raises |
| ProcessEmails.FirstNamedUpToCase | src/process_emails.py:262 | names equal up to case find the same label |
| ProcessEmails.GetOrCreateTwice | src/process_emails.py:259-272 | once a name is resolved, resolving it again in any case returns the same id after one more list call and creates nothing |
| ProcessEmails.GetOrCreateCalls | src/process_emails.py:259-272 | label resolution only adds to the call log and sends no message call |
| ProcessEmails.ReadAction | src/process_emails.py:197-226 | the branch is chosen on the lower-cased action: a label change exactly for the four fixed actions, touching one label; the trash exactly for `move_to:trash`; a move to the stripped text after `move_to:`, never a reserved name; nothing exactly for an unknown action or a reserved target |
| ProcessEmails.LabelChangeSteps | src/process_emails.py:203-212 | `mark_as_unread` adds UNREAD, `move_to:starred` adds STARRED and `move_to:important` adds IMPORTANT, each as one `modify` and in any case |
| ProcessEmails.UnknownActionNoCall | src/process_emails.py:197-233 | an action that is none of the fixed ones and does not start with `move_to:` sends no call and changes nothing |
| ProcessEmails.Perform | src/process_emails.py:199-246 | one action only appends calls, sends at most one message call, and every message call is about the message being processed |
| ProcessEmails.MoveCreatesLabel | src/process_emails.py:221-242 | a move to a missing label lists, creates it and sends `modify` adding it and removing INBOX |
| ProcessEmails.MoveFindsLabel | src/process_emails.py:221-242 | a move to an existing label lists and sends `modify` with that label's id |
| ProcessEmails.MoveResolved | src/process_emails.py:228-242 | a move to a label is the label lookup, followed by `modify` only when the lookup yields an id |
| ProcessEmails.MoveUnlisted | src/process_emails.py:228-246 | when listing the labels raises, the action sends the list call and nothing else |
| ProcessEmails.StepAction | src/process_emails.py:194-246 | one pass of the action loop: the action is read, then performed; stated by Perform, ReadAction and the step lemmas |
| ProcessEmails.ApplySpec | src/process_emails.py:193-246 | a list of actions only appends calls, with at most one message call per action, all about the message |
| ProcessEmails.ApplySpecConcat | src/process_emails.py:193 | the actions run in list order: running two lists in turn is running their concatenation |
| ProcessEmails.ApplyTwo | src/process_emails.py:193 | the second action runs on the state the first one left |
| ProcessEmails.TrashOnly | src/process_emails.py:215-219 | `move_to:trash` in any case sends exactly one `trash` call and no `modify` |
| ProcessEmails.ReadMoveTo | src/process_emails.py:221-226 | a `move_to:` target that is not a system label resolves its stripped text, or does nothing when that is reserved |
| ProcessEmails.ReservedTargetSkipped | src/process_emails.py:222-226 | a target that is reserved only once stripped or lower-cased sends nothing |
| ProcessEmails.MoveTargetAfterFirstColon | src/process_emails.py:221-222 | the first ':' of a `move_to:` action is its eighth character, so the split keeps `action[8..]` |
| ProcessEmails.OrdinaryName | src/process_emails.py:221-229 | a stripped, non-reserved name becomes a move to that very label |
| ProcessEmails.MoveToNewLabel | src/process_emails.py:221-272 | moving twice to a new label, the second time in other case, creates one label and reuses it |
| ProcessEmails.FailureIsolated | src/process_emails.py:193-246 | a call that raises ends only its own action; the next action still runs |
| ProcessEmails.MarkAsReadStep | src/process_emails.py:199-200 | `mark_as_read` in any case is one `modify` removing UNREAD |
| ProcessEmails.ApplyActions | src/process_emails.py:184-246 | the provider ends in the state `ApplySpec` gives for the actions |
| ProcessEmails.ApplyAction | src/process_emails.py:194-246 | one pass of the action loop leaves the provider as `Perform` says |
| ProcessEmails.FirstMatch | src/process_emails.py:322-328 | the first rule set the email matches: it matches and none before it does; none exactly when no rule set matches |
| ProcessEmails.FirstMatchAt | src/process_emails.py:322-328 | a matching rule set with no match before it is the first match |
| ProcessEmails.FirstMatchOnly | src/process_emails.py:322-328 | only the first matching rule set's actions run, and the rule sets after it can be anything |
| ProcessEmails.NoMatchNoCalls | src/process_emails.py:322-323 | an email that matches no rule set causes no call |
| ProcessEmails.ProcessEmail | src/process_emails.py:319-328 | one email: the actions of its first matching rule set, none when the set has no `actions`, or no change; stated by FirstMatchOnly and NoMatchNoCalls |
| ProcessEmails.HandleEmail | src/process_emails.py:319-328 | one email: the state `ProcessEmail` gives, i.e. the actions of the first match (none without `actions`), or no change |
| ProcessEmails.ProcessSpec | src/process_emails.py:303-334 | the emails in store order, each handled by ProcessEmail on the state the previous ones left |
| ProcessEmails.ProcessSpecFresh | src/process_emails.py:318-328 | a whole run keeps every label id distinct from the ids still to be generated, so each label it creates gets an id no label of the account had before |
| ProcessEmails.ProcessEmails | src/process_emails.py:318-328 | the provider ends in the state `ProcessSpec` gives: the emails in store order, each handled as above |
| ProcessEmails.IntegrationMarkAsRead | tests/integration_test.py:30-40 | the sender rule with predicate 'All' sends exactly one `modify` removing UNREAD for message '1' |
| FetchEmails.FormatEmailDate | src/fetch_emails.py:107-127 | `format_email_date`: parse the first 25 characters, add 5 hours 30 minutes, write the stored form, or keep the header on any error; stated by the FormatEmailDate lemmas below |
| FetchEmails.HeaderPrefix | src/fetch_emails.py:118 | the first 25 characters, or the whole text when it is shorter |
| FetchEmails.FormatEmailDateShifts | src/fetch_emails.py:118-124 | a header date that parses and can be shifted is stored as text the date conditions read back as that time plus 5 hours 30 minutes |
| FetchEmails.FormatEmailDateUnchanged | src/fetch_emails.py:118-127 | the header comes back unchanged exactly when its prefix does not parse or the shift passes year 9999 |
| FetchEmails.FormatEmailDateIgnoresTail | src/fetch_emails.py:118 | what follows the first 25 characters never changes a converted date |
| FetchEmails.FormatEmailDateExample | tests/unit_tests.py:42-45 | 'Wed, 26 Jun 2024 10:30:00 +0000' becomes '26/06/2024 16:00:00' |
| FetchEmails.FormatEmailDateInvalid | tests/unit_tests.py:47-50 | 'invalid-date-string' is kept as it is |
| FetchEmails.FormatEmailDateSingleDigitDay | src/fetch_emails.py:118 | with a one-digit day the 25 characters end in a space, parsing fails and the raw header is stored |
| FetchEmails.ExtractMessageBody | src/fetch_emails.py:130-151 | `extract_message_body`: top-level data first, then the first text/plain part with data, '' on any error; stated by the lemmas below |
| FetchEmails.FromParts | src/fetch_emails.py:145-147 | a non-empty text is the decoded data of the first text/plain part with data |
| FetchEmails.TopLevelBodyWins | src/fetch_emails.py:141-142 | with top-level data the parts are never looked at |
| FetchEmails.FromPartsTakesFirst | src/fetch_emails.py:145-147 | the first candidate part is decoded and later parts are ignored |
| FetchEmails.FromPartsNoCandidate | src/fetch_emails.py:145-151 | without a candidate part the body is '' |
| FetchEmails.FromPartsMalformed | src/fetch_emails.py:145-151 | a part missing `mimeType`, or a text/plain part missing `body`, before any candidate gives '' |
| FetchEmails.EncodedTextExtracted | src/fetch_emails.py:139-147 | base64url-encoded ASCII text comes back as the body, as top-level data and as a text/plain part |
| FetchEmails.HelloBody | tests/unit_tests.py:52-55 | the encoded b'hello' as top-level data gives 'hello' |
| FetchEmails.WorldPart | tests/unit_tests.py:57-64 | the encoded b'world' in a text/plain part gives 'world' |
| FetchEmails.ReadHeaders | src/fetch_emails.py:173-185 | the fields are those of the last header with each exact name; failure exactly when a header lacks a key the loop reads |
| FetchEmails.LastValueIsLast | src/fetch_emails.py:177-185 | the value kept is that of the last header with the name |
| FetchEmails.LastValueMissing | src/fetch_emails.py:173 | without such a header the field stays '' |
| FetchEmails.HeaderNamesAreExact | src/fetch_emails.py:178-185 | header names are compared with their case, and a later header overwrites an earlier one |
| FetchEmails.MessageRecord | src/fetch_emails.py:168-198 | a row exists exactly when the get call answered and the headers are readable, and it is keyed by the message id |
| FetchEmails.Records | src/fetch_emails.py:167-198 | one row or skip per listed message, in order |
| FetchEmails.Upsert | src/fetch_emails.py:189-193 | every row of the table stays stored under its own id |
| FetchEmails.UpsertDomain | src/fetch_emails.py:189-193 | an id is in the table exactly when it was there or some row with that id was written |
| FetchEmails.Refresh | src/fetch_emails.py:160-198 | the table the upsert loop leaves when it starts empty; stated by RefreshDomain, RefreshLastWins, RefreshSkipsFailure and RefreshOne |
| FetchEmails.RefreshDomain | src/fetch_emails.py:160-198 | after a run an id is stored exactly when some listed message with that id was processed without raising |
| FetchEmails.UpsertLastWins | src/fetch_emails.py:189-193 | a row no later row replaces is the one kept |
| FetchEmails.RefreshLastWins | src/fetch_emails.py:167-198 | a message's row holds the values of its last successful occurrence |
| FetchEmails.UpsertSkipsNone | src/fetch_emails.py:197-198 | a skipped message writes nothing |
| FetchEmails.RefreshSkipsFailure | src/fetch_emails.py:168-198 | a message whose processing raises leaves the table as if it had not been listed |
| FetchEmails.Store.Clear | src/fetch_emails.py:97 | `DELETE FROM Emails` leaves the table empty |
| FetchEmails.Store.InsertOrReplace | src/fetch_emails.py:189-193 | the row replaces any row with its id and nothing else changes |
| FetchEmails.FetchEmails | src/fetch_emails.py:153-209 | the table is emptied first; then it is `Refresh` of the listing, or stays empty when listing raises; every row is under its id |
| FetchEmails.IntegrationHeaders | tests/integration_test.py:64-69 | the four headers of the test message are read as given |
| FetchEmails.BodyEncoding | tests/integration_test.py:70 | 'Ym9keQ==' is the encoding of b'body' |
| FetchEmails.IntegrationBody | tests/integration_test.py:70 | that data decodes to 'body' |
| FetchEmails.RefreshOne | src/fetch_emails.py:160-198 | one message processed without raising gives a one-row table |
| FetchEmails.IntegrationOneRow | tests/integration_test.py:54-81 | ingesting the test message gives one row; its sender is 'test@domain.com' and its date '26/06/2024 16:00:00' |
| Calendar.AddIstOffset | src/fetch_emails.py:121-122 | the shifted date-time is valid and exactly 5 hours 30 minutes later; failure exactly when that passes year 9999 |
| Calendar.AddIstOffsetExample | tests/unit_tests.py:42-45 | 26 Jun 2024 10:30:00 becomes 16:00:00 the same day |
| Calendar.AddIstOffsetLeapRollover | src/fetch_emails.py:122 | the shift carries into the next day, month and year, leap days included |
| DateFormat.ParseHeaderDate | src/fetch_emails.py:118 | a parsed header date is a valid `datetime` with no microseconds; HeaderRoundTrip states which fields it reads from where |
| DateFormat.HeaderRoundTrip | src/fetch_emails.py:118 | the header text `'%a, %d %b %Y %H:%M:%S'` writes for any date-time without microseconds, under any weekday name, parses back to that date-time |
| DateFormat.ParseStored | src/process_emails.py:117 | a parsed stored date is a valid `datetime` with no microseconds |
| DateFormat.StoredRoundTrip | src/fetch_emails.py:124 | reading back what `strftime('%d/%m/%Y %H:%M:%S')` wrote gives the same date-time |
| DateFormat.TestHeaderDateParses | tests/unit_tests.py:43 | the unit test's header prefix parses to 26 Jun 2024 10:30:00 |
| DateFormat.ShortDayDateRefused | src/fetch_emails.py:118 | a 25-character prefix ending in a space is refused |
| Base64Url.Decode | src/fetch_emails.py:142 | `base64.urlsafe_b64decode` of a text: an error for non-ASCII text, otherwise CPython's non-strict decoding; stated by DecodeEncode, NonAsciiRefused and PadBeforeDataForgotten |
| Base64Url.A2b | src/fetch_emails.py:142 | `binascii.a2b_base64` one character at a time: characters outside the alphabet are skipped, '=' ends the data once the group is padded, and an unfinished group is an error |
| Base64Url.PadBeforeDataForgotten | src/fetch_emails.py:142 | an '=' that does not complete the padding of its group is forgotten when a data character follows it, as CPython does |
| Base64Url.DecodeEncode | src/fetch_emails.py:142 | decoding the URL-safe encoding of any bytes gives them back |
| Base64Url.NonAsciiRefused | src/fetch_emails.py:142 | a text with a non-ASCII character raises |
| Utf8.DecodeIgnore | src/fetch_emails.py:142 | `bytes.decode('utf-8', errors='ignore')`: well-formed sequences become their characters and the bytes of an ill-formed one are dropped; stated by DecodeAscii |
| Utf8.DecodeAscii | src/fetch_emails.py:142 | ASCII bytes decode to the same text |
| Text.ParseInt | src/process_emails.py:121 | `int()` on ASCII text: spaces, tabs and line breaks around an optional sign and one to 4300 digits; stated by the ParseInt lemmas below |
| Text.ParseIntDecimal | src/process_emails.py:121 | `int(str(n))` is n whenever `str(n)` has at most 4300 digits |
| Text.ParseIntSkipsSpace | src/process_emails.py:121 | spaces, tabs and line breaks around the digits are skipped |
| Text.ParseIntSeparatorRefused | src/process_emails.py:121 | the separators 28 to 31 before the digits make `int()` raise, although `str.strip` removes them |
| Text.ParseIntDigitLimit | src/process_emails.py:121 | more than 4300 digits make `int()` raise, leading zeros included |
| Text.Split | src/process_emails.py:120 | `split(sep)`: at least one piece, none holding the separator; stated by JoinSplit and SplitAtOnlySeparator |
| Text.JoinSplit | src/process_emails.py:120 | joining the pieces of `split(sep)` with `sep` gives the text back |
| Text.SplitAtOnlySeparator | src/process_emails.py:120 | a text with one separator splits into the parts before and after it |
| Text.Strip | src/process_emails.py:111 | `str.strip()`: what is left after removing the ASCII whitespace of `str.isspace()` at both ends |
| Text.Lower | src/process_emails.py:106-107 | `str.lower()` on ASCII: same length, each capital letter mapped to its small letter |

## Left out

- `authenticate_gmail` and the token file, `load_rules` (reading the JSON rule document), `log_error` and the log file, `print`, the `__main__` blocks and `EMAIL_SIZE`: these are I/O.
- `fetch_emails_from_db` and the SQLite connection: `process_emails` takes the stored rows as a sequence of records. Rows come in the order given, and a NULL column can be passed to `MatchCondition` as `None`.
- The `maxResults` argument of the list call and the `INBOX` filter: the listing is a parameter, so how many messages it holds and which is up to the caller.
- `datetime.datetime.now()`: the current time is the parameter `now`.
- Exceptions raised by a Gmail call: a call in the provider's refused set fails; nothing else can.
- Exceptions that end a run: a rule set without `rules`, a rule without `field`, `predicate` or `value`, an `actions` value of `null`, non-string fields (`KeyError`, `AttributeError`, `TypeError`). Here rule sets are well-formed values; a missing `predicate` or `actions` key is modelled as `None`.
- The effect of label changes on the messages: the provider records the `modify` and `trash` calls it receives but keeps no per-message label state.
- ProcessEmails.ApplyAction, ProcessEmails.HandleEmail: the body of each source loop is a separate method (one pass per call); `continue` becomes `return` and the inner `break` ends the search. The behaviour is the same.
- Text.Lower: `str.lower`, `str.strip`, `str.isspace` and `int()` are modelled on ASCII text only. Non-ASCII case mappings, Unicode whitespace and Unicode digits are not.
- Text.ParseInt: the digit limit is the default 4300 of `sys.int_info.default_max_str_digits`; a limit changed through `PYTHONINTMAXSTRDIGITS` or `sys.set_int_max_str_digits` is not modelled. Underscores between digits never reach it, since its argument is a piece of a split on '_'.
- ProcessEmails.Provider.constructor: Gmail chooses the id of a created label. Here the account names it "Label_<n>" from a counter that starts at `first`, and the initial labels must not hold an id the counter will reach. What Gmail's ids look like beyond being distinct is not modelled.
- DateFormat.ParseHeaderDate: `%a` and `%b` use English abbreviations, as in the C locale. Other locales are not modelled.
- DateFormat.FormatStored: `%Y` is written with four digits. Some platforms write fewer digits for years below 1000.
- Calendar.AddIstOffset: only the offset of 5 hours 30 minutes is modelled, not general `timedelta` addition.
- FetchEmails.HeaderPrefix: `date_str[:25]` counts characters; the header is already text, so there is no encoding step.
- Mutual exclusion, commits and closing of the database connection: the table is a map and each write is immediate.
