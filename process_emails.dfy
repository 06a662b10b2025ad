/** Rule processing: every stored email is tested against the rule sets in
    order, and the actions of the first rule set it matches are sent to Gmail
    as label changes or a move to the trash. The Gmail client becomes a
    `Provider` object that holds the account's labels and records every call;
    the current time is a parameter. */
module ProcessEmails {
  import opened Wrappers
  import opened Text
  import opened Calendar
  import opened DateFormat
  import opened FetchEmails

  // ----- Conditions --------------------------------------------------------

  /** `email.get(field, '')` on a row of the `Emails` table: a column by its
      exact name, and '' for any other field. */
  function FieldValue(email: EmailRecord, field: string): string {
    if field == "gmail_id" then email.gmailId
    else if field == "sender" then email.sender
    else if field == "recipient" then email.recipient
    else if field == "subject" then email.subject
    else if field == "message" then email.message
    else if field == "date" then email.date
    else ""
  }

  /** The six predicates a condition can name. */
  const KNOWN_PREDICATES: set<string> :=
    {"contains", "does_not_contain", "equals", "does_not_equal", "less_than", "greater_than"}

  /** The 30-day month of the date conditions. */
  const DAYS_PER_MONTH := 30

  /** `timedelta.max.days`: a larger window raises `OverflowError`. */
  const MAX_DELTA_DAYS := 999_999_999

  /** The window of a date condition in days, from an expected value such as
      '3_days' or '2_months'; `None` when reading it raises. */
  function WindowDays(expected: string): (r: Option<int>)
    ensures r.Some? ==> -MAX_DELTA_DAYS <= r.value <= MAX_DELTA_DAYS
  {
    var parts := Split(Lower(expected), '_');
    if |parts| != 2 then None
    else
      var amount :- ParseInt(parts[0]);
      var days :-
        if parts[1] == "days" then Some(amount)
        else if parts[1] == "months" then Some(amount * DAYS_PER_MONTH)
        else None;
      if -MAX_DELTA_DAYS <= days <= MAX_DELTA_DAYS then Some(days) else None
  }

  /** The instant of `now - timedelta(days=days)`; `None` when it falls outside
      the years 1 to 9999 and the subtraction raises. */
  function Cutoff(now: DateTime, days: int): (c: Option<int>)
    requires now.Valid()
    ensures c.Some? ==> 0 <= c.value < END_OF_TIME && c.value == Instant(now) - days * MICROS_PER_DAY
  {
    var c := Instant(now) - days * MICROS_PER_DAY;
    if 0 <= c < END_OF_TIME then Some(c) else None
  }

  /** `less_than` (when `lessThan`) or `greater_than`: the stored date is later
      than, or earlier than, the cutoff; false whenever a step raises. */
  function DateCondition(value: string, lessThan: bool, expected: string, now: DateTime): bool
    requires now.Valid()
  {
    match ParseStored(value)
    case None => false
    case Some(d) =>
      match WindowDays(expected)
      case None => false
      case Some(days) =>
        match Cutoff(now, days)
        case None => false
        case Some(c) => if lessThan then Instant(d) > c else Instant(d) < c
  }

  /** `match_condition(value, relation, expected)` at time `now`; `value` is
      `None` for a NULL column. */
  function MatchCondition(value: Option<string>, relation: string, expected: string, now: DateTime): bool
    requires now.Valid()
  {
    var v := value.GetOr("");
    if relation == "contains" then Occurs(Lower(expected), Lower(v))
    else if relation == "does_not_contain" then !Occurs(Lower(expected), Lower(v))
    else if relation == "equals" then Lower(Strip(v)) == Lower(Strip(expected))
    else if relation == "does_not_equal" then Lower(Strip(v)) != Lower(Strip(expected))
    else if relation == "less_than" || relation == "greater_than" then
      DateCondition(v, relation == "less_than", expected, now)
    else false
  }

  /** The slice of `v` at position `i` equals `expected` up to case. */
  predicate SameTextAt(v: string, expected: string, i: nat) {
    i + |expected| <= |v| && SameText(v[i..i + |expected|], expected)
  }

  /** `contains` holds exactly when some slice of the value equals the expected
      text up to case; `does_not_contain` is its negation; a NULL value is ''. */
  lemma ContainsIff(value: Option<string>, expected: string, now: DateTime)
    requires now.Valid()
    ensures MatchCondition(value, "contains", expected, now) <==>
      exists i: nat :: SameTextAt(value.GetOr(""), expected, i)
    ensures MatchCondition(value, "does_not_contain", expected, now) == !MatchCondition(value, "contains", expected, now)
    ensures MatchCondition(None, "contains", expected, now) == MatchCondition(Some(""), "contains", expected, now)
  {
    var v := value.GetOr("");
    var n := |expected|;
    forall i: nat | i + n <= |v|
      ensures OccursAt(Lower(expected), Lower(v), i) <==> SameText(v[i..i + n], expected)
    {
      LowerSlice(v, i, i + n);
    }
    if MatchCondition(value, "contains", expected, now) {
      var i: nat :| i <= |Lower(v)| && OccursAt(Lower(expected), Lower(v), i);
      assert SameTextAt(v, expected, i);
    }
    if exists i: nat :: SameTextAt(v, expected, i) {
      var i: nat :| SameTextAt(v, expected, i);
      assert OccursAt(Lower(expected), Lower(v), i);
    }
  }

  /** `equals` compares the trimmed texts up to case, `does_not_equal` is its
      negation, and a NULL value is ''. */
  lemma EqualsIff(value: Option<string>, expected: string, now: DateTime)
    requires now.Valid()
    ensures MatchCondition(value, "equals", expected, now) <==> SameText(Strip(value.GetOr("")), Strip(expected))
    ensures MatchCondition(value, "does_not_equal", expected, now) == !MatchCondition(value, "equals", expected, now)
    ensures MatchCondition(None, "equals", expected, now) == MatchCondition(Some(""), "equals", expected, now)
  {
  }

  /** Any other predicate is false and raises nothing. */
  lemma UnknownPredicateFalse(value: Option<string>, relation: string, expected: string, now: DateTime)
    requires now.Valid() && relation !in KNOWN_PREDICATES
    ensures !MatchCondition(value, relation, expected, now)
  {
  }

  /** '<n>_days' and '<n>_months', the unit in any case, give windows of n and
      30n days. */
  lemma {:induction false} WindowOfDecimal(n: nat, unit: string)
    requires Lower(unit) == "days" || Lower(unit) == "months"
    requires (if Lower(unit) == "days" then n else n * DAYS_PER_MONTH) <= MAX_DELTA_DAYS
    ensures WindowDays(Decimal(n) + "_" + unit) == Some(if Lower(unit) == "days" then n else n * DAYS_PER_MONTH)
  {
    var digits := Decimal(n);
    LowerConcat(digits + "_", unit);
    LowerConcat(digits, "_");
    LowerWithoutCapitals(digits);
    assert Lower("_") == "_";
    assert forall i :: 0 <= i < |digits| ==> digits[i] != '_';
    assert '_' !in Lower(unit);
    assert digits + "_" + Lower(unit) == digits + ['_'] + Lower(unit);
    SplitAtOnlySeparator(digits, Lower(unit), '_');
    NineDigits(n);
    ParseIntDecimal(n);
    WindowOfPieces(Decimal(n) + "_" + unit, digits, Lower(unit), n);
  }

  /** The window of an expected value that splits into an integer and a
      unit. */
  lemma WindowOfPieces(expected: string, amount: string, unit: string, n: int)
    requires Split(Lower(expected), '_') == [amount, unit] && ParseInt(amount) == Some(n)
    requires unit == "days" || unit == "months"
    requires -MAX_DELTA_DAYS <= (if unit == "days" then n else n * DAYS_PER_MONTH) <= MAX_DELTA_DAYS
    ensures WindowDays(expected) == Some(if unit == "days" then n else n * DAYS_PER_MONTH)
  {
  }

  /** With a readable date, window and cutoff, `less_than` holds exactly when
      the date is after the cutoff and `greater_than` exactly when it is
      before, so at the cutoff itself neither holds. */
  lemma DateConditionAt(value: string, expected: string, now: DateTime, d: DateTime, days: int, c: int)
    requires now.Valid() && ParseStored(value) == Some(d)
    requires WindowDays(expected) == Some(days) && Cutoff(now, days) == Some(c)
    ensures MatchCondition(Some(value), "less_than", expected, now) <==> Instant(d) > c
    ensures MatchCondition(Some(value), "greater_than", expected, now) <==> Instant(d) < c
  {
    DateRelations(Some(value), expected, now);
    assert DateCondition(value, true, expected, now) <==> Instant(d) > c;
    assert DateCondition(value, false, expected, now) <==> Instant(d) < c;
  }

  /** `less_than` and `greater_than` are the two directions of the date
      comparison, on the value read as '' when NULL. */
  lemma DateRelations(value: Option<string>, expected: string, now: DateTime)
    requires now.Valid()
    ensures MatchCondition(value, "less_than", expected, now) == DateCondition(value.GetOr(""), true, expected, now)
    ensures MatchCondition(value, "greater_than", expected, now) == DateCondition(value.GetOr(""), false, expected, now)
  {
  }

  /** The two date predicates never hold together. */
  lemma DateConditionsExclusive(value: string, expected: string, now: DateTime)
    requires now.Valid()
    ensures !(MatchCondition(Some(value), "less_than", expected, now) && MatchCondition(Some(value), "greater_than", expected, now))
  {
    assert !(DateCondition(value, true, expected, now) && DateCondition(value, false, expected, now));
  }

  /** The date predicates are false, without raising, when the value is not a
      stored date, the expected value does not split into an amount and a
      unit, the amount is not an integer, or the unit is neither 'days' nor
      'months'. */
  lemma DateConditionFailures(value: string, relation: string, expected: string, now: DateTime)
    requires now.Valid() && (relation == "less_than" || relation == "greater_than")
    requires var parts := Split(Lower(expected), '_');
      || ParseStored(value).None?
      || |parts| != 2
      || ParseInt(parts[0]).None?
      || (parts[1] != "days" && parts[1] != "months")
    ensures !MatchCondition(Some(value), relation, expected, now)
  {
    DateRelations(Some(value), expected, now);
    if ParseStored(value).Some? {
      WindowFailures(expected);
    }
  }

  /** An expected value that is not an amount and a unit gives no window. */
  lemma WindowFailures(expected: string)
    requires var parts := Split(Lower(expected), '_');
      || |parts| != 2
      || ParseInt(parts[0]).None?
      || (parts[1] != "days" && parts[1] != "months")
    ensures WindowDays(expected).None?
  {
  }

  /** What ingestion stores for a readable header date is compared by the date
      conditions as the header's time plus 5 hours 30 minutes. */
  lemma IngestedDateCompared(header: string, dt: DateTime, expected: string, days: int, c: int, now: DateTime)
    requires now.Valid()
    requires ParseHeaderDate(HeaderPrefix(header)) == Some(dt)
    requires Instant(dt) + IST_OFFSET_MICROS < END_OF_TIME
    requires WindowDays(expected) == Some(days) && Cutoff(now, days) == Some(c)
    ensures MatchCondition(Some(FormatEmailDate(header)), "less_than", expected, now) <==> Instant(dt) + IST_OFFSET_MICROS > c
    ensures MatchCondition(Some(FormatEmailDate(header)), "greater_than", expected, now) <==> Instant(dt) + IST_OFFSET_MICROS < c
  {
    FormatEmailDateShifts(header, dt);
    DateConditionAt(FormatEmailDate(header), expected, now, ParseStored(FormatEmailDate(header)).value, days, c);
  }

  /** The integration test's condition: 'Hello World' contains 'WORLD'. */
  lemma ContainsIgnoresCase(now: DateTime)
    requires now.Valid()
    ensures MatchCondition(Some("Hello World"), "contains", "WORLD", now)
  {
    assert Lower("WORLD") == "world" && Lower("Hello World") == "hello world";
    assert OccursAt("world", "hello world", 6);
  }

  // ----- Rule sets ---------------------------------------------------------

  /** One condition of a rule set. */
  datatype Rule = Rule(field: string, relation: string, value: string)

  /** A rule set; `None` for a missing `predicate` or `actions` key. */
  datatype RuleSet = RuleSet(matchType: Option<string>, rules: seq<Rule>, actions: Option<seq<string>>)

  /** The condition, with its field and predicate lower-cased. */
  predicate RuleHolds(email: EmailRecord, rule: Rule, now: DateTime)
    requires now.Valid()
  {
    MatchCondition(Some(FieldValue(email, Lower(rule.field))), Lower(rule.relation), rule.value, now)
  }

  /** The rule set combines its conditions with AND ('all', the default). */
  predicate CombinesWithAll(rs: RuleSet) {
    Lower(rs.matchType.GetOr("all")) == "all"
  }

  /** The result of each condition, in order. */
  function Results(email: EmailRecord, rules: seq<Rule>, now: DateTime): (r: seq<bool>)
    requires now.Valid()
    ensures |r| == |rules|
  {
    if rules == [] then []
    else Results(email, rules[..|rules| - 1], now) + [RuleHolds(email, rules[|rules| - 1], now)]
  }

  /** The `i`-th result is the `i`-th condition's. */
  lemma {:induction false} ResultAt(email: EmailRecord, rules: seq<Rule>, now: DateTime, i: nat)
    requires now.Valid() && i < |rules|
    ensures Results(email, rules, now)[i] == RuleHolds(email, rules[i], now)
  {
    var front := rules[..|rules| - 1];
    if i < |rules| - 1 {
      ResultAt(email, front, now, i);
      assert front[i] == rules[i];
    }
  }

  /** The loop's `i`-th pass appends the `i`-th condition's result. */
  lemma ResultsStep(email: EmailRecord, rules: seq<Rule>, now: DateTime, i: nat)
    requires now.Valid() && i < |rules|
    ensures Results(email, rules[..i + 1], now) == Results(email, rules[..i], now) + [RuleHolds(email, rules[i], now)]
  {
    assert rules[..i + 1][..i] == rules[..i];
  }

  /** `all(rule_results)` under 'all', `any(rule_results)` otherwise. */
  predicate RuleSetMatches(email: EmailRecord, rs: RuleSet, now: DateTime)
    requires now.Valid()
  {
    var results := Results(email, rs.rules, now);
    if CombinesWithAll(rs) then false !in results else true in results
  }

  /** A rule set matches under 'all' exactly when every condition holds, and
      otherwise exactly when some condition holds. */
  lemma RuleSetMatchesIff(email: EmailRecord, rs: RuleSet, now: DateTime)
    requires now.Valid()
    ensures CombinesWithAll(rs) ==>
      (RuleSetMatches(email, rs, now) <==> forall i :: 0 <= i < |rs.rules| ==> RuleHolds(email, rs.rules[i], now))
    ensures !CombinesWithAll(rs) ==>
      (RuleSetMatches(email, rs, now) <==> exists i :: 0 <= i < |rs.rules| && RuleHolds(email, rs.rules[i], now))
  {
    var results := Results(email, rs.rules, now);
    forall i | 0 <= i < |rs.rules|
      ensures results[i] == RuleHolds(email, rs.rules[i], now)
    {
      ResultAt(email, rs.rules, now, i);
    }
    if false in results {
      assert !RuleHolds(email, rs.rules[IndexOf(results, false)], now);
    }
    if true in results {
      assert RuleHolds(email, rs.rules[IndexOf(results, true)], now);
    }
  }

  /** `evaluate_rules(email, rules)`: the condition results are collected in
      order and combined with `all` or `any`. */
  method EvaluateRules(email: EmailRecord, rs: RuleSet, now: DateTime) returns (matched: bool)
    requires now.Valid()
    ensures matched == RuleSetMatches(email, rs, now)
  {
    var matchType := Lower(rs.matchType.GetOr("all"));
    var results: seq<bool> := [];
    var i := 0;
    while i < |rs.rules|
      invariant 0 <= i <= |rs.rules|
      invariant results == Results(email, rs.rules[..i], now)
    {
      var rule := rs.rules[i];
      var field := Lower(rule.field);
      var relation := Lower(rule.relation);
      var actualValue := FieldValue(email, field);
      var result := MatchCondition(Some(actualValue), relation, rule.value, now);
      ResultsStep(email, rs.rules, now, i);
      results := results + [result];
      i := i + 1;
    }
    assert rs.rules[..|rs.rules|] == rs.rules;
    if matchType == "all" {
      matched := false !in results;
    } else {
      matched := true in results;
    }
  }

  /** The position of an element known to occur. */
  function IndexOf(s: seq<bool>, x: bool): (k: nat)
    requires x in s
    ensures k < |s| && s[k] == x
  {
    if s[0] == x then 0 else 1 + IndexOf(s[1..], x)
  }

  /** A rule set without conditions matches under 'all' and not under 'any';
      a missing predicate means 'all', and 'All' is read as 'all'. */
  lemma EmptyAndDefaultRuleSets(email: EmailRecord, rules: seq<Rule>, actions: Option<seq<string>>, now: DateTime)
    requires now.Valid()
    ensures RuleSetMatches(email, RuleSet(Some("all"), [], actions), now)
    ensures !RuleSetMatches(email, RuleSet(Some("any"), [], actions), now)
    ensures RuleSetMatches(email, RuleSet(None, rules, actions), now) == RuleSetMatches(email, RuleSet(Some("all"), rules, actions), now)
    ensures RuleSetMatches(email, RuleSet(Some("All"), rules, actions), now) == RuleSetMatches(email, RuleSet(Some("all"), rules, actions), now)
  {
    assert Lower("All") == "all" && Lower("all") == "all" && Lower("any") == "any";
  }

  // ----- The Gmail provider ------------------------------------------------

  datatype Label = Label(id: string, name: string)

  /** A request sent to Gmail: `labels().list`, `labels().create`,
      `messages().modify` (an empty list stands for an absent key) and
      `messages().trash`. */
  datatype Call =
    | LabelsList
    | LabelsCreate(name: string)
    | MessagesModify(messageId: string, addLabelIds: seq<string>, removeLabelIds: seq<string>)
    | MessagesTrash(messageId: string)

  /** What the provider holds: the account's labels, the calls received so
      far, how many labels it has created, and the calls it answers with an
      error. */
  datatype Mailbox = Mailbox(labels: seq<Label>, calls: seq<Call>, created: nat, rejected: set<Call>)

  /** The id Gmail gives the n-th label created in the run. */
  function NewLabelId(n: nat): string {
    "Label_" + Decimal(n)
  }

  /** No label of the account has an id that Gmail will give a label it
      creates later, the `created`-th or any after it. */
  ghost predicate IdsFresh(m: Mailbox) {
    forall i, k :: 0 <= i < |m.labels| && m.created <= k ==> m.labels[i].id != NewLabelId(k)
  }

  /** Different creations get different ids. */
  lemma NewLabelIdInjective(j: nat, k: nat)
    requires NewLabelId(j) == NewLabelId(k)
    ensures j == k
  {
    assert NewLabelId(j)[6..] == Decimal(j) && NewLabelId(k)[6..] == Decimal(k);
    DecimalValue(j);
    DecimalValue(k);
  }

  /** The mailbox after receiving a call that changes no label. */
  function Send(m: Mailbox, c: Call): (r: Mailbox)
    ensures r.calls == m.calls + [c] && r.labels == m.labels && r.created == m.created && r.rejected == m.rejected
  {
    m.(calls := m.calls + [c])
  }

  /** `labels().create(name)`: the new label's id, or `None` when refused. */
  function CreateOn(m: Mailbox, name: string): (Mailbox, Option<string>) {
    var sent := Send(m, LabelsCreate(name));
    if LabelsCreate(name) in m.rejected then (sent, None)
    else
      var id := NewLabelId(m.created);
      (sent.(labels := m.labels + [Label(id, name)], created := m.created + 1), Some(id))
  }

  /** The Gmail account as the rule processor sees it. */
  class Provider {
    var labels: seq<Label>
    var calls: seq<Call>
    var created: nat
    const rejected: set<Call>

    function State(): Mailbox
      reads this
    {
      Mailbox(labels, calls, created, rejected)
    }

    /** An account holding `initial`, whose next created label is the
        `first`-th, so that no label it holds has an id a creation gives. */
    constructor (initial: seq<Label>, refused: set<Call>, first: nat)
      requires IdsFresh(Mailbox(initial, [], first, refused))
      ensures State() == Mailbox(initial, [], first, refused) && IdsFresh(State())
    {
      labels, calls, created, rejected := initial, [], first, refused;
    }

    /** `labels().list(userId='me')`: the labels, or `None` when it raises. */
    method ListLabels() returns (r: Option<seq<Label>>)
      modifies this
      ensures State() == Send(old(State()), LabelsList)
      ensures r == if LabelsList in rejected then None else Some(labels)
    {
      calls := calls + [LabelsList];
      r := if LabelsList in rejected then None else Some(labels);
    }

    /** `labels().create(...)` for a new, visible label. */
    method CreateLabel(name: string) returns (id: Option<string>)
      modifies this
      ensures (State(), id) == CreateOn(old(State()), name)
      ensures old(IdsFresh(State())) ==> IdsFresh(State())
      ensures old(IdsFresh(State())) && id.Some? ==> forall i :: 0 <= i < |old(labels)| ==> old(labels)[i].id != id.value
    {
      ghost var before := State();
      if IdsFresh(before) {
        CreateOnFresh(before, name);
      }
      calls := calls + [LabelsCreate(name)];
      if LabelsCreate(name) in rejected {
        return None;
      }
      var newId := NewLabelId(created);
      labels := labels + [Label(newId, name)];
      created := created + 1;
      id := Some(newId);
    }

    /** `messages().modify(...)`; false when it raises. */
    method ModifyMessage(messageId: string, add: seq<string>, remove: seq<string>) returns (ok: bool)
      modifies this
      ensures State() == Send(old(State()), MessagesModify(messageId, add, remove))
      ensures ok == (MessagesModify(messageId, add, remove) !in rejected)
    {
      calls := calls + [MessagesModify(messageId, add, remove)];
      ok := MessagesModify(messageId, add, remove) !in rejected;
    }

    /** `messages().trash(...)`; false when it raises. */
    method TrashMessage(messageId: string) returns (ok: bool)
      modifies this
      ensures State() == Send(old(State()), MessagesTrash(messageId))
      ensures ok == (MessagesTrash(messageId) !in rejected)
    {
      calls := calls + [MessagesTrash(messageId)];
      ok := MessagesTrash(messageId) !in rejected;
    }
  }

  // ----- Labels ------------------------------------------------------------

  /** The position of the first label named `name` up to case. */
  function FirstNamed(labels: seq<Label>, name: string): (r: Option<nat>)
    ensures r.Some? ==> r.value < |labels| && SameText(labels[r.value].name, name)
    ensures r.Some? ==> forall j :: 0 <= j < r.value ==> !SameText(labels[j].name, name)
    ensures r.None? <==> forall j :: 0 <= j < |labels| ==> !SameText(labels[j].name, name)
  {
    if labels == [] then None
    else if SameText(labels[0].name, name) then Some(0)
    else
      match FirstNamed(labels[1..], name)
      case None => None
      case Some(k) => Some(k + 1)
  }

  /** A created label's id is new to the account, and stays out of the way of
      later creations. */
  lemma CreateOnFresh(m: Mailbox, name: string)
    requires IdsFresh(m)
    ensures var (r, id) := CreateOn(m, name);
      && IdsFresh(r)
      && (id.Some? ==> forall i :: 0 <= i < |m.labels| ==> m.labels[i].id != id.value)
  {
    var (r, id) := CreateOn(m, name);
    if id.Some? {
      forall i, k | 0 <= i < |r.labels| && r.created <= k
        ensures r.labels[i].id != NewLabelId(k)
      {
        if i == |m.labels| && r.labels[i].id == NewLabelId(k) {
          NewLabelIdInjective(m.created, k);
        }
      }
    }
  }

  /** `get_or_create_label(service, name)`: the list call, then the first match
      or a new label; `None` when a call raises. */
  function GetOrCreateSpec(m: Mailbox, name: string): (Mailbox, Option<string>) {
    var listed := Send(m, LabelsList);
    if LabelsList in m.rejected then (listed, None)
    else
      match FirstNamed(m.labels, name)
      case Some(k) => (listed, Some(m.labels[k].id))
      case None => CreateOn(listed, name)
  }

  method GetOrCreateLabel(p: Provider, labelName: string) returns (id: Option<string>)
    modifies p
    ensures (p.State(), id) == GetOrCreateSpec(old(p.State()), labelName)
  {
    var listed := p.ListLabels();
    if listed.None? {
      return None;
    }
    var labels := listed.value;
    var i := 0;
    while i < |labels|
      invariant 0 <= i <= |labels|
      invariant forall j :: 0 <= j < i ==> !SameText(labels[j].name, labelName)
      invariant p.State() == Send(old(p.State()), LabelsList)
    {
      if Lower(labels[i].name) == Lower(labelName) {
        assert FirstNamed(labels, labelName) == Some(i);
        return Some(labels[i].id);
      }
      i := i + 1;
    }
    id := p.CreateLabel(labelName);
  }

  /** Two names equal up to case find the same first label. */
  lemma FirstNamedUpToCase(labels: seq<Label>, a: string, b: string)
    requires SameText(a, b)
    ensures FirstNamed(labels, a) == FirstNamed(labels, b)
  {
    var ra, rb := FirstNamed(labels, a), FirstNamed(labels, b);
    if ra.Some? && rb.Some? {
      assert !(ra.value < rb.value) && !(rb.value < ra.value);
    }
  }

  /** Once a name has been resolved, a second call with the same name in any
      case returns the same id and creates nothing: it only lists again. */
  lemma GetOrCreateTwice(m: Mailbox, name: string, again: string)
    requires SameText(name, again)
    requires GetOrCreateSpec(m, name).1.Some?
    ensures var (m1, id) := GetOrCreateSpec(m, name);
      GetOrCreateSpec(m1, again) == (Send(m1, LabelsList), id)
  {
    var (m1, id) := GetOrCreateSpec(m, name);
    FirstNamedUpToCase(m.labels, name, again);
    match FirstNamed(m.labels, name)
    case Some(k) =>
    case None =>
      assert m1.labels == m.labels + [Label(id.value, name)];
      FirstNamedAppend(m.labels, Label(id.value, name), again);
  }

  /** A label added after none of the same name is the first of that name. */
  lemma {:induction false} FirstNamedAppend(labels: seq<Label>, l: Label, name: string)
    requires FirstNamed(labels, name).None? && SameText(l.name, name)
    ensures FirstNamed(labels + [l], name) == Some(|labels|)
  {
    if labels == [] {
      assert labels + [l] == [l];
    } else {
      assert (labels + [l])[1..] == labels[1..] + [l];
      assert !SameText(labels[0].name, name);
      assert FirstNamed(labels[1..], name).None? by {
        assert forall j :: 0 <= j < |labels| - 1 ==> labels[1..][j] == labels[j + 1];
      }
      FirstNamedAppend(labels[1..], l, name);
    }
  }

  // ----- Actions -----------------------------------------------------------

  /** Label names a `move_to:` action leaves alone. */
  const RESERVED: set<string> := {"starred", "important", "trash"}

  predicate IsMessageCall(c: Call) {
    c.MessagesModify? || c.MessagesTrash?
  }

  /** The number of `modify` and `trash` calls in `cs`. */
  function MessageCalls(cs: seq<Call>): nat {
    if cs == [] then 0
    else MessageCalls(cs[..|cs| - 1]) + (if IsMessageCall(cs[|cs| - 1]) then 1 else 0)
  }

  /** Every `modify` and `trash` call in `cs` is about message `msgId`. */
  predicate AllAbout(cs: seq<Call>, msgId: string) {
    forall i :: 0 <= i < |cs| && IsMessageCall(cs[i]) ==> cs[i].messageId == msgId
  }

  /** `r` is `m` after more calls: the earlier calls and labels are kept and
      the refusals are the same. */
  predicate Extends(m: Mailbox, r: Mailbox) {
    && r.rejected == m.rejected
    && |m.calls| <= |r.calls| && r.calls[..|m.calls|] == m.calls
    && |m.labels| <= |r.labels| && r.labels[..|m.labels|] == m.labels
  }

  /** The calls `r` received after `m`. */
  function NewCalls(m: Mailbox, r: Mailbox): seq<Call>
    requires |m.calls| <= |r.calls|
  {
    r.calls[|m.calls|..]
  }

  lemma {:induction false} MessageCallsConcat(a: seq<Call>, b: seq<Call>)
    ensures MessageCalls(a + b) == MessageCalls(a) + MessageCalls(b)
  {
    if b == [] {
      assert a + b == a;
    } else {
      MessageCallsConcat(a, b[..|b| - 1]);
      assert (a + b)[..|a + b| - 1] == a + b[..|b| - 1];
      assert (a + b)[|a + b| - 1] == b[|b| - 1];
    }
  }

  /** Without message calls every message call is about any message. */
  lemma {:induction false} NoMessageCallsAbout(cs: seq<Call>, msgId: string)
    requires MessageCalls(cs) == 0
    ensures AllAbout(cs, msgId)
    ensures forall i :: 0 <= i < |cs| ==> !IsMessageCall(cs[i])
  {
    if cs != [] {
      NoMessageCallsAbout(cs[..|cs| - 1], msgId);
      assert forall i :: 0 <= i < |cs| - 1 ==> cs[..|cs| - 1][i] == cs[i];
    }
  }

  /** Label resolution sends only label calls. */
  lemma GetOrCreateCalls(m: Mailbox, name: string)
    ensures var r := GetOrCreateSpec(m, name).0;
      Extends(m, r) && MessageCalls(NewCalls(m, r)) == 0
  {
    var r := GetOrCreateSpec(m, name).0;
    var listed := Send(m, LabelsList);
    assert NewCalls(m, listed) == [LabelsList];
    assert [LabelsList][..0] == [];
    if LabelsList !in m.rejected && FirstNamed(m.labels, name).None? {
      assert NewCalls(m, r) == [LabelsList, LabelsCreate(name)];
      assert [LabelsList, LabelsCreate(name)][..1] == [LabelsList];
    }
  }

  /** The actions that only add or remove one fixed label. */
  const LABEL_ACTIONS: set<string> := {"mark_as_read", "mark_as_unread", "move_to:starred", "move_to:important"}

  /** What one entry of a rule set's `actions` asks for. */
  datatype Action =
    | ChangeLabels(add: seq<string>, remove: seq<string>)
    | MoveToTrash
    | MoveToLabel(labelName: string)
    | NoAction

  /** The branch of the `for action in actions` loop an action takes, chosen
      on its lower-cased text. */
  function ReadAction(action: string): (r: Action)
    ensures r.ChangeLabels? <==> Lower(action) in LABEL_ACTIONS
    ensures r.ChangeLabels? ==> |r.add| + |r.remove| == 1
    ensures r.MoveToTrash? <==> Lower(action) == "move_to:trash"
    ensures r.MoveToLabel? ==>
      StartsWith(Lower(action), "move_to:") && r.labelName == Strip(action[8..]) && Lower(r.labelName) !in RESERVED
    ensures r.NoAction? <==>
      && Lower(action) !in LABEL_ACTIONS && Lower(action) != "move_to:trash"
      && (!StartsWith(Lower(action), "move_to:") || Lower(Strip(action[8..])) in RESERVED)
  {
    var a := Lower(action);
    if a == "mark_as_read" then ChangeLabels([], ["UNREAD"])
    else if a == "mark_as_unread" then ChangeLabels(["UNREAD"], [])
    else if a == "move_to:starred" then ChangeLabels(["STARRED"], [])
    else if a == "move_to:important" then ChangeLabels(["IMPORTANT"], [])
    else if a == "move_to:trash" then MoveToTrash
    else if StartsWith(a, "move_to:") then
      var labelName := Strip(action[8..]);
      if Lower(labelName) in RESERVED then NoAction else MoveToLabel(labelName)
    else NoAction
  }

  /** `m` after one call, with the facts `Perform` promises. */
  function Sent(m: Mailbox, c: Call): (r: Mailbox)
    ensures r == Send(m, c)
    ensures Extends(m, r) && NewCalls(m, r) == [c]
    ensures MessageCalls(NewCalls(m, r)) == (if IsMessageCall(c) then 1 else 0)
  {
    var r := Send(m, c);
    assert [c][..0] == [];
    r
  }

  /** A resolution that failed: only label calls were sent. */
  function LabelCallsOnly(m: Mailbox, resolved: Mailbox, msgId: string): (r: Mailbox)
    requires Extends(m, resolved) && MessageCalls(NewCalls(m, resolved)) == 0
    ensures r == resolved
    ensures Extends(m, r) && MessageCalls(NewCalls(m, r)) == 0 && AllAbout(NewCalls(m, r), msgId)
  {
    NoMessageCallsAbout(NewCalls(m, resolved), msgId);
    resolved
  }

  /** A resolution followed by the message call `c`. */
  function ThenSend(m: Mailbox, resolved: Mailbox, c: Call): (r: Mailbox)
    requires Extends(m, resolved) && MessageCalls(NewCalls(m, resolved)) == 0 && IsMessageCall(c)
    ensures r == Send(resolved, c)
    ensures Extends(m, r) && MessageCalls(NewCalls(m, r)) == 1 && AllAbout(NewCalls(m, r), c.messageId)
  {
    var before := NewCalls(m, resolved);
    SendExtends(m, resolved, c);
    MessageCallsConcat(before, [c]);
    assert MessageCalls([c]) == 1 by {
      assert [c][..0] == [];
    }
    NoMessageCallsAbout(before, c.messageId);
    OnlyMessageCallLast(before, c);
    Send(resolved, c)
  }

  /** After calls that touch no message, `c` is the only message call. */
  lemma OnlyMessageCallLast(before: seq<Call>, c: Call)
    requires forall i :: 0 <= i < |before| ==> !IsMessageCall(before[i])
    requires IsMessageCall(c)
    ensures AllAbout(before + [c], c.messageId)
  {
    var cs := before + [c];
    assert forall i :: 0 <= i < |cs| ==> cs[i] == if i < |before| then before[i] else c;
  }

  /** One more call keeps the extension and adds itself to the new calls. */
  lemma SendExtends(m: Mailbox, resolved: Mailbox, c: Call)
    requires Extends(m, resolved)
    ensures Extends(m, Send(resolved, c))
    ensures NewCalls(m, Send(resolved, c)) == NewCalls(m, resolved) + [c]
  {
    var n := |m.calls|;
    var cs := resolved.calls;
    assert (cs + [c])[..n] == cs[..n];
    assert (cs + [c])[n..] == cs[n..] + [c];
  }

  /** The calls one action makes for message `msgId`: a label change is one
      `modify`, a move to the trash one `trash`, and a move to a label the
      label lookup followed, if it yields an id, by one `modify` that adds
      the label and removes INBOX; a call that raises ends the action. */
  function Perform(m: Mailbox, msgId: string, act: Action): (r: Mailbox)
    ensures Extends(m, r)
    ensures MessageCalls(NewCalls(m, r)) <= 1 && AllAbout(NewCalls(m, r), msgId)
  {
    match act
    case ChangeLabels(add, remove) => Sent(m, MessagesModify(msgId, add, remove))
    case MoveToTrash => Sent(m, MessagesTrash(msgId))
    case MoveToLabel(labelName) =>
      var (resolved, id) := GetOrCreateSpec(m, labelName);
      GetOrCreateCalls(m, labelName);
      (match id
       case None => LabelCallsOnly(m, resolved, msgId)
       case Some(labelId) => ThenSend(m, resolved, MessagesModify(msgId, [labelId], ["INBOX"])))
    case NoAction =>
      assert m.calls[..|m.calls|] == m.calls && m.labels[..|m.labels|] == m.labels;
      assert NewCalls(m, m) == [];
      m
  }

  /** A move to a label the account lacks: list, create, then `modify`. */
  lemma MoveCreatesLabel(m: Mailbox, msgId: string, name: string)
    requires FirstNamed(m.labels, name).None?
    requires LabelsList !in m.rejected && LabelsCreate(name) !in m.rejected
    ensures var id := NewLabelId(m.created);
      Perform(m, msgId, MoveToLabel(name)) ==
        Mailbox(m.labels + [Label(id, name)],
                m.calls + [LabelsList, LabelsCreate(name), MessagesModify(msgId, [id], ["INBOX"])],
                m.created + 1, m.rejected)
  {
    var id := NewLabelId(m.created);
    var (resolved, r) := GetOrCreateSpec(m, name);
    assert r == Some(id);
    assert resolved == Mailbox(m.labels + [Label(id, name)], m.calls + [LabelsList, LabelsCreate(name)], m.created + 1, m.rejected);
  }

  /** A move to a label the account has: list, then `modify` with its id. */
  lemma MoveFindsLabel(m: Mailbox, msgId: string, name: string, k: nat)
    requires FirstNamed(m.labels, name) == Some(k) && LabelsList !in m.rejected
    ensures Perform(m, msgId, MoveToLabel(name)) ==
      m.(calls := m.calls + [LabelsList, MessagesModify(msgId, [m.labels[k].id], ["INBOX"])])
  {
    var (resolved, r) := GetOrCreateSpec(m, name);
    assert r == Some(m.labels[k].id) && resolved == Send(m, LabelsList);
  }

  /** A move to a label: the lookup, then `modify` if it yields an id. */
  lemma MoveResolved(m: Mailbox, msgId: string, name: string)
    ensures var (resolved, id) := GetOrCreateSpec(m, name);
      Perform(m, msgId, MoveToLabel(name)) ==
        if id.None? then resolved else Send(resolved, MessagesModify(msgId, [id.value], ["INBOX"]))
  {
  }

  /** A move whose label list raises sends the list call alone. */
  lemma MoveUnlisted(m: Mailbox, msgId: string, name: string)
    requires LabelsList in m.rejected
    ensures Perform(m, msgId, MoveToLabel(name)) == Send(m, LabelsList)
  {
    var (resolved, r) := GetOrCreateSpec(m, name);
    assert r == None && resolved == Send(m, LabelsList);
  }

  /** The body of the `for action in actions` loop for one action. */
  function StepAction(m: Mailbox, msgId: string, action: string): Mailbox {
    Perform(m, msgId, ReadAction(action))
  }

  /** Resolving a label keeps every id fresh. */
  lemma GetOrCreateFresh(m: Mailbox, name: string)
    requires IdsFresh(m)
    ensures IdsFresh(GetOrCreateSpec(m, name).0)
  {
    if LabelsList !in m.rejected && FirstNamed(m.labels, name).None? {
      CreateOnFresh(Send(m, LabelsList), name);
    }
  }

  /** One action keeps every id fresh. */
  lemma StepActionFresh(m: Mailbox, msgId: string, action: string)
    requires IdsFresh(m)
    ensures IdsFresh(StepAction(m, msgId, action))
  {
    match ReadAction(action)
    case MoveToLabel(name) =>
      MoveResolved(m, msgId, name);
      GetOrCreateFresh(m, name);
    case _ =>
  }

  /** `apply_actions(service, msg_id, actions)`: the actions in list order,
      each on its own; every message call is about `msgId` and there is at
      most one per action. */
  function ApplySpec(m: Mailbox, msgId: string, actions: seq<string>): (r: Mailbox)
    ensures Extends(m, r)
    ensures MessageCalls(NewCalls(m, r)) <= |actions| && AllAbout(NewCalls(m, r), msgId)
  {
    if actions == [] then
      assert m.calls[..|m.calls|] == m.calls && m.labels[..|m.labels|] == m.labels;
      assert NewCalls(m, m) == [];
      m
    else
      var before := ApplySpec(m, msgId, actions[..|actions| - 1]);
      var r := StepAction(before, msgId, actions[|actions| - 1]);
      ComposeCalls(m, before, r, msgId);
      r
  }

  /** Two rounds of calls about `msgId` are one round. */
  lemma ComposeCalls(m: Mailbox, mid: Mailbox, r: Mailbox, msgId: string)
    requires Extends(m, mid) && Extends(mid, r)
    requires AllAbout(NewCalls(m, mid), msgId) && AllAbout(NewCalls(mid, r), msgId)
    ensures Extends(m, r)
    ensures MessageCalls(NewCalls(m, r)) == MessageCalls(NewCalls(m, mid)) + MessageCalls(NewCalls(mid, r))
    ensures AllAbout(NewCalls(m, r), msgId)
  {
    var a, b := NewCalls(m, mid), NewCalls(mid, r);
    assert r.calls == mid.calls[..|m.calls|] + a + b by {
      assert r.calls == r.calls[..|mid.calls|] + b;
      assert mid.calls == mid.calls[..|m.calls|] + a;
    }
    assert NewCalls(m, r) == a + b;
    MessageCallsConcat(a, b);
    assert r.calls[..|m.calls|] == mid.calls[..|m.calls|];
    assert r.labels[..|m.labels|] == mid.labels[..|m.labels|];
  }

  /** Doing a list of actions and then another is doing both lists. */
  lemma {:induction false} ApplySpecConcat(m: Mailbox, msgId: string, xs: seq<string>, ys: seq<string>)
    ensures ApplySpec(m, msgId, xs + ys) == ApplySpec(ApplySpec(m, msgId, xs), msgId, ys)
  {
    if ys == [] {
      assert xs + ys == xs;
    } else {
      var init, last := ys[..|ys| - 1], ys[|ys| - 1];
      assert ys == init + [last];
      assert xs + ys == (xs + init) + [last];
      ApplySpecConcat(m, msgId, xs, init);
      ApplySpecSnoc(m, msgId, xs + init, last);
      ApplySpecSnoc(ApplySpec(m, msgId, xs), msgId, init, last);
    }
  }

  /** `move_to:trash`, in any case, sends one `trash` call and no `modify`. */
  lemma TrashOnly(m: Mailbox, msgId: string, action: string)
    requires Lower(action) == "move_to:trash"
    ensures NewCalls(m, StepAction(m, msgId, action)) == [MessagesTrash(msgId)]
  {
  }

  /** A `move_to:` action whose target is not exactly a system label's name
      resolves the stripped target, or does nothing when that names a
      reserved label in any case. */
  lemma ReadMoveTo(target: string)
    requires Lower(target) !in RESERVED
    ensures ReadAction("move_to:" + target) ==
      if Lower(Strip(target)) in RESERVED then NoAction else MoveToLabel(Strip(target))
  {
    var action := "move_to:" + target;
    var a := Lower(action);
    LowerConcat("move_to:", target);
    assert Lower("move_to:") == "move_to:";
    assert a == "move_to:" + Lower(target);
    assert a[..8] == "move_to:" && a[8..] == Lower(target) && action[8..] == target;
    assert a[1] == 'o' && "mark_as_read"[1] == 'a' && "mark_as_unread"[1] == 'a';
    assert a != "mark_as_read";
    assert a != "mark_as_unread";
    assert "move_to:starred"[8..] == "starred";
    assert a != "move_to:starred";
    assert "move_to:important"[8..] == "important";
    assert a != "move_to:important";
    assert "move_to:trash"[8..] == "trash";
    assert a != "move_to:trash";
    assert StartsWith(a, "move_to:");
  }

  /** A `move_to:` target that names a reserved label only once stripped or
      lower-cased sends nothing. */
  lemma ReservedTargetSkipped(m: Mailbox, msgId: string, target: string)
    requires Lower(Strip(target)) in RESERVED && Lower(target) !in RESERVED
    ensures StepAction(m, msgId, "move_to:" + target) == m
  {
    ReadMoveTo(target);
  }

  /** The first ':' of a `move_to:` action, in any case, is its eighth
      character, so `action.split(':', 1)[1]` is `action[8..]`. */
  lemma MoveTargetAfterFirstColon(action: string)
    requires StartsWith(Lower(action), "move_to:")
    ensures action[7] == ':' && forall i :: 0 <= i < 7 ==> action[i] != ':'
  {
    assert Lower(action)[7] == ':';
    forall i | 0 <= i < 7
      ensures action[i] != ':'
    {
      assert Lower(action)[i] == "move_to:"[i];
    }
  }

  /** A name that is its own stripped form and not reserved is a label name
      as it stands. */
  lemma OrdinaryName(name: string)
    requires Strip(name) == name && Lower(name) !in RESERVED
    ensures ReadAction("move_to:" + name) == MoveToLabel(name)
  {
    ReadMoveTo(name);
  }

  /** The second action of a list runs on the mailbox the first one left. */
  lemma ApplyTwo(m: Mailbox, msgId: string, x: string, y: string)
    ensures ApplySpec(m, msgId, [x, y]) == StepAction(StepAction(m, msgId, x), msgId, y)
  {
    assert [x, y][..1] == [x] && [x][..0] == [] && [x, y][1] == y && [x][0] == x;
    assert ApplySpec(m, msgId, []) == m;
    assert ApplySpec(m, msgId, [x]) == StepAction(m, msgId, x);
  }

  /** A move to a label the account lacks creates it and takes the message
      off the inbox, and a second move to the same name in another case
      finds that label again instead of creating another. */
  lemma MoveToNewLabel(m: Mailbox, msgId: string, name: string, again: string)
    requires Strip(name) == name && Lower(name) !in RESERVED
    requires Strip(again) == again && SameText(name, again)
    requires FirstNamed(m.labels, name).None?
    requires LabelsList !in m.rejected && LabelsCreate(name) !in m.rejected
    ensures var moved := MessagesModify(msgId, [NewLabelId(m.created)], ["INBOX"]);
      NewCalls(m, ApplySpec(m, msgId, ["move_to:" + name, "move_to:" + again]))
        == [LabelsList, LabelsCreate(name), moved] + [LabelsList, moved]
  {
    var id := NewLabelId(m.created);
    var x, y := "move_to:" + name, "move_to:" + again;
    ApplyTwo(m, msgId, x, y);
    CreateStep(m, msgId, name);
    var m1 := Mailbox(m.labels + [Label(id, name)],
      m.calls + [LabelsList, LabelsCreate(name), MessagesModify(msgId, [id], ["INBOX"])], m.created + 1, m.rejected);
    var n := |m.labels|;
    FirstNamedUpToCase(m.labels, name, again);
    FirstNamedAppend(m.labels, Label(id, name), again);
    FindStep(m1, msgId, again, n);
    var r := m1.(calls := m1.calls + [LabelsList, MessagesModify(msgId, [id], ["INBOX"])]);
    assert ApplySpec(m, msgId, [x, y]) == r;
    AppendedCalls(m, r, [LabelsList, LabelsCreate(name), MessagesModify(msgId, [id], ["INBOX"])],
      [LabelsList, MessagesModify(msgId, [id], ["INBOX"])]);
  }

  lemma CreateStep(m: Mailbox, msgId: string, name: string)
    requires Strip(name) == name && Lower(name) !in RESERVED
    requires FirstNamed(m.labels, name).None?
    requires LabelsList !in m.rejected && LabelsCreate(name) !in m.rejected
    ensures var id := NewLabelId(m.created);
      StepAction(m, msgId, "move_to:" + name) ==
        Mailbox(m.labels + [Label(id, name)],
                m.calls + [LabelsList, LabelsCreate(name), MessagesModify(msgId, [id], ["INBOX"])],
                m.created + 1, m.rejected)
  {
    OrdinaryName(name);
    MoveCreatesLabel(m, msgId, name);
  }

  lemma FindStep(m: Mailbox, msgId: string, name: string, k: nat)
    requires Strip(name) == name && Lower(name) !in RESERVED
    requires FirstNamed(m.labels, name) == Some(k) && LabelsList !in m.rejected
    ensures StepAction(m, msgId, "move_to:" + name) ==
      m.(calls := m.calls + [LabelsList, MessagesModify(msgId, [m.labels[k].id], ["INBOX"])])
  {
    OrdinaryName(name);
    MoveFindsLabel(m, msgId, name, k);
  }

  lemma AppendedCalls(m: Mailbox, r: Mailbox, xs: seq<Call>, ys: seq<Call>)
    requires r.calls == m.calls + xs + ys
    ensures NewCalls(m, r) == xs + ys
  {
    assert m.calls + xs + ys == m.calls + (xs + ys);
  }

  /** A call that raises ends only its own action: with the label list
      refused, a move to a label sends the list call alone and a following
      `mark_as_read` still runs. */
  lemma FailureIsolated(m: Mailbox, msgId: string, name: string, next: string)
    requires Strip(name) == name && Lower(name) !in RESERVED
    requires LabelsList in m.rejected && Lower(next) == "mark_as_read"
    ensures NewCalls(m, ApplySpec(m, msgId, ["move_to:" + name, next])) == [LabelsList, MessagesModify(msgId, [], ["UNREAD"])]
  {
    var x := "move_to:" + name;
    ApplyTwo(m, msgId, x, next);
    UnlistedStep(m, msgId, name);
    MarkAsReadStep(Send(m, LabelsList), msgId, next);
    var markRead := MessagesModify(msgId, [], ["UNREAD"]);
    assert ApplySpec(m, msgId, [x, next]) == Send(Send(m, LabelsList), markRead);
    TwoCalls(m, LabelsList, markRead);
  }

  lemma TwoCalls(m: Mailbox, a: Call, b: Call)
    ensures NewCalls(m, Send(Send(m, a), b)) == [a, b]
  {
  }

  lemma UnlistedStep(m: Mailbox, msgId: string, name: string)
    requires Strip(name) == name && Lower(name) !in RESERVED && LabelsList in m.rejected
    ensures StepAction(m, msgId, "move_to:" + name) == Send(m, LabelsList)
  {
    OrdinaryName(name);
    MoveUnlisted(m, msgId, name);
  }

  /** `mark_as_read`, in any case, is one `modify` that removes UNREAD. */
  lemma MarkAsReadStep(m: Mailbox, msgId: string, action: string)
    requires Lower(action) == "mark_as_read"
    ensures StepAction(m, msgId, action) == Send(m, MessagesModify(msgId, [], ["UNREAD"]))
  {
    assert ReadAction(action) == ChangeLabels([], ["UNREAD"]);
  }

  /** The other fixed label changes, in any case: `mark_as_unread` adds
      UNREAD, `move_to:starred` adds STARRED and `move_to:important` adds
      IMPORTANT, each with one `modify`. */
  lemma LabelChangeSteps(m: Mailbox, msgId: string, action: string)
    ensures Lower(action) == "mark_as_unread" ==>
      StepAction(m, msgId, action) == Send(m, MessagesModify(msgId, ["UNREAD"], []))
    ensures Lower(action) == "move_to:starred" ==>
      StepAction(m, msgId, action) == Send(m, MessagesModify(msgId, ["STARRED"], []))
    ensures Lower(action) == "move_to:important" ==>
      StepAction(m, msgId, action) == Send(m, MessagesModify(msgId, ["IMPORTANT"], []))
  {
  }

  /** An action that is none of the known ones and does not start with
      `move_to:` is skipped without a call. */
  lemma UnknownActionNoCall(m: Mailbox, msgId: string, action: string)
    requires Lower(action) !in LABEL_ACTIONS && Lower(action) != "move_to:trash"
    requires !StartsWith(Lower(action), "move_to:")
    ensures StepAction(m, msgId, action) == m
  {
  }

  /** `apply_actions(service, msg_id, actions)`. */
  method ApplyActions(p: Provider, msgId: string, actions: seq<string>)
    modifies p
    ensures p.State() == ApplySpec(old(p.State()), msgId, actions)
  {
    for i := 0 to |actions|
      invariant p.State() == ApplySpec(old(p.State()), msgId, actions[..i])
    {
      ApplySpecStep(old(p.State()), msgId, actions, i);
      ApplyAction(p, msgId, actions[i]);
    }
    assert actions[..|actions|] == actions;
  }

  /** The loop's `i`-th pass is one more step. */
  lemma ApplySpecStep(m: Mailbox, msgId: string, actions: seq<string>, i: nat)
    requires i < |actions|
    ensures ApplySpec(m, msgId, actions[..i + 1]) == StepAction(ApplySpec(m, msgId, actions[..i]), msgId, actions[i])
  {
    assert actions[..i + 1] == actions[..i] + [actions[i]];
    ApplySpecSnoc(m, msgId, actions[..i], actions[i]);
  }

  /** One more action is one more step. */
  lemma ApplySpecSnoc(m: Mailbox, msgId: string, xs: seq<string>, action: string)
    ensures ApplySpec(m, msgId, xs + [action]) == StepAction(ApplySpec(m, msgId, xs), msgId, action)
  {
    assert (xs + [action])[..|xs|] == xs;
  }

  /** One pass of the `for action in actions` loop: a `continue` of the loop
      is a `return` here. */
  method ApplyAction(p: Provider, msgId: string, action: string)
    modifies p
    ensures p.State() == StepAction(old(p.State()), msgId, action)
  {
    ghost var target := StepAction(p.State(), msgId, action);
    var addLabels: seq<string> := [];
    var removeLabels: seq<string> := [];
    var actionLower := Lower(action);
    if actionLower == "mark_as_read" {
      removeLabels := removeLabels + ["UNREAD"];
      ChangeStep(p.State(), msgId, action, [], ["UNREAD"], addLabels, removeLabels);
    } else if actionLower == "mark_as_unread" {
      addLabels := addLabels + ["UNREAD"];
      ChangeStep(p.State(), msgId, action, ["UNREAD"], [], addLabels, removeLabels);
    } else if actionLower == "move_to:starred" {
      addLabels := addLabels + ["STARRED"];
      ChangeStep(p.State(), msgId, action, ["STARRED"], [], addLabels, removeLabels);
    } else if actionLower == "move_to:important" {
      addLabels := addLabels + ["IMPORTANT"];
      ChangeStep(p.State(), msgId, action, ["IMPORTANT"], [], addLabels, removeLabels);
    } else if actionLower == "move_to:trash" {
      assert ReadAction(action) == MoveToTrash;
      var _ := p.TrashMessage(msgId);
      return;
    } else if StartsWith(actionLower, "move_to:") {
      var labelName := Strip(action[8..]);
      if Lower(labelName) in RESERVED {
        assert ReadAction(action) == NoAction;
        return;
      }
      assert ReadAction(action) == MoveToLabel(labelName);
      ghost var before := p.State();
      MoveResolved(before, msgId, labelName);
      var labelId := GetOrCreateLabel(p, labelName);
      if labelId.None? {
        return;
      }
      addLabels := addLabels + [labelId.value];
      removeLabels := removeLabels + ["INBOX"];
      MoveStep(before, msgId, labelName, p.State(), labelId.value, addLabels, removeLabels);
    } else {
      assert ReadAction(action) == NoAction;
    }
    if addLabels != [] || removeLabels != [] {
      var _ := p.ModifyMessage(msgId, addLabels, removeLabels);
    }
  }

  /** A move to a label that resolved to `labelId`: the lists the loop
      builds add that label and remove INBOX. */
  lemma MoveStep(m: Mailbox, msgId: string, name: string, resolved: Mailbox, labelId: string,
                 addLabels: seq<string>, removeLabels: seq<string>)
    requires GetOrCreateSpec(m, name) == (resolved, Some(labelId))
    requires addLabels == [] + [labelId] && removeLabels == [] + ["INBOX"]
    ensures addLabels != [] || removeLabels != []
    ensures Perform(m, msgId, MoveToLabel(name)) == Send(resolved, MessagesModify(msgId, addLabels, removeLabels))
  {
    MoveResolved(m, msgId, name);
    assert [] + [labelId] == [labelId] && [] + ["INBOX"] == ["INBOX"];
  }

  /** The four fixed label changes: the lists the loop builds are those of
      the action. */
  lemma ChangeStep(m: Mailbox, msgId: string, action: string, add: seq<string>, remove: seq<string>,
                   addLabels: seq<string>, removeLabels: seq<string>)
    requires ReadAction(action) == ChangeLabels(add, remove)
    requires addLabels == [] + add && removeLabels == [] + remove
    ensures addLabels != [] || removeLabels != []
    ensures StepAction(m, msgId, action) == Send(m, MessagesModify(msgId, addLabels, removeLabels))
  {
    assert [] + add == add && [] + remove == remove;
  }

  // ----- Processing --------------------------------------------------------

  /** The position of the first rule set the email matches. */
  function FirstMatch(email: EmailRecord, ruleSets: seq<RuleSet>, now: DateTime): (r: Option<nat>)
    requires now.Valid()
    ensures r.Some? ==> r.value < |ruleSets| && RuleSetMatches(email, ruleSets[r.value], now)
    ensures r.Some? ==> forall j :: 0 <= j < r.value ==> !RuleSetMatches(email, ruleSets[j], now)
    ensures r.None? <==> forall j :: 0 <= j < |ruleSets| ==> !RuleSetMatches(email, ruleSets[j], now)
  {
    var hits := seq(|ruleSets|, j requires 0 <= j < |ruleSets| => RuleSetMatches(email, ruleSets[j], now));
    assert forall j :: 0 <= j < |ruleSets| ==> hits[j] == RuleSetMatches(email, ruleSets[j], now);
    FirstTrue(hits, 0)
  }

  /** The first position from `i` on that holds `true`, as the `break` after
      the first matching rule set finds it. */
  function FirstTrue(hits: seq<bool>, i: nat): (r: Option<nat>)
    requires i <= |hits|
    ensures r.Some? ==> i <= r.value < |hits| && hits[r.value]
    ensures r.Some? ==> forall j :: i <= j < r.value ==> !hits[j]
    ensures r.None? <==> forall j :: i <= j < |hits| ==> !hits[j]
    decreases |hits| - i
  {
    if i == |hits| then None
    else if hits[i] then Some(i)
    else FirstTrue(hits, i + 1)
  }

  /** One email: the actions of its first matching rule set (none when the
      set has no `actions`), or nothing. */
  function ProcessEmail(m: Mailbox, email: EmailRecord, ruleSets: seq<RuleSet>, now: DateTime): Mailbox
    requires now.Valid()
  {
    match FirstMatch(email, ruleSets, now)
    case None => m
    case Some(k) => ApplySpec(m, email.gmailId, ruleSets[k].actions.GetOr([]))
  }

  /** `process_emails()` over the stored emails in order. */
  function ProcessSpec(m: Mailbox, ruleSets: seq<RuleSet>, emails: seq<EmailRecord>, now: DateTime): Mailbox
    requires now.Valid()
  {
    if emails == [] then m
    else ProcessEmail(ProcessSpec(m, ruleSets, emails[..|emails| - 1], now), emails[|emails| - 1], ruleSets, now)
  }

  lemma {:induction false} ApplySpecFresh(m: Mailbox, msgId: string, actions: seq<string>)
    requires IdsFresh(m)
    ensures IdsFresh(ApplySpec(m, msgId, actions))
  {
    if actions != [] {
      ApplySpecFresh(m, msgId, actions[..|actions| - 1]);
      StepActionFresh(ApplySpec(m, msgId, actions[..|actions| - 1]), msgId, actions[|actions| - 1]);
    }
  }

  /** A whole run keeps every id fresh: each label it creates gets an id no
      label of the account had before. */
  lemma {:induction false} ProcessSpecFresh(m: Mailbox, ruleSets: seq<RuleSet>, emails: seq<EmailRecord>, now: DateTime)
    requires now.Valid() && IdsFresh(m)
    ensures IdsFresh(ProcessSpec(m, ruleSets, emails, now))
  {
    if emails != [] {
      var before := ProcessSpec(m, ruleSets, emails[..|emails| - 1], now);
      ProcessSpecFresh(m, ruleSets, emails[..|emails| - 1], now);
      var email := emails[|emails| - 1];
      match FirstMatch(email, ruleSets, now)
      case None =>
      case Some(k) => ApplySpecFresh(before, email.gmailId, ruleSets[k].actions.GetOr([]));
    }
  }

  method ProcessEmails(p: Provider, ruleSets: seq<RuleSet>, emails: seq<EmailRecord>, now: DateTime)
    requires now.Valid()
    modifies p
    ensures p.State() == ProcessSpec(old(p.State()), ruleSets, emails, now)
  {
    for i := 0 to |emails|
      invariant p.State() == ProcessSpec(old(p.State()), ruleSets, emails[..i], now)
    {
      ProcessSpecStep(old(p.State()), ruleSets, emails, i, now);
      HandleEmail(p, emails[i], ruleSets, now);
    }
    assert emails[..|emails|] == emails;
  }

  /** One pass of the `for email in emails` loop: the rule sets are tried in
      order and the first that matches has its actions applied. */
  method HandleEmail(p: Provider, email: EmailRecord, ruleSets: seq<RuleSet>, now: DateTime)
    requires now.Valid()
    modifies p
    ensures p.State() == ProcessEmail(old(p.State()), email, ruleSets, now)
  {
    var appliedAnyRule := false;
    var j := 0;
    while j < |ruleSets|
      invariant 0 <= j <= |ruleSets|
      invariant forall k :: 0 <= k < j ==> !RuleSetMatches(email, ruleSets[k], now)
      invariant p.State() == old(p.State()) && !appliedAnyRule
    {
      var matched := EvaluateRules(email, ruleSets[j], now);
      if matched {
        FirstMatchAt(email, ruleSets, j, now);
        ApplyActions(p, email.gmailId, ruleSets[j].actions.GetOr([]));
        appliedAnyRule := true;
        break;
      }
      j := j + 1;
    }
    if !appliedAnyRule {
      NoMatchNoCalls(old(p.State()), email, ruleSets, now);
    }
  }

  lemma ProcessSpecStep(m: Mailbox, ruleSets: seq<RuleSet>, emails: seq<EmailRecord>, i: nat, now: DateTime)
    requires now.Valid() && i < |emails|
    ensures ProcessSpec(m, ruleSets, emails[..i + 1], now) == ProcessEmail(ProcessSpec(m, ruleSets, emails[..i], now), emails[i], ruleSets, now)
  {
    assert emails[..i + 1][..i] == emails[..i];
  }

  /** The rule set at `j` is the first the email matches. */
  lemma FirstMatchAt(email: EmailRecord, ruleSets: seq<RuleSet>, j: nat, now: DateTime)
    requires now.Valid() && j < |ruleSets| && RuleSetMatches(email, ruleSets[j], now)
    requires forall k :: 0 <= k < j ==> !RuleSetMatches(email, ruleSets[k], now)
    ensures FirstMatch(email, ruleSets, now) == Some(j)
  {
    var r := FirstMatch(email, ruleSets, now);
    assert r.Some?;
    assert !(r.value < j) && !(j < r.value);
  }

  /** An email that matches no rule set causes no call. */
  lemma NoMatchNoCalls(m: Mailbox, email: EmailRecord, ruleSets: seq<RuleSet>, now: DateTime)
    requires now.Valid()
    requires forall j :: 0 <= j < |ruleSets| ==> !RuleSetMatches(email, ruleSets[j], now)
    ensures ProcessEmail(m, email, ruleSets, now) == m
  {
  }

  /** Only the first matching rule set acts, and the rule sets after it are
      never consulted. */
  lemma FirstMatchOnly(m: Mailbox, email: EmailRecord, ruleSets: seq<RuleSet>, k: nat, later: seq<RuleSet>, now: DateTime)
    requires now.Valid() && k < |ruleSets|
    requires RuleSetMatches(email, ruleSets[k], now)
    requires forall j :: 0 <= j < k ==> !RuleSetMatches(email, ruleSets[j], now)
    ensures ProcessEmail(m, email, ruleSets, now) == ApplySpec(m, email.gmailId, ruleSets[k].actions.GetOr([]))
    ensures ProcessEmail(m, email, ruleSets[..k + 1] + later, now) == ProcessEmail(m, email, ruleSets, now)
  {
    var rs := ruleSets[..k + 1] + later;
    assert forall j :: 0 <= j <= k ==> rs[j] == ruleSets[j];
    FirstMatchAt(email, ruleSets, k, now);
    FirstMatchAt(email, rs, k, now);
  }

  /** The integration test: a sender rule with predicate 'All' marks the
      stored message as read, with one `modify` call. */
  lemma IntegrationMarkAsRead(now: DateTime)
    requires now.Valid()
    ensures var rules := [RuleSet(Some("All"), [Rule("sender", "contains", "test@domain.com")], Some(["mark_as_read"]))];
      var email := EmailRecord("1", "test@domain.com", "b@c.com", "Integration Test", "body", "26/06/2024 16:00:00");
      ProcessSpec(Mailbox([], [], 0, {}), rules, [email], now).calls == [MessagesModify("1", [], ["UNREAD"])]
  {
    var rules := [RuleSet(Some("All"), [Rule("sender", "contains", "test@domain.com")], Some(["mark_as_read"]))];
    var email := EmailRecord("1", "test@domain.com", "b@c.com", "Integration Test", "body", "26/06/2024 16:00:00");
    var m := Mailbox([], [], 0, {});
    assert Lower("sender") == "sender" && Lower("contains") == "contains" && Lower("All") == "all";
    assert OccursAt(Lower("test@domain.com"), Lower("test@domain.com"), 0);
    assert RuleHolds(email, rules[0].rules[0], now);
    assert RuleSetMatches(email, rules[0], now);
    assert FirstMatch(email, rules, now) == Some(0);
    assert Lower("mark_as_read") == "mark_as_read";
    assert ["mark_as_read"][..0] == [];
    assert [email][..0] == [];
  }
}
