/** Ingestion: each message the Gmail API lists is fetched, its headers, body
    and date are normalised, and the result is stored in the `Emails` table
    keyed by the Gmail id. The Gmail client becomes the sequence of responses
    it gave and the table a map from id to record. */
module FetchEmails {
  import opened Wrappers
  import opened Text
  import opened Calendar
  import opened DateFormat
  import Base64Url
  import Utf8

  // ----- Dates -------------------------------------------------------------

  /** `date_str[:25]`. */
  function HeaderPrefix(s: string): (p: string)
    ensures |p| == if |s| < 25 then |s| else 25
    ensures p == s[..|p|]
  {
    if |s| <= 25 then s else s[..25]
  }

  /** `format_email_date(date_str)`: the first 25 characters read as
      '%a, %d %b %Y %H:%M:%S', shifted by 5 hours 30 minutes and written as
      '%d/%m/%Y %H:%M:%S'; the input itself when parsing or the shift fails. */
  function FormatEmailDate(s: string): string {
    match ParseHeaderDate(HeaderPrefix(s))
    case None => s
    case Some(dt) =>
      match AddIstOffset(dt)
      case None => s
      case Some(ist) => FormatStored(ist)
  }

  /** On success the stored date reads back, in the format the date conditions
      use, as the header's time 330 minutes later, with every calendar carry. */
  lemma FormatEmailDateShifts(s: string, dt: DateTime)
    requires ParseHeaderDate(HeaderPrefix(s)) == Some(dt)
    requires Instant(dt) + IST_OFFSET_MICROS < END_OF_TIME
    ensures var r := ParseStored(FormatEmailDate(s));
      r.Some? && Instant(r.value) == Instant(dt) + IST_OFFSET_MICROS
  {
    var ist := AddIstOffset(dt).value;
    StoredRoundTrip(ist);
  }

  /** The input comes back unchanged exactly when its prefix does not parse or
      the shifted time is past the end of year 9999. */
  lemma FormatEmailDateUnchanged(s: string)
    ensures FormatEmailDate(s) == s <==>
      match ParseHeaderDate(HeaderPrefix(s))
      case None => true
      case Some(dt) => Instant(dt) + IST_OFFSET_MICROS >= END_OF_TIME
  {
    var p := HeaderPrefix(s);
    var parsed := ParseHeaderDate(p);
    if parsed.Some? && AddIstOffset(parsed.value).Some? {
      var ist := AddIstOffset(parsed.value).value;
      HeaderDateStartsWithName(p);
      FormatStoredLayout(ist);
      assert FormatEmailDate(s)[0] != s[0];
    }
  }

  /** Only the first 25 characters matter: what follows them (the time zone
      of an RFC 2822 date) never changes a converted date. */
  lemma FormatEmailDateIgnoresTail(s: string, t: string)
    requires |s| >= 25
    ensures FormatEmailDate(s + t) == if FormatEmailDate(s) == s then s + t else FormatEmailDate(s)
  {
    assert HeaderPrefix(s + t) == HeaderPrefix(s);
    FormatEmailDateUnchanged(s);
  }

  /** The unit test's header date, 'Wed, 26 Jun 2024 10:30:00 +0000'. */
  lemma FormatEmailDateExample()
    ensures FormatEmailDate("Wed, 26 Jun 2024 10:30:00 +0000") == "26/06/2024 16:00:00"
  {
    assert HeaderPrefix("Wed, 26 Jun 2024 10:30:00 +0000") == TEST_HEADER_DATE;
    TestHeaderDateParses();
    AddIstOffsetExample();
    TestStoredDate();
  }

  /** The unit test's malformed date comes back as it was. */
  lemma FormatEmailDateInvalid()
    ensures FormatEmailDate("invalid-date-string") == "invalid-date-string"
  {
    var p := HeaderPrefix("invalid-date-string");
    assert p[0..3] == "inv" && Lower("inv") == "inv";
    assert FindName("inv", WEEKDAYS, 0) == None;
  }

  /** A single-digit day makes the date one character shorter, so the 25
      characters end in the space before the time zone; `strptime` refuses
      the leftover space and the raw header is stored. */
  lemma FormatEmailDateSingleDigitDay()
    ensures FormatEmailDate("Wed, 5 Jun 2024 10:30:00 +0000") == "Wed, 5 Jun 2024 10:30:00 +0000"
  {
    assert HeaderPrefix("Wed, 5 Jun 2024 10:30:00 +0000") == SHORT_DAY_DATE;
    ShortDayDateRefused();
  }

  // ----- Message bodies ----------------------------------------------------

  /** A `body` object: its `data` key, when present. */
  datatype Body = Body(data: Option<string>)

  /** An element of `parts`; `None` for a missing `mimeType` or `body` key. */
  datatype Part = Part(mimeType: Option<string>, body: Option<Body>)

  /** An element of `headers`; `None` for a missing `name` or `value` key. */
  datatype Header = Header(name: Option<string>, value: Option<string>)

  /** A message's `payload`. A missing `headers` or `parts` key is the empty
      list, a missing `body` key is `None`, and a missing `payload` is
      `Payload([], None, [])`. */
  datatype Payload = Payload(headers: seq<Header>, body: Option<Body>, parts: seq<Part>)

  /** `base64.urlsafe_b64decode(data).decode('utf-8', errors='ignore')`;
      `None` when the base64 decoder raises. */
  function DecodeData(data: string): Option<string> {
    match Base64Url.Decode(data)
    case None => None
    case Some(b) => Some(Utf8.DecodeIgnore(b))
  }

  /** The part holds text/plain data, so the search takes it. */
  predicate Candidate(p: Part) {
    p.mimeType == Some("text/plain") && p.body.Some? && p.body.value.data.Some?
  }

  /** The search passes over the part without raising. */
  predicate Skipped(p: Part) {
    p.mimeType.Some? && (p.mimeType.value != "text/plain" || (p.body.Some? && p.body.value.data.None?))
  }

  /** Reading the part raises `KeyError`, which ends the extraction. */
  predicate Malformed(p: Part) {
    p.mimeType.None? || (p.mimeType.value == "text/plain" && p.body.None?)
  }

  /** Part `k` is the first the search takes. */
  predicate FirstCandidate(parts: seq<Part>, k: nat) {
    k < |parts| && Candidate(parts[k]) && forall j :: 0 <= j < k ==> Skipped(parts[j])
  }

  /** The `for part in parts` search of `extract_message_body`; `''` for no
      candidate, a `KeyError` or a decoding error. A non-empty text is the
      decoded data of the first candidate. */
  function FromParts(parts: seq<Part>): (r: string)
    ensures r != "" ==> exists k: nat :: FirstCandidate(parts, k) && DecodeData(parts[k].body.value.data.value) == Some(r)
  {
    if parts == [] then ""
    else
      var p := parts[0];
      if p.mimeType.None? then ""
      else if p.mimeType.value != "text/plain" then
        var r := FromParts(parts[1..]);
        PassOver(parts, r);
        r
      else if p.body.None? then ""
      else if p.body.value.data.Some? then
        var r := DecodeData(p.body.value.data.value).GetOr("");
        assert r != "" ==> FirstCandidate(parts, 0);
        r
      else
        var r := FromParts(parts[1..]);
        PassOver(parts, r);
        r
  }

  /** A text found in `parts[1..]` after passing over `parts[0]` comes from
      the first candidate of `parts`. */
  lemma PassOver(parts: seq<Part>, r: string)
    requires parts != [] && Skipped(parts[0])
    requires r != "" ==> exists k: nat :: FirstCandidate(parts[1..], k) && DecodeData(parts[1..][k].body.value.data.value) == Some(r)
    ensures r != "" ==> exists k: nat :: FirstCandidate(parts, k) && DecodeData(parts[k].body.value.data.value) == Some(r)
  {
    if r != "" {
      var k: nat :| FirstCandidate(parts[1..], k) && DecodeData(parts[1..][k].body.value.data.value) == Some(r);
      assert FirstCandidate(parts, k + 1);
    }
  }

  /** `extract_message_body(payload)`: top-level data wins, then the parts. */
  function ExtractMessageBody(p: Payload): string {
    if p.body.Some? && p.body.value.data.Some? then DecodeData(p.body.value.data.value).GetOr("")
    else FromParts(p.parts)
  }

  /** With top-level data the parts are never looked at. */
  lemma TopLevelBodyWins(p: Payload, parts: seq<Part>)
    requires p.body.Some? && p.body.value.data.Some?
    ensures ExtractMessageBody(p) == ExtractMessageBody(p.(parts := parts))
    ensures ExtractMessageBody(p) == DecodeData(p.body.value.data.value).GetOr("")
  {
  }

  /** The first candidate is decoded and the later parts are ignored. */
  lemma {:induction false} FromPartsTakesFirst(parts: seq<Part>, k: nat)
    requires FirstCandidate(parts, k)
    ensures FromParts(parts) == DecodeData(parts[k].body.value.data.value).GetOr("")
  {
    if k > 0 {
      assert FirstCandidate(parts[1..], k - 1);
      FromPartsTakesFirst(parts[1..], k - 1);
    }
  }

  /** Without a candidate (and without a malformed part) the result is ''. */
  lemma {:induction false} FromPartsNoCandidate(parts: seq<Part>)
    requires forall j :: 0 <= j < |parts| ==> Skipped(parts[j])
    ensures FromParts(parts) == ""
  {
    if parts != [] {
      FromPartsNoCandidate(parts[1..]);
    }
  }

  /** A `KeyError` on a part before any candidate ends the search with ''. */
  lemma {:induction false} FromPartsMalformed(parts: seq<Part>, k: nat)
    requires k < |parts| && Malformed(parts[k])
    requires forall j :: 0 <= j < k ==> Skipped(parts[j])
    ensures FromParts(parts) == ""
  {
    if k > 0 {
      FromPartsMalformed(parts[1..], k - 1);
    }
  }

  /** ASCII text, base64url-encoded, comes back as the body, both as top-level
      data and as a text/plain part. */
  lemma EncodedTextExtracted(text: string, headers: seq<Header>, parts: seq<Part>)
    requires IsAscii(text)
    ensures var data := Some(Base64Url.Encode(AsciiBytes(text)));
      && ExtractMessageBody(Payload(headers, Some(Body(data)), parts)) == text
      && ExtractMessageBody(Payload(headers, None, [Part(Some("text/plain"), Some(Body(data)))] + parts)) == text
  {
    Base64Url.DecodeEncode(AsciiBytes(text));
    Utf8.DecodeAscii(text);
    var data := Some(Base64Url.Encode(AsciiBytes(text)));
    assert FirstCandidate([Part(Some("text/plain"), Some(Body(data)))] + parts, 0);
  }

  /** The unit test with b'hello' as the top-level body. */
  lemma HelloBody()
    ensures ExtractMessageBody(Payload([], Some(Body(Some(Base64Url.Encode(AsciiBytes("hello"))))), [])) == "hello"
  {
    EncodedTextExtracted("hello", [], []);
  }

  /** The unit test with b'world' in a text/plain part. */
  lemma WorldPart()
    ensures ExtractMessageBody(Payload([], None, [Part(Some("text/plain"), Some(Body(Some(Base64Url.Encode(AsciiBytes("world"))))))])) == "world"
  {
    var part := Part(Some("text/plain"), Some(Body(Some(Base64Url.Encode(AsciiBytes("world"))))));
    EncodedTextExtracted("world", [], []);
    assert [part] + [] == [part];
  }

  // ----- Headers -----------------------------------------------------------

  /** The header names the loop looks for, compared exactly. */
  const WANTED: set<string> := {"Subject", "From", "To", "Date"}

  /** Reading the header does not raise: it has a name, and a value when
      the name is one the loop looks for. */
  predicate Readable(h: Header) {
    h.name.Some? && (h.name.value in WANTED ==> h.value.Some?)
  }

  predicate HeadersReadable(hs: seq<Header>) {
    forall i :: 0 <= i < |hs| ==> Readable(hs[i])
  }

  /** The value of the last header named exactly `name`; '' when there is
      none. */
  function LastValue(hs: seq<Header>, name: string): string {
    if hs == [] then ""
    else
      var h := hs[|hs| - 1];
      if h.name == Some(name) && h.value.Some? then h.value.value
      else LastValue(hs[..|hs| - 1], name)
  }

  /** The four header fields a record keeps. */
  datatype HeaderFields = HeaderFields(subject: string, sender: string, recipient: string, date: string)

  /** The `for header in headers` loop: every header overwrites the field it
      names. `None` when a header lacks a key the loop reads, which makes the
      whole message fail. */
  method ReadHeaders(headers: seq<Header>) returns (r: Option<HeaderFields>)
    ensures r.Some? <==> HeadersReadable(headers)
    ensures r.Some? ==> r.value == HeaderFields(LastValue(headers, "Subject"), LastValue(headers, "From"),
                                                LastValue(headers, "To"), LastValue(headers, "Date"))
  {
    var subject, sender, recipient, date := "", "", "", "";
    var i := 0;
    while i < |headers|
      invariant 0 <= i <= |headers|
      invariant HeadersReadable(headers[..i])
      invariant subject == LastValue(headers[..i], "Subject")
      invariant sender == LastValue(headers[..i], "From")
      invariant recipient == LastValue(headers[..i], "To")
      invariant date == LastValue(headers[..i], "Date")
    {
      var h := headers[i];
      if h.name.None? {
        assert !Readable(headers[i]);
        return None;
      }
      var name := h.name.value;
      if name in WANTED && h.value.None? {
        assert !Readable(headers[i]);
        return None;
      }
      if name == "Subject" {
        subject := h.value.value;
      } else if name == "From" {
        sender := h.value.value;
      } else if name == "To" {
        recipient := h.value.value;
      } else if name == "Date" {
        date := h.value.value;
      }
      assert headers[..i + 1][..i] == headers[..i];
      i := i + 1;
    }
    assert headers[..i] == headers;
    r := Some(HeaderFields(subject, sender, recipient, date));
  }

  /** The value kept is that of the last header with the name. */
  lemma {:induction false} LastValueIsLast(hs: seq<Header>, name: string, k: nat)
    requires k < |hs| && hs[k].name == Some(name) && hs[k].value.Some?
    requires forall j :: k < j < |hs| ==> hs[j].name != Some(name)
    ensures LastValue(hs, name) == hs[k].value.value
  {
    if k < |hs| - 1 {
      LastValueIsLast(hs[..|hs| - 1], name, k);
    }
  }

  /** Without a header of that exact name the field stays ''. */
  lemma {:induction false} LastValueMissing(hs: seq<Header>, name: string)
    requires forall j :: 0 <= j < |hs| ==> hs[j].name != Some(name)
    ensures LastValue(hs, name) == ""
  {
    if hs != [] {
      LastValueMissing(hs[..|hs| - 1], name);
    }
  }

  /** Names are compared with their case: 'subject' is not 'Subject'. */
  lemma HeaderNamesAreExact()
    ensures LastValue([Header(Some("subject"), Some("Hi"))], "Subject") == ""
    ensures LastValue([Header(Some("Subject"), Some("A")), Header(Some("Subject"), Some("B"))], "Subject") == "B"
  {
    var hs := [Header(Some("Subject"), Some("A")), Header(Some("Subject"), Some("B"))];
    assert hs[..1] == [Header(Some("Subject"), Some("A"))];
  }

  // ----- Records and the table ---------------------------------------------

  /** A row of the `Emails` table. */
  datatype EmailRecord = EmailRecord(gmailId: string, sender: string, recipient: string,
                                     subject: string, message: string, date: string)

  /** A listed message and what `messages().get` answered for it; `None` when
      the call raised. */
  datatype Fetched = Fetched(id: string, response: Option<Payload>)

  /** The row the loop writes for a message, or `None` when processing it
      raises and it is skipped. */
  function MessageRecord(f: Fetched): (r: Option<EmailRecord>)
    ensures r.Some? ==> r.value.gmailId == f.id
    ensures r.Some? <==> f.response.Some? && HeadersReadable(f.response.value.headers)
  {
    match f.response
    case None => None
    case Some(p) =>
      if HeadersReadable(p.headers) then
        Some(EmailRecord(f.id, LastValue(p.headers, "From"), LastValue(p.headers, "To"),
                         LastValue(p.headers, "Subject"), ExtractMessageBody(p),
                         FormatEmailDate(LastValue(p.headers, "Date"))))
      else None
  }

  /** Every row is stored under its own id, the table's primary key. */
  predicate KeyedRows(rows: map<string, EmailRecord>) {
    forall id :: id in rows ==> rows[id].gmailId == id
  }

  /** What the loop makes of each message in turn: its row, or `None` when
      it is skipped. */
  function Records(fs: seq<Fetched>): (rs: seq<Option<EmailRecord>>)
    ensures |rs| == |fs|
    ensures forall k :: 0 <= k < |fs| ==> rs[k] == MessageRecord(fs[k])
  {
    if fs == [] then [] else Records(fs[..|fs| - 1]) + [MessageRecord(fs[|fs| - 1])]
  }

  /** The table after `INSERT OR REPLACE` of each row in turn; a skipped
      message writes nothing. */
  function Upsert(rows: map<string, EmailRecord>, rs: seq<Option<EmailRecord>>): (r: map<string, EmailRecord>)
    ensures KeyedRows(rows) ==> KeyedRows(r)
  {
    if rs == [] then rows
    else
      var before := Upsert(rows, rs[..|rs| - 1]);
      match rs[|rs| - 1]
      case None => before
      case Some(rec) => before[rec.gmailId := rec]
  }

  /** The table a run leaves: emptied first, then filled from the messages. */
  function Refresh(fs: seq<Fetched>): map<string, EmailRecord> {
    Upsert(map[], Records(fs))
  }

  /** Upserting one more row is one more `INSERT OR REPLACE`. */
  lemma UpsertSnoc(rows: map<string, EmailRecord>, rs: seq<Option<EmailRecord>>, x: Option<EmailRecord>)
    ensures Upsert(rows, rs + [x]) == match x case None => Upsert(rows, rs) case Some(rec) => Upsert(rows, rs)[rec.gmailId := rec]
  {
    assert (rs + [x])[..|rs|] == rs;
  }

  /** The table holds a row for an id exactly when some row with that id was
      written. */
  lemma {:induction false} UpsertDomain(rows: map<string, EmailRecord>, rs: seq<Option<EmailRecord>>, id: string)
    ensures id in Upsert(rows, rs) <==>
      id in rows || exists k :: 0 <= k < |rs| && rs[k].Some? && rs[k].value.gmailId == id
  {
    if rs != [] {
      var init := rs[..|rs| - 1];
      UpsertDomain(rows, init, id);
      assert forall k :: 0 <= k < |init| ==> init[k] == rs[k];
      if exists k :: 0 <= k < |rs| && rs[k].Some? && rs[k].value.gmailId == id {
        var k :| 0 <= k < |rs| && rs[k].Some? && rs[k].value.gmailId == id;
        if k < |rs| - 1 {
          assert init[k].Some? && init[k].value.gmailId == id;
        }
      }
    }
  }

  /** The table holds a row for an id exactly when some message with that id
      was processed without raising. */
  lemma RefreshDomain(fs: seq<Fetched>, id: string)
    ensures id in Refresh(fs) <==> exists k :: 0 <= k < |fs| && fs[k].id == id && MessageRecord(fs[k]).Some?
  {
    var rs := Records(fs);
    UpsertDomain(map[], rs, id);
    if exists k :: 0 <= k < |fs| && fs[k].id == id && MessageRecord(fs[k]).Some? {
      var k :| 0 <= k < |fs| && fs[k].id == id && MessageRecord(fs[k]).Some?;
      assert rs[k].Some? && rs[k].value.gmailId == id;
    }
    if exists k :: 0 <= k < |rs| && rs[k].Some? && rs[k].value.gmailId == id {
      var k :| 0 <= k < |rs| && rs[k].Some? && rs[k].value.gmailId == id;
      assert fs[k].id == id && MessageRecord(fs[k]).Some?;
    }
  }

  /** A row that no later row with the same id replaces is the one kept. */
  lemma {:induction false} UpsertLastWins(rows: map<string, EmailRecord>, rs: seq<Option<EmailRecord>>, k: nat)
    requires k < |rs| && rs[k].Some?
    requires forall j :: k < j < |rs| && rs[j].Some? ==> rs[j].value.gmailId != rs[k].value.gmailId
    ensures rs[k].value.gmailId in Upsert(rows, rs) && Upsert(rows, rs)[rs[k].value.gmailId] == rs[k].value
  {
    var init := rs[..|rs| - 1];
    if k < |rs| - 1 {
      assert init[k] == rs[k];
      assert forall j :: k < j < |init| ==> init[j] == rs[j];
      UpsertLastWins(rows, init, k);
    }
  }

  /** A message's row holds the values of its last successful occurrence. */
  lemma RefreshLastWins(fs: seq<Fetched>, k: nat)
    requires k < |fs| && MessageRecord(fs[k]).Some?
    requires forall j :: k < j < |fs| && fs[j].id == fs[k].id ==> MessageRecord(fs[j]).None?
    ensures fs[k].id in Refresh(fs) && Refresh(fs)[fs[k].id] == MessageRecord(fs[k]).value
  {
    var rs := Records(fs);
    forall j | k < j < |rs| && rs[j].Some?
      ensures rs[j].value.gmailId != rs[k].value.gmailId
    {
      assert MessageRecord(fs[j]).Some?;
    }
    UpsertLastWins(map[], rs, k);
  }

  /** A skipped row changes nothing: the table is what it would be had the
      row never been there. */
  lemma {:induction false} UpsertSkipsNone(rows: map<string, EmailRecord>, xs: seq<Option<EmailRecord>>, ys: seq<Option<EmailRecord>>)
    ensures Upsert(rows, xs + [None] + ys) == Upsert(rows, xs + ys)
  {
    if ys == [] {
      assert xs + [None] + ys == xs + [None] && xs + ys == xs;
      UpsertSnoc(rows, xs, None);
    } else {
      var init := ys[..|ys| - 1];
      var last := ys[|ys| - 1];
      UpsertSkipsNone(rows, xs, init);
      assert xs + [None] + ys == (xs + [None] + init) + [last];
      assert xs + ys == (xs + init) + [last];
      UpsertSnoc(rows, xs + [None] + init, last);
      UpsertSnoc(rows, xs + init, last);
    }
  }

  /** A message whose processing raises changes nothing: the table is what it
      would be had the message never been listed. */
  lemma RefreshSkipsFailure(fs: seq<Fetched>, f: Fetched, gs: seq<Fetched>)
    requires MessageRecord(f).None?
    ensures Refresh(fs + [f] + gs) == Refresh(fs + gs)
  {
    RecordsConcat(fs + [f], gs);
    RecordsConcat(fs, [f]);
    RecordsConcat(fs, gs);
    assert Records([f]) == [None];
    UpsertSkipsNone(map[], Records(fs), Records(gs));
  }

  /** The rows of two listings one after the other. */
  lemma RecordsConcat(xs: seq<Fetched>, ys: seq<Fetched>)
    ensures Records(xs + ys) == Records(xs) + Records(ys)
  {
    var a, b := Records(xs + ys), Records(xs) + Records(ys);
    forall k | 0 <= k < |a|
      ensures a[k] == b[k]
    {
      if k < |xs| {
        assert (xs + ys)[k] == xs[k];
      } else {
        assert (xs + ys)[k] == ys[k - |xs|];
      }
    }
  }

  /** The `Emails` table, mutated in place by `setup_database` and by the
      ingestion loop. */
  class Store {
    var rows: map<string, EmailRecord>

    predicate Keyed()
      reads this
    {
      KeyedRows(rows)
    }

    constructor ()
      ensures rows == map[] && Keyed()
    {
      rows := map[];
    }

    /** `DELETE FROM Emails` of `setup_database`. */
    method Clear()
      modifies this
      ensures rows == map[] && Keyed()
    {
      rows := map[];
    }

    /** `INSERT OR REPLACE` keyed by `gmail_id`. */
    method InsertOrReplace(r: EmailRecord)
      modifies this
      ensures rows == old(rows)[r.gmailId := r]
      ensures old(Keyed()) ==> Keyed()
    {
      rows := rows[r.gmailId := r];
    }
  }

  /** `fetch_emails`: the table is cleared, the listing is taken, and each
      message's row is upserted; a message that raises is skipped. `listing`
      is `None` when the `list` call raised: the run then fails after the
      table was already emptied. */
  method FetchEmails(store: Store, listing: Option<seq<Fetched>>) returns (ok: bool)
    modifies store
    ensures ok == listing.Some?
    ensures store.rows == if listing.Some? then Refresh(listing.value) else map[]
    ensures store.Keyed()
  {
    store.Clear();
    if listing.None? {
      return false;
    }
    var messages := listing.value;
    var i := 0;
    while i < |messages|
      invariant 0 <= i <= |messages|
      invariant store.rows == Refresh(messages[..i])
      invariant store.Keyed()
    {
      var msg := messages[i];
      assert messages[..i + 1][..i] == messages[..i];
      UpsertSnoc(map[], Records(messages[..i]), MessageRecord(msg));
      if msg.response.Some? {
        var payload := msg.response.value;
        var message := ExtractMessageBody(payload);
        var fields := ReadHeaders(payload.headers);
        if fields.Some? {
          var h := fields.value;
          var formattedDate := FormatEmailDate(h.date);
          store.InsertOrReplace(EmailRecord(msg.id, h.sender, h.recipient, h.subject, message, formattedDate));
        }
      }
      i := i + 1;
    }
    assert messages[..i] == messages;
    return true;
  }

  /** The headers of the integration test's message. */
  const INTEGRATION_HEADERS := [Header(Some("Subject"), Some("Integration Test")), Header(Some("From"), Some("test@domain.com")),
                                Header(Some("To"), Some("b@c.com")), Header(Some("Date"), Some("Wed, 26 Jun 2024 10:30:00 +0000"))]

  lemma IntegrationHeaders()
    ensures HeadersReadable(INTEGRATION_HEADERS)
    ensures LastValue(INTEGRATION_HEADERS, "Subject") == "Integration Test"
    ensures LastValue(INTEGRATION_HEADERS, "From") == "test@domain.com"
    ensures LastValue(INTEGRATION_HEADERS, "To") == "b@c.com"
    ensures LastValue(INTEGRATION_HEADERS, "Date") == "Wed, 26 Jun 2024 10:30:00 +0000"
  {
    var hs := INTEGRATION_HEADERS;
    LastValueIsLast(hs, "Subject", 0);
    LastValueIsLast(hs, "From", 1);
    LastValueIsLast(hs, "To", 2);
    LastValueIsLast(hs, "Date", 3);
  }

  /** 'Ym9keQ==' is the encoding of b'body'. */
  lemma IntegrationBody(headers: seq<Header>)
    ensures ExtractMessageBody(Payload(headers, Some(Body(Some("Ym9keQ=="))), [])) == "body"
  {
    BodyEncoding();
    EncodedTextExtracted("body", headers, []);
  }

  /** `urlsafe_b64encode(b'body')` is 'Ym9keQ=='. */
  lemma BodyEncoding()
    ensures Base64Url.Encode(AsciiBytes("body")) == "Ym9keQ=="
  {
    var b := AsciiBytes("body");
    assert b == [98, 111, 100, 121];
    assert b[3..] == [121];
    assert Base64Url.Group(98, 111, 100) == "Ym9k";
    assert Base64Url.Encode([121]) == "eQ==";
  }

  /** A single message processed without raising gives a one-row table. */
  lemma RefreshOne(f: Fetched, rec: EmailRecord)
    requires MessageRecord(f) == Some(rec)
    ensures Refresh([f]) == map[f.id := rec]
  {
    assert Records([f]) == [] + [Some(rec)];
    UpsertSnoc(map[], [], Some(rec));
  }

  /** The integration test: one listed message yields one row, whose sender
      is 'test@domain.com' and whose date and body are normalised. */
  lemma IntegrationOneRow()
    ensures Refresh([Fetched("1", Some(Payload(INTEGRATION_HEADERS, Some(Body(Some("Ym9keQ=="))), [])))])
      == map["1" := EmailRecord("1", "test@domain.com", "b@c.com", "Integration Test", "body", "26/06/2024 16:00:00")]
  {
    var payload := Payload(INTEGRATION_HEADERS, Some(Body(Some("Ym9keQ=="))), []);
    IntegrationHeaders();
    IntegrationBody(INTEGRATION_HEADERS);
    FormatEmailDateExample();
    RefreshOne(Fetched("1", Some(payload)), EmailRecord("1", "test@domain.com", "b@c.com", "Integration Test", "body", "26/06/2024 16:00:00"));
  }
}
