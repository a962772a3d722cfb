/**
 * The `sendMail` and `getHistory` handlers of the server's mail controller:
 * recipient resolution (typed recipients plus an optional spreadsheet),
 * validation, the outgoing message, and the one history record each send
 * writes.
 */
module MailController {
  import opened Wrappers
  import opened Text
  import opened Address
  import opened Sheet
  import opened History
  import opened Mail

  /** The separators of typed recipients, `/[\s,]+/`. */
  predicate IsRecipientSeparator(c: char) {
    IsSpace(c) || c == ','
  }

  /** The typed recipients: an array field is joined with `,` first; the text
      is cut at whitespace and commas and empty tokens dropped. No address
      check is made. */
  function ManualRecipients(field: FormField): (r: seq<string>)
    ensures forall k | 0 <= k < |r| :: r[k] != "" && Free(r[k], IsRecipientSeparator)
  {
    match field
    case Absent => []
    case Single(s) => if s == "" then [] else Pieces(s, IsRecipientSeparator)
    case Repeated(xs) => Pieces(Join(xs, ","), IsRecipientSeparator)
  }

  /** No token holds whitespace or a comma. */
  lemma ManualTokensClean(field: FormField, k: nat)
    requires k < |ManualRecipients(field)|
    ensures forall i | 0 <= i < |ManualRecipients(field)[k]| ::
      !IsSpace(ManualRecipients(field)[k][i]) && ManualRecipients(field)[k][i] != ','
  {
    var t := ManualRecipients(field)[k];
    assert Free(t, IsRecipientSeparator);
  }

  /** Sending a value once is the same as sending it as a one-element array,
      and the tokens of several values are the tokens of each in turn. */
  lemma {:induction false} RepeatedValuesTokenizeApart(xs: seq<string>, ys: seq<string>)
    requires |xs| > 0 && |ys| > 0
    ensures ManualRecipients(Repeated(xs + ys)) == ManualRecipients(Repeated(xs)) + ManualRecipients(Repeated(ys))
  {
    JoinAppend(xs, ys, ",");
    assert Join(xs, ",") + "," + Join(ys, ",") == Join(xs, ",") + [','] + Join(ys, ",");
    PiecesAt(Join(xs, ","), ',', Join(ys, ","), IsRecipientSeparator);
  }

  lemma SingleAsRepeated(s: string)
    ensures ManualRecipients(Repeated([s])) == ManualRecipients(Single(s))
  {
    if s == "" {
      PiecesFree("", IsRecipientSeparator);
      assert Trim("") == "";
    }
  }

  /** Typed tokens are never checked against the address pattern: a token
      with no `@` is kept. */
  lemma ManualTokensUnchecked()
    ensures ManualRecipients(Single("bob")) == ["bob"]
    ensures !IsLooseAddress("bob")
  {
    var s := "bob";
    assert Free(s, IsRecipientSeparator) by {
      forall i | 0 <= i < |s| ensures !IsRecipientSeparator(s[i]) {
        if i == 0 {} else if i == 1 {} else {}
      }
    }
    TrimmedIsFixed(s);
    PiecesFree(s, IsRecipientSeparator);
  }

  const ParseFailurePrefix := "Failed to parse Excel file: "

  /** Recipient resolution. Without a spreadsheet the typed tokens are the
      list, duplicates included. A spreadsheet that fails to decode is an
      error. Otherwise the typed tokens and the spreadsheet's matching cells
      are merged, keeping only first occurrences. */
  function Resolve(field: FormField, excel: Option<Decoding>): (r: Result<seq<string>, string>)
    ensures excel.None? ==> r == Ok(ManualRecipients(field))
    ensures excel.Some? && excel.value.DecodeFailed? ==> r == Err(ParseFailurePrefix + excel.value.message)
    ensures excel.Some? && excel.value.Decoded? ==>
      && r.Ok?
      && Distinct(r.value)
      && forall x {:trigger x in r.value} :: x in r.value <==> x in ManualRecipients(field) || x in Scan(excel.value.rows, LoosePick)
  {
    var manual := ManualRecipients(field);
    match excel
    case None => Ok(manual)
    case Some(DecodeFailed(m)) => Err(ParseFailurePrefix + m)
    case Some(Decoded(rows)) =>
      var merged := manual + Scan(rows, LoosePick);
      DedupIsDistinct(merged);
      Ok(Dedup(merged))
  }

  /** With a spreadsheet, the typed tokens come first, each once, in the order
      they were typed; spreadsheet addresses not already typed follow, each
      once, in sheet order. */
  lemma ResolvedOrder(field: FormField, rows: seq<Row>)
    ensures Resolve(field, Some(Decoded(rows))) ==
      Ok(Dedup(ManualRecipients(field)) + Dedup(Without(Scan(rows, LoosePick), ManualRecipients(field))))
  {
    DedupAppend(ManualRecipients(field), Scan(rows, LoosePick));
  }

  /** When no token is typed twice, the typed list is kept as it is. */
  lemma ResolvedOrderDistinct(field: FormField, rows: seq<Row>)
    requires Distinct(ManualRecipients(field))
    ensures Resolve(field, Some(Decoded(rows))) ==
      Ok(ManualRecipients(field) + Dedup(Without(Scan(rows, LoosePick), ManualRecipients(field))))
  {
    ResolvedOrder(field, rows);
    DedupOfDistinct(ManualRecipients(field));
  }

  /** Without a spreadsheet, a recipient typed twice is sent to twice and
      counted twice. */
  lemma DuplicatesKeptWithoutSpreadsheet()
    ensures Resolve(Single("x x"), None) == Ok(["x", "x"])
  {
    TwoTokens();
  }

  lemma TwoTokens()
    ensures Pieces("x x", IsRecipientSeparator) == ["x", "x"]
  {
    OneToken();
    assert "x x" == "x" + [' '] + "x";
    PiecesAt("x", ' ', "x", IsRecipientSeparator);
  }

  lemma OneToken()
    ensures Pieces("x", IsRecipientSeparator) == ["x"]
  {
    var x := "x";
    assert Free(x, IsRecipientSeparator);
    TrimmedIsFixed(x);
    PiecesFree(x, IsRecipientSeparator);
  }

  /** The recipient-resolution steps as the handler runs them: a list that is
      reassigned and pushed onto, and an early return on a decoding error. */
  method ResolveRecipients(field: FormField, excel: Option<Decoding>) returns (r: Result<seq<string>, string>)
    ensures r == Resolve(field, excel)
  {
    var recipients := ManualRecipients(field);
    if excel.Some? {
      match excel.value {
        case DecodeFailed(message) =>
          return Err(ParseFailurePrefix + message);
        case Decoded(rows) =>
          recipients := ScanInto(recipients, rows, LoosePick);
          recipients := Dedup(recipients);
      }
    }
    return Ok(recipients);
  }

  predicate IsNewline(c: char) {
    c == '\n'
  }

  /** `body.replace(/\n/g, '<br>')`. */
  function NewlinesToBreaks(s: string): (r: string)
    ensures forall i | 0 <= i < |r| :: r[i] != '\n'
    ensures (forall i | 0 <= i < |s| :: s[i] != '\n') ==> r == s
  {
    if |s| == 0 then ""
    else (if s[0] == '\n' then "<br>" else [s[0]]) + NewlinesToBreaks(s[1..])
  }

  /** Replacing every newline is splitting at newlines and joining the lines
      with `<br>`. */
  lemma {:induction false} BreaksJoinLines(s: string)
    ensures NewlinesToBreaks(s) == Join(Split(s, IsNewline), "<br>")
  {
    if |s| > 0 {
      var rest := Split(s[1..], IsNewline);
      BreaksJoinLines(s[1..]);
      if s[0] == '\n' {
        JoinCons("", rest, "<br>");
      } else if |rest| == 1 {
      } else {
        JoinCons([s[0]] + rest[0], rest[1..], "<br>");
        JoinCons(rest[0], rest[1..], "<br>");
        assert rest == [rest[0]] + rest[1..];
      }
    }
  }

  const HtmlOpen := "<div style=\"font-family: Roboto, Arial, sans-serif; line-height: 1.6; color: #202124;\">"
  const HtmlClose := "</div>"

  /** The message handed to the transport. */
  datatype MailOptions = MailOptions(from: string, to: string, bcc: string, subject: string, text: string, html: string, attachments: seq<MailAttachment>)

  lemma BccRoundTrip(recipients: seq<string>)
    ensures |recipients| > 0 && (forall k | 0 <= k < |recipients| :: Free(recipients[k], IsComma)) ==>
      Split(Join(recipients, ","), IsComma) == recipients
  {
    if |recipients| > 0 && (forall k | 0 <= k < |recipients| :: Free(recipients[k], IsComma)) {
      SplitJoin(recipients, ',', IsComma);
    }
  }

  /** The message for a resolved recipient list: sent to the sender's own
      address, with the recipients blind-copied as one comma-joined list, the
      body as plain text and as HTML with line breaks. */
  function ComposeMail(sender: string, recipients: seq<string>, subject: string, body: string, files: seq<UploadedFile>): (m: MailOptions)
    ensures m.from == sender && m.to == sender && m.subject == subject && m.text == body
    ensures m.html == HtmlOpen + NewlinesToBreaks(body) + HtmlClose
    ensures m.attachments == ToAttachments(files)
    ensures |recipients| > 0 && (forall k | 0 <= k < |recipients| :: Free(recipients[k], IsComma)) ==>
      Split(m.bcc, IsComma) == recipients
  {
    BccRoundTrip(recipients);
    MailOptions(sender, sender, Join(recipients, ","), subject, body, HtmlOpen + NewlinesToBreaks(body) + HtmlClose, ToAttachments(files))
  }

  /** `'success'` and `'failed'`, the two values a history record's status
      may take. */
  datatype HistoryStatus = Succeeded | Failed

  datatype AttachmentMeta = AttachmentMeta(filename: string, size: nat)

  /** A history record; `errorMessage` is null unless the send failed. */
  datatype HistoryRecord = HistoryRecord(
    subject: string,
    body: string,
    recipients: seq<string>,
    attachments: seq<AttachmentMeta>,
    status: HistoryStatus,
    errorMessage: Option<string>)

  /** One metadata entry per uploaded file, in upload order. */
  function AttachmentMetas(files: seq<UploadedFile>): (r: seq<AttachmentMeta>)
    ensures |r| == |files|
    ensures forall k | 0 <= k < |r| :: r[k].filename == files[k].originalName && r[k].size == files[k].size
  {
    if |files| == 0 then []
    else [AttachmentMeta(files[0].originalName, files[0].size)] + AttachmentMetas(files[1..])
  }

  /** The form the handler reads. Absent text fields are empty strings;
      `excelFile` is the uploaded spreadsheet's decoding, if one was sent. */
  datatype Request = Request(
    subject: string,
    body: string,
    recipients: FormField,
    excelFile: Option<Decoding>,
    attachments: seq<UploadedFile>)

  /** What the outside world does when the handler calls it. */
  datatype Effects = Effects(transport: TransportResult, successSave: SaveResult, failureSave: SaveResult)

  datatype Reply =
    | ErrorReply(error: string)
    | SentReply(recipientCount: nat, accepted: seq<string>, rejected: seq<string>)
    | SendFailedReply(error: string, details: string)

  datatype Response = Response(status: nat, reply: Reply)

  /** The response, the message given to the transport (if it was called),
      and the history records saved. */
  datatype Outcome = Outcome(response: Response, mail: Option<MailOptions>, written: seq<HistoryRecord>)

  const NoRecipientsError := "No valid recipients found. Provide emails or upload a valid Excel file."
  const MissingFieldsError := "Subject and Body are required"
  const SendFailedError := "Failed to send emails"

  /** The failure path: one `failed` record if its save succeeds, none if
      that save throws too, and a 500 carrying the first error's message. */
  function SendFailure(req: Request, recipients: seq<string>, mail: MailOptions, message: string, failureSave: SaveResult): (o: Outcome)
    ensures o.response == Response(500, SendFailedReply(SendFailedError, message)) && o.mail == Some(mail)
    ensures failureSave.Saved? ==>
      o.written == [HistoryRecord(req.subject, req.body, recipients, AttachmentMetas(req.attachments), Failed, Some(message))]
    ensures failureSave.SaveThrew? ==> o.written == []
  {
    var record := HistoryRecord(req.subject, req.body, recipients, AttachmentMetas(req.attachments), Failed, Some(message));
    Outcome(Response(500, SendFailedReply(SendFailedError, message)), Some(mail), if failureSave.Saved? then [record] else [])
  }

  /** The request gets past every check: its recipients resolve to a
      non-empty list, and it has a subject and a body. */
  predicate Passed(req: Request) {
    var resolved := Resolve(req.recipients, req.excelFile);
    resolved.Ok? && resolved.value != [] && req.subject != "" && req.body != ""
  }

  /** The reply is the 500 carrying `message`, and the `failed` record for the
      list is written unless its own save throws. */
  predicate FailedWith(o: Outcome, req: Request, recipients: seq<string>, message: string, failureSave: SaveResult) {
    && o.response == Response(500, SendFailedReply(SendFailedError, message))
    && o.written == (if failureSave.Saved? then [HistoryRecord(req.subject, req.body, recipients, AttachmentMetas(req.attachments), Failed, Some(message))] else [])
  }

  /** `sendMail`, as a function of the request and of what the transport and
      the database do. */
  function SendMailOutcome(sender: string, req: Request, fx: Effects): (o: Outcome)
    // The checks come in a fixed order, and all of them before the transport
    // or the database is used.
    ensures Resolve(req.recipients, req.excelFile).Err? ==>
      o == Outcome(Response(400, ErrorReply(Resolve(req.recipients, req.excelFile).error)), None, [])
    ensures Resolve(req.recipients, req.excelFile) == Ok([]) ==>
      o == Outcome(Response(400, ErrorReply(NoRecipientsError)), None, [])
    ensures (req.subject == "" || req.body == "") && Resolve(req.recipients, req.excelFile).Ok? ==>
      Resolve(req.recipients, req.excelFile).value != [] ==>
      o == Outcome(Response(400, ErrorReply(MissingFieldsError)), None, [])
    ensures o.mail.None? <==> o.response.status == 400
    ensures o.response.status == 400 ==> o.written == []
    // Past the checks, exactly one record is written unless the failure
    // record's own save throws; its status tells success from failure.
    ensures o.response.status == 200 <==> fx.transport.Delivered? && fx.successSave.Saved? && o.mail.Some?
    ensures o.response.status == 200 ==>
      && |o.written| == 1 && o.written[0].status == Succeeded && o.written[0].errorMessage.None?
      && o.response.reply.SentReply? && o.response.reply.recipientCount == |o.written[0].recipients|
    ensures o.response.status == 500 ==>
      && |o.written| == (if fx.failureSave.Saved? then 1 else 0)
      && (forall k | 0 <= k < |o.written| :: o.written[k].status == Failed && o.written[k].errorMessage.Some?)
    // Every record and the message carry one attachment entry per uploaded file.
    ensures o.mail.Some? ==> |o.mail.value.attachments| == |req.attachments|
    ensures forall k | 0 <= k < |o.written| ::
      && Resolve(req.recipients, req.excelFile) == Ok(o.written[k].recipients) && o.written[k].recipients != []
      && o.written[k].subject == req.subject && o.written[k].body == req.body
      && |o.written[k].attachments| == |req.attachments|
    // Once every check passes, the message for the resolved list is handed to
    // the transport, and what happens next decides the reply and the record.
    ensures Passed(req) ==>
      var rs := Resolve(req.recipients, req.excelFile).value;
      o.mail == Some(ComposeMail(sender, rs, req.subject, req.body, req.attachments))
    ensures Passed(req) && fx.transport.TransportThrew? ==>
      FailedWith(o, req, Resolve(req.recipients, req.excelFile).value, fx.transport.message, fx.failureSave)
    ensures Passed(req) && fx.transport.Delivered? && fx.successSave.SaveThrew? ==>
      FailedWith(o, req, Resolve(req.recipients, req.excelFile).value, fx.successSave.message, fx.failureSave)
    ensures Passed(req) && fx.transport.Delivered? && fx.successSave.Saved? ==>
      var rs := Resolve(req.recipients, req.excelFile).value;
      && o.response == Response(200, SentReply(|rs|, fx.transport.accepted, fx.transport.rejected))
      && o.written == [HistoryRecord(req.subject, req.body, rs, AttachmentMetas(req.attachments), Succeeded, None)]
  {
    match Resolve(req.recipients, req.excelFile)
    case Err(e) => Outcome(Response(400, ErrorReply(e)), None, [])
    case Ok(recipients) =>
      if |recipients| == 0 then Outcome(Response(400, ErrorReply(NoRecipientsError)), None, [])
      else if req.subject == "" || req.body == "" then Outcome(Response(400, ErrorReply(MissingFieldsError)), None, [])
      else
        var mail := ComposeMail(sender, recipients, req.subject, req.body, req.attachments);
        match fx.transport
        case TransportThrew(m) => SendFailure(req, recipients, mail, m, fx.failureSave)
        case Delivered(accepted, rejected) =>
          match fx.successSave
          case SaveThrew(m) => SendFailure(req, recipients, mail, m, fx.failureSave)
          case Saved =>
            var record := HistoryRecord(req.subject, req.body, recipients, AttachmentMetas(req.attachments), Succeeded, None);
            Outcome(Response(200, SentReply(|recipients|, accepted, rejected)), Some(mail), [record])
  }

  /** When no spreadsheet is sent, the bcc list read back at its commas is
      exactly the resolved recipient list. */
  lemma BccListsRecipients(sender: string, req: Request, fx: Effects)
    requires req.excelFile.None?
    requires SendMailOutcome(sender, req, fx).mail.Some?
    ensures Split(SendMailOutcome(sender, req, fx).mail.value.bcc, IsComma) == ManualRecipients(req.recipients)
  {
    var rs := ManualRecipients(req.recipients);
    forall k | 0 <= k < |rs| ensures Free(rs[k], IsComma) {
      assert Free(rs[k], IsRecipientSeparator);
    }
  }

  /** A spreadsheet cell may hold a comma, which the loose pattern accepts;
      the bcc list then reads as two addresses where one was resolved. */
  lemma CommaCellSplitsBcc()
    ensures Resolve(Absent, Some(Decoded([ArrayRow([StringCell("a,b@c.de")])]))) == Ok(["a,b@c.de"])
    ensures Split(Join(["a,b@c.de"], ","), IsComma) == ["a", "b@c.de"]
  {
    CommaCellResolved();
    CommaCellSplit();
  }

  lemma CommaCellResolved()
    ensures Resolve(Absent, Some(Decoded([ArrayRow([StringCell("a,b@c.de")])]))) == Ok(["a,b@c.de"])
  {
    var s := "a,b@c.de";
    CommaCellScanned();
    assert Dedup([s]) == [s] by {
      assert [s][..0] == [];
    }
    assert [] + [s] == [s];
  }

  lemma CommaCellPicked()
    ensures LoosePick(StringCell("a,b@c.de")) == Some("a,b@c.de")
  {
    var s := "a,b@c.de";
    MiddleCharIsLoose(',');
    assert s == ['a', ',', 'b'] + "@c.de";
    assert Trimmed(s);
    TrimmedIsFixed(s);
  }

  lemma CommaCellScanned()
    ensures Scan([ArrayRow([StringCell("a,b@c.de")])], LoosePick) == ["a,b@c.de"]
  {
    var s := "a,b@c.de";
    CommaCellPicked();
    var rows := [ArrayRow([StringCell(s)])];
    assert ScanCells([StringCell(s)], LoosePick) == [s] by {
      assert [StringCell(s)][..0] == [];
    }
    assert rows[..0] == [];
  }

  lemma CommaCellSplit()
    ensures Split(Join(["a,b@c.de"], ","), IsComma) == ["a", "b@c.de"]
  {
    var s := "a,b@c.de";
    assert Split("a", IsComma) == ["a"] by {
      SplitFree("a", IsComma);
    }
    assert Split("b@c.de", IsComma) == ["b@c.de"] by {
      var t := "b@c.de";
      assert Free(t, IsComma) by {
        forall j | 0 <= j < |t| ensures !IsComma(t[j]) {
          if j == 0 {} else if j == 1 {} else if j == 2 {} else if j == 3 {} else if j == 4 {} else {}
        }
      }
      SplitFree(t, IsComma);
    }
    assert s == "a" + [','] + "b@c.de";
    SplitAt("a", ',', "b@c.de", IsComma);
  }

  /** `sendMail` as the handler runs it: early returns, one transport call,
      then one record save on either branch. The store is the history
      collection; `now` is the time the records are created. */
  method SendMail(store: HistoryStore<HistoryRecord>, sender: string, req: Request, fx: Effects, now: int)
    returns (response: Response, mail: Option<MailOptions>)
    modifies store
    ensures response == SendMailOutcome(sender, req, fx).response
    ensures mail == SendMailOutcome(sender, req, fx).mail
    ensures store.entries == old(store.entries) + StampAll(now, SendMailOutcome(sender, req, fx).written)
  {
    var resolved := ResolveRecipients(req.recipients, req.excelFile);
    if resolved.Err? {
      return Response(400, ErrorReply(resolved.error)), None;
    }
    var recipients := resolved.value;
    if |recipients| == 0 {
      return Response(400, ErrorReply(NoRecipientsError)), None;
    }
    if req.subject == "" || req.body == "" {
      return Response(400, ErrorReply(MissingFieldsError)), None;
    }
    var metas := AttachmentMetas(req.attachments);
    var options := ComposeMail(sender, recipients, req.subject, req.body, req.attachments);
    mail := Some(options);
    var failure: string;
    match fx.transport {
      case TransportThrew(m) =>
        failure := m;
      case Delivered(accepted, rejected) =>
        match fx.successSave {
          case Saved =>
            store.Append(HistoryRecord(req.subject, req.body, recipients, metas, Succeeded, None), now);
            response := Response(200, SentReply(|recipients|, accepted, rejected));
            return;
          case SaveThrew(m) =>
            failure := m;
        }
    }
    if fx.failureSave.Saved? {
      store.Append(HistoryRecord(req.subject, req.body, recipients, metas, Failed, Some(failure)), now);
    }
    response := Response(500, SendFailedReply(SendFailedError, failure));
  }

  const FetchFailedError := "Failed to fetch email history"

  /** `getHistory`: every record, newest first, or an error when the query
      throws. */
  method GetHistory(store: HistoryStore<HistoryRecord>, queryThrows: bool) returns (r: Result<seq<Stamped<HistoryRecord>>, string>)
    ensures queryThrows ==> r == Err(FetchFailedError)
    ensures !queryThrows ==>
      && r.Ok? && r.value == NewestFirst(store.entries)
      && NewestFirstOrder(r.value) && multiset(r.value) == multiset(store.entries)
  {
    if queryThrows {
      return Err(FetchFailedError);
    }
    var listing := store.List();
    return Ok(listing);
  }
}
