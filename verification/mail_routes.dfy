/**
 * The `/send` and `/history` handlers of the mail router mounted at
 * `/api/mail`: comma-separated recipients, a required-field check, SMTP
 * credentials read from the stored settings, and one log entry per send.
 */
module MailRoutes {
  import opened Wrappers
  import opened Text
  import opened History
  import opened Mail

  /** The recipients field: a string is cut at commas, trimmed and stripped
      of empty pieces; an array is taken as it is; anything else is empty. */
  function ParseRecipients(field: FormField): (r: seq<string>)
    ensures field.Single? ==> forall k | 0 <= k < |r| :: r[k] != "" && Trimmed(r[k]) && Free(r[k], IsComma)
    ensures field.Repeated? ==> r == field.values
    ensures field.Absent? ==> r == []
  {
    match field
    case Single(s) => Pieces(s, IsComma)
    case Repeated(xs) => xs
    case Absent => []
  }

  /** Joining the parsed list as the `to` header does (`", "`) and parsing it
      again gives the same list. */
  lemma {:induction false} ToHeaderReparses(s: string)
    ensures ParseRecipients(Single(Join(ParseRecipients(Single(s)), ", "))) == ParseRecipients(Single(s))
  {
    var parts := ParseRecipients(Single(s));
    PiecesOfJoin(parts, ", ", IsComma);
  }

  /** Array values are not cleaned: empty and padded entries pass through. */
  lemma ArrayEntriesUnchecked()
    ensures ParseRecipients(Repeated(["", " x "])) == ["", " x "]
  {
  }

  /** The stored SMTP settings. */
  datatype Settings = Settings(emailUser: string, emailPass: string)

  /** What `Settings.findOne()` does: finds a document or none, or throws. */
  datatype SettingsLookup = Found(settings: Option<Settings>) | LookupThrew(message: string)

  /** `"Success"` and `"Failure"`, the two values a log's status may take. */
  datatype LogStatus = Success | Failure

  /** A log entry; `errorMessage` defaults to the empty string. */
  datatype LogEntry = LogEntry(subject: string, body: string, recipients: seq<string>, status: LogStatus, errorMessage: string)

  /** The message handed to the transport. */
  datatype RouteMail = RouteMail(from: string, to: string, subject: string, text: string, attachments: seq<MailAttachment>)

  /** Absent text fields are empty strings; `files` is absent when the
      multipart parser set no file list. */
  datatype Request = Request(subject: string, body: string, recipients: FormField, files: Option<seq<UploadedFile>>)

  datatype Effects = Effects(settings: SettingsLookup, transport: TransportResult, successSave: SaveResult, failureSave: SaveResult)

  datatype Reply =
    | Message(msg: string)
    | SentReply(msg: string, accepted: seq<string>, rejected: seq<string>)
    | FailureReply(msg: string, error: string)

  /** A response, or none: when the failure log's save throws inside the
      error handler, the handler's promise rejects with that message and the
      handler itself sends nothing. */
  datatype Response = Responded(status: nat, reply: Reply) | Unanswered(message: string)

  /** The response, the credentials a transport was created with, the message
      handed to it, and the log entries saved. */
  datatype Outcome = Outcome(response: Response, credentials: Option<Settings>, mail: Option<RouteMail>, written: seq<LogEntry>)

  const MissingFieldsMsg := "Please provide all required fields."
  const NoCredentialsMsg := "SMTP Credentials not configured. Please add them in Settings."
  const SentMsg := "Emails sent successfully!"
  const SendFailedMsg := "Failed to send emails"

  /** `req.files ? req.files.map(...) : []`. */
  function RouteAttachments(files: Option<seq<UploadedFile>>): (r: seq<MailAttachment>)
    ensures files.None? ==> r == []
    ensures files.Some? ==> |r| == |files.value|
    ensures files.Some? ==> forall k | 0 <= k < |r| ::
      r[k].filename == files.value[k].originalName && r[k].content == files.value[k].buffer && r[k].contentType == files.value[k].mimeType
  {
    if files.Some? then ToAttachments(files.value) else []
  }

  /** The message for a parsed recipient list: from the configured account,
      to every recipient as one `", "`-joined header. */
  function ComposeRouteMail(user: string, recipients: seq<string>, req: Request): (m: RouteMail)
    ensures m.from == user && m.subject == req.subject && m.text == req.body
    ensures m.attachments == RouteAttachments(req.files)
    ensures |recipients| == 1 ==> m.to == recipients[0]
  {
    RouteMail(user, Join(recipients, ", "), req.subject, req.body, RouteAttachments(req.files))
  }

  /** The `to` header parses back to the recipient list: always for a string
      field, and for an array field whose entries are non-empty, trimmed and
      comma-free (array entries are taken unchecked, so others may not). */
  lemma ToHeaderListsRecipients(user: string, req: Request)
    requires req.recipients.Repeated? ==> forall k | 0 <= k < |req.recipients.values| ::
      req.recipients.values[k] != "" && Trimmed(req.recipients.values[k]) && Free(req.recipients.values[k], IsComma)
    ensures Pieces(ComposeRouteMail(user, ParseRecipients(req.recipients), req).to, IsComma) == ParseRecipients(req.recipients)
  {
    match req.recipients
    case Single(s) => ToHeaderReparses(s);
    case Repeated(xs) => PiecesOfJoin(xs, ", ", IsComma);
    case Absent =>
      PiecesFree("", IsComma);
      assert Trim("") == "";
  }

  /** The error handler: one `Failure` entry carrying the error's message,
      then a 500; if that entry's save throws, no response. */
  function SendFailure(req: Request, recipients: seq<string>, message: string, failureSave: SaveResult): (o: (Response, seq<LogEntry>))
    ensures failureSave.Saved? ==>
      o == (Responded(500, FailureReply(SendFailedMsg, message)), [LogEntry(req.subject, req.body, recipients, Failure, message)])
    ensures failureSave.SaveThrew? ==> o == (Unanswered(failureSave.message), [])
  {
    match failureSave
    case Saved => (Responded(500, FailureReply(SendFailedMsg, message)), [LogEntry(req.subject, req.body, recipients, Failure, message)])
    case SaveThrew(m) => (Unanswered(m), [])
  }

  /** The request has a subject, a body and at least one recipient. */
  predicate Checked(req: Request) {
    req.subject != "" && req.body != "" && ParseRecipients(req.recipients) != []
  }

  /** A settings document with a non-empty user and password. */
  predicate Configured(found: Option<Settings>) {
    found.Some? && found.value.emailUser != "" && found.value.emailPass != ""
  }

  /** The catch block ran for `message`: a `Failure` log carrying it and a 500
      when that log saves, no log and no response when the save throws. */
  predicate FailedWith(o: Outcome, req: Request, message: string, failureSave: SaveResult) {
    && (failureSave.Saved? ==>
      && o.response == Responded(500, FailureReply(SendFailedMsg, message))
      && o.written == [LogEntry(req.subject, req.body, ParseRecipients(req.recipients), Failure, message)])
    && (failureSave.SaveThrew? ==> o.response == Unanswered(failureSave.message) && o.written == [])
  }

  /** `/send`, as a function of the request and of what the settings lookup,
      the transport and the database do. */
  function SendOutcome(req: Request, fx: Effects): (o: Outcome)
    // Missing fields are refused before anything else is touched.
    ensures req.subject == "" || req.body == "" || ParseRecipients(req.recipients) == [] ==>
      o == Outcome(Responded(400, Message(MissingFieldsMsg)), None, None, [])
    // Missing credentials are refused before a transport exists; nothing is logged.
    ensures o.response == Responded(400, Message(NoCredentialsMsg)) ==> o.credentials.None? && o.written == []
    // A transport is only ever created with a non-empty user and password.
    ensures o.credentials.Some? ==> o.credentials.value.emailUser != "" && o.credentials.value.emailPass != ""
    ensures o.mail.Some? ==> o.credentials.Some? && o.mail.value.from == o.credentials.value.emailUser
    // At most one entry is logged, and its status tells success from failure.
    ensures |o.written| <= 1
    ensures o.response.Responded? && o.response.status == 200 <==> |o.written| == 1 && o.written[0].status == Success
    ensures forall k | 0 <= k < |o.written| ::
      o.written[k].recipients == ParseRecipients(req.recipients) && o.written[k].recipients != []
    ensures forall k | 0 <= k < |o.written| :: o.written[k].status == Failure ==>
      o.response.Responded? && o.response.reply == FailureReply(SendFailedMsg, o.written[k].errorMessage)
    ensures o.response.Unanswered? ==> o.written == [] && fx.failureSave.SaveThrew?
    // Past the field check, the settings lookup, the transport and the
    // success log's save decide the outcome, in that order.
    ensures Checked(req) && fx.settings.LookupThrew? ==>
      && FailedWith(o, req, fx.settings.message, fx.failureSave)
      && o.credentials.None? && o.mail.None?
    ensures Checked(req) && fx.settings.Found? && !Configured(fx.settings.settings) ==>
      o == Outcome(Responded(400, Message(NoCredentialsMsg)), None, None, [])
    ensures Checked(req) && fx.settings.Found? && Configured(fx.settings.settings) ==>
      var settings := fx.settings.settings.value;
      && o.credentials == Some(settings)
      && o.mail == Some(ComposeRouteMail(settings.emailUser, ParseRecipients(req.recipients), req))
    ensures Checked(req) && fx.settings.Found? && Configured(fx.settings.settings) && fx.transport.TransportThrew? ==>
      FailedWith(o, req, fx.transport.message, fx.failureSave)
    ensures Checked(req) && fx.settings.Found? && Configured(fx.settings.settings) && fx.transport.Delivered? && fx.successSave.SaveThrew? ==>
      FailedWith(o, req, fx.successSave.message, fx.failureSave)
    ensures Checked(req) && fx.settings.Found? && Configured(fx.settings.settings) && fx.transport.Delivered? && fx.successSave.Saved? ==>
      && o.response == Responded(200, SentReply(SentMsg, fx.transport.accepted, fx.transport.rejected))
      && o.written == [LogEntry(req.subject, req.body, ParseRecipients(req.recipients), Success, "")]
  {
    var recipients := ParseRecipients(req.recipients);
    if req.subject == "" || req.body == "" || |recipients| == 0 then
      Outcome(Responded(400, Message(MissingFieldsMsg)), None, None, [])
    else
      match fx.settings
      case LookupThrew(m) =>
        var (resp, logs) := SendFailure(req, recipients, m, fx.failureSave);
        Outcome(resp, None, None, logs)
      case Found(found) =>
        if found.None? || found.value.emailUser == "" || found.value.emailPass == "" then
          Outcome(Responded(400, Message(NoCredentialsMsg)), None, None, [])
        else
          var settings := found.value;
          var mail := ComposeRouteMail(settings.emailUser, recipients, req);
          match fx.transport
          case TransportThrew(m) =>
            var (resp, logs) := SendFailure(req, recipients, m, fx.failureSave);
            Outcome(resp, Some(settings), Some(mail), logs)
          case Delivered(accepted, rejected) =>
            match fx.successSave
            case SaveThrew(m) =>
              var (resp, logs) := SendFailure(req, recipients, m, fx.failureSave);
              Outcome(resp, Some(settings), Some(mail), logs)
            case Saved =>
              Outcome(Responded(200, SentReply(SentMsg, accepted, rejected)), Some(settings), Some(mail),
                [LogEntry(req.subject, req.body, recipients, Success, "")])
  }

  /** `/send` as the handler runs it. The store is the log collection; `now`
      is the time entries are created. */
  method Send(store: HistoryStore<LogEntry>, req: Request, fx: Effects, now: int)
    returns (response: Response, credentials: Option<Settings>, mail: Option<RouteMail>)
    modifies store
    ensures response == SendOutcome(req, fx).response
    ensures credentials == SendOutcome(req, fx).credentials
    ensures mail == SendOutcome(req, fx).mail
    ensures store.entries == old(store.entries) + StampAll(now, SendOutcome(req, fx).written)
  {
    var recipients := ParseRecipients(req.recipients);
    if req.subject == "" || req.body == "" || |recipients| == 0 {
      return Responded(400, Message(MissingFieldsMsg)), None, None;
    }
    credentials, mail := None, None;
    var failure: string;
    match fx.settings {
      case LookupThrew(m) =>
        failure := m;
      case Found(found) =>
        if found.None? || found.value.emailUser == "" || found.value.emailPass == "" {
          return Responded(400, Message(NoCredentialsMsg)), None, None;
        }
        var settings := found.value;
        credentials := Some(settings);
        mail := Some(ComposeRouteMail(settings.emailUser, recipients, req));
        match fx.transport {
          case TransportThrew(m) =>
            failure := m;
          case Delivered(accepted, rejected) =>
            match fx.successSave {
              case Saved =>
                store.Append(LogEntry(req.subject, req.body, recipients, Success, ""), now);
                return Responded(200, SentReply(SentMsg, accepted, rejected)), credentials, mail;
              case SaveThrew(m) =>
                failure := m;
            }
        }
    }
    match fx.failureSave {
      case Saved =>
        store.Append(LogEntry(req.subject, req.body, recipients, Failure, failure), now);
        response := Responded(500, FailureReply(SendFailedMsg, failure));
      case SaveThrew(m) =>
        response := Unanswered(m);
    }
  }

  const ServerErrorText := "Server Error"

  /** `/history`: every log entry, newest first, or a 500 with a plain-text
      body when the query throws. */
  method GetHistory(store: HistoryStore<LogEntry>, queryThrows: bool) returns (r: Result<seq<Stamped<LogEntry>>, string>)
    ensures queryThrows ==> r == Err(ServerErrorText)
    ensures !queryThrows ==>
      && r.Ok? && r.value == NewestFirst(store.entries)
      && NewestFirstOrder(r.value) && multiset(r.value) == multiset(store.entries)
  {
    if queryThrows {
      return Err(ServerErrorText);
    }
    var listing := store.List();
    return Ok(listing);
  }
}
