/**
 * The older bulk-mail form: recipients are kept as one comma-separated
 * string that a spreadsheet import extends and a submission splits again;
 * spreadsheet cells are held to the strict address pattern.
 */
module Dashboard {
  import opened Wrappers
  import opened Text
  import opened Address
  import opened Sheet
  import opened Mail

  /** One `onChange` event of the form: a text input by its `name`, or the
      attachment picker with the files it holds. */
  datatype FormInput =
    | SubjectInput(subject: string)
    | BodyInput(body: string)
    | RecipientsInput(recipients: string)
    | AttachmentsInput(files: seq<LocalFile>)

  /** The multipart form a submission posts. */
  datatype Post = Post(subject: string, body: string, recipients: string, attachments: seq<LocalFile>)

  const ReadFailedMsg := "Failed to read the Excel file."
  const NoEmailsMsg := "No valid emails found in the uploaded file."
  const NoRecipientMsg := "Please enter at least one valid recipient."
  const DefaultSendError := "Failed to send emails."

  function ExtractedMsg(count: nat, name: string): string {
    "Extracted " + NatToString(count) + " emails from " + name
  }

  /** The current recipient string as a list: `split(',')`, trimmed, blanks
      dropped. */
  function RecipientList(recipients: string): seq<string> {
    Pieces(recipients, IsComma)
  }

  /** The recipient string after an import: the current entries and then the
      extracted ones, each once, joined with `", "`. */
  function MergedRecipients(recipients: string, extracted: seq<string>): string {
    Join(Dedup(RecipientList(recipients) + extracted), ", ")
  }

  /** An entry a comma-separated list can hold as itself. */
  predicate ListEntry(x: string) {
    x != "" && Trimmed(x) && Free(x, IsComma)
  }

  lemma StrictIsListEntry(x: string)
    requires IsStrictAddress(x)
    ensures ListEntry(x)
  {
    StrictShape(x);
  }

  lemma MergedEntries(current: seq<string>, extracted: seq<string>)
    requires forall k | 0 <= k < |current| :: ListEntry(current[k])
    requires forall k | 0 <= k < |extracted| :: IsStrictAddress(extracted[k])
    ensures forall k | 0 <= k < |Dedup(current + extracted)| :: ListEntry(Dedup(current + extracted)[k])
  {
    var all := current + extracted;
    forall k | 0 <= k < |all| ensures ListEntry(all[k]) {
      if k >= |current| {
        StrictIsListEntry(extracted[k - |current|]);
      }
    }
    var combined := Dedup(all);
    forall k | 0 <= k < |combined| ensures ListEntry(combined[k]) {
      assert combined[k] in combined;
      assert combined[k] in all;
    }
  }

  /** Whatever the recipient string held, the merged string splits back into
      exactly the merged list when every extracted entry is a strict address:
      no entry is lost, split or joined to its neighbour. */
  lemma MergedRecipientsReparse(recipients: string, extracted: seq<string>)
    requires forall k | 0 <= k < |extracted| :: IsStrictAddress(extracted[k])
    ensures RecipientList(MergedRecipients(recipients, extracted)) == Dedup(RecipientList(recipients) + extracted)
    ensures Distinct(RecipientList(MergedRecipients(recipients, extracted)))
  {
    var current := RecipientList(recipients);
    MergedEntries(current, extracted);
    ListEntriesReparse(Dedup(current + extracted));
    DedupIsDistinct(current + extracted);
  }

  lemma ListEntriesReparse(parts: seq<string>)
    requires forall k | 0 <= k < |parts| :: ListEntry(parts[k])
    ensures RecipientList(Join(parts, ", ")) == parts
  {
    CommaSpaceGlue();
    PiecesOfJoin(parts, ", ", IsComma);
  }

  lemma CommaSpaceGlue()
    ensures |", "| > 0 && IsComma(", "[0]) && AllSpace(", "[1..])
  {
    assert ", "[1..] == " ";
  }

  /** Every address the strict scan finds, the loose scan finds too, so the
      dashboard never imports an address the server would not. */
  lemma StrictScanWithinLoose(rows: seq<Row>, x: string)
    requires x in Scan(rows, StrictPick)
    ensures x in Scan(rows, LoosePick)
    ensures IsStrictAddress(x)
  {
    ScanMembers(rows, StrictPick, x);
    var r, c :| 0 <= r < |rows| && rows[r].ArrayRow? && 0 <= c < |rows[r].cells| && StrictPick(rows[r].cells[c]) == Some(x);
    StrictIsLoose(x);
    assert LoosePick(rows[r].cells[c]) == Some(x);
    ScanMembers(rows, LoosePick, x);
  }

  class Form {
    var subject: string
    var body: string
    var recipients: string
    var attachments: seq<LocalFile>
    var status: Status

    constructor ()
      ensures subject == "" && body == "" && recipients == "" && attachments == []
      ensures status == Status(Untyped, "")
    {
      subject, body, recipients, attachments := "", "", "", [];
      status := Status(Untyped, "");
    }

    /** `handleChange`: the picker replaces the attachments wholesale; a text
        input sets its own field; nothing else changes. */
    method HandleChange(input: FormInput)
      modifies this
      ensures input.SubjectInput? ==> subject == input.subject && body == old(body) && recipients == old(recipients) && attachments == old(attachments)
      ensures input.BodyInput? ==> body == input.body && subject == old(subject) && recipients == old(recipients) && attachments == old(attachments)
      ensures input.RecipientsInput? ==> recipients == input.recipients && subject == old(subject) && body == old(body) && attachments == old(attachments)
      ensures input.AttachmentsInput? ==> attachments == input.files && subject == old(subject) && body == old(body) && recipients == old(recipients)
      ensures status == old(status)
    {
      match input
      case SubjectInput(v) => subject := v;
      case BodyInput(v) => body := v;
      case RecipientsInput(v) => recipients := v;
      case AttachmentsInput(files) => attachments := files;
    }

    /** `handleFileUpload`, with `decoded` standing for what the reader and
        the decoder make of the file. The count reported is that of the
        matching cells, duplicates included. */
    method HandleFileUpload(file: Option<LocalFile>, decoded: Decoding)
      modifies this
      ensures file.None? ==> recipients == old(recipients) && status == old(status)
      ensures file.Some? && (decoded.DecodeFailed? || !AllArrays(decoded.rows)) ==>
        recipients == old(recipients) && status == Status(ErrorType, ReadFailedMsg)
      ensures file.Some? && decoded.Decoded? && AllArrays(decoded.rows) ==>
        var extracted := Scan(decoded.rows, StrictPick);
        && (extracted == [] ==> recipients == old(recipients) && status == Status(ErrorType, NoEmailsMsg))
        && (extracted != [] ==>
          && recipients == MergedRecipients(old(recipients), extracted)
          && RecipientList(recipients) == Dedup(RecipientList(old(recipients)) + extracted)
          && Distinct(RecipientList(recipients))
          && status == Status(SuccessType, ExtractedMsg(|extracted|, file.value.name)))
      ensures subject == old(subject) && body == old(body) && attachments == old(attachments)
    {
      if file.None? {
        return;
      }
      match decoded {
        case DecodeFailed(_) =>
          status := Status(ErrorType, ReadFailedMsg);
        case Decoded(rows) =>
          var scanned := ScanAll(rows, StrictPick);
          if scanned.None? {
            status := Status(ErrorType, ReadFailedMsg);
            return;
          }
          var extracted := scanned.value;
          if |extracted| > 0 {
            forall k | 0 <= k < |extracted| ensures IsStrictAddress(extracted[k]) {
              StrictScanWithinLoose(rows, extracted[k]);
            }
            var current := if recipients != "" then RecipientList(recipients) else [];
            assert recipients == "" ==> current == RecipientList(recipients) by {
              if recipients == "" {
                PiecesFree("", IsComma);
                assert Trim("") == "";
              }
            }
            MergedRecipientsReparse(recipients, extracted);
            recipients := Join(Dedup(current + extracted), ", ");
            status := Status(SuccessType, ExtractedMsg(|extracted|, file.value.name));
          } else {
            status := Status(ErrorType, NoEmailsMsg);
          }
      }
    }

    /** `handleSubmit` up to the request: the status is cleared; an empty
        list is refused; otherwise the list goes out joined with `","`. */
    method HandleSubmit() returns (post: Option<Post>)
      modifies this
      ensures RecipientList(recipients) == [] ==> post.None? && status == Status(ErrorType, NoRecipientMsg)
      ensures RecipientList(recipients) != [] ==>
        && post == Some(Post(subject, body, Join(RecipientList(recipients), ","), attachments))
        && status == Status(Untyped, "")
      ensures subject == old(subject) && body == old(body) && recipients == old(recipients) && attachments == old(attachments)
    {
      status := Status(Untyped, "");
      var list := RecipientList(recipients);
      if |list| == 0 {
        status := Status(ErrorType, NoRecipientMsg);
        return None;
      }
      return Some(Post(subject, body, Join(list, ","), attachments));
    }

    /** The reply arrived: its `msg` is shown and the form is reset. */
    method Sent(msg: string)
      modifies this
      ensures status == Status(SuccessType, msg)
      ensures subject == "" && body == "" && recipients == "" && attachments == []
    {
      status := Status(SuccessType, msg);
      subject, body, recipients, attachments := "", "", "", [];
    }

    /** The request failed: the reply's `error`, else its `msg`, else a fixed
        message; the form is kept. */
    method SendFailed(error: Option<string>, msg: Option<string>)
      modifies this
      ensures error.Some? && error.value != "" ==> status == Status(ErrorType, error.value)
      ensures (error.None? || error.value == "") && msg.Some? && msg.value != "" ==> status == Status(ErrorType, msg.value)
      ensures (error.None? || error.value == "") && (msg.None? || msg.value == "") ==> status == Status(ErrorType, DefaultSendError)
      ensures subject == old(subject) && body == old(body) && recipients == old(recipients) && attachments == old(attachments)
    {
      if error.Some? && error.value != "" {
        status := Status(ErrorType, error.value);
      } else if msg.Some? && msg.value != "" {
        status := Status(ErrorType, msg.value);
      } else {
        status := Status(ErrorType, DefaultSendError);
      }
    }
  }
}
