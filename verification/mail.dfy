/**
 * Values that cross the boundary of the two send handlers: the multipart
 * form fields and files they receive, the attachment entries they hand to
 * the mail transport, and what the transport and the database do when called;
 * and, on the browser side, the files and the status banner of the two forms.
 */
module Mail {
  /** A multipart text field: absent, sent once (a string), or sent several
      times (an array of strings). */
  datatype FormField = Absent | Single(value: string) | Repeated(values: seq<string>)

  /** A file the multipart parser keeps in memory. */
  datatype UploadedFile = UploadedFile(originalName: string, size: nat, mimeType: string, buffer: seq<bv8>)

  /** An attachment entry for the transport: `{ filename, content, contentType }`. */
  datatype MailAttachment = MailAttachment(filename: string, content: seq<bv8>, contentType: string)

  /** What one `sendMail` call on the transport does: it resolves with the
      accepted and rejected addresses, or it throws with a message. */
  datatype TransportResult = Delivered(accepted: seq<string>, rejected: seq<string>) | TransportThrew(message: string)

  /** What one `save()` call on a database record does. */
  datatype SaveResult = Saved | SaveThrew(message: string)

  /** The attachment entries for the uploaded files: one per file, in upload
      order, carrying its name, bytes and MIME type. */
  function ToAttachments(files: seq<UploadedFile>): (r: seq<MailAttachment>)
    ensures |r| == |files|
    ensures forall k | 0 <= k < |r| ::
      r[k].filename == files[k].originalName && r[k].content == files[k].buffer && r[k].contentType == files[k].mimeType
  {
    if |files| == 0 then []
    else [MailAttachment(files[0].originalName, files[0].buffer, files[0].mimeType)] + ToAttachments(files[1..])
  }

  /** A file picked in the browser. */
  datatype LocalFile = LocalFile(name: string, size: nat, mimeType: string)

  /** A status banner's type: `''`, `'success'` or `'error'`. */
  datatype StatusType = Untyped | SuccessType | ErrorType

  datatype Status = Status(kind: StatusType, message: string)
}
