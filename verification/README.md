# mailoo recipient pipelines in Dafny

mailoo is a bulk-mail tool. A form in the browser gathers a subject, a body,
recipients and attachments. The recipients are typed by hand or imported from
a spreadsheet. The form posts to a server handler, which sends one message
through an SMTP transport and writes one history entry. The same pipeline
exists in four copies, with rules that differ in ways a user can see:

- **the server controller** (`backend/controllers/mailController.js`,
  module `MailController`). It tokenises typed recipients on runs of
  whitespace and commas and scans an uploaded spreadsheet with the loose
  address pattern. It de-duplicates only when a spreadsheet came along. It
  validates in a fixed order, blind-copies everyone on one message and writes
  a `success` or `failed` history record.
- **the mounted send route** (`backend/routes/mailRoutes.js`, module
  `MailRoutes`). `server.js` mounts it at `/api/mail`. It splits a string on
  commas only, takes an array as it is, checks the fields and then the stored
  SMTP credentials, and logs `Success` or `Failure`.
- **the composer** (`frontend/src/components/MailComposer.jsx`, class
  `MailComposer.Composer`). It keeps an ordered, duplicate-free list of
  address chips and a list of attachments de-duplicated by a `name + size`
  key. Each event handler is a method that updates the fields.
- **the dashboard** (`frontend/src/pages/Dashboard.jsx`, class
  `Dashboard.Form`). It keeps the recipients as one comma-separated string
  and holds spreadsheet cells to a stricter address pattern.

Shared pieces:

- `Text` has the JavaScript string operations over `seq<char>`:
  - `trim` and `\s` use one explicit whitespace predicate.
  - `split` on a character class, followed by trim and dropping empty pieces.
  - `join`, and `[...new Set]` as `Dedup`.
- `Address` has both address regexes as predicates with witness indices.
- `Sheet` has the decoded grid (string, number, boolean and blank cells) and
  the nested-loop scans.
- `History` has the append-only store, listed newest first.
- `Mail` has the boundary types.
- `Interop` connects what each form posts with what each handler parses from
  it.

I/O is represented by parameters:

- The transport outcome, each database save and the settings lookup are
  `Effects` values.
- The spreadsheet decoder's result is a `Decoding`.
- The clock is a `now: int`.
- The sender address from the environment is `sender`.

Observations the model makes precise:

- The composer posts to the mounted route (`frontend/src/api/index.js`), which
  replies without `recipientCount`. `MailComposer.CountText(None)` renders
  that count as `undefined`.
- A spreadsheet cell such as `a,b@c.de` passes the loose pattern. The route
  then splits it in two when it is the only chip, and keeps it whole
  otherwise (`Interop.CommaChipSplitOnlyWhenAlone`).

Behaviour of the code worth noting:

- The controller keeps typed tokens that are not addresses
  (`MailController.ManualTokensUnchecked`).
- The controller keeps duplicates when no spreadsheet is sent
  (`MailController.DuplicatesKeptWithoutSpreadsheet`).
- The controller checks recipients before subject and body.
- The controller answers 500 and writes a `failed` record when the
  success record's save throws, rather than answering with success.
- Neither handler enforces an attachment size budget.
- The mounted route's reply has no recipient count.

## Model

| member | source | states |
|---|---|---|
| Text.Trim | backend/controllers/mailController.js:33 | the result has no leading or trailing whitespace |
| Text.TrimIdempotent | backend/controllers/mailController.js:33 | trimming twice is trimming once |
| Text.Split | backend/controllers/mailController.js:32 | there is at least one piece, and no piece holds a separator |
| Text.SplitJoin | backend/controllers/mailController.js:81 | separator-free parts joined with a separator split back into the same parts |
| Text.Join | backend/controllers/mailController.js:81 | `Array.join`; what it means is stated by `SplitJoin`, `JoinSplit` and `PiecesOfJoin` |
| Text.JoinSplit | backend/controllers/mailController.js:81 | joining the pieces of a split with the separator gives back the string |
| Text.Pieces | backend/routes/mailRoutes.js:28 | every kept piece is non-empty, trimmed and separator-free |
| Text.PiecesAt | backend/controllers/mailController.js:31-34 | pieces distribute over a separator: pieces(a+c+b) = pieces(a) ++ pieces(b) |
| Text.PiecesOfJoin | frontend/src/pages/Dashboard.jsx:50-53 | clean parts joined with `","` or `", "` come back as exactly those parts |
| Text.Dedup | backend/controllers/mailController.js:55 | the result holds exactly the values of the input |
| Text.DedupIsDistinct | backend/controllers/mailController.js:55 | the result has no duplicates |
| Text.DedupOfDistinct | frontend/src/components/MailComposer.jsx:26 | a duplicate-free list is left unchanged |
| Text.MergeKeepsPrefix | frontend/src/components/MailComposer.jsx:26 | with `a` duplicate-free, dedup(a ++ b) = a followed by the new values of `b` in first-appearance order |
| Text.RemoveValue | frontend/src/components/MailComposer.jsx:42 | exactly the other values remain |
| Text.RemoveValueAt | frontend/src/components/MailComposer.jsx:42 | on a duplicate-free list, removing the value at `i` deletes exactly index `i` |
| Text.LowerAscii | frontend/src/components/MailComposer.jsx:47 | length is kept; each ASCII capital becomes lower case and every other character is unchanged |
| Text.NatToString | frontend/src/components/MailComposer.jsx:94 | a decimal numeral with no leading zero (unless it is `0`) whose value is `n`, the form `String(n)` writes |
| Text.NumeralIsNatToString | frontend/src/components/MailComposer.jsx:94 | every such numeral is the one `NatToString` writes for its value, so numeral and number determine each other |
| Text.IntToString | frontend/src/components/MailComposer.jsx:141 | a non-negative integer as its numeral, a negative one as `-` followed by the numeral of its magnitude |
| Address.LooseParts | backend/controllers/mailController.js:44 | a loose address splits at `@` into a non-empty local part and a domain with an inner dot |
| Address.LooseFromParts | backend/controllers/mailController.js:44 | any such local part and domain form a loose address |
| Address.IsLooseAddress | backend/controllers/mailController.js:44 | the pattern `^[^\s@]+@[^\s@]+\.[^\s@]+$`; `LooseParts` and `LooseFromParts` characterise it both ways |
| Address.LooseShape | frontend/src/components/MailComposer.jsx:6 | a loose address holds no whitespace and exactly one `@`, so trimming leaves it unchanged |
| Address.StrictIsLoose | frontend/src/pages/Dashboard.jsx:38 | every address the dashboard pattern accepts, the loose pattern accepts too |
| Address.IsStrictAddress | frontend/src/pages/Dashboard.jsx:38 | the pattern `^[a-zA-Z0-9._-]+@[a-zA-Z0-9.-]+\.[a-zA-Z]{2,4}$`; `StrictShape`, `StrictIsLoose` and `PlusAddressOnlyLoose` relate it to the loose one |
| Address.PlusAddressOnlyLoose | frontend/src/pages/Dashboard.jsx:38 | the converse fails: `a+b@c.de` is loose and not strict |
| Address.StrictShape | frontend/src/pages/Dashboard.jsx:38 | a strict address is non-empty, trimmed and comma-free |
| Sheet.CellText | backend/controllers/mailController.js:48 | a string cell gives its text; a falsy cell (blank, 0, false) gives `""` |
| Sheet.LoosePick | backend/controllers/mailController.js:48-50 | a cell is kept exactly when its trimmed text matches the loose pattern, and then as that text |
| Sheet.StrictPick | frontend/src/pages/Dashboard.jsx:43-44 | a cell is kept exactly when it is a string cell whose trimmed text matches the strict pattern, and then as that text |
| Sheet.OnlyStringCellsMatch | backend/controllers/mailController.js:48-49 | numbers, booleans and blanks never match the loose pattern |
| Sheet.Scan | backend/controllers/mailController.js:45-54 | the kept cell values of every array row, row by row and cell by cell; `ScanMembers` says which values it holds |
| Sheet.ScanMembers | backend/controllers/mailController.js:45-54 | a value is scanned exactly when some cell of some array row yields it |
| Sheet.LooseScanSound | backend/controllers/mailController.js:45-54 | every scanned value is a loose address and is the trimmed text of some cell |
| Sheet.ScanRowInto | frontend/src/components/MailComposer.jsx:68-71 | the inner loop appends exactly the row's kept values in cell order |
| Sheet.ScanInto | backend/controllers/mailController.js:45-54 | the nested loops append exactly the scan of the grid, skipping non-array rows |
| Sheet.ScanAll | frontend/src/pages/Dashboard.jsx:41-47 | the dashboard's loops give the scan when every row is an array, and fail when any row is not |
| History.Insert | backend/controllers/mailController.js:131 | the listing gains exactly the new entry (length, multiset, membership) |
| History.NewestFirst | backend/controllers/mailController.js:131 | the listing is a permutation of the stored entries |
| History.NewestFirstSorted | backend/controllers/mailController.js:131 | the listing is sorted by `createdAt`, newest first |
| History.ChronologicalListedReversed | backend/routes/mailRoutes.js:88 | entries appended in clock order are listed in exactly reverse append order |
| History.StampAll | backend/models/EmailLog.js:25-28 | each written record is stored with the creation time |
| History.HistoryStore.Append | backend/routes/mailRoutes.js:67 | a save appends exactly one stamped entry |
| History.HistoryStore.List | backend/routes/mailRoutes.js:88 | the listing is newest first and holds exactly the stored entries |
| Mail.ToAttachments | backend/controllers/mailController.js:71-75 | one transport attachment per uploaded file, in order, with its name, bytes and MIME type |
| MailController.ManualRecipients | backend/controllers/mailController.js:27-35 | every typed token is non-empty and holds no whitespace and no comma |
| MailController.ManualTokensClean | backend/controllers/mailController.js:31-34 | no token holds whitespace or a comma |
| MailController.RepeatedValuesTokenizeApart | backend/controllers/mailController.js:28-30 | the tokens of a repeated field are the tokens of each part in turn |
| MailController.SingleAsRepeated | backend/controllers/mailController.js:28-30 | a value sent once tokenises like a one-element array |
| MailController.ManualTokensUnchecked | backend/controllers/mailController.js:31-34 | typed tokens are not pattern-checked: `bob` is kept |
| MailController.Resolve | backend/controllers/mailController.js:25-58 | no spreadsheet gives the typed tokens; a decoding error gives the error message; otherwise a duplicate-free list of exactly the typed tokens and scanned addresses |
| MailController.ResolvedOrder | backend/controllers/mailController.js:55 | with a spreadsheet, the typed tokens come first, each once and in typed order, then the scanned addresses not typed, each once, in sheet order |
| MailController.ResolvedOrderDistinct | backend/controllers/mailController.js:55 | when no token is typed twice, the typed list is kept whole at the front |
| MailController.DuplicatesKeptWithoutSpreadsheet | backend/controllers/mailController.js:27-35 | without a spreadsheet, `x x` resolves to two recipients |
| MailController.ResolveRecipients | backend/controllers/mailController.js:25-59 | the reassign-and-push steps compute `Resolve` |
| MailController.NewlinesToBreaks | backend/controllers/mailController.js:84 | no newline is left, and a body without newlines is unchanged |
| MailController.BreaksJoinLines | backend/controllers/mailController.js:84 | the rewrite equals splitting at newlines and joining with `<br>` |
| MailController.ComposeMail | backend/controllers/mailController.js:78-86 | from = to = sender; text = body; html = wrapper around the rewritten body; one attachment per file; the bcc splits back into the recipients |
| MailController.AttachmentMetas | backend/controllers/mailController.js:69 | one `{filename, size}` entry per uploaded file, in order |
| MailController.SendFailure | backend/controllers/mailController.js:106-126 | 500 with the error message; one `failed` record unless its own save throws, which is swallowed |
| MailController.SendMailOutcome | backend/controllers/mailController.js:19-127 | checks in order: parse error, no recipients, missing subject or body; each is a 400 with no send and no record. Past them the message for the resolved list is sent; a transport throw or a success-save throw gives a 500 carrying that error and one `failed` record with it (none if that save throws); delivery and save give the 200 with the recipient count, the accepted and rejected lists and one `success` record |
| MailController.BccListsRecipients | backend/controllers/mailController.js:81 | without a spreadsheet, the bcc list read at its commas is the typed list |
| MailController.CommaCellSplitsBcc | backend/controllers/mailController.js:45-81 | a cell `a,b@c.de` resolves to one recipient, and its bcc reads as two |
| MailController.SendMail | backend/controllers/mailController.js:19-127 | the handler's response and message are those of `SendMailOutcome` on every branch, and exactly its records are appended |
| MailController.GetHistory | backend/controllers/mailController.js:129-136 | every record, newest first, or the fetch error |
| MailRoutes.ParseRecipients | backend/routes/mailRoutes.js:26-31 | a string is split on commas into clean pieces; an array is taken as-is; anything else gives `[]` |
| MailRoutes.ToHeaderReparses | backend/routes/mailRoutes.js:28-53 | the `", "`-joined header parses back to the recipient list |
| MailRoutes.ArrayEntriesUnchecked | backend/routes/mailRoutes.js:29-30 | array entries are not cleaned: `""` and `" x "` pass through |
| MailRoutes.RouteAttachments | backend/routes/mailRoutes.js:45-49 | no files gives `[]`; otherwise one entry per file, in order |
| MailRoutes.ComposeRouteMail | backend/routes/mailRoutes.js:51-57 | from the configured user, with the subject and the body as text |
| MailRoutes.ToHeaderListsRecipients | backend/routes/mailRoutes.js:51-57 | the `to` header lists exactly the parsed recipients, for a string field and for an array field of clean entries |
| MailRoutes.SendFailure | backend/routes/mailRoutes.js:70-83 | one `Failure` log carrying the message, then a 500; no response if that save throws |
| MailRoutes.SendOutcome | backend/routes/mailRoutes.js:23-84 | missing fields give a 400 before anything else; a missing settings document, user or password gives the credentials 400 with no transport and no log, and only then; complete credentials create the transport and the message for the parsed list; a lookup, transport or success-save throw writes one `Failure` log with that error and answers 500 with it, or answers nothing when that log's save throws; delivery and save give the 200 with one `Success` log |
| MailRoutes.Send | backend/routes/mailRoutes.js:23-84 | the handler's response, credentials and message are those of `SendOutcome` on every branch, and exactly its logs are appended |
| MailRoutes.GetHistory | backend/routes/mailRoutes.js:86-94 | every log, newest first, or `Server Error` |
| MailComposer.KeepAddresses | frontend/src/components/MailComposer.jsx:24 | exactly the tokens matching the loose pattern are kept |
| MailComposer.KeepAddressesAppend | frontend/src/components/MailComposer.jsx:24 | the filter keeps token order and multiplicity: it distributes over concatenation |
| MailComposer.KeepAddressesSingle | frontend/src/components/MailComposer.jsx:24 | one token is kept exactly when it is an address |
| MailComposer.ValidTokens | frontend/src/components/MailComposer.jsx:24 | every token kept is a loose address; `ValidTokensExact` says which |
| MailComposer.ValidTokensExact | frontend/src/components/MailComposer.jsx:24 | a token is kept exactly when it is a separator-delimited piece of the input and matches the pattern |
| MailComposer.Extension | frontend/src/components/MailComposer.jsx:47 | the lowercased text after the last dot, or the whole lowercased name when it has no dot |
| MailComposer.ExtensionOfSuffix | frontend/src/components/MailComposer.jsx:47 | a name ending in a dot and a dot-free extension (in any ASCII case) has that extension |
| MailComposer.IsSpreadsheetName | frontend/src/components/MailComposer.jsx:47-48 | the extension is `xlsx`, `xls` or `csv`; `SuffixPassesExtensionCheck` and `BareExtensionNameOnlyPicked` relate it to the drop pattern |
| MailComposer.HasSpreadsheetSuffix | frontend/src/components/MailComposer.jsx:108-109 | the name ends, ignoring case, with `.xlsx`, `.xls` or `.csv` |
| MailComposer.SuffixPassesExtensionCheck | frontend/src/components/MailComposer.jsx:108 | every file a drop routes to the import passes the picker's extension check |
| MailComposer.BareExtensionNameOnlyPicked | frontend/src/components/MailComposer.jsx:47-48 | the converse fails: a file named `csv` passes the picker but not the drop test |
| MailComposer.AttachmentKey | frontend/src/components/MailComposer.jsx:94-95 | the name followed by the decimal numeral of the size |
| MailComposer.AttachmentKeysCollide | frontend/src/components/MailComposer.jsx:94-95 | different files `("a1", 23)` and `("a12", 3)` share a key |
| MailComposer.NotAttached | frontend/src/components/MailComposer.jsx:94-96 | exactly the incoming files whose key is not already taken |
| MailComposer.NotAttachedAppend | frontend/src/components/MailComposer.jsx:95-96 | the filter keeps batch order and repeats: it distributes over concatenation |
| MailComposer.NotAttachedSingle | frontend/src/components/MailComposer.jsx:95 | one file is kept exactly when its key is not taken |
| MailComposer.BatchDuplicatesKept | frontend/src/components/MailComposer.jsx:95-96 | a file picked twice in one batch is attached twice |
| MailComposer.WithoutIndex | frontend/src/components/MailComposer.jsx:101 | exactly index `i` is removed; an index out of range changes nothing |
| MailComposer.FilterNames | frontend/src/components/MailComposer.jsx:108-109 | exactly the files whose name passes the test |
| MailComposer.FilterNamesAppend | frontend/src/components/MailComposer.jsx:108-109 | the filter keeps file order: it distributes over concatenation |
| MailComposer.FilterNamesSingle | frontend/src/components/MailComposer.jsx:108-109 | one file is kept exactly when its name passes |
| MailComposer.FirstPassingLeads | frontend/src/components/MailComposer.jsx:108-110 | the first file that passes heads the filtered list, so `excelFiles[0]` is the first spreadsheet-named file dropped |
| MailComposer.MergeChips | frontend/src/components/MailComposer.jsx:26 | merging addresses keeps the chips a duplicate-free list of addresses, old chips first and in place |
| MailComposer.UniqueMatchesAreAddresses | frontend/src/components/MailComposer.jsx:64-74 | what an import adds are loose addresses |
| MailComposer.RemovePreservesChips | frontend/src/components/MailComposer.jsx:42 | removing a chip keeps the list duplicate-free and made of addresses |
| MailComposer.Composer.constructor | frontend/src/components/MailComposer.jsx:9-16 | all fields empty, no spreadsheet, no status |
| MailComposer.Composer.SetSubject | frontend/src/components/MailComposer.jsx:260 | sets only the subject |
| MailComposer.Composer.SetBody | frontend/src/components/MailComposer.jsx:271 | sets only the body |
| MailComposer.Composer.SetRecipientInput | frontend/src/components/MailComposer.jsx:210 | sets only the pending input |
| MailComposer.Composer.AddEmailChip | frontend/src/components/MailComposer.jsx:23-29 | chips = dedup(chips ++ valid tokens): old chips in place, new ones appended; input cleared only when a token was valid; otherwise nothing changes; chips stay duplicate-free addresses |
| MailComposer.Composer.KeyDown | frontend/src/components/MailComposer.jsx:31-39 | Enter, comma, space and Tab add the input's addresses; Backspace on an empty input drops exactly the last chip, and with no chips or a non-empty input changes nothing; other keys change nothing |
| MailComposer.Composer.RemoveChip | frontend/src/components/MailComposer.jsx:41-43 | the address goes, every other chip stays in order |
| MailComposer.Composer.UploadSpreadsheet | frontend/src/components/MailComposer.jsx:45-89 | a bad extension is refused before reading; a decode error clears the file; zero matches clear the file and keep the chips; otherwise chips = dedup(chips ++ unique) and the summary counts the unique matches |
| MailComposer.Composer.AddAttachments | frontend/src/components/MailComposer.jsx:91-98 | existing attachments untouched; `NotAttached` of the batch appended, which by `NotAttachedAppend` keeps batch order and repeats |
| MailComposer.Composer.RemoveAttachment | frontend/src/components/MailComposer.jsx:100-102 | exactly index `i` is removed |
| MailComposer.Composer.Drop | frontend/src/components/MailComposer.jsx:104-112 | `FilterNames(files, ...)[0]`, the first spreadsheet-named file (`FirstPassingLeads`), is imported, with every branch of the upload stated (decode error, no match, merge with its summary); no spreadsheet leaves chips, file, summary and status alone; every other file goes to the attachments |
| MailComposer.Composer.Submit | frontend/src/components/MailComposer.jsx:114-136 | recipients = dedup(chips ++ valid pending tokens); blocked with an error exactly when that is empty and no spreadsheet is selected; what is posted is a duplicate-free list of addresses |
| MailComposer.Composer.SubmitSucceeded | frontend/src/components/MailComposer.jsx:138-149 | the success message with the reply's count, and the form reset |
| MailComposer.CountText | frontend/src/components/MailComposer.jsx:141 | an absent count renders as `undefined`; a present one as its numeral, with a `-` in front when negative |
| MailComposer.Composer.SubmitFailed | frontend/src/components/MailComposer.jsx:150-154 | the reply's error, else the fixed message; the form is kept |
| Dashboard.MergedRecipientsReparse | frontend/src/pages/Dashboard.jsx:49-75 | after an import, the recipient string splits back into exactly dedup(old entries ++ extracted), with no duplicates |
| Dashboard.RecipientList | frontend/src/pages/Dashboard.jsx:50 | the comma pieces of the recipient string, trimmed, blanks dropped (the `Text.Pieces` contract) |
| Dashboard.MergedRecipients | frontend/src/pages/Dashboard.jsx:50-53 | the merged recipient string; `MergedRecipientsReparse` shows it parses back to the merged list |
| Dashboard.StrictScanWithinLoose | frontend/src/pages/Dashboard.jsx:38-47 | every address the dashboard extracts, the server's scan extracts too |
| Dashboard.Form.constructor | frontend/src/pages/Dashboard.jsx:8-14 | all fields empty |
| Dashboard.Form.HandleChange | frontend/src/pages/Dashboard.jsx:17-23 | the picker replaces the attachments wholesale; a text input sets only its own field |
| Dashboard.Form.HandleFileUpload | frontend/src/pages/Dashboard.jsx:25-65 | a read error or a non-array row leaves the recipients and sets the read error; no match leaves the recipients and sets the error; otherwise the recipients become the old entries and the extracted ones, each once, joined with `", "`, which re-parses to that list, and the message counts the matching cells, duplicates included |
| Dashboard.Form.HandleSubmit | frontend/src/pages/Dashboard.jsx:67-87 | an empty parsed list is refused; otherwise the post carries the list joined with `","` |
| Dashboard.Form.Sent | frontend/src/pages/Dashboard.jsx:99-102 | the reply's message is shown and the form reset |
| Dashboard.Form.SendFailed | frontend/src/pages/Dashboard.jsx:103-107 | the reply's `error`, else its `msg`, else the fixed message |
| Interop.ComposerField | frontend/src/components/MailComposer.jsx:134 | no recipient gives no field; one gives a single string; several give an array |
| Interop.DashboardPostParsed | frontend/src/pages/Dashboard.jsx:87 | the route parses the dashboard's posted string back into exactly the list the dashboard checked |
| Interop.ComposerPostParsedByRoutes | backend/routes/mailRoutes.js:26-31 | comma-free composer addresses reach the route unchanged |
| Interop.ComposerPostParsedByController | backend/controllers/mailController.js:27-35 | comma-free composer addresses reach the controller unchanged, sent once or as an array |
| Interop.CommaChipSplitOnlyWhenAlone | backend/routes/mailRoutes.js:27-30 | a lone chip `a,b@c.de` is split in two by the route; the same chip among others is kept whole |
| Interop.SheetRescanAddsNothing | backend/controllers/mailController.js:37-55 | when every scanned address is already posted, the controller's rescan adds nobody |

## Left out

- Transport: the nodemailer configuration, timeouts and the send itself are left out. A send is an outcome parameter: delivered with accepted and rejected lists, or thrown with a message.
- Spreadsheet decoding: `XLSX.read` and `sheet_to_json` are left out, and so is the asynchronous `FileReader`. The decoded grid, or the decoder's error message, is an input. Number cells are integers; fractional numbers and their string forms are not modelled.
- Stale closures: the dashboard's reader callback spreads the `formData` captured at upload time, so edits made during the read are lost. The model applies each handler to the current state.
- Database: mongoose `save`, `find().sort` and `findOne` are modelled only through their outcomes and an append-only store. Among equal `createdAt` values, the database's order is unspecified; `History.NewestFirst` fixes one (later first).
- Multipart parsing: Express and multer wiring is left out. The composer also posts `excelFile` to the route, which accepts only `attachments` files; that rejection is not modelled.
- Loading flags: `loading` and `isSending` are not modelled.
- UI: rendering, drag-over highlighting, `formatSize` (floating point) and the history pages are left out.
- Settings and user CRUD are left out.
- Locale: JavaScript's full Unicode `toLowerCase` is not modelled; ASCII lowering is exact for the `xlsx`/`xls`/`csv` comparison. The regexes are predicates, not a regex engine.
- Absent fields: an absent subject or body is modelled as `""`. Both are falsy, and the handlers treat them alike.
- Controller wiring: the controller's `sender` is the `EMAIL_USER` environment value, passed in. `server.js` does not mount the controller; it is modelled as written.
- Routes 200 reply: the route's 200 reply also carries the transport's `info` object, which is not modelled beyond accepted and rejected.
