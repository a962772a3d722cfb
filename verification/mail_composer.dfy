/**
 * The bulk-mail composer: a form whose recipients are kept as an ordered,
 * duplicate-free list of address chips, fed by typing, by a spreadsheet
 * import and by drag and drop, and whose attachments are kept as a list of
 * files.
 */
module MailComposer {
  import opened Wrappers
  import opened Text
  import opened Address
  import opened Sheet
  import opened Mail

  /** The badge shown after a spreadsheet import. */
  datatype ExcelSummary = ExcelSummary(filename: string, count: nat)

  /** The form data a submission posts: each recipient as its own
      `recipients` field, the spreadsheet if one is selected, every
      attachment. */
  datatype Submission = Submission(
    subject: string,
    body: string,
    recipients: seq<string>,
    excelFile: Option<LocalFile>,
    attachments: seq<LocalFile>)

  /** The separators of typed recipients, `/[\s,;]+/`. */
  predicate IsChipSeparator(c: char) {
    IsSpace(c) || c == ',' || c == ';'
  }

  /** `.filter(e => EMAIL_REGEX.test(e))`. */
  function KeepAddresses(xs: seq<string>): (r: seq<string>)
    ensures forall k | 0 <= k < |r| :: IsLooseAddress(r[k])
    ensures forall x {:trigger x in r} :: x in r <==> x in xs && IsLooseAddress(x)
  {
    if |xs| == 0 then []
    else (if IsLooseAddress(xs[0]) then [xs[0]] else []) + KeepAddresses(xs[1..])
  }

  /** Tokens keep their order through the filter: it distributes over
      concatenation and keeps a single token exactly when it is an address. */
  lemma {:induction false} KeepAddressesAppend(a: seq<string>, b: seq<string>)
    ensures KeepAddresses(a + b) == KeepAddresses(a) + KeepAddresses(b)
  {
    if |a| > 0 {
      ConsOfAppend(a, b);
      KeepAddressesAppend(a[1..], b);
      KeepAddressesCons(a + b);
      KeepAddressesCons(a);
    } else {
      assert a + b == b;
    }
  }

  lemma KeepAddressesCons(xs: seq<string>)
    requires |xs| > 0
    ensures KeepAddresses(xs) == KeepAddresses([xs[0]]) + KeepAddresses(xs[1..])
  {
    assert [xs[0]][1..] == [];
  }

  lemma KeepAddressesSingle(x: string)
    ensures KeepAddresses([x]) == if IsLooseAddress(x) then [x] else []
  {
    assert [x][1..] == [];
  }

  /** The addresses in a piece of typed text. */
  function ValidTokens(s: string): (r: seq<string>)
    ensures forall k | 0 <= k < |r| :: IsLooseAddress(r[k])
  {
    KeepAddresses(TrimAll(Split(s, IsChipSeparator)))
  }

  lemma {:induction false} TrimAllOfSeparated(xs: seq<string>)
    requires forall k | 0 <= k < |xs| :: Free(xs[k], IsChipSeparator)
    ensures TrimAll(xs) == xs
  {
    if |xs| > 0 {
      var x := xs[0];
      assert Trimmed(x) by {
        if x != [] {
          assert !IsChipSeparator(x[0]) && !IsChipSeparator(x[|x| - 1]);
        }
      }
      TrimmedIsFixed(x);
      TrimAllOfSeparated(xs[1..]);
      assert xs == [x] + xs[1..];
    }
  }

  /** The tokens kept are exactly the separator-delimited pieces of the text
      that match the address pattern: nothing else is added, and no address
      is lost. */
  lemma ValidTokensExact(s: string, x: string)
    ensures x in ValidTokens(s) <==> x in Split(s, IsChipSeparator) && IsLooseAddress(x)
  {
    TrimAllOfSeparated(Split(s, IsChipSeparator));
  }

  /** `file.name.split('.').pop().toLowerCase()`: the lowercased text after
      the last dot, or the whole lowercased name when it has no dot. */
  function Extension(name: string): (r: string)
    ensures |r| <= |name|
    ensures Free(name, IsDot) ==> r == LowerAscii(name)
    ensures forall i | 0 <= i < |name| && IsDot(name[i]) && Free(name[i + 1..], IsDot) ::
      r == LowerAscii(name[i + 1..])
  {
    var parts := Split(name, IsDot);
    SplitLength(name, IsDot);
    LastPiece(name);
    LowerAscii(parts[|parts| - 1])
  }

  /** The last piece of a split on dots is the text after the last dot. */
  lemma LastPiece(name: string)
    ensures Free(name, IsDot) ==> Split(name, IsDot) == [name]
    ensures forall i | 0 <= i < |name| && IsDot(name[i]) && Free(name[i + 1..], IsDot) ::
      Last(Split(name, IsDot)) == name[i + 1..]
  {
    if Free(name, IsDot) {
      SplitFree(name, IsDot);
    }
    forall i | 0 <= i < |name| && IsDot(name[i]) && Free(name[i + 1..], IsDot)
      ensures Last(Split(name, IsDot)) == name[i + 1..]
    {
      LastPieceAfter(name, i);
    }
  }

  lemma LastPieceAfter(name: string, i: nat)
    requires i < |name| && IsDot(name[i]) && Free(name[i + 1..], IsDot)
    ensures Last(Split(name, IsDot)) == name[i + 1..]
  {
    SplitAround(name, i);
    SplitAt(name[..i], name[i], name[i + 1..], IsDot);
    SplitFree(name[i + 1..], IsDot);
  }

  function Last(parts: seq<string>): string
    requires |parts| > 0
  {
    parts[|parts| - 1]
  }

  predicate IsDot(c: char) {
    c == '.'
  }

  lemma {:induction false} SplitLength(s: string, sep: char -> bool)
    ensures forall k | 0 <= k < |Split(s, sep)| :: |Split(s, sep)[k]| <= |s|
  {
    if |s| > 0 {
      SplitLength(s[1..], sep);
    }
  }

  /** The extension check of the file picker. */
  predicate IsSpreadsheetName(name: string) {
    Extension(name) in ["xlsx", "xls", "csv"]
  }

  /** `name` ends, ignoring ASCII case, with a dot and `ext`. */
  predicate EndsWithExtension(name: string, ext: string) {
    |name| > |ext| && name[|name| - |ext| - 1] == '.' && LowerAscii(name[|name| - |ext|..]) == ext
  }

  /** `/\.(xlsx|xls|csv)$/i`, the test a drop uses. */
  predicate HasSpreadsheetSuffix(name: string) {
    EndsWithExtension(name, "xlsx") || EndsWithExtension(name, "xls") || EndsWithExtension(name, "csv")
  }

  lemma LowerAsciiKeepsDots(s: string)
    requires Free(LowerAscii(s), IsDot)
    ensures Free(s, IsDot)
  {
    forall i | 0 <= i < |s| ensures !IsDot(s[i]) {
      assert !IsDot(LowerAscii(s)[i]);
    }
  }

  /** A name ending in `.` and a dot-free `ext` has extension `ext`. */
  lemma ExtensionOfSuffix(name: string, ext: string)
    requires EndsWithExtension(name, ext) && Free(ext, IsDot)
    ensures Extension(name) == ext
  {
    var n := |name| - |ext| - 1;
    LowerAsciiKeepsDots(name[n + 1..]);
  }

  /** Every name a drop routes to the import passes the picker's extension
      check. */
  lemma SuffixPassesExtensionCheck(name: string)
    requires HasSpreadsheetSuffix(name)
    ensures IsSpreadsheetName(name)
  {
    if EndsWithExtension(name, "xlsx") {
      var t := "xlsx";
      assert Free(t, IsDot) by {
        forall i | 0 <= i < |t| ensures !IsDot(t[i]) {
          if i == 0 {} else if i == 1 {} else if i == 2 {} else {}
        }
      }
      ExtensionOfSuffix(name, t);
    } else if EndsWithExtension(name, "xls") {
      var t := "xls";
      assert Free(t, IsDot) by {
        forall i | 0 <= i < |t| ensures !IsDot(t[i]) {
          if i == 0 {} else if i == 1 {} else {}
        }
      }
      ExtensionOfSuffix(name, t);
    } else {
      var t := "csv";
      assert Free(t, IsDot) by {
        forall i | 0 <= i < |t| ensures !IsDot(t[i]) {
          if i == 0 {} else if i == 1 {} else {}
        }
      }
      ExtensionOfSuffix(name, t);
    }
  }

  /** The converse fails: a file named just `csv` passes the picker's check
      but a drop sends it to the attachments. */
  lemma BareExtensionNameOnlyPicked()
    ensures IsSpreadsheetName("csv") && !HasSpreadsheetSuffix("csv")
  {
    assert Split("csv", IsDot) == ["csv"] by {
      var t := "csv";
      assert Free(t, IsDot) by {
        forall i | 0 <= i < |t| ensures !IsDot(t[i]) {
          if i == 0 {} else if i == 1 {} else {}
        }
      }
      SplitFree(t, IsDot);
    }
    assert LowerAscii("csv") == "csv";
  }

  /** `f.name + f.size`, the key attachments are told apart by. */
  function AttachmentKey(f: LocalFile): (r: string)
    ensures |r| > |f.name| && r[..|f.name|] == f.name
    ensures forall i | |f.name| <= i < |r| :: IsDigit(r[i])
    ensures IsNumeral(r[|f.name|..]) && DigitsValue(r[|f.name|..]) == f.size
  {
    var digits := NatToString(f.size);
    assert (f.name + digits)[|f.name|..] == digits;
    f.name + digits
  }

  /** Two different files can share a key: name and size are glued together
      with no separator. */
  lemma AttachmentKeysCollide()
    ensures LocalFile("a1", 23, "") != LocalFile("a12", 3, "")
    ensures AttachmentKey(LocalFile("a1", 23, "")) == AttachmentKey(LocalFile("a12", 3, ""))
  {
    assert NatToString(2) == "2";
    assert NatToString(23) == "23";
    assert NatToString(3) == "3";
  }

  /** The incoming files whose key is not among `keys`, in order. */
  function NotAttached(files: seq<LocalFile>, keys: set<string>): (r: seq<LocalFile>)
    ensures |r| <= |files|
    ensures forall f {:trigger f in r} :: f in r <==> f in files && AttachmentKey(f) !in keys
  {
    if |files| == 0 then []
    else (if AttachmentKey(files[0]) !in keys then [files[0]] else []) + NotAttached(files[1..], keys)
  }

  function Keys(files: seq<LocalFile>): (r: set<string>)
    ensures forall f | f in files :: AttachmentKey(f) in r
    ensures forall k | k in r :: exists f | f in files :: AttachmentKey(f) == k
  {
    set f | f in files :: AttachmentKey(f)
  }

  /** Within one batch nothing is de-duplicated: the same file picked twice
      is attached twice. */
  lemma BatchDuplicatesKept(f: LocalFile)
    ensures NotAttached([f, f], Keys([])) == [f, f]
  {
    assert [f, f][1..] == [f];
    assert [f][1..] == [];
  }

  /** Incoming files are kept in their batch order: the filter distributes
      over concatenation, and a single file is kept exactly when its key is
      new, so repeated files in one batch are all kept. */
  lemma {:induction false} NotAttachedAppend(a: seq<LocalFile>, b: seq<LocalFile>, keys: set<string>)
    ensures NotAttached(a + b, keys) == NotAttached(a, keys) + NotAttached(b, keys)
  {
    if |a| > 0 {
      ConsOfAppend(a, b);
      NotAttachedAppend(a[1..], b, keys);
      NotAttachedCons(a + b, keys);
      NotAttachedCons(a, keys);
    } else {
      assert a + b == b;
    }
  }

  lemma NotAttachedCons(xs: seq<LocalFile>, keys: set<string>)
    requires |xs| > 0
    ensures NotAttached(xs, keys) == NotAttached([xs[0]], keys) + NotAttached(xs[1..], keys)
  {
    assert [xs[0]][1..] == [];
  }

  lemma NotAttachedSingle(f: LocalFile, keys: set<string>)
    ensures NotAttached([f], keys) == if AttachmentKey(f) in keys then [] else [f]
  {
    assert [f][1..] == [];
  }

  /** `prev.filter((_, i) => i !== index)`. */
  function WithoutIndex(xs: seq<LocalFile>, index: int): (r: seq<LocalFile>)
    ensures 0 <= index < |xs| ==> r == xs[..index] + xs[index + 1..]
    ensures !(0 <= index < |xs|) ==> r == xs
    decreases |xs|
  {
    if |xs| == 0 then []
    else
      var rest := WithoutIndex(xs[1..], index - 1);
      assert xs == [xs[0]] + xs[1..];
      if index == 0 then rest else [xs[0]] + rest
  }

  /** `.filter(f => test(f.name))`. */
  function FilterNames(files: seq<LocalFile>, test: string -> bool): (r: seq<LocalFile>)
    ensures |r| <= |files|
    ensures forall f {:trigger f in r} :: f in r <==> f in files && test(f.name)
  {
    if |files| == 0 then []
    else (if test(files[0].name) then [files[0]] else []) + FilterNames(files[1..], test)
  }

  /** Files keep their order through the filter: it distributes over
      concatenation and keeps a single file exactly when it passes. */
  lemma {:induction false} FilterNamesAppend(a: seq<LocalFile>, b: seq<LocalFile>, test: string -> bool)
    ensures FilterNames(a + b, test) == FilterNames(a, test) + FilterNames(b, test)
  {
    if |a| > 0 {
      ConsOfAppend(a, b);
      FilterNamesAppend(a[1..], b, test);
      FilterNamesCons(a + b, test);
      FilterNamesCons(a, test);
    } else {
      assert a + b == b;
    }
  }

  lemma FilterNamesCons(xs: seq<LocalFile>, test: string -> bool)
    requires |xs| > 0
    ensures FilterNames(xs, test) == FilterNames([xs[0]], test) + FilterNames(xs[1..], test)
  {
    assert [xs[0]][1..] == [];
  }

  lemma FilterNamesSingle(f: LocalFile, test: string -> bool)
    ensures FilterNames([f], test) == if test(f.name) then [f] else []
  {
    assert [f][1..] == [];
  }

  /** The first file that passes heads the filtered list, so a drop imports
      the first spreadsheet-named file of the batch. */
  lemma FirstPassingLeads(files: seq<LocalFile>, test: string -> bool, i: int)
    requires 0 <= i < |files| && test(files[i].name)
    requires forall j | 0 <= j < i :: !test(files[j].name)
    ensures FilterNames(files, test) != [] && FilterNames(files, test)[0] == files[i]
  {
    SplitAtFile(files, i);
    FilterNamesAppend(files[..i], files[i..], test);
    NonePassing(files[..i], test);
    FilterNamesAppend([files[i]], files[i + 1..], test);
    FilterNamesSingle(files[i], test);
  }

  lemma SplitAtFile(files: seq<LocalFile>, i: int)
    requires 0 <= i < |files|
    ensures files == files[..i] + files[i..] && files[i..] == [files[i]] + files[i + 1..]
  {
  }

  lemma NonePassing(files: seq<LocalFile>, test: string -> bool)
    requires forall j | 0 <= j < |files| :: !test(files[j].name)
    ensures FilterNames(files, test) == []
  {
  }

  const BadExtensionMsg := "Please upload a valid Excel (.xlsx, .xls) or CSV file."
  const ParseFailurePrefix := "Failed to parse Excel file: "
  const NoRecipientMsg := "Please add at least one recipient or upload an Excel file."
  const DefaultSendError := "Failed to send emails. Please try again."

  function NoAddressesMsg(name: string): string {
    "No valid email addresses found in \"" + name + "\"."
  }

  /** The text of `${response.data.recipientCount}`: `undefined` when the
      reply carries no count. */
  function CountText(count: Option<int>): (r: string)
    ensures count.None? ==> r == "undefined"
    ensures count.Some? && count.value >= 0 ==> IsNumeral(r) && DigitsValue(r) == count.value
    ensures count.Some? && count.value < 0 ==>
      |r| > 1 && r[0] == '-' && IsNumeral(r[1..]) && DigitsValue(r[1..]) == -count.value
  {
    if count.Some? then IntToString(count.value) else "undefined"
  }

  class Composer {
    var subject: string
    var body: string
    var recipientInput: string
    var recipientChips: seq<string>
    var excelFile: Option<LocalFile>
    var excelSummary: Option<ExcelSummary>
    var attachments: seq<LocalFile>
    var status: Status

    /** The chip list holds each address once, and only addresses. */
    predicate Valid()
      reads this
    {
      Distinct(recipientChips) && forall k | 0 <= k < |recipientChips| :: IsLooseAddress(recipientChips[k])
    }

    constructor ()
      ensures Valid()
      ensures subject == "" && body == "" && recipientInput == "" && recipientChips == []
      ensures excelFile.None? && excelSummary.None? && attachments == [] && status == Status(Untyped, "")
    {
      subject, body, recipientInput, recipientChips := "", "", "", [];
      excelFile, excelSummary, attachments, status := None, None, [], Status(Untyped, "");
    }

    method SetSubject(value: string)
      modifies this
      ensures subject == value
      ensures body == old(body) && recipientInput == old(recipientInput) && recipientChips == old(recipientChips)
      ensures excelFile == old(excelFile) && excelSummary == old(excelSummary)
      ensures attachments == old(attachments) && status == old(status)
    {
      subject := value;
    }

    method SetBody(value: string)
      modifies this
      ensures body == value
      ensures subject == old(subject) && recipientInput == old(recipientInput) && recipientChips == old(recipientChips)
      ensures excelFile == old(excelFile) && excelSummary == old(excelSummary)
      ensures attachments == old(attachments) && status == old(status)
    {
      body := value;
    }

    method SetRecipientInput(value: string)
      modifies this
      ensures recipientInput == value
      ensures subject == old(subject) && body == old(body) && recipientChips == old(recipientChips)
      ensures excelFile == old(excelFile) && excelSummary == old(excelSummary)
      ensures attachments == old(attachments) && status == old(status)
    {
      recipientInput := value;
    }

    /** `addEmailChip`: the addresses in `value` join the chips, old chips
        first and in their order, new ones after in first-appearance order;
        the pending input is cleared only when there was at least one. */
    method AddEmailChip(value: string)
      requires Valid()
      modifies this
      ensures Valid()
      ensures ValidTokens(value) != [] ==>
        && recipientChips == Dedup(old(recipientChips) + ValidTokens(value))
        && recipientChips == old(recipientChips) + Dedup(Without(ValidTokens(value), old(recipientChips)))
        && recipientInput == ""
      ensures ValidTokens(value) == [] ==> recipientChips == old(recipientChips) && recipientInput == old(recipientInput)
      ensures subject == old(subject) && body == old(body)
      ensures excelFile == old(excelFile) && excelSummary == old(excelSummary)
      ensures attachments == old(attachments) && status == old(status)
    {
      var emails := ValidTokens(value);
      if |emails| > 0 {
        MergeChips(recipientChips, emails);
        recipientChips := Dedup(recipientChips + emails);
        recipientInput := "";
      }
    }

    /** `handleRecipientKeyDown`. */
    method KeyDown(key: string)
      requires Valid()
      modifies this
      ensures Valid()
      ensures key in ["Enter", ",", " ", "Tab"] ==>
        && (ValidTokens(old(recipientInput)) != [] ==>
          recipientChips == Dedup(old(recipientChips) + ValidTokens(old(recipientInput))) && recipientInput == "")
        && (ValidTokens(old(recipientInput)) == [] ==>
          recipientChips == old(recipientChips) && recipientInput == old(recipientInput))
      ensures key == "Backspace" && old(recipientInput) == "" && |old(recipientChips)| > 0 ==>
        recipientChips == old(recipientChips)[..|old(recipientChips)| - 1] && recipientInput == old(recipientInput)
      ensures key == "Backspace" && (old(recipientInput) != "" || old(recipientChips) == []) ==>
        recipientChips == old(recipientChips) && recipientInput == old(recipientInput)
      ensures key !in ["Enter", ",", " ", "Tab", "Backspace"] ==>
        recipientChips == old(recipientChips) && recipientInput == old(recipientInput)
      ensures subject == old(subject) && body == old(body)
      ensures excelFile == old(excelFile) && excelSummary == old(excelSummary)
      ensures attachments == old(attachments) && status == old(status)
    {
      if key in ["Enter", ",", " ", "Tab"] {
        AddEmailChip(recipientInput);
      }
      if key == "Backspace" && recipientInput == "" && |recipientChips| > 0 {
        recipientChips := recipientChips[..|recipientChips| - 1];
      }
    }

    /** `removeChip`: the address goes, every other chip stays in place. */
    method RemoveChip(email: string)
      requires Valid()
      modifies this
      ensures Valid()
      ensures recipientChips == RemoveValue(old(recipientChips), email)
      ensures forall i | 0 <= i < |old(recipientChips)| && old(recipientChips)[i] == email ::
        recipientChips == old(recipientChips)[..i] + old(recipientChips)[i + 1..]
      ensures email !in old(recipientChips) ==> recipientChips == old(recipientChips)
      ensures subject == old(subject) && body == old(body) && recipientInput == old(recipientInput)
      ensures excelFile == old(excelFile) && excelSummary == old(excelSummary)
      ensures attachments == old(attachments) && status == old(status)
    {
      forall i | 0 <= i < |recipientChips| && recipientChips[i] == email
        ensures RemoveValue(recipientChips, email) == recipientChips[..i] + recipientChips[i + 1..]
      {
        RemoveValueAt(recipientChips, i);
      }
      if email !in recipientChips {
        RemoveAbsent(recipientChips, email);
      }
      var kept := RemoveValue(recipientChips, email);
      RemovePreservesChips(recipientChips, email);
      recipientChips := kept;
    }

    /** `handleExcelUpload`, with `decoded` standing for what the reader and
        the decoder make of the file. */
    method UploadSpreadsheet(file: Option<LocalFile>, decoded: Decoding)
      requires Valid()
      modifies this
      ensures Valid()
      ensures file.None? ==>
        && recipientChips == old(recipientChips) && excelFile == old(excelFile)
        && excelSummary == old(excelSummary) && status == old(status)
      ensures file.Some? && !IsSpreadsheetName(file.value.name) ==>
        && recipientChips == old(recipientChips) && excelFile == old(excelFile)
        && excelSummary == old(excelSummary) && status == Status(ErrorType, BadExtensionMsg)
      ensures file.Some? && IsSpreadsheetName(file.value.name) && decoded.DecodeFailed? ==>
        && recipientChips == old(recipientChips) && excelFile.None? && excelSummary.None?
        && status == Status(ErrorType, ParseFailurePrefix + decoded.message)
      ensures file.Some? && IsSpreadsheetName(file.value.name) && decoded.Decoded? ==>
        var unique := Dedup(Scan(decoded.rows, LoosePick));
        && (unique == [] ==>
          && recipientChips == old(recipientChips) && excelFile.None? && excelSummary.None?
          && status == Status(ErrorType, NoAddressesMsg(file.value.name)))
        && (unique != [] ==>
          && recipientChips == Dedup(old(recipientChips) + unique)
          && recipientChips == old(recipientChips) + Dedup(Without(unique, old(recipientChips)))
          && excelFile == file && excelSummary == Some(ExcelSummary(file.value.name, |unique|))
          && status == old(status))
      ensures subject == old(subject) && body == old(body) && recipientInput == old(recipientInput)
      ensures attachments == old(attachments)
    {
      if file.None? {
        return;
      }
      var f := file.value;
      if !IsSpreadsheetName(f.name) {
        status := Status(ErrorType, BadExtensionMsg);
        return;
      }
      excelFile := Some(f);
      excelSummary := None;
      match decoded {
        case DecodeFailed(message) =>
          status := Status(ErrorType, ParseFailurePrefix + message);
          excelFile := None;
        case Decoded(rows) =>
          var found := ScanInto([], rows, LoosePick);
          assert found == Scan(rows, LoosePick);
          var unique := Dedup(found);
          if |unique| == 0 {
            status := Status(ErrorType, NoAddressesMsg(f.name));
            excelFile := None;
            return;
          }
          UniqueMatchesAreAddresses(rows);
          MergeChips(recipientChips, unique);
          recipientChips := Dedup(recipientChips + unique);
          excelSummary := Some(ExcelSummary(f.name, |unique|));
      }
    }

    /** `handleAttachmentUpload`: incoming files whose key is already taken
        are dropped, the rest appended in order. */
    method AddAttachments(files: seq<LocalFile>)
      modifies this
      ensures attachments == old(attachments) + NotAttached(files, Keys(old(attachments)))
      ensures forall f | f in attachments[|old(attachments)|..] :: f in files && AttachmentKey(f) !in Keys(old(attachments))
      ensures forall f | f in files && AttachmentKey(f) !in Keys(old(attachments)) :: f in attachments
      ensures subject == old(subject) && body == old(body) && recipientInput == old(recipientInput)
      ensures recipientChips == old(recipientChips) && excelFile == old(excelFile)
      ensures excelSummary == old(excelSummary) && status == old(status)
    {
      var existing := Keys(attachments);
      var added := NotAttached(files, existing);
      attachments := attachments + added;
      assert attachments[|old(attachments)|..] == added;
    }

    /** `removeAttachment`: exactly the entry at `index` goes. */
    method RemoveAttachment(index: int)
      modifies this
      ensures 0 <= index < |old(attachments)| ==> attachments == old(attachments)[..index] + old(attachments)[index + 1..]
      ensures !(0 <= index < |old(attachments)|) ==> attachments == old(attachments)
      ensures subject == old(subject) && body == old(body) && recipientInput == old(recipientInput)
      ensures recipientChips == old(recipientChips) && excelFile == old(excelFile)
      ensures excelSummary == old(excelSummary) && status == old(status)
    {
      attachments := WithoutIndex(attachments, index);
    }

    /** `handleDrop`: the first file with a spreadsheet name goes to the
        import, every other file to the attachments. */
    method Drop(files: seq<LocalFile>, decoded: Decoding)
      requires Valid()
      modifies this
      ensures Valid()
      ensures var sheets := FilterNames(files, HasSpreadsheetSuffix);
        sheets == [] ==>
          && recipientChips == old(recipientChips) && excelFile == old(excelFile)
          && excelSummary == old(excelSummary) && status == old(status)
      ensures var sheets := FilterNames(files, HasSpreadsheetSuffix);
        sheets != [] && decoded.DecodeFailed? ==>
          && recipientChips == old(recipientChips) && excelFile.None? && excelSummary.None?
          && status == Status(ErrorType, ParseFailurePrefix + decoded.message)
      ensures var sheets := FilterNames(files, HasSpreadsheetSuffix);
        sheets != [] && decoded.Decoded? ==>
          var unique := Dedup(Scan(decoded.rows, LoosePick));
          && (unique == [] ==>
            && recipientChips == old(recipientChips) && excelFile.None? && excelSummary.None?
            && status == Status(ErrorType, NoAddressesMsg(sheets[0].name)))
          && (unique != [] ==>
            && recipientChips == Dedup(old(recipientChips) + unique)
            && recipientChips == old(recipientChips) + Dedup(Without(unique, old(recipientChips)))
            && excelFile == Some(sheets[0]) && excelSummary == Some(ExcelSummary(sheets[0].name, |unique|))
            && status == old(status))
      ensures attachments == old(attachments) + NotAttached(FilterNames(files, name => !HasSpreadsheetSuffix(name)), Keys(old(attachments)))
      ensures subject == old(subject) && body == old(body) && recipientInput == old(recipientInput)
    {
      var sheets := FilterNames(files, HasSpreadsheetSuffix);
      var others := FilterNames(files, name => !HasSpreadsheetSuffix(name));
      if |sheets| > 0 {
        assert sheets[0] in sheets;
        SuffixPassesExtensionCheck(sheets[0].name);
        UploadSpreadsheet(Some(sheets[0]), decoded);
      }
      if |others| > 0 {
        AddAttachments(others);
      } else {
        assert NotAttached(others, Keys(attachments)) == [];
      }
    }

    /** `handleSubmit` up to the request: the chips and the addresses still
        in the input are merged; with none and no spreadsheet the send is
        refused. */
    method Submit() returns (post: Option<Submission>)
      requires Valid()
      modifies this
      ensures Valid()
      ensures var manual := if old(recipientInput) != "" then ValidTokens(old(recipientInput)) else [];
        var all := Dedup(old(recipientChips) + manual);
        && (all == [] && old(excelFile).None? ==> post.None? && status == Status(ErrorType, NoRecipientMsg))
        && (all != [] || old(excelFile).Some? ==>
          && post == Some(Submission(subject, body, all, excelFile, attachments))
          && status == Status(Untyped, ""))
      ensures post.Some? ==> Distinct(post.value.recipients)
      ensures post.Some? ==> forall k | 0 <= k < |post.value.recipients| :: IsLooseAddress(post.value.recipients[k])
      ensures subject == old(subject) && body == old(body) && recipientInput == old(recipientInput)
      ensures recipientChips == old(recipientChips) && excelFile == old(excelFile)
      ensures excelSummary == old(excelSummary) && attachments == old(attachments)
    {
      status := Status(Untyped, "");
      var manual := if recipientInput != "" then ValidTokens(recipientInput) else [];
      var all := Dedup(recipientChips + manual);
      if |all| == 0 && excelFile.None? {
        status := Status(ErrorType, NoRecipientMsg);
        return None;
      }
      MergeChips(recipientChips, manual);
      return Some(Submission(subject, body, all, excelFile, attachments));
    }

    /** The reply arrived: the form is reset and the count reported. */
    method SubmitSucceeded(recipientCount: Option<int>)
      modifies this
      ensures Valid()
      ensures status == Status(SuccessType, "\U{2713} Emails sent to " + CountText(recipientCount) + " recipients successfully!")
      ensures subject == "" && body == "" && recipientInput == "" && recipientChips == []
      ensures excelFile.None? && excelSummary.None? && attachments == []
    {
      status := Status(SuccessType, "\U{2713} Emails sent to " + CountText(recipientCount) + " recipients successfully!");
      subject, body, recipientInput, recipientChips := "", "", "", [];
      excelFile, excelSummary, attachments := None, None, [];
    }

    /** The request failed: the reply's `error` text if it has one, else a
        fixed message; the form is kept. */
    method SubmitFailed(error: Option<string>)
      modifies this
      ensures error.Some? && error.value != "" ==> status == Status(ErrorType, error.value)
      ensures error.None? || error.value == "" ==> status == Status(ErrorType, DefaultSendError)
      ensures subject == old(subject) && body == old(body) && recipientInput == old(recipientInput)
      ensures recipientChips == old(recipientChips) && excelFile == old(excelFile)
      ensures excelSummary == old(excelSummary) && attachments == old(attachments)
    {
      if error.Some? && error.value != "" {
        status := Status(ErrorType, error.value);
      } else {
        status := Status(ErrorType, DefaultSendError);
      }
    }
  }

  lemma RemovePreservesChips(chips: seq<string>, email: string)
    requires Distinct(chips) && forall k | 0 <= k < |chips| :: IsLooseAddress(chips[k])
    ensures Distinct(RemoveValue(chips, email))
    ensures forall k | 0 <= k < |RemoveValue(chips, email)| :: IsLooseAddress(RemoveValue(chips, email)[k])
  {
    var r := RemoveValue(chips, email);
    forall k | 0 <= k < |r| ensures IsLooseAddress(r[k]) {
      assert r[k] in r;
    }
    if email in chips {
      var i :| 0 <= i < |chips| && chips[i] == email;
      RemoveValueAt(chips, i);
      DistinctWithout(chips, i);
    } else {
      RemoveAbsent(chips, email);
    }
  }

  lemma DistinctWithout(xs: seq<string>, i: nat)
    requires Distinct(xs) && i < |xs|
    ensures Distinct(xs[..i] + xs[i + 1..])
  {
    var r := xs[..i] + xs[i + 1..];
    forall a, b | 0 <= a < b < |r| ensures r[a] != r[b] {
      var a' := if a < i then a else a + 1;
      var b' := if b < i then b else b + 1;
      assert r[a] == xs[a'] && r[b] == xs[b'];
    }
  }

  /** Merging addresses into the chips keeps them a duplicate-free list of
      addresses, with the old chips first and in place. */
  lemma MergeChips(chips: seq<string>, more: seq<string>)
    requires Distinct(chips) && forall k | 0 <= k < |chips| :: IsLooseAddress(chips[k])
    requires forall k | 0 <= k < |more| :: IsLooseAddress(more[k])
    ensures Distinct(Dedup(chips + more))
    ensures forall k | 0 <= k < |Dedup(chips + more)| :: IsLooseAddress(Dedup(chips + more)[k])
    ensures Dedup(chips + more) == chips + Dedup(Without(more, chips))
  {
    var merged := chips + more;
    var r := Dedup(merged);
    DedupIsDistinct(merged);
    MergeKeepsPrefix(chips, more);
    forall k | 0 <= k < |r| ensures IsLooseAddress(r[k]) {
      assert r[k] in r;
      assert r[k] in merged;
    }
  }

  /** What a spreadsheet import adds are addresses. */
  lemma UniqueMatchesAreAddresses(rows: seq<Row>)
    ensures forall k | 0 <= k < |Dedup(Scan(rows, LoosePick))| :: IsLooseAddress(Dedup(Scan(rows, LoosePick))[k])
  {
    var found := Scan(rows, LoosePick);
    var unique := Dedup(found);
    forall k | 0 <= k < |unique| ensures IsLooseAddress(unique[k]) {
      assert unique[k] in unique;
      LooseScanSound(rows, unique[k]);
    }
  }
}
