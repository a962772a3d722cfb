/**
 * What the two forms post and what the two send handlers make of it: the
 * recipient list a form sends is compared with the list a handler parses.
 */
module Interop {
  import opened Wrappers
  import opened Text
  import opened Address
  import opened Sheet
  import opened Mail
  import MailController
  import MailRoutes
  import MailComposer
  import Dashboard

  /** The `recipients` field the composer's form data carries once the
      multipart parser has read it: one `append` per address, so nothing, a
      single string, or an array. */
  function ComposerField(recipients: seq<string>): (f: FormField)
    ensures f.Absent? <==> recipients == []
    ensures f.Single? ==> [f.value] == recipients
    ensures f.Repeated? ==> f.values == recipients && |recipients| > 1
  {
    if |recipients| == 0 then Absent
    else if |recipients| == 1 then Single(recipients[0])
    else Repeated(recipients)
  }

  /** An address with no comma. */
  predicate PlainAddress(x: string) {
    IsLooseAddress(x) && Free(x, IsComma)
  }

  lemma PlainAddressIsToken(x: string)
    requires PlainAddress(x)
    ensures x != "" && Trimmed(x)
    ensures Free(x, MailController.IsRecipientSeparator)
  {
    LooseShape(x);
  }

  /** The dashboard's posted string, `recipientArray.join(',')`, is parsed
      by `/send` back into exactly the list the dashboard checked. */
  lemma DashboardPostParsed(recipients: string)
    ensures MailRoutes.ParseRecipients(Single(Join(Dashboard.RecipientList(recipients), ","))) == Dashboard.RecipientList(recipients)
  {
    PiecesOfJoin(Dashboard.RecipientList(recipients), ",", IsComma);
  }

  /** The composer's addresses reach `/send` unchanged as long as none holds
      a comma. */
  lemma ComposerPostParsedByRoutes(recipients: seq<string>)
    requires forall k | 0 <= k < |recipients| :: PlainAddress(recipients[k])
    ensures MailRoutes.ParseRecipients(ComposerField(recipients)) == recipients
  {
    if |recipients| == 1 {
      var x := recipients[0];
      PlainAddressIsToken(x);
      PiecesFree(x, IsComma);
      TrimmedIsFixed(x);
    }
  }

  /** ... and reach the controller unchanged too, whether sent once or as
      an array. */
  lemma ComposerPostParsedByController(recipients: seq<string>)
    requires forall k | 0 <= k < |recipients| :: PlainAddress(recipients[k])
    ensures MailController.ManualRecipients(ComposerField(recipients)) == recipients
  {
    forall k | 0 <= k < |recipients|
      ensures recipients[k] != "" && Trimmed(recipients[k]) && Free(recipients[k], MailController.IsRecipientSeparator)
    {
      PlainAddressIsToken(recipients[k]);
    }
    if |recipients| == 1 {
      var x := recipients[0];
      PiecesFree(x, MailController.IsRecipientSeparator);
      TrimmedIsFixed(x);
    } else if |recipients| > 1 {
      PiecesOfJoin(recipients, ",", MailController.IsRecipientSeparator);
    }
  }

  /** A chip imported from a cell that holds a comma is split by `/send`
      when it is the only recipient, and kept whole when it is one of
      several. */
  lemma CommaChipSplitOnlyWhenAlone()
    ensures IsLooseAddress("a,b@c.de")
    ensures MailRoutes.ParseRecipients(ComposerField(["a,b@c.de"])) == ["a", "b@c.de"]
    ensures MailRoutes.ParseRecipients(ComposerField(["a,b@c.de", "x@y.zz"])) == ["a,b@c.de", "x@y.zz"]
  {
    MiddleCharIsLoose(',');
    assert "a,b@c.de" == ['a', ',', 'b'] + "@c.de";
    CommaChipPieces();
    assert ComposerField(["a,b@c.de"]) == Single("a,b@c.de");
  }

  lemma CommaChipPieces()
    ensures Pieces("a,b@c.de", IsComma) == ["a", "b@c.de"]
  {
    var parts := ["a", "b@c.de"];
    assert Join(parts, ",") == "a,b@c.de" by {
      JoinCons("a", ["b@c.de"], ",");
    }
    assert ListEntryParts: forall k | 0 <= k < |parts| :: parts[k] != "" && Trimmed(parts[k]) && Free(parts[k], IsComma) by {
      CommaFreeTail();
    }
    PiecesOfJoin(parts, ",", IsComma);
  }

  lemma CommaFreeTail()
    ensures Trimmed("a") && Free("a", IsComma)
    ensures Trimmed("b@c.de") && Free("b@c.de", IsComma)
  {
    var t := "b@c.de";
    forall j | 0 <= j < |t| ensures !IsComma(t[j]) {
      if j == 0 {} else if j == 1 {} else if j == 2 {} else if j == 3 {} else if j == 4 {} else {}
    }
  }

  /** When the composer posts its spreadsheet beside the chips it already
      imported from it, the controller's second scan adds nobody: the
      resolved list is the posted one. */
  lemma SheetRescanAddsNothing(recipients: seq<string>, rows: seq<Row>)
    requires Distinct(recipients)
    requires forall k | 0 <= k < |recipients| :: PlainAddress(recipients[k])
    requires forall x | x in Scan(rows, LoosePick) :: x in recipients
    ensures MailController.Resolve(ComposerField(recipients), Some(Decoded(rows))) == Ok(recipients)
  {
    ComposerPostParsedByController(recipients);
    var found := Scan(rows, LoosePick);
    MergeKeepsPrefix(recipients, found);
    var rest := Without(found, recipients);
    WithoutCovered(found, recipients);
    assert Dedup(rest) == [];
    assert Dedup(recipients + found) == recipients;
    assert MailController.ManualRecipients(ComposerField(recipients)) + found == recipients + found;
  }
}
