/**
 * A spreadsheet already decoded into the first sheet's rows, as
 * `sheet_to_json(sheet, { header: 1 })` yields them, and the scans that pull
 * e-mail addresses out of its cells.
 */
module Sheet {
  import opened Wrappers
  import opened Text
  import opened Address

  /** One cell value: a string, a number (integers only, see README), a
      boolean, or a blank. */
  datatype Cell = StringCell(text: string) | NumberCell(number: int) | BooleanCell(flag: bool) | BlankCell

  /** A row is normally an array of cells; anything else is `OtherRow`. */
  datatype Row = ArrayRow(cells: seq<Cell>) | OtherRow

  /** The outcome of decoding an uploaded file: its rows, or the message of
      the exception the decoder threw. */
  datatype Decoding = Decoded(rows: seq<Row>) | DecodeFailed(message: string)

  /** `String(cell || '')`: falsy cells (blank, `0`, `false`, `''`) become the
      empty string. */
  function CellText(c: Cell): (r: string)
    ensures c.StringCell? ==> r == c.text
    ensures c.BlankCell? || c == NumberCell(0) || c == BooleanCell(false) ==> r == ""
  {
    match c
    case StringCell(s) => s
    case NumberCell(n) => if n == 0 then "" else IntToString(n)
    case BooleanCell(b) => if b then "true" else ""
    case BlankCell => ""
  }

  /** What the server controller and the composer keep of a cell: its
      stringified, trimmed text when that matches the loose pattern. */
  function LoosePick(c: Cell): (r: Option<string>)
    ensures r.Some? ==> IsLooseAddress(r.value)
    ensures IsLooseAddress(Trim(CellText(c))) ==> r == Some(Trim(CellText(c)))
  {
    var v := Trim(CellText(c));
    if IsLooseAddress(v) then Some(v) else None
  }

  /** What the dashboard keeps of a cell: a string cell's trimmed text when
      that matches the strict pattern; other cells never. */
  function StrictPick(c: Cell): (r: Option<string>)
    ensures r.Some? ==> c.StringCell? && IsStrictAddress(r.value) && r.value == Trim(c.text)
    ensures c.StringCell? && IsStrictAddress(Trim(c.text)) ==> r == Some(Trim(c.text))
  {
    match c
    case StringCell(s) => if IsStrictAddress(Trim(s)) then Some(Trim(s)) else None
    case _ => None
  }

  /** The values a pick keeps from one row, in cell order. */
  function ScanCells(cells: seq<Cell>, pick: Cell -> Option<string>): seq<string> {
    if |cells| == 0 then []
    else
      var init := ScanCells(cells[..|cells| - 1], pick);
      match pick(cells[|cells| - 1])
      case Some(v) => init + [v]
      case None => init
  }

  /** The values a pick keeps from the array rows, row by row and cell by
      cell; other rows contribute nothing. */
  function Scan(rows: seq<Row>, pick: Cell -> Option<string>): seq<string> {
    if |rows| == 0 then []
    else
      var init := Scan(rows[..|rows| - 1], pick);
      match rows[|rows| - 1]
      case ArrayRow(cells) => init + ScanCells(cells, pick)
      case OtherRow => init
  }

  /** A value is kept from a row exactly when some cell of the row yields it. */
  lemma {:induction false} ScanCellsMembers(cells: seq<Cell>, pick: Cell -> Option<string>, x: string)
    ensures x in ScanCells(cells, pick) <==> exists c | 0 <= c < |cells| :: pick(cells[c]) == Some(x)
  {
    if |cells| > 0 {
      var init := cells[..|cells| - 1];
      ScanCellsMembers(init, pick, x);
      if exists c | 0 <= c < |init| :: pick(init[c]) == Some(x) {
        var c :| 0 <= c < |init| && pick(init[c]) == Some(x);
        assert cells[c] == init[c];
      }
      if exists c | 0 <= c < |cells| :: pick(cells[c]) == Some(x) {
        var c :| 0 <= c < |cells| && pick(cells[c]) == Some(x);
        if c < |init| {
          assert init[c] == cells[c];
        }
      }
    }
  }

  /** A value is in the scan exactly when some cell of some array row yields it. */
  lemma {:induction false} ScanMembers(rows: seq<Row>, pick: Cell -> Option<string>, x: string)
    ensures x in Scan(rows, pick) <==>
      exists r, c | 0 <= r < |rows| && rows[r].ArrayRow? && 0 <= c < |rows[r].cells| :: pick(rows[r].cells[c]) == Some(x)
  {
    if |rows| > 0 {
      var init := rows[..|rows| - 1];
      var last := rows[|rows| - 1];
      ScanMembers(init, pick, x);
      if last.ArrayRow? {
        ScanCellsMembers(last.cells, pick, x);
      }
      if exists r, c | 0 <= r < |init| && init[r].ArrayRow? && 0 <= c < |init[r].cells| :: pick(init[r].cells[c]) == Some(x) {
        var r, c :| 0 <= r < |init| && init[r].ArrayRow? && 0 <= c < |init[r].cells| && pick(init[r].cells[c]) == Some(x);
        assert rows[r] == init[r];
      }
      if exists r, c | 0 <= r < |rows| && rows[r].ArrayRow? && 0 <= c < |rows[r].cells| :: pick(rows[r].cells[c]) == Some(x) {
        var r, c :| 0 <= r < |rows| && rows[r].ArrayRow? && 0 <= c < |rows[r].cells| && pick(rows[r].cells[c]) == Some(x);
        if r < |init| {
          assert init[r] == rows[r];
          assert exists r', c' | 0 <= r' < |init| && init[r'].ArrayRow? && 0 <= c' < |init[r'].cells| :: pick(init[r'].cells[c']) == Some(x);
        } else {
          assert exists c' | 0 <= c' < |last.cells| :: pick(last.cells[c']) == Some(x);
        }
      }
    }
  }

  /** Every address the loose scan extracts matches the loose pattern and
      comes from some cell of an array row. */
  lemma LooseScanSound(rows: seq<Row>, x: string)
    requires x in Scan(rows, LoosePick)
    ensures IsLooseAddress(x)
    ensures exists r, c | 0 <= r < |rows| && rows[r].ArrayRow? && 0 <= c < |rows[r].cells| :: Trim(CellText(rows[r].cells[c])) == x
  {
    ScanMembers(rows, LoosePick, x);
    var r, c :| 0 <= r < |rows| && rows[r].ArrayRow? && 0 <= c < |rows[r].cells| && LoosePick(rows[r].cells[c]) == Some(x);
  }

  /** Stringifying numbers and booleans never produces an address: the loose
      scan keeps only string cells, though unlike the strict one it does not
      ask. */
  lemma OnlyStringCellsMatch(c: Cell)
    ensures LoosePick(c).Some? ==> c.StringCell?
  {
    if !c.StringCell? {
      var s := CellText(c);
      CellTextNoAt(c);
      TrimKeepsFree(s, IsAt);
      AtFreeNotLoose(Trim(s));
    }
  }

  /** The at sign, the one character every address contains. */
  predicate IsAt(c: char) {
    c == '@'
  }

  /** Numbers, booleans and blanks stringify without an at sign. */
  lemma CellTextNoAt(c: Cell)
    requires !c.StringCell?
    ensures Free(CellText(c), IsAt)
  {
  }

  /** Text without an at sign is never a loose address. */
  lemma AtFreeNotLoose(v: string)
    requires Free(v, IsAt)
    ensures !IsLooseAddress(v)
  {
    forall i | 0 < i < |v| ensures !LooseAt(v, i) {
      assert !IsAt(v[i]);
    }
  }

  lemma ScanCellsStep(cells: seq<Cell>, j: nat, pick: Cell -> Option<string>)
    requires j < |cells|
    ensures ScanCells(cells[..j + 1], pick) ==
      ScanCells(cells[..j], pick) + (if pick(cells[j]).Some? then [pick(cells[j]).value] else [])
  {
    assert cells[..j + 1][..j] == cells[..j];
  }

  lemma ScanStep(rows: seq<Row>, i: nat, pick: Cell -> Option<string>)
    requires i < |rows|
    ensures Scan(rows[..i + 1], pick) ==
      Scan(rows[..i], pick) + (if rows[i].ArrayRow? then ScanCells(rows[i].cells, pick) else [])
  {
    assert rows[..i + 1][..i] == rows[..i];
  }

  /** `row.forEach(cell => ...)`: pushes the kept text of every matching
      cell of one row onto `found`, in cell order. */
  method ScanRowInto(found0: seq<string>, cells: seq<Cell>, pick: Cell -> Option<string>) returns (found: seq<string>)
    ensures found == found0 + ScanCells(cells, pick)
  {
    found := found0;
    var j := 0;
    while j < |cells|
      invariant 0 <= j <= |cells|
      invariant found == found0 + ScanCells(cells[..j], pick)
    {
      ScanCellsStep(cells, j, pick);
      var picked := pick(cells[j]);
      if picked.Some? {
        found := found + [picked.value];
      }
      j := j + 1;
    }
    assert cells[..j] == cells;
  }

  /** The scan as the server controller and the composer run it: nested
      loops over rows and cells, skipping rows that are not arrays and pushing
      the kept text of every matching cell onto `found`. `pick` is the cell
      test, `LoosePick` in both. */
  method ScanInto(found0: seq<string>, rows: seq<Row>, pick: Cell -> Option<string>) returns (found: seq<string>)
    ensures found == found0 + Scan(rows, pick)
  {
    found := found0;
    var i := 0;
    while i < |rows|
      invariant 0 <= i <= |rows|
      invariant found == found0 + Scan(rows[..i], pick)
    {
      ScanStep(rows, i, pick);
      match rows[i] {
        case ArrayRow(cells) =>
          found := ScanRowInto(found, cells, pick);
        case OtherRow =>
      }
      i := i + 1;
    }
    assert rows[..i] == rows;
  }

  /** Every row is an array. */
  predicate AllArrays(rows: seq<Row>) {
    forall i | 0 <= i < |rows| :: rows[i].ArrayRow?
  }

  /** The scan as the dashboard runs it: the same nested loops, except that
      a row that is not an array makes `row.forEach` throw, which abandons
      the whole scan. */
  method ScanAll(rows: seq<Row>, pick: Cell -> Option<string>) returns (r: Option<seq<string>>)
    ensures r.Some? <==> AllArrays(rows)
    ensures r.Some? ==> r.value == Scan(rows, pick)
  {
    var found := [];
    var i := 0;
    while i < |rows|
      invariant 0 <= i <= |rows|
      invariant AllArrays(rows[..i])
      invariant found == Scan(rows[..i], pick)
    {
      ScanStep(rows, i, pick);
      match rows[i] {
        case ArrayRow(cells) =>
          found := ScanRowInto(found, cells, pick);
        case OtherRow =>
          return None;
      }
      i := i + 1;
    }
    assert rows[..i] == rows;
    return Some(found);
  }
}
