/** The CSV import dialog's data path (frontend/src/components/csv-import.tsx): parsing the
    uploaded text into typed rows, client-side validation, stripping the row metadata before
    the rows are sent, mapping the server's per-row errors back onto the rows, and the rule
    that enables the Import button. */
module CsvImport {
  import opened Text
  import opened Records

  /** A cell value after typing: the text, a number or a boolean. */
  datatype Value = Str(s: string) | Num(n: real) | Bool(b: bool)

  /** A parsed record: a JavaScript object from column name to value. The metadata the
      dialog adds lives in the same object under the keys below. */
  type Row = map<string, Value>

  const RowIndexKey := "_rowIndex"
  const HasErrorKey := "_hasError"
  const ErrorMessageKey := "_errorMessage"
  const MetaKeys: set<string> := {RowIndexKey, HasErrorKey, ErrorMessageKey}

  const NeedHeaderAndRow := "CSV file must contain at least a header row and one data row"
  const NoDataRows := "No data rows found in the CSV file"
  const SkuRequired := "SKU is required"

  const SkuKey := "sku"
  const NotesKey := "notes"
  const ArchivedKey := "archived"

  /** Product columns that are read as numbers. */
  const NumericColumns: set<string> := {"price", "cost", "quantity", "length", "width", "height", "weight"}

  /** The kinds of entity the dialog types cells for; any other entity name keeps every cell as text. */
  datatype Entity = Businesses | Products | OtherEntity

  function EntityOf(entityName: string): Entity
  {
    if Lower(entityName) == "businesses" then Businesses
    else if Lower(entityName) == "products" then Products
    else OtherEntity
  }

  /** The entity name is matched without regard to case. */
  lemma EntityOfIgnoresCase(entityName: string)
    ensures EntityOf(Lower(entityName)) == EntityOf(entityName)
  {
    LowerIdempotent(entityName);
  }

  // ---------------------------------------------------------------- notes unescaping

  /** No backslash is immediately followed by `n`. */
  predicate NoEscapedNewline(s: string)
  {
    forall i :: 0 <= i < |s| - 1 ==> !(s[i] == '\\' && s[i + 1] == 'n')
  }

  /** `value.replace(/\\n/g, '\n')`: every two-character `\n`, found left to right without
      overlap, becomes a newline. None survives in the result. */
  function Unescape(s: string): (r: string)
    ensures NoEscapedNewline(r)
    ensures |r| <= |s|
    ensures |s| > 0 ==> |r| > 0 && (r[0] == '\n' || r[0] == s[0])
  {
    if |s| >= 2 && s[0] == '\\' && s[1] == 'n' then
      var rest := Unescape(s[2..]);
      assert forall i :: 1 <= i < |rest| ==> (['\n'] + rest)[i] == rest[i - 1];
      ['\n'] + rest
    else if |s| == 0 then []
    else
      var rest := Unescape(s[1..]);
      assert forall i :: 1 <= i < |rest| ==> ([s[0]] + rest)[i] == rest[i - 1];
      [s[0]] + rest
  }

  /** The inverse direction, which the dialog itself never performs: each newline written as
      the two characters `\n`. No newline is left, and the text only grows. */
  function Escape(s: string): (r: string)
    ensures |r| >= |s|
    ensures forall i :: 0 <= i < |r| ==> r[i] != '\n'
    ensures |s| > 0 ==> |r| > 0 && r[0] == (if s[0] == '\n' then '\\' else s[0])
  {
    if |s| == 0 then []
    else if s[0] == '\n' then
      var rest := Escape(s[1..]);
      assert forall i :: 2 <= i < 2 + |rest| ==> (['\\', 'n'] + rest)[i] == rest[i - 2];
      ['\\', 'n'] + rest
    else
      var rest := Escape(s[1..]);
      assert forall i :: 1 <= i < 1 + |rest| ==> ([s[0]] + rest)[i] == rest[i - 1];
      [s[0]] + rest
  }

  /** A note written with `\n` for its newlines reads back as written, provided it had no
      literal backslash-n of its own. */
  lemma {:induction false} UnescapeEscape(s: string)
    requires NoEscapedNewline(s)
    ensures Unescape(Escape(s)) == s
  {
    if |s| > 0 {
      assert NoEscapedNewline(s[1..]) by {
        forall i | 0 <= i < |s[1..]| - 1 ensures !(s[1..][i] == '\\' && s[1..][i + 1] == 'n') {
          assert s[1..][i] == s[i + 1] && s[1..][i + 1] == s[i + 2];
        }
      }
      UnescapeEscape(s[1..]);
      var e := Escape(s[1..]);
      if s[0] == '\n' {
        assert Escape(s) == ['\\', 'n'] + e;
        assert (['\\', 'n'] + e)[2..] == e;
      } else {
        assert Escape(s) == [s[0]] + e;
        assert (|s| >= 2 ==> s[1] != 'n') || s[0] != '\\';
        assert ([s[0]] + e)[1..] == e;
      }
    }
  }

  /** Text without a backslash-n is left alone. */
  lemma {:induction false} UnescapePlain(s: string)
    requires NoEscapedNewline(s)
    ensures Unescape(s) == s
  {
    if |s| > 0 {
      assert NoEscapedNewline(s[1..]) by {
        forall i | 0 <= i < |s[1..]| - 1 ensures !(s[1..][i] == '\\' && s[1..][i + 1] == 'n') {
          assert s[1..][i] == s[i + 1] && s[1..][i + 1] == s[i + 2];
        }
      }
      UnescapePlain(s[1..]);
      assert s == [s[0]] + s[1..];
    }
  }

  /** Unescaping twice is unescaping once. */
  lemma UnescapeIdempotent(s: string)
    ensures Unescape(Unescape(s)) == Unescape(s)
  {
    UnescapePlain(Unescape(s));
  }

  // ---------------------------------------------------------------- parseCSV

  /** The typing of one cell, by entity and column:
      products read their numeric columns with `parseFloat` (0 when that yields NaN);
      businesses read `archived` as a boolean when it is `true` or `false` in any case;
      both unescape `notes`; everything else is kept as the trimmed text. */
  function ConvertCell(entity: Entity, header: string, value: string, parseFloat: string -> Option<real>): Value
  {
    match entity
    case Businesses =>
      if header == "terms" then Str(value)
      else if header == ArchivedKey && (Lower(value) == "true" || Lower(value) == "false") then
        Bool(Lower(value) == "true")
      else if header == NotesKey then Str(Unescape(value))
      else Str(value)
    case Products =>
      if header in NumericColumns then
        Num(match parseFloat(value) case Some(x) => x case None => 0.0)
      else if header == NotesKey then Str(Unescape(value))
      else Str(value)
    case OtherEntity => Str(value)
  }

  /** How a cell is typed: numbers exactly for the numeric product columns, booleans exactly
      for a business's `archived` cell reading `true` or `false` in any case, otherwise text,
      with `notes` unescaped for businesses and products. */
  lemma ConvertCellTyping(entity: Entity, header: string, value: string, parseFloat: string -> Option<real>)
    ensures ConvertCell(entity, header, value, parseFloat).Num? <==> entity == Products && header in NumericColumns
    ensures ConvertCell(entity, header, value, parseFloat).Num? ==> ConvertCell(entity, header, value, parseFloat).n == (if parseFloat(value).Some? then parseFloat(value).value else 0.0)
    ensures ConvertCell(entity, header, value, parseFloat).Bool? <==> entity == Businesses && header == ArchivedKey && Lower(value) in {"true", "false"}
    ensures ConvertCell(entity, header, value, parseFloat).Bool? ==> (ConvertCell(entity, header, value, parseFloat).b <==> Lower(value) == "true")
    ensures ConvertCell(entity, header, value, parseFloat).Str? ==> ConvertCell(entity, header, value, parseFloat).s == (if header == NotesKey && entity != OtherEntity then Unescape(value) else value)
  {
  }

  /** `.map((value) => value.trim())`. */
  function TrimAll(parts: seq<string>): seq<string>
  {
    seq(|parts|, i requires 0 <= i < |parts| => Trim(parts[i]))
  }

  /** `values[colIndex] || ''`: a missing column reads as the empty text. */
  function Cell(values: seq<string>, j: nat): string
  {
    if j < |values| then values[j] else ""
  }

  /** The trimmed comma-separated cells of a line. */
  function Cells(line: string): seq<string>
  {
    TrimAll(Split(line, ","))
  }

  /** The assignments `rowData[header] = ...` of `headers.forEach`, in column order. */
  function CellAssignments(entity: Entity, headers: seq<string>, values: seq<string>, parseFloat: string -> Option<real>): (kvs: seq<(string, Value)>)
    ensures |kvs| == |headers|
    ensures forall j :: 0 <= j < |kvs| ==> kvs[j].0 == headers[j]
  {
    seq(|headers|, j requires 0 <= j < |headers| =>
      (headers[j], ConvertCell(entity, headers[j], Cell(values, j), parseFloat)))
  }

  /** One data line as a record: `_rowIndex` first, then every header in order. */
  function ParseRow(entity: Entity, headers: seq<string>, line: string, rowIndex: nat, parseFloat: string -> Option<real>): Row
  {
    var kvs := CellAssignments(entity, headers, Cells(line), parseFloat);
    Assign(map[RowIndexKey := Num(rowIndex as real)], kvs)
  }

  /** `row.trim() !== ''`. */
  predicate NotBlank(line: string)
  {
    Trim(line) != ""
  }

  /** `.filter((row) => row.trim() !== '')`. */
  function NonBlank(lines: seq<string>): seq<string>
  {
    Filter(NotBlank, lines)
  }

  /** Every kept line is one of the input lines, and none is all whitespace. */
  lemma NonBlankKept(lines: seq<string>, i: int)
    requires 0 <= i < |NonBlank(lines)|
    ensures NonBlank(lines)[i] in lines && !AllSpace(NonBlank(lines)[i])
  {
    FilterKept(NotBlank, lines, i);
    TrimEmptyIff(NonBlank(lines)[i]);
  }

  /** `text.split('\n')`. */
  function Lines(text: string): seq<string>
  {
    Split(text, "\n")
  }

  /** The records of the data lines, numbered from 1. */
  function ParseRows(entity: Entity, headers: seq<string>, data: seq<string>, parseFloat: string -> Option<real>): (rows: seq<Row>)
    ensures |rows| == |data|
  {
    seq(|data|, i requires 0 <= i < |data| => ParseRow(entity, headers, data[i], i + 1, parseFloat))
  }

  /** The body of `parseCSV` once the text is split into lines: the first line names the
      columns, the lines after it that are not all whitespace are the rows. */
  function ParseLines(entity: Entity, lines: seq<string>, parseFloat: string -> Option<real>): (r: Result<seq<Row>>)
    ensures r.Err? ==> r.message == NeedHeaderAndRow || r.message == NoDataRows
    ensures r.Ok? ==> |lines| >= 2 && |r.value| == |NonBlank(lines[1..])| > 0
  {
    if |lines| < 2 then Err(NeedHeaderAndRow)
    else
      var rows := ParseRows(entity, Cells(lines[0]), NonBlank(lines[1..]), parseFloat);
      if |rows| == 0 then Err(NoDataRows) else Ok(rows)
  }

  /** `parseCSV` on the text of the uploaded file. */
  function ParseCsv(entityName: string, text: string, parseFloat: string -> Option<real>): (r: Result<seq<Row>>)
    ensures r.Ok? ==> Contains(text, "\n") && 0 < |r.value| < |Lines(text)|
  {
    SplitSingleIff(text, "\n");
    ParseLines(EntityOf(entityName), Lines(text), parseFloat)
  }

  /** Parsing refuses a text without a line break. */
  lemma ParseNeedsTwoLines(entityName: string, text: string, parseFloat: string -> Option<real>)
    ensures ParseCsv(entityName, text, parseFloat) == Err(NeedHeaderAndRow) <==> !Contains(text, "\n")
  {
    SplitSingleIff(text, "\n");
  }

  /** With a line break present, parsing refuses exactly the texts whose lines after the
      first are all whitespace. */
  lemma ParseNeedsData(entityName: string, text: string, parseFloat: string -> Option<real>)
    requires Contains(text, "\n")
    ensures ParseCsv(entityName, text, parseFloat) == Err(NoDataRows)
      <==> forall i :: 1 <= i < |Lines(text)| ==> AllSpace(Lines(text)[i])
  {
    SplitSingleIff(text, "\n");
    var lines := Lines(text);
    NonBlankEmptyIff(lines[1..]);
    assert forall i :: 1 <= i < |lines| ==> lines[i] == lines[1..][i - 1];
  }

  /** Filtering keeps nothing exactly when every line is blank. */
  lemma NonBlankEmptyIff(lines: seq<string>)
    ensures NonBlank(lines) == [] <==> forall i :: 0 <= i < |lines| ==> AllSpace(lines[i])
  {
    FilterEmptyIff(NotBlank, lines);
    forall i | 0 <= i < |lines| ensures NotBlank(lines[i]) <==> !AllSpace(lines[i]) {
      TrimEmptyIff(lines[i]);
    }
  }

  /** A record has exactly `_rowIndex` and the header names as keys, except `__proto__`, which
      creates no field; `_rowIndex` holds the row number unless a column is itself named
      `_rowIndex` and overwrites it. */
  lemma RowShape(entity: Entity, headers: seq<string>, line: string, rowIndex: nat, parseFloat: string -> Option<real>)
    ensures var row := ParseRow(entity, headers, line, rowIndex, parseFloat);
      && row.Keys == {RowIndexKey} + ((set h | h in headers) - {ProtoKey})
      && (RowIndexKey !in headers ==> row[RowIndexKey] == Num(rowIndex as real))
  {
    var kvs := CellAssignments(entity, headers, Cells(line), parseFloat);
    AssignKeys(map[RowIndexKey := Num(rowIndex as real)], kvs);
    assert KeysOf(kvs) == (set h | h in headers) by {
      forall h | h in headers ensures h in KeysOf(kvs) {
        var j :| 0 <= j < |headers| && headers[j] == h;
        assert kvs[j].0 == h;
      }
    }
    if RowIndexKey !in headers {
      AssignUntouched(map[RowIndexKey := Num(rowIndex as real)], kvs, RowIndexKey);
    }
  }

  /** The value under a column is that column's typed cell (for a name used by several
      columns, the last of them); a `__proto__` column has no value, as `RowShape` says. */
  lemma RowCell(entity: Entity, headers: seq<string>, line: string, rowIndex: nat, parseFloat: string -> Option<real>, j: int)
    requires 0 <= j < |headers| && headers[j] != ProtoKey
    requires forall l :: j < l < |headers| ==> headers[l] != headers[j]
    ensures var row := ParseRow(entity, headers, line, rowIndex, parseFloat);
      && headers[j] in row
      && row[headers[j]] == ConvertCell(entity, headers[j], Cell(Cells(line), j), parseFloat)
  {
    var kvs := CellAssignments(entity, headers, Cells(line), parseFloat);
    AssignLastWins(map[RowIndexKey := Num(rowIndex as real)], kvs, j);
  }

  /** Rows are numbered 1, 2, ... in the order of the kept lines (unless a column is itself
      named `_rowIndex`), and every row has exactly the header names but `__proto__`, and
      `_rowIndex`, as keys. */
  lemma ParsedRowShape(entity: Entity, headers: seq<string>, data: seq<string>, parseFloat: string -> Option<real>, i: int)
    requires 0 <= i < |data|
    ensures var row := ParseRows(entity, headers, data, parseFloat)[i];
      && row.Keys == {RowIndexKey} + ((set h | h in headers) - {ProtoKey})
      && (RowIndexKey !in headers ==> row[RowIndexKey] == Num((i + 1) as real))
  {
    RowShape(entity, headers, data[i], i + 1, parseFloat);
  }

  /** The value under a column is the typed cell of that column of the row's line. */
  lemma ParsedCell(entity: Entity, headers: seq<string>, data: seq<string>, parseFloat: string -> Option<real>, i: int, j: int)
    requires 0 <= i < |data| && 0 <= j < |headers| && headers[j] != ProtoKey
    requires forall l :: j < l < |headers| ==> headers[l] != headers[j]
    ensures var row := ParseRows(entity, headers, data, parseFloat)[i];
      && headers[j] in row
      && row[headers[j]] == ConvertCell(entity, headers[j], Cell(Cells(data[i]), j), parseFloat)
  {
    RowCell(entity, headers, data[i], i + 1, parseFloat, j);
  }

  /** What `parseCSV` returns, row by row: row i has exactly `_rowIndex` and the header
      names (but `__proto__`) as keys, and `_rowIndex` is i + 1 unless a column of that name
      overwrites it. */
  lemma ParseCsvRows(entityName: string, text: string, parseFloat: string -> Option<real>, rows: seq<Row>, i: int)
    requires ParseCsv(entityName, text, parseFloat) == Ok(rows)
    requires 0 <= i < |rows|
    ensures |Lines(text)| >= 2
    ensures var headers := Cells(Lines(text)[0]);
      && rows[i].Keys == {RowIndexKey} + ((set h | h in headers) - {ProtoKey})
      && (RowIndexKey !in headers ==> rows[i][RowIndexKey] == Num((i + 1) as real))
  {
    var lines := Lines(text);
    assert rows == ParseRows(EntityOf(entityName), Cells(lines[0]), NonBlank(lines[1..]), parseFloat);
    ParsedRowShape(EntityOf(entityName), Cells(lines[0]), NonBlank(lines[1..]), parseFloat, i);
  }

  /** ... and under header j it holds the typed cell j of kept data line i, the last column
      of that name winning. */
  lemma ParseCsvCell(entityName: string, text: string, parseFloat: string -> Option<real>, rows: seq<Row>, i: int, j: int)
    requires ParseCsv(entityName, text, parseFloat) == Ok(rows)
    requires |Lines(text)| >= 2
    requires 0 <= i < |rows| && 0 <= j < |Cells(Lines(text)[0])|
    requires Cells(Lines(text)[0])[j] != ProtoKey
    requires forall l :: j < l < |Cells(Lines(text)[0])| ==> Cells(Lines(text)[0])[l] != Cells(Lines(text)[0])[j]
    ensures |rows| == |NonBlank(Lines(text)[1..])|
    ensures var h := Cells(Lines(text)[0])[j];
      && h in rows[i]
      && rows[i][h] == ConvertCell(EntityOf(entityName), h, Cell(Cells(NonBlank(Lines(text)[1..])[i]), j), parseFloat)
  {
    var lines := Lines(text);
    assert rows == ParseRows(EntityOf(entityName), Cells(lines[0]), NonBlank(lines[1..]), parseFloat);
    ParsedCell(EntityOf(entityName), Cells(lines[0]), NonBlank(lines[1..]), parseFloat, i, j);
  }

  /** A product line too short to reach a numeric column reads 0 there: the missing cell is
      `''`, and `parseFloat('')` is NaN. */
  lemma ShortLineNumericZero(headers: seq<string>, data: seq<string>, parseFloat: string -> Option<real>, i: int, j: int)
    requires 0 <= i < |data| && 0 <= j < |headers| && headers[j] in NumericColumns
    requires forall l :: j < l < |headers| ==> headers[l] != headers[j]
    requires j >= |Cells(data[i])|
    requires parseFloat("") == None
    ensures headers[j] in ParseRows(Products, headers, data, parseFloat)[i]
    ensures ParseRows(Products, headers, data, parseFloat)[i][headers[j]] == Num(0.0)
  {
    assert headers[j] != ProtoKey;
    ParsedCell(Products, headers, data, parseFloat, i, j);
  }

  /** Cells beyond the header count do not matter: appending more of them to a line that
      already has a cell for every header yields the same record. */
  lemma ExtraCellsIgnored(entity: Entity, headers: seq<string>, line: string, extra: string, rowIndex: nat, parseFloat: string -> Option<real>)
    requires |Split(line, ",")| >= |headers|
    ensures ParseRow(entity, headers, line + "," + extra, rowIndex, parseFloat)
      == ParseRow(entity, headers, line, rowIndex, parseFloat)
  {
    SplitConcat(line, ',', extra);
    assert line + "," + extra == line + [','] + extra;
    var longer := Cells(line + "," + extra);
    var cells := Cells(line);
    assert forall j :: 0 <= j < |headers| ==> Cell(longer, j) == Cell(cells, j);
    assert CellAssignments(entity, headers, longer, parseFloat) == CellAssignments(entity, headers, cells, parseFloat);
  }

  // ---------------------------------------------------------------- validateData

  /** A product row whose `sku` is the empty text. */
  predicate MissingSku(entity: Entity, row: Row)
  {
    entity == Products && SkuKey in row && row[SkuKey].Str? && row[SkuKey].s == ""
  }

  /** Marks a row as failing with the given message. */
  function Flag(row: Row, message: string): (r: Row)
    ensures r.Keys == row.Keys + {HasErrorKey, ErrorMessageKey}
    ensures r[HasErrorKey] == Bool(true) && r[ErrorMessageKey] == Str(message)
    ensures forall k :: k in row && k != HasErrorKey && k != ErrorMessageKey ==> r[k] == row[k]
  {
    row[HasErrorKey := Bool(true)][ErrorMessageKey := Str(message)]
  }

  /** `validateData` for the dialog's entity (`EntityOf` of its name): flags product rows
      with an empty SKU. */
  function ValidateData(entity: Entity, rows: seq<Row>): (r: seq<Row>)
    ensures |r| == |rows|
  {
    seq(|rows|, i requires 0 <= i < |rows| =>
      if MissingSku(entity, rows[i]) then Flag(rows[i], SkuRequired) else rows[i])
  }

  /** The import payload of a row: `{ _rowIndex, _hasError, _errorMessage, ...cleanRow }`. */
  function Strip(row: Row): (r: Row)
    ensures r.Keys == row.Keys - MetaKeys
    ensures forall k :: k in r ==> r[k] == row[k]
  {
    row - MetaKeys
  }

  /** `allRows.map(...)` in `handleImport`: the rows as sent to the server. */
  function CleanData(rows: seq<Row>): seq<Row>
  {
    seq(|rows|, i requires 0 <= i < |rows| => Strip(rows[i]))
  }

  /** Flagging a row never changes what is sent for it. */
  lemma StripFlag(row: Row, message: string)
    ensures Strip(Flag(row, message)) == Strip(row)
  {
    assert Strip(Flag(row, message)).Keys == Strip(row).Keys;
  }

  /** Validation keeps the rows, their order and their data: it only adds an error to the
      product rows with an empty SKU, and to no other row. */
  lemma ValidateOnlyFlags(entity: Entity, rows: seq<Row>, i: int)
    requires 0 <= i < |rows|
    ensures CleanData(ValidateData(entity, rows)) == CleanData(rows)
    ensures MissingSku(entity, rows[i]) ==> ValidateData(entity, rows)[i] == Flag(rows[i], SkuRequired)
    ensures !MissingSku(entity, rows[i]) ==> ValidateData(entity, rows)[i] == rows[i]
  {
    var v := ValidateData(entity, rows);
    forall k | 0 <= k < |rows| ensures Strip(v[k]) == Strip(rows[k]) {
      StripFlag(rows[k], SkuRequired);
    }
  }

  /** After parsing products, validation flags a row exactly when the cell of its (last)
      `sku` column is empty; the row's data is what the parser produced. */
  lemma ValidateProductSku(headers: seq<string>, data: seq<string>, parseFloat: string -> Option<real>, i: int, j: int)
    requires 0 <= i < |data| && 0 <= j < |headers| && headers[j] == SkuKey
    requires forall l :: j < l < |headers| ==> headers[l] != SkuKey
    requires HasErrorKey !in headers
    ensures var rows := ParseRows(Products, headers, data, parseFloat);
      var v := ValidateData(Products, rows)[i];
      && (Flagged(v) <==> Cell(Cells(data[i]), j) == "")
      && Strip(v) == Strip(rows[i])
  {
    var rows := ParseRows(Products, headers, data, parseFloat);
    var cell := Cell(Cells(data[i]), j);
    assert rows[i][SkuKey] == Str(cell) by {
      ParsedCell(Products, headers, data, parseFloat, i, j);
    }
    assert HasErrorKey !in rows[i] by {
      ParsedRowShape(Products, headers, data, parseFloat, i);
    }
    assert MissingSku(Products, rows[i]) <==> cell == "";
    ValidateOnlyFlags(Products, rows, i);
    StripFlag(rows[i], SkuRequired);
  }

  /** A freshly parsed row is unflagged, unless a column is itself named `_hasError`. */
  lemma ParsedNoFlagUnlessColumn(entity: Entity, headers: seq<string>, data: seq<string>, parseFloat: string -> Option<real>, i: int)
    requires 0 <= i < |data|
    ensures Flagged(ParseRows(entity, headers, data, parseFloat)[i]) ==> HasErrorKey in headers
  {
    ParsedRowShape(entity, headers, data, parseFloat, i);
  }

  // ---------------------------------------------------------------- server errors

  /** One entry of the server's `errors` list: the 1-based row and its message. */
  datatype ServerError = ServerError(row: int, message: string)

  /** `row._rowIndex === n`. */
  predicate HasRowIndex(row: Row, n: int)
  {
    RowIndexKey in row && row[RowIndexKey] == Num(n as real)
  }

  /** `rows.findIndex((row) => row._rowIndex === n)`, None for -1. */
  function FindRow(rows: seq<Row>, n: int): (r: Option<nat>)
    ensures r.Some? ==> (r.value < |rows| && HasRowIndex(rows[r.value], n)
      && forall k :: 0 <= k < r.value ==> !HasRowIndex(rows[k], n))
    ensures r.None? ==> forall k :: 0 <= k < |rows| ==> !HasRowIndex(rows[k], n)
  {
    if |rows| == 0 then None
    else if HasRowIndex(rows[0], n) then Some(0)
    else match FindRow(rows[1..], n)
      case None => None
      case Some(k) => Some(k + 1)
  }

  /** One iteration of `result.errors.forEach`. */
  function ApplyServerError(rows: seq<Row>, err: ServerError): seq<Row>
  {
    match FindRow(rows, err.row)
    case None => rows
    case Some(i) => rows[i := Flag(rows[i], err.message)]
  }

  /** The whole `result.errors.forEach`, one error after another. */
  function ApplyServerErrors(rows: seq<Row>, errors: seq<ServerError>): seq<Row>
  {
    if |errors| == 0 then rows
    else ApplyServerError(ApplyServerErrors(rows, errors[..|errors| - 1]), errors[|errors| - 1])
  }

  /** The message of the last error that targets row `i` of `rows`, if any. */
  function LastErrorFor(rows: seq<Row>, errors: seq<ServerError>, i: nat): Option<string>
  {
    if |errors| == 0 then None
    else if FindRow(rows, errors[|errors| - 1].row) == Some(i) then Some(errors[|errors| - 1].message)
    else LastErrorFor(rows, errors[..|errors| - 1], i)
  }

  /** Flagging touches neither `_rowIndex` nor the row count, so every error finds the
      row it would have found in the rows as they were before any error was applied. */
  lemma {:induction false} ServerErrorsKeepIndices(rows: seq<Row>, errors: seq<ServerError>, n: int)
    ensures |ApplyServerErrors(rows, errors)| == |rows|
    ensures FindRow(ApplyServerErrors(rows, errors), n) == FindRow(rows, n)
    decreases |errors|
  {
    if |errors| > 0 {
      var before := ApplyServerErrors(rows, errors[..|errors| - 1]);
      ServerErrorsKeepIndices(rows, errors[..|errors| - 1], n);
      ServerErrorsKeepIndices(rows, errors[..|errors| - 1], errors[|errors| - 1].row);
      var after := ApplyServerErrors(rows, errors);
      assert forall k :: 0 <= k < |before| ==> (HasRowIndex(after[k], n) <==> HasRowIndex(before[k], n));
      FindRowSame(before, after, n);
    }
  }

  /** `findIndex` agrees on two lists whose rows agree on the searched index. */
  lemma {:induction false} FindRowSame(a: seq<Row>, b: seq<Row>, n: int)
    requires |a| == |b|
    requires forall k :: 0 <= k < |a| ==> (HasRowIndex(a[k], n) <==> HasRowIndex(b[k], n))
    ensures FindRow(a, n) == FindRow(b, n)
  {
    if |a| > 0 {
      FindRowSame(a[1..], b[1..], n);
    }
  }

  /** Server errors flag exactly the rows they name: row i ends up flagged with the message
      of the last error whose row number first matches it, and every row no error matches
      (including all rows when an error names no existing row) is left unchanged. */
  lemma {:induction false} ServerErrorsFlagTargets(rows: seq<Row>, errors: seq<ServerError>, i: int)
    requires 0 <= i < |rows|
    ensures |ApplyServerErrors(rows, errors)| == |rows|
    ensures ApplyServerErrors(rows, errors)[i] ==
      match LastErrorFor(rows, errors, i)
      case None => rows[i]
      case Some(m) => Flag(rows[i], m)
    decreases |errors|
  {
    ServerErrorsKeepIndices(rows, errors, 0);
    if |errors| > 0 {
      var init := errors[..|errors| - 1];
      var last := errors[|errors| - 1];
      ServerErrorsFlagTargets(rows, init, i);
      ServerErrorsKeepIndices(rows, init, last.row);
      var before := ApplyServerErrors(rows, init);
      if FindRow(rows, last.row) == Some(i) {
        assert ApplyServerErrors(rows, errors)[i] == Flag(before[i], last.message);
        match LastErrorFor(rows, init, i)
        case None =>
        case Some(m) =>
          assert Flag(Flag(rows[i], m), last.message) == Flag(rows[i], last.message);
      }
    }
  }

  /** Server errors never change what a retry would send. */
  lemma ServerErrorsKeepPayload(rows: seq<Row>, errors: seq<ServerError>)
    ensures CleanData(ApplyServerErrors(rows, errors)) == CleanData(rows)
  {
    ServerErrorsKeepIndices(rows, errors, 0);
    var after := ApplyServerErrors(rows, errors);
    forall i | 0 <= i < |rows| ensures Strip(after[i]) == Strip(rows[i]) {
      ServerErrorsFlagTargets(rows, errors, i);
      match LastErrorFor(rows, errors, i)
      case None =>
      case Some(m) => StripFlag(rows[i], m);
    }
  }

  /** The in-place update of `handleImport` over the rows it holds. */
  method MarkServerErrors(rows: array<Row>, errors: seq<ServerError>)
    modifies rows
    ensures rows[..] == ApplyServerErrors(old(rows[..]), errors)
  {
    for e := 0 to |errors|
      invariant rows[..] == ApplyServerErrors(old(rows[..]), errors[..e])
    {
      assert errors[..e + 1][..e] == errors[..e];
      var found := FindRow(rows[..], errors[e].row);
      if found.Some? {
        var i := found.value;
        rows[i] := Flag(rows[i], errors[e].message);
      }
    }
    assert errors[..|errors|] == errors;
  }

  // ---------------------------------------------------------------- the Import button

  /** JavaScript truthiness of a cell value. */
  predicate Truthy(v: Value)
  {
    match v
    case Str(s) => s != ""
    case Num(n) => n != 0.0
    case Bool(b) => b
  }

  /** `row._hasError` is truthy. */
  predicate Flagged(row: Row)
  {
    HasErrorKey in row && Truthy(row[HasErrorKey])
  }

  /** `validatedData.slice(0, 3)`. */
  function Preview(rows: seq<Row>): (r: seq<Row>)
    ensures |r| <= 3 && |r| <= |rows| && r == rows[..|r|]
    ensures |r| == 3 || r == rows
  {
    if |rows| <= 3 then rows else rows[..3]
  }

  /** The Import button's `disabled` expression, negated; `preview` is None before a file
      has been parsed. */
  function ImportEnabled(hasFile: bool, parsing: bool, importing: bool, preview: Option<seq<Row>>): (enabled: bool)
  {
    !(!hasFile || parsing || importing
      || (preview.Some? && exists k :: 0 <= k < |preview.value| && Flagged(preview.value[k])))
  }

  /** Import is enabled exactly when a file is present, nothing is in progress, and none of
      the first three rows is flagged; flags on later rows do not block it. */
  lemma ImportEnabledIff(hasFile: bool, parsing: bool, importing: bool, rows: seq<Row>)
    ensures ImportEnabled(hasFile, parsing, importing, Some(Preview(rows)))
      <==> (hasFile && !parsing && !importing
        && forall k :: 0 <= k < |rows| && k < 3 ==> !Flagged(rows[k]))
  {
    var p := Preview(rows);
    assert forall k :: 0 <= k < |p| ==> p[k] == rows[k];
  }

  /** A product among the first three data rows with an empty SKU keeps Import disabled. */
  lemma MissingSkuBlocksImport(hasFile: bool, parsing: bool, importing: bool, rows: seq<Row>, k: int)
    requires 0 <= k < |rows| && k < 3
    requires MissingSku(Products, rows[k])
    ensures !ImportEnabled(hasFile, parsing, importing, Some(Preview(ValidateData(Products, rows))))
  {
    var v := ValidateData(Products, rows);
    ValidateOnlyFlags(Products, rows, k);
    ImportEnabledIff(hasFile, parsing, importing, v);
    assert Flagged(v[k]);
  }

  /** An error the server reports for one of the first three rows keeps Import disabled
      once the preview is refreshed from the updated rows. */
  lemma ServerErrorBlocksImport(hasFile: bool, parsing: bool, importing: bool, rows: seq<Row>,
                                errors: seq<ServerError>, e: int, i: int)
    requires 0 <= e < |errors| && 0 <= i < |rows| && i < 3
    requires FindRow(rows, errors[e].row) == Some(i)
    ensures !ImportEnabled(hasFile, parsing, importing, Some(Preview(ApplyServerErrors(rows, errors))))
  {
    LastErrorForFound(rows, errors, e, i);
    ServerErrorsFlagTargets(rows, errors, i);
    var after := ApplyServerErrors(rows, errors);
    ImportEnabledIff(hasFile, parsing, importing, after);
    assert Flagged(after[i]);
  }

  /** Once any error targets row i, some error message is recorded for it. */
  lemma {:induction false} LastErrorForFound(rows: seq<Row>, errors: seq<ServerError>, e: int, i: nat)
    requires 0 <= e < |errors| && FindRow(rows, errors[e].row) == Some(i)
    ensures LastErrorFor(rows, errors, i).Some?
    decreases |errors|
  {
    if e < |errors| - 1 {
      var init := errors[..|errors| - 1];
      assert init[e] == errors[e];
      LastErrorForFound(rows, init, e, i);
    }
  }
}
