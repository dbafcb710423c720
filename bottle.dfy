/** One bottle file end to end: the lines are stripped and classified, the
    header, column layout and bottle rows are parsed, the date and time are
    paired, the value lists are keyed by column name, and the cast number and
    summary-file name are derived from the file name. */
module BottleFile {
  import opened Wrappers
  import opened PyText
  import opened ParseErrors
  import opened Classify
  import opened Header
  import opened Layout
  import opened Rows
  import opened Naming

  /** What the script has for one file just before writing its summary. */
  datatype CastSummary = CastSummary(
    header: HeaderMap,   // `hdr`
    table: Table,        // `results`
    rowCount: nat,       // the number of data-frame rows
    cast: string,        // the `Cast` column's value
    outName: string)     // the summary file's name

  /** `[x.strip() for x in content]`. */
  function StripLines(raw: seq<string>): (r: seq<string>)
    ensures |r| == |raw| && forall i :: 0 <= i < |raw| ==> r[i] == Strip(raw[i])
  {
    seq(|raw|, i requires 0 <= i < |raw| => Strip(raw[i]))
  }

  /** The rows of `pd.DataFrame.from_dict(results)`: all lists must have
      one length, which is the row count (none when there are no columns). */
  function Rectangular(table: Table, rows: nat): bool
  {
    forall name | name in table :: |table[name]| == rows
  }

  /** From the keyed value lists on: the data frame, then the cast number. */
  function Summarise(hdr: HeaderMap, names: ColumnNames, n: nat, cols: DataColumns, filename: string)
    : (r: Result<CastSummary, ParseError>)
    requires forall i :: 0 <= i < n ==> i in names && i in cols
  {
    var table := TableOf(names, cols, n);
    var rows := if n == 0 then 0 else |cols[n - 1]|;
    if !Rectangular(table, rows) then Err(UnequalColumns)
    else match Cast(filename)
      case None => Err(NoDot(filename))
      case Some(cast) => Ok(CastSummary(hdr, table, rows, cast, OutName(filename)))
  }

  /** Everything after the header: the layout from the column-header lines,
      the row loop over the data lines, the date/time pairing, then the data
      frame and the names. */
  function Assemble(hdr: HeaderMap, columnLines: seq<string>, dataLines: seq<string>, filename: string)
    : Result<CastSummary, ParseError>
  {
    var names, n := LayoutOf(columnLines), MaxTokens(columnLines);
    match RowsFrom(EmptyColumns(names), dataLines)
    case Err(e) => Err(e)
    case Ok(cols) =>
      LayoutKeys(columnLines);
      RowsFromContents(EmptyColumns(names), dataLines);
      match JoinDateTime(cols)
      case Err(e) => Err(e)
      case Ok(joined) =>
        JoinDateTimeEffect(cols);
        Summarise(hdr, names, n, joined, filename)
  }

  /** What processing one bottle file yields, or the exception that stops it,
      from the file's lines, its name and the timestamp parser. */
  function CastFileSpec(raw: seq<string>, filename: string, toStamp: TimeParser): Result<CastSummary, ParseError>
  {
    var content := StripLines(raw);
    match HeaderOf(OfKind(content, HeaderLine), toStamp)
    case Err(e) => Err(e)
    case Ok(hdr) => Assemble(hdr, OfKind(content, ColumnLine), OfKind(content, DataLine), filename)
  }

  /** The body of the per-file loop, up to the summary file being written. */
  method ParseCastFile(raw: seq<string>, filename: string, toStamp: TimeParser)
    returns (r: Result<CastSummary, ParseError>)
    ensures r == CastFileSpec(raw, filename, toStamp)
  {
    var content := StripLines(raw);
    var header, columns, data := ClassifyLines(content);
    var parsed := ParseHeader(header, toStamp);
    if parsed.Err? {
      return Err(parsed.error);
    }
    var hdr := parsed.value;
    var names := BuildLayout(columns);
    var built := BuildColumns(data, names);
    if built.Err? {
      return Err(built.error);
    }
    var cols := built.value;
    LayoutKeys(columns);
    RowsFromContents(EmptyColumns(names), data);
    if 1 !in cols {
      return Err(MissingColumn(1));
    }
    cols := cols[1 := PairDateTime(cols[1])];
    var n := MaxTokens(columns);
    var table := BuildTable(names, cols, n);
    var rows := if n == 0 then 0 else |cols[n - 1]|;
    if !Rectangular(table, rows) {
      return Err(UnequalColumns);
    }
    var cast := Cast(filename);
    if cast.None? {
      return Err(NoDot(filename));
    }
    r := Ok(CastSummary(hdr, table, rows, cast.value, OutName(filename)));
  }

  /** One row of the written summary: the row's value from every column, the
      header values (set on every row, replacing a column of the same name),
      and the cast number. */
  function Record(s: CastSummary, j: nat): map<string, string>
    requires forall name :: name in s.table ==> j < |s.table[name]|
  {
    (map name | name in s.table :: s.table[name][j]) + s.header + map["Cast" := s.cast] + s.header
  }

  /** Every row carries all columns, every header key and the cast; header
      values override data columns, and the cast is the file's. */
  lemma RecordContents(s: CastSummary, j: nat)
    requires forall name :: name in s.table ==> j < |s.table[name]|
    requires s.header.Keys <= HeaderKeys
    ensures var rec := Record(s, j);
      && rec.Keys == s.table.Keys + s.header.Keys + {"Cast"}
      && rec["Cast"] == s.cast
      && (forall key :: key in s.header ==> rec[key] == s.header[key])
      && (forall name :: name in s.table && name !in s.header && name != "Cast" ==> rec[name] == s.table[name][j])
  {
    assert "Cast" !in HeaderKeys;
  }

  /** The data frame step keeps the header; its lists share one length and
      the cast has three characters. */
  lemma SummariseFacts(hdr: HeaderMap, names: ColumnNames, n: nat, cols: DataColumns, filename: string)
    requires forall i :: 0 <= i < n ==> i in names && i in cols
    requires Summarise(hdr, names, n, cols, filename).Ok?
    ensures var s := Summarise(hdr, names, n, cols, filename).value;
      && s.header == hdr
      && |s.cast| == 3 && '.' in filename
      && (forall name :: name in s.table ==> |s.table[name]| == s.rowCount)
      && Some(s.cast) == Cast(filename)
      && (IndexOf(filename, '.').value >= 3 ==> Some(s.cast) == CastAsWritten(filename))
  {
  }

  /** The data frame stores, under the name of a position that no later
      position repeats, that position's list. */
  lemma SummariseColumn(hdr: HeaderMap, names: ColumnNames, n: nat, cols: DataColumns, filename: string, k: nat)
    requires forall i :: 0 <= i < n ==> i in names && i in cols
    requires Summarise(hdr, names, n, cols, filename).Ok?
    requires k < n && forall j :: k < j < n ==> names[j] != names[k]
    ensures var s := Summarise(hdr, names, n, cols, filename).value;
      names[k] in s.table && s.table[names[k]] == cols[k]
  {
    TableLastWins(names, cols, n, k);
  }

  /** After the row loop and the pairing, a position holds the values the
      data lines give it, column 1 paired into "date time" strings. */
  lemma JoinedColumn(names: ColumnNames, dataLines: seq<string>, k: int)
    requires RowsFrom(EmptyColumns(names), dataLines).Ok?
    requires JoinDateTime(RowsFrom(EmptyColumns(names), dataLines).value).Ok?
    requires k in names
    ensures var joined := JoinDateTime(RowsFrom(EmptyColumns(names), dataLines).value).value;
      && k in joined
      && joined[k] == if k == 1 then PairDateTime(ColumnOf(dataLines, 1)) else ColumnOf(dataLines, k)
  {
    var empty := EmptyColumns(names);
    RowsFromContents(empty, dataLines);
    var cols := RowsFrom(empty, dataLines).value;
    JoinDateTimeEffect(cols);
    assert empty[k] == [];
    assert cols[k] == ColumnOf(dataLines, k);
  }

  /** A run whose header parsed is the rest of the run on its column-header
      and data lines; its header has only the five known keys. */
  lemma CastFileHeader(raw: seq<string>, filename: string, toStamp: TimeParser)
    requires CastFileSpec(raw, filename, toStamp).Ok?
    ensures var content := StripLines(raw);
      var hdr := HeaderOf(OfKind(content, HeaderLine), toStamp);
      && hdr.Ok? && hdr.value.Keys <= HeaderKeys
      && CastFileSpec(raw, filename, toStamp) ==
           Assemble(hdr.value, OfKind(content, ColumnLine), OfKind(content, DataLine), filename)
  {
    HeaderKeysFixed(map[], OfKind(StripLines(raw), HeaderLine), toStamp);
  }

  /** A successful rest of the run went through the row loop and the
      pairing, and ended in the data frame step on the paired columns. */
  lemma AssembleStages(hdr: HeaderMap, columnLines: seq<string>, dataLines: seq<string>, filename: string)
    requires Assemble(hdr, columnLines, dataLines, filename).Ok?
    ensures var names := LayoutOf(columnLines);
      && RowsFrom(EmptyColumns(names), dataLines).Ok?
      && JoinDateTime(RowsFrom(EmptyColumns(names), dataLines).value).Ok?
      && var joined := JoinDateTime(RowsFrom(EmptyColumns(names), dataLines).value).value;
         && KeysArePositions(names, MaxTokens(columnLines))
         && (forall i :: 0 <= i < MaxTokens(columnLines) ==> i in joined)
         && Assemble(hdr, columnLines, dataLines, filename) ==
              Summarise(hdr, names, MaxTokens(columnLines), joined, filename)
  {
    var names := LayoutOf(columnLines);
    LayoutKeys(columnLines);
    RowsFromContents(EmptyColumns(names), dataLines);
    JoinDateTimeEffect(RowsFrom(EmptyColumns(names), dataLines).value);
  }

  /** What a successful run guarantees about its shape: the header it was
      given, a three-character cast, a dot in the file name, and value lists
      of one length. */
  lemma AssembleShape(hdr: HeaderMap, columnLines: seq<string>, dataLines: seq<string>, filename: string)
    requires Assemble(hdr, columnLines, dataLines, filename).Ok?
    ensures var s := Assemble(hdr, columnLines, dataLines, filename).value;
      && s.header == hdr
      && |s.cast| == 3 && '.' in filename
      && (forall name :: name in s.table ==> |s.table[name]| == s.rowCount)
  {
    AssembleStages(hdr, columnLines, dataLines, filename);
    var names := LayoutOf(columnLines);
    var joined := JoinDateTime(RowsFrom(EmptyColumns(names), dataLines).value).value;
    SummariseFacts(hdr, names, MaxTokens(columnLines), joined, filename);
  }

  /** What a successful run stores: under the name of a column that no
      column further right repeats, exactly the values the data lines give at
      its position, column 1 paired into "date time" strings. */
  lemma AssembleColumn(hdr: HeaderMap, columnLines: seq<string>, dataLines: seq<string>, filename: string, k: nat)
    requires Assemble(hdr, columnLines, dataLines, filename).Ok?
    requires var names, n := LayoutOf(columnLines), MaxTokens(columnLines);
      k < n && k in names && forall j :: k < j < n && j in names ==> names[j] != names[k]
    ensures var s, names := Assemble(hdr, columnLines, dataLines, filename).value, LayoutOf(columnLines);
      && names[k] in s.table
      && s.table[names[k]] == (if k == 1 then PairDateTime(ColumnOf(dataLines, 1)) else ColumnOf(dataLines, k))
  {
    AssembleStages(hdr, columnLines, dataLines, filename);
    var names, n := LayoutOf(columnLines), MaxTokens(columnLines);
    var joined := JoinDateTime(RowsFrom(EmptyColumns(names), dataLines).value).value;
    JoinedColumn(names, dataLines, k);
    SummariseColumn(hdr, names, n, joined, filename, k);
  }

  /** One row per `(avg)` line, when the first column's name is not
      repeated. */
  lemma AssembleRows(hdr: HeaderMap, columnLines: seq<string>, dataLines: seq<string>, filename: string)
    requires Assemble(hdr, columnLines, dataLines, filename).Ok?
    requires var names, n := LayoutOf(columnLines), MaxTokens(columnLines);
      0 < n && 0 in names && forall j :: 0 < j < n && j in names ==> names[j] != names[0]
    ensures Assemble(hdr, columnLines, dataLines, filename).value.rowCount == CountAvg(dataLines)
  {
    AssembleShape(hdr, columnLines, dataLines, filename);
    AssembleColumn(hdr, columnLines, dataLines, filename, 0);
    AvgRows(dataLines);
  }
}
