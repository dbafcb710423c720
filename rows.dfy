/** The row builder: the averaged line of each bottle fills one value per
    column position, the standard-deviation line that follows adds its first
    value (the time of day) to column 1 only, and column 1 is then folded
    pairwise into "date time" strings. Finally the per-position value lists
    are keyed by column name. */
module Rows {
  import opened Wrappers
  import opened PyText
  import opened ParseErrors
  import opened Layout

  /** `data_dict`: the values collected so far at each column position. */
  type DataColumns = map<int, seq<string>>

  /** `results`: the value lists keyed by column name. */
  type Table = map<string, seq<string>>

  /** The value-splitting pattern `'  |\t'`: exactly two spaces, or a tab. */
  const ValueSeps: seq<Sep> := ["  ", "\t"]

  /** `list(filter(None, re.split('  |\t', line)))`. A run of three spaces
      leaves the third one at the head of the next value. */
  function Values(line: string): seq<string>
  {
    NonEmpty(Split(line, ValueSeps))
  }

  /** Three spaces between two values: the first two separate them and the
      third stays at the head of the second value. */
  lemma ValuesThreeSpaces(a: string, b: string)
    requires a != [] && b != []
    requires ' ' !in a && '\t' !in a && ' ' !in b && '\t' !in b
    ensures Values(a + "   " + b) == [a, " " + b]
  {
    var rest := "   " + b;
    assert a + "   " + b == a + rest;
    ScanValue(a, rest, []);
    assert [] + a == a;
    assert StartsWith(rest, "  ") && MatchAt(rest, ValueSeps) == 2;
    SplitFromAtMatch(rest, ValueSeps, a);
    assert rest[2..] == " " + b;
    NoSepAfterSpace(b);
    SplitFromNoMatch(" " + b, ValueSeps, []);
    assert (" " + b)[1..] == b && [] + [(" " + b)[0]] == " ";
    ScanValue(b, [], " ");
    assert b + [] == b;
    assert Split(a + "   " + b, ValueSeps) == [a, " " + b];
    assert NonEmpty([" " + b]) == [" " + b];
  }

  /** Characters other than spaces and tabs start no separator, so they
      extend the current value. */
  lemma {:induction false} ScanValue(w: string, rest: string, cur: string)
    requires ' ' !in w && '\t' !in w
    ensures SplitFrom(w + rest, ValueSeps, cur) == SplitFrom(rest, ValueSeps, cur + w)
    decreases |w|
  {
    if w == [] {
      assert w + rest == rest && cur + w == cur;
    } else {
      var s := w + rest;
      assert s[0] == w[0] && s[1..] == w[1..] + rest;
      NoSepAt(s);
      SplitFromNoMatch(s, ValueSeps, cur);
      ScanValue(w[1..], rest, cur + [w[0]]);
      assert cur + [w[0]] + w[1..] == cur + w;
    }
  }

  lemma NoSepAt(s: string)
    requires s != [] && s[0] != ' ' && s[0] != '\t'
    ensures MatchAt(s, ValueSeps) == 0
  {
    if |s| >= 2 {
      assert s[..2][0] == s[0];
    }
    assert s[..1][0] == s[0];
  }

  /** A single space followed by a value starts no separator. */
  lemma NoSepAfterSpace(b: string)
    requires b != [] && b[0] != ' '
    ensures MatchAt(" " + b, ValueSeps) == 0
  {
    var s := " " + b;
    assert s[..2][1] == b[0];
    assert s[..1][0] == ' ';
  }

  predicate IsAvg(line: string)
  {
    EndsWith(line, "(avg)")
  }

  /** A line handled by the `(sdev)` branch: tested only after `(avg)`. */
  predicate IsSdev(line: string)
  {
    !IsAvg(line) && EndsWith(line, "(sdev)")
  }

  /** A line ending in a marker without spaces or tabs always has a value,
      so `values[0]` on an `(sdev)` line never fails. */
  lemma ValuesNonEmpty(line: string, suffix: string)
    requires |suffix| > 0 && EndsWith(line, suffix)
    requires ' ' !in suffix && '\t' !in suffix
    ensures |Values(line)| > 0
  {
    var last := line[|line| - 1];
    assert line[|line| - |suffix|..][|suffix| - 1] == last;
    assert last in suffix;
    LastValueNonEmpty(line);
  }

  /** A line whose last character is neither a space nor a tab has a value. */
  lemma LastValueNonEmpty(line: string)
    requires |line| > 0 && line[|line| - 1] != ' ' && line[|line| - 1] != '\t'
    ensures |Values(line)| > 0
  {
    var last := line[|line| - 1];
    assert ValueSeps == ["  ", "\t"];
    forall sep | sep in ValueSeps
      ensures last !in sep
    {
      if sep == "  " {
        assert sep[0] == ' ' && sep[1] == ' ';
      }
    }
    SplitLastNonEmpty(line, ValueSeps, []);
    var segments := Split(line, ValueSeps);
    assert segments[|segments| - 1] in segments;
  }

  /** What the line appends at position k, when that position exists: an
      `(avg)` line its k-th value, an `(sdev)` line its first value at
      position 1 only, any other line nothing. */
  function Contribution(line: string, k: int): seq<string>
  {
    if IsAvg(line) then
      var values := Values(line);
      if 0 <= k < |values| then [values[k]] else []
    else if IsSdev(line) then
      if k == 1 then ValuesNonEmpty(line, "(sdev)"); [Values(line)[0]] else []
    else []
  }

  /** Handling the line finds every position it appends to. */
  predicate Fits(cols: DataColumns, line: string)
  {
    if IsAvg(line) then forall i :: 0 <= i < |Values(line)| ==> i in cols
    else if IsSdev(line) then 1 in cols
    else true
  }

  /** The first position in from .. n-1 that has no column. */
  function FirstMissing(cols: DataColumns, n: nat, from: nat): (k: nat)
    requires exists i :: from <= i < n && i !in cols
    ensures from <= k < n && k !in cols
    ensures forall i :: from <= i < k ==> i in cols
    decreases n - from
  {
    if from !in cols then from else FirstMissing(cols, n, from + 1)
  }

  /** The effect of one data line on `data_dict`, or the KeyError it raises. */
  function AddLine(cols: DataColumns, line: string): Result<DataColumns, ParseError>
  {
    if Fits(cols, line) then Ok(map k | k in cols :: cols[k] + Contribution(line, k))
    else if IsAvg(line) then Err(MissingColumn(FirstMissing(cols, |Values(line)|, 0)))
    else Err(MissingColumn(1))
  }

  /** The loop over the remaining data lines. */
  function RowsFrom(cols: DataColumns, lines: seq<string>): Result<DataColumns, ParseError>
    decreases |lines|
  {
    if lines == [] then Ok(cols)
    else match AddLine(cols, lines[0])
      case Err(e) => Err(e)
      case Ok(next) => RowsFrom(next, lines[1..])
  }

  /** `{x: [] for x in column_dict.keys()}`. */
  function EmptyColumns(names: ColumnNames): (cols: DataColumns)
    ensures cols.Keys == names.Keys
  {
    map k | k in names :: []
  }

  /** The columns after the first i values of an `(avg)` line were appended. */
  function AppendedUpTo(cols: DataColumns, values: seq<string>, i: nat): DataColumns
  {
    map k | k in cols :: cols[k] + (if 0 <= k < i && k < |values| then [values[k]] else [])
  }

  lemma AppendedStep(cols: DataColumns, values: seq<string>, i: nat)
    requires i < |values| && i in cols
    ensures var cur := AppendedUpTo(cols, values, i);
      AppendedUpTo(cols, values, i + 1) == cur[i := cur[i] + [values[i]]]
  {
    var cur, next := AppendedUpTo(cols, values, i), AppendedUpTo(cols, values, i + 1);
    assert cur[i] == cols[i];
    forall k | k in cols
      ensures next[k] == cur[i := cur[i] + [values[i]]][k]
    {
    }
  }

  lemma AppendedNone(cols: DataColumns, values: seq<string>)
    ensures AppendedUpTo(cols, values, 0) == cols
  {
    var a := AppendedUpTo(cols, values, 0);
    forall k | k in cols
      ensures a[k] == cols[k]
    {
    }
  }

  lemma AvgStep(cols: DataColumns, line: string)
    requires IsAvg(line)
    requires forall p :: 0 <= p < |Values(line)| ==> p in cols
    ensures AddLine(cols, line) == Ok(AppendedUpTo(cols, Values(line), |Values(line)|))
  {
    var values := Values(line);
    var a := AppendedUpTo(cols, values, |values|);
    var b := map k | k in cols :: cols[k] + Contribution(line, k);
    forall k | k in cols
      ensures a[k] == b[k]
    {
    }
    assert a == b;
  }

  lemma SdevStep(cols: DataColumns, line: string)
    requires IsSdev(line) && 1 in cols
    ensures |Values(line)| > 0
    ensures AddLine(cols, line) == Ok(cols[1 := cols[1] + [Values(line)[0]]])
  {
    ValuesNonEmpty(line, "(sdev)");
    var a := cols[1 := cols[1] + [Values(line)[0]]];
    var b := map k | k in cols :: cols[k] + Contribution(line, k);
    forall k | k in cols
      ensures a[k] == b[k]
    {
    }
    assert a == b;
  }

  lemma OtherStep(cols: DataColumns, line: string)
    requires !IsAvg(line) && !IsSdev(line)
    ensures AddLine(cols, line) == Ok(cols)
  {
    var b := map k | k in cols :: cols[k] + Contribution(line, k);
    forall k | k in cols
      ensures b[k] == cols[k]
    {
    }
    assert b == cols;
  }

  /** The `(avg)` branch: appends each value to the list at its position,
      stopping with KeyError at the first position without a column. */
  method AppendAvg(cols: DataColumns, line: string) returns (r: Result<DataColumns, ParseError>)
    requires IsAvg(line)
    ensures r == AddLine(cols, line)
  {
    var values := Values(line);
    var acc := cols;
    AppendedNone(cols, values);
    var i := 0;
    while i < |values|
      invariant 0 <= i <= |values|
      invariant forall p :: 0 <= p < i ==> p in cols
      invariant acc == AppendedUpTo(cols, values, i)
    {
      if i !in acc {
        assert FirstMissing(cols, |values|, 0) == i;
        return Err(MissingColumn(i));
      }
      AppendedStep(cols, values, i);
      acc := acc[i := acc[i] + [values[i]]];
      i := i + 1;
    }
    AvgStep(cols, line);
    r := Ok(acc);
  }

  /** One iteration of the row loop. */
  method AddDataLine(cols: DataColumns, line: string) returns (r: Result<DataColumns, ParseError>)
    ensures r == AddLine(cols, line)
  {
    if EndsWith(line, "(avg)") {
      r := AppendAvg(cols, line);
    } else if EndsWith(line, "(sdev)") {
      var values := Values(line);
      if 1 !in cols {
        return Err(MissingColumn(1));
      }
      SdevStep(cols, line);
      r := Ok(cols[1 := cols[1] + [values[0]]]);
    } else {
      OtherStep(cols, line);
      r := Ok(cols);
    }
  }

  /** The row loop over the data lines: an `(avg)` line appends each of its
      values to the list at its position, an `(sdev)` line its first value
      to the list at position 1. */
  method BuildColumns(data: seq<string>, names: ColumnNames) returns (r: Result<DataColumns, ParseError>)
    ensures r == RowsFrom(EmptyColumns(names), data)
  {
    var cols := EmptyColumns(names);
    var j := 0;
    while j < |data|
      invariant 0 <= j <= |data|
      invariant RowsFrom(cols, data[j..]) == RowsFrom(EmptyColumns(names), data)
    {
      assert data[j..][0] == data[j] && data[j..][1..] == data[j + 1..];
      var step := AddDataLine(cols, data[j]);
      if step.Err? {
        return Err(step.error);
      }
      cols := step.value;
      j := j + 1;
    }
    assert data[j..] == [];
    r := Ok(cols);
  }

  /** Column k's share of the data lines, in line order. */
  function ColumnOf(lines: seq<string>, k: int): seq<string>
    decreases |lines|
  {
    if lines == [] then [] else Contribution(lines[0], k) + ColumnOf(lines[1..], k)
  }

  /** The row loop succeeds exactly when every data line finds its columns,
      and then each position holds what it held before followed by the
      values the lines contribute to it; no position is added or removed. */
  lemma RowsFromContents(cols: DataColumns, lines: seq<string>)
    ensures RowsFrom(cols, lines).Ok? <==> forall l :: l in lines ==> Fits(cols, l)
    ensures RowsFrom(cols, lines).Ok? ==>
      RowsFrom(cols, lines).value == map k | k in cols :: cols[k] + ColumnOf(lines, k)
  {
    RowsFromFits(cols, lines);
    if RowsFrom(cols, lines).Ok? {
      RowsFromValue(cols, lines);
    }
  }

  /** A line that fits keeps the positions, so the same later lines fit. */
  lemma FitsAfter(cols: DataColumns, line: string, l: string)
    requires Fits(cols, line)
    ensures AddLine(cols, line).Ok? && AddLine(cols, line).value.Keys == cols.Keys
    ensures Fits(AddLine(cols, line).value, l) == Fits(cols, l)
  {
  }

  lemma {:induction false} RowsFromFits(cols: DataColumns, lines: seq<string>)
    ensures RowsFrom(cols, lines).Ok? <==> forall l :: l in lines ==> Fits(cols, l)
    decreases |lines|
  {
    if lines != [] {
      var line, rest := lines[0], lines[1..];
      assert lines == [line] + rest;
      if Fits(cols, line) {
        var next := AddLine(cols, line).value;
        forall l | l in rest
          ensures Fits(next, l) == Fits(cols, l)
        {
          FitsAfter(cols, line, l);
        }
        RowsFromFits(next, rest);
      }
    }
  }

  /** One fitting line moves its contribution from the lines still to come
      into the column. */
  lemma ColumnStep(cols: DataColumns, lines: seq<string>, k: int)
    requires lines != [] && Fits(cols, lines[0]) && k in cols
    ensures AddLine(cols, lines[0]).value[k] + ColumnOf(lines[1..], k) == cols[k] + ColumnOf(lines, k)
  {
    var c := Contribution(lines[0], k);
    assert AddLine(cols, lines[0]).value[k] == cols[k] + c;
    assert ColumnOf(lines, k) == c + ColumnOf(lines[1..], k);
    AppendAssoc(cols[k], c, ColumnOf(lines[1..], k));
  }

  lemma AppendAssoc(a: seq<string>, b: seq<string>, c: seq<string>)
    ensures a + b + c == a + (b + c)
  {
  }

  lemma {:induction false} RowsFromValue(cols: DataColumns, lines: seq<string>)
    requires RowsFrom(cols, lines).Ok?
    ensures RowsFrom(cols, lines).value == map k | k in cols :: cols[k] + ColumnOf(lines, k)
    decreases |lines|
  {
    if lines == [] {
      assert forall k :: k in cols ==> cols[k] + ColumnOf(lines, k) == cols[k];
    } else {
      var line, rest := lines[0], lines[1..];
      var next := AddLine(cols, line).value;
      assert next.Keys == cols.Keys;
      RowsFromValue(next, rest);
      forall k | k in cols
        ensures next[k] + ColumnOf(rest, k) == cols[k] + ColumnOf(lines, k)
      {
        ColumnStep(cols, lines, k);
      }
    }
  }

  /** The number of `(avg)` lines. */
  function CountAvg(lines: seq<string>): nat
    decreases |lines|
  {
    if lines == [] then 0 else (if IsAvg(lines[0]) then 1 else 0) + CountAvg(lines[1..])
  }

  /** Column 0 receives exactly one value per `(avg)` line, so there is one
      row per bottle. */
  lemma {:induction false} AvgRows(lines: seq<string>)
    ensures |ColumnOf(lines, 0)| == CountAvg(lines)
    decreases |lines|
  {
    if lines != [] {
      if IsAvg(lines[0]) {
        ValuesNonEmpty(lines[0], "(avg)");
      }
      AvgRows(lines[1..]);
    }
  }

  /** `[' '.join(item) for item in zip(xs[::2], xs[1::2])]`. */
  function PairDateTime(xs: seq<string>): (r: seq<string>)
    ensures |r| == |xs| / 2
    ensures forall j :: 0 <= j < |r| ==> r[j] == xs[2 * j] + " " + xs[2 * j + 1]
  {
    if |xs| < 2 then []
    else
      var rest := PairDateTime(xs[2..]);
      PairsShift(xs, rest);
      JoinPair(xs[0], xs[1]);
      [Join([xs[0], xs[1]], " ")] + rest
  }

  lemma PairsShift(xs: seq<string>, rest: seq<string>)
    requires |xs| >= 2 && 2 * |rest| <= |xs| - 2
    requires forall j :: 0 <= j < |rest| ==> rest[j] == xs[2..][2 * j] + " " + xs[2..][2 * j + 1]
    ensures forall j :: 0 <= j < |rest| ==> rest[j] == xs[2 * (j + 1)] + " " + xs[2 * (j + 1) + 1]
  {
  }

  /** `' '.join` of a pair puts one space between its items. */
  lemma JoinPair(a: string, b: string)
    ensures Join([a, b], " ") == a + " " + b
  {
    assert [a, b][..1] == [a];
  }

  /** Line 166: column 1 replaced by its date/time pairs; `data_dict[1]`
      raises KeyError when there is no column 1. */
  function JoinDateTime(cols: DataColumns): Result<DataColumns, ParseError>
  {
    if 1 in cols then Ok(cols[1 := PairDateTime(cols[1])]) else Err(MissingColumn(1))
  }

  /** The pairing touches column 1 only, and fails exactly when there is none. */
  lemma JoinDateTimeEffect(cols: DataColumns)
    ensures JoinDateTime(cols).Ok? <==> 1 in cols
    ensures JoinDateTime(cols).Ok? ==>
      var after := JoinDateTime(cols).value;
      && after.Keys == cols.Keys
      && |after[1]| == |cols[1]| / 2
      && forall k :: k in cols && k != 1 ==> after[k] == cols[k]
  {
  }

  /** `results`, built up to position n: each position's list stored under its
      column's name, a later position overwriting an earlier one of the same
      name. */
  function TableOf(names: ColumnNames, cols: DataColumns, n: nat): Table
    requires forall i :: 0 <= i < n ==> i in names && i in cols
  {
    if n == 0 then map[] else TableOf(names, cols, n - 1)[names[n - 1] := cols[n - 1]]
  }

  /** The results loop, over the positions in the order they were inserted
      into `column_dict` (ascending). */
  method BuildTable(names: ColumnNames, cols: DataColumns, n: nat) returns (table: Table)
    requires KeysArePositions(names, n) && names.Keys <= cols.Keys
    ensures table == TableOf(names, cols, n)
  {
    table := map[];
    var i := 0;
    while i < n
      invariant 0 <= i <= n
      invariant table == TableOf(names, cols, i)
    {
      table := table[names[i] := cols[i]];
      i := i + 1;
    }
  }

  /** The table has an entry for every column name, and no other entry. */
  lemma {:induction false} TableKeys(names: ColumnNames, cols: DataColumns, n: nat)
    requires forall i :: 0 <= i < n ==> i in names && i in cols
    ensures forall k :: 0 <= k < n ==> names[k] in TableOf(names, cols, n)
    ensures forall name :: name in TableOf(names, cols, n) ==> exists k :: 0 <= k < n && names[k] == name
  {
    if n > 0 {
      TableKeys(names, cols, n - 1);
      var table := TableOf(names, cols, n);
      forall name | name in table
        ensures exists k :: 0 <= k < n && names[k] == name
      {
        if name != names[n - 1] {
          assert name in TableOf(names, cols, n - 1);
          var k :| 0 <= k < n - 1 && names[k] == name;
        }
      }
    }
  }

  /** The entry of a name holds the list of the last position carrying that
      name: later positions overwrite earlier ones. */
  lemma {:induction false} TableLastWins(names: ColumnNames, cols: DataColumns, n: nat, k: nat)
    requires forall i :: 0 <= i < n ==> i in names && i in cols
    requires k < n && forall j :: k < j < n ==> names[j] != names[k]
    ensures names[k] in TableOf(names, cols, n) && TableOf(names, cols, n)[names[k]] == cols[k]
  {
    if k < n - 1 {
      TableLastWins(names, cols, n - 1, k);
    }
  }
}
