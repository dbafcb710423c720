/** The first pass over a bottle file: every stripped line is sorted into the
    header block, the data block or the column-header block, in file order. */
module Classify {
  import opened PyText

  datatype LineKind = HeaderLine | DataLine | ColumnLine

  /** A line starting with `*` or `#` is header; otherwise `float(line[0])`
      decides: a leading digit makes a data line, and any other first
      character, or an empty line (where `line[0]` raises and the handler
      catches it), makes a column-header line. */
  function KindOf(line: string): LineKind
  {
    if StartsWith(line, "*") || StartsWith(line, "#") then HeaderLine
    else if |line| > 0 && IsDigit(line[0]) then DataLine
    else ColumnLine
  }

  /** The lines of the given kind, in their original order. */
  function OfKind(lines: seq<string>, k: LineKind): (r: seq<string>)
    ensures |r| <= |lines|
    ensures forall l :: l in r ==> KindOf(l) == k
  {
    if lines == [] then []
    else
      var last := lines[|lines| - 1];
      OfKind(lines[..|lines| - 1], k) + (if KindOf(last) == k then [last] else [])
  }

  /** The classifier loop: appends each line to the list its kind selects. */
  method ClassifyLines(lines: seq<string>) returns (header: seq<string>, columns: seq<string>, data: seq<string>)
    ensures header == OfKind(lines, HeaderLine)
    ensures data == OfKind(lines, DataLine)
    ensures columns == OfKind(lines, ColumnLine)
  {
    header, columns, data := [], [], [];
    var i := 0;
    while i < |lines|
      invariant 0 <= i <= |lines|
      invariant header == OfKind(lines[..i], HeaderLine)
      invariant data == OfKind(lines[..i], DataLine)
      invariant columns == OfKind(lines[..i], ColumnLine)
    {
      var line := lines[i];
      assert lines[..i + 1][..i] == lines[..i];
      if StartsWith(line, "*") || StartsWith(line, "#") {
        header := header + [line];
      } else if |line| > 0 && IsDigit(line[0]) {
        data := data + [line];
      } else {
        columns := columns + [line];
      }
      i := i + 1;
    }
    assert lines[..i] == lines;
  }

  /** Classification keeps order: it distributes over concatenation. */
  lemma {:induction false} OfKindAppend(a: seq<string>, b: seq<string>, k: LineKind)
    ensures OfKind(a + b, k) == OfKind(a, k) + OfKind(b, k)
    decreases |b|
  {
    if b == [] {
      assert a + b == a;
    } else {
      var b' := b[..|b| - 1];
      assert (a + b)[..|a + b| - 1] == a + b';
      OfKindAppend(a, b', k);
    }
  }

  /** Every line lands in exactly one of the three lists: together they hold
      each line of the file once. */
  lemma {:induction false} ClassifyPartition(lines: seq<string>)
    ensures multiset(OfKind(lines, HeaderLine)) + multiset(OfKind(lines, DataLine))
            + multiset(OfKind(lines, ColumnLine)) == multiset(lines)
  {
    if lines != [] {
      var init, last := lines[..|lines| - 1], lines[|lines| - 1];
      ClassifyPartition(init);
      PartitionStep(init, last);
      assert lines == init + [last];
    }
  }

  /** One more line keeps the three lists a partition of the lines. */
  lemma PartitionStep(init: seq<string>, last: string)
    requires multiset(OfKind(init, HeaderLine)) + multiset(OfKind(init, DataLine))
             + multiset(OfKind(init, ColumnLine)) == multiset(init)
    ensures multiset(OfKind(init + [last], HeaderLine)) + multiset(OfKind(init + [last], DataLine))
            + multiset(OfKind(init + [last], ColumnLine)) == multiset(init + [last])
  {
    var h, d, c := OfKind(init, HeaderLine), OfKind(init, DataLine), OfKind(init, ColumnLine);
    var one := multiset{last};
    OfKindSnoc(init, last, HeaderLine);
    OfKindSnoc(init, last, DataLine);
    OfKindSnoc(init, last, ColumnLine);
    assert multiset(init + [last]) == multiset(init) + one;
    match KindOf(last)
    case HeaderLine =>
      SnocMultiset(h, last);
      AddToPart(multiset(h), multiset(d), multiset(c), multiset(init), one);
    case DataLine =>
      SnocMultiset(d, last);
      AddToPart(multiset(d), multiset(h), multiset(c), multiset(init), one);
    case ColumnLine =>
      SnocMultiset(c, last);
      AddToPart(multiset(c), multiset(h), multiset(d), multiset(init), one);
  }

  lemma AddToPart(a: multiset<string>, b: multiset<string>, c: multiset<string>, m: multiset<string>, x: multiset<string>)
    requires a + b + c == m || b + a + c == m || b + c + a == m
    ensures (a + x) + b + c == m + x && b + (a + x) + c == m + x && b + c + (a + x) == m + x
  {
  }

  lemma SnocMultiset(xs: seq<string>, x: string)
    ensures multiset(xs + [x]) == multiset(xs) + multiset{x}
  {
  }

  lemma OfKindSnoc(init: seq<string>, last: string, k: LineKind)
    ensures KindOf(last) == k ==> OfKind(init + [last], k) == OfKind(init, k) + [last]
    ensures KindOf(last) != k ==> OfKind(init + [last], k) == OfKind(init, k)
  {
    assert (init + [last])[..|init|] == init;
  }

  /** So the three lists have as many lines in all as the file. */
  lemma ClassifyCount(lines: seq<string>)
    ensures |OfKind(lines, HeaderLine)| + |OfKind(lines, DataLine)| + |OfKind(lines, ColumnLine)| == |lines|
  {
    ClassifyPartition(lines);
    assert |multiset(lines)| == |lines|;
  }

  /** A line is in the list of kind k exactly when it is a line of the file
      and has kind k. */
  lemma {:induction false} OfKindMember(lines: seq<string>, k: LineKind, l: string)
    ensures l in OfKind(lines, k) <==> l in lines && KindOf(l) == k
  {
    if lines != [] {
      var init := lines[..|lines| - 1];
      OfKindMember(init, k, l);
      assert lines == init + [lines[|lines| - 1]];
    }
  }
}
