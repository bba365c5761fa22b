/** What `readCSVData` extracts from the bundled sensor file: the token arrays
    of the data rows after the first header line.

    Lines before the first line starting with `TIMESTAMP,DN,D_Water` are
    preamble and are skipped, the header itself included. Every later line is
    split on `,`; it is kept when it yields at least 14 tokens and silently
    dropped otherwise. The reader never leaves the data section, so a second
    header line is just another row (it has 14 tokens and is kept). */
module SensorCsv {
  import opened Wrappers
  import JavaText

  const HeaderPrefix: string := "TIMESTAMP,DN,D_Water"

  /** Fewest tokens a data row must have. */
  const MinTokens: nat := 14

  /** `line.startsWith("TIMESTAMP,DN,D_Water")`. */
  predicate IsHeader(line: string) { HeaderPrefix <= line }

  /** `line.split(",")`. */
  function Tokens(line: string): seq<string> { JavaText.Split(line, ',') }

  /** A token array long enough to be a data row. */
  predicate Wide(tokens: seq<string>) { |tokens| >= MinTokens }

  predicate IsDataRow(line: string) { Wide(Tokens(line)) }

  /** The index of the first line that starts with `p`, if there is one. The
      facts below hold for any such marker `p`; the reader's marker is
      `HeaderPrefix`. */
  function FirstStarting(lines: seq<string>, p: string): (r: Option<nat>)
    ensures r.Some? ==> r.value < |lines|
  {
    if lines == [] then None
    else if p <= lines[0] then Some(0)
    else match FirstStarting(lines[1..], p)
      case None => None
      case Some(h) => Some(h + 1)
  }

  /** The index of the first header line, if there is one. */
  function FirstHeader(lines: seq<string>): Option<nat>
  {
    FirstStarting(lines, HeaderPrefix)
  }

  /** There is no marked line exactly when no line starts with `p`; otherwise
      the result is a marked line with no marked line before it. */
  lemma {:induction false} FirstStartingSpec(lines: seq<string>, p: string)
    ensures FirstStarting(lines, p).None? <==> forall j :: 0 <= j < |lines| ==> !(p <= lines[j])
    ensures FirstStarting(lines, p).Some? ==>
      p <= lines[FirstStarting(lines, p).value] &&
      forall j :: 0 <= j < FirstStarting(lines, p).value ==> !(p <= lines[j])
    decreases |lines|
  {
    if lines != [] && !(p <= lines[0]) {
      FirstStartingSpec(lines[1..], p);
      assert forall j :: 1 <= j < |lines| ==> lines[j] == lines[1..][j - 1];
    }
  }

  /** A marked line with no marked line before it is the first one. */
  lemma FirstStartingUnique(lines: seq<string>, p: string, h: nat)
    requires h < |lines| && p <= lines[h]
    requires forall j :: 0 <= j < h ==> !(p <= lines[j])
    ensures FirstStarting(lines, p) == Some(h)
  {
    FirstStartingSpec(lines, p);
  }

  /** The token arrays of the lines of `ls` that are data rows, in order. */
  function KeepRows(ls: seq<string>): (rows: seq<seq<string>>)
    ensures |rows| <= |ls|
    ensures forall k :: 0 <= k < |rows| ==> Wide(rows[k])
  {
    if ls == [] then []
    else
      var last := ls[|ls| - 1];
      KeepRows(ls[..|ls| - 1]) + (if IsDataRow(last) then [Tokens(last)] else [])
  }

  /** The indices in `ls` of its data-row lines, in increasing order. */
  ghost function DataIndices(ls: seq<string>): seq<nat>
  {
    if ls == [] then []
    else DataIndices(ls[..|ls| - 1]) + (if IsDataRow(ls[|ls| - 1]) then [|ls| - 1] else [])
  }

  /** `DataIndices(ls)` says where each row of `KeepRows(ls)` comes from: one
      index per kept row, each of a data-row line whose tokens are that row,
      increasing, and every data-row line's index among them. */
  lemma {:induction false} DataIndicesSpec(ls: seq<string>)
    ensures var idx := DataIndices(ls); |idx| == |KeepRows(ls)|
    ensures var idx := DataIndices(ls); forall k :: 0 <= k < |idx| ==>
      idx[k] < |ls| && IsDataRow(ls[idx[k]]) && KeepRows(ls)[k] == Tokens(ls[idx[k]])
    ensures var idx := DataIndices(ls); forall k, m :: 0 <= k < m < |idx| ==> idx[k] < idx[m]
    ensures var idx := DataIndices(ls); forall j :: 0 <= j < |ls| && IsDataRow(ls[j]) ==> j in idx
    decreases |ls|
  {
    if ls != [] {
      var init, last := ls[..|ls| - 1], ls[|ls| - 1];
      DataIndicesSpec(init);
      var prev, idx := DataIndices(init), DataIndices(ls);
      var rows := KeepRows(ls);
      assert idx == prev + (if IsDataRow(last) then [|ls| - 1] else []);
      assert rows == KeepRows(init) + (if IsDataRow(last) then [Tokens(last)] else []);
      forall k | 0 <= k < |idx|
        ensures idx[k] < |ls| && IsDataRow(ls[idx[k]]) && rows[k] == Tokens(ls[idx[k]])
      {
        if k < |prev| {
          assert idx[k] == prev[k] && rows[k] == KeepRows(init)[k];
          assert init[prev[k]] == ls[prev[k]];
        }
      }
      forall k, m | 0 <= k < m < |idx| ensures idx[k] < idx[m] {
        if m < |prev| { assert idx[k] == prev[k] && idx[m] == prev[m]; }
        else { assert idx[k] == prev[k] < |init|; }
      }
      forall j | 0 <= j < |ls| && IsDataRow(ls[j]) ensures j in idx {
        if j < |init| {
          assert init[j] == ls[j];
          assert j in prev;
        }
      }
    }
  }

  /** The `k`-th kept row, pointwise: where it comes from. */
  lemma DataIndexSound(ls: seq<string>, k: nat)
    requires k < |DataIndices(ls)|
    ensures |DataIndices(ls)| == |KeepRows(ls)|
    ensures DataIndices(ls)[k] < |ls| && IsDataRow(ls[DataIndices(ls)[k]])
    ensures KeepRows(ls)[k] == Tokens(ls[DataIndices(ls)[k]])
  {
    DataIndicesSpec(ls);
  }

  /** A data-row line, pointwise: its index is among the kept ones. */
  lemma DataIndexKept(ls: seq<string>, i: nat)
    requires i < |ls| && IsDataRow(ls[i])
    ensures i in DataIndices(ls)
  {
    DataIndicesSpec(ls);
  }

  /** Every index of `idx` moved up by `d`. */
  ghost function Shift(idx: seq<nat>, d: nat): (r: seq<nat>)
    ensures |r| == |idx|
  {
    if idx == [] then [] else [idx[0] + d] + Shift(idx[1..], d)
  }

  lemma {:induction false} ShiftAt(idx: seq<nat>, d: nat, k: nat)
    requires k < |idx|
    ensures Shift(idx, d)[k] == idx[k] + d
    decreases k
  {
    if k > 0 {
      ShiftAt(idx[1..], d, k - 1);
    }
  }

  /** The rows after the first line starting with `p`. */
  function Section(lines: seq<string>, p: string): seq<seq<string>>
  {
    match FirstStarting(lines, p)
    case None => []
    case Some(h) => KeepRows(lines[h + 1..])
  }

  /** The rows `readCSVData` gathers from the lines of the file: none without
      a header line, never more rows than lines, and every row at least 14
      tokens wide. `SensorDataRows` says which rows they are. */
  function SensorData(lines: seq<string>): (rows: seq<seq<string>>)
    ensures FirstHeader(lines).None? ==> rows == []
    ensures |rows| <= |lines|
    ensures forall k :: 0 <= k < |rows| ==> |rows[k]| >= MinTokens
  {
    Section(lines, HeaderPrefix)
  }

  /** The line of the file each row of `Section(lines, p)` was read from. */
  ghost function SectionSources(lines: seq<string>, p: string): seq<nat>
  {
    match FirstStarting(lines, p)
    case None => []
    case Some(h) => Shift(DataIndices(lines[h + 1..]), h + 1)
  }

  /** The line of the file each row of `SensorData(lines)` was read from. */
  ghost function RowSources(lines: seq<string>): seq<nat>
  {
    SectionSources(lines, HeaderPrefix)
  }

  /** The rows and their source lines when the first marked line is `h`. */
  lemma SectionAfter(lines: seq<string>, p: string, h: nat)
    requires FirstStarting(lines, p) == Some(h)
    ensures SectionSources(lines, p) == Shift(DataIndices(lines[h + 1..]), h + 1)
    ensures Section(lines, p) == KeepRows(lines[h + 1..])
  {
  }

  /** Without a marked line there are no rows. */
  lemma NoMarkerNoRows(lines: seq<string>, p: string)
    requires forall j :: 0 <= j < |lines| ==> !(p <= lines[j])
    ensures Section(lines, p) == []
  {
    FirstStartingSpec(lines, p);
  }

  /** One source line per row. */
  lemma SectionSourcesLength(lines: seq<string>, p: string)
    ensures |SectionSources(lines, p)| == |Section(lines, p)|
  {
    match FirstStarting(lines, p)
    case None =>
    case Some(h) =>
      DataIndicesSpec(lines[h + 1..]);
  }

  /** The `k`-th kept row of `ls`, pointwise, with its index moved up by `d`. */
  lemma ShiftedRowAt(ls: seq<string>, d: nat, k: nat) returns (i: nat)
    requires k < |Shift(DataIndices(ls), d)|
    ensures k < |KeepRows(ls)| && Shift(DataIndices(ls), d)[k] == i + d
    ensures i < |ls| && IsDataRow(ls[i]) && KeepRows(ls)[k] == Tokens(ls[i])
  {
    DataIndexSound(ls, k);
    i := DataIndices(ls)[k];
    ShiftAt(DataIndices(ls), d, k);
  }

  /** The `k`-th row comes from a data-row line after the marked line and is
      that line's tokens. */
  lemma RowFromDataLineAt(lines: seq<string>, p: string, h: nat, k: nat)
    requires FirstStarting(lines, p) == Some(h)
    requires k < |SectionSources(lines, p)|
    ensures k < |Section(lines, p)|
    ensures h < SectionSources(lines, p)[k] < |lines| && IsDataRow(lines[SectionSources(lines, p)[k]])
    ensures Section(lines, p)[k] == Tokens(lines[SectionSources(lines, p)[k]])
  {
    var tail := lines[h + 1..];
    var src, rows := SectionSources(lines, p), Section(lines, p);
    SectionAfter(lines, p, h);
    var i := ShiftedRowAt(tail, h + 1, k);
    assert src[k] == i + h + 1;
    assert rows[k] == KeepRows(tail)[k] == Tokens(tail[i]);
    assert tail[i] == lines[src[k]];
  }

  /** Every row comes from a data-row line after the first marked line and is
      that line's tokens, and one source line is given per row. */
  lemma RowsFromDataLines(lines: seq<string>, p: string)
    ensures |SectionSources(lines, p)| == |Section(lines, p)|
    ensures forall k :: 0 <= k < |SectionSources(lines, p)| ==>
      FirstStarting(lines, p).Some? && FirstStarting(lines, p).value < SectionSources(lines, p)[k] < |lines| &&
      IsDataRow(lines[SectionSources(lines, p)[k]]) && Section(lines, p)[k] == Tokens(lines[SectionSources(lines, p)[k]])
  {
    SectionSourcesLength(lines, p);
    match FirstStarting(lines, p)
    case None =>
    case Some(h) =>
      forall k | 0 <= k < |SectionSources(lines, p)|
        ensures h < SectionSources(lines, p)[k] < |lines| && IsDataRow(lines[SectionSources(lines, p)[k]]) &&
          Section(lines, p)[k] == Tokens(lines[SectionSources(lines, p)[k]])
      {
        RowFromDataLineAt(lines, p, h, k);
      }
  }

  /** The source lines of rows `k < m`, pointwise: in file order. */
  lemma RowSourcesOrderedAt(lines: seq<string>, p: string, h: nat, k: nat, m: nat)
    requires FirstStarting(lines, p) == Some(h)
    requires k < m < |SectionSources(lines, p)|
    ensures SectionSources(lines, p)[k] < SectionSources(lines, p)[m]
  {
    SectionAfter(lines, p, h);
    var idx := DataIndices(lines[h + 1..]);
    assert idx[k] < idx[m] by { DataIndicesSpec(lines[h + 1..]); }
    ShiftAt(idx, h + 1, k);
    ShiftAt(idx, h + 1, m);
  }

  /** The rows keep the order of their lines in the file. */
  lemma RowsInFileOrder(lines: seq<string>, p: string)
    ensures forall k, m :: 0 <= k < m < |SectionSources(lines, p)| ==>
      SectionSources(lines, p)[k] < SectionSources(lines, p)[m]
  {
    match FirstStarting(lines, p)
    case None =>
    case Some(h) =>
      forall k, m | 0 <= k < m < |SectionSources(lines, p)|
        ensures SectionSources(lines, p)[k] < SectionSources(lines, p)[m]
      {
        RowSourcesOrderedAt(lines, p, h, k, m);
      }
  }

  /** A data-row line, pointwise: the position `k` of its index among the
      kept indices. */
  lemma DataIndexPosition(ls: seq<string>, i: nat) returns (k: nat)
    requires i < |ls| && IsDataRow(ls[i])
    ensures k < |DataIndices(ls)| && DataIndices(ls)[k] == i
  {
    DataIndexKept(ls, i);
    k :| 0 <= k < |DataIndices(ls)| && DataIndices(ls)[k] == i;
  }

  /** The data-row line `j` after the marked line gives a row. */
  lemma DataLineKeptAt(lines: seq<string>, p: string, h: nat, j: nat)
    requires FirstStarting(lines, p) == Some(h)
    requires h < j < |lines| && IsDataRow(lines[j])
    ensures j in SectionSources(lines, p)
  {
    var tail := lines[h + 1..];
    SectionAfter(lines, p, h);
    assert tail[j - h - 1] == lines[j];
    var k := DataIndexPosition(tail, j - h - 1);
    ShiftAt(DataIndices(tail), h + 1, k);
    assert SectionSources(lines, p)[k] == j;
  }

  /** Every data-row line after the first marked line gives a row. */
  lemma EveryDataLineKept(lines: seq<string>, p: string)
    ensures FirstStarting(lines, p).Some? ==>
      forall j :: FirstStarting(lines, p).value < j < |lines| && IsDataRow(lines[j]) ==> j in SectionSources(lines, p)
  {
    match FirstStarting(lines, p)
    case None =>
    case Some(h) =>
      forall j | h < j < |lines| && IsDataRow(lines[j]) ensures j in SectionSources(lines, p) {
        DataLineKeptAt(lines, p, h, j);
      }
  }

  /** The reader's header: none exactly when no line starts with
      `TIMESTAMP,DN,D_Water`, otherwise the first line that does. */
  lemma FirstHeaderSpec(lines: seq<string>)
    ensures FirstHeader(lines).None? <==> forall j :: 0 <= j < |lines| ==> !IsHeader(lines[j])
    ensures FirstHeader(lines).Some? ==>
      IsHeader(lines[FirstHeader(lines).value]) &&
      forall j :: 0 <= j < FirstHeader(lines).value ==> !IsHeader(lines[j])
  {
    FirstStartingSpec(lines, HeaderPrefix);
  }

  /** A file without a header line yields no rows. */
  lemma NoHeaderNoRows(lines: seq<string>)
    requires forall j :: 0 <= j < |lines| ==> !IsHeader(lines[j])
    ensures SensorData(lines) == []
  {
    NoMarkerNoRows(lines, HeaderPrefix);
  }

  /** A header line with no header line before it opens the data section:
      the rows are those of the lines after it. */
  lemma FirstHeaderUnique(lines: seq<string>, h: nat)
    requires h < |lines| && IsHeader(lines[h])
    requires forall j :: 0 <= j < h ==> !IsHeader(lines[j])
    ensures FirstHeader(lines) == Some(h)
    ensures SensorData(lines) == KeepRows(lines[h + 1..])
  {
    FirstStartingUnique(lines, HeaderPrefix, h);
  }

  /** What `readCSVData` keeps, all in one statement: nothing without a
      header; otherwise one row per data-row line after the first header,
      each that line's tokens with at least 14 of them, no line at or before
      the header, every such line once, in file order. */
  lemma SensorDataRows(lines: seq<string>)
    ensures FirstHeader(lines).None? ==> SensorData(lines) == []
    ensures |RowSources(lines)| == |SensorData(lines)|
    ensures forall k :: 0 <= k < |SensorData(lines)| ==>
      |SensorData(lines)[k]| >= MinTokens
    ensures forall k :: 0 <= k < |RowSources(lines)| ==>
      FirstHeader(lines).Some? && FirstHeader(lines).value < RowSources(lines)[k] < |lines| &&
      IsDataRow(lines[RowSources(lines)[k]]) && SensorData(lines)[k] == Tokens(lines[RowSources(lines)[k]])
    ensures forall k, m :: 0 <= k < m < |RowSources(lines)| ==> RowSources(lines)[k] < RowSources(lines)[m]
    ensures FirstHeader(lines).Some? ==>
      forall j :: FirstHeader(lines).value < j < |lines| && IsDataRow(lines[j]) ==> j in RowSources(lines)
  {
    RowsFromDataLines(lines, HeaderPrefix);
    RowsInFileOrder(lines, HeaderPrefix);
    EveryDataLineKept(lines, HeaderPrefix);
  }

  /** Appending a line extends the kept rows by that line's row, if it is one. */
  lemma KeepRowsSnoc(ls: seq<string>, line: string)
    ensures KeepRows(ls + [line]) == KeepRows(ls) + (if IsDataRow(line) then [Tokens(line)] else [])
  {
    assert (ls + [line])[..|ls|] == ls;
  }

  /** The state of the reader after the first `i` lines: outside the data
      section no line so far is a header and nothing is gathered; inside it
      `header` is the first header line and `rows` are the rows of the lines
      read since. */
  ghost predicate Scanned(lines: seq<string>, i: nat, inSection: bool, header: nat, rows: seq<seq<string>>)
  {
    && i <= |lines|
    && (!inSection ==> (forall j :: 0 <= j < i ==> !IsHeader(lines[j])) && rows == [])
    && (inSection ==>
          header < i && IsHeader(lines[header]) &&
          (forall j :: 0 <= j < header ==> !IsHeader(lines[j])) &&
          rows == KeepRows(lines[header + 1..i]))
  }

  /** Before the first line nothing is read. */
  lemma ScanStart(lines: seq<string>)
    ensures Scanned(lines, 0, false, 0, [])
  {
  }

  /** A line read outside the data section: a header opens the section,
      anything else is skipped. */
  lemma ScanPreamble(lines: seq<string>, i: nat, header: nat)
    requires Scanned(lines, i, false, header, []) && i < |lines|
    ensures IsHeader(lines[i]) ==> Scanned(lines, i + 1, true, i, [])
    ensures !IsHeader(lines[i]) ==> Scanned(lines, i + 1, false, header, [])
  {
    assert lines[i + 1..i + 1] == [];
  }

  /** A line read inside the data section adds its row, if it is one. */
  lemma ScanData(lines: seq<string>, i: nat, header: nat, rows: seq<seq<string>>)
    requires Scanned(lines, i, true, header, rows) && i < |lines|
    ensures Scanned(lines, i + 1, true, header,
      rows + (if IsDataRow(lines[i]) then [Tokens(lines[i])] else []))
  {
    KeepRowsStep(lines, header, i);
  }

  /** After the last line the gathered rows are the rows of the file. */
  lemma ScanEnd(lines: seq<string>, inSection: bool, header: nat, rows: seq<seq<string>>)
    requires Scanned(lines, |lines|, inSection, header, rows)
    ensures rows == SensorData(lines)
  {
    if !inSection {
      NoHeaderNoRows(lines);
    } else {
      FirstHeaderUnique(lines, header);
      assert lines[header + 1..|lines|] == lines[header + 1..];
    }
  }

  /** One more line of the data section, read at index `i` after the header
      at `h`: the rows gathered so far grow by that line's row, if it is one. */
  lemma KeepRowsStep(lines: seq<string>, h: nat, i: nat)
    requires h < i < |lines|
    ensures KeepRows(lines[h + 1..i + 1]) ==
      KeepRows(lines[h + 1..i]) + (if IsDataRow(lines[i]) then [Tokens(lines[i])] else [])
  {
    assert lines[h + 1..i + 1] == lines[h + 1..i] + [lines[i]];
    KeepRowsSnoc(lines[h + 1..i], lines[i]);
  }

  /** Rows gathered from two consecutive blocks of lines are the rows of the
      first block followed by the rows of the second. */
  lemma {:induction false} KeepRowsAppend(a: seq<string>, b: seq<string>)
    ensures KeepRows(a + b) == KeepRows(a) + KeepRows(b)
    decreases |b|
  {
    if b == [] {
      assert a + b == a;
    } else {
      var init, last := b[..|b| - 1], b[|b| - 1];
      KeepRowsAppend(a, init);
      assert a + b == (a + init) + [last];
      KeepRowsSnoc(a + init, last);
      KeepRowsSnoc(init, last);
      assert init + [last] == b;
    }
  }

  /** Lines that come before the first marked line change nothing. */
  lemma PreambleIgnored(preamble: seq<string>, rest: seq<string>, p: string)
    requires forall j :: 0 <= j < |preamble| ==> !(p <= preamble[j])
    ensures Section(preamble + rest, p) == Section(rest, p)
  {
    match FirstStarting(rest, p)
    case None =>
      PreambleWithoutMarker(preamble, rest, p);
    case Some(h) =>
      PreambleBeforeMarker(preamble, rest, p, h);
  }

  /** With the first marked line of `rest` at `h`, the rows after an
      unmarked preamble are those of the lines of `rest` after `h`. */
  lemma {:induction false} PreambleBeforeMarker(preamble: seq<string>, rest: seq<string>, p: string, h: nat)
    requires forall j :: 0 <= j < |preamble| ==> !(p <= preamble[j])
    requires FirstStarting(rest, p) == Some(h)
    ensures Section(preamble + rest, p) == Section(rest, p)
  {
    PreambleShiftsMarker(preamble, rest, p, h);
    SectionFrom(preamble + rest, p, |preamble| + h);
    SectionFrom(rest, p, h);
    SuffixOfAppend(preamble, rest, h + 1);
  }

  /** Dropping a prefix and then `i` more elements leaves `b[i..]`. */
  lemma SuffixOfAppend(a: seq<string>, b: seq<string>, i: nat)
    requires i <= |b|
    ensures (a + b)[|a| + i..] == b[i..]
  {
  }

  /** The rows when the first marked line is `h`. */
  lemma SectionFrom(lines: seq<string>, p: string, h: nat)
    requires FirstStarting(lines, p) == Some(h)
    ensures Section(lines, p) == KeepRows(lines[h + 1..])
  {
  }

  /** With no marked line after an unmarked preamble there are no rows. */
  lemma PreambleWithoutMarker(preamble: seq<string>, rest: seq<string>, p: string)
    requires forall j :: 0 <= j < |preamble| ==> !(p <= preamble[j])
    requires FirstStarting(rest, p).None?
    ensures Section(preamble + rest, p) == [] && Section(rest, p) == []
  {
    var lines := preamble + rest;
    FirstStartingSpec(rest, p);
    forall j | 0 <= j < |lines| ensures !(p <= lines[j]) {
      if j >= |preamble| { assert lines[j] == rest[j - |preamble|]; }
    }
    NoMarkerNoRows(lines, p);
  }

  /** With an unmarked preamble the first marked line moves by its length. */
  lemma PreambleShiftsMarker(preamble: seq<string>, rest: seq<string>, p: string, h: nat)
    requires forall j :: 0 <= j < |preamble| ==> !(p <= preamble[j])
    requires FirstStarting(rest, p) == Some(h)
    ensures FirstStarting(preamble + rest, p) == Some(|preamble| + h)
  {
    var lines := preamble + rest;
    FirstStartingSpec(rest, p);
    assert lines[|preamble| + h] == rest[h];
    forall j | 0 <= j < |preamble| + h ensures !(p <= lines[j]) {
      if j >= |preamble| { assert lines[j] == rest[j - |preamble|]; }
    }
    FirstStartingUnique(lines, p, |preamble| + h);
  }

  /** The columns of the sensor file, in the order its header names them. */
  const Columns: seq<string> :=
    ["TIMESTAMP", "DN", "D_Water", "TW", "EC", "SCOND", "pH", "ORP", "TURBF", "CHLF", "O2SAT", "O2", "BGAPC", "FDOM"]

  /** The file's header line: the column names joined with commas. */
  function HeaderLine(): string { JavaText.Join(Columns, ',') }

  /** The header line splits back into the 14 column names, so the indices the
      display reads (0, 3, 4, 6, 8, 11) are the TIMESTAMP, TW, EC, pH, TURBF
      and O2 columns. */
  lemma ColumnPositions()
    ensures Tokens(HeaderLine()) == Columns
    ensures |Columns| == MinTokens
    ensures Columns[0] == "TIMESTAMP" && Columns[3] == "TW" && Columns[4] == "EC"
    ensures Columns[6] == "pH" && Columns[8] == "TURBF" && Columns[11] == "O2"
  {
    SplitColumns(Columns);
    ColumnNames(Columns);
  }

  lemma ColumnNames(cols: seq<string>)
    requires cols == Columns
    ensures |cols| == MinTokens
    ensures cols[0] == "TIMESTAMP" && cols[3] == "TW" && cols[4] == "EC"
    ensures cols[6] == "pH" && cols[8] == "TURBF" && cols[11] == "O2"
  {
  }

  /** The column names, joined and split again, come back unchanged. */
  lemma SplitColumns(cols: seq<string>)
    requires cols == Columns
    ensures Tokens(JavaText.Join(cols, ',')) == cols
  {
    ColumnsCommaFree(cols);
    JavaText.SplitJoin(cols, ',');
    assert JavaText.DropTrailingEmpty(cols) == cols by {
      assert cols[|cols| - 1] == "FDOM";
    }
  }

  /** No column name contains a comma. */
  lemma ColumnsCommaFree(cols: seq<string>)
    requires cols == Columns
    ensures forall k :: 0 <= k < |cols| ==> ',' !in cols[k]
  {
    forall k | 0 <= k < |cols| ensures ',' !in cols[k] {
      assert forall i :: 0 <= i < |cols[k]| ==> 'A' <= cols[k][i] <= 'Z' || 'a' <= cols[k][i] <= 'z' || cols[k][i] == '_' || cols[k][i] == '2';
    }
  }

  /** The header line starts with the prefix the reader looks for. */
  lemma HeaderLineIsHeader()
    ensures IsHeader(HeaderLine())
  {
    ColumnNames(Columns);
    JoinedColumnsStartWithHeader(Columns);
  }

  lemma JoinedColumnsStartWithHeader(cols: seq<string>)
    requires |cols| >= 4 && cols[0] == "TIMESTAMP" && cols[1] == "DN" && cols[2] == "D_Water"
    ensures HeaderPrefix <= JavaText.Join(cols, ',')
  {
    JoinFirstThree(cols, ',');
    PrefixColumns(cols[0], cols[1], cols[2]);
  }

  /** The first three pieces of a join, written out. */
  lemma JoinFirstThree(ps: seq<string>, c: char)
    requires |ps| >= 4
    ensures JavaText.Join(ps, c) == (ps[0] + [c] + ps[1] + [c] + ps[2]) + [c] + JavaText.Join(ps[3..], c)
  {
    assert ps[1..][1..] == ps[2..] && ps[2..][1..] == ps[3..];
    var r := JavaText.Join(ps[3..], c);
    assert JavaText.Join(ps[2..], c) == ps[2] + [c] + r;
    assert JavaText.Join(ps[1..], c) == ps[1] + [c] + JavaText.Join(ps[2..], c);
    assert JavaText.Join(ps, c) == ps[0] + [c] + (ps[1] + [c] + (ps[2] + [c] + r));
  }

  lemma PrefixColumns(a: string, b: string, d: string)
    requires a == "TIMESTAMP" && b == "DN" && d == "D_Water"
    ensures a + [','] + b + [','] + d == HeaderPrefix
  {
  }

  /** The reader never leaves the data section: any later line with at
      least 14 tokens, one starting with the header prefix included, is kept
      as a row, between the rows before it and the rows after it. */
  lemma SecondHeaderKept(pre: seq<string>, h1: string, mid: seq<string>, h2: string, post: seq<string>)
    requires forall j :: 0 <= j < |pre| ==> !IsHeader(pre[j])
    requires IsHeader(h1) && IsDataRow(h2)
    ensures SensorData(pre + [h1] + mid + [h2] + post) ==
      KeepRows(mid) + [Tokens(h2)] + KeepRows(post)
  {
    var tail := mid + [h2] + post;
    assert pre + [h1] + mid + [h2] + post == pre + [h1] + tail;
    PreambleThenHeader(pre, h1, tail);
    KeepRowsAround(mid, h2, post);
  }

  /** A header line after a preamble without one opens the data section:
      the rows are those of the lines after it. */
  lemma PreambleThenHeader(pre: seq<string>, hl: string, tail: seq<string>)
    requires forall j :: 0 <= j < |pre| ==> !IsHeader(pre[j])
    requires IsHeader(hl)
    ensures SensorData(pre + [hl] + tail) == KeepRows(tail)
  {
    var lines := pre + [hl] + tail;
    assert lines[|pre|] == hl;
    forall j | 0 <= j < |pre| ensures !IsHeader(lines[j]) {
      assert lines[j] == pre[j];
    }
    FirstHeaderUnique(lines, |pre|);
    assert lines[|pre| + 1..] == tail;
  }

  /** The rows of a block around one data-row line: the block's rows before
      it, that line's row, then the block's rows after it. */
  lemma KeepRowsAround(mid: seq<string>, line: string, post: seq<string>)
    requires IsDataRow(line)
    ensures KeepRows(mid + [line] + post) == KeepRows(mid) + [Tokens(line)] + KeepRows(post)
  {
    KeepRowsAppend(mid + [line], post);
    KeepRowsSnoc(mid, line);
  }

  /** A header line followed by one line: that line's row, if it is one. */
  lemma HeaderThenLine(hl: string, line: string)
    requires IsHeader(hl)
    ensures SensorData([hl, line]) == if IsDataRow(line) then [Tokens(line)] else []
  {
    PreambleThenHeader([], hl, [line]);
    assert [] + [hl] + [line] == [hl, line];
    KeepRowsSnoc([], line);
    assert [] + [line] == [line];
  }

  /** The header line is itself a line of 14 tokens: when it appears again in
      the data section it is kept as a row, the column names. */
  lemma RepeatedHeaderIsRow(pre: seq<string>, mid: seq<string>, post: seq<string>)
    requires forall j :: 0 <= j < |pre| ==> !IsHeader(pre[j])
    ensures SensorData(pre + [HeaderLine()] + mid + [HeaderLine()] + post) ==
      KeepRows(mid) + [Columns] + KeepRows(post)
  {
    HeaderLineIsHeader();
    ColumnPositions();
    SecondHeaderKept(pre, HeaderLine(), mid, HeaderLine(), post);
  }

}
