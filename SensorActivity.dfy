/** The activity's replay of the sensor file: it reads the rows once, then a
    posted task shows one row per run and re-posts itself until the rows run
    out.

    Each run of the posted task is one call of `Tick`; the main looper that
    keeps running the posted task is `DispatchUntilIdle`. The 1.5 second delay
    between runs is not part of the model. */
module SensorActivity {
  import opened Wrappers
  import SensorCsv
  import WaterAlerts
  import JavaText
  import JavaDouble

  /** The values `showSensorReading` takes from a row: the timestamp
      (column 0), temperature (column 3), conductivity (column 4), pH
      (column 6), turbidity (column 8) and dissolved oxygen (column 11), as
      the row's text. */
  datatype Reading = Reading(
    timestamp: string,
    temperature: string,
    conductivity: string,
    ph: string,
    turbidity: string,
    oxygen: string)

  /** The four texts one run puts on the screen. */
  datatype Screen = Screen(ph: string, conductivity: string, temperature: string, oxygen: string)

  /** `showSensorReading(tokens)`: the fields it reads. The row needs at
      least 12 tokens, which every row of the reader has. Each field is the
      token under the column of that name in the file's header, as
      `SensorCsv.ColumnPositions` shows. */
  function ShowSensorReading(tokens: seq<string>): (r: Reading)
    requires |tokens| >= 12
    ensures r.timestamp == tokens[0]
    ensures r.temperature == tokens[3]
    ensures r.conductivity == tokens[4]
    ensures r.ph == tokens[6]
    ensures r.turbidity == tokens[8]
    ensures r.oxygen == tokens[11]
  {
    Reading(tokens[0], tokens[3], tokens[4], tokens[6], tokens[8], tokens[11])
  }

  /** What the run sets on the four text views: pH as read, and
      conductivity, temperature and dissolved oxygen as read followed by
      their units (μS/cm, ℃, mg/L). The timestamp is read but never shown. */
  function ScreenOf(r: Reading): (s: Screen)
    ensures s.ph == r.ph
    ensures r.conductivity <= s.conductivity && s.conductivity[|r.conductivity|..] == " μS/cm"
    ensures r.temperature <= s.temperature && s.temperature[|r.temperature|..] == " ℃"
    ensures r.oxygen <= s.oxygen && s.oxygen[|r.oxygen|..] == " mg/L"
  {
    Screen(r.ph, r.conductivity + " μS/cm", r.temperature + " ℃", r.oxygen + " mg/L")
  }

  /** The alerts the run raises, from the pH, turbidity and oxygen texts:
      none when one of them throws on parsing, and otherwise exactly the
      alerts whose own comparison holds. */
  function AlertsOf(r: Reading): (alerts: set<WaterAlerts.Alert>)
    ensures var ph, t, o := JavaDouble.ParseDouble(r.ph), JavaDouble.ParseDouble(r.turbidity), JavaDouble.ParseDouble(r.oxygen);
      ph.ParseFail? || t.ParseFail? || o.ParseFail? ==> alerts == {}
    ensures var ph, t, o := JavaDouble.ParseDouble(r.ph), JavaDouble.ParseDouble(r.turbidity), JavaDouble.ParseDouble(r.oxygen);
      !ph.ParseFail? && !t.ParseFail? && !o.ParseFail? ==>
        (WaterAlerts.PhOutOfRange in alerts <==> WaterAlerts.Below(ph, WaterAlerts.PhMin) || WaterAlerts.Above(ph, WaterAlerts.PhMax)) &&
        (WaterAlerts.TurbidityHigh in alerts <==> WaterAlerts.Above(t, WaterAlerts.TurbidityMax)) &&
        (WaterAlerts.DissolvedOxygenLow in alerts <==> WaterAlerts.Below(o, WaterAlerts.OxygenMin))
  {
    WaterAlerts.CheckThresholdAndAlert(r.ph, r.turbidity, r.oxygen)
  }

  /** Every row the reader keeps can be shown: it has the columns 0, 3, 4, 6,
      8 and 11 that the display reads, and the alert check sees its pH,
      turbidity and oxygen columns. */
  lemma ParsedRowsShowable(lines: seq<string>)
    ensures forall k :: 0 <= k < |SensorCsv.SensorData(lines)| ==>
      var row := SensorCsv.SensorData(lines)[k];
      |row| > 11 &&
      var r := ShowSensorReading(row);
      r.ph == row[6] && r.turbidity == row[8] && r.oxygen == row[11] &&
      r.timestamp == row[0] && r.temperature == row[3] && r.conductivity == row[4] &&
      AlertsOf(r) == WaterAlerts.CheckThresholdAndAlert(row[6], row[8], row[11])
  {
  }

  class MainActivity {
    /** The rows read from the sensor file, in file order. */
    var sensorDataLines: seq<seq<string>>
    /** The index of the next row to show. */
    var currentLineIdx: nat
    /** Whether the replay task is posted and will run again. */
    var running: bool

    /** The cursor stays within the rows and every row is wide enough to show. */
    ghost predicate Valid()
      reads this
    {
      && currentLineIdx <= |sensorDataLines|
      && forall k :: 0 <= k < |sensorDataLines| ==> |sensorDataLines[k]| >= SensorCsv.MinTokens
    }

    /** A new activity: no rows, the cursor at 0, nothing posted. */
    constructor ()
      ensures Valid()
      ensures sensorDataLines == [] && currentLineIdx == 0 && !running
    {
      sensorDataLines := [];
      currentLineIdx := 0;
      running := false;
    }

    /** `readCSVData`: scan `lines` (every line the file delivers before its
        end or a read error) and append the data rows to `sensorDataLines`,
        then start the replay. */
    method ReadCsvData(lines: seq<string>)
      requires Valid() && !running
      modifies this`sensorDataLines, this`running
      ensures Valid()
      ensures sensorDataLines == old(sensorDataLines) + SensorCsv.SensorData(lines)
      ensures currentLineIdx == old(currentLineIdx) && running
    {
      var sensorDataSection := false;
      ghost var header: nat := 0;
      ghost var gathered: seq<seq<string>> := [];
      SensorCsv.ScanStart(lines);
      var i := 0;
      while i < |lines|
        invariant Valid()
        invariant SensorCsv.Scanned(lines, i, sensorDataSection, header, gathered)
        invariant sensorDataLines == old(sensorDataLines) + gathered
      {
        var line := lines[i];
        if !sensorDataSection {
          SensorCsv.ScanPreamble(lines, i, header);
          if SensorCsv.IsHeader(line) {
            sensorDataSection := true;
            header := i;
          }
        } else {
          var tokens := SensorCsv.Tokens(line);
          SensorCsv.ScanData(lines, i, header, gathered);
          if |tokens| >= SensorCsv.MinTokens {
            sensorDataLines := sensorDataLines + [tokens];
            gathered := gathered + [tokens];
          }
        }
        i := i + 1;
      }
      SensorCsv.ScanEnd(lines, sensorDataSection, header, gathered);
      StartFakeSensor();
    }

    /** `startFakeSensor`: post the replay task. */
    method StartFakeSensor()
      modifies this`running
      ensures running
    {
      running := true;
    }

    /** One run of the posted task. With a row left it shows that row,
        advances the cursor by one and re-posts itself; at the end it shows
        nothing, leaves the cursor where it is and is not posted again. The
        rows never change. */
    method Tick() returns (shown: Option<Reading>)
      requires Valid() && running
      modifies this`currentLineIdx, this`running
      ensures Valid() && sensorDataLines == old(sensorDataLines)
      ensures old(currentLineIdx) < |sensorDataLines| ==>
        shown == Some(ShowSensorReading(old(sensorDataLines[currentLineIdx]))) &&
        currentLineIdx == old(currentLineIdx) + 1 && running
      ensures old(currentLineIdx) >= |sensorDataLines| ==>
        shown.None? && currentLineIdx == old(currentLineIdx) && !running
    {
      if currentLineIdx < |sensorDataLines| {
        shown := Some(ShowSensorReading(sensorDataLines[currentLineIdx]));
        currentLineIdx := currentLineIdx + 1;
        running := true;
      } else {
        shown := None;
        running := false;
      }
    }
  }

  /** The main looper running the posted task until it stops re-posting
      itself. From cursor `c` over `n` rows there are `n - c + 1` runs: the
      first `n - c` show rows `c` to `n - 1` in order, and the last shows
      nothing. */
  method DispatchUntilIdle(a: MainActivity) returns (shown: seq<Reading>, runs: nat)
    requires a.Valid() && a.running
    modifies a`currentLineIdx, a`running
    ensures a.Valid() && a.sensorDataLines == old(a.sensorDataLines)
    ensures !a.running && a.currentLineIdx == |a.sensorDataLines|
    ensures runs == |a.sensorDataLines| - old(a.currentLineIdx) + 1
    ensures |shown| == |a.sensorDataLines| - old(a.currentLineIdx)
    ensures forall k :: 0 <= k < |shown| ==>
      shown[k] == ShowSensorReading(old(a.sensorDataLines)[old(a.currentLineIdx) + k])
  {
    shown, runs := [], 0;
    while a.running
      invariant a.Valid() && a.sensorDataLines == old(a.sensorDataLines)
      invariant old(a.currentLineIdx) <= a.currentLineIdx
      invariant a.running ==> runs == a.currentLineIdx - old(a.currentLineIdx)
      invariant !a.running ==>
        a.currentLineIdx == |a.sensorDataLines| && runs == a.currentLineIdx - old(a.currentLineIdx) + 1
      invariant |shown| == a.currentLineIdx - old(a.currentLineIdx)
      invariant forall k :: 0 <= k < |shown| ==>
        shown[k] == ShowSensorReading(old(a.sensorDataLines)[old(a.currentLineIdx) + k])
      decreases |a.sensorDataLines| - a.currentLineIdx, a.running
    {
      var r := a.Tick();
      runs := runs + 1;
      if r.Some? {
        shown := shown + [r.value];
      }
    }
  }

  /** `onCreate`: a new activity reads the file and posts the replay, with
      the cursor on the first row. */
  method OnCreate(lines: seq<string>) returns (a: MainActivity)
    ensures fresh(a) && a.Valid()
    ensures a.sensorDataLines == SensorCsv.SensorData(lines) && a.currentLineIdx == 0 && a.running
  {
    a := new MainActivity();
    a.ReadCsvData(lines);
  }

  /** The whole life of the activity on one file: every data row after the
      first header is shown once, in file order, and one last run finds
      nothing left and stops the replay. */
  method ReplayFile(lines: seq<string>) returns (shown: seq<Reading>, runs: nat)
    ensures |shown| == |SensorCsv.SensorData(lines)| && runs == |shown| + 1
    ensures forall k :: 0 <= k < |shown| ==>
      shown[k] == ShowSensorReading(SensorCsv.SensorData(lines)[k])
  {
    var a := OnCreate(lines);
    shown, runs := DispatchUntilIdle(a);
  }

  /** A file without a header line: the first run shows nothing and the
      replay stops. */
  method NoHeaderReplay(lines: seq<string>) returns (first: Option<Reading>, stillRunning: bool)
    requires forall j :: 0 <= j < |lines| ==> !SensorCsv.IsHeader(lines[j])
    ensures first.None? && !stillRunning
  {
    SensorCsv.NoHeaderNoRows(lines);
    var a := OnCreate(lines);
    first := a.Tick();
    stillRunning := a.running;
  }

  /** The fields of the example row: taken at 2024-01-01T00:00 with pH 7.0,
      turbidity 2 and dissolved oxygen 6.0. */
  const ExampleFields: seq<string> :=
    ["2024-01-01T00:00", "1", "2", "25.0", "500", "450", "7.0", "10", "2", "1", "90", "6.0", "5", "3"]

  /** No field of the example row contains a comma. */
  lemma ExampleFieldsCommaFree(fs: seq<string>)
    requires fs == ExampleFields
    ensures forall k :: 0 <= k < |fs| ==> ',' !in fs[k]
  {
    forall k | 0 <= k < |fs| ensures ',' !in fs[k] {
      assert forall i :: 0 <= i < |fs[k]| ==> '-' <= fs[k][i] <= 'T';
    }
  }

  /** The example row, read as a line of the file, splits back into its 14
      fields. */
  lemma ExampleRowTokens(fs: seq<string>)
    requires fs == ExampleFields
    ensures SensorCsv.Tokens(JavaText.Join(fs, ',')) == fs
  {
    ExampleFieldsCommaFree(fs);
    JavaText.SplitJoin(fs, ',');
    assert fs[|fs| - 1] == "3";
  }

  /** `d.0` parses to the digit's value, for the example's `7.0` and `6.0`. */
  lemma ParseOnePlace(d: char, text: string)
    requires '0' <= d <= '9' && text == [d, '.', '0']
    ensures JavaDouble.ParseDouble(text) == JavaDouble.Num((d as int - '0' as int) as real)
  {
    var n := d as int - '0' as int;
    assert JavaDouble.AllDigits([d]) && JavaDouble.AllDigits("0");
    JavaDouble.ParseDecimal([d], "0");
    assert [d] + "." + "0" == text;
    assert JavaDouble.DigitsValue([d] + "0") == 10 * n by {
      TwoDigitsValue(d, '0');
    }
    assert JavaDouble.Pow10(|"0"|) == 10;
    assert (10 * n) as real / 10 as real == n as real;
  }

  /** Two digits are worth ten times the first plus the second. */
  lemma TwoDigitsValue(x: char, y: char)
    requires '0' <= x <= '9' && '0' <= y <= '9'
    ensures JavaDouble.AllDigits([x] + [y])
    ensures JavaDouble.DigitsValue([x] + [y]) == 10 * (x as int - '0' as int) + (y as int - '0' as int)
  {
    var ds := [x] + [y];
    assert JavaDouble.AllDigits(ds) by {
      assert forall k :: 0 <= k < |ds| ==> ds[k] == x || ds[k] == y;
    }
    assert ds[..1] == [x] && ds[1] == y;
    assert JavaDouble.DigitsValue([x]) == x as int - '0' as int by {
      assert [x][..0] == [];
    }
  }

  /** A single digit parses to its value, for the example's `2`. */
  lemma ParseOneDigit(d: char, text: string)
    requires '0' <= d <= '9' && text == [d]
    ensures JavaDouble.ParseDouble(text) == JavaDouble.Num((d as int - '0' as int) as real)
  {
    var v := (d as int - '0' as int) as real;
    JavaDouble.ParseDigits(text);
    assert JavaDouble.DigitsValue(text) == d as int - '0' as int by {
      assert text[..0] == [];
    }
    JavaDouble.ParseSigned(text, v, false);
    assert "" + text == text;
  }

  /** The example's numbers parse to their exact values. */
  lemma ExampleValues(ph: string, turbidity: string, o2: string)
    requires ph == "7.0" && turbidity == "2" && o2 == "6.0"
    ensures JavaDouble.ParseDouble(ph) == JavaDouble.Num(7.0)
    ensures JavaDouble.ParseDouble(turbidity) == JavaDouble.Num(2.0)
    ensures JavaDouble.ParseDouble(o2) == JavaDouble.Num(6.0)
  {
    ParseOnePlace('7', ph);
    ParseOnePlace('6', o2);
    ParseOneDigit('2', turbidity);
  }

  /** The example's pH 7.0, turbidity 2 and oxygen 6.0 are all within
      range, so no alert is raised. */
  lemma ExampleRaisesNothing(ph: string, turbidity: string, o2: string)
    requires ph == "7.0" && turbidity == "2" && o2 == "6.0"
    ensures WaterAlerts.CheckThresholdAndAlert(ph, turbidity, o2) == {}
  {
    ExampleValues(ph, turbidity, o2);
    WaterAlerts.AlertScenarios();
  }

  /** A file holding the header line and then one comma-separated row of 14
      fields with pH 7.0, turbidity 2 and oxygen 6.0 yields exactly that row,
      and showing it raises no alert. */
  lemma {:induction false} SafeRowFileRaisesNothing(fs: seq<string>)
    requires |fs| == 14 && fs[13] != ""
    requires forall k :: 0 <= k < |fs| ==> ',' !in fs[k]
    requires fs[6] == "7.0" && fs[8] == "2" && fs[11] == "6.0"
    ensures var lines := [SensorCsv.HeaderLine(), JavaText.Join(fs, ',')];
      SensorCsv.SensorData(lines) == [fs] &&
      AlertsOf(ShowSensorReading(fs)) == {}
  {
    var row := JavaText.Join(fs, ',');
    SensorCsv.HeaderLineIsHeader();
    JavaText.SplitJoin(fs, ',');
    assert JavaText.DropTrailingEmpty(fs) == fs;
    SensorCsv.HeaderThenLine(SensorCsv.HeaderLine(), row);
    ExampleRaisesNothing(fs[6], fs[8], fs[11]);
  }

  /** The header line followed by the example row yields exactly that row,
      and showing it raises no alert. */
  lemma ExampleFileRaisesNothing(fs: seq<string>)
    requires fs == ExampleFields
    ensures var lines := [SensorCsv.HeaderLine(), JavaText.Join(fs, ',')];
      SensorCsv.SensorData(lines) == [fs] &&
      AlertsOf(ShowSensorReading(fs)) == {}
  {
    ExampleFieldsCommaFree(fs);
    SafeRowFileRaisesNothing(fs);
  }

  /** A row of only 10 comma-separated fields is dropped: the file yields no
      row at all. */
  lemma {:induction false} ShortRowDropped(fs: seq<string>)
    requires |fs| == 10 && fs[9] != ""
    requires forall k :: 0 <= k < |fs| ==> ',' !in fs[k]
    ensures SensorCsv.SensorData([SensorCsv.HeaderLine(), JavaText.Join(fs, ',')]) == []
  {
    var row := JavaText.Join(fs, ',');
    SensorCsv.HeaderLineIsHeader();
    JavaText.SplitJoin(fs, ',');
    assert JavaText.DropTrailingEmpty(fs) == fs;
    SensorCsv.HeaderThenLine(SensorCsv.HeaderLine(), row);
  }
}
