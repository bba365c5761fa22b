# Water-quality sensor replay: a Dafny model

This project models the core of the IoT water-monitoring app. The app has a single `MainActivity`, which does the following:

- `readCSVData` reads a bundled CSV file of recorded sensor values. It skips the preamble up to the first line starting with `TIMESTAMP,DN,D_Water`. It splits every later line on `,` and keeps the lines that have at least 14 tokens.
- `startFakeSensor` posts a task that replays the kept rows one at a time. Each time the task runs, it shows the row under the cursor and advances the cursor. It re-posts itself until no row is left.
- `showSensorReading` puts pH, conductivity, temperature and dissolved oxygen on screen.
- `checkThresholdAndAlert` warns when pH is outside 6.5 to 8.5, when turbidity is above 5, or when dissolved oxygen is below 5.

The project has six modules:

- `JavaText` models Java's `String.split(",")`. It cuts the string at every separator and drops trailing empty strings. A string without the separator comes back as a single token.
- `JavaDouble` models `Double.parseDouble` on decimal text. Values are exact reals, and a parse can also yield NaN, an infinity or a failure.
- `SensorCsv` holds the reader as specification functions, plus the lemmas that characterise which rows it keeps.
- `WaterAlerts` holds the three threshold rules and the warning texts.
- `SensorActivity` holds the activity as a class with the source's fields. `ReadCsvData` is a loop proved against `SensorCsv.SensorData`. `Tick` is one run of the posted task. `DispatchUntilIdle` is the main looper running that task until it stops re-posting itself.
- `Wrappers` holds the `Option` type.

**Parse failures silence every rule, not only their own.** One could expect a field that fails to parse to skip only its own rule. In the code, one `try` wraps all three `Double.parseDouble` calls. So any field that fails to parse suppresses every alert of that reading. Text like `NaN` does parse, and it only silences its own comparison.

## Model

| member | source | states |
|---|---|---|
| JavaText.Split | app/src/main/java/com/example/iotlabassignmentapp/MainActivity.java:57 | The empty line is one empty token. The full account of the tokens is `JavaText.SplitSpec`. |
| JavaText.SplitSpec | app/src/main/java/com/example/iotlabassignmentapp/MainActivity.java:57 | A line without a comma is one token, the line itself. Otherwise the tokens are a prefix of the comma-separated pieces that does not end in an empty token, and every dropped piece is empty. |
| JavaText.JoinPieces | app/src/main/java/com/example/iotlabassignmentapp/MainActivity.java:57 | Gluing the pieces of a line back together with commas gives the line. |
| JavaText.PiecesJoin | app/src/main/java/com/example/iotlabassignmentapp/MainActivity.java:57 | Cutting a comma-joined list of comma-free fields gives the fields back. |
| JavaText.LastPieceEmpty | app/src/main/java/com/example/iotlabassignmentapp/MainActivity.java:57 | The last piece is empty exactly when the line is empty or ends with a comma. |
| JavaText.SplitKeepsEveryPiece | app/src/main/java/com/example/iotlabassignmentapp/MainActivity.java:57 | A line that does not end with a comma, the empty line included, loses no token, and its tokens glue back to the line. |
| JavaText.SplitJoin | app/src/main/java/com/example/iotlabassignmentapp/MainActivity.java:57 | Splitting comma-free fields joined with commas gives the fields back, less the trailing empty ones. |
| JavaText.SplitDropsTrailingEmpty | app/src/main/java/com/example/iotlabassignmentapp/MainActivity.java:57 | `"a,b,,,"` splits to `a`, `b`. |
| JavaText.SplitEmptyLine | app/src/main/java/com/example/iotlabassignmentapp/MainActivity.java:57 | The empty line splits to one empty token. |
| JavaText.SplitOnlySeparators | app/src/main/java/com/example/iotlabassignmentapp/MainActivity.java:57 | `",,"` splits to no token at all. |
| JavaText.SplitKeepsLeadingEmpty | app/src/main/java/com/example/iotlabassignmentapp/MainActivity.java:57 | `",a"` splits to an empty token and `a`. |
| JavaText.DropTrailingEmptySpec | app/src/main/java/com/example/iotlabassignmentapp/MainActivity.java:57 | The result is a prefix of the pieces that does not end in an empty string, and every dropped piece is empty. |
| JavaDouble.LeadingDigits | app/src/main/java/com/example/iotlabassignmentapp/MainActivity.java:107-109 | The result is the length of the digit run the text starts with, and the next character is not a digit. |
| JavaDouble.Trim | app/src/main/java/com/example/iotlabassignmentapp/MainActivity.java:107-109 | The result neither starts nor ends with a character up to U+0020, and text that already does neither is unchanged. |
| JavaDouble.TrimSpec | app/src/main/java/com/example/iotlabassignmentapp/MainActivity.java:107-109 | The result is a contiguous part of the text. Everything cut off before and after it is a character up to U+0020. |
| JavaDouble.ParseDoubleKinds | app/src/main/java/com/example/iotlabassignmentapp/MainActivity.java:107-109 | Blank text throws. The result is NaN exactly when the trimmed text is `NaN` after at most one sign. It is an infinity exactly when that word is `Infinity`, and the infinity is negative exactly when the sign is a minus. |
| JavaDouble.DigitsValueOfNatText | app/src/main/java/com/example/iotlabassignmentapp/MainActivity.java:107-109 | Reading the decimal digits of a natural number gives back that number. |
| JavaDouble.ParseWholeNumber | app/src/main/java/com/example/iotlabassignmentapp/MainActivity.java:107-109 | The decimal text of a whole number parses to that number, with or without a minus sign. |
| JavaDouble.ParseFraction | app/src/main/java/com/example/iotlabassignmentapp/MainActivity.java:107-109 | Unsigned digits with a decimal point give the decimal value of all its digits divided by ten to the number of fraction digits. |
| JavaDouble.ParseDecimal | app/src/main/java/com/example/iotlabassignmentapp/MainActivity.java:107-109 | `Double.parseDouble` of such text is that exact value. |
| JavaDouble.ParseSigned | app/src/main/java/com/example/iotlabassignmentapp/MainActivity.java:107-109 | A leading minus negates the value of any unsigned number text. |
| JavaDouble.ParseNaN | app/src/main/java/com/example/iotlabassignmentapp/MainActivity.java:107 | `NaN` parses to NaN rather than throwing. |
| JavaDouble.ParseNegativeInfinity | app/src/main/java/com/example/iotlabassignmentapp/MainActivity.java:107-109 | `-Infinity` parses to negative infinity. |
| JavaDouble.ParseMalformed | app/src/main/java/com/example/iotlabassignmentapp/MainActivity.java:106-122 | The empty text and `abc` throw `NumberFormatException`. |
| SensorCsv.SensorData | app/src/main/java/com/example/iotlabassignmentapp/MainActivity.java:44-62 | A file without a header line yields no rows. There are never more rows than lines, and every row has at least 14 tokens. |
| SensorCsv.FirstHeaderSpec | app/src/main/java/com/example/iotlabassignmentapp/MainActivity.java:49-55 | There is no header exactly when no line starts with `TIMESTAMP,DN,D_Water`. Otherwise the result is the index of a line that does, and no earlier line does. |
| SensorCsv.FirstStartingSpec | app/src/main/java/com/example/iotlabassignmentapp/MainActivity.java:52-55 | The same for any prefix, by induction over the lines. |
| SensorCsv.NoHeaderNoRows | app/src/main/java/com/example/iotlabassignmentapp/MainActivity.java:49-55 | A file without a header line yields no rows. |
| SensorCsv.FirstHeaderUnique | app/src/main/java/com/example/iotlabassignmentapp/MainActivity.java:52-56 | The first header line opens the data section: the rows are those of the lines after it. |
| SensorCsv.KeepRows | app/src/main/java/com/example/iotlabassignmentapp/MainActivity.java:56-60 | There are no more rows than lines, and every row has at least 14 tokens. |
| SensorCsv.DataIndicesSpec | app/src/main/java/com/example/iotlabassignmentapp/MainActivity.java:56-60 | Each kept row comes from a line with at least 14 tokens and is that line's split. The source lines increase. Every such line gives a row. |
| SensorCsv.SensorDataRows | app/src/main/java/com/example/iotlabassignmentapp/MainActivity.java:44-62 | Without a header there are no rows. Otherwise the rows are the splits of exactly the lines after the first header that have at least 14 tokens, each once, in file order; no line at or before the header gives a row, and every row has at least 14 tokens. |
| SensorCsv.RowsInFileOrder | app/src/main/java/com/example/iotlabassignmentapp/MainActivity.java:51-61 | The source lines of the rows strictly increase, so each line gives at most one row and the order of the file is kept. |
| SensorCsv.EveryDataLineKept | app/src/main/java/com/example/iotlabassignmentapp/MainActivity.java:56-60 | Every line after the first header with at least 14 tokens gives a row. |
| SensorCsv.KeepRowsAppend | app/src/main/java/com/example/iotlabassignmentapp/MainActivity.java:56-60 | The rows of two consecutive blocks of the data section are the rows of the first followed by the rows of the second. |
| SensorCsv.PreambleIgnored | app/src/main/java/com/example/iotlabassignmentapp/MainActivity.java:52-55 | Lines before the first header do not change the result. |
| SensorCsv.ColumnPositions | app/src/main/java/com/example/iotlabassignmentapp/MainActivity.java:88-92 | The header line splits into its 14 column names. Indices 0, 3, 4, 6, 8 and 11 are TIMESTAMP, TW, EC, pH, TURBF and O2. |
| SensorCsv.HeaderLineIsHeader | app/src/main/java/com/example/iotlabassignmentapp/MainActivity.java:53 | The file's header line starts with the prefix the reader looks for. |
| SensorCsv.SecondHeaderKept | app/src/main/java/com/example/iotlabassignmentapp/MainActivity.java:52-60 | After the first header line, any later line with at least 14 tokens is kept as a row, in its place between the rows before and after it. This includes a line starting with the header prefix, because the reader never leaves the data section. |
| SensorCsv.RepeatedHeaderIsRow | app/src/main/java/com/example/iotlabassignmentapp/MainActivity.java:52-60 | When the header line appears a second time, the rows are those of the lines between the two header lines, then the column names as a row, then the rows of the lines after. The reader never leaves the data section. |
| WaterAlerts.Below | app/src/main/java/com/example/iotlabassignmentapp/MainActivity.java:111-117 | Java's `<` against a threshold: false for NaN, the order of the reals for a finite value, true for negative infinity and false for positive infinity, and never true together with `>`. |
| WaterAlerts.Above | app/src/main/java/com/example/iotlabassignmentapp/MainActivity.java:111-114 | Java's `>` against a threshold: false for NaN, the order of the reals for a finite value, and true exactly for positive infinity among the infinities. |
| WaterAlerts.AlertsFor | app/src/main/java/com/example/iotlabassignmentapp/MainActivity.java:105-123 | When one field fails to parse, there are no alerts. Otherwise each alert is present exactly when its own comparison holds, with NaN failing every comparison. |
| WaterAlerts.CheckThresholdAndAlert | app/src/main/java/com/example/iotlabassignmentapp/MainActivity.java:105-123 | If any of the three texts throws when parsed, no alert is raised. Otherwise the pH alert is raised iff pH < 6.5 or pH > 8.5, the turbidity alert iff turbidity > 5, and the oxygen alert iff oxygen < 5, with comparisons as Java makes them on the parsed values. |
| WaterAlerts.AlertsForReadings | app/src/main/java/com/example/iotlabassignmentapp/MainActivity.java:111-119 | For finite readings, the pH alert fires iff pH < 6.5 or pH > 8.5. The turbidity alert fires iff turbidity > 5. The oxygen alert fires iff oxygen < 5. Each rule is independent of the other two. |
| WaterAlerts.ParseFailureSilencesAll | app/src/main/java/com/example/iotlabassignmentapp/MainActivity.java:106-122 | Any field that fails to parse silences all three rules. |
| WaterAlerts.NaNPhSilencesOnlyPh | app/src/main/java/com/example/iotlabassignmentapp/MainActivity.java:106-119 | A pH field reading as NaN never raises the pH alert, and the other two rules are still checked. |
| WaterAlerts.NaNTextInPhColumn | app/src/main/java/com/example/iotlabassignmentapp/MainActivity.java:106-122 | The text `NaN` in the pH column never raises the pH alert, and turbidity and oxygen are still checked. |
| WaterAlerts.NaNSilencesOnlyItsRule | app/src/main/java/com/example/iotlabassignmentapp/MainActivity.java:111-119 | Any field reading as NaN removes exactly its own alert and leaves the others as they were. |
| WaterAlerts.AlertScenarios | app/src/main/java/com/example/iotlabassignmentapp/MainActivity.java:111-119 | (7.0, 2, 6.0) raises nothing. (9.0, 2, 6.0) raises only the pH alert. (7.0, 6, 3) raises the turbidity and oxygen alerts. |
| WaterAlerts.Toasts | app/src/main/java/com/example/iotlabassignmentapp/MainActivity.java:111-119 | One warning text per raised alert and no other text, none twice, in check order: the pH warning first, then turbidity, with the oxygen warning last. |
| SensorActivity.ShowSensorReading | app/src/main/java/com/example/iotlabassignmentapp/MainActivity.java:87-92 | On any row of at least 12 tokens, timestamp, temperature, conductivity, pH, turbidity and oxygen are tokens 0, 3, 4, 6, 8 and 11, the positions of TIMESTAMP, TW, EC, pH, TURBF and O2 given by `SensorCsv.ColumnPositions`. |
| SensorActivity.ScreenOf | app/src/main/java/com/example/iotlabassignmentapp/MainActivity.java:95-99 | pH is shown as read. Conductivity, temperature and oxygen are shown as read followed by the units μS/cm, ℃ and mg/L. |
| SensorActivity.AlertsOf | app/src/main/java/com/example/iotlabassignmentapp/MainActivity.java:101-123 | A reading with a field that throws on parsing raises nothing. Otherwise the pH alert is raised iff its parsed value is below 6.5 or above 8.5, the turbidity alert iff above 5, and the oxygen alert iff below 5, with comparisons as Java makes them. |
| SensorActivity.ParsedRowsShowable | app/src/main/java/com/example/iotlabassignmentapp/MainActivity.java:87-101 | Every row the reader keeps has the columns up to 11 that the display reads. Its alerts are those of its columns 6, 8 and 11. |
| SensorActivity.MainActivity.constructor | app/src/main/java/com/example/iotlabassignmentapp/MainActivity.java:25-26 | A new activity has no rows, its cursor at 0 and no task posted. |
| SensorActivity.MainActivity.ReadCsvData | app/src/main/java/com/example/iotlabassignmentapp/MainActivity.java:44-70 | The rows of the file are appended to `sensorDataLines`, the cursor is unchanged, and the replay is posted. |
| SensorActivity.MainActivity.StartFakeSensor | app/src/main/java/com/example/iotlabassignmentapp/MainActivity.java:72-85 | The replay task is posted. |
| SensorActivity.MainActivity.Tick | app/src/main/java/com/example/iotlabassignmentapp/MainActivity.java:75-82 | With a row left, the task shows the row under the cursor, advances the cursor by one and re-posts itself. Otherwise it shows nothing, keeps the cursor and is not posted again. The rows never change. |
| SensorActivity.DispatchUntilIdle | app/src/main/java/com/example/iotlabassignmentapp/MainActivity.java:72-85 | Starting from cursor c over n rows, there are n - c + 1 runs. They show rows c to n - 1 in order and end with the cursor at n and no task posted. |
| SensorActivity.OnCreate | app/src/main/java/com/example/iotlabassignmentapp/MainActivity.java:30-42 | A created activity holds exactly the rows of the file, with the cursor at 0 and the replay posted. |
| SensorActivity.ReplayFile | app/src/main/java/com/example/iotlabassignmentapp/MainActivity.java:41-85 | Over the activity's life, every row of the file is shown once, in file order, followed by one final run that shows nothing. |
| SensorActivity.NoHeaderReplay | app/src/main/java/com/example/iotlabassignmentapp/MainActivity.java:49-84 | For a file without a header line, the first run shows nothing and the replay stops. |
| SensorActivity.ExampleRowTokens | app/src/main/java/com/example/iotlabassignmentapp/MainActivity.java:57-59 | The example row `2024-01-01T00:00,1,2,25.0,500,450,7.0,10,2,1,90,6.0,5,3` splits into its 14 fields. |
| SensorActivity.ParseOnePlace | app/src/main/java/com/example/iotlabassignmentapp/MainActivity.java:107-109 | Text of one digit, a point and a zero parses to that digit's value. |
| SensorActivity.ExampleValues | app/src/main/java/com/example/iotlabassignmentapp/MainActivity.java:107-109 | `7.0`, `2` and `6.0` parse to 7.0, 2 and 6.0. |
| SensorActivity.ExampleRaisesNothing | app/src/main/java/com/example/iotlabassignmentapp/MainActivity.java:105-123 | `7.0`, `2` and `6.0` raise no alert. |
| SensorActivity.SafeRowFileRaisesNothing | app/src/main/java/com/example/iotlabassignmentapp/MainActivity.java:44-123 | The header line followed by any 14-field row with pH `7.0`, turbidity `2` and oxygen `6.0` yields exactly that row, and showing it raises no alert. |
| SensorActivity.ExampleFileRaisesNothing | app/src/main/java/com/example/iotlabassignmentapp/MainActivity.java:44-123 | The header line followed by the example row yields exactly that row, and showing it raises no alert. |
| SensorActivity.ShortRowDropped | app/src/main/java/com/example/iotlabassignmentapp/MainActivity.java:57-59 | A line of 10 comma-separated fields after the header is dropped: the file yields no row. |

## Left out

- Android UI: this covers edge-to-edge layout, window insets, `setContentView` and the `TextView.setText` calls. The model returns the texts as values (`SensorActivity.ScreenOf`) instead of setting views.
- Resource I/O: `openRawResource` and `BufferedReader` are replaced by the file's lines as input, and `close` is not modelled. An `IOException` in the middle of reading stops the loop, and the replay still starts with the rows gathered so far. The model's input is then the lines delivered before the exception. A missing resource throws an unchecked exception that `readCSVData` does not catch; this is not modelled.
- Handler scheduling: the main looper, `post`, `postDelayed` with its 1500 ms delay and `runOnUiThread` are not modelled as such. Each run of the posted task is a call of `Tick`, and the looper is `DispatchUntilIdle`. Time does not appear in the model.
- `running` is a model field, not a field of the source's class. It stands for "the replay task is posted".
- Toast rendering: `Toast.makeText(...).show()` is modelled as the set of raised alerts, plus the list of warning texts in check order (`WaterAlerts.Toasts`).
- JavaDouble.ParseDouble: the decimal value is kept exact, with no rounding to the nearest `double`. There is no overflow to infinity and no underflow to zero. Hexadecimal floating-point literals are treated as parse failures, whereas Java accepts them. The threshold rules therefore apply to the exact decimal value. The function has no contract of its own. What it yields is stated by the lemmas `JavaDouble.ParseDoubleKinds`, `JavaDouble.ParseSigned`, `JavaDouble.ParseDecimal`, `JavaDouble.ParseWholeNumber` and `JavaDouble.ParseMalformed`.
- JavaText.Split: its own contract states only the empty-line case. What the tokens are is stated by the lemma `JavaText.SplitSpec`, so that the quantified facts are not carried into every use of `Split`.
- JavaDouble.ParseDecimal: proved for unsigned text only. For signed text, combine it with `JavaDouble.ParseSigned`.
- The timestamp (column 0) is read by `showSensorReading` but never shown. The model keeps it in `Reading` and leaves it out of `ScreenOf`.
- The source has no `stop()` operation and no alert payload beyond the toast text, so the model has neither.
- The 32-bit width of `currentLineIdx` is not modelled. The cursor never exceeds the number of rows, which is far below the limit.
