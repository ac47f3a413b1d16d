# Proxool monitor servlet: dispatch, report rows and bar chart

This project models the decision logic and the integer and text arithmetic of
Proxool's `MonitorServlet`, then proves what that code promises. The servlet
serves three kinds of page:

- **the chart**: a 300 x 5 PNG proportion bar drawn by `drawBarChart` from the
  `c` (colours), `l` (lengths) and `d` (gridline count) request parameters;
- **the pool list** (`doList`): one row per pool alias, the selected one
  highlighted;
- **the statistics page** of one pool (`doStats`): a Definition table
  (`doDefinition`), a Snapshot table (`doSnapshot`) that embeds a chart link,
  and per-period statistics.

`doGet` picks one of these from the `action` and `alias` parameters.

The model works at the level of decisions, table rows and pixels, not HTML
and not PNG bytes. The modules are:

- `Wrappers`: `Option`. `None` stands for a Java `null` or for a library
  call that throws.
- `Decimal`: Java's `String.valueOf` on integers, `Integer.parseInt`, and
  Java's truncating integer division.
- `BarChart`: `drawBarChart` as an imperative method on an
  `array2<Colour>` canvas. It uses its own clipping `FillRect` and
  `DrawVerticalLine` and is proved against a pixel-level specification,
  `ChartPixel`.
- `ChartQuery`: the chart link `doSnapshot` builds and the parameters it
  carries. It also covers how the servlet container splits the query text
  back into parameters (`ParseQuery`) and how `drawBarChart` reads them
  (`getParameterValues`, `parseInt`).
- `Report`: the rows of the Definition and Snapshot tables,
  `printDefintionEntry`'s rule for null values, the fatal-SQL-exceptions join
  loop, and the `doList` loop.
- `Dispatch`: the step-by-step reassignment of `action` and `alias` in `doGet`.

Facade calls are inputs:

- `ProxoolFacade.getAliases()` is a sequence of aliases.
- `getConnectionPoolDefinition` is a lookup `string -> Option<PoolDefinition>`, or a `known` predicate where only success matters.
- A definition or a snapshot is a record.

The date and time formatters are parameters of type `int -> string`.

The captions `"Maximum active timeFormat"` and `"House keeping sleep timeFormat"`
are kept exactly as the servlet prints them (`Report.CaptionText`).

## Model

All source paths are in `src/java/org/logicalcobwebs/proxool/monitor/`.

| member | source | states |
|---|---|---|
| BarChart.FillRect | src/java/org/logicalcobwebs/proxool/monitor/MonitorServlet.java:154 | `fillRect(left, top, w, h)` paints exactly the on-canvas pixels of the rectangle. Every other pixel keeps its colour. A negative width or height paints nothing. |
| BarChart.DrawVerticalLine | src/java/org/logicalcobwebs/proxool/monitor/MonitorServlet.java:162 | `drawLine(x, 0, x, height-1)` paints exactly the on-canvas pixels of column x between the two end points, both included. Nothing else changes. |
| BarChart.DrawBarChart | src/java/org/logicalcobwebs/proxool/monitor/MonitorServlet.java:140-167 | The result is a fresh 300 x 5 canvas whose every pixel equals `ChartPixel`. That is the background colour, then foreground segments 1..n-1 at their running offsets with height 4, then the gridline colour on every gridline column. |
| BarChart.SegmentWidthBounds | src/java/org/logicalcobwebs/proxool/monitor/MonitorServlet.java:152 | `pixels = width * length / fullLength` is non-negative and is the truncated quotient: it is within one unit of `fullLength` below the exact product. |
| BarChart.SegmentsAbut | src/java/org/logicalcobwebs/proxool/monitor/MonitorServlet.java:150-156 | Segment i+1 starts exactly where segment i ends (`left += pixels`). Every later segment starts at or after that end, so segments neither overlap nor leave gaps. |
| BarChart.OffsetMonotone | src/java/org/logicalcobwebs/proxool/monitor/MonitorServlet.java:148-155 | The running offset `left` starts at 0 and never decreases. |
| BarChart.OffsetRounding | src/java/org/logicalcobwebs/proxool/monitor/MonitorServlet.java:147-155 | The offset after k-1 segments, scaled by `fullLength`, falls short of 300 times the sum of their lengths by at least 0. It falls short by at most `(k-1)(fullLength-1)`: each truncation loses less than a pixel. |
| BarChart.FinalOffsetFits | src/java/org/logicalcobwebs/proxool/monitor/MonitorServlet.java:147-155 | Take a positive `l[0]`, non-negative lengths, and foreground lengths adding up to at most `l[0]`. Then the last segment ends within the 300-pixel canvas. |
| BarChart.SegmentVisibleAfter | src/java/org/logicalcobwebs/proxool/monitor/MonitorServlet.java:150-156 | Once segment i has been drawn, its pixels keep its colour while the later segments are drawn. |
| BarChart.UncoveredIsBackground | src/java/org/logicalcobwebs/proxool/monitor/MonitorServlet.java:144-156 | A pixel that no segment covers keeps the first colour. These are pixels left of 0, right of the running offset, or in the bottom row. |
| BarChart.SegmentPixel | src/java/org/logicalcobwebs/proxool/monitor/MonitorServlet.java:150-163 | In the finished chart, a pixel of segment i shows `colors[i]` unless a gridline runs through its column. |
| BarChart.BottomRow | src/java/org/logicalcobwebs/proxool/monitor/MonitorServlet.java:144-162 | Every bottom-row pixel is the background colour or the gridline colour `#666666`. |
| BarChart.GridLinesShape | src/java/org/logicalcobwebs/proxool/monitor/MonitorServlet.java:159-163 | There are exactly `d` gridlines for positive `d` and none otherwise. Line i is at `i * 300 / d`, the first at 0, all within [0, 300), in non-decreasing order. |
| Decimal.ValueOf | src/java/org/logicalcobwebs/proxool/monitor/MonitorServlet.java:232 | `String.valueOf(n)` starts with `-` exactly when n is negative. After that sign comes a non-empty run of decimal digits. |
| Decimal.ParseInt | src/java/org/logicalcobwebs/proxool/monitor/MonitorServlet.java:147 | A successful `Integer.parseInt` yields a value in `int` range, and its text was an optional minus sign and decimal digits. Anything else is `None`, the `NumberFormatException`. |
| Decimal.DigitsRoundTrip | src/java/org/logicalcobwebs/proxool/monitor/MonitorServlet.java:297 | The value of the decimal digits of a natural number is that number. |
| Decimal.ParseValueOf | src/java/org/logicalcobwebs/proxool/monitor/MonitorServlet.java:296-303 | `Integer.parseInt(String.valueOf(n)) == n` for every `int` n. So each count the servlet appends to the link is read back unchanged. |
| Decimal.JavaDivTruncates | src/java/org/logicalcobwebs/proxool/monitor/MonitorServlet.java:239 | Java's `a / b` truncates toward zero. The quotient times b lies within one b below a for non-negative a, and within one b above a for negative a. |
| Report.RenderRow | src/java/org/logicalcobwebs/proxool/monitor/MonitorServlet.java:336-349 | The caption is printed as given. A null value prints `off` in the no-data style, exactly when the value is null. Any other value is printed verbatim in the data style. |
| Report.ReadRenderRow | src/java/org/logicalcobwebs/proxool/monitor/MonitorServlet.java:341-346 | The style and text of a rendered row give back the row. A null value and the literal text `off` are told apart by the style. |
| Report.JoinSnoc | src/java/org/logicalcobwebs/proxool/monitor/MonitorServlet.java:249-253 | Appending an element to the joined text adds one `", "` and then the element. So a separator is written only between two elements, never after the last one; an empty last element still leaves the text ending in `", "`. |
| Report.JoinLength | src/java/org/logicalcobwebs/proxool/monitor/MonitorServlet.java:252 | n elements are joined with exactly n-1 separators. The length is the elements' total length plus 2(n-1). |
| Report.JoinFatalSqlExceptions | src/java/org/logicalcobwebs/proxool/monitor/MonitorServlet.java:245-256 | The buffer loop returns null for a null or empty set. Otherwise it returns the elements in iteration order joined with `", "`, one element giving that element alone. |
| Report.DefinitionRows | src/java/org/logicalcobwebs/proxool/monitor/MonitorServlet.java:222-259 | The Definition rows carry exactly the servlet's ten captions, in its order. |
| Report.DefinitionRowValues | src/java/org/logicalcobwebs/proxool/monitor/MonitorServlet.java:222-259 | URL, driver, test SQL and statistics are passed through, null included. Connections is `ConnectionCountsValue`, the two durations are the formatted times, and housekeeping is `HouseKeepingValue`, none of them null. Prototyping is `PrototypingValue`, null exactly when the count is not positive. Fatal SQL exceptions is `FatalSqlExceptionsValue`, null exactly when the set is null or empty. |
| Report.PrototypingOff | src/java/org/logicalcobwebs/proxool/monitor/MonitorServlet.java:232 | The Prototyping row shows `off` exactly when the prototype count is at most 0. Otherwise it shows the count's digits in the data style. |
| Report.HouseKeepingSeconds | src/java/org/logicalcobwebs/proxool/monitor/MonitorServlet.java:239 | The housekeeping value ends in `s`. What precedes it parses to the sleep time divided by 1000, truncated toward zero. |
| Report.ConnectionCountsReadBack | src/java/org/logicalcobwebs/proxool/monitor/MonitorServlet.java:229 | The Connections value is the minimum count's digits, ` (min), `, the maximum count's digits, and ` (max)`. Each count parses back to itself, the maximum whenever it is an `int`. |
| Report.SnapshotRows | src/java/org/logicalcobwebs/proxool/monitor/MonitorServlet.java:273-311 | The Snapshot rows carry exactly the captions start date, connections, served and refused, in that order. |
| Report.SnapshotRowValues | src/java/org/logicalcobwebs/proxool/monitor/MonitorServlet.java:273-311 | None of the four Snapshot values is ever null, so none prints `off`. The start date is the formatted start date, Connections is `SnapshotConnectionsValue`, and Served and Refused are the decimal texts of the two counts. |
| Report.SnapshotConnectionsChart | src/java/org/logicalcobwebs/proxool/monitor/MonitorServlet.java:277-304 | The Connections value of the Snapshot table is the counts text, `<img ... src="`, the page link, `?`, a query text, and the closing quote and attributes. Split into parameters and read by `drawBarChart`, that query text gives colours spare/active/available, lengths [definition maximum, active, available] and the definition maximum as gridline count. |
| Report.ListRows | src/java/org/logicalcobwebs/proxool/monitor/MonitorServlet.java:351-374 | There is one row per alias, in alias order, with link `link?alias=<alias>` and the pool's URL. A row is highlighted exactly when its alias equals the selected one, so a null selection highlights none. A failing lookup ends the list after the rows already written. |
| ChartQuery.QueryStringSnoc | src/java/org/logicalcobwebs/proxool/monitor/MonitorServlet.java:298-303 | Appending a parameter to a query string appends `&name=value`. |
| ChartQuery.SnapshotColourQuery | src/java/org/logicalcobwebs/proxool/monitor/MonitorServlet.java:296 | The fixed text after the page link is `?`, then the query string of `action=chart` and the three colours, then `&l=`. |
| ChartQuery.ChartLinkEncodesParams | src/java/org/logicalcobwebs/proxool/monitor/MonitorServlet.java:294-303 | The link `doSnapshot` appends piece by piece is the page link, `?`, and the query string of action, colours `eeeeee`, `ff0000`, `00ff00`, lengths maximum, active, available, and division count maximum. |
| ChartQuery.ParameterValuesAppend | src/java/org/logicalcobwebs/proxool/monitor/MonitorServlet.java:95-97 | `getParameterValues` of two runs of parameters is the values of the first run followed by those of the second. |
| ChartQuery.SnapshotParameterValues | src/java/org/logicalcobwebs/proxool/monitor/MonitorServlet.java:95-97 | The Snapshot link carries the three colours as `c`, the three counts in order as `l`, and the maximum as the first `d`. |
| ChartQuery.ParseAllValueOf | src/java/org/logicalcobwebs/proxool/monitor/MonitorServlet.java:147-151 | Parsing the decimal texts of a sequence of `int`s gives back that sequence. |
| ChartQuery.ParseQueryString | src/java/org/logicalcobwebs/proxool/monitor/MonitorServlet.java:296-303 | Splitting a query string at `&` and each piece at its first `=` gives back the parameters it was built from, for every list of parameters whose names and values hold no `&` or `=`. |
| ChartQuery.ValueOfPlain | src/java/org/logicalcobwebs/proxool/monitor/MonitorServlet.java:297-303 | The decimal text of any integer holds no `&` or `=`, so the counts in the link need no escaping. |
| ChartQuery.SnapshotLinkReadBack | src/java/org/logicalcobwebs/proxool/monitor/MonitorServlet.java:95-97 | The Snapshot link is the page link, `?` and a query text. The container's split of that text gives back the servlet's parameters, and `drawBarChart` reads from them colours spare/active/available, lengths [maximum, active, available], and `maximum` gridlines. |
| ChartQuery.SnapshotChartRequest | src/java/org/logicalcobwebs/proxool/monitor/MonitorServlet.java:95-97 | Reading the Snapshot link's parameters the way `doGet` and `drawBarChart` do yields the request: colours spare/active/available, lengths [maximum, active, available], and `maximum` gridlines. |
| ChartQuery.SnapshotChartFits | src/java/org/logicalcobwebs/proxool/monitor/MonitorServlet.java:296-303 | Take a consistent snapshot with a positive maximum of at most `MaxInt / 300` (7158278, so `300 * maximum` is an `int`), non-negative counts, and active plus available at most the maximum. Then the requested chart draws without failing, and its segments end within the 300-pixel canvas. |
| Dispatch.ResolveView | src/java/org/logicalcobwebs/proxool/monitor/MonitorServlet.java:87-132 | The chart is shown exactly for `action=chart`, whatever the alias. Other actions resolve as follows. No alias and not exactly one pool gives the list with nothing highlighted. No alias and one pool uses that pool. An alias that is not found gives the list. A found alias gives what the action asks for, the statistics when it is missing. Statistics are only shown for a known pool. |

## Left out

- HTML markup, styles, response headers and content types, `doPost`, and `getOutputStream`: the model works on rows and pixels, not on markup. The HTML that `ListRows` and `RenderRow` stand for is not modelled character by character.
- PNG encoding (`ImageIO.write`) and `Graphics2D` internals are foreign library code. The canvas array stands for the image.
- `Color.decode`: colours are opaque six-digit tokens, so a malformed colour does not make `BarChart.DrawBarChart` or `ChartQuery.DecodeChartRequest` fail.
- `doStatistics`, with its activity level and per-second rates, is left out because it uses `double` arithmetic and `DecimalFormat`.
- `SimpleDateFormat` output and the `DATE_OFFSET` subtraction are locale- and time-zone-dependent formatting. They appear as `int -> string` parameters (`duration`, `date`) of `Report.DefinitionRows` and `Report.SnapshotRows`. The snapshot date line of `doSnapshot` is not modelled.
- The text of the `java.awt.Color` constants in the Snapshot font tags is stated once, as `Color.toString` renders them. It is not derived from the RGB values.
- Logging (the unrecognised-action message and the caught `ProxoolException`) has no observable result beyond `Dispatch.View.NoView`.
- `doStats` is not modelled beyond being the statistics view. It prints the Definition and Snapshot tables, which are modelled as `Report.DefinitionRows` and `Report.SnapshotRows`.
- BarChart.DrawBarChart: requires `Drawable`. That means at least one colour, a length per colour, non-negative lengths, a positive `l[0]` when there are foreground segments, and no Java `int` overflow in `300 * l[i]` for a foreground length, in `i * 300` for a gridline index i < d, or in the `left` of a segment that is drawn. `l[0]` is only divided by, and the `left` computed after the last segment is never read, so neither is bounded. The servlet runs on other inputs too. Negative lengths, a lone negative `l[0]` included, are accepted by it: a negative width paints nothing and moves `left` back, so a later segment can start left of 0 and overlap earlier ones. The model does not cover these inputs, nor the exceptions and `int` wrap-around the servlet hits on the rest.
- BarChart.DrawVerticalLine: draws vertical lines only, the one shape `drawBarChart` uses. Java2D's general line rasterisation is left out.
- Query-string parsing is modelled by `ChartQuery.ParseQuery` without percent-decoding, `+` for space or character encodings; the texts the Snapshot link carries need none of them.
- Decimal.ParseInt: accepts an optional `-` and ASCII digits. Java's leading `+` and non-ASCII Unicode digits are not accepted.
- Decimal.ValueOf: numbers are unbounded integers. `int` versus `long` width matters only for the read-back lemmas, which require `int` range.
- Report.ListRows: the `highlighted` flag stands for the row's `background: white;` style. A failing lookup is reported through `complete == false`; the exception's propagation into `doGet`'s handler is not modelled.
- Report.HouseKeepingSeconds: stated for sleep times in `int` range. The division itself (`Report.HouseKeepingValue`) is modelled for any integer.
