/** The report the monitor servlet writes, at the level of table rows rather
    than HTML: the Definition table of `doDefinition`, the Snapshot table of
    `doSnapshot` with the chart link it embeds, the rule of
    `printDefintionEntry` for null values, and the pool list of `doList`. */
module Report {
  import opened Wrappers
  import opened Decimal
  import ChartQuery

  /** The captions of the Definition and Snapshot tables. */
  datatype Caption =
    | Url | Driver | Connections | Prototyping | ConnectionLifetime | MaximumActiveTime
    | HouseKeepingSleepTime | HouseKeepingTestSql | FatalSqlExceptions | Statistics
    | StartDate | Served | Refused

  /** The text the servlet prints for each caption. Two of them keep the
      `Format` that the servlet's source glues onto them. */
  function CaptionText(c: Caption): string {
    match c
    case Url => "URL"
    case Driver => "Driver"
    case Connections => "Connections"
    case Prototyping => "Prototyping"
    case ConnectionLifetime => "Connection Lifetime"
    case MaximumActiveTime => "Maximum active timeFormat"
    case HouseKeepingSleepTime => "House keeping sleep timeFormat"
    case HouseKeepingTestSql => "House keeping test SQL"
    case FatalSqlExceptions => "Fatal SQL exceptions"
    case Statistics => "Statistics"
    case StartDate => "Start date"
    case Served => "Served"
    case Refused => "Refused"
  }

  /** A table row: a caption and a value, `None` where the Java value is null. */
  datatype Row = Row(caption: Caption, value: Option<string>)

  /** The style of a value cell: `STYLE_DATA` or `STYLE_NO_DATA`. */
  datatype Style = DataStyle | NoDataStyle

  /** A rendered row: the caption cell, then the style and text of the value cell. */
  datatype Cell = Cell(caption: Caption, style: Style, text: string)

  /** The marker printed in place of a null value. */
  const Off: string := "off"

  /** printDefintionEntry: a null value shows `off` in the no-data style, any
      other value is shown verbatim in the data style. */
  function RenderRow(r: Row): (c: Cell)
    ensures c.caption == r.caption
    ensures c.style == NoDataStyle <==> r.value.None?
    ensures r.value.None? ==> c.text == Off
    ensures r.value.Some? ==> c.text == r.value.value
  {
    match r.value
    case None => Cell(r.caption, NoDataStyle, Off)
    case Some(v) => Cell(r.caption, DataStyle, v)
  }

  /** Reads a rendered row back: the style tells a null value from a value
      that happens to be the text `off`. */
  function ReadCell(c: Cell): Row {
    Row(c.caption, if c.style == NoDataStyle then None else Some(c.text))
  }

  /** Rendering a row loses nothing. */
  lemma ReadRenderRow(r: Row)
    ensures ReadCell(RenderRow(r)) == r
  {
  }

  // ---------------------------------------------------------------------------
  // Joining the fatal SQL exceptions

  const Separator: string := ", "

  /** The elements separated by `sep`, with no separator before the first or
      after the last. */
  function Join(xs: seq<string>, sep: string): string
    decreases |xs|
  {
    if |xs| == 0 then "" else if |xs| == 1 then xs[0] else xs[0] + sep + Join(xs[1..], sep)
  }

  /** Total length of the elements. */
  function TotalLength(xs: seq<string>): nat
    decreases |xs|
  {
    if xs == [] then 0 else |xs[0]| + TotalLength(xs[1..])
  }

  /** Appending an element appends one separator and then the element: a
      separator is written only between two elements, never after the last
      one (though an empty last element leaves the text ending in one). */
  lemma {:induction false} JoinSnoc(xs: seq<string>, y: string, sep: string)
    requires xs != []
    ensures Join(xs + [y], sep) == Join(xs, sep) + sep + y
    decreases |xs|
  {
    if |xs| == 1 {
      assert (xs + [y])[1..] == [y];
    } else {
      JoinSnoc(xs[1..], y, sep);
      assert (xs + [y])[1..] == xs[1..] + [y];
    }
  }

  /** n elements are joined with exactly n - 1 separators. */
  lemma {:induction false} JoinLength(xs: seq<string>, sep: string)
    requires xs != []
    ensures |Join(xs, sep)| == TotalLength(xs) + (|xs| - 1) * |sep|
    decreases |xs|
  {
    if |xs| > 1 {
      JoinLength(xs[1..], sep);
    }
  }

  /** The value of the "Fatal SQL exceptions" row: null for a null or empty
      set, otherwise the class names in iteration order joined with ", ". */
  function FatalSqlExceptionsValue(exceptions: Option<seq<string>>): Option<string> {
    if exceptions.None? || exceptions.value == [] then None
    else Some(Join(exceptions.value, Separator))
  }

  /** The loop of `doDefinition` that builds that value in a `StringBuffer`,
      appending each name and then a separator while the iterator has more. */
  method JoinFatalSqlExceptions(exceptions: Option<seq<string>>) returns (r: Option<string>)
    ensures r == FatalSqlExceptionsValue(exceptions)
  {
    r := None;
    if exceptions.Some? && |exceptions.value| > 0 {
      var xs := exceptions.value;
      var buffer := "";
      var i := 0;
      while i < |xs|
        invariant 0 <= i <= |xs|
        invariant i == 0 ==> buffer == ""
        invariant 0 < i < |xs| ==> buffer == Join(xs[..i], Separator) + Separator
        invariant i == |xs| ==> buffer == Join(xs[..i], Separator)
      {
        var s := xs[i];
        if i > 0 {
          JoinSnoc(xs[..i], s, Separator);
        }
        assert xs[..i + 1] == xs[..i] + [s];
        i := i + 1;
        buffer := buffer + s;
        buffer := buffer + (if i < |xs| then Separator else "");
      }
      assert xs[..i] == xs;
      r := Some(buffer);
    }
  }

  // ---------------------------------------------------------------------------
  // The Definition table

  /** What `ConnectionPoolDefinitionIF` reports about a pool; a `None` is a
      null reference. Durations are in milliseconds. */
  datatype PoolDefinition = PoolDefinition(
    url: Option<string>,
    driver: Option<string>,
    minimumConnectionCount: int,
    maximumConnectionCount: int,
    prototypeCount: int,
    maximumConnectionLifetime: int,
    maximumActiveTime: int,
    houseKeepingSleepTime: int,
    houseKeepingTestSql: Option<string>,
    fatalSqlExceptions: Option<seq<string>>,
    statistics: Option<string>)

  /** The rows of the Definition table, in the order the servlet prints them. */
  const DefinitionCaptions: seq<Caption> := [
    Url, Driver, Connections, Prototyping, ConnectionLifetime,
    MaximumActiveTime, HouseKeepingSleepTime, HouseKeepingTestSql, FatalSqlExceptions, Statistics]

  /** The "Connections" value: minimum and maximum connection counts. */
  function ConnectionCountsValue(def: PoolDefinition): string {
    ValueOf(def.minimumConnectionCount) + " (min), " + ValueOf(def.maximumConnectionCount) + " (max)"
  }

  /** The "Prototyping" value: the prototype count when it is positive, else null. */
  function PrototypingValue(count: int): Option<string> {
    if count > 0 then Some(ValueOf(count)) else None
  }

  /** The "House keeping sleep timeFormat" value: whole seconds, then `s`. */
  function HouseKeepingValue(sleepTime: int): string {
    ValueOf(JavaDiv(sleepTime, 1000)) + "s"
  }

  /** The captions of a table's rows, in order. */
  function Captions(rows: seq<Row>): (captions: seq<Caption>)
    ensures |captions| == |rows|
    ensures forall i :: 0 <= i < |rows| ==> captions[i] == rows[i].caption
  {
    seq(|rows|, i requires 0 <= i < |rows| => rows[i].caption)
  }

  /** The rows of `doDefinition`, in order. `duration` stands for the
      time-of-day formatter the servlet applies to the two durations. */
  function DefinitionRows(def: PoolDefinition, duration: int -> string): (rows: seq<Row>)
    ensures Captions(rows) == DefinitionCaptions
  {
    [ Row(Url, def.url),
      Row(Driver, def.driver),
      Row(Connections, Some(ConnectionCountsValue(def))),
      Row(Prototyping, PrototypingValue(def.prototypeCount)),
      Row(ConnectionLifetime, Some(duration(def.maximumConnectionLifetime))),
      Row(MaximumActiveTime, Some(duration(def.maximumActiveTime))),
      Row(HouseKeepingSleepTime, Some(HouseKeepingValue(def.houseKeepingSleepTime))),
      Row(HouseKeepingTestSql, def.houseKeepingTestSql),
      Row(FatalSqlExceptions, FatalSqlExceptionsValue(def.fatalSqlExceptions)),
      Row(Statistics, def.statistics) ]
  }

  /** Which Definition rows pass a value through, which are never null, and
      when the two optional ones are null. */
  lemma DefinitionRowValues(def: PoolDefinition, duration: int -> string)
    ensures var rows := DefinitionRows(def, duration);
      |rows| == 10 &&
      rows[0].value == def.url && rows[1].value == def.driver &&
      rows[2].value == Some(ConnectionCountsValue(def)) &&
      rows[4].value == Some(duration(def.maximumConnectionLifetime)) &&
      rows[5].value == Some(duration(def.maximumActiveTime)) &&
      rows[6].value == Some(HouseKeepingValue(def.houseKeepingSleepTime)) &&
      rows[3].value == PrototypingValue(def.prototypeCount) &&
      (rows[3].value.None? <==> def.prototypeCount <= 0) &&
      rows[7].value == def.houseKeepingTestSql &&
      rows[8].value == FatalSqlExceptionsValue(def.fatalSqlExceptions) &&
      (rows[8].value.None? <==> def.fatalSqlExceptions.None? || def.fatalSqlExceptions.value == []) &&
      rows[9].value == def.statistics
  {
    var rows := DefinitionRows(def, duration);
    assert rows[3].value == PrototypingValue(def.prototypeCount);
    assert rows[8].value == FatalSqlExceptionsValue(def.fatalSqlExceptions);
  }

  /** The Prototyping row reads `off` exactly when the prototype count is not
      positive; a positive count is printed as its digits, never as `off`. */
  lemma PrototypingOff(def: PoolDefinition, duration: int -> string)
    ensures RenderRow(DefinitionRows(def, duration)[3]).text == Off <==> def.prototypeCount <= 0
    ensures def.prototypeCount > 0 ==>
      RenderRow(DefinitionRows(def, duration)[3]) == Cell(Prototyping, DataStyle, ValueOf(def.prototypeCount))
  {
    if def.prototypeCount > 0 {
      var s := ValueOf(def.prototypeCount);
      assert IsDigit(s[|s| - 1]);
    }
  }

  /** The housekeeping row is the sleep time in whole seconds, truncated
      toward zero, followed by `s`; the number reads back with `parseInt`. */
  lemma HouseKeepingSeconds(sleepTime: int)
    requires IsJavaInt(sleepTime)
    ensures var t := HouseKeepingValue(sleepTime);
      t[|t| - 1] == 's' &&
      ParseInt(t[..|t| - 1]) == Some(JavaDiv(sleepTime, 1000))
  {
    JavaDivTruncates(sleepTime, 1000);
    var q := JavaDiv(sleepTime, 1000);
    var t := HouseKeepingValue(sleepTime);
    assert t[..|t| - 1] == ValueOf(q);
    ParseValueOf(q);
  }

  /** The Connections row of the Definition table reads back: the minimum's
      digits, ` (min), `, the maximum's digits, ` (max)`. */
  lemma ConnectionCountsReadBack(def: PoolDefinition)
    requires IsJavaInt(def.minimumConnectionCount)
    ensures var t := ConnectionCountsValue(def); var k := |ValueOf(def.minimumConnectionCount)|;
      k + 8 <= |t| - 6 &&
      ParseInt(t[..k]) == Some(def.minimumConnectionCount) &&
      t[k..k + 8] == " (min), " &&
      t[|t| - 6..] == " (max)" &&
      (IsJavaInt(def.maximumConnectionCount) ==> ParseInt(t[k + 8..|t| - 6]) == Some(def.maximumConnectionCount))
  {
    var lo, hi := ValueOf(def.minimumConnectionCount), ValueOf(def.maximumConnectionCount);
    FourParts(lo, " (min), ", hi, " (max)");
    ParseValueOf(def.minimumConnectionCount);
    if IsJavaInt(def.maximumConnectionCount) {
      ParseValueOf(def.maximumConnectionCount);
    }
  }

  /** Each of four concatenated texts is found back at its place. */
  lemma FourParts(a: string, b: string, c: string, d: string)
    ensures var t := a + b + c + d;
      t[..|a|] == a && t[|a|..|a| + |b|] == b &&
      t[|a| + |b|..|t| - |d|] == c && t[|t| - |d|..] == d
  {
    var t := a + b + c + d;
    assert t[..|a|] == a;
    assert t[|a|..|a| + |b|] == b;
    assert t[|a| + |b|..|t| - |d|] == c;
    assert t[|t| - |d|..] == d;
  }

  // ---------------------------------------------------------------------------
  // The Snapshot table and its chart link

  /** What `SnapshotIF` reports about a pool at one moment. */
  datatype PoolSnapshot = PoolSnapshot(
    dateStarted: int,
    activeConnectionCount: int,
    availableConnectionCount: int,
    offlineConnectionCount: int,
    maximumConnectionCount: int,
    servedCount: int,
    refusedCount: int)

  /** `toString()` of the three `java.awt.Color` constants, which the servlet
      concatenates into the font tags. */
  const ActiveColourText: string := "java.awt.Color[r=255,g=0,b=0]"
  const AvailableColourText: string := "java.awt.Color[r=0,g=255,b=0]"
  const SpareColourText: string := "java.awt.Color[r=238,g=238,b=238]"


  /** The counts with their colour labels that open the "Connections" value
      of the Snapshot table; the offline count appears only when positive. */
  function SnapshotCountsText(snap: PoolSnapshot): string {
    ValueOf(snap.activeConnectionCount) + " (<font color=\"" + ActiveColourText + "\">active</font>), "
      + ValueOf(snap.availableConnectionCount) + " (<font color=\"" + AvailableColourText + "\">available</font>), "
      + (if snap.offlineConnectionCount > 0 then ValueOf(snap.offlineConnectionCount) + " (offline), " else "")
      + ValueOf(snap.maximumConnectionCount) + " (<font color=\"" + SpareColourText + "\">max</font>)<br/>"
  }

  /** The image tag around the chart link. */
  const ImageOpen: string := "<img style=\"margin: 4px;\" src=\""
  const ImageClose: string := "\" width=\"300\" height=\"5\" alt=\"...\">"

  /** The "Connections" value of the Snapshot table: the counts, then the
      chart image, whose source is the chart link over the definition's
      maximum and the snapshot's active and available counts. */
  function SnapshotConnectionsValue(snap: PoolSnapshot, def: PoolDefinition, link: string): string {
    SnapshotCountsText(snap) + ImageOpen
      + ChartQuery.ChartLink(link, def.maximumConnectionCount, snap.activeConnectionCount, snap.availableConnectionCount)
      + ImageClose
  }

  /** The rows of the Snapshot table, in the order the servlet prints them. */
  const SnapshotCaptions: seq<Caption> := [StartDate, Connections, Served, Refused]

  /** The rows of `doSnapshot`, in order. `date` stands for the date
      formatter applied to the start date. */
  function SnapshotRows(snap: PoolSnapshot, def: PoolDefinition, link: string, date: int -> string): (rows: seq<Row>)
    ensures Captions(rows) == SnapshotCaptions
  {
    [ Row(StartDate, Some(date(snap.dateStarted))),
      Row(Connections, Some(SnapshotConnectionsValue(snap, def, link))),
      Row(Served, Some(ValueOf(snap.servedCount))),
      Row(Refused, Some(ValueOf(snap.refusedCount))) ]
  }

  /** The values of the Snapshot rows; none of them is ever null, so none
      prints `off`. */
  lemma SnapshotRowValues(snap: PoolSnapshot, def: PoolDefinition, link: string, date: int -> string)
    ensures var rows := SnapshotRows(snap, def, link, date);
      |rows| == 4 &&
      (forall i :: 0 <= i < |rows| ==> rows[i].value.Some?) &&
      rows[0].value == Some(date(snap.dateStarted)) &&
      rows[1].value == Some(SnapshotConnectionsValue(snap, def, link)) &&
      rows[2].value == Some(ValueOf(snap.servedCount)) &&
      rows[3].value == Some(ValueOf(snap.refusedCount))
  {
  }

  /** The Connections row of the Snapshot table embeds, between `src="` and
      the closing quote, the page link, `?` and a query text from which
      `drawBarChart` reads the spare, active and available colours, the
      lengths [maximum, active, available] and `maximum` gridlines. This is
      what ties the report to the chart. */
  lemma SnapshotConnectionsChart(snap: PoolSnapshot, def: PoolDefinition, link: string, date: int -> string)
    requires IsJavaInt(def.maximumConnectionCount)
    requires IsJavaInt(snap.activeConnectionCount) && IsJavaInt(snap.availableConnectionCount)
    ensures var q := ChartQuery.QueryString(ChartQuery.SnapshotChartParams(
                       def.maximumConnectionCount, snap.activeConnectionCount, snap.availableConnectionCount));
      SnapshotRows(snap, def, link, date)[1] ==
        Row(Connections, Some(SnapshotCountsText(snap) + ImageOpen + (link + "?" + q) + ImageClose)) &&
      ChartQuery.DecodeChartRequest(ChartQuery.ParseQuery(q)) ==
        Some(ChartQuery.ChartRequest(ChartQuery.SnapshotColours,
          [def.maximumConnectionCount, snap.activeConnectionCount, snap.availableConnectionCount],
          def.maximumConnectionCount))
  {
    ChartQuery.SnapshotLinkReadBack(link, def.maximumConnectionCount,
      snap.activeConnectionCount, snap.availableConnectionCount);
  }

  // ---------------------------------------------------------------------------
  // The pool list

  /** A row of the pool list: the alias, its link, the pool's URL, and whether
      the row is highlighted as the selected pool. */
  datatype ListRow = ListRow(alias: string, href: string, url: Option<string>, highlighted: bool)

  /** doList: one row per alias, in alias order, each linking to
      `link?alias=<alias>`; a row is highlighted exactly when its alias is the
      selected one. `lookup` stands for the facade's definition lookup; when it
      fails the exception ends the list after the rows already written, which
      `complete == false` reports. */
  method ListRows(aliases: seq<string>, selected: Option<string>, link: string, lookup: string -> Option<PoolDefinition>)
    returns (rows: seq<ListRow>, complete: bool)
    ensures complete <==> forall a :: a in aliases ==> lookup(a).Some?
    ensures complete ==> |rows| == |aliases|
    ensures !complete ==> |rows| < |aliases| && lookup(aliases[|rows|]).None?
    ensures forall i :: 0 <= i < |rows| ==>
      lookup(aliases[i]).Some? &&
      rows[i] == ListRow(aliases[i], link + "?alias=" + aliases[i], lookup(aliases[i]).value.url, rows[i].highlighted)
    ensures forall i :: 0 <= i < |rows| ==> (rows[i].highlighted <==> selected == Some(aliases[i]))
    ensures selected.None? ==> forall i :: 0 <= i < |rows| ==> !rows[i].highlighted
  {
    rows := [];
    var i := 0;
    while i < |aliases|
      invariant 0 <= i <= |aliases| && |rows| == i
      invariant forall j :: 0 <= j < i ==> lookup(aliases[j]).Some?
      invariant forall j :: 0 <= j < i ==>
        rows[j] == ListRow(aliases[j], link + "?alias=" + aliases[j], lookup(aliases[j]).value.url, selected == Some(aliases[j]))
    {
      var a := aliases[i];
      var highlighted := false;
      if selected == Some(a) {
        highlighted := true;
      }
      var cpd := lookup(a);
      if cpd.None? {
        return rows, false;
      }
      rows := rows + [ListRow(a, link + "?alias=" + a, cpd.value.url, highlighted)];
      i := i + 1;
    }
    complete := true;
  }
}
