/** The chart request the Snapshot table embeds as an image link: the link
    text `doSnapshot` builds, the parameters it carries, and how
    `drawBarChart` reads them back. */
module ChartQuery {
  import opened Wrappers
  import opened Decimal
  import BarChart

  /** Colours of the Snapshot chart: spare (background), active, available. */
  const SnapshotColours: seq<BarChart.Colour> := ["eeeeee", "ff0000", "00ff00"]

  /** The chart link built in `doSnapshot`: lengths are the definition's
      maximum, then the active and available counts; divisions are the maximum. */
  function ChartLink(link: string, maximum: int, active: int, available: int): string {
    link + "?action=chart&c=eeeeee&c=ff0000&c=00ff00&l=" + ValueOf(maximum)
      + "&l=" + ValueOf(active) + "&l=" + ValueOf(available) + "&d=" + ValueOf(maximum)
  }

  /** A request parameter. */
  datatype Param = Param(name: string, value: string)

  /** The parameters the Snapshot chart link carries, in order. */
  function SnapshotChartParams(maximum: int, active: int, available: int): seq<Param> {
    [ Param("action", "chart"),
      Param("c", "eeeeee"), Param("c", "ff0000"), Param("c", "00ff00"),
      Param("l", ValueOf(maximum)), Param("l", ValueOf(active)), Param("l", ValueOf(available)),
      Param("d", ValueOf(maximum)) ]
  }

  /** `name=value` pairs joined with `&`. */
  function QueryString(params: seq<Param>): string
    decreases |params|
  {
    if params == [] then ""
    else if |params| == 1 then params[0].name + "=" + params[0].value
    else
      var last := params[|params| - 1];
      QueryString(params[..|params| - 1]) + "&" + last.name + "=" + last.value
  }

  /** Adding a parameter at the end adds `&name=value` at the end. */
  lemma QueryStringSnoc(ps: seq<Param>, p: Param)
    requires ps != []
    ensures QueryString(ps + [p]) == QueryString(ps) + "&" + p.name + "=" + p.value
  {
    assert (ps + [p])[..|ps|] == ps;
  }

  /** Adding a parameter behind a `?`-prefixed query string appends
      `&name=` and then the value, as the servlet's two `append` calls do. */
  lemma QueryPrefixSnoc(ps: seq<Param>, name: string, value: string)
    requires ps != []
    ensures "?" + QueryString(ps + [Param(name, value)]) == "?" + QueryString(ps) + ("&" + name + "=") + value
  {
    QueryStringSnoc(ps, Param(name, value));
  }

  /** The colour parameters that open the Snapshot chart link. */
  const SnapshotColourParams: seq<Param> :=
    [Param("action", "chart"), Param("c", "eeeeee"), Param("c", "ff0000"), Param("c", "00ff00")]

  // The fixed text of the link, taken apart one parameter at a time. Each
  // literal is proved on its own: with several of them in one proof context
  // the solver exceeds its budget.

  lemma ActionLiteral()
    ensures "?" + ("action" + "=" + "chart") == "?action=chart"
  {}

  lemma SpareLiteral()
    ensures "?action=chart" + ("&" + "c" + "=") + "eeeeee" == "?action=chart&c=eeeeee"
  {}

  lemma ActiveLiteral()
    ensures "?action=chart&c=eeeeee" + ("&" + "c" + "=") + "ff0000" == "?action=chart&c=eeeeee&c=ff0000"
  {}

  lemma AvailableLiteral()
    ensures "?action=chart&c=eeeeee&c=ff0000" + ("&" + "c" + "=") + "00ff00"
      == "?action=chart&c=eeeeee&c=ff0000&c=00ff00"
  {}

  lemma LengthLiteral()
    ensures "?action=chart&c=eeeeee&c=ff0000&c=00ff00" + ("&" + "l" + "=")
      == "?action=chart&c=eeeeee&c=ff0000&c=00ff00&l="
  {}

  /** The fixed text the servlet appends after the page link is `?`, the
      query string of the action and the three colours, and `&l=`. */
  lemma SnapshotColourQuery()
    ensures "?" + QueryString(SnapshotColourParams) + ("&" + "l" + "=")
      == "?action=chart&c=eeeeee&c=ff0000&c=00ff00&l="
  {
    var q1 := [Param("action", "chart")];
    var q2 := q1 + [Param("c", "eeeeee")];
    var q3 := q2 + [Param("c", "ff0000")];
    var q4 := q3 + [Param("c", "00ff00")];
    assert q4 == SnapshotColourParams;
    ActionLiteral();
    QueryPrefixSnoc(q1, "c", "eeeeee");
    SpareLiteral();
    QueryPrefixSnoc(q2, "c", "ff0000");
    ActiveLiteral();
    QueryPrefixSnoc(q3, "c", "00ff00");
    AvailableLiteral();
    LengthLiteral();
  }

  /** Appending the remaining parameters one `append` at a time yields the
      page link followed by the whole query. It is stated over texts the
      solver cannot see into, which keeps the proof cheap. */
  lemma AppendLengths(link: string, fixed: string, mark: string, colours: string, query: string,
                      p5: string, p6: string, p7: string, m: string, ac: string, av: string,
                      l: string, d: string)
    requires colours + l == fixed
    requires p5 == colours + l + m && p6 == p5 + l + ac && p7 == p6 + l + av
    requires mark + query == p7 + d + m
    ensures link + fixed + m + l + ac + l + av + d + m == link + mark + query
  {
    calc {
      link + fixed + m + l + ac + l + av + d + m;
      { Associative(link, fixed, m); }
      link + p5 + l + ac + l + av + d + m;
      { Associative(link, p5 + l, ac); Associative(link, p5, l); }
      link + p6 + l + av + d + m;
      { Associative(link, p6 + l, av); Associative(link, p6, l); }
      link + p7 + d + m;
      { Associative(link, p7 + d, m); Associative(link, p7, d); }
      link + (mark + query);
      { Associative(link, mark, query); }
      link + mark + query;
    }
  }

  /** `+` on texts is associative. */
  lemma Associative(a: string, b: string, c: string)
    ensures a + (b + c) == a + b + c
  {}

  /** The link the servlet builds is the page link, `?`, and the query string
      of exactly those parameters. */
  lemma ChartLinkEncodesParams(link: string, maximum: int, active: int, available: int)
    ensures ChartLink(link, maximum, active, available)
      == link + "?" + QueryString(SnapshotChartParams(maximum, active, available))
  {
    var m, ac, av := ValueOf(maximum), ValueOf(active), ValueOf(available);
    var q4 := SnapshotColourParams;
    var q5 := q4 + [Param("l", m)];
    var q6 := q5 + [Param("l", ac)];
    var q7 := q6 + [Param("l", av)];
    var q8 := q7 + [Param("d", m)];
    assert q8 == SnapshotChartParams(maximum, active, available);
    SnapshotColourQuery();
    QueryPrefixSnoc(q4, "l", m);
    QueryPrefixSnoc(q5, "l", ac);
    QueryPrefixSnoc(q6, "l", av);
    QueryPrefixSnoc(q7, "d", m);
    SeparatorLiterals();
    AppendLengths(link, "?action=chart&c=eeeeee&c=ff0000&c=00ff00&l=", "?", "?" + QueryString(q4),
                  QueryString(q8), "?" + QueryString(q5), "?" + QueryString(q6), "?" + QueryString(q7),
                  m, ac, av, "&l=", "&d=");
  }

  /** The separators the servlet appends between the counts. */
  lemma SeparatorLiterals()
    ensures "&" + "l" + "=" == "&l=" && "&" + "d" + "=" == "&d="
  {}

  /** `getParameterValues(name)`: every value of that name, in order. */
  function ParameterValues(params: seq<Param>, name: string): seq<string> {
    ValuesFrom(params, name, 0)
  }

  /** The values of that name from position `k` on. */
  function ValuesFrom(params: seq<Param>, name: string, k: nat): seq<string>
    decreases |params| - k
  {
    if k >= |params| then []
    else (if params[k].name == name then [params[k].value] else []) + ValuesFrom(params, name, k + 1)
  }

  // Splitting the query text back into parameters, as the servlet container
  // does before `getParameterValues` sees it.

  /** The last position of `c` in `s`, or -1 when `c` does not occur. */
  function LastIndexOf(s: string, c: char): (i: int)
    ensures -1 <= i < |s|
    ensures i >= 0 ==> s[i] == c
    ensures forall j :: i < j < |s| ==> s[j] != c
    decreases |s|
  {
    if s == [] then -1
    else if s[|s| - 1] == c then |s| - 1
    else LastIndexOf(s[..|s| - 1], c)
  }

  /** The first position of `c` in `s`, or |s| when `c` does not occur. */
  function FirstIndexOf(s: string, c: char): (i: nat)
    ensures i <= |s|
    ensures i < |s| ==> s[i] == c
    ensures forall j :: 0 <= j < i ==> s[j] != c
    decreases |s|
  {
    if s == [] || s[0] == c then 0 else 1 + FirstIndexOf(s[1..], c)
  }

  /** One `name=value` piece, split at its first `=`; a piece without `=` is
      a name with an empty value. */
  function ParseParam(piece: string): Param {
    var i := FirstIndexOf(piece, '=');
    if i == |piece| then Param(piece, "") else Param(piece[..i], piece[i + 1..])
  }

  /** The parameters of a query text: its `&`-separated pieces in order,
      empty pieces skipped. */
  function ParseQuery(q: string): seq<Param>
    decreases |q|
  {
    var i := LastIndexOf(q, '&');
    var piece := q[i + 1..];
    var last := if piece == "" then [] else [ParseParam(piece)];
    if i < 0 then last else ParseQuery(q[..i]) + last
  }

  /** Text without a `&`: one piece of a query. */
  predicate Unseparated(s: string) {
    forall i :: 0 <= i < |s| ==> s[i] != '&'
  }

  /** Text that can stand as a name or a value without escaping. */
  predicate Plain(s: string) {
    forall i :: 0 <= i < |s| ==> s[i] != '&' && s[i] != '='
  }

  /** Parameters whose names and values all need no escaping. */
  predicate PlainParams(ps: seq<Param>) {
    forall k :: 0 <= k < |ps| ==> Plain(ps[k].name) && Plain(ps[k].value)
  }

  /** `name=value` with a plain name splits back into that name and value. */
  lemma ParseParamPiece(name: string, value: string)
    requires Plain(name)
    ensures ParseParam(name + "=" + value) == Param(name, value)
  {
    var piece := name + "=" + value;
    assert piece[|name|] == '=';
    assert FirstIndexOf(piece, '=') == |name|;
    assert piece[..|name|] == name && piece[|name| + 1..] == value;
  }

  /** A piece built from plain text holds no `&`. */
  lemma PieceHasNoSeparator(name: string, value: string)
    requires Plain(name) && Plain(value)
    ensures Unseparated(name + "=" + value)
  {
    var piece := name + "=" + value;
    forall j | 0 <= j < |piece|
      ensures piece[j] != '&'
    {
      if j > |name| {
        assert piece[j] == value[j - |name| - 1];
      }
    }
  }

  /** The last separator of `a`, separator, `piece`, for a piece without
      one, is the one between them. */
  lemma LastSeparator(a: string, sep: char, piece: string)
    requires forall j :: 0 <= j < |piece| ==> piece[j] != sep
    ensures LastIndexOf(a + [sep] + piece, sep) == |a|
  {
    var q := a + [sep] + piece;
    var i := LastIndexOf(q, sep);
    assert q[|a|] == sep;
  }

  /** A query text, `&`, and a plain `name=value` piece reads as the text
      before it followed by that parameter. */
  lemma ParseQuerySnoc(a: string, name: string, value: string)
    requires Plain(name) && Plain(value)
    ensures ParseQuery(a + "&" + name + "=" + value) == ParseQuery(a) + [Param(name, value)]
  {
    var piece := name + "=" + value;
    var q := a + "&" + name + "=" + value;
    assert q == a + "&" + piece;
    PieceHasNoSeparator(name, value);
    ParseParamPiece(name, value);
    LastSeparator(a, '&', piece);
    assert q[..|a|] == a && q[|a| + 1..] == piece;
  }

  /** A single plain `name=value` piece reads as that one parameter. */
  lemma ParseQuerySingle(name: string, value: string)
    requires Plain(name) && Plain(value)
    ensures ParseQuery(name + "=" + value) == [Param(name, value)]
  {
    var piece := name + "=" + value;
    PieceHasNoSeparator(name, value);
    ParseParamPiece(name, value);
    assert LastIndexOf(piece, '&') == -1;
    assert piece[0..] == piece;
  }

  /** Reading a query string back gives the parameters it was built from,
      as long as no name or value holds a `&` or a `=`. */
  lemma {:induction false} ParseQueryString(ps: seq<Param>)
    requires PlainParams(ps)
    ensures ParseQuery(QueryString(ps)) == ps
    decreases |ps|
  {
    if ps != [] {
      var p := ps[|ps| - 1];
      if |ps| == 1 {
        assert [p] == ps;
        ParseQuerySingle(p.name, p.value);
      } else {
        var init := ps[..|ps| - 1];
        var a := QueryString(init);
        assert init + [p] == ps;
        QueryStringSnoc(init, p);
        ParseQuerySnoc(a, p.name, p.value);
        ParseQueryString(init);
      }
    }
  }

  /** The decimal text of a number needs no escaping in a link. */
  lemma ValueOfPlain(n: int)
    ensures Plain(ValueOf(n))
  {
    var s := ValueOf(n);
    var o := if n < 0 then 1 else 0;
    forall i | 0 <= i < |s|
      ensures s[i] != '&' && s[i] != '='
    {
      if i >= o {
        assert s[o..][i - o] == s[i];
      }
    }
  }

  /** What `drawBarChart` reads from a request: colours, lengths, divisions. */
  datatype ChartRequest = ChartRequest(colors: seq<BarChart.Colour>, lengths: seq<int>, divisions: int)

  /** `parseInt` of each text; `None` as soon as one fails. */
  function ParseAll(texts: seq<string>): Option<seq<int>>
    decreases |texts|
  {
    if texts == [] then Some([])
    else
      match (ParseInt(texts[0]), ParseAll(texts[1..]))
      case (Some(v), Some(vs)) => Some([v] + vs)
      case _ => None
  }

  /** The chart request a parameter list decodes to, the way `drawBarChart`
      reads it: the `c` values, the first |c| `l` values parsed, and the
      first `d` value parsed. `None` where the servlet throws: no colour, fewer
      lengths than colours, a length or the division count that is not a
      number, or no division count. */
  function DecodeChartRequest(params: seq<Param>): Option<ChartRequest> {
    var cs := ParameterValues(params, "c");
    var ls := ParameterValues(params, "l");
    var ds := ParameterValues(params, "d");
    if cs == [] || |ls| < |cs| || ds == [] then None
    else
      match (ParseAll(ls[..|cs|]), ParseInt(ds[0]))
      case (Some(lengths), Some(d)) => Some(ChartRequest(cs, lengths, d))
      case _ => None
  }

  /** The parameters of the Snapshot link after the colours: the three
      lengths and the division count, each as its text. */
  function CountParams(maximum: string, active: string, available: string): seq<Param> {
    [Param("l", maximum), Param("l", active), Param("l", available), Param("d", maximum)]
  }

  /** The colour parameters hold the three colours and no length or count. */
  lemma ColourParamValues()
    ensures ParameterValues(SnapshotColourParams, "c") == SnapshotColours
    ensures ParameterValues(SnapshotColourParams, "l") == []
    ensures ParameterValues(SnapshotColourParams, "d") == []
  {
    var ps := SnapshotColourParams;
    assert ValuesFrom(ps, "c", 3) == ["00ff00"];
    assert ValuesFrom(ps, "c", 2) == ["ff0000", "00ff00"];
    assert ValuesFrom(ps, "c", 1) == SnapshotColours;
    assert ValuesFrom(ps, "l", 2) == [];
    assert ValuesFrom(ps, "d", 2) == [];
  }

  /** The count parameters hold the three lengths in order and the maximum
      as the division count, and no colour. */
  lemma CountParamValues(maximum: string, active: string, available: string)
    ensures ParameterValues(CountParams(maximum, active, available), "c") == []
    ensures ParameterValues(CountParams(maximum, active, available), "l") == [maximum, active, available]
    ensures ParameterValues(CountParams(maximum, active, available), "d") == [maximum]
  {
    var ps := CountParams(maximum, active, available);
    assert ValuesFrom(ps, "c", 3) == [];
    assert ValuesFrom(ps, "c", 1) == [];
    assert ValuesFrom(ps, "l", 3) == [];
    assert ValuesFrom(ps, "l", 1) == [active, available];
    assert ValuesFrom(ps, "d", 3) == [maximum];
    assert ValuesFrom(ps, "d", 1) == [maximum];
  }

  /** The values of a concatenation, from a position in its first part on,
      are those of the rest of the first part followed by the second part's. */
  lemma {:induction false} ValuesFromAppend(ps: seq<Param>, qs: seq<Param>, name: string, k: nat)
    requires k <= |ps|
    ensures ValuesFrom(ps + qs, name, k) == ValuesFrom(ps, name, k) + ValuesFrom(qs, name, 0)
    decreases |ps| - k
  {
    if k < |ps| {
      ValuesFromAppend(ps, qs, name, k + 1);
    } else {
      ValuesFromShift(ps, qs, name, 0);
    }
  }

  /** Past the first part, the values of a concatenation are the second part's. */
  lemma {:induction false} ValuesFromShift(ps: seq<Param>, qs: seq<Param>, name: string, j: nat)
    requires j <= |qs|
    ensures ValuesFrom(ps + qs, name, |ps| + j) == ValuesFrom(qs, name, j)
    decreases |qs| - j
  {
    if j < |qs| {
      ValuesFromShift(ps, qs, name, j + 1);
      assert (ps + qs)[|ps| + j] == qs[j];
    }
  }

  /** `getParameterValues` of a concatenation is the concatenation of the
      values each part holds. */
  lemma ParameterValuesAppend(ps: seq<Param>, qs: seq<Param>, name: string)
    ensures ParameterValues(ps + qs, name) == ParameterValues(ps, name) + ParameterValues(qs, name)
  {
    ValuesFromAppend(ps, qs, name, 0);
  }

  /** The Snapshot link's parameters by name: the three colours, the three
      counts as lengths, and the maximum as the division count. */
  lemma SnapshotParameterValues(maximum: int, active: int, available: int)
    ensures var ps := SnapshotChartParams(maximum, active, available);
      ParameterValues(ps, "c") == SnapshotColours &&
      ParameterValues(ps, "l") == [ValueOf(maximum), ValueOf(active), ValueOf(available)] &&
      ParameterValues(ps, "d") == [ValueOf(maximum)]
  {
    var m, ac, av := ValueOf(maximum), ValueOf(active), ValueOf(available);
    assert SnapshotChartParams(maximum, active, available) == SnapshotColourParams + CountParams(m, ac, av);
    ColourParamValues();
    CountParamValues(m, ac, av);
    ParameterValuesAppend(SnapshotColourParams, CountParams(m, ac, av), "c");
    ParameterValuesAppend(SnapshotColourParams, CountParams(m, ac, av), "l");
    ParameterValuesAppend(SnapshotColourParams, CountParams(m, ac, av), "d");
  }

  /** The Snapshot link asks for a three-segment chart over the spare,
      active and available colours, with lengths [maximum, active, available]
      and `maximum` gridlines. */
  lemma SnapshotChartRequest(maximum: int, active: int, available: int)
    requires IsJavaInt(maximum) && IsJavaInt(active) && IsJavaInt(available)
    ensures DecodeChartRequest(SnapshotChartParams(maximum, active, available))
      == Some(ChartRequest(SnapshotColours, [maximum, active, available], maximum))
  {
    var ls := [ValueOf(maximum), ValueOf(active), ValueOf(available)];
    SnapshotParameterValues(maximum, active, available);
    assert ls[..3] == ls;
    assert ValueOfAll([available]) == [ValueOf(available)] by {
      assert [available][1..] == [];
    }
    assert ValueOfAll([active, available]) == [ValueOf(active), ValueOf(available)] by {
      assert [active, available][1..] == [available];
    }
    assert ValueOfAll([maximum, active, available]) == ls by {
      assert [maximum, active, available][1..] == [active, available];
    }
    ParseAllValueOf([maximum, active, available]);
  }

  /** The names and the fixed values of the Snapshot link need no escaping. */
  lemma SnapshotParamsPlain(maximum: int, active: int, available: int)
    ensures PlainParams(SnapshotChartParams(maximum, active, available))
  {
    var m, ac, av := ValueOf(maximum), ValueOf(active), ValueOf(available);
    ValueOfPlain(maximum);
    ValueOfPlain(active);
    ValueOfPlain(available);
    ColourParamsPlain();
    CountParamsPlain(m, ac, av);
    PlainParamsAppend(SnapshotColourParams, CountParams(m, ac, av));
    assert SnapshotChartParams(maximum, active, available) == SnapshotColourParams + CountParams(m, ac, av);
  }

  lemma ColourParamsPlain()
    ensures PlainParams(SnapshotColourParams)
  {
    assert Plain("action") && Plain("chart") && Plain("c");
    assert Plain("eeeeee") && Plain("ff0000") && Plain("00ff00");
  }

  lemma CountParamsPlain(maximum: string, active: string, available: string)
    requires Plain(maximum) && Plain(active) && Plain(available)
    ensures PlainParams(CountParams(maximum, active, available))
  {
    assert Plain("l") && Plain("d");
  }

  lemma PlainParamsAppend(ps: seq<Param>, qs: seq<Param>)
    requires PlainParams(ps) && PlainParams(qs)
    ensures PlainParams(ps + qs)
  {
    forall k | 0 <= k < |ps + qs|
      ensures Plain((ps + qs)[k].name) && Plain((ps + qs)[k].value)
    {
      if k >= |ps| {
        assert (ps + qs)[k] == qs[k - |ps|];
      }
    }
  }

  /** The whole path from the link text to the chart: the link `doSnapshot`
      writes is the page link, `?` and a query text; the container splits that
      text into the parameters the servlet wrote; and `drawBarChart` reads
      from them the three colours, [maximum, active, available] and
      `maximum` gridlines. */
  lemma SnapshotLinkReadBack(link: string, maximum: int, active: int, available: int)
    requires IsJavaInt(maximum) && IsJavaInt(active) && IsJavaInt(available)
    ensures var q := QueryString(SnapshotChartParams(maximum, active, available));
      ChartLink(link, maximum, active, available) == link + "?" + q &&
      DecodeChartRequest(ParseQuery(q)) == Some(ChartRequest(SnapshotColours, [maximum, active, available], maximum))
  {
    ChartLinkEncodesParams(link, maximum, active, available);
    SnapshotParamsPlain(maximum, active, available);
    ParseQueryString(SnapshotChartParams(maximum, active, available));
    SnapshotChartRequest(maximum, active, available);
  }

  /** `String.valueOf` of each number, in order. */
  function ValueOfAll(ns: seq<int>): (texts: seq<string>)
    ensures |texts| == |ns|
    decreases |ns|
  {
    if ns == [] then [] else [ValueOf(ns[0])] + ValueOfAll(ns[1..])
  }

  /** The decimal texts of a sequence of `int`s parse back to that sequence. */
  lemma {:induction false} ParseAllValueOf(ns: seq<int>)
    requires forall i :: 0 <= i < |ns| ==> IsJavaInt(ns[i])
    ensures ParseAll(ValueOfAll(ns)) == Some(ns)
    decreases |ns|
  {
    if ns != [] {
      var texts := ValueOfAll(ns);
      ParseValueOf(ns[0]);
      ParseAllValueOf(ns[1..]);
      assert texts[0] == ValueOf(ns[0]) && texts[1..] == ValueOfAll(ns[1..]);
      assert [ns[0]] + ns[1..] == ns;
    }
  }

  /** For a consistent snapshot (counts not negative, active plus available
      at most the maximum, the maximum small enough for `300 * max` to be an
      `int`), the requested chart draws without failing and its foreground
      segments end within the 300-pixel canvas. */
  lemma SnapshotChartFits(maximum: int, active: int, available: int)
    requires 0 < maximum <= MaxInt / BarChart.Width
    requires 0 <= active && 0 <= available && active + available <= maximum
    ensures BarChart.Drawable(SnapshotColours, [maximum, active, available], maximum)
    ensures BarChart.Offset([maximum, active, available], 3) <= BarChart.Width
  {
    var ls := [maximum, active, available];
    assert BarChart.Proportions(ls, 3);
    assert BarChart.ForegroundSum(ls, 3) == active + available;
    BarChart.FinalOffsetFits(ls, 3);
  }
}
