/** How `doGet` decides what to show: the chart image, the pool list, the
    statistics of one pool, or nothing for an action it does not know. */
module Dispatch {
  import opened Wrappers

  const ActionStats: string := "stats"
  const ActionList: string := "list"
  const ActionChart: string := "chart"

  /** What a request ends up showing. The list carries the alias it
      highlights (null when none was resolved); an unrecognised action
      is only logged. */
  datatype View =
    | ChartView
    | ListView(selected: Option<string>)
    | StatsView(alias: string)
    | NoView(action: string)

  /** The view an action names once the alias is known to name a pool. */
  function RequestedView(action: string, alias: string): (v: View)
    requires action != ActionChart
    ensures v.ListView? <==> action == ActionList
    ensures v.StatsView? <==> action == ActionStats
    ensures v.NoView? <==> action != ActionList && action != ActionStats
    ensures v.ListView? ==> v.selected == Some(alias)
    ensures v.StatsView? ==> v.alias == alias
    ensures v.NoView? ==> v.action == action
  {
    if action == ActionList then ListView(Some(alias))
    else if action == ActionStats then StatsView(alias)
    else NoView(action)
  }

  /** doGet: `action` and `alias` are the request parameters (`None` when
      absent), `aliases` what the facade lists, and `known` whether the
      facade finds a definition for an alias. */
  method ResolveView(action: Option<string>, alias: Option<string>, aliases: seq<string>,
                     known: string -> bool) returns (v: View)
    // The chart ignores every alias; nothing else draws it.
    ensures v.ChartView? <==> action == Some(ActionChart)
    // No alias and not exactly one pool: the list, with nothing highlighted.
    ensures action != Some(ActionChart) && alias.None? && |aliases| != 1 ==> v == ListView(None)
    // No alias and exactly one pool: that pool, if it is found.
    ensures action != Some(ActionChart) && alias.None? && |aliases| == 1 ==>
      v == if known(aliases[0]) then RequestedView(action.GetOr(ActionStats), aliases[0])
           else ListView(Some(aliases[0]))
    // An alias that is not found: the list, whatever the action.
    ensures action != Some(ActionChart) && alias.Some? && !known(alias.value) ==> v == ListView(alias)
    // A found alias: what the action asks for, the statistics by default.
    ensures action != Some(ActionChart) && alias.Some? && known(alias.value) ==>
      v == RequestedView(action.GetOr(ActionStats), alias.value)
    // The statistics are only ever shown for a pool the facade knows.
    ensures v.StatsView? ==> known(v.alias)
  {
    var act := action.GetOr(ActionStats);
    if act == ActionChart {
      return ChartView;
    }
    var a := alias;
    if a.None? {
      if |aliases| == 1 {
        a := Some(aliases[0]);
      } else {
        act := ActionList;
      }
    }
    if a.Some? && !known(a.value) {
      act := ActionList;
    }
    if act == ActionList {
      v := ListView(a);
    } else if act == ActionStats {
      v := StatsView(a.value);
    } else {
      v := NoView(act);
    }
  }
}
