/** The graph screen: the query string its load request carries and the chart points it draws
    from the loaded weight history. */
module GraphView {
  import opened Wrappers
  import opened Text
  import opened Http
  import opened DayGroups
  import Uri
  import Reporting

  const ParamPrefix: string := "?wrestler="

  /** No query string for an empty name, otherwise the name as an encoded `wrestler` parameter. */
  function QueryString(selectedName: string): (qs: string)
    ensures selectedName == "" <==> qs == ""
    ensures selectedName != "" ==> qs == ParamPrefix + Uri.Encode(selectedName)
  {
    if selectedName == "" then "" else ParamPrefix + Uri.Encode(selectedName)
  }

  /** The `wrestler` parameter as the function runtime hands it to the history handler: the
      percent-decoded value of a query string of that one parameter, or none. */
  function WrestlerParam(qs: string): Option<string> {
    if StartsWith(qs, ParamPrefix) then Uri.Decode(qs[|ParamPrefix|..]) else None
  }

  /** The handler filters by exactly the typed name, and the query string adds no other
      parameter or fragment. */
  lemma QueryReachesHandler(selectedName: string)
    ensures OrEmpty(WrestlerParam(QueryString(selectedName))) == selectedName
    ensures '&' !in QueryString(selectedName) && '#' !in QueryString(selectedName)
  {
    Uri.EncodeSafe(selectedName, '&');
    Uri.EncodeSafe(selectedName, '#');
    if selectedName != "" {
      PrefixParam(Uri.Encode(selectedName));
      Uri.DecodeEncode(selectedName);
    }
  }

  /** The query string gives back the encoded value and holds no separator of its own. */
  lemma PrefixParam(e: string)
    ensures WrestlerParam(ParamPrefix + e) == Uri.Decode(e)
    ensures '&' !in ParamPrefix && '#' !in ParamPrefix
  {
    var qs := ParamPrefix + e;
    assert qs[..|ParamPrefix|] == ParamPrefix && qs[|ParamPrefix|..] == e;
    assert forall i :: 0 <= i < |ParamPrefix| ==> ParamPrefix[i] != '&' && ParamPrefix[i] != '#';
  }

  /** The chart data: one point per distinct day of the loaded records, in the order the days
      first occur, each day naming at least one record. */
  method ChartData(weights: seq<WeightItem>, dayKey: Option<string> -> string) returns (points: seq<Point>)
    ensures points == Points(Reporting.Readings(weights, dayKey))
    ensures forall i :: 0 <= i < |points| ==> exists k :: 0 <= k < |weights| && dayKey(weights[k].date) == points[i].day
    ensures forall i, j :: 0 <= i < j < |points| ==> points[i].day != points[j].day
  {
    var rs := Reporting.Readings(weights, dayKey);
    points := Group(rs);
    DaysDistinct(rs);
    forall i | 0 <= i < |points|
      ensures exists k :: 0 <= k < |weights| && dayKey(weights[k].date) == points[i].day
    {
      DaysMembers(rs, points[i].day);
      var k :| 0 <= k < |rs| && rs[k].day == points[i].day;
      assert dayKey(weights[k].date) == points[i].day;
    }
  }
}
