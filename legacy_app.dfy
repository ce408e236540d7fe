/** The older single-team client, which talks to a spreadsheet script: its password gate, the
    name autocomplete, the checks and the lookup before a weight is posted, the weight search,
    and the chart data (a date-range filter, the per-day fold, an ascending sort by day and the
    optional single-line expansion). */
module LegacyApp {
  import opened Wrappers
  import opened Seqs
  import opened Order
  import opened Text
  import opened DayGroups

  /** A roster row as the script returns it. */
  datatype Roster = Roster(name: string, firstName: string, lastName: string, weightClass: string, sex: string)

  /** A weight row as the script returns it. */
  datatype Entry = Entry(name: string, date: string, kind: Option<string>, weight: int)

  const Password: string := "Lennard"

  datatype Notice = Notice(error: bool, message: string)

  datatype LoginOutcome = Unlocked | Refused(notice: Notice)

  /** The password form: it unlocks the app, or it shows an error notice. */
  function Login(password: string): (r: LoginOutcome)
    ensures r == Unlocked <==> password == Password
    ensures password != Password ==> r == Refused(Notice(true, "Incorrect password"))
  {
    if password == Password then Unlocked else Refused(Notice(true, "Incorrect password"))
  }

  /** `name.toLowerCase().includes(value.toLowerCase())`. */
  predicate NameMatches(name: string, value: string) {
    Contains(Lower(name), Lower(value))
  }

  /** The suggestions state: the listed wrestlers and whether the list shows. */
  datatype Suggestions = Suggestions(list: seq<Roster>, shown: bool)

  /** Typing in the name field: a non-empty value lists the matching wrestlers and shows them;
      an empty one hides the list and leaves it as it was. */
  function Autocomplete(wrestlers: seq<Roster>, value: string, prev: seq<Roster>): (r: Suggestions)
    ensures |value| > 0 <==> r.shown
    ensures |value| > 0 ==> r.list == Filter(wrestlers, (w: Roster) => NameMatches(w.name, value))
    ensures |value| == 0 ==> r.list == prev
  {
    if |value| > 0 then Suggestions(Filter(wrestlers, (w: Roster) => NameMatches(w.name, value)), true)
    else Suggestions(prev, false)
  }

  /** The suggestions are the matching wrestlers, each as often as the roster holds it. */
  lemma AutocompleteMembers(wrestlers: seq<Roster>, value: string, prev: seq<Roster>, w: Roster)
    requires |value| > 0
    ensures var r := Autocomplete(wrestlers, value, prev);
      (w in r.list <==> w in wrestlers && NameMatches(w.name, value)) &&
      multiset(r.list)[w] == if NameMatches(w.name, value) then multiset(wrestlers)[w] else 0
  {
    var p := (w: Roster) => NameMatches(w.name, value);
    FilterMembers(wrestlers, p);
    FilterCount(wrestlers, p, w);
  }

  /** The match ignores the case of the typed value. */
  lemma MatchIgnoresCase(name: string, value: string)
    ensures NameMatches(name, value) <==> NameMatches(name, Lower(value))
  {
    LowerIdempotent(value);
  }

  lemma LowerIdempotent(s: string)
    ensures Lower(Lower(s)) == Lower(s)
  {
    assert forall i :: 0 <= i < |s| ==> Lower(Lower(s))[i] == Lower(s)[i];
  }

  /** The body posted for a weight. */
  datatype Payload = Payload(action: string, date: string, weightClass: string, firstName: string,
                             lastName: string, weight: string, kind: string, sex: string)

  /** `${month}/${day}/${year}` of today, without zero padding. */
  function TodayText(month: nat, day: nat, year: nat): string {
    NatToString(month) + "/" + NatToString(day) + "/" + NatToString(year)
  }

  /** The first roster row whose name is `name` exactly. */
  function FindByName(wrestlers: seq<Roster>, name: string): (r: Option<Roster>)
    ensures r.Some? ==> r.value in wrestlers && r.value.name == name
    ensures r.None? <==> forall w :: w in wrestlers ==> w.name != name
    ensures r.Some? ==> exists k :: 0 <= k < |wrestlers| && wrestlers[k] == r.value &&
                                    forall j :: 0 <= j < k ==> wrestlers[j].name != name
  {
    if wrestlers == [] then None
    else if wrestlers[0].name == name then Some(wrestlers[0])
    else
      var r := FindByName(wrestlers[1..], name);
      if r.Some? then
        var k :| 0 <= k < |wrestlers[1..]| && wrestlers[1..][k] == r.value &&
                 forall j :: 0 <= j < k ==> wrestlers[1..][j].name != name;
        assert wrestlers[k + 1] == r.value;
        r
      else r
  }

  datatype SubmitOutcome = Post(payload: Payload) | Stop(notice: Notice)

  /** The submit checks: a missing name or weight and a name not on the roster each stop it with
      a notice; otherwise the wrestler's roster details go with the typed weight. */
  function SubmitWeight(wrestlers: seq<Roster>, selected: string, weight: string, kind: string,
                        customDate: string, month: nat, day: nat, year: nat): (r: SubmitOutcome)
    ensures selected == "" || weight == "" ==> r == Stop(Notice(false, "Please enter wrestler name and weight"))
    ensures selected != "" && weight != "" && (forall w :: w in wrestlers ==> w.name != selected) ==>
            r == Stop(Notice(false, "Wrestler not found. Please select from the list."))
    ensures r.Post? <==> selected != "" && weight != "" && exists w :: w in wrestlers && w.name == selected
    ensures r.Post? ==>
      var p := r.payload;
      p.action == "addWeight" && p.weight == weight && p.kind == kind &&
      p.date == (if customDate != "" then customDate else TodayText(month, day, year)) &&
      (exists w :: w in wrestlers && w.name == selected &&
         p.firstName == w.firstName && p.lastName == w.lastName && p.weightClass == w.weightClass && p.sex == w.sex)
  {
    if selected == "" || weight == "" then Stop(Notice(false, "Please enter wrestler name and weight"))
    else
      var formattedDate := if customDate != "" then customDate else TodayText(month, day, year);
      match FindByName(wrestlers, selected)
      case None => Stop(Notice(false, "Wrestler not found. Please select from the list."))
      case Some(w) =>
        Post(Payload("addWeight", formattedDate, w.weightClass, w.firstName, w.lastName, weight, kind, w.sex))
  }

  /** The weight search: nothing for an empty query, else the matching rows in their order. */
  function SearchWeights(weightData: seq<Entry>, query: string): (r: seq<Entry>)
    ensures query == "" ==> r == []
    ensures query != "" ==> r == Filter(weightData, (w: Entry) => NameMatches(w.name, query))
  {
    if query == "" then [] else Filter(weightData, (w: Entry) => NameMatches(w.name, query))
  }

  lemma SearchMembers(weightData: seq<Entry>, query: string, e: Entry)
    requires query != ""
    ensures e in SearchWeights(weightData, query) <==> e in weightData && NameMatches(e.name, query)
    ensures |SearchWeights(weightData, query)| <= |weightData|
  {
    FilterMembers(weightData, (w: Entry) => NameMatches(w.name, query));
  }

  // ----- chart data -----

  /** `new Date(text)` as a time, or `None` for an invalid date (a `NaN` time). */
  type Clock = string -> Option<int>

  /** `entryDate >= start && entryDate <= end`: every comparison with an invalid date is false. */
  predicate InRange(time: Clock, date: string, startDate: string, endDate: string) {
    time(date).Some? && time(startDate).Some? && time(endDate).Some? &&
    time(startDate).value <= time(date).value <= time(endDate).value
  }

  /** `date.slice(0, 10)`. */
  function Prefix10(s: string): (r: string)
    ensures |r| == if |s| < 10 then |s| else 10
    ensures r == s[..|r|]
  {
    if |s| <= 10 then s else s[..10]
  }

  function InRangeEntries(weightData: seq<Entry>, time: Clock, startDate: string, endDate: string): seq<Entry> {
    Filter(weightData, (w: Entry) => InRange(time, w.date, startDate, endDate))
  }

  function EntryReadings(es: seq<Entry>): (rs: seq<Reading>)
    ensures |rs| == |es|
    ensures forall i :: 0 <= i < |es| ==> rs[i] == Reading(Prefix10(es[i].date), es[i].kind, es[i].weight)
  {
    seq(|es|, i requires 0 <= i < |es| => Reading(Prefix10(es[i].date), es[i].kind, es[i].weight))
  }

  /** The comparator `new Date(a.date) - new Date(b.date)` as a key; a day that does not parse
      gives `NaN` there and goes last here. */
  function DayTime(time: Clock): Point -> seq<KeyPart> {
    (p: Point) => if time(p.day).Some? then [Num(time(p.day).value)] else [Nil]
  }

  /** The per-day points of the in-range records, sorted ascending by day. */
  function CombinedPoints(weightData: seq<Entry>, time: Clock, startDate: string, endDate: string): (c: seq<Point>)
    ensures multiset(c) == multiset(Points(EntryReadings(InRangeEntries(weightData, time, startDate, endDate))))
    ensures Sorted(c, DayTime(time))
  {
    Sort(Points(EntryReadings(InRangeEntries(weightData, time, startDate, endDate))), DayTime(time))
  }

  /** A record is charted exactly when its date lies in the range, both ends included. */
  lemma RangeInclusive(weightData: seq<Entry>, time: Clock, startDate: string, endDate: string, e: Entry)
    ensures e in InRangeEntries(weightData, time, startDate, endDate) <==>
            e in weightData && time(e.date).Some? && time(startDate).Some? && time(endDate).Some? &&
            time(startDate).value <= time(e.date).value <= time(endDate).value
  {
    FilterMembers(weightData, (w: Entry) => InRange(time, w.date, startDate, endDate));
  }

  /** The combined points are the per-day points of the in-range records, one per day, each
      day's time no later than the next one's. */
  lemma CombinedOrder(weightData: seq<Entry>, time: Clock, startDate: string, endDate: string, i: nat, j: nat)
    requires var c := CombinedPoints(weightData, time, startDate, endDate);
             (i < j < |c| && time(c[i].day).Some? && time(c[j].day).Some?)
    ensures var c := CombinedPoints(weightData, time, startDate, endDate);
            time(c[i].day).value <= time(c[j].day).value
  {
    var c := CombinedPoints(weightData, time, startDate, endDate);
    assert KeyLe(DayTime(time)(c[i]), DayTime(time)(c[j]));
    var a, b := time(c[i].day).value, time(c[j].day).value;
    if a != b {
      assert PartLe(Num(a), Num(b));
    }
  }

  lemma CombinedMembers(weightData: seq<Entry>, time: Clock, startDate: string, endDate: string, p: Point)
    ensures var rs := EntryReadings(InRangeEntries(weightData, time, startDate, endDate));
      (p in CombinedPoints(weightData, time, startDate, endDate) <==> p in Points(rs)) &&
      |CombinedPoints(weightData, time, startDate, endDate)| == |Days(rs)|
  {
    SortMembers(Points(EntryReadings(InRangeEntries(weightData, time, startDate, endDate))), DayTime(time), p);
  }

  /** A point of the single-line chart: an entry's day, 0 or 1 millisecond past its start, and
      the weight. */
  datatype LinePoint = LinePoint(day: string, offset: nat, weight: Option<int>)

  /** The points one entry contributes: its before point always, its after point if it has one. */
  function EntryPoints(p: Point): (r: seq<LinePoint>)
    ensures |r| == if p.after.Some? then 2 else 1
  {
    [LinePoint(p.day, 0, p.before)] + (if p.after.Some? then [LinePoint(p.day, 1, p.after)] else [])
  }

  function LinePoints(ps: seq<Point>): seq<LinePoint>
    decreases |ps|
  {
    if ps == [] then [] else LinePoints(ps[..|ps| - 1]) + EntryPoints(ps[|ps| - 1])
  }

  /** The number of entries with an after weight. */
  function AfterCount(ps: seq<Point>): (n: nat)
    ensures n <= |ps|
    decreases |ps|
  {
    if ps == [] then 0 else AfterCount(ps[..|ps| - 1]) + (if ps[|ps| - 1].after.Some? then 1 else 0)
  }

  /** The chart data in either mode. */
  datatype GraphOutput = Combined(points: seq<Point>) | SingleLine(line: seq<LinePoint>)

  /** `getGraphData`: the fold fills the day object in record order, then the points are sorted,
      then in single-line mode each entry pushes its points. */
  method GraphData(weightData: seq<Entry>, time: Clock, startDate: string, endDate: string, singleLineMode: bool)
    returns (out: GraphOutput)
    ensures !singleLineMode ==> out == Combined(CombinedPoints(weightData, time, startDate, endDate))
    ensures singleLineMode ==> out == SingleLine(LinePoints(CombinedPoints(weightData, time, startDate, endDate)))
  {
    var filtered := InRangeEntries(weightData, time, startDate, endDate);
    var grouped := Group(EntryReadings(filtered));
    var combined := Sort(grouped, DayTime(time));
    if !singleLineMode {
      return Combined(combined);
    }
    var line := ExpandLine(combined);
    out := SingleLine(line);
  }

  /** The single-line loop: each entry pushes its before point and then, if present, its after point. */
  method ExpandLine(combined: seq<Point>) returns (result: seq<LinePoint>)
    ensures result == LinePoints(combined)
  {
    result := [];
    var i := 0;
    while i < |combined|
      invariant 0 <= i <= |combined|
      invariant result == LinePoints(combined[..i])
    {
      var entry := combined[i];
      assert combined[..i + 1][..i] == combined[..i] && combined[..i + 1][i] == entry;
      result := result + [LinePoint(entry.day, 0, entry.before)];
      if entry.after.Some? {
        result := result + [LinePoint(entry.day, 1, entry.after)];
      }
      i := i + 1;
    }
    assert combined[..|combined|] == combined;
  }

  lemma {:induction false} LinePointsAppend(a: seq<Point>, b: seq<Point>)
    ensures LinePoints(a + b) == LinePoints(a) + LinePoints(b)
    decreases |b|
  {
    if b == [] {
      assert a + b == a;
    } else {
      var n := |b| - 1;
      assert (a + b)[..|a + b| - 1] == a + b[..n];
      LinePointsAppend(a, b[..n]);
    }
  }

  lemma {:induction false} AfterCountAppend(a: seq<Point>, b: seq<Point>)
    ensures AfterCount(a + b) == AfterCount(a) + AfterCount(b)
    decreases |b|
  {
    if b == [] {
      assert a + b == a;
    } else {
      var n := |b| - 1;
      assert (a + b)[..|a + b| - 1] == a + b[..n];
      AfterCountAppend(a, b[..n]);
    }
  }

  /** The single-line chart has one point per entry and one more per after weight. */
  lemma {:induction false} LineLength(ps: seq<Point>)
    ensures |LinePoints(ps)| == |ps| + AfterCount(ps)
    decreases |ps|
  {
    if ps != [] {
      LineLength(ps[..|ps| - 1]);
    }
  }

  /** Entry `i` starts at index `i` plus the after weights before it, with its before point, and
      its after point, if any, comes right behind. */
  lemma LineLayout(ps: seq<Point>, i: nat)
    requires i < |ps|
    ensures var k := i + AfterCount(ps[..i]);
      k < |LinePoints(ps)| && LinePoints(ps)[k] == LinePoint(ps[i].day, 0, ps[i].before) &&
      (ps[i].after.Some? ==> k + 1 < |LinePoints(ps)| && LinePoints(ps)[k + 1] == LinePoint(ps[i].day, 1, ps[i].after))
  {
    var pre := ps[..i];
    assert ps == (pre + [ps[i]]) + ps[i + 1..];
    LinePointsAppend(pre + [ps[i]], ps[i + 1..]);
    assert (pre + [ps[i]])[..|pre|] == pre;
    LineLength(pre);
    var head := LinePoints(pre) + EntryPoints(ps[i]);
    assert LinePoints(pre + [ps[i]]) == head;
  }
}
