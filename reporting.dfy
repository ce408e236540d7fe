/** The reporting screen: the roster filtered by sex and sorted by name, the loaded weight
    records grouped per wrestler, the practice days, the per-wrestler chart, average loss and
    missed-practice count, the selection toggles and the two-column layout of the reports.
    Dates are seen through two parameters: `dayKey` maps a record's date to its
    "YYYY-MM-DD" day and `time` places it in time; `isWeekday` says whether it is Monday to
    Friday. */
module Reporting {
  import opened Wrappers
  import opened Seqs
  import opened Order
  import opened Text
  import opened Http
  import opened DayGroups

  const AllSexes: string := "All"

  // ----- filteredWrestlers -----

  /** The lower-cased "first last" the roster is ordered by; missing names count as empty. */
  function SortName(w: WrestlerItem): string {
    Lower(OrEmpty(w.firstName) + " " + OrEmpty(w.lastName))
  }

  function SortNameKey(w: WrestlerItem): seq<KeyPart> {
    [Text(SortName(w))]
  }

  predicate SexIs(w: WrestlerItem, sex: string) {
    OrEmpty(w.sex) == sex
  }

  /** The sex filter: with "All" the roster as it is, otherwise the wrestlers whose sex
      (missing counting as "") is the filter, each as often as in the roster and in roster order. */
  function SexFiltered(ws: seq<WrestlerItem>, sexFilter: string): (list: seq<WrestlerItem>)
    ensures sexFilter == AllSexes ==> list == ws
    ensures sexFilter != AllSexes ==> list == Filter(ws, (w: WrestlerItem) => SexIs(w, sexFilter))
  {
    if sexFilter != AllSexes then Filter(ws, (w: WrestlerItem) => SexIs(w, sexFilter)) else ws
  }

  /** The filtered roster, ordered by name. */
  function FilteredWrestlers(ws: seq<WrestlerItem>, sexFilter: string): (r: seq<WrestlerItem>)
    ensures multiset(r) == multiset(SexFiltered(ws, sexFilter))
    ensures forall i, j :: 0 <= i < j < |r| ==> StrLe(SortName(r[i]), SortName(r[j]))
  {
    var r := Sort(SexFiltered(ws, sexFilter), SortNameKey);
    forall i, j | 0 <= i < j < |r| ensures StrLe(SortName(r[i]), SortName(r[j])) {
      assert KeyLe(SortNameKey(r[i]), SortNameKey(r[j]));
      TextKeyLe(SortName(r[i]), SortName(r[j]));
    }
    r
  }

  /** With "All" the list is a rearrangement of the roster; otherwise it holds exactly the
      wrestlers of that sex, each as often as in the roster. */
  lemma FilteredContents(ws: seq<WrestlerItem>, sexFilter: string, w: WrestlerItem)
    ensures sexFilter == AllSexes ==> multiset(FilteredWrestlers(ws, sexFilter)) == multiset(ws)
    ensures sexFilter != AllSexes ==>
      multiset(FilteredWrestlers(ws, sexFilter))[w] == (if SexIs(w, sexFilter) then multiset(ws)[w] else 0)
    ensures sexFilter != AllSexes ==> (w in FilteredWrestlers(ws, sexFilter) <==> w in ws && SexIs(w, sexFilter))
  {
    if sexFilter != AllSexes {
      FilterCount(ws, (w: WrestlerItem) => SexIs(w, sexFilter), w);
      assert w in multiset(FilteredWrestlers(ws, sexFilter)) <==> w in multiset(ws) && SexIs(w, sexFilter);
    }
  }

  // ----- perWrestler -----

  /** The loaded records of one wrestler, in loading order. */
  function RecordsOf(ws: seq<WeightItem>, id: nat): seq<WeightItem> {
    Filter(ws, (r: WeightItem) => r.wrestlerId == id)
  }

  /** The wrestlers that have at least one loaded record. */
  function Ids(ws: seq<WeightItem>): set<nat> {
    set r | r in ws :: r.wrestlerId
  }

  /** `new Date(a.date) - new Date(b.date)` as a sort key. */
  function TimeKey(time: Option<string> -> int): WeightItem -> seq<KeyPart> {
    (r: WeightItem) => [Num(time(r.date))]
  }

  lemma RecordsOfSnoc(ws: seq<WeightItem>, i: nat, id: nat)
    requires i < |ws|
    ensures RecordsOf(ws[..i + 1], id) == RecordsOf(ws[..i], id) + (if ws[i].wrestlerId == id then [ws[i]] else [])
  {
    assert ws[..i + 1] == ws[..i] + [ws[i]];
    FilterAppend(ws[..i], [ws[i]], (r: WeightItem) => r.wrestlerId == id);
    assert [ws[i]][1..] == [];
  }

  lemma IdsSnoc(ws: seq<WeightItem>, i: nat)
    requires i < |ws|
    ensures Ids(ws[..i + 1]) == Ids(ws[..i]) + {ws[i].wrestlerId}
  {
    assert ws[..i + 1] == ws[..i] + [ws[i]];
  }

  lemma RecordsOfAbsent(ws: seq<WeightItem>, id: nat)
    requires id !in Ids(ws)
    ensures RecordsOf(ws, id) == []
  {
    assert forall i :: 0 <= i < |ws| ==> ws[i].wrestlerId in Ids(ws);
    FilterNone(ws, (r: WeightItem) => r.wrestlerId == id);
  }

  /** Builds the map from wrestler id to that wrestler's records, then sorts every list by time. */
  method PerWrestler(ws: seq<WeightItem>, time: Option<string> -> int) returns (groups: map<nat, seq<WeightItem>>)
    ensures groups.Keys == Ids(ws)
    ensures forall id :: id in groups ==> groups[id] == TimeSorted(ws, id, time)
  {
    groups := CollectById(ws);
    var todo := groups.Keys;
    while todo != {}
      invariant SortProgress(ws, time, groups, todo)
      decreases |todo|
    {
      var id :| id in todo;
      var sorted := Sort(groups[id], TimeKey(time));
      SortStep(ws, time, groups, todo, id, sorted);
      groups := groups[id := sorted];
      todo := todo - {id};
    }
  }

  /** While the lists are being sorted: those still to do hold the records in loading order,
      the others in time order. */
  ghost predicate SortProgress(ws: seq<WeightItem>, time: Option<string> -> int, groups: map<nat, seq<WeightItem>>, todo: set<nat>) {
    todo <= groups.Keys && groups.Keys == Ids(ws) &&
    (forall id :: id in groups && id in todo ==> groups[id] == RecordsOf(ws, id)) &&
    (forall id :: id in groups && id !in todo ==> groups[id] == TimeSorted(ws, id, time))
  }

  /** Sorting one more list keeps the progress. */
  lemma SortStep(ws: seq<WeightItem>, time: Option<string> -> int, groups: map<nat, seq<WeightItem>>, todo: set<nat>, id: nat, sorted: seq<WeightItem>)
    requires SortProgress(ws, time, groups, todo) && id in todo
    requires sorted == TimeSorted(ws, id, time)
    ensures SortProgress(ws, time, groups[id := sorted], todo - {id})
  {
  }

  /** A wrestler's records in ascending time order. */
  function TimeSorted(ws: seq<WeightItem>, id: nat, time: Option<string> -> int): seq<WeightItem> {
    Sort(RecordsOf(ws, id), TimeKey(time))
  }

  /** The first loop of the memo: each record is pushed onto its wrestler's list. */
  method CollectById(ws: seq<WeightItem>) returns (groups: map<nat, seq<WeightItem>>)
    ensures groups.Keys == Ids(ws)
    ensures forall id :: id in groups ==> groups[id] == RecordsOf(ws, id)
  {
    groups := map[];
    var i := 0;
    while i < |ws|
      invariant 0 <= i <= |ws|
      invariant groups.Keys == Ids(ws[..i])
      invariant forall id :: id in groups ==> groups[id] == RecordsOf(ws[..i], id)
    {
      var w := ws[i];
      assert ws[..i + 1] == ws[..i] + [w];
      forall id ensures RecordsOf(ws[..i + 1], id) == RecordsOf(ws[..i], id) + (if w.wrestlerId == id then [w] else []) {
        RecordsOfSnoc(ws, i, id);
      }
      IdsSnoc(ws, i);
      if w.wrestlerId !in groups {
        RecordsOfAbsent(ws[..i], w.wrestlerId);
        groups := groups[w.wrestlerId := []];
      }
      groups := groups[w.wrestlerId := groups[w.wrestlerId] + [w]];
      i := i + 1;
    }
    assert ws[..|ws|] == ws;
  }

  /** The grouping loses and duplicates nothing: a wrestler's list holds exactly that wrestler's
      records, each as often as it was loaded, in ascending time order. */
  lemma PerWrestlerPartition(ws: seq<WeightItem>, time: Option<string> -> int, id: nat, x: WeightItem)
    ensures multiset(TimeSorted(ws, id, time))[x] == if x.wrestlerId == id then multiset(ws)[x] else 0
    ensures Sorted(TimeSorted(ws, id, time), TimeKey(time))
    ensures x in ws ==> x.wrestlerId in Ids(ws)
  {
    FilterCount(ws, (r: WeightItem) => r.wrestlerId == id, x);
  }

  // ----- practiceDates -----

  const BeforeKind: Option<string> := Some(DayGroups.Before)

  /** A record that counts towards a practice: a "before" weigh-in on a weekday. */
  predicate Counted(r: WeightItem, isWeekday: Option<string> -> bool) {
    r.kind == BeforeKind && isWeekday(r.date)
  }

  /** The wrestlers with a counted record on day `d`. */
  function Attendees(ws: seq<WeightItem>, d: string, dayKey: Option<string> -> string, isWeekday: Option<string> -> bool): set<nat> {
    set r | r in ws && Counted(r, isWeekday) && dayKey(r.date) == d :: r.wrestlerId
  }

  /** The days with a counted record. */
  function CountedDays(ws: seq<WeightItem>, dayKey: Option<string> -> string, isWeekday: Option<string> -> bool): set<string> {
    set r | r in ws && Counted(r, isWeekday) :: dayKey(r.date)
  }

  predicate StrLt(a: string, b: string) {
    StrLe(a, b) && a != b
  }

  function DayTextKey(d: string): seq<KeyPart> {
    [Text(d)]
  }

  lemma AttendeesSnoc(ws: seq<WeightItem>, i: nat, d: string, dayKey: Option<string> -> string, isWeekday: Option<string> -> bool)
    requires i < |ws|
    ensures Attendees(ws[..i + 1], d, dayKey, isWeekday) ==
            Attendees(ws[..i], d, dayKey, isWeekday) +
            (if Counted(ws[i], isWeekday) && dayKey(ws[i].date) == d then {ws[i].wrestlerId} else {})
  {
    assert ws[..i + 1] == ws[..i] + [ws[i]];
  }

  /** The days on which at least two distinct wrestlers weighed in before practice, in
      increasing order: the per-day sets of wrestler ids, then the days whose set has two or
      more members, then the default string sort. */
  method PracticeDates(ws: seq<WeightItem>, dayKey: Option<string> -> string, isWeekday: Option<string> -> bool)
    returns (dates: seq<string>)
    ensures forall d :: d in dates <==> |Attendees(ws, d, dayKey, isWeekday)| >= 2
    ensures forall i, j :: 0 <= i < j < |dates| ==> StrLt(dates[i], dates[j])
  {
    var byDate, order := GroupByDay(ws, dayKey, isWeekday);
    var valid := Crowded(order, byDate);
    forall d ensures d in valid <==> |Attendees(ws, d, dayKey, isWeekday)| >= 2 {
      if d !in byDate {
        AttendeesOutside(ws, d, dayKey, isWeekday);
      }
    }
    dates := Sort(valid, DayTextKey);
    forall d ensures d in dates <==> d in valid {
      SortMembers(valid, DayTextKey, d);
    }
    PermutationDistinct(valid, dates);
    forall i, j | 0 <= i < j < |dates| ensures StrLt(dates[i], dates[j]) {
      assert KeyLe(DayTextKey(dates[i]), DayTextKey(dates[j]));
    }
  }

  /** A day without a counted record has no attendees. */
  lemma AttendeesOutside(ws: seq<WeightItem>, d: string, dayKey: Option<string> -> string, isWeekday: Option<string> -> bool)
    requires d !in CountedDays(ws, dayKey, isWeekday)
    ensures Attendees(ws, d, dayKey, isWeekday) == {}
  {
  }

  /** The first loop: the set of wrestler ids per day of a counted record, and the days in the
      order they first occur. */
  method GroupByDay(ws: seq<WeightItem>, dayKey: Option<string> -> string, isWeekday: Option<string> -> bool)
    returns (byDate: map<string, set<nat>>, order: seq<string>)
    ensures byDate.Keys == CountedDays(ws, dayKey, isWeekday)
    ensures forall d :: d in byDate ==> byDate[d] == Attendees(ws, d, dayKey, isWeekday)
    ensures forall d :: d in order <==> d in byDate
    ensures Distinct(order)
    ensures order == Days(CountedReadings(ws, dayKey, isWeekday))
  {
    byDate := map[];
    order := [];
    var i := 0;
    while i < |ws|
      invariant 0 <= i <= |ws|
      invariant Grouped(ws[..i], dayKey, isWeekday, byDate, order)
    {
      var w := ws[i];
      if w.kind == BeforeKind && isWeekday(w.date) {
        var key := dayKey(w.date);
        GroupAdd(ws, i, dayKey, isWeekday, byDate, order);
        if key !in byDate {
          byDate := byDate[key := {}];
          order := order + [key];
        }
        byDate := byDate[key := byDate[key] + {w.wrestlerId}];
      } else {
        GroupSkip(ws, i, dayKey, isWeekday, byDate, order);
      }
      i := i + 1;
    }
    assert ws[..|ws|] == ws;
  }

  /** The first loop's state after the records `ws`: the sets per day and the days in the order
      a counted record first falls on them. */
  ghost predicate Grouped(ws: seq<WeightItem>, dayKey: Option<string> -> string, isWeekday: Option<string> -> bool,
                          byDate: map<string, set<nat>>, order: seq<string>) {
    SetsGrouped(ws, dayKey, isWeekday, byDate) && OrderGrouped(ws, dayKey, isWeekday, byDate, order)
  }

  ghost predicate SetsGrouped(ws: seq<WeightItem>, dayKey: Option<string> -> string, isWeekday: Option<string> -> bool,
                              byDate: map<string, set<nat>>) {
    byDate.Keys == CountedDays(ws, dayKey, isWeekday) &&
    forall d :: d in byDate ==> byDate[d] == Attendees(ws, d, dayKey, isWeekday)
  }

  ghost predicate OrderGrouped(ws: seq<WeightItem>, dayKey: Option<string> -> string, isWeekday: Option<string> -> bool,
                               byDate: map<string, set<nat>>, order: seq<string>) {
    (forall d :: d in order <==> d in byDate) &&
    Distinct(order) &&
    order == Days(CountedReadings(ws, dayKey, isWeekday))
  }

  /** The set of `key` after `byDate.set(key, new Set())` when absent and `add(id)`. */
  function AddAttendee(byDate: map<string, set<nat>>, key: string, id: nat): map<string, set<nat>> {
    var b := if key in byDate then byDate else byDate[key := {}];
    b[key := b[key] + {id}]
  }

  /** A record that does not count changes nothing. */
  lemma GroupSkip(ws: seq<WeightItem>, i: nat, dayKey: Option<string> -> string, isWeekday: Option<string> -> bool,
                  byDate: map<string, set<nat>>, order: seq<string>)
    requires i < |ws| && !Counted(ws[i], isWeekday)
    requires Grouped(ws[..i], dayKey, isWeekday, byDate, order)
    ensures Grouped(ws[..i + 1], dayKey, isWeekday, byDate, order)
  {
    SetsSkip(ws, i, dayKey, isWeekday, byDate);
    CountedOrderSnoc(ws, i, dayKey, isWeekday);
  }

  lemma SetsSkip(ws: seq<WeightItem>, i: nat, dayKey: Option<string> -> string, isWeekday: Option<string> -> bool,
                 byDate: map<string, set<nat>>)
    requires i < |ws| && !Counted(ws[i], isWeekday)
    requires SetsGrouped(ws[..i], dayKey, isWeekday, byDate)
    ensures SetsGrouped(ws[..i + 1], dayKey, isWeekday, byDate)
  {
    assert ws[..i + 1] == ws[..i] + [ws[i]];
    forall d ensures Attendees(ws[..i + 1], d, dayKey, isWeekday) == Attendees(ws[..i], d, dayKey, isWeekday) {
      AttendeesSnoc(ws, i, d, dayKey, isWeekday);
    }
  }

  /** A counted record joins its day's set, and a new day is appended to the order. */
  lemma GroupAdd(ws: seq<WeightItem>, i: nat, dayKey: Option<string> -> string, isWeekday: Option<string> -> bool,
                 byDate: map<string, set<nat>>, order: seq<string>)
    requires i < |ws| && Counted(ws[i], isWeekday)
    requires Grouped(ws[..i], dayKey, isWeekday, byDate, order)
    ensures var key := dayKey(ws[i].date);
      Grouped(ws[..i + 1], dayKey, isWeekday, AddAttendee(byDate, key, ws[i].wrestlerId),
              if key in byDate then order else order + [key])
  {
    SetsAdd(ws, i, dayKey, isWeekday, byDate);
    OrderAdd(ws, i, dayKey, isWeekday, byDate, order);
  }

  lemma SetsAdd(ws: seq<WeightItem>, i: nat, dayKey: Option<string> -> string, isWeekday: Option<string> -> bool,
                byDate: map<string, set<nat>>)
    requires i < |ws| && Counted(ws[i], isWeekday)
    requires SetsGrouped(ws[..i], dayKey, isWeekday, byDate)
    ensures SetsGrouped(ws[..i + 1], dayKey, isWeekday, AddAttendee(byDate, dayKey(ws[i].date), ws[i].wrestlerId))
  {
    var w, key := ws[i], dayKey(ws[i].date);
    assert ws[..i + 1] == ws[..i] + [w];
    forall d ensures Attendees(ws[..i + 1], d, dayKey, isWeekday) ==
                     Attendees(ws[..i], d, dayKey, isWeekday) + (if key == d then {w.wrestlerId} else {}) {
      AttendeesSnoc(ws, i, d, dayKey, isWeekday);
    }
    if key !in byDate {
      AttendeesOutside(ws[..i], key, dayKey, isWeekday);
    }
  }

  lemma OrderAdd(ws: seq<WeightItem>, i: nat, dayKey: Option<string> -> string, isWeekday: Option<string> -> bool,
                 byDate: map<string, set<nat>>, order: seq<string>)
    requires i < |ws| && Counted(ws[i], isWeekday)
    requires OrderGrouped(ws[..i], dayKey, isWeekday, byDate, order)
    ensures var key := dayKey(ws[i].date);
      OrderGrouped(ws[..i + 1], dayKey, isWeekday, AddAttendee(byDate, key, ws[i].wrestlerId),
                   if key in byDate then order else order + [key])
  {
    CountedOrderSnoc(ws, i, dayKey, isWeekday);
    var key := dayKey(ws[i].date);
    var b := AddAttendee(byDate, key, ws[i].wrestlerId);
    assert b.Keys == byDate.Keys + {key};
    if key !in byDate {
      DistinctSnoc(order, key);
    }
  }

  /** The counted records as the per-day fold sees them; their `Days` are the days in the order
      a counted record first falls on them. */
  function CountedReadings(ws: seq<WeightItem>, dayKey: Option<string> -> string, isWeekday: Option<string> -> bool): seq<Reading> {
    Readings(Filter(ws, (r: WeightItem) => Counted(r, isWeekday)), dayKey)
  }

  lemma ReadingsAppend(a: seq<WeightItem>, b: seq<WeightItem>, dayKey: Option<string> -> string)
    ensures Readings(a + b, dayKey) == Readings(a, dayKey) + Readings(b, dayKey)
  {
    var l, r := Readings(a + b, dayKey), Readings(a, dayKey) + Readings(b, dayKey);
    assert |l| == |r|;
    forall i | 0 <= i < |l| ensures l[i] == r[i] {
      if i < |a| {
        assert (a + b)[i] == a[i];
      } else {
        assert (a + b)[i] == b[i - |a|];
      }
    }
  }

  /** One more record adds its day at the end when it is counted and its day is new. */
  lemma CountedOrderSnoc(ws: seq<WeightItem>, i: nat, dayKey: Option<string> -> string, isWeekday: Option<string> -> bool)
    requires i < |ws|
    ensures var prev := Days(CountedReadings(ws[..i], dayKey, isWeekday));
      Days(CountedReadings(ws[..i + 1], dayKey, isWeekday)) ==
        if Counted(ws[i], isWeekday) && dayKey(ws[i].date) !in prev then prev + [dayKey(ws[i].date)] else prev
  {
    var p := (r: WeightItem) => Counted(r, isWeekday);
    assert ws[..i + 1] == ws[..i] + [ws[i]];
    FilterAppend(ws[..i], [ws[i]], p);
    var extra := Filter([ws[i]], p);
    assert [ws[i]][1..] == [];
    assert extra == if p(ws[i]) then [ws[i]] else [];
    ReadingsAppend(Filter(ws[..i], p), extra, dayKey);
    if p(ws[i]) {
      DaysSnoc(CountedReadings(ws[..i], dayKey, isWeekday), Reading(dayKey(ws[i].date), ws[i].kind, ws[i].weight));
    } else {
      assert Readings(extra, dayKey) == [];
      assert Readings(Filter(ws[..i], p), dayKey) + [] == Readings(Filter(ws[..i], p), dayKey);
    }
  }

  /** The second loop: the days, in first-occurrence order, whose set has two or more members. */
  method Crowded(order: seq<string>, byDate: map<string, set<nat>>) returns (valid: seq<string>)
    requires forall d :: d in order ==> d in byDate
    requires Distinct(order)
    ensures forall d :: d in valid <==> d in order && |byDate[d]| >= 2
    ensures Distinct(valid)
  {
    valid := [];
    var j := 0;
    while j < |order|
      invariant 0 <= j <= |order|
      invariant forall d :: d in valid <==> d in order[..j] && |byDate[d]| >= 2
      invariant Distinct(valid)
    {
      var d := order[j];
      assert order[..j + 1] == order[..j] + [d];
      if |byDate[d]| >= 2 {
        assert d !in order[..j];
        valid := valid + [d];
      }
      j := j + 1;
    }
    assert order[..|order|] == order;
  }

  // ----- toggleSelected and allOrSelected -----

  /** Removes every copy of a selected id, or appends an unselected one. */
  function Toggle(prev: seq<nat>, id: nat): (next: seq<nat>)
    ensures id in next <==> id !in prev
    ensures forall x :: x != id ==> (x in next <==> x in prev)
    ensures id !in prev ==> next == prev + [id] && multiset(next)[id] == 1
  {
    FilterMembers(prev, (x: nat) => x != id);
    if id in prev then Filter(prev, (x: nat) => x != id) else prev + [id]
  }

  /** Toggling twice restores the selection as a set, and restores the list itself when the id
      was not selected. */
  lemma ToggleTwice(prev: seq<nat>, id: nat)
    ensures forall x :: x in Toggle(Toggle(prev, id), id) <==> x in prev
    ensures id !in prev ==> Toggle(Toggle(prev, id), id) == prev
  {
    if id !in prev {
      FilterAppend(prev, [id], (x: nat) => x != id);
      FilterAll(prev, (x: nat) => x != id);
      assert [id][1..] == [];
    }
  }

  /** The wrestlers the reports cover: all of the filtered roster under "select all", otherwise
      those of it whose id is selected. */
  function AllOrSelected(filtered: seq<WrestlerItem>, selectAll: bool, selected: seq<nat>): (r: seq<WrestlerItem>)
    ensures selectAll ==> r == filtered
    ensures !selectAll ==> r == Filter(filtered, (w: WrestlerItem) => w.id in selected)
    ensures forall w :: w in r <==> w in filtered && (selectAll || w.id in selected)
  {
    FilterMembers(filtered, (w: WrestlerItem) => w.id in selected);
    if selectAll then filtered
    else if |selected| > 0 then Filter(filtered, (w: WrestlerItem) => w.id in selected)
    else
      FilterNone(filtered, (w: WrestlerItem) => w.id in selected);
      []
  }

  // ----- graphDataFor, avgLossFor, missingCountFor -----

  /** `perWrestler.get(wid) || []`. */
  function RecordsFor(groups: map<nat, seq<WeightItem>>, wid: nat): seq<WeightItem> {
    if wid in groups then groups[wid] else []
  }

  /** The records as the per-day fold sees them. */
  function Readings(arr: seq<WeightItem>, dayKey: Option<string> -> string): (rs: seq<Reading>)
    ensures |rs| == |arr|
    ensures forall i :: 0 <= i < |arr| ==> rs[i] == Reading(dayKey(arr[i].date), arr[i].kind, arr[i].weight)
  {
    seq(|arr|, i requires 0 <= i < |arr| => Reading(dayKey(arr[i].date), arr[i].kind, arr[i].weight))
  }

  /** One chart point per day of the wrestler's records. */
  method GraphDataFor(groups: map<nat, seq<WeightItem>>, wid: nat, dayKey: Option<string> -> string)
    returns (points: seq<Point>)
    ensures points == Points(Readings(RecordsFor(groups, wid), dayKey))
  {
    var arr := RecordsFor(groups, wid);
    points := Group(Readings(arr, dayKey));
  }

  /** The wrestler's mean loss over the days with both weigh-ins, or none. */
  method AvgLossFor(groups: map<nat, seq<WeightItem>>, wid: nat, dayKey: Option<string> -> string)
    returns (avg: Option<real>)
    ensures avg == MeanLoss(Points(Readings(RecordsFor(groups, wid), dayKey)))
  {
    var arr := RecordsFor(groups, wid);
    var byDate := Group(Readings(arr, dayKey));
    avg := AverageLoss(byDate);
  }

  /** The days on which the records hold a "before" weigh-in. */
  function BeforeDays(arr: seq<WeightItem>, dayKey: Option<string> -> string): set<string> {
    set r | r in arr && r.kind == BeforeKind :: dayKey(r.date)
  }

  /** The practice dates the wrestler has no "before" weigh-in on. */
  function MissedDates(practice: seq<string>, arr: seq<WeightItem>, dayKey: Option<string> -> string): seq<string> {
    Filter(practice, (d: string) => d !in BeforeDays(arr, dayKey))
  }

  /** Counts the practice dates without a "before" record of the wrestler. */
  method MissingCountFor(groups: map<nat, seq<WeightItem>>, wid: nat, practice: seq<string>, dayKey: Option<string> -> string)
    returns (miss: nat)
    ensures miss == |MissedDates(practice, RecordsFor(groups, wid), dayKey)|
    ensures miss <= |practice|
  {
    var arr := RecordsFor(groups, wid);
    var haveBefore: set<string> := {};
    var i := 0;
    while i < |arr|
      invariant 0 <= i <= |arr|
      invariant haveBefore == BeforeDays(arr[..i], dayKey)
    {
      assert arr[..i + 1] == arr[..i] + [arr[i]];
      if arr[i].kind == BeforeKind {
        haveBefore := haveBefore + {dayKey(arr[i].date)};
      }
      i := i + 1;
    }
    assert arr[..|arr|] == arr;
    miss := 0;
    var j := 0;
    while j < |practice|
      invariant 0 <= j <= |practice|
      invariant miss == |Filter(practice[..j], (d: string) => d !in haveBefore)|
    {
      assert practice[..j + 1] == practice[..j] + [practice[j]];
      FilterAppend(practice[..j], [practice[j]], (d: string) => d !in haveBefore);
      assert [practice[j]][1..] == [];
      if practice[j] !in haveBefore {
        miss := miss + 1;
      }
      j := j + 1;
    }
    assert practice[..|practice|] == practice;
  }

  /** No practice is missed exactly when the wrestler weighed in before each of them, and all
      are missed when the wrestler has no "before" record on any of them. */
  lemma {:induction false} MissedNone(practice: seq<string>, arr: seq<WeightItem>, dayKey: Option<string> -> string)
    ensures |MissedDates(practice, arr, dayKey)| == 0 <==>
            forall i :: 0 <= i < |practice| ==> practice[i] in BeforeDays(arr, dayKey)
    ensures (forall i :: 0 <= i < |practice| ==> practice[i] !in BeforeDays(arr, dayKey)) ==>
            MissedDates(practice, arr, dayKey) == practice
  {
    var p := (d: string) => d !in BeforeDays(arr, dayKey);
    FilterMembers(practice, p);
    if forall i :: 0 <= i < |practice| ==> !p(practice[i]) {
      FilterNone(practice, p);
    }
    if forall i :: 0 <= i < |practice| ==> p(practice[i]) {
      FilterAll(practice, p);
    }
    if |MissedDates(practice, arr, dayKey)| != 0 {
      assert MissedDates(practice, arr, dayKey)[0] in MissedDates(practice, arr, dayKey);
    }
  }

  // ----- the two reports -----

  /** A wrestler is listed in a report only when some of their records are loaded. */
  predicate HasRecords(groups: map<nat, seq<WeightItem>>, w: WrestlerItem) {
    |RecordsFor(groups, w.id)| > 0
  }

  /** The chosen wrestlers a report lists, in roster order. */
  function Listed(chosen: seq<WrestlerItem>, groups: map<nat, seq<WeightItem>>): (listed: seq<WrestlerItem>)
    ensures forall w :: w in listed <==> w in chosen && HasRecords(groups, w)
  {
    FilterMembers(chosen, (w: WrestlerItem) => HasRecords(groups, w));
    Filter(chosen, (w: WrestlerItem) => HasRecords(groups, w))
  }

  datatype AvgRow = AvgRow(w: WrestlerItem, loss: real)
  datatype MissRow = MissRow(w: WrestlerItem, missed: nat)

  /** A wrestler's average loss per complete day; 0 when no day is complete. */
  function ReportLoss(groups: map<nat, seq<WeightItem>>, w: WrestlerItem, dayKey: Option<string> -> string): real {
    MeanLoss(Points(Readings(RecordsFor(groups, w.id), dayKey))).GetOr(0.0)
  }

  /** The average-loss report rows, one per listed wrestler in roster order. */
  function AvgRows(chosen: seq<WrestlerItem>, groups: map<nat, seq<WeightItem>>, dayKey: Option<string> -> string): (rows: seq<AvgRow>)
    ensures |rows| <= |chosen|
    ensures forall i :: 0 <= i < |rows| ==>
      rows[i].w in chosen && HasRecords(groups, rows[i].w) && rows[i].loss == ReportLoss(groups, rows[i].w, dayKey)
    ensures forall w :: w in chosen && HasRecords(groups, w) ==> AvgRow(w, ReportLoss(groups, w, dayKey)) in rows
    ensures |rows| == |Listed(chosen, groups)|
    ensures forall i :: 0 <= i < |rows| ==> rows[i].w == Listed(chosen, groups)[i]
  {
    var listed := Listed(chosen, groups);
    var rows := seq(|listed|, i requires 0 <= i < |listed| => AvgRow(listed[i], ReportLoss(groups, listed[i], dayKey)));
    forall w | w in chosen && HasRecords(groups, w) ensures AvgRow(w, ReportLoss(groups, w, dayKey)) in rows {
      var k :| 0 <= k < |listed| && listed[k] == w;
      assert rows[k] == AvgRow(w, ReportLoss(groups, w, dayKey));
    }
    rows
  }

  function MissedKey(row: MissRow): seq<KeyPart> {
    [Num(-(row.missed as int))]
  }

  /** The missed-practice rows before sorting, in the order of the chosen wrestlers. */
  function MissEntries(chosen: seq<WrestlerItem>, groups: map<nat, seq<WeightItem>>, practice: seq<string>, dayKey: Option<string> -> string): (rows: seq<MissRow>)
    ensures forall i :: 0 <= i < |rows| ==>
      (rows[i].w in chosen && HasRecords(groups, rows[i].w) &&
       rows[i].missed == |MissedDates(practice, RecordsFor(groups, rows[i].w.id), dayKey)|)
    ensures forall w :: w in chosen && HasRecords(groups, w) ==>
      MissRow(w, |MissedDates(practice, RecordsFor(groups, w.id), dayKey)|) in rows
  {
    var listed := Listed(chosen, groups);
    var rows := seq(|listed|, i requires 0 <= i < |listed| =>
      MissRow(listed[i], |MissedDates(practice, RecordsFor(groups, listed[i].id), dayKey)|));
    forall w | w in chosen && HasRecords(groups, w)
      ensures MissRow(w, |MissedDates(practice, RecordsFor(groups, w.id), dayKey)|) in rows {
      var k :| 0 <= k < |listed| && listed[k] == w;
      assert rows[k] == MissRow(w, |MissedDates(practice, RecordsFor(groups, w.id), dayKey)|);
    }
    rows
  }

  /** `.sort((a, b) => b.val - a.val)`: the rows by descending count. */
  function MissRows(chosen: seq<WrestlerItem>, groups: map<nat, seq<WeightItem>>, practice: seq<string>, dayKey: Option<string> -> string): (rows: seq<MissRow>)
    ensures multiset(rows) == multiset(MissEntries(chosen, groups, practice, dayKey))
    ensures forall i, j :: 0 <= i < j < |rows| ==> rows[i].missed >= rows[j].missed
  {
    var rows := Sort(MissEntries(chosen, groups, practice, dayKey), MissedKey);
    MissedDescending(rows);
    rows
  }

  /** Rows sorted by `MissedKey` have descending missed counts. */
  lemma MissedDescending(rows: seq<MissRow>)
    requires Sorted(rows, MissedKey)
    ensures forall i, j :: 0 <= i < j < |rows| ==> rows[i].missed >= rows[j].missed
  {
    assert forall i, j :: 0 <= i < j < |rows| ==> KeyLe(MissedKey(rows[i]), MissedKey(rows[j]));
  }

  /** Each chosen wrestler with loaded records has one row, holding their count of missed
      practices, and there is no other row. */
  lemma MissRowsContents(chosen: seq<WrestlerItem>, groups: map<nat, seq<WeightItem>>, practice: seq<string>, dayKey: Option<string> -> string, row: MissRow)
    ensures row in MissRows(chosen, groups, practice, dayKey) <==>
      row.w in chosen && HasRecords(groups, row.w) &&
      row.missed == |MissedDates(practice, RecordsFor(groups, row.w.id), dayKey)|
  {
    var e := MissEntries(chosen, groups, practice, dayKey);
    SortMembers(e, MissedKey, row);
    if row in e {
      var k :| 0 <= k < |e| && e[k] == row;
    }
  }

  // ----- the two-column layout -----

  /** `slice(0, half)` and `slice(half)` with `half = Math.ceil(n / 2)`. */
  function SplitColumns<T>(list: seq<T>): (halves: (seq<T>, seq<T>))
    ensures halves.0 + halves.1 == list
    ensures |halves.0| == |halves.1| || |halves.0| == |halves.1| + 1
  {
    var half := (|list| + 1) / 2;
    (list[..half], list[half..])
  }

  /** `Math.max(left.length, right.length)`: the rows of the table. */
  function RowCount<T>(list: seq<T>): (rows: nat)
    ensures rows == |SplitColumns(list).0|
    ensures |list| <= 2 * rows <= |list| + 1
  {
    var halves := SplitColumns(list);
    Max(|halves.0|, |halves.1|)
  }

  function Max(a: nat, b: nat): nat {
    if a >= b then a else b
  }

  /** Row `i` of the table shows entry `i` on the left and entry `rows + i` on the right, when
      there is one: every entry appears in exactly one cell. */
  lemma ColumnCells<T>(list: seq<T>, k: nat)
    requires k < |list|
    ensures var rows := RowCount(list); var halves := SplitColumns(list);
      (k < rows ==> halves.0[k] == list[k]) &&
      (k >= rows ==> k - rows < |halves.1| && halves.1[k - rows] == list[k])
  {
    var halves := SplitColumns(list);
    assert halves.0 + halves.1 == list;
    if k < RowCount(list) {
      assert (halves.0 + halves.1)[k] == halves.0[k];
    } else {
      assert (halves.0 + halves.1)[k] == halves.1[k - |halves.0|];
    }
  }
}
