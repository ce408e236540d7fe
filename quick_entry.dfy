/** The quick weigh-in page a school shares as a link: it finds the school named in the link,
    lists the wrestlers whose name contains the typed term, and posts a weight for the picked
    wrestler. */
module QuickEntry {
  import opened Wrappers
  import opened Seqs
  import opened Text
  import opened Http
  import WeightEntry

  // ----- the school lookup -----

  /** A school row as the page reads it: the `name` and `code` keys, each absent (undefined or
      null) or a string. */
  datatype PageSchool = PageSchool(id: nat, name: Option<string>, code: Option<string>)

  datatype Lookup = Found(school: PageSchool) | Missing | Threw

  /** `schools.find(s => s.name.toLowerCase() === p || s.code.toLowerCase() === p)`, where
      `p` is the lower-cased route parameter and calling `toLowerCase` on an absent key throws. */
  function FindAsWritten(schools: seq<PageSchool>, param: string): (r: Lookup)
    ensures r.Found? ==> r.school in schools
    decreases |schools|
  {
    if schools == [] then Missing
    else
      var s := schools[0];
      if s.name.None? then Threw
      else if Lower(s.name.value) == Lower(param) then Found(s)
      else if s.code.None? then Threw
      else if Lower(s.code.value) == Lower(param) then Found(s)
      else FindAsWritten(schools[1..], param)
  }

  /** The school listing names its code column `login_code`: the page finds no `code` key. */
  function AsPageRow(l: SchoolListing): PageSchool {
    PageSchool(l.id, l.name, None)
  }

  function AsPageRows(ls: seq<SchoolListing>): (rows: seq<PageSchool>)
    ensures |rows| == |ls| && forall i :: 0 <= i < |ls| ==> rows[i] == AsPageRow(ls[i])
  {
    seq(|ls|, i requires 0 <= i < |ls| => AsPageRow(ls[i]))
  }

  /** As written, a lookup over the listing succeeds only through the first school's name; for
      any other parameter it throws, and the page reports a failed load. */
  lemma ListingLookupAsWritten(ls: seq<SchoolListing>, param: string)
    ensures FindAsWritten(AsPageRows(ls), param) ==
      if ls == [] then Missing
      else if ls[0].name.Some? && Lower(ls[0].name.value) == Lower(param) then Found(AsPageRow(ls[0]))
      else Threw
  {
    if ls != [] {
      assert AsPageRows(ls)[0] == AsPageRow(ls[0]);
    }
  }

  /** Two schools: the second cannot be reached, neither by its name nor by its code. */
  lemma SecondSchoolUnreachable()
    ensures var ls := [SchoolListing(1, Some("Alpha"), Some("A1"), None, None),
                       SchoolListing(2, Some("Beta"), Some("B2"), None, None)];
            FindAsWritten(AsPageRows(ls), "Beta") == Threw && FindAsWritten(AsPageRows(ls), "B2") == Threw
  {
    var ls := [SchoolListing(1, Some("Alpha"), Some("A1"), None, None),
               SchoolListing(2, Some("Beta"), Some("B2"), None, None)];
    ListingLookupAsWritten(ls, "Beta");
    ListingLookupAsWritten(ls, "B2");
    assert Lower("Alpha") != Lower("Beta") by {
      assert Lower("Alpha")[0] == 'a';
    }
    assert Lower("Alpha") != Lower("B2") by {
      assert Lower("Alpha")[0] == 'a';
    }
  }

  /** The intended test: the name or the login code equals the parameter, ignoring case. */
  predicate SchoolMatches(l: SchoolListing, param: string) {
    (l.name.Some? && Lower(l.name.value) == Lower(param)) ||
    (l.loginCode.Some? && Lower(l.loginCode.value) == Lower(param))
  }

  /** The position of the first school that matches the parameter. */
  function FindSchool(ls: seq<SchoolListing>, param: string): (r: Option<nat>)
    ensures r.Some? ==> r.value < |ls| && SchoolMatches(ls[r.value], param) &&
                        forall k :: 0 <= k < r.value ==> !SchoolMatches(ls[k], param)
    ensures r.None? <==> forall k :: 0 <= k < |ls| ==> !SchoolMatches(ls[k], param)
    decreases |ls|
  {
    if ls == [] then None
    else if SchoolMatches(ls[0], param) then Some(0)
    else match FindSchool(ls[1..], param)
      case None => None
      case Some(k) => Some(k + 1)
  }

  /** Every school is found by its name or its code unless an earlier school matches first, and
      wherever the lookup as written finds a school the intended one finds the same school. */
  lemma FindSchoolReaches(ls: seq<SchoolListing>, k: nat, param: string)
    requires k < |ls| && SchoolMatches(ls[k], param)
    requires forall j :: 0 <= j < k ==> !SchoolMatches(ls[j], param)
    ensures FindSchool(ls, param) == Some(k)
    ensures FindAsWritten(AsPageRows(ls), param).Found? ==> k == 0 && FindAsWritten(AsPageRows(ls), param).school == AsPageRow(ls[0])
  {
    ListingLookupAsWritten(ls, param);
  }

  datatype LoadOutcome = NotFound(message: string) | Loaded(school: SchoolListing)

  /** The load: the matching school, or the "School not found" notice and no wrestlers. */
  function LoadSchool(ls: seq<SchoolListing>, param: string): (r: LoadOutcome)
    ensures r.NotFound? <==> forall k :: 0 <= k < |ls| ==> !SchoolMatches(ls[k], param)
    ensures r.NotFound? ==> r.message == "School not found"
    ensures r.Loaded? ==> r.school in ls && SchoolMatches(r.school, param)
  {
    match FindSchool(ls, param)
    case None => NotFound("School not found")
    case Some(k) => Loaded(ls[k])
  }

  // ----- the wrestler filter -----

  /** `${first || ''} ${last || ''}`, lower-cased. */
  function FullName(w: WrestlerItem): string {
    Lower(OrEmpty(w.firstName) + " " + OrEmpty(w.lastName))
  }

  predicate TermMatches(w: WrestlerItem, searchTerm: string) {
    Contains(FullName(w), Trim(Lower(searchTerm)))
  }

  /** The listed wrestlers, in roster order. */
  function Matching(ws: seq<WrestlerItem>, searchTerm: string): (r: seq<WrestlerItem>)
    ensures |r| <= |ws|
    ensures forall w :: multiset(r)[w] == if TermMatches(w, searchTerm) then multiset(ws)[w] else 0
  {
    var p := (w: WrestlerItem) => TermMatches(w, searchTerm);
    forall w ensures multiset(Filter(ws, p))[w] == if p(w) then multiset(ws)[w] else 0 {
      FilterCount(ws, p, w);
    }
    Filter(ws, p)
  }

  /** A wrestler is listed exactly when the trimmed lower-cased term occurs in the full name, so a
      blank term lists the whole roster. */
  lemma MatchingMembers(ws: seq<WrestlerItem>, searchTerm: string, w: WrestlerItem)
    ensures w in Matching(ws, searchTerm) <==> w in ws && Contains(FullName(w), Trim(Lower(searchTerm)))
    ensures Trim(searchTerm) == "" ==> Matching(ws, searchTerm) == ws
  {
    FilterMembers(ws, (w: WrestlerItem) => TermMatches(w, searchTerm));
    if Trim(searchTerm) == "" {
      BlankStaysBlank(searchTerm);
      forall x | x in ws ensures TermMatches(x, searchTerm) {
        ContainsEmpty(FullName(x));
      }
      FilterAll(ws, (w: WrestlerItem) => TermMatches(w, searchTerm));
    }
  }

  /** Lower-casing leaves white space alone, so a blank term stays blank. */
  lemma BlankStaysBlank(s: string)
    requires Trim(s) == ""
    ensures Trim(Lower(s)) == ""
  {
    TrimEmpty(s);
    var l := Lower(s);
    forall i | 0 <= i < |l|
      ensures IsSpace(l[i])
    {
      assert l[i] == LowerChar(s[i]) && IsSpace(s[i]);
    }
    TrimEmpty(l);
  }

  /** Picking a wrestler with both names keeps that wrestler in the list. */
  lemma PickedStaysListed(ws: seq<WrestlerItem>, w: WrestlerItem)
    requires w in ws && w.firstName.Some? && w.lastName.Some?
    ensures w in Matching(ws, WeightEntry.ChosenName(w))
  {
    var term := WeightEntry.ChosenName(w);
    assert FullName(w) == Lower(term);
    TrimContained(Lower(term));
    MatchingMembers(ws, term, w);
  }

  // ----- the form -----

  /** The posted body: no date is sent, so the server stamps the day. */
  datatype QuickPayload = QuickPayload(firstName: Option<string>, lastName: Option<string>, weight: Option<real>, kind: string)

  datatype Notice = Notice(message: string, level: string)

  class QuickForm {
    var searchTerm: string
    var selected: Option<WrestlerItem>
    var weight: string
    var isBefore: bool
    var loading: bool

    constructor ()
      ensures searchTerm == "" && selected == None && weight == "" && isBefore && !loading
    {
      searchTerm := "";
      selected := None;
      weight := "";
      isBefore := true;
      loading := false;
    }

    /** Picking a wrestler selects it and writes its name into the search field. */
    method Pick(w: WrestlerItem)
      modifies this
      ensures selected == Some(w) && searchTerm == WeightEntry.ChosenName(w)
      ensures weight == old(weight) && isBefore == old(isBefore) && loading == old(loading)
    {
      selected := Some(w);
      searchTerm := WeightEntry.ChosenName(w);
    }

    /** The submit: without a selection or a weight only a warning shows. Otherwise the
        wrestler's names, the parsed weight (`None` for `NaN`) and the side are posted;
        `failure` is the message of a failed request. Success clears the weight, the term and
        the selection; a failure keeps them. Loading is off again afterwards. */
    method Submit(parseFloat: string -> Option<real>, failure: Option<string>) returns (sent: Option<QuickPayload>, notice: Notice)
      modifies this
      ensures old(selected).None? || old(weight) == "" ==>
        sent.None? && notice == Notice("Please select a wrestler and enter weight", "warning") &&
        searchTerm == old(searchTerm) && selected == old(selected) && weight == old(weight) && loading == old(loading)
      ensures old(selected).Some? && old(weight) != "" ==>
        sent == Some(QuickPayload(old(selected).value.firstName, old(selected).value.lastName, parseFloat(old(weight)),
                                  if old(isBefore) then "before" else "after")) &&
        !loading &&
        (failure.None? ==> notice == Notice("Weight recorded successfully!", "success") &&
                           weight == "" && searchTerm == "" && selected.None?) &&
        (failure.Some? ==> notice == Notice(if failure.value == "" then "Failed to record weight" else failure.value, "error") &&
                           weight == old(weight) && searchTerm == old(searchTerm) && selected == old(selected))
      ensures isBefore == old(isBefore)
    {
      if selected.None? || weight == "" {
        return None, Notice("Please select a wrestler and enter weight", "warning");
      }
      loading := true;
      var w := selected.value;
      sent := Some(QuickPayload(w.firstName, w.lastName, parseFloat(weight), if isBefore then "before" else "after"));
      if failure.None? {
        notice := Notice("Weight recorded successfully!", "success");
        weight := "";
        searchTerm := "";
        selected := None;
      } else {
        notice := Notice(if failure.value == "" then "Failed to record weight" else failure.value, "error");
      }
      loading := false;
    }
  }
}
