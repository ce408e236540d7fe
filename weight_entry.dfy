/** The weight-entry screen: the date the form sends and the date the date field shows, the
    split of the chosen "first last" into the two names the add endpoint looks up, the roster
    cards (filter, hide, sort), and the state that hides wrestlers who have just weighed in
    until the screen has been idle for fifteen minutes. */
module WeightEntry {
  import opened Wrappers
  import opened Seqs
  import opened Order
  import opened Text
  import opened Http

  /** `15 * 60 * 1000` milliseconds. */
  const InactiveMs: int := 900000

  // ----- dates -----

  predicate DigitsAt(s: string, lo: nat, hi: nat)
    requires lo <= hi <= |s|
  {
    forall i :: lo <= i < hi ==> IsDigit(s[i])
  }

  /** `/^\d{4}-\d{2}-\d{2}$/`, the form an `<input type="date">` produces. */
  predicate IsoShaped(s: string) {
    |s| == 10 && DigitsAt(s, 0, 4) && s[4] == '-' && DigitsAt(s, 5, 7) && s[7] == '-' && DigitsAt(s, 8, 10)
  }

  /** `/^\d{2}\/\d{2}\/\d{4}$/`. */
  predicate UsShaped(s: string) {
    |s| == 10 && DigitsAt(s, 0, 2) && s[2] == '/' && DigitsAt(s, 3, 5) && s[5] == '/' && DigitsAt(s, 6, 10)
  }

  /** `slice(5,7) + "/" + slice(8,10) + "/" + slice(0,4)`. */
  function IsoToUs(s: string): (r: string)
    requires |s| == 10
  {
    s[5..7] + "/" + s[8..10] + "/" + s[0..4]
  }

  /** `slice(6) + "-" + slice(0,2) + "-" + slice(3,5)`. */
  function UsToIso(s: string): (r: string)
    requires |s| == 10
  {
    s[6..] + "-" + s[0..2] + "-" + s[3..5]
  }

  /** The date the submit sends: today's locale date when none is entered, the entered date
      rewritten to month/day/year when it is year-month-day, and otherwise as entered. */
  function SubmitDate(customDate: string, today: string): (d: string)
    ensures customDate == "" ==> d == today
    ensures customDate != "" && !IsoShaped(customDate) ==> d == customDate
    ensures IsoShaped(customDate) ==> UsShaped(d)
  {
    if customDate == "" then today
    else if IsoShaped(customDate) then
      IsoUsRoundTrip(customDate);
      IsoToUs(customDate)
    else customDate
  }

  /** The value the date field shows: a month/day/year text is rewritten to year-month-day. */
  function DisplayDate(customDate: string): (v: string)
    ensures UsShaped(customDate) ==> IsoShaped(v)
    ensures !UsShaped(customDate) ==> v == customDate
  {
    if UsShaped(customDate) then
      UsIsoRoundTrip(customDate);
      UsToIso(customDate)
    else customDate
  }

  lemma IsoUsRoundTrip(s: string)
    requires IsoShaped(s)
    ensures UsShaped(IsoToUs(s)) && UsToIso(IsoToUs(s)) == s
  {
    var r := IsoToUs(s);
    assert r[..2] == s[5..7] && r[3..5] == s[8..10] && r[6..] == s[0..4];
    assert s == s[0..4] + "-" + s[5..7] + "-" + s[8..10];
  }

  lemma UsIsoRoundTrip(s: string)
    requires UsShaped(s)
    ensures IsoShaped(UsToIso(s)) && IsoToUs(UsToIso(s)) == s
  {
    var r := UsToIso(s);
    assert r[..4] == s[6..] && r[5..7] == s[0..2] && r[8..] == s[3..5];
    assert s == s[0..2] + "/" + s[3..5] + "/" + s[6..];
  }

  /** A date picked in the field round-trips: what the submit sends is shown again as the date
      that was picked, and an entered month/day/year date is sent back as it was entered. */
  lemma DateRoundTrip(s: string, today: string)
    ensures IsoShaped(s) ==> DisplayDate(SubmitDate(s, today)) == s
    ensures UsShaped(s) ==> SubmitDate(DisplayDate(s), today) == s
  {
    if IsoShaped(s) {
      IsoUsRoundTrip(s);
    }
    if UsShaped(s) {
      UsIsoRoundTrip(s);
    }
  }

  // ----- the name split -----

  /** `const [firstName, ...rest] = selected.split(" "); const lastName = rest.join(" ")`. */
  function SplitSelection(selected: string): (names: (string, string)) {
    var parts := Split(selected, ' ');
    (parts[0], Join(parts[1..], " "))
  }

  /** The first name is the text before the first space; with a space in the selection the two
      names joined by one space give it back, without one the last name is empty. */
  lemma SplitNames(selected: string)
    ensures ' ' !in SplitSelection(selected).0
    ensures ' ' in selected ==> SplitSelection(selected).0 + " " + SplitSelection(selected).1 == selected
    ensures ' ' !in selected ==> SplitSelection(selected) == (selected, "")
  {
    var parts := Split(selected, ' ');
    SplitPieces(selected, ' ');
    JoinSplit(selected, ' ');
    assert parts[0] in parts;
    if ' ' in selected {
      var i := IndexOf(selected, ' ').value;
      assert parts == [selected[..i]] + Split(selected[i + 1..], ' ');
      assert |parts| >= 2;
    }
  }

  /** A spaceless first name and any last name, joined by one space, split back into themselves. */
  lemma SplitChosen(first: string, last: string)
    requires ' ' !in first
    ensures SplitSelection(first + " " + last) == (first, last)
  {
    var s := first + " " + last;
    var r := IndexOf(s, ' ');
    assert s[|first|] == ' ';
    assert r.Some?;
    assert r.value == |first|;
    assert s[..|first|] == first && s[|first| + 1..] == last;
    var parts := Split(s, ' ');
    assert parts == [first] + Split(last, ' ');
    assert parts[1..] == Split(last, ' ');
    JoinSplit(last, ' ');
  }

  // ----- the roster cards -----

  /** `String(w.weightClass || "")`: a weight class of 0 reads as empty. */
  function FilterClassText(wc: Option<int>): string {
    if wc.None? || wc.value == 0 then "" else IntToString(wc.value)
  }

  /** `String(w.weightClass ?? "")`: only a missing weight class reads as empty. */
  function SortClassText(wc: Option<int>): string {
    if wc.None? then "" else IntToString(wc.value)
  }

  /** The two renderings disagree on a weight class of 0. */
  lemma ZeroClassTexts()
    ensures FilterClassText(Some(0)) == "" && SortClassText(Some(0)) == "0"
  {
  }

  /** The text filter: a blank filter keeps every card; otherwise the lower-cased trimmed filter
      must occur in the first name, the last name or the weight class. */
  predicate ShownByFilter(w: WrestlerItem, filterText: string) {
    var f := Lower(Trim(filterText));
    f == "" ||
    Contains(Lower(OrEmpty(w.firstName)), f) || Contains(Lower(OrEmpty(w.lastName)), f) ||
    Contains(Lower(FilterClassText(w.weightClass)), f)
  }

  /** `hiddenMap[w.id]` is truthy: a non-zero time is recorded for the id. */
  predicate Hidden(hidden: map<nat, int>, id: nat) {
    id in hidden && hidden[id] != 0
  }

  predicate Visible(w: WrestlerItem, filterText: string, hiding: bool, hidden: map<nat, int>) {
    !(hiding && Trim(filterText) == "" && Hidden(hidden, w.id))
  }

  function FirstText(w: WrestlerItem): string { Lower(OrEmpty(w.firstName)) }
  function LastText(w: WrestlerItem): string { Lower(OrEmpty(w.lastName)) }
  function ClassText(w: WrestlerItem): string { Lower(SortClassText(w.weightClass)) }

  /** The comparator chains as composite keys: "last" by (last, first), "weight" by (weight
      class, last, first), anything else by (first, last). */
  function CardKey(sortBy: string): WrestlerItem -> seq<KeyPart> {
    (w: WrestlerItem) =>
      if sortBy == "last" then [Text(LastText(w)), Text(FirstText(w))]
      else if sortBy == "weight" then [Text(ClassText(w)), Text(LastText(w)), Text(FirstText(w))]
      else [Text(FirstText(w)), Text(LastText(w))]
  }

  /** The cards the screen shows, in display order. */
  function Cards(ws: seq<WrestlerItem>, filterText: string, hiding: bool, hidden: map<nat, int>, sortBy: string): (cards: seq<WrestlerItem>)
    ensures Sorted(cards, CardKey(sortBy))
    ensures forall w :: multiset(cards)[w] ==
                        if ShownByFilter(w, filterText) && Visible(w, filterText, hiding, hidden) then multiset(ws)[w] else 0
  {
    var p := (w: WrestlerItem) => ShownByFilter(w, filterText);
    var q := (w: WrestlerItem) => Visible(w, filterText, hiding, hidden);
    var shown := Filter(ws, p);
    var kept := Filter(shown, q);
    forall w ensures multiset(kept)[w] == if p(w) && q(w) then multiset(ws)[w] else 0 {
      FilterCount(ws, p, w);
      FilterCount(shown, q, w);
    }
    Sort(kept, CardKey(sortBy))
  }

  /** A blank filter keeps every card, and a non-blank one keeps exactly the cards it occurs in. */
  lemma FilterMeaning(w: WrestlerItem, filterText: string)
    ensures Trim(filterText) == "" ==> ShownByFilter(w, filterText)
    ensures Trim(filterText) != "" ==>
      (ShownByFilter(w, filterText) <==>
        var f := Lower(Trim(filterText));
        Contains(Lower(OrEmpty(w.firstName)), f) || Contains(Lower(OrEmpty(w.lastName)), f) ||
        Contains(Lower(FilterClassText(w.weightClass)), f))
  {
    assert |Lower(Trim(filterText))| == |Trim(filterText)|;
  }

  /** A card is shown exactly when the wrestler passes the text filter and is not hidden, and a
      wrestler is hidden only when hiding is on, the filter is blank and the id is in the map. */
  lemma CardsMembers(ws: seq<WrestlerItem>, filterText: string, hiding: bool, hidden: map<nat, int>, sortBy: string, w: WrestlerItem)
    ensures w in Cards(ws, filterText, hiding, hidden, sortBy) <==>
            w in ws && ShownByFilter(w, filterText) && Visible(w, filterText, hiding, hidden)
    ensures !Visible(w, filterText, hiding, hidden) ==> hiding && Trim(filterText) == "" && w.id in hidden
  {
    var p := (w: WrestlerItem) => ShownByFilter(w, filterText);
    var q := (w: WrestlerItem) => Visible(w, filterText, hiding, hidden);
    var shown := Filter(ws, p);
    var kept := Filter(shown, q);
    FilterMembers(ws, p);
    FilterMembers(shown, q);
    SortMembers(kept, CardKey(sortBy), w);
  }

  /** Sorting by last name orders the cards by last name and, among equal last names, by first. */
  lemma CardsByLast(ws: seq<WrestlerItem>, filterText: string, hiding: bool, hidden: map<nat, int>, i: nat, j: nat)
    requires var cards := Cards(ws, filterText, hiding, hidden, "last"); i < j < |cards|
    ensures var cards := Cards(ws, filterText, hiding, hidden, "last");
      StrLe(LastText(cards[i]), LastText(cards[j])) &&
      (LastText(cards[i]) == LastText(cards[j]) ==> StrLe(FirstText(cards[i]), FirstText(cards[j])))
  {
    var cards := Cards(ws, filterText, hiding, hidden, "last");
    var a, b := cards[i], cards[j];
    assert KeyLe(CardKey("last")(a), CardKey("last")(b));
    TextKey2(LastText(a), FirstText(a), LastText(b), FirstText(b));
  }

  /** Sorting by weight orders the cards by the weight class as text, then last, then first name. */
  lemma CardsByWeight(ws: seq<WrestlerItem>, filterText: string, hiding: bool, hidden: map<nat, int>, i: nat, j: nat)
    requires var cards := Cards(ws, filterText, hiding, hidden, "weight"); i < j < |cards|
    ensures var cards := Cards(ws, filterText, hiding, hidden, "weight");
      StrLe(ClassText(cards[i]), ClassText(cards[j])) &&
      (ClassText(cards[i]) == ClassText(cards[j]) ==> StrLe(LastText(cards[i]), LastText(cards[j]))) &&
      (ClassText(cards[i]) == ClassText(cards[j]) && LastText(cards[i]) == LastText(cards[j]) ==>
         StrLe(FirstText(cards[i]), FirstText(cards[j])))
  {
    var cards := Cards(ws, filterText, hiding, hidden, "weight");
    var a, b := cards[i], cards[j];
    assert KeyLe(CardKey("weight")(a), CardKey("weight")(b));
    TextKey3(ClassText(a), LastText(a), FirstText(a), ClassText(b), LastText(b), FirstText(b));
  }

  /** Any other choice orders the cards by first name, then last name. */
  lemma CardsByFirst(ws: seq<WrestlerItem>, filterText: string, hiding: bool, hidden: map<nat, int>, sortBy: string, i: nat, j: nat)
    requires sortBy != "last" && sortBy != "weight"
    requires var cards := Cards(ws, filterText, hiding, hidden, sortBy); i < j < |cards|
    ensures var cards := Cards(ws, filterText, hiding, hidden, sortBy);
      StrLe(FirstText(cards[i]), FirstText(cards[j])) &&
      (FirstText(cards[i]) == FirstText(cards[j]) ==> StrLe(LastText(cards[i]), LastText(cards[j])))
  {
    var cards := Cards(ws, filterText, hiding, hidden, sortBy);
    var a, b := cards[i], cards[j];
    assert KeyLe(CardKey(sortBy)(a), CardKey(sortBy)(b));
    TextKey2(FirstText(a), LastText(a), FirstText(b), LastText(b));
  }

  // ----- submit and the hiding map -----

  /** The body the submit posts to the add endpoint; the weight is sent as typed. */
  datatype WeightPayload = WeightPayload(firstName: string, lastName: string, date: string, weight: string, kind: string)

  /** `(w.firstName || "") + " " + (w.lastName || "")`. */
  function CardName(w: WrestlerItem): string {
    OrEmpty(w.firstName) + " " + OrEmpty(w.lastName)
  }

  /** `wrestlers.find(...)`: the first wrestler whose card name is `name`. */
  function FindByCardName(ws: seq<WrestlerItem>, name: string): (r: Option<nat>)
    ensures r.Some? ==> r.value < |ws| && CardName(ws[r.value]) == name &&
                        forall k :: 0 <= k < r.value ==> CardName(ws[k]) != name
    ensures r.None? ==> forall k :: 0 <= k < |ws| ==> CardName(ws[k]) != name
  {
    if ws == [] then None
    else if CardName(ws[0]) == name then Some(0)
    else match FindByCardName(ws[1..], name)
      case None => None
      case Some(k) => Some(k + 1)
  }

  /** The state of the form and of the hiding feature; `hidden` maps a wrestler id to the time it
      was hidden, `lastActivity` is the time of the last mouse, key or touch event. */
  class EntryForm {
    var selected: string
    var weight: string
    var kind: string
    var customDate: string
    var hideWeighedIn: bool
    var hidden: map<nat, int>
    var lastActivity: int

    constructor (hideWeighedIn: bool, hidden: map<nat, int>, lastActivity: int)
      ensures this.selected == "" && this.weight == "" && this.kind == "before" && this.customDate == ""
      ensures this.hideWeighedIn == hideWeighedIn && this.hidden == hidden && this.lastActivity == lastActivity
    {
      this.selected := "";
      this.weight := "";
      this.kind := "before";
      this.customDate := "";
      this.hideWeighedIn := hideWeighedIn;
      this.hidden := hidden;
      this.lastActivity := lastActivity;
    }

    /** The activity listener records the time of the event. */
    method OnActivity(now: int)
      modifies this
      ensures lastActivity == now
      ensures selected == old(selected) && weight == old(weight) && kind == old(kind) && customDate == old(customDate)
      ensures hideWeighedIn == old(hideWeighedIn) && hidden == old(hidden)
    {
      lastActivity := now;
    }

    /** The ten-second check: the map is emptied when it has entries and no activity happened for
        fifteen minutes; nothing else changes. */
    method CheckInactivity(now: int)
      modifies this
      ensures hidden == if now - old(lastActivity) >= InactiveMs && |old(hidden)| > 0 then map[] else old(hidden)
      ensures selected == old(selected) && weight == old(weight) && kind == old(kind) && customDate == old(customDate)
      ensures hideWeighedIn == old(hideWeighedIn) && lastActivity == old(lastActivity)
    {
      if now - lastActivity >= InactiveMs && |hidden| > 0 {
        hidden := map[];
      }
    }

    /** A card's Before or After button selects the wrestler and the weigh-in side. */
    method ChooseWrestler(w: WrestlerItem, t: string)
      modifies this
      ensures selected == ChosenName(w) && kind == t
      ensures weight == old(weight) && customDate == old(customDate)
      ensures hideWeighedIn == old(hideWeighedIn) && hidden == old(hidden) && lastActivity == old(lastActivity)
    {
      selected := ChosenName(w);
      kind := t;
    }

    /** The submit handler. Without a selection or a weight nothing is sent. Otherwise the two
        names and the date are sent; `saved` says whether the request succeeded. On success the
        weight is cleared and, with hiding on, the first wrestler whose card name matches the
        sent names is hidden from `now` on; a failure changes nothing. */
    method Submit(wrestlers: seq<WrestlerItem>, today: string, now: int, saved: bool) returns (sent: Option<WeightPayload>)
      modifies this
      ensures old(selected) == "" || old(weight) == "" ==> sent.None? && weight == old(weight) && hidden == old(hidden)
      ensures old(selected) != "" && old(weight) != "" ==>
        var names := SplitSelection(old(selected));
        sent == Some(WeightPayload(names.0, names.1, SubmitDate(old(customDate), today), old(weight), old(kind))) &&
        weight == (if saved then "" else old(weight)) &&
        hidden == (if saved && old(hideWeighedIn) && FindByCardName(wrestlers, names.0 + " " + names.1).Some? then
                     old(hidden)[wrestlers[FindByCardName(wrestlers, names.0 + " " + names.1).value].id := now]
                   else old(hidden))
      ensures selected == old(selected) && kind == old(kind) && customDate == old(customDate)
      ensures hideWeighedIn == old(hideWeighedIn) && lastActivity == old(lastActivity)
    {
      if selected == "" || weight == "" {
        return None;
      }
      var names := SplitSelection(selected);
      var dateToUse := SubmitDate(customDate, today);
      sent := Some(WeightPayload(names.0, names.1, dateToUse, weight, kind));
      if !saved {
        return;
      }
      weight := "";
      if hideWeighedIn {
        var matched := FindByCardName(wrestlers, names.0 + " " + names.1);
        if matched.Some? {
          hidden := hidden[wrestlers[matched.value].id := now];
        }
      }
    }
  }

  /** `${first} ${last}` with JavaScript's rendering of a missing name. */
  function TemplateText(name: Option<string>): string {
    if name.None? then "null" else name.value
  }

  /** The text a card's Before or After button puts into the selection. */
  function ChosenName(w: WrestlerItem): string {
    TemplateText(w.firstName) + " " + TemplateText(w.lastName)
  }

  /** Choosing a wrestler with both names and then submitting looks up, for hiding, the first
      wrestler whose card shows the same name: the split and re-joined selection is the chosen
      text even when the first name holds a space, although the names sent differ then. */
  lemma ChosenIsFound(ws: seq<WrestlerItem>, k: nat)
    requires k < |ws| && ws[k].firstName.Some? && ws[k].lastName.Some?
    ensures var names := SplitSelection(ChosenName(ws[k]));
            var m := FindByCardName(ws, names.0 + " " + names.1);
            m.Some? && m.value <= k && CardName(ws[m.value]) == CardName(ws[k])
    ensures ' ' !in ws[k].firstName.value ==>
            SplitSelection(ChosenName(ws[k])) == (ws[k].firstName.value, ws[k].lastName.value)
  {
    var selected := ChosenName(ws[k]);
    assert selected[|ws[k].firstName.value|] == ' ';
    SplitNames(selected);
    assert selected == CardName(ws[k]);
    if ' ' !in ws[k].firstName.value {
      SplitChosen(ws[k].firstName.value, ws[k].lastName.value);
    }
  }

  /** After a recorded weigh-in the wrestler's card disappears while the filter is blank, and the
      other wrestlers' cards are as before. */
  lemma HiddenAfterSubmit(hidden: map<nat, int>, id: nat, now: int, filterText: string, w: WrestlerItem)
    requires now != 0 && Trim(filterText) == ""
    ensures w.id == id ==> !Visible(w, filterText, true, hidden[id := now])
    ensures w.id != id ==> Visible(w, filterText, true, hidden[id := now]) == Visible(w, filterText, true, hidden)
  {
  }

  /** Once the map is cleared every card is visible again. */
  lemma ClearedShowsAll(w: WrestlerItem, filterText: string, hiding: bool)
    ensures Visible(w, filterText, hiding, map[])
  {
  }
}
