/** The weight endpoints: record a weight for a wrestler named by first and last name within
    the caller's school, and list the school's weight history, optionally filtered by name. */
module Weights {
  import opened Wrappers
  import opened Seqs
  import opened Order
  import opened Text
  import opened Requests
  import opened Schema
  import opened Store
  import opened Auth
  import opened Http

  const MissingFields: string := "Missing fields"
  const WrestlerNotFound: string := "Wrestler not found"

  // ----- add-weight-record -----

  /** The body of an add request. Weights are numbers; the model keeps them as integers. */
  datatype NewWeight = NewWeight(date: Field<string>, firstName: Field<string>, lastName: Field<string>,
                                 weight: Field<int>, kind: Field<string>)

  /** `SELECT id FROM wrestlers WHERE school_id = $1 AND first_name = $2 AND last_name = $3 LIMIT 1`:
      a wrestler of that school with exactly those names, if there is one. */
  function FindByName(ws: seq<Wrestler>, schoolId: nat, first: string, last: string): (r: Option<Wrestler>)
    ensures r.Some? ==> r.value in ws && r.value.schoolId == schoolId &&
                        r.value.firstName == Some(first) && r.value.lastName == Some(last)
    ensures r.None? ==> forall w :: w in ws ==>
                        !(w.schoolId == schoolId && w.firstName == Some(first) && w.lastName == Some(last))
  {
    if ws == [] then None
    else if ws[0].schoolId == schoolId && ws[0].firstName == Some(first) && ws[0].lastName == Some(last) then Some(ws[0])
    else
      var r := FindByName(ws[1..], schoolId, first, last);
      assert forall w :: w in ws ==> w == ws[0] || w in ws[1..];
      r
  }

  /** Checks the token and the fields, looks the wrestler up by name in the token's school, and
      appends one weight row for it. The wrestlers table is never written. */
  method AddWeightRecord(db: Database, env: Env, authorization: Option<string>, body: Parsed<NewWeight>, fault: Option<string>)
    returns (reply: Reply)
    requires db.Valid()
    modifies db
    ensures db.Valid()
    ensures db.wrestlers == old(db.wrestlers) && db.schools == old(db.schools)
    ensures var auth := VerifyToken(env, authorization);
      if auth.Failure? then reply == Error(401, auth.error) && unchanged(db)
      else if body.Malformed? then reply == Error(401, body.message) && unchanged(db)
      else if !TruthyText(body.fields.firstName) || !TruthyText(body.fields.lastName) || !TruthyNum(body.fields.weight) then
        reply == Error(400, MissingFields) && unchanged(db)
      else if fault.Some? then reply == Error(401, fault.value) && unchanged(db)
      else
        var b := body.fields;
        match FindByName(old(db.wrestlers), auth.value.schoolId, b.firstName.value, b.lastName.value)
        case None => reply == Error(400, WrestlerNotFound) && unchanged(db)
        case Some(w) =>
          reply == Answer(200, SuccessJson) &&
          db.weights == old(db.weights) + [Weight(old(db.nextWeightId), w.id, OrNull(b.date), b.weight.value, OrNull(b.kind))]
  {
    var auth := VerifyToken(env, authorization);
    if auth.Failure? {
      return Error(401, auth.error);
    }
    if body.Malformed? {
      return Error(401, body.message);
    }
    var b := body.fields;
    if !TruthyText(b.firstName) || !TruthyText(b.lastName) || !TruthyNum(b.weight) {
      return Error(400, MissingFields);
    }
    if fault.Some? {
      return Error(401, fault.value);
    }
    var found := FindByName(db.wrestlers, auth.value.schoolId, b.firstName.value, b.lastName.value);
    if found.None? {
      return Error(400, WrestlerNotFound);
    }
    var row := db.InsertWeight(found.value.id, OrNull(b.date), b.weight.value, OrNull(b.kind));
    reply := Answer(200, SuccessJson);
  }

  /** A wrestler of another school is never chosen, whatever its name: whenever the lookup
      finds someone, it is a wrestler of the caller's school with exactly those names. */
  lemma LookupStaysInSchool(ws: seq<Wrestler>, schoolId: nat, first: string, last: string, other: Wrestler)
    requires other in ws && other.schoolId != schoolId
    ensures FindByName(ws, schoolId, first, last) != Some(other)
    ensures FindByName(ws, schoolId, first, last).None? <==>
            !exists w :: w in ws && w.schoolId == schoolId && w.firstName == Some(first) && w.lastName == Some(last)
  {
  }

  // ----- get-weight-history -----

  /** One row of `weights JOIN wrestlers ON wt.wrestler_id = w.id`. */
  datatype Joined = Joined(wt: Weight, w: Wrestler)

  /** The wrestlers `wt` joins with, in table order. */
  function JoinOne(wt: Weight, ws: seq<Wrestler>): (r: seq<Joined>)
    ensures forall j :: j in r <==> j.wt == wt && j.w in ws && j.w.id == wt.wrestlerId
  {
    if ws == [] then []
    else
      var rest := JoinOne(wt, ws[1..]);
      assert forall w :: w in ws <==> w == ws[0] || w in ws[1..];
      (if ws[0].id == wt.wrestlerId then [Joined(wt, ws[0])] else []) + rest
  }

  /** The inner join of the two tables: one row per weight and matching wrestler. */
  function Join(wts: seq<Weight>, ws: seq<Wrestler>): (r: seq<Joined>)
    ensures forall j :: j in r <==> j.wt in wts && j.w in ws && j.w.id == j.wt.wrestlerId
  {
    if wts == [] then []
    else
      var rest := Join(wts[1..], ws);
      assert forall wt :: wt in wts <==> wt == wts[0] || wt in wts[1..];
      JoinOne(wts[0], ws) + rest
  }

  /** `CONCAT(w.first_name, ' ', w.last_name)`: NULL parts count as empty. */
  function FullName(w: Wrestler): string {
    OrEmpty(w.firstName) + " " + OrEmpty(w.lastName)
  }

  /** `CONCAT(...) ILIKE '%' || pattern || '%'`, the pattern taken literally. */
  predicate NameMatches(w: Wrestler, pattern: string) {
    Contains(Lower(FullName(w)), Lower(pattern))
  }

  /** The WHERE clause: the wrestler is of the school and, for a non-empty filter, matches it. */
  predicate Selected(j: Joined, schoolId: nat, pattern: string) {
    j.w.schoolId == schoolId && (pattern == "" || NameMatches(j.w, pattern))
  }

  /** `ORDER BY wt.date ASC`, with `rank` placing each stored date in time; NULL sorts last. */
  function DateKey(rank: string -> int): Joined -> seq<KeyPart> {
    (j: Joined) => [if j.wt.date.Some? then Num(rank(j.wt.date.value)) else Nil]
  }

  /** The rows of the history query: the selected join rows, each once, in date order. */
  function HistoryRows(wts: seq<Weight>, ws: seq<Wrestler>, schoolId: nat, pattern: string, rank: string -> int): (r: seq<Joined>)
    ensures Sorted(r, DateKey(rank))
    ensures forall j :: j in r <==> j.wt in wts && j.w in ws && j.w.id == j.wt.wrestlerId && Selected(j, schoolId, pattern)
    ensures forall j :: multiset(r)[j] == if Selected(j, schoolId, pattern) then multiset(Join(wts, ws))[j] else 0
  {
    var all := Join(wts, ws);
    var kept := Filter(all, (j: Joined) => Selected(j, schoolId, pattern));
    FilterMembers(all, (j: Joined) => Selected(j, schoolId, pattern));
    forall j ensures multiset(kept)[j] == if Selected(j, schoolId, pattern) then multiset(all)[j] else 0 {
      FilterCount(all, (j: Joined) => Selected(j, schoolId, pattern), j);
    }
    forall j ensures j in Sort(kept, DateKey(rank)) <==> j in kept {
      SortMembers(kept, DateKey(rank), j);
    }
    Sort(kept, DateKey(rank))
  }

  /** The `map` over the rows: the `name` is a template over the two name columns. */
  function HistoryItem(j: Joined): (item: WeightItem)
    ensures item.id == j.wt.id && item.wrestlerId == j.w.id && item.date == j.wt.date
    ensures item.weight == j.wt.weight && item.kind == j.wt.kind
    ensures j.w.firstName.Some? && j.w.lastName.Some? ==> item.name == j.w.firstName.value + " " + j.w.lastName.value
  {
    WeightItem(j.wt.id, j.w.id, j.w.firstName.GetOr("null") + " " + j.w.lastName.GetOr("null"), j.wt.date, j.wt.weight, j.wt.kind)
  }

  function HistoryItems(rows: seq<Joined>): (items: seq<WeightItem>)
    ensures |items| == |rows| && forall i :: 0 <= i < |rows| ==> items[i] == HistoryItem(rows[i])
  {
    seq(|rows|, i requires 0 <= i < |rows| => HistoryItem(rows[i]))
  }

  /** The history handler; `wrestler` is the query-string parameter and a missing one counts as
      empty. It reads the tables and changes nothing. */
  function WeightHistory(env: Env, authorization: Option<string>, wrestler: Option<string>, fault: Option<string>,
                         wts: seq<Weight>, ws: seq<Wrestler>, rank: string -> int): (reply: Reply)
    ensures VerifyToken(env, authorization).Failure? ==> reply == Error(401, VerifyToken(env, authorization).error)
    ensures VerifyToken(env, authorization).Success? && fault.Some? ==> reply == Error(401, fault.value)
    ensures VerifyToken(env, authorization).Success? && fault.None? ==>
      reply == Answer(200, History(HistoryItems(HistoryRows(wts, ws, VerifyToken(env, authorization).value.schoolId, OrEmpty(wrestler), rank))))
  {
    var auth := VerifyToken(env, authorization);
    if auth.Failure? then Error(401, auth.error)
    else if fault.Some? then Error(401, fault.value)
    else Answer(200, History(HistoryItems(HistoryRows(wts, ws, auth.value.schoolId, OrEmpty(wrestler), rank))))
  }

  /** Without a filter, every weight of a wrestler of the school is listed, and nothing else. */
  lemma HistoryUnfilteredIsSchool(wts: seq<Weight>, ws: seq<Wrestler>, schoolId: nat, rank: string -> int)
    ensures var items := HistoryItems(HistoryRows(wts, ws, schoolId, "", rank));
      (forall wt, w :: wt in wts && w in ws && w.id == wt.wrestlerId && w.schoolId == schoolId ==>
         HistoryItem(Joined(wt, w)) in items) &&
      (forall i :: 0 <= i < |items| ==> InSchool(ws, items[i].wrestlerId, schoolId))
  {
    var rows := HistoryRows(wts, ws, schoolId, "", rank);
    ItemsOfRows(rows);
    forall wt, w | wt in wts && w in ws && w.id == wt.wrestlerId && w.schoolId == schoolId
      ensures Joined(wt, w) in rows
    {
      assert Selected(Joined(wt, w), schoolId, "");
    }
    forall i | 0 <= i < |rows| ensures InSchool(ws, rows[i].w.id, schoolId) {
      assert rows[i] in rows;
    }
  }

  /** Every row has its item, and each item carries its row's wrestler id. */
  lemma ItemsOfRows(rows: seq<Joined>)
    ensures forall j :: j in rows ==> HistoryItem(j) in HistoryItems(rows)
    ensures forall i :: 0 <= i < |rows| ==> HistoryItems(rows)[i].wrestlerId == rows[i].w.id
  {
    var items := HistoryItems(rows);
    forall j | j in rows ensures HistoryItem(j) in items {
      var i :| 0 <= i < |rows| && rows[i] == j;
      assert items[i] == HistoryItem(j);
    }
  }

  /** With a filter, a record is listed exactly when its wrestler is of the school and the
      filter occurs in "first last", ignoring case. */
  lemma HistoryFiltered(wts: seq<Weight>, ws: seq<Wrestler>, schoolId: nat, pattern: string, rank: string -> int, wt: Weight, w: Wrestler)
    requires pattern != "" && wt in wts && w in ws && w.id == wt.wrestlerId
    ensures Joined(wt, w) in HistoryRows(wts, ws, schoolId, pattern, rank) <==>
            w.schoolId == schoolId && Contains(Lower(FullName(w)), Lower(pattern))
  {
  }

  /** The listed records appear in ascending order of their stored dates. */
  lemma HistoryByDate(wts: seq<Weight>, ws: seq<Wrestler>, schoolId: nat, pattern: string, rank: string -> int, i: nat, j: nat)
    requires var items := HistoryItems(HistoryRows(wts, ws, schoolId, pattern, rank));
      i < j < |items| && items[i].date.Some? && items[j].date.Some?
    ensures var items := HistoryItems(HistoryRows(wts, ws, schoolId, pattern, rank));
      rank(items[i].date.value) <= rank(items[j].date.value)
  {
    var rows := HistoryRows(wts, ws, schoolId, pattern, rank);
    assert KeyLe(DateKey(rank)(rows[i]), DateKey(rank)(rows[j]));
  }
}
