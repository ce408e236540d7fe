/** The wrestler endpoints: add a wrestler to the caller's school, list the school's roster,
    update a wrestler by id and delete a wrestler by id. Every one first checks the token; every
    failure after that is caught and answered with 401 and the error's message. */
module Wrestlers {
  import opened Wrappers
  import opened Seqs
  import opened Order
  import opened Requests
  import opened Schema
  import opened Store
  import opened Auth
  import opened Http

  const MissingFields: string := "Missing fields"
  const MissingId: string := "Missing wrestler id"
  const NothingToUpdate: string := "No fields to update"

  /** The `TypeError` thrown by reading `r.id` when the UPDATE returned no row. */
  const NoRowReturned: string := "Cannot read properties of undefined (reading 'id')"

  // ----- add-wrestlers -----

  /** The body of an add request. */
  datatype NewWrestler = NewWrestler(firstName: Field<string>, lastName: Field<string>, weightClass: Field<int>, sex: Field<string>)

  /** `weightClass || 0`: a falsy weight class is stored as 0. */
  function StoredWeightClass(f: Field<int>): int {
    if TruthyNum(f) then f.value else 0
  }

  /** Checks the token, then the names, then inserts one row for the token's school. */
  method AddWrestler(db: Database, env: Env, authorization: Option<string>, body: Parsed<NewWrestler>, fault: Option<string>)
    returns (reply: Reply)
    requires db.Valid()
    modifies db
    ensures db.Valid()
    ensures var auth := VerifyToken(env, authorization);
      if auth.Failure? then reply == Error(401, auth.error) && unchanged(db)
      else if body.Malformed? then reply == Error(401, body.message) && unchanged(db)
      else if !TruthyText(body.fields.firstName) || !TruthyText(body.fields.lastName) then
        reply == Error(400, MissingFields) && unchanged(db)
      else if fault.Some? then reply == Error(401, fault.value) && unchanged(db)
      else if !HasSchool(old(db.schools), auth.value.schoolId) then
        reply == Error(401, WrestlerSchoolMissing) && unchanged(db)
      else
        var row := Wrestler(old(db.nextWrestlerId), auth.value.schoolId, Some(body.fields.firstName.value),
                            Some(body.fields.lastName.value), Some(StoredWeightClass(body.fields.weightClass)),
                            OrNull(body.fields.sex));
        reply == Answer(200, WrestlerCreated(row.id, row.firstName, row.lastName)) &&
        db.wrestlers == old(db.wrestlers) + [row] && !HasWrestler(old(db.wrestlers), row.id) &&
        db.schools == old(db.schools) && db.weights == old(db.weights)
  {
    var auth := VerifyToken(env, authorization);
    if auth.Failure? {
      return Error(401, auth.error);
    }
    if body.Malformed? {
      return Error(401, body.message);
    }
    var b := body.fields;
    if !TruthyText(b.firstName) || !TruthyText(b.lastName) {
      return Error(400, MissingFields);
    }
    if fault.Some? {
      return Error(401, fault.value);
    }
    var r := db.InsertWrestler(auth.value.schoolId, Some(b.firstName.value), Some(b.lastName.value),
                               Some(StoredWeightClass(b.weightClass)), OrNull(b.sex));
    if r.Failure? {
      return Error(401, r.error);
    }
    reply := Answer(200, WrestlerCreated(r.value.id, r.value.firstName, r.value.lastName));
  }

  // ----- get-wrestlers -----

  /** A nullable text column as a sort key component; NULL sorts last. */
  function TextKey(x: Option<string>): KeyPart {
    if x.Some? then Text(x.value) else Nil
  }

  /** `ORDER BY last_name, first_name`. */
  function NameKey(w: Wrestler): seq<KeyPart> {
    [TextKey(w.lastName), TextKey(w.firstName)]
  }

  function WrestlersOfSchool(ws: seq<Wrestler>, schoolId: nat): seq<Wrestler> {
    Filter(ws, (w: Wrestler) => w.schoolId == schoolId)
  }

  /** `SELECT ... FROM wrestlers WHERE school_id = $1 ORDER BY last_name, first_name`: exactly the
      school's wrestlers, each once, by last and then first name. */
  function SchoolRoster(ws: seq<Wrestler>, schoolId: nat): (r: seq<Wrestler>)
    ensures multiset(r) == multiset(WrestlersOfSchool(ws, schoolId))
    ensures Sorted(r, NameKey)
    ensures forall w :: w in r ==> w in ws && w.schoolId == schoolId
    ensures forall w :: w in ws && w.schoolId == schoolId ==> w in r
  {
    var mine := WrestlersOfSchool(ws, schoolId);
    FilterMembers(ws, (w: Wrestler) => w.schoolId == schoolId);
    forall w ensures w in Sort(mine, NameKey) <==> w in mine {
      SortMembers(mine, NameKey, w);
    }
    Sort(mine, NameKey)
  }

  /** How a template literal renders a nullable text column: NULL becomes "null". */
  function Rendered(x: Option<string>): string {
    x.GetOr("null")
  }

  /** A row as the list returns it, with `name` built from the two name columns. */
  function Item(w: Wrestler): (item: WrestlerItem)
    ensures item.id == w.id && item.firstName == w.firstName && item.lastName == w.lastName
    ensures item.weightClass == w.weightClass && item.sex == w.sex
    ensures w.firstName.Some? && w.lastName.Some? ==> item.name == w.firstName.value + " " + w.lastName.value
  {
    WrestlerItem(w.id, w.firstName, w.lastName, Rendered(w.firstName) + " " + Rendered(w.lastName), w.weightClass, w.sex)
  }

  function Items(rows: seq<Wrestler>): (items: seq<WrestlerItem>)
    ensures |items| == |rows|
    ensures forall i :: 0 <= i < |rows| ==> items[i] == Item(rows[i])
  {
    seq(|rows|, i requires 0 <= i < |rows| => Item(rows[i]))
  }

  /** The list handler; it reads the table and changes nothing. */
  function ListWrestlers(env: Env, authorization: Option<string>, fault: Option<string>, ws: seq<Wrestler>): (reply: Reply)
    ensures VerifyToken(env, authorization).Failure? ==> reply == Error(401, VerifyToken(env, authorization).error)
    ensures VerifyToken(env, authorization).Success? && fault.Some? ==> reply == Error(401, fault.value)
    ensures VerifyToken(env, authorization).Success? && fault.None? ==>
      reply == Answer(200, Roster(Items(SchoolRoster(ws, VerifyToken(env, authorization).value.schoolId))))
  {
    var auth := VerifyToken(env, authorization);
    if auth.Failure? then Error(401, auth.error)
    else if fault.Some? then Error(401, fault.value)
    else Answer(200, Roster(Items(SchoolRoster(ws, auth.value.schoolId))))
  }

  /** Every listed wrestler belongs to the token's school, every wrestler of that school is
      listed, and the list is ordered by last and then first name. */
  lemma ListWrestlersScoped(env: Env, authorization: Option<string>, ws: seq<Wrestler>)
    requires VerifyToken(env, authorization).Success?
    ensures var sid := VerifyToken(env, authorization).value.schoolId;
      var items := ListWrestlers(env, authorization, None, ws).body.wrestlers;
      (forall i :: 0 <= i < |items| ==> exists w :: w in ws && w.schoolId == sid && items[i] == Item(w)) &&
      (forall w :: w in ws && w.schoolId == sid ==> Item(w) in items) &&
      (forall i, j :: 0 <= i < j < |items| ==>
         KeyLe([TextKey(items[i].lastName), TextKey(items[i].firstName)], [TextKey(items[j].lastName), TextKey(items[j].firstName)]))
  {
    var sid := VerifyToken(env, authorization).value.schoolId;
    var rows := SchoolRoster(ws, sid);
    assert ListWrestlers(env, authorization, None, ws).body.wrestlers == Items(rows);
    RosterItems(ws, sid, rows);
  }

  /** The items of a sorted roster of exactly one school's wrestlers. */
  lemma RosterItems(ws: seq<Wrestler>, sid: nat, rows: seq<Wrestler>)
    requires Sorted(rows, NameKey)
    requires forall w :: w in rows ==> w in ws && w.schoolId == sid
    requires forall w :: w in ws && w.schoolId == sid ==> w in rows
    ensures var items := Items(rows);
      (forall i :: 0 <= i < |items| ==> exists w :: w in ws && w.schoolId == sid && items[i] == Item(w)) &&
      (forall w :: w in ws && w.schoolId == sid ==> Item(w) in items) &&
      (forall i, j :: 0 <= i < j < |items| ==>
         KeyLe([TextKey(items[i].lastName), TextKey(items[i].firstName)], [TextKey(items[j].lastName), TextKey(items[j].firstName)]))
  {
    var items := Items(rows);
    forall i | 0 <= i < |items| ensures exists w :: w in ws && w.schoolId == sid && items[i] == Item(w) {
      assert rows[i] in rows;
      assert rows[i] in ws && rows[i].schoolId == sid && items[i] == Item(rows[i]);
    }
    assert forall i :: 0 <= i < |items| ==> exists w :: w in ws && w.schoolId == sid && items[i] == Item(w);
    forall w | w in ws && w.schoolId == sid ensures Item(w) in items {
      var i :| 0 <= i < |rows| && rows[i] == w;
      assert items[i] == Item(w);
    }
    forall i, j | 0 <= i < j < |items|
      ensures KeyLe([TextKey(items[i].lastName), TextKey(items[i].firstName)], [TextKey(items[j].lastName), TextKey(items[j].firstName)])
    {
      assert NameKey(rows[i]) == [TextKey(items[i].lastName), TextKey(items[i].firstName)];
      assert NameKey(rows[j]) == [TextKey(items[j].lastName), TextKey(items[j].firstName)];
    }
  }

  // ----- update-wrestler -----

  /** The body of an update request; every property but `id` is optional. */
  datatype WrestlerPatch = WrestlerPatch(id: Field<int>, firstName: Field<string>, lastName: Field<string>,
                                         weightClass: Field<int>, sex: Field<string>)

  function TextParam(f: Field<string>): SqlValue {
    if f.Given? then SqlText(f.value) else SqlNull
  }

  function IntParam(f: Field<int>): SqlValue {
    if f.Given? then SqlInt(f.value) else SqlNull
  }

  /** The columns the body supplies (any property that is not `undefined`), in the order the
      handler tests them. */
  function SuppliedColumns(p: WrestlerPatch): seq<WrestlerColumn> {
    (if p.firstName.Undefined? then [] else [FirstNameColumn]) +
    (if p.lastName.Undefined? then [] else [LastNameColumn]) +
    (if p.weightClass.Undefined? then [] else [WeightClassColumn]) +
    (if p.sex.Undefined? then [] else [SexColumn])
  }

  /** The value the handler binds for a column. */
  function ParamFor(p: WrestlerPatch, c: WrestlerColumn): (v: SqlValue)
    ensures FitsWrestler(c, v)
  {
    match c
    case FirstNameColumn => TextParam(p.firstName)
    case LastNameColumn => TextParam(p.lastName)
    case WeightClassColumn => IntParam(p.weightClass)
    case SexColumn => TextParam(p.sex)
  }

  /** The intended effect on a row: a supplied field overwrites the column, `null` and `""`
      included; an absent one leaves it; the id and the school never change. */
  function Patched(w: Wrestler, p: WrestlerPatch): Wrestler {
    w.(firstName := if p.firstName.Undefined? then w.firstName else OrNull(p.firstName),
       lastName := if p.lastName.Undefined? then w.lastName else OrNull(p.lastName),
       weightClass := if p.weightClass.Undefined? then w.weightClass else OrNull(p.weightClass),
       sex := if p.sex.Undefined? then w.sex else OrNull(p.sex))
  }

  function Columns(sets: seq<Assignment<WrestlerColumn>>): (cs: seq<WrestlerColumn>)
    ensures |cs| == |sets| && forall i :: 0 <= i < |sets| ==> cs[i] == sets[i].column
  {
    seq(|sets|, i requires 0 <= i < |sets| => sets[i].column)
  }

  /** The row after setting, in order, each of the given columns to the body's value for it. */
  function PatchColumns(w: Wrestler, p: WrestlerPatch, cs: seq<WrestlerColumn>): Wrestler
    decreases |cs|
  {
    if cs == [] then w else PatchColumns(SetWrestlerColumn(w, cs[0], ParamFor(p, cs[0])), p, cs[1..])
  }

  /** A SET clause whose every placeholder is bound to the body's value for its column does
      what setting those columns one by one does. */
  lemma {:induction false} ApplyIsPatch(w: Wrestler, p: WrestlerPatch, sets: seq<Assignment<WrestlerColumn>>, params: seq<SqlValue>)
    requires WrestlerSetsBound(sets, params)
    requires forall i :: 0 <= i < |sets| ==> params[sets[i].placeholder - 1] == ParamFor(p, sets[i].column)
    ensures ApplyWrestlerSets(w, sets, params) == PatchColumns(w, p, Columns(sets))
    decreases |sets|
  {
    if sets != [] {
      var w' := SetWrestlerColumn(w, sets[0].column, params[sets[0].placeholder - 1]);
      assert WrestlerSetsBound(sets[1..], params);
      ApplyIsPatch(w', p, sets[1..], params);
      assert Columns(sets)[1..] == Columns(sets[1..]);
    }
  }

  /** Setting a list of columns to the body's values leaves each column either at its old
      value or at the body's value, according to whether it is in the list. */
  lemma {:induction false} PatchColumnsFields(w: Wrestler, p: WrestlerPatch, cs: seq<WrestlerColumn>)
    ensures PatchColumns(w, p, cs) ==
      w.(firstName := if FirstNameColumn in cs then TextOf(TextParam(p.firstName)) else w.firstName,
         lastName := if LastNameColumn in cs then TextOf(TextParam(p.lastName)) else w.lastName,
         weightClass := if WeightClassColumn in cs then IntOf(IntParam(p.weightClass)) else w.weightClass,
         sex := if SexColumn in cs then TextOf(TextParam(p.sex)) else w.sex)
    decreases |cs|
  {
    if cs != [] {
      PatchColumnsFields(SetWrestlerColumn(w, cs[0], ParamFor(p, cs[0])), p, cs[1..]);
      assert forall c :: c in cs <==> c == cs[0] || c in cs[1..];
    }
  }

  /** Setting exactly the supplied columns gives the intended row. */
  lemma PatchSupplied(w: Wrestler, p: WrestlerPatch)
    ensures PatchColumns(w, p, SuppliedColumns(p)) == Patched(w, p)
  {
    PatchColumnsFields(w, p, SuppliedColumns(p));
    SuppliedMembers(p);
  }

  lemma SuppliedMembers(p: WrestlerPatch)
    ensures FirstNameColumn in SuppliedColumns(p) <==> !p.firstName.Undefined?
    ensures LastNameColumn in SuppliedColumns(p) <==> !p.lastName.Undefined?
    ensures WeightClassColumn in SuppliedColumns(p) <==> !p.weightClass.Undefined?
    ensures SexColumn in SuppliedColumns(p) <==> !p.sex.Undefined?
  {
  }

  /** The clause so far numbers its placeholders $1, $2, ... in order, binds each to the body's
      value for its column, and `idx` is the next placeholder. */
  predicate Numbered(p: WrestlerPatch, sets: seq<Assignment<WrestlerColumn>>, params: seq<SqlValue>, idx: nat) {
    |params| == |sets| && idx == |sets| + 1 &&
    (forall i :: 0 <= i < |sets| ==> sets[i].placeholder == i + 1 && params[i] == ParamFor(p, sets[i].column))
  }

  /** One `if (... !== undefined)` test that passes: append `column = $idx`, bind the value,
      advance `idx`. */
  lemma NumberedStep(p: WrestlerPatch, sets: seq<Assignment<WrestlerColumn>>, params: seq<SqlValue>, idx: nat, c: WrestlerColumn)
    requires Numbered(p, sets, params, idx)
    ensures Numbered(p, sets + [Assign(c, idx)], params + [ParamFor(p, c)], idx + 1)
    ensures Columns(sets + [Assign(c, idx)]) == Columns(sets) + [c]
  {
  }

  predicate Distinct(cs: seq<WrestlerColumn>) {
    forall i, j :: 0 <= i < j < |cs| ==> cs[i] != cs[j]
  }

  lemma SuppliedDistinct(p: WrestlerPatch)
    ensures Distinct(SuppliedColumns(p))
  {
  }

  /** A numbered clause over distinct columns binds every placeholder to a value its column takes. */
  lemma NumberedBound(p: WrestlerPatch, sets: seq<Assignment<WrestlerColumn>>, params: seq<SqlValue>, idx: nat, extra: seq<SqlValue>)
    requires Numbered(p, sets, params, idx) && Distinct(Columns(sets))
    ensures WrestlerSetsBound(sets, params + extra)
    ensures forall i :: 0 <= i < |sets| ==> (params + extra)[sets[i].placeholder - 1] == ParamFor(p, sets[i].column)
  {
    forall i | 0 <= i < |sets| ensures FitsWrestler(sets[i].column, (params + extra)[sets[i].placeholder - 1]) {
      assert (params + extra)[i] == params[i];
    }
  }

  /** Builds the SET clause and its parameters with a running placeholder counter. With k
      supplied fields the clause uses $1..$k in field order, and `idx` ends at k + 1, the
      placeholder of the id; applying the clause to a row gives the intended row. */
  method BuildWrestlerUpdate(p: WrestlerPatch) returns (sets: seq<Assignment<WrestlerColumn>>, params: seq<SqlValue>, idx: nat)
    ensures Numbered(p, sets, params, idx)
    ensures Columns(sets) == SuppliedColumns(p)
  {
    sets, params, idx := [], [], 1;
    // The column lists each test contributes.
    ghost var first := if p.firstName.Undefined? then [] else [FirstNameColumn];
    ghost var last := if p.lastName.Undefined? then [] else [LastNameColumn];
    ghost var weightClass := if p.weightClass.Undefined? then [] else [WeightClassColumn];
    if !p.firstName.Undefined? {
      NumberedStep(p, sets, params, idx, FirstNameColumn);
      sets, params, idx := sets + [Assign(FirstNameColumn, idx)], params + [ParamFor(p, FirstNameColumn)], idx + 1;
    }
    assert Numbered(p, sets, params, idx) && Columns(sets) == first;
    if !p.lastName.Undefined? {
      NumberedStep(p, sets, params, idx, LastNameColumn);
      sets, params, idx := sets + [Assign(LastNameColumn, idx)], params + [ParamFor(p, LastNameColumn)], idx + 1;
    }
    assert Numbered(p, sets, params, idx) && Columns(sets) == first + last;
    if !p.weightClass.Undefined? {
      NumberedStep(p, sets, params, idx, WeightClassColumn);
      sets, params, idx := sets + [Assign(WeightClassColumn, idx)], params + [ParamFor(p, WeightClassColumn)], idx + 1;
    }
    assert Numbered(p, sets, params, idx) && Columns(sets) == first + last + weightClass;
    if !p.sex.Undefined? {
      NumberedStep(p, sets, params, idx, SexColumn);
      sets, params, idx := sets + [Assign(SexColumn, idx)], params + [ParamFor(p, SexColumn)], idx + 1;
    }
    assert Numbered(p, sets, params, idx) && Columns(sets) == SuppliedColumns(p);
  }

  /** A numbered clause over exactly the supplied columns is well bound for any further
      parameters and does what the patch intends. */
  lemma ClauseFacts(p: WrestlerPatch, sets: seq<Assignment<WrestlerColumn>>, params: seq<SqlValue>, idx: nat)
    requires Numbered(p, sets, params, idx) && Columns(sets) == SuppliedColumns(p)
    ensures forall extra :: WrestlerSetsBound(sets, params + extra)
    ensures forall extra, w :: ApplyWrestlerSets(w, sets, params + extra) == Patched(w, p)
  {
    SuppliedDistinct(p);
    forall extra ensures WrestlerSetsBound(sets, params + extra) {
      NumberedBound(p, sets, params, idx, extra);
    }
    forall extra, w ensures ApplyWrestlerSets(w, sets, params + extra) == Patched(w, p) {
      NumberedBound(p, sets, params, idx, extra);
      ApplyIsPatch(w, p, sets, params + extra);
      PatchSupplied(w, p);
    }
  }

  /** The table after the update, stated against the intended row change: the row with the
      id gets the patch, every other row is left as it was. */
  function PatchRows(ws: seq<Wrestler>, id: int, p: WrestlerPatch): (r: seq<Wrestler>)
    ensures |r| == |ws|
    ensures forall i :: 0 <= i < |ws| ==> r[i] == if ws[i].id == id then Patched(ws[i], p) else ws[i]
  {
    if ws == [] then [] else [if ws[0].id == id then Patched(ws[0], p) else ws[0]] + PatchRows(ws[1..], id, p)
  }

  /** The first row with the given id. */
  function FindWrestler(ws: seq<Wrestler>, id: int): (r: Option<Wrestler>)
    ensures r.Some? ==> r.value in ws && r.value.id == id
    ensures r.None? <==> !HasWrestler(ws, id)
  {
    if ws == [] then None
    else if ws[0].id == id then Some(ws[0])
    else
      assert forall w :: w in ws[1..] ==> w in ws;
      assert forall w :: w in ws && w != ws[0] ==> w in ws[1..];
      FindWrestler(ws[1..], id)
  }

  /** What `RETURNING` yields after the patch: nothing when no row has the id, otherwise the
      patched first row with it first. */
  lemma {:induction false} ReturnedRow(ws: seq<Wrestler>, id: int, p: WrestlerPatch)
    ensures var rows := WrestlersWithId(PatchRows(ws, id, p), id);
      (rows == [] <==> FindWrestler(ws, id).None?) &&
      (rows != [] ==> rows[0] == Patched(FindWrestler(ws, id).value, p))
  {
    if ws != [] {
      ReturnedRow(ws[1..], id, p);
      var r := PatchRows(ws, id, p);
      assert r[1..] == PatchRows(ws[1..], id, p);
      assert r == [r[0]] + r[1..];
    }
  }

  /** The UPDATE statement with a clause that does what the patch intends changes the table as
      the patch does. */
  lemma UpdateIsPatch(ws: seq<Wrestler>, id: int, sets: seq<Assignment<WrestlerColumn>>, params: seq<SqlValue>,
                      extra: seq<SqlValue>, p: WrestlerPatch)
    requires forall extra :: WrestlerSetsBound(sets, params + extra)
    requires forall extra, w :: ApplyWrestlerSets(w, sets, params + extra) == Patched(w, p)
    ensures WrestlerSetsBound(sets, params + extra)
    ensures UpdateWrestlerRows(ws, id, sets, params + extra) == PatchRows(ws, id, p)
  {
    assert WrestlerSetsBound(sets, params + extra);
    var u, v := UpdateWrestlerRows(ws, id, sets, params + extra), PatchRows(ws, id, p);
    forall i | 0 <= i < |ws| ensures u[i] == v[i] {
      assert ApplyWrestlerSets(ws[i], sets, params + extra) == Patched(ws[i], p);
    }
  }

  /** Checks the token, the id and that something is supplied, then updates the row with that
      id, whichever school it belongs to. */
  method UpdateWrestler(db: Database, env: Env, authorization: Option<string>, body: Parsed<WrestlerPatch>, fault: Option<string>)
    returns (reply: Reply)
    requires db.Valid()
    modifies db
    ensures db.Valid()
    ensures var auth := VerifyToken(env, authorization);
      if auth.Failure? then reply == Error(401, auth.error) && unchanged(db)
      else if body.Malformed? then reply == Error(401, body.message) && unchanged(db)
      else if !TruthyNum(body.fields.id) then reply == Error(400, MissingId) && unchanged(db)
      else if SuppliedColumns(body.fields) == [] then reply == Error(400, NothingToUpdate) && unchanged(db)
      else if fault.Some? then reply == Error(401, fault.value) && unchanged(db)
      else
        var id := body.fields.id.value;
        db.wrestlers == PatchRows(old(db.wrestlers), id, body.fields) &&
        db.schools == old(db.schools) && db.weights == old(db.weights) &&
        reply == match FindWrestler(old(db.wrestlers), id)
                 case None => Error(401, NoRowReturned)
                 case Some(w) =>
                   var u := Patched(w, body.fields);
                   Answer(200, WrestlerUpdated(u.id, u.firstName, u.lastName, u.weightClass, u.sex))
  {
    var auth := VerifyToken(env, authorization);
    if auth.Failure? {
      return Error(401, auth.error);
    }
    if body.Malformed? {
      return Error(401, body.message);
    }
    var p := body.fields;
    if !TruthyNum(p.id) {
      return Error(400, MissingId);
    }
    var sets, params, idx := BuildWrestlerUpdate(p);
    if |sets| == 0 {
      return Error(400, NothingToUpdate);
    }
    if fault.Some? {
      return Error(401, fault.value);
    }
    var before := db.wrestlers;
    ClauseFacts(p, sets, params, idx);
    UpdateIsPatch(before, p.id.value, sets, params, [SqlInt(p.id.value)], p);
    params := params + [SqlInt(p.id.value)];
    var rows := db.UpdateWrestlers(sets, params, idx);
    ReturnedRow(before, p.id.value, p);
    if |rows| == 0 {
      return Error(401, NoRowReturned);
    }
    var r := rows[0];
    reply := Answer(200, WrestlerUpdated(r.id, r.firstName, r.lastName, r.weightClass, r.sex));
  }

  // ----- delete-wrestler -----

  /** The body of a delete request. */
  datatype WrestlerRef = WrestlerRef(id: Field<int>)

  /** Checks the token and the id, then deletes the wrestler's weights and then the wrestler,
      whichever school it belongs to. */
  method DeleteWrestler(db: Database, env: Env, authorization: Option<string>, body: Parsed<WrestlerRef>, fault: Option<string>)
    returns (reply: Reply)
    requires db.Valid()
    modifies db
    ensures db.Valid()
    ensures var auth := VerifyToken(env, authorization);
      if auth.Failure? then reply == Error(401, auth.error) && unchanged(db)
      else if body.Malformed? then reply == Error(401, body.message) && unchanged(db)
      else if !TruthyNum(body.fields.id) then reply == Error(400, MissingId) && unchanged(db)
      else if fault.Some? then reply == Error(401, fault.value) && unchanged(db)
      else
        var id := body.fields.id.value;
        reply == Answer(200, SuccessJson) &&
        db.weights == WeightsNotOf(old(db.weights), id) &&
        db.wrestlers == WrestlersExcept(old(db.wrestlers), id) &&
        db.schools == old(db.schools) &&
        !HasWrestler(db.wrestlers, id) && (forall wt :: wt in db.weights ==> wt.wrestlerId != id) &&
        (forall w :: w in old(db.wrestlers) && w.id != id ==> w in db.wrestlers) &&
        (forall wt :: wt in old(db.weights) && wt.wrestlerId != id ==> wt in db.weights)
  {
    var auth := VerifyToken(env, authorization);
    if auth.Failure? {
      return Error(401, auth.error);
    }
    if body.Malformed? {
      return Error(401, body.message);
    }
    if !TruthyNum(body.fields.id) {
      return Error(400, MissingId);
    }
    if fault.Some? {
      return Error(401, fault.value);
    }
    var id := body.fields.id.value;
    ghost var ws0, wts0 := db.wrestlers, db.weights;
    db.DeleteWeightsOfWrestler(id);
    FilterMembers(wts0, (wt: Weight) => wt.wrestlerId != id);
    // no weight is left that references the wrestler, so its row may go
    db.DeleteWrestler(id);
    FilterMembers(ws0, (w: Wrestler) => w.id != id);
    reply := Answer(200, SuccessJson);
  }

  /** Deleting an id that no wrestler has changes neither table: the delete is idempotent. */
  lemma DeleteAbsentChangesNothing(schools: seq<School>, ws: seq<Wrestler>, wts: seq<Weight>, id: int)
    requires Schema.Valid(schools, ws, wts)
    requires !HasWrestler(ws, id)
    ensures WrestlersExcept(ws, id) == ws
    ensures WeightsNotOf(wts, id) == wts
  {
    FilterAll(ws, (w: Wrestler) => w.id != id);
    forall i | 0 <= i < |wts| ensures wts[i].wrestlerId != id {
      assert wts[i] in wts;
    }
    FilterAll(wts, (wt: Weight) => wt.wrestlerId != id);
  }

  /** Running the delete a second time leaves the tables as the first run left them. */
  lemma DeleteTwice(ws: seq<Wrestler>, wts: seq<Weight>, id: int)
    ensures WrestlersExcept(WrestlersExcept(ws, id), id) == WrestlersExcept(ws, id)
    ensures WeightsNotOf(WeightsNotOf(wts, id), id) == WeightsNotOf(wts, id)
  {
    FilterAll(WrestlersExcept(ws, id), (w: Wrestler) => w.id != id);
    FilterAll(WeightsNotOf(wts, id), (wt: Weight) => wt.wrestlerId != id);
  }
}
