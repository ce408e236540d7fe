/** The three tables of the PostgreSQL database, their integrity constraints, and the pure
    meaning of the SQL statements the handlers issue against them. */
module Schema {
  import opened Wrappers
  import opened Seqs

  /** A row of `schools`. `name`, `login_code` and the colours are nullable; `password_hash` is
      always written by the handlers that create or update a school. */
  datatype School = School(
    id: nat,
    name: Option<string>,
    loginCode: Option<string>,
    passwordHash: string,
    primaryColor: Option<string>,
    secondaryColor: Option<string>)

  /** A row of `wrestlers`; `school_id` references `schools.id`. */
  datatype Wrestler = Wrestler(
    id: nat,
    schoolId: nat,
    firstName: Option<string>,
    lastName: Option<string>,
    weightClass: Option<int>,
    sex: Option<string>)

  /** A row of `weights`; `wrestler_id` references `wrestlers.id`. The weight is a number the
      handler checked to be non-zero. */
  datatype Weight = Weight(
    id: nat,
    wrestlerId: nat,
    date: Option<string>,
    weight: int,
    kind: Option<string>)

  predicate HasSchool(schools: seq<School>, id: int) {
    exists s :: s in schools && s.id == id
  }

  predicate HasWrestler(wrestlers: seq<Wrestler>, id: int) {
    exists w :: w in wrestlers && w.id == id
  }

  /** The wrestler with id `wrestlerId` exists and belongs to school `schoolId`. */
  predicate InSchool(wrestlers: seq<Wrestler>, wrestlerId: int, schoolId: int) {
    exists w :: w in wrestlers && w.id == wrestlerId && w.schoolId == schoolId
  }

  predicate HasLoginCode(schools: seq<School>, code: string) {
    exists s :: s in schools && s.loginCode == Some(code)
  }

  /** The primary keys, the unique `login_code` (NULLs never collide) and both foreign keys. */
  predicate Valid(schools: seq<School>, wrestlers: seq<Wrestler>, weights: seq<Weight>) {
    (forall i, j :: 0 <= i < j < |schools| ==> schools[i].id != schools[j].id) &&
    (forall i, j :: 0 <= i < j < |schools| && schools[i].loginCode.Some? ==>
       schools[i].loginCode != schools[j].loginCode) &&
    (forall i, j :: 0 <= i < j < |wrestlers| ==> wrestlers[i].id != wrestlers[j].id) &&
    (forall i, j :: 0 <= i < j < |weights| ==> weights[i].id != weights[j].id) &&
    (forall w :: w in wrestlers ==> HasSchool(schools, w.schoolId)) &&
    (forall wt :: wt in weights ==> HasWrestler(wrestlers, wt.wrestlerId))
  }

  // ----- Row filters: what survives each DELETE statement -----

  /** `DELETE FROM weights WHERE wrestler_id = $1` keeps these rows. */
  function WeightsNotOf(weights: seq<Weight>, wrestlerId: int): seq<Weight> {
    Filter(weights, (w: Weight) => w.wrestlerId != wrestlerId)
  }

  /** `DELETE FROM wrestlers WHERE id = $1` keeps these rows. */
  function WrestlersExcept(wrestlers: seq<Wrestler>, id: int): seq<Wrestler> {
    Filter(wrestlers, (w: Wrestler) => w.id != id)
  }

  /** SQL equality against a parameter that may be NULL: `x = NULL` is never true. */
  predicate Matches(x: int, param: Option<int>) {
    param == Some(x)
  }

  /** `DELETE FROM weights WHERE wrestler_id IN (SELECT id FROM wrestlers WHERE school_id = $1)`
      keeps these rows. */
  function WeightsOutside(weights: seq<Weight>, wrestlers: seq<Wrestler>, schoolId: Option<int>): seq<Weight> {
    Filter(weights, (w: Weight) => !(schoolId.Some? && InSchool(wrestlers, w.wrestlerId, schoolId.value)))
  }

  /** `DELETE FROM wrestlers WHERE school_id = $1` keeps these rows. */
  function WrestlersOutside(wrestlers: seq<Wrestler>, schoolId: Option<int>): seq<Wrestler> {
    Filter(wrestlers, (w: Wrestler) => !Matches(w.schoolId, schoolId))
  }

  /** `DELETE FROM schools WHERE id = $1` keeps these rows. */
  function SchoolsExcept(schools: seq<School>, id: Option<int>): seq<School> {
    Filter(schools, (s: School) => !Matches(s.id, id))
  }

  /** A key that is unique in a table stays unique in any filtered copy of it. */
  lemma {:induction false} FilterDistinct<T>(s: seq<T>, p: T -> bool, f: T -> int)
    requires forall i, j :: 0 <= i < j < |s| ==> f(s[i]) != f(s[j])
    ensures forall i, j :: 0 <= i < j < |Filter(s, p)| ==> f(Filter(s, p)[i]) != f(Filter(s, p)[j])
  {
    if s != [] {
      var tail := s[1..];
      FilterDistinct(tail, p, f);
      FilterMembers(tail, p);
      var rest := Filter(tail, p);
      if p(s[0]) {
        forall k | 0 <= k < |rest| ensures f(s[0]) != f(rest[k]) {
          assert rest[k] in rest;
          assert rest[k] in tail;
          var m :| 0 <= m < |tail| && tail[m] == rest[k];
          assert s[m + 1] == rest[k];
        }
        assert Filter(s, p) == [s[0]] + rest;
      } else {
        assert Filter(s, p) == rest;
      }
    }
  }

  /** Rewriting wrestler rows in place without touching their keys keeps the constraints. */
  lemma SameKeysWrestlers(schools: seq<School>, before: seq<Wrestler>, after: seq<Wrestler>, weights: seq<Weight>)
    requires Valid(schools, before, weights)
    requires |after| == |before|
    requires forall i :: 0 <= i < |before| ==> after[i].id == before[i].id && after[i].schoolId == before[i].schoolId
    ensures Valid(schools, after, weights)
  {
    forall w | w in after ensures HasSchool(schools, w.schoolId) {
      var i :| 0 <= i < |after| && after[i] == w;
      assert before[i] in before;
    }
    forall wt | wt in weights ensures HasWrestler(after, wt.wrestlerId) {
      var w :| w in before && w.id == wt.wrestlerId;
      var i :| 0 <= i < |before| && before[i] == w;
      assert after[i] in after;
    }
  }

  /** Rewriting school rows in place without touching their ids or login codes keeps the constraints. */
  lemma SameKeysSchools(before: seq<School>, after: seq<School>, wrestlers: seq<Wrestler>, weights: seq<Weight>)
    requires Valid(before, wrestlers, weights)
    requires |after| == |before|
    requires forall i :: 0 <= i < |before| ==> after[i].id == before[i].id && after[i].loginCode == before[i].loginCode
    ensures Valid(after, wrestlers, weights)
  {
    forall w | w in wrestlers ensures HasSchool(after, w.schoolId) {
      var s :| s in before && s.id == w.schoolId;
      var i :| 0 <= i < |before| && before[i] == s;
      assert after[i] in after;
    }
  }

  // ----- UPDATE statements: `SET column = $k, ...` interpreted over bound parameters -----

  /** A value bound to a placeholder. */
  datatype SqlValue = SqlNull | SqlText(text: string) | SqlInt(n: int)

  /** `column = $placeholder` in a SET clause (placeholders are numbered from 1). */
  datatype Assignment<C> = Assign(column: C, placeholder: nat)

  datatype WrestlerColumn = FirstNameColumn | LastNameColumn | WeightClassColumn | SexColumn

  datatype SchoolColumn = NameColumn | PrimaryColorColumn | SecondaryColorColumn | PasswordHashColumn

  /** `weight_class` takes integers or NULL; the name and sex columns take text or NULL. */
  predicate FitsWrestler(c: WrestlerColumn, v: SqlValue) {
    if c == WeightClassColumn then !v.SqlText? else !v.SqlInt?
  }

  /** `password_hash` takes text only; the other school columns take text or NULL. */
  predicate FitsSchool(c: SchoolColumn, v: SqlValue) {
    if c == PasswordHashColumn then v.SqlText? else !v.SqlInt?
  }

  function TextOf(v: SqlValue): Option<string> {
    if v.SqlText? then Some(v.text) else None
  }

  function IntOf(v: SqlValue): Option<int> {
    if v.SqlInt? then Some(v.n) else None
  }

  function SetWrestlerColumn(w: Wrestler, c: WrestlerColumn, v: SqlValue): Wrestler {
    match c
    case FirstNameColumn => w.(firstName := TextOf(v))
    case LastNameColumn => w.(lastName := TextOf(v))
    case WeightClassColumn => w.(weightClass := IntOf(v))
    case SexColumn => w.(sex := TextOf(v))
  }

  function SetSchoolColumn(s: School, c: SchoolColumn, v: SqlValue): School {
    match c
    case NameColumn => s.(name := TextOf(v))
    case PrimaryColorColumn => s.(primaryColor := TextOf(v))
    case SecondaryColorColumn => s.(secondaryColor := TextOf(v))
    case PasswordHashColumn => s.(passwordHash := TextOf(v).GetOr(s.passwordHash))
  }

  /** Every placeholder of the SET clause is bound, to a value its column accepts, and no column
      is assigned twice (PostgreSQL rejects a repeated column). */
  predicate WrestlerSetsBound(sets: seq<Assignment<WrestlerColumn>>, params: seq<SqlValue>) {
    (forall i :: 0 <= i < |sets| ==>
       1 <= sets[i].placeholder <= |params| && FitsWrestler(sets[i].column, params[sets[i].placeholder - 1])) &&
    (forall i, j :: 0 <= i < j < |sets| ==> sets[i].column != sets[j].column)
  }

  predicate SchoolSetsBound(sets: seq<Assignment<SchoolColumn>>, params: seq<SqlValue>) {
    (forall i :: 0 <= i < |sets| ==>
       1 <= sets[i].placeholder <= |params| && FitsSchool(sets[i].column, params[sets[i].placeholder - 1])) &&
    (forall i, j :: 0 <= i < j < |sets| ==> sets[i].column != sets[j].column)
  }

  /** The row after its SET clause; the key and the foreign key are not assignable. */
  function ApplyWrestlerSets(w: Wrestler, sets: seq<Assignment<WrestlerColumn>>, params: seq<SqlValue>): (r: Wrestler)
    requires WrestlerSetsBound(sets, params)
    ensures r.id == w.id && r.schoolId == w.schoolId
    decreases |sets|
  {
    if sets == [] then w
    else ApplyWrestlerSets(SetWrestlerColumn(w, sets[0].column, params[sets[0].placeholder - 1]), sets[1..], params)
  }

  /** The row after its SET clause; `id` and `login_code` are not assignable. */
  function ApplySchoolSets(s: School, sets: seq<Assignment<SchoolColumn>>, params: seq<SqlValue>): (r: School)
    requires SchoolSetsBound(sets, params)
    ensures r.id == s.id && r.loginCode == s.loginCode
    decreases |sets|
  {
    if sets == [] then s
    else ApplySchoolSets(SetSchoolColumn(s, sets[0].column, params[sets[0].placeholder - 1]), sets[1..], params)
  }

  /** `UPDATE wrestlers SET ... WHERE id = $k`: the rows with that id, and only they, get the SET clause. */
  function UpdateWrestlerRows(ws: seq<Wrestler>, id: int, sets: seq<Assignment<WrestlerColumn>>, params: seq<SqlValue>): (r: seq<Wrestler>)
    requires WrestlerSetsBound(sets, params)
    ensures |r| == |ws|
    ensures forall i :: 0 <= i < |ws| ==>
      r[i] == if ws[i].id == id then ApplyWrestlerSets(ws[i], sets, params) else ws[i]
  {
    seq(|ws|, i requires 0 <= i < |ws| => if ws[i].id == id then ApplyWrestlerSets(ws[i], sets, params) else ws[i])
  }

  /** `UPDATE schools SET ... WHERE id = $k`. */
  function UpdateSchoolRows(ss: seq<School>, id: int, sets: seq<Assignment<SchoolColumn>>, params: seq<SqlValue>): (r: seq<School>)
    requires SchoolSetsBound(sets, params)
    ensures |r| == |ss|
    ensures forall i :: 0 <= i < |ss| ==>
      r[i] == if ss[i].id == id then ApplySchoolSets(ss[i], sets, params) else ss[i]
  {
    seq(|ss|, i requires 0 <= i < |ss| => if ss[i].id == id then ApplySchoolSets(ss[i], sets, params) else ss[i])
  }

  /** The rows a `RETURNING` clause yields for `WHERE id = $k`. */
  function WrestlersWithId(ws: seq<Wrestler>, id: int): seq<Wrestler> {
    Filter(ws, (w: Wrestler) => w.id == id)
  }

  function SchoolsWithId(ss: seq<School>, id: int): seq<School> {
    Filter(ss, (s: School) => s.id == id)
  }
}
