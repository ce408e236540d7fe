/** The administrator endpoints. Every one is gated by the fixed token "MASTER_ADMIN" sent in
    the body: create a school (in a JSON and a plain-text variant), list the schools, and delete
    a school with everything that belongs to it. */
module Admin {
  import opened Wrappers
  import opened Seqs
  import opened Order
  import opened Requests
  import opened Schema
  import opened Store
  import opened Auth
  import opened Http
  import Login

  const MasterToken: string := "MASTER_ADMIN"
  const Unauthorized: string := "Unauthorized"
  const SchoolCreatedText: string := "School created"
  const SchoolDeletedText: string := "School deleted"

  /** The gate: the body's `token` is exactly the administrator token. */
  predicate Admitted(token: Field<string>) {
    token == Given(MasterToken)
  }

  /** `bcrypt.hash(password, 10)`: the hash of a string; any other value makes the promise
      reject with bcryptjs's "Illegal arguments" message naming the value's type. */
  function HashOf(env: Env, password: Field<string>): (r: Result<string>)
    ensures r.Success? <==> password.Given?
    ensures password.Given? ==> r.value == env.hash(password.value)
  {
    match password
    case Given(p) => Success(env.hash(p))
    case Undefined => Failure("Illegal arguments: undefined, number")
    case Null => Failure("Illegal arguments: object, number")
  }

  // ----- create-school (JSON responses) -----

  datatype NewSchool = NewSchool(token: Field<string>, name: Field<string>, loginCode: Field<string>, password: Field<string>)

  /** The row an admitted request adds: the given name and code, the hash of the password, no
      colours. */
  function NewRow(db: Database, env: Env, b: NewSchool): School
    reads db
    requires b.password.Given?
  {
    School(db.nextSchoolId, OrNull(b.name), OrNull(b.loginCode), env.hash(b.password.value), None, None)
  }

  /** The body is parsed and the password hashed outside the `try`, so a bad body or a password
      that is not a string escapes the handler; errors of the store are caught and answered
      with 500. A token other than the administrator's is refused before anything is hashed. */
  method CreateSchool(db: Database, env: Env, body: Parsed<NewSchool>, fault: Option<string>) returns (reply: Reply)
    requires db.Valid()
    modifies db
    ensures db.Valid()
    ensures
      if body.Malformed? then reply == Thrown(body.message) && unchanged(db)
      else if !Admitted(body.fields.token) then reply == Error(401, Unauthorized) && unchanged(db)
      else if HashOf(env, body.fields.password).Failure? then
        reply == Thrown(HashOf(env, body.fields.password).error) && unchanged(db)
      else if fault.Some? then reply == Error(500, fault.value) && unchanged(db)
      else if OrNull(body.fields.loginCode).Some? && HasLoginCode(old(db.schools), body.fields.loginCode.value) then
        reply == Error(500, DuplicateLoginCode) && unchanged(db)
      else
        reply == Answer(200, SchoolCreated) &&
        db.schools == old(db.schools) + [old(NewRow(db, env, body.fields))] &&
        !HasSchool(old(db.schools), old(db.nextSchoolId)) &&
        db.wrestlers == old(db.wrestlers) && db.weights == old(db.weights)
  {
    if body.Malformed? {
      return Thrown(body.message);
    }
    var b := body.fields;
    if !Admitted(b.token) {
      return Error(401, Unauthorized);
    }
    var hashed := HashOf(env, b.password);
    if hashed.Failure? {
      return Thrown(hashed.error);
    }
    if fault.Some? {
      return Error(500, fault.value);
    }
    var r := db.InsertSchool(OrNull(b.name), OrNull(b.loginCode), hashed.value);
    if r.Failure? {
      return Error(500, r.error);
    }
    reply := Answer(200, SchoolCreated);
  }

  // ----- admin/create-school (plain-text responses) -----

  /** The same gate, hash and insert, answered in plain text. There is no `catch`: a failure of
      the store escapes the handler as well. */
  method CreateSchoolPlain(db: Database, env: Env, body: Parsed<NewSchool>, fault: Option<string>) returns (reply: Reply)
    requires db.Valid()
    modifies db
    ensures db.Valid()
    ensures
      if body.Malformed? then reply == Thrown(body.message) && unchanged(db)
      else if !Admitted(body.fields.token) then reply == Answer(401, PlainText(Unauthorized)) && unchanged(db)
      else if HashOf(env, body.fields.password).Failure? then
        reply == Thrown(HashOf(env, body.fields.password).error) && unchanged(db)
      else if fault.Some? then reply == Thrown(fault.value) && unchanged(db)
      else if OrNull(body.fields.loginCode).Some? && HasLoginCode(old(db.schools), body.fields.loginCode.value) then
        reply == Thrown(DuplicateLoginCode) && unchanged(db)
      else
        reply == Answer(200, PlainText(SchoolCreatedText)) &&
        db.schools == old(db.schools) + [old(NewRow(db, env, body.fields))] &&
        !HasSchool(old(db.schools), old(db.nextSchoolId)) &&
        db.wrestlers == old(db.wrestlers) && db.weights == old(db.weights)
  {
    if body.Malformed? {
      return Thrown(body.message);
    }
    var b := body.fields;
    if !Admitted(b.token) {
      return Answer(401, PlainText(Unauthorized));
    }
    var hashed := HashOf(env, b.password);
    if hashed.Failure? {
      return Thrown(hashed.error);
    }
    if fault.Some? {
      return Thrown(fault.value);
    }
    var r := db.InsertSchool(OrNull(b.name), OrNull(b.loginCode), hashed.value);
    if r.Failure? {
      return Thrown(r.error);
    }
    reply := Answer(200, PlainText(SchoolCreatedText));
  }

  /** A school created with a fresh code is the one the login handler finds by that code, so
      logging in with the password it was created with is decided by `compare(p, hash(p))`. */
  lemma {:induction false} CreatedSchoolFound(schools: seq<School>, row: School, code: string)
    requires !HasLoginCode(schools, code) && row.loginCode == Some(code)
    ensures Login.FindByCode(schools + [row], code) == Some(row)
  {
    if schools == [] {
      assert schools + [row] == [row];
    } else {
      assert schools[0] in schools;
      assert (schools + [row])[1..] == schools[1..] + [row];
      assert !HasLoginCode(schools[1..], code) by {
        forall s | s in schools[1..] ensures s.loginCode != Some(code) {
          assert s in schools;
        }
      }
      CreatedSchoolFound(schools[1..], row, code);
    }
  }

  // ----- list-schools -----

  datatype AdminRequest = AdminRequest(token: Field<string>)

  /** `ORDER BY name ASC`: NULL names last. */
  function NameKey(s: School): seq<KeyPart> {
    [if s.name.Some? then Text(s.name.value) else Nil]
  }

  /** `SELECT id, name, login_code, primary_color, secondary_color`: no password hash. */
  function Listing(s: School): (l: SchoolListing)
    ensures l.id == s.id && l.name == s.name && l.loginCode == s.loginCode
    ensures l.primaryColor == s.primaryColor && l.secondaryColor == s.secondaryColor
  {
    SchoolListing(s.id, s.name, s.loginCode, s.primaryColor, s.secondaryColor)
  }

  function Listings(ss: seq<School>): (ls: seq<SchoolListing>)
    ensures |ls| == |ss| && forall i :: 0 <= i < |ss| ==> ls[i] == Listing(ss[i])
  {
    seq(|ss|, i requires 0 <= i < |ss| => Listing(ss[i]))
  }

  /** The parse is inside the `try` here, so every failure is answered with 500. */
  function ListSchools(body: Parsed<AdminRequest>, fault: Option<string>, schools: seq<School>): (reply: Reply)
    ensures body.Malformed? ==> reply == Error(500, body.message)
    ensures body.Body? && !Admitted(body.fields.token) ==> reply == Error(401, Unauthorized)
    ensures body.Body? && Admitted(body.fields.token) && fault.Some? ==> reply == Error(500, fault.value)
    ensures body.Body? && Admitted(body.fields.token) && fault.None? ==> reply == Answer(200, SchoolList(Listings(Sort(schools, NameKey))))
  {
    if body.Malformed? then Error(500, body.message)
    else if !Admitted(body.fields.token) then Error(401, Unauthorized)
    else if fault.Some? then Error(500, fault.value)
    else Answer(200, SchoolList(Listings(Sort(schools, NameKey))))
  }

  /** Two positions of a permutation of a table with distinct ids hold different ids. */
  lemma PermutedIdsDistinct(ss: seq<School>, r: seq<School>, i: nat, j: nat)
    requires forall a, b :: 0 <= a < b < |ss| ==> ss[a].id != ss[b].id
    requires multiset(r) == multiset(ss)
    requires i < j < |r|
    ensures r[i].id != r[j].id
  {
    forall a, b | 0 <= a < b < |ss| ensures ss[a] != ss[b] {
      assert ss[a].id != ss[b].id;
    }
    PermutationDistinct(ss, r);
    assert r[i] in multiset(ss) && r[j] in multiset(ss);
    var a :| 0 <= a < |ss| && ss[a] == r[i];
    var b :| 0 <= b < |ss| && ss[b] == r[j];
    if a < b {
      assert ss[a].id != ss[b].id;
    } else {
      assert ss[b].id != ss[a].id;
    }
  }

  /** An admitted listing shows every school, once per row of the table, and nothing else. */
  lemma ListingCoversSchools(schools: seq<School>)
    ensures var items := Listings(Sort(schools, NameKey));
      |items| == |schools| &&
      (forall s :: s in schools ==> Listing(s) in items) &&
      (forall i :: 0 <= i < |items| ==> exists s :: s in schools && items[i] == Listing(s)) &&
      multiset(items) == multiset(Listings(schools))
  {
    var r := Sort(schools, NameKey);
    assert multiset(r) == multiset(schools);
    ListingsOfPermutation(schools, r);
    ListingsPermutation(r, schools);
  }

  lemma ListingsAppend(a: seq<School>, b: seq<School>)
    ensures Listings(a + b) == Listings(a) + Listings(b)
  {
    var l, r := Listings(a + b), Listings(a) + Listings(b);
    assert |l| == |r|;
    forall i | 0 <= i < |l| ensures l[i] == r[i] {
      if i < |a| {
        assert (a + b)[i] == a[i];
      } else {
        assert (a + b)[i] == b[i - |a|];
      }
    }
  }

  /** Reordering the table reorders its listing: each listing occurs as often as before. */
  lemma {:induction false} ListingsPermutation(a: seq<School>, b: seq<School>)
    requires multiset(a) == multiset(b)
    ensures multiset(Listings(a)) == multiset(Listings(b))
    decreases |a|
  {
    if a == [] {
      assert |b| == |multiset(b)| == 0;
    } else {
      var x := a[0];
      var k := Locate(b, x);
      var pre, post := b[..k], b[k + 1..];
      RemoveAt(b, k);
      MultisetCons(a);
      ListingsPermutation(a[1..], pre + post);
      ListingsHead(a);
      ListingsSplit(pre, x, post);
    }
  }

  lemma ListingsHead(a: seq<School>)
    requires a != []
    ensures multiset(Listings(a)) == multiset{Listing(a[0])} + multiset(Listings(a[1..]))
  {
    assert a == [a[0]] + a[1..];
    ListingsAppend([a[0]], a[1..]);
    assert Listings([a[0]]) == [Listing(a[0])];
  }

  lemma ListingsSplit(pre: seq<School>, x: School, post: seq<School>)
    ensures multiset(Listings(pre + [x] + post)) == multiset(Listings(pre + post)) + multiset{Listing(x)}
  {
    ListingsAppend(pre, [x]);
    ListingsAppend(pre + [x], post);
    ListingsAppend(pre, post);
    assert Listings([x]) == [Listing(x)];
  }

  /** The listing of a reordering of the table shows the same schools. */
  lemma ListingsOfPermutation(schools: seq<School>, r: seq<School>)
    requires multiset(r) == multiset(schools)
    ensures var items := Listings(r);
      |items| == |schools| &&
      (forall s :: s in schools ==> Listing(s) in items) &&
      (forall i :: 0 <= i < |items| ==> exists s :: s in schools && items[i] == Listing(s))
  {
    var items := Listings(r);
    assert |r| == |multiset(r)| == |multiset(schools)| == |schools|;
    forall s | s in schools ensures Listing(s) in items {
      assert s in multiset(schools);
      var k :| 0 <= k < |r| && r[k] == s;
      assert items[k] == Listing(s);
    }
    forall i | 0 <= i < |items| ensures exists s :: s in schools && items[i] == Listing(s) {
      assert r[i] in multiset(r);
      assert r[i] in schools;
    }
  }

  /** No school is listed twice. */
  lemma ListingIdsDistinct(schools: seq<School>, wrestlers: seq<Wrestler>, weights: seq<Weight>)
    requires Valid(schools, wrestlers, weights)
    ensures var items := Listings(Sort(schools, NameKey));
      forall i, j :: 0 <= i < j < |items| ==> items[i].id != items[j].id
  {
    var r := Sort(schools, NameKey);
    forall i, j | 0 <= i < j < |r| ensures r[i].id != r[j].id {
      PermutedIdsDistinct(schools, r, i, j);
    }
  }

  /** The listing is in ascending order of name, with unnamed schools last. */
  lemma ListingByName(schools: seq<School>)
    ensures var items := Listings(Sort(schools, NameKey));
      forall i, j :: 0 <= i < j < |items| && items[j].name.Some? ==>
        items[i].name.Some? && StrLe(items[i].name.value, items[j].name.value)
  {
    var r := Sort(schools, NameKey);
    forall i, j | 0 <= i < j < |r| && r[j].name.Some?
      ensures r[i].name.Some? && StrLe(r[i].name.value, r[j].name.value)
    {
      NamesOrdered(r[i], r[j]);
    }
  }

  lemma NamesOrdered(a: School, b: School)
    requires KeyLe(NameKey(a), NameKey(b)) && b.name.Some?
    ensures a.name.Some? && StrLe(a.name.value, b.name.value)
  {
    var p, q := NameKey(a)[0], NameKey(b)[0];
    assert NameKey(a)[1..] == [];
    if p == q {
      StrLeRefl(b.name.value);
    } else {
      assert PartLe(p, q);
    }
  }

  // ----- admin/delete-school -----

  datatype SchoolRef = SchoolRef(token: Field<string>, schoolId: Field<int>)

  /** Gates, then deletes the school's weights, then its wrestlers, then the school; no step
      leaves a reference dangling. There is no `catch`: a failure of the store escapes. An
      absent or `null` id matches no row. */
  method DeleteSchool(db: Database, body: Parsed<SchoolRef>, fault: Option<string>) returns (reply: Reply)
    requires db.Valid()
    modifies db
    ensures db.Valid()
    ensures
      if body.Malformed? then reply == Thrown(body.message) && unchanged(db)
      else if !Admitted(body.fields.token) then reply == Answer(401, PlainText(Unauthorized)) && unchanged(db)
      else if fault.Some? then reply == Thrown(fault.value) && unchanged(db)
      else
        var id := OrNull(body.fields.schoolId);
        reply == Answer(200, PlainText(SchoolDeletedText)) &&
        db.weights == WeightsOutside(old(db.weights), old(db.wrestlers), id) &&
        db.wrestlers == WrestlersOutside(old(db.wrestlers), id) &&
        db.schools == SchoolsExcept(old(db.schools), id) &&
        (forall s :: s in old(db.schools) ==> (s in db.schools <==> !Matches(s.id, id))) &&
        (forall w :: w in old(db.wrestlers) ==> (w in db.wrestlers <==> !Matches(w.schoolId, id))) &&
        (forall wt :: wt in old(db.weights) ==>
           (wt in db.weights <==> !(id.Some? && InSchool(old(db.wrestlers), wt.wrestlerId, id.value))))
  {
    if body.Malformed? {
      return Thrown(body.message);
    }
    var b := body.fields;
    if !Admitted(b.token) {
      return Answer(401, PlainText(Unauthorized));
    }
    if fault.Some? {
      return Thrown(fault.value);
    }
    var id := OrNull(b.schoolId);
    ghost var ss0, ws0, wts0 := db.schools, db.wrestlers, db.weights;
    db.DeleteWeightsOfSchool(id);
    FilterMembers(wts0, (wt: Weight) => !(id.Some? && InSchool(ws0, wt.wrestlerId, id.value)));
    // no weight of the school's wrestlers is left, so the wrestlers may go
    db.DeleteWrestlersOfSchool(id);
    FilterMembers(ws0, (w: Wrestler) => !Matches(w.schoolId, id));
    // no wrestler of the school is left, so the school may go
    db.DeleteSchool(id);
    FilterMembers(ss0, (s: School) => !Matches(s.id, id));
    reply := Answer(200, PlainText(SchoolDeletedText));
  }

  /** After the cascade nothing of the school is left: no school with the id, no wrestler of
      it, and no weight of any wrestler that belonged to it. */
  lemma CascadeLeavesNothing(schools: seq<School>, ws: seq<Wrestler>, wts: seq<Weight>, id: int)
    ensures !HasSchool(SchoolsExcept(schools, Some(id)), id)
    ensures forall w :: w in WrestlersOutside(ws, Some(id)) ==> w.schoolId != id
    ensures forall wt :: wt in WeightsOutside(wts, ws, Some(id)) ==> !InSchool(ws, wt.wrestlerId, id)
  {
    FilterMembers(schools, (s: School) => !Matches(s.id, Some(id)));
    FilterMembers(ws, (w: Wrestler) => !Matches(w.schoolId, Some(id)));
    FilterMembers(wts, (wt: Weight) => !(Some(id).Some? && InSchool(ws, wt.wrestlerId, id)));
  }

  /** Deleting a school that does not exist, or with no id at all, changes no table. */
  lemma DeleteAbsentSchool(schools: seq<School>, ws: seq<Wrestler>, wts: seq<Weight>, id: Option<int>)
    requires Valid(schools, ws, wts)
    requires id.None? || !HasSchool(schools, id.value)
    ensures SchoolsExcept(schools, id) == schools
    ensures WrestlersOutside(ws, id) == ws
    ensures WeightsOutside(wts, ws, id) == wts
  {
    forall i | 0 <= i < |schools| ensures !Matches(schools[i].id, id) {
      assert schools[i] in schools;
    }
    FilterAll(schools, (s: School) => !Matches(s.id, id));
    forall i | 0 <= i < |ws| ensures !Matches(ws[i].schoolId, id) {
      assert ws[i] in ws;
    }
    FilterAll(ws, (w: Wrestler) => !Matches(w.schoolId, id));
    assert forall i :: 0 <= i < |wts| ==> !(id.Some? && InSchool(ws, wts[i].wrestlerId, id.value));
    FilterAll(wts, (wt: Weight) => !(id.Some? && InSchool(ws, wt.wrestlerId, id.value)));
  }
}
