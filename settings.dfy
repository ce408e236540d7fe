/** The settings endpoint: a school changes its own name, colours and password. The school is
    the one named by the token; the body cannot name another. */
module Settings {
  import opened Wrappers
  import opened Requests
  import opened Schema
  import opened Store
  import opened Auth
  import opened Http

  const NoUpdates: string := "No updates provided"

  /** The body of a settings request; every property is optional. */
  datatype SettingsPatch = SettingsPatch(name: Field<string>, password: Field<string>,
                                         primaryColor: Field<string>, secondaryColor: Field<string>)

  function TextParam(f: Field<string>): SqlValue {
    if f.Given? then SqlText(f.value) else SqlNull
  }

  /** The columns the body supplies, in the order the handler tests them: a property that is
      not `undefined`, and the password only when it is a non-empty string. */
  function SuppliedColumns(p: SettingsPatch): seq<SchoolColumn> {
    (if p.name.Undefined? then [] else [NameColumn]) +
    (if p.primaryColor.Undefined? then [] else [PrimaryColorColumn]) +
    (if p.secondaryColor.Undefined? then [] else [SecondaryColorColumn]) +
    (if TruthyText(p.password) then [PasswordHashColumn] else [])
  }

  /** The text of a password property; only a non-empty string is ever hashed. */
  function PasswordText(f: Field<string>): string {
    if f.Given? then f.value else ""
  }

  /** The value the handler binds for a column; the password is bound as its hash. */
  function ParamFor(p: SettingsPatch, hash: string -> string, c: SchoolColumn): (v: SqlValue)
    ensures FitsSchool(c, v)
  {
    match c
    case NameColumn => TextParam(p.name)
    case PrimaryColorColumn => TextParam(p.primaryColor)
    case SecondaryColorColumn => TextParam(p.secondaryColor)
    case PasswordHashColumn => SqlText(hash(PasswordText(p.password)))
  }

  /** The intended effect on the school's row: a supplied name or colour overwrites the column,
      `null` included; a non-empty password replaces the hash by the hash of the new password;
      the id and the login code never change. */
  function Patched(s: School, p: SettingsPatch, hash: string -> string): School {
    s.(name := if p.name.Undefined? then s.name else OrNull(p.name),
       primaryColor := if p.primaryColor.Undefined? then s.primaryColor else OrNull(p.primaryColor),
       secondaryColor := if p.secondaryColor.Undefined? then s.secondaryColor else OrNull(p.secondaryColor),
       passwordHash := if TruthyText(p.password) then hash(p.password.value) else s.passwordHash)
  }

  function Columns(sets: seq<Assignment<SchoolColumn>>): (cs: seq<SchoolColumn>)
    ensures |cs| == |sets| && forall i :: 0 <= i < |sets| ==> cs[i] == sets[i].column
  {
    seq(|sets|, i requires 0 <= i < |sets| => sets[i].column)
  }

  /** The row after setting, in order, each of the given columns to the body's value for it. */
  function PatchColumns(s: School, p: SettingsPatch, hash: string -> string, cs: seq<SchoolColumn>): School
    decreases |cs|
  {
    if cs == [] then s else PatchColumns(SetSchoolColumn(s, cs[0], ParamFor(p, hash, cs[0])), p, hash, cs[1..])
  }

  /** A SET clause whose every placeholder is bound to the body's value for its column does
      what setting those columns one by one does. */
  lemma {:induction false} ApplyIsPatch(s: School, p: SettingsPatch, hash: string -> string,
                                        sets: seq<Assignment<SchoolColumn>>, params: seq<SqlValue>)
    requires SchoolSetsBound(sets, params)
    requires forall i :: 0 <= i < |sets| ==> params[sets[i].placeholder - 1] == ParamFor(p, hash, sets[i].column)
    ensures ApplySchoolSets(s, sets, params) == PatchColumns(s, p, hash, Columns(sets))
    decreases |sets|
  {
    if sets != [] {
      var s' := SetSchoolColumn(s, sets[0].column, params[sets[0].placeholder - 1]);
      assert SchoolSetsBound(sets[1..], params);
      ApplyIsPatch(s', p, hash, sets[1..], params);
      assert Columns(sets)[1..] == Columns(sets[1..]);
    }
  }

  /** Setting a list of columns to the body's values leaves each column either at its old
      value or at the body's value, according to whether it is in the list. */
  lemma {:induction false} PatchColumnsFields(s: School, p: SettingsPatch, hash: string -> string, cs: seq<SchoolColumn>)
    ensures PatchColumns(s, p, hash, cs) ==
      s.(name := if NameColumn in cs then TextOf(TextParam(p.name)) else s.name,
         primaryColor := if PrimaryColorColumn in cs then TextOf(TextParam(p.primaryColor)) else s.primaryColor,
         secondaryColor := if SecondaryColorColumn in cs then TextOf(TextParam(p.secondaryColor)) else s.secondaryColor,
         passwordHash := if PasswordHashColumn in cs then hash(PasswordText(p.password)) else s.passwordHash)
    decreases |cs|
  {
    if cs != [] {
      PatchColumnsFields(SetSchoolColumn(s, cs[0], ParamFor(p, hash, cs[0])), p, hash, cs[1..]);
      assert forall c :: c in cs <==> c == cs[0] || c in cs[1..];
    }
  }

  /** Setting exactly the supplied columns gives the intended row. */
  lemma PatchSupplied(s: School, p: SettingsPatch, hash: string -> string)
    ensures PatchColumns(s, p, hash, SuppliedColumns(p)) == Patched(s, p, hash)
  {
    PatchColumnsFields(s, p, hash, SuppliedColumns(p));
  }

  /** The clause so far numbers its placeholders $1, $2, ... in order, binds each to the body's
      value for its column, and `idx` is the next placeholder. */
  predicate Numbered(p: SettingsPatch, hash: string -> string, sets: seq<Assignment<SchoolColumn>>, params: seq<SqlValue>, idx: nat) {
    |params| == |sets| && idx == |sets| + 1 &&
    (forall i :: 0 <= i < |sets| ==> sets[i].placeholder == i + 1 && params[i] == ParamFor(p, hash, sets[i].column))
  }

  /** One test that passes: append `column = $idx`, bind the value, advance `idx`. */
  lemma NumberedStep(p: SettingsPatch, hash: string -> string, sets: seq<Assignment<SchoolColumn>>, params: seq<SqlValue>, idx: nat, c: SchoolColumn)
    requires Numbered(p, hash, sets, params, idx)
    ensures Numbered(p, hash, sets + [Assign(c, idx)], params + [ParamFor(p, hash, c)], idx + 1)
    ensures Columns(sets + [Assign(c, idx)]) == Columns(sets) + [c]
  {
  }

  predicate Distinct(cs: seq<SchoolColumn>) {
    forall i, j :: 0 <= i < j < |cs| ==> cs[i] != cs[j]
  }

  lemma SuppliedDistinct(p: SettingsPatch)
    ensures Distinct(SuppliedColumns(p))
  {
  }

  /** A numbered clause over distinct columns binds every placeholder to a value its column takes. */
  lemma NumberedBound(p: SettingsPatch, hash: string -> string, sets: seq<Assignment<SchoolColumn>>, params: seq<SqlValue>, idx: nat, extra: seq<SqlValue>)
    requires Numbered(p, hash, sets, params, idx) && Distinct(Columns(sets))
    ensures SchoolSetsBound(sets, params + extra)
    ensures forall i :: 0 <= i < |sets| ==> (params + extra)[sets[i].placeholder - 1] == ParamFor(p, hash, sets[i].column)
  {
    forall i | 0 <= i < |sets| ensures FitsSchool(sets[i].column, (params + extra)[sets[i].placeholder - 1]) {
      assert (params + extra)[i] == params[i];
    }
  }

  /** A numbered clause over exactly the supplied columns is well bound for any further
      parameters and does what the patch intends. */
  lemma ClauseFacts(p: SettingsPatch, hash: string -> string, sets: seq<Assignment<SchoolColumn>>, params: seq<SqlValue>, idx: nat)
    requires Numbered(p, hash, sets, params, idx) && Columns(sets) == SuppliedColumns(p)
    ensures forall extra :: SchoolSetsBound(sets, params + extra)
    ensures forall extra, s :: ApplySchoolSets(s, sets, params + extra) == Patched(s, p, hash)
  {
    SuppliedDistinct(p);
    forall extra ensures SchoolSetsBound(sets, params + extra) {
      NumberedBound(p, hash, sets, params, idx, extra);
    }
    forall extra, s ensures ApplySchoolSets(s, sets, params + extra) == Patched(s, p, hash) {
      NumberedBound(p, hash, sets, params, idx, extra);
      ApplyIsPatch(s, p, hash, sets, params + extra);
      PatchSupplied(s, p, hash);
    }
  }

  /** Builds the SET clause with a running placeholder counter: name, primary colour, secondary
      colour and password in that order, each only when supplied, the password hashed. */
  method BuildSettingsUpdate(p: SettingsPatch, hash: string -> string)
    returns (sets: seq<Assignment<SchoolColumn>>, params: seq<SqlValue>, idx: nat)
    ensures Numbered(p, hash, sets, params, idx)
    ensures Columns(sets) == SuppliedColumns(p)
  {
    sets, params, idx := [], [], 1;
    // The column lists each test contributes.
    ghost var name := if p.name.Undefined? then [] else [NameColumn];
    ghost var primary := if p.primaryColor.Undefined? then [] else [PrimaryColorColumn];
    ghost var secondary := if p.secondaryColor.Undefined? then [] else [SecondaryColorColumn];
    if !p.name.Undefined? {
      NumberedStep(p, hash, sets, params, idx, NameColumn);
      sets, params, idx := sets + [Assign(NameColumn, idx)], params + [ParamFor(p, hash, NameColumn)], idx + 1;
    }
    assert Numbered(p, hash, sets, params, idx) && Columns(sets) == name;
    if !p.primaryColor.Undefined? {
      NumberedStep(p, hash, sets, params, idx, PrimaryColorColumn);
      sets, params, idx := sets + [Assign(PrimaryColorColumn, idx)], params + [ParamFor(p, hash, PrimaryColorColumn)], idx + 1;
    }
    assert Numbered(p, hash, sets, params, idx) && Columns(sets) == name + primary;
    if !p.secondaryColor.Undefined? {
      NumberedStep(p, hash, sets, params, idx, SecondaryColorColumn);
      sets, params, idx := sets + [Assign(SecondaryColorColumn, idx)], params + [ParamFor(p, hash, SecondaryColorColumn)], idx + 1;
    }
    assert Numbered(p, hash, sets, params, idx) && Columns(sets) == name + primary + secondary;
    if TruthyText(p.password) {
      NumberedStep(p, hash, sets, params, idx, PasswordHashColumn);
      sets, params, idx := sets + [Assign(PasswordHashColumn, idx)], params + [SqlText(hash(p.password.value))], idx + 1;
    }
    assert Numbered(p, hash, sets, params, idx) && Columns(sets) == SuppliedColumns(p);
  }

  /** The school table after the update: the token's school gets the patch, every other row is
      left as it was. */
  function PatchRows(ss: seq<School>, id: int, p: SettingsPatch, hash: string -> string): (r: seq<School>)
    ensures |r| == |ss|
    ensures forall i :: 0 <= i < |ss| ==> r[i] == if ss[i].id == id then Patched(ss[i], p, hash) else ss[i]
  {
    if ss == [] then [] else [if ss[0].id == id then Patched(ss[0], p, hash) else ss[0]] + PatchRows(ss[1..], id, p, hash)
  }

  function FindSchool(ss: seq<School>, id: int): (r: Option<School>)
    ensures r.Some? ==> r.value in ss && r.value.id == id
    ensures r.None? <==> !HasSchool(ss, id)
  {
    if ss == [] then None
    else if ss[0].id == id then Some(ss[0])
    else
      assert forall s :: s in ss <==> s == ss[0] || s in ss[1..];
      FindSchool(ss[1..], id)
  }

  /** `RETURNING id, name, primary_color, secondary_color`: the password hash is not returned. */
  function Settings(s: School): SchoolSettings {
    SchoolSettings(s.id, s.name, s.primaryColor, s.secondaryColor)
  }

  lemma {:induction false} ReturnedRow(ss: seq<School>, id: int, p: SettingsPatch, hash: string -> string)
    ensures var rows := SchoolsWithId(PatchRows(ss, id, p, hash), id);
      (rows == [] <==> FindSchool(ss, id).None?) &&
      (rows != [] ==> rows[0] == Patched(FindSchool(ss, id).value, p, hash))
  {
    if ss != [] {
      ReturnedRow(ss[1..], id, p, hash);
      var r := PatchRows(ss, id, p, hash);
      assert r[1..] == PatchRows(ss[1..], id, p, hash);
      assert r == [r[0]] + r[1..];
    }
  }

  /** The UPDATE statement with a clause that does what the patch intends changes the table as
      the patch does. */
  lemma UpdateIsPatch(ss: seq<School>, id: int, sets: seq<Assignment<SchoolColumn>>, params: seq<SqlValue>,
                      extra: seq<SqlValue>, p: SettingsPatch, hash: string -> string)
    requires forall extra :: SchoolSetsBound(sets, params + extra)
    requires forall extra, s :: ApplySchoolSets(s, sets, params + extra) == Patched(s, p, hash)
    ensures SchoolSetsBound(sets, params + extra)
    ensures UpdateSchoolRows(ss, id, sets, params + extra) == PatchRows(ss, id, p, hash)
  {
    assert SchoolSetsBound(sets, params + extra);
    var u, v := UpdateSchoolRows(ss, id, sets, params + extra), PatchRows(ss, id, p, hash);
    forall i | 0 <= i < |ss| ensures u[i] == v[i] {
      assert ApplySchoolSets(ss[i], sets, params + extra) == Patched(ss[i], p, hash);
    }
  }

  /** Checks the token, connects, builds the update and applies it to the token's school. The
      connection is opened before the "nothing supplied" test, so a connection failure wins. A
      school that no longer exists gives 200 without a `school` in the body. */
  method UpdateSchoolSettings(db: Database, env: Env, authorization: Option<string>, body: Parsed<SettingsPatch>, fault: Option<string>)
    returns (reply: Reply)
    requires db.Valid()
    modifies db
    ensures db.Valid()
    ensures var auth := VerifyToken(env, authorization);
      if auth.Failure? then reply == Error(401, auth.error) && unchanged(db)
      else if body.Malformed? then reply == Error(401, body.message) && unchanged(db)
      else if fault.Some? then reply == Error(401, fault.value) && unchanged(db)
      else if SuppliedColumns(body.fields) == [] then reply == Error(400, NoUpdates) && unchanged(db)
      else
        var sid := auth.value.schoolId;
        db.schools == PatchRows(old(db.schools), sid, body.fields, env.hash) &&
        db.wrestlers == old(db.wrestlers) && db.weights == old(db.weights) &&
        reply == Answer(200, SettingsSaved(
          match FindSchool(old(db.schools), sid)
          case None => None
          case Some(s) => Some(Settings(Patched(s, body.fields, env.hash)))))
  {
    var auth := VerifyToken(env, authorization);
    if auth.Failure? {
      return Error(401, auth.error);
    }
    if body.Malformed? {
      return Error(401, body.message);
    }
    var p := body.fields;
    if fault.Some? {
      return Error(401, fault.value);
    }
    var sets, params, idx := BuildSettingsUpdate(p, env.hash);
    if |sets| == 0 {
      return Error(400, NoUpdates);
    }
    var sid := auth.value.schoolId;
    var before := db.schools;
    ClauseFacts(p, env.hash, sets, params, idx);
    UpdateIsPatch(before, sid, sets, params, [SqlInt(sid)], p, env.hash);
    params := params + [SqlInt(sid)];
    var rows := db.UpdateSchools(sets, params, idx);
    ReturnedRow(before, sid, p, env.hash);
    if |rows| == 0 {
      return Answer(200, SettingsSaved(None));
    }
    reply := Answer(200, SettingsSaved(Some(Settings(rows[0]))));
  }

  /** An empty or missing password leaves the hash alone, a non-empty one replaces it by its
      hash, and the login code and id never change, whatever the body holds. */
  lemma PatchedKeeps(s: School, p: SettingsPatch, hash: string -> string)
    ensures Patched(s, p, hash).id == s.id && Patched(s, p, hash).loginCode == s.loginCode
    ensures !TruthyText(p.password) ==> Patched(s, p, hash).passwordHash == s.passwordHash
    ensures TruthyText(p.password) ==> Patched(s, p, hash).passwordHash == hash(p.password.value)
    ensures p.name.Undefined? ==> Patched(s, p, hash).name == s.name
    ensures p.primaryColor.Undefined? ==> Patched(s, p, hash).primaryColor == s.primaryColor
    ensures p.secondaryColor.Undefined? ==> Patched(s, p, hash).secondaryColor == s.secondaryColor
  {
  }
}
