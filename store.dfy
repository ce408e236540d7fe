/** The database as the handlers see it: three tables changed in place by one statement at a
    time. Each method is one SQL statement; its contract is the statement's effect on the
    tables, and every method keeps the integrity constraints of `Schema.Valid`. */
module Store {
  import opened Wrappers
  import opened Seqs
  import opened Schema

  /** The message PostgreSQL reports when an inserted wrestler names a school that does not exist. */
  const WrestlerSchoolMissing: string :=
    "insert or update on table \"wrestlers\" violates foreign key constraint"

  /** The message PostgreSQL reports when an inserted school repeats a `login_code`. */
  const DuplicateLoginCode: string := "duplicate key value violates unique constraint"

  class Database {
    var schools: seq<School>
    var wrestlers: seq<Wrestler>
    var weights: seq<Weight>
    /** The next values of the three `SERIAL` id sequences. */
    var nextSchoolId: nat
    var nextWrestlerId: nat
    var nextWeightId: nat

    /** The integrity constraints, and every id below the next value of its sequence. */
    predicate Valid()
      reads this
    {
      Schema.Valid(schools, wrestlers, weights) &&
      (forall s :: s in schools ==> s.id < nextSchoolId) &&
      (forall w :: w in wrestlers ==> w.id < nextWrestlerId) &&
      (forall wt :: wt in weights ==> wt.id < nextWeightId)
    }

    constructor Empty()
      ensures Valid()
      ensures schools == [] && wrestlers == [] && weights == []
    {
      schools, wrestlers, weights := [], [], [];
      nextSchoolId, nextWrestlerId, nextWeightId := 1, 1, 1;
    }

    /** `INSERT INTO wrestlers (school_id, first_name, last_name, weight_class, sex) VALUES (...)
        RETURNING ...`: the new row, or the foreign-key error when the school does not exist. */
    method InsertWrestler(schoolId: nat, firstName: Option<string>, lastName: Option<string>,
                          weightClass: Option<int>, sex: Option<string>) returns (r: Result<Wrestler>)
      requires Valid()
      modifies this
      ensures Valid()
      ensures HasSchool(old(schools), schoolId) ==>
        r == Success(Wrestler(old(nextWrestlerId), schoolId, firstName, lastName, weightClass, sex)) &&
        wrestlers == old(wrestlers) + [r.value] && nextWrestlerId == old(nextWrestlerId) + 1
      ensures !HasSchool(old(schools), schoolId) ==>
        r == Failure(WrestlerSchoolMissing) && wrestlers == old(wrestlers) && nextWrestlerId == old(nextWrestlerId)
      ensures r.Success? ==> !HasWrestler(old(wrestlers), r.value.id)
      ensures r.Failure? ==> unchanged(this)
      ensures schools == old(schools) && weights == old(weights)
      ensures nextSchoolId == old(nextSchoolId) && nextWeightId == old(nextWeightId)
    {
      if !HasSchool(schools, schoolId) {
        return Failure(WrestlerSchoolMissing);
      }
      var row := Wrestler(nextWrestlerId, schoolId, firstName, lastName, weightClass, sex);
      wrestlers := wrestlers + [row];
      nextWrestlerId := nextWrestlerId + 1;
      r := Success(row);
      forall wt | wt in weights ensures HasWrestler(wrestlers, wt.wrestlerId) {
        var w :| w in old(wrestlers) && w.id == wt.wrestlerId;
        assert w in wrestlers;
      }
    }

    /** `INSERT INTO weights (wrestler_id, date, weight, type) VALUES (...)`, for a wrestler the
        caller has just looked up. */
    method InsertWeight(wrestlerId: nat, date: Option<string>, weight: int, kind: Option<string>) returns (row: Weight)
      requires Valid() && HasWrestler(wrestlers, wrestlerId)
      modifies this
      ensures Valid()
      ensures row == Weight(old(nextWeightId), wrestlerId, date, weight, kind)
      ensures weights == old(weights) + [row] && nextWeightId == old(nextWeightId) + 1
      ensures schools == old(schools) && wrestlers == old(wrestlers)
      ensures nextSchoolId == old(nextSchoolId) && nextWrestlerId == old(nextWrestlerId)
    {
      row := Weight(nextWeightId, wrestlerId, date, weight, kind);
      weights := weights + [row];
      nextWeightId := nextWeightId + 1;
    }

    /** `INSERT INTO schools (name, login_code, password_hash) VALUES (...)`: the new row, or the
        unique-key error when the code is already taken. The colours start as NULL. */
    method InsertSchool(name: Option<string>, loginCode: Option<string>, passwordHash: string) returns (r: Result<School>)
      requires Valid()
      modifies this
      ensures Valid()
      ensures loginCode.Some? && HasLoginCode(old(schools), loginCode.value) ==>
        r == Failure(DuplicateLoginCode) && schools == old(schools) && nextSchoolId == old(nextSchoolId)
      ensures !(loginCode.Some? && HasLoginCode(old(schools), loginCode.value)) ==>
        r == Success(School(old(nextSchoolId), name, loginCode, passwordHash, None, None)) &&
        schools == old(schools) + [r.value] && nextSchoolId == old(nextSchoolId) + 1
      ensures r.Success? ==> !HasSchool(old(schools), r.value.id)
      ensures r.Failure? ==> unchanged(this)
      ensures wrestlers == old(wrestlers) && weights == old(weights)
      ensures nextWrestlerId == old(nextWrestlerId) && nextWeightId == old(nextWeightId)
    {
      if loginCode.Some? && HasLoginCode(schools, loginCode.value) {
        return Failure(DuplicateLoginCode);
      }
      var row := School(nextSchoolId, name, loginCode, passwordHash, None, None);
      schools := schools + [row];
      nextSchoolId := nextSchoolId + 1;
      r := Success(row);
      forall i, j | 0 <= i < j < |schools| && schools[i].loginCode.Some?
        ensures schools[i].loginCode != schools[j].loginCode
      {
        if j == |schools| - 1 {
          assert schools[i] in old(schools);
        }
      }
      forall w | w in wrestlers ensures HasSchool(schools, w.schoolId) {
        var s :| s in old(schools) && s.id == w.schoolId;
        assert s in schools;
      }
    }

    /** `UPDATE wrestlers SET ... WHERE id = $k RETURNING ...`, with `$k` bound to an integer. */
    method UpdateWrestlers(sets: seq<Assignment<WrestlerColumn>>, params: seq<SqlValue>, wherePlaceholder: nat)
      returns (rows: seq<Wrestler>)
      requires Valid()
      requires WrestlerSetsBound(sets, params)
      requires 1 <= wherePlaceholder <= |params| && params[wherePlaceholder - 1].SqlInt?
      modifies this
      ensures Valid()
      ensures wrestlers == UpdateWrestlerRows(old(wrestlers), params[wherePlaceholder - 1].n, sets, params)
      ensures rows == WrestlersWithId(wrestlers, params[wherePlaceholder - 1].n)
      ensures schools == old(schools) && weights == old(weights)
      ensures nextSchoolId == old(nextSchoolId) && nextWrestlerId == old(nextWrestlerId) && nextWeightId == old(nextWeightId)
    {
      var before := wrestlers;
      wrestlers := UpdateWrestlerRows(wrestlers, params[wherePlaceholder - 1].n, sets, params);
      rows := WrestlersWithId(wrestlers, params[wherePlaceholder - 1].n);
      SameKeysWrestlers(schools, before, wrestlers, weights);
      forall w | w in wrestlers ensures w.id < nextWrestlerId {
        var i :| 0 <= i < |wrestlers| && wrestlers[i] == w;
        assert before[i] in before;
      }
    }

    /** `UPDATE schools SET ... WHERE id = $k RETURNING ...`, with `$k` bound to an integer. */
    method UpdateSchools(sets: seq<Assignment<SchoolColumn>>, params: seq<SqlValue>, wherePlaceholder: nat)
      returns (rows: seq<School>)
      requires Valid()
      requires SchoolSetsBound(sets, params)
      requires 1 <= wherePlaceholder <= |params| && params[wherePlaceholder - 1].SqlInt?
      modifies this
      ensures Valid()
      ensures schools == UpdateSchoolRows(old(schools), params[wherePlaceholder - 1].n, sets, params)
      ensures rows == SchoolsWithId(schools, params[wherePlaceholder - 1].n)
      ensures wrestlers == old(wrestlers) && weights == old(weights)
      ensures nextSchoolId == old(nextSchoolId) && nextWrestlerId == old(nextWrestlerId) && nextWeightId == old(nextWeightId)
    {
      var before := schools;
      schools := UpdateSchoolRows(schools, params[wherePlaceholder - 1].n, sets, params);
      rows := SchoolsWithId(schools, params[wherePlaceholder - 1].n);
      SameKeysSchools(before, schools, wrestlers, weights);
      forall s | s in schools ensures s.id < nextSchoolId {
        var i :| 0 <= i < |schools| && schools[i] == s;
        assert before[i] in before;
      }
    }

    /** `DELETE FROM weights WHERE wrestler_id = $1`. */
    method DeleteWeightsOfWrestler(wrestlerId: int)
      requires Valid()
      modifies this
      ensures Valid()
      ensures weights == WeightsNotOf(old(weights), wrestlerId)
      ensures schools == old(schools) && wrestlers == old(wrestlers)
      ensures nextSchoolId == old(nextSchoolId) && nextWrestlerId == old(nextWrestlerId) && nextWeightId == old(nextWeightId)
    {
      var before := weights;
      weights := WeightsNotOf(weights, wrestlerId);
      FilterMembers(before, (w: Weight) => w.wrestlerId != wrestlerId);
      FilterDistinct(before, (w: Weight) => w.wrestlerId != wrestlerId, (w: Weight) => w.id as int);
    }

    /** `DELETE FROM wrestlers WHERE id = $1`, once no weight references that id. */
    method DeleteWrestler(id: int)
      requires Valid()
      requires forall wt :: wt in weights ==> wt.wrestlerId != id
      modifies this
      ensures Valid()
      ensures wrestlers == WrestlersExcept(old(wrestlers), id)
      ensures schools == old(schools) && weights == old(weights)
      ensures nextSchoolId == old(nextSchoolId) && nextWrestlerId == old(nextWrestlerId) && nextWeightId == old(nextWeightId)
    {
      var before := wrestlers;
      wrestlers := WrestlersExcept(wrestlers, id);
      FilterMembers(before, (w: Wrestler) => w.id != id);
      FilterDistinct(before, (w: Wrestler) => w.id != id, (w: Wrestler) => w.id as int);
      forall wt | wt in weights ensures HasWrestler(wrestlers, wt.wrestlerId) {
        var w :| w in before && w.id == wt.wrestlerId;
        assert w in wrestlers;
      }
    }

    /** `DELETE FROM weights WHERE wrestler_id IN (SELECT id FROM wrestlers WHERE school_id = $1)`. */
    method DeleteWeightsOfSchool(schoolId: Option<int>)
      requires Valid()
      modifies this
      ensures Valid()
      ensures weights == WeightsOutside(old(weights), wrestlers, schoolId)
      ensures schools == old(schools) && wrestlers == old(wrestlers)
      ensures nextSchoolId == old(nextSchoolId) && nextWrestlerId == old(nextWrestlerId) && nextWeightId == old(nextWeightId)
    {
      var before := weights;
      weights := WeightsOutside(weights, wrestlers, schoolId);
      var ws := wrestlers;
      var p := (w: Weight) => !(schoolId.Some? && InSchool(ws, w.wrestlerId, schoolId.value));
      FilterMembers(before, p);
      FilterDistinct(before, p, (w: Weight) => w.id as int);
    }

    /** `DELETE FROM wrestlers WHERE school_id = $1`, once no weight references a wrestler of that school. */
    method DeleteWrestlersOfSchool(schoolId: Option<int>)
      requires Valid()
      requires forall wt :: wt in weights ==> !(schoolId.Some? && InSchool(wrestlers, wt.wrestlerId, schoolId.value))
      modifies this
      ensures Valid()
      ensures wrestlers == WrestlersOutside(old(wrestlers), schoolId)
      ensures schools == old(schools) && weights == old(weights)
      ensures nextSchoolId == old(nextSchoolId) && nextWrestlerId == old(nextWrestlerId) && nextWeightId == old(nextWeightId)
    {
      var before := wrestlers;
      wrestlers := WrestlersOutside(wrestlers, schoolId);
      var p := (w: Wrestler) => !Matches(w.schoolId, schoolId);
      FilterMembers(before, p);
      FilterDistinct(before, p, (w: Wrestler) => w.id as int);
      forall wt | wt in weights ensures HasWrestler(wrestlers, wt.wrestlerId) {
        var w :| w in before && w.id == wt.wrestlerId;
        assert p(w);
        assert w in wrestlers;
      }
    }

    /** `DELETE FROM schools WHERE id = $1`, once no wrestler references that school. */
    method DeleteSchool(id: Option<int>)
      requires Valid()
      requires forall w :: w in wrestlers ==> !Matches(w.schoolId, id)
      modifies this
      ensures Valid()
      ensures schools == SchoolsExcept(old(schools), id)
      ensures wrestlers == old(wrestlers) && weights == old(weights)
      ensures nextSchoolId == old(nextSchoolId) && nextWrestlerId == old(nextWrestlerId) && nextWeightId == old(nextWeightId)
    {
      var before := schools;
      schools := SchoolsExcept(schools, id);
      var p := (s: School) => !Matches(s.id, id);
      FilterMembers(before, p);
      FilterDistinct(before, p, (s: School) => s.id as int);
      FilterUniqueCodes(before, p);
      forall w | w in wrestlers ensures HasSchool(schools, w.schoolId) {
        var s :| s in before && s.id == w.schoolId;
        assert s in schools;
      }
    }
  }

  /** Removing schools keeps the remaining login codes unique. */
  lemma {:induction false} FilterUniqueCodes(s: seq<School>, p: School -> bool)
    requires forall i, j :: 0 <= i < j < |s| && s[i].loginCode.Some? ==> s[i].loginCode != s[j].loginCode
    ensures forall i, j :: 0 <= i < j < |Filter(s, p)| && Filter(s, p)[i].loginCode.Some? ==>
      Filter(s, p)[i].loginCode != Filter(s, p)[j].loginCode
  {
    if s != [] {
      var tail := s[1..];
      FilterUniqueCodes(tail, p);
      FilterMembers(tail, p);
      var rest := Filter(tail, p);
      if p(s[0]) {
        forall k | 0 <= k < |rest| && s[0].loginCode.Some? ensures s[0].loginCode != rest[k].loginCode {
          assert rest[k] in rest;
          assert rest[k] in tail;
          var m :| 0 <= m < |tail| && tail[m] == rest[k];
          assert s[m + 1] == rest[k];
        }
        assert Filter(s, p) == [s[0]] + rest;
      } else {
        assert Filter(s, p) == rest;
      }
    }
  }
}
