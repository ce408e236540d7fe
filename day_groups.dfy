/** The per-day fold the chart screens share: records are visited in order, the first record of
    a day creates that day's point, and each "before" or "after" record overwrites the matching
    side of its day's point. The result lists the points in the order their days first occur,
    which is the order `Object.values` and `Map.prototype.values` give for date-string keys. */
module DayGroups {
  import opened Wrappers

  /** One record as the fold sees it: its day key, its `type` and its weight. */
  datatype Reading = Reading(day: string, kind: Option<string>, weight: int)

  /** A chart point: the day and the last "before" and "after" weights recorded on it. */
  datatype Point = Point(day: string, before: Option<int>, after: Option<int>)

  const Before: string := "before"
  const After: string := "after"

  /** The distinct days of `rs` in order of first occurrence. */
  function Days(rs: seq<Reading>): (ds: seq<string>)
    decreases |rs|
  {
    if rs == [] then []
    else
      var prev := Days(rs[..|rs| - 1]);
      if rs[|rs| - 1].day in prev then prev else prev + [rs[|rs| - 1].day]
  }

  /** One more reading adds its day at the end if the day is new. */
  lemma DaysSnoc(rs: seq<Reading>, r: Reading)
    ensures Days(rs + [r]) == if r.day in Days(rs) then Days(rs) else Days(rs) + [r.day]
  {
    assert (rs + [r])[..|rs|] == rs;
  }

  /** The weight of the last record of `kind` on `day`, if there is one. */
  function LastOf(rs: seq<Reading>, day: string, kind: string): (w: Option<int>)
    decreases |rs|
  {
    if rs == [] then None
    else if rs[|rs| - 1].day == day && rs[|rs| - 1].kind == Some(kind) then Some(rs[|rs| - 1].weight)
    else LastOf(rs[..|rs| - 1], day, kind)
  }

  function PointFor(rs: seq<Reading>, day: string): Point {
    Point(day, LastOf(rs, day, Before), LastOf(rs, day, After))
  }

  /** The points of the fold: one per distinct day, in order of first occurrence. */
  function Points(rs: seq<Reading>): (ps: seq<Point>)
    ensures |ps| == |Days(rs)|
    ensures forall i :: 0 <= i < |ps| ==> ps[i] == PointFor(rs, Days(rs)[i])
  {
    seq(|Days(rs)|, i requires 0 <= i < |Days(rs)| => PointFor(rs, Days(rs)[i]))
  }

  lemma PrefixStep(rs: seq<Reading>, i: nat)
    requires i < |rs|
    ensures rs[..i + 1][..i] == rs[..i] && rs[..i + 1][i] == rs[i]
  {
  }

  /** A day without a point has no record, so neither side has a weight yet. */
  lemma {:induction false} LastOfAbsent(rs: seq<Reading>, day: string, kind: string)
    requires day !in Days(rs)
    ensures LastOf(rs, day, kind) == None
    decreases |rs|
  {
    if rs != [] {
      LastOfAbsent(rs[..|rs| - 1], day, kind);
    }
  }

  /** The fold, with the object keyed by day and the insertion order of its keys kept beside it. */
  method Group(rs: seq<Reading>) returns (points: seq<Point>)
    ensures points == Points(rs)
  {
    var grouped: map<string, Point> := map[];
    var order: seq<string> := [];
    var i := 0;
    while i < |rs|
      invariant 0 <= i <= |rs|
      invariant order == Days(rs[..i])
      invariant forall d :: d in grouped <==> d in order
      invariant forall d :: d in grouped ==> grouped[d] == PointFor(rs[..i], d)
    {
      var r := rs[i];
      PrefixStep(rs, i);
      if r.day !in grouped {
        LastOfAbsent(rs[..i], r.day, Before);
        LastOfAbsent(rs[..i], r.day, After);
        grouped := grouped[r.day := Point(r.day, None, None)];
        order := order + [r.day];
      }
      if r.kind == Some(Before) {
        grouped := grouped[r.day := grouped[r.day].(before := Some(r.weight))];
      }
      if r.kind == Some(After) {
        grouped := grouped[r.day := grouped[r.day].(after := Some(r.weight))];
      }
      i := i + 1;
    }
    assert rs[..|rs|] == rs;
    points := seq(|order|, j requires 0 <= j < |order| => grouped[order[j]]);
  }

  /** Every day key occurs once among the points. */
  lemma {:induction false} DaysDistinct(rs: seq<Reading>)
    ensures forall i, j :: 0 <= i < j < |Days(rs)| ==> Days(rs)[i] != Days(rs)[j]
    decreases |rs|
  {
    if rs != [] {
      DaysDistinct(rs[..|rs| - 1]);
    }
  }

  /** A day has a point exactly when some record falls on it. */
  lemma {:induction false} DaysMembers(rs: seq<Reading>, day: string)
    ensures day in Days(rs) <==> exists i :: 0 <= i < |rs| && rs[i].day == day
    decreases |rs|
  {
    if rs != [] {
      var init := rs[..|rs| - 1];
      DaysMembers(init, day);
      if exists i :: 0 <= i < |init| && init[i].day == day {
        var i :| 0 <= i < |init| && init[i].day == day;
        assert rs[i].day == day;
      }
      if exists i :: 0 <= i < |rs| && rs[i].day == day {
        var i :| 0 <= i < |rs| && rs[i].day == day;
        if i < |init| { assert init[i].day == day; }
      }
    }
  }

  /** Later records only append days: the points of a prefix of the records are a prefix of
      the points of all of them, so a point keeps the place its day's first record gave it. */
  lemma {:induction false} DaysPrefix(rs: seq<Reading>, k: nat)
    requires k <= |rs|
    ensures |Days(rs[..k])| <= |Days(rs)| && Days(rs[..k]) == Days(rs)[..|Days(rs[..k])|]
    decreases |rs| - k
  {
    if k < |rs| {
      DaysPrefix(rs, k + 1);
      PrefixStep(rs, k);
    } else {
      assert rs[..k] == rs;
    }
  }

  /** `LastOf` is the weight of the last record of that day and kind, or `None` when there is
      no such record. */
  lemma {:induction false} LastOfMeaning(rs: seq<Reading>, day: string, kind: string)
    ensures LastOf(rs, day, kind).None? <==>
            forall i :: 0 <= i < |rs| ==> !(rs[i].day == day && rs[i].kind == Some(kind))
    ensures LastOf(rs, day, kind).Some? ==>
            exists i :: 0 <= i < |rs| && rs[i].day == day && rs[i].kind == Some(kind) &&
                        rs[i].weight == LastOf(rs, day, kind).value &&
                        forall j :: i < j < |rs| ==> !(rs[j].day == day && rs[j].kind == Some(kind))
    decreases |rs|
  {
    if rs != [] {
      var n := |rs| - 1;
      var init := rs[..n];
      LastOfMeaning(init, day, kind);
      if !(rs[n].day == day && rs[n].kind == Some(kind)) {
        if LastOf(init, day, kind).Some? {
          var i :| 0 <= i < |init| && init[i].day == day && init[i].kind == Some(kind) &&
                   init[i].weight == LastOf(init, day, kind).value &&
                   forall j :: i < j < |init| ==> !(init[j].day == day && init[j].kind == Some(kind));
          assert rs[i] == init[i];
        }
      }
    }
  }

  // ----- average loss -----

  /** A day with both a "before" and an "after" weight. */
  predicate Complete(p: Point) {
    p.before.Some? && p.after.Some?
  }

  /** The number of complete days among `ps`. */
  function CompleteCount(ps: seq<Point>): (n: nat)
    ensures n <= |ps|
    decreases |ps|
  {
    if ps == [] then 0
    else CompleteCount(ps[..|ps| - 1]) + (if Complete(ps[|ps| - 1]) then 1 else 0)
  }

  /** The sum of before minus after over the complete days. */
  function LossSum(ps: seq<Point>): int
    decreases |ps|
  {
    if ps == [] then 0
    else
      var p := ps[|ps| - 1];
      LossSum(ps[..|ps| - 1]) + (if Complete(p) then p.before.value - p.after.value else 0)
  }

  /** `n ? sum / n : null`: the mean loss over the complete days, or none. */
  function MeanLoss(ps: seq<Point>): Option<real> {
    if CompleteCount(ps) == 0 then None else Some(LossSum(ps) as real / CompleteCount(ps) as real)
  }

  /** The accumulation loop of the average-loss helper. */
  method AverageLoss(ps: seq<Point>) returns (avg: Option<real>)
    ensures avg == MeanLoss(ps)
  {
    var sum := 0;
    var n := 0;
    var i := 0;
    while i < |ps|
      invariant 0 <= i <= |ps|
      invariant sum == LossSum(ps[..i]) && n == CompleteCount(ps[..i])
    {
      var v := ps[i];
      assert ps[..i + 1][..i] == ps[..i];
      if v.before.Some? && v.after.Some? {
        sum := sum + (v.before.value - v.after.value);
        n := n + 1;
      }
      i := i + 1;
    }
    assert ps[..|ps|] == ps;
    avg := if n != 0 then Some(sum as real / n as real) else None;
  }

  /** The mean is absent exactly when no day is complete. */
  lemma {:induction false} NoCompleteDay(ps: seq<Point>)
    ensures MeanLoss(ps).None? <==> forall i :: 0 <= i < |ps| ==> !Complete(ps[i])
    decreases |ps|
  {
    if ps != [] {
      var init := ps[..|ps| - 1];
      NoCompleteDay(init);
      assert forall i :: 0 <= i < |init| ==> init[i] == ps[i];
    }
  }

  /** Bounds on every complete day's loss bound the sum. */
  lemma {:induction false} LossSumBounds(ps: seq<Point>, lo: int, hi: int)
    requires forall i :: 0 <= i < |ps| && Complete(ps[i]) ==> lo <= ps[i].before.value - ps[i].after.value <= hi
    ensures lo * CompleteCount(ps) <= LossSum(ps) <= hi * CompleteCount(ps)
    decreases |ps|
  {
    if ps != [] {
      var init, p := ps[..|ps| - 1], ps[|ps| - 1];
      assert forall i :: 0 <= i < |init| ==> init[i] == ps[i];
      LossSumBounds(init, lo, hi);
      var c := CompleteCount(init);
      if Complete(p) {
        var d := p.before.value - p.after.value;
        assert lo <= d <= hi;
        assert CompleteCount(ps) == c + 1 && LossSum(ps) == LossSum(init) + d;
        BoundStep(lo, c, LossSum(init), d);
        BoundStepUp(hi, c, LossSum(init), d);
      } else {
        assert CompleteCount(ps) == c && LossSum(ps) == LossSum(init);
      }
    }
  }

  /** One more term between `lo` and its bound keeps a sum above `lo` times the count. */
  lemma BoundStep(lo: int, c: nat, sum: int, d: int)
    requires lo * c <= sum && lo <= d
    ensures lo * (c + 1) <= sum + d
  {
    assert lo * (c + 1) == lo * c + lo;
  }

  lemma BoundStepUp(hi: int, c: nat, sum: int, d: int)
    requires sum <= hi * c && d <= hi
    ensures sum + d <= hi * (c + 1)
  {
    assert hi * (c + 1) == hi * c + hi;
  }

  /** The mean lies between the smallest and the largest possible daily loss. */
  lemma MeanBounds(ps: seq<Point>, lo: int, hi: int)
    requires forall i :: 0 <= i < |ps| && Complete(ps[i]) ==> lo <= ps[i].before.value - ps[i].after.value <= hi
    requires MeanLoss(ps).Some?
    ensures lo as real <= MeanLoss(ps).value <= hi as real
  {
    LossSumBounds(ps, lo, hi);
    QuotientBounds(LossSum(ps), CompleteCount(ps), lo, hi);
  }

  lemma QuotientBounds(s: int, n: int, lo: int, hi: int)
    requires n > 0 && lo * n <= s <= hi * n
    ensures lo as real <= s as real / n as real <= hi as real
  {
    var m := s as real / n as real;
    assert m * n as real == s as real;
    assert (lo * n) as real == lo as real * n as real;
    assert (hi * n) as real == hi as real * n as real;
    assert (m - lo as real) * n as real == s as real - (lo * n) as real;
    assert (hi as real - m) * n as real == (hi * n) as real - s as real;
  }
}
