/**
 * `ScheduleCreator` and `append_perm` of lamda/course.py: enumerate one
 * lecture section per requested course, keep the combinations without a
 * conflict, and render them in an API-gateway response.
 */
module ScheduleCreator {
  import opened Outcomes
  import opened CourseDb
  import opened Sessions
  import opened Courses
  import opened CrossProduct

  // ---------------------------------------------------------------------
  // append_perm
  // ---------------------------------------------------------------------

  /** What `append_perm(rlist, new_items)` returns: singletons for an empty `rlist`, else the row-major extension. */
  function Accumulated<T>(rlist: seq<seq<T>>, newItems: seq<T>): seq<seq<T>>
  {
    if rlist == [] then Row([], newItems) else Extend(rlist, newItems)
  }

  /** `append_perm`: copies each row, appends one item, collects the copies; the inputs are left as they are. */
  method AppendPerm<T>(rlist: seq<seq<T>>, newItems: seq<T>) returns (result: seq<seq<T>>)
    ensures result == Accumulated(rlist, newItems)
  {
    if |rlist| == 0 {
      result := seq(|newItems|, k requires 0 <= k < |newItems| => [newItems[k]]);
      assert forall k :: 0 <= k < |newItems| ==> [] + [newItems[k]] == [newItems[k]];
      return;
    }
    result := [];
    for i := 0 to |rlist|
      invariant result == Extend(rlist[..i], newItems)
    {
      for j := 0 to |newItems|
        invariant result == Extend(rlist[..i], newItems) + Row(rlist[i], newItems[..j])
      {
        var newR := rlist[i] + [newItems[j]];
        result := result + [newR];
        assert Row(rlist[i], newItems[..j + 1]) == Row(rlist[i], newItems[..j]) + [newR];
      }
      assert newItems[..|newItems|] == newItems;
      assert rlist[..i + 1][..i] == rlist[..i];
    }
    assert rlist[..|rlist|] == rlist;
  }

  /** On an empty list: one singleton per item, in item order. */
  lemma AppendPermEmpty<T>(newItems: seq<T>, k: int)
    requires 0 <= k < |newItems|
    ensures |Accumulated([], newItems)| == |newItems|
    ensures Accumulated([], newItems)[k] == [newItems[k]]
  {
  }

  /** Otherwise: |rlist| * |newItems| rows, row i extended by item j at position i * |newItems| + j. */
  lemma AppendPermAt<T>(rlist: seq<seq<T>>, newItems: seq<T>, i: int, j: int)
    requires rlist != [] && 0 <= i < |rlist| && 0 <= j < |newItems|
    ensures |Accumulated(rlist, newItems)| == |rlist| * |newItems|
    ensures i * |newItems| + j < |Accumulated(rlist, newItems)|
    ensures Accumulated(rlist, newItems)[i * |newItems| + j] == rlist[i] + [newItems[j]]
  {
    ExtendSize(rlist, newItems);
    ExtendAt(rlist, newItems, i, j);
  }

  /** `r` extended by each of four items, written out. */
  lemma RowOfFour<T>(r: seq<T>, items: seq<T>)
    requires |items| == 4
    ensures Row(r, items) == [r + [items[0]], r + [items[1]], r + [items[2]], r + [items[3]]]
  {
  }

  /** The two calls of the module's unit test, with the lists it expects. */
  lemma AppendPermExamples()
    ensures Accumulated([], ["a", "b", "c"]) == [["a"], ["b"], ["c"]]
    ensures Accumulated([["a"], ["b"], ["c"]], ["1", "2", "3", "4"]) ==
      [["a", "1"], ["a", "2"], ["a", "3"], ["a", "4"],
       ["b", "1"], ["b", "2"], ["b", "3"], ["b", "4"],
       ["c", "1"], ["c", "2"], ["c", "3"], ["c", "4"]]
  {
    var single := Accumulated([], ["a", "b", "c"]);
    assert [] + ["a"] == ["a"] && [] + ["b"] == ["b"] && [] + ["c"] == ["c"];
    assert single[0] == ["a"] && single[1] == ["b"] && single[2] == ["c"];
    var rs: seq<seq<string>> := [["a"], ["b"], ["c"]];
    var items: seq<string> := ["1", "2", "3", "4"];
    assert rs[..1][..0] == [] && rs[..2][..1] == rs[..1] && rs[..1][0] == ["a"];
    assert Extend(rs[..1], items) == Row(["a"], items);
    assert Extend(rs[..2], items) == Extend(rs[..1], items) + Row(["b"], items);
    assert Extend(rs, items) == Extend(rs[..2], items) + Row(["c"], items);
    RowOfFour(["a"], items);
    RowOfFour(["b"], items);
    RowOfFour(["c"], items);
    assert ["a"] + ["1"] == ["a", "1"] && ["a"] + ["2"] == ["a", "2"];
    assert ["a"] + ["3"] == ["a", "3"] && ["a"] + ["4"] == ["a", "4"];
    assert ["b"] + ["1"] == ["b", "1"] && ["b"] + ["2"] == ["b", "2"];
    assert ["b"] + ["3"] == ["b", "3"] && ["b"] + ["4"] == ["b", "4"];
    assert ["c"] + ["1"] == ["c", "1"] && ["c"] + ["2"] == ["c", "2"];
    assert ["c"] + ["3"] == ["c", "3"] && ["c"] + ["4"] == ["c", "4"];
  }

  // ---------------------------------------------------------------------
  // Enumeration: `schs = append_perm(schs, ...)` for each requested name
  // ---------------------------------------------------------------------

  /** The combinations `create_from_course_names` enumerates for the given candidate lists. */
  function Enumerated<T>(cands: seq<seq<T>>): seq<seq<T>>
  {
    if cands == [] then [] else Accumulated(Enumerated(cands[..|cands| - 1]), cands[|cands| - 1])
  }

  /** When every course has a candidate, the enumeration is the full cross product, row-major. */
  lemma {:induction false} EnumeratedIsProduct<T>(cands: seq<seq<T>>)
    requires cands != []
    requires forall i :: 0 <= i < |cands| ==> cands[i] != []
    ensures Enumerated(cands) == Product(cands)
  {
    var init := cands[..|cands| - 1];
    var last := cands[|cands| - 1];
    if |init| == 0 {
      var unit: seq<seq<T>> := [[]];
      assert unit[..0] == [] && init == [];
      assert Enumerated(cands) == Accumulated([], last) == Row([], last);
      assert Product(cands) == Extend(unit, last);
      assert Extend(unit, last) == Extend(unit[..0], last) + Row(unit[0], last) == Row([], last);
    } else {
      forall i | 0 <= i < |init| ensures init[i] != [] {
        assert init[i] == cands[i];
      }
      EnumeratedIsProduct(init);
      ProductSize(init);
      CountZero(init);
      assert Enumerated(init) != [];
      assert Enumerated(cands) == Accumulated(Enumerated(init), last) == Extend(Product(init), last);
      assert Product(cands) == Extend(Product(init), last);
    }
  }

  /**
   * A course without a lecture section empties the list, and the next
   * course starts again from singletons: every course before it is dropped.
   */
  lemma {:induction false} EnumeratedRestarts<T>(cands: seq<seq<T>>, k: int)
    requires 0 <= k < |cands| && cands[k] == []
    ensures Enumerated(cands) == Enumerated(cands[k + 1..])
  {
    var init := cands[..|cands| - 1];
    if k == |cands| - 1 {
      ExtendNoItems(Enumerated(init));
      assert cands[k + 1..] == [];
    } else {
      EnumeratedRestarts(init, k);
      assert cands[k + 1..][..|cands| - k - 2] == init[k + 1..];
    }
  }

  // ---------------------------------------------------------------------
  // no_conflicts
  // ---------------------------------------------------------------------

  /** No two sections at different positions clash, in either order. */
  ghost predicate ConflictFree(sch: seq<Course>)
  {
    forall i, j :: 0 <= i < |sch| && 0 <= j < |sch| && i != j ==> !Clash(sch[i], sch[j])
  }

  /**
   * `ScheduleCreator.no_conflicts`: every ordered pair of sections, skipping
   * a section paired with itself (`course1 is not course2`; every position
   * holds a distinct object, built by its own `create_all` call).
   */
  method NoConflicts(sch: seq<Course>) returns (ok: bool)
    ensures ok <==> ConflictFree(sch)
  {
    for i := 0 to |sch|
      invariant forall i', j :: 0 <= i' < i && 0 <= j < |sch| && i' != j ==> !Clash(sch[i'], sch[j])
    {
      for j := 0 to |sch|
        invariant forall j' :: 0 <= j' < j && i != j' ==> !Clash(sch[i], sch[j'])
      {
        var c := CourseConflict(sch[i], sch[j]);
        if c && i != j {
          return false;
        }
      }
    }
    return true;
  }

  ghost predicate SessionsWellFormed(sch: seq<Course>)
  {
    forall i, p :: 0 <= i < |sch| && 0 <= p < |sch[i].sessions| ==> WellFormed(sch[i].sessions[p])
  }

  /** Two sections at different positions have sessions whose time intervals intersect. */
  ghost predicate Overlapping(sch: seq<Course>)
  {
    exists i, j, p, q :: 0 <= i < |sch| && 0 <= j < |sch| && i != j &&
      0 <= p < |sch[i].sessions| && 0 <= q < |sch[j].sessions| &&
      Overlap(sch[i].sessions[p], sch[j].sessions[q])
  }

  /**
   * Because both orders are checked, the one-sided conflict test catches
   * containment too: for well-formed sessions a combination passes exactly
   * when no two of its sections meet at overlapping times.
   */
  lemma ConflictFreeIffNoOverlap(sch: seq<Course>)
    requires SessionsWellFormed(sch)
    ensures ConflictFree(sch) <==> !Overlapping(sch)
  {
    if Overlapping(sch) {
      var i, j, p, q :| 0 <= i < |sch| && 0 <= j < |sch| && i != j &&
        0 <= p < |sch[i].sessions| && 0 <= q < |sch[j].sessions| &&
        Overlap(sch[i].sessions[p], sch[j].sessions[q]);
      ConflictEitherWayIsOverlap(sch[i].sessions[p], sch[j].sessions[q]);
      if Conflict(sch[i].sessions[p], sch[j].sessions[q]) {
        assert Clash(sch[i], sch[j]);
      } else {
        assert Clash(sch[j], sch[i]);
      }
    }
    if !ConflictFree(sch) {
      var i, j :| 0 <= i < |sch| && 0 <= j < |sch| && i != j && Clash(sch[i], sch[j]);
      var p, q :| 0 <= p < |sch[i].sessions| && 0 <= q < |sch[j].sessions| &&
        Conflict(sch[i].sessions[p], sch[j].sessions[q]);
      ConflictEitherWayIsOverlap(sch[i].sessions[p], sch[j].sessions[q]);
    }
  }

  // ---------------------------------------------------------------------
  // Filtering and rendering
  // ---------------------------------------------------------------------

  /** `ScheduleCreator.jsonify`: one single-key map per section, in combination order. */
  function Jsonify(sch: seq<Course>): (js: seq<CourseJson>)
    ensures |js| == |sch|
    ensures forall i :: 0 <= i < |sch| ==> js[i].Keys == {sch[i].name}
  {
    seq(|sch|, i requires 0 <= i < |sch| => CourseToJson(sch[i]))
  }

  /** The combinations that pass `no_conflicts`, in enumeration order. */
  ghost function Accepted(combos: seq<seq<Course>>): seq<seq<Course>>
  {
    if combos == [] then []
    else
      var last := combos[|combos| - 1];
      Accepted(combos[..|combos| - 1]) + (if ConflictFree(last) then [last] else [])
  }

  /** Filter soundness and completeness: exactly the conflict-free combinations are kept. */
  lemma {:induction false} AcceptedMembers(combos: seq<seq<Course>>, c: seq<Course>)
    ensures c in Accepted(combos) <==> c in combos && ConflictFree(c)
  {
    if combos != [] {
      AcceptedMembers(combos[..|combos| - 1], c);
      assert combos == combos[..|combos| - 1] + [combos[|combos| - 1]];
    }
  }

  function JsonAll(combos: seq<seq<Course>>): seq<seq<CourseJson>>
  {
    seq(|combos|, i requires 0 <= i < |combos| => Jsonify(combos[i]))
  }

  datatype GatewayResponse = GatewayResponse(
    isBase64Encoded: bool,
    statusCode: int,
    headers: map<string, string>,
    body: seq<seq<CourseJson>>)

  /** `ScheduleCreator.wrap_body_for_awsgatewayapi`. */
  function WrapBody(body: seq<seq<CourseJson>>): GatewayResponse
  {
    GatewayResponse(false, 200, map["Content-Type" := "application/json"], body)
  }

  // ---------------------------------------------------------------------
  // create_from_course_names
  // ---------------------------------------------------------------------

  /** `create_all` for each requested name, in order; the first failure aborts. */
  function Candidates(names: seq<string>, db: Database): Result<seq<seq<Course>>>
  {
    if names == [] then Ok([])
    else match (Candidates(names[..|names| - 1], db), CreateAll(names[|names| - 1], db))
      case (Ok(cands), Ok(sections)) => Ok(cands + [sections])
      case _ => Fail
  }

  /** The candidate lists line up with the names: list i is `create_all(names[i])`. */
  lemma {:induction false} CandidatesSpec(names: seq<string>, db: Database)
    ensures Candidates(names, db).Ok? <==> forall i :: 0 <= i < |names| ==> CreateAll(names[i], db).Ok?
    ensures Candidates(names, db).Ok? ==>
              |Candidates(names, db).value| == |names| &&
              forall i :: 0 <= i < |names| ==> Candidates(names, db).value[i] == CreateAll(names[i], db).value
  {
    if names != [] {
      var init := names[..|names| - 1];
      CandidatesSpec(init, db);
      assert forall i :: 0 <= i < |init| ==> init[i] == names[i];
    }
  }

  lemma {:induction false} CandidatesPrefixFail(names: seq<string>, k: nat, db: Database)
    requires k <= |names| && Candidates(names[..k], db) == Fail
    ensures Candidates(names, db) == Fail
  {
    if k < |names| {
      assert names[..|names| - 1][..k] == names[..k];
      CandidatesPrefixFail(names[..|names| - 1], k, db);
    } else {
      assert names[..k] == names;
    }
  }

  /** The response `create_from_course_names` returns, or `Fail` when a `create_all` call raises. */
  ghost function Response(names: seq<string>, db: Database): Result<GatewayResponse>
  {
    match Candidates(names, db)
    case Fail => Fail
    case Ok(cands) => Ok(WrapBody(JsonAll(Accepted(Enumerated(cands)))))
  }

  /** `ScheduleCreator.create_from_course_names`. */
  method CreateFromCourseNames(names: seq<string>, db: Database) returns (r: Result<GatewayResponse>)
    ensures r == Response(names, db)
    ensures r.Ok? ==> r.value.statusCode == 200 && !r.value.isBase64Encoded &&
                      r.value.headers == map["Content-Type" := "application/json"]
  {
    var schs: seq<seq<Course>> := [];
    ghost var cands: seq<seq<Course>> := [];
    for k := 0 to |names|
      invariant Candidates(names[..k], db) == Ok(cands)
      invariant schs == Enumerated(cands)
    {
      var sections := CreateAll(names[k], db);
      assert names[..k + 1][..k] == names[..k] && names[..k + 1][k] == names[k];
      if sections.Fail? {
        CandidatesPrefixFail(names, k + 1, db);
        return Fail;
      }
      ghost var extended := cands + [sections.value];
      assert extended[..|cands|] == cands;
      assert Candidates(names[..k + 1], db) == Ok(extended);
      schs := AppendPerm(schs, sections.value);
      cands := extended;
    }
    assert names[..|names|] == names;
    var body := RenderConflictFree(schs);
    r := Ok(WrapBody(body));
  }

  /** `[jsonify(sch) for sch in schs if no_conflicts(sch)]`. */
  method RenderConflictFree(schs: seq<seq<Course>>) returns (body: seq<seq<CourseJson>>)
    ensures body == JsonAll(Accepted(schs))
  {
    body := [];
    for k := 0 to |schs|
      invariant body == JsonAll(Accepted(schs[..k]))
    {
      var ok := NoConflicts(schs[k]);
      if ok {
        body := body + [Jsonify(schs[k])];
      }
      assert schs[..k + 1][..k] == schs[..k];
    }
    assert schs[..|schs|] == schs;
  }

  // ---------------------------------------------------------------------
  // What the response holds
  // ---------------------------------------------------------------------

  /** Entry k of the rendered body renders the k-th accepted combination, which was enumerated and is conflict-free. */
  lemma JsonAllSound(combos: seq<seq<Course>>, k: int)
    requires 0 <= k < |JsonAll(Accepted(combos))|
    ensures var acc := Accepted(combos);
      acc[k] in combos && ConflictFree(acc[k]) && JsonAll(acc)[k] == Jsonify(acc[k])
  {
    AcceptedMembers(combos, Accepted(combos)[k]);
  }

  /** Every enumerated conflict-free combination is rendered. */
  lemma JsonAllComplete(combos: seq<seq<Course>>, c: seq<Course>)
    requires c in combos && ConflictFree(c)
    ensures Jsonify(c) in JsonAll(Accepted(combos))
  {
    var acc := Accepted(combos);
    AcceptedMembers(combos, c);
    var k :| 0 <= k < |acc| && acc[k] == c;
    assert JsonAll(acc)[k] == Jsonify(c);
  }

  /** Every entry of the response body renders an enumerated combination that passes the conflict check. */
  lemma ResponseSound(names: seq<string>, db: Database, k: int)
    requires Response(names, db).Ok? && 0 <= k < |Response(names, db).value.body|
    ensures exists c :: (c in Enumerated(Candidates(names, db).value) && ConflictFree(c) &&
                         Response(names, db).value.body[k] == Jsonify(c))
  {
    var combos := Enumerated(Candidates(names, db).value);
    assert Response(names, db).value.body == JsonAll(Accepted(combos));
    JsonAllSound(combos, k);
    var c := Accepted(combos)[k];
    assert c in combos && ConflictFree(c) && Response(names, db).value.body[k] == Jsonify(c);
  }

  /** Every enumerated combination that passes the conflict check is in the response body. */
  lemma ResponseComplete(names: seq<string>, db: Database, c: seq<Course>)
    requires Response(names, db).Ok?
    requires c in Enumerated(Candidates(names, db).value) && ConflictFree(c)
    ensures Jsonify(c) in Response(names, db).value.body
  {
    var combos := Enumerated(Candidates(names, db).value);
    assert Response(names, db).value.body == JsonAll(Accepted(combos));
    JsonAllComplete(combos, c);
  }

  /**
   * When every requested course has a lecture section, the enumeration is
   * the full cross product: one section per requested name, in request
   * order, each a lecture section that `create_all` returned for that name,
   * and as many combinations as the product of the section counts.
   */
  lemma ResponseAllCourses(names: seq<string>, db: Database, c: seq<Course>)
    requires names != []
    requires forall i :: 0 <= i < |names| ==> CreateAll(names[i], db).Ok? && CreateAll(names[i], db).value != []
    ensures Candidates(names, db).Ok?
    ensures var cands := Candidates(names, db).value;
      |Enumerated(cands)| == Count(cands) &&
      (c in Enumerated(cands) <==> |c| == |names| && forall i :: 0 <= i < |c| ==> c[i] in CreateAll(names[i], db).value)
  {
    CandidatesSpec(names, db);
    var cands := Candidates(names, db).value;
    EnumeratedIsProduct(cands);
    ProductSize(cands);
    ProductMembers(cands, c);
  }

  /**
   * A requested course that has no lecture section makes the response the
   * same as for the names after it alone: the courses before it vanish
   * from every combination.
   */
  lemma ResponseRestarts(names: seq<string>, db: Database, k: int)
    requires 0 <= k < |names|
    requires forall i :: 0 <= i <= k ==> CreateAll(names[i], db).Ok?
    requires CreateAll(names[k], db) == Ok([])
    ensures Response(names, db) == Response(names[k + 1..], db)
  {
    var suffix := names[k + 1..];
    CandidatesSpec(names, db);
    CandidatesSpec(suffix, db);
    assert forall i :: 0 <= i < |suffix| ==> suffix[i] == names[k + 1 + i];
    if Candidates(names, db).Ok? {
      var cands := Candidates(names, db).value;
      EnumeratedRestarts(cands, k);
      assert cands[k + 1..] == Candidates(suffix, db).value;
    } else {
      var i :| 0 <= i < |names| && !CreateAll(names[i], db).Ok?;
      assert !CreateAll(suffix[i - k - 1], db).Ok?;
    }
  }
}
