/**
 * The generator revision, lamda/schedulecreator.py.  `append_perm` returns
 * a generator instead of a list; the element order is the same, and the
 * model materialises it.  The one observable difference is truthiness: a
 * list is false when empty, a generator object is always true, so after the
 * first course `append_perm` never again restarts from singletons.
 * `no_conflicts` and `jsonify_schedule` are the same code as in
 * lamda/course.py and reuse `ScheduleCreator.NoConflicts` and
 * `ScheduleCreator.Jsonify`.
 */
module GeneratorScheduleCreator {
  import opened Outcomes
  import opened CourseDb
  import opened Courses
  import opened CrossProduct
  import opened ScheduleCreator

  /** The value bound to `schs`: the initial list, or a generator of combinations. */
  datatype Combos<T> = List(items: seq<seq<T>>) | Generator(items: seq<seq<T>>)

  /** Python truthiness of `schs`. */
  predicate Truthy<T>(it: Combos<T>)
  {
    it.Generator? || it.items != []
  }

  /** `append_perm(iterable_lists, new_items)` of the generator revision. */
  function AppendPerm<T>(it: Combos<T>, newItems: seq<T>): (r: Combos<T>)
    ensures Truthy(r)
  {
    if !Truthy(it) then Generator(Row([], newItems)) else Generator(Extend(it.items, newItems))
  }

  /** `schs` after the loop over the candidate lists. */
  function Schedules<T>(cands: seq<seq<T>>): Combos<T>
  {
    if cands == [] then List([]) else AppendPerm(Schedules(cands[..|cands| - 1]), cands[|cands| - 1])
  }

  /**
   * No restart: for a non-empty request the enumeration is the full cross
   * product, and an empty request enumerates nothing.
   */
  lemma {:induction false} SchedulesIsProduct<T>(cands: seq<seq<T>>)
    ensures Schedules(cands).items == if cands == [] then [] else Product(cands)
    ensures cands != [] ==> Schedules(cands).Generator?
  {
    if cands != [] {
      var init := cands[..|cands| - 1];
      var last := cands[|cands| - 1];
      SchedulesIsProduct(init);
      if init == [] {
        var unit: seq<seq<T>> := [[]];
        assert unit[..0] == [];
        assert Schedules(init) == List([]);
        assert Schedules(cands).items == Row([], last);
        assert Product(cands) == Extend(unit, last);
      } else {
        assert Schedules(init).Generator?;
        assert Schedules(cands).items == Extend(Product(init), last);
      }
    }
  }

  /**
   * As many combinations as the product of the candidate counts, so none at
   * all when any course, at any position, has no candidate.
   */
  lemma SchedulesCount<T>(cands: seq<seq<T>>)
    requires cands != []
    ensures |Schedules(cands).items| == Count(cands)
    ensures Schedules(cands).items == [] <==> exists i :: 0 <= i < |cands| && cands[i] == []
  {
    SchedulesIsProduct(cands);
    ProductSize(cands);
    CountZero(cands);
  }

  /** Every combination has one candidate per course, in course order, and every such pick occurs. */
  lemma SchedulesMembers<T>(cands: seq<seq<T>>, c: seq<T>)
    requires cands != []
    ensures c in Schedules(cands).items <==> Picks(cands, c)
  {
    SchedulesIsProduct(cands);
    ProductMembers(cands, c);
  }

  /**
   * The two revisions differ when a course in the middle has no candidate:
   * the list revision restarts after it, the generator revision yields nothing.
   */
  lemma RevisionsDiffer<T>(a: T, b: T)
    ensures ScheduleCreator.Enumerated([[a], [], [b]]) == [[b]]
    ensures Schedules([[a], [], [b]]).items == []
  {
    var cands := [[a], [], [b]];
    EnumeratedRestarts(cands, 1);
    var last: seq<seq<T>> := [[b]];
    assert cands[2..] == last && last[..0] == [];
    assert ScheduleCreator.Enumerated(last) == Row([], [b]);
    assert Row([], [b])[0] == [] + [b] == [b];
    SchedulesCount(cands);
  }

  /** What `create_from_course_names` of the generator revision returns, or `Fail` when a `create_all` call raises. */
  ghost function Response(names: seq<string>, db: Database): Result<seq<seq<CourseJson>>>
  {
    match Candidates(names, db)
    case Fail => Fail
    case Ok(cands) => Ok(JsonAll(Accepted(Schedules(cands).items)))
  }

  /** `create_from_course_names` of lamda/schedulecreator.py. */
  method CreateFromCourseNames(names: seq<string>, db: Database) returns (r: Result<seq<seq<CourseJson>>>)
    ensures r == Response(names, db)
  {
    var schs: Combos<Course> := List([]);
    ghost var cands: seq<seq<Course>> := [];
    for k := 0 to |names|
      invariant Candidates(names[..k], db) == Ok(cands)
      invariant schs == Schedules(cands)
    {
      var sections := CreateAll(names[k], db);
      assert names[..k + 1][..k] == names[..k] && names[..k + 1][k] == names[k];
      if sections.Fail? {
        CandidatesPrefixFail(names, k + 1, db);
        return Fail;
      }
      ghost var extended := cands + [sections.value];
      assert extended[..|cands|] == cands;
      assert Candidates(names[..k + 1], db) == Ok(extended);
      schs := AppendPerm(schs, sections.value);
      cands := extended;
    }
    assert names[..|names|] == names;
    var body := RenderConflictFree(schs.items);
    r := Ok(body);
  }

  /** An empty request yields an empty result. */
  lemma EmptyRequest(db: Database)
    ensures Response([], db) == Ok([])
  {
    var none: seq<seq<Course>> := [];
    assert Candidates([], db) == Ok(none);
    assert Schedules(none).items == [] && Accepted([]) == [] && JsonAll([]) == [];
  }

  /** `c` picks, for each requested name in order, one lecture section `create_all` returns for it. */
  ghost predicate PicksLectures(names: seq<string>, db: Database, c: seq<Course>)
  {
    |c| == |names| &&
    forall i :: 0 <= i < |names| ==> CreateAll(names[i], db).Ok? && c[i] in CreateAll(names[i], db).value
  }

  lemma PicksAreLectures(names: seq<string>, db: Database, c: seq<Course>)
    requires names != [] && Candidates(names, db).Ok?
    ensures c in Schedules(Candidates(names, db).value).items <==> PicksLectures(names, db, c)
  {
    CandidatesSpec(names, db);
    SchedulesMembers(Candidates(names, db).value, c);
  }

  /**
   * Every rendered schedule is a conflict-free pick of one lecture section
   * per requested name, in request order.
   */
  lemma ResponseSound(names: seq<string>, db: Database, k: int)
    requires names != [] && Response(names, db).Ok? && 0 <= k < |Response(names, db).value|
    ensures exists c :: PicksLectures(names, db, c) && ConflictFree(c) && Response(names, db).value[k] == Jsonify(c)
  {
    var combos := Schedules(Candidates(names, db).value).items;
    assert Response(names, db).value == JsonAll(Accepted(combos));
    JsonAllSound(combos, k);
    var c := Accepted(combos)[k];
    PicksAreLectures(names, db, c);
  }

  /** Every conflict-free pick of one lecture section per requested name is rendered. */
  lemma ResponseComplete(names: seq<string>, db: Database, c: seq<Course>)
    requires names != [] && Response(names, db).Ok?
    requires PicksLectures(names, db, c) && ConflictFree(c)
    ensures Jsonify(c) in Response(names, db).value
  {
    var combos := Schedules(Candidates(names, db).value).items;
    assert Response(names, db).value == JsonAll(Accepted(combos));
    PicksAreLectures(names, db, c);
    JsonAllComplete(combos, c);
  }

  /** A requested course without a lecture section, at any position, leaves nothing to return. */
  lemma NoLectureEmptiesResponse(names: seq<string>, db: Database, k: int)
    requires 0 <= k < |names| && CreateAll(names[k], db) == Ok([])
    requires Response(names, db).Ok?
    ensures Response(names, db).value == []
  {
    CandidatesSpec(names, db);
    var cands := Candidates(names, db).value;
    SchedulesCount(cands);
    assert cands[k] == [];
  }
}
