/**
 * `Course` of lamda/course.py: a named section with its weekly sessions,
 * the section-level conflict test, its JSON form, and `create_all`, which
 * picks the lecture sections of a requested course out of the database.
 */
module Courses {
  import opened PyStr
  import opened Outcomes
  import opened PyDict
  import opened CourseDb
  import opened Sessions

  datatype Course = Course(name: string, sessions: seq<ClassSession>)

  /** Some session of `c` conflicts with some session of `other`, in that order. */
  ghost predicate Clash(c: Course, other: Course)
  {
    exists i, j :: 0 <= i < |c.sessions| && 0 <= j < |other.sessions| &&
      Conflict(c.sessions[i], other.sessions[j])
  }

  /** `Course.conflict`: a nested search that returns at the first conflicting pair. */
  method CourseConflict(c: Course, other: Course) returns (r: bool)
    ensures r <==> Clash(c, other)
  {
    for i := 0 to |c.sessions|
      invariant forall i', j :: 0 <= i' < i && 0 <= j < |other.sessions| ==>
                  !Conflict(c.sessions[i'], other.sessions[j])
    {
      for j := 0 to |other.sessions|
        invariant forall j' :: 0 <= j' < j ==> !Conflict(c.sessions[i], other.sessions[j'])
      {
        if Conflict(c.sessions[i], other.sessions[j]) {
          return true;
        }
      }
    }
    return false;
  }

  // ---------------------------------------------------------------------
  // JSON form
  // ---------------------------------------------------------------------

  type CourseJson = map<string, seq<SessionJson>>

  /** `Course.json()`: a single-key map from the section name to its sessions' JSON. */
  function CourseToJson(c: Course): (m: CourseJson)
    ensures m.Keys == {c.name}
    ensures |m[c.name]| == |c.sessions|
  {
    map[c.name := seq(|c.sessions|, i requires 0 <= i < |c.sessions| => SessionToJson(c.sessions[i]))]
  }

  /** Reads a single-key course map back. */
  ghost function CourseFromJson(m: CourseJson): Course
    requires |m.Keys| == 1
    requires forall name, k :: name in m && 0 <= k < |m[name]| ==>
               "term" in m[name][k] && "day" in m[name][k] && "start" in m[name][k] && "end" in m[name][k]
  {
    var name :| name in m;
    Course(name, seq(|m[name]|, k requires 0 <= k < |m[name]| => SessionFromJson(m[name][k])))
  }

  /** The JSON form of a section keeps its name and every session, in order. */
  lemma CourseJsonRoundTrip(c: Course)
    ensures CourseFromJson(CourseToJson(c)) == c
  {
    var m := CourseToJson(c);
    assert |m.Keys| == 1 by { assert m.Keys == {c.name}; }
    var back := CourseFromJson(m);
    assert back.name == c.name;
    forall k | 0 <= k < |c.sessions| ensures back.sessions[k] == c.sessions[k] {
      SessionJsonRoundTrip(c.sessions[k]);
    }
  }

  // ---------------------------------------------------------------------
  // create_all
  // ---------------------------------------------------------------------

  /** The section's first activity is "Lecture". */
  predicate IsLecture(info: SectionRecord)
  {
    |info.activity| > 0 && info.activity[0] == "Lecture"
  }

  /** The lecture entries of a section map, in map order. */
  function LectureEntries(secs: Sections): Sections
  {
    if secs == [] then []
    else (if IsLecture(secs[0].1) then [secs[0]] else []) + LectureEntries(secs[1..])
  }

  /** The lecture entries are exactly the entries whose first activity is "Lecture". */
  lemma {:induction false} LectureEntriesMembers(secs: Sections, e: (string, SectionRecord))
    ensures e in LectureEntries(secs) <==> e in secs && IsLecture(e.1)
  {
    if secs != [] {
      LectureEntriesMembers(secs[1..], e);
      assert secs == [secs[0]] + secs[1..];
    }
  }

  /**
   * The comprehension of `Course.create_all` over one section map:
   * `activity[0]` of an empty list raises IndexError, and so does
   * expanding a lecture whose lists are too short.
   */
  function Lectures(secs: Sections): Result<seq<Course>>
  {
    if secs == [] then Ok([])
    else
      var name := secs[0].0;
      var info := secs[0].1;
      if |info.activity| == 0 then Fail
      else if info.activity[0] != "Lecture" then Lectures(secs[1..])
      else match (Expand(info), Lectures(secs[1..]))
        case (Ok(ss), Ok(rest)) => Ok([Course(name, ss)] + rest)
        case _ => Fail
  }

  /** Every section has an activity, and every lecture section expands. */
  predicate LecturesExpand(secs: Sections)
  {
    forall i :: 0 <= i < |secs| ==> |secs[i].1.activity| > 0 && (IsLecture(secs[i].1) ==> Expand(secs[i].1).Ok?)
  }

  lemma {:induction false} LecturesOk(secs: Sections)
    ensures Lectures(secs).Ok? <==> LecturesExpand(secs)
  {
    if secs != [] {
      LecturesOk(secs[1..]);
      var head := |secs[0].1.activity| > 0 && (IsLecture(secs[0].1) ==> Expand(secs[0].1).Ok?);
      if LecturesExpand(secs[1..]) && head {
        forall i | 0 <= i < |secs|
          ensures |secs[i].1.activity| > 0 && (IsLecture(secs[i].1) ==> Expand(secs[i].1).Ok?)
        {
          if i > 0 { assert secs[i] == secs[1..][i - 1]; }
        }
      }
      if LecturesExpand(secs) {
        forall i | 0 <= i < |secs[1..]|
          ensures |secs[1..][i].1.activity| > 0 && (IsLecture(secs[1..][i].1) ==> Expand(secs[1..][i].1).Ok?)
        {
          assert secs[1..][i] == secs[i + 1];
        }
      }
    }
  }

  /**
   * A successful result holds one course per lecture entry, in map order,
   * named by the entry's key and holding the expansion of its record.
   */
  lemma {:induction false} LecturesContent(secs: Sections)
    requires Lectures(secs).Ok?
    ensures var cs, es := Lectures(secs).value, LectureEntries(secs);
      |cs| == |es| &&
      forall i :: 0 <= i < |cs| ==> cs[i].name == es[i].0 && Expand(es[i].1) == Ok(cs[i].sessions)
  {
    if secs != [] {
      var info := secs[0].1;
      assert Lectures(secs[1..]).Ok?;
      LecturesContent(secs[1..]);
      var rest, es' := Lectures(secs[1..]).value, LectureEntries(secs[1..]);
      if IsLecture(info) {
        assert LectureEntries(secs) == [secs[0]] + es';
        assert Lectures(secs).value == [Course(secs[0].0, Expand(info).value)] + rest;
      } else {
        assert LectureEntries(secs) == es';
        assert Lectures(secs).value == rest;
      }
    }
  }

  /** `Course.create_all`: split the name into department and number, then look up the full name. */
  function CreateAll(courseName: string, db: Database): Result<seq<Course>>
  {
    var parts := SplitOn(courseName, ' ');
    if |parts| != 2 then Fail
    else if parts[0] !in db || courseName !in db[parts[0]] then Fail
    else Lectures(db[parts[0]][courseName])
  }

  /**
   * A name with no space or more than one fails (the two-target unpacking
   * raises); otherwise `create_all` reads `db[dept][name]`, keyed by the full
   * name, and fails when either key is missing.
   */
  lemma CreateAllLookup(dept: string, number: string, db: Database)
    requires ' ' !in dept && ' ' !in number
    ensures var name := dept + " " + number;
      CreateAll(name, db) ==
        if dept in db && name in db[dept] then Lectures(db[dept][name]) else Fail
  {
    JoinSplitOn([dept, number], ' ');
    assert Join([dept, number], ' ') == dept + " " + number;
  }

  lemma CreateAllNeedsOneSpace(courseName: string, db: Database)
    requires multiset(courseName)[' '] != 1
    ensures CreateAll(courseName, db) == Fail
  {
    SplitOnCount(courseName, ' ');
  }
}
