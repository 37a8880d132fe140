/**
 * `util.py`, the second copy of the UBC scraper.  Its section-table parser is
 * the same as `ubc.py`'s (`Ubc.ParseCourseSections`).  It differs in two
 * places: it binds `COURSE_RE` twice, so the department pattern replaces the
 * course-number pattern, and `is_full` sends an extra `req` parameter.
 */
module Util {
  import opened Outcomes
  import opened PyStr
  import Ubc

  /** The pattern `COURSE_RE` names once the module has loaded: the second binding wins. */
  const CourseRe: Ubc.Pattern := Ubc.DepartmentCode

  /** `extract_field(field, url_endpoint, default)` as written: both fields search with `COURSE_RE`. */
  function ExtractField(field: string, urlEndpoint: string, default: Option<string>): (r: Option<string>)
    ensures field != "course" && field != "department" ==> r == default
  {
    if field == "course" then Ubc.GroupOr(Ubc.Search(CourseRe, urlEndpoint, 0), default)
    else if field == "department" then Ubc.GroupOr(Ubc.Search(CourseRe, urlEndpoint, 0), default)
    else default
  }

  /**
   * Asking for `'course'` gives exactly what asking for `'department'` gives,
   * in this file and in `ubc.py`: the department code.
   */
  lemma CourseFieldIsDepartment(u: string, default: Option<string>)
    ensures ExtractField("course", u, default) == ExtractField("department", u, default)
    ensures ExtractField("course", u, default) == Ubc.ExtractField("department", u, default)
  {
  }

  /** On the CPSC 221 link, `'course'` yields "CPSC" here and "221" in `ubc.py`. */
  lemma CourseFieldDisagrees()
    ensures ExtractField("course", Ubc.CourseLink, None) == Some("CPSC")
    ensures Ubc.ExtractField("course", Ubc.CourseLink, None) == Some("221")
  {
    Ubc.DepartmentFromCourseLink();
    Ubc.CourseFromCourseLink();
  }

  /** The query parameters this file's `is_full` sends, or the ValueError it raises. */
  function IsFullQuery(course: string): (r: Result<map<string, string>>)
    ensures r.Ok? <==> Ubc.IsFullQuery(course).Ok?
    ensures r.Ok? ==> r.value == Ubc.IsFullQuery(course).value["req" := "5"]
  {
    var parsed := SplitWs(course);
    if |parsed| != 3 then Fail
    else Ok(map["req" := "5", "dept" := parsed[0], "course" := parsed[1], "section" := parsed[2]])
  }

  /** The three parts of a well-formed course string come back as parameters, beside `req=5`. */
  lemma IsFullQueryParts(dept: string, number: string, section: string)
    requires Ubc.Token(dept) && Ubc.Token(number) && Ubc.Token(section)
    ensures IsFullQuery(dept + " " + number + " " + section) ==
            Ok(map["req" := "5", "dept" := dept, "course" := number, "section" := section])
  {
    Ubc.IsFullQueryParts(dept, number, section);
  }
}
