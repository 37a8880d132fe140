/**
 * `analyze.py`: the question the maintainers ask of a downloaded database,
 * which kinds of activity its sections start with.
 */
module Analyze {
  import opened PyStr
  import opened CourseDb
  import opened Courses

  /** `get_activity_types(db)`: the first activity of every section that has one. */
  function ActivityTypes(db: Database): set<string>
  {
    set d, c, e | d in db && c in db[d] && e in db[d][c] && e.1.activity != [] :: e.1.activity[0]
  }

  /** Every section with an activity contributes its first activity, wherever it sits in the database. */
  lemma ActivityTypesHas(db: Database, d: string, c: string, e: (string, SectionRecord))
    requires d in db && c in db[d] && e in db[d][c] && e.1.activity != []
    ensures e.1.activity[0] in ActivityTypes(db)
  {
  }

  /** Every activity type is the first activity of some section that has one. */
  lemma ActivityTypesFrom(db: Database, a: string)
    requires a in ActivityTypes(db)
    ensures exists d, c, e :: d in db && c in db[d] && e in db[d][c] && e.1.activity != [] && a == e.1.activity[0]
  {
  }

  /** A course name for which `create_all` finds a lecture makes "Lecture" one of the activity types. */
  lemma LectureInActivityTypes(courseName: string, db: Database)
    requires CreateAll(courseName, db).Ok? && CreateAll(courseName, db).value != []
    ensures "Lecture" in ActivityTypes(db)
  {
    var d := SplitOn(courseName, ' ')[0];
    var secs := db[d][courseName];
    LecturesContent(secs);
    var e := LectureEntries(secs)[0];
    LectureEntriesMembers(secs, e);
    ActivityTypesHas(db, d, courseName, e);
  }
}
