/**
 * The course database the generator reads and the scraper writes:
 * department -> course name -> section name -> section record.
 * The department and course levels are only looked up, so they are maps; the
 * section level is iterated in order, so it is a `Dict`.
 */
module CourseDb {
  import opened PyDict

  /**
   * One section as the scraper stores it.  `activity`, `term`, `days`,
   * `startTime` and `endTime` are parallel: index i describes one weekly
   * meeting block, and `days[i]` is a space-separated list of weekdays.
   */
  datatype SectionRecord = SectionRecord(
    status: string,
    activity: seq<string>,
    term: seq<string>,
    interval: string,
    days: seq<string>,
    startTime: seq<string>,
    endTime: seq<string>)

  type Sections = Dict<string, SectionRecord>

  type Database = map<string, map<string, Sections>>
}
