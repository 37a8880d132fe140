/**
 * The pure parts of the UBC course-schedule scraper in `ubc.py`: turning the
 * rows of a course page's section table into the section records the
 * database stores, pulling the course number or department code out of a
 * link, and the argument check of `is_full`.
 */
module Ubc {
  import opened Outcomes
  import opened PyStr
  import opened PyDict
  import opened CourseDb

  // ---------------------------------------------------------------------
  // The section table
  // ---------------------------------------------------------------------

  /**
   * The stripped texts of the cells of one table row.  A well-formed row has
   * nine cells: status, section, activity, term, interval, days, start time,
   * end time, comments.  A section name of "" marks a row that continues the
   * section above it.
   */
  type Row = seq<string>

  predicate AllNine(rows: seq<Row>)
  {
    forall i :: 0 <= i < |rows| ==> |rows[i]| == 9
  }

  /** The record a row that names a section starts. */
  function NewRecord(row: Row): SectionRecord
    requires |row| == 9
  {
    SectionRecord(row[0], [row[2]], [row[3]], row[4], [row[5]], [row[6]], [row[7]])
  }

  /** A continuation row adds one meeting block; its status, interval and comments are dropped. */
  function Attach(rec: SectionRecord, row: Row): SectionRecord
    requires |row| == 9
  {
    rec.(activity := rec.activity + [row[2]], term := rec.term + [row[3]],
         days := rec.days + [row[5]], startTime := rec.startTime + [row[6]],
         endTime := rec.endTime + [row[7]])
  }

  /** The parser's two variables: the dict built so far and the last section name seen. */
  datatype ParseState = ParseState(info: Sections, last: Option<string>)

  /** The parser's state is consistent: the last section name is a key of the dict. */
  predicate Consistent(st: ParseState)
  {
    st.last.Some? ==> st.last.value in Keys(st.info)
  }

  /**
   * One iteration of the parser's loop.  A row without exactly nine cells
   * fails the tuple unpacking; a continuation row before any section row
   * reads `last_section` before it is bound.  Both abort the parse.
   */
  function Step(st: ParseState, row: Row): (r: Result<ParseState>)
    requires Consistent(st)
    ensures r.Ok? ==> Consistent(r.value) && r.value.last.Some?
  {
    if |row| != 9 then Fail
    else if row[1] != "" then
      Ok(ParseState(Put(st.info, row[1], NewRecord(row)), Some(row[1])))
    else if st.last.None? then Fail
    else
      var name := st.last.value;
      Ok(ParseState(Put(st.info, name, Attach(Get(st.info, name), row)), st.last))
  }

  /** The state after the parser has consumed `rows`. */
  function Parsed(rows: seq<Row>): (r: Result<ParseState>)
    ensures r.Ok? ==> Consistent(r.value) && (r.value.last.Some? <==> rows != [])
  {
    if rows == [] then Ok(ParseState([], None))
    else
      match Parsed(rows[..|rows| - 1])
      case Fail => Fail
      case Ok(st) => Step(st, rows[|rows| - 1])
  }

  /** What `_parse_course_sections` returns for `rows`. */
  function ParsedSections(rows: seq<Row>): Result<Sections>
  {
    match Parsed(rows)
    case Ok(st) => Ok(st.info)
    case Fail => Fail
  }

  lemma {:induction false} ParsedPrefixFail(rows: seq<Row>, k: nat)
    requires k <= |rows| && Parsed(rows[..k]).Fail?
    ensures Parsed(rows).Fail?
    decreases |rows| - k
  {
    if k < |rows| {
      assert rows[..k + 1][..k] == rows[..k];
      ParsedPrefixFail(rows, k + 1);
    } else {
      assert rows[..k] == rows;
    }
  }

  /** `CourseScrapper._parse_course_sections`. */
  method ParseCourseSections(courseSectionsInfo: seq<Row>) returns (r: Result<Sections>)
    ensures r == ParsedSections(courseSectionsInfo)
  {
    var courseInfo: Sections := [];
    var lastSection: Option<string> := None;
    for k := 0 to |courseSectionsInfo|
      invariant Parsed(courseSectionsInfo[..k]) == Ok(ParseState(courseInfo, lastSection))
    {
      var sectionInfo := courseSectionsInfo[k];
      assert courseSectionsInfo[..k + 1][..k] == courseSectionsInfo[..k];
      if |sectionInfo| != 9 {
        ParsedPrefixFail(courseSectionsInfo, k + 1);
        return Fail;
      }
      var section := sectionInfo[1];
      if section != "" {
        lastSection := Some(section);
        courseInfo := Put(courseInfo, section, NewRecord(sectionInfo));
      } else {
        if lastSection.None? {
          ParsedPrefixFail(courseSectionsInfo, k + 1);
          return Fail;
        }
        var info := Get(courseInfo, lastSection.value);
        courseInfo := Put(courseInfo, lastSection.value, Attach(info, sectionInfo));
      }
    }
    assert courseSectionsInfo[..|courseSectionsInfo|] == courseSectionsInfo;
    return Ok(courseInfo);
  }

  lemma AllNineSnoc(init: seq<Row>, row: Row)
    ensures AllNine(init + [row]) <==> AllNine(init) && |row| == 9
  {
    var rows := init + [row];
    assert rows[|init|] == row;
    if AllNine(rows) {
      forall i | 0 <= i < |init| ensures |init[i]| == 9 {
        assert init[i] == rows[i];
      }
    }
  }

  /** The parser succeeds exactly when every row has nine cells and the first row names a section. */
  lemma {:induction false} ParsedOk(rows: seq<Row>)
    ensures Parsed(rows).Ok? <==> AllNine(rows) && (rows == [] || rows[0][1] != "")
  {
    if rows != [] {
      var init := rows[..|rows| - 1];
      var row := rows[|rows| - 1];
      assert rows == init + [row];
      ParsedOk(init);
      AllNineSnoc(init, row);
      if init != [] {
        assert rows[0] == init[0];
      } else {
        assert rows[0] == row;
      }
      if Parsed(init).Ok? {
        assert Parsed(rows) == Step(Parsed(init).value, row);
      }
    }
  }

  /** A row that names section `k`. */
  predicate Names(row: Row, k: string)
  {
    |row| == 9 && row[1] == k && k != ""
  }

  /** Some row names section `k`. */
  predicate Named(rows: seq<Row>, k: string)
  {
    exists i :: 0 <= i < |rows| && Names(rows[i], k)
  }

  lemma NamedSnoc(init: seq<Row>, row: Row, k: string)
    ensures Named(init + [row], k) <==> Named(init, k) || Names(row, k)
  {
    var rows := init + [row];
    assert rows[|init|] == row;
    if Named(rows, k) {
      var i :| 0 <= i < |rows| && Names(rows[i], k);
      if i < |init| {
        assert init[i] == rows[i];
      }
    }
    if Named(init, k) {
      var i :| 0 <= i < |init| && Names(init[i], k);
      assert rows[i] == init[i];
    }
  }

  /** Every section name occurs once. */
  lemma {:induction false} ParsedDistinct(rows: seq<Row>)
    requires Parsed(rows).Ok?
    ensures DistinctKeys(Parsed(rows).value.info)
  {
    if rows != [] {
      var init := rows[..|rows| - 1];
      var row := rows[|rows| - 1];
      var st := Parsed(init).value;
      assert Parsed(rows) == Step(st, row);
      ParsedDistinct(init);
      if row[1] != "" {
        PutDistinct(st.info, row[1], NewRecord(row));
      } else {
        PutDistinct(st.info, st.last.value, Attach(Get(st.info, st.last.value), row));
      }
    }
  }

  /** The sections are exactly the names the rows carry. */
  lemma {:induction false} ParsedKeys(rows: seq<Row>, k: string)
    requires Parsed(rows).Ok?
    ensures k in Keys(Parsed(rows).value.info) <==> Named(rows, k)
  {
    if rows != [] {
      var init := rows[..|rows| - 1];
      var row := rows[|rows| - 1];
      assert rows == init + [row];
      var st := Parsed(init).value;
      assert Parsed(rows) == Step(st, row);
      ParsedKeys(init, k);
      NamedSnoc(init, row, k);
      var keys := Keys(Parsed(rows).value.info);
      if row[1] != "" {
        assert keys == if row[1] in Keys(st.info) then Keys(st.info) else Keys(st.info) + [row[1]];
      } else {
        assert keys == Keys(st.info);
      }
    }
  }

  /** The section names in the order they first appear: the dict's key order. */
  function FirstNames(rows: seq<Row>): seq<string>
  {
    if rows == [] then []
    else
      var init, row := rows[..|rows| - 1], rows[|rows| - 1];
      var isNew := |row| == 9 && row[1] != "" && !Named(init, row[1]);
      FirstNames(init) + (if isNew then [row[1]] else [])
  }

  /** The sections come out in the order their names first appear in the table. */
  lemma {:induction false} ParsedKeyOrder(rows: seq<Row>)
    requires Parsed(rows).Ok?
    ensures Keys(Parsed(rows).value.info) == FirstNames(rows)
  {
    if rows != [] {
      var init := rows[..|rows| - 1];
      var row := rows[|rows| - 1];
      var st := Parsed(init).value;
      assert Parsed(rows) == Step(st, row);
      ParsedKeyOrder(init);
      var keys := Keys(Parsed(rows).value.info);
      if row[1] != "" {
        ParsedKeys(init, row[1]);
        assert keys == if row[1] in Keys(st.info) then Keys(st.info) else Keys(st.info) + [row[1]];
      } else {
        assert keys == Keys(st.info);
      }
    }
  }

  /** A row that continues the section above it. */
  predicate Continues(row: Row)
  {
    |row| == 9 && row[1] == ""
  }

  /** `q` is the last row that names a section, and it names `k`. */
  predicate LastNamed(rows: seq<Row>, q: int, k: string)
  {
    0 <= q < |rows| && Names(rows[q], k) && forall j :: q < j < |rows| ==> Continues(rows[j])
  }

  lemma LastNamedSnoc(init: seq<Row>, row: Row, q: int, k: string)
    requires LastNamed(init, q, k) && Continues(row)
    ensures LastNamed(init + [row], q, k)
  {
    var rows := init + [row];
    assert rows[q] == init[q];
    forall j | q < j < |rows| ensures Continues(rows[j]) {
      if j < |init| {
        assert rows[j] == init[j];
      }
    }
  }

  lemma LastNamedHere(init: seq<Row>, row: Row)
    requires |row| == 9 && row[1] != ""
    ensures LastNamed(init + [row], |init|, row[1])
  {
    assert (init + [row])[|init|] == row;
  }

  /** `last_section` is the name carried by the last row that names a section. */
  lemma {:induction false} ParsedLast(rows: seq<Row>)
    requires Parsed(rows).Ok? && Parsed(rows).value.last.Some?
    ensures exists q :: LastNamed(rows, q, Parsed(rows).value.last.value)
  {
    var init := rows[..|rows| - 1];
    var row := rows[|rows| - 1];
    assert rows == init + [row];
    var st := Parsed(init).value;
    assert Parsed(rows) == Step(st, row);
    if row[1] != "" {
      LastNamedHere(init, row);
    } else {
      ParsedLast(init);
      var q :| LastNamed(init, q, st.last.value);
      LastNamedSnoc(init, row, q, st.last.value);
    }
  }

  /** The first row at or after `q` that is not a continuation row, or the end of the table. */
  function RunEnd(rows: seq<Row>, q: nat): (e: nat)
    requires q <= |rows|
    ensures q <= e <= |rows|
    ensures forall j :: q <= j < e ==> Continues(rows[j])
    ensures e < |rows| ==> !Continues(rows[e])
    decreases |rows| - q
  {
    if q == |rows| || !Continues(rows[q]) then q else RunEnd(rows, q + 1)
  }

  /** How one more row at the end moves the end of a run. */
  lemma {:induction false} RunEndSnoc(rows: seq<Row>, row: Row, q: nat)
    requires q <= |rows|
    ensures RunEnd(rows + [row], q) ==
      if RunEnd(rows, q) < |rows| || !Continues(row) then RunEnd(rows, q) else |rows| + 1
    decreases |rows| - q
  {
    var rows' := rows + [row];
    if q < |rows| {
      assert rows'[q] == rows[q];
      if Continues(rows[q]) {
        RunEndSnoc(rows, row, q + 1);
      }
    } else {
      assert rows'[q] == row;
    }
  }

  /** Cell `c` of every row of `group`. */
  function Column(group: seq<Row>, c: nat): (col: seq<string>)
    requires AllNine(group) && c < 9
    ensures |col| == |group|
    ensures forall i :: 0 <= i < |group| ==> col[i] == group[i][c]
  {
    if group == [] then [] else Column(group[..|group| - 1], c) + [group[|group| - 1][c]]
  }

  /**
   * The record of a section whose rows are `group`: the first row names the
   * section and gives its status and interval; every row gives one meeting block.
   */
  function Record(group: seq<Row>): SectionRecord
    requires |group| >= 1 && AllNine(group)
  {
    SectionRecord(group[0][0], Column(group, 2), Column(group, 3), group[0][4],
                  Column(group, 5), Column(group, 6), Column(group, 7))
  }

  lemma NewRecordIsRecord(row: Row)
    requires |row| == 9
    ensures NewRecord(row) == Record([row])
  {
  }

  lemma AttachIsRecord(group: seq<Row>, row: Row)
    requires |group| >= 1 && AllNine(group) && |row| == 9
    ensures AllNine(group + [row]) && Attach(Record(group), row) == Record(group + [row])
  {
    var g := group + [row];
    assert g[..|g| - 1] == group;
  }

  /** The record under `rows[p][1]` in `info` is built from row `p` and the continuation rows below it. */
  predicate RecordAt(rows: seq<Row>, p: nat, info: Sections)
    requires p < |rows| && |rows[p]| == 9
  {
    var e := RunEnd(rows, p + 1);
    AllNine(rows[p..e]) && rows[p][1] in Keys(info) && Get(info, rows[p][1]) == Record(rows[p..e])
  }

  /**
   * The record stored under a section name is built from the last row that
   * names it and the continuation rows right below that row.
   */
  lemma {:induction false} ParsedRecord(rows: seq<Row>, p: nat)
    requires Parsed(rows).Ok?
    requires p < |rows| && |rows[p]| == 9 && rows[p][1] != ""
    requires forall q :: p < q < |rows| ==> !Names(rows[q], rows[p][1])
    ensures RecordAt(rows, p, Parsed(rows).value.info)
  {
    if p < |rows| - 1 {
      var init := rows[..|rows| - 1];
      assert init[p] == rows[p];
      forall q | p < q < |init| ensures !Names(init[q], init[p][1]) {
        assert init[q] == rows[q];
      }
      ParsedRecord(init, p);
    }
    RecordSnoc(rows, p);
  }

  /** The closed form for `rows` follows from the closed form for all rows but the last. */
  lemma RecordSnoc(rows: seq<Row>, p: nat)
    requires Parsed(rows).Ok?
    requires p < |rows| && |rows[p]| == 9 && rows[p][1] != ""
    requires forall q :: p < q < |rows| ==> !Names(rows[q], rows[p][1])
    requires p < |rows| - 1 ==> RecordAt(rows[..|rows| - 1], p, Parsed(rows[..|rows| - 1]).value.info)
    ensures RecordAt(rows, p, Parsed(rows).value.info)
  {
    var init := rows[..|rows| - 1];
    var row := rows[|rows| - 1];
    var st := Parsed(init).value;
    assert Parsed(rows) == Step(st, row);
    if p == |init| {
      RecordStarts(init, row, st);
    } else {
      assert init[p] == rows[p] && !Names(row, init[p][1]);
      forall q | p < q < |init| ensures !Names(init[q], init[p][1]) {
        assert init[q] == rows[q];
      }
      RecordKept(init, row, p, st);
    }
    SplitLast(rows);
  }

  lemma SplitLast(rows: seq<Row>)
    requires rows != []
    ensures rows == rows[..|rows| - 1] + [rows[|rows| - 1]]
  {
  }

  /** A row below the last one naming `init[p][1]` keeps that record's closed form. */
  lemma RecordKept(init: seq<Row>, row: Row, p: nat, st: ParseState)
    requires Parsed(init) == Ok(st) && Step(st, row).Ok?
    requires p < |init| && |init[p]| == 9 && init[p][1] != ""
    requires forall q :: p < q < |init| ==> !Names(init[q], init[p][1])
    requires !Names(row, init[p][1]) && RecordAt(init, p, st.info)
    ensures p < |init + [row]| && RecordAt(init + [row], p, Step(st, row).value.info)
  {
    if row[1] != "" {
      RecordKeptByNamedRow(init, row, p, st);
    } else {
      ParsedLast(init);
      var q :| LastNamed(init, q, st.last.value);
      if st.last.value == init[p][1] {
        RecordGrows(init, row, p, q, st);
      } else {
        RecordKeptByContinuation(init, row, p, q, st);
      }
    }
  }

  lemma NoLaterNameInPrefix(init: seq<Row>, row: Row, p: nat)
    requires p < |init| && |init[p]| == 9
    requires forall q :: p < q < |init + [row]| ==> !Names((init + [row])[q], (init + [row])[p][1])
    ensures forall q :: p < q < |init| ==> !Names(init[q], init[p][1])
  {
    var rows := init + [row];
    assert rows[p] == init[p];
    forall q | p < q < |init| ensures !Names(init[q], init[p][1]) {
      assert init[q] == rows[q];
    }
  }

  /** A row naming a section starts its record afresh. */
  lemma RecordStarts(init: seq<Row>, row: Row, st: ParseState)
    requires |row| == 9 && row[1] != "" && Consistent(st)
    ensures RecordAt(init + [row], |init|, Step(st, row).value.info)
  {
    var rows := init + [row];
    var p := |init|;
    PutGet(st.info, row[1], NewRecord(row));
    NewRecordIsRecord(row);
    assert rows[p..p + 1] == [row];
  }

  /** A row naming another section leaves the record alone. */
  lemma RecordKeptByNamedRow(init: seq<Row>, row: Row, p: nat, st: ParseState)
    requires p < |init| && |init[p]| == 9 && Consistent(st)
    requires |row| == 9 && row[1] != "" && row[1] != init[p][1]
    requires RecordAt(init, p, st.info)
    ensures p < |init + [row]| && RecordAt(init + [row], p, Step(st, row).value.info)
  {
    var rows := init + [row];
    var e0 := RunEnd(init, p + 1);
    RunEndSnoc(init, row, p + 1);
    assert rows[p..e0] == init[p..e0];
    PutOther(st.info, row[1], NewRecord(row), init[p][1]);
  }

  /** A continuation row of another section leaves the record alone. */
  lemma RecordKeptByContinuation(init: seq<Row>, row: Row, p: nat, q: int, st: ParseState)
    requires p < |init| && |init[p]| == 9 && init[p][1] != "" && Consistent(st)
    requires Continues(row) && st.last.Some? && st.last.value != init[p][1]
    requires LastNamed(init, q, st.last.value)
    requires RecordAt(init, p, st.info)
    ensures p < |init + [row]| && RecordAt(init + [row], p, Step(st, row).value.info)
  {
    var rows := init + [row];
    var e0 := RunEnd(init, p + 1);
    ParsedRunStops(init, p, q, st.last.value);
    RunEndSnoc(init, row, p + 1);
    assert rows[p..e0] == init[p..e0];
    var k := st.last.value;
    PutOther(st.info, k, Attach(Get(st.info, k), row), init[p][1]);
  }

  /** A continuation row of this section adds one meeting block to its record. */
  lemma RecordGrows(init: seq<Row>, row: Row, p: nat, q: int, st: ParseState)
    requires p < |init| && |init[p]| == 9 && init[p][1] != "" && Consistent(st)
    requires forall j :: p < j < |init| ==> !Names(init[j], init[p][1])
    requires Continues(row) && st.last == Some(init[p][1])
    requires LastNamed(init, q, init[p][1])
    requires RecordAt(init, p, st.info)
    ensures p < |init + [row]| && RecordAt(init + [row], p, Step(st, row).value.info)
  {
    var rows := init + [row];
    var k := init[p][1];
    RunGrows(init, row, p, q);
    var g := init[p..];
    assert init[p..RunEnd(init, p + 1)] == g;
    StepAttaches(st, row, g);
    assert rows[p] == init[p] && rows[p..RunEnd(rows, p + 1)] == g + [row];
  }

  /** A continuation row turns the record of the rows `g` into the record of `g` and that row. */
  lemma StepAttaches(st: ParseState, row: Row, g: seq<Row>)
    requires Consistent(st) && Continues(row) && st.last.Some?
    requires |g| >= 1 && AllNine(g) && Get(st.info, st.last.value) == Record(g)
    ensures Step(st, row).Ok? && AllNine(g + [row])
    ensures st.last.value in Keys(Step(st, row).value.info)
    ensures Get(Step(st, row).value.info, st.last.value) == Record(g + [row])
  {
    var k := st.last.value;
    var info := Put(st.info, k, Attach(Record(g), row));
    assert Step(st, row) == Ok(ParseState(info, st.last));
    PutGet(st.info, k, Attach(Record(g), row));
    AttachIsRecord(g, row);
  }

  /** The run below the last named row reaches the end, and a continuation row extends it. */
  lemma RunGrows(init: seq<Row>, row: Row, p: nat, q: int)
    requires p < |init| && |init[p]| == 9 && init[p][1] != ""
    requires forall j :: p < j < |init| ==> !Names(init[j], init[p][1])
    requires Continues(row) && LastNamed(init, q, init[p][1])
    ensures RunEnd(init, p + 1) == |init| && RunEnd(init + [row], p + 1) == |init| + 1
    ensures (init + [row])[p..|init| + 1] == init[p..] + [row]
  {
    ParsedOnlyRun(init, p, q);
    RunEndSnoc(init, row, p + 1);
  }

  /** When the last named row names `rows[p][1]` and `p` is that name's last row, `p` is the last named row. */
  lemma ParsedOnlyRun(rows: seq<Row>, p: nat, q: int)
    requires p < |rows| && |rows[p]| == 9 && rows[p][1] != ""
    requires forall j :: p < j < |rows| ==> !Names(rows[j], rows[p][1])
    requires LastNamed(rows, q, rows[p][1])
    ensures RunEnd(rows, p + 1) == |rows|
  {
    assert !Continues(rows[p]);
    assert Names(rows[q], rows[p][1]);
  }

  /** When the last named row names something else, the run below `p` stops before the end. */
  lemma ParsedRunStops(rows: seq<Row>, p: nat, q: int, k: string)
    requires p < |rows| && |rows[p]| == 9 && rows[p][1] != ""
    requires LastNamed(rows, q, k) && k != rows[p][1]
    ensures RunEnd(rows, p + 1) < |rows|
  {
    assert !Continues(rows[p]);
    assert !Continues(rows[q]);
  }

  /** A section's five meeting lists run in parallel. */
  predicate Parallel(rec: SectionRecord)
  {
    |rec.activity| >= 1 && |rec.term| == |rec.activity| && |rec.days| == |rec.activity| &&
    |rec.startTime| == |rec.activity| && |rec.endTime| == |rec.activity|
  }

  /** Every parsed section has one entry per meeting block in each of its five lists. */
  lemma {:induction false} ParsedParallel(rows: seq<Row>)
    requires Parsed(rows).Ok?
    ensures forall e :: e in Parsed(rows).value.info ==> Parallel(e.1)
  {
    if rows != [] {
      var init := rows[..|rows| - 1];
      var row := rows[|rows| - 1];
      var st := Parsed(init).value;
      assert Parsed(rows) == Step(st, row);
      ParsedParallel(init);
      var k := if row[1] != "" then row[1] else st.last.value;
      var v := if row[1] != "" then NewRecord(row) else Attach(Get(st.info, k), row);
      if row[1] == "" {
        var old_ :| old_ in st.info && old_ == (k, Get(st.info, k));
      }
      forall e | e in Parsed(rows).value.info ensures Parallel(e.1) {
        PutEntries(st.info, k, v, e);
      }
    }
  }

  // ---------------------------------------------------------------------
  // extract_field
  // ---------------------------------------------------------------------

  /** The regex classes the link patterns use, over ASCII. */
  datatype CharClass = Digit | Word

  predicate InClass(c: char, cls: CharClass)
  {
    match cls
    case Digit => '0' <= c <= '9'
    case Word => '0' <= c <= '9' || 'a' <= c <= 'z' || 'A' <= c <= 'Z' || c == '_'
  }

  /** The longest run of at most `max` characters of class `cls` starting at `i`. */
  function Run(u: string, i: nat, max: nat, cls: CharClass): (n: nat)
    requires i <= |u|
    ensures n <= max && i + n <= |u|
    ensures forall j :: i <= j < i + n ==> InClass(u[j], cls)
    ensures n < max && i + n < |u| ==> !InClass(u[i + n], cls)
    decreases max
  {
    if max == 0 || i == |u| || !InClass(u[i], cls) then 0 else 1 + Run(u, i + 1, max - 1, cls)
  }

  /** The two link patterns: `course=(\d{2,3}\w?)` and `dept=(\w{3,4})`. */
  datatype Pattern = CourseNumber | DepartmentCode

  function Prefix(p: Pattern): string
  {
    match p
    case CourseNumber => "course="
    case DepartmentCode => "dept="
  }

  /** The group a match of `p` starting at `i` captures, if the pattern matches there. */
  function MatchAt(p: Pattern, u: string, i: nat): Option<string>
    requires i <= |u|
  {
    var j := i + |Prefix(p)|;
    if j > |u| || u[i..j] != Prefix(p) then None
    else
      match p
      case CourseNumber =>
        var d := Run(u, j, 3, Digit);
        if d < 2 then None
        else if j + d < |u| && InClass(u[j + d], Word) then Some(u[j..j + d + 1])
        else Some(u[j..j + d])
      case DepartmentCode =>
        var w := Run(u, j, 4, Word);
        if w < 3 then None else Some(u[j..j + w])
  }

  /** `pattern.search(u)` from position `i`: the group of the leftmost match, if any. */
  function Search(p: Pattern, u: string, i: nat): (r: Option<string>)
    requires i <= |u|
    ensures r.None? <==> forall k :: i <= k <= |u| ==> MatchAt(p, u, k).None?
    decreases |u| - i
  {
    if MatchAt(p, u, i).Some? then MatchAt(p, u, i)
    else if i == |u| then None
    else Search(p, u, i + 1)
  }

  /** The search returns the group at the leftmost position, at or after `i`, where the pattern matches. */
  lemma {:induction false} SearchFindsLeftmost(p: Pattern, u: string, i: nat, k: nat)
    requires i <= k <= |u| && MatchAt(p, u, k).Some?
    requires forall k' :: i <= k' < k ==> MatchAt(p, u, k').None?
    ensures Search(p, u, i) == MatchAt(p, u, k)
    decreases k - i
  {
    if i < k {
      SearchFindsLeftmost(p, u, i + 1, k);
    }
  }

  /** `g` has the shape of `\d{2,3}\w?`: two or three digits, then at most one word character. */
  predicate CourseNumberText(g: string)
  {
    2 <= |g| <= 4 && InClass(g[0], Digit) && InClass(g[1], Digit) &&
    (|g| == 4 ==> InClass(g[2], Digit)) &&
    forall k :: 0 <= k < |g| ==> InClass(g[k], Word)
  }

  /** `g` has the shape of `\w{3,4}`. */
  predicate DepartmentCodeText(g: string)
  {
    3 <= |g| <= 4 && forall k :: 0 <= k < |g| ==> InClass(g[k], Word)
  }

  /** The `n` characters after `course=` at `i` have the shape of a course-number group. */
  predicate CourseNumberAt(u: string, i: nat, n: nat)
  {
    i + 7 + n <= |u| && CourseNumberText(u[i + 7..i + 7 + n])
  }

  /** The `n` characters after `dept=` at `i` have the shape of a department group. */
  predicate DepartmentCodeAt(u: string, i: nat, n: nat)
  {
    i + 5 + n <= |u| && DepartmentCodeText(u[i + 5..i + 5 + n])
  }

  /**
   * A course-number group follows `course=` at `i`, has the shape of
   * `\d{2,3}\w?`, and is the longest string of that shape there: the greedy
   * quantifiers take as much as they can.
   */
  lemma CourseNumberShape(u: string, i: nat)
    requires i <= |u| && MatchAt(CourseNumber, u, i).Some?
    ensures var g := MatchAt(CourseNumber, u, i).value;
      i + 7 + |g| <= |u| && u[i..i + 7 + |g|] == "course=" + g &&
      CourseNumberText(g) && forall n: nat :: CourseNumberAt(u, i, n) ==> n <= |g|
  {
    CourseNumberGroup(u, i);
    CourseNumberIsText(u, i);
    CourseNumberLongest(u, i);
  }

  /** The group is the `d` digits the run takes after `course=`, plus the word character after them if there is one. */
  lemma CourseNumberGroup(u: string, i: nat)
    requires i <= |u| && MatchAt(CourseNumber, u, i).Some?
    ensures var g := MatchAt(CourseNumber, u, i).value; var d := Run(u, i + 7, 3, Digit);
      2 <= d && i + 7 + |g| <= |u| && g == u[i + 7..i + 7 + |g|] &&
      (if i + 7 + d < |u| && InClass(u[i + 7 + d], Word) then |g| == d + 1 else |g| == d) &&
      u[i..i + 7 + |g|] == "course=" + g
  {
    var j := i + 7;
    var g := MatchAt(CourseNumber, u, i).value;
    assert u[i..j] == "course=";
    assert u[i..j + |g|] == u[i..j] + u[j..j + |g|];
  }

  /** The group has the shape of `\d{2,3}\w?`. */
  lemma CourseNumberIsText(u: string, i: nat)
    requires i <= |u| && MatchAt(CourseNumber, u, i).Some?
    ensures CourseNumberText(MatchAt(CourseNumber, u, i).value)
  {
    CourseNumberGroup(u, i);
    var j := i + 7;
    var g := MatchAt(CourseNumber, u, i).value;
    var d := Run(u, j, 3, Digit);
    assert g[0] == u[j] && g[1] == u[j + 1];
    assert |g| == 4 ==> g[2] == u[j + 2];
    forall k | 0 <= k < |g| ensures InClass(g[k], Word) {
      assert g[k] == u[j + k];
    }
  }

  /** No string of the course-number shape after `course=` is longer than the group. */
  lemma CourseNumberLongest(u: string, i: nat)
    requires i <= |u| && MatchAt(CourseNumber, u, i).Some?
    ensures forall n: nat :: CourseNumberAt(u, i, n) ==> n <= |MatchAt(CourseNumber, u, i).value|
  {
    CourseNumberGroup(u, i);
  }

  /** A string of the course-number shape right after `course=` makes the pattern match there. */
  lemma CourseNumberFound(u: string, i: nat, n: nat)
    requires i + 7 <= |u| && u[i..i + 7] == "course=" && CourseNumberAt(u, i, n)
    ensures MatchAt(CourseNumber, u, i).Some?
  {
    var j := i + 7;
    var h := u[j..j + n];
    assert h[0] == u[j] && h[1] == u[j + 1];
  }

  /**
   * A department group follows `dept=` at `i`, has the shape of `\w{3,4}`,
   * and is the longest string of that shape there.
   */
  lemma DepartmentCodeShape(u: string, i: nat)
    requires i <= |u| && MatchAt(DepartmentCode, u, i).Some?
    ensures var g := MatchAt(DepartmentCode, u, i).value;
      i + 5 + |g| <= |u| && u[i..i + 5 + |g|] == "dept=" + g &&
      DepartmentCodeText(g) && forall n: nat :: DepartmentCodeAt(u, i, n) ==> n <= |g|
  {
    var j := i + 5;
    var w := Run(u, j, 4, Word);
    var g := MatchAt(DepartmentCode, u, i).value;
    assert u[i..j] == "dept=" && w >= 3 && g == u[j..j + w];
    assert u[i..j + |g|] == u[i..j] + u[j..j + |g|];
  }

  /** A string of the department shape right after `dept=` makes the pattern match there. */
  lemma DepartmentCodeFound(u: string, i: nat, n: nat)
    requires i + 5 <= |u| && u[i..i + 5] == "dept=" && DepartmentCodeAt(u, i, n)
    ensures MatchAt(DepartmentCode, u, i).Some?
  {
    var j := i + 5;
    var h := u[j..j + n];
    assert h[0] == u[j] && h[1] == u[j + 1] && h[2] == u[j + 2];
  }

  /** `match.group(1) if match else default`. */
  function GroupOr(m: Option<string>, default: Option<string>): Option<string>
  {
    if m.Some? then m else default
  }

  /** `extract_field(field, url_endpoint, default)`. */
  function ExtractField(field: string, urlEndpoint: string, default: Option<string>): (r: Option<string>)
    ensures field != "course" && field != "department" ==> r == default
  {
    if field == "course" then GroupOr(Search(CourseNumber, urlEndpoint, 0), default)
    else if field == "department" then GroupOr(Search(DepartmentCode, urlEndpoint, 0), default)
    else default
  }

  /** `'course'` yields the course number at the leftmost position where the pattern matches. */
  lemma ExtractCourse(u: string, default: Option<string>, k: nat)
    requires k <= |u| && MatchAt(CourseNumber, u, k).Some?
    requires forall k' :: 0 <= k' < k ==> MatchAt(CourseNumber, u, k').None?
    ensures ExtractField("course", u, default) == MatchAt(CourseNumber, u, k)
  {
    SearchFindsLeftmost(CourseNumber, u, 0, k);
  }

  /** `'course'` yields the default exactly when no position matches. */
  lemma ExtractCourseMissing(u: string, default: Option<string>)
    requires forall k :: 0 <= k <= |u| ==> MatchAt(CourseNumber, u, k).None?
    ensures ExtractField("course", u, default) == default
  {
    assert Search(CourseNumber, u, 0).None?;
  }

  /** `'department'` yields the department code at the leftmost position where the pattern matches. */
  lemma ExtractDepartment(u: string, default: Option<string>, k: nat)
    requires k <= |u| && MatchAt(DepartmentCode, u, k).Some?
    requires forall k' :: 0 <= k' < k ==> MatchAt(DepartmentCode, u, k').None?
    ensures ExtractField("department", u, default) == MatchAt(DepartmentCode, u, k)
  {
    SearchFindsLeftmost(DepartmentCode, u, 0, k);
  }

  /** `'department'` yields the default exactly when no position matches. */
  lemma ExtractDepartmentMissing(u: string, default: Option<string>)
    requires forall k :: 0 <= k <= |u| ==> MatchAt(DepartmentCode, u, k).None?
    ensures ExtractField("department", u, default) == default
  {
    assert Search(DepartmentCode, u, 0).None?;
  }

  /** A link to the course page of CPSC 221. */
  const CourseLink: string := "dept=CPSC&course=221"

  lemma DepartmentFromCourseLink()
    ensures ExtractField("department", CourseLink, None) == Some("CPSC")
  {
    var u := CourseLink;
    assert u[0..5] == "dept=";
    assert Run(u, 9, 1, Word) == 0;
    assert Run(u, 8, 2, Word) == 1;
    assert Run(u, 7, 3, Word) == 2;
    assert Run(u, 6, 4, Word) == 3;
    assert Run(u, 5, 4, Word) == 4;
    assert u[5..9] == "CPSC";
    assert MatchAt(DepartmentCode, u, 0) == Some("CPSC");
    ExtractDepartment(u, None, 0);
  }

  lemma CourseFromCourseLink()
    ensures ExtractField("course", CourseLink, None) == Some("221")
  {
    CourseLinkNoEarlierCourse();
    CourseLinkCourseAt10();
    ExtractCourse(CourseLink, None, 10);
  }

  /** `course=` does not occur in the link before position 10. */
  lemma CourseLinkNoEarlierCourse()
    ensures forall k :: 0 <= k < 10 ==> MatchAt(CourseNumber, CourseLink, k).None?
  {
    var u := CourseLink;
    forall k | 0 <= k < 10 ensures MatchAt(CourseNumber, u, k).None? {
      if k + 7 <= |u| {
        assert u[k..k + 7][6] == u[k + 6];
        assert u[k + 6] != '=' || k == 4;
        assert u[k..k + 7][0] == u[k];
      }
    }
  }

  /** At position 10 the course pattern captures "221". */
  lemma CourseLinkCourseAt10()
    ensures MatchAt(CourseNumber, CourseLink, 10) == Some("221")
  {
    var u := CourseLink;
    assert u[10..17] == "course=";
    assert Run(u, 20, 0, Digit) == 0;
    assert Run(u, 19, 1, Digit) == 1;
    assert Run(u, 18, 2, Digit) == 2;
    assert Run(u, 17, 3, Digit) == 3;
    assert u[17..20] == "221";
  }

  // ---------------------------------------------------------------------
  // is_full: the argument check and the query it builds
  // ---------------------------------------------------------------------

  /** A token of `course.split()`. */
  predicate Token(t: string)
  {
    t != [] && NoSpace(t)
  }

  /**
   * The query parameters `is_full` sends for `course`
   * ("<DEPARTMENT> <COURSE #> <SECTION #>"), or the ValueError it raises
   * when the string does not split into exactly three tokens.
   */
  function IsFullQuery(course: string): (r: Result<map<string, string>>)
    ensures r.Ok? <==> |SplitWs(course)| == 3
    ensures r.Ok? ==> r.value.Keys == {"dept", "course", "section"} &&
                      forall key :: key in r.value ==> Token(r.value[key])
  {
    var parsed := SplitWs(course);
    if |parsed| != 3 then Fail
    else Ok(map["dept" := parsed[0], "course" := parsed[1], "section" := parsed[2]])
  }

  /** The three parts of a well-formed course string come back as the three parameters. */
  lemma {:induction false} IsFullQueryParts(dept: string, number: string, section: string)
    requires Token(dept) && Token(number) && Token(section)
    ensures IsFullQuery(dept + " " + number + " " + section) ==
            Ok(map["dept" := dept, "course" := number, "section" := section])
  {
    var parts := [dept, number, section];
    assert Join(parts[2..], ' ') == section;
    assert Join(parts[1..], ' ') == number + [' '] + section;
    assert Join(parts, ' ') == dept + " " + number + " " + section;
    JoinSplitWs(parts);
  }

  /** A course string without a section number is rejected. */
  lemma {:induction false} IsFullQueryNeedsSection(dept: string, number: string)
    requires Token(dept) && Token(number)
    ensures IsFullQuery(dept + " " + number).Fail?
  {
    var parts := [dept, number];
    assert Join(parts[1..], ' ') == number;
    assert Join(parts, ' ') == dept + " " + number;
    JoinSplitWs(parts);
  }
}
