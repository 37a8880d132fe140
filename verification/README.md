# UBC course-schedule generator: a Dafny model

This project models the core of a UBC timetable tool. The tool has two halves.

**The generator** is `lamda/course.py` and `lamda/schedulecreator.py`. For each requested course name it does three things:
- It looks up the course's lecture sections in the course database. That is a mapping from department to course name to section name to a raw section record.
- It expands each lecture section into one class session per weekday of each meeting block.
- It enumerates every combination that picks one lecture section per requested course, in row-major order.

It keeps the combinations in which no two different courses have a conflicting session, and renders each kept combination as JSON. The first revision wraps the result in an API-gateway envelope. The second revision builds the combinations lazily.

**The scraper** is `ubc.py`, with a second copy in `util.py`. It turns the rows of a course page's section table into the section records the database holds. It also reads course numbers and department codes out of links, and checks the argument of its seat-availability query. `analyze.py` lists the activity kinds found in a database.

The model works on values:
- A class session, a course and a section record are datatypes.
- A Python dict whose order matters is a sequence of pairs (`PyDict`).
- A raised exception is `Fail`.
- Python string order is written out as lexicographic order by code point (`PyStr.Less`).
- `str.split(' ')` and `str.split()` are written out character by character (`PyStr.SplitOn`, `PyStr.SplitWs`).

The source's loops become methods proved equal to a specification function, and the properties are proved about those functions. The loops are:
- `create_from_section`
- `Course.conflict`
- `no_conflicts`
- `append_perm`
- `create_from_course_names`
- `_parse_course_sections`

Where the code and its docstrings disagree, the model follows the code:
- Sections with parallel lists of unequal length raise no dedicated error. Only a `days` list longer than one of the other three raises (an IndexError). Longer `term`, `start_time` or `end_time` lists are silently cut to the length of `days` (`Sessions.ExpandIgnoresLonger`).
- A missing department or course is a plain KeyError. A section whose `activity` list is empty makes the whole lookup raise an IndexError. Both are modelled as `Fail`.
- `ClassSession.conflict` is not symmetric. A session strictly inside another does not conflict with it, but the outer one conflicts with the inner one, provided the inner one does not end before it starts (`Sessions.ConflictNotSymmetric`). `no_conflicts` tests every ordered pair, so when every session starts before it ends, a schedule is rejected exactly when some pair overlaps (`ScheduleCreator.ConflictFreeIffNoOverlap`).

## Model

| member | source | states |
|---|---|---|
| PyStr.Less | lamda/course.py:26-27 | the definition of Python's `<` on str: lexicographic by code point, a proper prefix being smaller; the lemmas below state that it is a strict total order |
| PyStr.LessEq | lamda/course.py:26-27 | the definition of Python's `<=` on str: equal or `Less`; `PyStr.LessEqIffNotLess` ties it to `<` |
| PyStr.LessIrreflexive | lamda/course.py:25-27 | no time string is earlier than itself |
| PyStr.LessTransitive | lamda/course.py:25-27 | string order is transitive |
| PyStr.LessTrichotomy | lamda/course.py:25-27 | any two time strings are equal or ordered one way or the other |
| PyStr.LessAsymmetric | lamda/course.py:25-27 | `a < b` excludes `b < a` and `a == b` |
| PyStr.LessEqIffNotLess | lamda/course.py:25-27 | `a <= b` holds exactly when `b < a` fails |
| PyStr.LessEqLessTransitive | lamda/course.py:25-27 | `a <= b < c` gives `a < c` |
| PyStr.LessLessEqTransitive | lamda/course.py:25-27 | `a < b <= c` gives `a < c` |
| PyStr.SplitOn | lamda/course.py:50 | `split(' ')` yields at least one piece, and no piece holds a space |
| PyStr.SplitOnCount | lamda/course.py:89 | `split(' ')` yields one more piece than there are spaces |
| PyStr.SplitOnJoin | lamda/course.py:50 | joining the pieces with the separator gives the string back |
| PyStr.JoinSplitOn | lamda/course.py:89 | splitting a join of space-free pieces gives the pieces back |
| PyStr.SplitWs | ubc.py:69 | `split()` yields non-empty tokens without whitespace, and at least one token when the string starts with a non-space character |
| PyStr.JoinSplitWs | ubc.py:69 | tokens joined by single spaces split back into the same tokens |
| PyDict.Keys | ubc.py:236-263 | the keys in order, one per entry |
| PyDict.Get | ubc.py:256 | `d[k]` is the value of an entry whose key is `k` |
| PyDict.Put | ubc.py:245 | assigning to a present key keeps the key order; a new key is appended at the end |
| PyDict.PutGet | ubc.py:245 | after `d[k] = v`, `d[k]` is `v` |
| PyDict.PutOther | ubc.py:245 | `d[k] = v` leaves every other key's value alone |
| PyDict.PutDistinct | ubc.py:245 | assignment keeps keys distinct |
| PyDict.PutEntries | ubc.py:245 | assignment adds no entry other than `(k, v)` |
| Sessions.Conflict | lamda/course.py:18-27 | the definition: same day and term, and the other session starts in [start, end) or ends in (start, end]; its meaning is stated by `Sessions.ConflictEitherWayIsOverlap` and the lemmas below |
| Sessions.ConflictNeedsSameSlot | lamda/course.py:25 | sessions on different days or in different terms never conflict, in either order |
| Sessions.ConflictNotSymmetric | lamda/course.py:25-27 | a session strictly inside another, and not ending before it starts, does not conflict with it, while the outer one conflicts with the inner one |
| Sessions.TouchingDoNotConflict | lamda/course.py:26-27 | for two sessions that each start before they end, one ending exactly when the other starts conflicts with it in neither order |
| Sessions.SelfConflict | lamda/course.py:25-27 | a session conflicts with itself exactly when it starts before it ends |
| Sessions.ConflictEitherWayIsOverlap | lamda/course.py:18-27 | for well-formed sessions, a conflict in one order or the other is exactly an overlap of the half-open intervals in the same term and day |
| Sessions.SessionToJson | lamda/course.py:29-31 | the JSON object has exactly the keys term, day, start and end |
| Sessions.SessionJsonRoundTrip | lamda/course.py:29-31 | reading the JSON object back gives the same session |
| Sessions.Expand | lamda/course.py:43-52 | the definition: the sessions of every block when `term`, `start_time` and `end_time` are at least as long as `days`, a failure (IndexError) otherwise; its content is stated by `Sessions.ExpandLength` and `Sessions.ExpandMembers` |
| Sessions.CreateFromSection | lamda/course.py:33-52 | the loop returns the expansion of the section, or fails with IndexError when `days` is longer than `term`, `start_time` or `end_time` |
| Sessions.BlocksLength | lamda/course.py:49-51 | the first n blocks yield one session per weekday token in those blocks |
| Sessions.ExpandLength | lamda/course.py:49-51 | a section yields one session per weekday token over all its blocks |
| Sessions.BlocksMembers | lamda/course.py:49-51 | a session comes from the first n blocks exactly when it takes the term, start and end of some block i < n and one weekday token of `days[i]` |
| Sessions.ExpandMembers | lamda/course.py:49-51 | a session is in the expansion exactly when it takes term, start and end of one block and one weekday token of that block |
| Sessions.BlocksIgnoreLonger | lamda/course.py:49-51 | cutting `term`, `start_time` and `end_time` to the length of `days` leaves the first n blocks unchanged |
| Sessions.ExpandIgnoresLonger | lamda/course.py:49-51 | entries past the length of `days` are never read |
| Sessions.BlocksAddBlock | lamda/course.py:49-51 | adding a block at the end leaves the first n blocks unchanged |
| Sessions.ExpandAddBlock | lamda/course.py:49-51 | adding a meeting block to a consistent section appends exactly that block's sessions |
| Courses.Clash | lamda/course.py:70-77 | the definition: some session of the first course conflicts with some session of the second; `Courses.CourseConflict` proves the loop computes it |
| Courses.CourseConflict | lamda/course.py:70-77 | the nested loop answers true exactly when some session of the first course conflicts with some session of the second |
| Courses.CourseToJson | lamda/course.py:66-68 | the JSON object has one key, the course name, mapping to one entry per session |
| Courses.CourseJsonRoundTrip | lamda/course.py:66-68 | reading the JSON object back gives the same course |
| Courses.LectureEntriesMembers | lamda/course.py:91-92 | an entry is kept exactly when its first activity is "Lecture" |
| Courses.Lectures | lamda/course.py:90-92 | the definition: one course per section whose first activity is "Lecture", in dict order; its success and content are stated by `Courses.LecturesOk` and `Courses.LecturesContent` |
| Courses.LecturesOk | lamda/course.py:90-92 | the comprehension succeeds exactly when every section has an activity and every lecture section expands |
| Courses.LecturesContent | lamda/course.py:90-92 | the result holds one course per lecture entry, in dict order, named by the section and holding its expansion |
| Courses.CreateAll | lamda/course.py:89-92 | the definition: split the name on one space, look up `db[dept][name]`, and build its lectures; stated by `Courses.CreateAllLookup` and `Courses.CreateAllNeedsOneSpace` |
| Courses.CreateAllLookup | lamda/course.py:89-92 | for `dept + " " + number`, the result is the lecture list of `db[dept][name]`, keyed by the full name, or a failure when either key is missing |
| Courses.CreateAllNeedsOneSpace | lamda/course.py:89 | a name with no space, or with more than one, fails the two-target unpacking |
| CrossProduct.ExtendSize | lamda/course.py:142-148 | extending r rows by m items gives r * m rows |
| CrossProduct.ExtendAt | lamda/course.py:142-148 | position i * m + j holds row i extended by item j (row-major) |
| CrossProduct.ExtendMembers | lamda/course.py:142-148 | the extended rows are exactly the rows followed by one item |
| CrossProduct.ExtendNoItems | lamda/course.py:142-148 | extending by no items gives no rows |
| CrossProduct.ProductSize | lamda/course.py:100-102 | the product has as many combinations as the product of the candidate counts |
| CrossProduct.CountZero | lamda/course.py:100-102 | the count is zero exactly when some candidate list is empty |
| CrossProduct.ProductPicks | lamda/course.py:100-102 | every combination picks position i from candidate list i |
| CrossProduct.PicksInProduct | lamda/course.py:100-102 | every such pick is a combination |
| CrossProduct.ProductMembers | lamda/course.py:100-102 | a combination is in the product exactly when it picks one candidate from each list, in order |
| ScheduleCreator.Accumulated | lamda/course.py:139-148 | the definition of what `append_perm` returns: singletons for an empty list, otherwise `CrossProduct.Extend`; stated by `ScheduleCreator.AppendPermEmpty` and `ScheduleCreator.AppendPermAt` |
| ScheduleCreator.AppendPerm | lamda/course.py:130-148 | the loops return singletons for an empty list, otherwise every row extended by every item, row-major |
| ScheduleCreator.AppendPermEmpty | lamda/course.py:139-140 | on an empty list, one singleton per item, in item order |
| ScheduleCreator.AppendPermAt | lamda/course.py:142-148 | on a non-empty list, r * m rows, with row i extended by item j at i * m + j |
| ScheduleCreator.AppendPermExamples | lamda/test_course.py:7-18 | the two calls of the unit test return exactly the lists it expects |
| ScheduleCreator.Enumerated | lamda/course.py:100-102 | the definition: `append_perm` folded over the candidate lists; `ScheduleCreator.EnumeratedIsProduct` and `ScheduleCreator.EnumeratedRestarts` state what it holds |
| ScheduleCreator.EnumeratedIsProduct | lamda/course.py:100-102 | when every course has a lecture, the loop builds the full cross product |
| ScheduleCreator.EnumeratedRestarts | lamda/course.py:100-102 | a course with no lecture empties the list, so the following `append_perm` restarts from singletons and the earlier courses are forgotten |
| ScheduleCreator.NoConflicts | lamda/course.py:106-113 | the loops answer true exactly when no session of one course conflicts with a session of a course at a different position |
| ScheduleCreator.ConflictFreeIffNoOverlap | lamda/course.py:106-113 | for well-formed sessions, a schedule passes exactly when no two different courses have overlapping sessions |
| ScheduleCreator.Jsonify | lamda/course.py:115-118 | one JSON object per course, in order, keyed by that course's name |
| ScheduleCreator.Accepted | lamda/course.py:104 | the definition: the conflict-free combinations, in order; `ScheduleCreator.AcceptedMembers` states its members |
| ScheduleCreator.AcceptedMembers | lamda/course.py:104 | a combination is kept exactly when it was enumerated and is conflict-free |
| ScheduleCreator.Candidates | lamda/course.py:101-102 | the definition: `Course.create_all` for each requested name in order, the first failure aborting the request; stated by `ScheduleCreator.CandidatesSpec` and `ScheduleCreator.CandidatesPrefixFail` |
| ScheduleCreator.CandidatesSpec | lamda/course.py:101-102 | the lookups succeed exactly when every name's lookup succeeds, and then give the lecture lists in request order |
| ScheduleCreator.CandidatesPrefixFail | lamda/course.py:101-102 | a failed lookup aborts the whole request |
| ScheduleCreator.WrapBody | lamda/course.py:120-128 | the definition: status 200, not base64-encoded, a JSON content type, and the body; its fields are restated in the ensures of `ScheduleCreator.CreateFromCourseNames` |
| ScheduleCreator.Response | lamda/course.py:97-104 | the definition: a failure when a lookup fails, otherwise the wrapped rendering of the accepted enumerated combinations; `ScheduleCreator.ResponseSound`, `ScheduleCreator.ResponseComplete`, `ScheduleCreator.ResponseAllCourses` and `ScheduleCreator.ResponseRestarts` state what it holds |
| ScheduleCreator.CreateFromCourseNames | lamda/course.py:97-104 | the loop returns `ScheduleCreator.Response`, in an envelope with status 200, not base64-encoded, with a JSON content type |
| ScheduleCreator.RenderConflictFree | lamda/course.py:104 | the comprehension renders, in order, exactly the combinations that pass `no_conflicts` (JsonAll of Accepted) |
| ScheduleCreator.JsonAllSound | lamda/course.py:103-104 | entry k of the rendered list renders the k-th accepted combination, which was among those checked and is conflict-free |
| ScheduleCreator.JsonAllComplete | lamda/course.py:103-104 | every checked combination that is conflict-free is rendered |
| ScheduleCreator.ResponseSound | lamda/course.py:97-104 | every entry of the response body renders an enumerated combination with no conflict |
| ScheduleCreator.ResponseComplete | lamda/course.py:97-104 | every enumerated combination with no conflict appears in the response body |
| ScheduleCreator.ResponseAllCourses | lamda/course.py:97-104 | when every course has a lecture, the candidates are exactly one lecture section per course, in request order, and there are as many as the product of the counts |
| ScheduleCreator.ResponseRestarts | lamda/course.py:100-104 | a course without lectures makes the response that of the courses after it alone |
| GeneratorScheduleCreator.Truthy | lamda/schedulecreator.py:14 | the definition of `not iterable_lists` negated: a list is truthy when non-empty, a generator object always; `GeneratorScheduleCreator.AppendPerm` and `GeneratorScheduleCreator.RevisionsDiffer` state its effect |
| GeneratorScheduleCreator.AppendPerm | lamda/schedulecreator.py:5-16 | the result is always truthy, because a generator object is truthy even when it yields nothing |
| GeneratorScheduleCreator.Schedules | lamda/schedulecreator.py:35-37 | the definition: the generator revision's `append_perm` folded over the candidate lists; `GeneratorScheduleCreator.SchedulesIsProduct` and `GeneratorScheduleCreator.SchedulesMembers` state what it yields |
| GeneratorScheduleCreator.SchedulesIsProduct | lamda/schedulecreator.py:35-37 | for a non-empty request, the generator yields the full cross product |
| GeneratorScheduleCreator.SchedulesCount | lamda/schedulecreator.py:35-37 | it yields the product of the candidate counts, and nothing exactly when some course has no lecture |
| GeneratorScheduleCreator.SchedulesMembers | lamda/schedulecreator.py:35-37 | a combination is yielded exactly when it picks one candidate from each list |
| GeneratorScheduleCreator.RevisionsDiffer | lamda/schedulecreator.py:14-16 | with a course without lectures in the middle, the list revision keeps the later courses' combinations while the generator revision yields none |
| GeneratorScheduleCreator.Response | lamda/schedulecreator.py:33-38 | the definition: a failure when a lookup fails, otherwise the rendering of the conflict-free yielded combinations; `GeneratorScheduleCreator.ResponseSound` and `GeneratorScheduleCreator.ResponseComplete` state what it holds |
| GeneratorScheduleCreator.CreateFromCourseNames | lamda/schedulecreator.py:33-38 | the loop returns `GeneratorScheduleCreator.Response` |
| GeneratorScheduleCreator.EmptyRequest | lamda/schedulecreator.py:33-38 | an empty request yields an empty list |
| GeneratorScheduleCreator.PicksAreLectures | lamda/schedulecreator.py:35-37 | the generated combinations are exactly one lecture section per requested course, in order |
| GeneratorScheduleCreator.ResponseSound | lamda/schedulecreator.py:38 | every result entry renders a conflict-free pick of lectures |
| GeneratorScheduleCreator.ResponseComplete | lamda/schedulecreator.py:38 | every conflict-free pick of lectures is rendered |
| GeneratorScheduleCreator.NoLectureEmptiesResponse | lamda/schedulecreator.py:35-38 | a course without lectures empties the whole result |
| Ubc.Step | ubc.py:238-261 | one row keeps the parser state consistent: afterwards the last section name is set and is a key |
| Ubc.Parsed | ubc.py:236-263 | after the rows, the last section name is set exactly when some row was read, and it is a key |
| Ubc.ParsedSections | ubc.py:236-263 | the definition: the dict of the final parser state, or a failure; `Ubc.ParsedOk`, `Ubc.ParsedKeys`, `Ubc.ParsedKeyOrder` and `Ubc.ParsedRecord` state what it holds |
| Ubc.ParseCourseSections | ubc.py:229-263 | the loop returns `Ubc.ParsedSections`: the dict that folding `Ubc.Step` over the rows builds, or a failure exactly when that fold fails (the same code is util.py:177-210) |
| Ubc.ParsedOk | ubc.py:238-256 | parsing succeeds exactly when every row has nine cells and the first row names a section |
| Ubc.ParsedDistinct | ubc.py:245 | every section name occurs once |
| Ubc.ParsedKeys | ubc.py:243-245 | the keys are exactly the non-empty section names found in the rows |
| Ubc.ParsedKeyOrder | ubc.py:245 | the keys come out in the order the names first appear |
| Ubc.ParsedLast | ubc.py:243-244 | `last_section` is the name on the last row that names a section |
| Ubc.RunEnd | ubc.py:255-261 | the first row at or after q that is not a continuation row; every row before it continues |
| Ubc.Column | ubc.py:247-261 | a column holds cell c of every row of the group, in row order |
| Ubc.Record | ubc.py:243-261 | the definition: the record of a group of rows, with status and interval from its first row and each list built with `Ubc.Column`; `Ubc.ParsedRecord` proves the parser stores it |
| Ubc.ParsedRecord | ubc.py:243-261 | the record under a name is built from the last row with that name and the continuation rows right below it. Status and interval come from that row, each list holds that row's cell followed by the continuation rows' cells, and comments are dropped |
| Ubc.ParsedParallel | ubc.py:245-261 | every record's activity, term, days, start and end lists have the same length, at least one |
| Ubc.Run | ubc.py:7-8 | the longest run of at most `max` class characters at i |
| Ubc.MatchAt | ubc.py:7-8 | the definition: the literal prefix at i followed by the bounded runs of the pattern, giving the group; `Ubc.CourseNumberShape`, `Ubc.DepartmentCodeShape`, `Ubc.CourseNumberFound` and `Ubc.DepartmentCodeFound` state that it returns exactly the longest group of the pattern's shape, and a group whenever one exists |
| Ubc.Search | ubc.py:24-27 | `search` finds nothing exactly when no position matches; which match it returns is stated by `Ubc.SearchFindsLeftmost` |
| Ubc.SearchFindsLeftmost | ubc.py:25-27 | when position k matches and no position before it does, `search` returns the group matched at k, the leftmost match |
| Ubc.CourseNumberText | ubc.py:7 | the shape of `\d{2,3}\w?`: two or three digits, then at most one word character |
| Ubc.CourseNumberShape | ubc.py:7 | a course-number group follows `course=`, has the shape of `\d{2,3}\w?` exactly, and no longer string of that shape follows `course=` there (the greedy match) |
| Ubc.CourseNumberFound | ubc.py:7 | whenever a string of that shape follows `course=`, the pattern matches there |
| Ubc.DepartmentCodeText | ubc.py:8 | the shape of `\w{3,4}`: three or four word characters |
| Ubc.DepartmentCodeShape | ubc.py:8 | a department group follows `dept=`, is three or four word characters, and no longer string of that shape follows `dept=` there (the greedy match) |
| Ubc.DepartmentCodeFound | ubc.py:8 | whenever a string of that shape follows `dept=`, the pattern matches there |
| Ubc.GroupOr | ubc.py:31 | the definition: the group of a match, or the default when there is none; used by `Ubc.ExtractCourseMissing` and `Ubc.ExtractDepartmentMissing` |
| Ubc.ExtractField | ubc.py:14-31 | any field other than 'course' or 'department' yields the default |
| Ubc.ExtractCourse | ubc.py:24-25 | 'course' yields the course number at the leftmost position where the pattern matches |
| Ubc.ExtractCourseMissing | ubc.py:31 | 'course' yields the default when no position matches |
| Ubc.ExtractDepartment | ubc.py:26-27 | 'department' yields the department code at the leftmost position where the pattern matches |
| Ubc.ExtractDepartmentMissing | ubc.py:31 | 'department' yields the default when no position matches |
| Ubc.DepartmentFromCourseLink | ubc.py:26-27 | on `dept=CPSC&course=221`, 'department' yields CPSC |
| Ubc.CourseFromCourseLink | ubc.py:24-25 | on `dept=CPSC&course=221`, 'course' yields 221 |
| Ubc.IsFullQuery | ubc.py:69-80 | the query succeeds exactly when the string splits into three tokens, and then sends dept, course and section, each a whitespace-free token |
| Ubc.IsFullQueryParts | ubc.py:69-80 | for three tokens joined by spaces, the parameters are exactly those tokens |
| Ubc.IsFullQueryNeedsSection | ubc.py:72-74 | a string with only a department and a course number raises ValueError |
| Util.ExtractField | util.py:10-27 | any field other than 'course' or 'department' yields the default |
| Util.CourseFieldIsDepartment | util.py:7-8 | 'course' yields exactly what 'department' yields, here and in ubc.py: the department code, because `Util.CourseRe`, the pattern the second binding leaves, is the department pattern |
| Util.CourseFieldDisagrees | util.py:20-21 | on `dept=CPSC&course=221`, 'course' yields CPSC here, while ubc.py yields 221 |
| Util.IsFullQuery | util.py:66-77 | the same check as ubc.py, and the same parameters plus `req=5` |
| Util.IsFullQueryParts | util.py:66-77 | for three tokens joined by spaces, the parameters are `req=5` and exactly those tokens |
| Analyze.ActivityTypes | analyze.py:33-41 | the definition: the set of `activity[0]` over every section of every course of every department whose activity list is not empty |
| Analyze.ActivityTypesHas | analyze.py:33-41 | every section with an activity contributes its first activity to the set |
| Analyze.ActivityTypesFrom | analyze.py:33-41 | every activity type is the first activity of some section that has one |
| Analyze.LectureInActivityTypes | analyze.py:33-41 | when `create_all` finds a lecture for some course name, "Lecture" is one of the activity types |

## Left out

- HTTP, HTML scraping, Firebase upload and download, file I/O, the AWS Lambda handler, command-line entry points and printing are I/O or foreign libraries. Only the pure logic between them is modelled.
- `Ubc.ParseCourseSections` takes the stripped cell texts of the table rows as input. The HTML parsing that produces them (ubc.py:183-188) is not part of this model.
- The course metadata that ubc.py:190 merges into the parsed sections is not modelled. It needs the page's title and paragraphs, and those come from the HTML. `CourseDb.Database` therefore holds section records only.
- `_extract_course_meta_from_soup`, `dept_links`, `course_links_from_dept` and `extract_course_info` work on HTML and HTTP responses, so they are left out.
- `is_full` is modelled up to the query parameters it sends. The HTTP request and the reading of the response are left out.
- `wrap_body_for_awsgatewayapi` renders the body with `str(body)`. The model keeps the body as the list of JSON objects, not its Python text rendering.
- The second revision's generator is modelled by the list it yields. Its laziness, and the fact that it can be iterated only once, are not captured.
- Course and session objects are modelled as values. `is not` in `no_conflicts` becomes "at a different position". This is exact here, because each position holds an object built by its own `create_all` call.
- `field is 'course'` compares object identity. The model compares the strings, which is what interned literals do.
- Ubc.Run: `\d` and `\w` are modelled as their ASCII classes. Python 3 also accepts other Unicode digits and letters.
- `get_activity_types` is modelled as the set it builds. The sorted printing in analyze.py's `main` is output only.
- `CourseDb.Sections` is any sequence of (name, record) pairs. It does not carry `PyDict.DistinctKeys`, so a database may hold section lists with a repeated name, which no Python dict can. The parser's own output is proved duplicate-free (`Ubc.ParsedDistinct`), and no lemma about the generator depends on distinct names.
- Errors are a single `Fail`. The model does not tell KeyError, IndexError, ValueError and NameError apart, because no caller in the core catches one.

## Findings

| source | as written | input that shows it | evidently intended | confidence | as-written member | corrected member |
|---|---|---|---|---|---|---|
| util.py:7-8 | `COURSE_RE` is bound twice. The second binding is the department pattern, so `extract_field('course', url)` returns the department code | `extract_field('course', 'dept=CPSC&course=221')` returns 'CPSC' | return the course number '221', as ubc.py:7 and ubc.py:24-25 do | high (not executed) | Util.CourseFieldDisagrees | Ubc.ExtractCourse |
