/**
 * `ClassSession` of lamda/course.py: one weekly meeting (term, day, start,
 * end), the conflict test between two of them, their JSON form, and the
 * expansion of a section record into its sessions.
 *
 * Times are zero-padded strings such as "09:00" and are only ever compared
 * as strings, with Python's lexicographic order (`PyStr.Less`).
 */
module Sessions {
  import opened PyStr
  import opened Outcomes
  import opened CourseDb

  datatype ClassSession = ClassSession(term: string, day: string, start: string, end: string)

  /**
   * `a.conflict(other)`: same day and term, and `other` starts inside
   * [a.start, a.end) or ends inside (a.start, a.end].
   */
  predicate Conflict(a: ClassSession, other: ClassSession)
  {
    a.day == other.day && a.term == other.term &&
    ((LessEq(a.start, other.start) && Less(other.start, a.end)) ||
     (Less(a.start, other.end) && LessEq(other.end, a.end)))
  }

  /** A session that starts before it ends. */
  predicate WellFormed(s: ClassSession)
  {
    Less(s.start, s.end)
  }

  /** The half-open intervals [start, end) of two sessions on the same term and day intersect. */
  predicate Overlap(a: ClassSession, b: ClassSession)
  {
    a.day == b.day && a.term == b.term && Less(a.start, b.end) && Less(b.start, a.end)
  }

  /** Sessions on different days or in different terms never conflict, whatever their times. */
  lemma ConflictNeedsSameSlot(a: ClassSession, b: ClassSession)
    requires a.day != b.day || a.term != b.term
    ensures !Conflict(a, b) && !Conflict(b, a)
  {
  }

  /**
   * The test is not symmetric: a session strictly inside another does not
   * conflict with it, but the outer one conflicts with the inner one.
   */
  lemma ConflictNotSymmetric(inner: ClassSession, outer: ClassSession)
    requires inner.day == outer.day && inner.term == outer.term
    requires Less(outer.start, inner.start) && Less(inner.end, outer.end)
    requires LessEq(inner.start, inner.end)
    ensures !Conflict(inner, outer)
    ensures Conflict(outer, inner)
  {
    LessAsymmetric(outer.start, inner.start);
    LessAsymmetric(inner.end, outer.end);
    LessEqLessTransitive(inner.start, inner.end, outer.end);
  }

  /** A session that starts exactly when another ends conflicts with it in neither order. */
  lemma TouchingDoNotConflict(a: ClassSession, b: ClassSession)
    requires WellFormed(a) && WellFormed(b)
    requires a.end == b.start
    ensures !Conflict(a, b) && !Conflict(b, a)
  {
    LessIrreflexive(a.end);
    LessAsymmetric(b.start, b.end);
    LessAsymmetric(a.start, a.end);
  }

  /** A session conflicts with itself exactly when it starts before it ends. */
  lemma SelfConflict(a: ClassSession)
    ensures Conflict(a, a) <==> Less(a.start, a.end)
  {
  }

  /**
   * Checked in both orders, the test is exactly interval overlap for
   * well-formed sessions.
   */
  lemma ConflictEitherWayIsOverlap(a: ClassSession, b: ClassSession)
    requires WellFormed(a) && WellFormed(b)
    ensures Conflict(a, b) || Conflict(b, a) <==> Overlap(a, b)
  {
    if Conflict(a, b) {
      if LessEq(a.start, b.start) && Less(b.start, a.end) {
        LessEqLessTransitive(a.start, b.start, b.end);
      } else {
        LessLessEqTransitive(b.start, b.end, a.end);
      }
    }
    if Conflict(b, a) {
      if LessEq(b.start, a.start) && Less(a.start, b.end) {
        LessEqLessTransitive(b.start, a.start, a.end);
      } else {
        LessLessEqTransitive(a.start, a.end, b.end);
      }
    }
    if Overlap(a, b) {
      LessTrichotomy(a.start, b.start);
    }
  }

  // ---------------------------------------------------------------------
  // JSON form
  // ---------------------------------------------------------------------

  type SessionJson = map<string, string>

  /** `ClassSession.json()`. */
  function SessionToJson(s: ClassSession): (m: SessionJson)
    ensures m.Keys == {"term", "day", "start", "end"}
  {
    map["term" := s.term, "day" := s.day, "start" := s.start, "end" := s.end]
  }

  function SessionFromJson(m: SessionJson): ClassSession
    requires "term" in m && "day" in m && "start" in m && "end" in m
  {
    ClassSession(m["term"], m["day"], m["start"], m["end"])
  }

  /** The JSON form keeps every field: it can be read back. */
  lemma SessionJsonRoundTrip(s: ClassSession)
    ensures SessionFromJson(SessionToJson(s)) == s
  {
  }

  // ---------------------------------------------------------------------
  // create_from_section
  // ---------------------------------------------------------------------

  /** The sessions of one meeting block: one per token of `days.split(' ')`, in token order. */
  function BlockSessions(term: string, days: string, start: string, end: string): seq<ClassSession>
  {
    var tokens := SplitOn(days, ' ');
    seq(|tokens|, k requires 0 <= k < |tokens| => ClassSession(term, tokens[k], start, end))
  }

  /** Every block index of `days` has a term, a start and an end. */
  predicate Expandable(rec: SectionRecord)
  {
    |rec.days| <= |rec.term| && |rec.days| <= |rec.startTime| && |rec.days| <= |rec.endTime|
  }

  /** The sessions of the first `n` blocks, block by block. */
  function Blocks(rec: SectionRecord, n: nat): seq<ClassSession>
    requires n <= |rec.days| && n <= |rec.term| && n <= |rec.startTime| && n <= |rec.endTime|
  {
    if n == 0 then []
    else Blocks(rec, n - 1) + BlockSessions(rec.term[n - 1], rec.days[n - 1], rec.startTime[n - 1], rec.endTime[n - 1])
  }

  /**
   * `ClassSession.create_from_section`: indexing `term`, `start_time` or
   * `end_time` past its end raises IndexError; longer lists are ignored.
   */
  function Expand(rec: SectionRecord): Result<seq<ClassSession>>
  {
    if Expandable(rec) then Ok(Blocks(rec, |rec.days|)) else Fail
  }

  method CreateFromSection(section: SectionRecord) returns (r: Result<seq<ClassSession>>)
    ensures r == Expand(section)
  {
    var terms, daysList, startTimes, endTimes := section.term, section.days, section.startTime, section.endTime;
    var result: seq<ClassSession> := [];
    for i := 0 to |daysList|
      invariant i <= |terms| && i <= |startTimes| && i <= |endTimes|
      invariant result == Blocks(section, i)
    {
      var tokens := SplitOn(daysList[i], ' ');
      for j := 0 to |tokens|
        invariant j == 0 ==> result == Blocks(section, i)
        invariant j > 0 ==> i < |terms| && i < |startTimes| && i < |endTimes|
        invariant j > 0 ==>
                    result == Blocks(section, i) + BlockSessions(terms[i], daysList[i], startTimes[i], endTimes[i])[..j]
      {
        if i >= |terms| || i >= |startTimes| || i >= |endTimes| {
          return Fail;
        }
        result := result + [ClassSession(terms[i], tokens[j], startTimes[i], endTimes[i])];
      }
      assert BlockSessions(terms[i], daysList[i], startTimes[i], endTimes[i])[..|tokens|]
          == BlockSessions(terms[i], daysList[i], startTimes[i], endTimes[i]);
    }
    r := Ok(result);
  }

  /** Total number of day tokens: one more than the spaces in each `days` entry. */
  function TokenCount(days: seq<string>): nat
  {
    if days == [] then 0 else TokenCount(days[..|days| - 1]) + multiset(days[|days| - 1])[' '] + 1
  }

  /** One session per day token. */
  lemma {:induction false} BlocksLength(rec: SectionRecord, n: nat)
    requires n <= |rec.days| && n <= |rec.term| && n <= |rec.startTime| && n <= |rec.endTime|
    ensures |Blocks(rec, n)| == TokenCount(rec.days[..n])
  {
    if n > 0 {
      BlocksLength(rec, n - 1);
      SplitOnCount(rec.days[n - 1], ' ');
      assert rec.days[..n][..n - 1] == rec.days[..n - 1];
    }
  }

  lemma ExpandLength(rec: SectionRecord)
    requires Expand(rec).Ok?
    ensures |Expand(rec).value| == TokenCount(rec.days)
  {
    BlocksLength(rec, |rec.days|);
    assert rec.days[..|rec.days|] == rec.days;
  }

  /** A session comes from block i and day token k of `days[i]`, carrying block i's term, start and end. */
  predicate FromBlock(rec: SectionRecord, n: nat, s: ClassSession)
    requires n <= |rec.days| && n <= |rec.term| && n <= |rec.startTime| && n <= |rec.endTime|
  {
    exists i, k :: 0 <= i < n && 0 <= k < |SplitOn(rec.days[i], ' ')| &&
      s == ClassSession(rec.term[i], SplitOn(rec.days[i], ' ')[k], rec.startTime[i], rec.endTime[i])
  }

  lemma {:induction false} BlocksMembers(rec: SectionRecord, n: nat, s: ClassSession)
    requires n <= |rec.days| && n <= |rec.term| && n <= |rec.startTime| && n <= |rec.endTime|
    ensures s in Blocks(rec, n) <==> FromBlock(rec, n, s)
  {
    if n > 0 {
      BlocksMembers(rec, n - 1, s);
      var i := n - 1;
      var tokens := SplitOn(rec.days[i], ' ');
      var last := BlockSessions(rec.term[i], rec.days[i], rec.startTime[i], rec.endTime[i]);
      if s in last {
        var k :| 0 <= k < |tokens| && last[k] == s;
        assert FromBlock(rec, n, s);
      }
      if FromBlock(rec, n, s) {
        var i', k :| 0 <= i' < n && 0 <= k < |SplitOn(rec.days[i'], ' ')| &&
          s == ClassSession(rec.term[i'], SplitOn(rec.days[i'], ' ')[k], rec.startTime[i'], rec.endTime[i']);
        if i' == i {
          assert last[k] == s;
        } else {
          assert FromBlock(rec, n - 1, s);
        }
      }
    }
  }

  /**
   * The expanded sessions are exactly the (block, day token) pairs: each
   * session carries its block's term, start and end, and a day that is one
   * token of that block's `days`.
   */
  lemma ExpandMembers(rec: SectionRecord, s: ClassSession)
    requires Expand(rec).Ok?
    ensures s in Expand(rec).value <==> FromBlock(rec, |rec.days|, s)
  {
    BlocksMembers(rec, |rec.days|, s);
  }

  /** Lists longer than `days` are ignored: cutting them to the length of `days` changes nothing. */
  lemma {:induction false} BlocksIgnoreLonger(rec: SectionRecord, cut: SectionRecord, n: nat)
    requires Expandable(rec) && n <= |rec.days|
    requires cut == rec.(term := rec.term[..|rec.days|], startTime := rec.startTime[..|rec.days|],
                         endTime := rec.endTime[..|rec.days|])
    ensures Blocks(rec, n) == Blocks(cut, n)
  {
    if n > 0 {
      BlocksIgnoreLonger(rec, cut, n - 1);
    }
  }

  lemma ExpandIgnoresLonger(rec: SectionRecord)
    requires Expandable(rec)
    ensures Expand(rec) == Expand(rec.(term := rec.term[..|rec.days|], startTime := rec.startTime[..|rec.days|],
                                       endTime := rec.endTime[..|rec.days|]))
  {
    var cut := rec.(term := rec.term[..|rec.days|], startTime := rec.startTime[..|rec.days|],
                    endTime := rec.endTime[..|rec.days|]);
    BlocksIgnoreLonger(rec, cut, |rec.days|);
  }

  /** Appends one meeting block to the parallel lists, as a continuation row of the scraper does. */
  function AddBlock(rec: SectionRecord, term: string, days: string, start: string, end: string): SectionRecord
  {
    rec.(term := rec.term + [term], days := rec.days + [days], startTime := rec.startTime + [start],
         endTime := rec.endTime + [end])
  }

  lemma {:induction false} BlocksAddBlock(rec: SectionRecord, term: string, days: string, start: string, end: string, n: nat)
    requires n <= |rec.days| && n <= |rec.term| && n <= |rec.startTime| && n <= |rec.endTime|
    ensures Blocks(AddBlock(rec, term, days, start, end), n) == Blocks(rec, n)
  {
    if n > 0 {
      BlocksAddBlock(rec, term, days, start, end, n - 1);
    }
  }

  /**
   * For a section whose lists have equal length, one more block appends
   * that block's sessions after the existing ones.
   */
  lemma ExpandAddBlock(rec: SectionRecord, term: string, days: string, start: string, end: string)
    requires |rec.term| == |rec.days| == |rec.startTime| == |rec.endTime|
    ensures Expand(AddBlock(rec, term, days, start, end))
         == Ok(Expand(rec).value + BlockSessions(term, days, start, end))
  {
    BlocksAddBlock(rec, term, days, start, end, |rec.days|);
  }
}
