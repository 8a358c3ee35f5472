/**
 Suggesting study times shared by two students and recording a scheduled
 session in both students' session logs.
 */
module Scheduling {
  import opened Students
  import Matching

  /**
   The days on which both students are available: the keys the two
   availability maps share. The time ranges are not compared.
   */
  function CommonDays(a: Student, b: Student): (r: set<Day>)
    ensures r <= a.availability.Keys && r <= b.availability.Keys
    ensures forall d :: d in a.availability && d in b.availability ==> d in r
  {
    a.availability.Keys * b.availability.Keys
  }

  /** Which of the two students is named first does not change the common days. */
  lemma CommonDaysSymmetric(a: Student, b: Student)
    ensures CommonDays(a, b) == CommonDays(b, a)
  {
  }

  /** The days depend only on which days are listed, never on the time ranges. */
  lemma CommonDaysIgnoreTimeRanges(a: Student, b: Student, a': Student, b': Student)
    requires a.availability.Keys == a'.availability.Keys
    requires b.availability.Keys == b'.availability.Keys
    ensures CommonDays(a, b) == CommonDays(a', b')
  {
  }

  /** No element occurs twice. */
  predicate NoDuplicates<T(==)>(xs: seq<T>) {
    forall i, j :: 0 <= i < j < |xs| ==> xs[i] != xs[j]
  }

  /**
   The suggested study times as a list: each common day exactly once, in
   whatever order the set of common days happens to be listed.
   */
  method SuggestStudyTimes(a: Student, b: Student) returns (times: seq<Day>)
    ensures forall d :: d in times <==> d in a.availability && d in b.availability
    ensures NoDuplicates(times)
    ensures |times| == |CommonDays(a, b)|
  {
    var remaining := CommonDays(a, b);
    times := [];
    while remaining != {}
      invariant forall d :: d in times ==> d in a.availability && d in b.availability
      invariant forall d :: d in a.availability && d in b.availability ==> d in times || d in remaining
      invariant remaining <= CommonDays(a, b)
      invariant forall d :: d in times ==> d !in remaining
      invariant NoDuplicates(times)
      invariant |times| + |remaining| == |CommonDays(a, b)|
      decreases |remaining|
    {
      var d :| d in remaining;
      times := times + [d];
      remaining := remaining - {d};
    }
  }

  /** The value recorded for a session between `a` and `b` at `slot`. */
  function SessionFor(a: Student, b: Student, slot: string): Session {
    Session((a.name, b.name), slot)
  }

  /** `after` is `before` with exactly the one session `s` appended. */
  predicate AppendedOnce(before: Student, after: Student, s: Session) {
    && |after.scheduledSessions| == |before.scheduledSessions| + 1
    && after.scheduledSessions[..|before.scheduledSessions|] == before.scheduledSessions
    && after.scheduledSessions[|before.scheduledSessions|] == s
    && after.(scheduledSessions := before.scheduledSessions) == before
  }

  /** Appends one session to a student's log, leaving every other field alone. */
  function Record(st: Student, s: Session): (r: Student)
    ensures AppendedOnce(st, r, s)
  {
    st.(scheduledSessions := st.scheduledSessions + [s])
  }

  /**
   Schedules a session: one session value naming both students and the
   slot is appended first to `a`'s log and then to `b`'s log. The results are
   the two updated records. When both arguments are the same object, its
   one log receives the session twice and both results are that record.
   Any slot is accepted.
   */
  function SetStudySession(a: Student, b: Student, slot: string): (r: (Student, Student))
    requires Consistent(a, b)
    ensures !SameObject(a, b) ==>
              && AppendedOnce(a, r.0, SessionFor(a, b, slot))
              && AppendedOnce(b, r.1, SessionFor(a, b, slot))
    ensures SameObject(a, b) ==>
              && r.0 == r.1
              && exists mid :: AppendedOnce(a, mid, SessionFor(a, b, slot)) && AppendedOnce(mid, r.0, SessionFor(a, b, slot))
  {
    var s := SessionFor(a, b, slot);
    if SameObject(a, b) then
      var once := Record(a, s);
      var twice := Record(once, s);
      (twice, twice)
    else
      (Record(a, s), Record(b, s))
  }

  /** Every session in the student's log names that student as a participant. */
  predicate TakesPartInAll(st: Student) {
    forall i :: 0 <= i < |st.scheduledSessions| ==>
      st.name == st.scheduledSessions[i].students.0 || st.name == st.scheduledSessions[i].students.1
  }

  /** Scheduling keeps every log listing only sessions its owner takes part in. */
  lemma SetStudySessionKeepsParticipation(a: Student, b: Student, slot: string)
    requires Consistent(a, b)
    requires TakesPartInAll(a) && TakesPartInAll(b)
    ensures TakesPartInAll(SetStudySession(a, b, slot).0)
    ensures TakesPartInAll(SetStudySession(a, b, slot).1)
  {
  }

  /** Both students end with the same session as the newest entry of their logs. */
  lemma SetStudySessionSharesSession(a: Student, b: Student, slot: string)
    requires Consistent(a, b)
    ensures var r := SetStudySession(a, b, slot);
            && |r.0.scheduledSessions| > 0 && |r.1.scheduledSessions| > 0
            && r.0.scheduledSessions[|r.0.scheduledSessions| - 1] == SessionFor(a, b, slot)
            && r.1.scheduledSessions[|r.1.scheduledSessions| - 1] == SessionFor(a, b, slot)
  {
  }

  /** Scheduling changes no attribute the matching looks at. */
  lemma SetStudySessionKeepsScore(a: Student, b: Student, slot: string)
    requires Consistent(a, b)
    ensures var r := SetStudySession(a, b, slot);
            && Matching.MatchScore(r.0, r.1) == Matching.MatchScore(a, b)
            && CommonDays(r.0, r.1) == CommonDays(a, b)
  {
  }
}
