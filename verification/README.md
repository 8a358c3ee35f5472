# Study-partner matching (INST326 final project), modelled in Dafny

This project models the student-matching logic of the INST326 study-helper
program. Students are kept as in-memory records: a name, a grade label, a set
of interest tags, a day-to-time-range availability map and a log of
scheduled sessions. The model covers four operations:

- `match_score`: the compatibility score of two students. It is 50 for the
  same grade plus 50 for at least one shared interest.
- `find_study_partner`: the scan over a candidate list for the best-scoring
  partner. It skips the searching student itself, and the strict `>` means
  that ties go to the earliest candidate.
- `suggest_study_times`: the days that both students' availability maps list.
- `set_study_session`: one session value, naming both students and the
  slot, appended to both students' session logs.

Files:

- `students.dfy` (module `Students`): the `Student` and `Session` records and
  `Option`. A student carries an `id` that stands for Python object identity,
  because `find_study_partner` compares students with `!=`. The `Student`
  class is not part of this model. The model assumes the class keeps
  Python's default equality, under which `!=` is an identity test.
- `matching.dfy` (module `Matching`): the score and the partner search.
  - `FindStudyPartner` is the scan written as a function over the prefix
    scanned so far.
  - `ScanForStudyPartner` is the same scan as a loop.
  - `IsBestMatch` states the expected answer without any scan: the first
    other candidate with the highest positive score, or no partner and 0.
  - Lemmas prove that the scan meets `IsBestMatch` and that `IsBestMatch`
    allows only one answer.
- `scheduling.dfy` (module `Scheduling`): common days and session
  scheduling. Scheduling is a function that returns the two updated records
  instead of changing them in place.
- `scenarios.dfy` (module `Scenarios`): Alice and Bob from the repository's
  unit tests, with the answers the model gives for them.

Where the unit tests and the code disagree, the model follows the code:

- `suggest_study_times` returns day keys only (`Monday`), in whatever order
  the set lists them. `SuggestStudyTimes` therefore promises membership and
  no duplicates, but no order. The unit test at test_student.py:58 expects
  `"Monday: 6-8pm"`, which the code does not produce. `AliceBobCommonDays`
  states what the code does produce: `{"Monday"}`. `AliceBobStudyTimes`
  states the list itself: `["Monday"]`.
- `match_score` does not exclude a student compared with itself. It computes
  a score as for anyone else.
- If both arguments of `set_study_session` are the same object, that one list
  is appended to twice. `SetStudySession` models this case. Its precondition
  `Consistent(a, b)` says only that two records with the same identity are
  the same record, as two references to one Python object must be.

## Model

| member | source | states |
|---|---|---|
| Matching.MatchScore | INST326_FinalProj.py:23-28 | The score is 0, 50 or 100. It is 100 exactly when the grades are equal and some interest tag is shared, and 0 exactly when neither holds. |
| Matching.IntersectionMeansSharedInterest | INST326_FinalProj.py:26 | The two interest sets have a non-empty intersection exactly when some tag is in both. |
| Matching.MatchScoreSymmetric | INST326_FinalProj.py:24-27 | Swapping the two students does not change the score. |
| Matching.FindStudyPartner | INST326_FinalProj.py:42-50 | A partner that is found comes from the candidate list, is not the searching student, and has a positive score equal to its match score. With no partner the score is 0. |
| Matching.FindStudyPartnerIsBest | INST326_FinalProj.py:42-50 | The scan's answer is the best match: the first non-self candidate with the highest positive score, or no partner and 0 when no non-self candidate scores above 0. |
| Matching.BestMatchUnique | INST326_FinalProj.py:47-49 | At most one answer meets the best-match description, so the description fixes both the partner and the score. |
| Matching.FindStudyPartnerCharacterized | INST326_FinalProj.py:42-50 | An outcome is the scan's answer if and only if it meets the best-match description. |
| Matching.NeverSelf | INST326_FinalProj.py:44-46 | For every candidate list, including one that lists the searching student, a returned partner is never the same object as the searching student. |
| Matching.NoCandidates | INST326_FinalProj.py:42-43 | An empty candidate list gives no partner and score 0. |
| Matching.NoPositiveScore | INST326_FinalProj.py:42-50 | When every non-self candidate scores 0, the answer is no partner and score 0. |
| Matching.PartnerIsMaximal | INST326_FinalProj.py:44-49 | Every non-self candidate scores at most the returned score. If any of them scores above 0, a partner is returned. |
| Matching.TieGoesToEarliest | INST326_FinalProj.py:47-49 | A candidate that ties with an earlier non-self candidate is not chosen, unless the same student also appears earlier in the list. |
| Matching.ScanForStudyPartner | INST326_FinalProj.py:42-50 | The loop that keeps the best score and partner so far returns the same answer as `FindStudyPartner`. That answer is the best match: the first non-self candidate with the highest positive score, or no partner and 0. |
| Scheduling.CommonDays | INST326_FinalProj.py:63 | The common days are listed in both availability maps, and every day listed in both is included. |
| Scheduling.CommonDaysSymmetric | INST326_FinalProj.py:63 | The order of the two students does not change the common days. |
| Scheduling.CommonDaysIgnoreTimeRanges | INST326_FinalProj.py:63 | The common days depend only on which days are listed, not on the time ranges. |
| Scheduling.SuggestStudyTimes | INST326_FinalProj.py:63-64 | The returned list holds exactly the days available to both students. It has no duplicates, and its length is the number of common days. |
| Scheduling.Record | INST326_FinalProj.py:81-82 | Appending a session grows the log by exactly one. Earlier entries stay as they were, the new last entry is the session, and no other field changes. |
| Scheduling.SetStudySession | INST326_FinalProj.py:77-82 | For two distinct students, each log grows by exactly one entry. That entry is the same session, naming both students and the slot, and earlier entries and other fields are unchanged. When both arguments are one object, its log receives that session twice. |
| Scheduling.SetStudySessionKeepsParticipation | INST326_FinalProj.py:77-82 | If every session in each log names its owner, that still holds after scheduling. |
| Scheduling.SetStudySessionSharesSession | INST326_FinalProj.py:77-82 | After scheduling, both logs end with the same session for the two names and the slot. |
| Scheduling.SetStudySessionKeepsScore | INST326_FinalProj.py:77-82 | Scheduling changes neither the two students' match score nor their common days. |
| Scenarios.AliceBobScore | test_student.py:44-47 | Alice and Bob, both in grade 10th and both interested in Math, score 100. |
| Scenarios.AliceFindsBob | test_student.py:49-53 | Searching for Alice's partner among [Bob] gives Bob with score 100. |
| Scenarios.AliceBobCommonDays | INST326_FinalProj.py:63-64 | For Alice and Bob the common days are exactly {Monday}. These are day keys only. |
| Scenarios.AliceBobStudyTimes | test_student.py:55-58 | For Alice and Bob the suggested list is exactly ["Monday"], where the test expects ["Monday: 6-8pm"]. |
| Scenarios.AliceBobSession | test_student.py:60-64 | After one session is scheduled between two students with empty logs, each log has length 1. |

## Left out

- `set_break_reminder` (INST326_FinalProj.py:89-97): this is only a timed sleep followed by console output. It has no logic to state.
- `study_tips` (INST326_FinalProj.py:100-111): this is file reading, a random choice and console output. All three are I/O or randomness.
- The confirmation `print` in `set_study_session` (INST326_FinalProj.py:83): console output only.
- The `criteria` parameter of `find_study_partner` (INST326_FinalProj.py:30): the code never reads it, so the model drops it.
- Student progress and goals (`get_progress_report`, `update_progress`, `set_study_goal`, `get_progress`, `get_study_hours`): the tests call them as methods of a `Student` class that test_student.py:6 imports from INST326_FinalProj.py. That file defines no `Student` class, so there is no code to check a model against.
- The order of the list from `suggest_study_times`: Python's set iteration order is not specified. `SuggestStudyTimes` chooses an arbitrary order, and no contract depends on it.
- Scheduling.SetStudySession: the records are returned updated rather than changed in place. Aliasing beyond the two arguments is not modelled, for example other references to the same list. INST326_FinalProj.py:77-82 appends one dict object to both lists, so the two logs share a reference to it, while the model appends two copies of the value. Nothing in the modelled code changes a session after it is appended, so the difference cannot be observed.
