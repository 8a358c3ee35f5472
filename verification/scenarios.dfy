/**
 The two students of the repository's unit tests, Alice and Bob, and what
 the model answers for them.
 */
module Scenarios {
  import opened Students
  import opened Matching
  import opened Scheduling

  function Alice(): Student {
    Student(1, "Alice", "10th", {"Math", "Science"}, map["Monday" := "6-8pm", "Wednesday" := "4-6pm"], [])
  }

  function Bob(): Student {
    Student(2, "Bob", "10th", {"Math", "History"}, map["Monday" := "6-8pm", "Tuesday" := "4-6pm"], [])
  }

  /** Same grade and the shared interest "Math" give the full score. */
  lemma AliceBobScore()
    ensures MatchScore(Alice(), Bob()) == 100
  {
    assert "Math" in Alice().interests && "Math" in Bob().interests;
  }

  /** Searching for Alice among [Bob] finds Bob with score 100. */
  lemma AliceFindsBob()
    ensures FindStudyPartner(Alice(), [Bob()]) == Match(Some(Bob()), 100)
  {
    AliceBobScore();
    assert [Bob()][..0] == [];
  }

  /** Monday is the only day both are free; the answer is the day key alone. */
  lemma AliceBobCommonDays()
    ensures CommonDays(Alice(), Bob()) == {"Monday"}
  {
    assert "Monday" in CommonDays(Alice(), Bob());
  }

  /** Scheduling one session leaves exactly one entry in each empty log. */
  lemma AliceBobSession()
    ensures var r := SetStudySession(Alice(), Bob(), "Monday: 6-8pm");
            |r.0.scheduledSessions| == 1 && |r.1.scheduledSessions| == 1
  {
  }

  /**
   The list of suggested times for Alice and Bob is ["Monday"]: the day key
   alone, where the unit test expects "Monday: 6-8pm".
   */
  method AliceBobStudyTimes() returns (times: seq<Day>)
    ensures times == ["Monday"]
  {
    times := SuggestStudyTimes(Alice(), Bob());
    AliceBobCommonDays();
    assert "Monday" in times;
  }
}
