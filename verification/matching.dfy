/**
 Compatibility scoring between two students and the search for the best
 study partner among a list of candidates.
 */
module Matching {
  import opened Students

  /** Points for two students in the same grade. */
  const SameGradePoints: nat := 50
  /** Points for two students sharing at least one interest. */
  const SharedInterestPoints: nat := 50

  /** Some interest tag appears in both students' interests. */
  predicate SharesInterest(a: Student, b: Student) {
    exists t :: t in a.interests && t in b.interests
  }

  /**
   The compatibility score: 50 for the same grade (exact string equality),
   plus 50 when the interest sets intersect.
   */
  function MatchScore(a: Student, b: Student): (r: nat)
    ensures r == 0 || r == 50 || r == 100
    ensures r == 100 <==> a.grade == b.grade && SharesInterest(a, b)
    ensures r == 0 <==> a.grade != b.grade && !SharesInterest(a, b)
  {
    var gradePoints := if a.grade == b.grade then SameGradePoints else 0;
    var interestPoints := if a.interests * b.interests != {} then SharedInterestPoints else 0;
    IntersectionMeansSharedInterest(a, b);
    gradePoints + interestPoints
  }

  /** The interest sets intersect exactly when some tag is in both. */
  lemma IntersectionMeansSharedInterest(a: Student, b: Student)
    ensures a.interests * b.interests != {} <==> SharesInterest(a, b)
  {
    if a.interests * b.interests != {} {
      var t :| t in a.interests * b.interests;
      assert t in a.interests && t in b.interests;
    }
    if SharesInterest(a, b) {
      var t :| t in a.interests && t in b.interests;
      assert t in a.interests * b.interests;
    }
  }

  /** Both tests the score performs are symmetric, so the score is too. */
  lemma MatchScoreSymmetric(a: Student, b: Student)
    ensures MatchScore(a, b) == MatchScore(b, a)
  {
  }

  /** The outcome of a partner search: the partner found, if any, and its score. */
  datatype Match = Match(partner: Option<Student>, score: nat)

  /**
   The partner search, one candidate at a time in list order, exactly as the
   scan does: the candidate under consideration is skipped when it is the
   searching student; otherwise it replaces the best so far only when its
   score is strictly greater. The best score starts at 0 with no partner.
   Defined on the prefix scanned so far, so the last candidate is the one
   considered last.
   */
  function FindStudyPartner(s: Student, others: seq<Student>): (r: Match)
    ensures r.partner.None? ==> r.score == 0
    ensures r.partner.Some? ==>
              && r.partner.value in others
              && !SameObject(r.partner.value, s)
              && r.score == MatchScore(s, r.partner.value)
              && r.score > 0
    decreases |others|
  {
    if |others| == 0 then Match(None, 0)
    else
      var prev := FindStudyPartner(s, others[..|others| - 1]);
      var c := others[|others| - 1];
      if !SameObject(c, s) && MatchScore(s, c) > prev.score then
        Match(Some(c), MatchScore(s, c))
      else
        prev
  }

  /** Candidate `i` is someone other than the searching student. */
  ghost predicate IsOther(s: Student, others: seq<Student>, i: int)
    requires 0 <= i < |others|
  {
    !SameObject(others[i], s)
  }

  /**
   Position `k` holds the first other candidate with the highest score, and
   that score is positive.
   */
  ghost predicate FirstBestAt(s: Student, others: seq<Student>, k: int) {
    && 0 <= k < |others|
    && IsOther(s, others, k)
    && MatchScore(s, others[k]) > 0
    && (forall i :: 0 <= i < |others| && IsOther(s, others, i) ==>
          MatchScore(s, others[i]) <= MatchScore(s, others[k]))
    && (forall i :: 0 <= i < k && IsOther(s, others, i) ==>
          MatchScore(s, others[i]) < MatchScore(s, others[k]))
  }

  /**
   What a partner search should answer, stated without the scan: no partner
   and score 0 when no other candidate scores above 0; otherwise the first
   other candidate with the highest score, together with that score.
   */
  ghost predicate IsBestMatch(s: Student, others: seq<Student>, r: Match) {
    match r.partner
    case None =>
      && r.score == 0
      && forall i :: 0 <= i < |others| && IsOther(s, others, i) ==> MatchScore(s, others[i]) == 0
    case Some(p) =>
      exists k :: FirstBestAt(s, others, k) && others[k] == p && r.score == MatchScore(s, p)
  }

  /** The scan answers what a partner search should answer. */
  lemma {:induction false} FindStudyPartnerIsBest(s: Student, others: seq<Student>)
    ensures IsBestMatch(s, others, FindStudyPartner(s, others))
    decreases |others|
  {
    if |others| > 0 {
      var n := |others| - 1;
      var prev := FindStudyPartner(s, others[..n]);
      FindStudyPartnerIsBest(s, others[..n]);
      if !SameObject(others[n], s) && MatchScore(s, others[n]) > prev.score {
        LastCandidateTakesOver(s, others, prev);
      } else {
        BestSoFarStays(s, others, prev);
      }
    }
  }

  /** A last candidate scoring above the best of the prefix is the best match. */
  lemma LastCandidateTakesOver(s: Student, others: seq<Student>, prev: Match)
    requires |others| > 0
    requires IsBestMatch(s, others[..|others| - 1], prev)
    requires !SameObject(others[|others| - 1], s)
    requires MatchScore(s, others[|others| - 1]) > prev.score
    ensures FirstBestAt(s, others, |others| - 1)
  {
    var n := |others| - 1;
    var prefix := others[..n];
    forall i | 0 <= i < n && IsOther(s, others, i)
      ensures MatchScore(s, others[i]) < MatchScore(s, others[n])
    {
      assert others[i] == prefix[i];
      PrefixScoreAtMostBest(s, prefix, prev, i);
    }
  }

  /** A last candidate that is the searcher, or scores no higher, leaves the best match as it was. */
  lemma BestSoFarStays(s: Student, others: seq<Student>, prev: Match)
    requires |others| > 0
    requires IsBestMatch(s, others[..|others| - 1], prev)
    requires SameObject(others[|others| - 1], s) || MatchScore(s, others[|others| - 1]) <= prev.score
    ensures IsBestMatch(s, others, prev)
  {
    var n := |others| - 1;
    var prefix := others[..n];
    assert forall i :: 0 <= i < n ==> others[i] == prefix[i];
    match prev.partner
    case None =>
    case Some(p) =>
      var k :| FirstBestAt(s, prefix, k) && prefix[k] == p && prev.score == MatchScore(s, p);
      assert FirstBestAt(s, others, k);
  }

  /** Every other candidate in a scanned prefix scores at most the best found. */
  lemma PrefixScoreAtMostBest(s: Student, prefix: seq<Student>, r: Match, i: int)
    requires IsBestMatch(s, prefix, r)
    requires 0 <= i < |prefix| && IsOther(s, prefix, i)
    ensures MatchScore(s, prefix[i]) <= r.score
  {
    match r.partner
    case None =>
    case Some(p) =>
      var k :| FirstBestAt(s, prefix, k) && prefix[k] == p && r.score == MatchScore(s, p);
  }

  /** At most one outcome is the best match, so the declarative answer is unique. */
  lemma BestMatchUnique(s: Student, others: seq<Student>, r1: Match, r2: Match)
    requires IsBestMatch(s, others, r1) && IsBestMatch(s, others, r2)
    ensures r1 == r2
  {
    match r1.partner {
      case None =>
        match r2.partner {
          case None =>
          case Some(_) =>
            assert false;
        }
      case Some(p1) =>
        var k1 :| FirstBestAt(s, others, k1) && others[k1] == p1 && r1.score == MatchScore(s, p1);
        match r2.partner {
          case None =>
            assert false;
          case Some(p2) =>
            var k2 :| FirstBestAt(s, others, k2) && others[k2] == p2 && r2.score == MatchScore(s, p2);
            if k1 < k2 {
              assert false;
            } else if k2 < k1 {
              assert false;
            }
        }
    }
  }

  /** The scan's answer is exactly the outcome characterised by IsBestMatch. */
  lemma FindStudyPartnerCharacterized(s: Student, others: seq<Student>, r: Match)
    ensures r == FindStudyPartner(s, others) <==> IsBestMatch(s, others, r)
  {
    FindStudyPartnerIsBest(s, others);
    if IsBestMatch(s, others, r) {
      BestMatchUnique(s, others, r, FindStudyPartner(s, others));
    }
  }

  /** The searching student is never its own partner, even when listed. */
  lemma NeverSelf(s: Student, others: seq<Student>)
    ensures FindStudyPartner(s, others).partner.Some? ==>
              !SameObject(FindStudyPartner(s, others).partner.value, s)
  {
  }

  /** An empty candidate list yields no partner and score 0. */
  lemma NoCandidates(s: Student)
    ensures FindStudyPartner(s, []) == Match(None, 0)
  {
  }

  /** When no other candidate scores above 0, there is no partner and score 0. */
  lemma NoPositiveScore(s: Student, others: seq<Student>)
    requires forall i :: 0 <= i < |others| && IsOther(s, others, i) ==> MatchScore(s, others[i]) == 0
    ensures FindStudyPartner(s, others) == Match(None, 0)
  {
    FindStudyPartnerIsBest(s, others);
  }

  /**
   The partner found scores at least as high as every other candidate, and
   there is one exactly when some other candidate scores above 0.
   */
  lemma PartnerIsMaximal(s: Student, others: seq<Student>, i: int)
    requires 0 <= i < |others| && IsOther(s, others, i)
    ensures MatchScore(s, others[i]) <= FindStudyPartner(s, others).score
    ensures MatchScore(s, others[i]) > 0 ==> FindStudyPartner(s, others).partner.Some?
  {
    FindStudyPartnerIsBest(s, others);
    PrefixScoreAtMostBest(s, others, FindStudyPartner(s, others), i);
  }

  /**
   A candidate that ties with an earlier other candidate is not chosen,
   unless the same student also appears earlier in the list: ties go to the
   earliest candidate.
   */
  lemma TieGoesToEarliest(s: Student, others: seq<Student>, i: int, j: int)
    requires 0 <= i < j < |others|
    requires IsOther(s, others, i) && IsOther(s, others, j)
    requires MatchScore(s, others[i]) == MatchScore(s, others[j])
    requires others[j] !in others[..j]
    ensures FindStudyPartner(s, others).partner != Some(others[j])
  {
    FindStudyPartnerIsBest(s, others);
  }

  /**
   The scan written as a loop over the candidates, keeping the best score
   and partner seen so far.
   */
  method ScanForStudyPartner(s: Student, others: seq<Student>) returns (partner: Option<Student>, score: nat)
    ensures Match(partner, score) == FindStudyPartner(s, others)
    ensures IsBestMatch(s, others, Match(partner, score))
  {
    score := 0;
    partner := None;
    var i := 0;
    while i < |others|
      invariant 0 <= i <= |others|
      invariant Match(partner, score) == FindStudyPartner(s, others[..i])
    {
      var c := others[i];
      assert others[..i + 1][..i] == others[..i];
      if !SameObject(c, s) {
        var cScore := MatchScore(s, c);
        if cScore > score {
          score := cScore;
          partner := Some(c);
        }
      }
      i := i + 1;
    }
    assert others[..i] == others;
    FindStudyPartnerIsBest(s, others);
  }
}
