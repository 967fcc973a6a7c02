/**
 * The onboarding flow: the per-user onboarding state and its steps, the
 * score of the familiarity quiz, and the recommendations derived from the
 * score, the goals and the answers.
 */
module Onboarding {
  import opened Wrappers

  datatype Familiarity = Unfamiliar | Familiar | VeryFamiliar

  datatype TimeCommitment = Low | Medium | High

  /**
   * The quiz answers object, entry by entry in the order of its keys; a
   * topic may carry no value (undefined), which scores 0.
   */
  type Answers = seq<(string, Option<Familiarity>)>

  /** The keys of an object are distinct. */
  predicate DistinctKeys(a: Answers)
  {
    forall i, j :: 0 <= i < j < |a| ==> a[i].0 != a[j].0
  }

  predicate Distinct(s: seq<string>)
  {
    forall i, j :: 0 <= i < j < |s| ==> s[i] != s[j]
  }

  // ---------------------------------------------------------------------
  // Arithmetic of the source's number expressions
  // ---------------------------------------------------------------------

  /** Math.round(num / den) for a positive den: the nearest integer, halves rounded up. */
  function RoundDiv(num: int, den: int): (r: int)
    requires den > 0
    ensures 2 * den * r <= 2 * num + den < 2 * den * r + 2 * den
  {
    (2 * num + den) / (2 * den)
  }

  /** Multiplying by a non-negative factor keeps an order. */
  lemma MulMonotone(c: int, a: int, b: int)
    requires c >= 0 && a <= b
    ensures c * a <= c * b
  {
  }

  /** Rounding keeps bounds that are whole multiples of the divisor. */
  lemma RoundDivBounds(num: int, den: int, lo: int, hi: int)
    requires den > 0 && lo * den <= num <= hi * den
    ensures lo <= RoundDiv(num, den) <= hi
  {
    var r := RoundDiv(num, den);
    if r > hi {
      MulMonotone(2 * den, hi + 1, r);
      assert false;
    }
    if r < lo {
      MulMonotone(2 * den, r + 1, lo);
      assert false;
    }
  }

  /** Rounding is monotone in the numerator. */
  lemma RoundDivMonotone(a: int, b: int, den: int)
    requires den > 0 && a <= b
    ensures RoundDiv(a, den) <= RoundDiv(b, den)
  {
    var ra, rb := RoundDiv(a, den), RoundDiv(b, den);
    if ra > rb {
      MulMonotone(2 * den, rb + 1, ra);
      assert false;
    }
  }

  // ---------------------------------------------------------------------
  // The quiz score
  // ---------------------------------------------------------------------

  /** 0, 50 or 100 for a familiarity, 0 when no value was given. */
  function Points(f: Option<Familiarity>): (r: int)
    ensures 0 <= r <= 100
  {
    match f
    case None => 0
    case Some(Unfamiliar) => 0
    case Some(Familiar) => 50
    case Some(VeryFamiliar) => 100
  }

  /** The sum of the points of the answers, the reduce of calculateQuizScore. */
  function Total(a: Answers): (t: int)
    ensures 0 <= t <= 100 * |a|
  {
    if |a| == 0 then 0 else Total(a[..|a| - 1]) + Points(a[|a| - 1].1)
  }

  /** calculateQuizScore: 0 without answers, otherwise the mean of the points rounded half up. */
  function QuizScore(a: Answers): (r: int)
    ensures |a| == 0 ==> r == 0
    ensures 0 <= r <= 100
    ensures |a| > 0 ==> 2 * |a| * r <= 2 * Total(a) + |a| < 2 * |a| * r + 2 * |a|
  {
    if |a| == 0 then 0
    else
      RoundDivBounds(Total(a), |a|, 0, 100);
      RoundDiv(Total(a), |a|)
  }

  /** Answers with the same points everywhere score exactly those points. */
  lemma {:induction false} UniformTotal(a: Answers, f: Option<Familiarity>)
    requires forall i :: 0 <= i < |a| ==> a[i].1 == f
    ensures Total(a) == |a| * Points(f)
  {
    if |a| > 0 {
      UniformTotal(a[..|a| - 1], f);
    }
  }

  /** All VERY_FAMILIAR scores 100, and all UNFAMILIAR scores 0. */
  lemma UniformScore(a: Answers, f: Familiarity)
    requires |a| > 0 && forall i :: 0 <= i < |a| ==> a[i].1 == Some(f)
    ensures f == VeryFamiliar ==> QuizScore(a) == 100
    ensures f == Unfamiliar ==> QuizScore(a) == 0
  {
    UniformTotal(a, Some(f));
    RoundDivBounds(Total(a), |a|, Points(Some(f)), Points(Some(f)));
  }

  // ---------------------------------------------------------------------
  // The recommendation helpers
  // ---------------------------------------------------------------------

  /** The daily minutes of a time commitment. */
  function StudyTime(t: TimeCommitment): int
  {
    match t
    case Low => 30
    case Medium => 60
    case High => 120
  }

  /** The count before the score is taken into account: one per whole half hour of study, and at least 1. */
  function BaseCount(studyTime: int): (b: int)
    ensures b >= 1 && (studyTime >= 30 ==> 30 * b <= studyTime < 30 * b + 30)
  {
    if studyTime / 30 > 1 then studyTime / 30 else 1
  }

  /**
   * calculateDailyAlgorithms: the base count scaled by 0.5 below a score of 50,
   * by 0.75 below 75 and by 1 otherwise, rounded, and never below 1.
   */
  function DailyAlgorithms(score: int, studyTime: int): (r: int)
    ensures 1 <= r <= BaseCount(studyTime)
  {
    var b := BaseCount(studyTime);
    var scaled := if score < 50 then RoundDiv(b, 2) else if score < 75 then RoundDiv(3 * b, 4) else b;
    RoundDivBounds(b, 2, 0, b);
    RoundDivBounds(3 * b, 4, 0, b);
    if scaled > 1 then scaled else 1
  }

  /** A higher score never recommends fewer algorithms a day. */
  lemma DailyAlgorithmsMonotone(s1: int, s2: int, studyTime: int)
    requires s1 <= s2
    ensures DailyAlgorithms(s1, studyTime) <= DailyAlgorithms(s2, studyTime)
  {
    var b := BaseCount(studyTime);
    RoundDivMonotone(2 * b, 3 * b, 4);
    assert RoundDiv(b, 2) == RoundDiv(2 * b, 4);
    RoundDivBounds(3 * b, 4, 0, b);
  }

  /** The three commitments: 1 algorithm a day for LOW, 1 or 2 for MEDIUM and 2 to 4 for HIGH (1.5 rounds up to 2). */
  lemma DailyAlgorithmsByCommitment(score: int)
    ensures DailyAlgorithms(score, StudyTime(Low)) == 1
    ensures DailyAlgorithms(score, StudyTime(Medium)) == (if score < 50 then 1 else 2)
    ensures DailyAlgorithms(score, StudyTime(High)) == (if score < 50 then 2 else if score < 75 then 3 else 4)
  {
  }

  /** analyzeWeakAreas: the UNFAMILIAR topics, in key order. */
  function WeakAreas(a: Answers): (r: seq<string>)
    ensures |r| <= |a|
    ensures forall t :: t in r <==> (t, Some(Unfamiliar)) in a
  {
    if |a| == 0 then []
    else
      assert a == a[..|a| - 1] + [a[|a| - 1]];
      WeakAreas(a[..|a| - 1]) + (if a[|a| - 1].1 == Some(Unfamiliar) then [a[|a| - 1].0] else [])
  }

  /** Object.keys: the topics in key order. */
  function Topics(a: Answers): (r: seq<string>)
    ensures |r| == |a| && forall i :: 0 <= i < |a| ==> r[i] == a[i].0
  {
    if |a| == 0 then [] else Topics(a[..|a| - 1]) + [a[|a| - 1].0]
  }

  /** With distinct keys the weak areas are distinct too. */
  lemma {:induction false} WeakAreasDistinct(a: Answers)
    requires DistinctKeys(a)
    ensures Distinct(WeakAreas(a))
  {
    if |a| > 0 {
      var init := a[..|a| - 1];
      WeakAreasDistinct(init);
      if a[|a| - 1].1 == Some(Unfamiliar) {
        var t := a[|a| - 1].0;
        assert t !in WeakAreas(init) by {
          forall i | 0 <= i < |init|
            ensures init[i] != (t, Some(Unfamiliar))
          {
            assert a[i].0 != a[|a| - 1].0;
          }
        }
      }
    }
  }

  /** [...new Set(s)]: the elements of s, each at its first occurrence. */
  function Dedup(s: seq<string>): (r: seq<string>)
    ensures Distinct(r) && |r| <= |s|
    ensures forall x :: x in r <==> x in s
  {
    if |s| == 0 then []
    else
      var d := Dedup(s[..|s| - 1]);
      assert s == s[..|s| - 1] + [s[|s| - 1]];
      if s[|s| - 1] in d then d else d + [s[|s| - 1]]
  }

  /** Appending never reorders what is already in the set: Dedup(s) is a prefix of Dedup(s + t). */
  lemma {:induction false} DedupPrefix(s: seq<string>, t: seq<string>)
    ensures |Dedup(s)| <= |Dedup(s + t)| && Dedup(s + t)[..|Dedup(s)|] == Dedup(s)
    decreases |t|
  {
    if |t| > 0 {
      var u := s + t[..|t| - 1];
      assert s + t == u + [t[|t| - 1]];
      assert (s + t)[..|s + t| - 1] == u;
      DedupPrefix(s, t[..|t| - 1]);
    } else {
      assert s + t == s;
    }
  }

  /** A list without repeats is its own set. */
  lemma {:induction false} DedupDistinct(s: seq<string>)
    requires Distinct(s)
    ensures Dedup(s) == s
  {
    if |s| > 0 {
      DedupDistinct(s[..|s| - 1]);
      assert s[|s| - 1] !in s[..|s| - 1];
      assert s == s[..|s| - 1] + [s[|s| - 1]];
    }
  }

  /** JavaScript's slice(0, n) for n >= 0. */
  function Take(s: seq<string>, n: nat): (r: seq<string>)
    ensures |r| == (if n < |s| then n else |s|) && r == s[..|r|]
  {
    if n < |s| then s[..n] else s
  }

  /**
   * getRecommendedTopics: the weak areas and then the other topics, without
   * repeats, at most five of them.
   */
  function RecommendedTopics(weakAreas: seq<string>, allTopics: seq<string>): (r: seq<string>)
    ensures |r| <= 5 && Distinct(r)
    ensures forall x :: x in r ==> x in weakAreas || x in allTopics
  {
    var d := Dedup(weakAreas + allTopics);
    var r := Take(d, 5);
    assert forall i :: 0 <= i < |r| ==> r[i] == d[i];
    assert forall x :: x in r ==> x in weakAreas + allTopics;
    r
  }

  /** Weak areas without repeats come first, in their own order. */
  lemma RecommendedWeakFirst(weakAreas: seq<string>, allTopics: seq<string>)
    requires Distinct(weakAreas)
    ensures var k := if |weakAreas| < 5 then |weakAreas| else 5;
      k <= |RecommendedTopics(weakAreas, allTopics)| && RecommendedTopics(weakAreas, allTopics)[..k] == weakAreas[..k]
  {
    DedupPrefix(weakAreas, allTopics);
    DedupDistinct(weakAreas);
  }

  /** Every topic is recommended when there are at most five distinct ones. */
  lemma FewTopicsAllRecommended(weakAreas: seq<string>, allTopics: seq<string>)
    requires |Dedup(weakAreas + allTopics)| <= 5
    ensures forall x :: x in allTopics ==> x in RecommendedTopics(weakAreas, allTopics)
  {
  }

  /** The difficulty levels the comparison knows of, in order. */
  function LevelOrder(experience: string): int
  {
    if experience == "beginner" then 0 else if experience == "intermediate" then 1 else 2
  }

  /**
   * getDifficultyLevel: beginner below a score of 40; below 70 beginner for
   * beginners and intermediate for everyone else; from 70 the user's own level.
   */
  function DifficultyLevel(score: int, experience: string): (r: string)
    ensures score < 40 ==> r == "beginner"
    ensures 40 <= score < 70 ==> r == (if experience == "beginner" then "beginner" else "intermediate")
    ensures score >= 70 ==> r == experience
  {
    if score < 40 then "beginner"
    else if score < 70 then (if experience == "beginner" then "beginner" else "intermediate")
    else experience
  }

  /** For the levels beginner, intermediate and advanced, the recommendation never exceeds the user's own and never falls as the score rises. */
  lemma DifficultyOrdered(s1: int, s2: int, experience: string)
    requires experience == "beginner" || experience == "intermediate" || experience == "advanced"
    requires s1 <= s2
    ensures LevelOrder(DifficultyLevel(s2, experience)) <= LevelOrder(experience)
    ensures LevelOrder(DifficultyLevel(s1, experience)) <= LevelOrder(DifficultyLevel(s2, experience))
  {
  }

  datatype Milestone = Milestone(week: int, focus: string, targetTopics: seq<string>)

  /** JavaScript's slice(from, to) for 0 <= from <= to. */
  function Slice(s: seq<string>, from: nat, to: nat): (r: seq<string>)
    requires from <= to
    ensures from <= |s| ==> r == s[from..if to < |s| then to else |s|]
    ensures from > |s| ==> r == []
  {
    if from > |s| then [] else s[from..if to < |s| then to else |s|]
  }

  /** generateMilestones: four weeks, the first three splitting the topics two, two and the rest, the fourth taking all. */
  function Milestones(focusAreas: seq<string>): (r: seq<Milestone>)
    ensures |r| == 4 && forall i :: 0 <= i < 4 ==> r[i].week == i + 1
    ensures r[3].targetTopics == focusAreas
    ensures r[0].targetTopics + r[1].targetTopics + r[2].targetTopics == focusAreas
    ensures var n := |focusAreas|; var two := if n < 2 then n else 2; var four := if n < 4 then n else 4;
      && r[0].targetTopics == focusAreas[..two]
      && r[1].targetTopics == focusAreas[two..four]
      && r[2].targetTopics == focusAreas[four..]
  {
    var n := |focusAreas|;
    var w1 := Slice(focusAreas, 0, 2);
    var w2 := Slice(focusAreas, 2, 4);
    var w3 := if 4 <= n then focusAreas[4..] else [];
    assert w1 + w2 + w3 == focusAreas;
    [Milestone(1, "Fundamentals and Basic Problem Solving", w1),
     Milestone(2, "Advanced Concepts and Pattern Recognition", w2),
     Milestone(3, "Problem-Solving Strategies and Optimization", w3),
     Milestone(4, "Review and Real-world Applications", focusAreas)]
  }

  datatype StudyPlan = StudyPlan(focusAreas: seq<string>, practice: int, theory: int, review: int, milestones: seq<Milestone>)

  /**
   * generateStudyPlan: the first three weak areas, the time split 60/20/20
   * (each share rounded), and the milestones over all the topics.
   */
  function MakeStudyPlan(weakAreas: seq<string>, studyTime: int, topics: seq<string>): (r: StudyPlan)
    ensures r.focusAreas == Take(weakAreas, 3)
    ensures r.milestones == Milestones(topics)
    ensures 10 * r.practice <= 6 * studyTime + 5 < 10 * r.practice + 10
    ensures 10 * r.theory <= 2 * studyTime + 5 < 10 * r.theory + 10 && r.review == r.theory
  {
    StudyPlan(Take(weakAreas, 3), RoundDiv(3 * studyTime, 5), RoundDiv(studyTime, 5), RoundDiv(studyTime, 5), Milestones(topics))
  }

  /** The three rounded shares add up to the study time, give or take one minute. */
  lemma AllocationNearTotal(weakAreas: seq<string>, studyTime: int, topics: seq<string>)
    ensures var p := MakeStudyPlan(weakAreas, studyTime, topics);
      studyTime - 1 <= p.practice + p.theory + p.review <= studyTime + 1
  {
  }

  /** The goals of a saveUserGoals request. */
  datatype Goals = Goals(timeCommitment: TimeCommitment, experienceLevel: string, focusAreas: seq<string>)

  /**
   * The row the repository's saveUserGoals upserts: the focus areas as both
   * the learning goals and the preferred topics, the time commitment turned
   * into minutes, and the experience level. The commitment itself is not a
   * column.
   */
  datatype GoalsRow = GoalsRow(learningGoals: seq<string>, studyTime: int, experienceLevel: string, preferredTopics: seq<string>)

  function RowOf(goals: Goals): (r: GoalsRow)
    ensures r.studyTime == StudyTime(goals.timeCommitment) && r.studyTime in {30, 60, 120}
    ensures r.learningGoals == goals.focusAreas && r.preferredTopics == goals.focusAreas
    ensures r.experienceLevel == goals.experienceLevel
  {
    GoalsRow(goals.focusAreas, StudyTime(goals.timeCommitment), goals.experienceLevel, goals.focusAreas)
  }

  datatype Recommendations = Recommendations(dailyAlgorithmsCount: int, recommendedTopics: seq<string>,
                                             difficultyLevel: string, studyPlan: StudyPlan)

  /** Every recommended topic is a key of the answers. */
  lemma RecommendedFromAnswers(a: Answers)
    ensures forall t :: t in RecommendedTopics(WeakAreas(a), Topics(a)) ==> exists i :: 0 <= i < |a| && a[i].0 == t
  {
    var weak, topics := WeakAreas(a), Topics(a);
    forall t | t in RecommendedTopics(weak, topics)
      ensures exists i :: 0 <= i < |a| && a[i].0 == t
    {
      if t in weak {
        var i :| 0 <= i < |a| && a[i] == (t, Some(Unfamiliar));
      } else {
        var i :| 0 <= i < |topics| && topics[i] == t;
      }
    }
  }

  /**
   * generateRecommendations: the four helpers applied to the score, the
   * study time in minutes, the experience level and the answers.
   */
  function MakeRecommendations(score: int, studyTime: int, experienceLevel: string, a: Answers): (r: Recommendations)
    ensures r.dailyAlgorithmsCount >= 1
    ensures |r.recommendedTopics| <= 5 && Distinct(r.recommendedTopics)
    ensures forall t :: t in r.recommendedTopics ==> exists i :: 0 <= i < |a| && a[i].0 == t
    ensures |r.studyPlan.focusAreas| <= 3
    ensures forall t :: t in r.studyPlan.focusAreas ==> (t, Some(Unfamiliar)) in a
    ensures |r.studyPlan.milestones| == 4 && r.studyPlan.milestones[3].targetTopics == Topics(a)
  {
    var weak := WeakAreas(a);
    var topics := Topics(a);
    var rec := RecommendedTopics(weak, topics);
    RecommendedFromAnswers(a);
    Recommendations(DailyAlgorithms(score, studyTime), rec, DifficultyLevel(score, experienceLevel), MakeStudyPlan(weak, studyTime, topics))
  }

  /** With distinct keys the unfamiliar topics lead the recommended ones. */
  lemma WeakAreasLead(score: int, studyTime: int, experienceLevel: string, a: Answers)
    requires DistinctKeys(a)
    ensures var k := if |WeakAreas(a)| < 5 then |WeakAreas(a)| else 5;
      k <= |MakeRecommendations(score, studyTime, experienceLevel, a).recommendedTopics|
      && MakeRecommendations(score, studyTime, experienceLevel, a).recommendedTopics[..k] == WeakAreas(a)[..k]
  {
    WeakAreasDistinct(a);
    RecommendedWeakFirst(WeakAreas(a), Topics(a));
  }

  // ---------------------------------------------------------------------
  // The onboarding state
  // ---------------------------------------------------------------------

  datatype Step = Welcome | GoalsStep | Quiz | Summary

  datatype QuizResult = QuizResult(answers: Answers, score: int, recommendations: Recommendations)

  datatype State = State(currentStep: Step, isCompleted: bool, goals: Option<GoalsRow>, quiz: Option<QuizResult>)

  /** The onboarding rows by user id. */
  type Store = map<string, State>

  const Fresh := State(Welcome, false, None, None)

  /** getOnboardingState: the user's state, created at WELCOME and not completed when there is none. */
  function GetState(st: Store, userId: string): (r: (State, Store))
    ensures userId in st ==> r == (st[userId], st)
    ensures userId !in st ==> r == (Fresh, st[userId := Fresh])
    ensures userId in r.1 && r.1[userId] == r.0 && r.1.Keys == st.Keys + {userId}
  {
    if userId in st then (st[userId], st) else (Fresh, st[userId := Fresh])
  }

  /** Reading the state twice creates it at most once. */
  lemma GetStateIdempotent(st: Store, userId: string)
    ensures GetState(GetState(st, userId).1, userId) == (GetState(st, userId).0, GetState(st, userId).1)
  {
  }

  /** updateOnboardingState: the given step, else the stored one; the completion flag only when given. */
  function UpdateState(st: Store, userId: string, step: Option<Step>, isCompleted: Option<bool>): (r: (State, Store))
    ensures var s := GetState(st, userId).0;
      && r.0 == s.(currentStep := if step.Some? then step.value else s.currentStep,
                   isCompleted := if isCompleted.Some? then isCompleted.value else s.isCompleted)
      && r.1 == st[userId := r.0]
  {
    var (s, st1) := GetState(st, userId);
    var s1 := s.(currentStep := if step.Some? then step.value else s.currentStep,
                isCompleted := if isCompleted.Some? then isCompleted.value else s.isCompleted);
    (s1, st1[userId := s1])
  }

  /** An update with nothing in it only creates the state. */
  lemma EmptyUpdateIsRead(st: Store, userId: string)
    ensures UpdateState(st, userId, None, None) == GetState(st, userId)
  {
    if userId in st {
      assert st[userId := st[userId]] == st;
    }
  }

  /** saveUserGoals: upsert the goals row and move to the QUIZ step. */
  function SaveGoals(st: Store, userId: string, goals: Goals): (r: (State, Store))
    ensures r.0.goals == Some(RowOf(goals)) && r.0.currentStep == Quiz
    ensures r.0.isCompleted == GetState(st, userId).0.isCompleted && r.0.quiz == GetState(st, userId).0.quiz
    ensures r.1 == st[userId := r.0]
  {
    var (s, st1) := GetState(st, userId);
    var s1 := s.(goals := Some(RowOf(goals)), currentStep := Quiz);
    (s1, st1[userId := s1])
  }

  /**
   * submitQuiz, with the recommendations drawn from the study time the goals
   * row stores: BadRequest until goals are set; otherwise the score and the
   * recommendations are stored and onboarding ends at SUMMARY, completed.
   * A state the read creates has no goals, so the quiz is refused, and the
   * store returned beside the error keeps that created state.
   */
  function SubmitQuiz(st: Store, userId: string, a: Answers): (r: (Result<State, string>, Store))
    ensures GetState(st, userId).0.goals.None? ==> r == (Err("User goals must be set before taking the quiz"), GetState(st, userId).1)
    ensures r.0.Ok? <==> GetState(st, userId).0.goals.Some?
    ensures r.0.Ok? ==> var s := GetState(st, userId).0;
      && s.goals.Some?
      && r.0.value == s.(quiz := Some(QuizResult(a, QuizScore(a), Recommend(QuizScore(a), s.goals.value, a))),
                         currentStep := Summary, isCompleted := true)
      && r.1 == st[userId := r.0.value]
  {
    var (s, st1) := GetState(st, userId);
    if s.goals.None? then (Err("User goals must be set before taking the quiz"), st1)
    else
      var score := QuizScore(a);
      var s1 := s.(quiz := Some(QuizResult(a, score, Recommend(score, s.goals.value, a))),
                   currentStep := Summary, isCompleted := true);
      (Ok(s1), st1[userId := s1])
  }

  /** The recommendations for a stored goals row: its study time and experience level. */
  function Recommend(score: int, row: GoalsRow, a: Answers): (r: Recommendations)
    ensures r.dailyAlgorithmsCount == DailyAlgorithms(score, row.studyTime)
    ensures r.difficultyLevel == DifficultyLevel(score, row.experienceLevel)
    ensures r.studyPlan == MakeStudyPlan(WeakAreas(a), row.studyTime, Topics(a))
  {
    MakeRecommendations(score, row.studyTime, row.experienceLevel, a)
  }

  /**
   * Saving goals and then submitting the quiz completes onboarding, and the
   * recommendations follow the time commitment and experience level chosen
   * with the goals.
   */
  lemma GoalsThenQuizCompletes(st: Store, userId: string, goals: Goals, a: Answers)
    ensures var st1 := SaveGoals(st, userId, goals).1;
      && SubmitQuiz(st1, userId, a).0.Ok?
      && var s := SubmitQuiz(st1, userId, a).0.value;
      && s.isCompleted && s.currentStep == Summary && s.goals == Some(RowOf(goals))
      && s.quiz.Some? && s.quiz.value.score == QuizScore(a)
      && s.quiz.value.recommendations.dailyAlgorithmsCount == DailyAlgorithms(QuizScore(a), StudyTime(goals.timeCommitment))
      && s.quiz.value.recommendations.difficultyLevel == DifficultyLevel(QuizScore(a), goals.experienceLevel)
  {
  }

  // ---------------------------------------------------------------------
  // submitQuiz as written
  // ---------------------------------------------------------------------

  /** A number as the source's arithmetic yields it: a value, or NaN once undefined has entered it. */
  datatype Numeric = Finite(value: int) | NaN

  /** The daily count and the three time shares of the recommendations. */
  datatype Counts = Counts(daily: Numeric, practice: Numeric, theory: Numeric, review: Numeric)

  /** studyTimeMap[t]: the minutes of a commitment, undefined for an undefined key. */
  function StudyTimeLookup(t: Option<TimeCommitment>): (r: Option<int>)
    ensures r.Some? <==> t.Some?
    ensures t.Some? ==> r.value == StudyTime(t.value)
  {
    if t.Some? then Some(StudyTime(t.value)) else None
  }

  /**
   * calculateDailyAlgorithms and the Math.round shares of generateStudyPlan
   * on a study time that may be undefined: Math.floor, Math.max and
   * Math.round of undefined arithmetic are NaN.
   */
  function CountsOf(score: int, studyTime: Option<int>): (r: Counts)
    ensures studyTime.None? ==> r == Counts(NaN, NaN, NaN, NaN)
    ensures studyTime.Some? ==> var p := MakeStudyPlan([], studyTime.value, []);
      r == Counts(Finite(DailyAlgorithms(score, studyTime.value)), Finite(p.practice), Finite(p.theory), Finite(p.review))
  {
    match studyTime
    case None => Counts(NaN, NaN, NaN, NaN)
    case Some(t) =>
      var p := MakeStudyPlan([], t, []);
      Counts(Finite(DailyAlgorithms(score, t)), Finite(p.practice), Finite(p.theory), Finite(p.review))
  }

  /**
   * The counts submitQuiz computes as written: generateRecommendations reads
   * goals.timeCommitment from the stored row cast to the goals model, and the
   * row has no such column, so the key is undefined. None when no goals are
   * stored, which submitQuiz refuses.
   */
  function QuizCountsAsWritten(st: Store, userId: string, a: Answers): (r: Option<Counts>)
    ensures r.Some? <==> GetState(st, userId).0.goals.Some?
    ensures r.Some? ==> r.value == CountsOf(QuizScore(a), StudyTimeLookup(None))
  {
    if GetState(st, userId).0.goals.None? then None
    else Some(CountsOf(QuizScore(a), StudyTimeLookup(None)))
  }

  /** As written, a quiz after saving goals computes a NaN daily count and NaN time shares, whatever the commitment. */
  lemma QuizAfterGoalsIsNaN(st: Store, userId: string, goals: Goals, a: Answers)
    ensures QuizCountsAsWritten(SaveGoals(st, userId, goals).1, userId, a) == Some(Counts(NaN, NaN, NaN, NaN))
  {
  }

  /** Reading the study time the row stores gives the finite counts of the commitment chosen with the goals. */
  lemma StoredStudyTimeCounts(goals: Goals, score: int)
    ensures CountsOf(score, Some(RowOf(goals).studyTime)) == CountsOf(score, StudyTimeLookup(Some(goals.timeCommitment)))
    ensures CountsOf(score, Some(RowOf(goals).studyTime)).daily.Finite?
    ensures CountsOf(score, Some(RowOf(goals).studyTime)).daily.value >= 1
  {
  }
}
