/**
 * Whole attempts driven through the engine's own methods: the scores and
 * percentages a finished quiz reports, answers surviving navigation, and a walk
 * forward that ends on the last question.
 */
module QuizScenarios {
  import opened QuizTypes
  import opened QuizSession
  import opened JsNumber

  function Choice(isCorrect: bool): QuestionOption {
    QuestionOption("", isCorrect, "")
  }

  function Ask(options: seq<QuestionOption>): Question {
    Question("", "", "", options)
  }

  /**
   * One question whose second option is the correct one: choosing it and
   * finishing gives a score of 1, an accuracy of 100 and a correct index of 1.
   */
  method SingleQuestionAttempt(start: int, finish: int) returns (score: Outcome<nat>, accuracy: Outcome<nat>, correct: int)
    ensures score == Returns(1) && accuracy == Returns(100) && correct == 1
  {
    var q := Ask([Choice(false), Choice(true), Choice(false), Choice(false)]);
    var m := new QuizManager([q], start);
    m.AnswerCurrentQuestion(1);
    m.Complete(finish);
    assert m.answers == [Some(1)];
    assert CorrectSlots(m.questions, m.answers) == {0};
    score := m.CalculateScore();
    accuracy := m.CalculateAccuracy();
    correct := m.GetCorrectAnswerIndex();
  }

  /** Two questions, the first answered right and the second wrong: a score of 1 and an accuracy of 50. */
  method TwoQuestionAttempt(start: int, finish: int) returns (score: Outcome<nat>, accuracy: Outcome<nat>)
    ensures score == Returns(1) && accuracy == Returns(50)
  {
    var q0 := Ask([Choice(true), Choice(false)]);
    var q1 := Ask([Choice(false), Choice(true)]);
    var m := new QuizManager([q0, q1], start);
    m.AnswerCurrentQuestion(0);
    var moved := m.GoToNext();
    m.AnswerCurrentQuestion(0);
    m.Complete(finish);
    assert m.answers == [Some(0), Some(0)];
    assert CorrectSlots(m.questions, m.answers) == {0};
    score := m.CalculateScore();
    accuracy := m.CalculateAccuracy();
  }

  /** An answer stays with its question through a step back and a step forward. */
  method AnswerSurvivesNavigation(m: QuizManager, k: int)
    requires m.Valid() && m.CanGoPrevious()
    modifies m
    ensures m.Valid()
    ensures m.currentQuestionIndex == old(m.currentQuestionIndex)
    ensures m.GetCurrentAnswer() == Some(k)
    ensures m.answers == old(m.answers)[old(m.currentQuestionIndex) := Some(k)]
  {
    m.AnswerCurrentQuestion(k);
    var back := m.GoToPrevious();
    var forth := m.GoToNext();
  }

  /**
   * Stepping forward until a step is refused takes one step per remaining
   * question and stops on the last question.
   */
  method AdvanceToLast(m: QuizManager) returns (steps: nat)
    requires m.Valid()
    modifies m
    ensures m.Valid() && m.IsLastQuestion()
    ensures steps == |m.questions| - 1 - old(m.currentQuestionIndex)
    ensures m.answers == old(m.answers) && m.endTime == old(m.endTime)
  {
    steps := 0;
    var moved := true;
    while moved
      invariant m.Valid()
      invariant m.currentQuestionIndex == old(m.currentQuestionIndex) + steps
      invariant !moved ==> m.IsLastQuestion()
      invariant m.answers == old(m.answers) && m.endTime == old(m.endTime)
      decreases |m.questions| - m.currentQuestionIndex, moved
    {
      moved := m.GoToNext();
      if moved {
        steps := steps + 1;
      }
    }
  }

  /** A question with no option flagged correct never scores, whatever is stored for it. */
  lemma UnscorableQuestion(questions: seq<Question>, answers: seq<Option<int>>, i: int)
    requires |questions| == |answers| && 0 <= i < |questions|
    requires forall j :: 0 <= j < |questions[i].options| ==> !questions[i].options[j].isCorrect
    ensures i !in CorrectSlots(questions, answers)
    ensures FirstCorrectIndex(questions[i].options) == -1
  {
  }
}
