/**
 * The quiz session engine (app/components/Quiz/QuizManager.ts): a controller
 * over a fixed, non-empty list of questions that records one answer slot per
 * question, keeps a cursor on the current question, and stamps the start and
 * end of the attempt. The clock is a parameter `now` of the operations that
 * read it.
 */
module QuizSession {
  import opened QuizTypes
  import opened JsNumber

  // ---------------------------------------------------------------------------
  // Scoring, stated over the question list and the answer slots
  // ---------------------------------------------------------------------------

  /**
   * `options.findIndex(opt => opt.isCorrect)`: the first option flagged
   * correct, or -1 when no option is.
   */
  function FirstCorrectIndex(options: seq<QuestionOption>): (r: int)
    ensures -1 <= r < |options|
    ensures r >= 0 ==> options[r].isCorrect
    ensures forall j :: 0 <= j < |options| && (r == -1 || j < r) ==> !options[j].isCorrect
  {
    if |options| == 0 then -1
    else if options[0].isCorrect then 0
    else
      var k := FirstCorrectIndex(options[1..]);
      if k == -1 then -1 else k + 1
  }

  /** A stored answer that JavaScript can look up: unanswered, or an index into the options. */
  predicate SlotInRange(q: Question, a: Option<int>) {
    a.None? || 0 <= a.value < |q.options|
  }

  /** Every stored answer indexes into its own question's options. */
  predicate AnswersInRange(questions: seq<Question>, answers: seq<Option<int>>)
    requires |questions| == |answers|
  {
    forall i :: 0 <= i < |answers| ==> SlotInRange(questions[i], answers[i])
  }

  /** The slot holds an answer and the option it names is flagged correct. */
  predicate Scores(q: Question, a: Option<int>) {
    a.Some? && 0 <= a.value < |q.options| && q.options[a.value].isCorrect
  }

  /** The questions answered correctly. */
  ghost function CorrectSlots(questions: seq<Question>, answers: seq<Option<int>>): set<int>
    requires |questions| == |answers|
  {
    set i | 0 <= i < |answers| && Scores(questions[i], answers[i])
  }

  /** The questions answered correctly among the first `k`. */
  ghost function CorrectSlotsBelow(questions: seq<Question>, answers: seq<Option<int>>, k: int): set<int>
    requires |questions| == |answers|
  {
    set i | 0 <= i < k && i < |answers| && Scores(questions[i], answers[i])
  }

  /** Taking in one more slot adds one to the count when that slot scores. */
  lemma CorrectSlotsBelowNext(questions: seq<Question>, answers: seq<Option<int>>, k: nat)
    requires |questions| == |answers| && k < |answers|
    ensures |CorrectSlotsBelow(questions, answers, k + 1)| ==
      |CorrectSlotsBelow(questions, answers, k)| + if Scores(questions[k], answers[k]) then 1 else 0
  {
    if Scores(questions[k], answers[k]) {
      assert CorrectSlotsBelow(questions, answers, k + 1) == CorrectSlotsBelow(questions, answers, k) + {k};
    } else {
      assert CorrectSlotsBelow(questions, answers, k + 1) == CorrectSlotsBelow(questions, answers, k);
    }
  }

  /** The questions that have an answer. */
  ghost function AnsweredSlots(answers: seq<Option<int>>): set<int> {
    set i | 0 <= i < |answers| && answers[i].Some?
  }

  /** `answers.filter(answer => answer !== null).length`. */
  function AnsweredCount(answers: seq<Option<int>>): (c: nat)
    ensures c <= |answers|
  {
    if answers == [] then 0
    else AnsweredCount(answers[..|answers| - 1]) + (if answers[|answers| - 1].Some? then 1 else 0)
  }

  /** The filter counts exactly the answered slots. */
  lemma {:induction false} AnsweredCountIsCard(answers: seq<Option<int>>)
    ensures AnsweredCount(answers) == |AnsweredSlots(answers)|
  {
    if answers != [] {
      var n := |answers| - 1;
      var front := answers[..n];
      AnsweredCountIsCard(front);
      if answers[n].Some? {
        assert AnsweredSlots(answers) == AnsweredSlots(front) + {n};
      } else {
        assert AnsweredSlots(answers) == AnsweredSlots(front);
      }
    }
  }

  /** The score never exceeds the number of answered questions, which never exceeds the total. */
  lemma ScoreBounds(questions: seq<Question>, answers: seq<Option<int>>)
    requires |questions| == |answers|
    ensures |CorrectSlots(questions, answers)| <= AnsweredCount(answers) <= |answers|
  {
    AnsweredCountIsCard(answers);
    assert CorrectSlots(questions, answers) <= AnsweredSlots(answers);
    SubsetCard(CorrectSlots(questions, answers), AnsweredSlots(answers));
  }

  lemma SubsetCard(a: set<int>, b: set<int>)
    requires a <= b
    ensures |a| <= |b|
  {
    assert b == a + (b - a);
    assert a * (b - a) == {};
  }

  /**
   * Answering one question changes the score at that question only; an answer
   * naming a correct option adds that question to the score, and re-answering
   * with the same option leaves the score as it was.
   */
  lemma AnswerChangesOneSlot(questions: seq<Question>, answers: seq<Option<int>>, i: int, k: int)
    requires |questions| == |answers| && 0 <= i < |answers|
    ensures CorrectSlots(questions, answers[i := Some(k)]) - {i} == CorrectSlots(questions, answers) - {i}
    ensures Scores(questions[i], Some(k)) ==>
      CorrectSlots(questions, answers[i := Some(k)]) == CorrectSlots(questions, answers) + {i}
    ensures answers[i] == Some(k) ==> CorrectSlots(questions, answers[i := Some(k)]) == CorrectSlots(questions, answers)
  {
  }

  /** So filling in a correct answer never lowers the score. */
  lemma CorrectAnswerNeverLowersScore(questions: seq<Question>, answers: seq<Option<int>>, i: int, k: int)
    requires |questions| == |answers| && 0 <= i < |answers|
    requires Scores(questions[i], Some(k))
    ensures |CorrectSlots(questions, answers)| <= |CorrectSlots(questions, answers[i := Some(k)])|
  {
    AnswerChangesOneSlot(questions, answers, i, k);
    SubsetCard(CorrectSlots(questions, answers), CorrectSlots(questions, answers[i := Some(k)]));
  }

  // ---------------------------------------------------------------------------
  // Elapsed-time formatting (also QuizComplete's formatTime)
  // ---------------------------------------------------------------------------

  /**
   * `${minutes}:${seconds.toString().padStart(2, '0')}` for an elapsed time in
   * milliseconds, where the whole seconds are `Math.floor(ms / 1000)`, the
   * minutes their floor by 60 and the seconds JavaScript's `% 60` of them.
   */
  function FormatTime(ms: int): string {
    var totalSeconds := ms / 1000;
    var minutes := totalSeconds / 60;
    var seconds := TruncRem(totalSeconds, 60);
    IntToString(minutes) + ":" + PadStart(IntToString(seconds), 2, '0')
  }

  /**
   * For a non-negative time the text is the unpadded minutes, a colon, and
   * exactly two digits for the seconds, which are below 60.
   */
  lemma FormatTimeShape(ms: int)
    requires ms >= 0
    ensures var seconds := ms / 1000 % 60;
      seconds < 60 &&
      FormatTime(ms) == NatToString(ms / 1000 / 60) + ":" + [DigitChar(seconds / 10), DigitChar(seconds % 10)]
  {
    TwoDigits(ms / 1000 % 60);
  }

  /** The first position of `c` in `s`, or -1. */
  function IndexOfChar(s: string, c: char): (r: int)
    ensures -1 <= r < |s|
    ensures r >= 0 ==> s[r] == c && forall j :: 0 <= j < r ==> s[j] != c
    ensures r == -1 ==> forall j :: 0 <= j < |s| ==> s[j] != c
  {
    if s == [] then -1
    else if s[0] == c then 0
    else var k := IndexOfChar(s[1..], c); if k == -1 then -1 else k + 1
  }

  /** Reads a `m:ss` text back into its minutes and seconds fields. */
  function ParseTime(s: string): Option<(nat, nat)> {
    var k := IndexOfChar(s, ':');
    if k == -1 || !AllDigits(s[..k]) || !AllDigits(s[k + 1..]) then None
    else Some((DigitsValue(s[..k]), DigitsValue(s[k + 1..])))
  }

  /** A colon preceded by no other colon is where the minutes field ends. */
  lemma FirstColon(s: string, k: int)
    requires 0 <= k < |s| && s[k] == ':'
    requires forall j :: 0 <= j < k ==> s[j] != ':'
    ensures IndexOfChar(s, ':') == k
  {
  }

  /** A minutes field, a colon and a seconds field read back as the two numbers. */
  lemma ParseTimeFields(mText: string, sText: string)
    requires AllDigits(mText) && AllDigits(sText)
    ensures ParseTime(mText + ":" + sText) == Some((DigitsValue(mText), DigitsValue(sText)))
  {
    var s := mText + ":" + sText;
    var k := |mText|;
    assert s[k] == ':';
    forall j | 0 <= j < k ensures s[j] != ':' {
      assert s[j] == mText[j];
    }
    FirstColon(s, k);
    assert s[..k] == mText;
    assert s[k + 1..] == sText;
  }

  /**
   * The formatted time of a non-negative duration reads back as its whole
   * minutes and its remaining seconds.
   */
  lemma FormatTimeRoundTrip(ms: int)
    requires ms >= 0
    ensures ParseTime(FormatTime(ms)) == Some((ms / 1000 / 60, ms / 1000 % 60))
  {
    var total := ms / 1000;
    var seconds := total % 60;
    var sText := [DigitChar(seconds / 10), DigitChar(seconds % 10)];
    FormatTimeShape(ms);
    ParseTimeFields(NatToString(total / 60), sText);
    NatToStringRoundTrip(total / 60);
    DigitsValueTwo(seconds / 10, seconds % 10);
  }

  /** A clock that ran backwards shows JavaScript's signed remainder: one second short of the start reads "-1:-1". */
  lemma FormatTimeNegative()
    ensures FormatTime(-1000) == "-1:-1"
  {
    assert -1000 / 1000 == -1;
    assert -1 / 60 == -1;
    assert TruncRem(-1, 60) == -1;
    assert NatToString(1) == "1";
    assert IntToString(-1) == "-1";
    assert PadStart("-1", 2, '0') == "-1";
  }

  // ---------------------------------------------------------------------------
  // The engine
  // ---------------------------------------------------------------------------

  class QuizManager {
    const questions: seq<Question>
    var answers: seq<Option<int>>
    var currentQuestionIndex: int
    var startTime: int
    var endTime: Option<int>

    /** One slot per question, and the cursor on a question. */
    ghost predicate Valid()
      reads this
    {
      0 < |questions| && |answers| == |questions| && 0 <= currentQuestionIndex < |questions|
    }

    /** The state right after construction or `reset` at time `now`. */
    ghost predicate AtStart(now: int)
      reads this
    {
      |answers| == |questions| && (forall i :: 0 <= i < |answers| ==> answers[i].None?) &&
      currentQuestionIndex == 0 && startTime == now && endTime.None?
    }

    constructor (questions: seq<Question>, now: int)
      requires |questions| > 0
      ensures Valid() && AtStart(now) && !IsCompleted()
      ensures this.questions == questions
    {
      this.questions := questions;
      answers := seq(|questions|, _ => None);
      currentQuestionIndex := 0;
      startTime := now;
      endTime := None;
    }

    function GetCurrentQuestion(): (q: Question)
      reads this
      requires Valid()
      ensures q == questions[currentQuestionIndex] && q in questions
    {
      questions[currentQuestionIndex]
    }

    function GetCurrentQuestionIndex(): (i: int)
      reads this
      requires Valid()
      ensures 0 <= i < GetTotalQuestions() && i == currentQuestionIndex
    {
      currentQuestionIndex
    }

    function GetTotalQuestions(): (n: int)
      reads this
      requires Valid()
      ensures n == |questions| == |answers| && n >= 1
    {
      |questions|
    }

    function GetCurrentAnswer(): (a: Option<int>)
      reads this
      requires Valid()
      ensures a == answers[currentQuestionIndex]
    {
      answers[currentQuestionIndex]
    }

    /** A copy of the slots: one per question. */
    function GetAnswers(): (r: seq<Option<int>>)
      reads this
      requires Valid()
      ensures r == answers && |r| == |questions|
    {
      answers
    }

    /** Records `optionIndex` for the current question; no bounds check, as in the source. */
    method AnswerCurrentQuestion(optionIndex: int)
      requires Valid()
      modifies this`answers
      ensures Valid()
      ensures answers == old(answers)[currentQuestionIndex := Some(optionIndex)]
    {
      answers := answers[currentQuestionIndex := Some(optionIndex)];
    }

    /** A backward step lands on a question. */
    function CanGoPrevious(): (b: bool)
      reads this
      requires Valid()
      ensures b <==> 0 <= currentQuestionIndex - 1 < |questions|
    {
      currentQuestionIndex > 0
    }

    /** A forward step lands on a question, which is so exactly when the cursor is not on the last one. */
    function CanGoNext(): (b: bool)
      reads this
      requires Valid()
      ensures b <==> 0 <= currentQuestionIndex + 1 < |questions|
      ensures b <==> !IsLastQuestion()
    {
      currentQuestionIndex < |questions| - 1
    }

    function IsLastQuestion(): (b: bool)
      reads this
      requires Valid()
      ensures b <==> currentQuestionIndex + 1 == |questions|
    {
      currentQuestionIndex == |questions| - 1
    }

    method GoToPrevious() returns (moved: bool)
      requires Valid()
      modifies this`currentQuestionIndex
      ensures Valid()
      ensures moved == old(CanGoPrevious())
      ensures currentQuestionIndex == if moved then old(currentQuestionIndex) - 1 else old(currentQuestionIndex)
    {
      if CanGoPrevious() {
        currentQuestionIndex := currentQuestionIndex - 1;
        return true;
      }
      return false;
    }

    method GoToNext() returns (moved: bool)
      requires Valid()
      modifies this`currentQuestionIndex
      ensures Valid()
      ensures moved == old(CanGoNext())
      ensures currentQuestionIndex == if moved then old(currentQuestionIndex) + 1 else old(currentQuestionIndex)
    {
      if CanGoNext() {
        currentQuestionIndex := currentQuestionIndex + 1;
        return true;
      }
      return false;
    }

    method GoToQuestion(index: int) returns (moved: bool)
      requires Valid()
      modifies this`currentQuestionIndex
      ensures Valid()
      ensures moved <==> 0 <= index < |questions|
      ensures currentQuestionIndex == if moved then index else old(currentQuestionIndex)
    {
      if index >= 0 && index < |questions| {
        currentQuestionIndex := index;
        return true;
      }
      return false;
    }

    /** Stamps the end time; a second call overwrites the stamp. */
    method Complete(now: int)
      requires Valid()
      modifies this`endTime
      ensures Valid() && IsCompleted()
      ensures endTime == Some(now)
    {
      endTime := Some(now);
    }

    function IsCompleted(): (b: bool)
      reads this
      ensures b <==> endTime != None
    {
      endTime.Some?
    }

    /**
     * The forEach over the slots: the number of questions whose answer names
     * a correct option, or a throw when some stored answer is not an index
     * into its question's options (`options[answer]` is then undefined).
     */
    method CalculateScore() returns (r: Outcome<nat>)
      requires Valid()
      ensures r.Returns? <==> AnswersInRange(questions, answers)
      ensures r.Returns? ==> r.value == |CorrectSlots(questions, answers)|
    {
      var correct: nat := 0;
      var index := 0;
      while index < |answers|
        invariant 0 <= index <= |answers|
        invariant forall i :: 0 <= i < index ==> SlotInRange(questions[i], answers[i])
        invariant correct == |CorrectSlotsBelow(questions, answers, index)|
      {
        var answer := answers[index];
        if answer.Some? && !(0 <= answer.value < |questions[index].options|) {
          return Throws;
        }
        CorrectSlotsBelowNext(questions, answers, index);
        if answer.Some? && questions[index].options[answer.value].isCorrect {
          correct := correct + 1;
        }
        index := index + 1;
      }
      assert CorrectSlotsBelow(questions, answers, index) == CorrectSlots(questions, answers);
      return Returns(correct);
    }

    /** `Math.round(score / total * 100)`: the score as a percentage, between 0 and 100. */
    method CalculateAccuracy() returns (r: Outcome<nat>)
      requires Valid()
      ensures r.Returns? <==> AnswersInRange(questions, answers)
      ensures r.Returns? ==> r.value == RoundPercent(|CorrectSlots(questions, answers)|, |questions|)
      ensures r.Returns? ==> r.value <= 100
    {
      var score := CalculateScore();
      if score.Throws? {
        return Throws;
      }
      ScoreBounds(questions, answers);
      RoundPercentAtMost100(score.value, |questions|);
      return Returns(RoundPercent(score.value, |questions|));
    }

    /**
     * Milliseconds since the start: up to the end stamp once there is a
     * truthy one, up to `now` otherwise (an end stamp of 0 is falsy).
     */
    function GetElapsedTime(now: int): (ms: int)
      reads this
      ensures endTime.Some? && endTime.value != 0 ==> ms == endTime.value - startTime
      ensures endTime.None? || endTime.value == 0 ==> ms == now - startTime
    {
      if endTime.Some? && endTime.value != 0 then endTime.value - startTime else now - startTime
    }

    /**
     * The elapsed time as `m:ss`; for a non-negative time it reads back as the
     * whole minutes and the remaining seconds of the elapsed time.
     */
    function GetFormattedTime(now: int): (s: string)
      reads this
      ensures s == FormatTime(GetElapsedTime(now))
      ensures GetElapsedTime(now) >= 0 ==>
        ParseTime(s) == Some((GetElapsedTime(now) / 1000 / 60, GetElapsedTime(now) / 1000 % 60))
    {
      var ms := GetElapsedTime(now);
      if ms >= 0 then FormatTimeRoundTrip(ms); FormatTime(ms) else FormatTime(ms)
    }

    /** Back to the post-construction state at time `now`, with the same questions. */
    method Reset(now: int)
      requires Valid()
      modifies this`answers, this`currentQuestionIndex, this`startTime, this`endTime
      ensures Valid() && AtStart(now) && !IsCompleted()
    {
      answers := seq(|questions|, _ => None);
      currentQuestionIndex := 0;
      startTime := now;
      endTime := None;
    }

    /** The current question's first correct option, or -1. */
    function GetCorrectAnswerIndex(): (r: int)
      reads this
      requires Valid()
      ensures -1 <= r < |GetCurrentQuestion().options|
      ensures r >= 0 ==> GetCurrentQuestion().options[r].isCorrect
      ensures r >= 0 ==> forall j :: 0 <= j < r ==> !GetCurrentQuestion().options[j].isCorrect
      ensures r == -1 <==> forall j :: 0 <= j < |GetCurrentQuestion().options| ==> !GetCurrentQuestion().options[j].isCorrect
    {
      FirstCorrectIndex(GetCurrentQuestion().options)
    }

    function IsCurrentQuestionAnswered(): (b: bool)
      reads this
      requires Valid()
      ensures b <==> GetCurrentAnswer() != None
    {
      answers[currentQuestionIndex].Some?
    }

    /** The number of answered questions, at most the total. */
    function GetAnsweredQuestionsCount(): (c: nat)
      reads this
      requires Valid()
      ensures c == |AnsweredSlots(answers)| && c <= |questions|
    {
      AnsweredCountIsCard(answers);
      AnsweredCount(answers)
    }

    /** `Math.round(answered / total * 100)`: the answered share as a percentage, between 0 and 100. */
    function GetProgress(): (p: nat)
      reads this
      requires Valid()
      ensures p == RoundPercent(|AnsweredSlots(answers)|, |questions|) && p <= 100
    {
      RoundPercentAtMost100(GetAnsweredQuestionsCount(), |questions|);
      RoundPercent(GetAnsweredQuestionsCount(), |questions|)
    }
  }
}
