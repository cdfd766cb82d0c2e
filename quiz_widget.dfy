/**
 * The quiz widget component (app/components/Quiz/index.tsx): the hint and
 * completion flags it keeps as React state, the manager it builds once the
 * question list is there, and its five event handlers. A forward move that is
 * refused on the last question completes the quiz; rendering is left out.
 */
module QuizWidget {
  import opened QuizTypes
  import opened QuizSession

  class QuizWidget {
    /** Null while the question list is missing or empty (the loading screen). */
    const manager: QuizManager?
    var showHint: bool
    var isCompleted: bool

    /**
     * The manager is sound, and the widget's completion flag agrees with the
     * manager's end stamp.
     */
    ghost predicate Valid()
      reads this, manager
    {
      (manager != null ==> manager.Valid()) &&
      (isCompleted <==> manager != null && manager.IsCompleted())
    }

    /** First render with the widget's input `rawQuestions` (`rawData?.questions`) at time `now`. */
    constructor (rawQuestions: Option<seq<Question>>, now: int)
      ensures Valid() && !showHint && !isCompleted
      ensures manager == null <==> rawQuestions.None? || |rawQuestions.value| == 0
      ensures manager != null ==> fresh(manager) && manager.questions == rawQuestions.value && manager.AtStart(now)
    {
      if rawQuestions.Some? && |rawQuestions.value| > 0 {
        manager := new QuizManager(rawQuestions.value, now);
      } else {
        manager := null;
      }
      showHint := false;
      isCompleted := false;
    }

    /** Records the clicked option for the current question; the flags stay as they are. */
    method HandleOptionClick(index: int)
      requires Valid()
      modifies manager
      ensures Valid()
      ensures showHint == old(showHint) && isCompleted == old(isCompleted)
      ensures manager != null ==>
        manager.answers == old(manager.answers)[old(manager.currentQuestionIndex) := Some(index)] &&
        manager.currentQuestionIndex == old(manager.currentQuestionIndex) &&
        manager.startTime == old(manager.startTime) && manager.endTime == old(manager.endTime)
    {
      if manager == null {
        return;
      }
      manager.AnswerCurrentQuestion(index);
    }

    /** Steps back; the hint is hidden only when the step happened. */
    method HandlePrevious()
      requires Valid()
      modifies this`showHint, manager
      ensures Valid()
      ensures isCompleted == old(isCompleted)
      ensures manager == null ==> showHint == old(showHint)
      ensures manager != null ==>
        var moved := old(manager.currentQuestionIndex) > 0;
        manager.currentQuestionIndex == (if moved then old(manager.currentQuestionIndex) - 1 else old(manager.currentQuestionIndex)) &&
        showHint == (if moved then false else old(showHint)) &&
        manager.answers == old(manager.answers) &&
        manager.startTime == old(manager.startTime) && manager.endTime == old(manager.endTime)
    {
      if manager == null {
        return;
      }
      var moved := manager.GoToPrevious();
      if moved {
        showHint := false;
      }
    }

    /**
     * Steps forward and hides the hint; on the last question, where the step
     * is refused, stamps the end time at `now` and shows the result instead,
     * keeping the cursor and the hint.
     */
    method HandleNext(now: int)
      requires Valid()
      modifies this`showHint, this`isCompleted, manager
      ensures Valid()
      ensures manager == null ==> showHint == old(showHint) && isCompleted == old(isCompleted)
      ensures manager != null && old(manager.CanGoNext()) ==>
        manager.currentQuestionIndex == old(manager.currentQuestionIndex) + 1 &&
        !showHint && isCompleted == old(isCompleted) && manager.endTime == old(manager.endTime)
      ensures manager != null && old(manager.IsLastQuestion()) ==>
        manager.currentQuestionIndex == old(manager.currentQuestionIndex) &&
        showHint == old(showHint) && isCompleted && manager.endTime == Some(now)
      ensures manager != null ==>
        manager.answers == old(manager.answers) && manager.startTime == old(manager.startTime)
      ensures isCompleted && !old(isCompleted) ==> manager != null && old(manager.IsLastQuestion())
    {
      if manager == null {
        return;
      }
      var moved := manager.GoToNext();
      if moved {
        showHint := false;
      } else if manager.IsLastQuestion() {
        manager.Complete(now);
        isCompleted := true;
      }
    }

    /** Flips the hint; this handler has no loading-screen guard. */
    method HandleToggleHint()
      requires Valid()
      modifies this`showHint
      ensures Valid()
      ensures showHint == !old(showHint)
    {
      showHint := !showHint;
    }

    /** Starts the quiz over at time `now`: a reset manager, the hint hidden, the result screen left. */
    method HandleRetake(now: int)
      requires Valid()
      modifies this`showHint, this`isCompleted, manager
      ensures Valid()
      ensures manager == null ==> showHint == old(showHint) && isCompleted == old(isCompleted)
      ensures manager != null ==> manager.AtStart(now) && !showHint && !isCompleted
    {
      if manager == null {
        return;
      }
      manager.Reset(now);
      showHint := false;
      isCompleted := false;
    }
  }
}
