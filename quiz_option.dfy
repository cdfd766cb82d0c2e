/**
 * The reveal rules of one answer choice (app/components/Quiz/QuizOption/index.tsx):
 * whether the option shows its right/wrong icon, shows its explanation, is
 * disabled, and accepts a click. They depend only on the option's position, the
 * answer stored for the question, the first correct position and the option's
 * own flag; colours, class strings and animation are left out.
 */
module QuizOption {
  import opened QuizTypes
  import opened QuizSession

  /** The props the question card passes to one option. */
  datatype OptionProps = OptionProps(
    isCorrect: bool,
    index: int,
    isSelected: bool,
    selectedOption: Option<int>,
    correctAnswerIndex: int)

  /**
   * The props of option `index` of question `q` when `selected` is the answer
   * stored for it: selected means strictly equal to the stored answer, and the
   * correct position is the first option flagged correct.
   */
  function PropsFor(q: Question, selected: Option<int>, index: nat): (p: OptionProps)
    requires index < |q.options|
    ensures p.index == index && p.isCorrect == q.options[index].isCorrect
    ensures p.isSelected <==> selected == Some(index)
    ensures p.selectedOption == selected && p.correctAnswerIndex == FirstCorrectIndex(q.options)
  {
    OptionProps(q.options[index].isCorrect, index, selected == Some(index), selected, FirstCorrectIndex(q.options))
  }

  /** `showIcon`: the selected option, and a correct option when a wrong position was chosen. */
  predicate ShowIcon(p: OptionProps) {
    p.isSelected || (p.selectedOption.Some? && p.selectedOption.value != p.correctAnswerIndex && p.isCorrect)
  }

  /** `shouldShowExplanation`, as its chain of early returns. */
  predicate ShouldShowExplanation(p: OptionProps) {
    if p.selectedOption.None? then false
    else if p.isSelected then true
    else if p.selectedOption.value != p.correctAnswerIndex && p.index == p.correctAnswerIndex then true
    else false
  }

  /** `isDisabled`, as its chain of early returns. */
  predicate IsDisabled(p: OptionProps) {
    if p.selectedOption.None? then false
    else if p.isSelected || p.index == p.correctAnswerIndex then false
    else true
  }

  /** The click guard: the handler is called only for an enabled option while nothing is selected. */
  predicate AcceptsClick(p: OptionProps) {
    !IsDisabled(p) && p.selectedOption.None?
  }

  /** Before an answer, no option shows an icon or an explanation, none is disabled, and every one takes a click. */
  lemma NothingRevealedBeforeAnswer(q: Question, index: nat)
    requires index < |q.options|
    ensures var p := PropsFor(q, None, index);
      !ShowIcon(p) && !ShouldShowExplanation(p) && !IsDisabled(p) && AcceptsClick(p)
  {
  }

  /** After an answer, an option is explained exactly when it is the chosen one or the first correct one. */
  lemma ExplainedOptions(q: Question, k: int, index: nat)
    requires index < |q.options|
    ensures ShouldShowExplanation(PropsFor(q, Some(k), index)) <==> index == k || index == FirstCorrectIndex(q.options)
  {
  }

  /** The chosen option shows its icon and its explanation, and stays enabled. */
  lemma SelectedOptionRevealed(q: Question, k: nat)
    requires k < |q.options|
    ensures var p := PropsFor(q, Some(k), k);
      ShowIcon(p) && ShouldShowExplanation(p) && !IsDisabled(p)
  {
  }

  /**
   * The first correct option, when it is not the chosen one, is explained
   * exactly when an answer has been chosen.
   */
  lemma CorrectOptionExplainedAfterWrongAnswer(q: Question, selected: Option<int>)
    requires 0 <= FirstCorrectIndex(q.options)
    requires selected != Some(FirstCorrectIndex(q.options))
    ensures ShouldShowExplanation(PropsFor(q, selected, FirstCorrectIndex(q.options))) <==> selected.Some?
  {
  }

  /** An option is disabled exactly when an answer exists and it is neither the chosen one nor the first correct one. */
  lemma DisabledOptions(q: Question, selected: Option<int>, index: nat)
    requires index < |q.options|
    ensures IsDisabled(PropsFor(q, selected, index)) <==>
      selected.Some? && selected.value != index && index != FirstCorrectIndex(q.options)
  {
  }

  /** Once answered, the options left enabled are exactly the explained ones. */
  lemma EnabledMeansExplained(q: Question, k: int, index: nat)
    requires index < |q.options|
    ensures !IsDisabled(PropsFor(q, Some(k), index)) <==> ShouldShowExplanation(PropsFor(q, Some(k), index))
  {
  }

  /** A click gets through exactly while the question has no answer, so this control chooses at most once. */
  lemma ClickOnlyBeforeAnswer(q: Question, selected: Option<int>, index: nat)
    requires index < |q.options|
    ensures AcceptsClick(PropsFor(q, selected, index)) <==> selected.None?
  {
  }

  /** Exactly one option of `q` is flagged correct. */
  predicate OneCorrect(q: Question) {
    exists c :: 0 <= c < |q.options| && q.options[c].isCorrect &&
      forall j :: 0 <= j < |q.options| && q.options[j].isCorrect ==> j == c
  }

  /** With exactly one correct option, the flag of an option says whether it is at the first correct position. */
  lemma OneCorrectAt(q: Question, index: nat)
    requires OneCorrect(q) && index < |q.options|
    ensures q.options[index].isCorrect <==> index == FirstCorrectIndex(q.options)
  {
    var c :| 0 <= c < |q.options| && q.options[c].isCorrect &&
      forall j :: 0 <= j < |q.options| && q.options[j].isCorrect ==> j == c;
  }

  /** With exactly one correct option, an option shows its icon exactly when it shows its explanation. */
  lemma IconMatchesExplanation(q: Question, selected: Option<int>, index: nat)
    requires OneCorrect(q) && index < |q.options|
    ensures ShowIcon(PropsFor(q, selected, index)) <==> ShouldShowExplanation(PropsFor(q, selected, index))
  {
    OneCorrectAt(q, index);
  }

  /**
   * With two correct options a wrong answer puts the icon on both but the
   * explanation only on the first, so the single-correct-option rule above
   * cannot be dropped.
   */
  lemma IconWithoutExplanation()
    ensures var q := Question("q", "", "", [QuestionOption("a", false, ""), QuestionOption("b", true, ""),
                                            QuestionOption("c", true, "")]);
      ShowIcon(PropsFor(q, Some(0), 2)) && !ShouldShowExplanation(PropsFor(q, Some(0), 2))
  {
    var q := Question("q", "", "", [QuestionOption("a", false, ""), QuestionOption("b", true, ""),
                                    QuestionOption("c", true, "")]);
    assert FirstCorrectIndex(q.options) == 1 by {
      assert q.options[1].isCorrect && !q.options[0].isCorrect;
    }
  }
}
