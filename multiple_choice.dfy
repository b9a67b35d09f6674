/**
 * QuestionManager (Assets/Scripts/QuestionManager.cs): the multiple-choice
 * round.  The bank is copied and shuffled into a working queue, questions
 * are shown one at a time, each answer is scored once, and the round ends
 * when the queue runs out, when five answers were correct, or when the
 * question to show does not fit the answer buttons.
 *
 * The delay coroutine between an answer and the next question is replaced
 * by an explicit step: the caller invokes DisplayCurrentQuestion after
 * OnAnswerSelected.  Unity's Random.Range is an oracle argument `picks`
 * (see FisherYates).  Log output appears only where it tells cases apart.
 */
module MultipleChoice {
  import opened Wrappers
  import opened Trivia
  import opened FisherYates

  /** Correct answers that end the round with a win; fixed in the code. */
  const WINNING_CORRECT_ANSWERS := 5

  /** An error line the validation pass of Start logs. */
  datatype Report = NoQuestions | WrongAnswerCount(question: nat) | BadCorrectIndex(question: nat)

  /** The lines logged for question `q` at position `i` of the bank, in order. */
  function QuestionReports(q: Question, i: nat): seq<Report>
  {
    (if |q.answers| != ANSWERS_PER_QUESTION then [WrongAnswerCount(i)] else [])
    + (if q.correctAnswerIndex < 0 || q.correctAnswerIndex >= ANSWERS_PER_QUESTION then [BadCorrectIndex(i)] else [])
  }

  /** The lines logged for the first `n` questions of the bank. */
  function BankReports(bank: seq<Question>, n: nat): seq<Report>
    requires n <= |bank|
  {
    if n == 0 then [] else BankReports(bank, n - 1) + QuestionReports(bank[n - 1], n - 1)
  }

  /** The validation pass reports a question exactly for each check it fails. */
  lemma {:induction false} BankReportsExact(bank: seq<Question>, n: nat)
    requires n <= |bank|
    ensures forall r :: r in BankReports(bank, n) ==> !r.NoQuestions? && r.question < n
    ensures forall i :: 0 <= i < n ==>
      (WrongAnswerCount(i) in BankReports(bank, n) <==> |bank[i].answers| != ANSWERS_PER_QUESTION)
    ensures forall i :: 0 <= i < n ==>
      (BadCorrectIndex(i) in BankReports(bank, n) <==>
        !(0 <= bank[i].correctAnswerIndex < ANSWERS_PER_QUESTION))
  {
    if n > 0 {
      BankReportsExact(bank, n - 1);
    }
  }

  /** The validation pass logs nothing exactly when every question is well formed. */
  lemma BankReportsEmpty(bank: seq<Question>)
    ensures BankReports(bank, |bank|) == [] <==> forall q :: q in bank ==> WellFormed(q)
  {
    BankReportsExact(bank, |bank|);
    if BankReports(bank, |bank|) != [] {
      var r := BankReports(bank, |bank|)[0];
      assert r in BankReports(bank, |bank|);
      assert r.question < |bank| && !WellFormed(bank[r.question]);
    }
  }

  /** The loop of Start over the bank: it logs what is wrong with each
      question and goes on; nothing it finds stops Start.  A flagged
      question ends the round later, when DisplayCurrentQuestion reaches it
      (with four buttons, see RoundOverExactly and the Malformed branch). */
  method ValidateBank(bank: seq<Question>) returns (reports: seq<Report>)
    ensures reports == BankReports(bank, |bank|)
    ensures reports == [] <==> forall q :: q in bank ==> WellFormed(q)
    ensures forall i :: 0 <= i < |bank| ==>
      (WrongAnswerCount(i) in reports <==> |bank[i].answers| != ANSWERS_PER_QUESTION)
    ensures forall i :: 0 <= i < |bank| ==>
      (BadCorrectIndex(i) in reports <==> !(0 <= bank[i].correctAnswerIndex < ANSWERS_PER_QUESTION))
  {
    reports := [];
    for i := 0 to |bank|
      invariant reports == BankReports(bank, i)
    {
      var question := bank[i];
      if |question.answers| != ANSWERS_PER_QUESTION {
        reports := reports + [WrongAnswerCount(i)];
      }
      if question.correctAnswerIndex < 0 || question.correctAnswerIndex >= ANSWERS_PER_QUESTION {
        reports := reports + [BadCorrectIndex(i)];
      }
    }
    BankReportsExact(bank, |bank|);
    BankReportsEmpty(bank);
  }

  /** The branch DisplayCurrentQuestion takes; each but the last ends the round. */
  datatype Display = Exhausted | Won | Malformed | Shown(question: Question)

  /** The branch DisplayCurrentQuestion takes at position `index` of `queue`
      with `correct` correct answers so far and `buttons` answer buttons:
      exhaustion is checked first, then the win threshold, then the shape. */
  function DisplayOutcome(queue: seq<Question>, index: nat, correct: nat, buttons: nat): Display
  {
    if index >= |queue| then Exhausted
    else if correct >= WINNING_CORRECT_ANSWERS then Won
    else if !FitsButtons(queue[index], buttons) then Malformed
    else Shown(queue[index])
  }

  /** When the queue is a permutation of a bank that passed validation and
      there are four buttons, the round ends at an advance exactly when the
      queue is used up or five answers were correct. */
  lemma RoundOverExactly(bank: seq<Question>, queue: seq<Question>, index: nat, correct: nat)
    requires forall q :: q in bank ==> WellFormed(q)
    requires multiset(queue) == multiset(bank)
    ensures !DisplayOutcome(queue, index, correct, ANSWERS_PER_QUESTION).Shown? <==>
      index >= |queue| || correct >= WINNING_CORRECT_ANSWERS
  {
    if index < |queue| {
      assert queue[index] in multiset(queue);
      assert queue[index] in bank;
    }
  }

  /** A win reached on the last question of the queue is reported as the
      queue running out: exhaustion is checked before the win threshold. */
  lemma ExhaustionBeforeWin(queue: seq<Question>, correct: nat, buttons: nat)
    requires correct >= WINNING_CORRECT_ANSWERS
    ensures DisplayOutcome(queue, |queue|, correct, buttons) == Exhausted
    ensures forall index :: 0 <= index < |queue| ==> DisplayOutcome(queue, index, correct, buttons) == Won
  {
  }

  /** Mathf.Clamp on integers. */
  function Clamp(value: int, min: int, max: int): (r: int)
    ensures min <= max ==> min <= r <= max
    ensures min <= value <= max ==> r == value
    ensures value < min ==> r == min
    ensures min <= value && value > max ==> r == max
  {
    if value < min then min else if value > max then max else value
  }

  /** The sprite UpdateLockDisplay shows for `correctAnswersCount` correct
      answers when there are `phaseCount` lock sprites: none when there are
      no sprites or no lock image, otherwise phase 0 for the first correct
      answer, phase 1 for the second, and the last phase from then on. */
  function LockPhaseIndex(correctAnswersCount: int, phaseCount: nat, hasLockDisplay: bool): (phase: Option<nat>)
    ensures phase.Some? <==> phaseCount > 0 && hasLockDisplay
    ensures phase.Some? ==> phase.value < phaseCount
    ensures phase.Some? && 1 <= correctAnswersCount <= phaseCount ==> phase.value == correctAnswersCount - 1
    ensures phase.Some? && correctAnswersCount >= phaseCount ==> phase.value == phaseCount - 1
    ensures phase.Some? && correctAnswersCount <= 1 ==> phase.value == 0
  {
    if phaseCount == 0 || !hasLockDisplay then None
    else
      var phaseIndex := Clamp(correctAnswersCount - 1, 0, phaseCount - 1);
      Some(phaseIndex)
  }

  class QuestionManager {
    /** The bank assigned in the editor; the round never changes it. */
    var allQuestions: seq<Question>
    /** The number of answer buttons (answerButtons.Count). */
    var buttonCount: nat
    /** The working queue: a shuffled copy of the bank. */
    var questionsToAsk: array<Question>
    var currentQuestionIndex: nat
    var correctAnswersCount: nat
    var canAnswer: bool
    var isGameOver: bool

    /** The counters stay within the queue, and a round that still takes
        answers has fewer than five correct ones. */
    ghost predicate Valid()
      reads this
    {
      correctAnswersCount <= currentQuestionIndex <= questionsToAsk.Length
      && correctAnswersCount <= WINNING_CORRECT_ANSWERS
      && (Armed() ==> correctAnswersCount < WINNING_CORRECT_ANSWERS)
    }

    /** The guard of OnAnswerSelected lets an answer through. */
    predicate Armed()
      reads this
    {
      canAnswer && !isGameOver
    }

    /** The current question exists and fits the answer buttons. */
    predicate CurrentShowable()
      reads this, questionsToAsk
    {
      currentQuestionIndex < questionsToAsk.Length
      && FitsButtons(questionsToAsk[currentQuestionIndex], buttonCount)
    }

    /** An answer let through by the guard has a question to score against.
        This holds once a question has been displayed; it does not hold
        before Start, when no button listens yet. */
    ghost predicate Listening()
      reads this, questionsToAsk
    {
      Armed() ==> CurrentShowable()
    }

    /** The working queue holds exactly the questions of the bank. */
    ghost predicate Dealt()
      reads this, questionsToAsk
    {
      multiset(questionsToAsk[..]) == multiset(allQuestions)
    }

    /** The component as the field initialisers leave it, before Start. */
    constructor (bank: seq<Question>, buttons: nat)
      ensures allQuestions == bank && buttonCount == buttons
      ensures fresh(questionsToAsk) && questionsToAsk.Length == 0
      ensures currentQuestionIndex == 0 && correctAnswersCount == 0
      ensures canAnswer && !isGameOver
      ensures Valid()
    {
      allQuestions := bank;
      buttonCount := buttons;
      questionsToAsk := new Question[0];
      currentQuestionIndex := 0;
      correctAnswersCount := 0;
      canAnswer := true;
      isGameOver := false;
    }

    /** Start: an empty bank stops it after logging; otherwise it logs what
        is wrong with individual questions, deals the queue and displays
        the first question.  Unity calls it once, before any answer. */
    method Start(picks: seq<int>) returns (reports: seq<Report>)
      requires Valid() && currentQuestionIndex == 0
      requires ValidPicks(picks, |allQuestions|)
      modifies this
      ensures allQuestions == old(allQuestions) && buttonCount == old(buttonCount)
      ensures |allQuestions| == 0 ==> reports == [NoQuestions] && unchanged(this)
      ensures |allQuestions| > 0 ==>
        && reports == BankReports(allQuestions, |allQuestions|)
        && fresh(questionsToAsk)
        && questionsToAsk.Length == |allQuestions|
        && questionsToAsk[..] == Shuffled(allQuestions, picks)
        && currentQuestionIndex == 0 && correctAnswersCount == 0
        && isGameOver == (old(isGameOver) || !FitsButtons(questionsToAsk[0], buttonCount))
        && canAnswer == (old(canAnswer) || FitsButtons(questionsToAsk[0], buttonCount))
        && Dealt() && Listening()
      ensures Valid()
    {
      if |allQuestions| == 0 {
        reports := [NoQuestions];
        return;
      }
      reports := ValidateBank(allQuestions);
      InitializeQuestions(picks);
      var _ := DisplayCurrentQuestion();
    }

    /** InitializeQuestions: a fresh copy of the bank, shuffled in place. */
    method InitializeQuestions(picks: seq<int>)
      requires ValidPicks(picks, |allQuestions|)
      modifies this
      ensures allQuestions == old(allQuestions) && buttonCount == old(buttonCount)
      ensures fresh(questionsToAsk) && questionsToAsk.Length == |allQuestions|
      ensures questionsToAsk[..] == Shuffled(allQuestions, picks)
      ensures Dealt()
      ensures currentQuestionIndex == old(currentQuestionIndex)
      ensures correctAnswersCount == old(correctAnswersCount)
      ensures canAnswer == old(canAnswer) && isGameOver == old(isGameOver)
    {
      var bank := allQuestions;
      var list := new Question[|bank|](k requires 0 <= k < |bank| => bank[k]);
      assert list[..] == bank;
      ShuffleList(list, picks);
      questionsToAsk := list;
    }

    /** DisplayCurrentQuestion, the advance step: it ends the round when the
        queue is used up, else when five answers were correct, else when the
        current question does not fit the buttons; otherwise it shows the
        question and lets the next answer through. */
    method DisplayCurrentQuestion() returns (outcome: Display)
      requires Valid()
      modifies this
      ensures outcome == DisplayOutcome(questionsToAsk[..], currentQuestionIndex, correctAnswersCount, buttonCount)
      ensures currentQuestionIndex >= questionsToAsk.Length ==>
        outcome == Exhausted && isGameOver && canAnswer == old(canAnswer)
      ensures currentQuestionIndex < questionsToAsk.Length && correctAnswersCount >= WINNING_CORRECT_ANSWERS ==>
        outcome == Won && isGameOver && canAnswer == old(canAnswer)
      ensures (currentQuestionIndex < questionsToAsk.Length && correctAnswersCount < WINNING_CORRECT_ANSWERS
               && !FitsButtons(questionsToAsk[currentQuestionIndex], buttonCount)) ==>
        outcome == Malformed && isGameOver && canAnswer == old(canAnswer)
      ensures canAnswer <==> old(canAnswer) || outcome.Shown?
      ensures isGameOver <==> old(isGameOver) || !outcome.Shown?
      ensures questionsToAsk == old(questionsToAsk) && allQuestions == old(allQuestions)
      ensures buttonCount == old(buttonCount)
      ensures currentQuestionIndex == old(currentQuestionIndex)
      ensures correctAnswersCount == old(correctAnswersCount)
      ensures Valid() && Listening()
    {
      if currentQuestionIndex >= questionsToAsk.Length {
        isGameOver := true;
        return Exhausted;
      }
      if correctAnswersCount >= WINNING_CORRECT_ANSWERS {
        isGameOver := true;
        return Won;
      }
      var currentQuestion := questionsToAsk[currentQuestionIndex];
      if |currentQuestion.answers| != buttonCount {
        isGameOver := true;
        return Malformed;
      }
      if currentQuestion.correctAnswerIndex < 0 || currentQuestion.correctAnswerIndex >= buttonCount {
        isGameOver := true;
        return Malformed;
      }
      canAnswer := true;
      outcome := Shown(currentQuestion);
    }

    /** OnAnswerSelected: ignored unless the guard lets it through; then it
        closes the guard, scores the answer and moves to the next position.
        The button listeners only pass their own index. */
    method OnAnswerSelected(selectedIndex: int)
      requires Valid() && Listening()
      requires 0 <= selectedIndex < buttonCount
      modifies this
      ensures !old(Armed()) ==> unchanged(this)
      ensures old(Armed()) ==>
        && !canAnswer && isGameOver == old(isGameOver)
        && currentQuestionIndex == old(currentQuestionIndex) + 1
        && correctAnswersCount == old(correctAnswersCount)
             + (if selectedIndex == old(questionsToAsk[currentQuestionIndex].correctAnswerIndex) then 1 else 0)
      ensures questionsToAsk == old(questionsToAsk) && allQuestions == old(allQuestions)
      ensures buttonCount == old(buttonCount)
      ensures Valid() && Listening()
    {
      if !canAnswer || isGameOver {
        return;
      }
      canAnswer := false;
      var currentQuestion := questionsToAsk[currentQuestionIndex];
      // The two answers the log line names; these lookups are why an answer
      // let through needs a displayed question and a button index.
      var selectedAnswer := currentQuestion.answers[selectedIndex];
      var correctAnswer := currentQuestion.answers[currentQuestion.correctAnswerIndex];
      if selectedIndex == currentQuestion.correctAnswerIndex {
        correctAnswersCount := correctAnswersCount + 1;
      }
      currentQuestionIndex := currentQuestionIndex + 1;
    }

    /** RestartGame: both counters back to zero, the round open again, a
        freshly shuffled queue, and the first question displayed. */
    method RestartGame(picks: seq<int>)
      requires ValidPicks(picks, |allQuestions|)
      modifies this
      ensures allQuestions == old(allQuestions) && buttonCount == old(buttonCount)
      ensures fresh(questionsToAsk) && questionsToAsk.Length == |allQuestions|
      ensures questionsToAsk[..] == Shuffled(allQuestions, picks)
      ensures currentQuestionIndex == 0 && correctAnswersCount == 0
      ensures isGameOver <==> |allQuestions| == 0 || !FitsButtons(questionsToAsk[0], buttonCount)
      ensures canAnswer <==> old(canAnswer) || !isGameOver
      ensures Valid() && Dealt() && Listening()
    {
      correctAnswersCount := 0;
      currentQuestionIndex := 0;
      isGameOver := false;
      InitializeQuestions(picks);
      var _ := DisplayCurrentQuestion();
    }
  }
}
