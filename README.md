# Quiz round state machines, modelled in Dafny

A Unity trivia minigame has two quiz controllers. This project models both
and proves properties of them:

- **QuestionManager** runs the multiple-choice round. It copies the question
  bank into a working queue and shuffles it with Fisher–Yates. It shows one
  question at a time and accepts one answer per question. It counts the
  correct answers. The round ends when the queue runs out, when five answers
  were correct, or when the question to show does not fit the answer buttons.
  `RestartGame` deals a fresh queue.
- **GameManager** runs the older true/false variant. A static pool of
  unanswered questions outlives each scene. It is refilled from the bank when
  it is null or empty. Each scene shows one question drawn at random from the
  pool. Answering judges the question against its `isTrue` flag, removes it
  from the pool and reloads the scene.

Files:

- `wrappers.dfy`: `Option`, which stands for a C# reference that may be null.
- `trivia.dfy`: the `Question` record and the two shape checks applied to it.
- `fisher_yates.dfy`: `ShuffleList`, an in-place shuffle of an array. It is
  proved against a specification function, and that function is proved to
  produce exactly the permutations of its input.
- `multiple_choice.dfy`: the `QuestionManager` class and the validation pass
  of `Start`, the display outcome and the lock-phase formula.
- `true_false.dfy`: the `Questions` record (the code's own name for a
  true/false question), the `GameManager` class, the shared `QuestionPool`
  (the static list), `List.Remove` and the scene reload.

How the environment is modelled:

- **Randomness.** `Random.Range` is an oracle argument. `ShuffleList` takes
  `picks`, where `picks[i]` is the draw of step `i`, so `i <= picks[i] < Count`.
  `GameManager.Start` takes the drawn index, with `0 <= index < Count`.
  Nothing is claimed about the distribution.
- **Coroutines.** The delay between an answer and the next question is an
  explicit step. After `OnAnswerSelected` the caller invokes
  `DisplayCurrentQuestion`. A true/false scene reload is `LoadScene`, which
  builds a new `GameManager` over the same pool and runs its `Start`.
- **Log output.** `Debug.Log` output is modelled only where it tells cases
  apart. `Start` returns the error lines of its validation pass. 
  `DisplayCurrentQuestion` returns which branch it took, and in particular
  whether the round was won. `UserSelectTrue` and `UserSelectFalse` return
  the judgement they log.
- **UI references.** The answer buttons appear only as their number,
  `buttonCount`.

The model follows the code in these points:

- `Start` only logs a malformed question in the bank. It does not stop
  `Start`; only an empty bank does. The round ends later, when
  `DisplayCurrentQuestion` reaches that question and finds that it does not
  fit the buttons (QuestionManager.cs:81-93).
- The queue is never truncated to a maximum number of questions.
- The win threshold is the constant 5. It is not configurable.
- `OnAnswerSelected` returns nothing. There is no answer-result value.
- `DisplayCurrentQuestion` checks the shape of a question against the number
  of answer buttons, not against 4 as `Start` does. `RoundOverExactly` shows
  that the two checks agree when there are four buttons and the bank passed
  validation.
- Exhaustion is checked before the win threshold. If the fifth correct answer
  is given on the last question of the queue, the round ends as "queue used
  up", not as "won". `ExhaustionBeforeWin` states this ordering.

## Model

| member | source | states |
|---|---|---|
| `FisherYates.Swap` | Assets/Scripts/QuestionManager.cs:162-165 | exchanging two positions through a temporary keeps the length and the multiset of elements |
| `FisherYates.ShuffleFrom` | Assets/Scripts/QuestionManager.cs:160-166 | the loop from any step on keeps the length and only rearranges elements; its proof needs the contract of the recursive call |
| `FisherYates.Shuffled` | Assets/Scripts/QuestionManager.cs:158-167 | every result of the shuffle, under any valid draws, is a permutation of its input with the same length |
| `FisherYates.ReachFrom` | Assets/Scripts/QuestionManager.cs:160-166 | any arrangement of the unshuffled suffix is reached from that step by some valid draws that leave the earlier draws alone |
| `FisherYates.ShuffleComplete` | Assets/Scripts/QuestionManager.cs:158-167 | every permutation of the input is the result of some valid sequence of draws, so no arrangement is out of the shuffle's reach |
| `FisherYates.ShuffleList` | Assets/Scripts/QuestionManager.cs:158-167 | the in-place loop leaves the array equal to the shuffle function of its old contents, and so a permutation of them |
| `MultipleChoice.BankReportsExact` | Assets/Scripts/QuestionManager.cs:36-49 | the validation pass reports a wrong answer count for exactly the questions without 4 answers, and a bad index for exactly the questions whose correct index is outside [0, 4); `BankReports` and `QuestionReports` are the specification functions of the pass (QuestionManager.cs:36-49) |
| `MultipleChoice.BankReportsEmpty` | Assets/Scripts/QuestionManager.cs:36-49 | the validation pass logs nothing if and only if every question of the bank is well formed; "well formed" is `Trivia.WellFormed`, four answers and a correct index in [0, 4), the check of QuestionManager.cs:40-47 |
| `MultipleChoice.ValidateBank` | Assets/Scripts/QuestionManager.cs:36-49 | the loop over the bank produces exactly the reports of `BankReports`, in bank order, and nothing it finds stops `Start`; a flagged question ends the round only when it comes up for display |
| `MultipleChoice.RoundOverExactly` | Assets/Scripts/QuestionManager.cs:62-93 | with four buttons and a queue that is a permutation of a validated bank, the advance ends the round if and only if the queue is used up or five answers were correct; `DisplayOutcome` is the specification function of the display branches (QuestionManager.cs:64-93); a validated bank is one whose every question is `Trivia.WellFormed` |
| `MultipleChoice.ExhaustionBeforeWin` | Assets/Scripts/QuestionManager.cs:64-77 | with five or more correct answers, the advance reports exhaustion at the end of the queue and a win at any earlier position |
| `MultipleChoice.Clamp` | Assets/Scripts/QuestionManager.cs:148 | the clamped value lies in [min, max], equals the input when the input is already in range, is min below the range and max above it |
| `MultipleChoice.LockPhaseIndex` | Assets/Scripts/QuestionManager.cs:137-149 | nothing is shown without sprites or a lock image; otherwise the phase lies in [0, len), is the correct count minus one for 1 to len correct answers, the last phase beyond that, and phase 0 for a count of 1 or less |
| `MultipleChoice.QuestionManager.constructor` | Assets/Scripts/QuestionManager.cs:22-26 | the initial state is an empty queue, both counters at 0, the answer guard open and the round not over |
| `MultipleChoice.QuestionManager.Start` | Assets/Scripts/QuestionManager.cs:28-54 | an empty bank logs one error and changes nothing; otherwise the validation reports (`BankReports`) are returned, the queue is a fresh shuffle of the bank, and the first question is displayed |
| `MultipleChoice.QuestionManager.InitializeQuestions` | Assets/Scripts/QuestionManager.cs:56-60 | the queue becomes a fresh array equal to the shuffle of the bank, a permutation of it with the same length; the bank and every other field stay unchanged |
| `MultipleChoice.QuestionManager.DisplayCurrentQuestion` | Assets/Scripts/QuestionManager.cs:62-108 | the round ends on exhaustion (checked first), else on five correct answers, else on a question that does not fit the buttons; only otherwise is the answer guard reopened; the counters and the queue do not change and the round invariant holds; the branch taken is `DisplayOutcome` of the state; "fits the buttons" is `Trivia.FitsButtons` (QuestionManager.cs:81-93); the guard is `MultipleChoice.QuestionManager.Armed` and the counter invariant `MultipleChoice.QuestionManager.Valid` (QuestionManager.cs:64) |
| `MultipleChoice.QuestionManager.OnAnswerSelected` | Assets/Scripts/QuestionManager.cs:110-135 | when the guard is closed or the round is over nothing changes; otherwise the guard closes, the position moves up by exactly one, and the correct count moves up by one if and only if the selected index is the correct one; the guard of QuestionManager.cs:112 is `MultipleChoice.QuestionManager.Armed`, and the counter invariant `MultipleChoice.QuestionManager.Valid` (QuestionManager.cs:121-132) is kept |
| `MultipleChoice.QuestionManager.RestartGame` | Assets/Scripts/QuestionManager.cs:169-175 | both counters return to 0, the queue is a fresh permutation of the bank, and the round is over again only if the bank is empty or its first question does not fit the buttons; "fits" is `Trivia.FitsButtons`; the counters reset of QuestionManager.cs:171-172 re-establishes `MultipleChoice.QuestionManager.Valid` |
| `TrueFalse.IndexOf` | Assets/Scripts/GameManager.cs:39 | the position `List.Remove` finds holds the element and no earlier position does, so it is the first occurrence |
| `TrueFalse.RemoveAt` | Assets/Scripts/GameManager.cs:39 | removing the element at a position shortens the list by one, takes one copy of that element out of the multiset, and keeps the elements before and after it in order |
| `TrueFalse.RemoveFirst` | Assets/Scripts/GameManager.cs:39 | `List.Remove`: an absent element leaves the list unchanged; a present one is removed once, so the list is one shorter and the multiset loses exactly one copy, at its first occurrence, the other elements keeping their order |
| `TrueFalse.ExactlyOneButtonCorrect` | Assets/Scripts/GameManager.cs:44-69 | for every question exactly one of the two buttons is correct, and "true" is correct if and only if the question is true; `IsCorrect` is the judgement of both buttons (GameManager.cs:46-66) |
| `TrueFalse.DrawnFromSubBank` | Assets/Scripts/GameManager.cs:18-39 | when the asked questions and the pool together make up the bank, the pool and the asked questions are each sub-multisets of the bank, and their sizes add up to the bank's size |
| `TrueFalse.QuestionPool.constructor` | Assets/Scripts/GameManager.cs:11 | the static list starts out null, with nothing asked |
| `TrueFalse.GameManager.constructor` | Assets/Scripts/GameManager.cs:10-12 | a scene's GameManager holds the bank and the shared pool and has no current question yet |
| `TrueFalse.GameManager.Start` | Assets/Scripts/GameManager.cs:16-25 | a null or empty pool is refilled with the bank in array order and the asked record is cleared; otherwise the pool is unchanged; the current question is the drawn member of the pool; the pool stays drawn from the bank; the pool after the refill is `Refilled` (GameManager.cs:18-21); "drawn from the bank" is `TrueFalse.QuestionPool.DrawnFrom`: asked plus pool make up the bank (GameManager.cs:11, 18-21) |
| `TrueFalse.GameManager.SetCurrentQuestion` | Assets/Scripts/GameManager.cs:27-35 | the current question is the pool's element at the drawn index, and so a member of the pool |
| `TrueFalse.GameManager.TransitionToNextQuestion` | Assets/Scripts/GameManager.cs:37-42 | the pool loses exactly the first occurrence of the current question and the question is recorded as asked, so asked plus pool still make up the bank; that is `TrueFalse.QuestionPool.DrawnFrom` kept across the removal of GameManager.cs:39 |
| `TrueFalse.GameManager.UserSelectTrue` | Assets/Scripts/GameManager.cs:44-56 | the answer is judged correct if and only if the question is true; the only change is the removal from the pool (`IsCorrect` with "true") |
| `TrueFalse.GameManager.UserSelectFalse` | Assets/Scripts/GameManager.cs:57-69 | the answer is judged correct if and only if the question is false; the only change is the removal from the pool (`IsCorrect` with "false") |
| `TrueFalse.LoadScene` | Assets/Scripts/GameManager.cs:16-41 | reloading the scene over the persisting pool refills it with the bank (and clears the asked record) only when it is null or empty and otherwise leaves pool and asked record unchanged; the new current question is the pool's element at the drawn index, a member of the pool, and the pool stays a sub-multiset of the bank |
| `TrueFalse.TwoScenes` | Assets/Scripts/GameManager.cs:16-41 | with a bank of two different questions and the draw 0 in both scenes, the first scene shows the first question and the reloaded scene the second, so an answered question is not asked again while the pool lasts |

## Left out

- UI wiring is not modelled: question and answer texts, button labels and the
  `onClick` listener closures. They are presentation only.
- Sprite assignment and `lockDisplay.enabled` are not modelled, including the
  reset in `RestartGame`. Only the integer phase formula is kept, as
  `LockPhaseIndex`. `OnAnswerSelected` does not report which sprite it shows.
- Coroutines, `WaitForSeconds` and the float delays `questionDelay` and
  `timeBetweenQuestions` are replaced by explicit steps that the caller
  invokes. A restart does not cancel a pending advance in the code. The model
  allows `DisplayCurrentQuestion` to be called at any time for the same reason.
- `SceneManager.LoadScene` is modelled only as `LoadScene`: a new
  `GameManager` over the same pool, whose `Start` runs.
- `Debug.Log` text is not modelled, only which line would be logged.
- No claim is made that `Random.Range` is uniform. It is an oracle.
- A null `answers` list is not modelled, because `Question` initialises it to a
  list. A null `allQuestions` is not modelled either: the field is initialised
  to a list and is serialized by Unity, whose serializer never leaves it null.
  `Start` would treat null like an empty bank, but `RestartGame` would throw
  in `new List<Question>(null)`.
- `MultipleChoice.QuestionManager.Start` requires the position to be 0,
  because Unity calls `Start` once, before any answer.
- `MultipleChoice.QuestionManager.OnAnswerSelected` requires the selected
  index to be a button index, because the listeners pass only their own
  button's index. It also requires that an answer let through the guard has
  a displayed question to score against. This holds after every display
  (`Listening`). Before `Start` no listener exists.
- `TrueFalse.GameManager.Start` requires a non-empty pool after the refill.
  On an empty bank `Random.Range(0, 0)` returns 0 and the list index throws,
  so the model does not follow that crash.
- `TrueFalse.GameManager.TransitionToNextQuestion`: `List.Remove` compares
  with `Equals`. The declaration of `Questions` is not part of this model; if
  `Questions` is a class that does not override `Equals`, the code compares
  by reference, while the model compares by value. With two equal records in
  the bank, the model may then remove the other one of the pair. The
  resulting multiset is the same. A second press before the reload removes
  nothing in the code. In the model it removes an equal duplicate if there is
  one.
- `TrueFalse.GameManager.UserSelectTrue` and `UserSelectFalse` keep no score,
  because the code keeps none.
