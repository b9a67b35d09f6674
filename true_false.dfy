/**
 * GameManager (Assets/Scripts/GameManager.cs): the older true/false variant.
 * Each scene load shows one random question from a pool of unanswered
 * questions; answering judges it, takes it out of the pool and reloads the
 * scene.  The pool is a static field, so it outlives the GameManager of one
 * scene; here it is an object of its own that every GameManager shares.
 * A scene reload is a new GameManager over the same pool whose Start runs.
 */
module TrueFalse {
  import opened Wrappers

  /** The question record `Questions`: a statement and whether it is true.
      Its declaration is not among the files modelled here; the two fields
      are the ones GameManager reads. */
  datatype Questions = Questions(fact: string, isTrue: bool)

  /** List.IndexOf: the position of the first occurrence of `x` in `s`. */
  function IndexOf<T(==)>(s: seq<T>, x: T): (k: nat)
    requires x in s
    ensures k < |s| && s[k] == x
    ensures forall j :: 0 <= j < k ==> s[j] != x
  {
    if s[0] == x then 0 else 1 + IndexOf(s[1..], x)
  }

  /** List.RemoveAt: the list loses the element at `k`, one copy of it, and
      the elements before and after keep their order. */
  function RemoveAt<T>(s: seq<T>, k: nat): (r: seq<T>)
    requires k < |s|
    ensures |r| == |s| - 1 && multiset(r) == multiset(s) - multiset{s[k]}
    ensures forall j :: 0 <= j < k ==> r[j] == s[j]
    ensures forall j :: k <= j < |r| ==> r[j] == s[j + 1]
  {
    assert s == s[..k] + [s[k]] + s[k + 1..];
    s[..k] + s[k + 1..]
  }

  /** List.Remove: drop the first occurrence of `x`, if there is one.  An
      absent element leaves the list as it is; a present one loses exactly
      one copy. */
  function RemoveFirst<T(==)>(s: seq<T>, x: T): (r: seq<T>)
    ensures x !in s ==> r == s
    ensures x in s ==> |r| == |s| - 1 && multiset(r) == multiset(s) - multiset{x}
    ensures x in s ==> exists k :: (0 <= k < |s| && s[k] == x && (forall j :: 0 <= j < k ==> s[j] != x)
                                     && r == s[..k] + s[k + 1..])
  {
    if x in s then
      var k := IndexOf(s, x);
      assert RemoveAt(s, k) == s[..k] + s[k + 1..];
      RemoveAt(s, k)
    else s
  }

  /** The judgement of UserSelectTrue (`saidTrue`) and UserSelectFalse
      (`!saidTrue`): the answer is correct when it names the truth. */
  function IsCorrect(q: Questions, saidTrue: bool): bool
  {
    if saidTrue then q.isTrue else !q.isTrue
  }

  /** Of the two buttons exactly one is right, whatever the question. */
  lemma ExactlyOneButtonCorrect(q: Questions)
    ensures IsCorrect(q, true) != IsCorrect(q, false)
    ensures IsCorrect(q, true) <==> q.isTrue
  {
  }

  /** The pool Start draws from: the bank when the static list is null or
      empty, the list itself otherwise. */
  function Refilled(pool: Option<seq<Questions>>, bank: seq<Questions>): seq<Questions>
  {
    if pool.None? || |pool.value| == 0 then bank else pool.value
  }

  /** The static list of unanswered questions, shared by every scene load.
      `asked` records the questions taken out since the last refill. */
  class QuestionPool {
    var unansweredQuestions: Option<seq<Questions>>
    ghost var asked: seq<Questions>

    /** Before the first scene the static field is null. */
    constructor ()
      ensures unansweredQuestions == None && asked == []
    {
      unansweredQuestions := None;
      asked := [];
    }

    /** Since the last refill from `bank`, every question of the bank is
        either still in the pool or was asked, as often as it occurs in the
        bank: none is asked twice before the pool runs out. */
    ghost predicate DrawnFrom(bank: seq<Questions>)
      reads this
    {
      match unansweredQuestions
      case None => asked == []
      case Some(pool) => multiset(asked) + multiset(pool) == multiset(bank)
    }
  }

  /** Drawing from a pool keeps it inside the bank. */
  lemma DrawnFromSubBank(asked: seq<Questions>, pool: seq<Questions>, bank: seq<Questions>)
    requires multiset(asked) + multiset(pool) == multiset(bank)
    ensures multiset(pool) <= multiset(bank)
    ensures multiset(asked) <= multiset(bank)
    ensures |asked| + |pool| == |bank|
  {
  }

  class GameManager {
    /** The bank assigned in the editor (Questions[] questions). */
    const questions: array<Questions>
    /** The static field unansweredQuestions. */
    const pool: QuestionPool
    var currentQuestion: Option<Questions>

    ghost predicate Valid()
      reads this, pool, questions
    {
      pool.DrawnFrom(questions[..])
    }

    /** A fresh GameManager of a (re)loaded scene over the shared pool. */
    constructor (bank: array<Questions>, shared: QuestionPool)
      ensures questions == bank && pool == shared && currentQuestion == None
    {
      questions := bank;
      pool := shared;
      currentQuestion := None;
    }

    /** Start: refill the pool with the bank, in bank order, when it is null
        or empty; then pick the current question.  `randomQuestionIndex` is
        the value of Random.Range(0, Count) on the refilled pool. */
    method Start(randomQuestionIndex: int)
      requires Valid()
      requires 0 <= randomQuestionIndex < |Refilled(pool.unansweredQuestions, questions[..])|
      modifies pool, this
      ensures pool.unansweredQuestions == Some(Refilled(old(pool.unansweredQuestions), questions[..]))
      ensures old(pool.unansweredQuestions).None? || old(pool.unansweredQuestions).value == [] ==>
        pool.unansweredQuestions == Some(questions[..]) && pool.asked == []
      ensures old(pool.unansweredQuestions).Some? && old(pool.unansweredQuestions).value != [] ==>
        pool.unansweredQuestions == old(pool.unansweredQuestions) && pool.asked == old(pool.asked)
      ensures currentQuestion == Some(pool.unansweredQuestions.value[randomQuestionIndex])
      ensures currentQuestion.value in pool.unansweredQuestions.value
      ensures Valid()
    {
      if pool.unansweredQuestions.None? || |pool.unansweredQuestions.value| == 0 {
        pool.unansweredQuestions := Some(questions[..]);
        pool.asked := [];
      }
      SetCurrentQuestion(randomQuestionIndex);
    }

    /** SetCurrentQuestion: the question at the drawn position becomes the
        current one.  An empty pool has no position to draw. */
    method SetCurrentQuestion(randomQuestionIndex: int)
      requires pool.unansweredQuestions.Some?
      requires 0 <= randomQuestionIndex < |pool.unansweredQuestions.value|
      modifies this
      ensures currentQuestion == Some(pool.unansweredQuestions.value[randomQuestionIndex])
      ensures currentQuestion.value in pool.unansweredQuestions.value
    {
      currentQuestion := Some(pool.unansweredQuestions.value[randomQuestionIndex]);
    }

    /** The removal at the start of TransationToNextQuestion; the wait and
        the scene reload that follow it are left to the caller. */
    method TransitionToNextQuestion()
      requires Valid() && currentQuestion.Some? && pool.unansweredQuestions.Some?
      modifies pool
      ensures pool.unansweredQuestions == Some(RemoveFirst(old(pool.unansweredQuestions.value), currentQuestion.value))
      ensures pool.asked == old(pool.asked)
        + (if currentQuestion.value in old(pool.unansweredQuestions.value) then [currentQuestion.value] else [])
      ensures Valid()
    {
      var current := currentQuestion.value;
      var remaining := pool.unansweredQuestions.value;
      if current in remaining {
        pool.asked := pool.asked + [current];
      }
      pool.unansweredQuestions := Some(RemoveFirst(remaining, current));
    }

    /** UserSelectTrue: judge the answer "true", then leave the question behind. */
    method UserSelectTrue() returns (correct: bool)
      requires Valid() && currentQuestion.Some? && pool.unansweredQuestions.Some?
      modifies pool
      ensures correct <==> currentQuestion.value.isTrue
      ensures pool.unansweredQuestions == Some(RemoveFirst(old(pool.unansweredQuestions.value), currentQuestion.value))
      ensures Valid()
    {
      correct := IsCorrect(currentQuestion.value, true);
      TransitionToNextQuestion();
    }

    /** UserSelectFalse: judge the answer "false", then leave the question behind. */
    method UserSelectFalse() returns (correct: bool)
      requires Valid() && currentQuestion.Some? && pool.unansweredQuestions.Some?
      modifies pool
      ensures correct <==> !currentQuestion.value.isTrue
      ensures pool.unansweredQuestions == Some(RemoveFirst(old(pool.unansweredQuestions.value), currentQuestion.value))
      ensures Valid()
    {
      correct := IsCorrect(currentQuestion.value, false);
      TransitionToNextQuestion();
    }
  }

  /** SceneManager.LoadScene of the same scene: a new GameManager over the
      persisting pool, whose Start runs. */
  method LoadScene(bank: array<Questions>, shared: QuestionPool, randomQuestionIndex: int) returns (game: GameManager)
    requires shared.DrawnFrom(bank[..])
    requires 0 <= randomQuestionIndex < |Refilled(shared.unansweredQuestions, bank[..])|
    modifies shared
    ensures fresh(game) && game.questions == bank && game.pool == shared
    ensures shared.unansweredQuestions == Some(Refilled(old(shared.unansweredQuestions), bank[..]))
    ensures old(shared.unansweredQuestions).None? || old(shared.unansweredQuestions).value == [] ==>
      shared.unansweredQuestions == Some(bank[..]) && shared.asked == []
    ensures old(shared.unansweredQuestions).Some? && old(shared.unansweredQuestions).value != [] ==>
      shared.unansweredQuestions == old(shared.unansweredQuestions) && shared.asked == old(shared.asked)
    ensures game.currentQuestion == Some(shared.unansweredQuestions.value[randomQuestionIndex])
    ensures game.currentQuestion.value in shared.unansweredQuestions.value
    ensures multiset(shared.unansweredQuestions.value) <= multiset(bank[..])
    ensures game.Valid()
  {
    game := new GameManager(bank, shared);
    game.Start(randomQuestionIndex);
    DrawnFromSubBank(shared.asked, shared.unansweredQuestions.value, bank[..]);
  }

  /** Two scenes over a bank of two different questions, each time drawing
      position 0: the first scene shows the first question, the answer takes
      it out of the pool, and the reloaded scene shows the other one, so
      neither is asked twice before the pool runs out. */
  method TwoScenes(a: Questions, b: Questions) returns (first: Questions, second: Questions)
    requires a != b
    ensures first == a && second == b
  {
    var bank := new Questions[2](k => if k == 0 then a else b);
    assert bank[..] == [a, b];
    var shared := new QuestionPool();
    var game := LoadScene(bank, shared, 0);
    first := game.currentQuestion.value;
    assert shared.unansweredQuestions == Some([a, b]) && first == a;
    assert RemoveFirst([a, b], a) == [b] by {
      assert IndexOf([a, b], a) == 0;
    }
    var _ := game.UserSelectTrue();
    assert shared.unansweredQuestions == Some([b]);
    game := LoadScene(bank, shared, 0);
    second := game.currentQuestion.value;
  }
}
