/**
  The quiz controller's state as a value, one function per event handler,
  the invariant every reachable state keeps, and what a whole game computes.

  The class `Quiz.QuizManager` updates its fields in place; each of its
  methods is proved to produce exactly the state the matching function here
  produces, so the lemmas below speak about every run of that class.
 */
module QuizSpec {
  import opened Trivia

  /** What the question label shows. `Untouched` is the scene's own text before any display. */
  datatype QuestionText = Untouched | Prompt(text: string) | QuizEnded

  /** What the feedback label shows: empty, "Correct!", "Wrong!" or "Your score: s/t". */
  datatype Feedback = NoFeedback | Correct | Wrong | YourScore(score: nat, total: nat)

  /** The two runtime exceptions a handler can stop on. */
  datatype Exception = NullReference | IndexOutOfRange

  /** Whether a handler ran to its end or stopped on an exception (which the engine logs). */
  datatype Outcome = Completed | Threw(exception: Exception)

  /**
    Every field the controller reads or writes. `answerInteractable` stands for
    the True and False buttons' `interactable` flags and `gameButtonsActive`
    for the True, False and Next buttons being shown: the code always sets
    those flags together. `fetchPending` is true while a fetch coroutine is
    waiting for the network.
   */
  datatype State = State(
    questions: Option<seq<TriviaQuestion>>,
    currentQuestionIndex: nat,
    score: nat,
    questionText: QuestionText,
    feedbackText: Feedback,
    answerInteractable: bool,
    nextInteractable: bool,
    gameButtonsActive: bool,
    restartActive: bool,
    fetchPending: bool)

  /** The state a handler leaves behind, and how it ended. */
  datatype Step = Step(after: State, outcome: Outcome)

  /** The HTML-entity decoder applied to a question's text when it is shown. */
  type Decoder = string -> string

  const TRUE_ANSWER := "True"
  const FALSE_ANSWER := "False"

  /** The argument the True and False buttons pass to the answer handler. */
  predicate IsButtonAnswer(playerAnswer: string)
  {
    playerAnswer == TRUE_ANSWER || playerAnswer == FALSE_ANSWER
  }

  /** No question can be read: the list is still null, or it is empty. */
  predicate NoQuestions(s: State)
  {
    s.questions.None? || s.questions.value == []
  }

  predicate AnswerClickable(s: State)
  {
    s.gameButtonsActive && s.answerInteractable
  }

  predicate NextClickable(s: State)
  {
    s.gameButtonsActive && s.nextInteractable
  }

  predicate RestartClickable(s: State)
  {
    s.restartActive
  }

  // ---------------------------------------------------------------------------
  // The handlers
  // ---------------------------------------------------------------------------

  /**
    The state after the field initialisers and `Start`: no list yet, counters
    at zero, feedback cleared, Next not interactable, Restart hidden, and the
    first fetch under way. True and False keep the scene's defaults
    (interactable and shown).
   */
  function Start(): (s: State)
    ensures s.questions.None? && s.currentQuestionIndex == 0 && s.score == 0
    ensures s.feedbackText == NoFeedback && !s.nextInteractable && !s.restartActive
    ensures s.fetchPending
  {
    State(None, 0, 0, Untouched, NoFeedback, true, false, true, false, true)
  }

  /**
    Show the question at the cursor, or the end-of-quiz summary once the
    cursor has passed the last question.
   */
  function Display(s: State, decode: Decoder): (r: Step)
    ensures r.after.questions == s.questions
    ensures r.after.currentQuestionIndex == s.currentQuestionIndex && r.after.score == s.score
    ensures r.after.fetchPending == s.fetchPending
    ensures r.outcome.Threw? <==> s.questions.None?
    ensures r.outcome.Threw? ==> r.after == s
    ensures s.questions.Some? && s.currentQuestionIndex < |s.questions.value| ==>
      && r.after.questionText == Prompt(decode(s.questions.value[s.currentQuestionIndex].question))
      && r.after.feedbackText == NoFeedback
      && r.after.answerInteractable && !r.after.nextInteractable
      && r.after.gameButtonsActive == s.gameButtonsActive
      && r.after.restartActive == s.restartActive
    ensures s.questions.Some? && s.currentQuestionIndex >= |s.questions.value| ==>
      && r.after.questionText == QuizEnded
      && r.after.feedbackText == YourScore(s.score, |s.questions.value|)
      && !r.after.gameButtonsActive && r.after.restartActive
      && r.after.answerInteractable == s.answerInteractable
      && r.after.nextInteractable == s.nextInteractable
  {
    match s.questions
    case None => Step(s, Threw(NullReference))
    case Some(qs) =>
      if s.currentQuestionIndex < |qs| then
        var q := decode(qs[s.currentQuestionIndex].question);
        Step(s.(questionText := Prompt(q), feedbackText := NoFeedback,
                nextInteractable := false, answerInteractable := true), Completed)
      else
        Step(s.(questionText := QuizEnded, feedbackText := YourScore(s.score, |qs|),
                gameButtonsActive := false, restartActive := true), Completed)
  }

  /**
    Score the current question against the player's answer by exact,
    case-sensitive string equality, lock the answer buttons and unlock Next.
   */
  function Answer(s: State, playerAnswer: string): (r: Step)
    ensures r.after.questions == s.questions
    ensures r.after.currentQuestionIndex == s.currentQuestionIndex
    ensures r.after.fetchPending == s.fetchPending
    ensures r.after.gameButtonsActive == s.gameButtonsActive && r.after.restartActive == s.restartActive
    ensures r.after.questionText == s.questionText
    ensures r.outcome == Completed <==>
      s.questions.Some? && s.currentQuestionIndex < |s.questions.value|
    ensures r.outcome == Threw(NullReference) <==> s.questions.None?
    ensures r.outcome.Threw? ==> r.after == s
    ensures r.outcome == Completed ==>
      var correct := playerAnswer == s.questions.value[s.currentQuestionIndex].correctAnswer;
      && r.after.score == (if correct then s.score + 1 else s.score)
      && r.after.feedbackText == (if correct then Correct else Wrong)
      && !r.after.answerInteractable && r.after.nextInteractable
  {
    match s.questions
    case None => Step(s, Threw(NullReference))
    case Some(qs) =>
      if s.currentQuestionIndex >= |qs| then
        Step(s, Threw(IndexOutOfRange))
      else
        var current := qs[s.currentQuestionIndex];
        var correct := playerAnswer == current.correctAnswer;
        Step(s.(answerInteractable := false,
                feedbackText := if correct then Correct else Wrong,
                score := if correct then s.score + 1 else s.score,
                nextInteractable := true), Completed)
  }

  /** Move the cursor one question on, then display. */
  function NextQuestion(s: State, decode: Decoder): (r: Step)
    ensures r.after.questions == s.questions && r.after.score == s.score
    ensures r.after.currentQuestionIndex == s.currentQuestionIndex + 1
    ensures r.outcome.Threw? <==> s.questions.None?
  {
    Display(s.(currentQuestionIndex := s.currentQuestionIndex + 1), decode)
  }

  /**
    Zero both counters, show True, False and Next again, hide Restart and start
    a new fetch. Neither the list nor any `interactable` flag is touched.
   */
  function Restart(s: State): (t: State)
    ensures t.currentQuestionIndex == 0 && t.score == 0
    ensures t.gameButtonsActive && !t.restartActive && t.fetchPending
    ensures t.questions == s.questions
    ensures t.answerInteractable == s.answerInteractable && t.nextInteractable == s.nextInteractable
    ensures t.questionText == s.questionText && t.feedbackText == s.feedbackText
  {
    s.(currentQuestionIndex := 0, score := 0, gameButtonsActive := true,
       restartActive := false, fetchPending := true)
  }

  /**
    The fetch coroutine resumes. A failed request changes nothing but ends the
    fetch; a successful one replaces the list with the payload's results,
    whatever its response code, and displays at the current cursor.
   */
  function FetchDone(s: State, fetch: FetchOutcome, decode: Decoder): (t: State)
    requires s.fetchPending
    ensures !t.fetchPending
    ensures t.currentQuestionIndex == s.currentQuestionIndex && t.score == s.score
    ensures fetch.Failed? ==> t == s.(fetchPending := false)
    ensures fetch.Received? ==> t.questions == Some(fetch.response.results)
  {
    match fetch
    case Failed(_) => s.(fetchPending := false)
    case Received(response) =>
      Display(s.(questions := Some(response.results), fetchPending := false), decode).after
  }

  // ---------------------------------------------------------------------------
  // The invariant: five phases, one of which every reachable state is in
  // ---------------------------------------------------------------------------

  /**
    What `OnRestart` and the field initialisers leave: cursor and score at
    zero, True/False/Next shown, Restart hidden, the feedback either cleared or
    the previous summary. The `interactable` flags are whatever the previous
    game left: True/False can only still be interactable when no question can
    be read, and Next only when a list was loaded before.
   */
  predicate Restarted(s: State)
  {
    && s.currentQuestionIndex == 0 && s.score == 0
    && s.gameButtonsActive && !s.restartActive
    && (s.feedbackText.NoFeedback? || s.feedbackText.YourScore?)
    && (s.answerInteractable ==> NoQuestions(s))
    && (s.nextInteractable ==> s.questions.Some?)
  }

  /** A fetch is under way. */
  predicate Loading(s: State)
  {
    s.fetchPending && Restarted(s)
  }

  /** The last fetch failed: nothing was loaded and nothing was displayed. */
  predicate Stalled(s: State)
  {
    !s.fetchPending && Restarted(s)
  }

  /** The question at the cursor is on screen, decoded, with the game buttons shown. */
  predicate ShowsQuestion(s: State, decode: Decoder)
  {
    && !s.fetchPending
    && s.questions.Some?
    && s.currentQuestionIndex < |s.questions.value|
    && s.gameButtonsActive && !s.restartActive
    && s.questionText == Prompt(decode(s.questions.value[s.currentQuestionIndex].question))
  }

  /** Waiting for an answer: only True/False can be clicked. */
  predicate Asking(s: State, decode: Decoder)
  {
    && ShowsQuestion(s, decode)
    && s.answerInteractable && !s.nextInteractable
    && s.feedbackText == NoFeedback
    && s.score <= s.currentQuestionIndex
  }

  /** The current question was answered: only Next can be clicked. */
  predicate Answered(s: State, decode: Decoder)
  {
    && ShowsQuestion(s, decode)
    && !s.answerInteractable && s.nextInteractable
    && (s.feedbackText == Correct || s.feedbackText == Wrong)
    && s.score <= s.currentQuestionIndex + 1
  }

  /**
    The summary is on screen and only Restart is shown. The cursor is at the
    end of the list, except that a Next click left over from an earlier game
    can push it one past an empty list.
   */
  predicate Ended(s: State)
  {
    && !s.fetchPending
    && s.questions.Some?
    && (s.currentQuestionIndex == |s.questions.value|
        || (s.questions.value == [] && s.currentQuestionIndex == 1 && s.score == 0))
    && !s.gameButtonsActive && s.restartActive
    && s.questionText == QuizEnded
    && s.feedbackText == YourScore(s.score, |s.questions.value|)
    && s.score <= |s.questions.value|
    && (s.answerInteractable ==> s.questions.value == [])
  }

  predicate Inv(s: State, decode: Decoder)
  {
    Loading(s) || Stalled(s) || Asking(s, decode) || Answered(s, decode) || Ended(s)
  }

  // ---------------------------------------------------------------------------
  // Each event keeps the invariant
  // ---------------------------------------------------------------------------

  lemma StartIsLoading(decode: Decoder)
    ensures Loading(Start()) && Inv(Start(), decode)
  {
  }

  /**
    Clicking True or False: from `Asking` it scores the question and moves to
    `Answered`; the only other state where the buttons can be clicked is a
    stalled first fetch (or a fetch that returned no questions), where the
    handler stops on an exception and changes nothing.
   */
  lemma AnswerKeepsInv(s: State, playerAnswer: string, decode: Decoder)
    requires Inv(s, decode) && !s.fetchPending && AnswerClickable(s)
    ensures Inv(Answer(s, playerAnswer).after, decode)
    ensures Asking(s, decode) || (Stalled(s) && NoQuestions(s))
    ensures Asking(s, decode) ==>
      Answered(Answer(s, playerAnswer).after, decode) && Answer(s, playerAnswer).outcome == Completed
    ensures Answer(s, playerAnswer).outcome.Threw? <==> NoQuestions(s)
  {
  }

  /**
    Clicking Next: from `Answered` it moves to the next question or to the
    summary; from a stalled refetch it resumes the list that is still loaded.
    It never stops on an exception.
   */
  lemma NextKeepsInv(s: State, decode: Decoder)
    requires Inv(s, decode) && !s.fetchPending && NextClickable(s)
    ensures Inv(NextQuestion(s, decode).after, decode)
    ensures Answered(s, decode) || Stalled(s)
    ensures NextQuestion(s, decode).outcome == Completed
    ensures Answered(s, decode) ==>
      var t := NextQuestion(s, decode).after;
      if t.currentQuestionIndex < |t.questions.value| then Asking(t, decode) else Ended(t)
  {
  }

  /** Restart is shown exactly in the summary, and clicking it starts a fetch from zero. */
  lemma RestartKeepsInv(s: State, decode: Decoder)
    requires Inv(s, decode) && RestartClickable(s)
    ensures Ended(s)
    ensures Loading(Restart(s)) && Inv(Restart(s), decode)
  {
  }

  /**
    A fetch ends: on failure the quiz stalls where it was; on success the
    first question is asked, or, for an empty result list, the summary shows 0/0.
   */
  lemma FetchDoneKeepsInv(s: State, fetch: FetchOutcome, decode: Decoder)
    requires Inv(s, decode) && s.fetchPending
    ensures Loading(s)
    ensures Inv(FetchDone(s, fetch, decode), decode)
    ensures fetch.Failed? ==> Stalled(FetchDone(s, fetch, decode))
    ensures fetch.Received? && fetch.response.results != [] ==>
      Asking(FetchDone(s, fetch, decode), decode) && FetchDone(s, fetch, decode).currentQuestionIndex == 0
    ensures fetch.Received? && fetch.response.results == [] ==>
      Ended(FetchDone(s, fetch, decode)) && FetchDone(s, fetch, decode).feedbackText == YourScore(0, 0)
  {
  }

  // ---------------------------------------------------------------------------
  // What the invariant gives
  // ---------------------------------------------------------------------------

  /** With no fetch under way, the quiz is in exactly one phase. */
  lemma ExactlyOnePhase(s: State, decode: Decoder)
    requires Inv(s, decode) && !s.fetchPending
    ensures Stalled(s) || Asking(s, decode) || Answered(s, decode) || Ended(s)
    ensures Stalled(s) ==> !Asking(s, decode) && !Answered(s, decode) && !Ended(s)
    ensures Asking(s, decode) ==> !Answered(s, decode) && !Ended(s)
    ensures Answered(s, decode) ==> !Ended(s)
  {
  }

  /**
    The buttons decide what can happen next: the summary allows nothing but
    Restart, and the question view allows exactly one of answering and
    advancing.
   */
  lemma ButtonsFollowPhase(s: State, decode: Decoder)
    requires Inv(s, decode)
    ensures Ended(s) ==> !AnswerClickable(s) && !NextClickable(s) && RestartClickable(s)
    ensures Asking(s, decode) ==> AnswerClickable(s) && !NextClickable(s) && !RestartClickable(s)
    ensures Answered(s, decode) ==> !AnswerClickable(s) && NextClickable(s) && !RestartClickable(s)
    ensures RestartClickable(s) <==> Ended(s)
  {
  }

  /** The score never exceeds the number of questions loaded, nor the questions reached. */
  lemma ScoreBounded(s: State, decode: Decoder)
    requires Inv(s, decode) && s.questions.Some?
    ensures s.score <= |s.questions.value|
    ensures s.score <= s.currentQuestionIndex + (if Answered(s, decode) then 1 else 0)
  {
  }

  /**
    The cursor stays within the list, save for the one case where a Next click
    left over from an earlier game pushes it one past an empty list.
   */
  lemma IndexBounded(s: State, decode: Decoder)
    requires Inv(s, decode) && s.questions.Some?
    ensures s.currentQuestionIndex <= |s.questions.value|
         || (s.questions.value == [] && s.currentQuestionIndex == 1 && Ended(s))
  {
  }

  /**
    `OnRestart` leaves Next interactable after a game that ended by clicking
    Next, so Next stays clickable while the new fetch is under way.
   */
  lemma RestartLeavesNextClickable(s: State, decode: Decoder)
    requires Answered(s, decode) && s.currentQuestionIndex + 1 == |s.questions.value|
    ensures var e := NextQuestion(s, decode).after;
      Ended(e) && Restart(e).fetchPending && NextClickable(Restart(e))
  {
  }

  /**
    If that fetch then fails, Next resumes the old list at its second question
    with the score at zero: the first question is skipped.
   */
  lemma StalledNextSkipsFirstQuestion(s: State, decode: Decoder)
    requires Stalled(s) && NextClickable(s)
    requires s.questions.Some? && |s.questions.value| >= 2
    ensures var t := NextQuestion(s, decode).after;
      Asking(t, decode) && t.currentQuestionIndex == 1 && t.score == 0
  {
  }

  // ---------------------------------------------------------------------------
  // A whole game
  // ---------------------------------------------------------------------------

  /** The number of answers that equal the matching question's correct answer. */
  function Matches(questions: seq<TriviaQuestion>, answers: seq<string>): (n: nat)
    requires |answers| <= |questions|
    ensures n <= |answers|
    ensures n == |answers| <==> forall i :: 0 <= i < |answers| ==> answers[i] == questions[i].correctAnswer
  {
    if answers == [] then 0
    else
      var rest := Matches(questions[1..], answers[1..]);
      assert forall i :: 1 <= i < |answers| ==>
        (answers[i] == questions[i].correctAnswer <==> answers[1..][i - 1] == questions[1..][i - 1].correctAnswer);
      (if answers[0] == questions[0].correctAnswer then 1 else 0) + rest
  }

  /** One round: answer the current question, then click Next. */
  function Round(s: State, playerAnswer: string, decode: Decoder): (t: State)
    ensures t.questions == s.questions
  {
    NextQuestion(Answer(s, playerAnswer).after, decode).after
  }

  /** Play one round per answer, in order. */
  function Play(s: State, answers: seq<string>, decode: Decoder): (t: State)
    ensures t.questions == s.questions
    decreases |answers|
  {
    if answers == [] then s else Play(Round(s, answers[0], decode), answers[1..], decode)
  }

  /**
    Playing from a question being asked: each round adds one to the score
    exactly when its answer is right, and after the last question the summary
    is shown.
   */
  lemma {:induction false} PlayScores(s: State, answers: seq<string>, decode: Decoder)
    requires Asking(s, decode)
    requires |answers| <= |s.questions.value| - s.currentQuestionIndex
    ensures var t := Play(s, answers, decode);
      && t.score == s.score + Matches(s.questions.value[s.currentQuestionIndex..], answers)
      && t.currentQuestionIndex == s.currentQuestionIndex + |answers|
      && (t.currentQuestionIndex < |s.questions.value| ==> Asking(t, decode))
      && (t.currentQuestionIndex == |s.questions.value| ==> Ended(t))
    decreases |answers|
  {
    if answers != [] {
      var qs := s.questions.value;
      var i := s.currentQuestionIndex;
      var a := Answer(s, answers[0]).after;
      assert Answered(a, decode);
      var r := Round(s, answers[0], decode);
      assert r == NextQuestion(a, decode).after;
      assert qs[i..][0] == qs[i];
      assert qs[i..][1..] == qs[i + 1..];
      if i + 1 < |qs| {
        assert Asking(r, decode);
        PlayScores(r, answers[1..], decode);
      } else {
        assert Ended(r);
        assert answers[1..] == [];
        assert qs[i + 1..] == [];
      }
    }
  }

  /**
    A complete game on a freshly fetched, non-empty list ends on the summary
    "m/n", where n is the number of questions and m the number answered right.
   */
  lemma FullGameSummary(response: TriviaResponse, answers: seq<string>, decode: Decoder)
    requires response.results != [] && |answers| == |response.results|
    ensures var t := Play(FetchDone(Start(), Received(response), decode), answers, decode);
      && Ended(t)
      && t.feedbackText == YourScore(Matches(response.results, answers), |response.results|)
      && t.feedbackText.score <= t.feedbackText.total
  {
    var s := FetchDone(Start(), Received(response), decode);
    FetchDoneKeepsInv(Start(), Received(response), decode);
    PlayScores(s, answers, decode);
    assert response.results[0..] == response.results;
  }

  /**
    Two questions whose answers are True and False, both answered True: the
    first scores, the second does not, and the summary reads 1/2.
   */
  lemma TwoQuestionGame(first: TriviaQuestion, second: TriviaQuestion, decode: Decoder)
    requires first.correctAnswer == TRUE_ANSWER && second.correctAnswer == FALSE_ANSWER
    ensures var s := FetchDone(Start(), Received(TriviaResponse(0, [first, second])), decode);
      Play(s, [TRUE_ANSWER, TRUE_ANSWER], decode).feedbackText == YourScore(1, 2)
  {
    var results := [first, second];
    FullGameSummary(TriviaResponse(0, results), [TRUE_ANSWER, TRUE_ANSWER], decode);
    assert Matches(results, [TRUE_ANSWER, TRUE_ANSWER]) == 1 by {
      assert Matches(results[1..][1..], []) == 0;
    }
  }
}
