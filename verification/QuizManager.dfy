/**
  The quiz controller as the object it is: fields updated in place by the
  click handlers and by the fetch coroutine's completion.

  Every handler is a method whose precondition is that its button is shown
  and interactable, and that no fetch is under way (clicks are taken to
  arrive only once the network has answered). Each is proved to leave exactly
  the state the matching `QuizSpec` function describes, and to keep `Valid()`.
 */
module Quiz {
  import opened Trivia
  import opened QuizSpec

  class QuizManager {
    /** The HTML-entity decoder applied to question text at display time. */
    const htmlDecode: Decoder

    var questions: Option<seq<TriviaQuestion>>
    var currentQuestionIndex: nat
    var score: nat

    var questionText: QuestionText
    var feedbackText: Feedback
    var answerInteractable: bool   // True and False buttons
    var nextInteractable: bool
    var gameButtonsActive: bool    // True, False and Next buttons shown
    var restartActive: bool
    var fetchPending: bool

    /** The fields as one value. */
    function Snapshot(): State
      reads this
    {
      State(questions, currentQuestionIndex, score, questionText, feedbackText,
            answerInteractable, nextInteractable, gameButtonsActive, restartActive, fetchPending)
    }

    ghost predicate Valid()
      reads this
    {
      Inv(Snapshot(), htmlDecode)
    }

    /** The field initialisers, then `Start`: clear feedback, lock Next, hide Restart, fetch. */
    constructor (htmlDecode: Decoder)
      ensures this.htmlDecode == htmlDecode
      ensures Snapshot() == Start()
      ensures Valid() && fetchPending
    {
      this.htmlDecode := htmlDecode;
      questions := None;
      currentQuestionIndex := 0;
      score := 0;
      questionText := Untouched;
      answerInteractable := true;
      gameButtonsActive := true;
      feedbackText := NoFeedback;
      nextInteractable := false;
      restartActive := false;
      fetchPending := true;
      StartIsLoading(htmlDecode);
    }

    /** The question at the cursor, or the summary once the cursor is past the end. */
    method DisplayQuestion() returns (outcome: Outcome)
      modifies this
      ensures Snapshot() == Display(old(Snapshot()), htmlDecode).after
      ensures outcome == Display(old(Snapshot()), htmlDecode).outcome
    {
      if questions.None? {
        return Threw(NullReference);
      }
      if currentQuestionIndex < |questions.value| {
        var q := htmlDecode(questions.value[currentQuestionIndex].question);
        questionText := Prompt(q);
        feedbackText := NoFeedback;
        nextInteractable := false;
        answerInteractable := true;
      } else {
        questionText := QuizEnded;
        feedbackText := YourScore(score, |questions.value|);
        gameButtonsActive := false;
        restartActive := true;
      }
      outcome := Completed;
    }

    /** The True button passes "True", the False button "False". */
    method OnAnswer(playerAnswer: string) returns (outcome: Outcome)
      requires Valid() && !fetchPending
      requires AnswerClickable(Snapshot()) && IsButtonAnswer(playerAnswer)
      modifies this
      ensures Snapshot() == Answer(old(Snapshot()), playerAnswer).after
      ensures outcome == Answer(old(Snapshot()), playerAnswer).outcome
      ensures Valid()
      ensures outcome.Threw? <==> old(NoQuestions(Snapshot()))
      ensures outcome == Completed ==> Answered(Snapshot(), htmlDecode)
    {
      ghost var before := Snapshot();
      AnswerKeepsInv(before, playerAnswer, htmlDecode);
      if questions.None? {
        return Threw(NullReference);
      }
      if currentQuestionIndex >= |questions.value| {
        return Threw(IndexOutOfRange);
      }
      var current := questions.value[currentQuestionIndex];
      answerInteractable := false;
      if playerAnswer == current.correctAnswer {
        feedbackText := Correct;
        score := score + 1;
      } else {
        feedbackText := Wrong;
      }
      nextInteractable := true;
      outcome := Completed;
    }

    method OnNextQuestion() returns (outcome: Outcome)
      requires Valid() && !fetchPending
      requires NextClickable(Snapshot())
      modifies this
      ensures Snapshot() == NextQuestion(old(Snapshot()), htmlDecode).after
      ensures outcome == Completed
      ensures Valid()
      ensures old(Answered(Snapshot(), htmlDecode)) ==>
        if currentQuestionIndex < |questions.value| then Asking(Snapshot(), htmlDecode) else Ended(Snapshot())
    {
      ghost var before := Snapshot();
      NextKeepsInv(before, htmlDecode);
      currentQuestionIndex := currentQuestionIndex + 1;
      outcome := DisplayQuestion();
    }

    method OnRestart()
      requires Valid() && !fetchPending
      requires RestartClickable(Snapshot())
      modifies this
      ensures Snapshot() == Restart(old(Snapshot()))
      ensures Valid() && fetchPending
    {
      ghost var before := Snapshot();
      RestartKeepsInv(before, htmlDecode);
      currentQuestionIndex := 0;
      score := 0;
      gameButtonsActive := true;
      restartActive := false;
      fetchPending := true;
    }

    /** The fetch coroutine resumes with the request's outcome. */
    method OnFetchDone(fetch: FetchOutcome)
      requires Valid() && fetchPending
      modifies this
      ensures Snapshot() == FetchDone(old(Snapshot()), fetch, htmlDecode)
      ensures Valid() && !fetchPending
    {
      ghost var before := Snapshot();
      FetchDoneKeepsInv(before, fetch, htmlDecode);
      match fetch
      case Failed(_) =>
        fetchPending := false;
      case Received(response) =>
        questions := Some(response.results);
        fetchPending := false;
        var _ := DisplayQuestion();
    }
  }

  /**
    A client of the class: a fetch returns two questions whose answers are
    True and False, and the player clicks True, Next, True, Next. The
    handlers' contracts alone show that the summary reads 1/2.
   */
  method TwoQuestionSession(first: TriviaQuestion, second: TriviaQuestion, decode: Decoder)
    returns (summary: Feedback)
    requires first.correctAnswer == TRUE_ANSWER && second.correctAnswer == FALSE_ANSWER
    ensures summary == YourScore(1, 2)
  {
    var quiz := new QuizManager(decode);
    quiz.OnFetchDone(Received(TriviaResponse(0, [first, second])));
    var outcome := quiz.OnAnswer(TRUE_ANSWER);
    outcome := quiz.OnNextQuestion();
    outcome := quiz.OnAnswer(TRUE_ANSWER);
    outcome := quiz.OnNextQuestion();
    summary := quiz.feedbackText;
  }
}
