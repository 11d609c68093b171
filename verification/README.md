# True/false trivia quiz controller

A model of the `QuizManager` component of a Unity true/false trivia game. The
component fetches ten boolean questions from a trivia web service. It shows
them one at a time and scores each True/False click by exact,
case-sensitive comparison with the question's `correct_answer`. After the
last question it shows the summary "Your score: s/n", and a Restart button
zeroes the counters and fetches again.

- `Trivia.dfy`: the decoded JSON records (`TriviaQuestion`, `TriviaResponse`). It also holds the two ways a request can end.
- `QuizSpec.dfy`: the controller's fields as one `State` value and one function per event (`Start`, `Display`, `Answer`, `NextQuestion`, `Restart`, `FetchDone`). It also holds the invariant `Inv` and the lemmas about it. `Inv` has five phases:
  - `Loading`: a fetch is under way.
  - `Stalled`: the last fetch failed.
  - `Asking`: a question waits for an answer.
  - `Answered`: only Next can be clicked.
  - `Ended`: the summary is shown.
- `QuizManager.dfy`: the class `QuizManager`, whose handlers update its fields in place. Each handler is proved to leave exactly the state the matching `QuizSpec` function gives, and to keep `Valid()` (that is, `Inv`).

Modelling choices:

- The True and False buttons' `interactable` flags are always set together, so one field `answerInteractable` stands for both.
- Likewise, `SetActive` on True, False and Next is always applied to all three, so one field `gameButtonsActive` stands for it.
- Restart's `interactable` flag is never changed, so it is not modelled.
- Buttons start interactable and shown, which is the engine's default for a button.
- `questions` is null until the first successful fetch, so it is an `Option`.
- A handler that dereferences the null list or indexes past its end stops on an exception. The engine logs the exception and carries on. The model returns `Threw(NullReference)` or `Threw(IndexOutOfRange)` and keeps the fields as they were at the throw.
- The handlers require that their button is shown and interactable. That is the only way the listeners wired in `Start` can call them.
- Clicks are also taken to arrive only when no fetch is pending (`fetchPending` is false).
- The HTML-entity decoder is the class constant `htmlDecode`, a function parameter. It is applied when a question is displayed and never stored back into the list.

What the code does that the invariant makes visible:

- `OnRestart` never resets `nextButton.interactable`. After a game that ended by clicking Next, Next is therefore still clickable once Restart has shown it again (`RestartLeavesNextClickable`).
- If the new fetch then fails, clicking Next resumes the old list at its second question with the score at zero (`StalledNextSkipsFirstQuestion`).
- If the list that ended that game was empty, the click pushes the cursor to 1 on an empty list. The summary still reads 0/0.
- So "cursor ≤ number of questions" holds in every reachable state except that one (`IndexBounded`).
- After a failed first fetch, True and False stay clickable with no list loaded. A click then stops on a null dereference and changes nothing (`AnswerKeepsInv`).

## Model

| member | source | states |
|---|---|---|
| `QuizSpec.Start` | Assets/Scripts/QuizManager.cs:35-48 | after the initialisers and `Start`: no list, cursor and score 0, feedback cleared, Next locked, Restart hidden, a fetch under way |
| `QuizSpec.Display` | Assets/Scripts/QuizManager.cs:66-84 | never changes list, cursor or score; below the end it shows the decoded question, clears feedback, unlocks True/False and locks Next; at or past the end it shows the summary score/Count, hides True/False/Next and shows Restart; it throws exactly when the list is null |
| `QuizSpec.Answer` | Assets/Scripts/QuizManager.cs:86-103 | score goes up by exactly 1 iff the answer equals `correct_answer` exactly, otherwise stays; feedback Correct/Wrong accordingly; True/False locked and Next unlocked; list and cursor untouched; a null list or a cursor past the end throws and changes nothing |
| `QuizSpec.NextQuestion` | Assets/Scripts/QuizManager.cs:105-108 | cursor up by exactly 1, list and score unchanged; throws only on a null list |
| `QuizSpec.Restart` | Assets/Scripts/QuizManager.cs:110-117 | cursor and score 0, True/False/Next shown, Restart hidden, a fetch started; list, `interactable` flags and labels untouched |
| `QuizSpec.FetchDone` | Assets/Scripts/QuizManager.cs:51-64 | on failure only the pending fetch ends; on success the list becomes the payload's results wholesale, whatever the response code, and cursor and score are kept |
| `QuizSpec.StartIsLoading` | Assets/Scripts/QuizManager.cs:35-48 | the initial state satisfies the invariant, in the loading phase |
| `QuizSpec.AnswerKeepsInv` | Assets/Scripts/QuizManager.cs:86-103 | a True/False click keeps the invariant; it is possible only while asking or when no question is loaded; from asking it leads to answered without exception; it throws exactly when no question can be read |
| `QuizSpec.NextKeepsInv` | Assets/Scripts/QuizManager.cs:105-108 | a Next click keeps the invariant, never throws, and is possible only after an answer or after a failed refetch; after an answer it leads to asking the next question or to the summary |
| `QuizSpec.RestartKeepsInv` | Assets/Scripts/QuizManager.cs:110-117 | Restart is clickable only on the summary and leads to loading with cursor and score 0 |
| `QuizSpec.FetchDoneKeepsInv` | Assets/Scripts/QuizManager.cs:56-62 | a fetch completes only while loading; failure stalls; a non-empty result asks question 0; an empty result shows the summary 0/0 |
| `QuizSpec.ExactlyOnePhase` | Assets/Scripts/QuizManager.cs:66-84 | with no fetch pending, the quiz is in exactly one of stalled, asking, answered, ended |
| `QuizSpec.ButtonsFollowPhase` | Assets/Scripts/QuizManager.cs:71-82 | on the summary only Restart is clickable; while asking only True/False; once answered only Next; Restart is clickable iff the summary is shown |
| `QuizSpec.ScoreBounded` | Assets/Scripts/QuizManager.cs:86-108 | score never exceeds the number of questions, nor the cursor plus one for an answered current question |
| `QuizSpec.IndexBounded` | Assets/Scripts/QuizManager.cs:67-108 | cursor never exceeds the number of questions, except at 1 on an empty list in the summary |
| `QuizSpec.RestartLeavesNextClickable` | Assets/Scripts/QuizManager.cs:102-117 | after the last question is answered and Next clicked, Restart leaves Next clickable while the fetch is pending |
| `QuizSpec.StalledNextSkipsFirstQuestion` | Assets/Scripts/QuizManager.cs:56-108 | after a failed refetch, a Next click asks the old list's second question with score 0 |
| `QuizSpec.Matches` | Assets/Scripts/QuizManager.cs:91-94 | the number of right answers is at most the number of answers, and equals it iff every answer is right |
| `QuizSpec.PlayScores` | Assets/Scripts/QuizManager.cs:86-108 | answering and advancing from an asked question adds exactly the number of right answers to the score and moves the cursor by one per round; after the last question the summary is shown |
| `QuizSpec.FullGameSummary` | Assets/Scripts/QuizManager.cs:56-108 | a full game on a freshly fetched non-empty list ends on the summary m/n, with n the number of questions, m the number of right answers, and m ≤ n |
| `QuizSpec.TwoQuestionGame` | Assets/Scripts/QuizManager.cs:56-108 | questions answered True and False, both answered True, end on 1/2 |
| `Quiz.QuizManager.constructor` | Assets/Scripts/QuizManager.cs:35-48 | the object starts in the `Start` state and satisfies `Valid()` |
| `Quiz.QuizManager.DisplayQuestion` | Assets/Scripts/QuizManager.cs:66-84 | updates the fields exactly as `Display` describes |
| `Quiz.QuizManager.OnAnswer` | Assets/Scripts/QuizManager.cs:86-103 | updates the fields exactly as `Answer` describes and keeps `Valid()`; it throws iff no question can be read, and otherwise leaves the answered phase |
| `Quiz.QuizManager.OnNextQuestion` | Assets/Scripts/QuizManager.cs:105-108 | updates the fields exactly as `NextQuestion` describes, keeps `Valid()` and never throws |
| `Quiz.QuizManager.OnRestart` | Assets/Scripts/QuizManager.cs:110-117 | updates the fields exactly as `Restart` describes, keeps `Valid()`, fetch pending |
| `Quiz.QuizManager.OnFetchDone` | Assets/Scripts/QuizManager.cs:51-64 | updates the fields exactly as `FetchDone` describes and keeps `Valid()` |
| `Quiz.TwoQuestionSession` | Assets/Scripts/QuizManager.cs:43-108 | driving the class through fetch, True, Next, True, Next on the True/False pair yields the summary 1/2 |

## Left out

- The web request is left out: the URL, `UnityWebRequest` and the coroutine's suspension at `yield return`. Completion is the single event `OnFetchDone`, which carries the request's outcome.
- JSON decoding (`JsonUtility.FromJson`) is left out: `OnFetchDone` receives the decoded `TriviaResponse`.
- HTML-entity decoding (`WebUtility.HtmlDecode`) is an arbitrary function supplied to the constructor. Its behaviour is not modelled.
- Logging (`Debug.Log`, `Debug.LogError`) and the text strings the labels render are not modelled. Labels are the values `QuestionText` and `Feedback`.
- The error text of a failed request is not modelled: it is only logged.
- Clicks while a fetch is pending are not modelled: every handler requires `!fetchPending`. What the code does then is an interleaving the invariant does not cover. For example, Next clicked before the new list arrives moves the cursor on the old list.
- The listener wiring in `Start` is not modelled. Its effect is the handlers' button preconditions, plus `IsButtonAnswer` for the strings the True and False buttons pass.
