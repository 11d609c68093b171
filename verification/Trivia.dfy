/**
  The records the trivia service's JSON payload is decoded into, and the two
  ways a web request for them can end.
 */
module Trivia {

  /** A reference that may be null: `Some(v)` or `None`. */
  datatype Option<+T> = None | Some(value: T)

  /** One entry of the `results` list: a true/false question and its answers. */
  datatype TriviaQuestion = TriviaQuestion(
    category: string,
    questionType: string,     // the JSON field `type`
    difficulty: string,
    question: string,         // HTML-entity-encoded as received
    correctAnswer: string,    // the JSON field `correct_answer`
    incorrectAnswers: seq<string>)

  /** The whole payload: the service's status code and the question list. */
  datatype TriviaResponse = TriviaResponse(responseCode: int, results: seq<TriviaQuestion>)

  /**
    How the web request ended. `Received` is a request whose result is
    `Success`, carrying the payload as the JSON decoder produced it; every
    other result is `Failed`, carrying the request's error text.
   */
  datatype FetchOutcome = Received(response: TriviaResponse) | Failed(error: string)
}
