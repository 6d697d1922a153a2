/**
 * The language model the bots consult, as an oracle.  A request is the user's
 * transcript text or the bytes of their photo; the outcome is what the awaited
 * call produced: an exception (with its message), a response without content
 * (`message.content is None`) or the content text.  Which outcome a request gets
 * is fixed by `answer`; the client records every request it is asked.
 */
module Analysis {
  datatype Request = TextRequest(text: string) | ImageRequest(image: seq<bv8>)

  datatype Outcome = Raised(error: string) | NoContent | Content(text: string)

  class AnalysisClient {
    /** The remote model: the outcome it gives each request. */
    const answer: Request -> Outcome
    /** The requests made so far, oldest first. */
    var requests: seq<Request>

    constructor(answer: Request -> Outcome)
      ensures this.answer == answer && requests == []
    {
      this.answer := answer;
      requests := [];
    }

    /** `analyze_text(text, client)` / `analyze_image(image_bytes, client)`. */
    method Analyze(r: Request) returns (outcome: Outcome)
      modifies this
      ensures requests == old(requests) + [r]
      ensures outcome == answer(r)
    {
      requests := requests + [r];
      outcome := answer(r);
    }
  }
}
