/** The capture client (app/routes/_index.tsx): one click on the photo button runs
    `handleScreenshot`, which classifies the attempt and updates the component's
    `isLoading` / `error` / `result` state. */
module Client {
  import opened Wrappers

  /** The error messages the client sets, spelled as in the source (typo included). */
  const CaptureFailed := "Failed to captur image"
  const NetworkFailed := "Network response was not ok"
  const AnalysisFailed := "Analysis failed"
  const InvalidStructure := "Invalid response structure"

  /** The `data` field of an answer; each of `book` and `chapter` may be missing. */
  datatype Data = Data(book: Option<string>, chapter: Option<string>)

  /** The decoded `answer` of a POST to /api. A missing `status` is any string other than "error". */
  datatype Answer = Answer(status: string, data: Option<Data>, message: Option<string>)

  /** What the network exchange yields once a request has been sent:
      - Thrown: an `Error` with this message was raised by `fetch`, by `response.json()`,
        or by reading `status` of a body that has no `answer`;
      - NotOk: the response arrived with `ok == false`;
      - Answered: the response was ok and its body held this `answer`. */
  datatype Reply = Thrown(message: string) | NotOk | Answered(answer: Answer)

  /** One call of a React state setter, in the order the handler makes them. */
  datatype Update = SetLoading(loading: bool) | SetError(error: Option<string>) | SetResult(data: Data)

  /** `answer.data?.book` and `answer.data?.chapter` are both truthy. */
  predicate Complete(data: Option<Data>)
    ensures Complete(data) ==> data.Some? && data.value.book.Some? && data.value.chapter.Some?
    ensures Complete(data) ==> |data.value.book.value| > 0 && |data.value.chapter.value| > 0
    ensures data == None ==> !Complete(data)
  {
    data.Some? && Truthy(data.value.book) && Truthy(data.value.chapter)
  }

  /** The error message a semantic failure carries: `answer.message || 'Analysis failed'`. */
  function FailureMessage(message: Option<string>): (m: string)
    ensures m != ""
    ensures Truthy(message) ==> m == message.value
  {
    if Truthy(message) then message.value else AnalysisFailed
  }

  /** The component `Index` with its three pieces of state. */
  class Scanner {
    var isLoading: bool
    var error: Option<string>
    var result: Option<Data>
    /** Every state-setter call made so far, oldest first. */
    ghost var updates: seq<Update>

    /** The initial state of the three `useState` hooks. */
    constructor ()
      ensures !isLoading && error == None && result == None
      ensures updates == []
    {
      isLoading := false;
      error := None;
      result := None;
      updates := [];
    }

    /** The state an attempt settles in, given what `getScreenshot()` returned, the
        outcome of the exchange, the `result` held before the attempt and the image
        posted to /api (`None` when no request is made). */
    predicate Settled(capture: Option<string>, reply: Reply, prior: Option<Data>, sent: Option<string>)
      reads this
    {
      // the busy indicator is off again
      !isLoading
      // a request is made exactly when the capture is truthy, and it carries the capture
      && (sent.Some? <==> Truthy(capture))
      && (sent.Some? ==> sent == capture)
      // falsy capture
      && (!Truthy(capture) ==> error == Some(CaptureFailed) && result == prior)
      // fetch or body decoding raised an error
      && (Truthy(capture) && reply.Thrown? ==> error == Some(reply.message) && result == prior)
      // response not ok
      && (Truthy(capture) && reply.NotOk? ==> error == Some(NetworkFailed) && result == prior)
      // status "error", checked before the data, whatever the data holds
      && (Truthy(capture) && reply.Answered? && reply.answer.status == "error" ==>
            error == Some(FailureMessage(reply.answer.message)) && result == prior)
      // not an error status, but book or chapter missing or empty
      && (Truthy(capture) && reply.Answered? && reply.answer.status != "error" && !Complete(reply.answer.data) ==>
            error == Some(InvalidStructure) && result == prior)
      // any other answer: the result is exactly its data and no error is shown
      && (Truthy(capture) && reply.Answered? && reply.answer.status != "error" && Complete(reply.answer.data) ==>
            error == None && result == reply.answer.data)
    }

    /** The setters of one attempt were appended to the log `before`, in a fixed order:
        busy on, error cleared, one settling update, busy off. */
    ghost predicate Logged(before: seq<Update>)
      reads this
    {
      |updates| == |before| + 4 && updates[..|before|] == before
      && updates[|before|] == SetLoading(true)
      && updates[|before| + 1] == SetError(None)
      && (error.Some? ==> updates[|before| + 2] == SetError(error))
      && (error.None? ==> result.Some? && updates[|before| + 2] == SetResult(result.value))
      && updates[|before| + 3] == SetLoading(false)
    }

    /** One run of `handleScreenshot`. `capture` is what `getScreenshot()` returned;
        `reply` is the outcome of the exchange, used only when a request is made.
        `sent` is the image posted to /api, `None` when no request is made. */
    method HandleScreenshot(capture: Option<string>, reply: Reply) returns (sent: Option<string>)
      modifies this
      ensures Settled(capture, reply, old(result), sent)
      ensures Logged(old(updates))
    {
      isLoading := true;
      updates := updates + [SetLoading(true)];
      error := None;
      updates := updates + [SetError(None)];

      // `thrown` is the message of the Error that reaches the catch block, if any
      var thrown: Option<string> := None;
      sent := None;
      if !Truthy(capture) {
        thrown := Some(CaptureFailed);
      } else {
        sent := capture;
        match reply
        case Thrown(message) =>
          thrown := Some(message);
        case NotOk =>
          thrown := Some(NetworkFailed);
        case Answered(answer) =>
          if answer.status == "error" {
            thrown := Some(FailureMessage(answer.message));
          } else if !Complete(answer.data) {
            thrown := Some(InvalidStructure);
          } else {
            result := answer.data;
            updates := updates + [SetResult(answer.data.value)];
          }
      }

      if thrown.Some? {
        error := thrown;
        updates := updates + [SetError(thrown)];
      }
      isLoading := false;
      updates := updates + [SetLoading(false)];
    }

    /** A click on the photo button (`disabled={isLoading}`): ignored while an attempt
        is in flight, otherwise it runs one attempt. */
    method Click(capture: Option<string>, reply: Reply) returns (started: bool, sent: Option<string>)
      modifies this
      ensures started == !old(isLoading)
      ensures !started ==> sent == None && isLoading == old(isLoading) && error == old(error)
                           && result == old(result) && updates == old(updates)
      ensures started ==> Settled(capture, reply, old(result), sent) && Logged(old(updates))
    {
      started := !isLoading;
      sent := None;
      if started {
        sent := HandleScreenshot(capture, reply);
      }
    }
  }
}
