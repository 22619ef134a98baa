/** The recognition service's route module (app/routes/api/index.tsx): the `action`
    that turns the hosted model's reply into a stored answer, the module-level `storageData`
    array it appends to, and the `loader` that reads that array. */
module Api {
  import opened Wrappers
  import Fence

  /** What `action` returns. `Answer` is the JSON response `{answer: v}`. `Failure` is
      what the catch block evaluates to: its misplaced parenthesis makes the comma
      operator discard the error `Response` and return the plain object literal
      `{status: 429, headers: ...}` instead. */
  datatype ActionResponse<V> = Answer(answer: V) | Failure

  /** The text-to-answer pipeline of one action: strip the fences off the hosted model's
      reply, then `JSON.parse` it. `reply` is `None` when anything before it failed (the
      request body, the image fetch or the hosted model's call); `parse` is `None` on a
      parse error. A reply without fences reaches the parser untouched. */
  function Parsed<V>(reply: Option<string>, parse: string -> Option<V>): (r: Option<V>)
    ensures reply.None? ==> r.None?
    ensures reply.Some? && !Fence.HasDelimiter(reply.value) ==> r == parse(reply.value)
  {
    match reply
    case None => None
    case Some(text) => Fence.StripUnchangedIff(text); parse(Fence.Strip(text))
  }

  /** A reply in the shape the prompt asks for, a backtick-free JSON text wrapped in a
      ```json fence, is parsed as that JSON text. */
  lemma ParsedFenced<V>(j: string, parse: string -> Option<V>)
    requires Fence.NoBacktick(j)
    ensures Parsed(Some(Fence.Open + j + Fence.Close), parse) == parse(j)
  {
    Fence.StripWrapped(j);
  }

  /** The log after one action: the parsed answer is pushed if there is one. */
  function Pushed<V>(log: seq<V>, reply: Option<string>, parse: string -> Option<V>): seq<V>
  {
    match Parsed(reply, parse)
    case None => log
    case Some(v) => log + [v]
  }

  /** The log after a sequence of actions, oldest first. */
  function Run<V>(log: seq<V>, replies: seq<Option<string>>, parse: string -> Option<V>): seq<V>
    decreases |replies|
  {
    if replies == [] then log
    else Run(Pushed(log, replies[0], parse), replies[1..], parse)
  }

  /** The answer of the first of `replies` that parses, if any. */
  function FirstParsed<V>(replies: seq<Option<string>>, parse: string -> Option<V>): Option<V>
    decreases |replies|
  {
    if replies == [] then None
    else if Parsed(replies[0], parse).Some? then Parsed(replies[0], parse)
    else FirstParsed(replies[1..], parse)
  }

  /** `storageData[0]`: `undefined` on an empty log. */
  function Head<V>(log: seq<V>): Option<V>
  {
    if log == [] then None else Some(log[0])
  }

  /** The module-level state of the route: `const storageData: any[] = []`. */
  class Route<V> {
    var storageData: seq<V>

    constructor ()
      ensures storageData == []
    {
      storageData := [];
    }

    /** `loader`: `storageData[0]`, nothing while the log is empty. */
    function Loader(): (r: Option<V>)
      reads this
      ensures r.Some? <==> storageData != []
      ensures r.Some? ==> r.value == storageData[0]
    {
      Head(storageData)
    }

    /** `action`: one POST. The answer is pushed only after a successful parse, and the
        value returned is the value pushed. */
    method Action(reply: Option<string>, parse: string -> Option<V>) returns (resp: ActionResponse<V>)
      modifies this
      ensures resp.Answer? <==> reply.Some? && parse(Fence.Strip(reply.value)).Some?
      ensures resp.Answer? ==> Some(resp.answer) == parse(Fence.Strip(reply.value))
      ensures resp.Answer? ==> storageData == old(storageData) + [resp.answer]
      ensures resp.Failure? ==> storageData == old(storageData)
      ensures storageData == Run(old(storageData), [reply], parse)
      ensures old(storageData) != [] ==> Loader() == old(Loader())
      ensures old(storageData) == [] && resp.Answer? ==> Loader() == Some(resp.answer)
    {
      if reply.None? {
        return Failure;
      }
      var text := Fence.Strip(reply.value);
      var result := parse(text);
      if result.None? {
        return Failure;
      }
      storageData := storageData + [result.value];
      resp := Answer(result.value);
    }
  }

  /** Actions only ever append: the log before a run is a prefix of the log after it,
      and a run grows it by at most one element per action. */
  lemma {:induction false} RunAppendsOnly<V>(log: seq<V>, replies: seq<Option<string>>, parse: string -> Option<V>)
    ensures log <= Run(log, replies, parse)
    ensures |Run(log, replies, parse)| <= |log| + |replies|
    decreases |replies|
  {
    if replies != [] {
      var next := Pushed(log, replies[0], parse);
      RunAppendsOnly(next, replies[1..], parse);
    }
  }

  /** The loader after any run of actions: the first result ever stored, i.e. the head of
      the earlier log if it had one, otherwise the first reply of the run that parsed. */
  lemma {:induction false} LoaderAfterRun<V>(log: seq<V>, replies: seq<Option<string>>, parse: string -> Option<V>)
    ensures Head(Run(log, replies, parse)) == if log != [] then Head(log) else FirstParsed(replies, parse)
    decreases |replies|
  {
    if replies != [] {
      var next := Pushed(log, replies[0], parse);
      LoaderAfterRun(next, replies[1..], parse);
      if log != [] {
        assert next[0] == log[0];
      }
    }
  }

  /** Running two batches of actions one after the other is running them as one batch,
      so the lemmas about `Run` cover any number of successive `action` calls. */
  lemma {:induction false} RunConcat<V>(log: seq<V>, a: seq<Option<string>>, b: seq<Option<string>>, parse: string -> Option<V>)
    ensures Run(Run(log, a, parse), b, parse) == Run(log, a + b, parse)
    decreases |a|
  {
    if a == [] {
      assert a + b == b;
    } else {
      var next := Pushed(log, a[0], parse);
      RunConcat(next, a[1..], b, parse);
      assert (a + b)[0] == a[0];
      assert (a + b)[1..] == a[1..] + b;
    }
  }

  /** A run in which nothing parses leaves the log, and so the loader's answer, as it was. */
  lemma {:induction false} FailedRunUnchanged<V>(log: seq<V>, replies: seq<Option<string>>, parse: string -> Option<V>)
    requires forall k :: 0 <= k < |replies| ==> Parsed(replies[k], parse).None?
    ensures Run(log, replies, parse) == log
    decreases |replies|
  {
    if replies != [] {
      assert Parsed(replies[0], parse).None?;
      FailedRunUnchanged(log, replies[1..], parse);
    }
  }
}
