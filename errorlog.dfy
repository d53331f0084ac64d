/** The error log of ui.js (`logError` over `cache.errors`): messages appended once each, cleared
    explicitly at the start of a run. */
module ErrorLog {
  import opened Text

  /** A call to `logError`: `logError(false)` clears the log; any other argument is a message, and
      `null` or `undefined` (None) is logged as the empty string. */
  datatype Request = Clear | Append(text: Option<string>)

  function MessageOf(text: Option<string>): string {
    match text
    case None => ""
    case Some(t) => t
  }

  /** The log after appending `text`: unchanged when the text is already logged, otherwise
      `text` at the end. */
  function Logged(log: seq<string>, text: string): (r: seq<string>)
    ensures text in r
    ensures forall t :: t in r <==> t in log || t == text
    ensures log <= r
    ensures |r| == if text in log then |log| else |log| + 1
    ensures NoDuplicates(log) ==> NoDuplicates(r)
  {
    if text in log then log else log + [text]
  }

  /** The log after a call to `logError`. */
  function Apply(log: seq<string>, request: Request): (r: seq<string>)
    ensures request.Clear? ==> r == []
    ensures NoDuplicates(log) ==> NoDuplicates(r)
  {
    match request
    case Clear => []
    case Append(text) => Logged(log, MessageOf(text))
  }

  /** Logging the same message twice is the same as logging it once. */
  lemma LoggedIdempotent(log: seq<string>, text: string)
    ensures Logged(Logged(log, text), text) == Logged(log, text)
  {
  }
}
