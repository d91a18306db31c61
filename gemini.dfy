/** How the app turns one call to the remote chat into the text it records
    (`get_gemini_response`). The call itself is foreign: its result enters the
    model as an `Outcome`, the response text or the message of the exception. */
module Gemini {
  import opened Text

  /** What `chat.send_message(message)` did: it returned a response whose
      `text` is given, or it raised an exception whose `str(e)` is given. */
  datatype Outcome = Replied(text: string) | Raised(message: string)

  datatype Option<T> = None | Some(value: T)

  const ErrorPrefix := "Error from Gemini API: "

  /** The text the app records for the assistant: the stripped response text,
      or the error prefix followed by the exception's message. */
  function Reply(o: Outcome): string
  {
    match o
    case Replied(t) => Strip(t)
    case Raised(m) => ErrorPrefix + m
  }

  /** The message behind an error reply, when the text has the error form. */
  function ErrorMessage(reply: string): Option<string>
  {
    if |ErrorPrefix| <= |reply| && reply[..|ErrorPrefix|] == ErrorPrefix
    then Some(reply[|ErrorPrefix|..])
    else None
  }

  /** A failed call still yields a reply; it starts with "Error from" and the
      exception's message can be read back from it unchanged. */
  lemma ReplyOnFailure(m: string)
    ensures Reply(Raised(m))[..|"Error from"|] == "Error from"
    ensures ErrorMessage(Reply(Raised(m))) == Some(m)
  {
    assert (ErrorPrefix + m)[..|ErrorPrefix|] == ErrorPrefix;
    assert (ErrorPrefix + m)[|ErrorPrefix|..] == m;
  }

  /** A successful call yields the response text with its surrounding
      whitespace, and only that, removed: `Reply` picks the one trimmed window. */
  lemma ReplyOnSuccess(t: string, a: nat, b: nat)
    requires Trimmed(t, a, b)
    ensures Reply(Replied(t)) == t[a..b]
  {
    TrimmedIsStrip(t, a, b);
  }

  /** A successful reply has no whitespace at either end, so recording it
      again through `Reply` would not change it. */
  lemma {:induction false} ReplyOnSuccessIsStripped(t: string)
    ensures Reply(Replied(t)) != [] ==> !IsSpace(Reply(Replied(t))[0])
    ensures Reply(Replied(t)) != [] ==> !IsSpace(Reply(Replied(t))[|Reply(Replied(t))| - 1])
    ensures Reply(Replied(Reply(Replied(t)))) == Reply(Replied(t))
  {
    StripEdges(t);
    StripIdempotent(t);
  }

  /** The end-to-end example: a clean response is recorded as is. */
  lemma ReplyExample()
    ensures Reply(Replied("Talk to 10 customers.")) == "Talk to 10 customers."
    ensures Reply(Replied("  Talk to 10 customers.\n")) == "Talk to 10 customers."
  {
    var s := "  Talk to 10 customers.\n";
    assert Trimmed(s, 2, |s| - 1);
    ReplyOnSuccess(s, 2, |s| - 1);
    assert s[2..|s| - 1] == "Talk to 10 customers.";
    var c := "Talk to 10 customers.";
    assert Trimmed(c, 0, |c|);
    ReplyOnSuccess(c, 0, |c|);
    assert c[0..|c|] == c;
  }
}
