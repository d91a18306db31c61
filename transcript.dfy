/** The chat history the app keeps in `st.session_state.chat_history`: a list of
    (speaker, text) pairs that each accepted submission extends by one user
    turn and one assistant turn, and the order in which the page shows it. */
module Transcript {
  import opened Gemini

  /** The two speaker labels the app writes into the history. */
  datatype Speaker = You | StartItAI

  function SpeakerName(s: Speaker): string
  {
    match s
    case You => "You"
    case StartItAI => "StartIt AI"
  }

  /** One history entry, the pair `(speaker, text)`. */
  datatype Turn = Turn(speaker: Speaker, text: string)

  /** The speaker a well-formed history has at position `i`. */
  function SpeakerAt(i: nat): Speaker
  {
    if i % 2 == 0 then You else StartItAI
  }

  /** The history is a list of complete exchanges: even length, the user at
      every even position and the assistant at every odd one. */
  ghost predicate WellFormed(h: seq<Turn>) {
    |h| % 2 == 0 && forall i :: 0 <= i < |h| ==> h[i].speaker == SpeakerAt(i)
  }

  /** `submitted and user_input`: the form was sent and the input, as a
      Python string, is truthy, that is non-empty (whitespace counts). */
  predicate Accepted(submitted: bool, input: string) {
    submitted && input != []
  }

  /** The history after one run of the submission block: unchanged unless the
      submission is accepted, otherwise extended by the user's turn and then
      the assistant's reply to it. */
  function AfterSubmit(h: seq<Turn>, submitted: bool, input: string, o: Outcome): seq<Turn>
  {
    if Accepted(submitted, input) then h + [Turn(You, input), Turn(StartItAI, Reply(o))] else h
  }

  /** One submission, with what the remote call did for it (ignored when the
      submission is not accepted, since no call is made then). */
  datatype Event = Event(submitted: bool, input: string, outcome: Outcome)

  /** The history after a series of submissions, one per run of the page. */
  function Replay(h: seq<Turn>, evs: seq<Event>): seq<Turn>
    decreases |evs|
  {
    if evs == [] then h
    else Replay(AfterSubmit(h, evs[0].submitted, evs[0].input, evs[0].outcome), evs[1..])
  }

  /** How many of the submissions are accepted. */
  function AcceptedCount(evs: seq<Event>): nat
    decreases |evs|
  {
    if evs == [] then 0
    else (if Accepted(evs[0].submitted, evs[0].input) then 1 else 0) + AcceptedCount(evs[1..])
  }

  /** One submission: a rejected one leaves the history as it was; an accepted
      one adds exactly two entries, the user's input and then the reply, and
      leaves the earlier entries untouched. In both cases a well-formed
      history stays well-formed. */
  lemma SubmitStep(h: seq<Turn>, submitted: bool, input: string, o: Outcome)
    ensures !Accepted(submitted, input) ==> AfterSubmit(h, submitted, input, o) == h
    ensures Accepted(submitted, input) ==>
      var r := AfterSubmit(h, submitted, input, o);
      |r| == |h| + 2 && r[..|h|] == h &&
      r[|h|] == Turn(You, input) && r[|h| + 1] == Turn(StartItAI, Reply(o))
    ensures WellFormed(h) ==> WellFormed(AfterSubmit(h, submitted, input, o))
  {
  }

  /** The labels the app writes: "You" at every even position of a
      well-formed history and "StartIt AI" at every odd one. */
  lemma SpeakerLabels(h: seq<Turn>, i: nat)
    requires WellFormed(h) && i < |h|
    ensures SpeakerName(h[i].speaker) == if i % 2 == 0 then "You" else "StartIt AI"
    ensures SpeakerName(You) != SpeakerName(StartItAI)
  {
  }

  /** Whitespace-only input is truthy and so is recorded, like any other text. */
  lemma WhitespaceInputIsRecorded(h: seq<Turn>, o: Outcome)
    ensures AfterSubmit(h, true, "   ", o) == h + [Turn(You, "   "), Turn(StartItAI, Reply(o))]
    ensures AfterSubmit(h, true, "", o) == h
    ensures AfterSubmit(h, false, "   ", o) == h
  {
  }

  /** After any series of submissions the history has grown by two entries
      per accepted one, the old entries are still its prefix, and a
      well-formed history is still well-formed. */
  lemma {:induction false} ReplayGrowth(h: seq<Turn>, evs: seq<Event>)
    ensures |Replay(h, evs)| == |h| + 2 * AcceptedCount(evs)
    ensures Replay(h, evs)[..|h|] == h
    ensures WellFormed(h) ==> WellFormed(Replay(h, evs))
    decreases |evs|
  {
    if evs != [] {
      var e := evs[0];
      var h' := AfterSubmit(h, e.submitted, e.input, e.outcome);
      SubmitStep(h, e.submitted, e.input, e.outcome);
      ReplayGrowth(h', evs[1..]);
      assert Replay(h, evs)[..|h|] == Replay(h', evs[1..])[..|h'|][..|h|];
    }
  }

  /** A fresh session that asks one question and gets a clean answer. */
  lemma FirstExchange()
    ensures Replay([], [Event(true, "How do I validate my idea?", Replied("Talk to 10 customers."))]) ==
      [Turn(You, "How do I validate my idea?"), Turn(StartItAI, "Talk to 10 customers.")]
  {
    ReplyExample();
    var evs := [Event(true, "How do I validate my idea?", Replied("Talk to 10 customers."))];
    assert evs[1..] == [];
  }

  /** A failed call still adds two entries, the second an error reply. */
  lemma FailedCallAddsTwo(h: seq<Turn>, m: string)
    ensures |AfterSubmit(h, true, "hello", Raised(m))| == |h| + 2
    ensures AfterSubmit(h, true, "hello", Raised(m))[|h| + 1].text[..|"Error from"|] == "Error from"
  {
    ReplyOnFailure(m);
  }

  /** `m` even numbers from `2 * (m - 1)` down to 0. */
  function EvenDescending(m: nat): (r: seq<nat>)
    ensures |r| == m
    ensures forall k :: 0 <= k < m ==> r[k] == 2 * (m - 1 - k)
  {
    if m == 0 then [] else [2 * (m - 1)] + EvenDescending(m - 1)
  }

  /** `reversed(range(0, n, 2))`, the positions the display loop visits. */
  function DisplayIndices(n: nat): seq<nat>
  {
    EvenDescending((n + 1) / 2)
  }

  /** The display loop visits exactly the even positions below `n`, each once,
      in strictly decreasing order: `ceil(n / 2)` of them. */
  lemma DisplayIndicesExact(n: nat)
    ensures |DisplayIndices(n)| == (n + 1) / 2
    ensures forall i: nat :: i in DisplayIndices(n) <==> i < n && i % 2 == 0
    ensures forall j, k :: 0 <= j < k < |DisplayIndices(n)| ==> DisplayIndices(n)[j] > DisplayIndices(n)[k]
  {
    var r := DisplayIndices(n);
    var m := (n + 1) / 2;
    forall i: nat | i < n && i % 2 == 0 ensures i in r {
      assert r[m - 1 - i / 2] == i;
    }
  }

  /** One message box on the page: the user's text and the reply shown under it. */
  datatype Box = Box(user: string, bot: string)

  /** The box for position `i`: the user's entry there and the entry after it,
      or the empty string when there is none. */
  function BoxAt(h: seq<Turn>, i: nat): Box
    requires i < |h|
  {
    Box(h[i].text, if i + 1 < |h| then h[i + 1].text else "")
  }

  /** The boxes the page shows, in the order the display loop produces them. */
  function Display(h: seq<Turn>): seq<Box>
  {
    var idx := DisplayIndices(|h|);
    seq(|idx|, k requires 0 <= k < |idx| => BoxAt(h, idx[k]))
  }

  /** On a well-formed history every box pairs a user turn with the assistant
      turn right after it: the empty-string fallback is never taken, and there
      is one box per exchange. */
  lemma DisplayWellFormed(h: seq<Turn>)
    requires WellFormed(h)
    ensures |Display(h)| == |h| / 2
    ensures forall k :: 0 <= k < |Display(h)| ==>
      var i := DisplayIndices(|h|)[k];
      i + 1 < |h| && h[i].speaker == You && h[i + 1].speaker == StartItAI &&
      Display(h)[k] == Box(h[i].text, h[i + 1].text)
  {
  }

  /** An unmatched trailing user turn is shown first, with an empty reply. */
  lemma DisplayOddTail(h: seq<Turn>)
    requires |h| % 2 == 1
    ensures Display(h)[0] == Box(h[|h| - 1].text, "")
  {
  }

  /** The newest exchange is shown first: after an accepted submission on an
      even-length history the page shows the new box and then the old boxes in
      their old order. */
  lemma {:induction false} DisplayAfterSubmit(h: seq<Turn>, submitted: bool, input: string, o: Outcome)
    requires |h| % 2 == 0
    ensures Display(AfterSubmit(h, submitted, input, o)) ==
      if Accepted(submitted, input) then [Box(input, Reply(o))] + Display(h) else Display(h)
  {
    if Accepted(submitted, input) {
      var h' := AfterSubmit(h, submitted, input, o);
      var m := |h| / 2;
      assert DisplayIndices(|h'|) == EvenDescending(m + 1);
      assert DisplayIndices(|h|) == EvenDescending(m);
      var d, d' := Display(h), Display(h');
      assert |d'| == |d| + 1;
      assert d'[0] == Box(input, Reply(o));
      forall k | 0 <= k < |d| ensures d'[k + 1] == d[k] {
        var i := 2 * (m - 1 - k);
        assert EvenDescending(m + 1)[k + 1] == i;
        assert h'[i] == h[i] && h'[i + 1] == h[i + 1];
      }
      assert d' == [Box(input, Reply(o))] + d;
    }
  }
}
