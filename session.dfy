/** One browser session's state (`st.session_state`) and one run of the page
    script over it: the lazy creation of the chat handle and of the history,
    the submission block, the display loop and the graph test, in that order. */
module Session {
  import opened Text
  import opened Gemini
  import opened Transcript

  /** The conversation object returned by `model.start_chat(...)`, opaque
      here: the model it talks to and an identity for the object. */
  datatype ChatHandle = ChatHandle(model: string, id: nat)

  const ModelName := "gemini-1.5-flash"

  /** The handle a run would create, `genai.GenerativeModel(ModelName).start_chat(...)`. */
  function StartChat(id: nat): ChatHandle
  {
    ChatHandle(ModelName, id)
  }

  /** The two session fields the app uses; `None` stands for a key that is not
      yet in `st.session_state`. */
  class SessionState {
    var chat: Option<ChatHandle>
    var chatHistory: Option<seq<Turn>>

    /** An existing history consists of complete user/assistant exchanges. */
    ghost predicate Valid()
      reads this
    {
      chatHistory.Some? ==> WellFormed(chatHistory.value)
    }

    /** A new session holds neither key. */
    constructor ()
      ensures chat == None && chatHistory == None
      ensures Valid()
    {
      chat := None;
      chatHistory := None;
    }

    /** `if "chat" not in st.session_state: st.session_state.chat = ...`:
        the handle is stored only when there is none, and never replaced. */
    method InitChat(created: ChatHandle)
      modifies this`chat
      ensures chat == if old(chat).None? then Some(created) else old(chat)
    {
      if chat.None? {
        chat := Some(created);
      }
    }

    /** `if "chat_history" not in st.session_state: ... = []`: an empty
        history is stored only when there is none, and never cleared. */
    method InitHistory()
      requires Valid()
      modifies this`chatHistory
      ensures chatHistory == if old(chatHistory).None? then Some([]) else old(chatHistory)
      ensures Valid()
    {
      if chatHistory.None? {
        chatHistory := Some([]);
      }
    }

    /** The submission block: for an accepted submission, append the user's
        turn, compute the reply from the call's outcome, append the reply. */
    method Submit(submitted: bool, userInput: string, outcome: Outcome)
      requires Valid() && chatHistory.Some?
      modifies this`chatHistory
      ensures chatHistory == Some(AfterSubmit(old(chatHistory.value), submitted, userInput, outcome))
      ensures Valid()
    {
      ghost var h := chatHistory.value;
      SubmitStep(h, submitted, userInput, outcome);
      if submitted && userInput != [] {
        chatHistory := Some(chatHistory.value + [Turn(You, userInput)]);
        var botReply := Reply(outcome);
        chatHistory := Some(chatHistory.value + [Turn(StartItAI, botReply)]);
        assert chatHistory.value == h + [Turn(You, userInput), Turn(StartItAI, botReply)];
      }
    }

    /** The display loop: even positions from the last one down to 0, each
        giving the user's entry and the entry after it, or "" past the end. */
    method Render() returns (boxes: seq<Box>)
      requires chatHistory.Some?
      ensures boxes == Display(chatHistory.value)
    {
      var h := chatHistory.value;
      var n := |h|;
      var i: int := if n % 2 == 0 then n - 2 else n - 1;
      boxes := [];
      while i >= 0
        invariant -2 <= i < n && i % 2 == 0
        invariant |boxes| == (n + 1) / 2 - 1 - i / 2
        invariant forall k :: 0 <= k < |boxes| ==> boxes[k] == Display(h)[k]
        decreases i + 2
      {
        var userMessage := h[i].text;
        var botMessage := if i + 1 < n then h[i + 1].text else "";
        boxes := boxes + [Box(userMessage, botMessage)];
        i := i - 2;
      }
    }

    /** One run of the page script. `created` is the handle the run would make
        if the session has none; `outcome` is what the remote call does if the
        submission is accepted. The graph test reads only the input. */
    method Rerun(created: ChatHandle, submitted: bool, userInput: string, outcome: Outcome)
      returns (boxes: seq<Box>, showGraph: bool)
      requires Valid()
      modifies this
      ensures Valid()
      ensures chat == if old(chat).None? then Some(created) else old(chat)
      ensures chatHistory ==
        Some(AfterSubmit(if old(chatHistory).None? then [] else old(chatHistory).value,
                         submitted, userInput, outcome))
      ensures boxes == Display(chatHistory.value)
      ensures showGraph == GraphHint(userInput)
    {
      InitChat(created);
      InitHistory();
      Submit(submitted, userInput, outcome);
      boxes := Render();
      showGraph := GraphHint(userInput);
    }
  }

  /** Two runs of one session: the handle of the first run is kept, the
      history grows by two entries per accepted submission, and the newest
      exchange is shown first. */
  method TwoRuns()
  {
    var s := new SessionState();
    var boxes, graph := s.Rerun(StartChat(1), true, "How do I validate my idea?", Replied("Talk to 10 customers."));
    FirstExchange();
    assert s.chatHistory == Some([Turn(You, "How do I validate my idea?"), Turn(StartItAI, "Talk to 10 customers.")]);
    assert s.chat == Some(StartChat(1));
    var h1 := s.chatHistory.value;
    DisplayAfterSubmit([], true, "How do I validate my idea?", Replied("Talk to 10 customers."));
    assert boxes == [Box("How do I validate my idea?", "Talk to 10 customers.")];

    boxes, graph := s.Rerun(StartChat(2), true, "show me a graph please", Raised("quota exceeded"));
    GraphHintOnRequest();
    assert graph;
    assert s.chat == Some(StartChat(1));
    assert |s.chatHistory.value| == 4;
    DisplayAfterSubmit(h1, true, "show me a graph please", Raised("quota exceeded"));
    assert boxes[0] == Box("show me a graph please", ErrorPrefix + "quota exceeded");
    assert boxes[1] == Box("How do I validate my idea?", "Talk to 10 customers.");
  }
}
