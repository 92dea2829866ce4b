/** The chat page: a fixed list of three tabs, the active tab, the one
    conversation all tabs share, and the text being typed. Submitting the
    form appends the typed text as a user message unless it is blank. */
module ChatPage {
  import opened JsText
  import opened ChatArea
  import TabNavigation

  const InitialTabs: seq<string> := ["Chat 1", "Chat 2", "Chat 3"]

  /** The opening conversation (the last text is written in two pieces
      only to keep it short per literal; it is one string). */
  const InitialMessages: seq<Message> := [
    Message("bot", "Hello! How can I assist you today?"),
    Message("user", "Tell me a joke!"),
    Message("bot", "Why don\U{2019}t skeletons fight each other?" + " They don\U{2019}t have the guts.")
  ]

  /** The page's state slots `activeTab`, `messages` and `newMessage`. */
  datatype Page = Page(activeTab: nat, messages: seq<Message>, newMessage: string)

  /** The page starts on the first tab with an empty input and a
      three-message conversation opened by the bot, none of it blank. */
  function Initial(): (p: Page)
    ensures p.activeTab == 0 && p.newMessage == ""
    ensures |p.messages| == 3 && !IsUser(p.messages[0]) && IsUser(p.messages[1])
    ensures forall i :: 0 <= i < |p.messages| ==> !IsBlank(p.messages[i].text)
  {
    assert InitialMessages[0].text[0] == 'H' && InitialMessages[1].text[0] == 'T';
    assert InitialMessages[2].text[0] == 'W';
    Page(0, InitialMessages, "")
  }

  /** What the user can do on the page: click a tab, edit the input, or
      submit the form. */
  datatype PageEvent = SelectTab(index: nat) | Input(value: string) | Submit

  /** `sendMessage`: blank input changes nothing; otherwise the input,
      untrimmed, is appended as one user message and the input is cleared. */
  function Send(p: Page): (r: Page)
    ensures r.activeTab == p.activeTab
    ensures IsBlank(p.newMessage) ==> r == p
    ensures !IsBlank(p.newMessage) ==>
              && r.messages == p.messages + [Message("user", p.newMessage)]
              && r.newMessage == ""
  {
    if Trim(p.newMessage) != "" then
      p.(messages := p.messages + [Message("user", p.newMessage)], newMessage := "")
    else p
  }

  /** The page after one event. Selecting a tab touches neither the
      conversation nor the input, since all tabs share one conversation. */
  function Step(p: Page, e: PageEvent): (r: Page)
    ensures e.SelectTab? ==> r == p.(activeTab := e.index)
    ensures e.Input? ==> r == p.(newMessage := e.value)
  {
    match e
    case SelectTab(i) => p.(activeTab := i)
    case Input(v) => p.(newMessage := v)
    case Submit => Send(p)
  }

  /** The page after a sequence of events. Without a submit the
      conversation is untouched, and without a tab click so is the active
      tab. */
  function Run(p: Page, events: seq<PageEvent>): (r: Page)
    ensures (forall j :: 0 <= j < |events| ==> !events[j].Submit?) ==> r.messages == p.messages
    ensures (forall j :: 0 <= j < |events| ==> !events[j].SelectTab?) ==> r.activeTab == p.activeTab
    decreases |events|
  {
    if events == [] then p else Run(Step(p, events[0]), events[1..])
  }

  function CountSubmits(events: seq<PageEvent>): (n: nat)
    ensures n <= |events|
  {
    if events == [] then 0
    else (if events[0].Submit? then 1 else 0) + CountSubmits(events[1..])
  }

  /** Submitting twice in a row sends once: the first send clears the
      input, and the second finds it blank. */
  lemma DoubleSubmitSendsOnce(p: Page)
    ensures Send(Send(p)) == Send(p)
  {
  }

  /** The conversation is append-only: whatever happens, the earlier
      messages stay in place and in order, and every message added is a
      user message whose text is not blank. At most one message is added
      per submit. */
  lemma {:induction false} RunAppendsUserMessages(p: Page, events: seq<PageEvent>)
    ensures var r := Run(p, events);
            && |p.messages| <= |r.messages| <= |p.messages| + CountSubmits(events)
            && r.messages[..|p.messages|] == p.messages
            && forall i :: |p.messages| <= i < |r.messages| ==>
                 IsUser(r.messages[i]) && !IsBlank(r.messages[i].text)
    decreases |events|
  {
    if events != [] {
      var q := Step(p, events[0]);
      RunAppendsUserMessages(q, events[1..]);
      var r := Run(q, events[1..]);
      assert r == Run(p, events);
      assert q.messages[..|p.messages|] == p.messages;
      assert r.messages[..|p.messages|] == r.messages[..|q.messages|][..|p.messages|];
      forall i | |p.messages| <= i < |r.messages|
        ensures IsUser(r.messages[i]) && !IsBlank(r.messages[i].text)
      {
        if i < |q.messages| {
          assert r.messages[i] == q.messages[i];
        }
      }
    }
  }

  /** A successful send adds exactly one bubble, the user's text as typed,
      below the ones already shown. */
  lemma SendRendersOneUserBubble(p: Page)
    requires !IsBlank(p.newMessage)
    ensures RenderMessages(Send(p).messages) == RenderMessages(p.messages) + [UserBubble(p.newMessage)]
  {
  }

  /** The three fixed tabs are "Chat 1" to "Chat 3", the names New Chat
      would have given them. */
  lemma InitialTabsNumbered()
    ensures TabNavigation.Numbered(InitialTabs)
  {
    assert TabNavigation.NewTabName(0) == "Chat 1";
    assert TabNavigation.NewTabName(1) == "Chat 2";
    assert TabNavigation.NewTabName(2) == "Chat 3";
  }

  /** The page component with its state slots. */
  class ChatPageState {
    const tabs: seq<string>
    var activeTab: nat
    var messages: seq<Message>
    var newMessage: string

    function State(): Page
      reads this
    {
      Page(activeTab, messages, newMessage)
    }

    constructor ()
      ensures tabs == InitialTabs && State() == Initial()
    {
      tabs := InitialTabs;
      activeTab, messages, newMessage := 0, InitialMessages, "";
    }

    /** A click on tab row `i`. */
    method SetActiveTab(i: nat)
      requires i < |tabs|
      modifies this
      ensures activeTab == i
      ensures messages == old(messages) && newMessage == old(newMessage)
      ensures State() == Step(old(State()), SelectTab(i))
    {
      activeTab := i;
    }

    /** The input's `onChange`. */
    method SetNewMessage(value: string)
      modifies this
      ensures newMessage == value
      ensures activeTab == old(activeTab) && messages == old(messages)
      ensures State() == Step(old(State()), Input(value))
    {
      newMessage := value;
    }

    /** `sendMessage`, the form's submit handler. */
    method SendMessage()
      modifies this
      ensures State() == Send(old(State()))
      ensures IsBlank(old(newMessage)) ==> messages == old(messages) && newMessage == old(newMessage)
      ensures !IsBlank(old(newMessage)) ==>
                messages == old(messages) + [Message("user", old(newMessage))] && newMessage == ""
      ensures activeTab == old(activeTab)
    {
      if Trim(newMessage) != "" {
        messages := messages + [Message("user", newMessage)];
        newMessage := "";
      }
    }
  }
}
