/** The portfolio chat widget: the keyword table that picks a canned reply,
    and the message list that a send extends with the user's message at once
    and with the reply once a delay has passed. The delay itself is not
    modelled: a send hands back the pending reply, and delivering it is a
    separate step that may happen after other sends. */
module ChatBot {
  import opened JsString

  /** One row of the reply table: a lower-case keyword and its reply. */
  datatype Entry = Entry(key: string, reply: string)

  /** The reply to a message that contains no keyword; it is also the value
      stored under the keyword "default". */
  const DefaultReply: string :=
    "I'm not sure about that specific detail, but I can tell you about the portfolio's projects, skills, or contact information. What would you like to know?"

  /** The reply table, in the insertion order that `Object.entries` walks. */
  const Responses: seq<Entry> := [
    Entry("hello", "Hello! How can I help you learn more about this portfolio?"),
    Entry("hi", "Hi there! Feel free to ask me anything about this portfolio."),
    Entry("details", "The portfolio includes details about the owner, projects, skills, and experiences."),
    Entry("name", "My name is Prativa Dhar"),
    Entry("about", "This is a modern portfolio website built with React and Tailwind CSS. It showcases various projects and skills."),
    Entry("projects", "The portfolio includes several projects that demonstrate different skills and technologies. You can find them in the Projects section .in brief the portfolio includes project related to disaster management."),
    Entry("contact", "You can reach out through the Contact section or find social media links in the portfolio."),
    Entry("skills", "The portfolio showcases various technical skills including React, JavaScript, Tailwind CSS, and more."),
    Entry("technologies", "This portfolio is built using React, Tailwind CSS, and various modern web technologies."),
    Entry("experience", "The portfolio includes details about professional experience and projects in the Experience section."),
    Entry("education", "Educational background and qualifications of the owner is Btech in Computer Science and Engineering can be found in the About section."),
    Entry("social media", "The portfolio includes social media links in the footer section.Also the owner is active on instagram and linkedin."),
    Entry("default", DefaultReply)
  ]

  /** Row `j` of `table` is the first row whose keyword occurs in
      `message`. */
  predicate FirstMatchAt(table: seq<Entry>, message: string, j: int) {
    0 <= j < |table| && Includes(message, table[j].key) &&
    forall l | 0 <= l < j :: !Includes(message, table[l].key)
  }

  /** No keyword of `table` occurs in `message`. */
  predicate NoMatch(table: seq<Entry>, message: string) {
    forall j | 0 <= j < |table| :: !Includes(message, table[j].key)
  }

  /** The `for … of` loop over `table` from row `i` on: the first row at
      or after `i` whose keyword occurs in `message` answers, and
      `fallback` answers when none does. */
  function LookupFrom(table: seq<Entry>, fallback: string, message: string, i: nat): (r: string)
    requires i <= |table|
    ensures (exists j | i <= j < |table| ::
               Includes(message, table[j].key) && r == table[j].reply &&
               forall l | i <= l < j :: !Includes(message, table[l].key))
         || ((forall j | i <= j < |table| :: !Includes(message, table[j].key)) && r == fallback)
    decreases |table| - i
  {
    if i == |table| then fallback
    else if Includes(message, table[i].key) then table[i].reply
    else LookupFrom(table, fallback, message, i + 1)
  }

  /** The whole loop: the reply of the first matching row, or `fallback`
      when no keyword occurs. */
  function Lookup(table: seq<Entry>, fallback: string, message: string): (r: string)
    ensures (exists j :: FirstMatchAt(table, message, j) && r == table[j].reply)
         || (NoMatch(table, message) && r == fallback)
  {
    LookupFrom(table, fallback, message, 0)
  }

  /** The row that answers is determined by the message: there is at most
      one first match. */
  lemma FirstMatchUnique(table: seq<Entry>, message: string, j: int, j': int)
    requires FirstMatchAt(table, message, j) && FirstMatchAt(table, message, j')
    ensures j == j'
  {
  }

  /** A message is answered with the reply of its first matching row. */
  lemma LookupFirstMatch(table: seq<Entry>, fallback: string, message: string, j: int)
    requires FirstMatchAt(table, message, j)
    ensures Lookup(table, fallback, message) == table[j].reply
  {
    if !NoMatch(table, message) {
      var j' :| FirstMatchAt(table, message, j') && Lookup(table, fallback, message) == table[j'].reply;
      FirstMatchUnique(table, message, j, j');
    }
  }

  /** No two rows share a reply. */
  predicate DistinctReplies(table: seq<Entry>) {
    forall a, b | 0 <= a < b < |table| :: table[a].reply != table[b].reply
  }

  /** A table shaped like the component's: distinct replies, the last of
      which is the fallback. */
  predicate FallbackLast(table: seq<Entry>, fallback: string) {
    |table| > 0 && DistinctReplies(table) && table[|table| - 1].reply == fallback
  }

  /** Reading a reply back: in such a table, every row but the last
      answers exactly when it is the first match. */
  lemma LookupIdentifiesRow(table: seq<Entry>, fallback: string, message: string, j: int)
    requires FallbackLast(table, fallback) && 0 <= j < |table| - 1
    ensures Lookup(table, fallback, message) == table[j].reply <==> FirstMatchAt(table, message, j)
  {
    if FirstMatchAt(table, message, j) {
      LookupFirstMatch(table, fallback, message, j);
    }
  }

  /** In such a table the fallback comes back exactly when no keyword
      other than the last row's occurs in the message. */
  lemma LookupFallbackIff(table: seq<Entry>, fallback: string, message: string)
    requires FallbackLast(table, fallback)
    ensures Lookup(table, fallback, message) == fallback <==>
            forall j | 0 <= j < |table| - 1 :: !Includes(message, table[j].key)
  {
    if Lookup(table, fallback, message) == fallback && !NoMatch(table, message) {
      var j' :| FirstMatchAt(table, message, j') && Lookup(table, fallback, message) == table[j'].reply;
      assert j' == |table| - 1;
    } else if forall j | 0 <= j < |table| - 1 :: !Includes(message, table[j].key) {
      if !NoMatch(table, message) {
        LookupFirstMatch(table, fallback, message, |table| - 1);
      }
    }
  }

  /** In such a table every answer is one of the table's replies. */
  lemma LookupInTable(table: seq<Entry>, fallback: string, message: string)
    requires FallbackLast(table, fallback)
    ensures exists j | 0 <= j < |table| :: Lookup(table, fallback, message) == table[j].reply
  {
    var r := Lookup(table, fallback, message);
    if NoMatch(table, message) {
      assert r == table[|table| - 1].reply;
    } else {
      var j :| FirstMatchAt(table, message, j) && r == table[j].reply;
      assert 0 <= j < |table| && r == table[j].reply;
    }
  }

  /** `getPortfolioResponse`. */
  function GetPortfolioResponse(message: string): (reply: string) {
    Lookup(Responses, DefaultReply, message)
  }

  /** The component's table has thirteen rows with distinct replies, the
      last being "default" with the default reply. */
  lemma ResponsesShape()
    ensures |Responses| == 13 && FallbackLast(Responses, DefaultReply)
    ensures Responses[0].key == "hello" && Responses[1].key == "hi" && Responses[12].key == "default"
  {
  }

  /** For every row but "default", its reply comes back exactly when it
      is the first match. */
  lemma ReplyIdentifiesKeyword(message: string, j: int)
    requires 0 <= j < 12
    ensures GetPortfolioResponse(message) == Responses[j].reply <==> FirstMatchAt(Responses, message, j)
  {
    ResponsesShape();
    LookupIdentifiesRow(Responses, DefaultReply, message, j);
  }

  /** The default reply comes back exactly when none of the twelve real
      keywords occurs in the message. */
  lemma DefaultReplyIff(message: string)
    ensures GetPortfolioResponse(message) == DefaultReply <==>
            forall j | 0 <= j < 12 :: !Includes(message, Responses[j].key)
  {
    ResponsesShape();
    LookupFallbackIff(Responses, DefaultReply, message);
  }

  /** Every answer is one of the thirteen replies of the table. */
  lemma ReplyIsFromTable(message: string)
    ensures exists j | 0 <= j < 13 :: GetPortfolioResponse(message) == Responses[j].reply
  {
    ResponsesShape();
    LookupInTable(Responses, DefaultReply, message);
  }

  /** "xyz-unrelated" lacks a character of each of the first four keywords. */
  lemma UnrelatedLacksKeywordsA()
    ensures !Includes("xyz-unrelated", "hello") &&
            !Includes("xyz-unrelated", "hi") &&
            !Includes("xyz-unrelated", "details") &&
            !Includes("xyz-unrelated", "name")
  {
    MissingCharNotIncluded("xyz-unrelated", "hello", 0);
    MissingCharNotIncluded("xyz-unrelated", "hi", 0);
    MissingCharNotIncluded("xyz-unrelated", "details", 4);
    MissingCharNotIncluded("xyz-unrelated", "name", 2);
  }

  /** … of the next four. */
  lemma UnrelatedLacksKeywordsB()
    ensures !Includes("xyz-unrelated", "about") &&
            !Includes("xyz-unrelated", "projects") &&
            !Includes("xyz-unrelated", "contact") &&
            !Includes("xyz-unrelated", "skills")
  {
    MissingCharNotIncluded("xyz-unrelated", "about", 1);
    MissingCharNotIncluded("xyz-unrelated", "projects", 0);
    MissingCharNotIncluded("xyz-unrelated", "contact", 0);
    MissingCharNotIncluded("xyz-unrelated", "skills", 0);
  }

  /** … and of the last four real keywords. */
  lemma UnrelatedLacksKeywordsC()
    ensures !Includes("xyz-unrelated", "technologies") &&
            !Includes("xyz-unrelated", "experience") &&
            !Includes("xyz-unrelated", "education") &&
            !Includes("xyz-unrelated", "social media")
  {
    MissingCharNotIncluded("xyz-unrelated", "technologies", 2);
    MissingCharNotIncluded("xyz-unrelated", "experience", 2);
    MissingCharNotIncluded("xyz-unrelated", "education", 3);
    MissingCharNotIncluded("xyz-unrelated", "social media", 0);
  }

  /** An unrelated message gets the default reply. */
  lemma UnrelatedGetsDefault()
    ensures GetPortfolioResponse("xyz-unrelated") == DefaultReply
  {
    UnrelatedLacksKeywordsA();
    UnrelatedLacksKeywordsB();
    UnrelatedLacksKeywordsC();
    DefaultReplyIff("xyz-unrelated");
  }

  /** "hello" is tried first, so it answers whatever else the message holds. */
  lemma HelloComesFirst(message: string)
    requires Includes(message, "hello")
    ensures GetPortfolioResponse(message) == Responses[0].reply
  {
    ResponsesShape();
    LookupFirstMatch(Responses, DefaultReply, message, 0);
  }

  /** "hi" is tried second and is a substring of many words ("this",
      "which", "anything"), so it shadows every later keyword. */
  lemma HiShadowsLaterKeywords(message: string)
    requires Includes(message, "hi") && !Includes(message, "hello")
    ensures GetPortfolioResponse(message) == Responses[1].reply
  {
    ResponsesShape();
    LookupFirstMatch(Responses, DefaultReply, message, 1);
  }

  /** "which projects" holds "hi" (inside "which") but not "hello". */
  lemma WhichProjectsHasHiOnly()
    ensures Includes("which projects", "hi") && !Includes("which projects", "hello")
  {
    assert OccursAt("which projects", "hi", 1);
    MissingCharNotIncluded("which projects", "hello", 2);
  }

  /** A question about projects that contains the word "which" gets the
      greeting of the "hi" row, not the projects reply. */
  lemma WhichProjectsGetsHi()
    ensures GetPortfolioResponse("which projects") == Responses[1].reply
    ensures GetPortfolioResponse("which projects") != Responses[5].reply
  {
    WhichProjectsHasHiOnly();
    HiShadowsLaterKeywords("which projects");
    ResponsesShape();
  }

  /** The keywords are matched against the lower-cased input, so a keyword
      typed in capitals still selects its row, provided no earlier row
      matches the lower-cased input. */
  lemma KeywordInAnyCase(message: string, typed: string, j: int)
    requires 0 <= j < |Responses| && ToLowerCase(typed) == Responses[j].key
    requires Includes(message, typed)
    requires forall l | 0 <= l < j :: !Includes(ToLowerCase(message), Responses[l].key)
    ensures GetPortfolioResponse(ToLowerCase(message)) == Responses[j].reply
  {
    IncludesLowered(message, typed);
    LookupFirstMatch(Responses, DefaultReply, ToLowerCase(message), j);
  }

  /** "HELLO" in capitals is answered by the "hello" row. */
  lemma ShoutedHello(message: string)
    requires Includes(message, "HELLO")
    ensures GetPortfolioResponse(ToLowerCase(message)) == Responses[0].reply
  {
    assert ToLowerCase("HELLO") == "hello";
    ResponsesShape();
    KeywordInAnyCase(message, "HELLO", 0);
  }

  datatype Role = User | Assistant

  /** One chat bubble. */
  datatype Message = Message(role: Role, content: string)

  datatype Option<T> = None | Some(value: T)

  /** The reply a send has scheduled: the list as it stood right after the
      user's message was added, and the reply text to append to it. */
  datatype PendingReply = PendingReply(snapshot: seq<Message>, reply: string)

  /** The assistant message the list starts with. */
  const Welcome: Message :=
    Message(Assistant, "Hello! I can help answer questions about this portfolio. What would you like to know?")

  /** Input made of white space only, which is what `trim` reduces to
      nothing (`TrimIsEmptyIff`). */
  predicate IsBlank(s: string) {
    forall i | 0 <= i < |s| :: IsWhitespace(s[i])
  }

  /** A list that starts with the welcome message. */
  predicate StartsWithWelcome(log: seq<Message>) {
    log != [] && log[0] == Welcome
  }

  /** The chat state: the message list and the text in the input field.
      `respond` is the reply function the send handler consults; the
      component's widget is built with `GetPortfolioResponse`
      (`PortfolioChat`). */
  class ChatWidget {
    const respond: string -> string
    var messages: seq<Message>
    var inputMessage: string

    predicate Valid()
      reads this
    {
      StartsWithWelcome(messages)
    }

    /** A fresh widget holds only the welcome message and an empty input. */
    constructor (respond: string -> string)
      ensures this.respond == respond
      ensures messages == [Welcome] && inputMessage == ""
      ensures Valid()
    {
      this.respond := respond;
      messages := [Welcome];
      inputMessage := "";
    }

    /** The input's `onChange`: the field takes the typed text. */
    method TypeInput(text: string)
      modifies this
      ensures inputMessage == text && messages == old(messages)
    {
      inputMessage := text;
    }

    /** `handleSendMessage`: blank input is ignored; otherwise the input,
        untrimmed, is appended as a user message, the field is cleared, and
        the reply to the lower-cased input is scheduled against the list as
        it now stands. */
    method HandleSendMessage() returns (pending: Option<PendingReply>)
      modifies this
      ensures IsBlank(old(inputMessage)) ==>
        pending == None && messages == old(messages) && inputMessage == old(inputMessage)
      ensures !IsBlank(old(inputMessage)) ==>
        messages == old(messages) + [Message(User, old(inputMessage))] && inputMessage == "" &&
        pending == Some(PendingReply(messages, respond(ToLowerCase(old(inputMessage)))))
      ensures old(Valid()) ==> Valid() && (pending.Some? ==> StartsWithWelcome(pending.value.snapshot))
    {
      TrimIsEmptyIff(inputMessage);
      if Trim(inputMessage) == [] {
        return None;
      }
      var newMessages := messages + [Message(User, inputMessage)];
      messages := newMessages;
      var response := respond(ToLowerCase(inputMessage));
      inputMessage := "";
      pending := Some(PendingReply(newMessages, response));
    }

    /** The delayed `setMessages`: the list becomes the snapshot taken at
        send time plus the reply, whatever was added in between. */
    method DeliverReply(p: PendingReply)
      modifies this
      ensures messages == p.snapshot + [Message(Assistant, p.reply)]
      ensures inputMessage == old(inputMessage)
      ensures StartsWithWelcome(p.snapshot) ==> Valid()
    {
      messages := p.snapshot + [Message(Assistant, p.reply)];
    }
  }

  /** The widget as the component mounts it: welcome message, empty
      input, and the keyword table as its reply function. */
  method PortfolioChat() returns (chat: ChatWidget)
    ensures fresh(chat) && chat.respond == GetPortfolioResponse
    ensures chat.messages == [Welcome] && chat.inputMessage == ""
  {
    chat := new ChatWidget(GetPortfolioResponse);
  }

  /** One question and its answer: the list reads welcome, question,
      reply, and the reply is the reply function's answer to the
      lower-cased question. */
  method SingleExchange(respond: string -> string, text: string) returns (log: seq<Message>)
    requires !IsBlank(text)
    ensures log == [Welcome, Message(User, text), Message(Assistant, respond(ToLowerCase(text)))]
  {
    var chat := new ChatWidget(respond);
    chat.TypeInput(text);
    var pending := chat.HandleSendMessage();
    chat.DeliverReply(pending.value);
    log := chat.messages;
  }

  /** Submitting "hello" to the component's widget: after the question,
      the delivered reply is the "hello" row's. */
  method HelloExchange() returns (log: seq<Message>)
    ensures log == [Welcome, Message(User, "hello"), Message(Assistant, Responses[0].reply)]
  {
    HelloIsAnswered();
    log := SingleExchange(GetPortfolioResponse, "hello");
  }

  /** "hello" is not blank and is answered by the "hello" row. */
  lemma HelloIsAnswered()
    ensures !IsBlank("hello")
    ensures GetPortfolioResponse(ToLowerCase("hello")) == Responses[0].reply
  {
    assert !IsWhitespace("hello"[0]);
    assert ToLowerCase("hello") == "hello";
    assert OccursAt("hello", "hello", 0);
    HelloComesFirst("hello");
  }

  /** A send whose reply is delivered before anything else happens:
      blank input changes nothing, and otherwise the earlier messages are
      kept and exactly the question and its reply follow them. */
  method SendAndDeliver(chat: ChatWidget)
    modifies chat
    ensures IsBlank(old(chat.inputMessage)) ==>
      chat.messages == old(chat.messages) && chat.inputMessage == old(chat.inputMessage)
    ensures !IsBlank(old(chat.inputMessage)) ==>
      chat.messages == old(chat.messages) + [Message(User, old(chat.inputMessage)),
                                             Message(Assistant, chat.respond(ToLowerCase(old(chat.inputMessage))))] &&
      chat.inputMessage == ""
  {
    var pending := chat.HandleSendMessage();
    if pending.Some? {
      chat.DeliverReply(pending.value);
    }
  }

  /** Blank input leaves the list alone and schedules nothing. */
  method BlankInputIgnored(respond: string -> string, text: string) returns (log: seq<Message>, input: string)
    requires IsBlank(text)
    ensures log == [Welcome] && input == text
  {
    var chat := new ChatWidget(respond);
    chat.TypeInput(text);
    var pending := chat.HandleSendMessage();
    log, input := chat.messages, chat.inputMessage;
  }

  /** A second question sent before the first reply arrives: the first
      reply is shown, then overwritten when the second reply is delivered
      against its own snapshot, so the final list holds both questions but
      only the second reply. */
  method OverlappingSends(respond: string -> string, first: string, second: string)
    returns (shown: seq<Message>, log: seq<Message>)
    requires !IsBlank(first) && !IsBlank(second)
    ensures shown == [Welcome, Message(User, first), Message(Assistant, respond(ToLowerCase(first)))]
    ensures log == [Welcome, Message(User, first), Message(User, second),
                    Message(Assistant, respond(ToLowerCase(second)))]
    ensures forall i | 0 <= i < |log| :: log[i].role == Assistant ==> i == 0 || i == 3
  {
    var chat := new ChatWidget(respond);
    chat.TypeInput(first);
    var p1 := chat.HandleSendMessage();
    chat.TypeInput(second);
    var p2 := chat.HandleSendMessage();
    chat.DeliverReply(p1.value);
    shown := chat.messages;
    chat.DeliverReply(p2.value);
    log := chat.messages;
  }
}
