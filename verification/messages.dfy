/**
 * The conversation log kept for the generation backend (Go `generator.Messages`): a list of
 * messages tagged by role, created with a system prompt and only ever appended to.
 */
module Generator {

  /** The three message roles (Go `openai.Role`, whose only field is the role's name). */
  datatype Role = System | User | Assistant

  datatype Message = Message(role: Role, content: string)

  datatype Messages = Messages(messages: seq<Message>)

  /** A log holding only the system prompt. */
  function NewMessages(system: string): (m: Messages)
    ensures |m.messages| == 1
    ensures m.messages[0].role == System && m.messages[0].content == system
  {
    Messages([Message(System, system)])
  }

  /** Appends one message with role `role`; everything logged before stays as it was. */
  function Append(m: Messages, role: Role, message: string): (m': Messages)
    ensures |m'.messages| == |m.messages| + 1
    ensures m'.messages[..|m.messages|] == m.messages
    ensures m'.messages[|m.messages|] == Message(role, message)
  {
    Messages(m.messages + [Message(role, message)])
  }

  function AddUserMessage(m: Messages, message: string): (m': Messages)
    ensures |m'.messages| == |m.messages| + 1
    ensures m'.messages[..|m.messages|] == m.messages
    ensures m'.messages[|m.messages|].role == User && m'.messages[|m.messages|].content == message
  {
    Append(m, User, message)
  }

  function AddAssistantMessage(m: Messages, message: string): (m': Messages)
    ensures |m'.messages| == |m.messages| + 1
    ensures m'.messages[..|m.messages|] == m.messages
    ensures m'.messages[|m.messages|].role == Assistant && m'.messages[|m.messages|].content == message
  {
    Append(m, Assistant, message)
  }

  function GetMessages(m: Messages): seq<Message> {
    m.messages
  }

  /** The index of the latest assistant message in `msgs`, or -1 when there is none. */
  function LastAssistantIndex(msgs: seq<Message>): (k: int)
    ensures -1 <= k < |msgs|
    ensures k >= 0 ==> msgs[k].role == Assistant
    ensures forall j | k < j < |msgs| :: msgs[j].role != Assistant
  {
    if |msgs| == 0 then -1
    else if msgs[|msgs| - 1].role == Assistant then |msgs| - 1
    else LastAssistantIndex(msgs[..|msgs| - 1])
  }

  /**
   * The content of the latest assistant message in `msgs`, or "" when there is none: the Go
   * loop scans from the end and returns at the first assistant message it meets.
   */
  function LastAssistantIn(msgs: seq<Message>): (r: string)
    ensures var k := LastAssistantIndex(msgs); r == if k < 0 then "" else msgs[k].content
    ensures (exists i | 0 <= i < |msgs| :: msgs[i].role == Assistant) ==>
      exists i | 0 <= i < |msgs| ::
        && msgs[i].role == Assistant
        && r == msgs[i].content
        && forall j | i < j < |msgs| :: msgs[j].role != Assistant
    ensures (forall i | 0 <= i < |msgs| :: msgs[i].role != Assistant) ==> r == ""
  {
    if |msgs| == 0 then ""
    else if msgs[|msgs| - 1].role == Assistant then msgs[|msgs| - 1].content
    else LastAssistantIn(msgs[..|msgs| - 1])
  }

  /** `LastAsistantMessage()` of the log. */
  function LastAssistantMessage(m: Messages): (r: string)
    ensures var k := LastAssistantIndex(m.messages);
      r == if k < 0 then "" else m.messages[k].content
  {
    LastAssistantIn(m.messages)
  }

  /** A fresh log has no assistant message yet. */
  lemma NewHasNoAssistantMessage(system: string)
    ensures LastAssistantMessage(NewMessages(system)) == ""
  {
  }

  /** The message just added by the assistant is the last assistant message. */
  lemma AddAssistantThenLast(m: Messages, message: string)
    ensures LastAssistantMessage(AddAssistantMessage(m, message)) == message
  {
  }

  /** Adding a user message never changes the last assistant message. */
  lemma AddUserKeepsLast(m: Messages, message: string)
    ensures LastAssistantMessage(AddUserMessage(m, message)) == LastAssistantMessage(m)
  {
    var msgs := AddUserMessage(m, message).messages;
    assert msgs[..|msgs| - 1] == m.messages;
  }

  /** One turn of the conversation as the backend records it. */
  datatype Turn = UserTurn(text: string) | AssistantTurn(text: string)

  function Record(m: Messages, t: Turn): Messages {
    match t
    case UserTurn(text) => AddUserMessage(m, text)
    case AssistantTurn(text) => AddAssistantMessage(m, text)
  }

  /** The log after the system prompt and then `turns`, in order. */
  function Replay(system: string, turns: seq<Turn>): Messages
    decreases |turns|
  {
    if |turns| == 0 then NewMessages(system)
    else Record(Replay(system, turns[..|turns| - 1]), turns[|turns| - 1])
  }

  /** The message of a turn. */
  function MessageOf(t: Turn): Message {
    match t
    case UserTurn(text) => Message(User, text)
    case AssistantTurn(text) => Message(Assistant, text)
  }

  /**
   * `GetMessages` lists the system prompt and then one message per recorded turn, in insertion
   * order: its length is one plus the number of additions.
   */
  lemma {:induction false} ReplayLog(system: string, turns: seq<Turn>)
    ensures var msgs := GetMessages(Replay(system, turns));
      && |msgs| == |turns| + 1
      && msgs[0] == Message(System, system)
      && forall k | 0 <= k < |turns| :: msgs[k + 1] == MessageOf(turns[k])
  {
    if |turns| > 0 {
      var prefix := turns[..|turns| - 1];
      ReplayLog(system, prefix);
      var before := GetMessages(Replay(system, prefix));
      var msgs := GetMessages(Replay(system, turns));
      assert msgs[..|before|] == before;
      forall k | 0 <= k < |turns|
        ensures msgs[k + 1] == MessageOf(turns[k])
      {
        if k < |turns| - 1 {
          assert prefix[k] == turns[k];
          assert msgs[k + 1] == before[k + 1];
        }
      }
    }
  }
}
