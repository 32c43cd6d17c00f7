/**
 * The record a stored entry is read back into (message type, text, metadata) and its
 * conversion to a framework message.
 */
module ChatMsgs {
  import opened Wrappers
  import opened Messages
  import opened Errors

  /** A stored message as read back: only type, text and metadata survive. */
  datatype ChatMsg = ChatMsg(messageType: MessageType, text: string, metadata: Metadata)

  /** The fields of a message that a JSON write followed by a read into a `ChatMsg` keeps. */
  function Project(m: Message): ChatMsg {
    ChatMsg(m.Kind(), m.text, m.metadata)
  }

  /** A message without media and without tool calls. */
  predicate Bare(m: Message) {
    match m
    case SystemMessage(_, _) => true
    case UserMessage(_, media, _) => media == []
    case AssistantMessage(_, _, calls, media) => calls == [] && media == []
    case ToolResponseMessage(_, _, _) => false
  }

  /**
   * Converts a record to a framework message: a system message keeps only the text, a user
   * message keeps text and metadata, an assistant message keeps text and metadata with no
   * tool calls and no media; any other type is unsupported.
   */
  function ToMessage(c: ChatMsg): (r: Result<Message, StoreError>)
    ensures r.Success? <==> c.messageType in {System, User, Assistant}
    ensures r.Failure? ==> r.error == UnsupportedMessageType(c.messageType)
    ensures r.Success? ==> r.value.Kind() == c.messageType && r.value.text == c.text && Bare(r.value)
    ensures r.Success? ==> r.value.metadata == if c.messageType == System then map[] else c.metadata
  {
    match c.messageType
    case System => Success(SystemMessage(c.text, map[]))
    case User => Success(UserMessage(c.text, [], c.metadata))
    case Assistant => Success(AssistantMessage(c.text, c.metadata, [], []))
    case Tool => Failure(UnsupportedMessageType(c.messageType))
  }

  /** What a stored message turns into when it is read back and converted. */
  function Reloaded(m: Message): (r: Message)
    requires m.Kind() != Tool
  {
    ToMessage(Project(m)).value
  }

  /**
   * Reading a stored message back keeps its kind and its text, and its metadata unless it
   * is a system message; media and tool calls are lost.
   */
  lemma ReloadedKeeps(m: Message)
    requires m.Kind() != Tool
    ensures ToMessage(Project(m)).Success?
    ensures Reloaded(m).Kind() == m.Kind() && Reloaded(m).text == m.text && Bare(Reloaded(m))
    ensures Reloaded(m).metadata == if m.Kind() == System then map[] else m.metadata
    ensures Bare(m) && m.Kind() != System ==> Reloaded(m) == m
  {
  }

  /**
   * Projecting a converted record gives the record back, except that a system record loses
   * its metadata.
   */
  lemma ProjectInvertsToMessage(c: ChatMsg)
    requires c.messageType != Tool
    ensures Project(ToMessage(c).value) == if c.messageType == System then c.(metadata := map[]) else c
  {
  }
}
