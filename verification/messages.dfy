/**
 * The conversational messages the chat memory stores: the framework's message classes
 * reduced to the data they carry.
 */
module Messages {

  /** Who produced a message. */
  datatype MessageType = User | Assistant | System | Tool

  /** A metadata value as a JSON value; objects, arrays and fractions stay opaque. */
  datatype MetaValue = Str(s: string) | Number(n: int) | Boolean(b: bool) | Null | Opaque(json: string)

  /** A message's metadata: string keys to JSON values. */
  type Metadata = map<string, MetaValue>

  /** An attachment of a user or assistant message. */
  datatype Media = Media(mimeType: string, data: string)

  /** A tool invocation requested by the assistant. */
  datatype ToolCall = ToolCall(id: string, name: string, arguments: string)

  /** A tool's answer to one tool call. */
  datatype ToolResponse = ToolResponse(id: string, name: string, responseData: string)

  /** A message of one of the four kinds. */
  datatype Message =
    | SystemMessage(text: string, metadata: Metadata)
    | UserMessage(text: string, media: seq<Media>, metadata: Metadata)
    | AssistantMessage(text: string, metadata: Metadata, toolCalls: seq<ToolCall>, media: seq<Media>)
    | ToolResponseMessage(text: string, responses: seq<ToolResponse>, metadata: Metadata)
  {
    /** The message type the framework reports for this message. */
    function Kind(): MessageType {
      match this
      case SystemMessage(_, _) => System
      case UserMessage(_, _, _) => User
      case AssistantMessage(_, _, _, _) => Assistant
      case ToolResponseMessage(_, _, _) => Tool
    }
  }
}
