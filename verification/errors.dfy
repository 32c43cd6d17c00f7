/** The exceptions the chat memory can raise, as values. */
module Errors {
  import opened Messages

  datatype StoreError =
      /** A message could not be written as JSON. */
    | SerializationFailed
      /** A stored entry could not be read back as a chat record. */
    | DeserializationFailed
      /** A null reference was dereferenced: a JSON null record, or a missing or null id. */
    | NullReference
      /** A chat record whose type has no message class to convert to. */
    | UnsupportedMessageType(messageType: MessageType)
}
