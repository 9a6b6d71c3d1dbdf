/** The entities and the outcome type the message logic works with. */
module Models {
  import opened Optional
  import opened Text

  /** A `System.Guid`. Only equality and freshness matter to the logic. */
  type Guid = nat

  /** One organization's message. `title` and `content` are nullable because
      the logic copies request fields into them without a null check. */
  datatype Message = Message(
    id: Guid,
    organizationId: Guid,
    title: NullableString,
    content: NullableString,
    isActive: bool)

  /** Body of a create request. */
  datatype CreateMessageRequest = CreateMessageRequest(title: NullableString, content: NullableString)

  /** Body of an update request: every field is a replacement value. */
  datatype UpdateMessageRequest = UpdateMessageRequest(title: NullableString, content: NullableString, isActive: bool)

  /** The closed set of outcomes the logic reports instead of throwing.
      `ValidationError` maps a field name to its error messages. */
  datatype Result =
    | Created(value: Message)
    | Conflict(message: string)
    | ValidationError(errors: map<string, seq<string>>)
    | NotFound(message: string)
    | Updated
    | Deleted

  const NotFoundMessage: string := "Message not found."
  const TitleRequiredErrors: map<string, seq<string>> := map["Title" := ["Title is required."]]

  /** The text of the conflict reported for a title already in use; the
      title can be read back from it. */
  function ConflictMessage(title: string): (r: string)
    ensures |r| == |title| + 37
    ensures r[20..|r| - 17] == title
  {
    "Message with title '" + title + "' already exists."
  }
}
