/** The message logic: validation, conflict detection and outcome
    selection for the five operations, each a step from the current store
    to a `Result` and the store after it. */
module MessageLogic {
  import opened Optional
  import opened Text
  import opened Models
  import opened Repository

  /** `GetAllMessagesAsync`: passes the organization's messages through. */
  function GetAllMessages(s: Store, org: Guid): (r: set<Message>)
    ensures forall m :: m in r <==> m.organizationId == org && GetMessage(s, org, m.id) == Some(m)
  {
    GetAllByOrganization(s, org)
  }

  /** `GetMessageAsync`: passes the lookup through. */
  function GetMessage(s: Store, org: Guid, id: Guid): (r: Option<Message>)
    ensures r.Some? <==> (org, id) in s
    ensures r.Some? ==> r.value == s[(org, id)]
    ensures r.Some? ==> r.value.organizationId == org && r.value.id == id
  {
    GetById(s, org, id)
  }

  /** `CreateMessageAsync`. A null, empty or white-space title is rejected
      before the store is consulted; a title already used in the
      organization is a conflict; otherwise one new active message is
      stored under `freshId`, the Guid the new message receives. */
  function CreateMessage(s: Store, org: Guid, request: CreateMessageRequest, freshId: Guid): (r: Reply<Result>)
    requires (org, freshId) !in s
    ensures IsNullOrWhiteSpace(request.title) ==> r == Reply(ValidationError(TitleRequiredErrors), s)
    ensures !IsNullOrWhiteSpace(request.title) && TitleInUse(s, org, request.title.value) ==>
              r == Reply(Conflict(ConflictMessage(request.title.value)), s)
    ensures r.value.Created? <==> !IsNullOrWhiteSpace(request.title) && !TitleInUse(s, org, request.title.value)
    ensures r.value.Created? ==>
              && r.value.value == Message(freshId, org, request.title, request.content, true)
              && GetMessage(r.store, org, freshId) == Some(r.value.value)
              && r.store.Keys == s.Keys + {(org, freshId)}
              && forall k :: k in s ==> r.store[k] == s[k]
    ensures r.value.Created? || r.value.Conflict? || r.value.ValidationError?
  {
    if IsNullOrWhiteSpace(request.title) then
      Reply(ValidationError(TitleRequiredErrors), s)
    else
      var title := request.title.value;
      var existing := GetByTitle(s, org, title);
      if existing.Some? then
        Reply(Conflict(ConflictMessage(title)), s)
      else
        var message := Message(freshId, org, request.title, request.content, true);
        var created := Create(s, message);
        Reply(Created(created.value), created.store)
  }

  /** `UpdateMessageAsync` with the two repository calls seeing possibly
      different states: `s` is the store the lookup reads and `sWrite` the
      store the write meets, which differs from `s` only when another
      request ran in between. A missing target at either point is
      `NotFound`; otherwise title, content and active flag are replaced
      from the request, with no validation of any of them. */
  function UpdateMessageAt(s: Store, sWrite: Store, org: Guid, id: Guid, request: UpdateMessageRequest): (r: Reply<Result>)
    ensures (org, id) !in s ==> r == Reply(NotFound(NotFoundMessage), s)
    ensures (org, id) in s && (org, id) !in sWrite ==> r == Reply(NotFound(NotFoundMessage), sWrite)
    ensures r.value.Updated? <==> (org, id) in s && (org, id) in sWrite
    ensures r.value.Updated? ==>
              && GetMessage(r.store, org, id) == Some(Message(id, org, request.title, request.content, request.isActive))
              && r.store.Keys == sWrite.Keys
              && forall k :: k in sWrite && k != (org, id) ==> r.store[k] == sWrite[k]
    ensures r.value.Updated? || r.value == NotFound(NotFoundMessage)
  {
    var found := GetById(s, org, id);
    if found.None? then
      Reply(NotFound(NotFoundMessage), s)
    else
      var message := found.value.(title := request.title, content := request.content, isActive := request.isActive);
      var updated := Update(sWrite, message);
      if updated.value.None? then
        Reply(NotFound(NotFoundMessage), updated.store)
      else
        Reply(Updated, updated.store)
  }

  /** `UpdateMessageAsync` when no other request intervenes. */
  function UpdateMessage(s: Store, org: Guid, id: Guid, request: UpdateMessageRequest): (r: Reply<Result>)
    ensures r.value.NotFound? <==> (org, id) !in s
    ensures r.value.NotFound? ==> r == Reply(NotFound(NotFoundMessage), s)
    ensures r.value.Updated? ==>
              && GetMessage(r.store, org, id) == Some(Message(id, org, request.title, request.content, request.isActive))
              && r.store.Keys == s.Keys
              && forall k :: k in s && k != (org, id) ==> r.store[k] == s[k]
    ensures r.value.Updated? || r.value.NotFound?
  {
    UpdateMessageAt(s, s, org, id, request)
  }

  /** `DeleteMessageAsync`: `Deleted` exactly when the repository removed
      the message, `NotFound` with nothing changed otherwise. */
  function DeleteMessage(s: Store, org: Guid, id: Guid): (r: Reply<Result>)
    ensures r.value.Deleted? <==> (org, id) in s
    ensures !r.value.Deleted? ==> r == Reply(NotFound(NotFoundMessage), s)
    ensures GetMessage(r.store, org, id) == None
    ensures r.store.Keys == s.Keys - {(org, id)}
    ensures forall k :: k in r.store ==> r.store[k] == s[k]
  {
    var deleted := Delete(s, org, id);
    if !deleted.value then
      Reply(NotFound(NotFoundMessage), deleted.store)
    else
      Reply(Deleted, deleted.store)
  }
}
